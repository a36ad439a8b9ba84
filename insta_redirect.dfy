/**
 * Instagram direct-message redirector: on `/direct/t/NAME` it looks NAME up,
 * case-sensitively, in a table of nicknames and replaces the page with the
 * numeric thread the nickname stands for.
 */
module InstaRedirect {
  import opened Maybe
  import opened JsText
  import opened JsObject
  import IgThread

  /** Nickname to thread id. */
  const Redirects: map<string, string> := map[
    "Riya" := "17843088840319857",
    "Basement" := "9804712362974725",
    "Barshon" := "17849539664607285",
    "Barushu" := "17849539664607285",
    "Shreya" := "1421105996287938",
    "Prionto" := "17846226593822368",
    "Prio" := "17846226593822368",
    "Darling" := "17846226593822368",
    "Ankan" := "105870034142833",
    "Anki" := "105870034142833",
    "Khalid" := "17849224223494131",
    "Khalu" := "17849224223494131",
    "Sujoy" := "17844082992109595",
    "Suji" := "17844082992109595",
    "Antar" := "17845605576211591",
    "AJ" := "17845605576211591",
    "Lokkhi" := "17843088840319857",
    "Bishakha" := "17846265992645472",
    "20" := "17846265992645472",
    "Bish" := "17846265992645472",
    "Apurbo" := "17848945131046879",
    "Apurbo2" := "17848945131046879",
    "Riya2" := "17842703340524797",
    "Kitty" := "17842703340524797",
    "Khalid2" := "17845325259431010",
    "Shirsha" := "17842103414112951"
  ]

  const DirectUrl: string := "https://www.instagram.com/direct/t/"

  /** `pathname.split("/")[3]`: the fourth piece of the path, if there is one. */
  function Name(path: string): (r: Option<string>)
    ensures r.Some? <==> |Split(path, '/')| > 3
    ensures r.Some? ==> r.value == Split(path, '/')[3] && '/' !in r.value
  {
    var parts := Split(path, '/');
    SplitPiecesFree(path, '/');
    if |parts| > 3 then Some(parts[3]) else None
  }

  /** The page the script replaces the current one with, if any. */
  function Target(path: string): (r: Option<string>)
    ensures r.Some? ==> Name(path).Some? && Name(path).value in Redirects
                        && r.value == DirectUrl + Redirects[Name(path).value] + "/" && StartsWith(r.value, DirectUrl)
    ensures Name(path).Some? && Name(path).value in Redirects ==> r.Some?
  {
    match Name(path)
    case Some(n) =>
      if n != "" && n in Redirects && Redirects[n] != "" then Some(DirectUrl + Redirects[n] + "/") else None
    case None => None
  }

  /** The name read from `/direct/t/NAME`, followed by nothing or by more path. */
  lemma NameOfDirectPath(name: string, rest: string)
    requires '/' !in name
    requires rest == [] || rest[0] == '/'
    ensures Name(IgThread.DirectPrefix + name + rest) == Some(name)
  {
    var tail := name + rest;
    assert IgThread.DirectPrefix + name + rest == "" + "/" + ("direct" + "/" + ("t" + "/" + tail));
    SplitPieceThenSeparator("", "direct" + "/" + ("t" + "/" + tail), '/');
    SplitPieceThenSeparator("direct", "t" + "/" + tail, '/');
    SplitPieceThenSeparator("t", tail, '/');
    SplitPrefix(name, rest, '/');
    if rest == [] {
      assert Split(rest, '/') == [""];
    } else {
      assert rest == [] + ['/'] + rest[1..];
      SplitPieceThenSeparator([], rest[1..], '/');
    }
    assert Split(tail, '/')[0] == name;
  }

  /**
   * A redirect happens exactly when the name is a nickname of the table,
   * and it goes to that nickname's thread.
   */
  lemma TargetCases(path: string)
    ensures Target(path).Some? <==> Name(path).Some? && Name(path).value in Redirects
    ensures Target(path).Some? ==> Target(path) == Some(DirectUrl + Redirects[Name(path).value] + "/")
  {
    ValuesAreThreads();
  }

  /** Every thread id of the table is one the canvas script accepts. */
  lemma ValuesAreThreads()
    ensures forall n :: n in Redirects ==> Redirects[n] in IgThread.ValidThreadIds
  {
    forall n | n in Redirects
      ensures Redirects[n] in IgThread.ValidThreadIds
    {
      if n == "Riya" {} else if n == "Basement" {}
      else if n == "Barshon" {} else if n == "Barushu" {}
      else if n == "Shreya" {} else if n == "Prionto" {}
      else if n == "Prio" {} else if n == "Darling" {}
      else if n == "Ankan" {} else if n == "Anki" {}
      else if n == "Khalid" {} else if n == "Khalu" {}
      else if n == "Sujoy" {} else if n == "Suji" {}
      else if n == "Antar" {} else if n == "AJ" {}
      else if n == "Lokkhi" {} else if n == "Bishakha" {}
      else if n == "20" {} else if n == "Bish" {}
      else if n == "Apurbo" {} else if n == "Apurbo2" {}
      else if n == "Riya2" {} else if n == "Kitty" {}
      else if n == "Khalid2" {} else {}
    }
  }

  /** Nicknames are short, thread ids long. */
  lemma NicknamesAreShort()
    ensures forall n :: n in Redirects ==> |n| <= 8
  {
  }

  /** On the page it redirects to, the canvas script sees the nickname's thread. */
  lemma RedirectLandsOnThread(n: string)
    requires n in Redirects
    ensures IgThread.GetThreadId(IgThread.DirectPrefix + Redirects[n] + "/") == Some(Redirects[n])
    ensures Redirects[n] in IgThread.ValidThreadIds
  {
    ValuesAreThreads();
    IgThread.ValidIdsAreNumeric();
    IgThread.ThreadIdOfDirectPath(Redirects[n], "/");
  }

  /** No thread id is itself a nickname, so the thread page is left alone. */
  lemma NoRedirectLoop(n: string, rest: string)
    requires n in Redirects
    requires rest == [] || rest[0] == '/'
    ensures Target(IgThread.DirectPrefix + Redirects[n] + rest) == None
  {
    var id := Redirects[n];
    ValuesAreThreads();
    IgThread.ValidIdsAreNumeric();
    NicknamesAreShort();
    assert id !in Redirects;
    assert '/' !in id by {
      assert forall c :: c in id ==> IsDigit(c);
    }
    NameOfDirectPath(id, rest);
  }

  /** Nicknames are matched with their exact case. */
  lemma CaseSensitive()
    ensures Target(IgThread.DirectPrefix + "Riya") == Some(DirectUrl + "17843088840319857" + "/")
    ensures Target(IgThread.DirectPrefix + "riya") == None
  {
    NameOfDirectPath("Riya", "");
    NameOfDirectPath("riya", "");
    assert IgThread.DirectPrefix + "Riya" + "" == IgThread.DirectPrefix + "Riya";
    assert IgThread.DirectPrefix + "riya" + "" == IgThread.DirectPrefix + "riya";
  }

  /** Several nicknames share a thread. */
  lemma Aliases()
    ensures Redirects["Prionto"] == Redirects["Prio"] == Redirects["Darling"]
    ensures Redirects["Riya"] == Redirects["Lokkhi"]
    ensures Redirects["Bishakha"] == Redirects["20"] == Redirects["Bish"]
  {
  }

  // ------------------------------------------------------ as written

  /** The redirect as the script computes it: `redirects[name]` reads inherited properties too. */
  function TargetAsWritten(path: string): (r: Option<string>)
    ensures r.Some? ==> Name(path).Some? && Truthy(Get(Redirects, Name(path).value)) && StartsWith(r.value, DirectUrl)
    ensures Name(path).None? ==> r.None?
  {
    match Name(path)
    case Some(n) =>
      if n != "" && Truthy(Get(Redirects, n)) then Some(DirectUrl + Text(Get(Redirects, n)) + "/") else None
    case None => None
  }

  /** `/direct/t/constructor` is sent to a thread named after the `Object` function. */
  lemma PrototypeKeyRedirects()
    ensures TargetAsWritten(IgThread.DirectPrefix + "constructor") == Some(DirectUrl + "function Object() { [native code] }" + "/")
    ensures Target(IgThread.DirectPrefix + "constructor") == None
  {
    NameOfDirectPath("constructor", "");
    assert IgThread.DirectPrefix + "constructor" + "" == IgThread.DirectPrefix + "constructor";
    assert Get(Redirects, "constructor") == Inherited("constructor");
  }

  /** Away from the inherited names the script behaves as the corrected lookup. */
  lemma AsWrittenAgrees(path: string)
    requires Name(path).None? || Name(path).value !in PrototypeKeys
    ensures TargetAsWritten(path) == Target(path)
  {
    if Name(path).Some? {
      GetOwnOnly(Redirects, Name(path).value);
    }
  }
}
