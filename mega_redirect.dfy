/**
 * Mega.nz redirector: the first path segment that names a table entry,
 * compared in lower case, sends the page to that entry's folder, unless
 * the path is already in that folder.
 */
module MegaRedirect {
  import opened Maybe
  import opened JsText
  import opened JsObject

  /** Keyword to folder id. */
  const Redirects: map<string, string> := map[
    "riya" := "AJ9F1BwY",
    "lokkhi" := "AJ9F1BwY",
    "bishakha" := "ZVVUkbrK",
    "20" := "ZVVUkbrK",
    "bish" := "ZVVUkbrK",
    "simp" := "1RVVSJhD"
  ]

  /** The pieces that are not empty (`filter(Boolean)`), in order. */
  function NonEmpty(parts: seq<string>): (r: seq<string>)
    ensures forall p :: p in r <==> p in parts && p != ""
  {
    if parts == [] then []
    else (if parts[0] != "" then [parts[0]] else []) + NonEmpty(parts[1..])
  }

  /** The path segments: the `/`-separated pieces with the empty ones removed. */
  function Segments(path: string): (r: seq<string>)
    ensures forall p :: p in r ==> p != "" && '/' !in p
  {
    SplitPiecesFree(path, '/');
    NonEmpty(Split(path, '/'))
  }

  /** A path built from non-empty, slash-free segments has exactly those segments. */
  lemma SegmentsOfPath(segs: seq<string>)
    requires |segs| >= 1 && forall k :: 0 <= k < |segs| ==> segs[k] != "" && '/' !in segs[k]
    ensures Segments(Join([""] + segs, '/')) == segs
  {
    var parts := [""] + segs;
    assert forall k :: 0 <= k < |parts| ==> '/' !in parts[k];
    SplitJoin(parts, '/');
    NonEmptyAll(segs);
  }

  lemma {:induction false} NonEmptyAll(segs: seq<string>)
    requires forall k :: 0 <= k < |segs| ==> segs[k] != ""
    ensures NonEmpty([""] + segs) == segs && NonEmpty(segs) == segs
  {
    assert ([""] + segs)[1..] == segs;
    if segs != [] {
      NonEmptyAll(segs[1..]);
      assert [segs[0]] + segs[1..] == segs;
    }
  }

  /** The keyword: the first segment whose lower-case form is a key of the table. */
  function Keyword(segs: seq<string>): (r: Option<string>)
    ensures r.Some? ==> exists i :: 0 <= i < |segs| && segs[i] == r.value && Lower(r.value) in Redirects
                          && forall j :: 0 <= j < i ==> Lower(segs[j]) !in Redirects
    ensures r.None? ==> forall p :: p in segs ==> Lower(p) !in Redirects
  {
    if segs == [] then None
    else if Lower(segs[0]) in Redirects then Some(segs[0])
    else
      var r := Keyword(segs[1..]);
      assert forall p :: p in segs[1..] ==> p in segs;
      assert r.Some? ==> exists i :: 1 <= i < |segs| && segs[i] == r.value && Lower(r.value) in Redirects
                          && forall j :: 0 <= j < i ==> Lower(segs[j]) !in Redirects;
      r
  }

  /** The page the script sends the browser to. */
  function FolderUrl(id: string): string {
    "https://mega.nz/fm/" + id + "/"
  }

  /** The redirect for a pathname, if any. */
  function Target(path: string): (r: Option<string>)
    ensures r.Some? ==> exists k :: k in Redirects && r.value == FolderUrl(Redirects[k])
    ensures (forall p :: p in Segments(path) ==> Lower(p) !in Redirects) ==> r.None?
  {
    match Keyword(Segments(path))
    case None => None
    case Some(k) =>
      var id := Redirects[Lower(k)];
      if Includes(path, "/fm/" + id) then None else Some(FolderUrl(id))
  }

  /**
   * A redirect happens exactly when some segment is a keyword and the path
   * is not already in the keyword's folder; it goes to a folder of the table.
   */
  lemma TargetCases(path: string)
    ensures Target(path).Some? <==>
              Keyword(Segments(path)).Some? && !Includes(path, "/fm/" + Redirects[Lower(Keyword(Segments(path)).value)])
    ensures Target(path).Some? ==> exists k :: k in Redirects && Target(path) == Some(FolderUrl(Redirects[k]))
    ensures (forall p :: p in Segments(path) ==> Lower(p) !in Redirects) ==> Target(path).None?
  {
  }

  /** Case does not matter: a segment and its lower-case form pick the same folder. */
  lemma {:induction false} KeywordIgnoresCase(segs: seq<string>)
    ensures Keyword(LowerAll(segs)).Some? <==> Keyword(segs).Some?
    ensures Keyword(segs).Some? ==> Keyword(LowerAll(segs)) == Some(Lower(Keyword(segs).value))
  {
    if segs != [] {
      LowerIdempotent(segs[0]);
      assert LowerAll(segs)[1..] == LowerAll(segs[1..]);
      KeywordIgnoresCase(segs[1..]);
    }
  }

  function LowerAll(segs: seq<string>): (r: seq<string>)
    ensures |r| == |segs| && forall k :: 0 <= k < |r| ==> r[k] == Lower(segs[k])
  {
    seq(|segs|, k requires 0 <= k < |segs| => Lower(segs[k]))
  }

  /** No folder id, lower-cased, is itself a keyword. */
  lemma ValuesAreNotKeys()
    ensures forall k :: k in Redirects ==> Lower(Redirects[k]) !in Redirects
  {
    forall k | k in Redirects
      ensures Lower(Redirects[k]) !in Redirects
    {
      var id := Redirects[k];
      assert id == "AJ9F1BwY" || id == "ZVVUkbrK" || id == "1RVVSJhD";
      if id == "AJ9F1BwY" {
        assert Lower(id) == "aj9f1bwy";
      } else if id == "ZVVUkbrK" {
        assert Lower(id) == "zvvukbrk";
      } else {
        assert Lower(id) == "1rvvsjhd";
      }
    }
  }

  /** Once redirected, the folder page is not redirected again. */
  lemma NoRedirectLoop(k: string)
    requires k in Redirects
    ensures Target("/fm/" + Redirects[k] + "/") == None
  {
    var id := Redirects[k];
    assert id != "" && '/' !in id;
    FolderSegments(id);
    ValuesAreNotKeys();
    assert Lower("fm") == "fm";
  }

  /** The segments of a folder page. */
  lemma FolderSegments(id: string)
    requires id != "" && '/' !in id
    ensures Segments("/fm/" + id + "/") == ["fm", id]
  {
    var parts := ["", "fm", id, ""];
    assert parts[1..] == ["fm", id, ""] && parts[1..][1..] == [id, ""] && parts[1..][1..][1..] == [""];
    assert Join([id, ""], '/') == id + "/";
    assert Join(["fm", id, ""], '/') == "fm/" + id + "/";
    assert Join(parts, '/') == "/fm/" + id + "/";
    assert forall q :: 0 <= q < |parts| ==> '/' !in parts[q];
    SplitJoin(parts, '/');
    assert NonEmpty([""]) == [];
    assert NonEmpty([id, ""]) == [id];
    assert NonEmpty(["fm", id, ""]) == ["fm", id];
  }

  /** Aliases share a folder. */
  lemma Aliases()
    ensures Redirects["riya"] == Redirects["lokkhi"]
    ensures Redirects["bishakha"] == Redirects["20"] == Redirects["bish"]
  {
  }

  // ------------------------------------------------------ as written

  /**
   * The keyword as the script finds it: the first segment whose lower-case
   * form reads a truthy property of the table object, inherited ones included.
   */
  function KeywordAsWritten(segs: seq<string>): (r: Option<string>)
    ensures r.Some? ==> r.value in segs && Truthy(Get(Redirects, Lower(r.value)))
  {
    if segs == [] then None
    else if Truthy(Get(Redirects, Lower(segs[0]))) then Some(segs[0])
    else KeywordAsWritten(segs[1..])
  }

  /** The redirect as the script computes it, the id converted to a string by the template. */
  function TargetAsWritten(path: string): (r: Option<string>)
    ensures r.Some? ==> KeywordAsWritten(Segments(path)).Some? && StartsWith(r.value, "https://mega.nz/fm/")
    ensures KeywordAsWritten(Segments(path)).None? ==> r.None?
  {
    match KeywordAsWritten(Segments(path))
    case None => None
    case Some(k) =>
      var id := Text(Get(Redirects, Lower(k)));
      if Includes(path, "/fm/" + id) then None else Some(FolderUrl(id))
  }

  /** A path segment named like an `Object.prototype` member is taken for a keyword. */
  lemma PrototypeKeyRedirects()
    ensures TargetAsWritten("/constructor") == Some(FolderUrl("function Object() { [native code] }"))
    ensures Target("/constructor") == None
  {
    ConstructorSegment();
    ConstructorInherited();
    LongerNotIncluded("/constructor", "/fm/function Object() { [native code] }");
  }

  lemma ConstructorSegment()
    ensures Segments("/constructor") == ["constructor"]
  {
    assert Join(["constructor"], '/') == "constructor";
    assert ["", "constructor"][1..] == ["constructor"];
    assert Join(["", "constructor"], '/') == "/constructor";
    SegmentsOfPath(["constructor"]);
  }

  lemma ConstructorInherited()
    ensures Lower("constructor") == "constructor"
    ensures Get(Redirects, "constructor") == Inherited("constructor")
    ensures Text(Inherited("constructor")) == "function Object() { [native code] }"
  {
  }

  lemma LongerNotIncluded(s: string, t: string)
    requires |t| > |s|
    ensures !Includes(s, t)
  {
  }

  /** Away from the inherited names the script behaves as the corrected lookup. */
  lemma {:induction false} AsWrittenAgrees(segs: seq<string>)
    requires forall p :: p in segs ==> Lower(p) !in PrototypeKeys
    ensures KeywordAsWritten(segs) == Keyword(segs)
  {
    if segs != [] {
      assert forall p :: p in segs[1..] ==> p in segs;
      GetOwnOnly(Redirects, Lower(segs[0]));
      AsWrittenAgrees(segs[1..]);
    }
  }
}
