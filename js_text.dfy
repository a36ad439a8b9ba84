/**
 * The JavaScript string operations the userscripts rely on, stated over
 * `seq<char>`: searching (`indexOf`, `includes`, `startsWith`, the leftmost
 * match of a fixed pattern), `split` on one character and on a string,
 * `toLowerCase`, `trim`, `parseInt`, `Number.prototype.toString()` on
 * naturals, `padStart` and the `m:ss` clock text both focus scripts print.
 */
module JsText {
  import opened Maybe

  // ---------------------------------------------------------------- search

  /** The least index in [lo, hi) that satisfies `p`, if there is one. */
  function FirstIndex(p: int -> bool, lo: int, hi: int): (r: Option<int>)
    requires lo <= hi
    decreases hi - lo
    ensures r.Some? ==> lo <= r.value < hi && p(r.value)
    ensures r.Some? ==> forall j :: lo <= j < r.value ==> !p(j)
    ensures r.None? ==> forall j :: lo <= j < hi ==> !p(j)
  {
    if lo == hi then None
    else if p(lo) then Some(lo)
    else FirstIndex(p, lo + 1, hi)
  }

  /** `t` occurs in `s` starting at index `i`. */
  predicate OccursAt(s: string, t: string, i: int) {
    0 <= i && i + |t| <= |s| && s[i..i + |t|] == t
  }

  /** `s.indexOf(t)`: the leftmost occurrence of `t`, or none (`-1`). */
  function IndexOf(s: string, t: string): (r: Option<int>)
    ensures r.Some? ==> OccursAt(s, t, r.value)
    ensures r.Some? ==> forall j :: 0 <= j < r.value ==> !OccursAt(s, t, j)
    ensures r.None? ==> forall j :: !OccursAt(s, t, j)
  {
    var p := i => OccursAt(s, t, i);
    assert forall j :: p(j) == OccursAt(s, t, j);
    FirstIndex(p, 0, |s| + 1)
  }

  /** `s.includes(t)`. */
  predicate Includes(s: string, t: string) {
    IndexOf(s, t).Some?
  }

  lemma IncludesAt(s: string, t: string, i: int)
    requires OccursAt(s, t, i)
    ensures Includes(s, t)
  {
  }

  /** `s.includes(t)` holds exactly when `t` occurs somewhere in `s`. */
  lemma IncludesIffOccurs(s: string)
    ensures forall t :: Includes(s, t) <==> exists i :: OccursAt(s, t, i)
  {
    forall t | Includes(s, t)
      ensures exists i :: OccursAt(s, t, i)
    {
      assert OccursAt(s, t, IndexOf(s, t).value);
    }
  }

  /** `s.startsWith(p)`. */
  predicate StartsWith(s: string, p: string) {
    |p| <= |s| && s[..|p|] == p
  }

  /** The longest prefix of `s` whose characters all satisfy `p`. */
  function TakeWhile(s: string, p: char -> bool): (r: string)
    ensures |r| <= |s| && r == s[..|r|]
    ensures forall i :: 0 <= i < |r| ==> p(r[i])
    ensures |r| < |s| ==> !p(s[|r|])
  {
    if s != [] && p(s[0]) then [s[0]] + TakeWhile(s[1..], p) else []
  }

  // ------------------------------------------------------------------ case

  /** `toLowerCase` on one character (ASCII letters only). */
  function LowerChar(c: char): char {
    if 'A' <= c <= 'Z' then (c as int + 32) as char else c
  }

  /** `s.toLowerCase()` (ASCII letters only). */
  function Lower(s: string): (r: string)
    ensures |r| == |s| && NoUpper(r)
  {
    seq(|s|, i requires 0 <= i < |s| => LowerChar(s[i]))
  }

  predicate NoUpper(s: string) {
    forall i :: 0 <= i < |s| ==> !('A' <= s[i] <= 'Z')
  }

  /** Text without upper-case letters is its own lower-case form. */
  lemma LowerFixed(s: string)
    requires NoUpper(s)
    ensures Lower(s) == s
  {
  }

  lemma LowerAppend(a: string, b: string)
    ensures Lower(a + b) == Lower(a) + Lower(b)
  {
  }

  lemma LowerIdempotent(s: string)
    ensures Lower(Lower(s)) == Lower(s)
  {
  }

  // ------------------------------------------------------ split on a char

  /** `s.split(sep)` for a one-character separator: the pieces between separators. */
  function Split(s: string, sep: char): (parts: seq<string>)
    ensures |parts| >= 1
    decreases |s|
  {
    if s == [] then [""]
    else
      var rest := Split(s[1..], sep);
      if s[0] == sep then [""] + rest
      else [[s[0]] + rest[0]] + rest[1..]
  }

  /** `parts.join(sep)`. */
  function Join(parts: seq<string>, sep: char): string
    requires |parts| >= 1
  {
    if |parts| == 1 then parts[0] else parts[0] + [sep] + Join(parts[1..], sep)
  }

  /** Joining the pieces again gives back the string that was split. */
  lemma {:induction false} JoinSplit(s: string, sep: char)
    ensures Join(Split(s, sep), sep) == s
    decreases |s|
  {
    if s != [] {
      var rest := Split(s[1..], sep);
      JoinSplit(s[1..], sep);
      if s[0] == sep {
        assert ([""] + rest)[1..] == rest;
      } else {
        var parts := [[s[0]] + rest[0]] + rest[1..];
        if |rest| > 1 {
          assert parts[1..] == rest[1..];
        }
      }
    }
  }

  /** No piece contains the separator. */
  lemma {:induction false} SplitPiecesFree(s: string, sep: char)
    ensures forall k :: 0 <= k < |Split(s, sep)| ==> sep !in Split(s, sep)[k]
    decreases |s|
  {
    if s != [] {
      SplitPiecesFree(s[1..], sep);
    }
  }

  /** Splitting a string that starts with a separator-free piece `p`. */
  lemma {:induction false} SplitPrefix(p: string, t: string, sep: char)
    requires sep !in p
    ensures Split(p + t, sep) == [p + Split(t, sep)[0]] + Split(t, sep)[1..]
    decreases |p|
  {
    var parts := Split(t, sep);
    if p == [] {
      assert p + t == t;
      assert p + parts[0] == parts[0];
      assert [parts[0]] + parts[1..] == parts;
    } else {
      assert (p + t)[0] == p[0];
      assert (p + t)[1..] == p[1..] + t;
      SplitPrefix(p[1..], t, sep);
      assert [p[0]] + (p[1..] + Split(t, sep)[0]) == p + Split(t, sep)[0];
    }
  }

  /** A piece followed by the separator is split off as one piece. */
  lemma SplitPieceThenSeparator(p: string, u: string, sep: char)
    requires sep !in p
    ensures Split(p + [sep] + u, sep) == [p] + Split(u, sep)
  {
    SplitPrefix(p, [sep] + u, sep);
    assert p + [sep] + u == p + ([sep] + u);
    assert ([sep] + u)[1..] == u;
    var parts := Split([sep] + u, sep);
    assert parts == [""] + Split(u, sep);
    assert p + parts[0] == p;
    assert parts[1..] == Split(u, sep);
  }

  /** Splitting a join of separator-free pieces gives the pieces back. */
  lemma {:induction false} SplitJoin(parts: seq<string>, sep: char)
    requires |parts| >= 1
    requires forall k :: 0 <= k < |parts| ==> sep !in parts[k]
    ensures Split(Join(parts, sep), sep) == parts
    decreases |parts|
  {
    if |parts| == 1 {
      SplitPrefix(parts[0], [], sep);
      assert parts[0] + [] == parts[0];
    } else {
      SplitJoin(parts[1..], sep);
      SplitPieceThenSeparator(parts[0], Join(parts[1..], sep), sep);
      assert [parts[0]] + parts[1..] == parts;
    }
  }

  // ---------------------------------------------------- split on a string

  /** `s.split(d)` for a non-empty string separator: cut at the leftmost occurrences. */
  function SplitOn(s: string, d: string): (parts: seq<string>)
    requires |d| > 0
    ensures |parts| >= 1
    decreases |s|
  {
    match IndexOf(s, d)
    case None => [s]
    case Some(j) => [s[..j]] + SplitOn(s[j + |d|..], d)
  }

  /** `parts.join(d)`. */
  function JoinOn(parts: seq<string>, d: string): string
    requires |parts| >= 1
  {
    if |parts| == 1 then parts[0] else parts[0] + d + JoinOn(parts[1..], d)
  }

  lemma OccursInPrefix(s: string, d: string, j: int, k: int)
    requires 0 <= j <= |s| && OccursAt(s[..j], d, k)
    ensures OccursAt(s, d, k) && k + |d| <= j
  {
    assert s[..j][k..k + |d|] == s[k..k + |d|];
  }

  /** The pieces of `s.split(d)` joined with `d` give back `s`. */
  lemma {:induction false} SplitOnJoin(s: string, d: string)
    requires |d| > 0
    ensures JoinOn(SplitOn(s, d), d) == s
    decreases |s|
  {
    match IndexOf(s, d)
    case None =>
    case Some(j) =>
      var rest := s[j + |d|..];
      var tail := SplitOn(rest, d);
      SplitOnJoin(rest, d);
      assert SplitOn(s, d) == [s[..j]] + tail;
      assert ([s[..j]] + tail)[1..] == tail;
      assert JoinOn([s[..j]] + tail, d) == s[..j] + d + rest;
      assert s[j..j + |d|] == d;
      assert s == s[..j] + d + rest;
  }

  /** No piece of `s.split(d)` contains `d`. */
  lemma {:induction false} SplitOnPiecesFree(s: string, d: string)
    requires |d| > 0
    ensures forall k :: 0 <= k < |SplitOn(s, d)| ==> !Includes(SplitOn(s, d)[k], d)
    decreases |s|
  {
    match IndexOf(s, d)
    case None =>
    case Some(j) =>
      var rest := s[j + |d|..];
      SplitOnPiecesFree(rest, d);
      assert SplitOn(s, d) == [s[..j]] + SplitOn(rest, d);
      if Includes(s[..j], d) {
        OccursInPrefix(s, d, j, IndexOf(s[..j], d).value);
        assert false;
      }
  }

  // ------------------------------------------------------------------ trim

  /** JavaScript's WhiteSpace and LineTerminator characters. */
  predicate IsSpace(c: char) {
    c == '\t' || c == '\n' || c == '\U{000B}' || c == '\U{000C}' || c == '\r' || c == ' '
    || c == '\U{00A0}' || c == '\U{1680}' || ('\U{2000}' <= c <= '\U{200A}')
    || c == '\U{2028}' || c == '\U{2029}' || c == '\U{202F}' || c == '\U{205F}'
    || c == '\U{3000}' || c == '\U{FEFF}'
  }

  /** `s.trimStart()`: drops leading white space. */
  function TrimStart(s: string): (r: string)
    ensures |r| <= |s| && r == s[|s| - |r|..]
    ensures forall i :: 0 <= i < |s| - |r| ==> IsSpace(s[i])
    ensures r != [] ==> !IsSpace(r[0])
  {
    if s != [] && IsSpace(s[0]) then
      var r := TrimStart(s[1..]);
      assert s[1..][|s| - 1 - |r|..] == s[|s| - |r|..];
      assert forall i :: 1 <= i < |s| ==> s[i] == s[1..][i - 1];
      r
    else s
  }

  /** `s.trimEnd()`: drops trailing white space. */
  function TrimEnd(s: string): (r: string)
    ensures |r| <= |s| && r == s[..|r|]
    ensures forall i :: |r| <= i < |s| ==> IsSpace(s[i])
    ensures r != [] ==> !IsSpace(r[|r| - 1])
  {
    if s != [] && IsSpace(s[|s| - 1]) then TrimEnd(s[..|s| - 1]) else s
  }

  /** `r` occurs in `s` at `i` with only white space before and after it. */
  predicate SpaceAround(s: string, r: string, i: int) {
    OccursAt(s, r, i) && (forall j :: 0 <= j < i ==> IsSpace(s[j])) && (forall j :: i + |r| <= j < |s| ==> IsSpace(s[j]))
  }

  /** `s.trim()`. */
  function Trim(s: string): (r: string)
    ensures exists i :: SpaceAround(s, r, i)
    ensures r != [] ==> !IsSpace(r[0]) && !IsSpace(r[|r| - 1])
  {
    TrimSpans(s);
    var t := TrimStart(s);
    var r := TrimEnd(t);
    assert r != [] ==> r[0] == t[0];
    r
  }

  /** What trimming the start and then the end leaves sits between white space. */
  lemma TrimSpans(s: string)
    ensures SpaceAround(s, TrimEnd(TrimStart(s)), |s| - |TrimStart(s)|)
  {
    var t := TrimStart(s);
    var r := TrimEnd(t);
    var i := |s| - |t|;
    assert s[i..i + |r|] == r;
    assert OccursAt(s, r, i);
    assert forall j :: 0 <= j < i ==> IsSpace(s[j]);
    forall j | i + |r| <= j < |s|
      ensures IsSpace(s[j])
    {
      assert s[j] == t[j - i];
    }
  }

  lemma TrimIdempotent(s: string)
    ensures Trim(Trim(s)) == Trim(s)
  {
    var r := Trim(s);
    if r != [] {
      assert r == TrimStart(s)[..|r|];
      assert !IsSpace(r[0]);
    }
  }

  // --------------------------------------------------------------- numbers

  predicate IsDigit(c: char) {
    '0' <= c <= '9'
  }

  predicate AllDigits(s: string) {
    forall i :: 0 <= i < |s| ==> IsDigit(s[i])
  }

  function DigitChar(d: nat): (c: char)
    requires d < 10
    ensures IsDigit(c)
  {
    ('0' as int + d) as char
  }

  /** The value of a decimal digit string (leading zeros allowed). */
  function DecimalValue(s: string): nat
    requires AllDigits(s)
  {
    if s == [] then 0 else DecimalValue(s[..|s| - 1]) * 10 + (s[|s| - 1] as int - '0' as int)
  }

  /** `n.toString()` for a natural number: decimal, no leading zeros. */
  function NatToString(n: nat): (r: string)
    ensures |r| >= 1 && AllDigits(r)
    ensures r[0] == '0' ==> n == 0
    decreases n
  {
    if n < 10 then [DigitChar(n)] else NatToString(n / 10) + [DigitChar(n % 10)]
  }

  /** Reading the printed number back gives the number. */
  lemma {:induction false} NatToStringValue(n: nat)
    ensures DecimalValue(NatToString(n)) == n
    decreases n
  {
    if n >= 10 {
      NatToStringValue(n / 10);
      var s := NatToString(n);
      assert s[..|s| - 1] == NatToString(n / 10);
    }
  }

  /** `s.padStart(width, c)`. */
  function PadStart(s: string, width: nat, c: char): (r: string)
    ensures |r| == if |s| < width then width else |s|
    ensures r[|r| - |s|..] == s
    ensures forall i :: 0 <= i < |r| - |s| ==> r[i] == c
  {
    if |s| >= width then s else seq(width - |s|, _ => c) + s
  }

  /** The value of a digit in the given radix (letters count from 10), if it is one. */
  function RadixDigit(c: char, radix: nat): (r: Option<nat>)
    ensures r.Some? ==> r.value < radix
  {
    var v := if '0' <= c <= '9' then c as int - '0' as int
             else if 'a' <= c <= 'z' then c as int - 'a' as int + 10
             else if 'A' <= c <= 'Z' then c as int - 'A' as int + 10
             else 36;
    if v < radix then Some(v) else None
  }

  predicate IsRadixDigit(c: char, radix: nat) {
    RadixDigit(c, radix).Some?
  }

  function RadixValue(s: string, radix: nat): nat
    requires forall i :: 0 <= i < |s| ==> IsRadixDigit(s[i], radix)
  {
    if s == [] then 0
    else
      var init := s[..|s| - 1];
      assert forall i :: 0 <= i < |init| ==> init[i] == s[i];
      assert IsRadixDigit(s[|s| - 1], radix);
      var v := RadixValue(init, radix);
      var d := RadixDigit(s[|s| - 1], radix).value;
      ProductNonNegative(v, radix);
      v * radix + d
  }

  lemma ProductNonNegative(a: nat, b: nat)
    ensures a * b >= 0
  {
  }

  /**
   * `parseInt(s)` without a radix: leading white space, an optional sign,
   * `0x`/`0X` selects hexadecimal, then the longest run of digits; no digit
   * at all is `NaN` (here `None`).
   */
  function ParseInt(s: string): (r: Option<int>)
    ensures TrimStart(s) == [] ==> r.None?
    ensures r.Some? && r.value < 0 ==> TrimStart(s)[0] == '-'
  {
    var t := TrimStart(s);
    var negative := |t| > 0 && t[0] == '-';
    var u := if |t| > 0 && (t[0] == '-' || t[0] == '+') then t[1..] else t;
    match ParseUnsigned(u)
    case None => None
    case Some(v) => Some(if negative then -v else v)
  }

  /** The digits after the sign: `0x`/`0X` selects hexadecimal, else decimal. */
  function ParseUnsigned(u: string): Option<int> {
    var hex := |u| >= 2 && u[0] == '0' && (u[1] == 'x' || u[1] == 'X');
    var radix := if hex then 16 else 10;
    var digits := TakeWhile(if hex then u[2..] else u, c => IsRadixDigit(c, radix));
    if digits == [] then None else Some(RadixValue(digits, radix))
  }

  lemma RadixDecimalAgree(s: string)
    requires AllDigits(s)
    ensures forall i :: 0 <= i < |s| ==> IsRadixDigit(s[i], 10)
    ensures RadixValue(s, 10) == DecimalValue(s)
  {
    if s != [] {
      RadixDecimalAgree(s[..|s| - 1]);
    }
  }

  /** `parseInt` reads back a printed natural number, after any leading white space. */
  lemma ParseIntNatToString(ws: string, n: nat)
    requires forall i :: 0 <= i < |ws| ==> IsSpace(ws[i])
    ensures ParseInt(ws + NatToString(n)) == Some(n)
  {
    var d := NatToString(n);
    TrimStartSpacePrefix(ws, d);
    assert d[0] != '-' && d[0] != '+';
    ParseUnsignedNatToString(n);
  }

  lemma ParseUnsignedNatToString(n: nat)
    ensures ParseUnsigned(NatToString(n)) == Some(n)
  {
    var d := NatToString(n);
    RadixDecimalAgree(d);
    NatToStringValue(n);
    assert |d| < 2 || d[0] != '0';
    TakeWhileAll(d, c => IsRadixDigit(c, 10));
  }

  lemma TakeWhileAll(s: string, p: char -> bool)
    requires forall i :: 0 <= i < |s| ==> p(s[i])
    ensures TakeWhile(s, p) == s
  {
    if s != [] {
      TakeWhileAll(s[1..], p);
    }
  }

  lemma {:induction false} TrimStartSpacePrefix(ws: string, d: string)
    requires forall i :: 0 <= i < |ws| ==> IsSpace(ws[i])
    requires d != [] && !IsSpace(d[0])
    ensures TrimStart(ws + d) == d
    decreases |ws|
  {
    if ws == [] {
      assert ws + d == d;
    } else {
      assert (ws + d)[0] == ws[0];
      assert (ws + d)[1..] == ws[1..] + d;
      TrimStartSpacePrefix(ws[1..], d);
    }
  }

  // ------------------------------------------------------------ clock text

  /** The `${mins}:${secs.toString().padStart(2, '0')}` text of a number of seconds. */
  function ClockText(totalSeconds: nat): string {
    NatToString(totalSeconds / 60) + ":" + PadStart(NatToString(totalSeconds % 60), 2, '0')
  }

  /** Reads an `m:ss` text back: unpadded minutes, two-digit seconds below 60. */
  function ClockValue(s: string): Option<nat> {
    var parts := Split(s, ':');
    if |parts| == 2 && |parts[0]| >= 1 && AllDigits(parts[0])
       && |parts[1]| == 2 && AllDigits(parts[1]) && DecimalValue(parts[1]) < 60
    then Some(DecimalValue(parts[0]) * 60 + DecimalValue(parts[1]))
    else None
  }

  lemma DecimalValueLeadingZero(s: string)
    requires AllDigits(s)
    ensures AllDigits("0" + s) && DecimalValue("0" + s) == DecimalValue(s)
    decreases |s|
  {
    if s != [] {
      var z := "0" + s;
      assert z[..|z| - 1] == "0" + s[..|s| - 1];
      DecimalValueLeadingZero(s[..|s| - 1]);
    }
  }

  /** Seconds below a minute print as exactly two digits that read back as the seconds. */
  lemma PaddedSeconds(sec: nat)
    requires sec < 60
    ensures var ss := PadStart(NatToString(sec), 2, '0');
            |ss| == 2 && AllDigits(ss) && DecimalValue(ss) == sec
  {
    var ss := PadStart(NatToString(sec), 2, '0');
    NatToStringValue(sec);
    if sec < 10 {
      assert ss == "0" + NatToString(sec);
      DecimalValueLeadingZero(NatToString(sec));
    } else {
      assert NatToString(sec) == NatToString(sec / 10) + [DigitChar(sec % 10)];
      assert ss == NatToString(sec);
    }
  }

  /** A digit string holds no colon. */
  lemma DigitsHaveNoColon(s: string)
    requires AllDigits(s)
    ensures ':' !in s
  {
  }

  /** The clock text is exactly two-digit seconds after unpadded minutes, and reads back. */
  lemma ClockTextRoundTrip(totalSeconds: nat)
    ensures ClockValue(ClockText(totalSeconds)) == Some(totalSeconds)
  {
    var m := NatToString(totalSeconds / 60);
    var ss := PadStart(NatToString(totalSeconds % 60), 2, '0');
    NatToStringValue(totalSeconds / 60);
    PaddedSeconds(totalSeconds % 60);
    DigitsHaveNoColon(m);
    DigitsHaveNoColon(ss);
    var parts := [m, ss];
    assert Join(parts, ':') == ClockText(totalSeconds) by {
      assert parts[1..] == [ss];
    }
    SplitJoin(parts, ':');
    assert DecimalValue(m) * 60 + DecimalValue(ss) == totalSeconds;
  }
}
