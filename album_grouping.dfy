/**
 * Spotify album grouping: the rows of a track list are sorted by album and
 * track number, a collapsible header is inserted before the first row of
 * each album, and grouping can be switched off and on again.
 */
module AlbumGrouping {
  import opened Maybe
  import opened JsText
  import JsSort

  /**
   * A track-list row: the text of its album link and of its first column
   * (none when the row has no such element), and its `style.display`.
   */
  datatype Row = Row(albumLink: Option<string>, firstCell: Option<string>, display: string)

  /** A child of the track-list container: a row, or an album header with its `data-closed` flag. */
  datatype Node = RowNode(row: Row) | Header(album: string, closed: bool)

  /** album(row): the trimmed link text, or "" without a link. */
  function Album(r: Row): (a: string)
    ensures r.albumLink.None? ==> a == ""
    ensures a != [] ==> !IsSpace(a[0]) && !IsSpace(a[|a| - 1])
  {
    match r.albumLink
    case None => ""
    case Some(text) => Trim(text)
  }

  /** trackNo(row): `parseInt` of the first column, 0 when that is not a number. */
  function TrackNo(r: Row): (t: int)
    ensures t != 0 ==> r.firstCell.Some? && ParseInt(r.firstCell.value) == Some(t)
  {
    match r.firstCell
    case None => 0
    case Some(text) => ParseInt(text).GetOr(0)
  }

  /** A first column holding a track number, after any white space, reads as that number. */
  lemma TrackNoOfNumber(link: Option<string>, ws: string, n: nat, display: string)
    requires forall i :: 0 <= i < |ws| ==> IsSpace(ws[i])
    ensures TrackNo(Row(link, Some(ws + NatToString(n)), display)) == n
  {
    ParseIntNatToString(ws, n);
  }

  /** A row without a first column, or with text that is not a number, sorts as track 0. */
  lemma TrackNoNaN(link: Option<string>, text: string, display: string)
    requires ParseInt(text).None?
    ensures TrackNo(Row(link, Some(text), display)) == 0
    ensures TrackNo(Row(link, None, display)) == 0
  {
  }

  // ----------------------------------------------------- string ordering

  /** JavaScript's `a < b` on strings: lexicographic by character. */
  predicate LexLess(a: string, b: string)
    decreases |a|
  {
    if a == [] then b != []
    else if b == [] then false
    else if a[0] != b[0] then a[0] < b[0]
    else LexLess(a[1..], b[1..])
  }

  lemma {:induction false} LexIrreflexive(a: string)
    ensures !LexLess(a, a)
    decreases |a|
  {
    if a != [] {
      LexIrreflexive(a[1..]);
    }
  }

  lemma {:induction false} LexTransitive(a: string, b: string, c: string)
    requires LexLess(a, b) && LexLess(b, c)
    ensures LexLess(a, c)
    decreases |a|
  {
    if a != [] && b != [] && c != [] && a[0] == b[0] && b[0] == c[0] {
      LexTransitive(a[1..], b[1..], c[1..]);
    }
  }

  lemma {:induction false} LexTotal(a: string, b: string)
    ensures LexLess(a, b) || LexLess(b, a) || a == b
    decreases |a|
  {
    if a != [] && b != [] && a[0] == b[0] {
      LexTotal(a[1..], b[1..]);
      if a[1..] == b[1..] {
        assert a == [a[0]] + a[1..] && b == [b[0]] + b[1..];
      }
    }
  }

  // ------------------------------------------------------------- the sort

  /** Row `x` goes strictly before row `y`: smaller album, or the same album and a smaller track number. */
  predicate KeyLess(x: Row, y: Row) {
    LexLess(Album(x), Album(y)) || (Album(x) == Album(y) && TrackNo(x) < TrackNo(y))
  }

  /** The comparator handed to `sort`. */
  function Compare(x: Row, y: Row): (c: int)
    ensures Album(x) == Album(y) ==> c == TrackNo(x) - TrackNo(y)
    ensures c == 0 ==> Album(x) == Album(y) && TrackNo(x) == TrackNo(y)
  {
    var a, b := Album(x), Album(y);
    LexIrreflexive(a);
    LexTotal(a, b);
    if LexLess(a, b) then -1 else if LexLess(b, a) then 1 else TrackNo(x) - TrackNo(y)
  }

  /** The comparator orders exactly as `KeyLess` does, in both directions, and is 0 only on equal keys. */
  lemma CompareSign(x: Row, y: Row)
    ensures Compare(x, y) < 0 <==> KeyLess(x, y)
    ensures Compare(x, y) > 0 <==> KeyLess(y, x)
    ensures Compare(x, y) == 0 <==> Album(x) == Album(y) && TrackNo(x) == TrackNo(y)
  {
    LexTotal(Album(x), Album(y));
    LexIrreflexive(Album(x));
    if LexLess(Album(x), Album(y)) && LexLess(Album(y), Album(x)) {
      LexTransitive(Album(x), Album(y), Album(x));
    }
  }

  /** `KeyLess` is a strict weak order, so the comparator is consistent. */
  lemma KeyLessOrder()
    ensures JsSort.StrictWeakOrder(KeyLess)
  {
    forall a: Row
      ensures !KeyLess(a, a)
    {
      LexIrreflexive(Album(a));
    }
    forall a: Row, b: Row, c: Row | KeyLess(a, b) && KeyLess(b, c)
      ensures KeyLess(a, c)
    {
      if LexLess(Album(a), Album(b)) && LexLess(Album(b), Album(c)) {
        LexTransitive(Album(a), Album(b), Album(c));
      }
    }
    forall a: Row, b: Row, c: Row | KeyLess(a, c) && !KeyLess(a, b)
      ensures KeyLess(b, c)
    {
      LexTotal(Album(a), Album(b));
      LexTotal(Album(b), Album(c));
      if LexLess(Album(b), Album(a)) && LexLess(Album(a), Album(c)) {
        LexTransitive(Album(b), Album(a), Album(c));
      }
      if LexLess(Album(c), Album(b)) && LexLess(Album(a), Album(c)) {
        LexTransitive(Album(a), Album(c), Album(b));
      }
      if LexLess(Album(c), Album(b)) && LexLess(Album(b), Album(a)) {
        LexTransitive(Album(c), Album(b), Album(a));
        LexIrreflexive(Album(a));
        if LexLess(Album(a), Album(c)) {
          LexTransitive(Album(a), Album(c), Album(a));
        }
      }
      if LexLess(Album(b), Album(a)) && Album(a) == Album(c) {
        LexIrreflexive(Album(c));
      }
    }
  }

  /** The rows in the order `r.sort(comparator)` leaves them. */
  function SortRows(rs: seq<Row>): (r: seq<Row>)
    ensures |r| == |rs|
  {
    JsSort.Sort(KeyLess, rs)
  }

  /**
   * After sorting, the rows are the same rows, in album order and, within
   * an album, in ascending track-number order.
   */
  lemma SortRowsOrdered(rs: seq<Row>)
    ensures multiset(SortRows(rs)) == multiset(rs)
    ensures forall i, j :: 0 <= i < j < |SortRows(rs)| ==>
              LexLess(Album(SortRows(rs)[i]), Album(SortRows(rs)[j]))
              || (Album(SortRows(rs)[i]) == Album(SortRows(rs)[j]) && TrackNo(SortRows(rs)[i]) <= TrackNo(SortRows(rs)[j]))
  {
    KeyLessOrder();
    JsSort.SortPermutes(KeyLess, rs);
    JsSort.SortSorted(KeyLess, rs);
    var s := SortRows(rs);
    forall i, j | 0 <= i < j < |s|
      ensures LexLess(Album(s[i]), Album(s[j])) || (Album(s[i]) == Album(s[j]) && TrackNo(s[i]) <= TrackNo(s[j]))
    {
      assert !KeyLess(s[j], s[i]);
      LexTotal(Album(s[i]), Album(s[j]));
    }
  }

  /** Rows with the same album and the same track number keep their relative order. */
  lemma SortRowsStable(rs: seq<Row>, e: Row)
    ensures JsSort.TiedWith(KeyLess, SortRows(rs), e) == JsSort.TiedWith(KeyLess, rs, e)
    ensures forall x :: JsSort.Tied(KeyLess, x, e) <==> Album(x) == Album(e) && TrackNo(x) == TrackNo(e)
  {
    KeyLessOrder();
    JsSort.SortStable(KeyLess, rs, e);
    forall x
      ensures JsSort.Tied(KeyLess, x, e) <==> Album(x) == Album(e) && TrackNo(x) == TrackNo(e)
    {
      CompareSign(x, e);
    }
  }

  /** Rows already in key order are left where they are. */
  lemma SortRowsOfSorted(rs: seq<Row>)
    requires JsSort.Sorted(KeyLess, rs)
    ensures SortRows(rs) == rs
  {
    JsSort.SortOfSorted(KeyLess, rs);
  }

  // ----------------------------------------------------------- the headers

  /** The rows among the container's children, in order (what `rows()` finds). */
  function Rows(cs: seq<Node>): (r: seq<Row>)
    ensures |r| <= |cs|
  {
    if cs == [] then []
    else (if cs[0].RowNode? then [cs[0].row] else []) + Rows(cs[1..])
  }

  /** The filter keeps exactly the rows among the children (RowsAppend says it keeps their order). */
  lemma {:induction false} RowsMembers(cs: seq<Node>)
    ensures forall x :: x in Rows(cs) <==> RowNode(x) in cs
  {
    if cs != [] {
      RowsMembers(cs[1..]);
      assert cs == [cs[0]] + cs[1..];
    }
  }

  /** The albums of the headers among the children, in order. */
  function HeaderAlbums(cs: seq<Node>): seq<string> {
    if cs == [] then []
    else (if cs[0].Header? then [cs[0].album] else []) + HeaderAlbums(cs[1..])
  }

  /**
   * The header loop of sortAndGroup, with `last` the album of the latest
   * header: a new open header goes before each row whose album is
   * non-empty and differs from `last`. `albumOf` is `Album`; the header
   * logic is stated for any album function because it only compares albums.
   */
  function WithHeaders(albumOf: Row -> string, rs: seq<Row>, last: Option<string>): seq<Node> {
    if rs == [] then []
    else
      var alb := albumOf(rs[0]);
      if alb != "" && Some(alb) != last then
        [Header(alb, false), RowNode(rs[0])] + WithHeaders(albumOf, rs[1..], Some(alb))
      else [RowNode(rs[0])] + WithHeaders(albumOf, rs[1..], last)
  }

  lemma AppendAssociative(a: seq<Node>, b: seq<Node>, c: seq<Node>)
    ensures a + b + c == a + (b + c)
  {
  }

  /** One turn of the header loop. */
  lemma WithHeadersStep(albumOf: Row -> string, rs: seq<Row>, last: Option<string>)
    requires rs != []
    ensures var alb := albumOf(rs[0]);
            var opens := alb != "" && Some(alb) != last;
            WithHeaders(albumOf, rs, last)
            == ((if opens then [Header(alb, false)] else []) + [RowNode(rs[0])])
               + WithHeaders(albumOf, rs[1..], if opens then Some(alb) else last)
  {
  }

  /** Inserting headers keeps every row and the row order. */
  lemma {:induction false} WithHeadersRows(albumOf: Row -> string, rs: seq<Row>, last: Option<string>)
    ensures Rows(WithHeaders(albumOf, rs, last)) == rs
  {
    if rs != [] {
      var alb := albumOf(rs[0]);
      var next := if alb != "" && Some(alb) != last then Some(alb) else last;
      WithHeadersRows(albumOf, rs[1..], next);
      var rest := WithHeaders(albumOf, rs[1..], next);
      RowsAppend(if alb != "" && Some(alb) != last then [Header(alb, false), RowNode(rs[0])] else [RowNode(rs[0])], rest);
      assert [rs[0]] + rs[1..] == rs;
    }
  }

  /** The rows of joined children are the rows of each part, in order. */
  lemma {:induction false} RowsAppend(a: seq<Node>, b: seq<Node>)
    ensures Rows(a + b) == Rows(a) + Rows(b)
  {
    if a == [] {
      assert a + b == b;
    } else {
      var c := a + b;
      assert c[0] == a[0] && c[1..] == a[1..] + b;
      var h := if a[0].RowNode? then [a[0].row] else [];
      RowsAppend(a[1..], b);
      calc {
        Rows(c);
        h + Rows(a[1..] + b);
        h + (Rows(a[1..]) + Rows(b));
        (h + Rows(a[1..])) + Rows(b);
        Rows(a) + Rows(b);
      }
    }
  }

  /** The header albums of joined children are those of each part, in order. */
  lemma {:induction false} HeaderAlbumsAppend(a: seq<Node>, b: seq<Node>)
    ensures HeaderAlbums(a + b) == HeaderAlbums(a) + HeaderAlbums(b)
  {
    if a == [] {
      assert a + b == b;
    } else {
      assert (a + b)[0] == a[0];
      assert (a + b)[1..] == a[1..] + b;
      HeaderAlbumsAppend(a[1..], b);
      assert HeaderAlbums(a + b) == (if a[0].Header? then [a[0].album] else []) + HeaderAlbums(a[1..] + b);
    }
  }

  /** Albums do not decrease along the rows. */
  predicate AlbumsSorted(albumOf: Row -> string, rs: seq<Row>) {
    forall i, j :: 0 <= i < j < |rs| ==> !LexLess(albumOf(rs[j]), albumOf(rs[i]))
  }

  /** `last` is at most every album of the rows. */
  predicate AtMostAll(albumOf: Row -> string, last: Option<string>, rs: seq<Row>) {
    last.Some? ==> forall i :: 0 <= i < |rs| ==> !LexLess(albumOf(rs[i]), last.value)
  }

  /** One turn of the header loop, seen on the header albums. */
  lemma HeaderAlbumsStep(albumOf: Row -> string, rs: seq<Row>, last: Option<string>)
    requires rs != []
    ensures var alb := albumOf(rs[0]);
            var opens := alb != "" && Some(alb) != last;
            HeaderAlbums(WithHeaders(albumOf, rs, last))
            == (if opens then [alb] else []) + HeaderAlbums(WithHeaders(albumOf, rs[1..], if opens then Some(alb) else last))
  {
    var alb := albumOf(rs[0]);
    var opens := alb != "" && Some(alb) != last;
    var next := if opens then Some(alb) else last;
    var prefix: seq<Node> := if opens then [Header(alb, false), RowNode(rs[0])] else [RowNode(rs[0])];
    WithHeadersStep(albumOf, rs, last);
    assert WithHeaders(albumOf, rs, last) == prefix + WithHeaders(albumOf, rs[1..], next);
    HeaderAlbumsAppend(prefix, WithHeaders(albumOf, rs[1..], next));
    assert HeaderAlbums(prefix) == (if opens then [alb] else []);
  }

  /** The order facts the header loop relies on carry over to the rest of the rows. */
  lemma SortedStep(albumOf: Row -> string, rs: seq<Row>, last: Option<string>)
    requires rs != [] && AlbumsSorted(albumOf, rs) && AtMostAll(albumOf, last, rs)
    ensures AlbumsSorted(albumOf, rs[1..])
    ensures var alb := albumOf(rs[0]);
            AtMostAll(albumOf, if alb != "" && Some(alb) != last then Some(alb) else last, rs[1..])
  {
    var tail := rs[1..];
    assert forall i :: 0 <= i < |tail| ==> tail[i] == rs[i + 1];
  }

  /** On rows in album order every header album is non-empty and above `last`. */
  lemma {:induction false} HeadersAbove(albumOf: Row -> string, rs: seq<Row>, last: Option<string>)
    requires AlbumsSorted(albumOf, rs) && AtMostAll(albumOf, last, rs)
    ensures forall h :: h in HeaderAlbums(WithHeaders(albumOf, rs, last))
              ==> h != "" && (last.Some? ==> LexLess(last.value, h))
  {
    if rs != [] {
      var alb := albumOf(rs[0]);
      var opens := alb != "" && Some(alb) != last;
      var next := if opens then Some(alb) else last;
      SortedStep(albumOf, rs, last);
      HeaderAlbumsStep(albumOf, rs, last);
      HeadersAbove(albumOf, rs[1..], next);
      var restH := HeaderAlbums(WithHeaders(albumOf, rs[1..], next));
      var allH := HeaderAlbums(WithHeaders(albumOf, rs, last));
      if opens && last.Some? {
        LexTotal(last.value, alb);
      }
      forall h | h in allH
        ensures h != "" && (last.Some? ==> LexLess(last.value, h))
      {
        if opens && h != alb {
          assert h in restH;
          if last.Some? {
            LexTransitive(last.value, alb, h);
          }
        } else if !opens {
          assert h in restH;
        }
      }
    }
  }

  /** Strictly increasing in string order. */
  predicate Increasing(hs: seq<string>) {
    forall i, j :: 0 <= i < j < |hs| ==> LexLess(hs[i], hs[j])
  }

  /** Putting an album below all of an increasing list in front keeps it increasing. */
  lemma IncreasingCons(x: string, t: seq<string>)
    requires Increasing(t) && forall h :: h in t ==> LexLess(x, h)
    ensures Increasing([x] + t)
  {
    var u := [x] + t;
    forall i, j | 0 <= i < j < |u|
      ensures LexLess(u[i], u[j])
    {
      assert u[j] == t[j - 1];
      if i > 0 {
        assert u[i] == t[i - 1];
      } else {
        assert u[j] in t;
      }
    }
  }

  /** On rows in album order the header albums strictly increase, so no album gets two headers. */
  lemma {:induction false} HeadersIncreasing(albumOf: Row -> string, rs: seq<Row>, last: Option<string>)
    requires AlbumsSorted(albumOf, rs) && AtMostAll(albumOf, last, rs)
    ensures Increasing(HeaderAlbums(WithHeaders(albumOf, rs, last)))
  {
    if rs != [] {
      var alb := albumOf(rs[0]);
      var opens := alb != "" && Some(alb) != last;
      var next := if opens then Some(alb) else last;
      SortedStep(albumOf, rs, last);
      HeaderAlbumsStep(albumOf, rs, last);
      HeadersIncreasing(albumOf, rs[1..], next);
      if opens {
        HeadersAbove(albumOf, rs[1..], next);
        IncreasingCons(alb, HeaderAlbums(WithHeaders(albumOf, rs[1..], next)));
      } else {
        assert [] + HeaderAlbums(WithHeaders(albumOf, rs[1..], next)) == HeaderAlbums(WithHeaders(albumOf, rs[1..], next));
      }
    }
  }

  /** Every non-empty album other than `last` gets a header, whatever the row order. */
  lemma {:induction false} HeadersCover(albumOf: Row -> string, rs: seq<Row>, last: Option<string>)
    ensures forall k :: 0 <= k < |rs| && albumOf(rs[k]) != "" && Some(albumOf(rs[k])) != last
              ==> albumOf(rs[k]) in HeaderAlbums(WithHeaders(albumOf, rs, last))
  {
    if rs != [] {
      var alb := albumOf(rs[0]);
      var opens := alb != "" && Some(alb) != last;
      var next := if opens then Some(alb) else last;
      var tail := rs[1..];
      HeaderAlbumsStep(albumOf, rs, last);
      HeadersCover(albumOf, tail, next);
      var restH := HeaderAlbums(WithHeaders(albumOf, tail, next));
      var allH := HeaderAlbums(WithHeaders(albumOf, rs, last));
      forall k | 0 <= k < |rs| && albumOf(rs[k]) != "" && Some(albumOf(rs[k])) != last
        ensures albumOf(rs[k]) in allH
      {
        if k == 0 {
          assert opens;
        } else {
          assert rs[k] == tail[k - 1];
          if opens && albumOf(rs[k]) == alb {
          } else {
            assert albumOf(tail[k - 1]) in restH;
          }
        }
      }
    }
  }

  /**
   * On rows in album order the headers come in strictly increasing album
   * order, above `last`, so no album gets two headers; and every non-empty
   * album other than `last` gets one.
   */
  lemma GroupHeaders(albumOf: Row -> string, rs: seq<Row>, last: Option<string>)
    requires AlbumsSorted(albumOf, rs) && AtMostAll(albumOf, last, rs)
    ensures forall i, j :: 0 <= i < j < |HeaderAlbums(WithHeaders(albumOf, rs, last))|
              ==> LexLess(HeaderAlbums(WithHeaders(albumOf, rs, last))[i], HeaderAlbums(WithHeaders(albumOf, rs, last))[j])
    ensures forall h :: h in HeaderAlbums(WithHeaders(albumOf, rs, last))
              ==> h != "" && (last.Some? ==> LexLess(last.value, h))
    ensures forall k :: 0 <= k < |rs| && albumOf(rs[k]) != "" && Some(albumOf(rs[k])) != last
              ==> albumOf(rs[k]) in HeaderAlbums(WithHeaders(albumOf, rs, last))
  {
    HeadersIncreasing(albumOf, rs, last);
    HeadersAbove(albumOf, rs, last);
    HeadersCover(albumOf, rs, last);
  }

  /** Header `j` is followed by a row of its album, and no row of that album comes before it. */
  predicate Placed(albumOf: Row -> string, cs: seq<Node>, j: int)
    requires 0 <= j < |cs| && cs[j].Header?
  {
    j + 1 < |cs| && cs[j + 1].RowNode? && albumOf(cs[j + 1].row) == cs[j].album
    && forall m :: 0 <= m < j && cs[m].RowNode? ==> albumOf(cs[m].row) != cs[j].album
  }

  /** A placed header of the rest stays placed behind a first row of another album. */
  lemma PlacedInRest(albumOf: Row -> string, prefix: seq<Node>, first: Row, rest: seq<Node>, j: int)
    requires prefix == [RowNode(first)] || prefix == [Header(albumOf(first), false), RowNode(first)]
    requires 0 <= j < |rest| && rest[j].Header? && Placed(albumOf, rest, j)
    requires rest[j].album != albumOf(first)
    ensures Placed(albumOf, prefix + rest, j + |prefix|)
  {
    var out, k := prefix + rest, j + |prefix|;
    assert out[k] == rest[j] && out[k + 1] == rest[j + 1];
    forall m | 0 <= m < k && out[m].RowNode?
      ensures albumOf(out[m].row) != out[k].album
    {
      if m >= |prefix| {
        assert out[m] == rest[m - |prefix|];
      } else {
        assert out[m].row == first;
      }
    }
  }

  /** Every header is followed by a row of its album, and no row of that album comes before it. */
  lemma {:induction false} HeaderPlacement(albumOf: Row -> string, rs: seq<Row>, last: Option<string>)
    requires AlbumsSorted(albumOf, rs) && AtMostAll(albumOf, last, rs)
    ensures forall j :: 0 <= j < |WithHeaders(albumOf, rs, last)| && WithHeaders(albumOf, rs, last)[j].Header?
              ==> Placed(albumOf, WithHeaders(albumOf, rs, last), j)
  {
    if rs != [] {
      var alb := albumOf(rs[0]);
      var opens := alb != "" && Some(alb) != last;
      var next := if opens then Some(alb) else last;
      var tail := rs[1..];
      SortedStep(albumOf, rs, last);
      HeaderPlacement(albumOf, tail, next);
      HeadersAbove(albumOf, tail, next);
      var rest := WithHeaders(albumOf, tail, next);
      var prefix: seq<Node> := if opens then [Header(alb, false), RowNode(rs[0])] else [RowNode(rs[0])];
      WithHeadersStep(albumOf, rs, last);
      assert WithHeaders(albumOf, rs, last) == prefix + rest;
      LexIrreflexive(alb);
      forall j | 0 <= j < |rest| && rest[j].Header?
        ensures rest[j].album != alb
      {
        HeaderInAlbums(rest, j);
      }
      PlacedWithPrefix(albumOf, prefix, rs[0], rest);
    }
  }

  /** Headers placed in the rest stay placed behind a first row (with its own header) of another album. */
  lemma PlacedWithPrefix(albumOf: Row -> string, prefix: seq<Node>, first: Row, rest: seq<Node>)
    requires prefix == [RowNode(first)] || prefix == [Header(albumOf(first), false), RowNode(first)]
    requires forall j :: 0 <= j < |rest| && rest[j].Header? ==> Placed(albumOf, rest, j)
    requires forall j :: 0 <= j < |rest| && rest[j].Header? ==> rest[j].album != albumOf(first)
    ensures forall j :: 0 <= j < |prefix + rest| && (prefix + rest)[j].Header? ==> Placed(albumOf, prefix + rest, j)
  {
    var out := prefix + rest;
    forall j | 0 <= j < |out| && out[j].Header?
      ensures Placed(albumOf, out, j)
    {
      if j >= |prefix| {
        var j' := j - |prefix|;
        assert out[j] == rest[j'];
        PlacedInRest(albumOf, prefix, first, rest, j');
      }
    }
  }

  lemma {:induction false} HeaderInAlbums(cs: seq<Node>, j: int)
    requires 0 <= j < |cs| && cs[j].Header?
    ensures cs[j].album in HeaderAlbums(cs)
  {
    if j > 0 {
      HeaderInAlbums(cs[1..], j - 1);
    }
  }

  /** The container's children after sortAndGroup, from the rows it found. */
  function Regroup(rs: seq<Row>): (r: seq<Node>)
    ensures Rows(r) == SortRows(rs)
  {
    WithHeadersRows(Album, SortRows(rs), None);
    WithHeaders(Album, SortRows(rs), None)
  }

  /**
   * Regrouping clears the old headers first, so a second sortAndGroup gives
   * the same children as the first and never duplicates a header.
   */
  lemma RegroupIdempotent(rs: seq<Row>)
    ensures Regroup(Rows(Regroup(rs))) == Regroup(rs)
  {
    WithHeadersRows(Album, SortRows(rs), None);
    KeyLessOrder();
    JsSort.SortSorted(KeyLess, rs);
    SortRowsOfSorted(SortRows(rs));
  }

  /** Some row of `rs` has album `a`. */
  ghost predicate HasAlbum(albumOf: Row -> string, rs: seq<Row>, a: string) {
    exists r :: r in rs && albumOf(r) == a
  }

  /** On rows in album order: no album has two headers, and the header albums are the non-empty albums. */
  lemma HeadersOfSorted(albumOf: Row -> string, s: seq<Row>)
    requires AlbumsSorted(albumOf, s)
    ensures forall i, j :: 0 <= i < j < |HeaderAlbums(WithHeaders(albumOf, s, None))|
              ==> HeaderAlbums(WithHeaders(albumOf, s, None))[i] != HeaderAlbums(WithHeaders(albumOf, s, None))[j]
    ensures forall a :: a in HeaderAlbums(WithHeaders(albumOf, s, None)) <==> a != "" && HasAlbum(albumOf, s, a)
  {
    GroupHeaders(albumOf, s, None);
    var hs := HeaderAlbums(WithHeaders(albumOf, s, None));
    forall i, j | 0 <= i < j < |hs|
      ensures hs[i] != hs[j]
    {
      if hs[i] == hs[j] {
        LexIrreflexive(hs[i]);
      }
    }
    forall a | a in hs
      ensures HasAlbum(albumOf, s, a)
    {
      HeaderFromRow(albumOf, s, None, a);
      var k :| 0 <= k < |s| && albumOf(s[k]) == a;
      assert s[k] in s;
    }
    forall a | a != "" && HasAlbum(albumOf, s, a)
      ensures a in hs
    {
      var r :| r in s && albumOf(r) == a;
      var k :| 0 <= k < |s| && s[k] == r;
    }
  }

  /** Rows in key order are in album order. */
  lemma KeySortedAlbums(s: seq<Row>)
    requires JsSort.Sorted(KeyLess, s)
    ensures AlbumsSorted(Album, s)
  {
  }

  /**
   * What regrouping promises: the rows are the old rows, sorted and
   * reordered only; one header per distinct non-empty album, in album order.
   */
  lemma RegroupShape(rs: seq<Row>)
    ensures Rows(Regroup(rs)) == SortRows(rs)
    ensures forall i, j :: 0 <= i < j < |HeaderAlbums(Regroup(rs))|
              ==> HeaderAlbums(Regroup(rs))[i] != HeaderAlbums(Regroup(rs))[j]
    ensures forall a :: a in HeaderAlbums(Regroup(rs)) <==> a != "" && HasAlbum(Album, rs, a)
  {
    var s := SortRows(rs);
    WithHeadersRows(Album, s, None);
    KeyLessOrder();
    JsSort.SortSorted(KeyLess, rs);
    JsSort.SortPermutes(KeyLess, rs);
    KeySortedAlbums(s);
    HeadersOfSorted(Album, s);
    SameAlbums(Album, rs, s);
  }

  /** Two lists holding the same rows have the same albums. */
  lemma SameAlbums(albumOf: Row -> string, rs: seq<Row>, s: seq<Row>)
    requires multiset(rs) == multiset(s)
    ensures forall a :: HasAlbum(albumOf, rs, a) <==> HasAlbum(albumOf, s, a)
  {
    forall r
      ensures r in rs <==> r in s
    {
      assert r in rs <==> r in multiset(rs);
      assert r in s <==> r in multiset(s);
    }
  }

  /** Every header album is the album of some row. */
  lemma {:induction false} HeaderFromRow(albumOf: Row -> string, rs: seq<Row>, last: Option<string>, a: string)
    requires a in HeaderAlbums(WithHeaders(albumOf, rs, last))
    ensures exists k :: 0 <= k < |rs| && albumOf(rs[k]) == a
  {
    var alb := albumOf(rs[0]);
    var opens := alb != "" && Some(alb) != last;
    var next := if opens then Some(alb) else last;
    var prefix: seq<Node> := if opens then [Header(alb, false), RowNode(rs[0])] else [RowNode(rs[0])];
    HeaderAlbumsAppend(prefix, WithHeaders(albumOf, rs[1..], next));
    if !(opens && a == alb) {
      HeaderFromRow(albumOf, rs[1..], next, a);
      var k :| 0 <= k < |rs[1..]| && albumOf(rs[1..][k]) == a;
      assert rs[k + 1] == rs[1..][k];
    }
  }

  // ------------------------------------------------------------- collapse

  /** The index of the first header after `h`, or the number of children. */
  function NextHeader(cs: seq<Node>, h: int): (r: int)
    requires 0 <= h < |cs|
    ensures h < r <= |cs| && (r < |cs| ==> cs[r].Header?)
    ensures forall j :: h < j < r ==> !cs[j].Header?
  {
    var p := j => 0 <= j < |cs| && cs[j].Header?;
    assert forall j :: p(j) == (0 <= j < |cs| && cs[j].Header?);
    match FirstIndex(p, h + 1, |cs|)
    case None => |cs|
    case Some(j) => j
  }

  /** The display a row of a section gets when its header is toggled from `collapsed`. */
  function Shown(n: Node, collapsed: bool): Node {
    match n
    case RowNode(r) => RowNode(r.(display := if collapsed then "" else "none"))
    case Header(_, _) => n
  }

  /** toggleCollapse on the header at `h`, as a function of the children. */
  function ToggleSection(cs: seq<Node>, h: int): (r: seq<Node>)
    requires 0 <= h < |cs| && cs[h].Header?
    ensures |r| == |cs|
  {
    var collapsed := cs[h].closed;
    var end := NextHeader(cs, h);
    seq(|cs|, j requires 0 <= j < |cs| =>
      if j == h then cs[h].(closed := !collapsed)
      else if h < j < end then Shown(cs[j], collapsed)
      else cs[j])
  }

  /**
   * Collapsing an open section hides exactly its rows; expanding it again
   * shows them, so a section whose rows were shown returns to its state.
   */
  lemma ToggleTwice(cs: seq<Node>, h: int)
    requires 0 <= h < |cs| && cs[h].Header? && !cs[h].closed
    requires forall j :: h < j < NextHeader(cs, h) ==> cs[j].RowNode? && cs[j].row.display == ""
    ensures forall j :: h < j < NextHeader(cs, h) ==> ToggleSection(cs, h)[j].row.display == "none"
    ensures ToggleSection(ToggleSection(cs, h), h) == cs
  {
    var once := ToggleSection(cs, h);
    assert forall j :: 0 <= j < |cs| ==> (once[j].Header? <==> cs[j].Header?);
    assert NextHeader(once, h) == NextHeader(cs, h);
    var twice := ToggleSection(once, h);
    forall j | 0 <= j < |cs|
      ensures twice[j] == cs[j]
    {
      if h < j < NextHeader(cs, h) {
        assert cs[j] == RowNode(cs[j].row.(display := ""));
      }
    }
  }

  /** The header loop of sortAndGroup over the sorted rows: a header before the first row of each album. */
  method GroupWithHeaders(sorted: seq<Row>) returns (out: seq<Node>)
    ensures out == WithHeaders(Album, sorted, None)
  {
    out := [];
    var last: Option<string> := None;
    for i := 0 to |sorted|
      invariant out + WithHeaders(Album, sorted[i..], last) == WithHeaders(Album, sorted, None)
    {
      var alb := Album(sorted[i]);
      var opens := alb != "" && Some(alb) != last;
      var piece := (if opens then [Header(alb, false)] else []) + [RowNode(sorted[i])];
      WithHeadersStep(Album, sorted[i..], last);
      assert sorted[i..][0] == sorted[i] && sorted[i..][1..] == sorted[i + 1..];
      ghost var rest := WithHeaders(Album, sorted[i + 1..], if opens then Some(alb) else last);
      AppendAssociative(out, piece, rest);
      out := out + piece;
      if opens {
        last := Some(alb);
      }
    }
    assert sorted[|sorted|..] == [];
  }

  /** The track list of the page and the grouping switch. */
  class TrackList {
    var children: seq<Node>
    var groupingEnabled: bool

    /** Grouping starts enabled. */
    constructor (initial: seq<Node>)
      ensures children == initial && groupingEnabled
    {
      children := initial;
      groupingEnabled := true;
    }

    /**
     * sortAndGroup: nothing when grouping is off or there are no rows;
     * otherwise the rows in sorted order, old headers removed, a header
     * before the first row of each album.
     */
    method SortAndGroup()
      modifies this
      ensures groupingEnabled == old(groupingEnabled)
      ensures !groupingEnabled || Rows(old(children)) == [] ==> children == old(children)
      ensures groupingEnabled && Rows(old(children)) != [] ==> children == Regroup(Rows(old(children)))
    {
      var r := Rows(children);
      if !groupingEnabled || r == [] {
        return;
      }
      var sorted := SortRows(r);
      // the rows re-appended in sorted order, then the old headers removed
      children := seq(|sorted|, i requires 0 <= i < |sorted| => RowNode(sorted[i]));
      var out := GroupWithHeaders(sorted);
      children := out;
    }

    /** A click on the header at `h`: flip it and set the display of its section's rows. */
    method ToggleCollapse(h: int)
      requires 0 <= h < |children| && children[h].Header?
      modifies this
      ensures groupingEnabled == old(groupingEnabled)
      ensures children == ToggleSection(old(children), h)
    {
      ghost var cs := children;
      var collapsed := children[h].closed;
      children := children[h := children[h].(closed := !collapsed)];
      var el := h + 1;
      while el < |children| && !children[el].Header?
        invariant h < el <= NextHeader(cs, h)
        invariant groupingEnabled == old(groupingEnabled)
        invariant |children| == |cs| && children[h] == cs[h].(closed := !collapsed)
        invariant forall j :: h < j < el ==> children[j] == Shown(cs[j], collapsed)
        invariant forall j :: 0 <= j < |cs| && j != h && !(h < j < el) ==> children[j] == cs[j]
        decreases |children| - el
      {
        children := children[el := Shown(children[el], collapsed)];
        el := el + 1;
      }
      assert el == NextHeader(cs, h);
      assert children == ToggleSection(cs, h);
    }

    /**
     * toggleGrouping: flips the switch; switched off, the headers go and
     * every row is shown again (in the current order); switched on, the
     * list is regrouped.
     */
    method ToggleGrouping()
      modifies this
      ensures groupingEnabled == !old(groupingEnabled)
      ensures Rows(old(children)) == [] ==> children == old(children)
      ensures Rows(old(children)) != [] && !groupingEnabled ==>
                children == ShowAll(Rows(old(children)))
      ensures Rows(old(children)) != [] && groupingEnabled ==>
                children == Regroup(Rows(old(children)))
    {
      groupingEnabled := !groupingEnabled;
      var r := Rows(children);
      if r == [] {
        return;
      }
      if !groupingEnabled {
        children := ShowAll(r);
      } else {
        SortAndGroup();
      }
    }
  }

  /** The children once the headers are removed and each row's display is reset to "". */
  function ShowAll(rs: seq<Row>): (r: seq<Node>)
    ensures |r| == |rs|
    ensures forall i :: 0 <= i < |r| ==> r[i] == RowNode(rs[i].(display := ""))
  {
    seq(|rs|, i requires 0 <= i < |rs| => RowNode(rs[i].(display := "")))
  }

  /** Switching grouping off leaves no header and hides no row. */
  lemma ShowAllPlain(rs: seq<Row>)
    ensures HeaderAlbums(ShowAll(rs)) == []
    ensures |Rows(ShowAll(rs))| == |rs|
    ensures forall r :: r in Rows(ShowAll(rs)) ==> r.display == ""
  {
    ShowAllRows(rs);
  }

  lemma {:induction false} ShowAllRows(rs: seq<Row>)
    ensures HeaderAlbums(ShowAll(rs)) == []
    ensures Rows(ShowAll(rs)) == seq(|rs|, i requires 0 <= i < |rs| => rs[i].(display := ""))
  {
    if rs != [] {
      ShowAllRows(rs[1..]);
      assert ShowAll(rs) == [RowNode(rs[0].(display := ""))] + ShowAll(rs[1..]);
      RowsAppend([RowNode(rs[0].(display := ""))], ShowAll(rs[1..]));
      HeaderAlbumsAppend([RowNode(rs[0].(display := ""))], ShowAll(rs[1..]));
    }
  }
}
