/**
 * The calendar focus blocker: a small reader of an iCalendar feed (VEVENT
 * components, section 3.6.1 of RFC 5545, whose UTC DATE-TIME values of
 * section 3.3.5 are rewritten to the extended ISO 8601 form), the choice of
 * the event in progress, the block decision with its temporary unblock
 * window, the countdown text and the feed cache.
 */
module CalendarBlocker {
  import opened Maybe
  import opened JsText

  const BlockKeywords: seq<string> := ["Focus", "Study", "Work"]
  const BlockedSites: seq<string> := ["youtube.com", "reddit.com", "twitter.com", "instagram.com"]

  /** Five minutes, in milliseconds. */
  const CacheTtl: int := 5 * 60 * 1000

  const EventDelimiter: string := "BEGIN:VEVENT"

  // ------------------------------------------------------------------ toDate

  /**
   * The pattern `(\d{4})(\d{2})(\d{2})T(\d{2})(\d{2})(\d{2})Z` matches at
   * index `i`: eight digits, `T`, six digits, `Z`.
   */
  predicate StampAt(s: string, i: int) {
    0 <= i && i + 16 <= |s|
    && AllDigits(s[i..i + 8]) && s[i + 8] == 'T' && AllDigits(s[i + 9..i + 15]) && s[i + 15] == 'Z'
  }

  /** The replacement `$1-$2-$3T$4:$5:$6Z` for the sixteen characters of a match. */
  function Extended(t: string): (r: string)
    requires |t| == 16
    ensures |r| == 20
  {
    t[0..4] + "-" + t[4..6] + "-" + t[6..8] + "T" + t[9..11] + ":" + t[11..13] + ":" + t[13..15] + "Z"
  }

  /** The inverse of `Extended`: the separators dropped again. */
  function Basic(e: string): string
    requires |e| == 20
  {
    e[0..4] + e[5..7] + e[8..10] + "T" + e[11..13] + e[14..16] + e[17..19] + "Z"
  }

  /** `i` is the leftmost index where the stamp pattern matches. */
  predicate LeftmostStamp(s: string, i: int) {
    StampAt(s, i) && forall j :: 0 <= j < i ==> !StampAt(s, j)
  }

  /**
   * The string `toDate` hands to `new Date`: the leftmost stamp rewritten,
   * everything around it kept; a string without a stamp passes unchanged.
   */
  function ToIso(s: string): (r: string)
    ensures (forall i :: !StampAt(s, i)) ==> r == s
    ensures (exists i :: StampAt(s, i)) ==> |r| == |s| + 4 && r != s
    ensures forall i :: LeftmostStamp(s, i) ==> r == s[..i] + Extended(s[i..i + 16]) + s[i + 16..]
  {
    var p := i => StampAt(s, i);
    assert forall j :: p(j) == StampAt(s, j);
    match FirstIndex(p, 0, |s| + 1)
    case None => s
    case Some(i) =>
      var r := s[..i] + Extended(s[i..i + 16]) + s[i + 16..];
      assert |r| == i + 20 + (|s| - i - 16);
      assert forall i' :: LeftmostStamp(s, i') ==> i' == i;
      r
  }

  /** Dropping the separators from the extended form gives the basic form back. */
  lemma BasicExtended(t: string)
    requires |t| == 16 && t[8] == 'T' && t[15] == 'Z'
    ensures Basic(Extended(t)) == t
  {
    var e := Extended(t);
    assert e[0..4] == t[0..4] && e[5..7] == t[4..6] && e[8..10] == t[6..8];
    assert e[11..13] == t[9..11] && e[14..16] == t[11..13] && e[17..19] == t[13..15];
    assert t == t[0..4] + t[4..6] + t[6..8] + [t[8]] + t[9..11] + t[11..13] + t[13..15] + [t[15]];
  }

  /** A bare DATE-TIME value is rewritten to the extended form, and dropping the separators gives it back. */
  lemma ToIsoStamp(t: string)
    requires |t| == 16 && StampAt(t, 0)
    ensures ToIso(t) == Extended(t)
    ensures Basic(ToIso(t)) == t
  {
    assert t[..0] + Extended(t[0..16]) + t[16..] == Extended(t) by {
      assert t[..0] == [] && t[16..] == [] && t[0..16] == t;
    }
    BasicExtended(t);
  }

  // ------------------------------------------------------------- parseEvents

  /** What the regular-expression `.` does not match. */
  predicate IsLineTerminator(c: char) {
    c == '\n' || c == '\r' || c == '\U{2028}' || c == '\U{2029}'
  }

  predicate NotLineTerminator(c: char) {
    !IsLineTerminator(c)
  }

  /** `KEY:(.+)` matches at index `i`: the key, a colon and at least one character of the same line. */
  predicate FieldAt(block: string, key: string, i: int) {
    OccursAt(block, key + ":", i) && i + |key| + 1 < |block| && NotLineTerminator(block[i + |key| + 1])
  }

  /** `i` is the leftmost index where `KEY:(.+)` matches. */
  predicate LeftmostField(block: string, key: string, i: int) {
    FieldAt(block, key, i) && forall j :: 0 <= j < i ==> !FieldAt(block, key, j)
  }

  /** `v` is the whole non-empty rest of the line that starts at index `k`. */
  predicate LineValueAt(block: string, k: int, v: string) {
    |v| >= 1 && (forall m :: 0 <= m < |v| ==> NotLineTerminator(v[m]))
    && OccursAt(block, v, k) && (k + |v| < |block| ==> IsLineTerminator(block[k + |v|]))
  }

  /**
   * `block.match(new RegExp(`${key}:(.+)`))?.[1]`: the rest of the line after
   * the leftmost `KEY:` that has something after it; none when no line has.
   */
  function GetField(block: string, key: string): (r: Option<string>)
    ensures r.None? <==> forall i :: !FieldAt(block, key, i)
    ensures r.Some? ==> exists i :: LeftmostField(block, key, i) && LineValueAt(block, i + |key| + 1, r.value)
  {
    var p := i => FieldAt(block, key, i);
    assert forall j :: p(j) == FieldAt(block, key, j);
    assert forall j :: FieldAt(block, key, j) ==> 0 <= j < |block|;
    match FirstIndex(p, 0, |block|)
    case None => None
    case Some(i) =>
      var k := i + |key| + 1;
      LineRest(block, k);
      assert LeftmostField(block, key, i);
      Some(TakeWhile(block[k..], NotLineTerminator))
  }

  /** The characters up to the end of the line from index `k`, when `k` starts a non-empty one. */
  lemma LineRest(block: string, k: int)
    requires 0 <= k < |block| && NotLineTerminator(block[k])
    ensures LineValueAt(block, k, TakeWhile(block[k..], NotLineTerminator))
  {
    var v := TakeWhile(block[k..], NotLineTerminator);
    assert block[k..][0] == block[k];
    assert block[k..][..|v|] == block[k..k + |v|];
    assert k + |v| < |block| ==> block[k..][|v|] == block[k + |v|];
  }

  /** A calendar event, its times as `new Date` gave them (none for an Invalid Date). */
  datatype Event = Event(summary: string, start: Option<int>, end: Option<int>)

  /**
   * One block of the feed as an event: dropped when it has no DTSTART or no
   * DTEND value, with an empty summary when it has no SUMMARY value.
   */
  function Candidate(block: string, dateOf: string -> Option<int>): (r: Option<Event>)
    ensures r.Some? <==> GetField(block, "DTSTART").Some? && GetField(block, "DTEND").Some?
    ensures r.Some? ==> r.value.summary == GetField(block, "SUMMARY").GetOr("")
    ensures GetField(block, "SUMMARY").None? && r.Some? ==> r.value.summary == ""
    ensures r.Some? ==> r.value.start == dateOf(ToIso(GetField(block, "DTSTART").value))
    ensures r.Some? ==> r.value.end == dateOf(ToIso(GetField(block, "DTEND").value))
  {
    var summary := GetField(block, "SUMMARY");
    var start := GetField(block, "DTSTART");
    var end := GetField(block, "DTEND");
    if start.Some? && end.Some? then
      Some(Event(summary.GetOr(""), dateOf(ToIso(start.value)), dateOf(ToIso(end.value))))
    else None
  }

  /** Each block read as an event, or none. */
  function Readings(blocks: seq<string>, dateOf: string -> Option<int>): (r: seq<Option<Event>>)
    ensures |r| == |blocks| && forall k :: 0 <= k < |r| ==> r[k] == Candidate(blocks[k], dateOf)
  {
    seq(|blocks|, k requires 0 <= k < |blocks| => Candidate(blocks[k], dateOf))
  }

  /** The events that were read, in block order (the `filter`). */
  function Present(cs: seq<Option<Event>>): (r: seq<Event>)
    ensures |r| <= |cs|
    ensures forall e :: e in r <==> Some(e) in cs
  {
    if cs == [] then []
    else
      assert cs == [cs[0]] + cs[1..];
      (if cs[0].Some? then [cs[0].value] else []) + Present(cs[1..])
  }

  /** The filter keeps the order of the blocks. */
  lemma {:induction false} PresentAppend(a: seq<Option<Event>>, b: seq<Option<Event>>)
    ensures Present(a + b) == Present(a) + Present(b)
  {
    if a == [] {
      assert a + b == b;
    } else {
      assert (a + b)[0] == a[0];
      assert (a + b)[1..] == a[1..] + b;
      PresentAppend(a[1..], b);
    }
  }

  /** An event that was read sits after the events read from the blocks before it. */
  lemma PresentPosition(cs: seq<Option<Event>>, i: int)
    requires 0 <= i < |cs| && cs[i].Some?
    ensures |Present(cs[..i])| < |Present(cs)| && Present(cs)[|Present(cs[..i])|] == cs[i].value
  {
    var rest := cs[i..];
    assert cs == cs[..i] + rest;
    PresentAppend(cs[..i], rest);
    assert rest[0] == cs[i];
    assert Present(rest) == [cs[i].value] + Present(rest[1..]);
  }

  /** A later block has more events read before it than an earlier block that was read. */
  lemma PresentOrder(cs: seq<Option<Event>>, i: int, j: int)
    requires 0 <= i < j <= |cs| && cs[i].Some?
    ensures |Present(cs[..i])| < |Present(cs[..j])|
  {
    var mid := cs[i..j];
    assert cs[..j] == cs[..i] + mid;
    PresentAppend(cs[..i], mid);
    assert mid[0] == cs[i];
    assert Present(mid) == [cs[i].value] + Present(mid[1..]);
  }

  /** Two events that were read come out in the order of their blocks. */
  lemma PresentKeepsOrder(cs: seq<Option<Event>>, i: int, j: int)
    requires 0 <= i < j < |cs| && cs[i].Some? && cs[j].Some?
    ensures exists a, b :: 0 <= a < b < |Present(cs)| && Present(cs)[a] == cs[i].value && Present(cs)[b] == cs[j].value
  {
    PresentPosition(cs, i);
    PresentPosition(cs, j);
    PresentOrder(cs, i, j);
    var a, b := |Present(cs[..i])|, |Present(cs[..j])|;
    assert Present(cs)[a] == cs[i].value && Present(cs)[b] == cs[j].value;
  }

  /** Nothing is dropped exactly when every block was read as an event. */
  lemma {:induction false} PresentAll(cs: seq<Option<Event>>)
    ensures |Present(cs)| == |cs| <==> forall k :: 0 <= k < |cs| ==> cs[k].Some?
  {
    if cs != [] {
      PresentAll(cs[1..]);
      assert forall k :: 1 <= k < |cs| ==> cs[k] == cs[1..][k - 1];
    }
  }

  /**
   * parseEvents: the feed cut at every `BEGIN:VEVENT`, the text before the
   * first one discarded, each remaining block read as an event.
   */
  function ParseEvents(ics: string, dateOf: string -> Option<int>): (r: seq<Event>)
    ensures |r| <= |SplitOn(ics, EventDelimiter)| - 1
    ensures forall e :: e in r <==> exists k :: 1 <= k < |SplitOn(ics, EventDelimiter)|
                                           && Candidate(SplitOn(ics, EventDelimiter)[k], dateOf) == Some(e)
  {
    var blocks := SplitOn(ics, EventDelimiter);
    ReadingsContain(blocks, dateOf);
    Present(Readings(blocks[1..], dateOf))
  }

  /** The reading of block `k` of the feed, among the blocks after the first. */
  lemma ReadingAt(blocks: seq<string>, dateOf: string -> Option<int>, k: int)
    requires 1 <= k < |blocks|
    ensures Readings(blocks[1..], dateOf)[k - 1] == Candidate(blocks[k], dateOf)
  {
    assert blocks[1..][k - 1] == blocks[k];
  }

  /** A reading of the blocks after the first is the reading of one of those blocks. */
  lemma ReadingsContain(blocks: seq<string>, dateOf: string -> Option<int>)
    requires |blocks| >= 1
    ensures forall e :: Some(e) in Readings(blocks[1..], dateOf) <==>
                          exists k :: 1 <= k < |blocks| && Candidate(blocks[k], dateOf) == Some(e)
  {
    var cs := Readings(blocks[1..], dateOf);
    forall e | Some(e) in cs
      ensures exists k :: 1 <= k < |blocks| && Candidate(blocks[k], dateOf) == Some(e)
    {
      var k' :| 0 <= k' < |cs| && cs[k'] == Some(e);
      ReadingAt(blocks, dateOf, k' + 1);
    }
    forall e, k | 1 <= k < |blocks| && Candidate(blocks[k], dateOf) == Some(e)
      ensures Some(e) in cs
    {
      ReadingAt(blocks, dateOf, k);
    }
  }

  /** The text before the first `BEGIN:VEVENT` does not matter: the feed from there on gives the same events. */
  lemma ParseEventsDropsPreamble(ics: string, dateOf: string -> Option<int>, j: int)
    requires IndexOf(ics, EventDelimiter) == Some(j)
    ensures ParseEvents(ics[j..], dateOf) == ParseEvents(ics, dateOf)
  {
    var d := EventDelimiter;
    var t := ics[j..];
    assert t[0..|d|] == ics[j..j + |d|];
    assert OccursAt(t, d, 0);
    assert IndexOf(t, d) == Some(0);
    assert t[|d|..] == ics[j + |d|..];
    assert SplitOn(t, d)[1..] == SplitOn(ics[j + |d|..], d);
    assert SplitOn(ics, d)[1..] == SplitOn(ics[j + |d|..], d);
  }

  /** A feed with no `BEGIN:VEVENT` has no events. */
  lemma ParseEventsNone(ics: string, dateOf: string -> Option<int>)
    requires !Includes(ics, EventDelimiter)
    ensures ParseEvents(ics, dateOf) == []
  {
  }

  // ---------------------------------------------------------- getCurrentEvent

  /** The summary contains one of the keywords, whatever the case. */
  predicate HasKeyword(summary: string) {
    exists k :: 0 <= k < |BlockKeywords| && Includes(Lower(summary), Lower(BlockKeywords[k]))
  }

  /** The event is a focus event and `now` lies within it, both ends included. */
  predicate InProgress(e: Event, now: int) {
    HasKeyword(e.summary) && e.start.Some? && e.end.Some? && e.start.value <= now <= e.end.value
  }

  /** getCurrentEvent: the first event in progress at `now`. */
  function GetCurrentEvent(events: seq<Event>, now: int): (r: Option<Event>)
    ensures r.None? <==> forall k :: 0 <= k < |events| ==> !InProgress(events[k], now)
    ensures r.Some? ==> exists k :: 0 <= k < |events| && events[k] == r.value && InProgress(events[k], now)
                                  && forall j :: 0 <= j < k ==> !InProgress(events[j], now)
  {
    var p := k => 0 <= k < |events| && InProgress(events[k], now);
    assert forall j :: p(j) == (0 <= j < |events| && InProgress(events[j], now));
    match FirstIndex(p, 0, |events|)
    case None => None
    case Some(k) => Some(events[k])
  }

  /** An event is in progress from its start to its end inclusive, and at no other time. */
  lemma InProgressBounds(summary: string, start: int, end: int, now: int)
    requires HasKeyword(summary)
    ensures InProgress(Event(summary, Some(start), Some(end)), now) <==> start <= now <= end
    ensures !InProgress(Event(summary, None, Some(end)), now) && !InProgress(Event(summary, Some(start), None), now)
  {
  }

  /** The keyword test ignores case: an upper-case summary matches as its lower-case form does. */
  lemma HasKeywordIgnoresCase(summary: string)
    ensures HasKeyword(Lower(summary)) == HasKeyword(summary)
  {
    LowerIdempotent(summary);
  }

  // ---------------------------------------------------------- isBlockedSite

  /** isBlockedSite: the host contains one of the listed sites. */
  predicate IsBlockedSite(host: string)
    ensures IsBlockedSite(host) <==> exists k, i :: 0 <= k < |BlockedSites| && OccursAt(host, BlockedSites[k], i)
  {
    IncludesIffOccurs(host);
    exists k :: 0 <= k < |BlockedSites| && Includes(host, BlockedSites[k])
  }

  /** Every subdomain of a listed site is blocked. */
  lemma SubdomainBlocked(sub: string, k: int)
    requires 0 <= k < |BlockedSites|
    ensures IsBlockedSite(sub + BlockedSites[k])
  {
    var h := sub + BlockedSites[k];
    assert h[|sub|..|sub| + |BlockedSites[k]|] == BlockedSites[k];
    IncludesAt(h, BlockedSites[k], |sub|);
  }

  // ------------------------------------------------------------- formatTime

  /** formatTime: whole seconds left, never below zero, as `m:ss`. */
  function FormatTime(ms: int): (r: string)
    ensures ms >= 0 ==> ClockValue(r) == Some(ms / 1000)
    ensures ms < 1000 ==> ClockValue(r) == Some(0)
  {
    var seconds := if ms / 1000 < 0 then 0 else ms / 1000;
    ClockTextRoundTrip(seconds);
    ClockText(seconds)
  }

  // ------------------------------------------------------------------ run

  datatype Decision = Allow | Block(until: int)

  /**
   * run: block only a listed site, only during an event in progress, and
   * only outside a temporary unblock; the block lasts until that event's end.
   */
  function Run(host: string, ics: string, now: int, unblockUntil: int, dateOf: string -> Option<int>): (d: Decision)
    ensures d.Block? <==> IsBlockedSite(host) && GetCurrentEvent(ParseEvents(ics, dateOf), now).Some? && !(now < unblockUntil)
    ensures d.Block? ==> d.until == GetCurrentEvent(ParseEvents(ics, dateOf), now).value.end.value && now <= d.until
  {
    if !IsBlockedSite(host) then Allow
    else
      match GetCurrentEvent(ParseEvents(ics, dateOf), now)
      case None => Allow
      case Some(e) => if now < unblockUntil then Allow else Block(e.end.value)
  }

  /** While a temporary unblock is active nothing is blocked, whatever the calendar says. */
  lemma UnblockWindow(host: string, ics: string, started: int, seconds: int, now: int, dateOf: string -> Option<int>)
    requires started <= now < started + seconds * 1000
    ensures Run(host, ics, now, started + seconds * 1000, dateOf) == Allow
  {
  }

  /** One tick of the countdown: the page reloads once the end is reached, otherwise the time left is shown. */
  datatype Tick = Reload | Show(text: string)

  function CountdownTick(until: int, now: int): (t: Tick)
    ensures t.Reload? <==> until <= now
    ensures t.Show? ==> t.text == "Time left: " + FormatTime(until - now)
  {
    var remaining := until - now;
    if remaining <= 0 then Reload else Show("Time left: " + FormatTime(remaining))
  }

  // ---------------------------------------------------------- GM storage

  /** Where the calendar text comes from on this page load. */
  datatype Source = Cached(text: string) | Fetch

  /**
   * The cache check: a non-empty cached text younger than five minutes is
   * used; otherwise the feed is fetched.
   */
  function CacheChoice(cache: Option<string>, cachedAt: int, now: int): (s: Source)
    ensures s.Cached? <==> cache.Some? && cache.value != "" && now - cachedAt < CacheTtl
    ensures s.Cached? ==> s.text == cache.value
  {
    if cache.Some? && cache.value != "" && now - cachedAt < CacheTtl then Cached(cache.value) else Fetch
  }

  /** The values the script keeps with GM_setValue. */
  class GmValues {
    var temporaryUnblockUntil: Option<int>
    var calendarCache: Option<string>
    var calendarCacheTime: Option<int>

    constructor ()
      ensures temporaryUnblockUntil.None? && calendarCache.None? && calendarCacheTime.None?
    {
      temporaryUnblockUntil := None;
      calendarCache := None;
      calendarCacheTime := None;
    }

    /** `GM_getValue('temporaryUnblockUntil', 0)`. */
    function UnblockUntil(): int
      reads this
    {
      temporaryUnblockUntil.GetOr(0)
    }

    /** isTemporarilyUnblocked: strictly before the stored instant; never with nothing stored (0). */
    predicate IsTemporarilyUnblocked(now: int)
      reads this
    {
      now < UnblockUntil()
    }

    /** startTemporaryUnblock: unblock for `seconds` from now (the page then reloads). */
    method StartTemporaryUnblock(seconds: int, now: int)
      modifies this
      ensures temporaryUnblockUntil == Some(now + seconds * 1000)
      ensures calendarCache == old(calendarCache) && calendarCacheTime == old(calendarCacheTime)
      ensures forall t :: IsTemporarilyUnblocked(t) <==> t < now + seconds * 1000
    {
      temporaryUnblockUntil := Some(now + seconds * 1000);
    }

    /** The start-up cache check, with `GM_getValue('calendarCacheTime', 0)`. */
    method ChooseSource(now: int) returns (s: Source)
      ensures s == CacheChoice(calendarCache, calendarCacheTime.GetOr(0), now)
      ensures s.Cached? <==> calendarCache.Some? && calendarCache.value != ""
                             && now - calendarCacheTime.GetOr(0) < CacheTtl
    {
      s := CacheChoice(calendarCache, calendarCacheTime.GetOr(0), now);
    }

    /** The fetch completes: both the cache and its time are overwritten. */
    method FetchLoaded(responseText: string, now: int)
      modifies this
      ensures calendarCache == Some(responseText) && calendarCacheTime == Some(now)
      ensures temporaryUnblockUntil == old(temporaryUnblockUntil)
    {
      calendarCache := Some(responseText);
      calendarCacheTime := Some(now);
    }

    /** The decision `run` takes on this page. */
    function Decide(host: string, ics: string, now: int, dateOf: string -> Option<int>): Decision
      reads this
    {
      Run(host, ics, now, UnblockUntil(), dateOf)
    }
  }

  /** A fetched non-empty text is used for five minutes, then fetched again. */
  lemma CacheLifetime(text: string, fetchedAt: int, now: int)
    requires text != ""
    ensures CacheChoice(Some(text), fetchedAt, now) == (if now < fetchedAt + CacheTtl then Cached(text) else Fetch)
  {
  }

  /** An empty response is never served from the cache. */
  lemma EmptyNeverCached(fetchedAt: int, now: int)
    ensures CacheChoice(Some(""), fetchedAt, now) == Fetch
    ensures CacheChoice(None, fetchedAt, now) == Fetch
  {
  }
}
