/**
 * Focus Guardian: host blocking by substring, the YouTube whitelist, the
 * persisted break timer and the three-way decision the script takes when a
 * page loads (block, break timer, or nothing).
 */
module FocusGuardian {
  import opened Maybe
  import opened JsText

  const BlockedSites: seq<string> := [
    "youtube.com", "facebook.com", "twitter.com", "x.com", "reddit.com",
    "tiktok.com", "netflix.com", "twitch.tv", "9gag.com"
  ]

  const WhitelistedChannels: seq<string> := [
    "veritasium", "3blue1brown", "kurzgesagt", "freecodecamp", "techwithtim",
    "traversymedia", "fireship", "networkchuck", "codecourse", "codingtrain",
    "crashcourse", "khanacademy", "tedtalks", "vsauce", "minutephysics",
    "computerphile", "numberphile", "mitocw", "stanfordonline"
  ]

  // --------------------------------------------------------- site blocking

  /** isCurrentSiteBlocked: the lower-cased host contains some listed site. */
  predicate IsCurrentSiteBlocked(host: string)
    ensures IsCurrentSiteBlocked(host) <==>
              exists k, i :: 0 <= k < |BlockedSites| && OccursAt(Lower(host), Lower(BlockedSites[k]), i)
  {
    IncludesIffOccurs(Lower(host));
    exists k :: 0 <= k < |BlockedSites| && Includes(Lower(host), Lower(BlockedSites[k]))
  }

  /** Every lower-case host ending in a listed site is blocked, subdomains included. */
  lemma HostWithSiteBlocked(prefix: string, k: int)
    requires 0 <= k < |BlockedSites| && NoUpper(prefix)
    ensures IsCurrentSiteBlocked(prefix + BlockedSites[k])
  {
    var site := BlockedSites[k];
    var h := prefix + site;
    LowerFixed(site);
    LowerFixed(prefix);
    LowerAppend(prefix, site);
    assert Lower(h)[|prefix|..|prefix| + |site|] == site;
    IncludesAt(Lower(h), Lower(site), |prefix|);
  }

  /**
   * The match is by substring, so the entry `x.com` catches hosts that only
   * end in it, such as `dropbox.com`.
   */
  lemma DropboxIsBlocked()
    ensures IsCurrentSiteBlocked("dropbox.com")
  {
    var site := BlockedSites[3];
    assert site == "x.com";
    assert "dropbo" + site == "dropbox.com";
    HostWithSiteBlocked("dropbo", 3);
  }

  /** The check ignores the case of the host. */
  lemma BlockIgnoresCase(host: string)
    ensures IsCurrentSiteBlocked(Lower(host)) == IsCurrentSiteBlocked(host)
  {
    LowerIdempotent(host);
  }

  // ------------------------------------------------------ YouTube whitelist

  /** The page belongs to the (lower-case) channel `c`. */
  predicate ChannelPage(path: string, url: string, c: string) {
    Includes(path, "/@" + c) || Includes(path, "/c/" + c) || Includes(path, "/user/" + c) || Includes(url, "/" + c)
  }

  /** A search or watch page, always allowed. */
  predicate SearchOrWatch(path: string, url: string) {
    Includes(path, "/results") || Includes(url, "search_query=") || Includes(url, "/watch")
  }

  /**
   * isYouTubeWhitelisted, for the host, path and full URL of the page and the
   * `href` of the page's channel link (`None` when there is no such link,
   * `""` for a link without an `href`).
   */
  predicate IsYouTubeWhitelisted(host: string, path: string, url: string, channelHref: Option<string>)
    ensures IsYouTubeWhitelisted(host, path, url, channelHref) ==> exists i :: OccursAt(Lower(host), "youtube.com", i)
  {
    IncludesIffOccurs(Lower(host));
    var p, u := Lower(path), Lower(url);
    Includes(Lower(host), "youtube.com")
    && (SearchOrWatch(p, u)
        || (exists k :: 0 <= k < |WhitelistedChannels| && ChannelPage(p, u, Lower(WhitelistedChannels[k])))
        || (channelHref.Some?
            && exists k :: 0 <= k < |WhitelistedChannels| && Includes(Lower(channelHref.value), Lower(WhitelistedChannels[k]))))
  }

  /** Nothing outside YouTube is whitelisted. */
  lemma WhitelistOnlyOnYouTube(host: string, path: string, url: string, channelHref: Option<string>)
    requires !Includes(Lower(host), "youtube.com")
    ensures !IsYouTubeWhitelisted(host, path, url, channelHref)
  {
  }

  /** On YouTube every search and every video page is whitelisted, whoever made it. */
  lemma SearchAndWatchAllowed(host: string, path: string, url: string, channelHref: Option<string>)
    requires Includes(Lower(host), "youtube.com")
    requires Includes(Lower(path), "/results") || Includes(Lower(url), "/watch")
    ensures IsYouTubeWhitelisted(host, path, url, channelHref)
  {
  }

  /** The page of a whitelisted channel, reached by its handle, is whitelisted. */
  lemma ChannelHandleAllowed(host: string, rest: string, url: string, k: int)
    requires Includes(Lower(host), "youtube.com") && 0 <= k < |WhitelistedChannels|
    ensures IsYouTubeWhitelisted(host, "/@" + WhitelistedChannels[k] + rest, url, None)
  {
    var c := WhitelistedChannels[k];
    var path := "/@" + c + rest;
    LowerAppend("/@", c);
    LowerAppend("/@" + c, rest);
    assert Lower("/@") == "/@";
    var lp := Lower(path);
    assert lp == "/@" + Lower(c) + Lower(rest);
    assert lp[0..2 + |c|] == "/@" + Lower(c);
    IncludesAt(lp, "/@" + Lower(c), 0);
    assert ChannelPage(lp, Lower(url), Lower(WhitelistedChannels[k]));
  }

  /** A channel link without an `href`, or no channel link, whitelists nothing by itself. */
  lemma EmptyChannelHref(host: string, path: string, url: string)
    ensures IsYouTubeWhitelisted(host, path, url, Some("")) == IsYouTubeWhitelisted(host, path, url, None)
  {
    forall k | 0 <= k < |WhitelistedChannels|
      ensures !Includes(Lower(""), Lower(WhitelistedChannels[k]))
    {
      assert Lower(WhitelistedChannels[k]) != [];
      assert !OccursAt(Lower(""), Lower(WhitelistedChannels[k]), 0);
    }
  }

  // ------------------------------------------------------------ formatTime

  /** formatTime: `mins:ss` of a whole number of seconds. */
  function FormatTime(seconds: nat): (r: string)
    ensures ClockValue(r) == Some(seconds)
  {
    ClockTextRoundTrip(seconds);
    ClockText(seconds)
  }

  // ------------------------------------------------------------ the decision

  datatype Outcome = BlockPage | BreakTimer | NoAction

  /** The main `if` chain. */
  function Decide(shouldBlock: bool, onBreak: bool, whitelisted: bool): (o: Outcome)
    ensures o == BlockPage <==> shouldBlock && !onBreak && !whitelisted
    ensures o == BreakTimer <==> shouldBlock && onBreak
  {
    if shouldBlock && !onBreak && !whitelisted then BlockPage
    else if shouldBlock && onBreak then BreakTimer
    else NoAction
  }

  /** During a break a blocked site shows the timer, even a whitelisted page; an unlisted site is never touched. */
  lemma DecideCases(onBreak: bool, whitelisted: bool)
    ensures onBreak ==> Decide(true, onBreak, whitelisted) == BreakTimer
    ensures Decide(false, onBreak, whitelisted) == NoAction
    ensures whitelisted ==> Decide(true, onBreak, whitelisted) != BlockPage
  {
  }

  /** What one tick of the break timer does. */
  datatype TimerTick = TimerTick(text: string, endsBreak: bool)

  /** The persisted `breakEndTime` (GM storage) and the break operations on it. */
  class BreakState {
    var breakEndTime: Option<int>

    /** Nothing stored yet. */
    constructor ()
      ensures breakEndTime.None?
    {
      breakEndTime := None;
    }

    /** `GM_getValue('breakEndTime', 0)`. */
    function BreakEnd(): int
      reads this
    {
      breakEndTime.GetOr(0)
    }

    /** isOnBreak: strictly before the stored end. */
    predicate IsOnBreak(now: int)
      reads this
    {
      now < BreakEnd()
    }

    /** getBreakTimeLeft: the whole seconds left, rounded up, never negative. */
    function GetBreakTimeLeft(now: int): (r: nat)
      reads this
      ensures r == 0 <==> !IsOnBreak(now)
      ensures IsOnBreak(now) ==> (r - 1) * 1000 < BreakEnd() - now <= r * 1000
    {
      var timeLeft := if BreakEnd() - now > 0 then BreakEnd() - now else 0;
      (timeLeft + 999) / 1000
    }

    /** setBreak: the break ends `minutes` from now. */
    method SetBreak(minutes: int, now: int)
      modifies this
      ensures breakEndTime == Some(now + minutes * 60 * 1000)
      ensures minutes > 0 ==> IsOnBreak(now) && GetBreakTimeLeft(now) == minutes * 60
      ensures forall t :: IsOnBreak(t) <==> t < now + minutes * 60000
    {
      breakEndTime := Some(now + minutes * 60 * 1000);
    }

    /** clearBreak: the stored end becomes 0, so no later instant is on a break. */
    method ClearBreak()
      modifies this
      ensures breakEndTime == Some(0)
      ensures forall t :: t >= 0 ==> !IsOnBreak(t) && GetBreakTimeLeft(t) == 0
    {
      breakEndTime := Some(0);
    }

    /**
     * One tick of the floating break timer: show the time left; once none is
     * left, clear the break (the page then reloads).
     */
    method Tick(now: int) returns (t: TimerTick)
      requires now >= 0
      modifies this
      ensures t.text == FormatTime(old(GetBreakTimeLeft(now)))
      ensures t.endsBreak <==> !old(IsOnBreak(now))
      ensures t.endsBreak ==> breakEndTime == Some(0)
      ensures !t.endsBreak ==> breakEndTime == old(breakEndTime)
    {
      var timeLeft := GetBreakTimeLeft(now);
      t := TimerTick(FormatTime(timeLeft), timeLeft == 0);
      if timeLeft == 0 {
        ClearBreak();
      }
    }

    /** The decision taken when a page loads. */
    function OnPageLoad(host: string, path: string, url: string, channelHref: Option<string>, now: int): (o: Outcome)
      reads this
      ensures o == BlockPage <==>
                IsCurrentSiteBlocked(host) && !IsOnBreak(now) && !IsYouTubeWhitelisted(host, path, url, channelHref)
      ensures o == BreakTimer <==> IsCurrentSiteBlocked(host) && IsOnBreak(now)
    {
      Decide(IsCurrentSiteBlocked(host), IsOnBreak(now), IsYouTubeWhitelisted(host, path, url, channelHref))
    }
  }

  /**
   * On a blocked, non-whitelisted page a break of `m` minutes started at
   * `start` shows the timer until it ends; from then on the page is blocked.
   */
  lemma BreakWindow(b: BreakState, host: string, path: string, url: string, channelHref: Option<string>,
                    start: int, minutes: int, now: int)
    requires IsCurrentSiteBlocked(host) && !IsYouTubeWhitelisted(host, path, url, channelHref)
    requires b.breakEndTime == Some(start + minutes * 60 * 1000)
    ensures b.OnPageLoad(host, path, url, channelHref, now)
            == if now < start + minutes * 60 * 1000 then BreakTimer else BlockPage
  {
  }

  // ------------------------------------------------------------ as written

  /**
   * The script as written: the condition of the search-and-watch `if` in
   * isYouTubeWhitelisted closes its parenthesis one operand early, so the
   * file is not valid JavaScript, none of it runs, and no page is touched.
   */
  function PageLoadAsWritten(host: string, path: string, url: string, channelHref: Option<string>, now: int): (o: Outcome)
    ensures o != BlockPage && o != BreakTimer
  {
    NoAction
  }

  /**
   * A blocked host off a break: the script as written leaves it alone,
   * while the evidently intended script blocks it.
   */
  lemma AsWrittenBlocksNothing(b: BreakState, now: int)
    requires !b.IsOnBreak(now)
    ensures PageLoadAsWritten("dropbox.com", "/", "https://dropbox.com/", None, now) == NoAction
    ensures b.OnPageLoad("dropbox.com", "/", "https://dropbox.com/", None, now) == BlockPage
  {
    DropboxIsBlocked();
    DropboxIsNotYouTube();
    WhitelistOnlyOnYouTube("dropbox.com", "/", "https://dropbox.com/", None);
  }

  lemma DropboxIsNotYouTube()
    ensures !Includes(Lower("dropbox.com"), "youtube.com")
  {
    LowerFixed("dropbox.com");
    IncludesIffOccurs("dropbox.com");
    assert !OccursAt("dropbox.com", "youtube.com", 0) by {
      assert "dropbox.com"[0] != "youtube.com"[0];
    }
  }
}
