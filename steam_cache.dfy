/**
 * The back end's Steam game-info endpoint: an in-memory cache keyed by app id whose entries
 * live seven days, swept on every successful write, with a back-dated fallback entry that lives
 * five minutes when the store cannot be reached.  The clock is the parameter `now` (milliseconds)
 * and the network is the parameter `fetch`.
 */
module SteamCache {
  import opened Wrappers
  import opened Text
  import SteamLinks

  /** Seven days in milliseconds. */
  const CacheDuration: int := 7 * 24 * 60 * 60 * 1000

  /** How long a fallback entry stays a hit. */
  const FallbackLifetime: int := 5 * 60 * 1000

  const Cdn: string := "https://cdn.cloudflare.steamstatic.com/steam/apps"

  datatype GameInfo = GameInfo(name: string, header: string, hero: string, portrait: string, pageBg: string)

  datatype Entry = Entry(data: GameInfo, timestamp: int)

  /**
   * What the store returned: an error or unreachable host, an answer without a successful entry for
   * the id, or the game's details together with the outcome of the two HEAD probes.  An absent
   * `background_raw` is the empty string.
   */
  datatype Fetch =
    | Failed
    | NotListed
    | Listed(name: string, headerImage: string, backgroundRaw: string, background: string,
             heroExists: bool, portraitExists: bool)

  datatype Response = BadRequest | NotFound | Json(info: GameInfo)

  /** `^\d+$`. */
  predicate ValidAppId(appid: string) {
    appid != [] && forall i :: 0 <= i < |appid| ==> IsAsciiDigit(appid[i])
  }

  /** The hit rule: younger than seven days. */
  predicate IsFresh(e: Entry, now: int) {
    now - e.timestamp < CacheDuration
  }

  /** The eviction rule: older than seven days. */
  predicate IsStale(e: Entry, now: int) {
    now - e.timestamp > CacheDuration
  }

  /** The cached data for `appid` when there is a fresh entry. */
  function Lookup(entries: map<string, Entry>, appid: string, now: int): (r: Option<GameInfo>)
    ensures r.Some? <==> appid in entries && now - entries[appid].timestamp < CacheDuration
    ensures r.Some? ==> r.value == entries[appid].data
  {
    if appid in entries && IsFresh(entries[appid], now) then Some(entries[appid].data) else None
  }

  /** What the eviction sweep leaves: every entry that is not stale, unchanged. */
  function Swept(entries: map<string, Entry>, now: int): (r: map<string, Entry>)
    ensures forall k :: k in r <==> k in entries && now - entries[k].timestamp <= CacheDuration
    ensures forall k :: k in r ==> r[k] == entries[k]
  {
    map k | k in entries && !IsStale(entries[k], now) :: entries[k]
  }

  /** The answer built from the store's details: hero and portrait fall back to the header image. */
  function Described(appid: string, f: Fetch): (info: GameInfo)
    requires f.Listed?
    ensures info.name == f.name && info.header == f.headerImage
    ensures info.hero == (if f.heroExists then Cdn + "/" + appid + "/" + "library_hero.jpg" else f.headerImage)
    ensures info.portrait == (if f.portraitExists then Cdn + "/" + appid + "/" + "library_600x900.jpg" else f.headerImage)
    ensures info.pageBg == (if f.backgroundRaw != "" then f.backgroundRaw else f.background)
  {
    var potentialHero := Cdn + "/" + appid + "/" + "library_hero.jpg";
    var potentialPortrait := Cdn + "/" + appid + "/" + "library_600x900.jpg";
    GameInfo(f.name, f.headerImage,
             if f.heroExists then potentialHero else f.headerImage,
             if f.portraitExists then potentialPortrait else f.headerImage,
             if f.backgroundRaw != "" then f.backgroundRaw else f.background)
  }

  /** The answer when the store cannot be reached: the CDN paths the front end builds for the same id. */
  function Fallback(appid: string): (info: GameInfo)
    ensures info.name == "Unknown Game"
    ensures info.header == SteamLinks.GetSteamImageUrl(appid, SteamLinks.Header)
    ensures info.hero == SteamLinks.GetSteamImageUrl(appid, SteamLinks.Hero)
    ensures info.portrait == SteamLinks.GetSteamImageUrl(appid, SteamLinks.Portrait)
    ensures info.pageBg == SteamLinks.GetSteamImageUrl(appid, SteamLinks.PageBg)
  {
    assert Cdn == SteamLinks.SteamCdn;
    GameInfo("Unknown Game",
             Cdn + "/" + appid + "/" + "header.jpg",
             Cdn + "/" + appid + "/" + "library_hero.jpg",
             Cdn + "/" + appid + "/" + "library_600x900.jpg",
             Cdn + "/" + appid + "/" + "page_bg_generated_v6b.jpg")
  }

  /** The fallback entry, back-dated so that it expires five minutes after `now`. */
  function FallbackEntry(appid: string, now: int): (e: Entry)
    ensures e.data == Fallback(appid)
    ensures forall t :: IsFresh(e, t) <==> t - now < FallbackLifetime
  {
    Entry(Fallback(appid), now - CacheDuration + FallbackLifetime)
  }

  class Cache {
    var entries: map<string, Entry>

    constructor()
      ensures entries == map[]
    {
      entries := map[];
    }

    /** The loop that deletes every stale entry. */
    method Sweep(now: int)
      modifies this
      ensures entries == Swept(old(entries), now)
    {
      var pending := entries.Keys;
      ghost var start := entries;
      while pending != {}
        invariant pending <= start.Keys
        invariant entries == map k | k in start && (k in pending || !IsStale(start[k], now)) :: start[k]
        decreases pending
      {
        var k :| k in pending;
        if now - entries[k].timestamp > CacheDuration {
          entries := entries - {k};
        }
        pending := pending - {k};
      }
    }

    /** `GET /game/:appid` at time `now`, with the store's behaviour given by `fetch`. */
    method GetGame(appid: string, now: int, fetch: Fetch) returns (r: Response)
      modifies this
      ensures !ValidAppId(appid) ==> r == BadRequest && entries == old(entries)
      ensures ValidAppId(appid) && Lookup(old(entries), appid, now).Some? ==>
        r == Json(old(entries)[appid].data) && entries == old(entries)
      ensures ValidAppId(appid) && Lookup(old(entries), appid, now).None? ==>
        match fetch
        case Listed(_, _, _, _, _, _) =>
          r == Json(Described(appid, fetch))
          && entries == Swept(old(entries)[appid := Entry(Described(appid, fetch), now)], now)
        case NotListed =>
          r == NotFound && entries == old(entries)
        case Failed =>
          r == Json(Fallback(appid)) && entries == old(entries)[appid := FallbackEntry(appid, now)]
    {
      if !ValidAppId(appid) {
        return BadRequest;
      }
      var cached := Lookup(entries, appid, now);
      if cached.Some? {
        return Json(cached.value);
      }
      match fetch {
        case Listed(_, _, _, _, _, _) =>
          var result := Described(appid, fetch);
          entries := entries[appid := Entry(result, now)];
          Sweep(now);
          r := Json(result);
        case NotListed =>
          r := NotFound;
        case Failed =>
          entries := entries[appid := FallbackEntry(appid, now)];
          r := Json(Fallback(appid));
      }
    }
  }

  /** A freshly written entry survives the sweep that follows it, and is a hit right away. */
  lemma FreshEntrySurvivesSweep(entries: map<string, Entry>, appid: string, info: GameInfo, now: int)
    ensures var swept := Swept(entries[appid := Entry(info, now)], now);
      appid in swept && swept[appid] == Entry(info, now) && Lookup(swept, appid, now) == Some(info)
  {
  }

  /** The sweep keeps every hit: nothing fresh is ever evicted. */
  lemma SweepKeepsHits(entries: map<string, Entry>, now: int, k: string)
    ensures Lookup(Swept(entries, now), k, now) == Lookup(entries, k, now)
  {
  }

  /** An entry exactly seven days old is neither a hit nor evicted. */
  lemma SevenDaysBoundary(entries: map<string, Entry>, k: string, now: int)
    requires k in entries && now - entries[k].timestamp == CacheDuration
    ensures Lookup(entries, k, now) == None
    ensures k in Swept(entries, now)
  {
  }

  /** The fallback entry is a hit at time `t` exactly when less than five minutes have passed. */
  lemma FallbackLivesFiveMinutes(appid: string, now: int, t: int)
    ensures Lookup(map[appid := FallbackEntry(appid, now)], appid, t).Some? <==> t - now < FallbackLifetime
  {
  }
}
