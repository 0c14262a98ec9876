/**
 * Steam store links on the front end: extracting the app id from a store URL and building the
 * CDN image URLs and the inline background styles of the game cards.
 */
module SteamLinks {
  import opened Wrappers
  import opened Text

  const SteamCdn: string := "https://cdn.cloudflare.steamstatic.com/steam/apps"

  /** The literal part of the pattern `store\.steampowered\.com\/app\/(\d+)`. */
  const StoreAppPath: string := "store.steampowered.com/app/"

  predicate AllDigits(s: string) {
    forall i :: 0 <= i < |s| ==> IsAsciiDigit(s[i])
  }

  /** The greedy `\d+` (or `\d*`): the longest run of digits that starts `s`. */
  function DigitRun(s: string): (d: string)
    ensures d <= s && AllDigits(d)
    ensures |d| < |s| ==> !IsAsciiDigit(s[|d|])
  {
    if s != [] && IsAsciiDigit(s[0]) then [s[0]] + DigitRun(s[1..]) else []
  }

  /** The whole pattern matches at position `i` of `url`: the path, then at least one digit. */
  predicate MatchesAt(url: string, i: int) {
    OccursAt(StoreAppPath, url, i) && i + |StoreAppPath| < |url| && IsAsciiDigit(url[i + |StoreAppPath|])
  }

  /** The regular-expression engine's scan: the first position at or after `from` where the pattern matches. */
  function FindMatch(url: string, from: nat): (r: Option<nat>)
    requires from <= |url|
    ensures r.Some? ==> from <= r.value && MatchesAt(url, r.value)
    ensures r.Some? ==> forall j :: from <= j < r.value ==> !MatchesAt(url, j)
    ensures r.None? ==> forall j :: from <= j <= |url| ==> !MatchesAt(url, j)
    decreases |url| - from
  {
    if MatchesAt(url, from) then Some(from)
    else if from == |url| then None
    else FindMatch(url, from + 1)
  }

  /** `extractSteamAppId`: the digits captured by the leftmost match, or nothing. */
  function ExtractSteamAppId(url: string): (r: Option<string>)
    ensures r.None? <==> forall j :: !MatchesAt(url, j)
    ensures r.Some? ==> exists i :: MatchesAt(url, i) && r.value == DigitRun(url[i + |StoreAppPath|..])
    ensures r.Some? ==> |r.value| > 0 && AllDigits(r.value)
  {
    if url == [] then None
    else
      match FindMatch(url, 0)
      case None => None
      case Some(i) => Some(DigitRun(url[i + |StoreAppPath|..]))
  }

  /** The captured id belongs to the leftmost match: no earlier position matches. */
  lemma LeftmostMatch(url: string, i: nat)
    requires MatchesAt(url, i)
    requires forall j :: 0 <= j < i ==> !MatchesAt(url, j)
    ensures ExtractSteamAppId(url) == Some(DigitRun(url[i + |StoreAppPath|..]))
  {
    var r := FindMatch(url, 0);
    assert r.Some?;
    assert r.value == i;
  }

  lemma {:induction false} DigitRunOfDigits(d: string, rest: string)
    requires AllDigits(d)
    requires rest == [] || !IsAsciiDigit(rest[0])
    ensures DigitRun(d + rest) == d
    decreases |d|
  {
    if d == [] {
      assert d + rest == rest;
    } else {
      assert (d + rest)[1..] == d[1..] + rest;
      DigitRunOfDigits(d[1..], rest);
    }
  }

  /** A canonical store link gives back exactly the id it was built from. */
  lemma StoreLinkRoundTrip(appid: string, rest: string)
    requires |appid| > 0 && AllDigits(appid)
    requires rest == [] || !IsAsciiDigit(rest[0])
    ensures ExtractSteamAppId("https://" + StoreAppPath + appid + rest) == Some(appid)
  {
    var url := "https://" + StoreAppPath + appid + rest;
    var k := |"https://"|;
    assert url[k..k + |StoreAppPath|] == StoreAppPath;
    assert url[k + |StoreAppPath|..] == appid + rest;
    assert url[k + |StoreAppPath|] == appid[0];
    assert MatchesAt(url, k);
    assert url[..k] == "https://";
    forall j | 0 <= j < k
      ensures !MatchesAt(url, j)
    {
      assert url[j] == url[..k][j];
      if j == 4 {
        assert url[5] == url[..k][5];
      }
    }
    LeftmostMatch(url, k);
    DigitRunOfDigits(appid, rest);
  }

  /** The example of the documentation comment. */
  lemma CounterStrikeExample()
    ensures ExtractSteamAppId("https://" + StoreAppPath + "730" + "/CounterStrike2/") == Some("730")
  {
    StoreLinkRoundTrip("730", "/CounterStrike2/");
  }

  /** A link that does not go through the store's app path has no id. */
  lemma NoStorePathNoId(url: string)
    requires forall j :: !OccursAt(StoreAppPath, url, j)
    ensures ExtractSteamAppId(url) == None
  {
  }

  datatype ImageType = Header | Portrait | Background | Hero | PageBg

  function FileName(t: ImageType): string {
    match t
    case Header => "header.jpg"
    case Portrait => "library_600x900.jpg"
    case Background => "page_bg_raw.jpg"
    case Hero => "library_hero.jpg"
    case PageBg => "page_bg_generated_v6b.jpg"
  }

  /** `getSteamImageUrl`; the image type defaults to the header image. */
  function GetSteamImageUrl(appid: string, t: ImageType := Header): (url: string)
    ensures SteamCdn + "/" <= url
    ensures OccursAt(appid, url, |SteamCdn| + 1)
    ensures OccursAt("/" + FileName(t), url, |url| - |FileName(t)| - 1)
  {
    SteamCdn + "/" + appid + "/" + FileName(t)
  }

  lemma FileNameInjective(t: ImageType, u: ImageType)
    requires FileName(t) == FileName(u)
    ensures t == u
  {
  }

  /** Splitting at the first `/` recovers both halves when the left halves contain no `/`. */
  lemma SplitAtSlash(a: string, f: string, b: string, g: string)
    requires AllDigits(a) && AllDigits(b)
    requires a + "/" + f == b + "/" + g
    ensures a == b && f == g
  {
    var x := a + "/" + f;
    assert x == b + "/" + g;
    assert x[|a|] == '/' && x[|b|] == '/';
    assert forall i :: 0 <= i < |a| ==> x[i] == a[i];
    assert forall i :: 0 <= i < |b| ==> x[i] == b[i];
    assert |a| == |b|;
    assert a == x[..|a|] == b;
    assert f == x[|a| + 1..] == g;
  }

  /** Equal strings with a common start agree on the rest. */
  lemma {:induction false} CancelCommonStart(p: string, a: string, f: string, b: string, g: string)
    requires p + "/" + a + "/" + f == p + "/" + b + "/" + g
    ensures a + "/" + f == b + "/" + g
  {
    var q := p + "/";
    assert p + "/" + a + "/" + f == q + (a + "/" + f);
    assert p + "/" + b + "/" + g == q + (b + "/" + g);
    assert a + "/" + f == (q + (a + "/" + f))[|q|..];
  }

  /** Different app ids or image types never share an image URL (ids are `\d+`, so contain no `/`). */
  lemma ImageUrlInjective(a: string, t: ImageType, b: string, u: ImageType)
    requires AllDigits(a) && AllDigits(b)
    requires GetSteamImageUrl(a, t) == GetSteamImageUrl(b, u)
    ensures a == b && t == u
  {
    CancelCommonStart(SteamCdn, a, FileName(t), b, FileName(u));
    SplitAtSlash(a, FileName(t), b, FileName(u));
    FileNameInjective(t, u);
  }

  /**
   * The shared shape of the four background helpers: an empty style without an app id, otherwise a
   * cover-sized background showing the image of type `t` at `position`.  An absent link reads as "".
   */
  function BackgroundStyle(link: Option<string>, t: ImageType, position: string): (style: map<string, string>)
    ensures style == map[] <==> ExtractSteamAppId(link.GetOr("")).None?
    ensures style != map[] ==>
      style.Keys == {"backgroundImage", "backgroundSize", "backgroundPosition"}
      && style["backgroundImage"] == "url(" + GetSteamImageUrl(ExtractSteamAppId(link.GetOr("")).value, t) + ")"
      && style["backgroundSize"] == "cover"
      && style["backgroundPosition"] == position
  {
    match ExtractSteamAppId(link.GetOr(""))
    case None => map[]
    case Some(appid) =>
      var style := map["backgroundImage" := "url(" + GetSteamImageUrl(appid, t) + ")",
          "backgroundSize" := "cover",
          "backgroundPosition" := position];
      assert "backgroundSize" in style;
      style
  }

  /** `getGameCardBackground`: the landscape header image, centred. */
  function GameCardBackground(link: Option<string>): (style: map<string, string>)
    ensures style == map[] <==> ExtractSteamAppId(link.GetOr("")).None?
    ensures style != map[] ==>
      style.Keys == {"backgroundImage", "backgroundSize", "backgroundPosition"}
      && style["backgroundImage"] == "url(" + GetSteamImageUrl(ExtractSteamAppId(link.GetOr("")).value, Header) + ")"
      && style["backgroundSize"] == "cover" && style["backgroundPosition"] == "center"
  {
    BackgroundStyle(link, Header, "center")
  }

  /** `getGamePortraitBackground`: the 600x900 library portrait, centred. */
  function GamePortraitBackground(link: Option<string>): (style: map<string, string>)
    ensures style == map[] <==> ExtractSteamAppId(link.GetOr("")).None?
    ensures style != map[] ==>
      style.Keys == {"backgroundImage", "backgroundSize", "backgroundPosition"}
      && style["backgroundImage"] == "url(" + GetSteamImageUrl(ExtractSteamAppId(link.GetOr("")).value, Portrait) + ")"
      && style["backgroundSize"] == "cover" && style["backgroundPosition"] == "center"
  {
    BackgroundStyle(link, Portrait, "center")
  }

  /** `getGamePageBackground`: the generated store-page background, anchored right. */
  function GamePageBackground(link: Option<string>): (style: map<string, string>)
    ensures style == map[] <==> ExtractSteamAppId(link.GetOr("")).None?
    ensures style != map[] ==>
      style.Keys == {"backgroundImage", "backgroundSize", "backgroundPosition"}
      && style["backgroundImage"] == "url(" + GetSteamImageUrl(ExtractSteamAppId(link.GetOr("")).value, PageBg) + ")"
      && style["backgroundSize"] == "cover" && style["backgroundPosition"] == "right center"
  {
    BackgroundStyle(link, PageBg, "right center")
  }

  /** `getSessionHeaderBackground`: the library hero image, centred. */
  function SessionHeaderBackground(link: Option<string>): (style: map<string, string>)
    ensures style == map[] <==> ExtractSteamAppId(link.GetOr("")).None?
    ensures style != map[] ==>
      style.Keys == {"backgroundImage", "backgroundSize", "backgroundPosition"}
      && style["backgroundImage"] == "url(" + GetSteamImageUrl(ExtractSteamAppId(link.GetOr("")).value, Hero) + ")"
      && style["backgroundSize"] == "cover" && style["backgroundPosition"] == "center"
  {
    BackgroundStyle(link, Hero, "center")
  }

  /**
   * The four styles of one link are all empty exactly when the link has no app id; otherwise they
   * show the same game, each with its own image and position.
   */
  lemma BackgroundsShareGame(link: Option<string>)
    ensures ExtractSteamAppId(link.GetOr("")).None? <==>
      GameCardBackground(link) == map[] && GamePortraitBackground(link) == map[]
      && GamePageBackground(link) == map[] && SessionHeaderBackground(link) == map[]
    ensures ExtractSteamAppId(link.GetOr("")).Some? ==> var appid := ExtractSteamAppId(link.GetOr("")).value;
      GameCardBackground(link)["backgroundImage"] == "url(" + GetSteamImageUrl(appid) + ")"
      && GamePortraitBackground(link)["backgroundImage"] == "url(" + GetSteamImageUrl(appid, Portrait) + ")"
      && GamePageBackground(link)["backgroundImage"] == "url(" + GetSteamImageUrl(appid, PageBg) + ")"
      && SessionHeaderBackground(link)["backgroundImage"] == "url(" + GetSteamImageUrl(appid, Hero) + ")"
      && GamePageBackground(link)["backgroundPosition"] == "right center"
      && GameCardBackground(link)["backgroundPosition"] == "center"
  {
  }
}
