/** The video-identifier extractor `get_video_id` and the thumbnail address
    built from its result.

    The extractor is one regular-expression search,
    `(?:v=|\/)([0-9A-Za-z_-]{11}).*`, with leftmost-match semantics. It is
    written out here as a scan over the start positions of the URL. At a
    start position the pattern matches when a `v=` or a `/` marker stands
    there and eleven characters of the class `[0-9A-Za-z_-]` follow it; the
    eleven characters are the captured group. The two markers begin with
    different characters, so at most one of them applies at a position. The
    trailing `.*` matches anything, the empty remainder included, so it
    never decides whether the search succeeds. */
module VideoId {
  import opened Options

  /** Length of the captured group, the `{11}` of the pattern. */
  const IdLength: nat := 11

  /** The message of the `ValueError` raised when nothing matches. */
  const InvalidUrlMessage := "Invalid YouTube URL"

  /** Address template of the thumbnail image shown for a video. */
  const ThumbnailPrefix := "http://img.youtube.com/vi/"
  const ThumbnailSuffix := "/0.jpg"

  datatype ExtractError = InvalidUrl(message: string)

  /** The character class `[0-9A-Za-z_-]` (ASCII ranges, no case folding). */
  predicate IsIdChar(c: char) {
    ('0' <= c <= '9') || ('A' <= c <= 'Z') || ('a' <= c <= 'z') || c == '_' || c == '-'
  }

  /** Eleven characters of the class: the shape of a video identifier. */
  predicate IsVideoId(s: string) {
    |s| == IdLength && forall k :: 0 <= k < |s| ==> IsIdChar(s[k])
  }

  /** Eleven characters of the class start at position k of the URL. */
  predicate IdRunAt(url: string, k: nat) {
    k + IdLength <= |url| && IsVideoId(url[k..k + IdLength])
  }

  /** The marker `v=` starts at position i. */
  predicate VMarkerAt(url: string, i: nat) {
    i + 2 <= |url| && url[i] == 'v' && url[i + 1] == '='
  }

  /** The marker `/` stands at position i. */
  predicate SlashAt(url: string, i: nat) {
    i < |url| && url[i] == '/'
  }

  /** The pattern matches with its match starting at position i. */
  predicate MatchesAt(url: string, i: nat) {
    (VMarkerAt(url, i) && IdRunAt(url, i + 2)) || (SlashAt(url, i) && IdRunAt(url, i + 1))
  }

  /** Where the captured group of a match at i begins: just after its marker. */
  function GroupStart(url: string, i: nat): nat
    requires MatchesAt(url, i)
  {
    if VMarkerAt(url, i) then i + 2 else i + 1
  }

  /** A match starts at i and at no earlier position: the match `re.search` reports. */
  predicate IsLeftmostMatch(url: string, i: nat) {
    i < |url| && MatchesAt(url, i) && forall j :: 0 <= j < i ==> !MatchesAt(url, j)
  }

  /** The scan of `re.search`: the first start position at or after i where
      the pattern matches. */
  function SearchFrom(url: string, i: nat): (r: Option<nat>)
    requires i <= |url|
    decreases |url| - i
    ensures r.Some? ==> i <= r.value < |url| && MatchesAt(url, r.value)
    ensures r.Some? ==> forall j :: i <= j < r.value ==> !MatchesAt(url, j)
    ensures r.None? ==> forall j :: i <= j < |url| ==> !MatchesAt(url, j)
  {
    if i == |url| then None
    else if MatchesAt(url, i) then Some(i)
    else SearchFrom(url, i + 1)
  }

  /** `get_video_id`: the captured group of the leftmost match, or the
      "Invalid YouTube URL" error when the pattern matches nowhere. A run of
      more than eleven class characters after the marker is cut to its first
      eleven, since nothing in the pattern has to follow the group. */
  function ExtractVideoId(url: string): (r: Result<string, ExtractError>)
    ensures r.Ok? <==> exists i :: 0 <= i < |url| && MatchesAt(url, i)
    ensures r.Ok? ==> IsVideoId(r.value)
    ensures r.Ok? ==> exists i :: IsLeftmostMatch(url, i) &&
                        r.value == url[GroupStart(url, i)..GroupStart(url, i) + IdLength]
    ensures r.Err? ==> r.error == InvalidUrl(InvalidUrlMessage)
  {
    match SearchFrom(url, 0)
    case Some(i) => Ok(url[GroupStart(url, i)..GroupStart(url, i) + IdLength])
    case None => Err(InvalidUrl(InvalidUrlMessage))
  }

  /** The thumbnail address shown once an identifier has been extracted. */
  function ThumbnailUrl(id: string): string
  {
    ThumbnailPrefix + id + ThumbnailSuffix
  }

  // ---------------------------------------------------------------------
  // Lemmas about the extractor

  /** At most one match is leftmost. */
  lemma LeftmostUnique(url: string, i: nat, j: nat)
    requires IsLeftmostMatch(url, i) && IsLeftmostMatch(url, j)
    ensures i == j
  {
  }

  /** The extractor returns the group of the leftmost match, whichever it is. */
  lemma ExtractsLeftmost(url: string, i: nat)
    requires IsLeftmostMatch(url, i)
    ensures ExtractVideoId(url) == Ok(url[GroupStart(url, i)..GroupStart(url, i) + IdLength])
  {
  }

  /** A `/` followed by eleven class characters wins over a later `v=`
      parameter: the search reports the leftmost match, not the query one. */
  lemma SlashBeforeV(id: string, id2: string, rest: string)
    requires IsVideoId(id) && IsVideoId(id2)
    ensures ExtractVideoId("/" + id + "?v=" + id2 + rest) == Ok(id)
  {
    var u := "/" + id + "?v=" + id2 + rest;
    assert u[1..12] == id;
    assert MatchesAt(u, 0);
    ExtractsLeftmost(u, 0);
  }

  /** No match starts inside a stretch of the URL that holds neither `v` nor `/`. */
  lemma NoMatchIn(url: string, lo: nat, hi: nat)
    requires lo <= hi <= |url|
    requires '/' !in url[lo..hi] && 'v' !in url[lo..hi]
    ensures forall j :: lo <= j < hi ==> !MatchesAt(url, j)
  {
  }

  /** A `/` whose next eleven characters include one outside the class
      starts no match. */
  lemma SlashBlocked(url: string, j: nat, k: nat)
    requires j < k <= j + IdLength && k < |url|
    requires url[j] == '/' && !IsIdChar(url[k])
    ensures !MatchesAt(url, j)
  {
  }

  /** Whether a match starts at j depends only on the thirteen characters
      from j on, so appending text leaves it unchanged there. */
  lemma MatchesAtExtended(url: string, rest: string, j: nat)
    requires j + IdLength + 2 <= |url|
    ensures MatchesAt(url + rest, j) == MatchesAt(url, j)
  {
    var ext := url + rest;
    assert ext[j + 1..j + 1 + IdLength] == url[j + 1..j + 1 + IdLength];
    assert ext[j + 2..j + 2 + IdLength] == url[j + 2..j + 2 + IdLength];
  }

  /** Trailing text (query parameters, fragments) never changes an identifier
      that has already been found: a match that is leftmost in the URL stays
      leftmost once more text follows it. */
  lemma ExtendKeepsId(url: string, rest: string)
    requires ExtractVideoId(url).Ok?
    ensures ExtractVideoId(url + rest) == ExtractVideoId(url)
  {
    var i: nat :| IsLeftmostMatch(url, i) &&
             ExtractVideoId(url).value == url[GroupStart(url, i)..GroupStart(url, i) + IdLength];
    var ext := url + rest;
    assert i + IdLength + 1 <= |url|;
    forall j | 0 <= j < i
      ensures !MatchesAt(ext, j)
    {
      MatchesAtExtended(url, rest, j);
    }
    assert MatchesAt(ext, i) by {
      if VMarkerAt(url, i) {
        MatchesAtExtended(url, rest, i);
      } else {
        assert ext[i + 1..i + 1 + IdLength] == url[i + 1..i + 1 + IdLength];
      }
    }
    assert GroupStart(ext, i) == GroupStart(url, i);
    assert ext[GroupStart(url, i)..GroupStart(url, i) + IdLength]
        == url[GroupStart(url, i)..GroupStart(url, i) + IdLength];
    ExtractsLeftmost(ext, i);
  }

  /** No match starts within `<scheme>//<host>` when the host holds neither
      `v` nor `/` and has a dot among its first ten characters, whatever
      follows. */
  lemma HostClear(scheme: string, host: string, d: nat, s: string)
    requires scheme == "http:" || scheme == "https:"
    requires '/' !in host && 'v' !in host && d < |host| && d < 10 && host[d] == '.'
    ensures forall j :: 0 <= j < |scheme| + 2 + |host| ==> !MatchesAt(scheme + "//" + host + s, j)
  {
    var url := scheme + "//" + host + s;
    var n := |scheme|;
    assert url[..n] == scheme;
    assert '/' !in scheme && 'v' !in scheme;
    NoMatchIn(url, 0, n);
    assert url[n] == '/' && url[n + 1] == '/' && url[n + 2 + d] == '.';
    SlashBlocked(url, n, n + 1);
    SlashBlocked(url, n + 1, n + 2 + d);
    assert url[n + 2..n + 2 + |host|] == host;
    NoMatchIn(url, n + 2, n + 2 + |host|);
  }

  /** No match starts within `https://www.youtube.com`, whatever follows. */
  lemma YouTubeHostClear(s: string)
    ensures forall j :: 0 <= j < 23 ==> !MatchesAt("https://www.youtube.com" + s, j)
  {
    HostClear("https:", "www.youtube.com", 3, s);
    assert "https:" + "//" + "www.youtube.com" + s == "https://www.youtube.com" + s;
  }

  /** A watch-page address yields its `v=` parameter, whatever follows it. */
  lemma WatchUrlId(id: string, rest: string)
    requires IsVideoId(id)
    ensures ExtractVideoId("https://www.youtube.com/watch?v=" + id + rest) == Ok(id)
  {
    var url := "https://www.youtube.com/watch?v=" + id + rest;
    assert url == "https://www.youtube.com" + ("/watch?v=" + id + rest);
    YouTubeHostClear("/watch?v=" + id + rest);
    assert url == "https://www.youtube.com" + "/" + "watch?" + "v=" + id + rest;
    SlashBlocked(url, 23, 29);
    assert url[24..30] == "watch?";
    NoMatchIn(url, 24, 30);
    assert url[32..43] == id;
    ExtractsLeftmost(url, 30);
  }

  /** A short-link address `youtu.be/<id>` yields the identifier after the
      slash, whatever follows it. */
  lemma ShortUrlId(id: string, rest: string)
    requires IsVideoId(id)
    ensures ExtractVideoId("https://youtu.be/" + id + rest) == Ok(id)
  {
    var url := "https://youtu.be/" + id + rest;
    HostClear("https:", "youtu.be", 5, "/" + id + rest);
    assert url == "https:" + "//" + "youtu.be" + ("/" + id + rest);
    assert url[17..28] == id;
    ExtractsLeftmost(url, 16);
  }

  /** An embed address `/embed/<id>` yields the identifier, whatever follows it. */
  lemma EmbedUrlId(id: string, rest: string)
    requires IsVideoId(id)
    ensures ExtractVideoId("https://www.youtube.com/embed/" + id + rest) == Ok(id)
  {
    var url := "https://www.youtube.com/embed/" + id + rest;
    assert url == "https://www.youtube.com" + ("/embed/" + id + rest);
    YouTubeHostClear("/embed/" + id + rest);
    assert url == "https://www.youtube.com" + "/" + "embed" + "/" + id + rest;
    SlashBlocked(url, 23, 29);
    assert url[24..29] == "embed";
    NoMatchIn(url, 24, 29);
    assert url[30..41] == id;
    ExtractsLeftmost(url, 29);
  }

  /** The example identifier has the shape of a video identifier. */
  lemma ExampleIdIsVideoId()
    ensures IsVideoId("dQw4w9WgXcQ")
  {
  }

  /** The worked example: the thumbnail shown for an identifier. */
  lemma ThumbnailExample()
    ensures ThumbnailUrl("dQw4w9WgXcQ") == "http://img.youtube.com/vi/dQw4w9WgXcQ/0.jpg"
  {
  }

  /** The worked example: a watch address with a trailing parameter. */
  lemma WatchUrlExample()
    ensures ExtractVideoId("https://www.youtube.com/watch?v=" + "dQw4w9WgXcQ" + "&feature=share") == Ok("dQw4w9WgXcQ")
  {
    ExampleIdIsVideoId();
    WatchUrlId("dQw4w9WgXcQ", "&feature=share");
  }

  /** No match starts within `http://img.youtube.com`, whatever follows. */
  lemma ImageHostClear(s: string)
    ensures forall j :: 0 <= j < 22 ==> !MatchesAt("http://img.youtube.com" + s, j)
  {
    HostClear("http:", "img.youtube.com", 3, s);
    assert "http:" + "//" + "img.youtube.com" + s == "http://img.youtube.com" + s;
  }

  /** The thumbnail address of an identifier leads back to that identifier:
      the extractor applied to it finds the identifier again. */
  lemma ThumbnailRoundTrip(id: string)
    requires IsVideoId(id)
    ensures ExtractVideoId(ThumbnailUrl(id)) == Ok(id)
  {
    var url := ThumbnailUrl(id);
    assert url == "http://img.youtube.com" + ("/vi/" + id + ThumbnailSuffix);
    ImageHostClear("/vi/" + id + ThumbnailSuffix);
    assert url == "http://img.youtube.com" + "/" + "vi" + "/" + id + ThumbnailSuffix;
    SlashBlocked(url, 22, 25);
    assert !VMarkerAt(url, 23);
    assert url[24..25] == "i";
    NoMatchIn(url, 24, 25);
    assert url[26..37] == id;
    ExtractsLeftmost(url, 25);
  }
}
