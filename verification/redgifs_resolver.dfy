/**
  RedGifsResolver: turns a RedGifs watch page URL into a direct video URL.
  The M3U8 parser it relies on is not part of this model: its two lookups
  (the gif id of a page URL, the video URL of a gif id's playlist) are passed
  in, each of which may find a value, find nothing (Java's null) or throw.
 */
module RedGifs {
  import opened Wrappers
  import opened JavaStrings

  const DOMAIN: string := "redgifs.com"
  const WATCH: string := "redgifs.com/watch/"
  const M4S: string := ".m4s"
  const MP4: string := ".mp4"
  /** getPriority: RedGifs URLs are tried before lower-priority resolvers. */
  const PRIORITY: int := 10

  /** canResolve: a non-null URL mentioning the RedGifs domain. */
  function CanResolve(url: Option<string>): (b: bool)
    ensures b <==> url.Some? && exists i :: OccursAt(url.value, DOMAIN, i)
  {
    match url
    case None => false
    case Some(u) =>
      ContainsIffOccurs(u, DOMAIN);
      Contains(u, DOMAIN)
  }

  /** Every watch page URL is one this resolver accepts. */
  lemma WatchUrlsAreResolvable(url: string)
    requires Contains(url, WATCH)
    ensures CanResolve(Some(url))
  {
    assert WATCH == DOMAIN + "/watch/";
    ContainsPrefixOfPattern(url, DOMAIN, "/watch/");
  }

  /** What one of the parser's lookups gives. */
  datatype Lookup = Found(value: string) | NotFound | Threw

  /**
    resolve: a URL that is not a watch page comes back as it is; otherwise the
    video URL of the page's gif, with every ".m4s" turned into ".mp4", or the
    page URL itself when a lookup finds nothing or throws.
   */
  function Resolve(url: string, gifId: Lookup, videoFor: string -> Lookup): (r: string)
    ensures !Contains(url, WATCH) ==> r == url
    ensures r == url || !Contains(r, M4S)
    ensures r != url ==> CanResolve(Some(url))
    ensures gifId.Found? && videoFor(gifId.value).Found? && Contains(url, WATCH) ==>
      r == Replace(videoFor(gifId.value).value, M4S, MP4)
    ensures Contains(url, WATCH) && !(gifId.Found? && videoFor(gifId.value).Found?) ==> r == url
  {
    if !Contains(url, WATCH) then url
    else
      match gifId
      case Found(id) =>
        (match videoFor(id)
         case Found(video) =>
           RewriteLeavesNoM4s(video);
           WatchUrlsAreResolvable(url);
           Replace(video, M4S, MP4)
         case NotFound => url
         case Threw => url)
      case NotFound => url
      case Threw => url
  }

  /** A string shorter than the pattern does not contain it. */
  lemma {:induction false} ContainsNeedsRoom(s: string, p: string)
    requires |s| < |p|
    ensures !Contains(s, p)
    decreases |s|
  {
    if s != [] {
      ContainsNeedsRoom(s[1..], p);
    }
  }

  /** The rewrite begins with '.' where it replaced, and with the original first character elsewhere. */
  lemma RewriteHead(t: string)
    requires |t| >= |M4S|
    ensures Replace(t, M4S, MP4)[0] == if t[..|M4S|] == M4S then '.' else t[0]
  {
  }

  /**
    The rewrite keeps a prefix free of '.' only where it already was: if the
    rewritten string starts with such a `w`, so did the original.
   */
  lemma {:induction false} RewriteKeepsDotFreePrefix(t: string, w: string)
    requires '.' !in w && StartsWith(Replace(t, M4S, MP4), w)
    ensures StartsWith(t, w)
    decreases |t|
  {
    ReplaceKeepsLength(t, M4S, MP4);
    if w != [] && |t| >= |M4S| {
      RewriteHead(t);
      assert Replace(t, M4S, MP4)[0] == w[0] != '.';
      var rest := Replace(t[1..], M4S, MP4);
      assert Replace(t, M4S, MP4) == [t[0]] + rest;
      assert ([t[0]] + rest)[..|w|] == [t[0]] + rest[..|w| - 1];
      assert '.' !in w[1..];
      assert StartsWith(rest, w[1..]);
      RewriteKeepsDotFreePrefix(t[1..], w[1..]);
      assert t[..|w|] == [t[0]] + t[1..][..|w| - 1];
    }
  }

  /** After the rewrite no ".m4s" is left: the replacement cannot recreate one. */
  lemma {:induction false} RewriteLeavesNoM4s(s: string)
    ensures !Contains(Replace(s, M4S, MP4), M4S)
    decreases |s|
  {
    var r := Replace(s, M4S, MP4);
    if |s| < |M4S| {
      ContainsNeedsRoom(s, M4S);
    } else if s[..|M4S|] == M4S {
      var rest := Replace(s[|M4S|..], M4S, MP4);
      RewriteLeavesNoM4s(s[|M4S|..]);
      assert r == MP4 + rest;
      assert r[1..][1..][1..][1..] == rest;
      assert !Contains(r[1..][1..][1..], M4S) by {
        assert r[1..][1..][1..][0] == '4' != M4S[0];
      }
      assert !Contains(r[1..][1..], M4S) by {
        assert r[1..][1..][0] == 'p' != M4S[0];
      }
      assert !Contains(r[1..], M4S) by {
        assert r[1..][0] == 'm' != M4S[0];
      }
      assert !StartsWith(r, M4S) by {
        assert r[2] == 'p' != M4S[2];
      }
    } else {
      var rest := Replace(s[1..], M4S, MP4);
      RewriteLeavesNoM4s(s[1..]);
      assert r == [s[0]] + rest && r[1..] == rest;
      ReplaceKeepsLength(s[1..], M4S, MP4);
      assert r[..|M4S|] == [s[0]] + rest[..3];
      if StartsWith(rest, "m4s") {
        RewriteKeepsDotFreePrefix(s[1..], "m4s");
      }
      assert s[..|M4S|] == [s[0]] + s[1..][..3];
    }
  }

  /**
    extractGifNameFromPoster: the last '/'-separated piece of the poster URL
    (trailing slashes ignored), with "-mobile.jpg" and then ".jpg" removed. A null URL, or one made only of
    slashes (whose split has no piece to index), fails and gives null.
   */
  function ExtractGifNameFromPoster(poster: Option<string>): (r: Option<string>)
    ensures r.None? <==> poster.None? || (poster.value != [] && AllSep(poster.value, '/'))
    ensures r.Some? ==> '/' !in r.value
    ensures r.Some? ==> exists pre, last, tail ::
      EndsWithPiece(poster.value, '/', pre, last, tail)
      && (last == [] ==> poster.value == [])
      && r.value == Replace(Replace(last, "-mobile.jpg", ""), ".jpg", "")
  {
    match poster
    case None => None
    case Some(p) =>
      var parts := JavaSplit(p, '/');
      JavaSplitEmpty(p, '/');
      if parts == [] then None
      else
        var filename := parts[|parts| - 1];
        var name := Replace(Replace(filename, "-mobile.jpg", ""), ".jpg", "");
        assert '/' !in filename by {
          if '/' in p {
            assert filename in Split(p, '/');
          }
        }
        JavaSplitLast(p, '/', filename);
        ReplaceKeepsCharOut(filename, "-mobile.jpg", "", '/');
        ReplaceKeepsCharOut(Replace(filename, "-mobile.jpg", ""), ".jpg", "", '/');
        Some(name)
  }

  /** A poster URL without a slash is taken whole, less its suffixes. */
  lemma PosterWithoutSlash(p: string)
    requires '/' !in p
    ensures ExtractGifNameFromPoster(Some(p)) == Some(Replace(Replace(p, "-mobile.jpg", ""), ".jpg", ""))
  {
  }
}
