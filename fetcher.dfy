/**
 * `ComicFetcher`: the JSON API's two endpoints, the fetch of one comic that
 * completes with the decoded comic or nil, the sequential walk over a range of
 * numbers, and the image loader with its high-resolution rewrite and fallback.
 *
 * The network is a parameter: `server(url)` is what a data task for `url`
 * delivers (None when no data arrives), and `images(url)` is the image a data
 * task plus `UIImage(data:)` yields for `url` (None when either fails).
 */
module ComicFetcher {
  import opened Wrappers
  import opened Decimal
  import opened Strings
  import opened Comics

  const CurrentComicUrl: string := "https://xkcd.com/info.0.json"
  const NumberedComicUrlPrefix: string := "https://xkcd.com/"
  const NumberedComicUrlSuffix: string := "/info.0.json"

  /** The endpoint for a comic number, or for the latest comic when there is none. */
  function ComicUrl(number: Option<nat>): (url: string)
    ensures |url| >= |NumberedComicUrlPrefix| + |NumberedComicUrlSuffix| - 1
    ensures url[..|NumberedComicUrlPrefix|] == NumberedComicUrlPrefix
    ensures url[|url| - |NumberedComicUrlSuffix|..] == NumberedComicUrlSuffix
    ensures number.Some? ==>
      && |url| == |NumberedComicUrlPrefix| + |DecimalString(number.value)| + |NumberedComicUrlSuffix|
      && url[|NumberedComicUrlPrefix|..|url| - |NumberedComicUrlSuffix|] == DecimalString(number.value)
  {
    match number
    case None => CurrentComicUrl
    case Some(n) => NumberedComicUrlPrefix + DecimalString(n) + NumberedComicUrlSuffix
  }

  /** Different requests never share an endpoint, and the latest-comic URL is no numbered URL. */
  lemma ComicUrlInjective(a: Option<nat>, b: Option<nat>)
    requires ComicUrl(a) == ComicUrl(b)
    ensures a == b
  {
    if a.Some? && b.Some? {
      var u := ComicUrl(a);
      var da, db := DecimalString(a.value), DecimalString(b.value);
      assert |da| == |db|;
      var p := |NumberedComicUrlPrefix|;
      assert u[p..p + |da|] == da;
      assert ComicUrl(b)[p..p + |db|] == db;
      DecimalStringInjective(a.value, b.value);
    }
  }

  /** The endpoint the client's test reads comic 2050 from. */
  lemma ComicUrlOf2050()
    ensures ComicUrl(Some(2050)) == "https://xkcd.com/2050/info.0.json"
  {
    DecimalStringOf2050();
  }

  lemma DecimalStringOf2050()
    ensures DecimalString(2050) == "2050"
  {
    assert DecimalString(2) == "2";
    assert DecimalString(20) == "20";
    assert DecimalString(205) == "205";
  }

  /** What a data task delivers: bytes that are not JSON, or a JSON document. */
  datatype Payload = Unparsable | Document(json: Json)

  type Server = string -> Option<Payload>

  /**
   * `fetchComicWithNumber`: the argument of its single completion call. Missing
   * data, bytes that are not JSON (the 404 page for comic 404) and documents
   * that do not decode all complete with nil.
   */
  function FetchComic(number: Option<nat>, server: Server): (comic: Option<Comic>)
    ensures comic.Some? ==> server(ComicUrl(number)).Some? && server(ComicUrl(number)).value.Document?
    ensures comic.Some? ==> Decode(server(ComicUrl(number)).value.json) == comic
  {
    match server(ComicUrl(number))
    case None => None
    case Some(Unparsable) => None
    case Some(Document(doc)) => Decode(doc)
  }

  /** A server that publishes a comic's document yields exactly that comic. */
  lemma FetchPublishedComic(number: Option<nat>, server: Server, c: Comic)
    requires c.number <= UInt64Max
    requires server(ComicUrl(number)) == Some(Document(Encode(c)))
    ensures FetchComic(number, server) == Some(c)
  {
    DecodeEncode(c);
  }

  /** The completion receives a comic only when a document for that URL decodes to it. */
  lemma FetchComicSource(number: Option<nat>, server: Server)
    ensures FetchComic(number, server).Some? <==>
      exists doc :: server(ComicUrl(number)) == Some(Document(doc)) && Decode(doc).Some?
  {
    if FetchComic(number, server).Some? {
      var doc := server(ComicUrl(number)).value.json;
      assert server(ComicUrl(number)) == Some(Document(doc)) && Decode(doc).Some?;
    }
  }

  function Distance(a: nat, b: nat): nat {
    if a <= b then b - a else a - b
  }

  /** The next number of a walk: one closer to `last`. */
  function Step(first: nat, last: nat): nat
    requires first != last
  {
    if first < last then first + 1 else first - 1
  }

  /** The numbers `fetchComicsWithNumbers(first, through: last)` requests, in order. */
  function WalkOrder(first: nat, last: nat): (order: seq<nat>)
    ensures |order| == Distance(first, last) + 1 && order[0] == first
    decreases Distance(first, last)
  {
    if first == last then [first] else [first] + WalkOrder(Step(first, last), last)
  }

  /** A walk makes |first - last| + 1 requests, moving by one each time towards `last`. */
  lemma {:induction false} WalkOrderShape(first: nat, last: nat)
    ensures |WalkOrder(first, last)| == Distance(first, last) + 1
    ensures forall i :: 0 <= i < |WalkOrder(first, last)| ==>
      WalkOrder(first, last)[i] == if first <= last then first + i else first - i
    decreases Distance(first, last)
  {
    if first != last {
      var next := Step(first, last);
      WalkOrderShape(next, last);
      var w := WalkOrder(first, last);
      assert w[1..] == WalkOrder(next, last);
      forall i | 1 <= i < |w|
        ensures w[i] == if first <= last then first + i else first - i
      {
        assert w[i] == WalkOrder(next, last)[i - 1];
      }
    }
  }

  /** A walk starts at `first`, ends at `last`, visits exactly the numbers between them, each once. */
  lemma WalkOrderVisits(first: nat, last: nat)
    ensures WalkOrder(first, last)[0] == first
    ensures WalkOrder(first, last)[|WalkOrder(first, last)| - 1] == last
    ensures forall n: nat :: n in WalkOrder(first, last) <==>
      (first <= n <= last || last <= n <= first)
    ensures forall i, j :: 0 <= i < j < |WalkOrder(first, last)| ==>
      WalkOrder(first, last)[i] != WalkOrder(first, last)[j]
  {
    WalkOrderShape(first, last);
    var w := WalkOrder(first, last);
    forall n: nat | first <= n <= last || last <= n <= first
      ensures n in w
    {
      var i := if first <= last then n - first else first - n;
      assert w[i] == n;
    }
  }

  /**
   * `fetchComicsWithNumbers(first, through: last, completion:)`: one fetch at a
   * time, the next one issued from the previous one's completion. Returns the
   * numbers requested and the completion's arguments, call by call; nil results
   * do not stop the walk.
   */
  method FetchComicsWithNumbers(first: nat, last: nat, server: Server)
    returns (requested: seq<nat>, completions: seq<Option<Comic>>)
    ensures requested == WalkOrder(first, last)
    ensures |completions| == |requested|
    ensures forall i :: 0 <= i < |requested| ==> completions[i] == FetchComic(Some(requested[i]), server)
  {
    requested, completions := [], [];
    var current := first;
    while true
      invariant requested + WalkOrder(current, last) == WalkOrder(first, last)
      invariant |completions| == |requested|
      invariant forall i :: 0 <= i < |requested| ==> completions[i] == FetchComic(Some(requested[i]), server)
      decreases Distance(current, last)
    {
      var comic := FetchComic(Some(current), server);
      ghost var before := requested;
      requested, completions := requested + [current], completions + [comic];
      if current == last {
        assert WalkOrder(current, last) == [current];
        return;
      }
      assert WalkOrder(current, last) == [current] + WalkOrder(Step(current, last), last);
      assert requested + WalkOrder(Step(current, last), last) == before + WalkOrder(current, last);
      current := Step(current, last);
    }
  }

  const HighResolutionMarker: string := "_2x.png"
  const PngExtension: string := ".png"

  /** The URL a high-resolution load requests first: every ".png" becomes "_2x.png", unless already rewritten. */
  function HighResolutionUrl(url: string): (modified: string)
    ensures Contains(url, HighResolutionMarker) || !Contains(url, PngExtension) ==> modified == url
    ensures Contains(url, PngExtension) ==> Contains(modified, HighResolutionMarker)
  {
    if Contains(url, HighResolutionMarker) then url
    else if Contains(url, PngExtension) then
      ReplaceAllLeavesReplacement(url, PngExtension, HighResolutionMarker);
      ReplaceAll(url, PngExtension, HighResolutionMarker)
    else
      ReplaceAllWithoutOccurrence(url, PngExtension, HighResolutionMarker);
      ReplaceAll(url, PngExtension, HighResolutionMarker)
  }

  /** Rewriting twice is rewriting once. */
  lemma HighResolutionUrlIdempotent(url: string)
    ensures HighResolutionUrl(HighResolutionUrl(url)) == HighResolutionUrl(url)
  {
    if !Contains(url, HighResolutionMarker) {
      if Contains(url, PngExtension) {
        ReplaceAllLeavesReplacement(url, PngExtension, HighResolutionMarker);
      } else {
        ReplaceAllWithoutOccurrence(url, PngExtension, HighResolutionMarker);
      }
    }
  }

  /** A URL without ".png" is requested as it is. */
  lemma HighResolutionUrlWithoutPng(url: string)
    requires !Contains(url, PngExtension)
    ensures HighResolutionUrl(url) == url
  {
    if !Contains(url, HighResolutionMarker) {
      ReplaceAllWithoutOccurrence(url, PngExtension, HighResolutionMarker);
    }
  }

  /** A ".png" URL with no other ".png" in it gets "_2x" before its extension. */
  lemma HighResolutionUrlOfPng(stem: string)
    requires !Contains(stem, PngExtension)
    requires !Contains(stem + PngExtension, HighResolutionMarker)
    ensures HighResolutionUrl(stem + PngExtension) == stem + HighResolutionMarker
  {
    ReplaceFinalExtension(stem);
  }

  lemma {:induction false} ReplaceFinalExtension(stem: string)
    requires !Contains(stem, PngExtension)
    ensures ReplaceAll(stem + PngExtension, PngExtension, HighResolutionMarker) == stem + HighResolutionMarker
    decreases |stem|
  {
    var s := stem + PngExtension;
    if stem == [] {
      assert s == PngExtension;
      assert s[|PngExtension|..] == [];
    } else {
      assert !StartsWith(s, PngExtension) by {
        if |stem| >= 4 {
          assert s[..4] == stem[..4];
        } else if |stem| == 1 {
          assert s[1] == '.';
        } else if |stem| == 2 {
          assert s[2] == '.';
        } else {
          assert s[3] == '.';
        }
      }
      assert !Contains(stem[1..], PngExtension);
      assert s[1..] == stem[1..] + PngExtension;
      ReplaceFinalExtension(stem[1..]);
      assert [stem[0]] + stem[1..] == stem;
    }
  }

  /**
   * The URLs `loadImageForURL(url, highResolution:)` requests, in order: the
   * rewritten URL first when high resolution is on, then, only if that fails,
   * the original URL once more with high resolution off.
   */
  function ImageAttempts<Image>(url: string, highResolution: bool, images: string -> Option<Image>): seq<string> {
    if !highResolution then [url]
    else if images(HighResolutionUrl(url)).Some? then [HighResolutionUrl(url)]
    else [HighResolutionUrl(url), url]
  }

  /** What the load's single completion call receives: the last attempt's image. */
  function LoadedImage<Image>(url: string, highResolution: bool, images: string -> Option<Image>): Option<Image> {
    var attempts := ImageAttempts(url, highResolution, images);
    images(attempts[|attempts| - 1])
  }

  /** At most two attempts; a second one only after a failed high-resolution one, on the original URL. */
  lemma ImageAttemptsBound<Image>(url: string, highResolution: bool, images: string -> Option<Image>)
    ensures 1 <= |ImageAttempts(url, highResolution, images)| <= 2
    ensures |ImageAttempts(url, highResolution, images)| == 2 <==>
      highResolution && images(HighResolutionUrl(url)).None?
    ensures |ImageAttempts(url, highResolution, images)| == 2 ==>
      ImageAttempts(url, highResolution, images)[1] == url
  {
  }

  /**
   * The fallback: a high-resolution load yields the high-resolution image if there
   * is one, else the normal image, and nil only when both are missing.
   */
  lemma LoadedImageFallback<Image>(url: string, images: string -> Option<Image>)
    ensures images(HighResolutionUrl(url)).Some? ==>
      LoadedImage(url, true, images) == images(HighResolutionUrl(url))
    ensures images(HighResolutionUrl(url)).None? ==> LoadedImage(url, true, images) == images(url)
    ensures LoadedImage(url, true, images).None? <==>
      images(HighResolutionUrl(url)).None? && images(url).None?
  {
  }

  /**
   * `loadImageForURL(_:highResolution:completion:)`. Returns the URLs it
   * requested and the arguments of its completion calls.
   */
  method LoadImageForUrl<Image>(url: string, highResolution: bool, images: string -> Option<Image>)
    returns (attempts: seq<string>, completions: seq<Option<Image>>)
    ensures attempts == ImageAttempts(url, highResolution, images)
    ensures completions == [LoadedImage(url, highResolution, images)]
    decreases if highResolution then 1 else 0
  {
    var modifiedUrl := url;
    if highResolution && !Contains(url, HighResolutionMarker) {
      modifiedUrl := ReplaceAll(url, PngExtension, HighResolutionMarker);
    }
    var image := images(modifiedUrl);
    if image.None? {
      if highResolution {
        var retried;
        retried, completions := LoadImageForUrl(url, false, images);
        attempts := [modifiedUrl] + retried;
      } else {
        attempts, completions := [modifiedUrl], [None];
      }
      return;
    }
    attempts, completions := [modifiedUrl], [image];
  }
}
