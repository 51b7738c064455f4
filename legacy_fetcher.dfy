/**
 * The earlier `ComicFetcher` kept at the top level of the app. Its endpoints,
 * `fetchComicWithNumber`, `fetchComicsWithNumbers` and `Comic` coding are the
 * same text as the current fetcher's and are modelled by those members; only
 * its image loader differs: no high-resolution path, and no completion at all
 * when the load fails.
 */
module LegacyComicFetcher {
  import opened Wrappers
  import ComicFetcher

  /**
   * `loadImageForURL(_:completion:)` of the earlier fetcher: one request for
   * `url`; the completion runs once with the image when there is one and is
   * never called otherwise. Returns the arguments of its completion calls.
   */
  method LoadImageForUrl<Image>(url: string, images: string -> Option<Image>)
    returns (completions: seq<Image>)
    ensures images(url).Some? ==> completions == [images(url).value]
    ensures images(url).None? ==> completions == []
    // Against the current loader with high resolution off: the same successes,
    // and silence where the current one completes with nil.
    ensures |completions| <= 1
    ensures completions != [] <==> ComicFetcher.LoadedImage(url, false, images).Some?
    ensures completions != [] ==> Some(completions[0]) == ComicFetcher.LoadedImage(url, false, images)
  {
    var image := images(url);
    if image.None? {
      return [];
    }
    completions := [image.value];
  }
}
