/**
 * The url -> hash memo behind the photo search (`state.imageHashes`).
 *
 * Loading an image is the host's work; each call receives what loading `url`
 * would yield: the canvas read-back of the decoded image, or `None` when the
 * image fails to load. Only computed hashes are stored: a failure stores
 * nothing, so a later search tries the url again. Requests run one after the
 * other here; concurrent requests for one url are not coalesced by the code.
 */
module HashMemo {
  import opened Wrappers
  import opened AHash

  datatype LoadError = ImageLoadError

  /** What a request for `url` yields against the memo `memo` and the load outcome `loaded`. */
  function Resolve(memo: map<string, string>, url: string, loaded: Option<Rgba>): (r: Result<string, LoadError>)
    ensures url in memo ==> r == Ok(memo[url])
    ensures url !in memo ==> (r.Ok? <==> loaded.Some?)
    ensures url !in memo && loaded.Some? ==> r.value == AHashOf(loaded.value)
  {
    if url in memo then Ok(memo[url])
    else if loaded.Some? then Ok(AHashOf(loaded.value))
    else Err(ImageLoadError)
  }

  class HashCache {
    /** The stored hashes, keyed by image url. */
    var hashes: map<string, string>
    /** The image each stored hash was computed from. */
    ghost var images: map<string, Rgba>

    /** Every stored hash is the hash of the image loaded for its url. */
    ghost predicate Valid()
      reads this
    {
      hashes.Keys == images.Keys
      && forall url :: url in hashes ==> hashes[url] == AHashOf(images[url])
    }

    constructor ()
      ensures Valid() && hashes == map[] && images == map[]
    {
      hashes := map[];
      images := map[];
    }

    /** `hashFromUrl`: a hit answers from the memo; a successful load stores and returns the new hash. */
    method HashFromUrl(url: string, loaded: Option<Rgba>) returns (r: Result<string, LoadError>)
      requires Valid()
      modifies this
      ensures Valid()
      ensures r.Ok? ==> url in images && r.value == AHashOf(images[url])
      ensures r == Resolve(old(hashes), url, loaded)
      ensures url in old(hashes) ==> hashes == old(hashes) && images == old(images)
      ensures url !in old(hashes) && loaded.None? ==> r == Err(ImageLoadError) && hashes == old(hashes) && images == old(images)
      ensures url !in old(hashes) && loaded.Some? ==>
        r.Ok? && hashes == old(hashes)[url := r.value] && images == old(images)[url := loaded.value]
    {
      if url in hashes {
        return Ok(hashes[url]);
      }
      if loaded.None? {
        return Err(ImageLoadError);
      }
      var hash := ImageToAHash(loaded.value);
      hashes := hashes[url := hash];
      images := images[url := loaded.value];
      r := Ok(hash);
    }
  }

  /** A hit returns exactly what a fresh load of the same image would compute: the memo is transparent. */
  lemma MemoIsTransparent(memo: map<string, string>, images: map<string, Rgba>, url: string)
    requires memo.Keys == images.Keys
    requires forall u :: u in memo ==> memo[u] == AHashOf(images[u])
    requires url in images
    ensures Resolve(memo, url, Some(images[url])) == Resolve(map[], url, Some(images[url]))
  {
  }

  /** A second request for a url that the first stored is a hit with the same hash. */
  lemma {:induction false} SecondRequestHits(memo: map<string, string>, url: string, first: Rgba, second: Option<Rgba>)
    requires url !in memo
    ensures Resolve(memo[url := AHashOf(first)], url, second) == Resolve(memo, url, Some(first))
  {
  }
}
