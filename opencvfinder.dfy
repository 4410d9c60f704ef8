/**
 * The image finder of xpresser/opencvfinder.py: the pass that suppresses
 * near-duplicate matches, the per-image decode cache and the
 * first-or-None `find` wrapper.
 */
module OpenCVFinder {
  import opened Wrappers

  // ---------------------------------------------------------------------
  // Duplicate suppression (`_filter_nearby_positions`)
  // ---------------------------------------------------------------------

  /** A candidate match: its position and its similarity. Similarities are
      only ever compared, so any totally ordered type will do; `int` is used. */
  datatype Candidate = Candidate(x: int, y: int, score: int)

  /** The per-axis distances below which two candidates are duplicates. */
  datatype Margin = Margin(x: int, y: int)

  function Abs(n: int): nat
  {
    if n < 0 then -n else n
  }

  /** Two candidates are neighbours when they are close on EITHER axis. */
  predicate Neighbours(a: Candidate, b: Candidate, margin: Margin)
  {
    Abs(b.x - a.x) < margin.x || Abs(b.y - a.y) < margin.y
  }

  /**
   * The inner loop: candidate `i` (not yet killed) is compared with
   * candidates `j`, `j+1`, ... in input order. A worse neighbour is killed
   * and the scan goes on; a better neighbour, or an equal one that is not
   * yet killed, kills `i` and ends the scan.
   */
  function Inner(ms: seq<Candidate>, margin: Margin, i: nat, j: nat, kill: set<nat>): (after: set<nat>)
    requires i < |ms| && j <= |ms|
    ensures kill <= after
    // apart from `i` itself, only worse neighbours of `i` not yet compared are killed
    ensures forall k :: k in after && k !in kill && k != i ==>
              j <= k < |ms| && Neighbours(ms[i], ms[k], margin) && ms[k].score < ms[i].score
    decreases |ms| - j
  {
    if j == |ms| then kill
    else if j == i || !Neighbours(ms[i], ms[j], margin) then Inner(ms, margin, i, j + 1, kill)
    else if ms[i].score > ms[j].score then Inner(ms, margin, i, j + 1, kill + {j})
    else if ms[i].score < ms[j].score || j !in kill then kill + {i}
    else Inner(ms, margin, i, j + 1, kill)
  }

  /** The outer loop: candidates `i`, `i+1`, ... that are not yet killed each run the inner loop. */
  function Outer(ms: seq<Candidate>, margin: Margin, i: nat, kill: set<nat>): (after: set<nat>)
    requires i <= |ms|
    ensures kill <= after
    ensures forall k :: k in after && k !in kill ==> k < |ms|
    decreases |ms| - i
  {
    if i == |ms| then kill
    else if i in kill then Outer(ms, margin, i + 1, kill)
    else Outer(ms, margin, i + 1, Inner(ms, margin, i, 0, kill))
  }

  /** The indices of the candidates the whole pass kills. */
  function Killed(ms: seq<Candidate>, margin: Margin): (killed: set<nat>)
    ensures forall k :: k in killed ==> k < |ms|
  {
    Outer(ms, margin, 0, {})
  }

  /** The indices of the candidates the pass keeps: `set(matches) - kill`. */
  function Survivors(ms: seq<Candidate>, margin: Margin): (survivors: set<nat>)
    ensures forall k :: k in survivors ==> k < |ms|
  {
    set k: nat | k < |ms| && k !in Killed(ms, margin)
  }

  /**
   * `_filter_nearby_positions`: the O(n^2) pass. Candidates to remove are
   * collected in a kill set that is only ever added to, so that a candidate
   * already killed is still compared with later ones; candidates are their
   * indices in the input.
   */
  method FilterNearbyPositions(ms: seq<Candidate>, margin: Margin) returns (survivors: set<nat>)
    ensures survivors == Survivors(ms, margin)
    ensures forall k :: k in survivors ==> k < |ms|
  {
    var kill: set<nat> := {};
    var i := 0;
    while i < |ms|
      invariant 0 <= i <= |ms|
      invariant Outer(ms, margin, i, kill) == Killed(ms, margin)
    {
      if i in kill {
        // Another candidate has already shown that this one is not the best.
        i := i + 1;
        continue;
      }
      ghost var before := kill;
      var j := 0;
      while j < |ms|
        invariant 0 <= j <= |ms|
        invariant Inner(ms, margin, i, j, kill) == Inner(ms, margin, i, 0, before)
      {
        if j != i && Neighbours(ms[i], ms[j], margin) {
          if ms[i].score > ms[j].score {
            kill := kill + {j};
          } else if ms[i].score < ms[j].score || j !in kill {
            kill := kill + {i};
            break;
          }
        }
        j := j + 1;
      }
      i := i + 1;
    }
    survivors := set k: nat | k < |ms| && k !in kill;
  }

  // ---------------------------------------------------------------------
  // The first-or-None wrapper (`find`)
  // ---------------------------------------------------------------------

  /**
   * `find`: the first of the matches that the best-match search of the
   * screen for the area reports, or `None` when it reports none. The search
   * itself (`_find` with `best_match=True`) is the parameter `findBest`; an
   * exception it raises (such as `_load_image`'s `RuntimeError`) is its
   * `Failure`, and `find` lets it through.
   */
  function Find<S, A, M, E>(screen: S, area: A, findBest: (S, A) -> Result<seq<M>, E>): (r: Result<Option<M>, E>)
    ensures r.Failure? <==> findBest(screen, area).Failure?
    ensures r.Failure? ==> r.error == findBest(screen, area).error
    ensures r == Success(None) <==> findBest(screen, area) == Success([])
    ensures r.Success? && r.value.Some? ==> r.value.value == findBest(screen, area).value[0]
  {
    match findBest(screen, area)
    case Failure(e) => Failure(e)
    case Success(matches) => if matches != [] then Success(Some(matches[0])) else Success(None)
  }

  // ---------------------------------------------------------------------
  // The decode cache (`_load_image`)
  // ---------------------------------------------------------------------

  /** A decoded image buffer; its contents play no part here. */
  datatype Pixels = Pixels(data: seq<int>)

  /** The `RuntimeError` raised when an image has neither a file nor a buffer. */
  datatype LoadError = CantLoadImage

  /** The cache entry under which the decoded buffer is kept. */
  const OpenCVImageKey: string := "opencv_image"

  /** An image: where its pixels come from, and the cache filled on first use. */
  class Image {
    var filename: Option<string>
    var buffer: Option<Pixels>  // the `array` attribute
    var cache: map<string, Pixels>
    var width: int
    var height: int

    constructor (filename: Option<string>, buffer: Option<Pixels>, width: int, height: int)
      ensures this.filename == filename && this.buffer == buffer
      ensures this.width == width && this.height == height
      ensures cache == map[]
    {
      this.filename := filename;
      this.buffer := buffer;
      this.width := width;
      this.height := height;
      cache := map[];
    }
  }

  /**
   * One call of `_load_image` on a cache and an image's sources: the value it
   * returns (or the error it raises) and the cache it leaves. The file
   * reader `cv2.imread` is the parameter `imread`.
   */
  function LoadStep(cache: map<string, Pixels>, filename: Option<string>, buffer: Option<Pixels>,
                    imread: string -> Pixels): (r: (Result<Pixels, LoadError>, map<string, Pixels>))
    // a cached buffer is returned as it is, and nothing is read
    ensures OpenCVImageKey in cache ==> r == (Success(cache[OpenCVImageKey]), cache)
    // otherwise the file wins over the in-memory buffer
    ensures OpenCVImageKey !in cache && filename.Some? ==> r.0 == Success(imread(filename.value))
    ensures OpenCVImageKey !in cache && filename.None? && buffer.Some? ==> r.0 == Success(buffer.value)
    // it fails exactly when there is nothing cached and nothing to load, and then changes nothing
    ensures r.0.Failure? <==> OpenCVImageKey !in cache && filename.None? && buffer.None?
    ensures r.0.Failure? ==> r.1 == cache
    // whatever it returns is left in the cache, and no other entry changes
    ensures r.0.Success? ==> r.1 == cache[OpenCVImageKey := r.0.value]
  {
    if OpenCVImageKey in cache then (Success(cache[OpenCVImageKey]), cache)
    else if filename.Some? then
      var decoded := imread(filename.value);
      (Success(decoded), cache[OpenCVImageKey := decoded])
    else if buffer.Some? then
      (Success(buffer.value), cache[OpenCVImageKey := buffer.value])
    else (Failure(CantLoadImage), cache)
  }

  /**
   * `_load_image`: decodes the image on first use and keeps the buffer in
   * the image's cache.
   */
  method LoadImage(image: Image, imread: string -> Pixels) returns (r: Result<Pixels, LoadError>)
    modifies image`cache
    ensures (r, image.cache) == LoadStep(old(image.cache), image.filename, image.buffer, imread)
  {
    if OpenCVImageKey !in image.cache {
      var decoded: Pixels;
      if image.filename.Some? {
        decoded := imread(image.filename.value);
      } else if image.buffer.Some? {
        decoded := image.buffer.value;
      } else {
        return Failure(CantLoadImage);
      }
      image.cache := image.cache[OpenCVImageKey := decoded];
    }
    r := Success(image.cache[OpenCVImageKey]);
  }

  /**
   * Loading is memoised: once a load has succeeded, a second call returns
   * the same buffer and leaves the cache as it is, whatever the file would
   * now read as and even if the image's `filename` or `array` has been
   * changed in between, since nothing invalidates the cache.
   */
  lemma LoadIsMemoised(cache: map<string, Pixels>, filename: Option<string>, buffer: Option<Pixels>,
                       imread: string -> Pixels, laterFilename: Option<string>, laterBuffer: Option<Pixels>,
                       imreadLater: string -> Pixels)
    requires LoadStep(cache, filename, buffer, imread).0.Success?
    ensures var (first, cache') := LoadStep(cache, filename, buffer, imread);
            LoadStep(cache', laterFilename, laterBuffer, imreadLater) == (first, cache')
  {
  }

  /** The same, on an image object: two loads in a row give one buffer and one cache. */
  method LoadTwice(image: Image, imread: string -> Pixels, imreadLater: string -> Pixels)
      returns (first: Result<Pixels, LoadError>, second: Result<Pixels, LoadError>)
    modifies image`cache
    ensures first.Success? ==> second == first && image.cache == old(image.cache)[OpenCVImageKey := first.value]
    ensures first.Failure? ==> second == first && image.cache == old(image.cache)
  {
    first := LoadImage(image, imread);
    second := LoadImage(image, imreadLater);
  }
}
