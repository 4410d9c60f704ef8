/**
 * The `Xpresser` front end of xpresser/xp.py: turning action arguments into
 * a focus point, and the deadline-bounded `find` / `wait` polling loop.
 *
 * The wall clock, the screen and the image directory are given as a
 * `Session`: the successive readings of `time.time()` taken by one `find`,
 * the screenshot taken on each attempt, the finder's best-match search, and
 * the name lookup `ImageDir.get` (which may fail). The search may raise
 * (`_load_image`'s `RuntimeError`, or a target that is not an image); its
 * `Failure` carries the exception's message.
 */
module Xp {
  import opened Wrappers
  import OpenCVFinder

  /** A screen position. */
  datatype Point = Point(x: int, y: int)

  /** An `Image` object (a directory entry or a screenshot), by identity. */
  datatype ImageRef = ImageRef(id: nat)

  /** An `ImageMatch`: only its focus point is used here. */
  datatype ImageMatch = ImageMatch(id: nat, focusPoint: Point)

  /** A Python value passed as an action argument or as the image to find. */
  datatype Value =
    | IntValue(n: int)
    | StrValue(s: string)
    | ImageValue(image: ImageRef)
    | MatchValue(imageMatch: ImageMatch)
    | OtherValue(tag: nat)

  /** The exceptions that reach the caller. */
  datatype FindError =
    | ImageNotFound(image: Value)    // the deadline passed with no match
    | UnknownImageName(name: string) // the image directory has no such name
    | SearchFailed(reason: string)   // the search raised, e.g. an image that cannot be loaded

  datatype Session = Session(
    imageDir: string -> Option<ImageRef>,
    clock: seq<real>,
    screenshot: nat -> ImageRef,
    findBest: (ImageRef, Value) -> Result<seq<ImageMatch>, string>)

  const FindTimeout: real := 10.0
  const WaitTimeout: real := 30.0

  /** The clock readings of one `find` eventually pass its deadline. */
  predicate ClockPasses(clock: seq<real>, timeout: real)
  {
    |clock| >= 2 && clock[|clock| - 1] >= clock[0] + timeout
  }

  /** The time until which `find` keeps searching: its first clock reading plus the timeout. */
  function WaitUntil(session: Session, timeout: real): real
    requires |session.clock| > 0
  {
    session.clock[0] + timeout
  }

  /** The image `find` searches for: a name is looked up first, anything else is used as it is. */
  function Resolve(session: Session, image: Value): (r: Result<Value, FindError>)
    ensures !image.StrValue? ==> r == Success(image)
    ensures image.StrValue? && r.Success? ==> r.value.ImageValue? && session.imageDir(image.s) == Some(r.value.image)
    ensures image.StrValue? && r.Failure? ==> session.imageDir(image.s).None? && r.error == UnknownImageName(image.s)
  {
    match image
    case StrValue(name) =>
      (match session.imageDir(name)
       case Some(img) => Success(ImageValue(img))
       case None => Failure(UnknownImageName(name)))
    case _ => Success(image)
  }

  /** Attempt `k` (from 0): capture the screen and ask the finder for the best match. */
  function Attempt(session: Session, k: nat, target: Value): (r: Result<Option<ImageMatch>, string>)
    // the attempt captures screenshot `k`; it is empty exactly when the search of that screenshot finds nothing
    ensures r == Success(None) <==> session.findBest(session.screenshot(k), target) == Success([])
    ensures r.Failure? <==> session.findBest(session.screenshot(k), target).Failure?
  {
    OpenCVFinder.Find(session.screenshot(k), target, session.findBest)
  }

  /**
   * The polling from clock reading `k` on: while the reading is before the
   * deadline, attempt `k - 1` runs; a match ends the search, and so does an
   * exception the search raises, which is not retried.
   */
  function Poll(session: Session, target: Value, deadline: real, k: nat): (r: Result<ImageMatch, FindError>)
    requires 1 <= k < |session.clock| && session.clock[|session.clock| - 1] >= deadline
    // the loop raises only `ImageNotFound` of the image searched for, or what the search raised
    ensures r.Failure? ==> r.error == ImageNotFound(target) || r.error.SearchFailed?
    decreases |session.clock| - k
  {
    if session.clock[k] >= deadline then Failure(ImageNotFound(target))
    else match Attempt(session, k - 1, target)
      case Failure(reason) => Failure(SearchFailed(reason))
      case Success(Some(m)) => Success(m)
      case Success(None) => Poll(session, target, deadline, k + 1)
  }

  /** What `find(image, timeout)` returns or raises. */
  function FindSpec(session: Session, image: Value, timeout: real): (r: Result<ImageMatch, FindError>)
    requires ClockPasses(session.clock, timeout)
    // `find` raises `ImageNotFound` of the looked-up image, the lookup's error for a name, or what the search raised
    ensures r.Failure? && r.error.ImageNotFound? ==> Resolve(session, image) == Success(r.error.image)
    ensures r.Failure? && r.error.UnknownImageName? ==> image == StrValue(r.error.name) && session.imageDir(r.error.name).None?
  {
    match Resolve(session, image)
    case Failure(e) => Failure(e)
    case Success(target) => Poll(session, target, WaitUntil(session, timeout), 1)
  }

  /**
   * `find`: look the name up, then re-capture the screen and search it until
   * a match is found or the clock reaches `start + timeout`.
   */
  method Find(session: Session, image: Value, timeout: real := FindTimeout) returns (r: Result<ImageMatch, FindError>)
    requires ClockPasses(session.clock, timeout)
    ensures r == FindSpec(session, image, timeout)
  {
    var target := image;
    if image.StrValue? {
      var found := session.imageDir(image.s);
      if found.None? {
        return Failure(UnknownImageName(image.s));
      }
      target := ImageValue(found.value);
    }
    var waitUntil := WaitUntil(session, timeout);
    var k := 1;
    while session.clock[k] < waitUntil
      invariant 1 <= k < |session.clock|
      invariant Poll(session, target, waitUntil, k) == FindSpec(session, image, timeout)
      decreases |session.clock| - k
    {
      var screenshot := session.screenshot(k - 1);
      var best := OpenCVFinder.Find(screenshot, target, session.findBest);
      if best.Failure? {
        return Failure(SearchFailed(best.error));
      }
      if best.value.Some? {
        return Success(best.value.value);
      }
      k := k + 1;
    }
    r := Failure(ImageNotFound(target));
  }

  /** `wait`: `find` with a longer default timeout, whose match is dropped. */
  method Wait(session: Session, image: Value, timeout: real := WaitTimeout) returns (r: Result<(), FindError>)
    requires ClockPasses(session.clock, timeout)
    ensures r.Success? <==> FindSpec(session, image, timeout).Success?
    ensures r.Failure? ==> r.error == FindSpec(session, image, timeout).error
  {
    var found := Find(session, image, timeout);
    if found.Failure? {
      return Failure(found.error);
    }
    r := Success(());
  }

  // ---------------------------------------------------------------------
  // Focus points (`_compute_focus_point`)
  // ---------------------------------------------------------------------

  /** Arguments that make `_compute_focus_point` search the screen. */
  predicate NeedsSearch(args: seq<Value>)
  {
    |args| == 1 && !args[0].MatchValue?
  }

  /**
   * `_compute_focus_point`: two ints are the point itself; one match gives
   * its focus point; any other single argument is found first (with the
   * default timeout), and a failed search propagates. Any other shape
   * falls through to `None`.
   */
  function ComputeFocusPoint(session: Session, args: seq<Value>): (r: Result<Option<Point>, FindError>)
    requires NeedsSearch(args) ==> ClockPasses(session.clock, FindTimeout)
    ensures r.Failure? ==> NeedsSearch(args) && FindSpec(session, args[0], FindTimeout) == Failure(r.error)
    ensures r == Success(None) <==> |args| != 1 && !(|args| == 2 && args[0].IntValue? && args[1].IntValue?)
  {
    if |args| == 2 && args[0].IntValue? && args[1].IntValue? then
      Success(Some(Point(args[0].n, args[1].n)))
    else if |args| == 1 then
      if args[0].MatchValue? then Success(Some(args[0].imageMatch.focusPoint))
      else match FindSpec(session, args[0], FindTimeout)
        case Success(m) => Success(Some(m.focusPoint))
        case Failure(e) => Failure(e)
    else Success(None)
  }
}
