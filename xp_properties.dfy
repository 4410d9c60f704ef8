/** What `find`, `wait` and `_compute_focus_point` of xpresser/xp.py guarantee. */
module XpProperties {
  import opened Wrappers
  import opened Xp

  /** The clock readings `1 .. n-1` were all before the deadline and the attempts `0 .. n-2` they started all failed. */
  ghost predicate NoHitBefore(session: Session, target: Value, deadline: real, n: nat)
  {
    && 1 <= n < |session.clock|
    && (forall i :: 1 <= i < n ==> session.clock[i] < deadline)
    && (forall a: nat :: a < n - 1 ==> Attempt(session, a, target) == Success(None))
  }

  /** The search stops with match `m` at reading `n`: the first attempt that found anything. */
  ghost predicate SucceedsAt(session: Session, target: Value, deadline: real, n: nat, m: ImageMatch)
  {
    NoHitBefore(session, target, deadline, n) && session.clock[n] < deadline &&
    Attempt(session, n - 1, target) == Success(Some(m))
  }

  /** The search stops at reading `n` because attempt `n - 1` raised with message `reason`. */
  ghost predicate RaisesAt(session: Session, target: Value, deadline: real, n: nat, reason: string)
  {
    NoHitBefore(session, target, deadline, n) && session.clock[n] < deadline &&
    Attempt(session, n - 1, target) == Failure(reason)
  }

  /** The search gives up at reading `n`: the first reading not before the deadline. */
  ghost predicate GivesUpAt(session: Session, target: Value, deadline: real, n: nat)
  {
    NoHitBefore(session, target, deadline, n) && session.clock[n] >= deadline
  }

  /** From reading `k` on, the polling returns `m` exactly when `m` is the first hit of an attempt begun before the deadline. */
  lemma {:induction false} PollSucceeds(session: Session, target: Value, deadline: real, k: nat)
    requires 1 <= k < |session.clock| && session.clock[|session.clock| - 1] >= deadline
    requires NoHitBefore(session, target, deadline, k)
    ensures forall m :: Poll(session, target, deadline, k) == Success(m) <==>
              exists n :: k <= n && SucceedsAt(session, target, deadline, n, m)
    decreases |session.clock| - k
  {
    var clock := session.clock;
    if clock[k] >= deadline {
      assert GivesUpAt(session, target, deadline, k);
      assert forall n :: k < n ==> !NoHitBefore(session, target, deadline, n);
    } else if Attempt(session, k - 1, target).Failure? {
      assert RaisesAt(session, target, deadline, k, Attempt(session, k - 1, target).error);
      assert forall n :: k < n ==> !NoHitBefore(session, target, deadline, n);
    } else if Attempt(session, k - 1, target).value.Some? {
      assert SucceedsAt(session, target, deadline, k, Attempt(session, k - 1, target).value.value);
      assert forall n :: k < n ==> !NoHitBefore(session, target, deadline, n);
    } else {
      assert k + 1 < |clock|;
      assert NoHitBefore(session, target, deadline, k + 1);
      PollSucceeds(session, target, deadline, k + 1);
      forall m, n | k <= n && SucceedsAt(session, target, deadline, n, m) ensures k + 1 <= n { }
    }
  }

  /** From reading `k` on, the polling raises `ImageNotFound` exactly when a reading at or after the deadline comes before any hit or exception. */
  lemma {:induction false} PollGivesUp(session: Session, target: Value, deadline: real, k: nat)
    requires 1 <= k < |session.clock| && session.clock[|session.clock| - 1] >= deadline
    requires NoHitBefore(session, target, deadline, k)
    ensures Poll(session, target, deadline, k) == Failure(ImageNotFound(target)) <==>
              exists n :: k <= n && GivesUpAt(session, target, deadline, n)
    decreases |session.clock| - k
  {
    var clock := session.clock;
    if clock[k] >= deadline {
      assert GivesUpAt(session, target, deadline, k);
      assert forall n :: k < n ==> !NoHitBefore(session, target, deadline, n);
    } else if Attempt(session, k - 1, target).Failure? {
      assert RaisesAt(session, target, deadline, k, Attempt(session, k - 1, target).error);
      assert forall n :: k < n ==> !NoHitBefore(session, target, deadline, n);
    } else if Attempt(session, k - 1, target).value.Some? {
      assert SucceedsAt(session, target, deadline, k, Attempt(session, k - 1, target).value.value);
      assert forall n :: k < n ==> !NoHitBefore(session, target, deadline, n);
    } else {
      assert k + 1 < |clock|;
      assert NoHitBefore(session, target, deadline, k + 1);
      PollGivesUp(session, target, deadline, k + 1);
      forall n | k <= n && GivesUpAt(session, target, deadline, n) ensures k + 1 <= n { }
    }
  }

  /** From reading `k` on, the polling passes on an exception exactly when the first attempt that does not come back empty raised it. */
  lemma {:induction false} PollRaises(session: Session, target: Value, deadline: real, k: nat)
    requires 1 <= k < |session.clock| && session.clock[|session.clock| - 1] >= deadline
    requires NoHitBefore(session, target, deadline, k)
    ensures forall reason :: Poll(session, target, deadline, k) == Failure(SearchFailed(reason)) <==>
              exists n :: k <= n && RaisesAt(session, target, deadline, n, reason)
    decreases |session.clock| - k
  {
    var clock := session.clock;
    if clock[k] >= deadline {
      assert GivesUpAt(session, target, deadline, k);
      assert forall n :: k < n ==> !NoHitBefore(session, target, deadline, n);
    } else if Attempt(session, k - 1, target).Failure? {
      assert RaisesAt(session, target, deadline, k, Attempt(session, k - 1, target).error);
      assert forall n :: k < n ==> !NoHitBefore(session, target, deadline, n);
    } else if Attempt(session, k - 1, target).value.Some? {
      assert SucceedsAt(session, target, deadline, k, Attempt(session, k - 1, target).value.value);
      assert forall n :: k < n ==> !NoHitBefore(session, target, deadline, n);
    } else {
      assert k + 1 < |clock|;
      assert NoHitBefore(session, target, deadline, k + 1);
      PollRaises(session, target, deadline, k + 1);
      forall reason, n | k <= n && RaisesAt(session, target, deadline, n, reason) ensures k + 1 <= n { }
    }
  }

  /**
   * The outcome of the polling from reading `k`: a first hit, the deadline
   * first, or a first exception, each in both directions.
   */
  lemma PollOutcome(session: Session, target: Value, deadline: real, k: nat)
    requires 1 <= k < |session.clock| && session.clock[|session.clock| - 1] >= deadline
    requires NoHitBefore(session, target, deadline, k)
    ensures forall m :: Poll(session, target, deadline, k) == Success(m) <==>
              exists n :: k <= n && SucceedsAt(session, target, deadline, n, m)
    ensures Poll(session, target, deadline, k) == Failure(ImageNotFound(target)) <==>
              exists n :: k <= n && GivesUpAt(session, target, deadline, n)
    ensures forall reason :: Poll(session, target, deadline, k) == Failure(SearchFailed(reason)) <==>
              exists n :: k <= n && RaisesAt(session, target, deadline, n, reason)
  {
    PollSucceeds(session, target, deadline, k);
    PollGivesUp(session, target, deadline, k);
    PollRaises(session, target, deadline, k);
  }

  /**
   * `find` returns a match exactly when the looked-up image is found by some
   * attempt that began before `start + timeout`, every earlier attempt
   * (also begun before the deadline) having found nothing; the match is the
   * one that attempt found.
   */
  lemma FindReturnsFirstMatch(session: Session, image: Value, timeout: real, m: ImageMatch)
    requires ClockPasses(session.clock, timeout)
    ensures FindSpec(session, image, timeout) == Success(m) <==>
              Resolve(session, image).Success? &&
              exists n :: SucceedsAt(session, Resolve(session, image).value, WaitUntil(session, timeout), n, m)
  {
    if Resolve(session, image).Success? {
      PollOutcome(session, Resolve(session, image).value, WaitUntil(session, timeout), 1);
    }
  }

  /**
   * `find` raises `ImageNotFound` for the looked-up image exactly when a
   * clock reading at or after `start + timeout` comes before any attempt
   * succeeds, so it never gives up early.
   */
  lemma FindRaisesAfterDeadline(session: Session, image: Value, timeout: real, target: Value)
    requires ClockPasses(session.clock, timeout)
    ensures FindSpec(session, image, timeout) == Failure(ImageNotFound(target)) <==>
              Resolve(session, image) == Success(target) &&
              exists n :: GivesUpAt(session, target, WaitUntil(session, timeout), n)
  {
    if Resolve(session, image).Success? {
      PollOutcome(session, Resolve(session, image).value, WaitUntil(session, timeout), 1);
    }
  }

  /**
   * An exception raised by the search reaches the caller of `find` exactly
   * when it is raised by an attempt begun before `start + timeout`, every
   * earlier attempt having found nothing; it is not retried.
   */
  lemma FindPassesSearchError(session: Session, image: Value, timeout: real, reason: string)
    requires ClockPasses(session.clock, timeout)
    ensures FindSpec(session, image, timeout) == Failure(SearchFailed(reason)) <==>
              Resolve(session, image).Success? &&
              exists n :: RaisesAt(session, Resolve(session, image).value, WaitUntil(session, timeout), n, reason)
  {
    if Resolve(session, image).Success? {
      PollOutcome(session, Resolve(session, image).value, WaitUntil(session, timeout), 1);
    }
  }

  /** The other error: a name not in the image directory, raised before any search. */
  lemma FindUnknownName(session: Session, image: Value, timeout: real, name: string)
    requires ClockPasses(session.clock, timeout)
    ensures FindSpec(session, image, timeout) == Failure(UnknownImageName(name)) <==>
              image == StrValue(name) && session.imageDir(name).None?
  {
    if Resolve(session, image).Success? {
      PollOutcome(session, Resolve(session, image).value, WaitUntil(session, timeout), 1);
    }
  }

  /** A name is looked up before the loop: finding it is finding the image it names. */
  lemma FindResolvesNameFirst(session: Session, name: string, timeout: real, img: ImageRef)
    requires ClockPasses(session.clock, timeout)
    requires session.imageDir(name) == Some(img)
    ensures FindSpec(session, StrValue(name), timeout) == FindSpec(session, ImageValue(img), timeout)
  {
  }

  /** With a non-positive timeout and a clock that does not run backwards, no attempt is made. */
  lemma NoAttemptWithoutTime(session: Session, image: Value, timeout: real)
    requires ClockPasses(session.clock, timeout)
    requires timeout <= 0.0 && session.clock[0] <= session.clock[1]
    ensures FindSpec(session, image, timeout) ==
              match Resolve(session, image)
              case Success(target) => Failure(ImageNotFound(target))
              case Failure(e) => Failure(e)
  {
  }

  lemma {:induction false} PollLonger(session: Session, target: Value, d1: real, d2: real, k: nat)
    requires 1 <= k < |session.clock| && d1 <= d2 && session.clock[|session.clock| - 1] >= d2
    requires Poll(session, target, d1, k).Success?
    ensures Poll(session, target, d2, k) == Poll(session, target, d1, k)
    decreases |session.clock| - k
  {
    if Attempt(session, k - 1, target) == Success(None) {
      PollLonger(session, target, d1, d2, k + 1);
    }
  }

  /** Waiting longer never loses a match: what a shorter timeout finds, a longer one finds too. */
  lemma LongerTimeoutFindsTheSame(session: Session, image: Value, t1: real, t2: real)
    requires ClockPasses(session.clock, t1) && ClockPasses(session.clock, t2) && t1 <= t2
    requires FindSpec(session, image, t1).Success?
    ensures FindSpec(session, image, t2) == FindSpec(session, image, t1)
  {
    PollLonger(session, Resolve(session, image).value, WaitUntil(session, t1), WaitUntil(session, t2), 1);
  }

  /** Two ints or a match give a focus point without looking at the screen, the clock or the directory. */
  lemma FocusPointWithoutSearch(session: Session, other: Session, args: seq<Value>)
    requires !NeedsSearch(args)
    ensures ComputeFocusPoint(session, args) == ComputeFocusPoint(other, args)
    ensures |args| == 2 && args[0].IntValue? && args[1].IntValue? ==>
              ComputeFocusPoint(session, args) == Success(Some(Point(args[0].n, args[1].n)))
    ensures |args| == 1 ==> ComputeFocusPoint(session, args) == Success(Some(args[0].imageMatch.focusPoint))
  {
  }

  /**
   * Any other single argument is searched for: the focus point is that of
   * the match `find` returns, which is the point the match itself would give.
   */
  lemma FocusPointOfFoundMatch(session: Session, args: seq<Value>)
    requires NeedsSearch(args) && ClockPasses(session.clock, FindTimeout)
    ensures FindSpec(session, args[0], FindTimeout).Success? ==>
              ComputeFocusPoint(session, args) ==
              ComputeFocusPoint(session, [MatchValue(FindSpec(session, args[0], FindTimeout).value)])
    ensures FindSpec(session, args[0], FindTimeout).Failure? ==>
              ComputeFocusPoint(session, args) == Failure(FindSpec(session, args[0], FindTimeout).error)
  {
  }
}
