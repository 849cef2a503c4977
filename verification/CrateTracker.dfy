/**
 The crate tracker of rexos_vision: every camera frame gives a list of seen crates, and the tracker turns
 the changes into events. The points of a crate are of any type, and whether a crate has moved is any
 predicate on the known and the seen points.
 */
module CrateTracker {
  import opened Wrappers

  datatype Kind = In | Out | Moving | Moved

  datatype Event = Event(kind: Kind, name: string)

  datatype Sighting<P> = Sighting(name: string, points: P)

  /** The field present is called exists in the source. */
  datatype Crate<P> = Crate(oldSituation: bool, newSituation: bool, present: bool, stable: bool,
                            framesLeft: int, points: P)

  datatype Reported = StateStable | StateMoving | StateNonExisting

  function GetState<P>(c: Option<Crate<P>>): Reported {
    if c.None? || !c.value.oldSituation then StateNonExisting
    else if c.value.stable then StateStable
    else StateMoving
  }

  // ------------------------------------------------------------ one crate in one frame

  /** What happened to one crate: how it is known now and the events it caused. */
  datatype Track<P> = Track(crate: Option<Crate<P>>, kinds: seq<Kind>)

  function Joined<P>(before: seq<Kind>, t: Track<P>): Track<P> {
    Track(t.crate, before + t.kinds)
  }

  /** The copy constructor of Crate resets every flag, so the values that update sets on a new crate before
      it inserts a copy do not survive. */
  function Inserted<P>(points: P): Crate<P> {
    Crate(false, true, true, false, 0, points)
  }

  function Unmarked<P>(c: Option<Crate<P>>): Option<Crate<P>> {
    if c.None? then None else Some(c.value.(present := false))
  }

  /** One entry of the list of seen crates. */
  function See<P>(stableFrames: int, changed: (P, P) -> bool, c: Option<Crate<P>>, points: P): Track<P> {
    if c.None? then Track(Some(Inserted(points)), [])
    else
      var crate := c.value.(present := true);
      if changed(crate.points, points) then
        var moved := Crate(crate.oldSituation, true, true, false, stableFrames, points);
        Track(Some(moved), if crate.stable then [Moving] else [])
      else if crate.stable then Track(Some(crate), [])
      else if crate.framesLeft - 1 > 0 then Track(Some(crate.(framesLeft := crate.framesLeft - 1)), [])
      else
        var settled := crate.(framesLeft := crate.framesLeft - 1, stable := true);
        if crate.oldSituation then Track(Some(settled.(points := points, newSituation := true)), [Moved])
        else if crate.newSituation then Track(Some(settled.(oldSituation := true)), [In])
        else Track(Some(settled), [])
  }

  function SeeAll<P>(stableFrames: int, changed: (P, P) -> bool, c: Option<Crate<P>>, seen: seq<P>): Track<P> {
    if seen == [] then Track(c, [])
    else
      var before := SeeAll(stableFrames, changed, c, seen[..|seen| - 1]);
      var last := See(stableFrames, changed, before.crate, seen[|seen| - 1]);
      Joined(before.kinds, last)
  }

  /** The crate was not found in this frame. */
  function Miss<P>(stableFrames: int, crate: Crate<P>): Track<P> {
    var left := (if crate.stable then stableFrames else crate.framesLeft) - 1;
    var start := if crate.stable then [Moving] else [];
    if left <= 0 then Track(None, start + if crate.oldSituation then [Out] else [])
    else Track(Some(crate.(newSituation := false, stable := false, framesLeft := left)), start)
  }

  function Sweep<P>(stableFrames: int, c: Option<Crate<P>>): Track<P> {
    if c.Some? && !c.value.present then Miss(stableFrames, c.value) else Track(c, [])
  }

  /** One frame in which one crate was seen with these points, none when it was not seen. */
  function Frame<P>(stableFrames: int, changed: (P, P) -> bool, c: Option<Crate<P>>, seen: seq<P>): Track<P> {
    var listed := SeeAll(stableFrames, changed, Unmarked(c), seen);
    var swept := Sweep(stableFrames, listed.crate);
    Joined(listed.kinds, swept)
  }

  /** A run of frames for one crate. */
  function Run<P>(stableFrames: int, changed: (P, P) -> bool, c: Option<Crate<P>>, frames: seq<seq<P>>): Track<P> {
    if frames == [] then Track(c, [])
    else
      var before := Run(stableFrames, changed, c, frames[..|frames| - 1]);
      var last := Frame(stableFrames, changed, before.crate, frames[|frames| - 1]);
      Joined(before.kinds, last)
  }

  // ------------------------------------------------------------ the event protocol

  /** Reads an event history: what it says about the crate, None when the history breaks the protocol. A
      strict reader accepts no Moving of a crate that is not in. */
  function Follow(strict: bool, from: Reported, kinds: seq<Kind>): Option<Reported> {
    if kinds == [] then Some(from)
    else
      var before := Follow(strict, from, kinds[..|kinds| - 1]);
      if before.None? then None else FollowOne(strict, before.value, kinds[|kinds| - 1])
  }

  function FollowOne(strict: bool, from: Reported, kind: Kind): Option<Reported> {
    match (from, kind)
    case (StateNonExisting, In) => Some(StateStable)
    case (StateNonExisting, Moving) => if strict then None else Some(StateNonExisting)
    case (StateStable, Moving) => Some(StateMoving)
    case (StateMoving, Moved) => Some(StateStable)
    case (StateMoving, Out) => Some(StateNonExisting)
    case _ => None
  }

  lemma {:induction false} FollowAppend(strict: bool, from: Reported, a: seq<Kind>, b: seq<Kind>)
    ensures Follow(strict, from, a + b) ==
            (var mid := Follow(strict, from, a); if mid.None? then None else Follow(strict, mid.value, b))
    decreases |b|
  {
    if b == [] {
      assert a + b == a;
    } else {
      assert (a + b)[..|a + b| - 1] == a + b[..|b| - 1];
      FollowAppend(strict, from, a, b[..|b| - 1]);
    }
  }

  lemma FollowShort(strict: bool, from: Reported, k: Kind)
    ensures Follow(strict, from, [k]) == FollowOne(strict, from, k)
    ensures Follow(strict, from, []) == Some(from)
  {
    assert Follow(strict, from, [k][..0]) == Some(from);
  }

  /** A crate that has not entered can still wait for one more frame only, and was there in the last one: it
      cannot settle without entering. */
  predicate Prompt<P>(c: Option<Crate<P>>) {
    c.Some? && !c.value.oldSituation ==> !c.value.stable && c.value.newSituation && c.value.framesLeft <= 1
  }

  lemma SeeFollows<P>(strict: bool, stableFrames: int, changed: (P, P) -> bool, c: Option<Crate<P>>, points: P)
    requires strict ==> stableFrames <= 1 && Prompt(c)
    ensures var t := See(stableFrames, changed, c, points);
            Follow(strict, GetState(c), t.kinds) == Some(GetState(t.crate)) && (strict ==> Prompt(t.crate))
  {
    var t := See(stableFrames, changed, c, points);
    if t.kinds != [] {
      FollowShort(strict, GetState(c), t.kinds[0]);
      assert t.kinds == [t.kinds[0]];
    }
  }

  lemma {:induction false} SeeAllFollows<P>(strict: bool, stableFrames: int, changed: (P, P) -> bool,
                                               c: Option<Crate<P>>, seen: seq<P>)
    requires strict ==> stableFrames <= 1 && Prompt(c)
    ensures var t := SeeAll(stableFrames, changed, c, seen);
            Follow(strict, GetState(c), t.kinds) == Some(GetState(t.crate)) && (strict ==> Prompt(t.crate))
  {
    if seen != [] {
      SeeAllFollows(strict, stableFrames, changed, c, seen[..|seen| - 1]);
      var before := SeeAll(stableFrames, changed, c, seen[..|seen| - 1]);
      var last := See(stableFrames, changed, before.crate, seen[|seen| - 1]);
      SeeFollows(strict, stableFrames, changed, before.crate, seen[|seen| - 1]);
      FollowAppend(strict, GetState(c), before.kinds, last.kinds);
    }
  }

  lemma SweepFollows<P>(strict: bool, stableFrames: int, c: Option<Crate<P>>)
    requires strict ==> stableFrames <= 1 && Prompt(c)
    ensures var t := Sweep(stableFrames, c);
            Follow(strict, GetState(c), t.kinds) == Some(GetState(t.crate)) && (strict ==> Prompt(t.crate))
  {
    if c.Some? && !c.value.present {
      var start := if c.value.stable then [Moving] else [];
      var end := if Sweep(stableFrames, c).crate.None? && c.value.oldSituation then [Out] else [];
      assert Sweep(stableFrames, c).kinds == start + end;
      FollowAppend(strict, GetState(c), start, end);
      FollowShort(strict, GetState(c), Moving);
      FollowShort(strict, StateMoving, Out);
    }
  }

  lemma FrameFollows<P>(strict: bool, stableFrames: int, changed: (P, P) -> bool, c: Option<Crate<P>>, seen: seq<P>)
    requires strict ==> stableFrames <= 1 && Prompt(c)
    ensures var t := Frame(stableFrames, changed, c, seen);
            Follow(strict, GetState(c), t.kinds) == Some(GetState(t.crate)) && (strict ==> Prompt(t.crate))
  {
    var listed := SeeAll(stableFrames, changed, Unmarked(c), seen);
    SeeAllFollows(strict, stableFrames, changed, Unmarked(c), seen);
    SweepFollows(strict, stableFrames, listed.crate);
    FollowAppend(strict, GetState(c), listed.kinds, Sweep(stableFrames, listed.crate).kinds);
  }

  /** In every run the events of a crate follow the protocol, with at most one stable frame even for the
      strict reader, and what the tracker reports about the crate is what its event history says. */
  lemma {:induction false} RunFollows<P>(strict: bool, stableFrames: int, changed: (P, P) -> bool,
                                         c: Option<Crate<P>>, frames: seq<seq<P>>)
    requires strict ==> stableFrames <= 1 && Prompt(c)
    ensures var t := Run(stableFrames, changed, c, frames);
            Follow(strict, GetState(c), t.kinds) == Some(GetState(t.crate)) && (strict ==> Prompt(t.crate))
  {
    if frames != [] {
      var front, seen := frames[..|frames| - 1], frames[|frames| - 1];
      RunFollows(strict, stableFrames, changed, c, front);
      var before := Run(stableFrames, changed, c, front);
      FrameFollows(strict, stableFrames, changed, before.crate, seen);
      FollowAppend(strict, GetState(c), before.kinds, Frame(stableFrames, changed, before.crate, seen).kinds);
    }
  }

  /** j is the first Out behind the In at i. */
  predicate Stay(kinds: seq<Kind>, i: int, j: int) {
    0 <= i < j < |kinds| && kinds[i] == In && kinds[j] == Out && forall k | i < k < j :: kinds[k] != Out
  }

  lemma {:induction false} PrefixFollows(strict: bool, from: Reported, kinds: seq<Kind>, n: nat)
    requires n <= |kinds| && Follow(strict, from, kinds).Some?
    ensures Follow(strict, from, kinds[..n]).Some?
    decreases |kinds|
  {
    if n < |kinds| {
      PrefixFollows(strict, from, kinds[..|kinds| - 1], n);
      assert kinds[..|kinds| - 1][..n] == kinds[..n];
    } else {
      assert kinds[..n] == kinds;
    }
  }

  lemma FollowNext(strict: bool, from: Reported, kinds: seq<Kind>, n: nat)
    requires n < |kinds| && Follow(strict, from, kinds).Some?
    ensures Follow(strict, from, kinds[..n]).Some?
    ensures Follow(strict, from, kinds[..n + 1]) == FollowOne(strict, Follow(strict, from, kinds[..n]).value, kinds[n])
    ensures Follow(strict, from, kinds[..n + 1]).Some?
  {
    PrefixFollows(strict, from, kinds, n);
    PrefixFollows(strict, from, kinds, n + 1);
    assert kinds[..n + 1][..n] == kinds[..n];
  }

  lemma StayStep(strict: bool, from: Reported, kinds: seq<Kind>, n: nat, stable: bool)
    requires n < |kinds| && Follow(strict, from, kinds).Some? && kinds[n] != Out
    requires Follow(strict, from, kinds[..n]) == Some(if stable then StateStable else StateMoving)
    ensures kinds[n] == if stable then Moving else Moved
    ensures Follow(strict, from, kinds[..n + 1]) == Some(if stable then StateMoving else StateStable)
  {
    FollowNext(strict, from, kinds, n);
  }

  /** Between an In and the Out that ends it the events are (Moving Moved)* Moving; in particular no second
      In comes before the Out. */
  lemma StayAlternates(strict: bool, from: Reported, kinds: seq<Kind>, i: nat, j: nat)
    requires Follow(strict, from, kinds).Some? && Stay(kinds, i, j)
    ensures (j - i) % 2 == 0
    ensures forall k | i < k < j :: kinds[k] == Turn(i, k)
  {
    FollowNext(strict, from, kinds, i);
    StayUpTo(strict, from, kinds, i, j, j);
    FollowNext(strict, from, kinds, j);
  }

  /** The event k of a stay that began at i. */
  function Turn(i: nat, k: nat): Kind
    requires i < k
  {
    if (k - i) % 2 == 1 then Moving else Moved
  }

  lemma Alternates(i: nat, n: nat)
    requires i < n
    ensures Turn(i, n) == if n == i + 1 || Turn(i, n - 1) == Moved then Moving else Moved
  {
  }

  lemma {:induction false} StayUpTo(strict: bool, from: Reported, kinds: seq<Kind>, i: nat, j: nat, n: nat)
    requires Follow(strict, from, kinds).Some? && Stay(kinds, i, j) && i < n <= j
    requires Follow(strict, from, kinds[..i + 1]) == Some(StateStable)
    ensures Follow(strict, from, kinds[..n]) == Some(if Turn(i, n) == Moving then StateStable else StateMoving)
    ensures forall k | i < k < n :: kinds[k] == Turn(i, k)
  {
    Alternates(i, n);
    if n > i + 1 {
      StayUpTo(strict, from, kinds, i, j, n - 1);
      StayStep(strict, from, kinds, n - 1, Turn(i, n - 1) == Moving);
    }
  }

  /** An Out ends a stay: there is an In before it with no other Out in between. */
  lemma {:induction false} OutEndsStay(strict: bool, kinds: seq<Kind>, j: nat) returns (i: nat)
    requires Follow(strict, StateNonExisting, kinds).Some? && j < |kinds| && kinds[j] == Out
    ensures Stay(kinds, i, j)
  {
    FollowNext(strict, StateNonExisting, kinds, j);
    i := j;
    while i > 0 && kinds[i - 1] != In
      invariant i <= j && forall k | i <= k < j :: kinds[k] != Out
      invariant Follow(strict, StateNonExisting, kinds[..i]) in {Some(StateStable), Some(StateMoving)}
    {
      FollowNext(strict, StateNonExisting, kinds, i - 1);
      i := i - 1;
    }
    assert i > 0;
    i := i - 1;
  }

  /** Two Ins have an Out between them. */
  lemma InsAreSeparated(strict: bool, from: Reported, kinds: seq<Kind>, i: nat, j: nat)
    requires Follow(strict, from, kinds).Some? && i < j < |kinds| && kinds[i] == In && kinds[j] == In
    ensures exists k | i < k < j :: kinds[k] == Out
  {
    FollowNext(strict, from, kinds, i);
    var n := i + 1;
    while n < j && kinds[n] != Out
      invariant i < n <= j
      invariant Follow(strict, from, kinds[..n]) in {Some(StateStable), Some(StateMoving)}
    {
      FollowNext(strict, from, kinds, n);
      n := n + 1;
    }
    FollowNext(strict, from, kinds, n);
  }

  // ------------------------------------------------------------ stray events and timing

  function Times<P>(n: nat, seen: seq<P>): (frames: seq<seq<P>>)
    ensures |frames| == n && forall i | 0 <= i < n :: frames[i] == seen
  {
    if n == 0 then [] else Times(n - 1, seen) + [seen]
  }

  lemma RunOneMore<P>(stableFrames: int, changed: (P, P) -> bool, c: Option<Crate<P>>,
                      frames: seq<seq<P>>, seen: seq<P>)
    ensures var before := Run(stableFrames, changed, c, frames);
            var last := Frame(stableFrames, changed, before.crate, seen);
            Run(stableFrames, changed, c, frames + [seen]) == Joined(before.kinds, last)
  {
    assert (frames + [seen])[..|frames|] == frames;
  }

  lemma {:induction false} RunAppend<P>(stableFrames: int, changed: (P, P) -> bool, c: Option<Crate<P>>,
                                        a: seq<seq<P>>, b: seq<seq<P>>)
    ensures var before := Run(stableFrames, changed, c, a);
            var after := Run(stableFrames, changed, before.crate, b);
            Run(stableFrames, changed, c, a + b) == Joined(before.kinds, after)
    decreases |b|
  {
    if b == [] {
      assert a + b == a;
    } else {
      var front, seen := b[..|b| - 1], b[|b| - 1];
      RunAppend(stableFrames, changed, c, a, front);
      RunOneMore(stableFrames, changed, c, a + front, seen);
      assert b == front + [seen];
      Associative(a, front, [seen]);
      assert b[..|b| - 1] == front && b[|b| - 1] == seen;
      var before := Run(stableFrames, changed, c, a);
      var middle := Run(stableFrames, changed, before.crate, front);
      Associative(before.kinds, middle.kinds, Frame(stableFrames, changed, middle.crate, seen).kinds);
    }
  }

  lemma FrameUnseen<P>(stableFrames: int, changed: (P, P) -> bool, crate: Crate<P>)
    ensures Frame(stableFrames, changed, Some(crate), []) == Miss(stableFrames, crate.(present := false))
  {
  }

  lemma FrameStillUnseen<P>(stableFrames: int, changed: (P, P) -> bool, left: int, points: P)
    ensures Frame(stableFrames, changed, Some(Leaving(left, points)), []) ==
            if left <= 1 then Track(None, [Out]) else Track(Some(Leaving(left - 1, points)), [])
    ensures Frame(stableFrames, changed, None, []) == Track(None, [])
  {
    FrameUnseen(stableFrames, changed, Leaving(left, points));
  }

  /** A crate that was in and has not been seen since it was stable. */
  function Leaving<P>(left: int, points: P): Crate<P> {
    Crate(true, false, false, false, left, points)
  }

  /** What n frames without it do to a crate that is in and stable. */
  function Unseen<P>(stableFrames: int, crate: Crate<P>, n: nat): Track<P> {
    if n == 0 then Track(Some(crate), [])
    else if n < stableFrames then Track(Some(Leaving(stableFrames - n, crate.points)), [Moving])
    else Track(None, [Moving, Out])
  }

  /** A crate that is in and stable and goes unseen gets its Moving at once and its Out, with which it is
      forgotten, after exactly max(1, stableFrames) frames. */
  lemma {:induction false} OutAfterStableFrames<P>(stableFrames: int, changed: (P, P) -> bool, crate: Crate<P>, n: nat)
    requires crate.stable && crate.oldSituation
    ensures Run(stableFrames, changed, Some(crate), Times(n, [])) == Unseen(stableFrames, crate, n)
  {
    if n > 0 {
      OutAfterStableFrames(stableFrames, changed, crate, n - 1);
      RunOneMore(stableFrames, changed, Some(crate), Times(n - 1, []), []);
      UnseenOnceMore(stableFrames, changed, crate, n);
    }
  }

  lemma UnseenOnceMore<P>(stableFrames: int, changed: (P, P) -> bool, crate: Crate<P>, n: nat)
    requires crate.stable && crate.oldSituation && n > 0
    ensures var before := Unseen(stableFrames, crate, n - 1);
            Joined(before.kinds, Frame(stableFrames, changed, before.crate, [])) == Unseen(stableFrames, crate, n)
  {
    if n == 1 {
      FrameUnseen(stableFrames, changed, crate);
    } else {
      FrameStillUnseen(stableFrames, changed, stableFrames - (n - 1), crate.points);
    }
  }

  /** The crate goes unseen, or is seen without a change. */
  predicate Quiet<P>(changed: (P, P) -> bool, points: P, frame: seq<P>) {
    frame == [] || (|frame| == 1 && !changed(points, frame[0]))
  }

  predicate AllSeen<P>(frames: seq<seq<P>>) {
    forall i | 0 <= i < |frames| :: frames[i] != []
  }

  lemma AllSeenOneMore<P>(front: seq<seq<P>>, last: seq<P>)
    ensures AllSeen(front + [last]) <==> AllSeen(front) && last != []
  {
    var frames := front + [last];
    assert frames[|front|] == last;
    if AllSeen(frames) {
      forall i | 0 <= i < |front|
        ensures front[i] != []
      {
        assert frames[i] == front[i];
      }
    }
  }

  /** A crate that is not stable, after some quiet frames that do not end its waiting. */
  function Waiting<P>(crate: Crate<P>, frames: seq<seq<P>>): Crate<P> {
    crate.(present := if frames == [] then crate.present else frames[|frames| - 1] != [],
           newSituation := crate.newSituation && AllSeen(frames),
           framesLeft := crate.framesLeft - |frames|)
  }

  /** How the waiting of a crate ends: with the last frame it is forgotten or settles. A crate that was in has left or
      moved, and its new place counts. One that was not in enters if it has been seen since it was last changed. */
  ghost predicate Settled<P>(crate: Crate<P>, frames: seq<seq<P>>, t: Track<P>)
    requires frames != []
  {
    var last := frames[|frames| - 1];
    if last == [] then t == Track(None, if crate.oldSituation then [Out] else [])
    else if t.crate.None? || !t.crate.value.stable then false
    else if crate.oldSituation then
      t.kinds == [Moved] && GetState(t.crate) == StateStable && t.crate.value.points == last[0]
    else
      var enters := crate.newSituation && AllSeen(frames);
      && t.kinds == (if enters then [In] else []) && t.crate.value.points == crate.points
      && GetState(t.crate) == if enters then StateStable else StateNonExisting
  }

  lemma QuietFrame<P>(stableFrames: int, changed: (P, P) -> bool, crate: Crate<P>, frame: seq<P>)
    requires !crate.stable && Quiet(changed, crate.points, frame)
    ensures var t := Frame(stableFrames, changed, Some(crate), frame);
      if crate.framesLeft > 1 then t == Track(Some(Waiting(crate, [frame])), []) else Settled(crate, [frame], t)
  {
    if frame == [] {
      FrameUnseen(stableFrames, changed, crate);
    } else {
      assert frame == [frame[0]];
      FrameSingle(stableFrames, changed, crate, frame[0]);
    }
  }

  /** Through quiet frames a crate that is not stable waits for exactly max(1, framesLeft) frames, and the last of
      them settles it. */
  lemma {:induction false} SettlesAfter<P>(stableFrames: int, changed: (P, P) -> bool, crate: Crate<P>,
                                           frames: seq<seq<P>>)
    requires !crate.stable && forall i | 0 <= i < |frames| :: Quiet(changed, crate.points, frames[i])
    requires |frames| <= Max(1, crate.framesLeft)
    ensures var t := Run(stableFrames, changed, Some(crate), frames);
      if |frames| < Max(1, crate.framesLeft) then t == Track(Some(Waiting(crate, frames)), [])
      else Settled(crate, frames, t)
  {
    if frames != [] {
      var front, last := frames[..|frames| - 1], frames[|frames| - 1];
      assert frames == front + [last];
      SettlesAfter(stableFrames, changed, crate, front);
      RunOneMore(stableFrames, changed, Some(crate), front, last);
      SettlesOnceMore(stableFrames, changed, crate, front, last);
    }
  }

  lemma SettlesOnceMore<P>(stableFrames: int, changed: (P, P) -> bool, crate: Crate<P>, front: seq<seq<P>>,
                           last: seq<P>)
    requires !crate.stable && Quiet(changed, crate.points, last) && |front| < Max(1, crate.framesLeft)
    ensures var t := Frame(stableFrames, changed, Some(Waiting(crate, front)), last);
      if |front| + 1 < Max(1, crate.framesLeft) then t == Track(Some(Waiting(crate, front + [last])), [])
      else Settled(crate, front + [last], t)
  {
    QuietFrame(stableFrames, changed, Waiting(crate, front), last);
    AllSeenOneMore(front, last);
    assert AllSeen([last]) <==> last != [] by {
      AllSeenOneMore([], last);
      assert [] + [last] == [last];
    }
  }

  function Max(a: int, b: int): int {
    if a >= b then a else b
  }

  /** A crate that is seen in two frames without a change enters with the second one, whatever stableFrames is: the
      countdown that update sets on a new crate is lost with the copy. */
  lemma EntersAtOnce<P>(stableFrames: int, changed: (P, P) -> bool, p: P, q: P)
    requires !changed(p, q)
    ensures var t := Run(stableFrames, changed, None, [[p], [q]]);
      t.kinds == [In] && GetState(t.crate) == StateStable && t.crate.value.points == p
  {
    FirstSeen(stableFrames, changed, p);
    RunOneMore(stableFrames, changed, None, [[p]], [q]);
    assert [[p]] + [[q]] == [[p], [q]];
    QuietFrame(stableFrames, changed, Inserted(p), [q]);
  }

  lemma FirstSeen<P>(stableFrames: int, changed: (P, P) -> bool, p: P)
    ensures Run(stableFrames, changed, None, [[p]]) == Track(Some(Inserted(p)), [])
  {
    var unknown: Option<Crate<P>> := None;
    assert [p][..0] == [] && SeeAll(stableFrames, changed, unknown, []) == Track(unknown, []);
    assert SeeAll(stableFrames, changed, unknown, [p]) == Track(Some(Inserted(p)), []);
    assert [] + [[p]] == [[p]];
    RunOneMore(stableFrames, changed, unknown, [], [p]);
  }

  /** A crate that has changed and then stays in view unchanged gets its Moved, or its In when it was not in, after
      exactly max(1, stableFrames) frames. If it was stable, its Moving comes with the change. */
  lemma MovesThenSettles<P>(stableFrames: int, changed: (P, P) -> bool, crate: Crate<P>, q: P, frames: seq<seq<P>>)
    requires changed(crate.points, q) && AllSeen(frames) && |frames| <= Max(1, stableFrames)
    requires forall i | 0 <= i < |frames| :: Quiet(changed, q, frames[i])
    ensures var t := Run(stableFrames, changed, Some(crate), [[q]] + frames);
      var start := if crate.stable then [Moving] else [];
      if |frames| < Max(1, stableFrames) then t.kinds == start && !t.crate.None? && !t.crate.value.stable
      else t.kinds == start + [if crate.oldSituation then Moved else In] && GetState(t.crate) == StateStable
  {
    var moved := Crate(crate.oldSituation, true, true, false, stableFrames, q);
    FrameSingle(stableFrames, changed, crate, q);
    assert [] + [[q]] == [[q]];
    RunOneMore(stableFrames, changed, Some(crate), [], [q]);
    assert Run(stableFrames, changed, Some(crate), [[q]]) == Track(Some(moved), if crate.stable then [Moving] else []);
    RunAppend(stableFrames, changed, Some(crate), [[q]], frames);
    SettlesAfter(stableFrames, changed, moved, frames);
  }

  /** A stable crate that stays in view unchanged causes nothing. */
  lemma {:induction false} StableStaysQuiet<P>(stableFrames: int, changed: (P, P) -> bool, crate: Crate<P>,
                                               frames: seq<seq<P>>)
    requires crate.stable && AllSeen(frames) && forall i | 0 <= i < |frames| :: Quiet(changed, crate.points, frames[i])
    ensures Run(stableFrames, changed, Some(crate), frames) ==
            Track(Some(crate.(present := frames != [] || crate.present)), [])
  {
    if frames != [] {
      var front, last := frames[..|frames| - 1], frames[|frames| - 1];
      StableStaysQuiet(stableFrames, changed, crate, front);
      assert last == [last[0]];
      FrameSingle(stableFrames, changed, crate.(present := front != [] || crate.present), last[0]);
    }
  }

  lemma FrameSingle<P>(stableFrames: int, changed: (P, P) -> bool, crate: Crate<P>, points: P)
    ensures Frame(stableFrames, changed, Some(crate), [points]) ==
            See(stableFrames, changed, Some(crate.(present := false)), points)
  {
    var start := Some(crate.(present := false));
    assert [points][..0] == [];
    assert SeeAll(stableFrames, changed, start, []) == Track(start, []);
    var one := See(stableFrames, changed, start, points);
    assert SeeAll(stableFrames, changed, start, [points]) == Track(one.crate, [] + one.kinds);
  }

  function StrayRun<P>(stableFrames: int, p: P, q: P): seq<seq<P>>
    requires stableFrames >= 2
  {
    [[p], [q], []] + Times(stableFrames - 1, [q]) + [[]]
  }

  lemma EntersMoving<P>(stableFrames: int, changed: (P, P) -> bool, p: P, q: P)
    requires changed(p, q)
    ensures Run(stableFrames, changed, None, [[p], [q]]) ==
            Track(Some(Crate(false, true, true, false, stableFrames, q)), [])
  {
    FirstSeen(stableFrames, changed, p);
    RunOneMore(stableFrames, changed, None, [[p]], [q]);
    assert [[p]] + [[q]] == [[p], [q]];
    FrameSingle(stableFrames, changed, Inserted(p), q);
  }

  lemma MissedWhileEntering<P>(stableFrames: int, changed: (P, P) -> bool, p: P, q: P) returns (missed: Crate<P>)
    requires stableFrames >= 2 && changed(p, q)
    ensures missed == Crate(false, false, false, false, stableFrames - 1, q)
    ensures Run(stableFrames, changed, None, [[p], [q], []]) == Track(Some(missed), [])
  {
    missed := Crate(false, false, false, false, stableFrames - 1, q);
    EntersMoving(stableFrames, changed, p, q);
    RunOneMore(stableFrames, changed, None, [[p], [q]], []);
    FrameUnseen(stableFrames, changed, Crate(false, true, true, false, stableFrames, q));
    assert [[p], [q]] + [[]] == [[p], [q], []];
  }

  lemma SettlesOutside<P>(stableFrames: int, changed: (P, P) -> bool, c: Crate<P>) returns (settled: Crate<P>)
    requires !c.stable && !c.oldSituation && !c.newSituation && !changed(c.points, c.points)
    requires stableFrames >= 2 && c.framesLeft == stableFrames - 1
    ensures Run(stableFrames, changed, Some(c), Times(stableFrames - 1, [c.points])) == Track(Some(settled), [])
    ensures settled.stable && !settled.oldSituation
  {
    SettlesAfter(stableFrames, changed, c, Times(stableFrames - 1, [c.points]));
    settled := Run(stableFrames, changed, Some(c), Times(stableFrames - 1, [c.points])).crate.value;
  }

  /** With two stable frames or more a crate that moves while it enters and is missed for one frame settles
      without an In, and its next change is reported as a Moving of a crate that was never in. */
  lemma StrayMoving<P>(stableFrames: int, changed: (P, P) -> bool, p: P, q: P)
    requires stableFrames >= 2 && changed(p, q) && !changed(q, q)
    ensures Run(stableFrames, changed, None, StrayRun(stableFrames, p, q)).kinds == [Moving]
    ensures Follow(true, StateNonExisting, [Moving]) == None
  {
    var missed := MissedWhileEntering(stableFrames, changed, p, q);
    var settled := SettlesOutside(stableFrames, changed, missed);
    RunAppend(stableFrames, changed, None, [[p], [q], []], Times(stableFrames - 1, [q]));
    RunOneMore(stableFrames, changed, None, [[p], [q], []] + Times(stableFrames - 1, [q]), []);
    FrameUnseen(stableFrames, changed, settled);
    FollowShort(true, StateNonExisting, Moving);
  }

  /** Every run of an unknown crate satisfies the strict reader if and only if one stable frame is enough. */
  lemma StrictIffPrompt<P>(stableFrames: int, changed: (P, P) -> bool, p: P, q: P)
    requires changed(p, q) && !changed(q, q)
    ensures stableFrames <= 1 <==>
            forall frames :: Follow(true, StateNonExisting, Run(stableFrames, changed, None, frames).kinds).Some?
  {
    if stableFrames <= 1 {
      forall frames
        ensures Follow(true, StateNonExisting, Run(stableFrames, changed, None, frames).kinds).Some?
      {
        RunFollows(true, stableFrames, changed, None, frames);
      }
    } else {
      StrayMoving(stableFrames, changed, p, q);
      var run := Run(stableFrames, changed, None, StrayRun(stableFrames, p, q));
      assert !Follow(true, StateNonExisting, run.kinds).Some?;
    }
  }

  // ------------------------------------------------------------ the tracker

  function SeenAs<P>(list: seq<Sighting<P>>, name: string): seq<P> {
    if list == [] then []
    else
      var last := list[|list| - 1];
      SeenAs(list[..|list| - 1], name) + if last.name == name then [last.points] else []
  }

  function KindsOf(events: seq<Event>, name: string): seq<Kind> {
    if events == [] then []
    else
      var last := events[|events| - 1];
      KindsOf(events[..|events| - 1], name) + if last.name == name then [last.kind] else []
  }

  lemma {:induction false} KindsAppend(a: seq<Event>, b: seq<Event>, name: string)
    ensures KindsOf(a + b, name) == KindsOf(a, name) + KindsOf(b, name)
    decreases |b|
  {
    if b == [] {
      assert a + b == a;
    } else {
      assert (a + b)[..|a + b| - 1] == a + b[..|b| - 1];
      KindsAppend(a, b[..|b| - 1], name);
    }
  }

  function Events(kinds: seq<Kind>, name: string): (events: seq<Event>)
    ensures |events| == |kinds|
    ensures forall i | 0 <= i < |events| :: events[i] == Event(kinds[i], name)
  {
    seq(|kinds|, i requires 0 <= i < |kinds| => Event(kinds[i], name))
  }

  lemma {:induction false} KindsOfEvents(kinds: seq<Kind>, name: string, other: string)
    ensures KindsOf(Events(kinds, name), other) == if other == name then kinds else []
    decreases |kinds|
  {
    if kinds != [] {
      var front := kinds[..|kinds| - 1];
      KindsOfEvents(front, name, other);
      assert Events(kinds, name)[..|kinds| - 1] == Events(front, name);
    }
  }

  function Lookup<P>(crates: map<string, Crate<P>>, name: string): Option<Crate<P>> {
    if name in crates then Some(crates[name]) else None
  }

  lemma SeenNext<P>(list: seq<Sighting<P>>, sighting: Sighting<P>, name: string)
    ensures SeenAs(list + [sighting], name) ==
            SeenAs(list, name) + if sighting.name == name then [sighting.points] else []
  {
    assert (list + [sighting])[..|list|] == list;
  }

  lemma SeeAllOneMore<P>(stableFrames: int, changed: (P, P) -> bool, c: Option<Crate<P>>, seen: seq<P>, points: P)
    ensures var before := SeeAll(stableFrames, changed, c, seen);
            var last := See(stableFrames, changed, before.crate, points);
            SeeAll(stableFrames, changed, c, seen + [points]) == Joined(before.kinds, last)
  {
    assert (seen + [points])[..|seen|] == seen;
  }

  class CrateTracker<P(!new)> {
    const stableFrames: int
    const changed: (P, P) -> bool
    var knownCrates: map<string, Crate<P>>

    constructor (stableFrames: int, changed: (P, P) -> bool)
      ensures this.stableFrames == stableFrames && this.changed == changed && knownCrates == map[]
    {
      this.stableFrames := stableFrames;
      this.changed := changed;
      knownCrates := map[];
    }

    function Known(name: string): Option<Crate<P>>
      reads this
    {
      Lookup(knownCrates, name)
    }

    method Store(name: string, c: Option<Crate<P>>)
      modifies this
      ensures Known(name) == c
      ensures forall other | other != name :: Known(other) == old(Known(other))
    {
      knownCrates := if c.None? then knownCrates - {name} else knownCrates[name := c.value];
    }

    /** Every crate goes through the frame on its own: what is known about it and its events depend on its
        own sightings only. */
    method Update(updatedCrates: seq<Sighting<P>>) returns (events: seq<Event>)
      modifies this
      ensures forall name ::
                Track(Known(name), KindsOf(events, name)) ==
                old(Frame(stableFrames, changed, Known(name), SeenAs(updatedCrates, name)))
    {
      ghost var before := knownCrates;
      MarkAll();
      ghost var marked := knownCrates;
      events := [];
      for i := 0 to |updatedCrates|
        invariant Listed(marked, updatedCrates[..i], events)
      {
        events := SeeNext(marked, updatedCrates[..i], updatedCrates[i], events);
        assert updatedCrates[..i] + [updatedCrates[i]] == updatedCrates[..i + 1];
      }
      assert updatedCrates[..|updatedCrates|] == updatedCrates;
      events := RemoveUntrackedCrates(events);
      forall name
        ensures Track(Known(name), KindsOf(events, name)) ==
                Frame(stableFrames, changed, Lookup(before, name), SeenAs(updatedCrates, name))
      {
        assert Lookup(marked, name) == Unmarked(Lookup(before, name));
      }
    }

    /** The state and the events after the first part of the list of seen crates. */
    ghost predicate Listed(marked: map<string, Crate<P>>, list: seq<Sighting<P>>, events: seq<Event>)
      reads this
    {
      forall name ::
        Track(Known(name), KindsOf(events, name)) ==
        SeeAll(stableFrames, changed, Lookup(marked, name), SeenAs(list, name))
    }

    method SeeNext(ghost marked: map<string, Crate<P>>, ghost list: seq<Sighting<P>>, sighting: Sighting<P>,
                   before: seq<Event>)
      returns (events: seq<Event>)
      requires Listed(marked, list, before)
      modifies this
      ensures Listed(marked, list + [sighting], events)
    {
      ghost var was := knownCrates;
      var kinds := SeeCrate(sighting);
      events := Push(before, kinds, sighting.name);
      forall name
        ensures Track(Known(name), KindsOf(events, name)) ==
                SeeAll(stableFrames, changed, Lookup(marked, name), SeenAs(list + [sighting], name))
      {
        assert Track(Lookup(was, name), KindsOf(before, name)) ==
               SeeAll(stableFrames, changed, Lookup(marked, name), SeenAs(list, name));
        SeenNext(list, sighting, name);
        if name == sighting.name {
          SeeAllOneMore(stableFrames, changed, Lookup(marked, name), SeenAs(list, name), sighting.points);
        } else {
          assert Known(name) == Lookup(was, name) && SeenAs(list + [sighting], name) == SeenAs(list, name);
        }
      }
    }

    /** Mark every crate for removal. The order in which a map is walked is open. */
    method MarkAll()
      modifies this
      ensures forall name :: Known(name) == Unmarked(old(Known(name)))
    {
      var todo := knownCrates.Keys;
      while todo != {}
        invariant forall name | name in todo :: Known(name).Some? && Known(name) == old(Known(name))
        invariant forall name | name !in todo :: Known(name) == Unmarked(old(Known(name)))
        decreases |todo|
      {
        var name :| name in todo;
        Store(name, Some(knownCrates[name].(present := false)));
        todo := todo - {name};
      }
    }

    /** The body of the loop over the seen crates. */
    method SeeCrate(sighting: Sighting<P>) returns (kinds: seq<Kind>)
      modifies this
      ensures Track(Known(sighting.name), kinds) ==
              old(See(stableFrames, changed, Known(sighting.name), sighting.points))
      ensures forall other | other != sighting.name :: Known(other) == old(Known(other))
    {
      kinds := [];
      var name := sighting.name;
      if name !in knownCrates {
        Store(name, Some(Inserted(sighting.points)));
      } else {
        var crate := knownCrates[name].(present := true);
        if changed(crate.points, sighting.points) {
          if crate.stable {
            kinds := [Moving];
          }
          crate := crate.(framesLeft := stableFrames, stable := false, newSituation := true, points := sighting.points);
        } else if !crate.stable {
          crate := crate.(framesLeft := crate.framesLeft - 1);
          if crate.framesLeft <= 0 {
            crate := crate.(stable := true);
            if crate.oldSituation {
              kinds := [Moved];
              crate := crate.(points := sighting.points, newSituation := true);
            } else if crate.newSituation {
              kinds := [In];
              crate := crate.(oldSituation := true);
            }
          }
        }
        Store(name, Some(crate));
      }
    }

    method RemoveUntrackedCrates(before: seq<Event>) returns (events: seq<Event>)
      modifies this
      ensures forall name ::
                Track(Known(name), KindsOf(events, name)) ==
                Joined(KindsOf(before, name), Sweep(stableFrames, old(Known(name))))
    {
      events := before;
      ghost var was := knownCrates;
      var todo, toBeRemoved := knownCrates.Keys, {};
      while todo != {}
        invariant forall name :: Swept(was, todo, toBeRemoved, before, events, name)
        decreases |todo|
      {
        var name :| name in todo;
        assert Swept(was, todo, toBeRemoved, before, events, name);
        label Loop:
        var gone, kinds := SweepCrate(name);
        ghost var earlier := events;
        events := Push(events, kinds, name);
        ghost var kept := toBeRemoved;
        if gone {
          toBeRemoved := toBeRemoved + {name};
        }
        forall other
          ensures Swept(was, todo - {name}, toBeRemoved, before, events, other)
        {
          assert old@Loop(Swept(was, todo, kept, before, earlier, other));
        }
        todo := todo - {name};
      }
      label AllSwept:
      knownCrates := knownCrates - toBeRemoved;
      forall name
        ensures Track(Known(name), KindsOf(events, name)) ==
                Joined(KindsOf(before, name), Sweep(stableFrames, Lookup(was, name)))
      {
        assert old@AllSwept(Swept(was, todo, toBeRemoved, before, events, name));
      }
    }

    /** One crate while the known crates are worked off: untouched as long as it is to do, else swept. */
    ghost predicate Swept(was: map<string, Crate<P>>, todo: set<string>, toBeRemoved: set<string>,
                          before: seq<Event>, events: seq<Event>, name: string)
      reads this
    {
      if name in todo then
        && name !in toBeRemoved && name in knownCrates && Known(name) == Lookup(was, name)
        && KindsOf(events, name) == KindsOf(before, name)
      else
        Track(if name in toBeRemoved then None else Known(name), KindsOf(events, name)) ==
        Joined(KindsOf(before, name), Sweep(stableFrames, Lookup(was, name)))
    }

    /** The body of the loop over the known crates. */
    method SweepCrate(name: string) returns (gone: bool, kinds: seq<Kind>)
      requires name in knownCrates
      modifies this
      ensures name in knownCrates
      ensures Track(if gone then None else Known(name), kinds) == old(Sweep(stableFrames, Known(name)))
      ensures forall other | other != name :: Known(other) == old(Known(other))
    {
      gone, kinds := false, [];
      var crate := knownCrates[name];
      if !crate.present {
        if crate.stable {
          kinds := [Moving];
          crate := crate.(framesLeft := stableFrames, stable := false);
        }
        crate := crate.(newSituation := false, framesLeft := crate.framesLeft - 1);
        if crate.framesLeft <= 0 {
          if crate.oldSituation {
            kinds := kinds + [Out];
          }
          gone := true;
        }
        Store(name, Some(crate));
      }
    }

    method Push(before: seq<Event>, kinds: seq<Kind>, name: string) returns (events: seq<Event>)
      ensures KindsOf(events, name) == KindsOf(before, name) + kinds
      ensures forall other | other != name :: KindsOf(events, other) == KindsOf(before, other)
    {
      events := before + Events(kinds, name);
      forall other
        ensures KindsOf(events, other) == KindsOf(before, other) + if other == name then kinds else []
      {
        KindsAppend(before, Events(kinds, name), other);
        KindsOfEvents(kinds, name, other);
      }
    }

    method GetCrate(name: string) returns (result: Option<Crate<P>>)
      ensures result == if GetState(Known(name)) == StateNonExisting then None else Known(name)
    {
      if name in knownCrates && GetState(Some(knownCrates[name])) != StateNonExisting {
        return Some(knownCrates[name]);
      }
      return None;
    }
  }
}
