/**
 * The observable events of one run of `startPhotoBooth` (page.tsx lines
 * 65-94) together with the recomposition effect (lines 52-56), as the exact
 * trace the run produces, and what that trace guarantees.
 */
module Sequencing {
  import opened Camera
  import opened Photostrip

  datatype Event =
    | Reset                                        // isCapturing true, capturedImages [], finalImage null
    | Tick(value: int)                             // countdown := value, then a one-second wait
    | ClearCountdown                               // countdown := null
    | Capture(shot: nat)                           // the shot-th call of capturePhoto
    | Publish(count: nat)                          // capturedImages := the collected frames, isCapturing false
    | Recompose(images: seq<Frame>, color: Color)  // combineImages(capturedImages, bgColor)

  datatype Kind = ResetKind | TickKind | ClearKind | CaptureKind | PublishKind | RecomposeKind

  function KindOf(e: Event): Kind {
    match e
    case Reset => ResetKind
    case Tick(_) => TickKind
    case ClearCountdown => ClearKind
    case Capture(_) => CaptureKind
    case Publish(_) => PublishKind
    case Recompose(_, _) => RecomposeKind
  }

  /** How many times `for (let i = 0; i < n; i++)` runs its body (also the count of `for (i = n; i >= 1; i--)`). */
  function Iterations(n: int): nat {
    if n > 0 then n else 0
  }

  /** The values a countdown of d seconds shows: d, d - 1, ..., 1. */
  function Ticks(d: int): seq<Event> {
    seq(Iterations(d), k => Tick(d - k))
  }

  /** A countdown loop followed by `setCountdown(null)` (lines 74-78 and 84-88). */
  function Countdown(d: int): seq<Event> {
    Ticks(d) + [ClearCountdown]
  }

  /**
   * The events of the first k iterations of the capture loop (lines 80-90),
   * as the loop is written: capture, then a countdown unless it was the last shot.
   */
  function ShotsAsWritten(k: nat, n: int, d: int): seq<Event> {
    if k == 0 then []
    else ShotsAsWritten(k - 1, n, d) + [Capture(k - 1)] + (if k - 1 < n - 1 then Countdown(d) else [])
  }

  /** The reference shape of k shots: every shot is a full countdown followed by its capture. */
  function Shots(k: nat, d: int): seq<Event> {
    if k == 0 then [] else Shots(k - 1, d) + Countdown(d) + [Capture(k - 1)]
  }

  /** The effect of lines 52-56 when it runs: it calls `combineImages` only if the list is complete. */
  function Recomposition(complete: bool, images: seq<Frame>, color: Color): seq<Event> {
    if complete then [Recompose(images, color)] else []
  }

  /**
   * Every event of one run for `numPhotos == n` and countdown duration d >= 1.
   * The updates before the first `await` (lines 66-75: the reset and the
   * first countdown value) are committed together, and only then does the
   * effect run, which `setCapturedImages([])` retriggered. Then come the
   * rest of the first countdown, the capture loop, the publication of the
   * frames, and the effect that publication reruns.
   */
  function SessionTrace(n: int, d: int, color: Color, frames: seq<Frame>): seq<Event>
    requires |frames| == Iterations(n) && d >= 1
  {
    [Reset] + During(n, d, color) + [Publish(|frames|)] + Recomposition(|frames| == n, frames, color)
  }

  /** The events between the reset and the publication: the first countdown, then the capture loop. */
  function During(n: int, d: int, color: Color): seq<Event>
    requires d >= 1
  {
    Opening(n, d, color) + ShotsAsWritten(Iterations(n), n, d)
  }

  /**
   * The first countdown of a run: its first value, the effect of the
   * committed reset (it recomposes the empty list when n == 0), the
   * remaining values and the clear.
   */
  function Opening(n: int, d: int, color: Color): seq<Event>
    requires d >= 1
  {
    [Tick(d)] + Recomposition(0 == n, [], color) + Countdown(d - 1)
  }

  /** The countdowns and captures of a run: lines 74-90. */
  function Body(n: int, d: int): seq<Event> {
    Countdown(d) + ShotsAsWritten(Iterations(n), n, d)
  }

  /** How many events of the given kind a trace holds. */
  function CountOf(t: seq<Event>, kind: Kind): nat {
    if t == [] then 0 else CountOf(t[..|t| - 1], kind) + (if KindOf(t[|t| - 1]) == kind then 1 else 0)
  }

  /** The shot indices of the captures of a trace, in trace order. */
  function Shutter(t: seq<Event>): seq<nat> {
    if t == [] then [] else Shutter(t[..|t| - 1]) + (if t[|t| - 1].Capture? then [t[|t| - 1].shot] else [])
  }

  lemma {:induction false} CountOfAppend(a: seq<Event>, b: seq<Event>, kind: Kind)
    ensures CountOf(a + b, kind) == CountOf(a, kind) + CountOf(b, kind)
    decreases |b|
  {
    if b == [] {
      assert a + b == a;
    } else {
      assert (a + b)[..|a + b| - 1] == a + b[..|b| - 1];
      CountOfAppend(a, b[..|b| - 1], kind);
    }
  }

  lemma {:induction false} ShutterAppend(a: seq<Event>, b: seq<Event>)
    ensures Shutter(a + b) == Shutter(a) + Shutter(b)
    decreases |b|
  {
    if b == [] {
      assert a + b == a;
    } else {
      assert (a + b)[..|a + b| - 1] == a + b[..|b| - 1];
      ShutterAppend(a, b[..|b| - 1]);
    }
  }

  /** A countdown of d seconds shows max(d, 0) ticks and no capture. */
  lemma CountdownCounts(d: int)
    ensures CountOf(Countdown(d), TickKind) == Iterations(d)
    ensures Shutter(Countdown(d)) == []
    ensures |Countdown(d)| == Iterations(d) + 1
  {
    CountdownCountsUpTo(d, Iterations(d));
    var c := Countdown(d);
    assert c[..|c| - 1] == Ticks(d) == Ticks(d)[..Iterations(d)];
    assert !c[|c| - 1].Capture? && KindOf(c[|c| - 1]) != TickKind;
  }

  lemma {:induction false} CountdownCountsUpTo(d: int, m: nat)
    requires m <= Iterations(d)
    ensures CountOf(Ticks(d)[..m], TickKind) == m
    ensures Shutter(Ticks(d)[..m]) == []
  {
    if m > 0 {
      CountdownCountsUpTo(d, m - 1);
      assert Ticks(d)[..m][..m - 1] == Ticks(d)[..m - 1];
    } else {
      assert Ticks(d)[..m] == [];
    }
  }

  /**
   * The loop as written (capture, then a countdown unless last) after the
   * first countdown is the reference shape: n shots, each a full countdown
   * followed by its capture.
   */
  lemma {:induction false} LoopShapeIsShots(k: nat, n: int, d: int)
    requires 1 <= n && k <= n
    ensures Countdown(d) + ShotsAsWritten(k, n, d) == Shots(k, d) + (if k < n then Countdown(d) else [])
  {
    if k == 0 {
      assert Countdown(d) + [] == [] + Countdown(d);
    } else {
      LoopShapeIsShots(k - 1, n, d);
      var x := if k < n then Countdown(d) else [];
      calc {
        Countdown(d) + ShotsAsWritten(k, n, d);
        Countdown(d) + (ShotsAsWritten(k - 1, n, d) + [Capture(k - 1)] + x);
        (Countdown(d) + ShotsAsWritten(k - 1, n, d)) + [Capture(k - 1)] + x;
        Shots(k - 1, d) + Countdown(d) + [Capture(k - 1)] + x;
        Shots(k, d) + x;
      }
    }
  }

  lemma {:induction false} ShotsLength(k: nat, d: int)
    ensures |Shots(k, d)| == k * (Iterations(d) + 2)
  {
    if k > 0 {
      ShotsLength(k - 1, d);
      CountdownCounts(d);
    }
  }

  lemma {:induction false} ShotsTickCount(k: nat, d: int)
    ensures CountOf(Shots(k, d), TickKind) == k * Iterations(d)
  {
    if k > 0 {
      ShotsTickCount(k - 1, d);
      CountdownCounts(d);
      CountOfAppend(Shots(k - 1, d), Countdown(d), TickKind);
      CountOfAppend(Shots(k - 1, d) + Countdown(d), [Capture(k - 1)], TickKind);
      assert CountOf([Capture(k - 1)], TickKind) == 0 by {
        assert [Capture(k - 1)][..0] == [];
      }
    }
  }

  lemma {:induction false} ShotsShutter(k: nat, d: int)
    ensures Shutter(Shots(k, d)) == seq(k, i => i)
  {
    if k > 0 {
      ShotsShutter(k - 1, d);
      ShutterOfRound(Shots(k - 1, d), d, k - 1);
      IndicesExtend(k);
    }
  }

  /** One more round adds exactly its capture to the shutter sequence. */
  lemma ShutterOfRound(prev: seq<Event>, d: int, shot: nat)
    ensures Shutter(prev + Countdown(d) + [Capture(shot)]) == Shutter(prev) + [shot]
  {
    CountdownCounts(d);
    ShutterAppend(prev, Countdown(d));
    ShutterAppend(prev + Countdown(d), [Capture(shot)]);
    ShutterSingle(Capture(shot));
  }

  lemma IndicesExtend(k: nat)
    requires k > 0
    ensures seq(k - 1, i => i) + [k - 1] == seq(k, i => i)
  {
  }

  /**
   * Inside k shots, every capture comes right after a complete countdown
   * d, ..., 1, clear; before that countdown stands the previous capture, or
   * nothing for the first capture.
   */
  lemma {:induction false} CaptureFollowsCountdown(k: nat, d: int, idx: nat)
    requires idx < |Shots(k, d)| && Shots(k, d)[idx].Capture?
    ensures var s, dd, shot := Shots(k, d), Iterations(d), Shots(k, d)[idx].shot;
      dd + 1 <= idx && s[idx - dd - 1..idx] == Countdown(d)
      && (shot == 0 ==> idx == dd + 1)
      && (shot > 0 ==> dd + 2 <= idx && s[idx - dd - 2] == Capture(shot - 1))
  {
    var prev, dd := Shots(k - 1, d), Iterations(d);
    var s := Shots(k, d);
    assert s == prev + (Countdown(d) + [Capture(k - 1)]);
    if idx < |prev| {
      CaptureFollowsCountdown(k - 1, d, idx);
      assert s[idx - dd - 1..idx] == prev[idx - dd - 1..idx];
    } else {
      var j := idx - |prev|;
      assert s[idx] == (Countdown(d) + [Capture(k - 1)])[j];
      CountdownHasNoCapture(d);
      assert j == dd + 1;
      assert s[idx - dd - 1..idx] == Countdown(d);
      if k - 1 > 0 {
        assert prev == Shots(k - 2, d) + Countdown(d) + [Capture(k - 2)];
      }
    }
  }

  /** A countdown is max(d, 0) ticks and a clear: no capture. */
  lemma CountdownHasNoCapture(d: int)
    ensures |Countdown(d)| == Iterations(d) + 1
    ensures forall i :: 0 <= i < |Countdown(d)| ==> !Countdown(d)[i].Capture?
  {
  }

  lemma {:induction false} CountOfAbsent(t: seq<Event>, kind: Kind)
    requires forall i :: 0 <= i < |t| ==> KindOf(t[i]) != kind
    ensures CountOf(t, kind) == 0
    decreases |t|
  {
    if t != [] {
      CountOfAbsent(t[..|t| - 1], kind);
    }
  }

  /** Shots hold only ticks, clears and captures, and every tick of them shows a value in 1..d. */
  lemma {:induction false} ShotsEvents(k: nat, d: int)
    ensures forall i :: 0 <= i < |Shots(k, d)| ==>
      var e := Shots(k, d)[i];
      (e.Tick? && 1 <= e.value <= d) || e.ClearCountdown? || e.Capture?
  {
    if k > 0 {
      ShotsEvents(k - 1, d);
      assert Shots(k, d) == Shots(k - 1, d) + Countdown(d) + [Capture(k - 1)];
    }
  }

  /** The countdowns and captures of a run hold only ticks showing 1..d, clears and captures. */
  lemma BodyEvents(n: int, d: int)
    ensures forall i :: 0 <= i < |Body(n, d)| ==>
      var e := Body(n, d)[i];
      (e.Tick? && 1 <= e.value <= d) || e.ClearCountdown? || e.Capture?
  {
    if n >= 1 {
      LoopShapeIsShots(n, n, d);
      ShotsEvents(n, d);
    } else {
      assert Body(n, d) == Ticks(d) + [ClearCountdown];
    }
  }

  /** With at least one shot the countdowns and captures are n full shots. */
  lemma BodyIsShots(n: int, d: int)
    requires n >= 1
    ensures Body(n, d) == Shots(n, d)
  {
    LoopShapeIsShots(n, n, d);
  }

  /** With no shot the countdowns and captures are the first countdown alone. */
  lemma BodyWithoutShots(n: int, d: int)
    requires n <= 0
    ensures Body(n, d) == Countdown(d)
  {
  }

  /** A countdown from d >= 1 is its first value followed by a countdown from d - 1. */
  lemma CountdownUnrolled(d: int)
    requires d >= 1
    ensures Countdown(d) == [Tick(d)] + Countdown(d - 1)
  {
    assert |Ticks(d)| == |[Tick(d)] + Ticks(d - 1)|;
    forall k | 0 <= k < |Ticks(d)|
      ensures Ticks(d)[k] == ([Tick(d)] + Ticks(d - 1))[k]
    {
      if k > 0 {
        assert Ticks(d - 1)[k - 1] == Tick(d - 1 - (k - 1));
      }
    }
    assert Ticks(d) == [Tick(d)] + Ticks(d - 1);
  }

  /**
   * Between the reset and the publication a run emits the loops' events,
   * with the effect of the committed reset inserted after the first
   * countdown value.
   */
  lemma DuringIsBodyWithEffect(n: int, d: int, color: Color)
    requires d >= 1
    ensures |Body(n, d)| >= 1
    ensures During(n, d, color) == Body(n, d)[..1] + Recomposition(0 == n, [], color) + Body(n, d)[1..]
  {
    CountdownUnrolled(d);
    var rest := Countdown(d - 1) + ShotsAsWritten(Iterations(n), n, d);
    assert Body(n, d) == [Tick(d)] + rest;
    assert Body(n, d)[..1] == [Tick(d)];
    assert Body(n, d)[1..] == rest;
  }

  lemma DuringCounts(n: int, d: int, color: Color, kind: Kind)
    requires d >= 1
    ensures CountOf(During(n, d, color), kind) == CountOf(Body(n, d), kind) + CountOf(Recomposition(0 == n, [], color), kind)
  {
    DuringIsBodyWithEffect(n, d, color);
    var b, r0 := Body(n, d), Recomposition(0 == n, [], color);
    assert b == b[..1] + b[1..];
    CountOfAppend(b[..1], b[1..], kind);
    CountOfAppend(b[..1], r0, kind);
    CountOfAppend(b[..1] + r0, b[1..], kind);
  }

  lemma DuringShutter(n: int, d: int, color: Color)
    requires d >= 1
    ensures Shutter(During(n, d, color)) == Shutter(Body(n, d))
  {
    DuringIsBodyWithEffect(n, d, color);
    var b, r0 := Body(n, d), Recomposition(0 == n, [], color);
    assert b == b[..1] + b[1..];
    ShutterAppend(b[..1], b[1..]);
    ShutterAppend(b[..1], r0);
    ShutterAppend(b[..1] + r0, b[1..]);
    if 0 == n {
      ShutterSingle(Recompose([], color));
    }
  }

  /**
   * Between the reset and the publication there are only ticks showing
   * 1..d, clears, captures, and for n == 0 the recomposition of the empty list.
   */
  lemma DuringEvents(n: int, d: int, color: Color)
    requires d >= 1
    ensures forall i :: 0 <= i < |During(n, d, color)| ==>
      var e := During(n, d, color)[i];
      (e.Tick? && 1 <= e.value <= d) || e.ClearCountdown? || e.Capture? || (n == 0 && e == Recompose([], color))
  {
    DuringIsBodyWithEffect(n, d, color);
    BodyEvents(n, d);
    var b, r0 := Body(n, d), Recomposition(0 == n, [], color);
    var x := During(n, d, color);
    forall i | 0 <= i < |x|
      ensures (x[i].Tick? && 1 <= x[i].value <= d) || x[i].ClearCountdown? || x[i].Capture? || (n == 0 && x[i] == Recompose([], color))
    {
      if i == 0 {
        assert x[i] == b[0];
      } else if i < 1 + |r0| {
        assert x[i] == r0[i - 1];
      } else {
        assert x[i] == b[i - |r0|];
      }
    }
  }

  /** With at least one shot the run is the reset, n full shots, the publication and one recomposition. */
  lemma SessionShape(n: int, d: int, color: Color, frames: seq<Frame>)
    requires n >= 1 && d >= 1 && |frames| == Iterations(n)
    ensures SessionTrace(n, d, color, frames) == [Reset] + Shots(n, d) + [Publish(n), Recompose(frames, color)]
  {
    DuringIsBodyWithEffect(n, d, color);
    assert During(n, d, color) == Body(n, d);
    BodyIsShots(n, d);
  }

  /**
   * A run with numPhotos <= 0 captures nothing but still counts down once;
   * with numPhotos == 0 both effects see a complete (empty) list, the first
   * one after the countdown has shown its first value.
   */
  lemma SessionWithoutShots(n: int, d: int, color: Color, frames: seq<Frame>)
    requires n <= 0 && d >= 1 && |frames| == Iterations(n)
    ensures SessionTrace(n, d, color, frames)
      == [Reset, Tick(d)] + Recomposition(n == 0, [], color) + Countdown(d - 1)
         + [Publish(0)] + Recomposition(n == 0, [], color)
  {
  }

  lemma CountOfParts(a: seq<Event>, b: seq<Event>, c: seq<Event>, e: seq<Event>, kind: Kind)
    ensures CountOf(a + b + c + e, kind) == CountOf(a, kind) + CountOf(b, kind) + CountOf(c, kind) + CountOf(e, kind)
  {
    CountOfAppend(a, b, kind);
    CountOfAppend(a + b, c, kind);
    CountOfAppend(a + b + c, e, kind);
  }

  lemma CountOfSingle(e: Event, kind: Kind)
    ensures CountOf([e], kind) == if KindOf(e) == kind then 1 else 0
  {
    assert [e][..0] == [];
  }

  lemma CountOfRecomposition(complete: bool, images: seq<Frame>, color: Color, kind: Kind)
    ensures CountOf(Recomposition(complete, images, color), kind) == if complete && kind == RecomposeKind then 1 else 0
  {
    if complete {
      CountOfSingle(Recompose(images, color), kind);
    }
  }

  /** The count of a kind of event in a run, from the counts in its parts. */
  lemma SessionCount(n: int, d: int, color: Color, frames: seq<Frame>, kind: Kind)
    requires d >= 1 && |frames| == Iterations(n)
    ensures CountOf(SessionTrace(n, d, color, frames), kind)
      == (if kind == ResetKind then 1 else 0) + CountOf(Body(n, d), kind) + (if kind == PublishKind then 1 else 0)
         + (if kind == RecomposeKind then (if 0 == n then 1 else 0) + (if |frames| == n then 1 else 0) else 0)
  {
    CountOfParts([Reset], During(n, d, color), [Publish(|frames|)], Recomposition(|frames| == n, frames, color), kind);
    DuringCounts(n, d, color, kind);
    CountOfSingle(Reset, kind);
    CountOfSingle(Publish(|frames|), kind);
    CountOfRecomposition(0 == n, [], color, kind);
    CountOfRecomposition(|frames| == n, frames, color, kind);
  }

  /** A run shows numPhotos * d ticks; one that captures nothing still shows its first countdown. */
  lemma SessionTickCount(n: int, d: int, color: Color, frames: seq<Frame>)
    requires d >= 1 && |frames| == Iterations(n)
    ensures CountOf(SessionTrace(n, d, color, frames), TickKind) == if n >= 1 then n * d else d
  {
    SessionCount(n, d, color, frames, TickKind);
    if n >= 1 {
      BodyIsShots(n, d);
      ShotsTickCount(n, d);
    } else {
      BodyWithoutShots(n, d);
      CountdownCounts(d);
    }
  }

  lemma ShutterSingle(e: Event)
    ensures Shutter([e]) == if e.Capture? then [e.shot] else []
  {
    assert [e][..0] == [];
  }

  lemma ShutterParts(a: seq<Event>, b: seq<Event>, c: seq<Event>, e: seq<Event>)
    ensures Shutter(a + b + c + e) == Shutter(a) + Shutter(b) + Shutter(c) + Shutter(e)
  {
    ShutterAppend(a, b);
    ShutterAppend(a + b, c);
    ShutterAppend(a + b + c, e);
  }

  /** The captures of a run are those of its loops. */
  lemma SessionShutter(n: int, d: int, color: Color, frames: seq<Frame>)
    requires d >= 1 && |frames| == Iterations(n)
    ensures Shutter(SessionTrace(n, d, color, frames)) == Shutter(Body(n, d))
  {
    var r1 := Recomposition(|frames| == n, frames, color);
    ShutterParts([Reset], During(n, d, color), [Publish(|frames|)], r1);
    DuringShutter(n, d, color);
    ShutterSingle(Reset);
    ShutterSingle(Publish(|frames|));
    if |frames| == n {
      ShutterSingle(Recompose(frames, color));
    }
  }

  /** A run captures shots 0, 1, ..., numPhotos - 1 in this order, and nothing else. */
  lemma SessionCapturesInOrder(n: int, d: int, color: Color, frames: seq<Frame>)
    requires d >= 1 && |frames| == Iterations(n)
    ensures Shutter(SessionTrace(n, d, color, frames)) == seq(Iterations(n), i => i)
  {
    SessionShutter(n, d, color, frames);
    if n >= 1 {
      BodyIsShots(n, d);
      ShotsShutter(n, d);
    } else {
      BodyWithoutShots(n, d);
      CountdownCounts(d);
    }
  }

  /**
   * In a run, every capture comes right after a complete countdown
   * d, ..., 1, clear; before that countdown stands the previous capture, or
   * the reset for the first one. So there is a countdown between two shots.
   */
  lemma SessionCountdownBeforeEachCapture(n: int, d: int, color: Color, frames: seq<Frame>, idx: nat)
    requires d >= 1 && |frames| == Iterations(n)
    requires idx < |SessionTrace(n, d, color, frames)| && SessionTrace(n, d, color, frames)[idx].Capture?
    ensures var t, shot := SessionTrace(n, d, color, frames), SessionTrace(n, d, color, frames)[idx].shot;
      d + 2 <= idx && t[idx - d - 1..idx] == Countdown(d)
      && t[idx - d - 2] == if shot == 0 then Reset else Capture(shot - 1)
  {
    var t := SessionTrace(n, d, color, frames);
    if n >= 1 {
      SessionShape(n, d, color, frames);
      ShapedCaptureFollowsCountdown(t, n, d, color, frames, idx);
    } else {
      SessionCapturesInOrder(n, d, color, frames);
      CaptureInShutter(t, idx);
      assert false;
    }
  }

  lemma ShapedCaptureFollowsCountdown(t: seq<Event>, n: int, d: int, color: Color, frames: seq<Frame>, idx: nat)
    requires n >= 1 && d >= 1 && t == [Reset] + Shots(n, d) + [Publish(n), Recompose(frames, color)]
    requires idx < |t| && t[idx].Capture?
    ensures d + 2 <= idx && t[idx - d - 1..idx] == Countdown(d)
      && t[idx - d - 2] == if t[idx].shot == 0 then Reset else Capture(t[idx].shot - 1)
  {
    var sh := Shots(n, d);
    assert Iterations(d) == d;
    assert 1 <= idx <= |sh|;
    assert t[idx] == sh[idx - 1];
    CaptureFollowsCountdown(n, d, idx - 1);
    assert t[idx - d - 1..idx] == sh[idx - 1 - d - 1..idx - 1];
    if idx - d - 2 > 0 {
      assert t[idx - d - 2] == sh[idx - d - 3];
    }
  }

  /** Nothing but the publication and the recomposition follows the last capture: no countdown after the last shot. */
  lemma SessionEndsAtLastCapture(n: int, d: int, color: Color, frames: seq<Frame>)
    requires n >= 1 && d >= 1 && |frames| == Iterations(n)
    ensures var t := SessionTrace(n, d, color, frames);
      |t| >= 3 && t[|t| - 3..] == [Capture(n - 1), Publish(n), Recompose(frames, color)]
  {
    SessionShape(n, d, color, frames);
    var sh := Shots(n, d);
    assert sh == Shots(n - 1, d) + Countdown(d) + [Capture(n - 1)];
  }

  /** A capture at some position of a trace shows up in its shutter sequence. */
  lemma {:induction false} CaptureInShutter(t: seq<Event>, idx: nat)
    requires idx < |t| && t[idx].Capture?
    ensures |Shutter(t)| > 0
    decreases |t|
  {
    if idx < |t| - 1 {
      CaptureInShutter(t[..|t| - 1], idx);
    }
  }

  /**
   * The captured list is written twice in a run: cleared by the reset, which
   * is the first event, and set once to the complete list by the publication.
   * No partial list is ever published.
   */
  lemma SessionPublishesOnce(n: int, d: int, color: Color, frames: seq<Frame>)
    requires d >= 1 && |frames| == Iterations(n)
    ensures var t := SessionTrace(n, d, color, frames);
      t[0] == Reset && CountOf(t, ResetKind) == 1 && CountOf(t, PublishKind) == 1
  {
    BodyEvents(n, d);
    CountOfAbsent(Body(n, d), ResetKind);
    CountOfAbsent(Body(n, d), PublishKind);
    SessionCount(n, d, color, frames, ResetKind);
    SessionCount(n, d, color, frames, PublishKind);
  }

  /**
   * The publication carries the whole list of numPhotos frames (none for a
   * count below 1), and after it only the recomposition effect runs.
   */
  lemma SessionPublicationIsFinal(n: int, d: int, color: Color, frames: seq<Frame>, i: nat)
    requires d >= 1 && |frames| == Iterations(n)
    requires i < |SessionTrace(n, d, color, frames)| && SessionTrace(n, d, color, frames)[i].Publish?
    ensures var t := SessionTrace(n, d, color, frames);
      t[i].count == Iterations(n) && forall j :: i < j < |t| ==> t[j].Recompose?
  {
    var t := SessionTrace(n, d, color, frames);
    var head, r1 := [Reset] + During(n, d, color), Recomposition(|frames| == n, frames, color);
    DuringEvents(n, d, color);
    assert t == head + ([Publish(|frames|)] + r1);
    assert i == |head|;
  }

  /**
   * Each run reruns the recomposition effect twice, and `combineImages` is
   * called only with the current colour and a list of exactly numPhotos
   * frames: once for numPhotos > 0, twice for numPhotos == 0 (both with the
   * empty list), never for a negative count.
   */
  lemma SessionRecompositions(n: int, d: int, color: Color, frames: seq<Frame>)
    requires d >= 1 && |frames| == Iterations(n)
    ensures var t := SessionTrace(n, d, color, frames);
      CountOf(t, RecomposeKind) == (if n == 0 then 2 else if n > 0 then 1 else 0)
  {
    BodyEvents(n, d);
    CountOfAbsent(Body(n, d), RecomposeKind);
    SessionCount(n, d, color, frames, RecomposeKind);
  }

  /** Every recomposition of a run uses the current colour and exactly the numPhotos frames just published. */
  lemma SessionRecomposesCompleteList(n: int, d: int, color: Color, frames: seq<Frame>, i: nat)
    requires d >= 1 && |frames| == Iterations(n)
    requires i < |SessionTrace(n, d, color, frames)| && SessionTrace(n, d, color, frames)[i].Recompose?
    ensures var e := SessionTrace(n, d, color, frames)[i];
      |e.images| == n && e.color == color && e.images == frames
  {
    var t := SessionTrace(n, d, color, frames);
    var head, r1 := [Reset] + During(n, d, color), Recomposition(|frames| == n, frames, color);
    DuringEvents(n, d, color);
    assert t == head + [Publish(|frames|)] + r1;
    if 0 < i < |head| {
      assert t[i] == During(n, d, color)[i - 1];
    }
  }
}
