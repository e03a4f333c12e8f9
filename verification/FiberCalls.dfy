/** What the calls on fibers achieve. */
module FiberCalls {
  import opened Basics
  import opened Fibers

  // ------------------------------------------------------------------ one way

  /** The native code of a call, or of starting and leaving, is a straight line. */
  ghost function Successor(pc: Pc): Pc {
    match pc
    case Unstarted => Starting
    case Starting => Entering
    case Entering => Named
    case Named => Js
    case Waking(t) => Signalling(t)
    case Signalling(t) => Signalled(t)
    case Signalled(_) => Js
    case Suspending => Latched
    case Latched => Releasing
    case Releasing => Waiting
    case Waiting => Woken
    case Woken => Relatched
    case Relatched => Resuming
    case Resuming => Resumed
    case Resumed => Js
    case Joining(t, c) => Rejoining(t, c)
    case Rejoining(t, c) => Rejoined(t, c)
    case Rejoined(_, _) => Js
    case Leaving => Unregistered
    case Unregistered => Finished
    case _ => pc
  }

  lemma NativeFollows(s: State, f: nat)
    requires Shaped(s) && f < |s.pc| && Native(s, f).Some? && |Native(s, f).value.pc| == |s.pc|
    ensures Native(s, f).value.pc[f] in {s.pc[f], Successor(s.pc[f])}
  {
  }

  lemma NativeCount(s: State, f: nat)
    requires Shaped(s) && f < |s.pc| && Native(s, f).Some?
    ensures |Native(s, f).value.pc| == |s.pc|
  {
  }

  lemma StepFollows(s: State, f: nat, g: nat, a: Action)
    requires Shaped(s) && f < |s.pc| && g < |s.pc| && Step(s, g, a).Some?
    ensures var s' := Step(s, g, a).value;
            f < |s'.pc| && (s'.pc[f] == s.pc[f] || s'.pc[f] == Successor(s.pc[f]) || (s.pc[f].Js? && f == g))
  {
    StepFramed(s, g, a);
    if f != g {
      assert Nudged(s.pc[f], Step(s, g, a).value.pc[f]);
    } else if a.Advance? {
      NativeCount(s, f);
      NativeFollows(s, f);
    }
  }

  lemma RunFollows(run: seq<State>, i: nat, f: nat)
    requires IsRun(run) && i + 1 < |run| && f < |run[i].pc|
    ensures f < |run[i + 1].pc|
    ensures !run[i].pc[f].Js? ==> run[i + 1].pc[f] in {run[i].pc[f], Successor(run[i].pc[f])}
  {
    RunStep(run, i);
    var g: nat, a :| g < |run[i].pc| && Step(run[i], g, a) == Some(run[i + 1]);
    StepFollows(run[i], f, g, a);
  }

  lemma {:induction false} StillThere(run: seq<State>, i: nat, j: nat, f: nat)
    requires IsRun(run) && i <= j < |run| && f < |run[i].pc|
    ensures f < |run[j].pc|
    decreases j - i
  {
    if i < j {
      RunFollows(run, i, f);
      StillThere(run, i + 1, j, f);
    }
  }

  /** Fiber `f`, running JavaScript, makes the call `a` at `i`. */
  ghost predicate Makes(run: seq<State>, i: nat, f: nat, a: Action) {
    && IsRun(run) && i + 1 < |run| && Shaped(run[i]) && f < |run[i].pc| && !a.Advance? && !a.Spurious?
    && Step(run[i], f, a) == Some(run[i + 1])
  }

  ghost predicate InJs(s: State, f: nat) {
    f < |s.pc| && s.pc[f].Js?
  }

  /** The call that `f` made at `i` has returned at `j`, and not before. */
  ghost predicate Returns(run: seq<State>, i: nat, j: nat, f: nat) {
    i < j < |run| && InJs(run[j], f) && forall k :: i < k < j ==> !InJs(run[k], f)
  }

  ghost predicate Passing(run: seq<State>, k: nat, f: nat, p: Pc) {
    && k + 1 < |run| && f < |run[k].pc| && f < |run[k + 1].pc|
    && run[k].pc[f] == p && run[k + 1].pc[f] == Successor(p)
  }

  /** On its way back to JavaScript a fiber passes through every place of the line it is on. */
  lemma {:induction false} Passes(run: seq<State>, i: nat, j: nat, f: nat, p: Pc) returns (k: nat)
    requires IsRun(run) && i < j < |run| && f < |run[i].pc| && run[i].pc[f] == p && !p.Js?
    requires InJs(run[j], f)
    ensures i <= k < j && Passing(run, k, f, p)
    decreases j - i
  {
    RunFollows(run, i, f);
    if run[i + 1].pc[f] == Successor(p) {
      k := i;
    } else {
      k := Passes(run, i + 1, j, f, p);
    }
  }

  // ------------------------------------------------------------- becomeRunnable

  lemma {:induction false} CallingUntil(run: seq<State>, i: nat, j: nat, k: nat, f: nat, t: nat)
    requires IsRun(run) && i < k < j < |run| && Calling(run[i + 1], f, t) && Returns(run, i, j, f)
    ensures Calling(run[k], f, t)
    decreases k
  {
    if i + 1 < k {
      CallingUntil(run, i, j, k - 1, f, t);
      RunFollows(run, k - 1, f);
      RunFollows(run, k - 1, t);
      assert !InJs(run[k], f);
    }
  }

  /** When `becomeRunnable` returns, its target is not asleep; if it was going to sleep or asleep at the
      call, it is awake and only waits to run again. */
  lemma BecomeRunnableWakes(run: seq<State>, i: nat, j: nat, f: nat, t: nat)
    requires Makes(run, i, f, BecomeRunnable(t)) && Returns(run, i, j, f) && !run[i].pc[t].Unstarted?
    ensures t < |run[j].pc| && !Asleep(run[j].pc[t])
    ensures Dozing(run[i].pc[t]) ==> Dozing(run[j].pc[t])
  {
    assert run[i + 1].pc[f] == Waking(t) && t < |run[i + 1].pc|;
    assert i + 1 < j;
    CallingUntil(run, i, j, j - 1, f, t);
    CallOver(run, j - 1, f, t);
    if Dozing(run[i].pc[t]) {
      forall k | i + 1 <= k < j ensures Calling(run[k], f, t) {
        CallingUntil(run, i, j, k, f, t);
      }
      assert t != f ==> run[i + 1].pc[t] == run[i].pc[t];
      WakeUpIsNeverLost(run, i + 1, j, f, t);
    }
  }

  /** The last step of the call. */
  lemma CallOver(run: seq<State>, k: nat, f: nat, t: nat)
    requires IsRun(run) && k + 1 < |run| && Calling(run[k], f, t) && InJs(run[k + 1], f)
    ensures t < |run[k + 1].pc| && !Asleep(run[k + 1].pc[t])
  {
    RunInv(run, k);
    RunStep(run, k);
    var h: nat, a :| h < |run[k].pc| && Step(run[k], h, a) == Some(run[k + 1]);
    CallEnds(run[k], f, t, h, a);
  }

  /** On a fiber without a thread, `becomeRunnable` returns at once and leaves it wanting the V8 lock. */
  lemma BecomeRunnableStarts(run: seq<State>, i: nat, f: nat, t: nat)
    requires Makes(run, i, f, BecomeRunnable(t)) && run[i].pc[t].Unstarted?
    ensures InJs(run[i + 1], f) && t < |run[i + 1].pc| && run[i + 1].pc[t].Starting?
    ensures forall g :: 0 <= g < |run[i].pc| && g != t ==> g < |run[i + 1].pc| && run[i + 1].pc[g] == run[i].pc[g]
  {
  }

  /** Nothing else starts a fiber. */
  lemma {:induction false} OnlyBecomeRunnableStarts(run: seq<State>, i: nat, j: nat, t: nat) returns (k: nat, f: nat)
    requires IsRun(run) && i <= j < |run| && t < |run[i].pc| && run[i].pc[t].Unstarted?
    requires t < |run[j].pc| && !run[j].pc[t].Unstarted?
    ensures i <= k < j && Makes(run, k, f, BecomeRunnable(t)) && run[k].pc[t].Unstarted?
    decreases j - i
  {
    RunFollows(run, i, t);
    if run[i + 1].pc[t].Unstarted? {
      k, f := OnlyBecomeRunnableStarts(run, i + 1, j, t);
    } else {
      RunStep(run, i);
      var g: nat, a :| g < |run[i].pc| && Step(run[i], g, a) == Some(run[i + 1]);
      StepStarts(run[i], g, a, t);
      k, f := i, g;
    }
  }

  lemma StepStarts(s: State, g: nat, a: Action, t: nat)
    requires Shaped(s) && g < |s.pc| && t < |s.pc| && Step(s, g, a).Some? && s.pc[t].Unstarted?
    requires t < |Step(s, g, a).value.pc| && !Step(s, g, a).value.pc[t].Unstarted?
    ensures a == BecomeRunnable(t)
  {
  }

  // -------------------------------------------------------------------- suspend

  lemma CurrentInJs(run: seq<State>, j: nat, f: nat)
    requires IsRun(run) && j < |run| && InJs(run[j], f)
    ensures run[j].current == f
  {
    RunInv(run, j);
  }

  /** Fiber `f` is woken from its wait at `k`, by a signal of another fiber or spuriously. */
  ghost predicate WokenAt(run: seq<State>, k: nat, f: nat) {
    && k + 1 < |run| && Shaped(run[k]) && f < |run[k].pc| && run[k].pc[f].Waiting?
    && f < |run[k + 1].pc| && run[k + 1].pc[f].Woken?
    && (Step(run[k], f, Spurious) == Some(run[k + 1])
        || exists h: nat :: h < |run[k].pc| && run[k].pc[h] == Signalling(f) && Step(run[k], h, Advance) == Some(run[k + 1]))
  }

  lemma Awakens(run: seq<State>, k: nat, f: nat)
    requires IsRun(run) && Passing(run, k, f, Waiting)
    ensures WokenAt(run, k, f)
  {
    RunStep(run, k);
    var h: nat, a :| h < |run[k].pc| && Step(run[k], h, a) == Some(run[k + 1]);
    if h != f {
      StepFramed(run[k], h, a);
      AwakensOther(run[k], h, a, f);
    }
  }

  lemma AwakensOther(s: State, h: nat, a: Action, f: nat)
    requires Shaped(s) && h < |s.pc| && f < |s.pc| && h != f && s.pc[f].Waiting? && Step(s, h, a).Some?
    requires f < |Step(s, h, a).value.pc| && Step(s, h, a).value.pc[f].Woken?
    ensures a == Advance && s.pc[h] == Signalling(f)
  {
  }

  /** `suspend` returns only after the fiber has given up the V8 lock, slept, and been woken; then it is
      `Fiber.current` again. */
  lemma SuspendSleeps(run: seq<State>, i: nat, j: nat, f: nat) returns (down: nat, up: nat)
    requires Makes(run, i, f, Suspend) && Returns(run, i, j, f)
    ensures i < down < up < j && WokenAt(run, up, f)
    ensures f < |run[down].pc| && run[down].lock == Some(f) && run[down + 1].lock == None
    ensures run[j].current == f
  {
    assert run[i + 1].pc[f].Suspending?;
    hide Inv;
    hide Step;
    hide WokenAt;
    var k := Passes(run, i + 1, j, f, Suspending);
    down := Passes(run, k + 1, j, f, Latched);
    LetsGo(run, down, f);
    k := Passes(run, down + 1, j, f, Releasing);
    up := Passes(run, k + 1, j, f, Waiting);
    Awakens(run, up, f);
    CurrentInJs(run, j, f);
  }

  lemma LockOf(s: State, f: nat)
    requires Inv(s) && f < |s.pc|
    ensures HoldsLock(s.pc[f]) <==> s.lock == Some(f)
  {
  }

  lemma LetsGo(run: seq<State>, k: nat, f: nat)
    requires IsRun(run) && Passing(run, k, f, Latched)
    ensures run[k].lock == Some(f) && run[k + 1].lock == None
  {
    hide Inv;
    hide Step;
    RunInv(run, k);
    LockOf(run[k], f);
    RunStep(run, k);
    hide IsRun;
    var h: nat, a :| h < |run[k].pc| && Step(run[k], h, a) == Some(run[k + 1]);
    LatchedStep(run[k], h, a, f);
  }

  lemma LatchedStep(s: State, h: nat, a: Action, f: nat)
    requires Shaped(s) && h < |s.pc| && f < |s.pc| && Step(s, h, a).Some? && s.pc[f].Latched?
    requires f < |Step(s, h, a).value.pc| && Step(s, h, a).value.pc[f].Releasing?
    ensures Step(s, h, a).value.lock == None
  {
    StepFramed(s, h, a);
    assert h != f ==> Nudged(s.pc[f], Step(s, h, a).value.pc[f]);
  }

  // ----------------------------------------------------------------------- join

  lemma {:induction false} FinishedStays(run: seq<State>, i: nat, j: nat, t: nat)
    requires IsRun(run) && i <= j < |run| && t < |run[i].pc| && run[i].pc[t].Finished?
    ensures t < |run[j].pc| && run[j].pc[t].Finished?
    decreases j - i
  {
    if i < j {
      RunFollows(run, i, t);
      FinishedStays(run, i + 1, j, t);
    }
  }

  /** `join` gives up the V8 lock and returns only when its target has finished, unless the fiber joins
      itself; then it is `Fiber.current` again. */
  lemma JoinReturns(run: seq<State>, i: nat, j: nat, f: nat, t: nat)
    requires Makes(run, i, f, Join(t)) && Returns(run, i, j, f) && !run[i].pc[t].Unstarted?
    ensures run[i + 1].lock == None && i + 3 < j
    ensures t != f ==> t < |run[j].pc| && run[j].pc[t].Finished?
    ensures run[j].current == f
  {
    var c := run[i].current;
    assert run[i + 1].pc[f] == Joining(t, c);
    hide Inv;
    hide Step;
    var k := Passes(run, i + 1, j, f, Joining(t, c));
    k := Passes(run, k + 1, j, f, Rejoining(t, c));
    JoinWaitsForTarget(run, k + 1, f);
    if t != f {
      FinishedStays(run, k + 1, j, t);
    }
    CurrentInJs(run, j, f);
  }

  /** On a fiber without a thread, `join` raises an exception at once. */
  lemma JoinUnstarted(run: seq<State>, i: nat, f: nat, t: nat)
    requires Makes(run, i, f, Join(t)) && run[i].pc[t].Unstarted?
    ensures run[i + 1] == run[i]
  {
  }

  // ------------------------------------------------------------ return and new

  ghost predicate Over(s: State, f: nat) {
    f < |s.pc| && (s.pc[f].Leaving? || s.pc[f].Unregistered? || s.pc[f].Finished?)
  }

  /** A fiber whose function has returned never runs JavaScript again; the main fiber does not return. */
  lemma {:induction false} ReturnIsFinal(run: seq<State>, i: nat, j: nat, f: nat)
    requires Makes(run, i, f, Return) && i < j < |run|
    ensures f != 0 && Over(run[j], f)
    decreases j
  {
    if i + 1 < j {
      ReturnIsFinal(run, i, j - 1, f);
      RunFollows(run, j - 1, f);
    }
  }

  /** A new fiber comes after all others, which stay as they are, and has no thread. */
  lemma NewIsUnstarted(run: seq<State>, i: nat, f: nat)
    requires Makes(run, i, f, New)
    ensures var s, s' := run[i], run[i + 1];
            && |s'.pc| == |s.pc| + 1 && s'.pc[|s.pc|].Unstarted? && (forall g :: 0 <= g < |s.pc| ==> s'.pc[g] == s.pc[g])
            && s'.lock == s.lock && s'.current == s.current && s'.registry == s.registry
            && |s'.mutex| == |s'.pc| && s'.mutex[|s.pc|] == None
  {
  }

  /** Which calls can be made: on any fiber that exists and is not finished, and to return, from any fiber
      but the main one. A fiber can wake spuriously whenever it waits. */
  lemma CallPossibleIff(s: State, f: nat, a: Action)
    requires Inv(s) && f < |s.pc| && !a.Advance?
    ensures Step(s, f, a).Some? <==>
              if a.Spurious? then s.pc[f].Waiting?
              else
                && s.pc[f].Js?
                && (a.BecomeRunnable? || a.Join? ==> a.target < |s.pc| && !s.pc[a.target].Finished?)
                && (a.Return? ==> f != 0)
  {
  }

  // ------------------------------------------------------------------ by itself

  /** `n` steps of the native code of `f` with no step of another fiber between them. */
  ghost function Solo(s: State, f: nat, n: nat): Option<State>
    requires Shaped(s) && f < |s.pc|
    decreases n
  {
    if n == 0 then Some(s)
    else if Native(s, f) == None then None
    else
      NativeShaped(s, f);
      Solo(Native(s, f).value, f, n - 1)
  }

  lemma NativeShaped(s: State, f: nat)
    requires Shaped(s) && f < |s.pc| && Native(s, f).Some?
    ensures Shaped(Native(s, f).value) && |Native(s, f).value.pc| == |s.pc|
  {
    StepFramed(s, f, Advance);
    NativeCount(s, f);
    NativeFollows(s, f);
  }

  /** No other fiber holds the V8 lock or a mutex. */
  ghost predicate Undisturbed(s: State, f: nat) {
    s.lock in {None, Some(f)} && forall m :: 0 <= m < |s.mutex| ==> s.mutex[m] in {None, Some(f)}
  }

  /** Where the native code waits for another fiber, and where it ends. */
  ghost predicate Stops(s: State, f: nat)
    requires f < |s.pc|
  {
    match s.pc[f]
    case Unstarted | Js | Waiting | Finished => true
    case Joining(t, _) => t != f && !(t < |s.pc| && s.pc[t].Finished?)
    case _ => false
  }

  /** How far the native code is from where it stops. */
  ghost function Left(pc: Pc): nat {
    match pc
    case Woken => 4
    case Starting | Waking(_) | Suspending | Relatched | Joining(_, _) => 3
    case Entering | Signalling(_) | Latched | Resuming | Rejoining(_, _) | Leaving => 2
    case Named | Signalled(_) | Releasing | Resumed | Rejoined(_, _) | Unregistered => 1
    case _ => 0
  }

  /** The place where the native code stops when it is not held up. */
  ghost function Stop(pc: Pc): Pc {
    match pc
    case Suspending | Latched | Releasing => Waiting
    case Leaving | Unregistered => Finished
    case Unstarted | Waiting | Finished => pc
    case _ => Js
  }

  lemma SoloStep(s: State, f: nat)
    requires Inv(s) && f < |s.pc| && Undisturbed(s, f) && !Stops(s, f)
    ensures Native(s, f).Some?
    ensures var s' := Native(s, f).value;
            && f < |s'.pc| && s'.pc[f] == Successor(s.pc[f])
            && Left(s.pc[f]) == Left(s'.pc[f]) + 1 && Stop(s.pc[f]) == Stop(s'.pc[f])
  {
    assert TargetOk(s, f);
    assert HoldsLock(s.pc[f]) <==> s.lock == Some(f);
    assert forall m: nat :: HoldsMutex(s, f, m) <==> m < |s.mutex| && s.mutex[m] == Some(f);
    NativeMoves(s, f);
    OneLeft(s.pc[f]);
    hide Native;
    hide Inv;
    hide Undisturbed;
    hide HoldsMutex;
    hide Left;
    hide Stop;
    hide Successor;
  }

  lemma OneLeft(pc: Pc)
    requires !pc.Unstarted? && !pc.Js? && !pc.Waiting? && !pc.Finished?
    ensures Left(pc) == Left(Successor(pc)) + 1 && Stop(pc) == Stop(Successor(pc))
  {
  }

  lemma NativeMoves(s: State, f: nat)
    requires Shaped(s) && f < |s.pc| && Undisturbed(s, f) && !Stops(s, f) && TargetOk(s, f)
    requires HoldsLock(s.pc[f]) <==> s.lock == Some(f)
    requires forall m: nat :: HoldsMutex(s, f, m) <==> m < |s.mutex| && s.mutex[m] == Some(f)
    ensures Native(s, f).Some? && |Native(s, f).value.pc| == |s.pc| && Native(s, f).value.pc[f] == Successor(s.pc[f])
  {
  }

  lemma SoloUndisturbed(s: State, f: nat)
    requires Inv(s) && f < |s.pc| && Undisturbed(s, f) && Native(s, f).Some?
    ensures Inv(Native(s, f).value) && Undisturbed(Native(s, f).value, f)
  {
    StepInv(s, f, Advance);
    StepFramed(s, f, Advance);
    assert HoldsLock(s.pc[f]) <==> s.lock == Some(f);
    assert TargetOk(s, f);
    assert forall m: nat :: HoldsMutex(s, f, m) <==> m < |s.mutex| && s.mutex[m] == Some(f);
    NativeCount(s, f);
    NativeFollows(s, f);
    StepLockEffect(s, f, Advance);
    StepMutexEffect(s, f, Advance);
    var s' := Native(s, f).value;
    assert Step(s, f, Advance) == Some(s');
    hide Inv;
    hide Native;
    hide HoldsMutex;
    hide HoldsLock;
    hide TargetOk;
    forall m | 0 <= m < |s'.mutex| ensures s'.mutex[m] in {None, Some(f)} {
      assert s.mutex[m] in {None, Some(f)};
    }
  }

  /** Nothing but other fibers holds a fiber up: while they hold no lock and no mutex, its own steps bring
      it from wherever it is to JavaScript, to its wait, or to its end, in at most four steps. */
  lemma {:induction false} SoloArrives(s: State, f: nat)
    requires Inv(s) && f < |s.pc| && Undisturbed(s, f) && !Stops(s, f)
    ensures Left(s.pc[f]) <= 4
    ensures var end := Solo(s, f, Left(s.pc[f]));
            end.Some? && Inv(end.value) && f < |end.value.pc| && end.value.pc[f] == Stop(s.pc[f])
    decreases Left(s.pc[f])
  {
    SoloStep(s, f);
    SoloUndisturbed(s, f);
    var s' := Native(s, f).value;
    hide Inv;
    hide Native;
    if !Stops(s', f) {
      SoloArrives(s', f);
    } else {
      assert Solo(s', f, 0) == Some(s');
    }
  }

  /** Back in JavaScript, a fiber holds the V8 lock, is `Fiber.current` and is registered: so also one
      whose thread has just been created. */
  lemma ArrivesInJs(s: State, f: nat)
    requires Inv(s) && f < |s.pc| && Undisturbed(s, f) && !Stops(s, f) && Stop(s.pc[f]).Js?
    ensures var end := Solo(s, f, Left(s.pc[f]));
            && end.Some? && InJs(end.value, f)
            && end.value.lock == Some(f) && end.value.current == f && f in end.value.registry.Values
  {
    SoloArrives(s, f);
    hide Solo;
    var e := Solo(s, f, Left(s.pc[f])).value;
    assert HoldsLock(e.pc[f]) <==> e.lock == Some(f);
    assert e.localId[f] in e.registry && e.registry[e.localId[f]] == f;
  }
}
