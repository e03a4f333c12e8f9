/** The fiber protocol as atomic steps, for any number of fibers and any interleaving. */
module Fibers {
  import opened Basics

  // The state holds one V8 lock, one mutex and condition per fiber, the global `Fiber.current` and the
  // registry of running fibers. Fiber 0 is the main fiber.

  /** Where a fiber's thread stands between two atomic steps. */
  datatype Pc =
    | Unstarted                                   // constructed, no thread yet
    | Starting                                    // thread created, wants the V8 lock
    | Entering                                    // has the V8 lock
    | Named                                       // has become `Fiber.current`
    | Js                                          // runs JavaScript
    | Waking(target: nat)                         // becomeRunnable: wants the target's mutex
    | Signalling(target: nat)                     // holds it
    | Signalled(target: nat)                      // has signalled, still holds it
    | Suspending                                  // suspend: wants its own mutex
    | Latched                                     // holds its mutex and the V8 lock
    | Releasing                                   // has released the V8 lock, holds its mutex
    | Waiting                                     // waits on its condition
    | Woken                                       // wants its mutex back
    | Relatched                                   // holds its mutex
    | Resuming                                    // wants the V8 lock
    | Resumed                                     // has the V8 lock
    | Joining(target: nat, caller: nat)           // join: has released the V8 lock
    | Rejoining(target: nat, caller: nat)         // target over, wants the V8 lock
    | Rejoined(target: nat, caller: nat)          // has the V8 lock
    | Leaving                                     // the fiber's function has returned
    | Unregistered                                // no longer in the registry
    | Finished

  datatype State = State(
    pc: seq<Pc>,
    localId: seq<nat>,
    lock: Option<nat>,
    mutex: seq<Option<nat>>,
    current: nat,
    registry: map<nat, nat>,
    created: nat)

  /** What a fiber does next: a choice of its script, the next step of the native code it is in, or
      a spurious wake-up. */
  datatype Action =
    | New
    | BecomeRunnable(target: nat)
    | Suspend
    | Join(target: nat)
    | Return
    | Advance
    | Spurious

  function Init(): State {
    State([Js], [0], Some(0), [None], 0, map[0 := 0], 1)
  }

  function Goto(s: State, f: nat, pc: Pc): State
    requires f < |s.pc|
  {
    s.(pc := s.pc[f := pc])
  }

  /** The step `a` of fiber `f`, or None when it is blocked or not possible there. Calls on a
      finished fiber are outside the protocol. */
  function Step(s: State, f: nat, a: Action): Option<State>
    requires Shaped(s) && f < |s.pc|
  {
    match a
    case Advance => Native(s, f)
    case Spurious => if s.pc[f] == Waiting then Some(Goto(s, f, Woken)) else None
    case _ => if s.pc[f] == Js then Script(s, f, a) else None
  }

  function Script(s: State, f: nat, a: Action): Option<State>
    requires Shaped(s) && f < |s.pc|
  {
    match a
    case New =>
      Some(s.(pc := s.pc + [Unstarted], localId := s.localId + [0], mutex := s.mutex + [None]))
    case BecomeRunnable(t) =>
      if t >= |s.pc| || s.pc[t] == Finished then None
      else if s.pc[t] == Unstarted then Some(Goto(s, t, Starting))
      else Some(Goto(s, f, Waking(t)))
    case Suspend => Some(Goto(s, f, Suspending))
    case Join(t) =>
      if t >= |s.pc| || s.pc[t] == Finished then None
      else if s.pc[t] == Unstarted then Some(s)                 // raises a JS error
      else Some(Goto(s, f, Joining(t, s.current)).(lock := None))
    case Return => if f == 0 then None else Some(Goto(s, f, Leaving))
    case _ => None
  }

  function Native(s: State, f: nat): Option<State>
    requires Shaped(s) && f < |s.pc|
  {
    match s.pc[f]
    case Starting => TakeLock(s, f, Entering)
    case Entering => Some(Goto(s, f, Named).(current := f))
    case Named =>
      Some(Goto(s, f, Js).(localId := s.localId[f := s.created], registry := s.registry[s.created := f],
                           created := s.created + 1))
    case Waking(t) => TakeMutex(s, f, t, Signalling(t))
    case Signalling(t) =>
      if t < |s.pc| && s.pc[t] == Waiting then Some(Goto(Goto(s, t, Woken), f, Signalled(t)))
      else Some(Goto(s, f, Signalled(t)))
    case Signalled(t) => DropMutex(s, f, t, Js)
    case Suspending => TakeMutex(s, f, f, Latched)
    case Latched => Some(Goto(s, f, Releasing).(lock := None))
    case Releasing => DropMutex(s, f, f, Waiting)
    case Woken => TakeMutex(s, f, f, Relatched)
    case Relatched => DropMutex(s, f, f, Resuming)
    case Resuming => TakeLock(s, f, Resumed)
    case Resumed => Some(Goto(s, f, Js).(current := f))
    case Joining(t, c) =>
      if t == f || (t < |s.pc| && s.pc[t] == Finished) then Some(Goto(s, f, Rejoining(t, c))) else None
    case Rejoining(t, c) => TakeLock(s, f, Rejoined(t, c))
    case Rejoined(_, c) => Some(Goto(s, f, Js).(current := c))
    case Leaving => Some(Goto(s, f, Unregistered).(registry := s.registry - {s.localId[f]}))
    case Unregistered => Some(Goto(s, f, Finished).(lock := None))
    case _ => None
  }

  function TakeLock(s: State, f: nat, pc: Pc): Option<State>
    requires f < |s.pc|
  {
    if s.lock == None then Some(Goto(s, f, pc).(lock := Some(f))) else None
  }

  function TakeMutex(s: State, f: nat, m: nat, pc: Pc): Option<State>
    requires f < |s.pc|
  {
    if m < |s.mutex| && s.mutex[m] == None then Some(Goto(s, f, pc).(mutex := s.mutex[m := Some(f)])) else None
  }

  function DropMutex(s: State, f: nat, m: nat, pc: Pc): Option<State>
    requires f < |s.pc|
  {
    if m < |s.mutex| then Some(Goto(s, f, pc).(mutex := s.mutex[m := None])) else None
  }

  // --------------------------------------------------------------- invariant

  ghost predicate Shaped(s: State) {
    |s.pc| == |s.localId| == |s.mutex|
  }

  ghost predicate HoldsLock(pc: Pc) {
    pc.Entering? || pc.Named? || pc.Js? || pc.Waking? || pc.Signalling? || pc.Signalled? || pc.Suspending?
    || pc.Latched? || pc.Resumed? || pc.Rejoined? || pc.Leaving? || pc.Unregistered?
  }

  /** JavaScript, or native code it has called, runs on the fiber. */
  ghost predicate RunsJs(pc: Pc) {
    HoldsLock(pc) && !pc.Entering? && !pc.Resumed? && !pc.Rejoined?
  }

  ghost predicate HoldsMutex(s: State, f: nat, m: nat)
    requires f < |s.pc|
  {
    s.pc[f] == Signalling(m) || s.pc[f] == Signalled(m)
    || (f == m && (s.pc[f].Latched? || s.pc[f].Releasing? || s.pc[f].Relatched?))
  }

  /** Started executing and not yet finished. */
  ghost predicate Running(pc: Pc) {
    !pc.Unstarted? && !pc.Starting? && !pc.Entering? && !pc.Named? && !pc.Unregistered? && !pc.Finished?
  }

  ghost predicate Asleep(pc: Pc) {
    pc.Releasing? || pc.Waiting?
  }

  ghost predicate LockInv(s: State) {
    && (forall f :: 0 <= f < |s.pc| ==> (HoldsLock(s.pc[f]) <==> s.lock == Some(f)))
    && (s.lock.Some? ==> s.lock.value < |s.pc|)
  }

  ghost predicate MutexInv(s: State)
    requires Shaped(s)
  {
    && (forall f: nat, m: nat :: f < |s.pc| ==> (HoldsMutex(s, f, m) <==> m < |s.mutex| && s.mutex[m] == Some(f)))
    && (forall m :: 0 <= m < |s.mutex| && s.mutex[m].Some? ==> s.mutex[m].value < |s.pc|)
  }

  ghost predicate CurrentInv(s: State) {
    forall f :: 0 <= f < |s.pc| ==>
      && (RunsJs(s.pc[f]) ==> s.current == f)
      && (s.pc[f].Joining? || s.pc[f].Rejoining? || s.pc[f].Rejoined? ==> s.pc[f].caller == f)
  }

  ghost predicate RegistryInv(s: State)
    requires Shaped(s)
  {
    && (forall f :: 0 <= f < |s.pc| && Running(s.pc[f]) ==> s.localId[f] in s.registry && s.registry[s.localId[f]] == f)
    && (forall id :: id in s.registry ==>
          id < s.created && s.registry[id] < |s.pc| && Running(s.pc[s.registry[id]]) && s.localId[s.registry[id]] == id)
  }

  ghost predicate TargetInv(s: State) {
    forall f :: 0 <= f < |s.pc| ==> TargetOk(s, f)
  }

  /** A fiber being woken exists and is neither unstarted nor finished; once signalled it is not
      asleep; a join goes on only after its target is over. */
  ghost predicate TargetOk(s: State, f: nat)
    requires f < |s.pc|
  {
    && (s.pc[f].Waking? || s.pc[f].Signalling? || s.pc[f].Signalled? ==>
          s.pc[f].target < |s.pc| && !s.pc[s.pc[f].target].Finished? && !s.pc[s.pc[f].target].Unstarted?)
    && (s.pc[f].Signalled? ==> !Asleep(s.pc[s.pc[f].target]))
    && (s.pc[f].Rejoining? || s.pc[f].Rejoined? ==>
          s.pc[f].target == f || (s.pc[f].target < |s.pc| && s.pc[s.pc[f].target].Finished?))
  }

  ghost predicate Inv(s: State) {
    && Shaped(s) && LockInv(s) && MutexInv(s) && CurrentInv(s) && RegistryInv(s) && TargetInv(s)
    && |s.pc| > 0 && !s.pc[0].Leaving? && !s.pc[0].Unregistered? && !s.pc[0].Finished?
  }

  lemma InitInv()
    ensures Inv(Init()) && Init().created == |Init().pc| == 1
  {
  }

  /** What a step of another fiber can do to a fiber's program counter. */
  ghost predicate Nudged(p: Pc, q: Pc) {
    p == q || (p.Unstarted? && q.Starting?) || (p.Waiting? && q.Woken?)
  }

  /** Everything but the stepping fiber stays as it is, apart from nudges and a new fiber. */
  ghost predicate Framed(s: State, s': State, f: nat) {
    && Shaped(s) && f < |s.pc| && Shaped(s')
    && |s.pc| <= |s'.pc| <= |s.pc| + 1
    && (forall g :: 0 <= g < |s.pc| && g != f ==> Nudged(s.pc[g], s'.pc[g]))
    && (forall g :: 0 <= g < |s.pc| && g != f ==> s'.localId[g] == s.localId[g])
    && (|s'.pc| > |s.pc| ==> s'.pc[|s.pc|].Unstarted? && s'.mutex[|s.pc|] == None)
  }

  lemma StepFramed(s: State, f: nat, a: Action)
    requires Shaped(s) && f < |s.pc| && Step(s, f, a).Some?
    ensures Framed(s, Step(s, f, a).value, f)
  {
  }

  /** How a step changes the V8 lock, and who then holds it. */
  lemma StepLockEffect(s: State, f: nat, a: Action)
    requires Shaped(s) && f < |s.pc| && Step(s, f, a).Some?
    requires HoldsLock(s.pc[f]) <==> s.lock == Some(f)
    ensures var s' := Step(s, f, a).value;
            && |s'.pc| > f
            && (s'.lock == s.lock || (s.lock == Some(f) && s'.lock == None) || (s.lock == None && s'.lock == Some(f)))
            && (HoldsLock(s'.pc[f]) <==> s'.lock == Some(f))
  {
  }

  lemma StepLock(s: State, f: nat, a: Action)
    requires Inv(s) && f < |s.pc| && Step(s, f, a).Some?
    ensures LockInv(Step(s, f, a).value)
  {
    StepFramed(s, f, a);
    StepLockEffect(s, f, a);
    var s' := Step(s, f, a).value;
    LockFramed(s, s', f);
  }

  lemma LockFramed(s: State, s': State, f: nat)
    requires LockInv(s) && Framed(s, s', f)
    requires s'.lock == s.lock || (s.lock == Some(f) && s'.lock == None) || (s.lock == None && s'.lock == Some(f))
    requires HoldsLock(s'.pc[f]) <==> s'.lock == Some(f)
    ensures LockInv(s')
  {
  }

  /** The only mutex a step can change, and the only fiber whose holding changes, is `m` and `f`. */
  ghost predicate MutexEffect(s: State, s': State, f: nat, m: nat)
    requires Framed(s, s', f)
  {
    && m < |s.pc|
    && (forall k :: 0 <= k < |s.pc| && k != m ==> s'.mutex[k] == s.mutex[k])
    && (forall k: nat :: k != m ==> (HoldsMutex(s', f, k) <==> HoldsMutex(s, f, k)))
    && (s'.mutex[m] == s.mutex[m] || (s.mutex[m] == Some(f) && s'.mutex[m] == None)
                                  || (s.mutex[m] == None && s'.mutex[m] == Some(f)))
    && (HoldsMutex(s', f, m) <==> s'.mutex[m] == Some(f))
  }

  function MutexOf(pc: Pc, f: nat): nat {
    if pc.Waking? || pc.Signalling? || pc.Signalled? then pc.target else f
  }

  lemma StepMutexEffect(s: State, f: nat, a: Action)
    requires Shaped(s) && f < |s.pc| && Step(s, f, a).Some? && Framed(s, Step(s, f, a).value, f)
    requires MutexOf(s.pc[f], f) < |s.pc|
    requires forall m: nat :: HoldsMutex(s, f, m) <==> m < |s.mutex| && s.mutex[m] == Some(f)
    ensures MutexEffect(s, Step(s, f, a).value, f, MutexOf(s.pc[f], f))
  {
    if a.Advance? {
      NativeMutexEffect(s, f);
    } else {
      ScriptMutexEffect(s, f, a);
    }
  }

  lemma NativeMutexEffect(s: State, f: nat)
    requires Shaped(s) && f < |s.pc| && Native(s, f).Some? && Framed(s, Native(s, f).value, f)
    requires MutexOf(s.pc[f], f) < |s.pc|
    requires forall m: nat :: HoldsMutex(s, f, m) <==> m < |s.mutex| && s.mutex[m] == Some(f)
    ensures MutexEffect(s, Native(s, f).value, f, MutexOf(s.pc[f], f))
  {
    hide Framed;
    hide Nudged;
  }

  lemma ScriptMutexEffect(s: State, f: nat, a: Action)
    requires Shaped(s) && f < |s.pc| && Step(s, f, a).Some? && Framed(s, Step(s, f, a).value, f)
    requires !a.Advance?
    requires forall m: nat :: HoldsMutex(s, f, m) <==> m < |s.mutex| && s.mutex[m] == Some(f)
    ensures MutexEffect(s, Step(s, f, a).value, f, MutexOf(s.pc[f], f))
  {
  }

  lemma MutexFramed(s: State, s': State, f: nat, m: nat)
    requires Framed(s, s', f) && MutexInv(s) && MutexEffect(s, s', f, m)
    ensures MutexInv(s')
  {
    forall g: nat, k: nat | g < |s'.pc|
      ensures HoldsMutex(s', g, k) <==> k < |s'.mutex| && s'.mutex[k] == Some(g)
    {
      if g == |s.pc| {
        assert !HoldsMutex(s', g, k);
      } else if g != f {
        assert Nudged(s.pc[g], s'.pc[g]);
        assert HoldsMutex(s', g, k) <==> HoldsMutex(s, g, k);
      }
    }
  }

  lemma StepMutex(s: State, f: nat, a: Action)
    requires Inv(s) && f < |s.pc| && Step(s, f, a).Some?
    ensures Shaped(Step(s, f, a).value) && MutexInv(Step(s, f, a).value)
  {
    StepFramed(s, f, a);
    assert TargetOk(s, f);
    StepMutexEffect(s, f, a);
    MutexFramed(s, Step(s, f, a).value, f, MutexOf(s.pc[f], f));
  }

  /** `current` is set by the stepping fiber alone, and only while it holds the lock. */
  lemma StepCurrentEffect(s: State, f: nat, a: Action)
    requires Shaped(s) && f < |s.pc| && Step(s, f, a).Some? && Framed(s, Step(s, f, a).value, f)
    requires RunsJs(s.pc[f]) ==> s.current == f
    requires s.pc[f].Joining? || s.pc[f].Rejoining? || s.pc[f].Rejoined? ==> s.pc[f].caller == f
    ensures CurrentEffect(s, Step(s, f, a).value, f)
  {
    if a.Advance? {
      NativeCurrentEffect(s, f);
    }
  }

  ghost predicate CurrentEffect(s: State, s': State, f: nat)
    requires Framed(s, s', f)
  {
    && (s'.current == s.current || (s'.current == f && HoldsLock(s.pc[f])))
    && (RunsJs(s'.pc[f]) ==> s'.current == f)
    && (s'.pc[f].Joining? || s'.pc[f].Rejoining? || s'.pc[f].Rejoined? ==> s'.pc[f].caller == f)
  }

  lemma NativeCurrentEffect(s: State, f: nat)
    requires Shaped(s) && f < |s.pc| && Native(s, f).Some? && Framed(s, Native(s, f).value, f)
    requires RunsJs(s.pc[f]) ==> s.current == f
    requires s.pc[f].Joining? || s.pc[f].Rejoining? || s.pc[f].Rejoined? ==> s.pc[f].caller == f
    ensures CurrentEffect(s, Native(s, f).value, f)
  {
    hide Framed;
    hide Nudged;
  }

  lemma CurrentFramed(s: State, s': State, f: nat)
    requires Framed(s, s', f) && CurrentInv(s) && LockInv(s) && CurrentEffect(s, s', f)
    ensures CurrentInv(s')
  {
    forall g | 0 <= g < |s'.pc|
      ensures (RunsJs(s'.pc[g]) ==> s'.current == g)
              && (s'.pc[g].Joining? || s'.pc[g].Rejoining? || s'.pc[g].Rejoined? ==> s'.pc[g].caller == g)
    {
      if g < |s.pc| && g != f {
        assert Nudged(s.pc[g], s'.pc[g]);
        assert HoldsLock(s.pc[g]) <==> s.lock == Some(g);
        assert HoldsLock(s.pc[f]) <==> s.lock == Some(f);
      }
    }
  }

  lemma StepCurrent(s: State, f: nat, a: Action)
    requires Inv(s) && f < |s.pc| && Step(s, f, a).Some?
    ensures CurrentInv(Step(s, f, a).value)
  {
    StepFramed(s, f, a);
    StepCurrentEffect(s, f, a);
    CurrentFramed(s, Step(s, f, a).value, f);
  }

  /** The stepping fiber gains an entry on starting, drops it on leaving, and keeps it otherwise. */
  ghost predicate RegistryEffect(s: State, s': State, f: nat)
    requires Framed(s, s', f)
  {
    if s.pc[f].Named? then
      s'.registry == s.registry[s.created := f] && s'.created == s.created + 1 && s'.localId[f] == s.created
      && Running(s'.pc[f])
    else if s.pc[f].Leaving? then
      s'.registry == s.registry - {s.localId[f]} && s'.created == s.created && s'.localId[f] == s.localId[f]
      && !Running(s'.pc[f])
    else
      s'.registry == s.registry && s'.created == s.created && s'.localId[f] == s.localId[f]
      && (Running(s'.pc[f]) <==> Running(s.pc[f]))
  }

  lemma StepRunning(s: State, f: nat, a: Action)
    requires Shaped(s) && f < |s.pc| && Step(s, f, a).Some? && |Step(s, f, a).value.pc| > f
    ensures var q := Step(s, f, a).value.pc[f];
            if s.pc[f].Named? then Running(q) else if s.pc[f].Leaving? then !Running(q) else Running(q) <==> Running(s.pc[f])
  {
  }

  lemma StepRegistryEffect(s: State, f: nat, a: Action)
    requires Shaped(s) && f < |s.pc| && Step(s, f, a).Some? && Framed(s, Step(s, f, a).value, f)
    ensures RegistryEffect(s, Step(s, f, a).value, f)
  {
    StepRunning(s, f, a);
    var p := s.pc[f];
    if !p.Named? && !p.Leaving? {
      StepKeepsRegistry(s, f, a);
    }
  }

  lemma StepKeepsRegistry(s: State, f: nat, a: Action)
    requires Shaped(s) && f < |s.pc| && Step(s, f, a).Some? && !s.pc[f].Named? && !s.pc[f].Leaving?
    ensures var s' := Step(s, f, a).value;
            s'.registry == s.registry && s'.created == s.created && |s'.localId| > f && s'.localId[f] == s.localId[f]
  {
  }

  lemma RegistryFramed(s: State, s': State, f: nat)
    requires Framed(s, s', f) && RegistryInv(s) && RegistryEffect(s, s', f)
    ensures RegistryInv(s')
  {
    forall g | 0 <= g < |s'.pc| && Running(s'.pc[g])
      ensures s'.localId[g] in s'.registry && s'.registry[s'.localId[g]] == g
    {
      assert g < |s.pc|;
      if g != f {
        assert Nudged(s.pc[g], s'.pc[g]);
      }
    }
  }

  lemma StepRegistry(s: State, f: nat, a: Action)
    requires Inv(s) && f < |s.pc| && Step(s, f, a).Some?
    ensures Shaped(Step(s, f, a).value) && RegistryInv(Step(s, f, a).value)
  {
    StepFramed(s, f, a);
    StepRegistryEffect(s, f, a);
    RegistryFramed(s, Step(s, f, a).value, f);
  }

  // ----------------------------------------------------- targets of wake-ups and joins

  lemma StepTargetOwn(s: State, f: nat, a: Action)
    requires Shaped(s) && f < |s.pc| && Step(s, f, a).Some? && Framed(s, Step(s, f, a).value, f)
    requires TargetOk(s, f)
    requires s.pc[f].Signalling? && s.pc[f].target < |s.pc| ==> !s.pc[s.pc[f].target].Releasing?
    ensures TargetOk(Step(s, f, a).value, f)
  {
    var p, q := s.pc[f], Step(s, f, a).value.pc[f];
    if !p.Js? && !p.Waking? && !p.Signalling? && !p.Joining? && !p.Rejoining? {
      StepForgets(s, f, a);
    }
  }

  lemma StepForgets(s: State, f: nat, a: Action)
    requires Shaped(s) && f < |s.pc| && Step(s, f, a).Some? && |Step(s, f, a).value.pc| > f
    requires var p := s.pc[f]; !p.Js? && !p.Waking? && !p.Signalling? && !p.Joining? && !p.Rejoining?
    ensures var q := Step(s, f, a).value.pc[f];
            !q.Waking? && !q.Signalling? && !q.Signalled? && !q.Rejoining? && !q.Rejoined?
  {
  }

  function TargetOf(pc: Pc): Option<nat> {
    if pc.Waking? || pc.Signalling? || pc.Signalled? || pc.Rejoining? || pc.Rejoined? then Some(pc.target) else None
  }

  /** A target neither finishes nor falls asleep while another fiber, holding the V8 lock and the
      target's mutex, is waking it. */
  lemma StepTargetOther(s: State, f: nat, a: Action, g: nat)
    requires Inv(s) && f < |s.pc| && g < |s.pc| && g != f && Step(s, f, a).Some?
    requires Framed(s, Step(s, f, a).value, f)
    ensures TargetOk(Step(s, f, a).value, g)
  {
    var s' := Step(s, f, a).value;
    assert TargetOk(s, g) && Nudged(s.pc[g], s'.pc[g]);
    var t := TargetOf(s.pc[g]);
    if t == Some(f) {
      assert HoldsLock(s.pc[g]) <==> s.lock == Some(g);
      assert HoldsLock(s.pc[f]) <==> s.lock == Some(f);
      assert HoldsMutex(s, g, f) <==> s.mutex[f] == Some(g);
      hide *;
      TargetSteps(s, f, a, g);
    } else {
      assert t.Some? && t.value < |s.pc| ==> Nudged(s.pc[t.value], s'.pc[t.value]);
      hide *;
      TargetNudged(s, s', g);
    }
  }

  lemma TargetNudged(s: State, s': State, g: nat)
    requires g < |s.pc| <= |s'.pc| && TargetOk(s, g) && Nudged(s.pc[g], s'.pc[g])
    requires var t := TargetOf(s.pc[g]); t.Some? && t.value < |s.pc| ==> Nudged(s.pc[t.value], s'.pc[t.value])
    ensures TargetOk(s', g)
  {
  }

  /** The target itself steps. */
  lemma TargetSteps(s: State, f: nat, a: Action, g: nat)
    requires Shaped(s) && f < |s.pc| && g < |s.pc| && g != f && Step(s, f, a).Some?
    requires TargetOk(s, g) && TargetOf(s.pc[g]) == Some(f)
    requires (HoldsLock(s.pc[g]) <==> s.lock == Some(g)) && (HoldsLock(s.pc[f]) <==> s.lock == Some(f))
    requires HoldsMutex(s, g, f) <==> s.mutex[f] == Some(g)
    ensures TargetOk(Step(s, f, a).value, g)
  {
    if a.Advance? {
      assert Step(s, f, a) == Native(s, f);
    }
  }

  lemma StepTarget(s: State, f: nat, a: Action)
    requires Inv(s) && f < |s.pc| && Step(s, f, a).Some?
    ensures TargetInv(Step(s, f, a).value)
  {
    var s' := Step(s, f, a).value;
    StepFramed(s, f, a);
    forall g | 0 <= g < |s'.pc| ensures TargetOk(s', g) {
      if g == f {
        assert TargetOk(s, f);
        if s.pc[f].Signalling? {
          var t := s.pc[f].target;
          assert HoldsMutex(s, f, t) && s.mutex[t] == Some(f);
          assert HoldsMutex(s, t, t) <==> s.mutex[t] == Some(t);
        }
        StepTargetOwn(s, f, a);
      } else if g < |s.pc| {
        StepTargetOther(s, f, a, g);
      }
    }
  }

  lemma StepMain(s: State, f: nat, a: Action)
    requires Inv(s) && f < |s.pc| && Step(s, f, a).Some?
    ensures var s' := Step(s, f, a).value;
            |s'.pc| > 0 && !s'.pc[0].Leaving? && !s'.pc[0].Unregistered? && !s'.pc[0].Finished?
  {
    StepFramed(s, f, a);
    if f != 0 {
      assert Nudged(s.pc[0], Step(s, f, a).value.pc[0]);
    }
  }

  /** Every atomic step of every fiber keeps the invariant. */
  lemma StepInv(s: State, f: nat, a: Action)
    requires Inv(s) && f < |s.pc| && Step(s, f, a).Some?
    ensures Inv(Step(s, f, a).value)
  {
    StepFramed(s, f, a);
    StepLock(s, f, a);
    StepMutex(s, f, a);
    StepCurrent(s, f, a);
    StepRegistry(s, f, a);
    StepTarget(s, f, a);
    StepMain(s, f, a);
  }

  // ------------------------------------------------------------------- runs

  ghost predicate Next(s: State, s': State) {
    Shaped(s) && exists f: nat, a :: f < |s.pc| && Step(s, f, a) == Some(s')
  }

  /** A run: the initial state followed by any number of steps. */
  ghost predicate IsRun(run: seq<State>) {
    && run != []
    && var last := |run| - 1;
       if last == 0 then run[0] == Init() else IsRun(run[..last]) && Next(run[last - 1], run[last])
  }

  lemma {:induction false} RunStep(run: seq<State>, i: nat)
    requires IsRun(run) && i + 1 < |run|
    ensures Next(run[i], run[i + 1])
    decreases |run|
  {
    if i + 2 < |run| {
      RunStep(run[..|run| - 1], i);
    }
  }

  lemma {:induction false} RunStart(run: seq<State>)
    requires IsRun(run)
    ensures run[0] == Init()
    decreases |run|
  {
    if |run| > 1 {
      RunStart(run[..|run| - 1]);
    }
  }

  /** The invariant holds in every state of every run. */
  lemma {:induction false} RunInv(run: seq<State>, i: nat)
    requires IsRun(run) && i < |run|
    ensures Inv(run[i])
  {
    if i == 0 {
      RunStart(run);
      InitInv();
    } else {
      RunInv(run, i - 1);
      RunStep(run, i - 1);
      var f: nat, a :| f < |run[i - 1].pc| && Step(run[i - 1], f, a) == Some(run[i]);
      StepInv(run[i - 1], f, a);
    }
  }

  /** At most one fiber runs JavaScript, it holds the V8 lock, and it is `Fiber.current`. */
  lemma OneFiberRunsJs(run: seq<State>, i: nat, f: nat, g: nat)
    requires IsRun(run) && i < |run| && f < |run[i].pc| && g < |run[i].pc|
    requires RunsJs(run[i].pc[f]) && RunsJs(run[i].pc[g])
    ensures f == g && run[i].lock == Some(f) && run[i].current == f
  {
    RunInv(run, i);
    var s := run[i];
    assert HoldsLock(s.pc[f]) <==> s.lock == Some(f);
    assert HoldsLock(s.pc[g]) <==> s.lock == Some(g);
  }

  /** The registry lists exactly the fibers that have started and not finished. */
  lemma RegistryIsExact(run: seq<State>, i: nat, f: nat)
    requires IsRun(run) && i < |run| && f < |run[i].pc|
    ensures f in run[i].registry.Values <==> Running(run[i].pc[f])
  {
    RunInv(run, i);
    var s := run[i];
    if Running(s.pc[f]) {
      assert s.localId[f] in s.registry && s.registry[s.localId[f]] == f;
    }
  }

  /** A join continues only once its target is over, or on the fiber itself. */
  lemma JoinWaitsForTarget(run: seq<State>, i: nat, f: nat)
    requires IsRun(run) && i < |run| && f < |run[i].pc| && run[i].pc[f].Rejoined?
    ensures var t := run[i].pc[f].target; t == f || (t < |run[i].pc| && run[i].pc[t].Finished?)
  {
    RunInv(run, i);
    assert TargetOk(run[i], f);
  }

  // -------------------------------------------------------------- wake-ups

  ghost predicate InCall(pc: Pc, t: nat) {
    pc == Waking(t) || pc == Signalling(t) || pc == Signalled(t)
  }

  /** Between falling asleep and getting the V8 lock back. */
  ghost predicate Dozing(pc: Pc) {
    Asleep(pc) || pc.Woken? || pc.Relatched? || pc.Resuming?
  }

  lemma DozingStays(s: State, f: nat, t: nat, h: nat, a: Action)
    requires Inv(s) && f < |s.pc| && t < |s.pc| && h < |s.pc| && Step(s, h, a).Some?
    requires InCall(s.pc[f], t) && Dozing(s.pc[t])
    ensures |Step(s, h, a).value.pc| >= |s.pc| && Dozing(Step(s, h, a).value.pc[t])
  {
    StepFramed(s, h, a);
    assert HoldsLock(s.pc[f]) <==> s.lock == Some(f);
    if h != t {
      assert Nudged(s.pc[t], Step(s, h, a).value.pc[t]);
    }
  }

  lemma CallEnds(s: State, f: nat, t: nat, h: nat, a: Action)
    requires Inv(s) && f < |s.pc| && t < |s.pc| && h < |s.pc| && Step(s, h, a).Some?
    requires InCall(s.pc[f], t) && f < |Step(s, h, a).value.pc| && Step(s, h, a).value.pc[f].Js?
    ensures !Asleep(s.pc[t]) && h == f && Step(s, h, a).value.pc == s.pc[f := Js]
  {
    StepFramed(s, h, a);
    assert TargetOk(s, f);
  }

  lemma NextDozing(s: State, s': State, f: nat, t: nat)
    requires Inv(s) && Next(s, s') && f < |s.pc| && t < |s.pc|
    requires InCall(s.pc[f], t) && Dozing(s.pc[t])
    ensures |s.pc| <= |s'.pc| && Dozing(s'.pc[t])
    ensures s'.pc[f].Js? ==> !Asleep(s'.pc[t])
  {
    var h: nat, a :| h < |s.pc| && Step(s, h, a) == Some(s');
    StepFramed(s, h, a);
    DozingStays(s, f, t, h, a);
    if s'.pc[f].Js? {
      CallEnds(s, f, t, h, a);
    }
  }

  ghost predicate Calling(s: State, f: nat, t: nat) {
    f < |s.pc| && t < |s.pc| && InCall(s.pc[f], t)
  }

  /** A wake-up issued while the target has released the V8 lock and is going to sleep is never
      lost: when becomeRunnable returns, the target is awake and only waits to run again. */
  lemma {:induction false} WakeUpIsNeverLost(run: seq<State>, i: nat, j: nat, f: nat, t: nat)
    requires IsRun(run) && i < j < |run|
    requires forall k :: i <= k < j ==> Calling(run[k], f, t)
    requires t < |run[i].pc| && Dozing(run[i].pc[t])
    requires f < |run[j].pc| && run[j].pc[f].Js?
    ensures t < |run[j].pc| && Dozing(run[j].pc[t]) && !Asleep(run[j].pc[t])
    decreases j - i
  {
    assert Calling(run[i], f, t);
    RunNextDozing(run, i, f, t);
    if i + 1 < j {
      WakeUpIsNeverLost(run, i + 1, j, f, t);
    }
  }

  lemma RunNextDozing(run: seq<State>, i: nat, f: nat, t: nat)
    requires IsRun(run) && i + 1 < |run| && Calling(run[i], f, t) && Dozing(run[i].pc[t])
    ensures t < |run[i + 1].pc| && Dozing(run[i + 1].pc[t])
    ensures f < |run[i + 1].pc| && run[i + 1].pc[f].Js? ==> !Asleep(run[i + 1].pc[t])
  {
    RunInv(run, i);
    RunStep(run, i);
    NextDozing(run[i], run[i + 1], f, t);
  }

  // ----------------------------------------------------------- no cyclic wait

  ghost predicate WantsLock(pc: Pc) {
    pc.Starting? || pc.Resuming? || pc.Rejoining?
  }

  ghost predicate WantsMutex(s: State, f: nat, m: nat)
    requires f < |s.pc|
  {
    s.pc[f] == Waking(m) || (f == m && (s.pc[f].Suspending? || s.pc[f].Woken?))
  }

  /** Fiber `f` is blocked on the V8 lock or on a mutex that `h` holds. */
  ghost predicate WaitsFor(s: State, f: nat, h: nat)
    requires Shaped(s)
  {
    f < |s.pc| &&
    ((WantsLock(s.pc[f]) && s.lock == Some(h))
     || exists m: nat :: m < |s.mutex| && WantsMutex(s, f, m) && s.mutex[m] == Some(h))
  }

  ghost function Rank(pc: Pc): nat {
    if WantsLock(pc) then 2 else if pc.Waking? || pc.Suspending? || pc.Woken? then 1 else 0
  }

  lemma WaitLowersRank(s: State, f: nat, h: nat)
    requires Inv(s) && WaitsFor(s, f, h)
    ensures h < |s.pc| && Rank(s.pc[h]) < Rank(s.pc[f])
  {
    if WantsLock(s.pc[f]) && s.lock == Some(h) {
      assert HoldsLock(s.pc[h]) <==> s.lock == Some(h);
    } else {
      var m: nat :| m < |s.mutex| && WantsMutex(s, f, m) && s.mutex[m] == Some(h);
      assert HoldsMutex(s, h, m) <==> s.mutex[m] == Some(h);
    }
  }

  lemma {:induction false} PathLowersRank(s: State, path: seq<nat>)
    requires Inv(s) && |path| > 1
    requires forall i :: 0 <= i < |path| - 1 ==> WaitsFor(s, path[i], path[i + 1])
    ensures path[0] < |s.pc| && path[|path| - 1] < |s.pc|
    ensures Rank(s.pc[path[|path| - 1]]) < Rank(s.pc[path[0]])
    decreases |path|
  {
    assert WaitsFor(s, path[0], path[0 + 1]);
    WaitLowersRank(s, path[0], path[1]);
    if |path| > 2 {
      var rest := path[1..];
      forall i | 0 <= i < |rest| - 1 ensures WaitsFor(s, rest[i], rest[i + 1]) {
        assert WaitsFor(s, path[i + 1], path[i + 1 + 1]);
      }
      PathLowersRank(s, rest);
    }
  }

  /** No chain of fibers waiting for each other's V8 lock or mutexes ever closes. */
  lemma NoCyclicWait(run: seq<State>, i: nat, path: seq<nat>)
    requires IsRun(run) && i < |run| && |path| > 1 && path[0] == path[|path| - 1]
    ensures Shaped(run[i]) && exists k :: 0 <= k < |path| - 1 && !WaitsFor(run[i], path[k], path[k + 1])
  {
    RunInv(run, i);
    if forall k :: 0 <= k < |path| - 1 ==> WaitsFor(run[i], path[k], path[k + 1]) {
      PathLowersRank(run[i], path);
    }
  }

  ghost predicate CanAct(s: State, f: nat)
    requires Shaped(s)
  {
    f < |s.pc| && (s.pc[f].Js? || Step(s, f, Advance).Some?)
  }

  lemma LockHolderProgress(s: State, h: nat) returns (g: nat)
    requires Inv(s) && s.lock == Some(h)
    ensures CanAct(s, g)
  {
    assert HoldsLock(s.pc[h]) <==> s.lock == Some(h);
    assert TargetOk(s, h);
    g := h;
    if s.pc[h].Waking? || s.pc[h].Suspending? {
      var m := if s.pc[h].Waking? then s.pc[h].target else h;
      if s.mutex[m].Some? {
        g := s.mutex[m].value;
        assert HoldsMutex(s, g, m) <==> s.mutex[m] == Some(g);
        assert HoldsLock(s.pc[g]) <==> s.lock == Some(g);
      }
    }
  }

  /** Unless every fiber is unstarted, asleep, joining or finished, some fiber can move. */
  lemma Progress(run: seq<State>, i: nat, f: nat) returns (g: nat)
    requires IsRun(run) && i < |run| && f < |run[i].pc|
    requires var p := run[i].pc[f]; !p.Unstarted? && !p.Waiting? && !p.Joining? && !p.Finished?
    ensures Shaped(run[i]) && CanAct(run[i], g)
  {
    RunInv(run, i);
    var s := run[i];
    assert HoldsLock(s.pc[f]) <==> s.lock == Some(f);
    if s.lock.Some? {
      g := LockHolderProgress(s, s.lock.value);
    } else {
      g := f;
      if s.pc[f].Woken? && s.mutex[f].Some? {
        g := s.mutex[f].value;
      }
      assert HoldsLock(s.pc[g]) <==> s.lock == Some(g);
      assert HoldsMutex(s, g, g) <==> s.mutex[g] == Some(g);
    }
  }
}
