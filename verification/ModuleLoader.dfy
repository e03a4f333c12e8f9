/** Loading modules, which may require each other in cycles. */
module ModuleLoader {
  import opened Basics

  // `require` puts blank exports into the cache before it runs the module's files, so that a module met
  // again while it is loading is not loaded again, and takes them out if a file fails. What a file does
  // is a tree of the requires it makes, which may depend on what they gave.

  /** A running file: it ends, throws, or requires a module and goes on in one way if that succeeded
      and in another if it threw. */
  datatype Script = End | Throw | Require(name: string, next: Script, caught: Script)

  /** The files of each module that can be resolved. */
  type Modules = map<string, seq<Script>>

  /** What happened, with the names in the exports cache right after it. */
  datatype Event =
    | Start(name: string, cached: set<string>)
    | Finish(name: string, ok: bool, cached: set<string>)

  /** The exports cache with the exports objects numbered as they are made. */
  datatype State = State(cache: map<string, nat>, made: nat, log: seq<Event>)

  ghost predicate Extends(s: State, s': State) {
    forall n :: n in s.cache ==> n in s'.cache && s'.cache[n] == s.cache[n]
  }

  // --------------------------------------------------------------- the loader

  /** `require`: the exports, or none when an exception is on its way. */
  function Load(ms: Modules, s: State, name: string): (r: (State, Option<nat>))
    ensures Extends(s, r.0)
    ensures r.1.Some? ==> name in r.0.cache && r.0.cache[name] == r.1.value
    decreases ms.Keys - s.cache.Keys, 0
  {
    if name !in ms then (s, None)
    else if name in s.cache then (s, Some(s.cache[name]))
    else
      var cache := s.cache[name := s.made];
      var s1 := State(cache, s.made + 1, s.log + [Start(name, cache.Keys)]);
      assert name in ms.Keys - s.cache.Keys && name !in ms.Keys - s1.cache.Keys;
      var (s2, ok) := RunFiles(ms, s1, ms[name]);
      if ok then (s2.(log := s2.log + [Finish(name, true, s2.cache.Keys)]), Some(s.made))
      else
        var left := s2.cache - {name};
        (State(left, s2.made, s2.log + [Finish(name, false, left.Keys)]), None)
  }

  /** The loop over the files, which stops at the first that fails. */
  function RunFiles(ms: Modules, s: State, files: seq<Script>): (r: (State, bool))
    ensures Extends(s, r.0)
    decreases ms.Keys - s.cache.Keys, 2, |files|
  {
    if files == [] then (s, true)
    else
      var (s1, ok) := RunScript(ms, s, files[0]);
      if ok then RunFiles(ms, s1, files[1..]) else (s1, false)
  }

  function RunScript(ms: Modules, s: State, script: Script): (r: (State, bool))
    ensures Extends(s, r.0)
    decreases ms.Keys - s.cache.Keys, 1, script
  {
    match script
    case End => (s, true)
    case Throw => (s, false)
    case Require(name, next, caught) =>
      var (s1, exports) := Load(ms, s, name);
      RunScript(ms, s1, if exports.Some? then next else caught)
  }

  // -------------------------------------------------------------- the history

  /** The modules that are being loaded. */
  function Active(log: seq<Event>): set<string> {
    if log == [] then {}
    else
      var front, last := log[..|log| - 1], log[|log| - 1];
      match last
      case Start(n, _) => Active(front) + {n}
      case Finish(n, _, _) => Active(front) - {n}
  }

  /** The modules that have been loaded. */
  function Loaded(log: seq<Event>): set<string> {
    if log == [] then {}
    else
      var front, last := log[..|log| - 1], log[|log| - 1];
      if last.Finish? && last.ok then Loaded(front) + {last.name} else Loaded(front)
  }

  /** A module starts only when it is neither loading nor loaded, finishes only when it is loading, and
      the cache always holds exactly the modules that are loading or loaded. */
  ghost predicate History(log: seq<Event>) {
    log == [] ||
    var front, last := log[..|log| - 1], log[|log| - 1];
    && History(front)
    && last.cached == Active(log) + Loaded(log)
    && (if last.Start? then last.name !in Active(front) + Loaded(front) else last.name in Active(front))
  }

  ghost predicate Ok(s: State) {
    History(s.log) && s.cache.Keys == Active(s.log) + Loaded(s.log) && Active(s.log) !! Loaded(s.log)
  }

  lemma AppendEvent(log: seq<Event>, e: Event)
    ensures var l := log + [e];
            && Active(l) == (if e.Start? then Active(log) + {e.name} else Active(log) - {e.name})
            && Loaded(l) == (if e.Finish? && e.ok then Loaded(log) + {e.name} else Loaded(log))
            && (History(l) <==>
                && History(log) && e.cached == Active(l) + Loaded(l)
                && (if e.Start? then e.name !in Active(log) + Loaded(log) else e.name in Active(log)))
  {
    assert (log + [e])[..|log|] == log;
  }

  lemma {:induction false} LoadOk(ms: Modules, s: State, name: string)
    requires Ok(s)
    ensures var s' := Load(ms, s, name).0; Ok(s') && Active(s'.log) == Active(s.log)
    decreases ms.Keys - s.cache.Keys, 0
  {
    hide RunFiles;
    if name in ms && name !in s.cache {
      var cache := s.cache[name := s.made];
      var start := Start(name, cache.Keys);
      var s1 := State(cache, s.made + 1, s.log + [start]);
      AppendEvent(s.log, start);
      assert name in ms.Keys - s.cache.Keys && name !in ms.Keys - s1.cache.Keys;
      FilesOk(ms, s1, ms[name]);
      var (s2, ok) := RunFiles(ms, s1, ms[name]);
      assert name in Active(s2.log);
      AppendEvent(s2.log, Finish(name, true, s2.cache.Keys));
      AppendEvent(s2.log, Finish(name, false, (s2.cache - {name}).Keys));
    }
  }

  lemma {:induction false} FilesOk(ms: Modules, s: State, files: seq<Script>)
    requires Ok(s)
    ensures var s' := RunFiles(ms, s, files).0; Ok(s') && Active(s'.log) == Active(s.log)
    decreases ms.Keys - s.cache.Keys, 2, |files|
  {
    if files != [] {
      ScriptOk(ms, s, files[0]);
      var (s1, ok) := RunScript(ms, s, files[0]);
      if ok {
        FilesOk(ms, s1, files[1..]);
      }
    }
  }

  lemma {:induction false} ScriptOk(ms: Modules, s: State, script: Script)
    requires Ok(s)
    ensures var s' := RunScript(ms, s, script).0; Ok(s') && Active(s'.log) == Active(s.log)
    decreases ms.Keys - s.cache.Keys, 1, script
  {
    if script.Require? {
      LoadOk(ms, s, script.name);
      var (s1, exports) := Load(ms, s, script.name);
      ScriptOk(ms, s1, if exports.Some? then script.next else script.caught);
    }
  }

  lemma {:induction false} HistoryPrefix(log: seq<Event>, i: nat)
    requires History(log) && i <= |log|
    ensures History(log[..i])
  {
    if i == |log| {
      assert log[..i] == log;
    } else {
      HistoryPrefix(log[..|log| - 1], i);
      assert log[..|log| - 1][..i] == log[..i];
    }
  }

  /** Loading anything, whatever files do or throw, keeps the cache exact at every moment. */
  lemma CacheIsExactAlways(ms: Modules, name: string, i: nat)
    requires var log := Load(ms, State(map[], 0, []), name).0.log; i < |log|
    ensures var log := Load(ms, State(map[], 0, []), name).0.log;
            log[i].cached == Active(log[..i + 1]) + Loaded(log[..i + 1])
  {
    LoadOk(ms, State(map[], 0, []), name);
    var log := Load(ms, State(map[], 0, []), name).0.log;
    HistoryPrefix(log, i + 1);
    assert log[..i + 1][i] == log[i];
  }

  ghost predicate Fails(e: Event, name: string) {
    e.Finish? && e.name == name && !e.ok
  }

  lemma {:induction false} StaysUnlessFailed(log: seq<Event>, i: nat)
    requires History(log) && i < |log| && log[i].Start?
    requires forall k :: i < k < |log| ==> !Fails(log[k], log[i].name)
    ensures log[i].name in Active(log) + Loaded(log)
  {
    if i < |log| - 1 {
      var front := log[..|log| - 1];
      assert front[i] == log[i];
      StaysUnlessFailed(front, i);
    }
  }

  /** A module is run again only after it failed. */
  lemma RunsOnceUnlessFailed(log: seq<Event>, i: nat, j: nat)
    requires History(log) && i < j < |log| && log[i].Start? && log[j].Start? && log[i].name == log[j].name
    ensures exists k :: i < k < j && Fails(log[k], log[i].name)
  {
    StartsFresh(log, j);
    hide History;
    var front := log[..j];
    assert front[i] == log[i];
    if forall k :: i < k < j ==> !Fails(log[k], log[i].name) {
      forall k | i < k < |front| ensures !Fails(front[k], front[i].name) {
        assert front[k] == log[k];
      }
      StaysUnlessFailed(front, i);
      assert false;
    }
  }

  lemma StartsFresh(log: seq<Event>, j: nat)
    requires History(log) && j < |log| && log[j].Start?
    ensures History(log[..j]) && log[j].name !in Active(log[..j]) + Loaded(log[..j])
  {
    HistoryPrefix(log, j + 1);
    var upTo := log[..j + 1];
    assert upTo[j] == log[j] && upTo[..j] == log[..j];
  }

  // ------------------------------------------------------------ without failures

  /** The requires a file makes when none of them throws. */
  function Spine(script: Script): seq<string> {
    if script.Require? then [script.name] + Spine(script.next) else []
  }

  /** The file throws only if a require does, and what it requires can be found. */
  predicate Clean(ms: Modules, script: Script) {
    match script
    case End => true
    case Throw => false
    case Require(name, next, _) => name in ms && Clean(ms, next)
  }

  ghost predicate AllClean(ms: Modules) {
    forall m, f :: m in ms && f in ms[m] ==> Clean(ms, f)
  }

  ghost predicate Needs(ms: Modules, m: string, d: string) {
    m in ms && exists f :: f in ms[m] && d in Spine(f)
  }

  /** What was loaded on the way has all it needs in the cache. */
  ghost predicate Closed(ms: Modules, s: State, s': State) {
    forall m, d :: m in s'.cache && m !in s.cache && Needs(ms, m, d) ==> d in s'.cache
  }

  ghost predicate NoFailure(log: seq<Event>) {
    forall e <- log :: e.Finish? ==> e.ok
  }

  lemma ClosedThen(ms: Modules, a: State, b: State, c: State)
    requires Closed(ms, a, b) && Closed(ms, b, c) && Extends(b, c)
    ensures Closed(ms, a, c)
  {
    hide Needs;
  }

  lemma {:induction false} CleanLoad(ms: Modules, s: State, name: string)
    requires AllClean(ms) && name in ms
    ensures var (s', exports) := Load(ms, s, name);
            exports.Some? && Closed(ms, s, s') && (NoFailure(s.log) ==> NoFailure(s'.log))
    decreases ms.Keys - s.cache.Keys, 0
  {
    if name !in s.cache {
      var cache := s.cache[name := s.made];
      var s1 := State(cache, s.made + 1, s.log + [Start(name, cache.Keys)]);
      assert name in ms.Keys - s.cache.Keys && name !in ms.Keys - s1.cache.Keys;
      CleanFiles(ms, s1, ms[name]);
      var (s2, ok) := RunFiles(ms, s1, ms[name]);
      var s' := Load(ms, s, name).0;
      forall m, d | m in s'.cache && m !in s.cache && Needs(ms, m, d) ensures d in s'.cache {
        if m == name {
          var f :| f in ms[m] && d in Spine(f);
        } else {
          assert m !in s1.cache;
        }
      }
    }
  }

  lemma {:induction false} CleanFiles(ms: Modules, s: State, files: seq<Script>)
    requires AllClean(ms) && forall f <- files :: Clean(ms, f)
    ensures var (s', ok) := RunFiles(ms, s, files);
            && ok && Closed(ms, s, s') && (NoFailure(s.log) ==> NoFailure(s'.log))
            && forall f, d :: f in files && d in Spine(f) ==> d in s'.cache
    decreases ms.Keys - s.cache.Keys, 2, |files|
  {
    if files != [] {
      CleanScript(ms, s, files[0]);
      var (s1, ok) := RunScript(ms, s, files[0]);
      CleanFiles(ms, s1, files[1..]);
      ClosedThen(ms, s, s1, RunFiles(ms, s1, files[1..]).0);
      assert files == [files[0]] + files[1..];
    }
  }

  lemma {:induction false} CleanScript(ms: Modules, s: State, script: Script)
    requires AllClean(ms) && Clean(ms, script)
    ensures var (s', ok) := RunScript(ms, s, script);
            && ok && Closed(ms, s, s') && (NoFailure(s.log) ==> NoFailure(s'.log))
            && forall d :: d in Spine(script) ==> d in s'.cache
    decreases ms.Keys - s.cache.Keys, 1, script
  {
    if script.Require? {
      CleanLoad(ms, s, script.name);
      var s1 := Load(ms, s, script.name).0;
      CleanScript(ms, s1, script.next);
      ClosedThen(ms, s, s1, RunScript(ms, s1, script.next).0);
    }
  }

  // -------------------------------------------------------------- reachability

  /** Modules that each need the next. */
  ghost predicate Chain(ms: Modules, path: seq<string>) {
    |path| <= 1 || (Needs(ms, path[0], path[1]) && Chain(ms, path[1..]))
  }

  ghost predicate ChainTo(ms: Modules, a: string, path: seq<string>, b: string) {
    path != [] && path[0] == a && path[|path| - 1] == b && Chain(ms, path)
  }

  ghost predicate Reaches(ms: Modules, a: string, b: string) {
    exists path :: ChainTo(ms, a, path, b)
  }

  lemma ReachesSelf(ms: Modules, a: string)
    ensures Reaches(ms, a, a)
  {
    assert ChainTo(ms, a, [a], a);
  }

  lemma ReachesVia(ms: Modules, a: string, d: string, b: string)
    requires Needs(ms, a, d) && Reaches(ms, d, b)
    ensures Reaches(ms, a, b)
  {
    hide Needs;
    var path :| ChainTo(ms, d, path, b);
    assert ([a] + path)[1..] == path;
    assert ChainTo(ms, a, [a] + path, b);
  }

  /** Nothing is loaded that the module does not reach. */
  lemma {:induction false} LoadsOnlyReachable(ms: Modules, s: State, name: string, m: string)
    requires AllClean(ms) && name in ms && m in Load(ms, s, name).0.cache && m !in s.cache
    ensures Reaches(ms, name, m)
    decreases ms.Keys - s.cache.Keys, 0
  {
    var cache := s.cache[name := s.made];
    var s1 := State(cache, s.made + 1, s.log + [Start(name, cache.Keys)]);
    assert name in ms.Keys - s.cache.Keys && name !in ms.Keys - s1.cache.Keys;
    if m == name {
      ReachesSelf(ms, m);
    } else {
      CleanFiles(ms, s1, ms[name]);
      var d := FilesOnlyReachable(ms, s1, ms[name], m);
      assert Needs(ms, name, d);
      ReachesVia(ms, name, d, m);
    }
  }

  lemma {:induction false} FilesOnlyReachable(ms: Modules, s: State, files: seq<Script>, m: string) returns (d: string)
    requires AllClean(ms) && (forall f <- files :: Clean(ms, f)) && m in RunFiles(ms, s, files).0.cache && m !in s.cache
    ensures Reaches(ms, d, m) && exists f :: f in files && d in Spine(f)
    decreases ms.Keys - s.cache.Keys, 2, |files|
  {
    var s1 := RunScript(ms, s, files[0]).0;
    CleanScript(ms, s, files[0]);
    if m in s1.cache {
      d := ScriptOnlyReachable(ms, s, files[0], m);
    } else {
      d := FilesOnlyReachable(ms, s1, files[1..], m);
      assert files == [files[0]] + files[1..];
    }
  }

  lemma {:induction false} ScriptOnlyReachable(ms: Modules, s: State, script: Script, m: string) returns (d: string)
    requires AllClean(ms) && Clean(ms, script) && m in RunScript(ms, s, script).0.cache && m !in s.cache
    ensures Reaches(ms, d, m) && d in Spine(script)
    decreases ms.Keys - s.cache.Keys, 1, script
  {
    CleanLoad(ms, s, script.name);
    var s1 := Load(ms, s, script.name).0;
    if m in s1.cache {
      d := script.name;
      LoadsOnlyReachable(ms, s, d, m);
    } else {
      d := ScriptOnlyReachable(ms, s1, script.next, m);
    }
  }

  lemma {:induction false} ChainLoaded(ms: Modules, s: State, path: seq<string>)
    requires path != [] && Chain(ms, path) && path[0] in s.cache && Closed(ms, State(map[], 0, []), s)
    ensures path[|path| - 1] in s.cache
  {
    if |path| > 1 {
      hide Needs;
      ChainLoaded(ms, s, path[1..]);
    }
  }

  function Starts(log: seq<Event>, name: string): nat {
    if log == [] then 0
    else Starts(log[..|log| - 1], name) + if log[|log| - 1].Start? && log[|log| - 1].name == name then 1 else 0
  }

  lemma {:induction false} StartsOnce(log: seq<Event>, name: string)
    requires History(log) && NoFailure(log)
    ensures Starts(log, name) == if name in Active(log) + Loaded(log) then 1 else 0
  {
    if log != [] {
      var front, last := log[..|log| - 1], log[|log| - 1];
      assert last in log;
      assert forall e <- front :: e in log;
      StartsOnce(front, name);
    }
  }

  /** When nothing fails by itself, requiring a module runs exactly the modules reachable from it, each
      once, however they require each other in circles. */
  lemma LoadsReachableOnce(ms: Modules, name: string, m: string)
    requires AllClean(ms) && name in ms
    ensures var (s, exports) := Load(ms, State(map[], 0, []), name);
            && exports.Some? && Active(s.log) == {}
            && Starts(s.log, m) == (if Reaches(ms, name, m) then 1 else 0)
            && (m in s.cache <==> Reaches(ms, name, m))
  {
    var s0 := State(map[], 0, []);
    var s := Load(ms, s0, name).0;
    CleanLoad(ms, s0, name);
    LoadOk(ms, s0, name);
    StartsOnce(s.log, m);
    if m in s.cache {
      LoadsOnlyReachable(ms, s0, name, m);
    } else if Reaches(ms, name, m) {
      var path :| ChainTo(ms, name, path, m);
      ChainLoaded(ms, s, path);
    }
  }

  // --------------------------------------------------------- dependencies first

  lemma {:induction false} ChainAppend(ms: Modules, path: seq<string>, d: string)
    requires path != [] && Chain(ms, path) && Needs(ms, path[|path| - 1], d)
    ensures Chain(ms, path + [d])
  {
    hide Needs;
    if |path| == 1 {
      assert (path + [d])[1..] == [d];
    } else {
      assert (path + [d])[1..] == path[1..] + [d];
      ChainAppend(ms, path[1..], d);
    }
  }

  lemma ReachesNeeded(ms: Modules, a: string, m: string, d: string)
    requires Reaches(ms, a, m) && Needs(ms, m, d)
    ensures Reaches(ms, a, d)
  {
    hide Needs;
    var path :| ChainTo(ms, a, path, m);
    ChainAppend(ms, path, d);
    assert ChainTo(ms, a, path + [d], d);
  }

  /** When a module finishes, each module it needs has been loaded, or needs it in turn. */
  ghost predicate Ordered(ms: Modules, log: seq<Event>) {
    log == [] ||
    var front, last := log[..|log| - 1], log[|log| - 1];
    && Ordered(ms, front)
    && (last.Finish? && last.ok ==> forall d :: Needs(ms, last.name, d) ==> d in Loaded(front) || Reaches(ms, d, last.name))
  }

  lemma OrderedAppend(ms: Modules, log: seq<Event>, e: Event)
    requires Ordered(ms, log)
    requires e.Finish? && e.ok ==> forall d :: Needs(ms, e.name, d) ==> d in Loaded(log) || Reaches(ms, d, e.name)
    ensures Ordered(ms, log + [e])
  {
    hide Needs;
    hide Reaches;
    assert (log + [e])[..|log|] == log;
  }

  /** Whatever is being loaded reaches what is required now. */
  ghost predicate AllReach(ms: Modules, active: set<string>, name: string) {
    forall a :: a in active ==> Reaches(ms, a, name)
  }

  lemma {:induction false} LoadOrdered(ms: Modules, s: State, name: string)
    requires AllClean(ms) && Ok(s) && Ordered(ms, s.log) && name in ms && AllReach(ms, Active(s.log), name)
    ensures Ordered(ms, Load(ms, s, name).0.log)
    decreases ms.Keys - s.cache.Keys, 0
  {
    hide Reaches;
    hide Ordered;
    hide RunFiles;
    hide History;
    hide Chain;
    if name !in s.cache {
      var cache := s.cache[name := s.made];
      var start := Start(name, cache.Keys);
      var s1 := State(cache, s.made + 1, s.log + [start]);
      AppendEvent(s.log, start);
      OrderedAppend(ms, s.log, start);
      ReachesSelf(ms, name);
      assert name in ms.Keys - s.cache.Keys && name !in ms.Keys - s1.cache.Keys;
      forall f, d | f in ms[name] && d in Spine(f) ensures AllReach(ms, Active(s1.log), d) {
        assert Needs(ms, name, d);
        AllReachNeeded(ms, Active(s1.log), name, d);
      }
      FilesOrdered(ms, s1, ms[name]);
      FilesOk(ms, s1, ms[name]);
      CleanFiles(ms, s1, ms[name]);
      var s2 := RunFiles(ms, s1, ms[name]).0;
      forall d | Needs(ms, name, d) ensures d in Loaded(s2.log) || Reaches(ms, d, name) {
        var f :| f in ms[name] && d in Spine(f);
        assert d in s2.cache;
      }
      OrderedAppend(ms, s2.log, Finish(name, true, s2.cache.Keys));
    }
  }

  lemma AllReachNeeded(ms: Modules, active: set<string>, m: string, d: string)
    requires AllReach(ms, active, m) && Needs(ms, m, d)
    ensures AllReach(ms, active, d)
  {
    hide Needs;
    hide Reaches;
    forall a | a in active ensures Reaches(ms, a, d) {
      ReachesNeeded(ms, a, m, d);
    }
  }

  lemma {:induction false} FilesOrdered(ms: Modules, s: State, files: seq<Script>)
    requires AllClean(ms) && Ok(s) && Ordered(ms, s.log) && forall f <- files :: Clean(ms, f)
    requires forall f, d :: f in files && d in Spine(f) ==> AllReach(ms, Active(s.log), d)
    ensures Ordered(ms, RunFiles(ms, s, files).0.log)
    decreases ms.Keys - s.cache.Keys, 2, |files|
  {
    hide AllReach;
    if files != [] {
      ScriptOrdered(ms, s, files[0]);
      ScriptOk(ms, s, files[0]);
      CleanScript(ms, s, files[0]);
      FilesOrdered(ms, RunScript(ms, s, files[0]).0, files[1..]);
    }
  }

  lemma {:induction false} ScriptOrdered(ms: Modules, s: State, script: Script)
    requires AllClean(ms) && Ok(s) && Ordered(ms, s.log) && Clean(ms, script)
    requires forall d :: d in Spine(script) ==> AllReach(ms, Active(s.log), d)
    ensures Ordered(ms, RunScript(ms, s, script).0.log)
    decreases ms.Keys - s.cache.Keys, 1, script
  {
    hide AllReach;
    if script.Require? {
      assert script.name in Spine(script);
      LoadOrdered(ms, s, script.name);
      LoadOk(ms, s, script.name);
      CleanLoad(ms, s, script.name);
      ScriptOrdered(ms, Load(ms, s, script.name).0, script.next);
    }
  }

  lemma {:induction false} LoadedFinished(log: seq<Event>, d: string) returns (i: nat)
    requires d in Loaded(log)
    ensures i < |log| && log[i].Finish? && log[i].name == d && log[i].ok
  {
    var last := log[|log| - 1];
    if last.Finish? && last.ok && last.name == d {
      i := |log| - 1;
    } else {
      i := LoadedFinished(log[..|log| - 1], d);
    }
  }

  lemma {:induction false} OrderedAt(ms: Modules, log: seq<Event>, j: nat, d: string)
    requires Ordered(ms, log) && j < |log| && log[j].Finish? && log[j].ok && Needs(ms, log[j].name, d)
    ensures d in Loaded(log[..j]) || Reaches(ms, d, log[j].name)
  {
    hide Needs;
    hide Reaches;
    if j < |log| - 1 {
      var front := log[..|log| - 1];
      assert front[j] == log[j] && front[..j] == log[..j];
      OrderedAt(ms, front, j, d);
    }
  }

  /** A module finishes after everything it needs has finished, except where they need each other. */
  lemma DependenciesFinishFirst(ms: Modules, name: string, j: nat, d: string)
    requires AllClean(ms) && name in ms
    requires var log := Load(ms, State(map[], 0, []), name).0.log;
             j < |log| && log[j].Finish? && log[j].ok && Needs(ms, log[j].name, d) && !Reaches(ms, d, log[j].name)
    ensures var log := Load(ms, State(map[], 0, []), name).0.log;
            exists i :: 0 <= i < j && log[i].Finish? && log[i].name == d && log[i].ok
  {
    hide Needs;
    hide Reaches;
    hide Load;
    var s0 := State(map[], 0, []);
    LoadOrdered(ms, s0, name);
    var log := Load(ms, s0, name).0.log;
    OrderedAt(ms, log, j, d);
    var i := LoadedFinished(log[..j], d);
    assert log[i] == log[..j][i];
  }

  // -------------------------------------------------------------- the objects

  /** The application with its exports cache. */
  class Loader {
    const modules: Modules
    var exports: map<string, nat>
    var made: nat
    ghost var log: seq<Event>

    constructor (modules: Modules)
      ensures this.modules == modules && Now() == State(map[], 0, [])
    {
      this.modules, exports, made, log := modules, map[], 0, [];
    }

    ghost function Now(): State
      reads this
    {
      State(exports, made, log)
    }

    method RequireModule(name: string) returns (result: Option<nat>)
      modifies this
      ensures (Now(), result) == Load(modules, old(Now()), name)
      decreases modules.Keys - exports.Keys, 0
    {
      hide RunScript;
      if name !in modules { return None; }
      if name in exports { return Some(exports[name]); }
      var files, blank := modules[name], made;
      exports := exports[name := blank];
      made := made + 1;
      log := log + [Start(name, exports.Keys)];
      assert name in modules.Keys - old(exports.Keys) && name !in modules.Keys - exports.Keys;
      var ok := LoadFiles(files);
      if !ok {
        exports := exports - {name};
        log := log + [Finish(name, false, exports.Keys)];
        return None;
      }
      log := log + [Finish(name, true, exports.Keys)];
      return Some(blank);
    }

    method LoadFiles(files: seq<Script>) returns (ok: bool)
      modifies this
      ensures (Now(), ok) == RunFiles(modules, old(Now()), files)
      decreases modules.Keys - exports.Keys, 2
    {
      hide RunScript;
      ghost var goal := RunFiles(modules, Now(), files);
      var i := 0;
      while i < |files|
        invariant i <= |files| && Extends(old(Now()), Now())
        invariant RunFiles(modules, Now(), files[i..]) == goal
      {
        ghost var before := Now();
        var status := LoadJs(files[i]);
        assert files[i..][0] == files[i] && files[i..][1..] == files[i + 1..];
        assert Extends(before, Now());
        if !status { return false; }
        i := i + 1;
      }
      return true;
    }

    /** Runs one file. */
    method LoadJs(script: Script) returns (ok: bool)
      modifies this
      ensures (Now(), ok) == RunScript(modules, old(Now()), script)
      decreases modules.Keys - exports.Keys, 1, script
    {
      match script {
        case End => return true;
        case Throw => return false;
        case Require(name, next, caught) =>
          var result := RequireModule(name);
          assert Extends(old(Now()), Now());
          if result.Some? {
            ok := LoadJs(next);
          } else {
            ok := LoadJs(caught);
          }
      }
    }
  }
}
