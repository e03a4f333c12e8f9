/** When requiring a module succeeds, and which exports it gives. */
module ModuleOutcomes {
  import opened Basics
  import opened ModuleLoader

  // -------------------------------------------------------------- what a file does

  /** A file that requires `names` one after the other, with these outcomes, ends (or throws): after a
      success it goes on in one way, after a failure in the other. */
  ghost predicate Plays(script: Script, names: seq<string>, outcomes: seq<bool>, ends: bool) {
    match script
    case End => names == [] && outcomes == [] && ends
    case Throw => names == [] && outcomes == [] && !ends
    case Require(name, next, caught) =>
      && names != [] && outcomes != [] && names[0] == name
      && Plays(if outcomes[0] then next else caught, names[1..], outcomes[1..], ends)
  }

  /** A file is clean if and only if it ends after successful requires of modules that can all be found. */
  lemma {:induction false} CleanIff(ms: Modules, script: Script)
    ensures Clean(ms, script) <==>
            && Plays(script, Spine(script), seq(|Spine(script)|, _ => true), true)
            && forall name :: name in Spine(script) ==> name in ms
    decreases script
  {
    if script.Require? {
      var front, all := Spine(script.next), seq(|Spine(script)|, _ => true);
      CleanIff(ms, script.next);
      assert Spine(script)[1..] == front && all[1..] == seq(|front|, _ => true);
      assert forall name :: name in Spine(script) <==> name == script.name || name in front;
    }
  }

  /** Requiring `names` in turn leads from `s` to `s'` with these outcomes. */
  ghost predicate Gives(ms: Modules, s: State, names: seq<string>, outcomes: seq<bool>, s': State)
    decreases |names|
  {
    if names == [] then outcomes == [] && s' == s
    else
      && outcomes != [] && outcomes[0] == Load(ms, s, names[0]).1.Some?
      && Gives(ms, Load(ms, s, names[0]).0, names[1..], outcomes[1..], s')
  }

  ghost predicate RunWith(ms: Modules, s: State, script: Script, ends: bool, s': State, names: seq<string>, outcomes: seq<bool>) {
    Plays(script, names, outcomes, ends) && Gives(ms, s, names, outcomes, s')
  }

  /** Under the outcomes that its requires have, a file ends, or throws, in the state `s'`. */
  ghost predicate Runs(ms: Modules, s: State, script: Script, ends: bool, s': State) {
    exists names, outcomes :: RunWith(ms, s, script, ends, s', names, outcomes)
  }

  lemma {:induction false} ScriptRuns(ms: Modules, s: State, script: Script) returns (names: seq<string>, outcomes: seq<bool>)
    ensures var (s', ok) := RunScript(ms, s, script); RunWith(ms, s, script, ok, s', names, outcomes)
    decreases script
  {
    names, outcomes := [], [];
    if script.Require? {
      var (s1, exports) := Load(ms, s, script.name);
      names, outcomes := ScriptRuns(ms, s1, if exports.Some? then script.next else script.caught);
      names, outcomes := [script.name] + names, [exports.Some?] + outcomes;
      assert names[1..] + [] == names[1..] && outcomes[1..] + [] == outcomes[1..];
    }
  }

  lemma {:induction false} RunsOneWay(ms: Modules, s: State, script: Script, ends: bool, s': State, names: seq<string>, outcomes: seq<bool>)
    requires RunWith(ms, s, script, ends, s', names, outcomes)
    ensures RunScript(ms, s, script) == (s', ends)
    decreases script
  {
    if script.Require? {
      var (s1, exports) := Load(ms, s, script.name);
      RunsOneWay(ms, s1, if exports.Some? then script.next else script.caught, ends, s', names[1..], outcomes[1..]);
    }
  }

  /** A file ends, or throws, in a state if and only if it does so under the outcomes of its requires. */
  lemma ScriptOutcomeIff(ms: Modules, s: State, script: Script, ends: bool, s': State)
    ensures RunScript(ms, s, script) == (s', ends) <==> Runs(ms, s, script, ends, s')
  {
    if RunScript(ms, s, script) == (s', ends) {
      var names, outcomes := ScriptRuns(ms, s, script);
    }
    if Runs(ms, s, script, ends, s') {
      var names, outcomes :| RunWith(ms, s, script, ends, s', names, outcomes);
      RunsOneWay(ms, s, script, ends, s', names, outcomes);
    }
  }

  // --------------------------------------------------------------- what a module does

  /** All files end, one after the other. */
  ghost predicate AllEnd(ms: Modules, s: State, files: seq<Script>, s': State)
    decreases |files|
  {
    if files == [] then s' == s
    else exists m :: Runs(ms, s, files[0], true, m) && AllEnd(ms, m, files[1..], s')
  }

  /** The file at `i` throws after all before it have ended. */
  ghost predicate OneThrows(ms: Modules, s: State, files: seq<Script>, i: nat, s': State) {
    i < |files| && exists m :: AllEnd(ms, s, files[..i], m) && Runs(ms, m, files[i], false, s')
  }

  lemma {:induction false} FilesOutcome(ms: Modules, s: State, files: seq<Script>) returns (i: nat)
    ensures var (s', ok) := RunFiles(ms, s, files);
            if ok then AllEnd(ms, s, files, s') else OneThrows(ms, s, files, i, s')
    decreases |files|
  {
    i := 0;
    if files != [] {
      var (s1, ok) := RunScript(ms, s, files[0]);
      ScriptOutcomeIff(ms, s, files[0], ok, s1);
      hide Runs;
      if ok {
        i := FilesOutcome(ms, s1, files[1..]);
        if !RunFiles(ms, s1, files[1..]).1 {
          Later(ms, s, s1, files, i, RunFiles(ms, s1, files[1..]).0);
          i := i + 1;
        }
      } else {
        assert AllEnd(ms, s, files[..0], s);
      }
    }
  }

  lemma Later(ms: Modules, s: State, s1: State, files: seq<Script>, i: nat, s': State)
    requires files != [] && Runs(ms, s, files[0], true, s1) && OneThrows(ms, s1, files[1..], i, s')
    ensures OneThrows(ms, s, files, i + 1, s')
  {
    hide Runs;
    var m :| AllEnd(ms, s1, files[1..][..i], m) && Runs(ms, m, files[1..][i], false, s');
    assert files[..i + 1][0] == files[0] && files[..i + 1][1..] == files[1..][..i];
    assert AllEnd(ms, s, files[..i + 1], m);
  }

  lemma {:induction false} AllEndOneWay(ms: Modules, s: State, files: seq<Script>, s': State)
    requires AllEnd(ms, s, files, s')
    ensures RunFiles(ms, s, files) == (s', true)
    decreases |files|
  {
    if files != [] {
      var m :| Runs(ms, s, files[0], true, m) && AllEnd(ms, m, files[1..], s');
      ScriptOutcomeIff(ms, s, files[0], true, m);
      AllEndOneWay(ms, m, files[1..], s');
    }
  }

  /** The state in which the files of a module run: blank exports are in the cache. */
  function Entered(s: State, name: string): State {
    var cache := s.cache[name := s.made];
    State(cache, s.made + 1, s.log + [Start(name, cache.Keys)])
  }

  /** Requiring a module that is not cached succeeds if and only if all its files end under the outcomes
      that their requires have. When one throws, nothing more of the module runs, and its exports are
      taken out of the cache again. */
  lemma LoadSucceedsIff(ms: Modules, s: State, name: string) returns (s': State, i: nat)
    requires name in ms && name !in s.cache
    ensures Load(ms, s, name).1.Some? <==> exists e :: AllEnd(ms, Entered(s, name), ms[name], e)
    ensures Load(ms, s, name).1.Some? ==>
              && AllEnd(ms, Entered(s, name), ms[name], s') && Load(ms, s, name).1 == Some(s.made)
              && Load(ms, s, name).0 == s'.(log := s'.log + [Finish(name, true, s'.cache.Keys)])
    ensures Load(ms, s, name).1.None? ==>
              && OneThrows(ms, Entered(s, name), ms[name], i, s')
              && name !in Load(ms, s, name).0.cache
              && (forall n :: n in s'.cache && n != name ==> n in Load(ms, s, name).0.cache)
              && Load(ms, s, name).0.log == s'.log + [Finish(name, false, s'.cache.Keys - {name})]
  {
    i := FilesOutcome(ms, Entered(s, name), ms[name]);
    s' := RunFiles(ms, Entered(s, name), ms[name]).0;
    assert RunFiles(ms, Entered(s, name), ms[name]).1 <==> Load(ms, s, name).1.Some?;
    if e :| AllEnd(ms, Entered(s, name), ms[name], e) {
      AllEndOneWay(ms, Entered(s, name), ms[name], e);
    }
    hide OneThrows;
    hide AllEnd;
    assert (s'.cache - {name}).Keys == s'.cache.Keys - {name};
  }

  /** What is cached is given back, and a name that cannot be resolved throws; neither changes anything. */
  lemma LoadAtOnce(ms: Modules, s: State, name: string)
    ensures name !in ms ==> Load(ms, s, name) == (s, None)
    ensures name in ms && name in s.cache ==> Load(ms, s, name) == (s, Some(s.cache[name]))
  {
  }

  /** A module whose only file throws at once, with nothing loaded before. */
  lemma ThrowFails(ms: Modules, name: string)
    requires name in ms && Throw in ms[name]
    requires forall f :: f in ms[name] ==> f.End? || f.Throw?
    ensures var (s, exports) := Load(ms, State(map[], 0, []), name); exports == None && s.cache == map[]
  {
    var s0 := State(map[], 0, []);
    ThrowAmong(ms, Entered(s0, name), ms[name]);
    assert Load(ms, s0, name).0.cache == map[];
  }

  lemma {:induction false} ThrowAmong(ms: Modules, s: State, files: seq<Script>)
    requires Throw in files && forall f :: f in files ==> f.End? || f.Throw?
    ensures RunFiles(ms, s, files) == (s, false)
    decreases |files|
  {
    if files[0].End? {
      ThrowAmong(ms, s, files[1..]);
    }
  }

  // ------------------------------------------------------------------- exports

  /** Different modules have different exports objects, all of them made already. */
  ghost predicate Apart(s: State) {
    && (forall n :: n in s.cache ==> s.cache[n] < s.made)
    && (forall a, b :: a in s.cache && b in s.cache && a != b ==> s.cache[a] != s.cache[b])
  }

  lemma {:induction false} LoadApart(ms: Modules, s: State, name: string)
    requires Apart(s)
    ensures var s' := Load(ms, s, name).0; Apart(s') && s.made <= s'.made
    decreases ms.Keys - s.cache.Keys, 0
  {
    if name in ms && name !in s.cache {
      var s1 := Entered(s, name);
      assert name in ms.Keys - s.cache.Keys && name !in ms.Keys - s1.cache.Keys;
      FilesApart(ms, s1, ms[name]);
    }
  }

  lemma {:induction false} FilesApart(ms: Modules, s: State, files: seq<Script>)
    requires Apart(s)
    ensures var s' := RunFiles(ms, s, files).0; Apart(s') && s.made <= s'.made
    decreases ms.Keys - s.cache.Keys, 2, |files|
  {
    if files != [] {
      ScriptApart(ms, s, files[0]);
      if RunScript(ms, s, files[0]).1 {
        FilesApart(ms, RunScript(ms, s, files[0]).0, files[1..]);
      }
    }
  }

  lemma {:induction false} ScriptApart(ms: Modules, s: State, script: Script)
    requires Apart(s)
    ensures var s' := RunScript(ms, s, script).0; Apart(s') && s.made <= s'.made
    decreases ms.Keys - s.cache.Keys, 1, script
  {
    if script.Require? {
      LoadApart(ms, s, script.name);
      var (s1, exports) := Load(ms, s, script.name);
      ScriptApart(ms, s1, if exports.Some? then script.next else script.caught);
    }
  }
}
