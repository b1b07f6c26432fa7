/** Overriding environment variables and restoring them afterwards. */
module EnvOverrides {
  import opened Options

  type Vars = map<string, string>
  datatype Override = Override(key: string, value: string)
  datatype Saved = Saved(key: string, before: Option<string>)

  function Get(vars: Vars, key: string): Option<string> {
    if key in vars then Some(vars[key]) else None
  }

  function Put(vars: Vars, key: string, value: Option<string>): Vars {
    if value.None? then vars - {key} else vars[key := value.value]
  }

  /** The keys of a record are distinct. */
  ghost predicate IsRecord(overrides: seq<Override>) {
    forall i, j :: 0 <= i < j < |overrides| ==> overrides[i].key != overrides[j].key
  }

  function Applied(vars: Vars, overrides: seq<Override>): Vars {
    if overrides == [] then vars
    else
      var front, last := overrides[..|overrides| - 1], overrides[|overrides| - 1];
      Put(Applied(vars, front), last.key, Some(last.value))
  }

  function SnapshotOf(vars: Vars, overrides: seq<Override>): seq<Saved> {
    seq(|overrides|, i requires 0 <= i < |overrides| => Saved(overrides[i].key, Get(vars, overrides[i].key)))
  }

  function Restored(vars: Vars, snapshot: seq<Saved>): Vars {
    if snapshot == [] then vars
    else
      var front, last := snapshot[..|snapshot| - 1], snapshot[|snapshot| - 1];
      Put(Restored(vars, front), last.key, last.before)
  }

  class Environment {
    var vars: Vars

    method ApplyEnvOverrides(overrides: seq<Override>) returns (snapshot: seq<Saved>)
      requires IsRecord(overrides)
      modifies this
      ensures vars == Applied(old(vars), overrides)
      ensures snapshot == SnapshotOf(old(vars), overrides)
    {
      snapshot := [];
      for i := 0 to |overrides|
        invariant vars == Applied(old(vars), overrides[..i])
        invariant snapshot == SnapshotOf(old(vars), overrides)[..i]
      {
        AppliedGet(old(vars), overrides[..i], overrides[i].key);
        assert overrides[..i + 1][..i] == overrides[..i];
        snapshot := snapshot + [Saved(overrides[i].key, Get(vars, overrides[i].key))];
        vars := vars[overrides[i].key := overrides[i].value];
      }
      assert overrides[..|overrides|] == overrides;
    }

    method RestoreEnv(snapshot: seq<Saved>)
      modifies this
      ensures vars == Restored(old(vars), snapshot)
    {
      for i := 0 to |snapshot|
        invariant vars == Restored(old(vars), snapshot[..i])
      {
        assert snapshot[..i + 1][..i] == snapshot[..i];
        if snapshot[i].before.None? {
          vars := vars - {snapshot[i].key};
        } else {
          vars := vars[snapshot[i].key := snapshot[i].before.value];
        }
      }
      assert snapshot[..|snapshot|] == snapshot;
    }
  }

  ghost predicate Overrides(overrides: seq<Override>, key: string) {
    exists o :: o in overrides && o.key == key
  }

  /** An overridden key has the last value given for it; the other keys keep theirs. */
  lemma {:induction false} AppliedGet(vars: Vars, overrides: seq<Override>, key: string)
    ensures !Overrides(overrides, key) ==> Get(Applied(vars, overrides), key) == Get(vars, key)
    ensures IsRecord(overrides) ==>
              forall o :: o in overrides && o.key == key ==> Get(Applied(vars, overrides), key) == Some(o.value)
  {
    if overrides != [] {
      var front, last := overrides[..|overrides| - 1], overrides[|overrides| - 1];
      assert overrides == front + [last];
      AppliedGet(vars, front, key);
      if Overrides(front, key) {
        var o :| o in front && o.key == key;
        assert o in overrides;
      }
      assert last in overrides;
    }
  }

  /** Restoring puts every key of the snapshot back and leaves the other keys as they are now. */
  lemma {:induction false} RestoredGet(now: Vars, before: Vars, overrides: seq<Override>, key: string)
    ensures Get(Restored(now, SnapshotOf(before, overrides)), key)
         == if Overrides(overrides, key) then Get(before, key) else Get(now, key)
  {
    if overrides != [] {
      var front, last := overrides[..|overrides| - 1], overrides[|overrides| - 1];
      assert overrides == front + [last] && last in overrides;
      assert SnapshotOf(before, overrides)[..|front|] == SnapshotOf(before, front);
      RestoredGet(now, before, front, key);
      if Overrides(overrides, key) && !Overrides(front, key) {
        assert key == last.key;
      }
    }
  }

  lemma SameVars(one: Vars, other: Vars)
    requires forall key :: Get(one, key) == Get(other, key)
    ensures one == other
  {
    forall key ensures key in one <==> key in other {
      assert Get(one, key) == Get(other, key);
    }
    forall key | key in one ensures one[key] == other[key] {
      assert Get(one, key) == Get(other, key);
    }
  }

  // ----- Nested scopes

  /** What happens between an override and its restoration: plain assignments and further scopes. */
  datatype Step = Assign(key: string, value: Option<string>) | Scope(overrides: seq<Override>, body: seq<Step>)

  function Run(steps: seq<Step>, vars: Vars): Vars {
    if steps == [] then vars else Run(steps[1..], RunStep(steps[0], vars))
  }

  function RunStep(step: Step, vars: Vars): Vars {
    match step
    case Assign(key, value) => Put(vars, key, value)
    case Scope(overrides, body) => Restored(Run(body, Applied(vars, overrides)), SnapshotOf(vars, overrides))
  }

  /** A key that some plain assignment sets where no enclosing scope overrides it. */
  ghost predicate Escapes(steps: seq<Step>, key: string) {
    exists s :: s in steps && StepEscapes(s, key)
  }

  ghost predicate StepEscapes(step: Step, key: string) {
    match step
    case Assign(k, _) => k == key
    case Scope(overrides, body) => !Overrides(overrides, key) && Escapes(body, key)
  }

  /**
   Scopes restored in last-in, first-out order leave every key as it was, except those set outside any scope that
   overrides them.
   */
  lemma {:induction false} ScopesRestore(steps: seq<Step>, vars: Vars, key: string)
    requires !Escapes(steps, key)
    ensures Get(Run(steps, vars), key) == Get(vars, key)
  {
    if steps != [] {
      assert steps[0] in steps && forall s :: s in steps[1..] ==> s in steps;
      StepRestores(steps[0], vars, key);
      ScopesRestore(steps[1..], RunStep(steps[0], vars), key);
    }
  }

  lemma {:induction false} StepRestores(step: Step, vars: Vars, key: string)
    requires !StepEscapes(step, key)
    ensures Get(RunStep(step, vars), key) == Get(vars, key)
  {
    match step
    case Assign(_, _) =>
    case Scope(overrides, body) =>
      RestoredGet(Run(body, Applied(vars, overrides)), vars, overrides, key);
      if !Overrides(overrides, key) {
        AppliedGet(vars, overrides, key);
        ScopesRestore(body, Applied(vars, overrides), key);
      }
  }

  /** The last thing that the steps set the key to outside of any scope that overrides it, if they do. */
  ghost function LastSet(steps: seq<Step>, key: string): Option<Option<string>> {
    if steps == [] then None
    else
      var later := LastSet(steps[1..], key);
      if later.Some? then later else StepSets(steps[0], key)
  }

  ghost function StepSets(step: Step, key: string): Option<Option<string>> {
    match step
    case Assign(k, value) => if k == key then Some(value) else None
    case Scope(overrides, body) => if Overrides(overrides, key) then None else LastSet(body, key)
  }

  /** What scopes leave behind: of a key that something set outside every scope that overrides it, the last value. */
  lemma {:induction false} ScopesLeave(steps: seq<Step>, vars: Vars, key: string)
    ensures Get(Run(steps, vars), key) == LastSet(steps, key).GetOr(Get(vars, key))
  {
    if steps != [] {
      StepLeaves(steps[0], vars, key);
      ScopesLeave(steps[1..], RunStep(steps[0], vars), key);
    }
  }

  lemma {:induction false} StepLeaves(step: Step, vars: Vars, key: string)
    ensures Get(RunStep(step, vars), key) == StepSets(step, key).GetOr(Get(vars, key))
  {
    match step
    case Assign(_, _) =>
    case Scope(overrides, body) =>
      RestoredGet(Run(body, Applied(vars, overrides)), vars, overrides, key);
      if !Overrides(overrides, key) {
        AppliedGet(vars, overrides, key);
        ScopesLeave(body, Applied(vars, overrides), key);
      }
  }

  /** Nested overrides with nothing assigned between them give back the environment itself. */
  lemma NestedScopesRestoreAll(steps: seq<Step>, vars: Vars)
    requires forall key :: !Escapes(steps, key)
    ensures Run(steps, vars) == vars
  {
    forall key ensures Get(Run(steps, vars), key) == Get(vars, key) {
      ScopesRestore(steps, vars, key);
    }
    SameVars(Run(steps, vars), vars);
  }

  // ----- Restoring in the wrong order

  /** The outer override is restored before the inner one. */
  function OutOfOrder(vars: Vars, outer: seq<Override>, inner: seq<Override>): Vars {
    var overridden := Applied(vars, outer);
    Restored(Restored(Applied(overridden, inner), SnapshotOf(vars, outer)), SnapshotOf(overridden, inner))
  }

  /**
   First-in, first-out restoration is harmless exactly when the outer scope changed no key that the inner one overrides.
   */
  lemma OutOfOrderRestores(vars: Vars, outer: seq<Override>, inner: seq<Override>)
    ensures OutOfOrder(vars, outer, inner) == vars
       <==> forall key :: Overrides(inner, key) ==> Get(Applied(vars, outer), key) == Get(vars, key)
  {
    var overridden := Applied(vars, outer);
    forall key
      ensures Get(OutOfOrder(vars, outer, inner), key) == Get(if Overrides(inner, key) then overridden else vars, key)
    {
      RestoredGet(Restored(Applied(overridden, inner), SnapshotOf(vars, outer)), overridden, inner, key);
      RestoredGet(Applied(overridden, inner), vars, outer, key);
      AppliedGet(overridden, inner, key);
      AppliedGet(vars, outer, key);
    }
    if forall key :: Overrides(inner, key) ==> Get(overridden, key) == Get(vars, key) {
      SameVars(OutOfOrder(vars, outer, inner), vars);
    }
  }

  /** Two scopes that override one variable, restored in the wrong order, leave the value of the outer one behind. */
  lemma OuterValueStays(vars: Vars)
    requires vars == map["MODE" := "live"]
    ensures OutOfOrder(vars, [Override("MODE", "smoke")], [Override("MODE", "replay")]) != vars
    ensures Get(OutOfOrder(vars, [Override("MODE", "smoke")], [Override("MODE", "replay")]), "MODE") == Some("smoke")
  {
    var outer, inner := [Override("MODE", "smoke")], [Override("MODE", "replay")];
    var overridden := Applied(vars, outer);
    assert outer[0] in outer && inner[0] in inner;
    assert Overrides(outer, "MODE") && Overrides(inner, "MODE");
    AppliedGet(vars, outer, "MODE");
    RestoredGet(Restored(Applied(overridden, inner), SnapshotOf(vars, outer)), overridden, inner, "MODE");
    assert |"smoke"| == 5 && |"live"| == 4;
  }
}
