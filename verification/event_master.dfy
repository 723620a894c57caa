/** The conditional check of `agents/eventmaster/service.py`
    (`maybe_fire`). It reads the world it is handed, sets `flags.bandits`
    on that world when the bandit condition holds, and reports whether it
    did. The world it changes is the request's copy, and the service
    answers only `changed`: no caller sees the changed copy, and the world
    service's stored state is not an input here and is never changed by
    it. `Outcome.world` is kept so that the contract can say what the
    check did to its copy. */
module EventMaster {

  import opened WorldState
  import Rules

  /** What the check reports, with the world it may have changed. */
  datatype Outcome = Outcome(changed: bool, world: World)

  /** Every read the check makes succeeds: the first forest region (if
      any) has a danger, and when that danger is above 0.7 the world has a
      `flags` map to look `festival_active` up in. */
  predicate CanCheck(w: World) {
    var forest := FirstRegion(w.regions, ForestId);
    forest.Some? ==>
      && forest.value.danger.Some?
      && (forest.value.danger.value > Rules.DangerThreshold ==> w.flags.Some?)
  }

  /** The conditional check. It fires exactly when the evaluator's bandit rule
      would; firing adds `bandits = true` to the flags and changes nothing
      else, and not firing leaves the world as it was. */
  function MaybeFire(w: World): (r: Outcome)
    requires CanCheck(w)
    ensures r.changed <==> Rules.BanditsDue(w)
    ensures r.changed ==>
              && w.flags.Some? && r.world.flags.Some?
              && FlagSet(r.world.flags.value, "bandits")
              && r.world.flags.value.Keys == w.flags.value.Keys + {"bandits"}
              && (forall k :: k in w.flags.value && k != "bandits" ==> r.world.flags.value[k] == w.flags.value[k])
              && r.world == w.(flags := r.world.flags)
    ensures !r.changed ==> r.world == w
  {
    var forest := FirstRegion(w.regions, ForestId);
    if forest.Some? && forest.value.danger.value > Rules.DangerThreshold
       && !FlagSet(w.flags.value, "festival_active")
    then
      Outcome(true, w.(flags := Some(w.flags.value["bandits" := true])))
    else
      Outcome(false, w)
  }

  /** Running the check again on what it returned changes nothing more
      and reports the same: its condition never reads `bandits`. */
  lemma MaybeFireIdempotent(w: World)
    requires CanCheck(w)
    ensures CanCheck(MaybeFire(w).world)
    ensures MaybeFire(MaybeFire(w).world) == MaybeFire(w)
  {
    var r := MaybeFire(w);
    assert r.world.regions == w.regions;
    if r.changed {
      assert FlagSet(r.world.flags.value, "festival_active") == FlagSet(w.flags.value, "festival_active");
      assert r.world.flags.value["bandits" := true] == r.world.flags.value;
    }
  }

  /** The check agrees with the evaluator: for every intent, it reports a
      change exactly when `evaluate`'s diff sets `flags.bandits`. */
  lemma AgreesWithEvaluate(w: World, i: Intent)
    requires CanCheck(w)
    ensures MaybeFire(w).changed <==> Rules.Evaluate(w, i).flags == Some(map["bandits" := true])
  {
  }
}
