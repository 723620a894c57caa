/** The rule evaluator of `packages/metta/runner.py`. `Evaluate` runs the
    bandit rule and then the trade-weapon rule over an empty diff and
    returns the partial diff they build; it never changes the world or the
    intent (both are values here). */
module Rules {

  import opened WorldState
  import opened Lists
  import opened Numeric

  /** The part of a player record the evaluator writes. */
  datatype PlayerPatch = PlayerPatch(inventory: seq<string>)

  /** The part of a character record the evaluator writes. */
  datatype CharacterPatch = CharacterPatch(needs: seq<string>, trust: map<string, real>)

  /** A partial overlay of the world; `None` is a top-level key the diff
      does not hold. */
  datatype Diff = Diff(
    flags: Option<map<string, bool>>,
    players: Option<map<string, PlayerPatch>>,
    characters: Option<map<string, CharacterPatch>>)

  const EmptyDiff := Diff(None, None, None)
  const DangerThreshold := 0.7
  const DefaultPlayerId := "p1"

  /** The `festival_active` flag is set and true; a world without flags
      has no festival. */
  predicate FestivalActive(flags: Option<map<string, bool>>) {
    flags.Some? && FlagSet(flags.value, "festival_active")
  }

  /** The condition of the bandit rule: the first `forest` region has a
      danger above 0.7 (a missing danger reads as 0.0) and no festival is
      on. */
  predicate BanditsDue(w: World) {
    var forest := FirstRegion(w.regions, ForestId);
    forest.Some? && forest.value.danger.GetOr(0.0) > DangerThreshold && !FestivalActive(w.flags)
  }

  /** The bandit rule: adds a true `bandits` flag to the diff being built,
      creating the diff's `flags` entry when it is missing. */
  function SpawnBandits(w: World, d: Diff): (r: Diff)
    ensures r.players == d.players && r.characters == d.characters
    ensures BanditsDue(w) ==> r.flags == Some(d.flags.GetOr(map[])["bandits" := true])
    ensures !BanditsDue(w) ==> r == d
  {
    if BanditsDue(w) then d.(flags := Some(d.flags.GetOr(map[])["bandits" := true]))
    else d
  }

  /** The guard of the trade-weapon rule: verb `trade`, target
      `blacksmith`, item `rare_ore`. */
  predicate TradeRequested(i: Intent) {
    && i.verb == Some("trade")
    && Lookup(i.args, "target") == Some(BlacksmithId)
    && Lookup(i.args, "item") == Some(RareOre)
  }

  /** The acting player; an intent without one acts for `p1`. */
  function ActingPlayer(i: Intent): string {
    i.playerId.GetOr(DefaultPlayerId)
  }

  /** The player's inventory as the rule reads it: a missing player or a
      missing inventory reads as empty. */
  function HeldInventory(w: World, pid: string): seq<string> {
    if pid in w.players then w.players[pid].inventory.GetOr([]) else []
  }

  /** A character's needs; missing or null reads as none. */
  function NeedsOf(c: Character): seq<string> {
    c.needs.GetOr([])
  }

  /** A character's trust map; missing or null reads as empty. */
  function TrustOf(c: Character): map<string, real> {
    c.trust.GetOr(map[])
  }

  /** The first `blacksmith` character exists and needs `ore`. */
  predicate BlacksmithNeedsOre(w: World) {
    var b := FirstCharacter(w.characters, BlacksmithId);
    b.Some? && Ore in NeedsOf(b.value)
  }

  /** The trade-weapon rule, step by step as the source does it: grant
      `rare_ore` to a local copy of the inventory when it is missing, then
      commit only if the blacksmith needs ore and the copy holds the ore. */
  function TradeWeapon(w: World, i: Intent, d: Diff): (r: Diff)
    ensures r.flags == d.flags
    ensures !TradeCommits(w, i) ==> r == d
    ensures TradeCommits(w, i) ==>
              && r.players.Some? && r.players.value.Keys == d.players.GetOr(map[]).Keys + {ActingPlayer(i)}
              && r.characters.Some? && r.characters.value.Keys == d.characters.GetOr(map[]).Keys + {BlacksmithId}
  {
    if !TradeRequested(i) then d
    else
      var pid := ActingPlayer(i);
      var inv := HeldInventory(w, pid);
      var blacksmith := FirstCharacter(w.characters, BlacksmithId);
      var needsOre := blacksmith.Some? && Ore in NeedsOf(blacksmith.value);
      var granted := if RareOre !in inv then inv + [RareOre] else inv;
      if needsOre && RareOre in granted then
        var traded := RemoveFirst(granted, RareOre);
        var armed := if Sword !in traded then traded + [Sword] else traded;
        var trust := TrustOf(blacksmith.value);
        var patch := CharacterPatch(
          RemoveAll(NeedsOf(blacksmith.value), Ore),
          trust[pid := Round2(Lookup(trust, pid).GetOr(0.0) + TrustStep)]);
        d.(players := Some(d.players.GetOr(map[])[pid := PlayerPatch(armed)]),
           characters := Some(d.characters.GetOr(map[])[BlacksmithId := patch]))
      else d
  }

  /** When the trade-weapon rule commits: the local grant makes the
      inventory check always pass, so only the guard and the blacksmith's
      need for ore matter. */
  predicate TradeCommits(w: World, i: Intent) {
    TradeRequested(i) && BlacksmithNeedsOre(w)
  }

  /** The evaluator: the bandit rule, then the trade rule, over an empty diff.
      The diff holds `flags` exactly when bandits are due, and `players`
      and `characters` exactly when the trade commits; each touches one
      key. */
  function Evaluate(w: World, i: Intent): (r: Diff)
    ensures r.flags.Some? <==> BanditsDue(w)
    ensures r.flags.Some? ==> r.flags.value == map["bandits" := true]
    ensures r.players.Some? <==> TradeCommits(w, i)
    ensures r.characters.Some? <==> TradeCommits(w, i)
    ensures r.players.Some? ==> r.players.value.Keys == {ActingPlayer(i)}
    ensures r.characters.Some? ==> r.characters.value.Keys == {BlacksmithId}
  {
    var d := SpawnBandits(w, EmptyDiff);
    assert d.players.None? && d.characters.None?;
    TradeWeapon(w, i, d)
  }

  /** The two rules write disjoint keys, so running them in the other
      order builds the same diff, whatever diff they start from. */
  lemma RulesCommute(w: World, i: Intent, d: Diff)
    ensures SpawnBandits(w, TradeWeapon(w, i, d)) == TradeWeapon(w, i, SpawnBandits(w, d))
  {
  }

  /** On commit, the inventory written is the player's original inventory
      with its first `rare_ore` removed (if any) and `sword` appended only
      when the player held none; so exactly one `sword` is there unless
      the player already had some. */
  lemma EvaluateTradeInventory(w: World, i: Intent)
    requires TradeCommits(w, i)
    ensures var inv := HeldInventory(w, ActingPlayer(i));
            var r := Evaluate(w, i);
            && r.players.Some? && ActingPlayer(i) in r.players.value
            && var out := r.players.value[ActingPlayer(i)].inventory;
            && out == RemoveFirst(inv, RareOre) + (if Sword in inv then [] else [Sword])
            && Sword in out
            && multiset(out)[Sword] == (if Sword in inv then multiset(inv)[Sword] else 1)
  {
    var inv := HeldInventory(w, ActingPlayer(i));
    if RareOre !in inv {
      RemoveFirstOfAppended(inv, RareOre);
    } else {
      RemoveFirstKeepsOthers(inv, RareOre, Sword);
    }
    var rest := RemoveFirst(inv, RareOre);
    assert multiset(rest)[Sword] == multiset(inv)[Sword];
  }

  /** On commit, the blacksmith's needs lose every `ore` and keep all
      other entries, with their multiplicities. */
  lemma EvaluateTradeNeeds(w: World, i: Intent)
    requires TradeCommits(w, i)
    ensures var b := FirstCharacter(w.characters, BlacksmithId).value;
            var r := Evaluate(w, i);
            && r.characters.Some? && BlacksmithId in r.characters.value
            && var needs := r.characters.value[BlacksmithId].needs;
            && needs == RemoveAll(NeedsOf(b), Ore)
            && Ore !in needs
            && forall n :: n != Ore ==> multiset(needs)[n] == multiset(NeedsOf(b))[n]
  {
  }

  /** On commit, the trust map written is the blacksmith's trust map with
      only the acting player's entry changed: raised by 0.2 from its old
      value (0.0 when absent) and rounded to hundredths, which is exactly
      +0.2 when the old value was a whole number of hundredths. */
  lemma EvaluateTradeTrust(w: World, i: Intent)
    requires TradeCommits(w, i)
    ensures var b := FirstCharacter(w.characters, BlacksmithId).value;
            var pid := ActingPlayer(i);
            var prior := Lookup(TrustOf(b), pid).GetOr(0.0);
            var r := Evaluate(w, i);
            && r.characters.Some? && BlacksmithId in r.characters.value
            && var trust := r.characters.value[BlacksmithId].trust;
            && trust.Keys == TrustOf(b).Keys + {pid}
            && (forall p :: p in TrustOf(b) && p != pid ==> trust[p] == TrustOf(b)[p])
            && IsCents(trust[pid])
            && -0.005 <= trust[pid] - (prior + TrustStep) <= 0.005
            && (IsCents(prior) ==> trust[pid] == prior + TrustStep)
  {
    var prior := Lookup(TrustOf(FirstCharacter(w.characters, BlacksmithId).value), ActingPlayer(i)).GetOr(0.0);
    CentsClosedUnderDelta(prior);
  }

  /** Adding 0.2 keeps a whole number of hundredths whole. */
  lemma CentsClosedUnderDelta(x: real)
    ensures IsCents(x) ==> IsCents(x + TrustStep)
  {
    if IsCents(x) {
      var k := (x * 100.0).Floor;
      assert (x + TrustStep) * 100.0 == (k + 20) as real;
    }
  }

  /** When the trade does not commit, the diff holds no `players` and no
      `characters` entry, even though the rule granted `rare_ore` to its
      local copy of the inventory. */
  lemma EvaluateNoCommit(w: World, i: Intent)
    requires !TradeCommits(w, i)
    ensures Evaluate(w, i).players.None? && Evaluate(w, i).characters.None?
    ensures Evaluate(w, i) == SpawnBandits(w, EmptyDiff)
  {
  }

  /** The first trade from an empty inventory with a blacksmith that needs
      only ore: the diff gives the player `[sword]`, the blacksmith no
      needs, and a trust of 0.2. */
  lemma FirstTradeScenario(w: World, pid: string)
    requires pid !in w.players || w.players[pid].inventory.GetOr([]) == []
    requires |w.characters| > 0
    requires w.characters[0].id == BlacksmithId && w.characters[0].needs == Some([Ore]) && w.characters[0].trust == Some(map[])
    ensures var r := Evaluate(w, Intent(Some(pid), Some("trade"), map["target" := BlacksmithId, "item" := RareOre]));
            && r.players == Some(map[pid := PlayerPatch([Sword])])
            && r.characters == Some(map[BlacksmithId := CharacterPatch([], map[pid := 0.2])])
  {
    var i := Intent(Some(pid), Some("trade"), map["target" := BlacksmithId, "item" := RareOre]);
    assert TradeRequested(i);
    assert FirstCharacter(w.characters, BlacksmithId) == Some(w.characters[0]);
    assert BlacksmithNeedsOre(w);
    EvaluateTradeInventory(w, i);
    StartingTrust();
    var r := Evaluate(w, i);
    assert r.players.value[pid].inventory == [Sword];
    assert RemoveAll([Ore], Ore) == [];
  }

  /** A player without trust who completes a trade starts at 0.2. */
  lemma StartingTrust()
    ensures Round2(0.0 + TrustStep) == 0.2
  {
    assert IsCents(0.2) by {
      assert 0.2 * 100.0 == 20 as real;
    }
  }

  /** Retrying the trade once the blacksmith no longer needs ore commits
      nothing: the diff carries no inventory, needs or trust. */
  lemma RetryScenario(w: World, pid: string)
    requires |w.characters| > 0
    requires w.characters[0].id == BlacksmithId && NeedsOf(w.characters[0]) == []
    ensures var r := Evaluate(w, Intent(Some(pid), Some("trade"), map["target" := BlacksmithId, "item" := RareOre]));
            r.players.None? && r.characters.None?
  {
    assert FirstCharacter(w.characters, BlacksmithId) == Some(w.characters[0]);
  }
}
