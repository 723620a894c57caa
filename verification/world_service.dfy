/** The state transition of `agents/world/service.py` (`apply_intent`):
    create the player if missing, apply the verb's branch, then raise the
    danger of every `forest` region by 0.05, clamped to [0, 1]. The
    service's stored state is the `World` passed in and returned. */
module WorldService {

  import opened WorldState
  import opened Lists
  import opened Numeric

  const StartLocation := "town_square"
  const DangerStep := 0.05

  /** The record `setdefault` stores for a player seen for the first time. */
  const NewPlayer := Player(Some(StartLocation), Some([]))

  /** The argument under `key`, if the intent carries one. */
  function Arg(i: Intent, key: string): Option<string> {
    Lookup(i.args, key)
  }

  /** The trade the world service understands: `rare_ore` to the
      blacksmith. */
  predicate OreTrade(i: Intent) {
    Arg(i, "target") == Some(BlacksmithId) && Arg(i, "item") == Some(RareOre)
  }

  /** The players once the acting player is sure to exist. */
  function WithPlayer(players: map<string, Player>, pid: string): (r: map<string, Player>)
    ensures pid in r
    ensures r.Keys == players.Keys + {pid}
    ensures pid in players ==> r == players
    ensures pid !in players ==> r[pid] == NewPlayer
    ensures forall p :: p in players ==> r[p] == players[p]
  {
    if pid in players then players else players[pid := NewPlayer]
  }

  /** Every read `apply_intent` makes succeeds: the request carries a
      player id and a verb, every forest region has a danger, a blacksmith
      spoken to has a mood, and a trade reads the player's inventory and,
      when the ore is there, the blacksmiths' needs and trust. */
  predicate Applicable(w: World, i: Intent) {
    && i.playerId.Some? && i.verb.Some?
    && (forall j :: 0 <= j < |w.regions| && w.regions[j].id == ForestId ==> w.regions[j].danger.Some?)
    && (i.verb.value == "talk" && Arg(i, "target") == Some(BlacksmithId) ==>
          forall j :: 0 <= j < |w.characters| && w.characters[j].id == BlacksmithId ==> w.characters[j].mood.Some?)
    && (i.verb.value == "trade" && OreTrade(i) ==>
          var p := WithPlayer(w.players, i.playerId.value)[i.playerId.value];
          && p.inventory.Some?
          && (RareOre in p.inventory.value ==>
                forall j :: 0 <= j < |w.characters| && w.characters[j].id == BlacksmithId ==>
                  w.characters[j].needs.Some? && w.characters[j].trust.Some?))
  }

  /** Where `move` goes: the target, or `town_square` when the target is
      missing or empty. */
  function Destination(i: Intent): string {
    var t := Arg(i, "target");
    if t.Some? && t.value != "" then t.value else StartLocation
  }

  /** A blacksmith who was `wary` becomes `neutral`. */
  function Calm(c: Character): Character
    requires c.mood.Some?
  {
    c.(mood := Some(if c.mood.value == "wary" then "neutral" else c.mood.value))
  }

  /** The blacksmith's side of a completed trade: no `ore` left in its
      needs, every other need kept as often as it was, the player's trust
      0.2 above what it was (0.0 when absent) without rounding, every
      other trust entry kept, and its id and mood untouched. */
  function Settle(c: Character, pid: string): (r: Character)
    requires c.needs.Some? && c.trust.Some?
    ensures r.id == c.id && r.mood == c.mood
    ensures r.needs == Some(RemoveAll(c.needs.value, Ore))
    ensures r.needs.Some? && Ore !in r.needs.value
    ensures forall n :: n != Ore ==> multiset(r.needs.value)[n] == multiset(c.needs.value)[n]
    ensures r.trust.Some? && r.trust.value.Keys == c.trust.value.Keys + {pid}
    ensures r.trust.value[pid] == (if pid in c.trust.value then c.trust.value[pid] else 0.0) + TrustStep
    ensures forall p :: p in c.trust.value && p != pid ==> r.trust.value[p] == c.trust.value[p]
  {
    var trust := c.trust.value;
    c.(needs := Some(RemoveAll(c.needs.value, Ore)),
       trust := Some(trust[pid := Lookup(trust, pid).GetOr(0.0) + TrustStep]))
  }

  /** Every character whose id is `blacksmith` calmed, in place. */
  function CalmBlacksmiths(cs: seq<Character>): (r: seq<Character>)
    requires forall j :: 0 <= j < |cs| && cs[j].id == BlacksmithId ==> cs[j].mood.Some?
    ensures |r| == |cs|
    ensures forall j :: 0 <= j < |cs| ==> r[j] == (if cs[j].id == BlacksmithId then Calm(cs[j]) else cs[j])
  {
    seq(|cs|, j requires 0 <= j < |cs| => if cs[j].id == BlacksmithId then Calm(cs[j]) else cs[j])
  }

  /** Every character whose id is `blacksmith` settled, in place. */
  function SettleBlacksmiths(cs: seq<Character>, pid: string): (r: seq<Character>)
    requires forall j :: 0 <= j < |cs| && cs[j].id == BlacksmithId ==> cs[j].needs.Some? && cs[j].trust.Some?
    ensures |r| == |cs|
    ensures forall j :: 0 <= j < |cs| ==> r[j] == (if cs[j].id == BlacksmithId then Settle(cs[j], pid) else cs[j])
  {
    seq(|cs|, j requires 0 <= j < |cs| => if cs[j].id == BlacksmithId then Settle(cs[j], pid) else cs[j])
  }

  /** The closing step over the regions: every `forest` region's
      danger goes up by 0.05, clamped to [0, 1]. */
  function RaiseForest(rs: seq<Region>): (r: seq<Region>)
    requires forall j :: 0 <= j < |rs| && rs[j].id == ForestId ==> rs[j].danger.Some?
    ensures |r| == |rs|
    ensures forall j :: 0 <= j < |rs| ==> r[j] == (if rs[j].id == ForestId then rs[j].(danger := Some(Clamp(rs[j].danger.value + DangerStep))) else rs[j])
  {
    seq(|rs|, j requires 0 <= j < |rs| =>
      if rs[j].id == ForestId then rs[j].(danger := Some(Clamp(rs[j].danger.value + DangerStep))) else rs[j])
  }

  /** The `if`/`elif` chain on the verb, applied once the player exists. */
  function ApplyVerb(w: World, i: Intent): World
    requires Applicable(w, i)
    requires i.playerId.value in w.players
  {
    var pid := i.playerId.value;
    var player := w.players[pid];
    match i.verb.value
    case "move" =>
      w.(players := w.players[pid := player.(loc := Some(Destination(i)))])
    case "inspect" =>
      w
    case "talk" =>
      if Arg(i, "target") == Some(BlacksmithId) then w.(characters := CalmBlacksmiths(w.characters)) else w
    case "trade" =>
      if OreTrade(i) then
        var inv := player.inventory.value;
        if RareOre in inv then
          w.(players := w.players[pid := player.(inventory := Some(RemoveFirst(inv, RareOre) + [Sword]))],
             characters := SettleBlacksmiths(w.characters, pid))
        else
          w.(players := w.players[pid := player.(inventory := Some(inv + [RareOre]))])
      else w
    case _ =>
      w
  }

  /** The world service's intent handler. Whatever the verb: the player exists afterwards (a
      new one at `town_square` with nothing), no other player, flag or
      item changes, regions and characters keep their order and ids, the
      regions other than `forest` are untouched, and every forest danger
      lands in [0, 1], never below its old value when that was in range. */
  function ApplyIntent(w: World, i: Intent): (r: World)
    requires Applicable(w, i)
    ensures i.playerId.value in r.players
    ensures r.players.Keys == w.players.Keys + {i.playerId.value}
    ensures forall p :: p in w.players && p != i.playerId.value ==> r.players[p] == w.players[p]
    ensures r.flags == w.flags && r.items == w.items
    ensures |r.regions| == |w.regions| && |r.characters| == |w.characters|
    ensures forall j :: 0 <= j < |w.regions| ==> r.regions[j].id == w.regions[j].id
    ensures forall j :: 0 <= j < |w.regions| && w.regions[j].id != ForestId ==> r.regions[j] == w.regions[j]
    ensures forall j :: 0 <= j < |w.regions| && w.regions[j].id == ForestId ==>
              && r.regions[j].danger == Some(Clamp(w.regions[j].danger.value + DangerStep))
              && 0.0 <= r.regions[j].danger.value <= 1.0
              && (0.0 <= w.regions[j].danger.value <= 1.0 ==>
                    w.regions[j].danger.value <= r.regions[j].danger.value)
    ensures forall j :: 0 <= j < |w.characters| ==> r.characters[j].id == w.characters[j].id
    ensures forall j :: 0 <= j < |w.characters| && w.characters[j].id != BlacksmithId ==> r.characters[j] == w.characters[j]
  {
    var pid := i.playerId.value;
    var created := w.(players := WithPlayer(w.players, pid));
    var acted := ApplyVerb(created, i);
    acted.(regions := RaiseForest(acted.regions))
  }

  /** A player seen for the first time is created at `town_square` with
      an empty inventory; a known player's record is not reset. Neither
      happens to it for `inspect`, `talk` or an unknown verb beyond that. */
  lemma PlayerCreation(w: World, i: Intent)
    requires Applicable(w, i)
    requires i.verb.value != "move" && i.verb.value != "trade"
    ensures var pid := i.playerId.value;
            ApplyIntent(w, i).players[pid] == (if pid in w.players then w.players[pid] else NewPlayer)
  {
  }

  /** `move` sets the player's location to the target, or to
      `town_square` when the target is missing or empty, and changes no
      other field of the player and no character. */
  lemma MoveSetsLocation(w: World, i: Intent)
    requires Applicable(w, i) && i.verb.value == "move"
    ensures var pid := i.playerId.value;
            var before := WithPlayer(w.players, pid)[pid];
            var after := ApplyIntent(w, i).players[pid];
            && after.loc == Some(if Arg(i, "target").Some? && Arg(i, "target").value != "" then Arg(i, "target").value else StartLocation)
            && after.inventory == before.inventory
    ensures ApplyIntent(w, i).characters == w.characters
  {
  }

  /** `talk` to the blacksmith turns every `wary` blacksmith `neutral` and
      leaves any other mood and every other field as it was; `talk` to
      anyone else changes no character. The player is only created. */
  lemma TalkCalmsBlacksmith(w: World, i: Intent)
    requires Applicable(w, i) && i.verb.value == "talk"
    ensures var r := ApplyIntent(w, i);
            && r.players == WithPlayer(w.players, i.playerId.value)
            && (Arg(i, "target") != Some(BlacksmithId) ==> r.characters == w.characters)
            && (Arg(i, "target") == Some(BlacksmithId) ==>
                  forall j :: 0 <= j < |w.characters| && w.characters[j].id == BlacksmithId ==>
                    && r.characters[j].mood == Some(if w.characters[j].mood.value == "wary" then "neutral" else w.characters[j].mood.value)
                    && r.characters[j].needs == w.characters[j].needs
                    && r.characters[j].trust == w.characters[j].trust)
  {
  }

  /** A trade of `rare_ore` with the blacksmith by a player holding the
      ore removes the first ore, appends a `sword` even if one is there,
      and for every blacksmith, needed ore or not, drops every `ore` need
      and adds exactly 0.2 (unrounded) to the player's trust, from 0.0 when
      there was none; other trust entries stay. */
  lemma TradeWithOre(w: World, i: Intent)
    requires Applicable(w, i) && i.verb.value == "trade" && OreTrade(i)
    requires var pid := i.playerId.value;
             RareOre in WithPlayer(w.players, pid)[pid].inventory.value
    ensures var pid := i.playerId.value;
            var inv := WithPlayer(w.players, pid)[pid].inventory.value;
            var r := ApplyIntent(w, i);
            && r.players[pid].inventory == Some(RemoveFirst(inv, RareOre) + [Sword])
            && multiset(r.players[pid].inventory.value)[Sword] == multiset(inv)[Sword] + 1
            && r.players[pid].loc == WithPlayer(w.players, pid)[pid].loc
            && forall j :: 0 <= j < |w.characters| && w.characters[j].id == BlacksmithId ==>
                 var c := w.characters[j];
                 var prior := Lookup(c.trust.value, pid).GetOr(0.0);
                 && r.characters[j].needs == Some(RemoveAll(c.needs.value, Ore))
                 && Ore !in r.characters[j].needs.value
                 && (forall n :: n != Ore ==> multiset(r.characters[j].needs.value)[n] == multiset(c.needs.value)[n])
                 && r.characters[j].trust.Some?
                 && r.characters[j].trust.value.Keys == c.trust.value.Keys + {pid}
                 && r.characters[j].trust.value[pid] == prior + TrustStep
                 && (forall p :: p in c.trust.value && p != pid ==> r.characters[j].trust.value[p] == c.trust.value[p])
                 && r.characters[j].mood == c.mood
  {
    var pid := i.playerId.value;
    var inv := WithPlayer(w.players, pid)[pid].inventory.value;
    RemoveFirstKeepsCount(inv, RareOre, Sword);
  }

  /** `sword` is not `rare_ore`, so removing the ore keeps the sword count. */
  lemma RemoveFirstKeepsCount(s: seq<string>, x: string, y: string)
    requires x != y
    ensures multiset(RemoveFirst(s, x))[y] == multiset(s)[y]
    ensures multiset(RemoveFirst(s, x) + [y])[y] == multiset(s)[y] + 1
  {
  }

  /** The same trade by a player without the ore only hands the ore over:
      `rare_ore` is appended and no character changes. */
  lemma TradeWithoutOre(w: World, i: Intent)
    requires Applicable(w, i) && i.verb.value == "trade" && OreTrade(i)
    requires var pid := i.playerId.value;
             RareOre !in WithPlayer(w.players, pid)[pid].inventory.value
    ensures var pid := i.playerId.value;
            var inv := WithPlayer(w.players, pid)[pid].inventory.value;
            var r := ApplyIntent(w, i);
            && r.players[pid] == WithPlayer(w.players, pid)[pid].(inventory := Some(inv + [RareOre]))
            && r.characters == w.characters
  {
  }

  /** A trade with any other target or item, `inspect`, and any verb the
      service does not know change nothing but the player's creation and
      the forest danger. */
  lemma OtherIntentsOnlyCreateAndRaise(w: World, i: Intent)
    requires Applicable(w, i)
    requires i.verb.value !in {"move", "talk", "trade"} || (i.verb.value == "trade" && !OreTrade(i))
    ensures var r := ApplyIntent(w, i);
            && r.players == WithPlayer(w.players, i.playerId.value)
            && r.characters == w.characters
            && r.regions == RaiseForest(w.regions)
            && r.flags == w.flags && r.items == w.items
  {
  }

  /** The inventory an ore trade leaves: exchanged when the ore is held,
      handed over otherwise. */
  lemma OreTradeInventory(w: World, i: Intent)
    requires Applicable(w, i) && i.verb.value == "trade" && OreTrade(i)
    ensures var pid := i.playerId.value;
            var inv := WithPlayer(w.players, pid)[pid].inventory.value;
            var r := ApplyIntent(w, i);
            && r.players[pid].inventory == Some(if RareOre in inv then RemoveFirst(inv, RareOre) + [Sword] else inv + [RareOre])
            && (RareOre !in inv ==> r.characters == w.characters)
  {
  }

  /** A trade with the ore in hand settles every blacksmith. */
  lemma OreTradeSettles(w: World, i: Intent)
    requires Applicable(w, i) && i.verb.value == "trade" && OreTrade(i)
    requires var pid := i.playerId.value;
             RareOre in WithPlayer(w.players, pid)[pid].inventory.value
    ensures forall j :: 0 <= j < |w.characters| && w.characters[j].id == BlacksmithId ==>
              ApplyIntent(w, i).characters[j] == Settle(w.characters[j], i.playerId.value)
  {
  }

  /** Two trades in a row from an empty inventory: the first hands over
      the ore, the second exchanges it, and the player ends with just a
      sword. */
  lemma TwoTradesFromEmpty(w: World, pid: string)
    requires pid !in w.players || w.players[pid].inventory == Some([])
    requires forall j :: 0 <= j < |w.regions| && w.regions[j].id == ForestId ==> w.regions[j].danger.Some?
    requires forall j :: 0 <= j < |w.characters| && w.characters[j].id == BlacksmithId ==>
               w.characters[j].needs.Some? && w.characters[j].trust.Some?
    ensures var i := Intent(Some(pid), Some("trade"), map["target" := BlacksmithId, "item" := RareOre]);
            && Applicable(w, i)
            && Applicable(ApplyIntent(w, i), i)
            && ApplyIntent(ApplyIntent(w, i), i).players[pid].inventory == Some([Sword])
  {
    var i := Intent(Some(pid), Some("trade"), map["target" := BlacksmithId, "item" := RareOre]);
    assert OreTrade(i);
    assert WithPlayer(w.players, pid)[pid].inventory == Some([]);
    assert Applicable(w, i);
    OreTradeInventory(w, i);
    var inv0: seq<string> := WithPlayer(w.players, pid)[pid].inventory.value;
    assert inv0 == [] && RareOre !in inv0;
    assert inv0 + [RareOre] == [RareOre];
    var w1 := ApplyIntent(w, i);
    assert w1.players[pid].inventory == Some([RareOre]);
    assert WithPlayer(w1.players, pid) == w1.players;
    assert Applicable(w1, i);
    OreTradeInventory(w1, i);
    var inv1: seq<string> := WithPlayer(w1.players, pid)[pid].inventory.value;
    assert inv1 == [RareOre] && RareOre in inv1;
    assert RemoveFirst(inv1, RareOre) == [];
    assert RemoveFirst(inv1, RareOre) + [Sword] == [Sword];
  }

  /** Intents the service can apply one after another, each to the state
      the previous ones left. */
  predicate RunApplicable(w: World, intents: seq<Intent>)
    decreases |intents|
  {
    |intents| == 0 || (Applicable(w, intents[0]) && RunApplicable(ApplyIntent(w, intents[0]), intents[1..]))
  }

  /** The stored state after the service has applied `intents` in order. */
  function Run(w: World, intents: seq<Intent>): World
    requires RunApplicable(w, intents)
    decreases |intents|
  {
    if |intents| == 0 then w else Run(ApplyIntent(w, intents[0]), intents[1..])
  }

  /** After `n` calls, whatever their verbs, a forest region that started
      at danger `d` in [0, 1] is at `min(1, d + 0.05 n)`: danger only
      climbs, by 0.05 a call, until it sticks at 1. */
  lemma {:induction false} ForestDangerAfterRun(w: World, intents: seq<Intent>, j: int)
    requires RunApplicable(w, intents)
    requires 0 <= j < |w.regions| && w.regions[j].id == ForestId
    requires w.regions[j].danger.Some? && 0.0 <= w.regions[j].danger.value <= 1.0
    ensures |Run(w, intents).regions| == |w.regions|
    ensures Run(w, intents).regions[j].id == ForestId
    ensures Run(w, intents).regions[j].danger == Some(Min(1.0, w.regions[j].danger.value + DangerStep * |intents| as real))
    decreases |intents|
  {
    var d := w.regions[j].danger.value;
    if |intents| > 0 {
      var w1 := ApplyIntent(w, intents[0]);
      var d1 := w1.regions[j].danger.value;
      assert d1 == Min(1.0, d + DangerStep);
      ForestDangerAfterRun(w1, intents[1..], j);
      var n := |intents| as real;
      assert |intents[1..]| as real == n - 1.0;
      if d + DangerStep >= 1.0 {
        assert d + DangerStep * n >= 1.0;
      }
    }
  }
}
