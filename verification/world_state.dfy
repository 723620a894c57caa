/** The JSON-like world that every service reads: regions, characters,
    players, flags and an item catalogue, plus the player intent that
    drives it. A key that the code reads with a default, or that may be
    absent from a record, is an `Option` field; `None` stands for the
    absent key. */
module WorldState {

  import Lists

  datatype Option<+T> = None | Some(value: T) {
    /** `d.get(key, default)` once the lookup has produced this option. */
    function GetOr(default: T): T {
      match this
      case Some(v) => v
      case None => default
    }
  }

  /** A region; `danger` is a level in [0, 1] where the seed keeps it. */
  datatype Region = Region(id: string, danger: Option<real>)

  /** A non-player character; `trust` maps player ids to a score. */
  datatype Character = Character(
    id: string,
    mood: Option<string>,
    needs: Option<seq<string>>,
    trust: Option<map<string, real>>)

  /** A player record, stored under its id in `World.players`. */
  datatype Player = Player(loc: Option<string>, inventory: Option<seq<string>>)

  /** The whole world. `items` is a catalogue no core operation writes. */
  datatype World = World(
    regions: seq<Region>,
    characters: seq<Character>,
    players: map<string, Player>,
    flags: Option<map<string, bool>>,
    items: seq<string>)

  /** A player's request: the acting player, a verb and its arguments
      (`target`, `item`). An `args` of `null` reads as no arguments. */
  datatype Intent = Intent(playerId: Option<string>, verb: Option<string>, args: map<string, string>)

  const ForestId := "forest"
  const BlacksmithId := "blacksmith"

  /** The items and the need a trade involves. */
  const RareOre := "rare_ore"
  const Sword := "sword"
  const Ore := "ore"

  /** What a completed trade adds to the player's trust with the
      blacksmith, in the evaluator and in the world service alike. */
  const TrustStep := 0.2

  /** The value under `k`, if any. */
  function Lookup<K, V>(m: map<K, V>, k: K): (r: Option<V>)
    ensures r.Some? <==> k in m
    ensures r.Some? ==> r.value == m[k]
  {
    if k in m then Some(m[k]) else None
  }

  /** The flag is present and true. */
  predicate FlagSet(flags: map<string, bool>, name: string) {
    name in flags && flags[name]
  }

  function RegionIds(rs: seq<Region>): (ids: seq<string>)
    ensures |ids| == |rs|
    ensures forall j :: 0 <= j < |rs| ==> ids[j] == rs[j].id
  {
    seq(|rs|, j requires 0 <= j < |rs| => rs[j].id)
  }

  function CharacterIds(cs: seq<Character>): (ids: seq<string>)
    ensures |ids| == |cs|
    ensures forall j :: 0 <= j < |cs| ==> ids[j] == cs[j].id
  {
    seq(|cs|, j requires 0 <= j < |cs| => cs[j].id)
  }

  /** The first region with that id, if any. */
  function FirstRegion(rs: seq<Region>, id: string): (r: Option<Region>)
    ensures r.None? <==> forall j :: 0 <= j < |rs| ==> rs[j].id != id
    ensures r.Some? ==> r.value.id == id && r.value in rs
    ensures r.Some? ==> exists k :: 0 <= k < |rs| && rs[k] == r.value && forall j :: 0 <= j < k ==> rs[j].id != id
  {
    var ids := RegionIds(rs);
    var k := Lists.FirstIndex(ids, id);
    if k < |rs| then Some(rs[k])
    else
      assert id !in ids;
      None
  }

  /** The first character with that id, if any. */
  function FirstCharacter(cs: seq<Character>, id: string): (r: Option<Character>)
    ensures r.None? <==> forall j :: 0 <= j < |cs| ==> cs[j].id != id
    ensures r.Some? ==> r.value.id == id && r.value in cs
    ensures r.Some? ==> exists k :: 0 <= k < |cs| && cs[k] == r.value && forall j :: 0 <= j < k ==> cs[j].id != id
  {
    var ids := CharacterIds(cs);
    var k := Lists.FirstIndex(ids, id);
    if k < |cs| then Some(cs[k])
    else
      assert id !in ids;
      None
  }
}
