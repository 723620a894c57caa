# QuestForge world logic in Dafny

A model of the deterministic world logic of the QuestForge game: a shared
world of regions, characters, players and flags that player intents and an
ambient trigger change. Four pieces are modelled, each as a pure function
over immutable datatypes:

- the **rule evaluator** (`packages/metta/runner.py`): `Rules.Evaluate` runs the
  bandit rule and the trade-weapon rule over an empty diff and returns the
  partial diff they build;
- the **world service's intent handler** (`agents/world/service.py`):
  `WorldService.ApplyIntent` is the state transition `World × Intent → World`
  (player auto-creation, the `move`/`inspect`/`talk`/`trade` branches, and
  the clamped +0.05 forest-danger step every call ends with);
- the **event trigger** (`agents/eventmaster/service.py`):
  `EventMaster.MaybeFire` re-checks the bandit condition, sets
  `flags.bandits` on the world it was handed and reports `changed`;
- the **command parser** (`apps/ui/app.py`): `CommandParser.Parse` splits a
  command on whitespace and maps it to a verb and arguments.

Files: `world_state.dfy` (the world, its records and the intent; absent
JSON keys are `Option` fields), `lists.dfy` (remove-first, filter),
`numeric.dfy` (clamp, rounding to hundredths), `rules.dfy`,
`world_service.dfy`, `event_master.dfy`, `command_parser.dfy`, and
`cross_checks.dfy` (how the pieces relate to each other).

Numbers: `danger` and `trust` are exact `real`s. Python's `round(x, 2)` is
modelled as rounding to the nearest hundredth with ties to even. The
world service adds 0.2 to trust without rounding, and the evaluator rounds;
the model keeps both, and `CrossChecks.TrustRoundingDiffers` shows an input
where they differ.

Three facts about the code shape the model:
- Nothing in the code applies `evaluate`'s diff to the stored state, and
  there is no separate time-advance step. The only danger increase is the
  clamped +0.05 at the end of the intent handler
  (agents/world/service.py:54-56).
- `maybe_fire` sets `flags.bandits` on the request's own copy of the world
  (agents/eventmaster/service.py:14-17) and answers only `{"changed":
  changed}` (line 19). The changed copy is never seen by a caller, and the
  orchestrator (apps/api/main.py:27-28) re-reads a stored state the trigger
  did not change. `MaybeFire` returns the changed copy anyway, so that its
  contract can say what the trigger did to it.
- The evaluator and the world service implement the trade differently, and
  the model keeps both. The evaluator checks the blacksmith's need for ore,
  does not add a second sword, and rounds trust. The world service does
  none of these, and with no ore in hand its trade only hands the ore over.
  `CrossChecks.TradesDifferWithoutNeed` and
  `CrossChecks.TradesAgreeOnInventory`/`TradesAgreeOnBlacksmith` state
  where the two differ and where they agree.

## Model

| member | source | states |
|---|---|---|
| `WorldState.FirstRegion` | packages/metta/runner.py:32 | the result is absent iff no region has the id; otherwise it is the region with that id that comes before every other one, as `next(...)` returns |
| `WorldState.FirstCharacter` | packages/metta/runner.py:56 | the result is absent iff no character has the id; otherwise it is the character with that id that comes before every other one, as `next(...)` returns |
| `Lists.RemoveFirst` | packages/metta/runner.py:67 | removing an element present in the list shortens it by one and takes exactly one copy of it out of the multiset; a list without it is unchanged |
| `Lists.RemoveFirstAt` | agents/world/service.py:45 | `list.remove` takes out the first occurrence: the result is the list before it followed by the list after it, in order |
| `Lists.RemoveAll` | packages/metta/runner.py:77 | the filtered list has no copy of the removed element and keeps every other element with the same multiplicity |
| `Lists.RemoveAllAppend` | packages/metta/runner.py:77 | the filter keeps order: filtering a concatenation is concatenating the filtered parts |
| `Numeric.Round2` | packages/metta/runner.py:81 | the rounded trust is a whole number of hundredths, within 0.005 of the input, and equal to the input when it already was one |
| `Numeric.Round2TiesToEven` | packages/metta/runner.py:81 | when the input lies exactly halfway between two hundredths, the rounded value is the one with an even number of hundredths |
| `Numeric.Clamp` | agents/world/service.py:56 | the clamped danger is in [0, 1], equals the input when in range, and sticks at the nearer bound otherwise |
| `Rules.SpawnBandits` | packages/metta/runner.py:30-35 | when the first forest's danger (missing reads as 0.0) exceeds 0.7 and no festival is on, the diff gains a true `bandits` flag; otherwise the diff is unchanged; players and characters are never touched |
| `Rules.TradeWeapon` | packages/metta/runner.py:38-82 | the rule leaves the diff unchanged unless the guard holds and the first blacksmith needs ore; then it adds exactly the acting player and the blacksmith to the diff; flags are never touched |
| `Rules.Evaluate` | packages/metta/runner.py:9-27 | the diff has `flags` iff bandits are due, and then exactly `{bandits: true}`; it has `players` and `characters` iff the trade commits, each with exactly one key: the acting player (default `p1`) and `blacksmith` |
| `Rules.RulesCommute` | packages/metta/runner.py:24-25 | running the two rules in the other order builds the same diff, from any starting diff |
| `Rules.EvaluateNoCommit` | packages/metta/runner.py:55-65 | when the guard fails or the blacksmith does not need ore, the diff has no players or characters entry, although the rule granted the ore to its local copy |
| `Rules.EvaluateTradeInventory` | packages/metta/runner.py:51-72 | on commit the inventory written is the original inventory (missing player reads as empty) with its first `rare_ore` removed, plus `sword` only if the player held none; `sword` is always there and at most one is added |
| `Rules.EvaluateTradeNeeds` | packages/metta/runner.py:74-77 | on commit the needs written have no `ore` and every other need with its multiplicity |
| `Rules.EvaluateTradeTrust` | packages/metta/runner.py:79-82 | on commit the trust written changes only the acting player's entry, to the old value (0.0 if absent) plus 0.2 rounded to hundredths; exactly +0.2 when the old value was a whole number of hundredths |
| `Rules.FirstTradeScenario` | packages/metta/runner.py:45-82 | a first trade from an empty inventory, with a first blacksmith (any mood) needing only ore and holding an empty trust map, writes inventory `[sword]`, needs `[]` and trust 0.2 |
| `Rules.RetryScenario` | packages/metta/runner.py:56-65 | retrying once the blacksmith needs nothing writes no inventory, needs or trust |
| `WorldService.Settle` | agents/world/service.py:49-50 | the settled blacksmith's needs are the old needs without any `ore`, in their old order, so every other need appears as often as before; the player's trust is the old value (0.0 if absent) plus exactly 0.2, unrounded; every other trust entry, the id and the mood stay |
| `WorldService.WithPlayer` | agents/world/service.py:23-24 | afterwards the player exists; a known player is kept as is, a new one is created at `town_square` with an empty inventory; no other player changes |
| `WorldService.ApplyIntent` | agents/world/service.py:22-57 | for every verb: the player exists, no other player, flag or item changes, regions and characters keep their order and ids, non-forest regions and non-blacksmith characters are untouched, and every forest danger becomes the clamped old value + 0.05, in [0, 1] and not below the old value when that was in range |
| `WorldService.PlayerCreation` | agents/world/service.py:23-25 | for verbs other than `move` and `trade`, the player's record afterwards is the existing one, or the new `town_square` player with an empty inventory |
| `WorldService.MoveSetsLocation` | agents/world/service.py:28-30 | `move` sets the location to the target, or `town_square` when it is missing or empty, keeps the inventory and changes no character |
| `WorldService.TalkCalmsBlacksmith` | agents/world/service.py:33-38 | `talk` to the blacksmith turns every wary blacksmith neutral and keeps other moods, needs and trust; `talk` to anyone else changes no character; players are only auto-created |
| `WorldService.TradeWithOre` | agents/world/service.py:39-50 | an ore trade by a player holding the ore removes the first ore, appends a sword even if one is there, and for every blacksmith removes all `ore` needs, keeping the other needs in order, and adds exactly 0.2 to the player's trust (from 0.0), needed or not |
| `WorldService.TradeWithoutOre` | agents/world/service.py:51-52 | the same trade without the ore in hand only appends `rare_ore` and changes no character |
| `WorldService.OreTradeInventory` | agents/world/service.py:42-52 | the inventory an ore trade leaves: exchanged for a sword when the ore is held, extended by the ore otherwise |
| `WorldService.OtherIntentsOnlyCreateAndRaise` | agents/world/service.py:28-56 | `inspect`, unknown verbs and trades of other items or with other targets only auto-create the player and raise forest danger |
| `WorldService.TwoTradesFromEmpty` | agents/world/service.py:42-52 | two successive ore trades from an empty inventory are both applicable and end with inventory `[sword]` |
| `WorldService.ForestDangerAfterRun` | agents/world/service.py:54-56 | after any n applicable calls a forest starting at danger d in [0, 1] is at min(1, d + 0.05 n) |
| `EventMaster.MaybeFire` | agents/eventmaster/service.py:11-19 | `changed` holds iff the evaluator's bandit condition holds; then the returned world differs only in its flags, which gain a true `bandits` and keep every other flag; otherwise the world is returned as it was; the service itself answers only `changed` |
| `EventMaster.MaybeFireIdempotent` | agents/eventmaster/service.py:15-18 | running the check on its own output is possible and returns the same world and the same `changed` |
| `EventMaster.AgreesWithEvaluate` | agents/eventmaster/service.py:15-18 | for every intent, `changed` is true iff `evaluate`'s diff sets `flags.bandits` |
| `CommandParser.WordLength` | apps/ui/app.py:22 | the leading run of non-space characters ends at the first whitespace or at the end of the text |
| `CommandParser.Split` | apps/ui/app.py:22 | every word of the split is non-empty and holds no whitespace |
| `CommandParser.SplitKeepsContent` | apps/ui/app.py:22 | the words laid end to end are exactly the text's non-space characters, in order |
| `CommandParser.SplitNonEmpty` | apps/ui/app.py:64 | the caller's guard (stripped text non-empty) holds iff the split has a first word |
| `CommandParser.SplitCollapsesRuns` | apps/ui/app.py:22 | replacing a separating space by any non-empty run of whitespace does not change the words |
| `CommandParser.SplitJoin` | apps/ui/app.py:22-26 | joining words with single spaces and splitting again gives the words back |
| `CommandParser.Parse` | apps/ui/app.py:20-31 | the verb is the first word; only `target` and `item` keys appear; `item` only for `trade`, and both it and a trade target are single words; a multi-word target re-splits into the words after the verb |
| `CommandParser.ParseCases` | apps/ui/app.py:24-31 | a target verb with more words gets the rest joined by spaces; `trade` with a `with` gets the second word as item and the last as target; anything else gets no arguments |
| `CommandParser.ParseCollapsesRuns` | apps/ui/app.py:22 | runs of whitespace between words do not change the parse |
| `CommandParser.ParseTargetCommand` | apps/ui/app.py:25-26 | rendering a target verb with target words and parsing it back gives the verb and the words joined by spaces |
| `CommandParser.ParseTradeCommand` | apps/ui/app.py:27-30 | rendering `trade <item> with <target>` and parsing it back gives that item and target |
| `CommandParser.DefaultInspectChoiceParses` | apps/ui/app.py:39 | the default `inspect forest` choice parses to verb `inspect` with target `forest` |
| `CommandParser.DefaultMoveChoiceParses` | apps/ui/app.py:39 | the default `move forest` choice parses to verb `move` with target `forest` |
| `CommandParser.DefaultTalkChoiceParses` | apps/ui/app.py:39 | the default `talk blacksmith` choice parses to verb `talk` with target `blacksmith` |
| `CommandParser.DefaultTradeChoiceParses` | apps/ui/app.py:39 | the default trade choice parses to verb `trade` with target `blacksmith` and item `rare_ore` |
| `CrossChecks.DefaultTradeChoiceIsAccepted` | apps/ui/app.py:39 | the default trade choice parses to an intent both the trade rule's guard and the world service's trade branch accept |
| `CrossChecks.TradesAgreeOnInventory` | agents/world/service.py:43-46 | with the ore in hand, no sword, one blacksmith needing ore and trust on the hundredths grid, the evaluator's inventory equals the one the world service stores |
| `CrossChecks.TradesAgreeOnBlacksmith` | agents/world/service.py:47-50 | under the same conditions the evaluator's needs and trust equal those the world service stores |
| `CrossChecks.TradesDifferWithoutNeed` | agents/world/service.py:42-50 | in every world whose first blacksmith does not need ore, a player holding the ore gets the world service's exchange (first ore removed, sword appended), while the evaluator's diff has no players or characters entry |
| `CrossChecks.TrustRoundingDiffers` | agents/world/service.py:50 | in any trade setup where the player's trust with the only blacksmith is 0.001, the evaluator writes 0.2 and the world service 0.201 |

## Left out

- HTTP transport is not modelled: FastAPI routes, pydantic request models, httpx and requests calls.
- The async orchestration in `apps/api/main.py` is not modelled, including its re-fetch of the state after a change.
- The seed file is not read: the initial world is a parameter.
- The module-level `_state` and concurrency are not modelled. State is a value passed in and returned.
- The narrator service renders text with float formatting and has no contract worth proving.
- The blacksmith NPC service is a constant status reply.
- The Streamlit interface is left out, apart from the parser and the default choice list.
- IEEE floating point is not modelled. Danger and trust are exact reals.
- Python's `round` works on the binary double; on exact reals the model rounds to the nearest hundredth with ties to even. The two can differ at ties that doubles cannot represent exactly.
- Failed key lookups and type errors are preconditions, not error results. These are `WorldService.Applicable`, `EventMaster.CanCheck` and `Parse`'s first-word requirement.
- Records without an `id`, argument values that are not strings, and `null` values where a list is iterated are not modelled.
- A missing top-level `regions`, `characters` or `players` key cannot be represented: the model reads it as an empty collection and returns a result. The evaluator's `.get` defaults do the same, but the services raise `KeyError`:
  - `apply_intent` without `regions` raises at agents/world/service.py:54, after the verb branch has already changed the stored state; the model returns the changed state.
  - `maybe_fire` without `regions` raises at agents/eventmaster/service.py:15; the model reports no change.
  - talking to or trading ore with the blacksmith without `characters` raises at agents/world/service.py:36 and :47; the model changes no character.
- A `danger` of `null` cannot be told apart from a missing one. The evaluator's `forest.get("danger", 0.0)` then yields `None` and the comparison raises `TypeError` at packages/metta/runner.py:34; the model reads it as 0.0. In the event trigger (agents/eventmaster/service.py:16) and the world service (agents/world/service.py:56) the same value also raises; there `CanCheck` and `Applicable` exclude it together with the missing key.
- A `flags` of `null` cannot be told apart from a missing one either. The evaluator's `world.get("flags", {})` then yields `None`, and `.get` on it raises `AttributeError` at packages/metta/runner.py:33; the model reads it as "no festival" and returns a diff.
- A blacksmith whose `mood` is `null` cannot be told apart from one without a `mood`. On `talk blacksmith` the source reads the `null` without error and keeps it (agents/world/service.py:38), but raises `KeyError` for the missing key; `WorldService.Applicable` requires a mood and so also refuses the `null` input the source accepts.
- An intent whose `player_id` is `null` cannot be told apart from one without a `player_id`. The evaluator's `intent.get("player_id", "p1")` then yields `None` (packages/metta/runner.py:51), and the diff is written under the player key `None` (line 72) with `trust[None]` set (line 81); the model acts for `p1` instead.
- A world whose `players` is `null` cannot be represented: `World.players` is a map. On the trade path the evaluator raises `AttributeError` at packages/metta/runner.py:52; the model reads it as no players.
- The item catalogue is carried through unchanged and not otherwise modelled.
- Evaluate's purity and determinism hold by construction: inputs are immutable values, so no lemma states them.
- Unicode whitespace is the set Python's `str.split()` uses. Nothing else about string encoding is modelled.
