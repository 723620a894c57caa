/** How the four pieces relate: the parser's output against the trade
    rule's guard, and the evaluator's trade against the world service's
    trade, which the code keeps as two different semantics. */
module CrossChecks {

  import opened WorldState
  import opened Lists
  import opened Numeric
  import Rules
  import WorldService
  import CommandParser

  /** The intent the interface sends for a parsed command. */
  function IntentOf(pid: string, c: CommandParser.Command): Intent {
    Intent(Some(pid), Some(c.verb), c.args)
  }

  /** The default `trade rare_ore with blacksmith` choice parses to an
      intent that both the trade rule's guard and the world service's
      trade branch accept. */
  lemma DefaultTradeChoiceIsAccepted(pid: string)
    ensures var c := CommandParser.Parse(CommandParser.DefaultChoices[3]);
            && Rules.TradeRequested(IntentOf(pid, c))
            && WorldService.OreTrade(IntentOf(pid, c))
  {
    CommandParser.DefaultTradeChoiceParses();
    var c := CommandParser.Parse(CommandParser.DefaultChoices[3]);
    assert IntentOf(pid, c) == OreTradeBy(pid);
    OreTradeByIsAccepted(pid);
  }

  /** The ore trade passes both the rule's guard and the service's trade
      branch. */
  lemma OreTradeByIsAccepted(pid: string)
    ensures Rules.TradeRequested(OreTradeBy(pid)) && WorldService.OreTrade(OreTradeBy(pid))
  {
  }

  /** The trade intent the default choice produces. */
  function OreTradeBy(pid: string): Intent {
    Intent(Some(pid), Some("trade"), map["target" := BlacksmithId, "item" := RareOre])
  }

  /** A trade setup: the player holds the ore and no sword, `b` is the
      only blacksmith, it needs ore and keeps a trust map. */
  predicate TradeSetup(w: World, pid: string, b: nat) {
    && WorldService.Applicable(w, OreTradeBy(pid))
    && pid in w.players && w.players[pid].inventory.Some?
    && RareOre in w.players[pid].inventory.value && Sword !in w.players[pid].inventory.value
    && b < |w.characters| && w.characters[b].id == BlacksmithId
    && (forall j :: 0 <= j < |w.characters| && j != b ==> w.characters[j].id != BlacksmithId)
    && w.characters[b].needs.Some? && Ore in w.characters[b].needs.value
    && w.characters[b].trust.Some?
  }

  /** The usual trade: a trade setup in which the player's trust with the
      blacksmith is a whole number of hundredths. */
  predicate UsualTrade(w: World, pid: string, b: nat) {
    TradeSetup(w, pid, b) && IsCents(Lookup(w.characters[b].trust.value, pid).GetOr(0.0))
  }

  lemma UsualTradeCommits(w: World, pid: string, b: nat)
    requires TradeSetup(w, pid, b)
    ensures FirstCharacter(w.characters, BlacksmithId) == Some(w.characters[b])
    ensures Rules.TradeCommits(w, OreTradeBy(pid))
    ensures Rules.ActingPlayer(OreTradeBy(pid)) == pid
    ensures WorldService.WithPlayer(w.players, pid) == w.players
    ensures WorldService.OreTrade(OreTradeBy(pid))
    ensures WorldService.ApplyIntent(w, OreTradeBy(pid)).characters[b] == WorldService.Settle(w.characters[b], pid)
  {
    WorldService.OreTradeSettles(w, OreTradeBy(pid));
  }

  /** In the usual trade the evaluator's diff writes the inventory the
      world service stores. */
  lemma TradesAgreeOnInventory(w: World, pid: string, b: nat)
    requires UsualTrade(w, pid, b)
    ensures var d := Rules.Evaluate(w, OreTradeBy(pid));
            && d.players.Some? && pid in d.players.value
            && Some(d.players.value[pid].inventory) == WorldService.ApplyIntent(w, OreTradeBy(pid)).players[pid].inventory
  {
    UsualTradeCommits(w, pid, b);
    Rules.EvaluateTradeInventory(w, OreTradeBy(pid));
    WorldService.OreTradeInventory(w, OreTradeBy(pid));
  }

  /** In the usual trade the evaluator's diff writes the blacksmith's
      needs and trust the world service stores. */
  lemma TradesAgreeOnBlacksmith(w: World, pid: string, b: nat)
    requires UsualTrade(w, pid, b)
    ensures var d := Rules.Evaluate(w, OreTradeBy(pid));
            var c := WorldService.ApplyIntent(w, OreTradeBy(pid)).characters[b];
            && d.characters.Some? && BlacksmithId in d.characters.value
            && Some(d.characters.value[BlacksmithId].needs) == c.needs
            && Some(d.characters.value[BlacksmithId].trust) == c.trust
  {
    var i := OreTradeBy(pid);
    var blacksmith := w.characters[b];
    UsualTradeCommits(w, pid, b);
    Rules.EvaluateTradeNeeds(w, i);
    Rules.EvaluateTradeTrust(w, i);
    var d := Rules.Evaluate(w, i);
    var c := WorldService.ApplyIntent(w, i).characters[b];
    assert c == WorldService.Settle(blacksmith, pid);
    var written := d.characters.value[BlacksmithId].trust;
    var stored := c.trust.value;
    assert written.Keys == stored.Keys;
    assert written[pid] == stored[pid];
    assert forall p :: p in written ==> written[p] == stored[p];
  }

  /** The two trades differ whenever the first blacksmith does not need
      ore: a player holding the ore still gets the world service's
      exchange for a sword, while the evaluator's diff records no trade at
      all. */
  lemma TradesDifferWithoutNeed(w: World, pid: string)
    requires WorldService.Applicable(w, OreTradeBy(pid))
    requires !Rules.BlacksmithNeedsOre(w)
    requires RareOre in WorldService.WithPlayer(w.players, pid)[pid].inventory.value
    ensures var inv := WorldService.WithPlayer(w.players, pid)[pid].inventory.value;
            WorldService.ApplyIntent(w, OreTradeBy(pid)).players[pid].inventory == Some(RemoveFirst(inv, RareOre) + [Sword])
    ensures Rules.Evaluate(w, OreTradeBy(pid)).players.None?
    ensures Rules.Evaluate(w, OreTradeBy(pid)).characters.None?
  {
    OreTradeByIsAccepted(pid);
    WorldService.OreTradeInventory(w, OreTradeBy(pid));
  }

  /** 0.201 rounds to 0.2 at two decimal places. */
  lemma RoundsOffThousandth()
    ensures Round2(0.201) == 0.2
  {
    assert RoundCents(0.201) == 20;
  }

  /** The two trades differ on trust off the hundredths grid: from 0.001
      the evaluator writes 0.2 (rounded), the world service 0.201. */
  lemma TrustRoundingDiffers(w: World, pid: string, b: nat)
    requires TradeSetup(w, pid, b) && Lookup(w.characters[b].trust.value, pid) == Some(0.001)
    ensures var d := Rules.Evaluate(w, OreTradeBy(pid));
            var c := WorldService.ApplyIntent(w, OreTradeBy(pid)).characters[b];
            && d.characters.Some? && BlacksmithId in d.characters.value
            && pid in d.characters.value[BlacksmithId].trust
            && d.characters.value[BlacksmithId].trust[pid] == 0.2
            && c.trust.Some? && pid in c.trust.value && c.trust.value[pid] == 0.201
  {
    UsualTradeCommits(w, pid, b);
    RoundsOffThousandth();
    assert Round2(0.001 + TrustStep) == 0.2;
  }
}
