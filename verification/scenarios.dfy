/** Worked situations of the game's rules, each stated over the model. */
module Scenarios {
  import opened Rules
  import opened Players
  import opened Abilities
  import opened Effects
  import opened Board
  import opened Setup
  import opened Engine

  /** On medium, a 10-point danger hit on a player with 4 shield and 50 hit
      points empties the shield and leaves 44 hit points. */
  lemma DangerThroughShield(p: Player)
    requires InBounds(p, DefaultBoardSize)
    requires p.shield == 4 && p.hp == 50
    ensures ApplyEffect(p, Scale(Effect(-10, 0, false), Medium), DefaultBoardSize).shield == 0
    ensures ApplyEffect(p, Scale(Effect(-10, 0, false), Medium), DefaultBoardSize).hp == 44
  {
    ScaleMediumIsIdentity(Effect(-10, 0, false));
  }

  /** A warrior who casts Charge and then rolls a 4 moves 7 tiles, and the
      move leaves the restarted cooldown alone. */
  lemma ChargeThenRollFour(p: Player)
    requires p.cls == Warrior && p.spellCooldown == 0
    requires 0 <= p.position && p.position + 7 < DefaultBoardSize
    ensures Advance(CastSpell(p), 4, DefaultBoardSize).position == p.position + 7
    ensures !Advance(CastSpell(p), 4, DefaultBoardSize).spellActive
    ensures Advance(CastSpell(p), 4, DefaultBoardSize).spellCooldown == SpellCooldown
  {
  }

  /** Easy intensity rounds a 15-point hit down to 11 damage, not 10. */
  lemma EasyRoundsTowardNegativeInfinity()
    ensures ScaleHp(-15, Easy) == -11
    ensures ScaleHp(15, Easy) == 10
  {
  }

  /** A forward move that carries a player onto the last tile leaves the
      player there without starting the final challenge. */
  lemma MoveEffectOntoLastTile(g: Game)
    requires Consistent(g) && g.boardSize >= 3
    requires Current(g).position == g.boardSize - 3
    ensures var r := ApplyEventEffect(g, g.currentPlayer, Effect(0, 2, false));
      && r.players[g.currentPlayer].position == g.boardSize - 1
      && r.phase != AwaitingFinalRoll
  {
    var r := ApplyEventEffect(g, g.currentPlayer, Effect(0, 2, false));
    var p := ApplyEffect(Current(g), Effect(0, 2, false), g.boardSize);
    assert g.players[g.currentPlayer := p][g.currentPlayer] == p;
    assert Agree(p, r.players[g.currentPlayer], Position);
  }

  /** A form with one real name and one blank one names a single player, so
      the game does not start. */
  lemma OneNamedEntryIsRejected(d: Difficulty, boardDraws: seq<nat>, portalMove: int)
    requires ValidDraws(DefaultBoardSize, boardDraws)
    requires 1 <= portalMove <= 6
    ensures StartGame(d, [Entry("Bob", Warrior), Entry(" ", Mage)], boardDraws, portalMove).Failure?
  {
    var entries := [Entry("Bob", Warrior), Entry(" ", Mage)];
    assert HasVisibleChar("Bob") by { assert !IsWhitespace("Bob"[0]); }
    assert entries[1..] == [Entry(" ", Mage)];
    NamedOfOne(Entry(" ", Mage));
  }
}
