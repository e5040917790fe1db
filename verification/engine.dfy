/** The turn engine: a game session and the steps the players drive it
    through. Each step takes the random draws it needs as arguments. The
    display refresh that follows most steps is `Refresh`; the delayed
    continuations of the original are taken synchronously. */
module Engine {
  import opened Wrappers
  import opened Rules
  import opened Board
  import opened Players
  import opened Setup
  import opened Abilities
  import opened Effects
  import opened Rotation

  /** The board length every game is played on. */
  const DefaultBoardSize := 40

  datatype Outcome = Victory(winner: nat) | AllFallen

  /** Where the engine waits for its next input. */
  datatype Phase =
    | AwaitingRoll            // the current player may cast a spell or roll
    | AwaitingFinalRoll       // the current player stands on the last tile
    | AwaitingPassiveChoice   // the current player may skip the drawn tile effect
    | GameOver(outcome: Outcome)

  /** The tile effect drawn for a player, kept until the passive choice. */
  datatype PendingEvent = PendingEvent(playerIndex: nat, effect: Effect, tileType: Tile)

  datatype Game = Game(
    difficulty: Difficulty,
    boardSize: int,
    board: seq<Tile>,
    portalMove: int,
    players: seq<Player>,
    currentPlayer: nat,
    currentEvent: Option<PendingEvent>,
    phase: Phase)

  datatype SetupError = TooFewPlayers

  /** The data invariant of a started game. */
  predicate Consistent(g: Game) {
    && WellFormed(g.board, g.boardSize)
    && 1 <= g.portalMove <= 6
    && |g.players| >= 2
    && g.currentPlayer < |g.players|
    && forall i :: 0 <= i < |g.players| ==>
         InBounds(g.players[i], g.boardSize) && g.players[i].maxHP == MaxHP(g.difficulty)
  }

  function Current(g: Game): Player
    requires g.currentPlayer < |g.players|
  {
    g.players[g.currentPlayer]
  }

  function WithPlayer(g: Game, i: nat, p: Player): Game
    requires i < |g.players|
  {
    g.(players := g.players[i := p])
  }

  /** What each phase guarantees on top of the data invariant. */
  predicate PhaseOk(g: Game)
    requires Consistent(g)
  {
    match g.phase
    case AwaitingRoll => Alive(Current(g))
    case AwaitingFinalRoll => Alive(Current(g)) && Current(g).position == g.boardSize - 1
    case AwaitingPassiveChoice =>
      && Alive(Current(g))
      && Current(g).passiveCount > 0
      && g.currentEvent.Some?
      && g.currentEvent.value.playerIndex == g.currentPlayer
    case GameOver(Victory(w)) =>
      w == g.currentPlayer && Alive(Current(g)) && Current(g).position == g.boardSize - 1
    case GameOver(AllFallen) => NoneAlive(g.players)
  }

  predicate Valid(g: Game) {
    Consistent(g) && PhaseOk(g)
  }

  /** `r` is the same session as `g`: same difficulty, board and roster size. */
  predicate SameSession(g: Game, r: Game) {
    && r.difficulty == g.difficulty
    && r.boardSize == g.boardSize
    && r.board == g.board
    && r.portalMove == g.portalMove
    && |r.players| == |g.players|
  }

  /** The turn was handed on from seat `from` of the roster `ps`, as the
      roster stood when the turn passed: the game ends exactly when nobody in
      `ps` is standing, and otherwise the new current player is the first
      standing seat after `from` round the table (`from` itself only when
      nobody else stands). */
  predicate HandedOn(ps: seq<Player>, from: nat, r: Game) {
    && from < |ps| && r.currentPlayer < |ps|
    && (r.phase == GameOver(AllFallen) <==> NoneAlive(ps))
    && (!NoneAlive(ps) ==>
          && r.phase == AwaitingRoll
          && Alive(ps[r.currentPlayer])
          && forall i :: 0 <= i < |ps| && Dist(|ps|, from, i) < Dist(|ps|, from, r.currentPlayer) ==> !Alive(ps[i]))
  }

  /** Rosters in which the same seats are standing hand the turn on alike. */
  lemma HandedOnSameStanding(ps: seq<Player>, qs: seq<Player>, from: nat, r: Game)
    requires |ps| == |qs| && forall i :: 0 <= i < |ps| ==> ps[i].hp == qs[i].hp
    requires HandedOn(ps, from, r)
    ensures HandedOn(qs, from, r)
  {
    assert NoneAlive(ps) <==> NoneAlive(qs) by {
      if !NoneAlive(ps) {
        var j :| 0 <= j < |ps| && Alive(ps[j]);
        assert Alive(qs[j]);
      }
      if !NoneAlive(qs) {
        var j :| 0 <= j < |qs| && Alive(qs[j]);
        assert Alive(ps[j]);
      }
    }
  }

  /** The display refresh: the current player's spell cooldown ticks. */
  function Refresh(g: Game): (r: Game)
    requires Consistent(g)
    ensures Consistent(r) && SameSession(g, r)
    ensures r.currentPlayer == g.currentPlayer && r.phase == g.phase && r.currentEvent == g.currentEvent
    ensures r.players == g.players[g.currentPlayer := Tick(Current(g))]
    ensures CooldownsOnly(g.players, r.players)
  {
    WithPlayer(g, g.currentPlayer, Tick(Current(g)))
  }

  /** The session right after setup: the first player is to roll, and the
      opening display refresh leaves the fresh roster as it is. */
  function Opening(d: Difficulty, players: seq<Player>, board: seq<Tile>, portalMove: int): (g: Game)
    requires |players| >= 2 && forall i :: 0 <= i < |players| ==> Fresh(players[i], d)
    requires WellFormed(board, DefaultBoardSize) && 1 <= portalMove <= 6
    ensures Valid(g) && g.phase == AwaitingRoll && g.currentPlayer == 0 && g.currentEvent == None
    ensures g.difficulty == d && g.boardSize == DefaultBoardSize && g.board == board && g.portalMove == portalMove
    ensures g.players == players
  {
    var g := Game(d, DefaultBoardSize, board, portalMove, players, 0, None, AwaitingRoll);
    assert Consistent(g) by {
      forall i | 0 <= i < |players|
        ensures InBounds(players[i], DefaultBoardSize) && players[i].maxHP == MaxHP(d)
      {
        assert Fresh(players[i], d);
      }
    }
    // a fresh player's cooldown is already 0, so the first refresh keeps it
    assert Fresh(players[0], d);
    assert Tick(players[0]) == players[0];
    Refresh(g)
  }

  /** Starting a game from the setup form. Fewer than two named entries are
      rejected and nothing is started; otherwise every named entry becomes a
      fresh player, the board is laid out and the first player is to move. */
  function StartGame(d: Difficulty, entries: seq<Entry>, boardDraws: seq<nat>, portalMove: int)
    : (r: Result<Game, SetupError>)
    requires ValidDraws(DefaultBoardSize, boardDraws)
    requires 1 <= portalMove <= 6
    ensures r.Failure? <==> |Named(entries)| < 2
    ensures r.Success? ==>
      && Valid(r.value)
      && r.value.phase == AwaitingRoll
      && r.value.currentPlayer == 0
      && r.value.difficulty == d
      && r.value.boardSize == DefaultBoardSize
      && r.value.board == Generate(DefaultBoardSize, boardDraws)
      && r.value.portalMove == portalMove
      && r.value.currentEvent == None
      && |r.value.players| == |Named(entries)|
      && forall i :: 0 <= i < |r.value.players| ==>
           && Fresh(r.value.players[i], d)
           && r.value.players[i].name == Trim(Named(entries)[i].name)
           && r.value.players[i].cls == Named(entries)[i].cls
  {
    var players := BuildPlayers(entries, d);
    if |players| < 2 then Failure(TooFewPlayers)
    else
      Success(Opening(d, players, Generate(DefaultBoardSize, boardDraws), portalMove))
  }

  /** Handing the turn on: the next player round the table who has not
      fallen becomes current (the current player again when nobody else is
      standing), and the game ends when everybody has fallen. */
  function NextTurn(g: Game): (r: Game)
    requires Consistent(g)
    ensures Valid(r) && SameSession(g, r) && r.currentEvent == g.currentEvent
    ensures CooldownsOnly(g.players, r.players)
    ensures HandedOn(g.players, g.currentPlayer, r)
    ensures r.phase == GameOver(AllFallen) <==> NoneAlive(g.players)
    ensures r.phase.GameOver? ==>
      r.phase == GameOver(AllFallen) && r.players == g.players && r.currentPlayer == g.currentPlayer
    ensures !r.phase.GameOver? ==>
      && r.phase == AwaitingRoll
      && Alive(g.players[r.currentPlayer])
      && (forall i :: 0 <= i < |g.players| && Dist(|g.players|, g.currentPlayer, i) < Dist(|g.players|, g.currentPlayer, r.currentPlayer)
            ==> !Alive(g.players[i]))
      && r.players == g.players[r.currentPlayer := Tick(g.players[r.currentPlayer])]
  {
    RotateFindsFirstAlive(g.players, g.currentPlayer);
    var stop := Rotate(g.players, g.currentPlayer, 0);
    if stop >= |g.players| then g.(phase := GameOver(AllFallen))
    else Refresh(g.(currentPlayer := Seat(|g.players|, g.currentPlayer, stop), phase := AwaitingRoll))
  }

  /** The end of a turn: the display refresh, then the hand-off. */
  function PassTurn(g: Game): (r: Game)
    requires Consistent(g)
    ensures Valid(r) && SameSession(g, r) && r.currentEvent == g.currentEvent
    ensures CooldownsOnly(g.players, r.players)
    ensures HandedOn(g.players, g.currentPlayer, r)
  {
    var g1 := Refresh(g);
    var r := NextTurn(g1);
    CooldownsOnlyTransitive(g.players, g1.players, r.players);
    HandedOnSameStanding(g1.players, g.players, g.currentPlayer, r);
    r
  }

  /** Where the current player's roll would end. */
  function Landing(g: Game, roll: int): int
    requires Consistent(g)
  {
    Advance(Current(g), roll, g.boardSize).position
  }

  /** `pick` indexes the effect list of the tile the roll lands on. */
  predicate PickFits(g: Game, roll: int, pick: nat)
    requires Consistent(g)
  {
    var l := Landing(g, roll);
    0 < l < g.boardSize - 1 ==> pick < |Events(g.board[l], g.portalMove)|
  }

  /** A roll of the die. A player flagged to skip clears the flag and hands
      the turn on without moving; otherwise the player moves. */
  function RollDice(g: Game, roll: int, pick: nat): (r: Game)
    requires Valid(g) && g.phase == AwaitingRoll
    requires 1 <= roll <= 6
    requires PickFits(g, roll, pick)
    ensures Valid(r) && SameSession(g, r)
    ensures Current(g).skipTurn ==>
      && !r.players[g.currentPlayer].skipTurn
      && OnlyChanges(Current(g), r.players[g.currentPlayer], {SkipTurn, Cooldown})
      && r.phase == AwaitingRoll
      && HandedOn(g.players, g.currentPlayer, r)
      && CooldownsOnly(g.players[g.currentPlayer := Current(g).(skipTurn := false)], r.players)
    ensures !Current(g).skipTurn ==> r == MovePlayer(g, roll, pick)
  {
    var p := Current(g);
    if p.skipTurn then
      var g1 := WithPlayer(g, g.currentPlayer, p.(skipTurn := false));
      var r := NextTurn(g1);
      HandedOnSameStanding(g1.players, g.players, g.currentPlayer, r);
      r
    else MovePlayer(g, roll, pick)
  }

  /** Moving the current player by a roll. Reaching the last tile starts the
      final challenge whatever the tile; landing on an event tile triggers it;
      otherwise the turn passes. */
  function MovePlayer(g: Game, spaces: int, pick: nat): (r: Game)
    requires Consistent(g) && Alive(Current(g))
    requires spaces >= 1
    requires PickFits(g, spaces, pick)
    ensures Valid(r) && SameSession(g, r)
    ensures r.phase == AwaitingFinalRoll <==> Landing(g, spaces) == g.boardSize - 1
    ensures r.phase == AwaitingFinalRoll ==>
      && r.currentPlayer == g.currentPlayer
      && r.players == g.players[g.currentPlayer := Advance(Current(g), spaces, g.boardSize)]
      && r.currentEvent == g.currentEvent
    ensures Landing(g, spaces) < g.boardSize - 1 && Current(g).immunityTurns == 0 ==>
      var kind := g.board[Landing(g, spaces)];
      r.currentEvent == Some(PendingEvent(g.currentPlayer, Scale(Events(kind, g.portalMove)[pick], g.difficulty), kind))
    ensures Landing(g, spaces) < g.boardSize - 1 ==>
      var m := Advance(Current(g), spaces, g.boardSize);
      var e := Scale(Events(g.board[m.position], g.portalMove)[pick], g.difficulty);
      var cur := g.currentPlayer;
      && (m.immunityTurns > 0 ==>
            && CooldownsOnly(g.players[cur := m.(immunityTurns := m.immunityTurns - 1)], r.players)
            && HandedOn(g.players[cur := m], cur, r))
      && (m.immunityTurns <= 0 ==> (r.phase == AwaitingPassiveChoice <==> OfferPassive(m, g.boardSize)))
      && (r.phase == AwaitingPassiveChoice ==> r.players == g.players[cur := m] && r.currentPlayer == cur)
      && (m.immunityTurns <= 0 && r.phase != AwaitingPassiveChoice ==>
            && CooldownsOnly(g.players[cur := ApplyEffect(m, e, g.boardSize)], r.players)
            && HandedOn(g.players[cur := ApplyEffect(m, e, g.boardSize)], cur, r))
  {
    var p := Advance(Current(g), spaces, g.boardSize);
    var g1 := WithPlayer(g, g.currentPlayer, p);
    if p.position == g.boardSize - 1 then g1.(phase := AwaitingFinalRoll)
    else if p.position > 0 && IsEventTile(g.board[p.position]) then
      var e := Scale(Events(g.board[p.position], g.portalMove)[pick], g.difficulty);
      var cur := g.currentPlayer;
      assert Current(g1) == p;
      assert g1.players[cur := ApplyEffect(p, e, g.boardSize)] == g.players[cur := ApplyEffect(p, e, g.boardSize)];
      assert g1.players[cur := p.(immunityTurns := p.immunityTurns - 1)]
          == g.players[cur := p.(immunityTurns := p.immunityTurns - 1)];
      TriggerTileEvent(g1, g.board[p.position], pick)
    else
      // a roll moves at least one tile and every interior tile has a kind
      assert false; g1
  }

  /** Landing on an event tile. Immunity spends one charge and nullifies the
      tile; otherwise an effect is drawn, scaled by the difficulty, recorded
      as pending and offered to the passive gate. */
  function TriggerTileEvent(g: Game, kind: Tile, pick: nat): (r: Game)
    requires Consistent(g) && Alive(Current(g))
    requires IsEventTile(kind) && pick < |Events(kind, g.portalMove)|
    ensures Valid(r) && SameSession(g, r)
    ensures r.phase != AwaitingFinalRoll
    ensures Current(g).immunityTurns > 0 ==>
      && r.players[g.currentPlayer].immunityTurns == Current(g).immunityTurns - 1
      && OnlyChanges(Current(g), r.players[g.currentPlayer], {Immunity, Cooldown})
      && r.currentEvent == g.currentEvent
      && r.phase == AwaitingRoll
      && HandedOn(g.players, g.currentPlayer, r)
      && CooldownsOnly(g.players[g.currentPlayer := Current(g).(immunityTurns := Current(g).immunityTurns - 1)], r.players)
    ensures Current(g).immunityTurns <= 0 ==>
      var e := Scale(Events(kind, g.portalMove)[pick], g.difficulty);
      && r.currentEvent == Some(PendingEvent(g.currentPlayer, e, kind))
      && (r.phase == AwaitingPassiveChoice <==> OfferPassive(Current(g), g.boardSize))
      && (OfferPassive(Current(g), g.boardSize) ==> r.players == g.players && r.currentPlayer == g.currentPlayer)
      && (!OfferPassive(Current(g), g.boardSize) ==>
            && (r.phase == AwaitingRoll || r.phase == GameOver(AllFallen))
            && CooldownsOnly(g.players[g.currentPlayer := ApplyEffect(Current(g), e, g.boardSize)], r.players)
            && HandedOn(g.players[g.currentPlayer := ApplyEffect(Current(g), e, g.boardSize)], g.currentPlayer, r))
  {
    if Current(g).immunityTurns > 0 then ProtectedLanding(g) else DrawnLanding(g, kind, pick)
  }

  /** A landing under Immunity: one charge is spent, the tile does nothing
      else, and the turn passes. */
  function ProtectedLanding(g: Game): (r: Game)
    requires Consistent(g) && Alive(Current(g)) && Current(g).immunityTurns > 0
    ensures Valid(r) && SameSession(g, r)
    ensures r.players[g.currentPlayer].immunityTurns == Current(g).immunityTurns - 1
    ensures OnlyChanges(Current(g), r.players[g.currentPlayer], {Immunity, Cooldown})
    ensures r.currentEvent == g.currentEvent && r.phase == AwaitingRoll
    ensures HandedOn(g.players, g.currentPlayer, r)
    ensures CooldownsOnly(g.players[g.currentPlayer := Current(g).(immunityTurns := Current(g).immunityTurns - 1)], r.players)
  {
    var p := Current(g);
    var q := p.(immunityTurns := p.immunityTurns - 1);
    var g1 := WithPlayer(g, g.currentPlayer, q);
    var r := PassTurn(g1);
    HandedOnSameStanding(g1.players, g.players, g.currentPlayer, r);
    assert g1.players[g.currentPlayer] == q;
    assert OnlyChanges(q, r.players[g.currentPlayer], {Cooldown});
    assert OnlyChanges(p, q, {Immunity});
    OnlyChangesCompose(p, q, r.players[g.currentPlayer], {Immunity}, {Cooldown});
    assert Agree(q, r.players[g.currentPlayer], Immunity);
    r
  }

  /** A landing without Immunity: the drawn entry, scaled by the difficulty,
      becomes the pending event and goes to the passive gate. */
  function DrawnLanding(g: Game, kind: Tile, pick: nat): (r: Game)
    requires Consistent(g) && Alive(Current(g)) && Current(g).immunityTurns <= 0
    requires IsEventTile(kind) && pick < |Events(kind, g.portalMove)|
    ensures Valid(r) && SameSession(g, r)
    ensures r.phase != AwaitingFinalRoll
    ensures var e := Scale(Events(kind, g.portalMove)[pick], g.difficulty);
      && r.currentEvent == Some(PendingEvent(g.currentPlayer, e, kind))
      && (r.phase == AwaitingPassiveChoice <==> OfferPassive(Current(g), g.boardSize))
      && (OfferPassive(Current(g), g.boardSize) ==> r.players == g.players && r.currentPlayer == g.currentPlayer)
      && (!OfferPassive(Current(g), g.boardSize) ==>
            && (r.phase == AwaitingRoll || r.phase == GameOver(AllFallen))
            && CooldownsOnly(g.players[g.currentPlayer := ApplyEffect(Current(g), e, g.boardSize)], r.players)
            && HandedOn(g.players[g.currentPlayer := ApplyEffect(Current(g), e, g.boardSize)], g.currentPlayer, r))
  {
    var e := Scale(Events(kind, g.portalMove)[pick], g.difficulty);
    var g1 := g.(currentEvent := Some(PendingEvent(g.currentPlayer, e, kind)));
    assert g1.players == g.players && Current(g1) == Current(g);
    ShowPassiveChoice(g1, e)
  }

  /** The passive gate: with no uses left, or within `PassiveMargin` tiles of
      the end, the effect applies at once; otherwise the player is asked. */
  function ShowPassiveChoice(g: Game, e: Effect): (r: Game)
    requires Consistent(g) && Alive(Current(g))
    requires g.currentEvent.Some? && g.currentEvent.value.playerIndex == g.currentPlayer
    ensures Valid(r) && SameSession(g, r) && r.currentEvent == g.currentEvent
    ensures r.phase != AwaitingFinalRoll
    ensures r.phase == AwaitingPassiveChoice <==>
      Current(g).passiveCount > 0 && Current(g).position < g.boardSize - PassiveMargin
    ensures r.phase == AwaitingPassiveChoice ==> r.players == g.players && r.currentPlayer == g.currentPlayer
    ensures r.phase != AwaitingPassiveChoice ==>
      && (r.phase == AwaitingRoll || r.phase == GameOver(AllFallen))
      && CooldownsOnly(g.players[g.currentPlayer := ApplyEffect(Current(g), e, g.boardSize)], r.players)
      && HandedOn(g.players[g.currentPlayer := ApplyEffect(Current(g), e, g.boardSize)], g.currentPlayer, r)
  {
    var p := Current(g);
    if p.passiveCount <= 0 || p.position >= g.boardSize - PassiveMargin then
      ApplyEventEffect(g, g.currentPlayer, e)
    else
      g.(phase := AwaitingPassiveChoice)
  }

  /** Taking the passive: one use is spent, the pending effect is dropped
      entirely and the turn passes. */
  function UsePassive(g: Game): (r: Game)
    requires Valid(g) && g.phase == AwaitingPassiveChoice
    ensures Valid(r) && SameSession(g, r)
    ensures r.phase == AwaitingRoll
    ensures CooldownsOnly(g.players[g.currentPlayer := SpendPassive(Current(g))], r.players)
    ensures HandedOn(g.players, g.currentPlayer, r)
  {
    var g1 := WithPlayer(g, g.currentPlayer, SpendPassive(Current(g)));
    var r := PassTurn(g1);
    HandedOnSameStanding(g1.players, g.players, g.currentPlayer, r);
    r
  }

  /** Declining the passive: the pending effect applies. */
  function SkipPassive(g: Game): (r: Game)
    requires Valid(g) && g.phase == AwaitingPassiveChoice
    ensures Valid(r) && SameSession(g, r)
    ensures r.phase == AwaitingRoll || r.phase == GameOver(AllFallen)
    ensures CooldownsOnly(g.players[g.currentPlayer := ApplyEffect(Current(g), g.currentEvent.value.effect, g.boardSize)],
                          r.players)
    ensures HandedOn(g.players[g.currentPlayer := ApplyEffect(Current(g), g.currentEvent.value.effect, g.boardSize)],
                     g.currentPlayer, r)
  {
    ApplyEventEffect(g, g.currentEvent.value.playerIndex, g.currentEvent.value.effect)
  }

  /** Applying a tile effect to player `idx`, then handing the turn on. The
      game ends when the effect leaves nobody standing. A move that reaches
      the last tile does not start the final challenge. */
  function ApplyEventEffect(g: Game, idx: nat, e: Effect): (r: Game)
    requires Consistent(g) && idx < |g.players|
    ensures Valid(r) && SameSession(g, r) && r.currentEvent == g.currentEvent
    ensures r.phase == AwaitingRoll || r.phase == GameOver(AllFallen)
    ensures r.phase == GameOver(AllFallen) <==>
      NoneAlive(g.players[idx := ApplyEffect(g.players[idx], e, g.boardSize)])
    ensures CooldownsOnly(g.players[idx := ApplyEffect(g.players[idx], e, g.boardSize)], r.players)
    ensures HandedOn(g.players[idx := ApplyEffect(g.players[idx], e, g.boardSize)], g.currentPlayer, r)
  {
    var p := ApplyEffect(g.players[idx], e, g.boardSize);
    var g1 := WithPlayer(g, idx, p);
    if p.hp <= 0 && AliveCount(g1.players) == 0 then g1.(phase := GameOver(AllFallen))
    else
      assert !NoneAlive(g1.players) by {
        if p.hp > 0 {
          assert Alive(g1.players[idx]);
        }
      }
      PassTurn(g1)
  }

  /** The final challenge roll. A roll of at least `FinalThreshold` wins and
      changes nothing else; a lower roll costs `FinalPenalty` hit points past
      any shield, pushes a survivor back to the tile before the last, and
      the turn passes. */
  function FinalChallenge(g: Game, roll: int): (r: Game)
    requires Valid(g) && g.phase == AwaitingFinalRoll
    requires 1 <= roll <= 6
    ensures Valid(r) && SameSession(g, r)
    ensures r.phase == GameOver(Victory(g.currentPlayer)) <==> roll >= FinalThreshold
    ensures roll >= FinalThreshold ==> r.players == g.players && r.currentPlayer == g.currentPlayer
    ensures roll < FinalThreshold ==>
      var q := r.players[g.currentPlayer];
      && q.hp == Max(0, Current(g).hp - FinalPenalty)
      && q.shield == Current(g).shield
      && (Alive(q) ==> q.position == g.boardSize - 2)
      && (!Alive(q) ==> q.position == g.boardSize - 1)
    ensures roll < FinalThreshold ==>
      && HandedOn(g.players[g.currentPlayer := FailFinalChallenge(Current(g), g.boardSize)], g.currentPlayer, r)
      && CooldownsOnly(g.players[g.currentPlayer := FailFinalChallenge(Current(g), g.boardSize)], r.players)
  {
    if roll >= FinalThreshold then g.(phase := GameOver(Victory(g.currentPlayer)))
    else
      PassTurn(WithPlayer(g, g.currentPlayer, FailFinalChallenge(Current(g), g.boardSize)))
  }

  /** Casting the current player's spell: a no-op while it cools down;
      otherwise the class's field changes, the cooldown restarts and the
      display refresh ticks it once. */
  function UseSpell(g: Game): (r: Game)
    requires Valid(g) && g.phase == AwaitingRoll
    ensures Valid(r) && SameSession(g, r)
    ensures r.phase == AwaitingRoll && r.currentPlayer == g.currentPlayer
    ensures Current(g).spellCooldown > 0 ==> r == g
    ensures Current(g).spellCooldown == 0 ==>
      && Current(r) == Tick(CastSpell(Current(g)))
      && Current(r).spellCooldown == SpellCooldown - 1
      && OnlyChanges(Current(g), Current(r), {Cooldown, ClassField(Current(g).cls)})
      && (Current(g).cls == Mage ==> Current(r).immunityTurns == ImmunityCharges)
    ensures forall i :: 0 <= i < |g.players| && i != g.currentPlayer ==> r.players[i] == g.players[i]
  {
    var p := Current(g);
    if p.spellCooldown > 0 then g
    else Refresh(WithPlayer(g, g.currentPlayer, CastSpell(p)))
  }

  /** With immunity spent only by protected landings, a mage's cast covers
      two landings: one charge is left after the first. */
  lemma ImmunityCoversTwoLandings(g: Game, kind: Tile, pick: nat)
    requires Valid(g) && g.phase == AwaitingRoll
    requires Current(g).cls == Mage && Current(g).spellCooldown == 0
    requires IsEventTile(kind) && pick < |Events(kind, g.portalMove)|
    ensures Current(UseSpell(g)).immunityTurns == ImmunityCharges
    ensures var r := TriggerTileEvent(UseSpell(g), kind, pick);
      && r.players[g.currentPlayer].immunityTurns == ImmunityCharges - 1
      && r.players[g.currentPlayer].hp == Current(g).hp
  {
    var g1 := UseSpell(g);
    assert Agree(Current(g), Current(g1), Hp);
  }
}
