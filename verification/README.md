# Mystic Dice Adventure: rules engine model

This project is a Dafny model of the rules engine inside the browser board game in `script.js`. Two or more
adventurers, each a warrior, mage, tank or healer, take turns rolling a die along a track of 40 tiles. Each
interior tile is a danger, healing, mystery, comedy or go-back tile, and landing on one draws an effect: damage,
healing, a move or a lost turn. The difficulty sets the players' maximum hit points and the intensity that scales
an effect's hit points. A shield absorbs damage first. Each class has a cooldown-gated spell:

- Charge gives the warrior +3 movement.
- Immunity lets the mage ignore tiles.
- The tank's spell adds shield.
- The healer's spell heals.

Each player also has a few uses of a passive that skips a tile's effect, but it is not offered in the last ten
tiles. Reaching the last tile starts the final challenge: a roll of 5 or more wins. Players who fall are skipped
in the turn order, and the game ends when everyone has fallen.

The model has no DOM, timers or randomness. Every step is a pure function over immutable values. Every draw the
original makes with `Math.random` is an explicit argument:

- the die roll;
- the index of the effect drawn from a tile's list;
- the kind of each interior tile;
- the portal's distance, which is fixed once when the script loads.

Modules:

- `Wrappers`: `Option` and `Result`.
- `Rules`: the difficulty table, classes, tile kinds, the effect catalog and intensity scaling. Intensities
  0.7 / 1.0 / 1.3 are exact tenths with floor division.
- `Board`: the board as a sequence of tile kinds.
- `Players`: the player record, which fields an operation may change (`OnlyChanges`), and the cooldown tick.
- `Setup`: name trimming, as JavaScript's `trim` does it, and building the roster.
- `Abilities`: spells and the passive.
- `Effects`: roll movement, applying a tile effect, and the final-challenge penalty.
- `Rotation`: the search for the next player who has not fallen.
- `Engine`: the game session (`Game`), its invariant `Valid`, and one step function per handler of the
  original:
  - `StartGame`, `RollDice`, `MovePlayer`, `TriggerTileEvent`;
  - `ShowPassiveChoice`, `UsePassive`, `SkipPassive`;
  - `ApplyEventEffect`, `FinalChallenge`, `NextTurn`, `UseSpell`.

  The points where the original waits for a click are phases: `AwaitingRoll`, `AwaitingFinalRoll` (the
  final-challenge dialog), `AwaitingPassiveChoice` and `GameOver`. Each call to `updateGameDisplay` is modelled
  as `Refresh` at the same point in the step.
- `AsWritten`: the code as written where the findings below depart from it.
- `Scenarios`: worked situations of the game's rules.

The player-driven steps (`RollDice`, `UseSpell`, `UsePassive`, `SkipPassive`, `FinalChallenge`) require and
ensure `Valid`. The inner steps they call (`MovePlayer`, `TriggerTileEvent`, `ShowPassiveChoice`,
`ApplyEventEffect`, `NextTurn`) require only the data invariant `Consistent`, sometimes with a standing current
player, and ensure `Valid`. So after every player action these facts hold for every player:

- the position is on the board and hit points stay within `[0, maxHP]`;
- shield, cooldown, immunity and passive counters stay non-negative and within their class limits;
- while the game is not over, the current player is standing;
- a game ended by "all fallen" really has nobody standing.

## Model

| member | source | states |
|---|---|---|
| `Rules.ScaleHp` | script.js:319-324 | the scaled hp r is the floor of hp × intensity: 10·r ≤ hp·intensity(tenths) < 10·r + 10, so negatives round toward −∞ |
| `Rules.MaxHP` | script.js:9-13 | every player starts standing, with 150 / 100 / 75 hit points: above 100 on easy, below on hard |
| `Rules.IntensityTenths` | script.js:9-13 | the intensity in tenths is positive, below 1.0 exactly on easy and above 1.0 exactly on hard |
| `Rules.PassiveCount` | script.js:89-93 | every class starts with 1 to 3 passive uses; only the warrior has 3 and only the tank has 1 |
| `Rules.Events` | script.js:15-39 | every event tile kind has a list of two or three entries |
| `Rules.CatalogShape` | script.js:15-39 | danger entries only hurt, healing entries only heal, go-back entries only move back, only comedy costs a turn, and with a moving portal every entry does something |
| `Rules.Scale` | script.js:319-324 | only a present hp is scaled (by floor of hp × intensity); move and skipTurn are never scaled; an absent (zero) hp stays absent |
| `Rules.ScaleMediumIsIdentity` | script.js:11 | medium intensity 1.0 leaves every effect exactly as drawn |
| `Rules.CatalogScalingKeepsSign` | script.js:15-39 | every catalog heal stays a heal and every catalog hit stays a hit after scaling, on every difficulty |
| `Board.Generate` | script.js:65-72 | the laid-out board starts with `start`, ends with `final`, and each interior tile is the kind its draw names |
| `Board.GenerateIsOnto` | script.js:65-72 | every well-formed board (start, final, event kinds inside) is the layout of some draws |
| `Players.Tick` | script.js:164 | the refresh decrements the spell cooldown by one, never below 0, and changes no other field |
| `Players.TicksUntilReady` | script.js:164-172 | after k refreshes the cooldown is max(0, c − k), so a spell on cooldown c is castable again after exactly c refreshes |
| `Setup.FirstKept` | script.js:84 | the index of the first non-whitespace character: everything before it is whitespace, and it is the length of s only when every character is whitespace |
| `Setup.KeptEnd` | script.js:84 | the index just past the last non-whitespace character: everything from it on is whitespace, and the character before it is not |
| `Setup.Trim` | script.js:84-86 | the trimmed name is s[a..b] for a slice that cuts only whitespace from either end; it is non-empty iff the name has a non-whitespace character, and a non-empty result starts and ends with one |
| `Setup.TrimIdempotent` | script.js:84 | trimming twice equals trimming once |
| `Setup.Named` | script.js:83-86 | each kept entry is one of the form's entries with a non-whitespace character in its name, and every such entry is kept |
| `Setup.NamedDistributes` | script.js:83-86 | the entries kept from a + b are those kept from a followed by those kept from b; with `NamedOfOne` this fixes order and count |
| `Setup.NamedOfOne` | script.js:84-86 | a single entry is kept iff its name has a non-whitespace character |
| `Setup.NewPlayer` | script.js:95-107 | a new player keeps the given name and class and, when the name is non-empty, is fresh (start tile, full hit points, class passives, all else zero) and within bounds on any board |
| `Setup.BuildPlayers` | script.js:83-109 | exactly the entries with a non-empty trimmed name become players, in form order, named by the trimmed name: position 0, hp = maxHP from the difficulty, passives warrior 3 / mage 2 / tank 1 / healer 2, every other counter 0 or false |
| `Abilities.CastSpell` | script.js:195-223 | on cooldown the cast changes nothing; otherwise the cooldown becomes 6 and only the class's own field changes: Charge armed, immunity 2, shield +10, or hp healed by 10 up to maxHP; bounds are kept |
| `Abilities.SpendPassive` | script.js:356-360 | with a use left (the choice is only offered then, script.js:337), one use is spent and the count stays ≥ 0; nothing else changes and bounds are kept |
| `Abilities.OfferPassive` | script.js:335-337 | the passive is not offered exactly when no uses are left or the player stands within the last 10 tiles |
| `Abilities.PassiveBoundary` | script.js:335-340 | with passives left, position boardSize−11 is offered the passive and boardSize−10 is not |
| `Effects.Advance` | script.js:275-281 | an armed warrior's Charge adds 3 and is cleared, other classes ignore the flag; the distance moved is min(roll + bonus, tiles left to the last), and only position and the Charge flag change |
| `Effects.Absorb` | script.js:391-402 | the shield absorbs min(shield, damage) and the rest comes off hp, floored at 0 |
| `Effects.ApplyEffect` | script.js:383-419 | afterwards 0 ≤ hp ≤ maxHP and 0 ≤ position < boardSize; a heal adds hp up to maxHP; damage d against shield s leaves s − min(s, d) shield and reduces hp by d − min(s, d), floored at 0, so hp loss ≤ d; the move is clamped to the board; skipTurn is set by the effect; only hp, shield, position and skipTurn change |
| `Effects.FailFinalChallenge` | script.js:446-454 | hp becomes max(0, hp − 10) with the shield untouched; a survivor is moved to boardSize − 2, a fallen player stays put |
| `Rotation.Rotate` | script.js:463-469 | the search stops within one lap, at the first seat after the current one that is standing, having passed only fallen seats; it stops at n only when the lap found nobody |
| `Rotation.AliveCount` | script.js:424-425 | the count of standing players is 0 iff every player has fallen |
| `Rotation.RotateFindsFirstAlive` | script.js:462-476 | a full lap ends the game iff every player has hp ≤ 0; otherwise the seat found is standing and every seat cyclically between the current player and it has fallen |
| `Engine.Refresh` | script.js:127-131 | the display refresh keeps the game consistent and changes only the current player's cooldown |
| `Engine.PassTurn` | script.js:431-432 | the end of a turn (display refresh, then the hand-off) keeps the game valid, changes only cooldowns, and hands the turn to the first standing seat after the current one, or ends the game iff nobody stands |
| `Engine.Opening` | script.js:116-123 | right after setup the game is valid, player 0 is to roll and the opening refresh leaves every fresh player as created |
| `Engine.StartGame` | script.js:78-124 | fewer than two entries with a non-empty trimmed name are rejected and nothing starts; otherwise the roster is the named entries as fresh players, the board is the one laid out from the draws, the portal distance is kept, no event is pending, player 0 is to roll, and the game is valid |
| `Engine.NextTurn` | script.js:462-478 | the game ends (all fallen) iff every player has hp ≤ 0, leaving players and currentPlayer unchanged; otherwise the new current player is standing and is the first standing one cyclically after the old, which can be the old one itself (`HandedOn`) |
| `Engine.RollDice` | script.js:244-268 | a player flagged to skip has the flag cleared, does not move, nobody else changes beyond cooldowns, and the turn goes to the first standing seat after them (`HandedOn`); any other player makes exactly the move `MovePlayer` describes |
| `Engine.MovePlayer` | script.js:271-304 | the player is moved by `Advance` (Charge spent) whatever the landing; the final challenge starts iff that is the last tile, with no tile effect; on an event tile with immunity one charge is spent and the turn passes; without it the scaled draw becomes pending, the choice is awaited iff the passive is offered (roster = moved player), and otherwise that effect is applied to the moved player and the turn passes |
| `Engine.TriggerTileEvent` | script.js:306-331 | with immunity, one charge is spent, nobody changes beyond that and cooldowns, and the turn goes to the next standing seat; without it, the pending event is the drawn effect scaled by difficulty; if the passive is offered the choice is awaited with nothing changed, otherwise the effect is applied and the turn passes or the game ends iff nobody stands |
| `Engine.ProtectedLanding` | script.js:309-313 | a landing under Immunity spends exactly one charge, changes nothing else but cooldowns, and hands the turn on |
| `Engine.DrawnLanding` | script.js:316-330 | a landing without Immunity makes the scaled draw pending and either awaits the passive choice with nothing changed or applies the effect and hands the turn on |
| `Engine.ShowPassiveChoice` | script.js:333-354 | the choice is awaited iff passiveCount > 0 and position < boardSize − 10, with nothing applied yet; otherwise the effect is applied, only cooldowns change besides, and the turn passes (or the game ends iff nobody stands), never a victory |
| `Engine.UsePassive` | script.js:356-375 | one passive use is spent, the pending effect is dropped entirely, and the turn goes to the next standing seat (`HandedOn`) |
| `Engine.SkipPassive` | script.js:377-381 | the pending effect is applied to the current player, then the turn goes to the next seat standing after it, or the game ends iff nobody stands |
| `Engine.ApplyEventEffect` | script.js:383-433 | the effect is applied to the player and only cooldowns change otherwise; the game ends iff nobody is left standing, else the turn goes to the next standing seat; a move onto the last tile never starts the final challenge |
| `Engine.FinalChallenge` | script.js:435-460 | victory iff the roll is ≥ 5, changing no player; otherwise hp becomes max(0, hp − 10) past the shield, only a survivor goes back to boardSize − 2, nothing else changes beyond cooldowns, and the turn goes to the next standing seat |
| `Engine.UseSpell` | script.js:195-226 | on cooldown nothing changes; otherwise the current player becomes exactly the cast player after one refresh tick (Charge armed, immunity 2, shield +10, or heal up to maxHP), the cooldown reads 5, and nobody else changes |
| `Engine.ImmunityCoversTwoLandings` | script.js:206-210 | a mage's Immunity holds 2 charges after the cast, and one is still left after the first protected landing |
| `AsWritten.RefreshTick` | script.js:190-192 | the refresh as written also decrements immunity by one, never below 0 |
| `AsWritten.ImmunityCoversOneLandingAsWritten` | script.js:206-210 | as written, the cast's own refresh leaves 1 charge, and the first protected landing's refresh leaves 0 |
| `AsWritten.ScaleSharedTemplate` | script.js:320-323 | as written, the catalog entry left for the next draw is the effect just applied: unchanged on medium, but on easy or hard an entry whose hp is at least 4 or at most −4 is altered in the catalog |
| `AsWritten.SharedTemplateCompounds` | script.js:320-323 | as written, repeated draws compound: −13 then −17 on hard; 7, 4, 2, 1, 0 on easy |
| `AsWritten.DrawsCorrected` | script.js:319-324 | with the entry left untouched, each of k draws applies the floor of the entry hp × intensity |
| `AsWritten.AsWrittenAgreesOnMedium` | script.js:320-323 | on medium the draws as written equal the corrected draws for any number of draws, so the compounding shows only on easy and hard |
| `AsWritten.UntouchedTemplateIsStable` | script.js:319-324 | corrected, the spike trap hits −13, −13 on hard and the spring heals 7 five times on easy, against the compounding values as written |
| `Scenarios.DangerThroughShield` | script.js:391-402 | on medium, a −10 hit on shield 4 and hp 50 leaves shield 0 and hp 44 |
| `Scenarios.ChargeThenRollFour` | script.js:275-281 | Charge then a roll of 4 moves 7, and the cooldown stays at 6 |
| `Scenarios.EasyRoundsTowardNegativeInfinity` | script.js:323 | −15 at intensity 0.7 gives −11; +15 gives 10 |
| `Scenarios.MoveEffectOntoLastTile` | script.js:406-408 | a +2 move from boardSize − 3 ends on the last tile without starting the final challenge |
| `Scenarios.OneNamedEntryIsRejected` | script.js:83-114 | a form with "Bob" and a blank name names one player, so the game does not start |

## Findings

| source | as written | input that shows it | evidently intended | confidence | as-written member | corrected member |
|---|---|---|---|---|---|---|
| script.js:320-323 | `{ ...event }` copies only the outer object, so the scaled hp is written into the shared catalog entry, and each later draw scales the value that was already scaled | hard, spike trap (hp −10) drawn twice: −13, then −17; easy, magical spring (hp +10) drawn five times: 7, 4, 2, 1, 0 | every draw applies floor(entry hp × intensity) of the unchanged entry | high; not executed | `AsWritten.SharedTemplateCompounds` | `AsWritten.DrawsCorrected` |
| script.js:206-210 | The mage's spell sets 2 immunity charges, but the refresh right after the cast (line 225, via lines 190-192) takes one charge. The refresh after the first protected landing (line 311) takes the other. | a mage with cooldown 0 casts Immunity, then lands on two event tiles: the second tile's effect applies | "Next 2 tiles have no effect", as the cast announces | high; not executed | `AsWritten.ImmunityCoversOneLandingAsWritten` | `Engine.ImmunityCoversTwoLandings` |

The engine uses the corrected behaviour:

- `Rules.Scale` is a pure function of the unchanged catalog entry. The pending event of `Engine.DrawnLanding` is that scaled entry.
- The refresh (`Players.Tick`) counts down only the spell cooldown.
- A protected landing (`Engine.ProtectedLanding`) spends exactly one immunity charge.

## Left out

- Rendering is not modelled, because it does not affect the rules. This covers the board and player cards, the
  modals, the event log, and the enabling and labelling of buttons (script.js:41-60, 127-154, 174-188, 228-242,
  480-535).
- `setTimeout` delays are cosmetic. Each delayed continuation is taken synchronously.
- `Math.random` draws become explicit arguments:
  - the die roll and the final-challenge roll, both in [1, 6];
  - the effect index, which must fit the landed tile's list (`Engine.PickFits`);
  - one kind index in [0, 5) per interior tile;
  - the portal distance in [1, 6], fixed once when the script loads and kept in the game.
- Intensities are exact tenths with floor division. The model does not claim bit-exact agreement with JavaScript
  floating-point multiplication.
- Narration is not modelled. That includes the `passiveNames` and `passiveMessages` tables, with their
  unreachable `priest` key and missing `healer` entry (script.js:345-350, 362-367).
- `resetGame` (script.js:537-564) only reassigns global state. The model starts each game from `StartGame`, with
  player 0 to move, as in the fresh or reset state.
- Some input is assumed well-formed rather than modelled:
  - the difficulty read from button text (script.js:51) is one of the three difficulties;
  - each class selector value (script.js:85) is one of the four classes.
- The `gameStarted` flag is not modelled. The board drawn at page load (script.js:43) is replaced before any
  move by the one drawn at start (script.js:124). The model lays out only the second, in `StartGame`.
- Steps cannot run out of turn: each step requires the phase it belongs to. In the original, the spell button
  stays enabled while a passive choice is pending, and its refresh re-enables the roll button.
  `Engine.UseSpell` is modelled only in the `AwaitingRoll` phase.
- `Engine.MovePlayer`: the fall-through for a landing without a tile kind (script.js:302-303) is unreachable in
  the model: every roll moves at least one tile and every interior tile has a kind.
