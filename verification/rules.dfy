/** The fixed rule tables of the game: difficulty settings, player classes,
    tile kinds, the catalog of tile effects and the difficulty scaling of an
    effect's hit points. */
module Rules {

  datatype Difficulty = Easy | Medium | Hard

  datatype PlayerClass = Warrior | Mage | Tank | Healer

  datatype Tile = Start | Final | Danger | Healing | Mystery | Comedy | GoBack

  /** The payload of a tile effect. A zero `hp` or `move` and a false
      `skipTurn` stand for a key the effect does not carry: the source tests
      each key for truthiness, so an absent key and a zero behave alike. */
  datatype Effect = Effect(hp: int, move: int, skipTurn: bool)

  function Min(a: int, b: int): int { if a <= b then a else b }

  function Max(a: int, b: int): int { if a >= b then a else b }

  /** Hit points every player starts with, and the cap on healing. Every
      player starts standing, with more hit points on an easier setting. */
  function MaxHP(d: Difficulty): (m: int)
    ensures m > 0
    ensures d == Easy ==> m > 100
    ensures d == Hard ==> m < 100
  {
    match d
    case Easy => 150
    case Medium => 100
    case Hard => 75
  }

  /** The intensity multiplier 0.7, 1.0 or 1.3, in tenths: gentler than 1.0
      on easy, harsher on hard. */
  function IntensityTenths(d: Difficulty): (k: int)
    ensures 0 < k
    ensures d == Easy <==> k < 10
    ensures d == Hard <==> k > 10
  {
    match d
    case Easy => 7
    case Medium => 10
    case Hard => 13
  }

  /** Uses of the tile-skipping passive each class starts with: every class
      has at least one, the warrior the most and the tank the fewest. */
  function PassiveCount(c: PlayerClass): (n: int)
    ensures 1 <= n <= 3
    ensures n == 3 <==> c == Warrior
    ensures n == 1 <==> c == Tank
  {
    match c
    case Warrior => 3
    case Mage => 2
    case Tank => 1
    case Healer => 2
  }

  /** Turns' worth of display refreshes before a spell can be cast again. */
  const SpellCooldown := 6
  /** Tiles the mage's Immunity spell nullifies. */
  const ImmunityCharges := 2
  /** Extra movement of the warrior's Charge. */
  const ChargeBonus := 3
  /** Shield the tank's spell adds. */
  const ShieldGain := 10
  /** Hit points the healer's spell restores. */
  const HealAmount := 10
  /** Smallest final-challenge roll that wins. */
  const FinalThreshold := 5
  /** Hit points lost on a failed final challenge. */
  const FinalPenalty := 10
  /** No passive is offered this close to the last tile. */
  const PassiveMargin := 10

  /** The five kinds that have an effect list; `Start` and `Final` have none. */
  predicate IsEventTile(t: Tile) {
    !t.Start? && !t.Final?
  }

  /** The effect list of a tile kind. `portalMove` is the portal's distance,
      drawn once in [1, 6] when the table is built. */
  function Events(t: Tile, portalMove: int): (es: seq<Effect>)
    requires IsEventTile(t)
    ensures 2 <= |es| <= 3
  {
    match t
    case Comedy => [Effect(0, 2, false), Effect(5, 0, false), Effect(0, 0, true)]
    case Danger => [Effect(-10, 0, false), Effect(-15, 0, false), Effect(-20, 0, false)]
    case Mystery => [Effect(15, 0, false), Effect(0, portalMove, false), Effect(-5, 2, false)]
    case Healing => [Effect(10, 0, false), Effect(15, 0, false)]
    case GoBack => [Effect(0, -5, false), Effect(0, -8, false)]
  }

  /** What each kind's list holds: danger only hurts, healing only heals,
      go-back only moves back, only comedy costs a turn, and (with a portal
      that moves) every entry does something. */
  lemma CatalogShape(t: Tile, portalMove: int)
    requires IsEventTile(t)
    ensures var es := Events(t, portalMove);
      && (t == Danger ==> forall i :: 0 <= i < |es| ==> es[i].hp < 0 && es[i].move == 0 && !es[i].skipTurn)
      && (t == Healing ==> forall i :: 0 <= i < |es| ==> es[i].hp > 0 && es[i].move == 0 && !es[i].skipTurn)
      && (t == GoBack ==> forall i :: 0 <= i < |es| ==> es[i].hp == 0 && es[i].move < 0 && !es[i].skipTurn)
      && (portalMove != 0 ==> forall i :: 0 <= i < |es| ==> es[i].hp != 0 || es[i].move != 0 || es[i].skipTurn)
      && (forall i :: 0 <= i < |es| && es[i].skipTurn ==> t == Comedy)
  {
  }

  /** hp times the difficulty intensity, rounded toward negative infinity. */
  function ScaleHp(hp: int, d: Difficulty): (r: int)
    ensures 10 * r <= hp * IntensityTenths(d) < 10 * r + 10
  {
    (hp * IntensityTenths(d)) / 10
  }

  /** The effect actually applied for a drawn catalog entry: only a present
      `hp` is scaled; `move` and `skipTurn` are never scaled. The template is
      a value and is left as it was. */
  function Scale(e: Effect, d: Difficulty): (r: Effect)
    ensures r.move == e.move && r.skipTurn == e.skipTurn
    ensures e.hp == 0 ==> r.hp == 0
    ensures e.hp != 0 ==> 10 * r.hp <= e.hp * IntensityTenths(d) < 10 * r.hp + 10
  {
    if e.hp != 0 then e.(hp := ScaleHp(e.hp, d)) else e
  }

  /** Medium difficulty leaves every effect exactly as drawn. */
  lemma ScaleMediumIsIdentity(e: Effect)
    ensures Scale(e, Medium) == e
  {
  }

  /** Scaling never turns a catalog heal into damage or the reverse, and
      never erases a catalog hp key. */
  lemma ScaleKeepsDirection(hp: int, d: Difficulty)
    requires hp <= -1 || hp >= 2
    ensures hp > 0 ==> ScaleHp(hp, d) > 0
    ensures hp < 0 ==> ScaleHp(hp, d) < 0
  {
  }

  /** Every catalog hp value is at least 5 in size, so its scaled value keeps
      its sign on every difficulty. */
  lemma CatalogScalingKeepsSign(t: Tile, portalMove: int, i: int, d: Difficulty)
    requires IsEventTile(t) && 0 <= i < |Events(t, portalMove)|
    ensures Events(t, portalMove)[i].hp > 0 ==> Scale(Events(t, portalMove)[i], d).hp > 0
    ensures Events(t, portalMove)[i].hp < 0 ==> Scale(Events(t, portalMove)[i], d).hp < 0
  {
    var e := Events(t, portalMove)[i];
    if e.hp != 0 {
      ScaleKeepsDirection(e.hp, d);
    }
  }
}
