/** A player record, the bounds it keeps during a game, and the per-refresh
    countdown of the spell cooldown. */
module Players {
  import opened Rules

  datatype Player = Player(
    name: string,
    cls: PlayerClass,
    position: int,
    hp: int,
    maxHP: int,
    shield: int,
    spellCooldown: int,
    spellActive: bool,
    immunityTurns: int,
    skipTurn: bool,
    passiveCount: int)

  /** A player with no hit points has fallen and is skipped by the rotation. */
  predicate Alive(p: Player) {
    p.hp > 0
  }

  /** The bounds a player keeps on a board of `size` tiles. */
  predicate InBounds(p: Player, size: int) {
    && |p.name| > 0
    && 0 <= p.position < size
    && 0 <= p.hp <= p.maxHP
    && p.shield >= 0
    && 0 <= p.spellCooldown <= SpellCooldown
    && 0 <= p.immunityTurns <= ImmunityCharges
    && 0 <= p.passiveCount <= PassiveCount(p.cls)
  }

  /** The fields of a player record, used to say which of them an operation
      may change. */
  datatype Field = Name | Class | Position | Hp | MaxHp | Shield | Cooldown
                 | SpellActive | Immunity | SkipTurn | Passives

  /** `p` and `q` hold the same value in field `f`. */
  predicate Agree(p: Player, q: Player, f: Field) {
    match f
    case Name => p.name == q.name
    case Class => p.cls == q.cls
    case Position => p.position == q.position
    case Hp => p.hp == q.hp
    case MaxHp => p.maxHP == q.maxHP
    case Shield => p.shield == q.shield
    case Cooldown => p.spellCooldown == q.spellCooldown
    case SpellActive => p.spellActive == q.spellActive
    case Immunity => p.immunityTurns == q.immunityTurns
    case SkipTurn => p.skipTurn == q.skipTurn
    case Passives => p.passiveCount == q.passiveCount
  }

  /** `q` differs from `p` at most in the fields `fs`. */
  predicate OnlyChanges(p: Player, q: Player, fs: set<Field>) {
    forall f :: f !in fs ==> Agree(p, q, f)
  }

  /** Player by player, `qs` differs from `ps` at most in spell cooldowns. */
  predicate CooldownsOnly(ps: seq<Player>, qs: seq<Player>) {
    |ps| == |qs| && forall i :: 0 <= i < |ps| ==> OnlyChanges(ps[i], qs[i], {Cooldown})
  }

  lemma CooldownsOnlyTransitive(ps: seq<Player>, qs: seq<Player>, rs: seq<Player>)
    requires CooldownsOnly(ps, qs) && CooldownsOnly(qs, rs)
    ensures CooldownsOnly(ps, rs)
  {
    forall i, f | 0 <= i < |ps| && f != Cooldown
      ensures Agree(ps[i], rs[i], f)
    {
      assert Agree(ps[i], qs[i], f) && Agree(qs[i], rs[i], f);
    }
  }

  /** Two changes in a row change at most the fields of either. */
  lemma OnlyChangesCompose(p: Player, q: Player, r: Player, fs: set<Field>, gs: set<Field>)
    requires OnlyChanges(p, q, fs) && OnlyChanges(q, r, gs)
    ensures OnlyChanges(p, r, fs + gs)
  {
    forall f | f !in fs + gs
      ensures Agree(p, r, f)
    {
      assert Agree(p, q, f) && Agree(q, r, f);
    }
  }

  /** The display refresh's countdown: the spell cooldown goes down by one
      and never below zero; nothing else changes. */
  function Tick(p: Player): (r: Player)
    ensures OnlyChanges(p, r, {Cooldown})
    ensures r.spellCooldown >= 0
    ensures p.spellCooldown > 0 ==> r.spellCooldown == p.spellCooldown - 1
    ensures p.spellCooldown <= 0 ==> r.spellCooldown == 0
  {
    p.(spellCooldown := Max(0, p.spellCooldown - 1))
  }

  /** `k` refreshes in a row. */
  function TickN(p: Player, k: nat): Player
    decreases k
  {
    if k == 0 then p else TickN(Tick(p), k - 1)
  }

  /** A spell on cooldown `c` becomes castable after exactly `c` refreshes:
      the cooldown is positive before that and zero from then on. */
  lemma {:induction false} TicksUntilReady(p: Player, k: nat)
    requires p.spellCooldown >= 0
    ensures TickN(p, k).spellCooldown == Max(0, p.spellCooldown - k)
    ensures OnlyChanges(p, TickN(p, k), {Cooldown})
    decreases k
  {
    if k > 0 {
      TicksUntilReady(Tick(p), k - 1);
    }
  }
}
