/** What happens to a player's record when it moves by a roll, when a tile
    effect is applied to it, and when it fails the final challenge. */
module Effects {
  import opened Rules
  import opened Players

  /** A warrior whose Charge is armed. Other classes ignore the flag. */
  predicate Charged(p: Player) {
    p.spellActive && p.cls == Warrior
  }

  /** Moving by a roll of `spaces`. An armed Charge adds `ChargeBonus` and is
      used up; the move stops at the last tile. */
  function Advance(p: Player, spaces: int, size: int): (r: Player)
    ensures OnlyChanges(p, r, {Position, SpellActive})
    ensures Charged(p) ==> !r.spellActive
    ensures !Charged(p) ==> r.spellActive == p.spellActive
    ensures r.position <= size - 1
    ensures r.position - p.position == Min(spaces + (if Charged(p) then ChargeBonus else 0), size - 1 - p.position)
    ensures InBounds(p, size) && size >= 2 && spaces >= 1 ==> InBounds(r, size) && r.position > 0
  {
    var distance := if Charged(p) then spaces + ChargeBonus else spaces;
    var p' := if Charged(p) then p.(spellActive := false) else p;
    p'.(position := Min(p.position + distance, size - 1))
  }

  /** Damage taken shield first: the shield soaks what it can and the rest
      comes off the hit points, which stop at zero. */
  function Absorb(p: Player, damage: int): (r: Player)
    requires damage > 0 && p.shield >= 0
    ensures OnlyChanges(p, r, {Hp, Shield})
    ensures 0 <= p.shield - r.shield <= damage && r.shield >= 0
    ensures p.shield - r.shield == damage || r.shield == 0
    ensures p.hp >= 0 ==> r.hp == Max(0, p.hp - (damage - (p.shield - r.shield)))
  {
    var absorbed := if p.shield > 0 then Min(p.shield, damage) else 0;
    var rest := damage - absorbed;
    var q := p.(shield := p.shield - absorbed);
    if rest > 0 then q.(hp := Max(0, q.hp - rest)) else q
  }

  /** Applying a (scaled) tile effect: a heal up to the cap or shield-first
      damage, then a move kept on the board, then the skip-turn flag. */
  function ApplyEffect(p: Player, e: Effect, size: int): (r: Player)
    requires InBounds(p, size)
    ensures InBounds(r, size)
    ensures OnlyChanges(p, r, {Hp, Shield, Position, SkipTurn})
    // healing, capped at the maximum
    ensures e.hp > 0 ==> r.shield == p.shield
    ensures e.hp > 0 ==> r.hp == p.hp + e.hp || (r.hp == p.maxHP && p.hp + e.hp >= p.maxHP)
    // damage: the shield absorbs min(shield, damage), the rest hits hp
    ensures e.hp < 0 ==>
      && 0 <= p.shield - r.shield <= -e.hp
      && (p.shield - r.shield == -e.hp || r.shield == 0)
      && r.hp == Max(0, p.hp - (-e.hp - (p.shield - r.shield)))
      && p.hp - r.hp <= -e.hp
    ensures e.hp == 0 ==> r.hp == p.hp && r.shield == p.shield
    // movement stays on the board
    ensures 0 <= p.position + e.move < size ==> r.position == p.position + e.move
    ensures p.position + e.move < 0 ==> r.position == 0
    ensures p.position + e.move >= size ==> r.position == size - 1
    ensures r.skipTurn == (p.skipTurn || e.skipTurn)
  {
    var afterHp :=
      if e.hp == 0 then p
      else if e.hp > 0 then p.(hp := Min(p.maxHP, p.hp + e.hp))
      else Absorb(p, -e.hp);
    var afterMove :=
      if e.move != 0 then afterHp.(position := Max(0, Min(size - 1, afterHp.position + e.move)))
      else afterHp;
    if e.skipTurn then afterMove.(skipTurn := true) else afterMove
  }

  /** A failed final challenge: a flat `FinalPenalty` off the hit points that
      the shield does not absorb; a survivor is pushed back to the tile before
      the last. */
  function FailFinalChallenge(p: Player, size: int): (r: Player)
    ensures OnlyChanges(p, r, {Hp, Position})
    ensures r.hp == Max(0, p.hp - FinalPenalty)
    ensures Alive(r) ==> r.position == size - 2
    ensures !Alive(r) ==> r.position == p.position
    ensures InBounds(p, size) && size >= 2 ==> InBounds(r, size)
  {
    var hp := Max(0, p.hp - FinalPenalty);
    if hp > 0 then p.(hp := hp, position := size - 2) else p.(hp := hp)
  }
}
