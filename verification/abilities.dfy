/** The class abilities: the cooldown-gated active spell and the limited,
    tile-skipping passive. */
module Abilities {
  import opened Rules
  import opened Players

  /** The one field each class's spell acts on. */
  function ClassField(c: PlayerClass): Field {
    match c
    case Warrior => SpellActive
    case Mage => Immunity
    case Tank => Shield
    case Healer => Hp
  }

  /** Casting the class spell. While the cooldown runs the cast does nothing.
      Otherwise the cooldown restarts and exactly the class's own field is
      affected: Charge arms the warrior's next roll, Immunity gives the mage
      its charges, the tank gains shield and the healer heals up to the cap. */
  function CastSpell(p: Player): (r: Player)
    ensures p.spellCooldown > 0 ==> r == p
    ensures p.spellCooldown <= 0 ==>
      && r.spellCooldown == SpellCooldown
      && OnlyChanges(p, r, {Cooldown, ClassField(p.cls)})
    ensures p.spellCooldown <= 0 && p.cls == Warrior ==> r.spellActive
    ensures p.spellCooldown <= 0 && p.cls == Mage ==> r.immunityTurns == ImmunityCharges
    ensures p.spellCooldown <= 0 && p.cls == Tank ==> r.shield == p.shield + ShieldGain
    ensures p.spellCooldown <= 0 && p.cls == Healer ==>
      r.hp <= p.maxHP && (r.hp == p.hp + HealAmount || (r.hp == p.maxHP && p.hp + HealAmount >= p.maxHP))
    ensures forall size :: InBounds(p, size) ==> InBounds(r, size)
  {
    if p.spellCooldown > 0 then p
    else
      match p.cls
      case Warrior => p.(spellActive := true, spellCooldown := SpellCooldown)
      case Mage => p.(immunityTurns := ImmunityCharges, spellCooldown := SpellCooldown)
      case Tank => p.(shield := p.shield + ShieldGain, spellCooldown := SpellCooldown)
      case Healer => p.(hp := Min(p.maxHP, p.hp + HealAmount), spellCooldown := SpellCooldown)
  }

  /** The passive choice is offered only while uses remain and the player
      stands before the last `PassiveMargin` tiles of the board. */
  predicate OfferPassive(p: Player, size: int)
    ensures !OfferPassive(p, size) <==> p.passiveCount <= 0 || p.position >= size - PassiveMargin
  {
    p.passiveCount > 0 && p.position < size - PassiveMargin
  }

  /** Using the passive spends one of the remaining uses and nothing else;
      the player stays within bounds. */
  function SpendPassive(p: Player): (r: Player)
    requires p.passiveCount > 0
    ensures 0 <= r.passiveCount < p.passiveCount
    ensures r.passiveCount == p.passiveCount - 1
    ensures OnlyChanges(p, r, {Passives})
    ensures forall size :: InBounds(p, size) ==> InBounds(r, size)
  {
    p.(passiveCount := p.passiveCount - 1)
  }

  /** The offer boundary: position size - 11 is still offered the passive,
      position size - 10 no longer is. */
  lemma PassiveBoundary(p: Player, size: int)
    requires p.passiveCount > 0
    ensures OfferPassive(p.(position := size - PassiveMargin - 1), size)
    ensures !OfferPassive(p.(position := size - PassiveMargin), size)
  {
  }
}
