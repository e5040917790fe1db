/** Two places where the original code does not do what its own narration
    and structure promise, modelled as written. The engine uses the corrected
    definitions: `Rules.Scale` on an untouched template, and immunity spent
    only by protected landings. */
module AsWritten {
  import opened Rules
  import opened Players
  import opened Abilities

  /** The display refresh as written: besides the spell cooldown it also
      counts down the current player's immunity, on every refresh. */
  function RefreshTick(p: Player): (r: Player)
    ensures OnlyChanges(p, r, {Cooldown, Immunity})
    ensures r.spellCooldown == Tick(p).spellCooldown
    ensures p.immunityTurns > 0 ==> r.immunityTurns == p.immunityTurns - 1
    ensures p.immunityTurns <= 0 ==> r.immunityTurns == p.immunityTurns
  {
    var q := p.(spellCooldown := Max(0, p.spellCooldown - 1));
    if q.immunityTurns > 0 then q.(immunityTurns := q.immunityTurns - 1) else q
  }

  /** As written, Immunity promises two nullified tiles but covers one: the
      cast is followed by a refresh that takes the first charge, and the
      refresh after the first protected landing takes the second. */
  lemma ImmunityCoversOneLandingAsWritten(p: Player)
    requires p.cls == Mage && p.spellCooldown == 0
    ensures CastSpell(p).immunityTurns == ImmunityCharges
    ensures RefreshTick(CastSpell(p)).immunityTurns == ImmunityCharges - 1
    ensures RefreshTick(RefreshTick(CastSpell(p))).immunityTurns == 0
  {
  }

  /** Scaling as written: the copy of the drawn event is shallow, so the
      scaled hp is stored into the catalog template itself. The pair is the
      effect applied now and the template the next draw will see. */
  function ScaleSharedTemplate(template: Effect, d: Difficulty): (r: (Effect, Effect))
    ensures r.0 == Scale(template, d)
    ensures r.1 == r.0
    ensures d == Medium ==> r.1 == template
    ensures d != Medium && (template.hp >= 4 || template.hp <= -4) ==> r.1.hp != template.hp
  {
    var e := Scale(template, d);
    (e, e)
  }

  /** The hp of `k` successive draws of one catalog entry, as written. */
  function DrawsAsWritten(template: Effect, d: Difficulty, k: nat): seq<int>
    decreases k
  {
    if k == 0 then []
    else
      var (applied, left) := ScaleSharedTemplate(template, d);
      [applied.hp] + DrawsAsWritten(left, d, k - 1)
  }

  /** As written, repeated draws compound: on hard the spike trap hits for
      13 and then 17, and on easy the spring's heal fades to nothing. */
  lemma SharedTemplateCompounds()
    ensures DrawsAsWritten(Effect(-10, 0, false), Hard, 2) == [-13, -17]
    ensures DrawsAsWritten(Effect(10, 0, false), Easy, 5) == [7, 4, 2, 1, 0]
  {
  }

  /** The hp of `k` successive draws of one catalog entry with the entry
      left untouched: every draw applies the floor of the entry's hp times
      the intensity. */
  function DrawsCorrected(template: Effect, d: Difficulty, k: nat): (hs: seq<int>)
    requires template.hp != 0
    ensures |hs| == k
    ensures forall i :: 0 <= i < k ==> 10 * hs[i] <= template.hp * IntensityTenths(d) < 10 * hs[i] + 10
    decreases k
  {
    if k == 0 then [] else [Scale(template, d).hp] + DrawsCorrected(template, d, k - 1)
  }

  /** On medium nothing compounds: the draws as written are the corrected
      draws, since scaling by 1.0 writes back the value it read. */
  lemma {:induction false} AsWrittenAgreesOnMedium(template: Effect, k: nat)
    requires template.hp != 0
    ensures DrawsAsWritten(template, Medium, k) == DrawsCorrected(template, Medium, k)
    decreases k
  {
    if k > 0 {
      ScaleMediumIsIdentity(template);
      AsWrittenAgreesOnMedium(template, k - 1);
    }
  }

  /** The corrected draws of the two entries that compound as written: the
      spike trap hits for 13 every time on hard, and the spring heals 7
      every time on easy. */
  lemma UntouchedTemplateIsStable()
    ensures DrawsCorrected(Effect(-10, 0, false), Hard, 2) == [-13, -13]
    ensures DrawsCorrected(Effect(10, 0, false), Easy, 5) == [7, 7, 7, 7, 7]
  {
  }
}
