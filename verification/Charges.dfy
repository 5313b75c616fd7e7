/** What a session is worth, told by the readings alone. */
module Charges {
  import opened Wrappers
  import opened ChargingDetection
  import opened Detector

  /** The counter was first reported at t. */
  ghost predicate FirstCounter(m: Readings, a: int, b: int, t: int) {
    a <= t <= b && t in m && m[t].Some? && forall u :: a <= u < t && u in m ==> m[u].None?
  }

  ghost predicate LastCounter(m: Readings, a: int, b: int, t: int) {
    a <= t <= b && t in m && m[t].Some? && forall u :: t < u <= b && u in m ==> m[u].None?
  }

  lemma {:induction false} FirstEnergyIs(m: Readings, a: int, b: int)
    ensures FirstEnergy(m, a, b).None? ==> forall t :: a <= t <= b && t in m ==> m[t].None?
    ensures FirstEnergy(m, a, b).Some? ==> exists t :: FirstCounter(m, a, b, t) && m[t] == FirstEnergy(m, a, b)
    ensures forall t :: FirstCounter(m, a, b, t) ==> FirstEnergy(m, a, b) == m[t]
    decreases b - a
  {
    if a <= b {
      FirstEnergyIs(m, a + 1, b);
      if a in m && m[a].Some? {
        assert FirstCounter(m, a, b, a);
      } else {
        forall t ensures FirstCounter(m, a, b, t) <==> FirstCounter(m, a + 1, b, t) { }
      }
    }
  }

  lemma {:induction false} LastEnergyIs(m: Readings, a: int, b: int)
    ensures LastEnergy(m, a, b).None? ==> forall t :: a <= t <= b && t in m ==> m[t].None?
    ensures LastEnergy(m, a, b).Some? ==> exists t :: LastCounter(m, a, b, t) && m[t] == LastEnergy(m, a, b)
    ensures forall t :: LastCounter(m, a, b, t) ==> LastEnergy(m, a, b) == m[t]
    decreases b - a
  {
    if a <= b {
      LastEnergyIs(m, a, b - 1);
      if b in m && m[b].Some? {
        assert LastCounter(m, a, b, b);
      } else {
        forall t ensures LastCounter(m, a, b, t) <==> LastCounter(m, a, b - 1, t) { }
      }
    }
  }

  /** Two readings are one session exactly when they are at most two hours apart. */
  lemma FoldGapIsTwoHours(m: Readings, b: int)
    requires forall t :: t in m <==> t == 0 || t == b
    requires b > 0
    ensures IsSession(m, 0, b) <==> b <= 7200
  {
    if b <= 7200 {
      forall x | 0 <= x < b ensures Continues(m, x) { assert b in m; }
    } else {
      assert !Continues(m, 0);
    }
  }

  /** A session of the readings worth showing: five minutes and more, or its counter went up between first and last report. */
  ghost predicate Charged(m: Readings, a: int, b: int) {
    IsSession(m, a, b)
    && (b - a >= 300 || exists s, t :: FirstCounter(m, a, b, s) && LastCounter(m, a, b, t) && m[s].value < m[t].value)
  }

  /** The energy charged from a to b, as far as the counter tells. */
  ghost predicate EnergyIs(m: Readings, a: int, b: int, energy: Option<real>) {
    && (energy.Some? <==> exists s, t :: FirstCounter(m, a, b, s) && LastCounter(m, a, b, t) && m[s].value <= m[t].value)
    && forall s, t :: energy.Some? && FirstCounter(m, a, b, s) && LastCounter(m, a, b, t) ==> m[s].value + energy.value == m[t].value
  }

  lemma SegmentEnergy(m: Readings, a: int, b: int)
    ensures EnergyIs(m, a, b, Segment(m, a, b).AddedEnergyKwh())
    ensures IsSession(m, a, b) && !Segment(m, a, b).IsNoise() <==> Charged(m, a, b)
  {
    FirstEnergyIs(m, a, b);
    LastEnergyIs(m, a, b);
    NoiseIff(Segment(m, a, b));
  }
}
