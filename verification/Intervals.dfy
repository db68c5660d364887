/**
 The jittered interval draw of presence.rs: one uniform 64-bit draw folded into a band of whole
 milliseconds. The entropy source is a parameter; `None` is its failure.
 */
module Intervals {
  import opened Wrappers

  const U64_RANGE: nat := 0x1_0000_0000_0000_0000

  function IntervalInBand(min: nat, max: nat, fill: Option<nat>): (interval: nat)
    requires min <= max
  {
    var span := max - min;
    var offset := if fill.Some? then fill.value % (span + 1) else span / 2;
    min + offset
  }

  /** A draw within the span is the distance from min: 0 gives min and the span max. Beyond it the draws repeat. */
  lemma DrawCountsFromMin(min: nat, max: nat, draw: nat)
    requires min <= max
    ensures draw <= max - min ==> IntervalInBand(min, max, Some(draw)) == min + draw
    ensures IntervalInBand(min, max, Some(draw + (max - min + 1))) == IntervalInBand(min, max, Some(draw))
  {
    var m := max - min + 1;
    if draw < m {
      DivModUnique(draw, m, 0, draw);
    }
    DivModUnique(draw + m, m, draw / m + 1, draw % m);
  }

  /** The draws below `n` that land on `interval`. */
  ghost function Hits(min: nat, max: nat, interval: nat, n: nat): set<nat>
    requires min <= max
  {
    set d: nat | d < n && IntervalInBand(min, max, Some(d)) == interval
  }

  lemma DivModStep(n: nat, m: nat)
    requires m > 0
    ensures n % m + 1 < m ==> (n + 1) / m == n / m && (n + 1) % m == n % m + 1
    ensures n % m + 1 == m ==> (n + 1) / m == n / m + 1 && (n + 1) % m == 0
  {
    var q, r := n / m, n % m;
    assert n == q * m + r;
    if r + 1 < m {
      DivModUnique(n + 1, m, q, r + 1);
    } else {
      assert n + 1 == (q + 1) * m;
      DivModUnique(n + 1, m, q + 1, 0);
    }
  }

  lemma ScaleAtLeast(k: int, m: nat)
    requires k >= 1
    ensures k * m >= m
  {
  }

  lemma DivModUnique(n: nat, m: nat, q: nat, r: nat)
    requires m > 0 && r < m && n == q * m + r
    ensures n / m == q && n % m == r
  {
    SameQuotient(m, q, r, n / m, n % m);
  }

  lemma SameQuotient(m: nat, q: nat, r: nat, q': nat, r': nat)
    requires r < m && r' < m && q * m + r == q' * m + r'
    ensures q == q' && r == r'
  {
    assert (q - q') * m == q * m - q' * m;
    if q > q' {
      ScaleAtLeast(q - q', m);
    } else if q < q' {
      ScaleAtLeast(q' - q, m);
    }
  }

  /** How many of the first n draws land on one value of the band. */
  lemma {:induction false} HitCount(min: nat, max: nat, interval: nat, n: nat)
    requires min <= interval <= max
    ensures var m := max - min + 1;
      |Hits(min, max, interval, n)| == n / m + if interval - min < n % m then 1 else 0
  {
    var m := max - min + 1;
    if n == 0 {
      assert Hits(min, max, interval, 0) == {};
      DivModUnique(0, m, 0, 0);
    } else {
      HitCount(min, max, interval, n - 1);
      DivModStep(n - 1, m);
      var before := Hits(min, max, interval, n - 1);
      if IntervalInBand(min, max, Some(n - 1)) == interval {
        assert Hits(min, max, interval, n) == before + {n - 1};
      } else {
        assert Hits(min, max, interval, n) == before;
      }
    }
  }

  /**
   Near-uniform: a draw never leaves [min, max], and of the 2^64 draws each value of the band is hit
   by the floor or the ceiling of 2^64 / (span + 1); so while the count of values fits 64 bits, every
   value of the band is reached by some draw. A failed source gives the midpoint.
   */
  lemma DrawIsNearUniform(min: nat, max: nat, interval: nat)
    requires min <= max && max - min + 1 < U64_RANGE
    ensures forall fill: Option<nat> :: min <= IntervalInBand(min, max, fill) <= max
    ensures min <= interval <= max ==>
              var hits, share := |Hits(min, max, interval, U64_RANGE)|, U64_RANGE / (max - min + 1);
              hits >= 1 && (hits == share || (hits == share + 1 && U64_RANGE % (max - min + 1) != 0))
    ensures 0 <= 2 * (IntervalInBand(min, max, None) - min) <= max - min
    ensures max - IntervalInBand(min, max, None) <= IntervalInBand(min, max, None) - min + 1
  {
    forall fill: Option<nat>
      ensures min <= IntervalInBand(min, max, fill) <= max
    {
      DrawInBand(min, max, fill);
    }
    if min <= interval <= max {
      HitCount(min, max, interval, U64_RANGE);
      WholeShare(U64_RANGE, max - min + 1);
      hide Hits;
    }
  }

  lemma DrawInBand(min: nat, max: nat, fill: Option<nat>)
    requires min <= max
    ensures min <= IntervalInBand(min, max, fill) <= max
  {
  }

  lemma WholeShare(n: nat, m: nat)
    requires 0 < m <= n
    ensures n / m >= 1
  {
    assert n == (n / m) * m + n % m;
  }
}
