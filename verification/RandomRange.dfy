/** Uniform random integers by rejection: 48 random bits at a time, samples past the last
    whole multiple of the range thrown away. */
module RandomRange {
  import opened Wrappers

  const SAMPLES: nat := 0x1_0000_0000_0000
  const SAMPLE_LENGTH := 6

  datatype Result = Ok(v: int) | RangeError | ReadError

  /** What a six-byte sample counts as, most significant byte first. */
  function ValueOf(b: seq<Byte>): (v: nat)
    requires |b| == SAMPLE_LENGTH
  {
    b[0] as int * 0x100_0000_0000 + b[1] as int * 0x1_0000_0000 + b[2] as int * 0x100_0000
    + b[3] as int * 0x1_0000 + b[4] as int * 0x100 + b[5] as int
  }

  /** That is network order. */
  lemma ValueIsBigEndian(b: seq<Byte>)
    requires |b| == SAMPLE_LENGTH
    ensures ValueOf(b) == BigEndian(b)
  {
    BigEndianOf(b[..4]);
    assert b[..5][..4] == b[..4];
    assert BigEndian(b[..5]) == BigEndian(b[..4]) * 0x100 + b[4] as int;
  }

  function SampleOf(v: nat): (b: seq<Byte>)
    ensures |b| == SAMPLE_LENGTH
  {
    var q1 := v / 0x100;
    var q2 := q1 / 0x100;
    var q3 := q2 / 0x100;
    var q4 := q3 / 0x100;
    [q4 / 0x100 % 0x100, q4 % 0x100, q3 % 0x100, q2 % 0x100, q1 % 0x100, v % 0x100]
  }

  lemma SampleHasValue(v: nat)
    requires v < SAMPLES
    ensures ValueOf(SampleOf(v)) == v
  {
  }

  lemma LastByte(h: nat, b: Byte)
    ensures (h * 0x100 + b) / 0x100 == h && (h * 0x100 + b) % 0x100 == b
  {
  }

  lemma ValueHasSample(b: seq<Byte>)
    requires |b| == SAMPLE_LENGTH
    ensures ValueOf(b) < SAMPLES && SampleOf(ValueOf(b)) == b
  {
    var h1: nat := b[0] as int;
    var h2 := h1 * 0x100 + b[1] as int;
    var h3 := h2 * 0x100 + b[2] as int;
    var h4 := h3 * 0x100 + b[3] as int;
    var h5 := h4 * 0x100 + b[4] as int;
    LastByte(h1, b[1]);
    LastByte(h2, b[2]);
    LastByte(h3, b[3]);
    LastByte(h4, b[4]);
    LastByte(h5, b[5]);
    assert ValueOf(b) == h5 * 0x100 + b[5] as int;
  }

  /** Every value below 2^48 has exactly one sample, so uniform bytes are uniform values. */
  lemma SamplesAreValues(b: seq<Byte>, v: nat)
    requires |b| == SAMPLE_LENGTH && v < SAMPLES
    ensures ValueOf(b) < SAMPLES && (ValueOf(b) == v <==> b == SampleOf(v))
  {
    SampleHasValue(v);
    ValueHasSample(b);
  }

  /** Samples at or above this are thrown away. */
  function Limit(span: nat): (r: nat)
    requires span > 0
    ensures r <= SAMPLES
  {
    SAMPLES - SAMPLES % span
  }

  // ----- no bias -----------------------------------------------------------------------------

  /** The accepted samples that give residue r. */
  ghost function Hits(span: nat, r: nat, below: nat): set<nat>
    requires span > 0
  {
    set v: nat | v < below && v % span == r
  }

  /** The next whole range brings one more hit. */
  lemma OneMoreHit(span: nat, r: nat, q: nat)
    requires r < span
    ensures Hits(span, r, q * span + span) == Hits(span, r, q * span) + {q * span + r}
  {
    ResidueIn(span, q, r);
    forall v: nat | q * span <= v < q * span + span && v % span == r ensures v == q * span + r {
      ResidueIn(span, q, v - q * span);
    }
  }

  lemma {:induction false} HitsInMultiples(span: nat, r: nat, q: nat)
    requires r < span
    ensures |Hits(span, r, q * span)| == q
  {
    if q == 0 {
      assert Hits(span, r, 0) == {};
    } else {
      HitsInMultiples(span, r, q - 1);
      OneMoreHit(span, r, q - 1);
      assert q * span == (q - 1) * span + span;
    }
  }

  lemma ResidueIn(span: nat, q: nat, k: nat)
    requires k < span
    ensures (q * span + k) % span == k
  {
    var v := q * span + k;
    QuotientUnique(span, v / span, v % span, q, k);
  }

  lemma QuotientUnique(span: nat, q1: nat, r1: nat, q2: nat, r2: nat)
    requires r1 < span && r2 < span && q1 * span + r1 == q2 * span + r2
    ensures q1 == q2 && r1 == r2
  {
    if q1 < q2 {
      OneMoreFits(span, q1, q2);
    } else if q2 < q1 {
      OneMoreFits(span, q2, q1);
    }
  }

  lemma OneMoreFits(span: nat, p: nat, q: nat)
    requires p < q
    ensures p * span + span <= q * span
    decreases q
  {
    assert q * span == (q - 1) * span + span;
    if p < q - 1 { OneMoreFits(span, p, q - 1); }
  }

  /** Each residue is hit by the same number of accepted samples, and more than half of all
      samples are accepted. */
  lemma Uniform(span: nat, r: nat)
    requires 0 < span < SAMPLES && r < span
    ensures |Hits(span, r, Limit(span))| == SAMPLES / span
    ensures 2 * Limit(span) > SAMPLES
  {
    var q := SAMPLES / span;
    assert q * span + SAMPLES % span == SAMPLES;
    assert q * span == Limit(span);
    HitsInMultiples(span, r, q);
    MoreThanHalf(span, q, SAMPLES % span);
  }

  lemma MoreThanHalf(span: nat, q: nat, rem: nat)
    requires rem < span && q * span + rem == SAMPLES && span <= SAMPLES
    ensures 2 * q * span > SAMPLES
  {
    if q == 0 {
      assert false;
    }
    assert q * span >= span;
  }

  // ----- the loop ------------------------------------------------------------------------------

  /** The first accepted of the samples the random source delivers. */
  ghost predicate FirstAccepted(samples: seq<seq<Byte>>, i: nat, span: nat)
    requires span > 0 && forall b :: b in samples ==> |b| == SAMPLE_LENGTH
  {
    && i < |samples| && ValueOf(samples[i]) < Limit(span)
    && forall j :: 0 <= j < i ==> ValueOf(samples[j]) >= Limit(span)
  }

  /** The guards of the caller, then samples until one is accepted; running out of samples
      stands for a failing random source. */
  method RandomInt(min: int, max: int, samples: seq<seq<Byte>>) returns (r: Result)
    requires forall b :: b in samples ==> |b| == SAMPLE_LENGTH
    ensures r == RangeError <==> max <= min || max - min >= SAMPLES
    ensures r.Ok? ==> min <= r.v < max && exists i: nat ::
      FirstAccepted(samples, i, max - min) && (r.v - min) == ValueOf(samples[i]) % (max - min)
    ensures r == ReadError ==> max > min && forall i :: 0 <= i < |samples| ==> ValueOf(samples[i]) >= Limit(max - min)
  {
    if max <= min {
      return RangeError;
    }
    if max - min >= SAMPLES {
      return RangeError;
    }
    var span: nat := max - min;
    var lim := SAMPLES - SAMPLES % span;
    for i := 0 to |samples|
      invariant forall j :: 0 <= j < i ==> ValueOf(samples[j]) >= Limit(span)
    {
      var v := ValueOf(samples[i]);
      if v < lim {
        assert FirstAccepted(samples, i, span);
        return Ok(min + v % span);
      }
    }
    return ReadError;
  }
}
