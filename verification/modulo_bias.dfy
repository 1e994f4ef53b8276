/**
 Why the bounded samplers have no modulo bias.

 On the rejection path a draw is accepted only below `max = MAX - MAX % n`,
 which is a positive multiple of n, so each residue in [0, n) is the image
 of exactly max / n accepted draws. On the masking path n is a power of two
 dividing the number of possible draws, so each residue is the image of the
 same number of draws. The lemmas count those preimages; the probabilities
 themselves are outside the model.
 */
module ModuloBias {
  import opened Bits
  import opened BoundedSampler

  /** How many distinct values one draw yields: 0 through MAX. */
  function DrawCount(k: Width): nat
  {
    k.Limit() + 1
  }

  /** The draws below max that reduce to the residue res modulo n. */
  ghost function Preimages(max: nat, n: nat, res: nat): set<nat>
    requires n >= 1
  {
    set v: nat | v < max && v % n == res
  }

  /** Among the first q * n values, every residue modulo n occurs exactly q times. */
  lemma {:induction false} PreimageCount(q: nat, n: nat, res: nat)
    requires n >= 1 && res < n
    ensures |Preimages(q * n, n, res)| == q
    decreases q
  {
    if q == 0 {
      assert Preimages(0, n, res) == {};
    } else {
      PreimageCount(q - 1, n, res);
      PreimagesExtend(q, n, res);
    }
  }

  /** The block [(q-1)n, qn) adds exactly one preimage of res: (q-1)n + res. */
  lemma PreimagesExtend(q: nat, n: nat, res: nat)
    requires q >= 1 && n >= 1 && res < n
    ensures Preimages(q * n, n, res) == Preimages((q - 1) * n, n, res) + {(q - 1) * n + res}
    ensures (q - 1) * n + res !in Preimages((q - 1) * n, n, res)
  {
    var lo := (q - 1) * n;
    var top := lo + res;
    assert q * n == lo + n by {
      MulSucc(q - 1, n);
    }
    assert top % n == res by {
      DivModUnique(top, n, q - 1, res);
    }
    forall v: nat | lo <= v < lo + n && v % n == res
      ensures v == top
    {
      DivModUnique(v, n, q - 1, v - lo);
    }
  }

  /**
   The rejection threshold `max = MAX - MAX % n` is a multiple of n between
   n and MAX, fewer than n below MAX, and more than half of MAX, so a draw
   is rejected less than half the time.
   */
  lemma ThresholdBounds(k: Width, n: nat)
    requires 1 <= n <= k.Limit()
    ensures Threshold(k, n) % n == 0
    ensures n <= Threshold(k, n) <= k.Limit()
    ensures k.Limit() - Threshold(k, n) < n
    ensures k.Limit() < 2 * Threshold(k, n)
  {
    var limit := k.Limit();
    var q := limit / n;
    var t := Threshold(k, n);
    assert limit == n * q + limit % n;
    assert t == n * q;
    DivModUnique(t, n, q, 0);
    assert q >= 1;
    MulAtLeast(n, q);
  }

  /**
   Off the masking path, `max` is also the largest multiple of n that does
   not exceed the number of possible draws (MAX + 1): computing it from MAX
   instead of MAX + 1 rejects nothing more.
   */
  lemma ThresholdIsLargest(k: Width, n: nat)
    requires 1 <= n <= k.Limit() && !IsPow2(n)
    ensures k.Limit() + 1 - Threshold(k, n) < n
  {
    var limit := k.Limit();
    var q, rem := limit / n, limit % n;
    if rem == n - 1 {
      assert limit + 1 == n * (q + 1) by {
        assert limit == n * q + rem;
        assert n * (q + 1) == n * q + n;
      }
      DrawRange(k);
      DivisorOfPow2(limit + 1, n, q + 1);
      assert false;
    }
  }

  /**
   No modulo bias on the rejection path: every residue in [0, n) has
   exactly max / n accepted preimages.
   */
  lemma NoModuloBias(k: Width, n: nat)
    requires 1 <= n <= k.Limit()
    ensures forall res :: 0 <= res < n ==>
              |Preimages(Threshold(k, n), n, res)| == Threshold(k, n) / n
  {
    var t := Threshold(k, n);
    ThresholdBounds(k, n);
    var q := t / n;
    assert t == q * n;
    forall res | 0 <= res < n
      ensures |Preimages(t, n, res)| == q
    {
      PreimageCount(q, n, res);
    }
  }

  /**
   No bias on the masking path: a power-of-two bound divides the number of
   possible draws, and every residue has the same number of preimages
   among all of them.
   */
  lemma MaskNoBias(k: Width, n: nat)
    requires 1 <= n <= k.Limit() && IsPow2(n)
    ensures DrawCount(k) % n == 0
    ensures forall res :: 0 <= res < n ==>
              |Preimages(DrawCount(k), n, res)| == DrawCount(k) / n
  {
    var size := DrawCount(k);
    assert size % n == 0 by {
      DrawRange(k);
      Pow2Divides(n, k.Limit() + 1);
    }
    var q := size / n;
    assert size == q * n;
    forall res | 0 <= res < n
      ensures |Preimages(size, n, res)| == q
    {
      PreimageCount(q, n, res);
    }
  }
}
