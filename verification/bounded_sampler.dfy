/**
 The bounded samplers of fastrand: Int31n, Int63n, Uint32n and Uint64n,
 together with the raw helpers Int31 and Int63 they draw through.

 All four samplers run the same algorithm at different widths, so the model
 defines it once (`Bounded`) over a `Width`, and each sampler is a thin
 wrapper that adds its own argument check:
 - when `n & (n-1) == 0` (n is a power of two, or an unsigned zero) one
   draw is masked with `n - 1`;
 - otherwise draws at or above `max := MAX - MAX % n` are rejected and the
   first draw below `max` is reduced modulo n.
 */
module BoundedSampler {
  import opened Bits
  import opened WordSource

  /**
   The four instantiations. The signed ones draw through Int31/Int63 (a
   word shifted right by one bit); the unsigned ones use the word as is.
   */
  datatype Width = Signed31 | Signed63 | Unsigned32 | Unsigned64 {

    /** Draws from the 32-bit stream. */
    predicate Narrow() {
      Signed31? || Unsigned32?
    }

    predicate Signed() {
      Signed31? || Signed63?
    }

    /** MAX in `max := MAX - MAX % n`: the largest value one draw yields. */
    function Limit(): nat {
      match this
      case Signed31 => MaxInt32
      case Signed63 => MaxInt64
      case Unsigned32 => MaxUint32
      case Unsigned64 => MaxUint64
    }

    /** The largest word of the stream this width draws from. */
    function WordMax(): nat {
      if Narrow() then MaxUint32 else MaxUint64
    }
  }

  /** The stream of words a width draws from. */
  function Stream(k: Width, d: Draws): (ws: seq<int>)
    ensures forall i :: 0 <= i < |ws| ==> 0 <= ws[i] <= k.WordMax()
  {
    if k.Narrow() then d.w32 else d.w64
  }

  /** The draws left after `count` words of the width's stream are used. */
  function Consume(k: Width, d: Draws, count: nat): Draws
    requires count <= |Stream(k, d)|
  {
    if k.Narrow() then d.(w32 := d.w32[count..]) else d.(w64 := d.w64[count..])
  }

  /** The value one word yields: `u32() >> 1`, `u64() >> 1`, or the word itself. */
  function Raw(k: Width, w: int): int
  {
    if k.Signed() then w / 2 else w
  }

  /** One call of Int31, Int63, u32 or u64. */
  function Draw(k: Width, d: Draws): (r: Outcome<nat>)
    ensures !r.Panic?
    ensures r.Exhausted? <==> |Stream(k, d)| == 0
    ensures r.Done? ==> r.value <= k.Limit()
    ensures r.Done? ==> r.value == Raw(k, Stream(k, d)[0]) && r.rest == Consume(k, d, 1)
  {
    if |Stream(k, d)| == 0 then Exhausted
    else Done(Raw(k, Stream(k, d)[0]), Consume(k, d, 1))
  }

  /** `Int31()`: a 32-bit word with its low bit shifted out. */
  function Int31(d: Draws): (r: Outcome<int>)
    ensures !r.Panic?
    ensures r.Exhausted? <==> |d.w32| == 0
    ensures r.Done? ==> 0 <= r.value <= MaxInt32
    ensures r.Done? ==> 2 * r.value <= d.w32[0] <= 2 * r.value + 1
    ensures r.Done? ==> r.rest == Draws(d.w32[1..], d.w64)
  {
    Draw(Signed31, d)
  }

  /** `Int63()`: a 64-bit word with its low bit shifted out. */
  function Int63(d: Draws): (r: Outcome<int>)
    ensures !r.Panic?
    ensures r.Exhausted? <==> |d.w64| == 0
    ensures r.Done? ==> 0 <= r.value <= MaxInt64
    ensures r.Done? ==> 2 * r.value <= d.w64[0] <= 2 * r.value + 1
    ensures r.Done? ==> r.rest == Draws(d.w32, d.w64[1..])
  {
    Draw(Signed63, d)
  }

  /** `max := MAX - MAX % n`: the draws below it are accepted. */
  function Threshold(k: Width, n: nat): (r: nat)
    requires n >= 1
    ensures r <= k.Limit() && k.Limit() - r < n
  {
    ModBounds(k.Limit(), n);
    k.Limit() - k.Limit() % n
  }

  /** Draw number `used` (counting from 1) is the first one below max. */
  ghost predicate FirstBelow(k: Width, max: nat, ws: seq<int>, used: int)
  {
    && 1 <= used <= |ws|
    && Raw(k, ws[used - 1]) < max
    && forall i :: 0 <= i < used - 1 ==> Raw(k, ws[i]) >= max
  }

  /** Every draw of the stream is rejected. */
  ghost predicate AllRejected(k: Width, max: nat, ws: seq<int>)
  {
    forall i :: 0 <= i < |ws| ==> Raw(k, ws[i]) >= max
  }

  /** How many words of the width's stream were consumed between d and rest. */
  function Used(k: Width, d: Draws, rest: Draws): int
  {
    |Stream(k, d)| - |Stream(k, rest)|
  }

  /**
   The position of the first draw below max in ws, or |ws| when every draw
   is rejected.
   */
  function FirstAccepted(k: Width, max: nat, ws: seq<int>): (i: nat)
    ensures i <= |ws|
    ensures forall j :: 0 <= j < i ==> Raw(k, ws[j]) >= max
    ensures i < |ws| ==> Raw(k, ws[i]) < max
    decreases |ws|
  {
    if |ws| == 0 || Raw(k, ws[0]) < max then 0
    else 1 + FirstAccepted(k, max, ws[1..])
  }

  /**
   The rejection loop: it keeps drawing while the draw is at or above max,
   so it stops at the first draw below max, having consumed every draw up
   to it.
   */
  function Reject(k: Width, max: nat, d: Draws): (r: Outcome<nat>)
    ensures !r.Panic?
    ensures r.Exhausted? <==> AllRejected(k, max, Stream(k, d))
    ensures r.Done? ==>
              var used := Used(k, d, r.rest);
              && FirstBelow(k, max, Stream(k, d), used)
              && r.rest == Consume(k, d, used)
              && r.value == Raw(k, Stream(k, d)[used - 1])
  {
    var ws := Stream(k, d);
    var i := FirstAccepted(k, max, ws);
    if i == |ws| then Exhausted
    else
      var rest := Consume(k, d, i + 1);
      assert Stream(k, rest) == ws[i + 1..];
      Done(Raw(k, ws[i]), rest)
  }

  /** `n - 1` in the width's own arithmetic: for an unsigned zero it wraps to the all-ones word. */
  function Pred(k: Width, n: nat): (r: nat)
    requires n <= k.Limit()
    requires k.Signed() ==> n >= 1
    ensures n >= 1 ==> r == n - 1
    ensures n == 0 ==> r == k.Limit()
  {
    if k.Signed() then n - 1
    else
      PredMod(k.Limit() + 1, n);
      (n - 1) % (k.Limit() + 1)
  }

  /** The sampler's `n&(n-1) == 0` test picks the masking path exactly for a zero bound or a power of two. */
  lemma MaskTest(k: Width, n: nat)
    requires n <= k.Limit()
    requires k.Signed() ==> n >= 1
    ensures And(n, Pred(k, n)) == 0 <==> n == 0 || IsPow2(n)
  {
    if n >= 1 {
      PowerOfTwoTest(n);
    }
  }

  /** The values one draw can yield, 0 through Limit, number a power of two. */
  lemma DrawRange(k: Width)
    ensures IsPow2(k.Limit() + 1)
  {
    WordRanges();
  }

  /** Masking with the wrapped-around `0 - 1` leaves an unsigned word unchanged. */
  lemma AllOnesMask(k: Width, v: nat)
    requires !k.Signed() && v <= k.Limit()
    ensures And(v, Pred(k, 0)) == v
  {
    var m := k.Limit() + 1;
    assert Pred(k, 0) == m - 1 by {
      DivModUnique(-1, m, -1, m - 1);
    }
    assert And(v, m - 1) == v % m by {
      DrawRange(k);
      MaskIsMod(v, m);
    }
    DivModUnique(v, m, 0, v);
  }

  /**
   The masking path `draw() & (n - 1)`, taken for a power of two or an
   unsigned zero, whose mask wraps around to all ones.
   */
  function MaskPath(k: Width, n: nat, d: Draws): (r: Outcome<nat>)
    requires n <= k.Limit()
    requires k.Signed() ==> n >= 1
    requires n == 0 || IsPow2(n)
    ensures !r.Panic?
    ensures r.Exhausted? <==> |Stream(k, d)| == 0
    ensures r.Done? ==> r.rest == Consume(k, d, 1)
    ensures r.Done? && n == 0 ==> r.value == Raw(k, Stream(k, d)[0])
    ensures r.Done? && n >= 1 ==> r.value == Raw(k, Stream(k, d)[0]) % n
  {
    var mask := Pred(k, n);
    var r := Draw(k, d);
    if !r.Done? then r
    else
      var v := r.value;
      if n == 0 then
        AllOnesMask(k, v);
        Done(And(v, mask), r.rest)
      else
        MaskTest(k, n);
        MaskIsMod(v, n);
        Done(And(v, mask), r.rest)
  }

  /**
   The rejection path: with max set to MAX minus MAX modulo n, it redraws
   until a value below max appears, then reduces that value modulo n.
   */
  function RejectPath(k: Width, n: nat, d: Draws): (r: Outcome<nat>)
    requires 1 <= n <= k.Limit()
    ensures !r.Panic?
    ensures r.Exhausted? <==> AllRejected(k, Threshold(k, n), Stream(k, d))
    ensures r.Done? ==>
              var used := Used(k, d, r.rest);
              && FirstBelow(k, Threshold(k, n), Stream(k, d), used)
              && r.rest == Consume(k, d, used)
              && r.value == Raw(k, Stream(k, d)[used - 1]) % n
              && r.value < n
  {
    var r := Reject(k, Threshold(k, n), d);
    if !r.Done? then r
    else Done(r.value % n, r.rest)
  }

  /**
   The algorithm shared by the four samplers. A zero bound is reachable
   only for the unsigned widths, where it takes the masking path with the
   all-ones mask and returns the word unchanged.
   */
  function Bounded(k: Width, n: nat, d: Draws): (r: Outcome<nat>)
    requires n <= k.Limit()
    requires k.Signed() ==> n >= 1
    ensures !r.Panic?
    ensures n >= 1 && r.Done? ==> r.value < n
    ensures n == 0 ==> r == Draw(k, d)
    ensures IsPow2(n) ==> (r.Exhausted? <==> |Stream(k, d)| == 0)
    ensures IsPow2(n) && r.Done? ==>
              && r.value == Raw(k, Stream(k, d)[0]) % n
              && r.rest == Consume(k, d, 1)
    ensures n >= 1 && !IsPow2(n) ==>
              (r.Exhausted? <==> AllRejected(k, Threshold(k, n), Stream(k, d)))
    ensures n >= 1 && !IsPow2(n) && r.Done? ==>
              var used := Used(k, d, r.rest);
              && FirstBelow(k, Threshold(k, n), Stream(k, d), used)
              && r.rest == Consume(k, d, used)
              && r.value == Raw(k, Stream(k, d)[used - 1]) % n
  {
    MaskTest(k, n);
    if And(n, Pred(k, n)) == 0 then MaskPath(k, n, d) else RejectPath(k, n, d)
  }

  /**
   `Int31n(n)`: panics unless n > 0. A power of two masks one Int31 draw;
   any other n reduces the first Int31 draw below `maxInt32 - maxInt32%n`,
   after consuming every draw before it.
   */
  function Int31n(n: Int32, d: Draws): (r: Outcome<int>)
    ensures r.Panic? <==> n <= 0
    ensures r.Done? ==> 0 <= r.value < n
    ensures r.Done? ==> r.rest.w64 == d.w64 && |r.rest.w32| < |d.w32|
    ensures n >= 1 && IsPow2(n) ==> (r.Exhausted? <==> |d.w32| == 0)
    ensures n >= 1 && IsPow2(n) && r.Done? ==>
              r.value == (d.w32[0] / 2) % n && r.rest.w32 == d.w32[1..]
    ensures n >= 1 && !IsPow2(n) ==>
              (r.Exhausted? <==> forall i :: 0 <= i < |d.w32| ==> d.w32[i] / 2 >= Threshold(Signed31, n))
    ensures n >= 1 && !IsPow2(n) && r.Done? ==>
              var used := |d.w32| - |r.rest.w32|;
              && FirstBelow(Signed31, Threshold(Signed31, n), d.w32, used)
              && r.rest.w32 == d.w32[used..]
              && r.value == (d.w32[used - 1] / 2) % n
  {
    if n <= 0 then Panic else Bounded(Signed31, n, d)
  }

  /**
   `Int63n(n)`: Int31n over 64-bit draws, with `maxInt64 - maxInt64%n` as
   the acceptance bound.
   */
  function Int63n(n: Int64, d: Draws): (r: Outcome<int>)
    ensures r.Panic? <==> n <= 0
    ensures r.Done? ==> 0 <= r.value < n
    ensures r.Done? ==> r.rest.w32 == d.w32 && |r.rest.w64| < |d.w64|
    ensures n >= 1 && IsPow2(n) ==> (r.Exhausted? <==> |d.w64| == 0)
    ensures n >= 1 && IsPow2(n) && r.Done? ==>
              r.value == (d.w64[0] / 2) % n && r.rest.w64 == d.w64[1..]
    ensures n >= 1 && !IsPow2(n) ==>
              (r.Exhausted? <==> forall i :: 0 <= i < |d.w64| ==> d.w64[i] / 2 >= Threshold(Signed63, n))
    ensures n >= 1 && !IsPow2(n) && r.Done? ==>
              var used := |d.w64| - |r.rest.w64|;
              && FirstBelow(Signed63, Threshold(Signed63, n), d.w64, used)
              && r.rest.w64 == d.w64[used..]
              && r.value == (d.w64[used - 1] / 2) % n
  {
    if n <= 0 then Panic else Bounded(Signed63, n, d)
  }

  /**
   `Uint32n(n)` (declared as `Uint64nUint32n`): a value in [0, n) drawn like
   Int31n but from whole words; a zero bound wraps the mask to all ones and
   returns the raw word.
   */
  function Uint32n(n: Uint32, d: Draws): (r: Outcome<int>)
    ensures !r.Panic?
    ensures n >= 1 && r.Done? ==> 0 <= r.value < n
    ensures n == 0 ==> (r.Done? <==> |d.w32| > 0)
    ensures n == 0 && r.Done? ==> r.value == d.w32[0] && r.rest == Draws(d.w32[1..], d.w64)
    ensures r.Done? ==> r.rest.w64 == d.w64 && |r.rest.w32| < |d.w32|
    ensures IsPow2(n) ==> (r.Exhausted? <==> |d.w32| == 0)
    ensures IsPow2(n) && r.Done? ==> r.value == d.w32[0] % n && r.rest.w32 == d.w32[1..]
    ensures n >= 1 && !IsPow2(n) ==>
              (r.Exhausted? <==> forall i :: 0 <= i < |d.w32| ==> d.w32[i] >= Threshold(Unsigned32, n))
    ensures n >= 1 && !IsPow2(n) && r.Done? ==>
              var used := |d.w32| - |r.rest.w32|;
              && FirstBelow(Unsigned32, Threshold(Unsigned32, n), d.w32, used)
              && r.rest.w32 == d.w32[used..]
              && r.value == d.w32[used - 1] % n
  {
    Bounded(Unsigned32, n, d)
  }

  /** `Uint64n(n)`: Uint32n over 64-bit words. */
  function Uint64n(n: Uint64, d: Draws): (r: Outcome<int>)
    ensures !r.Panic?
    ensures n >= 1 && r.Done? ==> 0 <= r.value < n
    ensures n == 0 ==> (r.Done? <==> |d.w64| > 0)
    ensures n == 0 && r.Done? ==> r.value == d.w64[0] && r.rest == Draws(d.w32, d.w64[1..])
    ensures r.Done? ==> r.rest.w32 == d.w32 && |r.rest.w64| < |d.w64|
    ensures IsPow2(n) ==> (r.Exhausted? <==> |d.w64| == 0)
    ensures IsPow2(n) && r.Done? ==> r.value == d.w64[0] % n && r.rest.w64 == d.w64[1..]
    ensures n >= 1 && !IsPow2(n) ==>
              (r.Exhausted? <==> forall i :: 0 <= i < |d.w64| ==> d.w64[i] >= Threshold(Unsigned64, n))
    ensures n >= 1 && !IsPow2(n) && r.Done? ==>
              var used := |d.w64| - |r.rest.w64|;
              && FirstBelow(Unsigned64, Threshold(Unsigned64, n), d.w64, used)
              && r.rest.w64 == d.w64[used..]
              && r.value == d.w64[used - 1] % n
  {
    Bounded(Unsigned64, n, d)
  }
}
