/**
 `Shuffle`: an in-place Fisher-Yates shuffle of a slice, modelled on a
 sequence. The index i walks down from len-1; at each step a j in [0, i]
 is drawn and elements i and j are swapped. Indices that need more than
 31 bits draw j with Int63n, the rest with Int31n.
 */
module Shuffler {
  import opened Bits
  import opened WordSource
  import opened BoundedSampler

  /** `s[i], s[j] = s[j], s[i]`. */
  function Swap<E>(s: seq<E>, i: nat, j: nat): (r: seq<E>)
    requires i < |s| && j < |s|
    ensures |r| == |s| && r[i] == s[j] && r[j] == s[i]
    ensures forall x :: 0 <= x < |s| && x != i && x != j ==> r[x] == s[x]
  {
    s[i := s[j]][j := s[i]]
  }

  /** A swap keeps the multiset of elements. */
  lemma SwapPermutes<E>(s: seq<E>, i: nat, j: nat)
    requires i < |s| && j < |s|
    ensures multiset(Swap(s, i, j)) == multiset(s)
  {
  }

  /**
   The indices drawn while shuffling a slice of length n: pick number k is
   the j drawn when i = n-1-k, so it lies in [0, n-1-k].
   */
  ghost predicate ValidPicks(n: nat, picks: seq<nat>)
  {
    && |picks| <= n
    && forall k :: 0 <= k < |picks| ==> picks[k] <= n - 1 - k
  }

  /** The slice after the swaps for the given picks, in the order Shuffle makes them. */
  function FisherYates<E>(s: seq<E>, picks: seq<nat>): (r: seq<E>)
    requires ValidPicks(|s|, picks)
    ensures |r| == |s|
    decreases |picks|
  {
    if |picks| == 0 then s
    else
      var k := |picks| - 1;
      Swap(FisherYates(s, picks[..k]), |s| - 1 - k, picks[k])
  }

  /** Whatever indices are drawn, the swaps only rearrange the elements. */
  lemma {:induction false} FisherYatesPermutes<E>(s: seq<E>, picks: seq<nat>)
    requires ValidPicks(|s|, picks)
    ensures multiset(FisherYates(s, picks)) == multiset(s)
    decreases |picks|
  {
    if |picks| > 0 {
      var k := |picks| - 1;
      FisherYatesLast(s, picks);
      FisherYatesPermutes(s, picks[..k]);
      SwapPermutes(FisherYates(s, picks[..k]), |s| - 1 - k, picks[k]);
    }
  }

  /** A pick within range extends the valid picks. */
  lemma ValidPicksExtend(n: nat, picks: seq<nat>, j: nat)
    requires ValidPicks(n, picks) && |picks| < n && j <= n - 1 - |picks|
    ensures ValidPicks(n, picks + [j])
  {
    var ext := picks + [j];
    forall i | 0 <= i < |ext|
      ensures ext[i] <= n - 1 - i
    {
      if i < |picks| {
        assert ext[i] == picks[i];
      }
    }
  }

  /** The last pick is the last swap. */
  lemma {:induction false} FisherYatesLast<E>(s: seq<E>, picks: seq<nat>)
    requires ValidPicks(|s|, picks) && |picks| > 0
    ensures ValidPicks(|s|, picks[..|picks| - 1])
    ensures FisherYates(s, picks) ==
              Swap(FisherYates(s, picks[..|picks| - 1]), |s| - |picks|, picks[|picks| - 1])
  {
  }

  /** The swaps made so far, extended by one more at index |s| - 1 - |picks|. */
  lemma {:induction false} FisherYatesStep<E>(s: seq<E>, picks: seq<nat>, j: nat)
    requires ValidPicks(|s|, picks) && |picks| < |s| && j <= |s| - 1 - |picks|
    ensures ValidPicks(|s|, picks + [j])
    ensures FisherYates(s, picks + [j]) == Swap(FisherYates(s, picks), |s| - 1 - |picks|, j)
  {
    ValidPicksExtend(|s|, picks, j);
    var ext := picks + [j];
    assert ext[..|picks|] == picks && ext[|picks|] == j;
    FisherYatesLast(s, ext);
  }

  /**
   `j := Int63n(int64(i + 1))`: an index in [0, i] from the 64-bit stream.
   Shuffle calls it only for i < maxInt64, where the conversion loses nothing.
   */
  function PickWide(i: nat, d: Draws): (r: Outcome<nat>)
    ensures i < MaxInt64 ==> !r.Panic?
    ensures r.Done? ==> r.value <= i && r.rest.w32 == d.w32
  {
    var drawn := Int63n(Int64Of(i + 1), d);
    if drawn.Panic? then Panic
    else if drawn.Exhausted? then Exhausted
    else Done(drawn.value, drawn.rest)
  }

  /**
   `j := Int31n(int32(i + 1))`: an index in [0, i] from the 32-bit stream.
   Shuffle calls it only for i < maxInt32, where the conversion loses nothing.
   */
  function PickNarrow(i: nat, d: Draws): (r: Outcome<nat>)
    ensures i < MaxInt32 ==> !r.Panic?
    ensures r.Done? ==> r.value <= i && r.rest.w64 == d.w64
  {
    var drawn := Int31n(Int32Of(i + 1), d);
    if drawn.Panic? then Panic
    else if drawn.Exhausted? then Exhausted
    else Done(drawn.value, drawn.rest)
  }

  /** Below maxInt64, PickWide is exactly `Int63n(i + 1)`: same outcome, same index, same draws consumed. */
  lemma PickWideIsInt63n(i: nat, d: Draws)
    requires i < MaxInt64
    ensures PickWide(i, d).Done? <==> Int63n(i + 1, d).Done?
    ensures PickWide(i, d).Done? ==>
              PickWide(i, d).value == Int63n(i + 1, d).value && PickWide(i, d).rest == Int63n(i + 1, d).rest
  {
    assert Int64Of(i + 1) == i + 1;
  }

  /** Below maxInt32, PickNarrow is exactly `Int31n(i + 1)`: same outcome, same index, same draws consumed. */
  lemma PickNarrowIsInt31n(i: nat, d: Draws)
    requires i < MaxInt32
    ensures PickNarrow(i, d).Done? <==> Int31n(i + 1, d).Done?
    ensures PickNarrow(i, d).Done? ==>
              PickNarrow(i, d).value == Int31n(i + 1, d).value && PickNarrow(i, d).rest == Int31n(i + 1, d).rest
  {
    assert Int32Of(i + 1) == i + 1;
  }

  /** A way to draw the index j for position i: PickWide or PickNarrow. */
  type Picker = (nat, Draws) -> Outcome<nat>

  /** For every i up to top, pick never panics and draws an index in [0, i]. */
  ghost predicate PicksUpTo(pick: Picker, top: int)
  {
    forall i: nat, d: Draws :: i <= top ==> !pick(i, d).Panic? && (pick(i, d).Done? ==> pick(i, d).value <= i)
  }

  /** pick never consumes a 64-bit word. */
  ghost predicate KeepsWide(pick: Picker)
  {
    forall i: nat, d: Draws :: pick(i, d).Done? ==> pick(i, d).rest.w64 == d.w64
  }

  /** PickWide is a well-behaved pick for every index below maxInt64. */
  lemma PickWideUpTo(top: int)
    requires top < MaxInt64
    ensures PicksUpTo(PickWide, top)
  {
  }

  /** PickNarrow is a well-behaved pick for every index below maxInt32, and draws no 64-bit word. */
  lemma PickNarrowUpTo(top: int)
    requires top < MaxInt32
    ensures PicksUpTo(PickNarrow, top) && KeepsWide(PickNarrow)
  {
  }

  /**
   The picks made so far, followed by the indices one loop of Shuffle draws
   from d when it stands at i: one pick(i, ...) for each i down to lo + 1.
   The pick after the first k new ones is drawn at i - k.
   */
  function Run(pick: Picker, picks: seq<nat>, i: int, lo: nat, d: Draws): (r: Outcome<seq<nat>>)
    ensures r.Done? ==> |r.value| == |picks| + (if i > lo then i - lo else 0)
    ensures i <= lo ==> r == Done(picks, d)
    decreases i - lo
  {
    if i <= lo then Done(picks, d)
    else
      var drawn := pick(i, d);
      if drawn.Panic? then Panic
      else if drawn.Exhausted? then Exhausted
      else Run(pick, picks + [drawn.value], i - 1, lo, drawn.rest)
  }

  /** The loop's picks from i are its pick at i followed by its picks from i - 1. */
  lemma RunStep(pick: Picker, picks: seq<nat>, i: int, lo: nat, d: Draws, j: nat, rest: Draws)
    requires i > lo && pick(i, d) == Done(j, rest)
    ensures Run(pick, picks, i, lo, d) == Run(pick, picks + [j], i - 1, lo, rest)
  {
  }

  /**
   With a well-behaved pick the loop never panics; it keeps the picks made
   so far and draws the next one in [0, i], then in [0, i - 1], and so on.
   */
  lemma {:induction false} RunRange(pick: Picker, picks: seq<nat>, i: int, lo: nat, d: Draws)
    requires PicksUpTo(pick, i)
    ensures var r := Run(pick, picks, i, lo, d);
              && !r.Panic?
              && (r.Done? ==>
                    && r.value[..|picks|] == picks
                    && forall k :: |picks| <= k < |r.value| ==> r.value[k] <= i - (k - |picks|))
    decreases i - lo
  {
    if i > lo {
      var drawn := pick(i, d);
      if drawn.Done? {
        assert PicksUpTo(pick, i - 1);
        RunRange(pick, picks + [drawn.value], i - 1, lo, drawn.rest);
        PrefixStep(picks, drawn.value, i, Run(pick, picks + [drawn.value], i - 1, lo, drawn.rest));
      }
    }
  }

  /** A loop whose pick draws no 64-bit word leaves the 64-bit stream as it was. */
  lemma {:induction false} RunKeepsWide(pick: Picker, picks: seq<nat>, i: int, lo: nat, d: Draws)
    requires KeepsWide(pick)
    ensures Run(pick, picks, i, lo, d).Done? ==> Run(pick, picks, i, lo, d).rest.w64 == d.w64
    decreases i - lo
  {
    if i > lo {
      var drawn := pick(i, d);
      if drawn.Done? {
        RunKeepsWide(pick, picks + [drawn.value], i - 1, lo, drawn.rest);
      }
    }
  }

  /**
   Picks that continue picks + [j], j <= i, with pick k after it at most
   (i - 1) - k, continue picks with pick k after it at most i - k.
   */
  lemma PrefixStep(picks: seq<nat>, j: nat, i: int, r: Outcome<seq<nat>>)
    requires j <= i
    requires r.Done? ==>
               && |picks + [j]| <= |r.value|
               && r.value[..|picks + [j]|] == picks + [j]
               && forall k :: |picks + [j]| <= k < |r.value| ==> r.value[k] <= i - 1 - (k - |picks + [j]|)
    ensures r.Done? ==>
              && r.value[..|picks|] == picks
              && forall k :: |picks| <= k < |r.value| ==> r.value[k] <= i - (k - |picks|)
  {
    if r.Done? {
      var n := |picks|;
      assert r.value[..n] == r.value[..n + 1][..n];
      assert r.value[n] == r.value[..n + 1][n];
    }
  }

  /**
   Every index `Shuffle` draws for a slice of length n from d, for a given
   pair of pick functions: the wide loop's picks for i down to maxInt32-1,
   continued by the narrow loop's from where the wide loop stopped down to 1.
   */
  function Drawn(wide: Picker, narrow: Picker, n: nat, d: Draws): (r: Outcome<seq<nat>>)
    requires PicksUpTo(wide, n - 1) && PicksUpTo(narrow, MaxInt32 - 2) && KeepsWide(narrow)
    ensures !r.Panic?
    ensures r.Done? ==> |r.value| == (if n == 0 then 0 else n - 1) && ValidPicks(n, r.value)
    ensures r.Done? && n < MaxInt32 ==> r.rest.w64 == d.w64
    ensures n <= 1 ==> r == Done([], d)
  {
    var high := Run(wide, [], n - 1, MaxInt32 - 2, d);
    RunRange(wide, [], n - 1, MaxInt32 - 2, d);
    if !high.Done? then high
    else
      var i := n - 1 - |high.value|;
      var r := Run(narrow, high.value, i, 0, high.rest);
      assert PicksUpTo(narrow, i);
      RunRange(narrow, high.value, i, 0, high.rest);
      RunKeepsWide(narrow, high.value, i, 0, high.rest);
      DrawnPicksValid(n, high.value, r);
      r
  }

  /** The indices `Shuffle` draws: Drawn with PickWide and PickNarrow. */
  function DrawnPicks(n: nat, d: Draws): (r: Outcome<seq<nat>>)
    requires n <= MaxInt64
    ensures !r.Panic?
    ensures r.Done? ==> |r.value| == (if n == 0 then 0 else n - 1) && ValidPicks(n, r.value)
    ensures r.Done? && n < MaxInt32 ==> r.rest.w64 == d.w64
    ensures n <= 1 ==> r == Done([], d)
  {
    PickWideUpTo(n - 1);
    PickNarrowUpTo(MaxInt32 - 2);
    Drawn(PickWide, PickNarrow, n, d)
  }

  /** The wide picks continued by the narrow picks are in range for a slice of length n. */
  lemma DrawnPicksValid(n: nat, wide: seq<nat>, r: Outcome<seq<nat>>)
    requires |wide| <= n
    requires forall k :: 0 <= k < |wide| ==> wide[k] <= n - 1 - k
    requires r.Done? ==> |wide| <= |r.value| <= n && r.value[..|wide|] == wide
    requires r.Done? ==> forall k :: |wide| <= k < |r.value| ==> r.value[k] <= n - 1 - k
    ensures r.Done? ==> ValidPicks(n, r.value)
  {
    if r.Done? {
      forall k | 0 <= k < |r.value|
        ensures r.value[k] <= n - 1 - k
      {
        if k < |wide| {
          assert r.value[k] == r.value[..|wide|][k];
        }
      }
    }
  }

  /**
   One loop of `Shuffle(s)`, continuing from the slice q that the picks so
   far made: i walks down from len(s)-1-len(picks) while i > lo, drawing
   j := pick(i) and swapping elements i and j. Shuffle runs it twice, with
   PickWide down to maxInt32-1 and then with PickNarrow down to 1.
   */
  method SwapLoop<E>(s: seq<E>, q: seq<E>, picks: seq<nat>, lo: nat, pick: Picker, d: Draws)
    returns (r: Outcome<seq<E>>, all: seq<nat>)
    requires ValidPicks(|s|, picks) && q == FisherYates(s, picks)
    requires |s| >= 1 ==> |picks| < |s|
    requires PicksUpTo(pick, |s| - 1 - |picks|)
    ensures !r.Panic? && ValidPicks(|s|, all)
    ensures r.Exhausted? <==> Run(pick, picks, |s| - 1 - |picks|, lo, d).Exhausted?
    ensures r.Done? ==> Run(pick, picks, |s| - 1 - |picks|, lo, d) == Done(all, r.rest)
    ensures r.Done? ==> r.value == FisherYates(s, all)
    ensures |s| - 1 - |picks| <= lo ==> r == Done(q, d) && all == picks
  {
    var cur := q;
    var rest := d;
    all := picks;
    var i: int := |s| - 1 - |picks|;
    ghost var drawnAll := Run(pick, picks, i, lo, d);
    while i > lo
      invariant -1 <= i <= |s| - 1 - |picks|
      invariant |all| == |s| - 1 - i
      invariant ValidPicks(|s|, all) && cur == FisherYates(s, all)
      invariant i == |s| - 1 - |picks| ==> rest == d && cur == q && all == picks
      invariant drawnAll == Run(pick, all, i, lo, rest)
      decreases i
    {
      var drawn := pick(i, rest);
      if drawn.Exhausted? {
        return Exhausted, all;
      }
      var j := drawn.value;
      RunStep(pick, all, i, lo, rest, j, drawn.rest);
      FisherYatesStep(s, all, j);
      cur := Swap(cur, i, j);
      all := all + [j];
      rest := drawn.rest;
      i := i - 1;
    }
    r := Done(cur, rest);
  }

  /**
   The two loops of `Shuffle(s)` for a given pair of pick functions: first
   with `wide` while i >= maxInt32-1, then with `narrow` down to i = 1.
   */
  method ShuffleWith<E>(s: seq<E>, wide: Picker, narrow: Picker, d: Draws) returns (r: Outcome<seq<E>>, picks: seq<nat>)
    requires PicksUpTo(wide, |s| - 1) && PicksUpTo(narrow, MaxInt32 - 2) && KeepsWide(narrow)
    ensures !r.Panic?
    ensures r.Done? ==> |r.value| == |s| && multiset(r.value) == multiset(s)
    ensures r.Done? ==> ValidPicks(|s|, picks) && r.value == FisherYates(s, picks)
    ensures |s| <= 1 ==> r == Done(s, d) && picks == []
    ensures r.Exhausted? <==> Drawn(wide, narrow, |s|, d).Exhausted?
    ensures r.Done? ==> Drawn(wide, narrow, |s|, d) == Done(picks, r.rest)
  {
    var high, first := SwapLoop(s, s, [], MaxInt32 - 2, wide, d);
    if high.Exhausted? {
      return Exhausted, first;
    }
    assert PicksUpTo(narrow, |s| - 1 - |first|);
    r, picks := SwapLoop(s, high.value, first, 0, narrow, high.rest);
    if r.Done? {
      FisherYatesPermutes(s, picks);
    }
  }

  /**
   `Shuffle(s)`. A Go slice has at most maxInt64 elements. On success the
   result is the Fisher-Yates shuffle of s for the indices drawn, which are
   returned as `picks`.
   */
  method Shuffle<E>(s: seq<E>, d: Draws) returns (r: Outcome<seq<E>>, picks: seq<nat>)
    requires |s| <= MaxInt64
    ensures !r.Panic?
    ensures r.Done? ==> |r.value| == |s| && multiset(r.value) == multiset(s)
    ensures r.Done? ==>
              && |picks| == (if |s| == 0 then 0 else |s| - 1)
              && ValidPicks(|s|, picks)
              && r.value == FisherYates(s, picks)
    ensures |s| <= 1 ==> r == Done(s, d) && picks == []
    ensures r.Done? && |s| < MaxInt32 ==> r.rest.w64 == d.w64
    ensures r.Exhausted? <==> DrawnPicks(|s|, d).Exhausted?
    ensures r.Done? ==> DrawnPicks(|s|, d) == Done(picks, r.rest)
  {
    PickWideUpTo(|s| - 1);
    PickNarrowUpTo(MaxInt32 - 2);
    r, picks := ShuffleWith(s, PickWide, PickNarrow, d);
  }
}
