/**
 Filling byte buffers with random words: `Fill`, its tail helper `fill`,
 `reader.Read`, and the portable `putU64`.

 Every word is written in little-endian order: byte k of the buffer (or of
 the chunk) is `byte(v >> (8*k))`. For the full 8-byte chunks this is the
 order the portable `putU64` uses; the default build stores each chunk in
 the platform's native byte order, so there the model matches little-endian
 platforms only. The tail written by `fill` is little-endian everywhere. Buffers are modelled as sequences; a
 call returns the new contents instead of writing in place.
 */
module BufferFiller {
  import opened Bits
  import opened WordSource

  /** The first n little-endian bytes of v: byte k is `byte(v >> (8*k))`. */
  function LowBytes(v: nat, n: nat): (r: seq<Byte>)
    ensures |r| == n
  {
    seq(n, k requires 0 <= k < n => ByteOf(v, k))
  }

  /** The value of a little-endian byte string; the inverse of LowBytes. */
  function Decode(bs: seq<Byte>): nat
    decreases |bs|
  {
    if |bs| == 0 then 0 else bs[0] + 256 * Decode(bs[1..])
  }

  /** n little-endian bytes of v hold v modulo 2^(8n). */
  lemma {:induction false} DecodeLowBytes(v: nat, n: nat)
    ensures Decode(LowBytes(v, n)) == v % Pow2(8 * n)
    decreases n
  {
    var bs := LowBytes(v, n);
    if n > 0 {
      assert bs[1..] == LowBytes(v / 256, n - 1) by {
        forall i | 0 <= i < n - 1
          ensures bs[1..][i] == ByteOf(v / 256, i)
        {
          ShrShr(v, i);
        }
      }
      DecodeLowBytes(v / 256, n - 1);
      assert bs[0] == v % 256;
      Pow2Add(8, 8 * (n - 1));
      Pow2Of8();
      DivModSplit(v, 256, Pow2(8 * (n - 1)));
    }
  }

  /** Re-encoding a decoded byte string gives the same bytes back. */
  lemma {:induction false} EncodeDecode(bs: seq<Byte>)
    ensures LowBytes(Decode(bs), |bs|) == bs
    decreases |bs|
  {
    if |bs| > 0 {
      var x := Decode(bs[1..]);
      var v := Decode(bs);
      EncodeDecode(bs[1..]);
      DivModUnique(v, 256, x, bs[0]);
      forall i | 0 <= i < |bs|
        ensures ByteOf(v, i) == bs[i]
      {
        if i > 0 {
          ShrShr(v, i - 1);
          assert ByteOf(x, i - 1) == bs[1..][i - 1];
        }
      }
    }
  }

  /**
   `fill(p, v)` for T = uint32 or uint64: byte i of p becomes
   `byte(v >> (i*8))`, so p holds v modulo 2^(8 len(p)).
   */
  method FillWord(p: seq<Byte>, v: Uint64) returns (q: seq<Byte>)
    ensures q == LowBytes(v, |p|)
    ensures Decode(q) == v % Pow2(8 * |p|)
  {
    q := p;
    for i := 0 to |p|
      invariant |q| == |p|
      invariant forall k :: 0 <= k < i ==> q[k] == ByteOf(v, k)
    {
      q := q[i := ByteOf(v, i)];
    }
    DecodeLowBytes(v, |p|);
  }

  /** Eight little-endian bytes hold a whole 64-bit word. */
  lemma WordBytes(v: Uint64)
    ensures Decode(LowBytes(v, 8)) == v
  {
    assert v % Pow2(64) == v by {
      WordSizes();
    }
    DecodeLowBytes(v, 8);
  }

  /** putU64 either panics on its bounds check or yields the new contents of p. */
  datatype PutResult = IndexOutOfRange | Written(bytes: seq<Byte>)

  /**
   `putU64(p, v)` of the portable build, with the stores going into p: the
   early `p[7]` panics on a slice shorter than 8, and otherwise the first
   8 bytes become v in little-endian order and the rest stay as they were.
   */
  function PutU64(p: seq<Byte>, v: Uint64): (r: PutResult)
    ensures r.IndexOutOfRange? <==> |p| < 8
    ensures r.Written? ==> |r.bytes| == |p| && r.bytes[8..] == p[8..]
    ensures r.Written? ==> r.bytes[..8] == LowBytes(v, 8)
    ensures r.Written? ==> Decode(r.bytes[..8]) == v
  {
    if |p| < 8 then IndexOutOfRange
    else
      WordBytes(v);
      Written(p[0 := ByteOf(v, 0)][1 := ByteOf(v, 1)][2 := ByteOf(v, 2)][3 := ByteOf(v, 3)]
               [4 := ByteOf(v, 4)][5 := ByteOf(v, 5)][6 := ByteOf(v, 6)][7 := ByteOf(v, 7)])
  }

  /** Both buffers after putU64 as the portable build spells it, or its bounds panic. */
  datatype StoreResult = StoreOutOfRange | Stores(p: seq<Byte>, b: seq<Byte>)

  /**
   `putU64(p, v)` as spelled in fastrand_safe.go: the bounds check is on p
   but the eight stores go to `b`, a name the file never declares. Read as
   a separate buffer b, the stores land there and p keeps its old bytes.
   */
  function PutU64AsWritten(p: seq<Byte>, b: seq<Byte>, v: Uint64): (r: StoreResult)
    ensures r.StoreOutOfRange? <==> |p| < 8 || |b| < 8
    ensures r.Stores? ==> r.p == p && |r.b| == |b| && r.b[..8] == LowBytes(v, 8)
  {
    if |p| < 8 || |b| < 8 then StoreOutOfRange
    else
      Stores(p, b[0 := ByteOf(v, 0)][1 := ByteOf(v, 1)][2 := ByteOf(v, 2)][3 := ByteOf(v, 3)]
                 [4 := ByteOf(v, 4)][5 := ByteOf(v, 5)][6 := ByteOf(v, 6)][7 := ByteOf(v, 7)])
  }

  /**
   As spelled, putU64 leaves p as it was, so p reads back as v only if it
   already held v: for any other p the intended stores and the written ones
   disagree on the first 8 bytes.
   */
  lemma PutU64AsWrittenLosesWord(p: seq<Byte>, b: seq<Byte>, v: Uint64)
    requires |p| >= 8 && |b| >= 8 && Decode(p[..8]) != v
    ensures Decode(PutU64AsWritten(p, b, v).p[..8]) != v
    ensures PutU64AsWritten(p, b, v).p[..8] != PutU64(p, v).bytes[..8]
  {
  }

  /** The u64 draws Fill makes for n bytes: one per 8-byte chunk, one more for a 5-7 byte tail. */
  function Draws64(n: nat): nat
  {
    n / 8 + (if n % 8 > 4 then 1 else 0)
  }

  /** The u32 draws Fill makes for n bytes: one for a 1-4 byte tail. */
  function Draws32(n: nat): nat
  {
    if 0 < n % 8 <= 4 then 1 else 0
  }

  /** The streams hold every word Fill needs for n bytes. */
  predicate Enough(n: nat, d: Draws)
  {
    |d.w64| >= Draws64(n) && |d.w32| >= Draws32(n)
  }

  /**
   The bytes Fill writes into a buffer of length n, stated byte by byte:
   chunk c holds u64 draw c; a 5-7 byte tail holds the low bytes of the
   next u64 draw; a 1-4 byte tail holds the low bytes of the first u32 draw.
   */
  ghost function Expected(n: nat, d: Draws): (bs: seq<Byte>)
    requires Enough(n, d)
    ensures |bs| == n
  {
    seq(n, i requires 0 <= i < n =>
      if i < n / 8 * 8 then ByteOf(d.w64[i / 8], i % 8)
      else if n % 8 > 4 then ByteOf(d.w64[n / 8], i % 8)
      else ByteOf(d.w32[0], i % 8))
  }

  /** Byte k of chunk c sits at index 8c + k. */
  lemma ChunkIndex(c: nat, k: nat)
    requires k < 8
    ensures (8 * c + k) / 8 == c && (8 * c + k) % 8 == k
  {
    DivModUnique(8 * c + k, 8, c, k);
  }

  /** The draw whose low bytes fill a 1-7 byte tail. */
  function TailWord(n: nat, d: Draws): nat
    requires Enough(n, d) && n % 8 > 0
  {
    if n % 8 > 4 then d.w64[n / 8] else d.w32[0]
  }

  lemma ExpectedTail(n: nat, d: Draws, k: nat)
    requires Enough(n, d) && k < n % 8
    ensures Expected(n, d)[n / 8 * 8 + k] == ByteOf(TailWord(n, d), k)
  {
    ChunkIndex(n / 8, k);
  }

  /** The 8 bytes of chunk c. */
  function Chunk(bs: seq<Byte>, c: nat): seq<Byte>
    requires 8 * c + 8 <= |bs|
  {
    bs[8 * c..8 * c + 8]
  }

  /**
   The filled buffer read back: chunk c decodes to u64 draw c, and the
   tail decodes to its draw modulo 2^(8 * tail length).
   */
  lemma FillDecodes(n: nat, d: Draws)
    requires Enough(n, d)
    ensures forall c :: 0 <= c < n / 8 ==> Decode(Chunk(Expected(n, d), c)) == d.w64[c]
    ensures n % 8 > 0 ==>
              Decode(Expected(n, d)[n / 8 * 8..]) == TailWord(n, d) % Pow2(8 * (n % 8))
  {
    forall c | 0 <= c < n / 8
      ensures Decode(Chunk(Expected(n, d), c)) == d.w64[c]
    {
      ChunkDecodes(n, d, c);
    }
    if n % 8 > 0 {
      TailDecodes(n, d);
    }
  }

  lemma ChunkDecodes(n: nat, d: Draws, c: nat)
    requires Enough(n, d) && c < n / 8
    ensures Decode(Chunk(Expected(n, d), c)) == d.w64[c]
  {
    var bs := Expected(n, d);
    forall k | 0 <= k < 8
      ensures Chunk(bs, c)[k] == ByteOf(d.w64[c], k)
    {
      ChunkIndex(c, k);
    }
    assert Chunk(bs, c) == LowBytes(d.w64[c], 8);
    WordBytes(d.w64[c]);
  }

  lemma TailDecodes(n: nat, d: Draws)
    requires Enough(n, d) && n % 8 > 0
    ensures Decode(Expected(n, d)[n / 8 * 8..]) == TailWord(n, d) % Pow2(8 * (n % 8))
  {
    var tail := Expected(n, d)[n / 8 * 8..];
    var w := TailWord(n, d);
    forall k | 0 <= k < n % 8
      ensures tail[k] == ByteOf(w, k)
    {
      ExpectedTail(n, d, k);
    }
    assert tail == LowBytes(w, n % 8);
    DecodeLowBytes(w, n % 8);
  }

  /**
   Storing u64 draw c as chunk c of a buffer whose first c chunks are
   already filled: now the first c + 1 chunks are, and the bytes after them
   are still those of p.
   */
  lemma {:induction false} ChunkStep(ws: seq<Uint64>, p: seq<Byte>, q: seq<Byte>, c: nat, bytes: seq<Byte>)
    requires 8 * c + 8 <= |q| == |p| && c < |ws|
    requires forall i :: 0 <= i < 8 * c ==> q[i] == ByteOf(ws[i / 8], i % 8)
    requires q[8 * c..] == p[8 * c..]
    requires |bytes| == |q| - 8 * c && bytes[..8] == LowBytes(ws[c], 8)
    requires bytes[8..] == q[8 * c..][8..]
    ensures |q[..8 * c] + bytes| == |p|
    ensures forall i :: 0 <= i < 8 * (c + 1) ==> (q[..8 * c] + bytes)[i] == ByteOf(ws[i / 8], i % 8)
    ensures (q[..8 * c] + bytes)[8 * (c + 1)..] == p[8 * (c + 1)..]
  {
    var off := 8 * c;
    var q' := q[..off] + bytes;
    forall i | 0 <= i < off + 8
      ensures q'[i] == ByteOf(ws[i / 8], i % 8)
    {
      if i >= off {
        ChunkIndex(c, i - off);
        assert q'[i] == bytes[..8][i - off];
      }
    }
    assert q'[off + 8..] == p[off + 8..] by {
      assert q'[off + 8..] == bytes[8..];
      assert q[off..][8..] == p[off..][8..];
      assert p[off..][8..] == p[off + 8..];
    }
  }

  /** A buffer whose chunks and tail hold the right draws is the expected one. */
  lemma FillMatches(n: nat, d: Draws, q: seq<Byte>)
    requires Enough(n, d) && |q| == n
    requires forall i :: 0 <= i < n / 8 * 8 ==> q[i] == ByteOf(d.w64[i / 8], i % 8)
    requires n % 8 > 0 ==> q[n / 8 * 8..] == LowBytes(TailWord(n, d), n % 8)
    ensures q == Expected(n, d)
  {
    var bs := Expected(n, d);
    forall i | 0 <= i < n
      ensures q[i] == bs[i]
    {
      if i >= n / 8 * 8 {
        var k := i - n / 8 * 8;
        ExpectedTail(n, d, k);
        assert q[i] == q[n / 8 * 8..][k];
      }
    }
  }

  /**
   Fill's first loop: while at least 8 bytes remain, it stores one u64 draw
   into the next 8 bytes and moves past them. So every full chunk c receives
   u64 draw c, and the 0-7 bytes after the last chunk are left alone.
   */
  method PutChunks(p: seq<Byte>, d: Draws) returns (r: Outcome<seq<Byte>>)
    ensures !r.Panic?
    ensures r.Exhausted? <==> |d.w64| < |p| / 8
    ensures r.Done? ==>
              && |r.value| == |p|
              && (forall i :: 0 <= i < |p| / 8 * 8 ==> r.value[i] == ByteOf(d.w64[i / 8], i % 8))
              && r.value[|p| / 8 * 8..] == p[|p| / 8 * 8..]
              && r.rest == Draws(d.w32, d.w64[|p| / 8..])
  {
    var q := p;
    var rest := d;
    var c := 0;
    while |p| - 8 * c >= 8
      invariant 8 * c <= |p| && |q| == |p|
      invariant c <= |d.w64| && rest == Draws(d.w32, d.w64[c..])
      invariant forall i :: 0 <= i < 8 * c ==> q[i] == ByteOf(d.w64[i / 8], i % 8)
      invariant q[8 * c..] == p[8 * c..]
      decreases |p| - 8 * c
    {
      if |rest.w64| == 0 {
        return Exhausted;
      }
      var put := PutU64(q[8 * c..], rest.w64[0]);
      ChunkStep(d.w64, p, q, c, put.bytes);
      q := q[..8 * c] + put.bytes;
      rest := rest.(w64 := rest.w64[1..]);
      c := c + 1;
    }
    assert c == |p| / 8 by {
      DivModUnique(|p|, 8, c, |p| - 8 * c);
    }
    r := Done(q, rest);
  }

  /**
   `Fill(p)`: every byte of p is overwritten with draws (nothing of the old
   contents survives), and exactly Draws64 u64 words and Draws32 u32 words
   are consumed.
   */
  method Fill(p: seq<Byte>, d: Draws) returns (r: Outcome<seq<Byte>>)
    ensures !r.Panic?
    ensures r.Exhausted? <==> !Enough(|p|, d)
    ensures r.Done? ==> r.value == Expected(|p|, d)
    ensures r.Done? ==> r.rest == Draws(d.w32[Draws32(|p|)..], d.w64[Draws64(|p|)..])
  {
    var chunks := PutChunks(p, d);
    if chunks.Exhausted? {
      return Exhausted;
    }
    var q := chunks.value;
    var rest := chunks.rest;
    var off := |p| / 8 * 8;
    if |p| - off > 4 {
      if |rest.w64| == 0 {
        return Exhausted;
      }
      var t := FillWord(q[off..], rest.w64[0]);
      q := q[..off] + t;
      assert q[off..] == t;
      rest := rest.(w64 := rest.w64[1..]);
    } else if |p| - off > 0 {
      if |rest.w32| == 0 {
        return Exhausted;
      }
      var t := FillWord(q[off..], rest.w32[0]);
      q := q[..off] + t;
      assert q[off..] == t;
      rest := rest.(w32 := rest.w32[1..]);
    }
    FillMatches(|p|, d, q);
    r := Done(q, rest);
  }

  /**
   `reader.Read(p)`: fills p and reports len(p) bytes read; `err` tells
   whether a non-nil error is returned, which never happens.
   */
  method Read(p: seq<Byte>, d: Draws) returns (r: Outcome<seq<Byte>>, n: int, err: bool)
    ensures n == |p| && !err
    ensures r.Exhausted? <==> !Enough(|p|, d)
    ensures r.Done? ==> r.value == Expected(|p|, d)
    ensures r.Done? ==> r.rest == Draws(d.w32[Draws32(|p|)..], d.w64[Draws64(|p|)..])
  {
    r := Fill(p, d);
    return r, |p|, false;
  }
}
