/**
 The raw word source behind every fastrand operation.

 In the package, `u32()` and `u64()` are foreign calls (the runtime's
 per-thread generator, or a freshly seeded hash in the portable build). Here
 they are two finite streams of words fixed in advance: a call consumes the
 head of its stream. Any statistical property of the words is outside the
 model; everything below holds for every possible stream.
 */
module WordSource {
  import opened Bits

  /** The words `u32()` and `u64()` will return, in order. */
  datatype Draws = Draws(w32: seq<Uint32>, w64: seq<Uint64>)

  /**
   What an operation that draws words ends in: a Go panic, the finite model
   stream running dry (which the real, endless source never does), or a
   value together with the draws not yet consumed.
   */
  datatype Outcome<+T> = Panic | Exhausted | Done(value: T, rest: Draws)
}
