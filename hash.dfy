/**
 * detail::hash, the byte fold behind the std::hash specialisation of variant.
 *
 * The source walks the object representation of its argument one `unsigned char` at a
 * time and folds it into an `unsigned int` accumulator, in 32-bit wrapping arithmetic:
 * start at 37, then `h = (h * 54059) ^ (byte * 76963)` for every byte. The model takes
 * the bytes as a parameter; which bytes an object has (padding included) is not modelled.
 */
module Hash {

  /** The multiplier applied to the accumulator. */
  const Prime: bv32 := 54059
  /** The multiplier applied to each byte. */
  const BytePrime: bv32 := 76963
  /** The starting value of the accumulator. */
  const Seed: bv32 := 37

  /** One round of the loop body. `byte * 76963` is at most 255 * 76963, so it fits in
      32 bits before the `^`. */
  function Step(h: bv32, byte: bv8): bv32 {
    (h * Prime) ^ ((byte as bv32) * BytePrime)
  }

  /** The loop from accumulator `h` over `bytes`, first byte first. */
  function Fold(h: bv32, bytes: seq<bv8>): bv32
    decreases bytes
  {
    if |bytes| == 0 then h else Fold(Step(h, bytes[0]), bytes[1..])
  }

  /** detail::hash as a function: the fold from the seed, widened to size_t. */
  function HashOf(bytes: seq<bv8>): nat {
    Fold(Seed, bytes) as nat
  }

  /** Folding over a concatenation folds over the first part, then over the second. */
  lemma {:induction false} FoldAppend(h: bv32, a: seq<bv8>, b: seq<bv8>)
    ensures Fold(h, a + b) == Fold(Fold(h, a), b)
    decreases a
  {
    if |a| == 0 {
      assert a + b == b;
    } else {
      assert (a + b)[0] == a[0] && (a + b)[1..] == a[1..] + b;
      FoldAppend(Step(h, a[0]), a[1..], b);
    }
  }

  /** One more byte is one more round on the accumulator. */
  lemma FoldSnoc(h: bv32, bytes: seq<bv8>, byte: bv8)
    ensures Fold(h, bytes + [byte]) == Step(Fold(h, bytes), byte)
  {
    FoldAppend(h, bytes, [byte]);
  }

  /** The accumulator after the loop has consumed `bytes`, stated from the other end:
      the last byte is the last round. This is how the loop in the source reads. */
  function Digest(bytes: seq<bv8>): bv32 {
    if |bytes| == 0 then Seed else Step(Digest(bytes[..|bytes| - 1]), bytes[|bytes| - 1])
  }

  /** The front-first fold from the seed and the last-round-last reading agree. */
  lemma {:induction false} FoldIsDigest(bytes: seq<bv8>)
    ensures Fold(Seed, bytes) == Digest(bytes)
    decreases |bytes|
  {
    if |bytes| > 0 {
      var init := bytes[..|bytes| - 1];
      assert bytes == init + [bytes[|bytes| - 1]];
      FoldSnoc(Seed, init, bytes[|bytes| - 1]);
      FoldIsDigest(init);
    }
  }

  /** detail::hash: the loop over the bytes of the object, returning a value below 2^32. */
  method Hash(bytes: seq<bv8>) returns (r: nat)
    ensures r == HashOf(bytes)
    ensures r < 0x1_0000_0000
    ensures |bytes| == 0 ==> r == 37
  {
    var h := Seed;
    var i := 0;
    while i < |bytes|
      invariant 0 <= i <= |bytes|
      invariant h == Digest(bytes[..i])
    {
      assert bytes[..i + 1][..i] == bytes[..i];
      h := Step(h, bytes[i]);
      i := i + 1;
    }
    assert bytes[..i] == bytes;
    FoldIsDigest(bytes);
    r := h as nat;
  }
}
