/**
 * `SimpleHasher` of the hash map (new_collections/hashmap.rs:32-65): a
 * 64-bit state seeded from the FNV-1a offset basis, a multiply-then-xor
 * byte step, and the splitmix64 finaliser. All arithmetic wraps at 2^64,
 * which `bv64` does by construction.
 */
module Hasher {
  /** The FNV-1a offset basis and the 64-bit FNV prime. */
  const FnvOffset: bv64 := 0xcbf2_9ce4_8422_2325
  const FnvPrime: bv64 := 0x0000_0100_0000_01b3

  /** The state a new hasher starts from, given the seed. */
  function Seeded(seed: bv64): bv64
  {
    (FnvOffset + seed) * FnvPrime
  }

  /** One byte of `write`: multiply by the FNV prime, then xor the byte in. */
  function AbsorbByte(s: bv64, b: bv8): bv64
  {
    (s * FnvPrime) ^ (b as bv64)
  }

  /** The state after absorbing `bytes` in order, starting from `s`. */
  function Absorb(s: bv64, bytes: seq<bv8>): bv64
    decreases |bytes|
  {
    if bytes == [] then s else Absorb(AbsorbByte(s, bytes[0]), bytes[1..])
  }

  /** Absorbing is streaming: feeding `a` and then `b` is feeding `a + b`. */
  lemma {:induction false} AbsorbConcat(s: bv64, a: seq<bv8>, b: seq<bv8>)
    ensures Absorb(s, a + b) == Absorb(Absorb(s, a), b)
    decreases |a|
  {
    if a == [] {
      assert a + b == b;
    } else {
      assert (a + b)[0] == a[0] && (a + b)[1..] == a[1..] + b;
      AbsorbConcat(AbsorbByte(s, a[0]), a[1..], b);
    }
  }

  /** The splitmix64 finaliser that `finish` applies to the state. */
  function Mix(s: bv64): bv64
  {
    var x := (s ^ (s >> 30)) * 0xbf58_476d_1ce4_e5b9;
    var y := (x ^ (x >> 27)) * 0x94d0_49bb_1331_11eb;
    y ^ (y >> 31)
  }

  /** The hasher a fresh seed builds (`build_hasher`); `Write` feeds it bytes and `Finish` reads the hash off it. */
  class SimpleHasher {
    var state: bv64

    /** `SimpleHasher::new`. */
    constructor (seed: bv64)
      ensures state == Seeded(seed)
    {
      state := Seeded(seed);
    }

    /** `Hasher::write`: absorbs the bytes one by one. */
    method Write(bytes: seq<bv8>)
      modifies this
      ensures state == Absorb(old(state), bytes)
    {
      var i := 0;
      while i < |bytes|
        invariant 0 <= i <= |bytes|
        invariant Absorb(old(state), bytes) == Absorb(state, bytes[i..])
      {
        assert bytes[i..][1..] == bytes[i + 1..];
        state := AbsorbByte(state, bytes[i]);
        i := i + 1;
      }
    }

    /** `Hasher::finish`. */
    function Finish(): (h: bv64)
      reads this
      ensures h == Mix(state)
    {
      Mix(state)
    }
  }
}
