/**
  The jitter draws of the probe cadence governor (core-supervisor/src/probe_cadence.rs): a 64-bit
  linear congruential sequence of seeds, each mixed with a hash of the transport's name. A name is
  its UTF-8 bytes; arithmetic wraps around.
 */
module Draws {
  type Name = seq<bv8>

  const DEFAULT_SEED: bv64 := 0x9E37_79B9_7F4A_7C15
  const HASH_START: bv64 := 0xcbf2_9ce4_8422_2325

  function NextSeed(seed: bv64): bv64 {
    seed * 6_364_136_223_846_793_005 + 1_442_695_040_888_963_407
  }

  function HashFrom(h: bv64, name: Name): bv64
    decreases |name|
  {
    if name == [] then h else HashFrom((h ^ (name[0] as bv64)) * 0x1000_0000_01b3, name[1..])
  }

  function NameHash(name: Name): bv64 {
    HashFrom(HASH_START, name)
  }

  function Mixed(seed: bv64, name: Name): nat {
    (seed ^ NameHash(name)) as nat
  }

  // ---- Every draw comes up ----

  /** The multiplier is odd, so it has an inverse modulo 2^64 and every seed follows some other. */
  lemma StepBack(seed: bv64)
    ensures NextSeed((seed - 1_442_695_040_888_963_407) * 13_877_824_140_714_322_085) == seed
  {
  }

  lemma SeedBefore(seed: bv64) returns (before: bv64)
    ensures NextSeed(before) == seed
  {
    StepBack(seed);
    before :| NextSeed(before) == seed;
  }

  lemma MixBack(draw: bv64, hash: bv64)
    ensures (draw ^ hash) ^ hash == draw
  {
  }

  /** Whatever the transport, every 64-bit draw follows from some seed. */
  lemma DrawComesUp(name: Name, draw: bv64) returns (seed: bv64)
    ensures Mixed(NextSeed(seed), name) == draw as nat
  {
    seed := SeedBefore(draw ^ NameHash(name));
    MixBack(draw, NameHash(name));
  }

  lemma ZeroComesUp(name: Name) returns (seed: bv64)
    ensures Mixed(NextSeed(seed), name) == 0
  {
    seed := DrawComesUp(name, 0);
  }

  // ---- A draw of the default governor ----

  lemma HashOneByte(h: bv64, b: bv8)
    requires h == HASH_START && b == 0x66
    ensures (h ^ (b as bv64)) * 0x1000_0000_01b3 == 0xaf74_c84c_8601_ead9
  {
  }

  lemma HashOfF()
    ensures NameHash([0x66]) == 0xaf74_c84c_8601_ead9
  {
    var name: Name := [0x66];
    assert name[1..] == [];
    HashOneByte(HASH_START, 0x66);
  }

  lemma DefaultNext(seed: bv64, hash: bv64)
    requires seed == DEFAULT_SEED && hash == 0xaf74_c84c_8601_ead9
    ensures NextSeed(seed) ^ hash == 0x839e_266d_3947_56d9
  {
  }

  lemma DrawAsNumber(draw: bv64)
    requires draw == 0x839e_266d_3947_56d9
    ensures draw as nat == 0x839e_266d_3947_56d9
  {
  }

  lemma DrawIsMultiple(n: nat)
    requires n == 0x839e_266d_3947_56d9
    ensures n % 51 == 0
  {
  }

  /** The first draw of a governor with the default seed for the transport named "f" is a multiple of 51. */
  lemma FirstDraw()
    ensures Mixed(NextSeed(DEFAULT_SEED), [0x66]) % 51 == 0
  {
    HashOfF();
    DefaultNext(DEFAULT_SEED, NameHash([0x66]));
    DrawAsNumber(NextSeed(DEFAULT_SEED) ^ NameHash([0x66]));
    DrawIsMultiple(Mixed(NextSeed(DEFAULT_SEED), [0x66]));
  }
}
