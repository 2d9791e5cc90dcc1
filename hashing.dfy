/**
  The string hash of hashtable.c: a polynomial rolling hash over the bytes of
  a NUL-terminated key, accumulated in a C `unsigned int`.
 */
module Hashing {

  /** A byte of a key.  Keys are C strings, so the terminating NUL is never one of them. */
  newtype KeyByte = b: int | 1 <= b < 256 witness 1

  /** A key: the bytes before the terminating NUL. */
  type Key = seq<KeyByte>

  /** The C `unsigned int` the hash is accumulated in (32 bits). */
  newtype UInt32 = x: int | 0 <= x < 0x1_0000_0000

  const MULTIPLIER: int := 31
  const UINT_MODULUS: int := 0x1_0000_0000

  /**
    The value `*key` contributes to the sum.  `char` is signed on the platform
    modelled here, so a byte of 128 or more is promoted to a negative `int`,
    which the unsigned addition then reduces modulo 2^32.
   */
  function CharValue(b: KeyByte): (v: int)
    ensures -128 <= v < 128 && v != 0
    ensures v % 256 == b as int
  {
    if b < 128 then b as int else b as int - 256
  }

  /** One iteration of the loop in `hash`: multiply by 31 and add, wrapping modulo 2^32. */
  function Step(acc: UInt32, b: KeyByte): UInt32
  {
    ((acc as int * MULTIPLIER + CharValue(b)) % UINT_MODULUS) as UInt32
  }

  /** The loop of `hash` run from accumulator `acc` over the bytes of `key`, front to back. */
  function HashFrom(acc: UInt32, key: Key): UInt32
    decreases |key|
  {
    if key == [] then acc else HashFrom(Step(acc, key[0]), key[1..])
  }

  /** `hash(key)`: the accumulator starts at 0. */
  function Hash(key: Key): UInt32
  {
    HashFrom(0, key)
  }

  /**
    The exact (unbounded) value of the polynomial the hash evaluates in Horner
    form: sum of CharValue(key[i]) * 31^(|key| - 1 - i).
   */
  function Poly(key: Key): int
    decreases |key|
  {
    if key == [] then 0 else Poly(key[..|key| - 1]) * MULTIPLIER + CharValue(key[|key| - 1])
  }

  lemma {:induction false} HashFromSnoc(acc: UInt32, s: Key, b: KeyByte)
    ensures HashFrom(acc, s + [b]) == Step(HashFrom(acc, s), b)
    decreases |s|
  {
    if s == [] {
      assert [b][1..] == [];
    } else {
      assert (s + [b])[1..] == s[1..] + [b];
      HashFromSnoc(Step(acc, s[0]), s[1..], b);
    }
  }

  /** The empty key hashes to 0; appending one byte advances the hash by exactly one step of the loop. */
  lemma HashSnoc(s: Key, b: KeyByte)
    ensures Hash([]) == 0
    ensures Hash(s + [b]) == Step(Hash(s), b)
  {
    HashFromSnoc(0, s, b);
  }

  lemma ModMulAdd(a: int, c: int)
    ensures ((a % UINT_MODULUS) * MULTIPLIER + c) % UINT_MODULUS == (a * MULTIPLIER + c) % UINT_MODULUS
  {
  }

  /**
    The wrapping loop computes the polynomial reduced once modulo 2^32; in
    particular the hash of the empty key is 0 and the hash depends on nothing
    but the key's bytes.
   */
  lemma {:induction false} HashIsPolyMod(key: Key)
    ensures Hash(key) as int == Poly(key) % UINT_MODULUS
    decreases |key|
  {
    if key != [] {
      var init, last := key[..|key| - 1], key[|key| - 1];
      assert key == init + [last];
      HashSnoc(init, last);
      HashIsPolyMod(init);
      ModMulAdd(Poly(init), CharValue(last));
    }
  }

  /** The `while (*key)` loop of `hash`, proved to compute Hash. */
  method ComputeHash(key: Key) returns (h: UInt32)
    ensures h == Hash(key)
  {
    h := 0;
    var i := 0;
    while i < |key|
      invariant 0 <= i <= |key|
      invariant HashFrom(h, key[i..]) == Hash(key)
    {
      assert key[i..][1..] == key[i + 1..];
      h := ((h as int * MULTIPLIER + CharValue(key[i])) % UINT_MODULUS) as UInt32;
      i := i + 1;
    }
    assert key[i..] == [];
  }
}
