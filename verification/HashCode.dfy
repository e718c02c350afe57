// The integer hash of List-MoreUtils/dhash.h.
module HashCode {

  // C's int.
  type CInt = k: int | -0x8000_0000 <= k < 0x8000_0000

  // HASH: hash_t arithmetic is modulo 2^32, as bv32 arithmetic is.
  function Hash(k: bv32): bv32 {
    var k1 := k + (k << 12);
    var k2 := k1 ^ (k1 >> 22);
    var k3 := k2 + (k2 << 4);
    var k4 := k3 ^ (k3 >> 9);
    var k5 := k4 + (k4 << 10);
    var k6 := k5 ^ (k5 >> 2);
    var k7 := k6 + (k6 << 7);
    k7 ^ (k7 >> 12)
  }

  // The hash of some keys.
  lemma SomeHashes()
    ensures Hash(0) == 0 && Hash(1) == 0xAF22_7BB7 && Hash(2) == 0x5E54_F76F && Hash(0xFFFF_FFFF) == 0x047D_84DF
  {}

  // HASH of an int key, whose conversion to hash_t is modulo 2^32.
  function KeyHash(key: CInt): nat {
    Hash((key % 0x1_0000_0000) as bv32) as nat
  }

  lemma SomeKeyHashes()
    ensures KeyHash(0) == 0 && KeyHash(1) == 0xAF22_7BB7 && KeyHash(-1) == 0x047D_84DF
  {
    SomeHashes();
  }

  // A table may use any hash; dhash.h uses KeyHash.
  type Hasher = CInt -> nat

  // The slot where the search for a key starts.
  function Home(hash: Hasher, key: CInt, size: nat): (h: nat)
    requires 0 < size
    ensures h < size
  {
    hash(key) % size
  }
}
