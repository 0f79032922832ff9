/** The keyed XOR chain behind User-Password, MS-MPPE keys and Tunnel-Password. The hash is a
    parameter: nothing here depends on its being MD5. */
module Chain {
  import opened Octets

  const BLOCK: nat := 16

  type Block = s: seq<byte> | |s| == BLOCK witness seq(BLOCK, _ => 0)

  type Hash = seq<byte> -> Block

  function Zeros(n: nat): (s: seq<byte>)
    ensures |s| == n
  {
    seq(n, _ => 0)
  }

  function Pow2(n: nat): (r: nat)
    ensures r > 0
  {
    if n == 0 then 1 else 2 * Pow2(n - 1)
  }

  /** Exclusive or of the low `n` bits. */
  function XorBits(n: nat, a: nat, b: nat): (r: nat)
    ensures r < Pow2(n)
  {
    if n == 0 then 0 else 2 * XorBits(n - 1, a / 2, b / 2) + (a % 2 + b % 2) % 2
  }

  /** Bit `i`, the least significant one being bit 0. */
  function Bit(a: nat, i: nat): (r: nat)
    ensures r < 2
  {
    if i == 0 then a % 2 else Bit(a / 2, i - 1)
  }

  /** Every bit of an exclusive or is the sum of the two bits without carry. */
  lemma {:induction false} XorBit(n: nat, a: nat, b: nat, i: nat)
    requires i < n
    ensures Bit(XorBits(n, a, b), i) == (Bit(a, i) + Bit(b, i)) % 2
  {
    var high, low := XorBits(n - 1, a / 2, b / 2), (a % 2 + b % 2) % 2;
    Halves(high, low);
    if i > 0 {
      XorBit(n - 1, a / 2, b / 2, i - 1);
    }
  }

  /** A number is its bits. */
  lemma {:induction false} BitsDetermine(n: nat, a: nat, b: nat)
    requires a < Pow2(n) && b < Pow2(n) && forall i :: 0 <= i < n ==> Bit(a, i) == Bit(b, i)
    ensures a == b
  {
    if n > 0 {
      forall i | 0 <= i < n - 1 ensures Bit(a / 2, i) == Bit(b / 2, i) {
        assert Bit(a, i + 1) == Bit(b, i + 1);
      }
      BitsDetermine(n - 1, a / 2, b / 2);
      assert Bit(a, 0) == Bit(b, 0);
    }
  }

  lemma Halves(high: nat, low: nat)
    requires low < 2
    ensures (2 * high + low) / 2 == high && (2 * high + low) % 2 == low
  {
  }

  /** `^` on octets. */
  function Xor(a: byte, b: byte): (r: byte) {
    assert Pow2(8) == 256;
    XorBits(8, a, b)
  }

  /** `c` is `a ^ b`, bit by bit. */
  predicate XorsTo(a: byte, b: byte, c: byte) {
    forall i: nat | i < 8 :: Bit(c, i) == (Bit(a, i) + Bit(b, i)) % 2
  }

  lemma XorExactly(a: byte, b: byte, c: byte)
    ensures XorsTo(a, b, c) <==> c == Xor(a, b)
  {
    assert Pow2(8) == 256;
    forall i: nat | i < 8 ensures Bit(Xor(a, b), i) == (Bit(a, i) + Bit(b, i)) % 2 {
      XorBit(8, a, b, i);
    }
    if XorsTo(a, b, c) {
      BitsDetermine(8, c, Xor(a, b));
    }
  }

  function XorBlock(a: Block, b: Block): (r: Block) {
    seq(BLOCK, i requires 0 <= i < BLOCK => Xor(a[i], b[i]))
  }

  lemma BitUndoes(x: nat, y: nat)
    requires x < 2 && y < 2
    ensures ((x + y) % 2 + y) % 2 == x
  {
  }

  lemma XorUndoes(a: byte, b: byte)
    ensures Xor(Xor(a, b), b) == a
  {
    hide Xor, Bit;
    var c := Xor(a, b);
    XorExactly(a, b, c);
    forall i: nat | i < 8 ensures Bit(a, i) == (Bit(c, i) + Bit(b, i)) % 2 {
      BitUndoes(Bit(a, i), Bit(b, i));
    }
    XorExactly(c, b, a);
  }

  lemma {:induction false} ZeroBit(i: nat)
    ensures Bit(0, i) == 0
  {
    if i > 0 {
      ZeroBit(i - 1);
    }
  }

  lemma XorZero(a: byte, b: byte)
    ensures Xor(a, b) == 0 <==> a == b
  {
    hide Xor, Bit;
    assert Pow2(8) == 256;
    XorExactly(a, b, 0);
    forall i: nat | i < 8 ensures Bit(0, i) == (Bit(a, i) + Bit(b, i)) % 2 <==> Bit(a, i) == Bit(b, i) {
      ZeroBit(i);
    }
    if XorsTo(a, b, 0) {
      BitsDetermine(8, a, b);
    }
  }

  lemma XorBlockUndoes(a: Block, b: Block)
    ensures XorBlock(XorBlock(a, b), b) == a
  {
    hide Xor;
    forall i | 0 <= i < BLOCK ensures XorBlock(XorBlock(a, b), b)[i] == a[i] {
      XorUndoes(a[i], b[i]);
    }
  }

  lemma XorBlockExactly(a: Block, b: Block, c: Block)
    ensures (forall k: nat | k < BLOCK :: XorsTo(a[k], b[k], c[k])) <==> c == XorBlock(a, b)
  {
    hide XorsTo, Xor;
    forall k: nat | k < BLOCK ensures XorsTo(a[k], b[k], c[k]) <==> c[k] == Xor(a[k], b[k]) {
      XorExactly(a[k], b[k], c[k]);
    }
  }

  /** Encrypt whole blocks: each keystream block hashes the previous ciphertext block. */
  function Encipher(h: Hash, secret: seq<byte>, prev: seq<byte>, plain: seq<byte>): (cipher: seq<byte>)
    requires |plain| % BLOCK == 0
    ensures |cipher| == |plain|
    decreases |plain|
  {
    if plain == [] then [] else
      var c := XorBlock(plain[..BLOCK], h(secret + prev));
      c + Encipher(h, secret, c, plain[BLOCK..])
  }

  function Decipher(h: Hash, secret: seq<byte>, prev: seq<byte>, cipher: seq<byte>): (plain: seq<byte>)
    requires |cipher| % BLOCK == 0
    ensures |plain| == |cipher|
    decreases |cipher|
  {
    if cipher == [] then [] else
      XorBlock(cipher[..BLOCK], h(secret + prev)) + Decipher(h, secret, cipher[..BLOCK], cipher[BLOCK..])
  }

  /** Block `i`. */
  function Nth(s: seq<byte>, i: nat): Block
    requires BLOCK * i + BLOCK <= |s|
  {
    s[BLOCK * i..BLOCK * i + BLOCK]
  }

  /** What is hashed, after the secret, for block `i`. */
  function ChainInput(seed: seq<byte>, cipher: seq<byte>, i: nat): seq<byte>
    requires BLOCK * i <= |cipher|
  {
    if i == 0 then seed else Nth(cipher, i - 1)
  }

  /** Ciphertext block `i` is plaintext block `i` with every bit flipped that is set in the keystream block. */
  predicate Linked(h: Hash, secret: seq<byte>, seed: seq<byte>, plain: seq<byte>, cipher: seq<byte>, i: nat)
    requires |plain| == |cipher| && BLOCK * i + BLOCK <= |plain|
  {
    var key := h(secret + ChainInput(seed, cipher, i));
    forall k: nat | k < BLOCK :: XorsTo(Nth(plain, i)[k], key[k], Nth(cipher, i)[k])
  }

  /** The chain as section 2.4.2 of RFC 2548 and section 5.2 of RFC 2865 define it, block by block. */
  predicate Chained(h: Hash, secret: seq<byte>, seed: seq<byte>, plain: seq<byte>, cipher: seq<byte>) {
    && |plain| == |cipher| && |plain| % BLOCK == 0
    && forall i: nat | i < |plain| / BLOCK :: Linked(h, secret, seed, plain, cipher, i)
  }

  lemma NthShift(s: seq<byte>, i: nat)
    requires BLOCK * (i + 1) + BLOCK <= |s|
    ensures Nth(s[BLOCK..], i) == Nth(s, i + 1)
  {
  }

  /** Dropping the first block of both leaves a chain seeded by the dropped ciphertext block. */
  lemma ChainedStep(h: Hash, secret: seq<byte>, seed: seq<byte>, plain: seq<byte>, cipher: seq<byte>)
    requires |plain| == |cipher| && |plain| % BLOCK == 0 && plain != []
    ensures Chained(h, secret, seed, plain, cipher) <==>
              && cipher[..BLOCK] == XorBlock(plain[..BLOCK], h(secret + seed))
              && Chained(h, secret, cipher[..BLOCK], plain[BLOCK..], cipher[BLOCK..])
  {
    var p, c, first := plain[BLOCK..], cipher[BLOCK..], cipher[..BLOCK];
    assert Nth(cipher, 0) == first && Nth(plain, 0) == plain[..BLOCK];
    XorBlockExactly(plain[..BLOCK], h(secret + seed), first);
    assert Linked(h, secret, seed, plain, cipher, 0) <==> first == XorBlock(plain[..BLOCK], h(secret + seed));
    hide XorsTo, XorBlock;
    forall i: nat | i < |p| / BLOCK
      ensures Linked(h, secret, first, p, c, i) <==> Linked(h, secret, seed, plain, cipher, i + 1)
    {
      NthShift(plain, i);
      NthShift(cipher, i);
      if i > 0 {
        NthShift(cipher, i - 1);
      }
    }
    if Chained(h, secret, first, p, c) && Linked(h, secret, seed, plain, cipher, 0) {
      forall i: nat | i < |plain| / BLOCK ensures Linked(h, secret, seed, plain, cipher, i) {
        if i > 0 {
          var j: nat := i - 1;
          assert Linked(h, secret, first, p, c, j);
        }
      }
    }
  }

  /** `Encipher` is the one ciphertext the chain admits for a plaintext. */
  lemma {:induction false} EncipherExactly(h: Hash, secret: seq<byte>, seed: seq<byte>, plain: seq<byte>,
                                           cipher: seq<byte>)
    requires |plain| % BLOCK == 0
    ensures Chained(h, secret, seed, plain, cipher) <==> cipher == Encipher(h, secret, seed, plain)
    decreases |plain|
  {
    if plain != [] && |plain| == |cipher| {
      hide Chained, XorBlock;
      var first := XorBlock(plain[..BLOCK], h(secret + seed));
      var rest := Encipher(h, secret, first, plain[BLOCK..]);
      assert Encipher(h, secret, seed, plain) == first + rest;
      hide Encipher;
      ChainedStep(h, secret, seed, plain, cipher);
      EncipherExactly(h, secret, cipher[..BLOCK], plain[BLOCK..], cipher[BLOCK..]);
      assert cipher == cipher[..BLOCK] + cipher[BLOCK..];
      Unconcat(first, rest);
    }
  }

  /** `Decipher` is the one plaintext the chain admits for a ciphertext. */
  lemma {:induction false} DecipherExactly(h: Hash, secret: seq<byte>, seed: seq<byte>, plain: seq<byte>,
                                           cipher: seq<byte>)
    requires |cipher| % BLOCK == 0
    ensures Chained(h, secret, seed, plain, cipher) <==> plain == Decipher(h, secret, seed, cipher)
    decreases |cipher|
  {
    if cipher != [] && |plain| == |cipher| {
      hide Chained, XorBlock;
      ChainedStep(h, secret, seed, plain, cipher);
      DecipherExactly(h, secret, cipher[..BLOCK], plain[BLOCK..], cipher[BLOCK..]);
      var key := h(secret + seed);
      XorBlockUndoes(plain[..BLOCK], key);
      XorBlockUndoes(cipher[..BLOCK], key);
      assert plain == plain[..BLOCK] + plain[BLOCK..];
      var whole := Decipher(h, secret, seed, cipher);
      assert whole[..BLOCK] == XorBlock(cipher[..BLOCK], key);
    }
  }

  /** Encryption and decryption are inverse bijections on whole blocks. */
  lemma Inverse(h: Hash, secret: seq<byte>, seed: seq<byte>, s: seq<byte>)
    requires |s| % BLOCK == 0
    ensures Decipher(h, secret, seed, Encipher(h, secret, seed, s)) == s
    ensures Encipher(h, secret, seed, Decipher(h, secret, seed, s)) == s
  {
    var c, p := Encipher(h, secret, seed, s), Decipher(h, secret, seed, s);
    EncipherExactly(h, secret, seed, s, c);
    DecipherExactly(h, secret, seed, s, c);
    DecipherExactly(h, secret, seed, p, s);
    EncipherExactly(h, secret, seed, p, s);
  }

  /** The encryption loop: `b` hashes the block pushed last. */
  method EncryptBlocks(h: Hash, secret: seq<byte>, seed: seq<byte>, plain: seq<byte>) returns (cipher: seq<byte>)
    requires |plain| % BLOCK == 0
    ensures cipher == Encipher(h, secret, seed, plain)
  {
    cipher := [];
    var b := h(secret + seed);
    var rest := plain;
    ghost var prev := seed;
    while rest != []
      invariant |rest| % BLOCK == 0
      invariant if cipher == [] then b == h(secret + seed) && prev == seed
                else |cipher| >= BLOCK && prev == cipher[|cipher| - BLOCK..]
      invariant Encipher(h, secret, seed, plain) == cipher + Encipher(h, secret, prev, rest)
      decreases |rest|
    {
      if cipher != [] {
        b := h(secret + cipher[|cipher| - BLOCK..]);
      }
      var c := XorBlock(rest[..BLOCK], b);
      rest := rest[BLOCK..];
      prev := c;
      Associative(cipher, c, Encipher(h, secret, c, rest));
      Unconcat(cipher, c);
      cipher := cipher + c;
    }
  }

  /** The decryption loop: `b` hashes the ciphertext block read last. */
  method DecryptBlocks(h: Hash, secret: seq<byte>, seed: seq<byte>, cipher: seq<byte>) returns (plain: seq<byte>)
    requires |cipher| % BLOCK == 0
    ensures plain == Decipher(h, secret, seed, cipher)
  {
    plain := [];
    var prev, rest := seed, cipher;
    while rest != []
      invariant |rest| % BLOCK == 0
      invariant Decipher(h, secret, seed, cipher) == plain + Decipher(h, secret, prev, rest)
      decreases |rest|
    {
      var b := h(secret + prev);
      prev := rest[..BLOCK];
      var p := XorBlock(prev, b);
      rest := rest[BLOCK..];
      Associative(plain, p, Decipher(h, secret, prev, rest));
      plain := plain + p;
    }
  }
}
