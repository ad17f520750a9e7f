/** AES-CBC as crypto/control_stream.go uses it: one stream per direction of a
    control connection, whose initialisation vector is the last ciphertext block of
    the previous message (section 3.4 of RFC 4656).

    AES and HMAC-SHA1 are functions supplied from outside; of AES only "decryption
    undoes encryption, block by block" is used, of the MAC nothing at all. */
module CbcStream {
  import opened Bytes

  type Block = b: bytes | |b| == 16 witness Zeros(16)

  datatype Primitives = Primitives(
    encrypt: (Block, Block) -> Block,
    decrypt: (Block, Block) -> Block,
    mac: (bytes, bytes) -> Block)
  {
    ghost predicate DecryptInverts() {
      forall k, b :: decrypt(k, encrypt(k, b)) == b
    }
  }

  /** Exclusive or, bit by bit. */
  function XorBits(a: nat, b: nat, width: nat): (r: nat)
    decreases width
  {
    if width == 0 then 0 else (a % 2 + b % 2) % 2 + 2 * XorBits(a / 2, b / 2, width - 1)
  }

  lemma {:induction false} XorBitsInverse(a: nat, b: nat, c: nat, width: nat)
    requires c == XorBits(a, b, width)
    ensures c < Pow2(width)
    ensures a < Pow2(width) ==> XorBits(c, b, width) == a
    decreases width
  {
    if width != 0 {
      var x, y := a % 2, b % 2;
      assert ((x + y) % 2 + y) % 2 == x;
      assert c % 2 == (x + y) % 2 && c / 2 == XorBits(a / 2, b / 2, width - 1);
      XorBitsInverse(a / 2, b / 2, c / 2, width - 1);
    }
  }

  function Bit(a: nat, k: nat): nat {
    if k == 0 then a % 2 else Bit(a / 2, k - 1)
  }

  lemma XorHalves(a: nat, b: nat, width: nat)
    requires width > 0
    ensures XorBits(a, b, width) % 2 == if a % 2 == b % 2 then 0 else 1
    ensures XorBits(a, b, width) / 2 == XorBits(a / 2, b / 2, width - 1)
  {
    var x, y := a % 2, b % 2;
    assert (x + y) % 2 == if x == y then 0 else 1;
  }

  /** Each bit of the result is 1 exactly when the two bits differ. */
  lemma {:induction false} XorBitwise(a: nat, b: nat, width: nat, k: nat)
    requires k < width
    ensures Bit(XorBits(a, b, width), k) == if Bit(a, k) == Bit(b, k) then 0 else 1
  {
    hide XorBits;
    XorHalves(a, b, width);
    if k > 0 {
      XorBitwise(a / 2, b / 2, width - 1, k - 1);
    }
  }

  function Pow2(n: nat): nat {
    if n == 0 then 1 else 2 * Pow2(n - 1)
  }

  function XorByte(a: uint8, b: uint8): uint8 {
    XorBitsInverse(a, b, XorBits(a, b, 8), 8);
    assert Pow2(8) == 0x100;
    XorBits(a, b, 8)
  }

  function Xor(a: Block, b: Block): Block {
    seq(16, i requires 0 <= i < 16 => XorByte(a[i], b[i]))
  }

  lemma XorInverse(a: Block, b: Block)
    ensures Xor(Xor(a, b), b) == a
  {
    forall i | 0 <= i < 16 ensures Xor(Xor(a, b), b)[i] == a[i] {
      assert Pow2(8) == 0x100;
      XorBitsInverse(a[i], b[i], XorByte(a[i], b[i]), 8);
    }
  }

  predicate Aligned(s: bytes) {
    |s| % 16 == 0
  }

  function CbcEncrypt(p: Primitives, key: Block, iv: Block, plain: bytes): (cipher: bytes)
    requires Aligned(plain)
    ensures |cipher| == |plain|
    decreases |plain|
  {
    if plain == [] then [] else
      var b: Block := p.encrypt(key, Xor(plain[..16], iv));
      b + CbcEncrypt(p, key, b, plain[16..])
  }

  function CbcDecrypt(p: Primitives, key: Block, iv: Block, cipher: bytes): (plain: bytes)
    requires Aligned(cipher)
    ensures |plain| == |cipher|
    decreases |cipher|
  {
    if cipher == [] then [] else
      Xor(p.decrypt(key, cipher[..16]), iv) + CbcDecrypt(p, key, cipher[..16], cipher[16..])
  }

  /** The vector a stream carries on after a piece of ciphertext. */
  function NextIV(iv: Block, cipher: bytes): Block
    requires Aligned(cipher)
  {
    if cipher == [] then iv else cipher[|cipher| - 16..]
  }

  lemma EncryptFirst(p: Primitives, key: Block, iv: Block, first: Block, rest: bytes)
    requires Aligned(rest)
    ensures var c: Block := p.encrypt(key, Xor(first, iv));
            CbcEncrypt(p, key, iv, first + rest) == c + CbcEncrypt(p, key, c, rest)
  {
    hide Xor;
    assert (first + rest)[..16] == first && (first + rest)[16..] == rest;
  }

  lemma DecryptFirst(p: Primitives, key: Block, iv: Block, c: Block, rest: bytes)
    requires Aligned(rest)
    ensures CbcDecrypt(p, key, iv, c + rest) == Xor(p.decrypt(key, c), iv) + CbcDecrypt(p, key, c, rest)
    ensures NextIV(iv, c + rest) == NextIV(c, rest)
  {
    hide Xor;
    assert (c + rest)[..16] == c && (c + rest)[16..] == rest;
  }

  function BlockAt(s: bytes, i: nat): Block
    requires 16 * i + 16 <= |s|
  {
    s[16 * i..16 * i + 16]
  }

  lemma BlockLater(s: bytes, i: nat)
    requires i > 0 && 16 * i + 16 <= |s|
    ensures BlockAt(s, i) == BlockAt(s[16..], i - 1)
  {
  }

  /** Block by block: the i-th ciphertext block encrypts the i-th plaintext block combined
      with the ciphertext block before it, the first with the vector. */
  lemma {:induction false} CipherBlock(p: Primitives, key: Block, iv: Block, plain: bytes, i: nat)
    requires Aligned(plain) && 16 * i < |plain|
    ensures var c := CbcEncrypt(p, key, iv, plain);
            BlockAt(c, i) == p.encrypt(key, Xor(BlockAt(plain, i), if i == 0 then iv else BlockAt(c, i - 1)))
    decreases |plain|
  {
    hide Xor, CbcEncrypt, BlockAt;
    var first: Block, rest := plain[..16], plain[16..];
    var b: Block := p.encrypt(key, Xor(first, iv));
    assert plain == first + rest;
    EncryptFirst(p, key, iv, first, rest);
    var c := CbcEncrypt(p, key, iv, plain);
    assert c[16..] == CbcEncrypt(p, key, b, rest);
    FirstBlocks(c, b, plain, first);
    if i > 0 {
      CipherBlock(p, key, b, rest, i - 1);
      BlockLater(c, i);
      BlockLater(plain, i);
    }
    if i > 1 {
      BlockLater(c, i - 1);
    }
  }

  lemma FirstBlocks(c: bytes, b: Block, plain: bytes, first: Block)
    requires |c| >= 16 && |plain| >= 16 && c[..16] == b && plain[..16] == first
    ensures BlockAt(c, 0) == b && BlockAt(plain, 0) == first
  {
  }

  lemma {:induction false} DecryptEncrypt(p: Primitives, key: Block, iv: Block, plain: bytes)
    requires p.DecryptInverts() && Aligned(plain)
    ensures CbcDecrypt(p, key, iv, CbcEncrypt(p, key, iv, plain)) == plain
    decreases |plain|
  {
    if plain != [] {
      hide CbcEncrypt, CbcDecrypt, Xor;
      var first: Block, rest := plain[..16], plain[16..];
      var x := Xor(first, iv);
      var c: Block := p.encrypt(key, x);
      assert plain == first + rest;
      EncryptFirst(p, key, iv, first, rest);
      DecryptFirst(p, key, iv, c, CbcEncrypt(p, key, c, rest));
      XorInverse(first, iv);
      assert p.decrypt(key, p.encrypt(key, x)) == x;
      DecryptEncrypt(p, key, c, rest);
    }
  }

  lemma {:induction false} EncryptConcat(p: Primitives, key: Block, iv: Block, a: bytes, b: bytes)
    requires Aligned(a) && Aligned(b)
    ensures var c := CbcEncrypt(p, key, iv, a);
            CbcEncrypt(p, key, iv, a + b) == c + CbcEncrypt(p, key, NextIV(iv, c), b)
    decreases |a|
  {
    if a == [] {
      assert a + b == b;
    } else {
      hide CbcEncrypt, NextIV, Xor;
      var first: Block, rest := a[..16], a[16..];
      var c: Block := p.encrypt(key, Xor(first, iv));
      assert a == first + rest && a + b == first + (rest + b);
      EncryptFirst(p, key, iv, first, rest + b);
      EncryptFirst(p, key, iv, first, rest);
      EncryptConcat(p, key, c, rest, b);
      var e := CbcEncrypt(p, key, c, rest);
      DecryptFirst(p, key, iv, c, e);
      Associates(c, e, CbcEncrypt(p, key, NextIV(c, e), b));
    }
  }

  lemma Associates(a: bytes, b: bytes, c: bytes)
    ensures a + (b + c) == (a + b) + c
  {
  }

  lemma {:induction false} DecryptConcat(p: Primitives, key: Block, iv: Block, a: bytes, b: bytes)
    requires Aligned(a) && Aligned(b)
    ensures CbcDecrypt(p, key, iv, a + b) == CbcDecrypt(p, key, iv, a) + CbcDecrypt(p, key, NextIV(iv, a), b)
    decreases |a|
  {
    if a == [] {
      assert a + b == b;
    } else {
      hide CbcDecrypt, NextIV, Xor;
      var c: Block, rest := a[..16], a[16..];
      assert a == c + rest && a + b == c + (rest + b);
      DecryptFirst(p, key, iv, c, rest + b);
      DecryptFirst(p, key, iv, c, rest);
      DecryptConcat(p, key, c, rest, b);
      Associates(Xor(p.decrypt(key, c), iv), CbcDecrypt(p, key, c, rest), CbcDecrypt(p, key, NextIV(c, rest), b));
    }
  }

  // ---- Messages sent one by one, pieces received as they come ----

  function Flatten(parts: seq<bytes>): bytes {
    if parts == [] then [] else parts[0] + Flatten(parts[1..])
  }

  predicate AllAligned(parts: seq<bytes>) {
    forall i :: 0 <= i < |parts| ==> Aligned(parts[i])
  }

  function EncryptEach(p: Primitives, key: Block, iv: Block, parts: seq<bytes>): (out: seq<bytes>)
    requires AllAligned(parts)
    ensures |out| == |parts|
    decreases |parts|
  {
    if parts == [] then [] else
      var c := CbcEncrypt(p, key, iv, parts[0]);
      [c] + EncryptEach(p, key, NextIV(iv, c), parts[1..])
  }

  function DecryptEach(p: Primitives, key: Block, iv: Block, parts: seq<bytes>): (out: seq<bytes>)
    requires AllAligned(parts)
    ensures |out| == |parts|
    decreases |parts|
  {
    if parts == [] then [] else
      [CbcDecrypt(p, key, iv, parts[0])] + DecryptEach(p, key, NextIV(iv, parts[0]), parts[1..])
  }

  lemma {:induction false} FlattenAligned(parts: seq<bytes>)
    requires AllAligned(parts)
    ensures Aligned(Flatten(parts))
  {
    if parts != [] {
      FlattenAligned(parts[1..]);
    }
  }

  lemma {:induction false} EncryptEachIsOneShot(p: Primitives, key: Block, iv: Block, parts: seq<bytes>)
    requires AllAligned(parts)
    ensures Aligned(Flatten(parts))
    ensures Flatten(EncryptEach(p, key, iv, parts)) == CbcEncrypt(p, key, iv, Flatten(parts))
    decreases |parts|
  {
    FlattenAligned(parts);
    if parts != [] {
      FlattenAligned(parts[1..]);
      var c := CbcEncrypt(p, key, iv, parts[0]);
      EncryptEachIsOneShot(p, key, NextIV(iv, c), parts[1..]);
      EncryptConcat(p, key, iv, parts[0], Flatten(parts[1..]));
      FlattenCons(c, EncryptEach(p, key, NextIV(iv, c), parts[1..]));
    }
  }

  lemma {:induction false} DecryptEachIsOneShot(p: Primitives, key: Block, iv: Block, parts: seq<bytes>)
    requires AllAligned(parts)
    ensures Aligned(Flatten(parts))
    ensures Flatten(DecryptEach(p, key, iv, parts)) == CbcDecrypt(p, key, iv, Flatten(parts))
    decreases |parts|
  {
    FlattenAligned(parts);
    if parts != [] {
      FlattenAligned(parts[1..]);
      DecryptEachIsOneShot(p, key, NextIV(iv, parts[0]), parts[1..]);
      DecryptConcat(p, key, iv, parts[0], Flatten(parts[1..]));
      FlattenCons(CbcDecrypt(p, key, iv, parts[0]), DecryptEach(p, key, NextIV(iv, parts[0]), parts[1..]));
    }
  }

  lemma FlattenCons(x: bytes, parts: seq<bytes>)
    ensures Flatten([x] + parts) == x + Flatten(parts)
  {
    assert ([x] + parts)[1..] == parts;
  }

  /** However the receiver cuts up the ciphertext of a list of messages, block by
      block, message by message or otherwise, it decrypts to what was sent. */
  lemma RechunkedStream(p: Primitives, key: Block, iv: Block, sent: seq<bytes>, pieces: seq<bytes>)
    requires p.DecryptInverts() && AllAligned(sent) && AllAligned(pieces)
    requires Flatten(pieces) == Flatten(EncryptEach(p, key, iv, sent))
    ensures Flatten(DecryptEach(p, key, iv, pieces)) == Flatten(sent)
  {
    EncryptEachIsOneShot(p, key, iv, sent);
    DecryptEachIsOneShot(p, key, iv, pieces);
    DecryptEncrypt(p, key, iv, Flatten(sent));
  }

  /** crypto.CBCStream. */
  class CBCStream {
    const prims: Primitives
    const key: Block
    var iv: Block

    constructor (prims: Primitives, key: Block, iv: Block)
      ensures this.prims == prims && this.key == key && this.iv == iv
    {
      this.prims, this.key, this.iv := prims, key, iv;
    }

    method Encrypt(plain: bytes) returns (r: Result<bytes>)
      modifies this`iv
      ensures plain == [] || !Aligned(plain) ==> r == Err(InvalidBlockSize) && iv == old(iv)
      ensures plain != [] && Aligned(plain) ==>
                && r == Ok(CbcEncrypt(prims, key, old(iv), plain))
                && iv == NextIV(old(iv), r.value)
    {
      if |plain| == 0 || |plain| % 16 != 0 {
        return Err(InvalidBlockSize);
      }
      var cipher := CbcEncrypt(prims, key, iv, plain);
      iv := cipher[|cipher| - 16..];
      return Ok(cipher);
    }

    method Decrypt(cipher: bytes) returns (r: Result<bytes>)
      modifies this`iv
      ensures cipher == [] || !Aligned(cipher) ==> r == Err(InvalidBlockSize) && iv == old(iv)
      ensures cipher != [] && Aligned(cipher) ==>
                && r == Ok(CbcDecrypt(prims, key, old(iv), cipher))
                && iv == NextIV(old(iv), cipher)
    {
      if |cipher| == 0 || |cipher| % 16 != 0 {
        return Err(InvalidBlockSize);
      }
      var plain := CbcDecrypt(prims, key, iv, cipher);
      iv := cipher[|cipher| - 16..];
      return Ok(plain);
    }
  }
}
