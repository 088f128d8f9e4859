/**
 * Cipher block chaining (CBC, section 6.2 of NIST SP 800-38A) over an opaque
 * 16-byte block cipher, as in `src/aes_cbc.rs`.
 *
 * AES-128 itself is not modelled: the keyed block cipher is a pair of total
 * functions `E(key, block)` and `D(key, block)` passed in by the caller, and the
 * one property of AES the round trip needs, `D(k, E(k, b)) == b`, is the
 * hypothesis `Inverts(E, D)` of the members that rely on it.
 *
 * Bytes here are `bv8` rather than the `u8` of the text modules, because CBC
 * needs XOR, which Dafny provides on bit-vectors.
 */
module AesCbc {
  import opened Pkcs7

  type byte = bv8

  /** `BLOCK_LEN`, the AES block size in bytes. */
  const BLOCK_LEN: nat := 16

  /** A 16-byte buffer: one cipher block, an IV (`&[u8; 16]`) or an AES-128 key (`&[u8; 16]`). */
  type Block = s: seq<byte> | |s| == BLOCK_LEN witness seq(16, _ => 0)

  /** The single-block cipher under a key, in one direction. */
  type BlockCipher = (Block, Block) -> Block

  ghost predicate Inverts(E: BlockCipher, D: BlockCipher)
  {
    forall k: Block, b: Block :: D(k, E(k, b)) == b
  }

  /** Bytewise XOR of two equal-length sequences. */
  function Xor(a: seq<byte>, b: seq<byte>): (r: seq<byte>)
    requires |a| == |b|
    ensures |r| == |a|
  {
    seq(|a|, i requires 0 <= i < |a| => a[i] ^ b[i])
  }

  /** XOR with the same mask twice gives back the original bytes. */
  lemma XorTwice(a: seq<byte>, b: seq<byte>)
    requires |a| == |b|
    ensures Xor(Xor(a, b), b) == a
  {
    forall i | 0 <= i < |a| ensures Xor(Xor(a, b), b)[i] == a[i] {
      assert Xor(Xor(a, b), b)[i] == (a[i] ^ b[i]) ^ b[i];
    }
  }

  /** Block number `i` of `s`. */
  function BlockAt(s: seq<byte>, i: nat): Block
    requires BLOCK_LEN * i + BLOCK_LEN <= |s|
  {
    s[BLOCK_LEN * i..BLOCK_LEN * i + BLOCK_LEN]
  }

  /** The chaining value for block `i`: the IV for the first block, otherwise ciphertext block `i - 1`. */
  function ChainAt(iv: Block, c: seq<byte>, i: nat): Block
    requires BLOCK_LEN * i <= |c|
  {
    if i == 0 then iv else BlockAt(c, i - 1)
  }

  /**
   * `c` is the CBC encryption of the block-aligned `p`:
   * `c[0] = E(k, p[0] ^ iv)` and `c[i] = E(k, p[i] ^ c[i - 1])`.
   */
  ghost predicate Chained(E: BlockCipher, key: Block, iv: Block, p: seq<byte>, c: seq<byte>)
  {
    |c| == |p| && |p| % BLOCK_LEN == 0 &&
    forall i: nat {:trigger BlockAt(p, i)} | BLOCK_LEN * i + BLOCK_LEN <= |p| ::
      BlockAt(c, i) == E(key, Xor(BlockAt(p, i), ChainAt(iv, c, i)))
  }

  /**
   * `p` is the CBC decryption of the block-aligned `c`:
   * `p[i] = D(k, c[i]) ^ c[i - 1]`, with the IV in place of `c[-1]`.
   */
  ghost predicate Unchained(D: BlockCipher, key: Block, iv: Block, c: seq<byte>, p: seq<byte>)
  {
    |p| == |c| && |c| % BLOCK_LEN == 0 &&
    forall i: nat {:trigger BlockAt(p, i)} | BLOCK_LEN * i + BLOCK_LEN <= |c| ::
      BlockAt(p, i) == Xor(D(key, BlockAt(c, i)), ChainAt(iv, c, i))
  }

  /** What `encrypt` feeds to the chaining loop: the message, PKCS #7 padded only when it is not block-aligned. */
  function PadIfUnaligned(msg: seq<byte>): (r: seq<byte>)
    ensures |r| % BLOCK_LEN == 0
    ensures |msg| % BLOCK_LEN == 0 ==> r == msg
    ensures |msg| % BLOCK_LEN != 0 ==> r == Pkcs7Pad(msg, BLOCK_LEN)
  {
    if |msg| % BLOCK_LEN == 0 then msg else Pkcs7Pad(msg, BLOCK_LEN)
  }

  /** Two sequences of whole blocks that agree block by block are equal. */
  lemma BlocksDetermine(a: seq<byte>, b: seq<byte>)
    requires |a| == |b| && |a| % BLOCK_LEN == 0
    requires forall i: nat | BLOCK_LEN * i + BLOCK_LEN <= |a| :: BlockAt(a, i) == BlockAt(b, i)
    ensures a == b
  {
    forall j | 0 <= j < |a| ensures a[j] == b[j] {
      var i: nat := j / BLOCK_LEN;
      assert BlockAt(a, i)[j - BLOCK_LEN * i] == a[j];
      assert BlockAt(b, i)[j - BLOCK_LEN * i] == b[j];
    }
  }

  /** Blocks lying wholly inside a common prefix are the same. */
  lemma BlockAtPrefix(a: seq<byte>, b: seq<byte>, n: nat, j: nat)
    requires BLOCK_LEN * n <= |a| && BLOCK_LEN * n <= |b|
    requires forall m | 0 <= m < BLOCK_LEN * n :: a[m] == b[m]
    requires j < n
    ensures BlockAt(a, j) == BlockAt(b, j)
  {
  }

  /** The chaining relation determines the ciphertext: CBC encryption is a function of key, IV and plaintext. */
  lemma {:induction false} ChainedUnique(E: BlockCipher, key: Block, iv: Block, p: seq<byte>, c1: seq<byte>, c2: seq<byte>)
    requires Chained(E, key, iv, p, c1) && Chained(E, key, iv, p, c2)
    ensures c1 == c2
  {
    forall i: nat | BLOCK_LEN * i + BLOCK_LEN <= |p| ensures BlockAt(c1, i) == BlockAt(c2, i) {
      ChainedUniqueUpTo(E, key, iv, p, c1, c2, i);
    }
    BlocksDetermine(c1, c2);
  }

  lemma {:induction false} ChainedUniqueUpTo(E: BlockCipher, key: Block, iv: Block, p: seq<byte>, c1: seq<byte>, c2: seq<byte>, i: nat)
    requires Chained(E, key, iv, p, c1) && Chained(E, key, iv, p, c2)
    requires BLOCK_LEN * i + BLOCK_LEN <= |p|
    ensures BlockAt(c1, i) == BlockAt(c2, i)
  {
    if i > 0 {
      ChainedUniqueUpTo(E, key, iv, p, c1, c2, i - 1);
    }
    assert BlockAt(c1, i) == E(key, Xor(BlockAt(p, i), ChainAt(iv, c1, i)));
    assert BlockAt(c2, i) == E(key, Xor(BlockAt(p, i), ChainAt(iv, c2, i)));
  }

  /** The decryption relation determines the plaintext. */
  lemma UnchainedUnique(D: BlockCipher, key: Block, iv: Block, c: seq<byte>, p1: seq<byte>, p2: seq<byte>)
    requires Unchained(D, key, iv, c, p1) && Unchained(D, key, iv, c, p2)
    ensures p1 == p2
  {
    BlocksDetermine(p1, p2);
  }

  /**
   * CBC round trip: with `D` inverting `E` under every key, decrypting a CBC
   * encryption of `p` gives `p` back.
   */
  lemma CbcRoundTrip(E: BlockCipher, D: BlockCipher, key: Block, iv: Block, p: seq<byte>, c: seq<byte>, q: seq<byte>)
    requires Inverts(E, D)
    requires Chained(E, key, iv, p, c)
    requires Unchained(D, key, iv, c, q)
    ensures q == p
  {
    forall i: nat | BLOCK_LEN * i + BLOCK_LEN <= |p| ensures BlockAt(q, i) == BlockAt(p, i) {
      var x := Xor(BlockAt(p, i), ChainAt(iv, c, i));
      assert D(key, BlockAt(c, i)) == x;
      XorTwice(BlockAt(p, i), ChainAt(iv, c, i));
    }
    BlocksDetermine(q, p);
  }

  /** The first `n` blocks of `c` are chained, and the rest of `c` is still plaintext `p`. */
  ghost predicate ChainedUpTo(E: BlockCipher, key: Block, iv: Block, p: seq<byte>, c: seq<byte>, n: nat)
  {
    |c| == |p| && BLOCK_LEN * n <= |p| &&
    (forall m | BLOCK_LEN * n <= m < |p| :: c[m] == p[m]) &&
    forall j: nat {:trigger BlockAt(p, j)} | j < n :: BlockAt(c, j) == E(key, Xor(BlockAt(p, j), ChainAt(iv, c, j)))
  }

  /** The first `n` blocks of `p` are decrypted, and the rest of `p` is still ciphertext `c`. */
  ghost predicate UnchainedUpTo(D: BlockCipher, key: Block, iv: Block, c: seq<byte>, p: seq<byte>, n: nat)
  {
    |p| == |c| && BLOCK_LEN * n <= |c| &&
    (forall m | BLOCK_LEN * n <= m < |c| :: p[m] == c[m]) &&
    forall j: nat {:trigger BlockAt(p, j)} | j < n :: BlockAt(p, j) == Xor(D(key, BlockAt(c, j)), ChainAt(iv, c, j))
  }

  lemma ChainedUpToAll(E: BlockCipher, key: Block, iv: Block, p: seq<byte>, c: seq<byte>)
    requires |p| % BLOCK_LEN == 0 && ChainedUpTo(E, key, iv, p, c, |p| / BLOCK_LEN)
    ensures Chained(E, key, iv, p, c)
  {
  }

  lemma UnchainedUpToAll(D: BlockCipher, key: Block, iv: Block, c: seq<byte>, p: seq<byte>)
    requires |c| % BLOCK_LEN == 0 && UnchainedUpTo(D, key, iv, c, p, |c| / BLOCK_LEN)
    ensures Unchained(D, key, iv, c, p)
  {
  }

  /** One turn of the encryption loop: block `i` is XORed with its chaining value and enciphered. */
  lemma EncryptStep(E: BlockCipher, key: Block, iv: Block, p: seq<byte>, before: seq<byte>, after: seq<byte>, i: nat)
    requires ChainedUpTo(E, key, iv, p, before, i)
    requires BLOCK_LEN * i + BLOCK_LEN <= |p| && |after| == |p|
    requires forall m | 0 <= m < |p| && !(BLOCK_LEN * i <= m < BLOCK_LEN * i + BLOCK_LEN) :: after[m] == before[m]
    requires after[BLOCK_LEN * i..BLOCK_LEN * i + BLOCK_LEN]
      == E(key, Xor(before[BLOCK_LEN * i..BLOCK_LEN * i + BLOCK_LEN], ChainAt(iv, before, i)))
    ensures ChainedUpTo(E, key, iv, p, after, i + 1)
  {
    var lo := BLOCK_LEN * i;
    forall j: nat {:trigger BlockAt(p, j)} | j < i
      ensures BlockAt(after, j) == E(key, Xor(BlockAt(p, j), ChainAt(iv, after, j)))
    {
      BlockAtPrefix(after, before, i, j);
      if j > 0 {
        BlockAtPrefix(after, before, i, j - 1);
      }
    }
    if i > 0 {
      BlockAtPrefix(after, before, i, i - 1);
    }
    assert BlockAt(p, i) == before[lo..lo + BLOCK_LEN];
  }

  /** One turn of the decryption loop: block `i` is deciphered and XORed with its chaining value. */
  lemma DecryptStep(D: BlockCipher, key: Block, iv: Block, c: seq<byte>, before: seq<byte>, after: seq<byte>, i: nat)
    requires UnchainedUpTo(D, key, iv, c, before, i)
    requires BLOCK_LEN * i + BLOCK_LEN <= |c| && |after| == |c|
    requires forall m | 0 <= m < |c| && !(BLOCK_LEN * i <= m < BLOCK_LEN * i + BLOCK_LEN) :: after[m] == before[m]
    requires after[BLOCK_LEN * i..BLOCK_LEN * i + BLOCK_LEN]
      == Xor(D(key, before[BLOCK_LEN * i..BLOCK_LEN * i + BLOCK_LEN]), ChainAt(iv, c, i))
    ensures UnchainedUpTo(D, key, iv, c, after, i + 1)
  {
    var lo := BLOCK_LEN * i;
    forall j: nat {:trigger BlockAt(after, j)} | j < i ensures BlockAt(after, j) == Xor(D(key, BlockAt(c, j)), ChainAt(iv, c, j)) {
      BlockAtPrefix(after, before, i, j);
    }
    assert BlockAt(c, i) == before[lo..lo + BLOCK_LEN];
  }

  /**
   * `xor_in_place(a, b)` on the slice `a[lo..lo + |b|]`: the slice has `b`'s length
   * (the `assert_eq!` of the source), every byte of it becomes `old(a[i]) ^ b[i]`,
   * and nothing outside it changes.
   */
  method XorInPlace(a: array<byte>, lo: nat, b: seq<byte>)
    requires lo + |b| <= a.Length
    modifies a
    ensures forall i | 0 <= i < a.Length && !(lo <= i < lo + |b|) :: a[i] == old(a[i])
    ensures forall i | 0 <= i < |b| :: a[lo + i] == old(a[lo + i]) ^ b[i]
  {
    for j := 0 to |b|
      invariant forall i | 0 <= i < j :: a[lo + i] == old(a[lo + i]) ^ b[i]
      invariant forall i | 0 <= i < a.Length && !(lo <= i < lo + j) :: a[i] == old(a[i])
    {
      a[lo + j] := a[lo + j] ^ b[j];
    }
  }

  /**
   * `cipher.encrypt_block(chunk)` / `cipher.decrypt_block(chunk)`: the block at
   * `a[lo..lo + 16]` is replaced by its image under `f`.
   */
  method CipherInPlace(f: Block -> Block, a: array<byte>, lo: nat)
    requires lo + BLOCK_LEN <= a.Length
    modifies a
    ensures forall i | 0 <= i < a.Length && !(lo <= i < lo + BLOCK_LEN) :: a[i] == old(a[i])
    ensures a[lo..lo + BLOCK_LEN] == f(old(a[lo..lo + BLOCK_LEN]))
  {
    var out := f(a[lo..lo + BLOCK_LEN]);
    for j := 0 to BLOCK_LEN
      invariant forall i | 0 <= i < j :: a[lo + i] == out[i]
      invariant forall i | 0 <= i < a.Length && !(lo <= i < lo + j) :: a[i] == old(a[i])
    {
      a[lo + j] := out[j];
    }
  }

  /**
   * One turn of `encrypt`'s loop on chunk `i` of `buf`: XOR with `last` (the IV
   * for the first chunk, else the chunk just enciphered), then `encrypt_block`.
   */
  method EncryptChunk(E: BlockCipher, key: Block, iv: Block, p: seq<byte>, buf: array<byte>, i: nat)
    requires ChainedUpTo(E, key, iv, p, buf[..], i)
    requires BLOCK_LEN * i + BLOCK_LEN <= buf.Length
    modifies buf
    ensures ChainedUpTo(E, key, iv, p, buf[..], i + 1)
  {
    ghost var before := buf[..];
    var lo := BLOCK_LEN * i;
    var last: Block := if i == 0 then iv else buf[lo - BLOCK_LEN..lo];
    assert last == ChainAt(iv, before, i);
    XorInPlace(buf, lo, last);
    assert buf[lo..lo + BLOCK_LEN] == Xor(before[lo..lo + BLOCK_LEN], last);
    CipherInPlace(b => E(key, b), buf, lo);
    EncryptStep(E, key, iv, p, before, buf[..], i);
  }

  /**
   * One turn of `decrypt`'s loop on chunk `i` of `buf`: `decrypt_block`, then XOR
   * with `last`, the IV for the first chunk and chunk `i - 1` of the original
   * message `c` otherwise.
   */
  method DecryptChunk(D: BlockCipher, key: Block, iv: Block, c: seq<byte>, buf: array<byte>, i: nat)
    requires UnchainedUpTo(D, key, iv, c, buf[..], i)
    requires BLOCK_LEN * i + BLOCK_LEN <= buf.Length
    modifies buf
    ensures UnchainedUpTo(D, key, iv, c, buf[..], i + 1)
  {
    ghost var before := buf[..];
    var lo := BLOCK_LEN * i;
    var last: Block := if i == 0 then iv else c[lo - BLOCK_LEN..lo];
    assert last == ChainAt(iv, c, i);
    CipherInPlace(b => D(key, b), buf, lo);
    ghost var mid := buf[..];
    XorInPlace(buf, lo, last);
    assert buf[lo..lo + BLOCK_LEN] == Xor(mid[lo..lo + BLOCK_LEN], last);
    DecryptStep(D, key, iv, c, before, buf[..], i);
  }

  /**
   * `encrypt(key, iv, msg)`: an empty message gives an empty result; otherwise a
   * copy of the message, padded only if it is not block-aligned, is chained
   * forward in place.
   */
  method Encrypt(E: BlockCipher, key: Block, iv: Block, msg: seq<byte>) returns (result: seq<byte>)
    ensures msg == [] ==> result == []
    ensures Chained(E, key, iv, PadIfUnaligned(msg), result)
    ensures |msg| % BLOCK_LEN == 0 ==> |result| == |msg|
    ensures |msg| % BLOCK_LEN != 0 ==> |msg| < |result| < |msg| + BLOCK_LEN && |result| % BLOCK_LEN == 0
  {
    if |msg| == 0 {
      return [];
    }
    var padded := msg;
    if |padded| % BLOCK_LEN != 0 {
      padded := Pkcs7Pad(padded, BLOCK_LEN);
    }
    var buf := new byte[|padded|](j requires 0 <= j < |padded| => padded[j]);
    assert buf[..] == padded;
    var blocks := buf.Length / BLOCK_LEN;
    EncryptChunk(E, key, iv, padded, buf, 0);
    var i := 1;
    while i < blocks
      invariant 1 <= i <= blocks
      invariant ChainedUpTo(E, key, iv, padded, buf[..], i)
    {
      EncryptChunk(E, key, iv, padded, buf, i);
      i := i + 1;
    }
    ChainedUpToAll(E, key, iv, padded, buf[..]);
    result := buf[..];
  }

  /**
   * `decrypt(key, iv, msg)`: the message must be block-aligned (the source's
   * `assert_eq!`); each block of a copy is decrypted in place and XORed with the
   * previous block of the ORIGINAL message (the IV for the first). Padding is
   * not stripped.
   */
  method Decrypt(D: BlockCipher, key: Block, iv: Block, msg: seq<byte>) returns (result: seq<byte>)
    requires |msg| % BLOCK_LEN == 0
    ensures msg == [] ==> result == []
    ensures Unchained(D, key, iv, msg, result)
  {
    if |msg| == 0 {
      return [];
    }
    var buf := new byte[|msg|](j requires 0 <= j < |msg| => msg[j]);
    assert buf[..] == msg;
    var blocks := buf.Length / BLOCK_LEN;
    var i := 0;
    while i < blocks
      invariant 0 <= i <= blocks
      invariant UnchainedUpTo(D, key, iv, msg, buf[..], i)
    {
      DecryptChunk(D, key, iv, msg, buf, i);
      i := i + 1;
    }
    UnchainedUpToAll(D, key, iv, msg, buf[..]);
    result := buf[..];
  }

  /**
   * What the doc comment "does not strip padding" promises a caller of both
   * functions: decrypting an encryption gives back the message when it was
   * block-aligned and its PKCS #7 padding otherwise.
   */
  method EncryptThenDecrypt(E: BlockCipher, D: BlockCipher, key: Block, iv: Block, msg: seq<byte>) returns (plain: seq<byte>)
    requires Inverts(E, D)
    ensures |msg| % BLOCK_LEN == 0 ==> plain == msg
    ensures |msg| % BLOCK_LEN != 0 ==> plain == Pkcs7Pad(msg, BLOCK_LEN)
  {
    var c := Encrypt(E, key, iv, msg);
    plain := Decrypt(D, key, iv, c);
    CbcRoundTrip(E, D, key, iv, PadIfUnaligned(msg), c, plain);
  }
}
