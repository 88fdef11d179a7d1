/**
 What the HMAC model guarantees: it computes the MAC of section 2 of RFC 2104,
 streaming equals batch, finalisation leaves the session reusable, copies
 agree with their original, oversized keys collapse to their digest, and the
 one-shot path agrees with the session path.
 */
module HmacProperties {
  import opened Base
  import opened Hashing
  import opened Hmac

  /**
   The MAC of section 2 of RFC 2104, written from the RFC and independently of
   the session model: K0 is the key (hashed first if longer than B bytes)
   followed by zeros up to B bytes, and the result is
   H((K0 XOR opad) || H((K0 XOR ipad) || text)).
   */
  function Rfc2104(alg: Hash, b: nat, key: seq<byte>, text: seq<byte>): (mac: seq<byte>)
    requires alg.Conforming() && alg.digestSize <= b
    ensures |mac| == alg.digestSize
  {
    var k := if |key| > b then alg.H(key) else key;
    var k0 := k + seq(b - |k|, _ => 0 as byte);
    var ipadKey := seq(b, i requires 0 <= i < b => k0[i] ^ 0x36);
    var opadKey := seq(b, i requires 0 <= i < b => k0[i] ^ 0x5C);
    alg.H(opadKey + alg.H(ipadKey + text))
  }

  /** The block size a session built over `alg` uses. */
  function SessionBlockSize(alg: Hash): nat {
    ResolveBlockSize(alg.blockSize).size
  }

  /** The RFC's assumption that a digest fits in one block, at the session's block size. */
  ghost predicate Fits(alg: Hash) {
    alg.Conforming() && alg.digestSize <= SessionBlockSize(alg)
  }

  /** The session's padded key is the RFC's K0. */
  lemma NormalizeKeyIsK0(alg: Hash, b: nat, key: seq<byte>)
    requires alg.Conforming() && alg.digestSize <= b
    ensures var k := if |key| > b then alg.H(key) else key;
            NormalizeKey(alg, b, key) == k + seq(b - |k|, _ => 0 as byte)
  {
    var k := if |key| > b then alg.H(key) else key;
    assert |k| <= b;
    assert Zeros(b - |k|) == seq(b - |k|, _ => 0 as byte);
  }

  /**
   A freshly built session, fed `msg`, digests to exactly the RFC 2104 MAC of
   `msg` under `key`.
   */
  lemma SessionComputesRfc2104(key: seq<byte>, msg: seq<byte>, alg: Hash)
    requires Fits(alg)
    ensures Digest(Init(key, Some(msg), alg).session)
         == Rfc2104(alg, SessionBlockSize(alg), key, msg)
  {
    var b := SessionBlockSize(alg);
    var s := Init(key, Some(msg), alg).session;
    var k0 := NormalizeKey(alg, b, key);
    NormalizeKeyIsK0(alg, b, key);
    assert XorPad(k0, IPad) == seq(b, i requires 0 <= i < b => k0[i] ^ 0x36);
    assert XorPad(k0, OPad) == seq(b, i requires 0 <= i < b => k0[i] ^ 0x5C);
  }

  /** Feeding several chunks to `update`, in order. */
  function Feed(s: Session, chunks: seq<seq<byte>>): (r: Session)
    ensures r.outer == s.outer && r.alg == s.alg && r.blockSize == s.blockSize
    decreases |chunks|
  {
    if |chunks| == 0 then s else Feed(Update(s, chunks[0]), chunks[1..])
  }

  /** All chunks joined into one message. */
  function Concat(chunks: seq<seq<byte>>): (m: seq<byte>)
  {
    if |chunks| == 0 then [] else chunks[0] + Concat(chunks[1..])
  }

  /** `update(m1); update(m2)` is `update(m1 + m2)`. */
  lemma UpdateUpdate(s: Session, m1: seq<byte>, m2: seq<byte>)
    ensures Update(Update(s, m1), m2) == Update(s, m1 + m2)
  {
    assert s.inner.fed + m1 + m2 == s.inner.fed + (m1 + m2);
  }

  /** Any sequence of `update` calls is one `update` of their concatenation. */
  lemma {:induction false} FeedIsOneUpdate(s: Session, chunks: seq<seq<byte>>)
    ensures Feed(s, chunks) == Update(s, Concat(chunks))
    decreases |chunks|
  {
    if |chunks| == 0 {
      assert s.inner.fed + [] == s.inner.fed;
      assert s.(inner := s.inner.Update([])) == s;
    } else {
      FeedIsOneUpdate(Update(s, chunks[0]), chunks[1..]);
      UpdateUpdate(s, chunks[0], Concat(chunks[1..]));
    }
  }

  /** Constructing with `msg` is constructing without one and then calling `update(msg)`. */
  lemma InitWithMessage(key: seq<byte>, msg: seq<byte>, alg: Hash)
    ensures Init(key, Some(msg), alg).session == Update(Init(key, None, alg).session, msg)
    ensures Init(key, Some(msg), alg).warning == Init(key, None, alg).warning
  {
  }

  /**
   Streaming equals batch: a session built without a message and fed any
   chunks digests to the RFC 2104 MAC of their concatenation.
   */
  lemma StreamingDigest(key: seq<byte>, chunks: seq<seq<byte>>, alg: Hash)
    requires Fits(alg)
    ensures Digest(Feed(Init(key, None, alg).session, chunks))
         == Rfc2104(alg, SessionBlockSize(alg), key, Concat(chunks))
  {
    FeedIsOneUpdate(Init(key, None, alg).session, chunks);
    InitWithMessage(key, Concat(chunks), alg);
    SessionComputesRfc2104(key, Concat(chunks), alg);
  }

  /**
   Finalisation does not disturb the session: a digest taken mid-stream is
   the MAC of the prefix, and after more updates the digest is the MAC of
   everything fed.
   */
  lemma DigestThenContinue(key: seq<byte>, m1: seq<byte>, m2: seq<byte>, alg: Hash)
    requires Fits(alg)
    ensures var s := Init(key, Some(m1), alg).session;
            && Digest(s) == Rfc2104(alg, SessionBlockSize(alg), key, m1)
            && Digest(Update(s, m2)) == Rfc2104(alg, SessionBlockSize(alg), key, m1 + m2)
  {
    var s := Init(key, Some(m1), alg).session;
    SessionComputesRfc2104(key, m1, alg);
    InitWithMessage(key, m1, alg);
    UpdateUpdate(Init(key, None, alg).session, m1, m2);
    InitWithMessage(key, m1 + m2, alg);
    SessionComputesRfc2104(key, m1 + m2, alg);
  }

  /**
   A copy digests like its original, now and after any common further input;
   the copy made as written differs from its original only in lacking
   `block_size`.
   */
  lemma CopyAgrees(s: Session, more: seq<byte>)
    ensures Copy(s) == s
    ensures CopyAsWritten(s) == s.(blockSize := None)
    ensures Digest(CopyAsWritten(s)) == Digest(s)
    ensures Digest(Update(CopyAsWritten(s), more)) == Digest(Update(s, more))
  {
  }

  /**
   Oversized-key collapse: a key longer than the block size gives the same
   session as its digest used as the key.
   */
  lemma OversizedKeyCollapse(key: seq<byte>, msg: Option<seq<byte>>, alg: Hash)
    requires Fits(alg)
    requires |key| > SessionBlockSize(alg)
    ensures Init(key, msg, alg) == Init(alg.H(key), msg, alg)
  {
    var b := SessionBlockSize(alg);
    assert |alg.H(key)| <= b;
    assert NormalizeKey(alg, b, key) == NormalizeKey(alg, b, alg.H(key));
  }

  /**
   Zero padding makes a short key and the same key with a zero byte appended
   interchangeable.
   */
  lemma TrailingZeroKey(key: seq<byte>, msg: Option<seq<byte>>, alg: Hash)
    requires |key| < SessionBlockSize(alg)
    ensures Init(key + [0], msg, alg) == Init(key, msg, alg)
  {
    var b := SessionBlockSize(alg);
    var k1 := NormalizeKey(alg, b, key + [0]);
    var k2 := NormalizeKey(alg, b, key);
    assert |k1| == |k2| == b;
    forall i | 0 <= i < b
      ensures k1[i] == k2[i]
    {
      if i < |key| {
        assert k1[i] == (key + [0])[i] == key[i];
      }
    }
    assert k1 == k2;
  }

  /**
   `name` is fixed by the hash alone: a session reports `hmac-` and the name
   of the hash it was built over, whatever the key and message, and keeps it
   through `update` and `copy`.
   */
  lemma NameFollowsHash(key: seq<byte>, msg: Option<seq<byte>>, alg: Hash, more: seq<byte>)
    ensures var s := Init(key, msg, alg).session;
            && Name(s) == "hmac-" + alg.name
            && Name(Update(s, more)) == Name(s)
            && Name(Copy(s)) == Name(s)
            && Name(CopyAsWritten(s)) == Name(s)
  {
  }

  /** Two sessions report the same `name` exactly when they run hashes of the same name. */
  lemma NameIdentifiesHash(k1: seq<byte>, m1: Option<seq<byte>>, a1: Hash,
                           k2: seq<byte>, m2: Option<seq<byte>>, a2: Hash)
    ensures Name(Init(k1, m1, a1).session) == Name(Init(k2, m2, a2).session) <==> a1.name == a2.name
  {
    var n1, n2 := Name(Init(k1, m1, a1).session), Name(Init(k2, m2, a2).session);
    if n1 == n2 {
      assert n1[5..] == a1.name && n2[5..] == a2.name;
    }
  }

  /**
   Construction errors do not depend on the message: they are raised before
   any hash object is created or fed.
   */
  lemma ErrorsPrecedeSeeding(key: KeyArg, m1: Option<seq<byte>>, m2: Option<seq<byte>>, digestmod: Option<Hash>)
    requires New(key, m1, digestmod).Failure?
    ensures New(key, m2, digestmod) == New(key, m1, digestmod)
  {
  }

  /** Digests have `digest_size` bytes and `hexdigest` is twice as long and decodes to them. */
  lemma DigestSizes(key: seq<byte>, msg: Option<seq<byte>>, alg: Hash)
    requires alg.Conforming()
    ensures var s := Init(key, msg, alg).session;
            && |Digest(s)| == s.digestSize == alg.digestSize
            && |HexDigest(s)| == 2 * alg.digestSize
  {
  }

  // ---------------------------------------------------------------------
  // The one-shot path
  // ---------------------------------------------------------------------

  /**
   The one-shot `digest` as written agrees with `new(key, msg, h).digest()`
   whenever the hash has no `block_size` or one of at least 16.
   */
  lemma OneShotAsWrittenAgrees(key: seq<byte>, msg: seq<byte>, alg: Hash)
    requires alg.blockSize.None? || alg.blockSize.value >= MinBlockSize
    ensures OneShotAsWritten(key, msg, alg) == Digest(Init(key, Some(msg), alg).session)
  {
    assert OneShotBlockSizeAsWritten(alg) == SessionBlockSize(alg);
    assert OneShotAsWritten(key, msg, alg) == OneShot(key, msg, alg);
  }

  /** A hash whose digest is a single byte, equal to the length of its input when that is below 256. */
  ghost predicate CountsLength(h: Hash) {
    forall m :: |h.H(m)| == 1 && (|m| < 256 ==> h.H(m)[0] as nat == |m|)
  }

  /** Such a hash, declaring an 8-byte block. */
  function TinyBlockHash(): (h: Hash)
    ensures h.Conforming() && CountsLength(h) && h.blockSize == Some(8)
  {
    Hash("tiny", m => if |m| < 256 then [ToByte(|m|)] else [0], 1, Some(8))
  }

  /**
   The one-shot steps for block size `b` compute
   H((K XOR opad) || H((K XOR ipad) || msg)) for the key `K` normalised to `b`.
   */
  lemma OneShotWithClosedForm(b: int, key: seq<byte>, msg: seq<byte>, alg: Hash)
    ensures var k0 := NormalizeKey(alg, b, key);
            OneShotWith(b, key, msg, alg) == alg.H(XorPad(k0, OPad) + alg.H(XorPad(k0, IPad) + msg))
  {
    var k0 := NormalizeKey(alg, b, key);
    TranslateIsXor(k0);
    assert [] + XorPad(k0, IPad) + msg == XorPad(k0, IPad) + msg;
    assert [] + XorPad(k0, OPad) == XorPad(k0, OPad);
  }

  /**
   The one-shot path as written with a declared block size `b` below 16 and
   the empty key: for `b >= 0` the key is padded to `b` bytes, so the outer
   hash sees `b + 1` bytes; for `b < 0` the empty key counts as longer than
   the block, is replaced by its one-byte digest and is not padded, so the
   outer hash sees 2 bytes.
   */
  lemma SmallBlockOneShot(h: Hash, b: int)
    requires CountsLength(h) && h.blockSize == Some(b) && b < MinBlockSize
    ensures |OneShotAsWritten([], [], h)| == 1
    ensures OneShotAsWritten([], [], h)[0] as nat == if b >= 0 then b + 1 else 2
  {
    var k0 := NormalizeKey(h, b, []);
    var seed := XorPad(k0, IPad);
    OneShotWithClosedForm(b, [], [], h);
    assert seed + [] == seed;
    assert |k0| == if b >= 0 then b else 1;
    assert |XorPad(k0, OPad) + h.H(seed)| == if b >= 0 then b + 1 else 2;
  }

  /**
   The session replaces a declared block size below 16 by 64, so its outer
   hash sees 65 bytes.
   */
  lemma SmallBlockSession(h: Hash)
    requires CountsLength(h) && h.blockSize.Some? && h.blockSize.value < MinBlockSize
    ensures |Digest(Init([], Some([]), h).session)| == 1
    ensures Digest(Init([], Some([]), h).session)[0] as nat == 65
  {
    var s := Init([], Some([]), h).session;
    assert ResolveBlockSize(h.blockSize).size == DefaultBlockSize;
    var k0 := NormalizeKey(h, DefaultBlockSize, []);
    var seed := XorPad(k0, IPad);
    assert |k0| == DefaultBlockSize;
    assert seed + [] == seed;
    assert s.inner.fed == seed;
    assert s.outer.fed == XorPad(k0, OPad);
    assert Digest(s) == h.H(s.outer.fed + h.H(seed));
    assert |s.outer.fed + h.H(seed)| == 65;
  }

  /**
   For every declared block size below 16 the two paths disagree on the
   empty key and message: the one-shot path as written gives `b + 1` (or 2
   for a negative size), the session 65.
   */
  lemma SmallBlockDiverges(h: Hash, b: int)
    requires CountsLength(h) && h.blockSize == Some(b) && b < MinBlockSize
    ensures OneShotAsWritten([], [], h) != Digest(Init([], Some([]), h).session)
  {
    SmallBlockOneShot(h, b);
    SmallBlockSession(h);
  }

  /**
   The concrete case: with `TinyBlockHash` the one-shot path as written gives
   `[9]` and the session `[65]`.
   */
  lemma OneShotAsWrittenDiverges()
    ensures OneShotAsWritten([], [], TinyBlockHash())[0] as nat == 9
    ensures Digest(Init([], Some([]), TinyBlockHash()).session)[0] as nat == 65
    ensures OneShotAsWritten([], [], TinyBlockHash()) != Digest(Init([], Some([]), TinyBlockHash()).session)
  {
    var h := TinyBlockHash();
    SmallBlockOneShot(h, 8);
    SmallBlockSession(h);
  }

  /** The corrected one-shot path agrees with the session path on every input. */
  lemma OneShotAgrees(key: seq<byte>, msg: seq<byte>, alg: Hash)
    requires Fits(alg)
    ensures OneShot(key, msg, alg) == Digest(Init(key, Some(msg), alg).session)
    ensures OneShot(key, msg, alg) == Rfc2104(alg, SessionBlockSize(alg), key, msg)
  {
    SessionComputesRfc2104(key, msg, alg);
  }

  // ---------------------------------------------------------------------
  // The `block_size` attribute of copies
  // ---------------------------------------------------------------------

  /** A copy made as written has no `block_size`, although its original has one. */
  lemma CopyAsWrittenLosesBlockSize(key: seq<byte>, msg: Option<seq<byte>>, alg: Hash)
    ensures var s := Init(key, msg, alg).session;
            && BlockSize(s) == Success(SessionBlockSize(alg))
            && BlockSize(CopyAsWritten(s)) == Failure(NoBlockSizeAttribute)
  {
  }

  /** The corrected copy keeps `block_size`. */
  lemma CopyKeepsBlockSize(s: Session)
    ensures BlockSize(Copy(s)) == BlockSize(s)
    ensures BlockSize(Copy(Copy(s))) == BlockSize(s)
  {
  }
}
