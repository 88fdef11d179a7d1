/**
 The generic HMAC construction of section 2 of RFC 2104 as the `hmac` module
 implements it: key normalisation against the hash's block size, an inner and
 an outer hash object seeded with the key XOR ipad (0x36) and XOR opad (0x5C),
 streaming into the inner object only, and non-destructive finalisation
 H(opadKey || H(ipadKey || message)).

 Objects are values here: a session is a record, and each operation that
 mutates an object in the source returns the updated record instead.
 */
module Hmac {
  import opened Base
  import opened Hashing
  import Hex

  /** The inner pad byte of RFC 2104. */
  const IPad: byte := 0x36
  /** The outer pad byte of RFC 2104. */
  const OPad: byte := 0x5C
  /** `HMAC.blocksize`: the block size assumed when the hash gives no usable one. */
  const DefaultBlockSize: nat := 64
  /** Declared block sizes below this are distrusted. */
  const MinBlockSize: int := 16

  /** `trans_5C`: the 256-entry table mapping each byte value `x` to `x ^ 0x5C`. */
  function Trans5C(): (t: seq<byte>)
    ensures |t| == 256
  {
    seq(256, i requires 0 <= i < 256 => ToByte(i) ^ OPad)
  }

  /** `trans_36`: the 256-entry table mapping each byte value `x` to `x ^ 0x36`. */
  function Trans36(): (t: seq<byte>)
    ensures |t| == 256
  {
    seq(256, i requires 0 <= i < 256 => ToByte(i) ^ IPad)
  }

  /** Every byte XORed with `pad`, position by position. */
  function XorPad(key: seq<byte>, pad: byte): (r: seq<byte>)
    ensures |r| == |key|
  {
    seq(|key|, i requires 0 <= i < |key| => key[i] ^ pad)
  }

  /** `key.translate(table)`: each byte replaced by the table entry it indexes. */
  function Translate(key: seq<byte>, table: seq<byte>): (r: seq<byte>)
    requires |table| == 256
    ensures |r| == |key|
  {
    seq(|key|, i requires 0 <= i < |key| => table[key[i] as int])
  }

  /** The two tables are the XOR maps the RFC prescribes. */
  lemma TablesAreXor(x: byte)
    ensures Trans5C()[x as int] == x ^ OPad
    ensures Trans36()[x as int] == x ^ IPad
  {
    ToByteOfByte(x);
  }

  /** Translating through a table is XOR with that table's pad, and keeps the length. */
  lemma TranslateIsXor(key: seq<byte>)
    ensures Translate(key, Trans5C()) == XorPad(key, OPad)
    ensures Translate(key, Trans36()) == XorPad(key, IPad)
  {
    forall i | 0 <= i < |key|
      ensures Translate(key, Trans5C())[i] == XorPad(key, OPad)[i]
      ensures Translate(key, Trans36())[i] == XorPad(key, IPad)[i]
    {
      TablesAreXor(key[i]);
    }
  }

  /** A diagnostic the constructor emits instead of failing. */
  datatype BlockSizeWarning =
    | TooSmall(declared: int)  // the declared block size is too small; the default is used
    | NoBlockSize              // the hash declares no block size; the default is assumed

  /** The block size a session pads keys to, and the warning raised choosing it. */
  datatype BlockSizeChoice = BlockSizeChoice(size: nat, warning: Option<BlockSizeWarning>)

  /**
   The constructor's block-size rule: a declared `block_size` of at least 16
   is used; one below 16, or none at all, is replaced by the default of 64
   with a warning.
   */
  function ResolveBlockSize(declared: Option<int>): (c: BlockSizeChoice)
    ensures c.size >= MinBlockSize
    ensures c.warning.None? <==> declared.Some? && declared.value >= MinBlockSize
    ensures c.warning.None? ==> c.size == declared.value
    ensures c.warning.Some? ==> c.size == DefaultBlockSize
    ensures c.warning == Some(NoBlockSize) <==> declared.None?
    ensures c.warning.Some? && declared.Some? ==> c.warning == Some(TooSmall(declared.value))
  {
    match declared
    case Some(b) =>
      if b < MinBlockSize then BlockSizeChoice(DefaultBlockSize, Some(TooSmall(b)))
      else BlockSizeChoice(b, None)
    case None => BlockSizeChoice(DefaultBlockSize, Some(NoBlockSize))
  }

  /**
   Zero bytes appended up to `width`; a key already that long is unchanged.
   This is both `key.ljust(width, b'\0')` and `key + b'\x00' * (width - len(key))`.
   */
  function ZeroPad(key: seq<byte>, width: int): (r: seq<byte>)
    ensures |r| == if width > |key| then width else |key|
    ensures r[..|key|] == key
    ensures forall i :: |key| <= i < |r| ==> r[i] == 0
  {
    key + Zeros(width - |key|)
  }

  /**
   Key normalisation: a key longer than the block size is replaced by its
   digest, and the result is zero-padded up to the block size.
   */
  function NormalizeKey(alg: Hash, blockSize: int, key: seq<byte>): (k0: seq<byte>)
    ensures |key| <= blockSize ==> |k0| == blockSize && k0[..|key|] == key
    ensures |key| <= blockSize ==> forall i :: |key| <= i < |k0| ==> k0[i] == 0
    ensures |key| > blockSize ==> |k0| == (if blockSize > |alg.H(key)| then blockSize else |alg.H(key)|)
    ensures |key| > blockSize ==> k0[..|alg.H(key)|] == alg.H(key)
    ensures |key| > blockSize ==> forall i :: |alg.H(key)| <= i < |k0| ==> k0[i] == 0
    ensures alg.Conforming() && alg.digestSize <= blockSize ==> |k0| == blockSize
  {
    var k := if |key| > blockSize then alg.Start(key).Digest() else key;
    ZeroPad(k, blockSize)
  }

  /** The `key` argument: a `bytes`/`bytearray` value, or an object of some other type. */
  datatype KeyArg = KeyBytes(bytes: seq<byte>) | KeyOther(typeName: string)

  /** The exceptions the construction raises. */
  datatype HmacError =
    | TypeError(message: string)
    | ValueError(message: string)
    | AttributeError(message: string)

  /** `repr` of a type name, as `%r` renders it. */
  function Repr(name: string): string {
    "'" + name + "'"
  }

  /** The `TypeError` raised for a key of type `typeName`. */
  function KeyTypeError(typeName: string): HmacError {
    TypeError("key: expected bytes or bytearray, but got " + Repr(typeName))
  }

  /** The `ValueError` raised when no `digestmod` is given. */
  const MissingDigestmod: HmacError := ValueError("`digestmod` is required.")

  /** The `AttributeError` raised reading `block_size` on an object that lacks it. */
  const NoBlockSizeAttribute: HmacError := AttributeError("'HMAC' object has no attribute 'block_size'")

  /**
   An `HMAC` object: `digest_cons`, `digest_size`, the `block_size` attribute
   (absent only on a copy made the way the source makes it), and the two hash
   objects.
   */
  datatype Session = Session(
    alg: Hash,
    digestSize: nat,
    blockSize: Option<int>,
    inner: HashState,
    outer: HashState)

  /** Both hash objects run the session's algorithm and `digest_size` is its digest size. */
  ghost predicate WellFormed(s: Session) {
    && s.inner.alg == s.alg
    && s.outer.alg == s.alg
    && s.digestSize == s.alg.digestSize
  }

  /** What construction yields: the session and the warning it emitted, if any. */
  datatype Created = Created(session: Session, warning: Option<BlockSizeWarning>)

  /**
   `HMAC.__init__` once its argument checks have passed: two fresh hash
   objects, the resolved block size, the normalised key XOR opad fed to
   `outer` and XOR ipad fed to `inner`, then `msg` if one is given.
   */
  function Init(key: seq<byte>, msg: Option<seq<byte>>, alg: Hash): (c: Created)
    ensures c.session.alg == alg && WellFormed(c.session)
    ensures c.session.blockSize == Some(ResolveBlockSize(alg.blockSize).size)
    ensures c.warning == ResolveBlockSize(alg.blockSize).warning
    ensures c.session.outer.fed
         == XorPad(NormalizeKey(alg, ResolveBlockSize(alg.blockSize).size, key), OPad)
    ensures c.session.inner.fed
         == XorPad(NormalizeKey(alg, ResolveBlockSize(alg.blockSize).size, key), IPad) + msg.GetOr([])
  {
    var outer := alg.Start([]);
    var inner := alg.Start([]);
    var digestSize := inner.alg.digestSize;
    var choice := ResolveBlockSize(inner.alg.blockSize);
    var k0 := NormalizeKey(alg, choice.size, key);
    TranslateIsXor(k0);
    var seeded := Session(alg, digestSize, Some(choice.size),
                          inner.Update(Translate(k0, Trans36())),
                          outer.Update(Translate(k0, Trans5C())));
    var s := match msg
      case Some(m) => Update(seeded, m)
      case None => seeded;
    Created(s, choice.warning)
  }

  /**
   `new(key, msg, digestmod)` / `HMAC(key, msg, digestmod)`: a key that is not
   bytes raises `TypeError`, then a missing `digestmod` raises `ValueError`;
   otherwise the session is built.
   */
  function New(key: KeyArg, msg: Option<seq<byte>>, digestmod: Option<Hash>): (r: Result<Created, HmacError>)
    ensures r.Failure? <==> key.KeyOther? || digestmod.None?
    ensures key.KeyOther? ==> r == Failure(KeyTypeError(key.typeName))
    ensures key.KeyBytes? && digestmod.None? ==> r == Failure(MissingDigestmod)
    ensures r.Success? ==> r.value == Init(key.bytes, msg, digestmod.value)
  {
    if key.KeyOther? then Failure(KeyTypeError(key.typeName))
    else if digestmod.None? then Failure(MissingDigestmod)
    else Success(Init(key.bytes, msg, digestmod.value))
  }

  /** `name`: "hmac-" followed by the inner hash's name. */
  function Name(s: Session): (n: string)
    ensures |n| == 5 + |s.inner.alg.name|
    ensures n[..5] == "hmac-" && n[5..] == s.inner.alg.name
  {
    "hmac-" + s.inner.alg.name
  }

  /** `update(msg)`: feeds `msg` to the inner hash; nothing else changes. */
  function Update(s: Session, msg: seq<byte>): (r: Session)
    ensures r.inner.fed == s.inner.fed + msg && r.inner.alg == s.inner.alg
    ensures r.outer == s.outer
    ensures r.alg == s.alg && r.digestSize == s.digestSize && r.blockSize == s.blockSize
  {
    s.(inner := s.inner.Update(msg))
  }

  /**
   `copy()` as written: `digest_cons`, `digest_size`, and copies of both hash
   objects; the `block_size` attribute is not carried over.
   */
  function CopyAsWritten(s: Session): (r: Session)
    ensures r.blockSize.None?
    ensures r.inner.fed == s.inner.fed && r.outer.fed == s.outer.fed
    ensures r.alg == s.alg && r.digestSize == s.digestSize
  {
    Session(s.alg, s.digestSize, None, s.inner.Copy(), s.outer.Copy())
  }

  /** `copy()` carrying every attribute, `block_size` included. */
  function Copy(s: Session): (r: Session)
    ensures r.blockSize == s.blockSize
    ensures r.inner.fed == s.inner.fed && r.outer.fed == s.outer.fed
    ensures r.alg == s.alg && r.digestSize == s.digestSize
  {
    Session(s.alg, s.digestSize, s.blockSize, s.inner.Copy(), s.outer.Copy())
  }

  /** Reading the `block_size` attribute. */
  function BlockSize(s: Session): (r: Result<int, HmacError>)
    ensures r.Success? <==> s.blockSize.Some?
    ensures s.blockSize.Some? ==> r == Success(s.blockSize.value)
    ensures r.Failure? ==> r.error == NoBlockSizeAttribute
  {
    match s.blockSize
    case Some(b) => Success(b)
    case None => Failure(NoBlockSizeAttribute)
  }

  /** `_current()`: a copy of `outer` fed the inner digest; `outer` itself is untouched. */
  function Current(s: Session): (h: HashState)
    ensures h.alg == s.outer.alg
    ensures h.fed == s.outer.fed + s.inner.alg.H(s.inner.fed)
  {
    s.outer.Copy().Update(s.inner.Digest())
  }

  /** `digest()`: the outer hash of the inner digest, `digest_size` bytes long. */
  function Digest(s: Session): (d: seq<byte>)
    ensures WellFormed(s) ==> d == s.alg.H(s.outer.fed + s.alg.H(s.inner.fed))
    ensures WellFormed(s) && s.alg.Conforming() ==> |d| == s.digestSize
  {
    Current(s).Digest()
  }

  /** `hexdigest()`: the lowercase hex text of `digest()`. */
  function HexDigest(s: Session): (t: string)
    ensures Hex.Decode(t) == Some(Digest(s))
    ensures |t| == 2 * |Digest(s)|
  {
    Current(s).HexDigest()
  }

  /**
   The module-level one-shot `digest(key, msg, digest)` on its generic path,
   for a given block size: seed both objects, feed `msg` to the inner one,
   feed the inner digest to the outer one.
   */
  function OneShotWith(blockSize: int, key: seq<byte>, msg: seq<byte>, alg: Hash): (d: seq<byte>)
    ensures alg.Conforming() ==> |d| == alg.digestSize
  {
    var inner := alg.Start([]);
    var outer := alg.Start([]);
    var k0 := NormalizeKey(alg, blockSize, key);
    var inner1 := inner.Update(Translate(k0, Trans36()));
    var outer1 := outer.Update(Translate(k0, Trans5C()));
    var inner2 := inner1.Update(msg);
    var outer2 := outer1.Update(inner2.Digest());
    outer2.Digest()
  }

  /**
   The block size the one-shot path uses as written: `getattr(inner, 'block_size', 64)`.
   It is the constructor's choice unless the hash declares a block size below
   16, which the one-shot path keeps where the constructor would use 64.
   */
  function OneShotBlockSizeAsWritten(alg: Hash): (b: int)
    ensures ResolveBlockSize(alg.blockSize).warning.None? || alg.blockSize.None?
            ==> b == ResolveBlockSize(alg.blockSize).size
    ensures alg.blockSize.Some? && alg.blockSize.value < MinBlockSize
            ==> b == alg.blockSize.value && b < MinBlockSize < ResolveBlockSize(alg.blockSize).size
  {
    alg.blockSize.GetOr(DefaultBlockSize)
  }

  /** The one-shot `digest` as written, with no check on small block sizes. */
  function OneShotAsWritten(key: seq<byte>, msg: seq<byte>, alg: Hash): (d: seq<byte>)
    ensures alg.Conforming() ==> |d| == alg.digestSize
  {
    OneShotWith(OneShotBlockSizeAsWritten(alg), key, msg, alg)
  }

  /**
   The one-shot `digest` with the constructor's block-size rule, which makes
   it agree with `new(key, msg, digest).digest()` on every input.
   */
  function OneShot(key: seq<byte>, msg: seq<byte>, alg: Hash): (d: seq<byte>)
    ensures d == Digest(Init(key, Some(msg), alg).session)
  {
    var b := ResolveBlockSize(alg.blockSize).size;
    var k0 := NormalizeKey(alg, b, key);
    TranslateIsXor(k0);
    OneShotWith(b, key, msg, alg)
  }
}
