/**
 The underlying hash algorithm, which is foreign code (`hashlib`, OpenSSL) and
 therefore abstract here. An algorithm is an uninterpreted function `H` from
 the bytes fed to the bytes of the digest, together with the sizes it
 advertises; a running hash object is nothing but the bytes fed to it so far.
 */
module Hashing {
  import opened Base
  import Hex

  /**
   A hash constructor (`digest_cons`): its `name`, the function it computes,
   its `digest_size`, and its `block_size` attribute if it has one.
   */
  datatype Hash = Hash(
    name: string,
    H: seq<byte> -> seq<byte>,
    digestSize: nat,
    blockSize: Option<int>)
  {
    /**
     The one property of the foreign function that the construction relies on:
     every digest has the advertised length.
     */
    ghost predicate Conforming() {
      forall m :: |H(m)| == digestSize
    }

    /** `digest_cons(d)`: a fresh hash object already fed `d`. */
    function Start(d: seq<byte>): (s: HashState)
      ensures s.alg == this && s.fed == d
    {
      HashState(this, d)
    }
  }

  /** A hash object: the algorithm and every byte fed to it, in order. */
  datatype HashState = HashState(alg: Hash, fed: seq<byte>) {

    /** `h.update(m)`: appends `m` to the bytes fed. */
    function Update(m: seq<byte>): (r: HashState)
      ensures r.alg == alg
      ensures r.fed == fed + m
    {
      HashState(alg, fed + m)
    }

    /** `h.copy()`: an object with the same algorithm and the same input so far. */
    function Copy(): (r: HashState)
      ensures r.alg == alg && r.fed == fed
    {
      HashState(alg, fed)
    }

    /** `h.digest()`: the hash of everything fed; the object itself is not consumed. */
    function Digest(): (d: seq<byte>)
      ensures alg.Conforming() ==> |d| == alg.digestSize
    {
      alg.H(fed)
    }

    /** `h.hexdigest()`: the lowercase hex of `Digest()`. */
    function HexDigest(): (s: string)
      ensures Hex.Decode(s) == Some(Digest())
    {
      Hex.DecodeEncode(Digest());
      Hex.Encode(Digest())
    }
  }
}
