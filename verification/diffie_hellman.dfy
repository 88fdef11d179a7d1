/**
 The finite-field Diffie-Hellman key agreement of the demonstration script
 (ZZ = g^(xa*xb) mod p, section 2.1.1 of RFC 2631), with the script's toy
 parameters. Python's `**` and `%` are exact on unbounded integers, which is
 what `Pow` and Dafny's `%` on `nat` are.
 */
module DiffieHellman {
  import opened Arith

  /** The shared prime modulus. */
  const P: nat := 23
  /** The shared base, a primitive root modulo `P`. */
  const G: nat := 5
  /** The first party's private key. */
  const SecretA: nat := 6
  /** The second party's private key. */
  const SecretB: nat := 15

  /**
   `(b ** e) % p`, the one operation behind all four of the script's values:
   a public value is `ModPow(g, x, p)`, a derived secret `ModPow(other, x, p)`.
   */
  function ModPow(b: nat, e: nat, p: nat): (r: nat)
    requires p > 0
    ensures r < p
  {
    Pow(b, e) % p
  }

  /** Reducing the base first does not change a modular power. */
  lemma {:induction false} PowMod(b: nat, e: nat, p: nat)
    requires p > 0
    ensures Pow(b % p, e) % p == Pow(b, e) % p
    decreases e
  {
    if e > 0 {
      var x, y := Pow(b % p, e - 1), Pow(b, e - 1);
      PowMod(b, e - 1, p);
      assert x % p == y % p;
      calc {
        Pow(b % p, e) % p;
        ((b % p) * x) % p;
        { ModMulLeft(x, b % p, p); assert (b % p) * x == x * (b % p); }
        ((x % p) * (b % p)) % p;
        ((y % p) * (b % p)) % p;
        { ModMulLeft(y, b % p, p); assert y * (b % p) == (b % p) * y; }
        ((b % p) * y) % p;
        { ModMulLeft(b, y, p); }
        (b * y) % p;
      }
    }
  }

  /**
   Key agreement: whatever the private keys, each party's secret computed
   from the other's public value is g^(a*b) mod p, so the two agree.
   */
  lemma KeyAgreement(p: nat, g: nat, a: nat, b: nat)
    requires p > 0
    ensures ModPow(ModPow(g, b, p), a, p) == Pow(g, a * b) % p
    ensures ModPow(ModPow(g, a, p), b, p) == Pow(g, a * b) % p
  {
    PowMod(Pow(g, b), a, p);
    PowMul(g, b, a);
    PowMod(Pow(g, a), b, p);
    PowMul(g, a, b);
    assert b * a == a * b;
  }

  /** The values the script computes: both public values and both derived secrets. */
  datatype Exchange = Exchange(a: nat, b: nat, ka: nat, kb: nat)

  /** The script's exchange for modulus `p`, base `g` and private keys `xa`, `xb`. */
  function Run(p: nat, g: nat, xa: nat, xb: nat): (e: Exchange)
    requires p > 0
    ensures e.a == Pow(g, xa) % p && e.b == Pow(g, xb) % p
    ensures e.a < p && e.b < p && e.ka < p && e.kb < p
    ensures e.ka == e.kb == Pow(g, xa * xb) % p
  {
    var a := ModPow(g, xa, p);
    var b := ModPow(g, xb, p);
    KeyAgreement(p, g, xa, xb);
    Exchange(a, b, ModPow(b, xa, p), ModPow(a, xb, p))
  }

  /** The script's run: A = 8, B = 19, and both parties derive 2. */
  lemma ScriptValues()
    ensures Run(P, G, SecretA, SecretB) == Exchange(8, 19, 2, 2)
  {
    assert Pow(5, 6) == 15625;
    assert Pow(5, 15) == 30517578125 by {
      assert Pow(5, 7) == 78125 && Pow(5, 8) == 390625;
      PowAdd(5, 7, 8);
    }
    assert Pow(19, 6) == 47045881;
  }

  /** `p` is prime: it is at least 2 and no number in [2, p) divides it. */
  ghost predicate IsPrime(p: nat) {
    p >= 2 && forall d :: 2 <= d < p ==> p % d != 0
  }

  /** `g` generates every non-zero residue: g^1 .. g^(p-1) mod p are pairwise distinct. */
  ghost predicate IsPrimitiveRoot(g: nat, p: nat)
    requires p > 0
  {
    forall i, j :: 1 <= i < j < p ==> Pow(g, i) % p != Pow(g, j) % p
  }

  /** No divisor of `n` in [d, n). */
  function NoDivisorFrom(n: nat, d: nat): bool
    requires d >= 2
    decreases n - d
  {
    d >= n || (n % d != 0 && NoDivisorFrom(n, d + 1))
  }

  lemma {:induction false} NoDivisorFromMeans(n: nat, d: nat)
    requires d >= 2 && NoDivisorFrom(n, d)
    ensures forall k :: d <= k < n ==> n % k != 0
    decreases n - d
  {
    if d < n {
      NoDivisorFromMeans(n, d + 1);
    }
  }

  /**
   `t` lists g^1, g^2, ... mod p, each entry computed from the one before it:
   it starts at `g % p` and every next entry is the previous one times `g`, mod `p`.
   */
  ghost predicate IsPowerChain(t: seq<nat>, g: nat, p: nat)
    requires p > 0
  {
    |t| > 0 && t[0] == g % p &&
    forall i :: 0 <= i < |t| - 1 ==> t[i + 1] == (t[i] * g) % p
  }

  /** One step of a power chain: g^(k+1) mod p from g^k mod p. */
  lemma PowStep(g: nat, k: nat, p: nat)
    requires p > 0
    ensures Pow(g, k + 1) % p == ((Pow(g, k) % p) * g) % p
  {
    ModMulLeft(Pow(g, k), g, p);
    assert Pow(g, k + 1) == Pow(g, k) * g;
  }

  /** Every entry of a power chain is the corresponding power: t[k] == g^(k+1) mod p. */
  lemma {:induction false} PowerChainEntries(t: seq<nat>, g: nat, p: nat, k: nat)
    requires p > 0 && IsPowerChain(t, g, p) && k < |t|
    ensures t[k] == Pow(g, k + 1) % p
    decreases k
  {
    if k > 0 {
      PowerChainEntries(t, g, p, k - 1);
      PowStep(g, k, p);
    }
  }

  /** The powers 5^1 .. 5^22 modulo 23. */
  function PowersOf5Mod23(): seq<nat> {
    [5, 2, 10, 4, 20, 8, 17, 16, 11, 9, 22, 18, 21, 13, 19, 3, 15, 6, 7, 12, 14, 1]
  }

  /** Consecutive entries `lo` .. `hi` of the table are linked by multiplication by 5 modulo 23. */
  predicate TableLinked(lo: nat, hi: nat)
    requires hi <= 21
  {
    forall i :: lo <= i < hi ==> PowersOf5Mod23()[i + 1] == (PowersOf5Mod23()[i] * 5) % 23
  }

  lemma TableLinks0() ensures TableLinked(0, 6) { }
  lemma TableLinks6() ensures TableLinked(6, 11) { }
  lemma TableLinks11() ensures TableLinked(11, 16) { }
  lemma TableLinks16() ensures TableLinked(16, 21) { }

  /** The table is the power chain of 5 modulo 23. */
  lemma TableIsChain()
    ensures IsPowerChain(PowersOf5Mod23(), 5, 23)
  {
    TableLinks0();
    TableLinks6();
    TableLinks11();
    TableLinks16();
  }

  /** The table's entries are pairwise distinct. */
  lemma TableDistinct()
    ensures forall i, j :: 0 <= i < j < 22 ==> PowersOf5Mod23()[i] != PowersOf5Mod23()[j]
  {
  }

  /** 23 is prime. */
  lemma ModulusIsPrime()
    ensures IsPrime(P)
  {
    assert NoDivisorFrom(23, 18);
    assert NoDivisorFrom(23, 13);
    assert NoDivisorFrom(23, 8);
    assert NoDivisorFrom(23, 2);
    NoDivisorFromMeans(23, 2);
  }

  /** 5 is a primitive root modulo 23. */
  lemma BaseIsPrimitiveRoot()
    ensures IsPrimitiveRoot(G, P)
  {
    var t := PowersOf5Mod23();
    TableIsChain();
    TableDistinct();
    forall i, j | 1 <= i < j < 23
      ensures Pow(5, i) % 23 != Pow(5, j) % 23
    {
      PowerChainEntries(t, 5, 23, i - 1);
      PowerChainEntries(t, 5, 23, j - 1);
    }
  }
}
