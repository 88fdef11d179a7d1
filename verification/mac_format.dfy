/**
 The hardware-address formatter of the address script: the low 48 bits of a
 node number written as six two-digit lowercase hex groups joined by `:`,
 most significant byte first. The node number itself (`uuid.getnode()`) is a
 host lookup and is a parameter here.

 The script builds the groups for shifts 0, 8, ..., 40 (least significant
 first) and reverses the list before joining; `FormatNode` does exactly that.
 A parser for the same text, and the byte lists both sides go through, give
 the round trips.
 */
module MacFormat {
  import opened Base
  import opened Arith
  import Hex

  /** Number of groups: `range(0, 8*6, 8)` has six shifts. */
  const NodeBytes: nat := 6
  /** The separator passed to `str.join`. */
  const Separator: char := ':'

  /** Every entry is a byte value. */
  predicate AllBytes(bs: seq<nat>) {
    forall i :: 0 <= i < |bs| ==> bs[i] < 256
  }

  /** `n >> k` on a non-negative integer: floor division by 2^k. */
  function Shr(n: nat, k: nat): (r: nat)
    ensures r * Pow(2, k) <= n < (r + 1) * Pow(2, k)
  {
    n / Pow(2, k)
  }

  /**
   `(n >> shift) & 0xff`. For a non-negative left operand the mask keeps the
   remainder modulo 256.
   */
  function ByteAt(n: nat, shift: nat): (b: nat)
    ensures b < 256
    ensures exists q: nat :: Shr(n, shift) == 256 * q + b
  {
    var r := Shr(n, shift);
    assert r == 256 * (r / 256) + r % 256;
    r % 256
  }

  /** The list in the opposite order (`[::-1]`). */
  function Reverse<T>(xs: seq<T>): (r: seq<T>)
    ensures |r| == |xs|
    ensures forall i :: 0 <= i < |xs| ==> r[i] == xs[|xs| - 1 - i]
    decreases |xs|
  {
    if |xs| == 0 then [] else Reverse(xs[1..]) + [xs[0]]
  }

  /** Reversing twice gives the list back. */
  lemma ReverseReverse<T>(xs: seq<T>)
    ensures Reverse(Reverse(xs)) == xs
  {
  }

  /** `sep.join(groups)`: the groups in order with one separator between neighbours. */
  function Join(groups: seq<string>): (s: string)
    ensures |groups| == 0 ==> s == []
    ensures |groups| == 1 ==> s == groups[0]
    decreases |groups|
  {
    if |groups| == 0 then []
    else if |groups| == 1 then groups[0]
    else groups[0] + [Separator] + Join(groups[1..])
  }

  /**
   The list comprehension: group `j` is the masked byte for shift `8*j`, as
   two hex digits. These are the node's six low bytes, least significant
   first, as repeated division by 256 yields them.
   */
  function Groups(node: nat): (gs: seq<string>)
    ensures gs == Octets(LowBytes(node, NodeBytes))
  {
    AllLowBytesAreShifts(node, NodeBytes);
    seq(NodeBytes, j requires 0 <= j < NodeBytes => Hex.Octet(ByteAt(node, 8 * j)))
  }

  /** The address text: the groups reversed (`[::-1]`) and joined with `:`. */
  function FormatNode(node: nat): (s: string)
    ensures |s| == 17
  {
    JoinLayout(Reverse(Groups(node)));
    Join(Reverse(Groups(node)))
  }

  // ---------------------------------------------------------------------
  // Byte lists: the representations the formatter and the parser share.
  // ---------------------------------------------------------------------

  /** The `k` low bytes of `n`, least significant first, by repeated division by 256. */
  function LowBytes(n: nat, k: nat): (bs: seq<nat>)
    ensures |bs| == k && AllBytes(bs)
    decreases k
  {
    if k == 0 then [] else [n % 256] + LowBytes(n / 256, k - 1)
  }

  /** The number a little-endian byte list stands for. */
  function LittleValue(bs: seq<nat>): nat
    decreases |bs|
  {
    if |bs| == 0 then 0 else bs[0] + 256 * LittleValue(bs[1..])
  }

  /** The number a big-endian byte list stands for (Horner's rule from the left). */
  function BigValue(bs: seq<nat>): nat
    decreases |bs|
  {
    if |bs| == 0 then 0 else BigValue(bs[..|bs| - 1]) * 256 + bs[|bs| - 1]
  }

  /** Each group's text: two lowercase hex digits per byte. */
  function Octets(bs: seq<nat>): (gs: seq<string>)
    requires AllBytes(bs)
    ensures |gs| == |bs|
    ensures forall i :: 0 <= i < |bs| ==> gs[i] == Hex.Octet(bs[i])
  {
    seq(|bs|, i requires 0 <= i < |bs| => Hex.Octet(bs[i]))
  }

  /** The address text of a big-endian byte list. */
  function Render(bs: seq<nat>): string
    requires AllBytes(bs)
  {
    Join(Octets(bs))
  }

  /**
   Reads `hh:hh:...:hh` (one or more groups of two lowercase hex digits) back
   into its bytes; anything else is rejected.
   */
  function ParseGroups(s: string): (r: Option<seq<nat>>)
    ensures r.Some? ==> |r.value| > 0 && AllBytes(r.value) && |s| + 1 == 3 * |r.value|
    decreases |s|
  {
    if |s| < 2 then None
    else match Hex.OctetValue(s[0], s[1])
      case None => None
      case Some(b) =>
        if |s| == 2 then Some([b])
        else if s[2] != Separator then None
        else match ParseGroups(s[3..])
          case None => None
          case Some(rest) => Some([b] + rest)
  }

  /** The node number an address text stands for, if it has exactly six groups. */
  function ParseNode(s: string): (r: Option<nat>)
  {
    match ParseGroups(s)
    case Some(bs) => if |bs| == NodeBytes then Some(BigValue(bs)) else None
    case None => None
  }

  // ---------------------------------------------------------------------
  // Arithmetic facts about the byte lists.
  // ---------------------------------------------------------------------

  /** A shift by one more byte is a further division by 256. */
  lemma PowByte(k: nat)
    ensures Pow(2, 8 * (k + 1)) == 256 * Pow(2, 8 * k)
  {
    PowAdd(2, 8, 8 * k);
    assert Pow(2, 8) == 256;
    assert 8 + 8 * k == 8 * (k + 1);
  }

  /** Entry `j` of the low bytes is `(n >> 8*j) & 0xff`. */
  lemma {:induction false} LowBytesAreShifts(n: nat, k: nat, j: nat)
    requires j < k
    ensures LowBytes(n, k)[j] == ByteAt(n, 8 * j)
    decreases j
  {
    if j > 0 {
      LowBytesAreShifts(n / 256, k - 1, j - 1);
      PowByte(j - 1);
      DivModNested(n, 256, Pow(2, 8 * (j - 1)));
    }
  }

  /** Every entry of the low bytes is the shift-and-mask byte. */
  lemma AllLowBytesAreShifts(n: nat, k: nat)
    ensures forall j :: 0 <= j < k ==> LowBytes(n, k)[j] == ByteAt(n, 8 * j)
  {
    forall j | 0 <= j < k
      ensures LowBytes(n, k)[j] == ByteAt(n, 8 * j)
    {
      LowBytesAreShifts(n, k, j);
    }
  }

  /** The low `k` bytes stand for `n mod 2^(8k)`. */
  lemma {:induction false} LittleValueOfLowBytes(n: nat, k: nat)
    ensures LittleValue(LowBytes(n, k)) == n % Pow(2, 8 * k)
    decreases k
  {
    if k > 0 {
      LittleValueOfLowBytes(n / 256, k - 1);
      PowByte(k - 1);
      DivModNested(n, 256, Pow(2, 8 * (k - 1)));
    }
  }

  /** Bits at position 8k and above do not reach the low `k` bytes. */
  lemma {:induction false} LowBytesOfMod(n: nat, k: nat)
    ensures LowBytes(n % Pow(2, 8 * k), k) == LowBytes(n, k)
    decreases k
  {
    if k > 0 {
      var m := Pow(2, 8 * (k - 1));
      PowByte(k - 1);
      ModNestedParts(n, 256, m);
      LowBytesOfMod(n / 256, k - 1);
      LowBytesOfMod(n % (256 * m) / 256, k - 1);
      ModOfSmall((n / 256) % m, m);
    }
  }

  /** A number below the modulus is its own remainder. */
  lemma ModOfSmall(n: nat, m: nat)
    requires n < m
    ensures n % m == n
  {
    DivModUnique(n, m, 0, n);
  }

  /** The low bytes of the value of a byte list are that list. */
  lemma {:induction false} LowBytesOfLittleValue(bs: seq<nat>)
    requires AllBytes(bs)
    ensures LowBytes(LittleValue(bs), |bs|) == bs
    decreases |bs|
  {
    if |bs| > 0 {
      var v := LittleValue(bs);
      DivModUnique(v, 256, LittleValue(bs[1..]), bs[0]);
      LowBytesOfLittleValue(bs[1..]);
      assert bs == [bs[0]] + bs[1..];
    }
  }

  /** Read big-endian, a list means what its reverse means little-endian. */
  lemma {:induction false} BigValueOfReverse(bs: seq<nat>)
    ensures BigValue(Reverse(bs)) == LittleValue(bs)
    decreases |bs|
  {
    if |bs| > 0 {
      var r := Reverse(bs);
      assert r[..|r| - 1] == Reverse(bs[1..]);
      BigValueOfReverse(bs[1..]);
    }
  }

  // ---------------------------------------------------------------------
  // Layout of joined two-digit groups, and the parser's round trips.
  // ---------------------------------------------------------------------

  /**
   Joined two-character groups: `3n - 1` characters, group `i` at offset
   `3i`, and a separator after every group but the last.
   */
  lemma {:induction false} JoinLayout(groups: seq<string>)
    requires |groups| > 0
    requires forall i :: 0 <= i < |groups| ==> |groups[i]| == 2
    ensures |Join(groups)| == 3 * |groups| - 1
    ensures forall i :: 0 <= i < |groups| ==> Join(groups)[3 * i..3 * i + 2] == groups[i]
    ensures forall i :: 0 <= i < |groups| - 1 ==> Join(groups)[3 * i + 2] == Separator
    decreases |groups|
  {
    if |groups| > 1 {
      var s, tail := Join(groups), Join(groups[1..]);
      JoinLayout(groups[1..]);
      assert s == groups[0] + [Separator] + tail;
      forall i | 1 <= i < |groups|
        ensures s[3 * i..3 * i + 2] == groups[i]
      {
        assert s[3 * i..3 * i + 2] == tail[3 * (i - 1)..3 * (i - 1) + 2];
      }
      forall i | 1 <= i < |groups| - 1
        ensures s[3 * i + 2] == Separator
      {
        assert s[3 * i + 2] == tail[3 * (i - 1) + 2];
      }
    }
  }

  /** Parsing rendered bytes gives the bytes. */
  lemma {:induction false} ParseRender(bs: seq<nat>)
    requires |bs| > 0 && AllBytes(bs)
    ensures ParseGroups(Render(bs)) == Some(bs)
    decreases |bs|
  {
    var s := Render(bs);
    Hex.OctetRoundTrip(bs[0]);
    if |bs| == 1 {
      assert s == Hex.Octet(bs[0]);
      assert bs == [bs[0]];
    } else {
      assert Octets(bs)[1..] == Octets(bs[1..]);
      assert s == Hex.Octet(bs[0]) + [Separator] + Render(bs[1..]);
      assert s[3..] == Render(bs[1..]);
      ParseRender(bs[1..]);
      assert bs == [bs[0]] + bs[1..];
    }
  }

  /** Whatever the parser accepts is the rendering of what it returns. */
  lemma {:induction false} RenderParse(s: string)
    requires ParseGroups(s).Some?
    ensures Render(ParseGroups(s).value) == s
    decreases |s|
  {
    var bs := ParseGroups(s).value;
    Hex.OctetValueRoundTrip(s[0], s[1]);
    if |s| == 2 {
      assert s == [s[0], s[1]];
    } else {
      RenderParse(s[3..]);
      assert bs[1..] == ParseGroups(s[3..]).value;
      assert Octets(bs)[1..] == Octets(bs[1..]);
      assert s == [s[0], s[1]] + [Separator] + s[3..];
    }
  }

  // ---------------------------------------------------------------------
  // What the formatter promises.
  // ---------------------------------------------------------------------

  /** The formatted text is the rendering of the node's six bytes, most significant first. */
  lemma FormatIsRender(node: nat)
    ensures FormatNode(node) == Render(Reverse(LowBytes(node, NodeBytes)))
  {
    var low := LowBytes(node, NodeBytes);
    var gs := Groups(node);
    assert Reverse(gs) == Octets(Reverse(low));
  }

  /**
   Shape of the output: 17 characters, `:` at offsets 2, 5, 8, 11 and 14,
   and group `i` is the two lowercase digits of `(node >> 8*(5-i)) & 0xff`,
   so the most significant byte comes first.
   */
  lemma FormatLayout(node: nat)
    ensures |FormatNode(node)| == 17
    ensures forall i :: 0 <= i < 5 ==> FormatNode(node)[3 * i + 2] == Separator
    ensures forall i :: 0 <= i < 6 ==>
      FormatNode(node)[3 * i..3 * i + 2] == Hex.Octet(ByteAt(node, 8 * (5 - i)))
  {
    forall i | 0 <= i < 6
      ensures FormatNode(node)[3 * i..3 * i + 2] == Hex.Octet(ByteAt(node, 8 * (5 - i)))
    {
      FormatGroup(node, i);
    }
    JoinLayout(Reverse(Groups(node)));
  }

  /** Group `i` of the output is the byte for shift `8*(5-i)`. */
  lemma FormatGroup(node: nat, i: nat)
    requires i < 6
    ensures FormatNode(node)[3 * i..3 * i + 2] == Hex.Octet(ByteAt(node, 8 * (5 - i)))
  {
    var gs := Groups(node);
    var groups := Reverse(gs);
    JoinLayout(groups);
    assert Join(groups)[3 * i..3 * i + 2] == groups[i];
    assert groups[i] == gs[5 - i];
    LowBytesAreShifts(node, NodeBytes, 5 - i);
  }

  /** Every character of the output other than the five separators is a lowercase hex digit. */
  lemma FormatDigits(node: nat)
    ensures forall k :: 0 <= k < 17 && k % 3 != 2 ==> Hex.IsLowerHexDigit(FormatNode(node)[k])
  {
    var s := FormatNode(node);
    forall k | 0 <= k < 17 && k % 3 != 2
      ensures Hex.IsLowerHexDigit(s[k])
    {
      var i := k / 3;
      FormatGroup(node, i);
      var g := Hex.Octet(ByteAt(node, 8 * (5 - i)));
      assert s[k] == s[3 * i..3 * i + 2][k - 3 * i] == g[k - 3 * i];
    }
  }

  /** Bits of the node at position 48 and above do not affect the output. */
  lemma HighBitsIgnored(node: nat)
    ensures FormatNode(node) == FormatNode(node % Pow(2, 48))
  {
    FormatIsRender(node);
    FormatIsRender(node % Pow(2, 48));
    LowBytesOfMod(node, NodeBytes);
  }

  /** Round trip: parsing the output yields the node's low 48 bits. */
  lemma ParseFormat(node: nat)
    ensures ParseNode(FormatNode(node)) == Some(node % Pow(2, 48))
  {
    var low := LowBytes(node, NodeBytes);
    FormatIsRender(node);
    ParseRender(Reverse(low));
    BigValueOfReverse(low);
    LittleValueOfLowBytes(node, NodeBytes);
  }

  /** Round trip the other way: every text the parser accepts is the output for its value. */
  lemma FormatParse(s: string)
    requires ParseNode(s).Some?
    ensures FormatNode(ParseNode(s).value) == s
  {
    var bs := ParseGroups(s).value;
    var v := ParseNode(s).value;
    RenderParse(s);
    ReverseReverse(bs);
    BigValueOfReverse(Reverse(bs));
    LowBytesOfLittleValue(Reverse(bs));
    FormatIsRender(v);
  }

  /** Two nodes below 2^48 with the same output are the same node. */
  lemma FormatInjective(n1: nat, n2: nat)
    requires n1 < Pow(2, 48) && n2 < Pow(2, 48)
    ensures FormatNode(n1) == FormatNode(n2) <==> n1 == n2
  {
    ParseFormat(n1);
    ParseFormat(n2);
    ModOfSmall(n1, Pow(2, 48));
    ModOfSmall(n2, Pow(2, 48));
  }
}
