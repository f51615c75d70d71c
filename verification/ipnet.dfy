/** Networks in CIDR notation (section 3.1 of RFC 4632, and section 2.3 of
    RFC 4291 for IPv6 prefixes) as Go's `net` package handles them:
    `CIDRMask`, `IP.Mask`, `IPNet.Contains` and `ParseCIDR`. Membership is
    specified independently as "the first `ones` bits agree". */
module IPNet {
  import opened Wrappers
  import opened Text
  import opened IPAddr

  // ---------------------------------------------------------------- bits

  /** Bit `j` of a byte, counting from the most significant bit. */
  predicate Bit(x: bv8, j: nat)
    requires j < 8
  {
    x & (0x80 >> j) != 0
  }

  /** Bit `i` of a byte string, the most significant bit of the first byte
      first: the order in which prefix lengths count bits. */
  predicate AddrBit(b: seq<bv8>, i: nat)
    requires i < 8 * |b|
  {
    Bit(b[i / 8], i % 8)
  }

  /** The first `n` bits of `x` and `y` agree. */
  predicate PrefixEqual(x: seq<bv8>, y: seq<bv8>, n: nat)
    requires n <= 8 * |x| && n <= 8 * |y|
  {
    forall i :: 0 <= i < n ==> (AddrBit(x, i) <==> AddrBit(y, i))
  }

  /** The bits of `x` and `y` before bit `r` of a byte agree. */
  predicate AgreeBelow(x: bv8, y: bv8, r: nat) {
    forall j :: 0 <= j < 8 && j < r ==> (Bit(x, j) <==> Bit(y, j))
  }

  // --------------------------------------------------------------- masks

  /** A mask byte with `n` leading ones: Go's `^byte(0xff >> n)`, or a full
      byte once `n` reaches 8. */
  function MaskByte(n: nat): bv8 {
    if n >= 8 then 0xFF else !(0xFF >> n)
  }

  /** Go's `CIDRMask(ones, 8 * len)`: `len` bytes, filled with whole bytes
      of ones while at least eight ones remain, then one partial byte, then
      zero bytes. */
  function CidrMask(ones: nat, len: nat): (m: seq<bv8>)
    ensures |m| == len
    ensures forall k :: 0 <= k < len ==> m[k] == MaskByte(OnesFrom(ones, k))
  {
    if len == 0 then []
    else if ones >= 8 then [0xFF] + CidrMask(ones - 8, len - 1)
    else [MaskByte(ones)] + CidrMask(0, len - 1)
  }

  /** How many of the ones of a `ones`-bit prefix fall at or after byte
      `k`. */
  function OnesFrom(ones: nat, k: nat): nat {
    if ones >= 8 * k then ones - 8 * k else 0
  }

  /** Go's `IP.Mask` on an address and a mask of the same length: each byte
      ANDed with the mask byte. */
  function ApplyMask(b: seq<bv8>, m: seq<bv8>): (r: seq<bv8>)
    requires |b| == |m|
    ensures |r| == |b|
  {
    seq(|b|, i requires 0 <= i < |b| => b[i] & m[i])
  }

  /** `a` with every bit after the first `ones` cleared. */
  function Masked(a: Addr, ones: nat): (r: Addr)
    requires a.Valid()
    ensures r.Valid() && SameFamily(r, a)
  {
    a.(bytes := ApplyMask(a.bytes, CidrMask(ones, |a.bytes|)))
  }

  // ------------------------------------------------------------ networks

  /** A parsed network: its address and its prefix length. Go keeps the
      mask bytes, which are always `CidrMask(ones, ...)` for a parsed
      network; `Mask` gives them back. */
  datatype Net = Net(network: Addr, ones: nat) {
    predicate Valid() {
      network.Valid() && ones <= network.Width()
    }

    function Mask(): (m: seq<bv8>)
      requires Valid()
      ensures |m| == |network.bytes|
    {
      CidrMask(ones, |network.bytes|)
    }
  }

  /** The bits of the network address after the prefix are zero. */
  predicate HostBitsClear(n: Net)
    requires n.Valid()
  {
    forall i :: n.ones <= i < 8 * |n.network.bytes| ==> !AddrBit(n.network.bytes, i)
  }

  /** Go's `IPNet.Contains`, without the conversion of IPv4-mapped IPv6
      addresses: an address of another length is outside, otherwise every
      byte must agree with the network's under the mask. */
  predicate Contains(n: Net, a: Addr)
    requires n.Valid() && a.Valid()
    ensures Contains(n, a) ==> SameFamily(n.network, a)
  {
    var m := n.Mask();
    |a.bytes| == |n.network.bytes| &&
    forall i :: 0 <= i < |a.bytes| ==> AgreeUnder(n.network.bytes[i], a.bytes[i], m[i])
  }

  /** Two bytes agree on the bits a mask byte sets. */
  predicate AgreeUnder(x: bv8, y: bv8, m: bv8) {
    x & m == y & m
  }

  /** What a range means: same family, and the first `ones` bits agree with
      the network's. */
  predicate InRange(n: Net, a: Addr)
    requires n.Valid() && a.Valid()
  {
    SameFamily(n.network, a) && PrefixEqual(n.network.bytes, a.bytes, n.ones)
  }

  /** Go's `IPNet.Contains` as the loop it is: stop at the first byte that
      disagrees under the mask; the address is inside when there is none. */
  method ContainsLoop(n: Net, a: Addr) returns (r: bool)
    requires n.Valid() && a.Valid()
    ensures r <==> InRange(n, a)
  {
    InRangeByBytes(n, a);
    hide *;
    if |a.bytes| != |n.network.bytes| {
      return false;
    }
    var i := FirstDisagreement(n.network.bytes, a.bytes, n.Mask());
    r := i == |a.bytes|;
  }

  /** The loop of `IPNet.Contains`: the first byte at which `x` and `y`
      disagree under `m`, or the length when there is none. */
  method FirstDisagreement(x: seq<bv8>, y: seq<bv8>, m: seq<bv8>) returns (i: nat)
    requires |x| == |y| == |m|
    ensures i <= |x|
    ensures forall k :: 0 <= k < i ==> AgreesAt(x, y, m, k)
    ensures i < |x| ==> !AgreesAt(x, y, m, i)
  {
    i := 0;
    while i < |x| && AgreesAt(x, y, m, i)
      invariant i <= |x|
      invariant forall k :: 0 <= k < i ==> AgreesAt(x, y, m, k)
    {
      i := i + 1;
    }
  }

  /** Being in range, byte by byte: the loop's view of `InRange`. */
  lemma InRangeByBytes(n: Net, a: Addr)
    requires n.Valid() && a.Valid()
    ensures var nn, m := n.network.bytes, n.Mask();
      InRange(n, a) <==>
        |a.bytes| == |nn| && forall k :: 0 <= k < |a.bytes| ==> AgreesAt(nn, a.bytes, m, k)
  {
    ContainsIffInRange(n, a);
    var nn, m := n.network.bytes, n.Mask();
    forall k | 0 <= k < |a.bytes| && |a.bytes| == |nn|
      ensures AgreesAt(nn, a.bytes, m, k) == AgreeUnder(nn[k], a.bytes[k], m[k])
    {
    }
  }

  /** Byte `k` of `x` and `y` agree under byte `k` of `m`. */
  predicate AgreesAt(x: seq<bv8>, y: seq<bv8>, m: seq<bv8>, k: nat)
    requires k < |x| && k < |y| && k < |m|
  {
    AgreeUnder(x[k], y[k], m[k])
  }

  // ------------------------------------------------------------- parsing

  /** The address part of a CIDR text: IPv4 is tried first, then IPv6, as
      Go's `ParseCIDR` does; the family decides the allowed prefix
      length. */
  function CidrAddr(s: string): (r: Option<Addr>)
    ensures r.Some? ==> r.value.Valid()
  {
    match ParseIPv4(s)
    case Some(b) => Some(V4(b))
    case None =>
      match ParseIPv6(s)
      case Some(b) => Some(V6(b))
      case None => None
  }

  /** Go's `ParseCIDR`: an address, a `/`, and a decimal prefix length of at
      most the address width that uses up the rest of the text. The network
      is the address with its host bits cleared. */
  function ParseCidr(s: string): (r: Option<Net>)
    ensures r.Some? ==> r.value.Valid() && HostBitsClear(r.value)
  {
    match IndexOf(s, '/')
    case None => None
    case Some(i) =>
      var ip := CidrAddr(s[..i]);
      var mask := s[i + 1..];
      var d := Scan(mask, 10);
      if ip.None? || !d.ok || d.len != |mask| || d.value > ip.value.Width() then None
      else
        MaskedBitsAll(ip.value, d.value);
        Some(Net(Masked(ip.value, d.value), d.value))
  }

  /** The canonical CIDR text of a network. */
  function FormatCidr(n: Net): string
    requires n.Valid()
  {
    Format(n.network) + "/" + Digits(n.ones, 10)
  }

  // ------------------------------------------------------- byte lemmas

  /** The bits of a byte, read with literal masks. */
  lemma BitLiterals(x: bv8)
    ensures (Bit(x, 0) <==> x & 0x80 != 0) && (Bit(x, 1) <==> x & 0x40 != 0)
         && (Bit(x, 2) <==> x & 0x20 != 0) && (Bit(x, 3) <==> x & 0x10 != 0)
         && (Bit(x, 4) <==> x & 0x08 != 0) && (Bit(x, 5) <==> x & 0x04 != 0)
         && (Bit(x, 6) <==> x & 0x02 != 0) && (Bit(x, 7) <==> x & 0x01 != 0)
  {
  }

  /** A mask byte, read with literal masks, has ones exactly before bit
      `r`. */
  lemma MaskByteLiterals(r: nat)
    ensures (MaskByte(r) & 0x80 != 0 <==> 0 < r) && (MaskByte(r) & 0x40 != 0 <==> 1 < r)
         && (MaskByte(r) & 0x20 != 0 <==> 2 < r) && (MaskByte(r) & 0x10 != 0 <==> 3 < r)
         && (MaskByte(r) & 0x08 != 0 <==> 4 < r) && (MaskByte(r) & 0x04 != 0 <==> 5 < r)
         && (MaskByte(r) & 0x02 != 0 <==> 6 < r) && (MaskByte(r) & 0x01 != 0 <==> 7 < r)
  {
    if r == 0 { assert MaskByte(0) == 0x00; }
    else if r == 1 { assert MaskByte(1) == 0x80; }
    else if r == 2 { assert MaskByte(2) == 0xC0; }
    else if r == 3 { assert MaskByte(3) == 0xE0; }
    else if r == 4 { assert MaskByte(4) == 0xF0; }
    else if r == 5 { assert MaskByte(5) == 0xF8; }
    else if r == 6 { assert MaskByte(6) == 0xFC; }
    else if r == 7 { assert MaskByte(7) == 0xFE; }
  }

  /** Two bytes agree under a mask exactly when they agree on each bit the
      mask sets. */
  lemma AndEqualBits(x: bv8, y: bv8, m: bv8)
    ensures AgreeUnder(x, y, m) <==>
         && (m & 0x80 != 0 ==> (x & 0x80 != 0) == (y & 0x80 != 0))
         && (m & 0x40 != 0 ==> (x & 0x40 != 0) == (y & 0x40 != 0))
         && (m & 0x20 != 0 ==> (x & 0x20 != 0) == (y & 0x20 != 0))
         && (m & 0x10 != 0 ==> (x & 0x10 != 0) == (y & 0x10 != 0))
         && (m & 0x08 != 0 ==> (x & 0x08 != 0) == (y & 0x08 != 0))
         && (m & 0x04 != 0 ==> (x & 0x04 != 0) == (y & 0x04 != 0))
         && (m & 0x02 != 0 ==> (x & 0x02 != 0) == (y & 0x02 != 0))
         && (m & 0x01 != 0 ==> (x & 0x01 != 0) == (y & 0x01 != 0))
  {
  }

  /** `AgreeBelow` spelled out bit by bit. */
  lemma AgreeBelowUnrolled(x: bv8, y: bv8, r: nat)
    ensures AgreeBelow(x, y, r) <==>
         && (0 < r ==> (Bit(x, 0) <==> Bit(y, 0))) && (1 < r ==> (Bit(x, 1) <==> Bit(y, 1)))
         && (2 < r ==> (Bit(x, 2) <==> Bit(y, 2))) && (3 < r ==> (Bit(x, 3) <==> Bit(y, 3)))
         && (4 < r ==> (Bit(x, 4) <==> Bit(y, 4))) && (5 < r ==> (Bit(x, 5) <==> Bit(y, 5)))
         && (6 < r ==> (Bit(x, 6) <==> Bit(y, 6))) && (7 < r ==> (Bit(x, 7) <==> Bit(y, 7)))
  {
    hide Bit;
    if && (0 < r ==> (Bit(x, 0) <==> Bit(y, 0))) && (1 < r ==> (Bit(x, 1) <==> Bit(y, 1)))
       && (2 < r ==> (Bit(x, 2) <==> Bit(y, 2))) && (3 < r ==> (Bit(x, 3) <==> Bit(y, 3)))
       && (4 < r ==> (Bit(x, 4) <==> Bit(y, 4))) && (5 < r ==> (Bit(x, 5) <==> Bit(y, 5)))
       && (6 < r ==> (Bit(x, 6) <==> Bit(y, 6))) && (7 < r ==> (Bit(x, 7) <==> Bit(y, 7)))
    {
      forall j | 0 <= j < 8 && j < r
        ensures Bit(x, j) <==> Bit(y, j)
      {
        if j == 0 {} else if j == 1 {} else if j == 2 {} else if j == 3 {}
        else if j == 4 {} else if j == 5 {} else if j == 6 {}
      }
    }
  }

  /** Two bytes agree under a mask of `r` leading ones exactly when their
      first `r` bits agree. */
  lemma MaskedAgree(x: bv8, y: bv8, r: nat)
    ensures AgreeUnder(x, y, MaskByte(r)) <==> AgreeBelow(x, y, r)
  {
    AndEqualBits(x, y, MaskByte(r));
    BitLiterals(x);
    BitLiterals(y);
    MaskByteLiterals(r);
    AgreeBelowUnrolled(x, y, r);
  }

  /** Bit `j` of a mask byte is set exactly when `j < r`. */
  lemma MaskByteBit(r: nat, j: nat)
    requires j < 8
    ensures Bit(MaskByte(r), j) <==> j < r
  {
    BitLiterals(MaskByte(r));
    MaskByteLiterals(r);
    if j == 0 {} else if j == 1 {} else if j == 2 {} else if j == 3 {}
    else if j == 4 {} else if j == 5 {} else if j == 6 {}
  }

  /** A bit of `x & y` is set exactly when it is set in both. */
  lemma BitAnd(x: bv8, y: bv8, j: nat)
    requires j < 8
    ensures Bit(x & y, j) <==> Bit(x, j) && Bit(y, j)
  {
    BitLiterals(x);
    BitLiterals(y);
    BitLiterals(x & y);
    if j == 0 {} else if j == 1 {} else if j == 2 {} else if j == 3 {}
    else if j == 4 {} else if j == 5 {} else if j == 6 {}
  }

  /** Bytes whose eight bits agree are equal. */
  lemma ByteFromBits(x: bv8, y: bv8)
    requires AgreeBelow(x, y, 8)
    ensures x == y
  {
    MaskedAgree(x, y, 8);
  }

  // ------------------------------------------------------- mask lemmas

  /** Byte `k` of a CIDR mask has the ones of the prefix that fall in
      it. */
  lemma {:induction false} CidrMaskByte(ones: nat, len: nat, k: nat)
    requires k < len
    ensures CidrMask(ones, len)[k] == MaskByte(OnesFrom(ones, k))
  {
    if k > 0 {
      CidrMaskStep(ones, len, k);
      hide *;
      CidrMaskByte(if ones >= 8 then ones - 8 else 0, len - 1, k - 1);
    } else {
      CidrMaskFirst(ones, len);
    }
  }

  /** Byte `k > 0` of a CIDR mask is byte `k - 1` of the mask of the
      remaining bytes. */
  lemma CidrMaskStep(ones: nat, len: nat, k: nat)
    requires 0 < k < len
    ensures var rest := if ones >= 8 then ones - 8 else 0;
      CidrMask(ones, len)[k] == CidrMask(rest, len - 1)[k - 1]
      && OnesFrom(ones, k) == OnesFrom(rest, k - 1)
  {
    hide MaskByte;
  }

  /** The first byte of a CIDR mask holds up to eight of its ones. */
  lemma CidrMaskFirst(ones: nat, len: nat)
    requires 0 < len
    ensures CidrMask(ones, len)[0] == MaskByte(OnesFrom(ones, 0))
  {
  }

  /** Bit `i` of an index split into its byte and its bit within the
      byte. */
  lemma Split8(k: nat, j: nat)
    requires j < 8
    ensures (8 * k + j) / 8 == k && (8 * k + j) % 8 == j
  {
  }

  /** Bit `i` of a CIDR mask is set exactly when `i < ones`. */
  lemma CidrMaskBit(ones: nat, len: nat, i: nat)
    requires i < 8 * len
    ensures AddrBit(CidrMask(ones, len), i) <==> i < ones
  {
    var k, j := i / 8, i % 8;
    CidrMaskByte(ones, len, k);
    MaskByteBit(OnesFrom(ones, k), j);
  }

  /** Masking keeps the first `ones` bits and clears the others. */
  lemma MaskedBit(b: seq<bv8>, ones: nat, i: nat)
    requires i < 8 * |b|
    ensures AddrBit(ApplyMask(b, CidrMask(ones, |b|)), i) <==> i < ones && AddrBit(b, i)
  {
    var m := CidrMask(ones, |b|);
    CidrMaskBit(ones, |b|, i);
    BitAnd(b[i / 8], m[i / 8], i % 8);
  }

  /** A masked address keeps its prefix and has its host bits clear. */
  lemma MaskedBitsAll(a: Addr, ones: nat)
    requires a.Valid() && ones <= a.Width()
    ensures PrefixEqual(Masked(a, ones).bytes, a.bytes, ones)
    ensures HostBitsClear(Net(Masked(a, ones), ones))
  {
    forall i | 0 <= i < 8 * |a.bytes| {
      MaskedBit(a.bytes, ones, i);
    }
  }

  /** Byte strings whose bits all agree are equal. */
  lemma BytesFromBits(x: seq<bv8>, y: seq<bv8>)
    requires |x| == |y| && PrefixEqual(x, y, 8 * |x|)
    ensures x == y
  {
    forall k | 0 <= k < |x|
      ensures x[k] == y[k]
    {
      forall j | 0 <= j < 8
        ensures Bit(x[k], j) <==> Bit(y[k], j)
      {
        Split8(k, j);
        assert AddrBit(x, 8 * k + j) <==> AddrBit(y, 8 * k + j);
      }
      ByteFromBits(x[k], y[k]);
    }
  }

  // ---------------------------------------------------- membership lemma

  /** Bytes `k` of `x` and `y` agree under the mask of a `ones`-bit prefix
      exactly when the prefix bits in byte `k` agree. */
  lemma ByteUnderMask(x: seq<bv8>, y: seq<bv8>, ones: nat, k: nat)
    requires |x| == |y| && k < |x|
    ensures AgreeUnder(x[k], y[k], CidrMask(ones, |x|)[k]) <==> AgreeBelow(x[k], y[k], OnesFrom(ones, k))
  {
    hide *;
    CidrMaskByte(ones, |x|, k);
    MaskedAgree(x[k], y[k], OnesFrom(ones, k));
  }

  /** The first `ones` bits agree exactly when every byte agrees on the
      prefix bits it holds. */
  lemma PrefixByBytes(x: seq<bv8>, y: seq<bv8>, ones: nat)
    requires |x| == |y| && ones <= 8 * |x|
    ensures PrefixEqual(x, y, ones) <==> forall k :: 0 <= k < |x| ==> AgreeBelow(x[k], y[k], OnesFrom(ones, k))
  {
    if PrefixEqual(x, y, ones) {
      forall k | 0 <= k < |x|
        ensures AgreeBelow(x[k], y[k], OnesFrom(ones, k))
      {
        forall j | 0 <= j < 8 && j < OnesFrom(ones, k)
          ensures Bit(x[k], j) <==> Bit(y[k], j)
        {
          Split8(k, j);
          assert AddrBit(x, 8 * k + j) <==> AddrBit(y, 8 * k + j);
        }
      }
    }
    if forall k :: 0 <= k < |x| ==> AgreeBelow(x[k], y[k], OnesFrom(ones, k)) {
      forall i | 0 <= i < ones
        ensures AddrBit(x, i) <==> AddrBit(y, i)
      {
        var k, j := i / 8, i % 8;
        assert AgreeBelow(x[k], y[k], OnesFrom(ones, k));
      }
    }
  }

  /** Go's byte-wise test under the mask is the prefix test: an address
      lies in a network exactly when its first `ones` bits agree with the
      network's. */
  lemma ContainsIffInRange(n: Net, a: Addr)
    requires n.Valid() && a.Valid()
    ensures Contains(n, a) <==> InRange(n, a)
  {
    var x, y := n.network.bytes, a.bytes;
    if |x| == |y| {
      forall k | 0 <= k < |x| {
        ByteUnderMask(x, y, n.ones, k);
      }
      PrefixByBytes(x, y, n.ones);
    }
  }

  // ------------------------------------------------------ range lemmas

  /** The address a range was written with lies in that range. */
  lemma MaskedInRange(a: Addr, ones: nat)
    requires a.Valid() && ones <= a.Width()
    ensures InRange(Net(Masked(a, ones), ones), a)
  {
    MaskedBitsAll(a, ones);
  }

  /** A range whose prefix is the whole address admits exactly the network
      address. */
  lemma SingleAddress(n: Net, a: Addr)
    requires n.Valid() && a.Valid() && n.ones == n.network.Width()
    ensures InRange(n, a) <==> a == n.network
  {
    if InRange(n, a) {
      BytesFromBits(n.network.bytes, a.bytes);
    }
  }

  /** Masking an address whose host bits are already clear changes
      nothing. */
  lemma MaskedClear(n: Net)
    requires n.Valid() && HostBitsClear(n)
    ensures Masked(n.network, n.ones) == n.network
  {
    var a := n.network;
    var b := Masked(a, n.ones).bytes;
    forall i | 0 <= i < 8 * |a.bytes|
      ensures AddrBit(b, i) <==> AddrBit(a.bytes, i)
    {
      MaskedBit(a.bytes, n.ones, i);
    }
    BytesFromBits(b, a.bytes);
  }

  // ---------------------------------------------------- parsing lemmas

  /** Every address `ParseIP` accepts is read the same way in a CIDR, even
      though a CIDR tries IPv4 before looking at the separators. */
  lemma CidrAddrOfParseIP(s: string)
    requires ParseIP(s).Some?
    ensures CidrAddr(s) == ParseIP(s)
  {
    if FirstSeparator(s) != Some('.') {
      IPv4NeedsDotFirst(s);
    }
  }

  /** Address text holds no slash. */
  lemma AddrTextNoSlash(s: string)
    requires AddrText(s)
    ensures '/' !in s
  {
  }

  /** The first slash of `t + "/" + rest`, when `t` has none, is the one
      after `t`. */
  lemma SlashSplit(t: string, rest: string)
    requires '/' !in t
    ensures IndexOf(t + "/" + rest, '/') == Some(|t|)
    ensures (t + "/" + rest)[..|t|] == t && (t + "/" + rest)[|t| + 1..] == rest
  {
    assert (t + "/" + rest)[|t|] == '/';
  }

  /** An address, a slash and a prefix length of at most the address width
      read as the range of that address with its host bits cleared. */
  lemma ParseCidrOf(t: string, ones: nat)
    requires '/' !in t && ParseIP(t).Some?
    requires ones <= ParseIP(t).value.Width()
    ensures ParseCidr(t + "/" + Digits(ones, 10)) == Some(Net(Masked(ParseIP(t).value, ones), ones))
  {
    SlashSplit(t, Digits(ones, 10));
    CidrAddrOfParseIP(t);
    ScanDigits(ones, 10, "");
    assert Digits(ones, 10) + "" == Digits(ones, 10);
  }

  /** A prefix length wider than the address is refused. */
  lemma PrefixTooLong(t: string, ones: nat)
    requires '/' !in t && ParseIP(t).Some?
    requires ones > ParseIP(t).value.Width()
    ensures ParseCidr(t + "/" + Digits(ones, 10)) == None
  {
    SlashSplit(t, Digits(ones, 10));
    CidrAddrOfParseIP(t);
    ScanDigits(ones, 10, "");
    assert Digits(ones, 10) + "" == Digits(ones, 10);
  }

  /** Text without a slash, the empty text among it, is not a CIDR. */
  lemma NoSlashNoCidr(s: string)
    requires '/' !in s
    ensures ParseCidr(s) == None
  {
  }

  /** A slash with no prefix length after it is not a CIDR. */
  lemma EmptyPrefixNoCidr(t: string)
    requires '/' !in t
    ensures ParseCidr(t + "/") == None
  {
    SlashSplit(t, "");
    assert t + "/" + "" == t + "/";
  }

  /** A network reads back from its canonical text: `FormatCidr` inverts
      `ParseCidr` on the networks `ParseCidr` produces. */
  lemma ParseFormatCidr(n: Net)
    requires n.Valid() && HostBitsClear(n)
    ensures ParseCidr(FormatCidr(n)) == Some(n)
  {
    FormatText(n.network);
    AddrTextNoSlash(Format(n.network));
    ParseFormat(n.network);
    ParseCidrOf(Format(n.network), n.ones);
    MaskedClear(n);
  }

  /** Parsing normalises: the canonical text of a parsed range parses to
      the same range. */
  lemma ParseCidrCanonical(s: string)
    requires ParseCidr(s).Some?
    ensures ParseCidr(FormatCidr(ParseCidr(s).value)) == ParseCidr(s)
  {
    ParseFormatCidr(ParseCidr(s).value);
  }

  /** Compressed IPv6 text followed by a prefix length reads as the range
      of that address. */
  lemma ParseCompressedCidr(b: seq<bv8>, i: nat, j: nat, ones: nat)
    requires |b| == 16 && i < j <= 8 && ZeroGroups(b, i, j) && ones <= 128
    ensures ParseCidr(FormatIPv6Compressed(b, i, j) + "/" + Digits(ones, 10)) == Some(Net(Masked(V6(b), ones), ones))
  {
    CompressedFormatText(b, i, j);
    AddrTextNoSlash(FormatIPv6Compressed(b, i, j));
    ParseCompressed(b, i, j);
    ParseCidrOf(FormatIPv6Compressed(b, i, j), ones);
  }
}
