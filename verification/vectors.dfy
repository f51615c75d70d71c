/** The cases of the middleware's own tests, stated as facts about the
    model: what construction returns for each list of entries, and how the
    ranges decide the addresses the tests let through or turn away. */
module Vectors {
  import opened Wrappers
  import opened Text
  import opened IPAddr
  import opened IPNet
  import opened HostPort
  import opened Whitelist


  // --------------------------------------------------- the tests' requests

  /** The port of every request in the handler tests. */
  const Port: string := "2342"

  /** The remote address of the requests that carry an address in a
      header, and its address. */
  const Proxy: string := "254.254.254.254:2342"
  const ProxyAddr: Addr := V4(FromOctets([254, 254, 254, 254]))

  predicate IsBracket(c: char) {
    c == '[' || c == ']'
  }

  /** Go's `strings.Trim(s, "[]")`: brackets are removed from both ends. */
  function TrimBrackets(s: string): (r: string)
    ensures |r| <= |s|
    ensures |r| > 0 ==> !IsBracket(r[0]) && !IsBracket(r[|r| - 1])
    ensures |s| > 0 && !IsBracket(s[0]) && !IsBracket(s[|s| - 1]) ==> r == s
  {
    if |s| > 0 && IsBracket(s[0]) then TrimBrackets(s[1..])
    else if |s| > 0 && IsBracket(s[|s| - 1]) then TrimBrackets(s[..|s| - 1])
    else s
  }

  /** Trimming the brackets of `[t]` gives back `t`. */
  lemma TrimBracketsListed(t: string)
    requires t != "" && !IsBracket(t[0]) && !IsBracket(t[|t| - 1])
    ensures TrimBrackets("[" + t + "]") == t
  {
    var s := "[" + t + "]";
    assert s[1..] == t + "]";
    assert (t + "]")[..|t|] == t;
  }

  /** `t` is address text that reads as `a`. */
  predicate Names(t: string, a: Addr) {
    ParseIP(t) == Some(a) && t != "" && AddrText(t)
  }

  /** The test writes address text `t` as `ip`: as it is when it has no
      colon, in brackets when it has one. */
  predicate ListedAs(ip: string, t: string, a: Addr) {
    Names(t, a) && ((ip == t && ':' !in t) || (':' in t && ip == "[" + t + "]"))
  }

  lemma ListedPlain(t: string, a: Addr)
    requires Names(t, a) && ':' !in t
    ensures ListedAs(t, t, a)
  {
  }

  lemma ListedBracketed(t: string, ip: string, a: Addr)
    requires Names(t, a) && ':' in t && ip == "[" + t + "]"
    ensures ListedAs(ip, t, a)
  {
  }

  /** Address text has no bracket, comma or white space. */
  lemma PlainAddrText(t: string)
    requires AddrText(t) && t != ""
    ensures !IsBracket(t[0]) && !IsBracket(t[|t| - 1]) && '[' !in t && ']' !in t && ',' !in t
    ensures !IsSpace(t[0]) && !IsSpace(t[|t| - 1])
  {
    assert forall c :: c in t ==> IsHexDigit(c) || c == '.' || c == ':';
  }

  /** `entries` build the whitelister of `ranges`, with header trust off
      and on. */
  predicate Builds(entries: seq<string>, ranges: seq<Net>) {
    && NewIPWhitelister(entries, false) == Success(IPWhitelister(ranges, false))
    && NewIPWhitelister(entries, true) == Success(IPWhitelister(ranges, true))
  }

  /** What the handler test checks of an address it lists as let through,
      `ip` written as the test writes it. Both whitelisters are built; the
      address passes as the remote address without header trust; without
      its brackets it passes in `X-Forwarded-For` with header trust and not
      without it, and passes in `X-Real-Ip` with header trust. */
  predicate Passes(entries: seq<string>, ip: string) {
    var wf, wt := NewIPWhitelister(entries, false), NewIPWhitelister(entries, true);
    && wf.Success? && wt.Success?
    && Decide(wf.value, Request(ip + ":" + Port, "", "")) == Allow
    && Decide(wt.value, Request(Proxy, TrimBrackets(ip), "")) == Allow
    && Decide(wf.value, Request(Proxy, TrimBrackets(ip), "")) == Deny
    && Decide(wt.value, Request(Proxy, "", TrimBrackets(ip))) == Allow
  }

  /** What the handler test checks of an address it lists as turned away:
      both whitelisters are built, and the address is denied as the remote
      address without header trust and, without its brackets, in
      `X-Forwarded-For` with header trust. */
  predicate Rejected(entries: seq<string>, ip: string) {
    var wf, wt := NewIPWhitelister(entries, false), NewIPWhitelister(entries, true);
    && wf.Success? && wt.Success?
    && Decide(wf.value, Request(ip + ":" + Port, "", "")) == Deny
    && Decide(wt.value, Request(Proxy, TrimBrackets(ip), "")) == Deny
  }

  /** What the multi-hop test checks: the whitelister with header trust is
      built, and `X-Forwarded-For` holding `xff` without brackets at its
      ends gets decision `d`. */
  predicate Forwarded(entries: seq<string>, xff: string, d: Decision) {
    var wt := NewIPWhitelister(entries, true);
    wt.Success? && Decide(wt.value, Request(Proxy, TrimBrackets(xff), "")) == d
  }

  /** Entries that each read as the range at the same place build the
      whitelister of those ranges. */
  lemma BuildsOf(entries: seq<string>, ranges: seq<Net>)
    requires |entries| == |ranges| > 0
    requires forall i :: 0 <= i < |entries| ==> ParseCidr(entries[i]) == Some(ranges[i])
    ensures Builds(entries, ranges) && ValidRanges(ranges)
  {
    ParseAllSucceeds(entries);
    var ns := NewIPWhitelister(entries, false).value.whitelists;
    assert ns == ranges by {
      assert forall i :: 0 <= i < |ns| ==> Some(ns[i]) == Some(ranges[i]);
    }
    assert NewIPWhitelister(entries, true).value.whitelists == ns;
  }

  /** The remote address `ip:2342` is decided by the address text `t` the
      test writes as `ip`. */
  lemma RemoteListed(w: IPWhitelister, ip: string, t: string)
    requires w.Valid() && !w.useHeader && AddrText(t) && t != ""
    requires (ip == t && ':' !in t) || ip == "[" + t + "]"
    ensures Decide(w, Request(ip + ":" + Port, "", "")) == DecideAddr(w, t)
  {
    ListedSplits(ip, t);
    hide SplitHostPort, ParseIP;
  }

  lemma ListedSplits(ip: string, t: string)
    requires AddrText(t) && t != ""
    requires (ip == t && ':' !in t) || ip == "[" + t + "]"
    ensures SplitHostPort(ip + ":" + Port) == Success(Parts(t, Port))
  {
    PlainAddrText(t);
    var p := Parts(t, Port);
    assert Clean(p);
    assert ip + ":" + Port == JoinHostPort(p) || ip + ":" + Port == "[" + t + "]:" + Port;
    hide *;
    SplitHostPortIff(ip + ":" + Port, p);
  }

  /** A request from the proxy is decided by the proxy's address when the
      headers are not looked at. */
  lemma ProxyDecides(w: IPWhitelister, forwardedFor: string, realIp: string)
    requires w.Valid() && (!w.useHeader || (forwardedFor == "" && realIp == ""))
    ensures Decide(w, Request(Proxy, forwardedFor, realIp)) == if Admits(w.whitelists, ProxyAddr) then Allow else Deny
  {
    ProxySplits();
    ProxyParses();
    hide SplitHostPort, ParseIP;
  }

  lemma ProxySplits()
    ensures SplitHostPort(Proxy) == Success(Parts("254.254.254.254", Port))
  {
    ProxyParses();
    PlainAddrText("254.254.254.254");
    ProxyJoined();
    hide *;
    PlainSplits("254.254.254.254");
  }

  lemma ProxyJoined()
    ensures Proxy == "254.254.254.254" + ":" + Port
  {
  }

  lemma ProxyParses()
    ensures Names("254.254.254.254", ProxyAddr) && ':' !in "254.254.254.254"
  {
    Dec254();
    assert OctetValues([254, 254, 254, 254]);
    hide Digits, FromOctets;
    QuadNames([254, 254, 254, 254], ["254", "254", "254", "254"], "254.254.254.254");
  }

  lemma Dec254()
    ensures Digits(254, 10) == "254"
  {
    assert Digits(25, 10) == "25";
  }

  lemma ProxyOctets()
    ensures ProxyAddr == V4(FromOctets([254, 254, 254, 254])) && OctetValues([254, 254, 254, 254])
  {
  }

  /** The handler test's checks of an address the test writes as `ip`:
      when the ranges hold it, and do not hold the proxy's address, it
      passes all four; when they do not hold it, it fails both of its
      checks. */
  lemma Checked(entries: seq<string>, ranges: seq<Net>, ip: string, t: string, a: Addr)
    requires Builds(entries, ranges) && ValidRanges(ranges)
    requires ListedAs(ip, t, a) && !Admits(ranges, ProxyAddr)
    ensures Admits(ranges, a) ==> Passes(entries, ip)
    ensures !Admits(ranges, a) ==> Rejected(entries, ip)
  {
    var wf, wt := IPWhitelister(ranges, false), IPWhitelister(ranges, true);
    PlainAddrText(t);
    if ip != t {
      TrimBracketsListed(t);
    }
    assert TrimBrackets(ip) == t;
    RemoteListed(wf, ip, t);
    ForwardedHostDecides(wt, Proxy, t, "");
    ProxyDecides(wf, t, "");
    RealIpHostDecides(wt, Proxy, t);
  }

  /** Text that is not an address, has no colon, comma or bracket, and no
      white space at its ends fails both checks of the handler test. */
  lemma RejectedText(entries: seq<string>, ranges: seq<Net>, ip: string)
    requires Builds(entries, ranges) && ValidRanges(ranges)
    requires ip != "" && ParseIP(ip) == None
    requires ':' !in ip && ',' !in ip && '[' !in ip && ']' !in ip
    requires !IsSpace(ip[0]) && !IsSpace(ip[|ip| - 1])
    ensures Rejected(entries, ip)
  {
    var wf, wt := IPWhitelister(ranges, false), IPWhitelister(ranges, true);
    PlainSplits(ip);
    assert TrimBrackets(ip) == ip by {
      assert ip[0] in ip && ip[|ip| - 1] in ip;
    }
    hide SplitHostPort, ParseIP;
    ForwardedHostDecides(wt, Proxy, ip, "");
  }

  lemma PlainSplits(h: string)
    requires ':' !in h && '[' !in h && ']' !in h
    ensures SplitHostPort(h + ":" + Port) == Success(Parts(h, Port))
  {
    var p := Parts(h, Port);
    assert Clean(p) && h + ":" + Port == JoinHostPort(p);
    hide *;
    SplitJoin(p);
  }

  /** With header trust, `X-Forwarded-For` holding `t` as its last hop,
      after any earlier hops, is decided by `t` alone. */
  lemma ForwardedLast(entries: seq<string>, ranges: seq<Net>, xff: string, earlier: string, t: string, a: Addr)
    requires Builds(entries, ranges) && ValidRanges(ranges)
    ensures ListedAs(t, t, a) && (xff == t || (earlier != "" && !IsBracket(earlier[0]) && xff == earlier + "," + t))
      ==> Forwarded(entries, xff, if Admits(ranges, a) then Allow else Deny)
  {
    if !ListedAs(t, t, a) || !(xff == t || (earlier != "" && !IsBracket(earlier[0]) && xff == earlier + "," + t)) {
      return;
    }
    var wt := IPWhitelister(ranges, true);
    PlainAddrText(t);
    assert TrimBrackets(xff) == xff by {
      if xff != t {
        assert xff[0] == earlier[0] && xff[|xff| - 1] == t[|t| - 1];
      }
    }
    ForwardedHostDecides(wt, Proxy, t, "");
    if xff != t {
      LastHopOnly(wt, earlier, t, Proxy, Proxy, "", "");
    }
  }
  // ------------------------------------------------------------- helpers

  // -------------------------------------------------- dotted-quad text

  /** Decimal digits and dots only. */
  predicate DottedText(s: string) {
    forall i :: 0 <= i < |s| ==> IsDigit(s[i]) || s[i] == '.'
  }

  lemma DottedConcat(x: string, y: string)
    requires DottedText(x) && DottedText(y)
    ensures DottedText(x + y)
  {
    forall i | 0 <= i < |x + y|
      ensures IsDigit((x + y)[i]) || (x + y)[i] == '.'
    {
      if i >= |x| {
        assert (x + y)[i] == y[i - |x|];
      }
    }
  }

  lemma DecimalDotted(n: nat)
    ensures DottedText(Digits(n, 10))
  {
    DigitsValue(n, 10);
  }

  lemma {:induction false} DotTailDotted(b: seq<bv8>, k: nat)
    requires k <= |b|
    ensures DottedText(DotTail(b, k))
    decreases |b| - k
  {
    if k < |b| {
      var d := Digits(b[k] as nat, 10);
      assert DotTail(b, k) == "." + d + DotTail(b, k + 1);
      assert DottedText(".");
      DecimalDotted(b[k] as nat);
      hide *;
      DotTailDotted(b, k + 1);
      DottedConcat(".", d);
      DottedConcat("." + d, DotTail(b, k + 1));
    }
  }

  /** The canonical text of four bytes is address text that reads as
      them, without a colon. */
  lemma NamesQuad(b: seq<bv8>, t: string)
    requires |b| == 4 && FormatIPv4(b) == t
    ensures Names(t, V4(b)) && ':' !in t
  {
    QuadParses(b);
    QuadDotted(b);
    FormatText(V4(b));
    assert Format(V4(b)) == t;
    hide *;
    DottedNoColon(t);
  }

  lemma QuadParses(b: seq<bv8>)
    requires |b| == 4
    ensures ParseIP(FormatIPv4(b)) == Some(V4(b))
  {
    ParseFormat(V4(b));
    assert Format(V4(b)) == FormatIPv4(b);
  }

  lemma QuadDotted(b: seq<bv8>)
    requires |b| == 4
    ensures DottedText(FormatIPv4(b)) && FormatIPv4(b) != ""
  {
    DecimalDotted(b[0] as nat);
    DotTailDotted(b, 1);
    DottedConcat(Digits(b[0] as nat, 10), DotTail(b, 1));
  }

  lemma DottedNoColon(s: string)
    requires DottedText(s)
    ensures ':' !in s
  {
    assert forall c :: c in s ==> IsDigit(c) || c == '.';
  }

  /** Compressed IPv6 text is address text that reads as its sixteen
      bytes, with a colon. */
  lemma NamesCompressed(b: seq<bv8>, i: nat, j: nat, t: string)
    requires |b| == 16 && i < j <= 8 && ZeroGroups(b, i, j)
    requires FormatIPv6Compressed(b, i, j) == t
    ensures Names(t, V6(b)) && ':' in t
  {
    ParseCompressed(b, i, j);
    CompressedFormatText(b, i, j);
    var left := if i == 0 then "" else GroupsText(b, 0, i);
    assert t[|left|] == ':';
  }

  /** Uncompressed IPv6 text is address text that reads as its sixteen
      bytes, with a colon. */
  lemma NamesFull(b: seq<bv8>, t: string)
    requires |b| == 16 && FormatIPv6(b) == t
    ensures Names(t, V6(b)) && ':' in t
  {
    ParseFormat(V6(b));
    FormatText(V6(b));
    FullColon(b);
    assert Format(V6(b)) == t;
  }

  lemma FullColon(b: seq<bv8>)
    requires |b| == 16
    ensures ':' in FormatIPv6(b)
  {
    var d := Digits(Group(b, 0), 16);
    assert FormatIPv6(b) == d + ColonTail(b, 1, 8);
    assert ColonTail(b, 1, 8)[0] == ':';
    assert FormatIPv6(b)[|d|] == ':';
  }

  // -------------------------------------------------- whole-byte ranges

  /** A mask of `8k` ones is `k` bytes `0xFF` followed by zero bytes. */
  lemma WholeByteMask(k: nat, len: nat, i: nat)
    requires i < len
    ensures CidrMask(8 * k, len)[i] == if i < k then 0xFF else 0
  {
    CidrMaskByte(8 * k, len, i);
  }

  /** Bytes agree under a whole mask byte when equal, and always under a
      zero one. */
  lemma AgreeUnderWhole(x: bv8, y: bv8)
    ensures AgreeUnder(x, y, 0xFF) <==> x == y
    ensures AgreeUnder(x, y, 0)
  {
  }

  /** A range whose prefix is `k` whole bytes holds the addresses of its
      length that start with its first `k` bytes. */
  lemma WholeBytePrefix(n: Net, a: Addr, k: nat)
    requires n.Valid() && a.Valid() && n.ones == 8 * k
    ensures Contains(n, a) <==>
      |a.bytes| == |n.network.bytes| && a.bytes[..k] == n.network.bytes[..k]
  {
    var nn, m := n.network.bytes, n.Mask();
    InRangeByBytes(n, a);
    ContainsIffInRange(n, a);
    WholeByteMaskAll(n, k);
    hide *;
    if |a.bytes| == |nn| {
      AgreesPrefix(nn, a.bytes, m, k);
    }
  }

  lemma WholeByteMaskAll(n: Net, k: nat)
    requires n.Valid() && n.ones == 8 * k
    ensures var m := n.Mask();
      && k <= |m| && forall i :: 0 <= i < |m| ==> m[i] == if i < k then 0xFF else 0
  {
    forall i | 0 <= i < |n.Mask()|
      ensures n.Mask()[i] == if i < k then 0xFF else 0
    {
      WholeByteMask(k, |n.network.bytes|, i);
    }
  }

  /** Agreeing under `k` whole mask bytes and then zero bytes is agreeing
      on the first `k` bytes. */
  lemma AgreesPrefix(x: seq<bv8>, y: seq<bv8>, m: seq<bv8>, k: nat)
    requires |x| == |y| == |m| && k <= |m|
    requires forall i :: 0 <= i < |m| ==> m[i] == if i < k then 0xFF else 0
    ensures (forall i :: 0 <= i < |x| ==> AgreesAt(x, y, m, i)) <==> y[..k] == x[..k]
  {
    forall i | 0 <= i < |x|
      ensures AgreesAt(x, y, m, i) <==> (i < k ==> x[i] == y[i])
    {
      AgreeUnderWhole(x[i], y[i]);
    }
    assert y[..k] == x[..k] <==> forall i :: 0 <= i < k ==> x[i] == y[i];
  }

  /** Masking with `k` whole bytes keeps the first `k` bytes and clears
      the rest. */
  lemma MaskedWholeBytes(a: Addr, k: nat, c: seq<bv8>)
    requires a.Valid() && 8 * k <= a.Width() && |c| == |a.bytes|
    requires c[..k] == a.bytes[..k] && c[k..] == Zeros(|c| - k)
    ensures Masked(a, 8 * k) == a.(bytes := c)
  {
    var b := Masked(a, 8 * k).bytes;
    forall i | 0 <= i < |b|
      ensures b[i] == c[i]
    {
      WholeByteMask(k, |a.bytes|, i);
      AgreeUnderWhole(a.bytes[i], 0);
      if i < k {
        assert c[i] == c[..k][i];
      } else {
        assert c[i] == c[k..][i - k];
      }
    }
  }

  // ------------------------------------------------------ test addresses

  /** Values below 256, as the octets of an IPv4 address. */
  predicate OctetValues(os: seq<nat>) {
    forall k :: 0 <= k < |os| ==> os[k] < 256
  }

  /** The bytes of an address given by its octets. */
  function FromOctets(os: seq<nat>): (b: seq<bv8>)
    requires OctetValues(os)
    ensures |b| == |os|
    ensures forall k :: 0 <= k < |os| ==> b[k] as nat == os[k]
  {
    forall k | 0 <= k < |os| {
      NatByte(os[k]);
    }
    seq(|os|, k requires 0 <= k < |os| => os[k] as bv8)
  }

  /** A value below 256 survives the round trip through a byte. */
  lemma NatByte(v: nat)
    requires v < 256
    ensures (v as bv8) as nat == v
  {
    ByteOfNat(ToByte(v), v);
  }

  /** The byte of value `v`, counted up from zero. */
  function ToByte(v: nat): (x: bv8)
    requires v < 256
    ensures x as nat == v
  {
    if v == 0 then 0
    else
      var y := ToByte(v - 1);
      SuccByte(y);
      y + 1
  }

  lemma SuccByte(y: bv8)
    requires y as nat < 255
    ensures (y + 1) as nat == y as nat + 1
  {
  }

  /** Two octet lists agree on their first `k` bytes exactly when they
      agree on their first `k` values. */
  lemma OctetsPrefix(os: seq<nat>, ns: seq<nat>, k: nat)
    requires OctetValues(os) && OctetValues(ns) && |os| == |ns| && k <= |os|
    ensures FromOctets(os)[..k] == FromOctets(ns)[..k] <==> os[..k] == ns[..k]
  {
    var b, c := FromOctets(os), FromOctets(ns);
    hide *;
    SlicesAgree(b, c, k);
    SlicesAgree(os, ns, k);
    forall m | 0 <= m < k
      ensures b[m] == c[m] <==> os[m] == ns[m]
    {
      BytesAgree(b[m], c[m]);
    }
  }

  /** Two prefixes are equal exactly when they agree at every place. */
  lemma SlicesAgree<T>(xs: seq<T>, ys: seq<T>, k: nat)
    requires k <= |xs| && k <= |ys|
    ensures xs[..k] == ys[..k] <==> forall m :: 0 <= m < k ==> xs[m] == ys[m]
  {
    if forall m :: 0 <= m < k ==> xs[m] == ys[m] {
      assert forall m :: 0 <= m < k ==> xs[..k][m] == ys[..k][m];
    }
  }

  lemma BytesAgree(x: bv8, y: bv8)
    ensures x == y <==> x as nat == y as nat
  {
  }

  /** Sixteen-bit values, as the groups of an IPv6 address. */
  predicate GroupValues(gs: seq<nat>) {
    forall k :: 0 <= k < |gs| ==> gs[k] < 0x1_0000
  }

  /** The octets of 16-bit groups, high octet first. */
  function GroupOctets(gs: seq<nat>): (os: seq<nat>)
    requires GroupValues(gs)
    ensures |os| == 2 * |gs| && OctetValues(os)
    ensures forall k :: 0 <= k < |gs| ==> os[2 * k] * 256 + os[2 * k + 1] == gs[k]
  {
    GroupHalvesValues(gs);
    GroupHalves(gs)
  }

  function GroupHalves(gs: seq<nat>): seq<nat> {
    seq(2 * |gs|, m requires 0 <= m < 2 * |gs| => if m % 2 == 0 then gs[m / 2] / 256 else gs[m / 2] % 256)
  }

  lemma GroupHalvesValues(gs: seq<nat>)
    requires GroupValues(gs)
    ensures |GroupHalves(gs)| == 2 * |gs| && OctetValues(GroupHalves(gs))
    ensures forall k :: 0 <= k < |gs| ==> GroupHalves(gs)[2 * k] * 256 + GroupHalves(gs)[2 * k + 1] == gs[k]
  {
    var os := GroupHalves(gs);
    forall k | 0 <= k < |gs|
      ensures os[2 * k] * 256 + os[2 * k + 1] == gs[k]
    {
      assert os[2 * k] == gs[k] / 256 && os[2 * k + 1] == gs[k] % 256;
    }
    forall m | 0 <= m < |os|
      ensures os[m] < 256
    {
      assert gs[m / 2] < 0x1_0000;
    }
  }

  /** The bytes of an address given by its 16-bit groups. */
  function FromGroups(gs: seq<nat>): (b: seq<bv8>)
    requires GroupValues(gs)
    ensures |b| == 2 * |gs|
  {
    FromOctets(GroupOctets(gs))
  }

  /** Every group of the bytes is the value it was made from. */
  lemma FromGroupsGroups(gs: seq<nat>)
    requires |gs| == 8 && GroupValues(gs)
    ensures forall k :: 0 <= k < 8 ==> Group(FromGroups(gs), k) == gs[k]
  {
    var os := GroupOctets(gs);
    var b := FromOctets(os);
    hide FromOctets, GroupOctets;
    forall k | 0 <= k < 8
      ensures Group(b, k) == gs[k]
    {
      assert b[2 * k] as nat == os[2 * k] && b[2 * k + 1] as nat == os[2 * k + 1];
    }
  }

  /** Zero values from `i` to `j` give zero bytes from `2i` to `2j`. */
  lemma FromGroupsZero(gs: seq<nat>, i: nat, j: nat)
    requires GroupValues(gs) && i <= j <= |gs|
    requires forall k :: i <= k < j ==> gs[k] == 0
    ensures forall m :: 2 * i <= m < 2 * j ==> FromGroups(gs)[m] == 0
  {
    var os := GroupOctets(gs);
    var b := FromOctets(os);
    hide FromOctets, GroupOctets;
    forall m | 2 * i <= m < 2 * j
      ensures b[m] == 0
    {
      var k := m / 2;
      assert os[2 * k] * 256 + os[2 * k + 1] == 0;
      assert b[m] as nat == os[m] == 0;
    }
  }

  /** Two group lists agree on their first `2k` octets exactly when they
      agree on their first `k` values. */
  lemma GroupOctetsPrefix(gs: seq<nat>, ns: seq<nat>, k: nat)
    requires |gs| == |ns| && GroupValues(gs) && GroupValues(ns) && k <= |gs|
    ensures GroupOctets(gs)[..2 * k] == GroupOctets(ns)[..2 * k] <==> gs[..k] == ns[..k]
  {
    var x, y := GroupOctets(gs), GroupOctets(ns);
    if x[..2 * k] == y[..2 * k] {
      forall m | 0 <= m < k
        ensures gs[m] == ns[m]
      {
        assert x[2 * m] == x[..2 * k][2 * m] && x[2 * m + 1] == x[..2 * k][2 * m + 1];
      }
      assert gs[..k] == ns[..k];
    }
    if gs[..k] == ns[..k] {
      forall m | 0 <= m < 2 * k
        ensures x[m] == y[m]
      {
        assert gs[m / 2] == gs[..k][m / 2];
      }
      assert x[..2 * k] == y[..2 * k];
    }
  }

  /** Two group lists agree on their first `2k` bytes exactly when they
      agree on their first `k` values. */
  lemma GroupsPrefix(gs: seq<nat>, ns: seq<nat>, k: nat)
    requires |gs| == |ns| && GroupValues(gs) && GroupValues(ns) && k <= |gs|
    ensures FromGroups(gs)[..2 * k] == FromGroups(ns)[..2 * k] <==> gs[..k] == ns[..k]
  {
    GroupOctetsPrefix(gs, ns, k);
    OctetsPrefix(GroupOctets(gs), GroupOctets(ns), 2 * k);
  }

  /** The dotted text of four octets, from their printed values. */
  lemma QuadNames(os: seq<nat>, ds: seq<string>, t: string)
    requires |os| == 4 && OctetValues(os) && |ds| == 4
    requires forall k :: 0 <= k < 4 ==> Digits(os[k], 10) == ds[k]
    requires t == ds[0] + ("." + ds[1] + ("." + ds[2] + ("." + ds[3] + "")))
    ensures Names(t, V4(FromOctets(os))) && ':' !in t
  {
    QuadText(os, ds, t);
    hide *;
    NamesQuad(FromOctets(os), t);
  }

  lemma QuadText(os: seq<nat>, ds: seq<string>, t: string)
    requires |os| == 4 && OctetValues(os) && |ds| == 4
    requires forall k :: 0 <= k < 4 ==> Digits(os[k], 10) == ds[k]
    requires t == ds[0] + ("." + ds[1] + ("." + ds[2] + ("." + ds[3] + "")))
    ensures FormatIPv4(FromOctets(os)) == t
  {
    var b := FromOctets(os);
    assert forall k :: 0 <= k < 4 ==> Digits(b[k] as nat, 10) == ds[k];
    assert DotTail(b, 4) == "";
    assert DotTail(b, 3) == "." + ds[3] + "";
    assert DotTail(b, 2) == "." + ds[2] + ("." + ds[3] + "");
  }

  /** Text pieces joined with `sep` between them. */
  function Join(ds: seq<string>, sep: string): (r: string)
    ensures |ds| == 1 ==> r == ds[0]
  {
    if |ds| == 0 then "" else if |ds| == 1 then ds[0] else ds[0] + sep + Join(ds[1..], sep)
  }

  /** Joining splits at any inner place. */
  lemma {:induction false} JoinSplit(ds: seq<string>, k: nat, sep: string)
    requires 0 < k < |ds|
    ensures Join(ds, sep) == Join(ds[..k], sep) + sep + Join(ds[k..], sep)
  {
    assert Join(ds, sep) == ds[0] + sep + Join(ds[1..], sep);
    if k == 1 {
      assert ds[..1] == [ds[0]];
    } else {
      var a, b := ds[1..][..k - 1], ds[1..][k - 1..];
      JoinSplit(ds[1..], k - 1, sep);
      assert ds[..k][1..] == a && ds[..k][0] == ds[0];
      assert b == ds[k..];
      assert Join(ds[..k], sep) == ds[0] + sep + Join(a, sep);
    }
  }

  lemma JoinAppend(a: seq<string>, b: seq<string>, sep: string)
    requires a != [] && b != []
    ensures Join(a + b, sep) == Join(a, sep) + sep + Join(b, sep)
  {
    JoinSplit(a + b, |a|, sep);
    assert (a + b)[..|a|] == a && (a + b)[|a|..] == b;
  }

  /** The groups `k` to `end - 1`, printed as `ds`, make the colon-joined
      text of `ds`. */
  lemma {:induction false} GroupsTextJoin(b: seq<bv8>, k: nat, end: nat, ds: seq<string>)
    requires |b| == 16 && k < end <= 8 && |ds| == end - k
    requires forall m :: 0 <= m < |ds| ==> Digits(Group(b, k + m), 16) == ds[m]
    ensures GroupsText(b, k, end) == Join(ds, ":")
    decreases end - k
  {
    hide *;
    ShiftedDigits(b, k, ds);
    if k + 1 < end {
      GroupsTextJoin(b, k + 1, end, ds[1..]);
      GroupsTextStep(b, k, end);
      JoinColon(ds);
    } else {
      GroupsTextLast(b, k);
    }
  }

  /** The first printed group, and the rest shifted by one. */
  lemma ShiftedDigits(b: seq<bv8>, k: nat, ds: seq<string>)
    requires |b| == 16 && 0 < |ds| && k + |ds| <= 8
    requires forall m :: 0 <= m < |ds| ==> Digits(Group(b, k + m), 16) == ds[m]
    ensures Digits(Group(b, k), 16) == ds[0]
    ensures forall m :: 0 <= m < |ds[1..]| ==> Digits(Group(b, k + 1 + m), 16) == ds[1..][m]
  {
    assert Digits(Group(b, k + 0), 16) == ds[0];
    assert forall m :: 0 <= m < |ds| - 1 ==> ds[1..][m] == ds[m + 1];
  }

  lemma GroupsTextStep(b: seq<bv8>, k: nat, end: nat)
    requires |b| == 16 && k + 1 < end <= 8
    ensures GroupsText(b, k, end) == Digits(Group(b, k), 16) + (":" + GroupsText(b, k + 1, end))
  {
  }

  lemma GroupsTextLast(b: seq<bv8>, k: nat)
    requires |b| == 16 && k < 8
    ensures GroupsText(b, k, k + 1) == Digits(Group(b, k), 16)
  {
    assert ColonTail(b, k + 1, k + 1) == "";
  }

  /** Compressed text written from the printed groups before and after the
      zero run names the address of those groups. */
  lemma CompressedNames(gs: seq<nat>, i: nat, j: nat, left: seq<string>, right: seq<string>, t: string)
    requires |gs| == 8 && GroupValues(gs) && i < j <= 8 && |left| == i && |right| == 8 - j
    requires forall k :: i <= k < j ==> gs[k] == 0
    requires forall k :: 0 <= k < i ==> Digits(gs[k], 16) == left[k]
    requires forall k :: 0 <= k < 8 - j ==> Digits(gs[j + k], 16) == right[k]
    requires t == Join(left, ":") + "::" + Join(right, ":")
    ensures Names(t, V6(FromGroups(gs))) && ':' in t
  {
    CompressedText(gs, i, j, left, right, t);
    hide *;
    NamesCompressed(FromGroups(gs), i, j, t);
  }

  lemma CompressedText(gs: seq<nat>, i: nat, j: nat, left: seq<string>, right: seq<string>, t: string)
    requires |gs| == 8 && GroupValues(gs) && i < j <= 8 && |left| == i && |right| == 8 - j
    requires forall k :: i <= k < j ==> gs[k] == 0
    requires forall k :: 0 <= k < i ==> Digits(gs[k], 16) == left[k]
    requires forall k :: 0 <= k < 8 - j ==> Digits(gs[j + k], 16) == right[k]
    requires t == Join(left, ":") + "::" + Join(right, ":")
    ensures ZeroGroups(FromGroups(gs), i, j) && FormatIPv6Compressed(FromGroups(gs), i, j) == t
  {
    var b := FromGroups(gs);
    hide *;
    PrintedSide(gs, 0, i, left);
    PrintedSide(gs, j, 8, right);
    ZeroSide(gs, i, j);
    CompressedIs(b, i, j, Join(left, ":"), Join(right, ":"), t);
  }

  lemma PrintedSide(gs: seq<nat>, k: nat, end: nat, ds: seq<string>)
    requires |gs| == 8 && GroupValues(gs) && k <= end <= 8 && |ds| == end - k
    requires forall m :: 0 <= m < |ds| ==> Digits(gs[k + m], 16) == ds[m]
    ensures k == end ==> Join(ds, ":") == ""
    ensures k < end ==> GroupsText(FromGroups(gs), k, end) == Join(ds, ":")
  {
    hide *;
    PrintedGroups(gs, k, ds);
    SideText(FromGroups(gs), k, end, ds);
  }

  lemma ZeroSide(gs: seq<nat>, i: nat, j: nat)
    requires |gs| == 8 && GroupValues(gs) && i <= j <= 8
    requires forall k :: i <= k < j ==> gs[k] == 0
    ensures ZeroGroups(FromGroups(gs), i, j)
  {
    hide *;
    FromGroupsZero(gs, i, j);
    ZeroGroupsOf(FromGroups(gs), i, j);
  }

  /** The printed groups from `k` to `end` joined by colons are the groups
      text, and no groups join to nothing. */
  lemma SideText(b: seq<bv8>, k: nat, end: nat, ds: seq<string>)
    requires |b| == 16 && k <= end <= 8 && |ds| == end - k
    requires forall m :: 0 <= m < |ds| ==> Digits(Group(b, k + m), 16) == ds[m]
    ensures k == end ==> Join(ds, ":") == ""
    ensures k < end ==> GroupsText(b, k, end) == Join(ds, ":")
  {
    if k < end {
      hide *;
      GroupsTextJoin(b, k, end, ds);
    }
  }

  lemma ZeroGroupsOf(b: seq<bv8>, i: nat, j: nat)
    requires |b| == 16 && i <= j <= 8
    requires forall m :: 2 * i <= m < 2 * j ==> b[m] == 0
    ensures ZeroGroups(b, i, j)
  {
  }

  /** The compressed text from the texts of the groups around `::`. */
  lemma CompressedIs(b: seq<bv8>, i: nat, j: nat, left: string, right: string, t: string)
    requires |b| == 16 && i < j <= 8
    requires i == 0 ==> left == ""
    requires 0 < i ==> GroupsText(b, 0, i) == left
    requires j == 8 ==> right == ""
    requires j < 8 ==> GroupsText(b, j, 8) == right
    requires t == left + "::" + right
    ensures FormatIPv6Compressed(b, i, j) == t
  {
  }

  /** Uncompressed text written from the printed groups names the address
      of those groups. */
  lemma FullNames(gs: seq<nat>, ds: seq<string>, t: string)
    requires |gs| == 8 && GroupValues(gs) && |ds| == 8
    requires forall k :: 0 <= k < 8 ==> Digits(gs[k], 16) == ds[k]
    requires t == Join(ds, ":")
    ensures Names(t, V6(FromGroups(gs))) && ':' in t
  {
    hide *;
    PrintedGroups(gs, 0, ds);
    FullText(gs, ds, t);
    NamesFull(FromGroups(gs), t);
  }

  lemma FullText(gs: seq<nat>, ds: seq<string>, t: string)
    requires |gs| == 8 && GroupValues(gs) && |ds| == 8
    requires forall k :: 0 <= k < 8 ==> Digits(Group(FromGroups(gs), 0 + k), 16) == ds[k]
    requires t == Join(ds, ":")
    ensures FormatIPv6(FromGroups(gs)) == t
  {
    hide *;
    FullGroupsText(FromGroups(gs), ds);
    FormatIsGroupsText(FromGroups(gs));
  }

  lemma FullGroupsText(b: seq<bv8>, ds: seq<string>)
    requires |b| == 16 && |ds| == 8
    requires forall k :: 0 <= k < 8 ==> Digits(Group(b, 0 + k), 16) == ds[k]
    ensures GroupsText(b, 0, 8) == Join(ds, ":")
  {
    hide *;
    GroupsTextJoin(b, 0, 8, ds);
  }

  lemma FormatIsGroupsText(b: seq<bv8>)
    requires |b| == 16
    ensures FormatIPv6(b) == GroupsText(b, 0, 8)
  {
  }

  /** Groups `k` on of the bytes of `gs` print as `ds`. */
  lemma PrintedGroups(gs: seq<nat>, k: nat, ds: seq<string>)
    requires |gs| == 8 && GroupValues(gs) && k + |ds| <= 8
    requires forall m :: 0 <= m < |ds| ==> Digits(gs[k + m], 16) == ds[m]
    ensures forall m :: 0 <= m < |ds| ==> Digits(Group(FromGroups(gs), k + m), 16) == ds[m]
  {
    FromGroupsGroups(gs);
  }

  // ------------------------------------------- groups with leading zeros

  /** `d` is hexadecimal text whose value is the group `g`. Go's parser
      reads a group as all the hexadecimal digits in front of the next
      separator, so leading zeros are allowed, as in `00bb`. */
  predicate Spells(d: string, g: nat) {
    0 < |d| && AllDigitsOf(d, 16) && Value(d, 16) == g
  }

  /** Eight groups spelled in hexadecimal, with or without leading zeros,
      and joined by colons read as the IPv6 address of those groups. */
  lemma SpelledNames(gs: seq<nat>, ds: seq<string>, t: string)
    requires |gs| == 8 && GroupValues(gs) && |ds| == 8
    requires forall k :: 0 <= k < 8 ==> Spells(ds[k], gs[k])
    requires t == Join(ds, ":")
    ensures Names(t, V6(FromGroups(gs))) && ':' in t
  {
    var b := FromGroups(gs);
    hide *;
    SpelledBytes(gs, ds);
    SpelledLoop(b, ds, 0, []);
    JoinStart(ds, gs[0]);
    JoinColon(ds);
    SeparatorFirst(":" + Join(ds[1..], ":"));
    FirstSeparatorAfter(ds[0], ":" + Join(ds[1..], ":"), 16);
    EmptyPrefix(b);
    FullGroupsParse(t, b);
    ParseAsIPv6(t, b);
    SpelledText(ds);
    ColonAfter(ds[0], Join(ds[1..], ":"));
  }

  /** The groups of the bytes of `gs` are spelled by `ds`. */
  lemma SpelledBytes(gs: seq<nat>, ds: seq<string>)
    requires |gs| == 8 && GroupValues(gs) && |ds| == 8
    requires forall k :: 0 <= k < 8 ==> Spells(ds[k], gs[k])
    ensures |FromGroups(gs)| == 16
    ensures forall m :: 0 <= m < |ds| ==> Spells(ds[m], Group(FromGroups(gs), 0 + m))
  {
    FromGroupsGroups(gs);
  }

  /** A list of more than one element joins as the first, a colon and the
      rest. */
  lemma JoinColon(xs: seq<string>)
    requires 1 < |xs|
    ensures Join(xs, ":") == xs[0] + (":" + Join(xs[1..], ":"))
  {
  }

  /** A joined list whose first element is spelled starts with a digit. */
  lemma JoinStart(xs: seq<string>, g: nat)
    requires 0 < |xs| && Spells(xs[0], g)
    ensures 0 < |Join(xs, ":")| && Join(xs, ":")[0] != ':'
    ensures AllDigitsOf(xs[0], 16)
  {
    assert IsDigitOf(xs[0][0], 16);
    if 1 < |xs| {
      assert Join(xs, ":")[0] == xs[0][0];
    }
  }

  lemma EmptyPrefix(b: seq<bv8>)
    requires |b| == 16
    ensures [] + b[2 * 0..] == b
  {
  }

  lemma ColonAfter(d: string, rest: string)
    ensures ':' in d + (":" + rest)
  {
    assert (d + (":" + rest))[|d|] == ':';
  }

  /** Spelled groups joined by colons are address text. */
  lemma {:induction false} SpelledText(ds: seq<string>)
    requires forall k :: 0 <= k < |ds| ==> AllDigitsOf(ds[k], 16)
    ensures AddrText(Join(ds, ":"))
  {
    if |ds| > 1 {
      SpelledText(ds[1..]);
      assert forall i :: 0 <= i < |ds[0]| ==> IsHexDigit(ds[0][i]) by {
        assert AllDigitsOf(ds[0], 16);
      }
      AddrTextConcat(ds[0], ":");
      AddrTextConcat(ds[0] + ":", Join(ds[1..], ":"));
    } else if |ds| == 1 {
      assert AllDigitsOf(ds[0], 16);
    }
  }

  /** The group loop reads the spelled groups `k` to 7 of `b`, joined by
      colons, as bytes `2k` to 15. */
  lemma {:induction false} SpelledLoop(b: seq<bv8>, xs: seq<string>, k: nat, acc: seq<bv8>)
    requires |b| == 16 && k < 8 && |xs| == 8 - k && |acc| == 2 * k
    requires forall m :: 0 <= m < |xs| ==> Spells(xs[m], Group(b, k + m))
    ensures GroupLoop(Join(xs, ":"), acc, None) == AfterGroup("", acc + b[2 * k..], None)
    decreases 8 - k
  {
    assert Spells(xs[0], Group(b, k + 0));
    if k == 7 {
      LastSpelled(b, xs, acc);
    } else {
      assert forall m :: 0 <= m < |xs[1..]| ==> Spells(xs[1..][m], Group(b, k + 1 + m)) by {
        assert forall m :: 0 <= m < |xs[1..]| ==> xs[1..][m] == xs[m + 1];
      }
      assert Spells(xs[1..][0], Group(b, k + 1 + 0));
      var acc' := acc + b[2 * k..2 * k + 2];
      hide *;
      SpelledLoop(b, xs[1..], k + 1, acc');
      NextSpelled(b, xs, k, acc);
    }
  }

  /** One step of `SpelledLoop`: a group, a colon, and the groups after. */
  lemma NextSpelled(b: seq<bv8>, xs: seq<string>, k: nat, acc: seq<bv8>)
    requires |b| == 16 && k < 7 && |xs| == 8 - k && |acc| == 2 * k
    requires Spells(xs[0], Group(b, k + 0)) && Spells(xs[1..][0], Group(b, k + 1 + 0))
    requires GroupLoop(Join(xs[1..], ":"), acc + b[2 * k..2 * k + 2], None)
          == AfterGroup("", acc + b[2 * k..2 * k + 2] + b[2 * (k + 1)..], None)
    ensures GroupLoop(Join(xs, ":"), acc, None) == AfterGroup("", acc + b[2 * k..], None)
  {
    var rest, acc' := Join(xs[1..], ":"), acc + b[2 * k..2 * k + 2];
    hide *;
    JoinColon(xs);
    SpelledGroup(b, k, xs[0], ":" + rest, acc);
    JoinStart(xs[1..], Group(b, k + 1 + 0));
    SingleColon(rest, acc', None);
    GroupTails(acc, b, k);
  }

  /** The last group, alone in the text, appends the last two bytes. */
  lemma LastSpelled(b: seq<bv8>, xs: seq<string>, acc: seq<bv8>)
    requires |b| == 16 && |xs| == 1 && |acc| == 14 && Spells(xs[0], Group(b, 7))
    ensures GroupLoop(Join(xs, ":"), acc, None) == AfterGroup("", acc + b[2 * 7..], None)
  {
    assert Join(xs, ":") == xs[0] + "";
    assert b[14..16] == b[14..];
    hide *;
    SpelledGroup(b, 7, xs[0], "", acc);
  }

  lemma GroupTails(acc: seq<bv8>, b: seq<bv8>, k: nat)
    requires |b| == 16 && k < 8
    ensures acc + b[2 * k..2 * k + 2] + b[2 * (k + 1)..] == acc + b[2 * k..]
  {
    assert b[2 * k..2 * k + 2] + b[2 * k + 2..] == b[2 * k..];
  }

  /** One spelled group in front of `tail` appends the group's two bytes. */
  lemma SpelledGroup(b: seq<bv8>, k: nat, d: string, tail: string, acc: seq<bv8>)
    requires |b| == 16 && k < 8 && |acc| < 16 && Spells(d, Group(b, k))
    requires tail == "" || tail[0] == ':'
    ensures GroupLoop(d + tail, acc, None) == AfterGroup(tail, acc + b[2 * k..2 * k + 2], None)
  {
    var n := Group(b, k);
    hide *;
    SpelledScan(d, tail, n);
    AppendGroup(b, k, acc);
    GroupStep(d + tail, acc, None, n, |d|, acc + b[2 * k..2 * k + 2]);
  }

  /** A spelled group in front of `tail` scans as its value and stops in
      front of `tail`. */
  lemma SpelledScan(d: string, tail: string, n: nat)
    requires Spells(d, n) && n < 0x1_0000
    requires tail == "" || tail[0] == ':'
    ensures Scan(d + tail, 16) == Number(n, |d|, true) && n <= 0xFFFF
    ensures (d + tail)[|d|..] == tail && (|d| == |d + tail| || (d + tail)[|d|] != '.')
  {
    ScanDigitsThen(d, tail, 16);
    assert (d + tail)[|d|..] == tail;
  }

  // ------------------------------------------------- ranges of the tests

  /** A range of `k` whole octets holds exactly the IPv4 addresses that
      start with those octets. */
  lemma ContainsOctets(ns: seq<nat>, k: nat, os: seq<nat>)
    requires |ns| == |os| == 4 && OctetValues(ns) && OctetValues(os) && k <= 4
    ensures Net(V4(FromOctets(ns)), 8 * k).Valid()
    ensures Contains(Net(V4(FromOctets(ns)), 8 * k), V4(FromOctets(os))) <==> os[..k] == ns[..k]
  {
    WholeBytePrefix(Net(V4(FromOctets(ns)), 8 * k), V4(FromOctets(os)), k);
    OctetsPrefix(os, ns, k);
  }

  /** A range of `k` whole groups holds exactly the IPv6 addresses that
      start with those groups. */
  lemma ContainsGroups(ns: seq<nat>, k: nat, gs: seq<nat>)
    requires |ns| == |gs| == 8 && GroupValues(ns) && GroupValues(gs) && k <= 8
    ensures Net(V6(FromGroups(ns)), 16 * k).Valid()
    ensures Contains(Net(V6(FromGroups(ns)), 16 * k), V6(FromGroups(gs))) <==> gs[..k] == ns[..k]
  {
    WholeBytePrefix(Net(V6(FromGroups(ns)), 16 * k), V6(FromGroups(gs)), 2 * k);
    GroupsPrefix(gs, ns, k);
  }

  /** Two sequences agree on their first one, three, four or eight elements
      exactly when they agree at each of those places. */
  lemma Agree1(xs: seq<nat>, ys: seq<nat>)
    requires 1 <= |xs| && 1 <= |ys|
    ensures xs[..1] == ys[..1] <==> xs[0] == ys[0]
  {
    assert xs[..1] == [xs[0]] && ys[..1] == [ys[0]];
  }

  lemma Agree3(xs: seq<nat>, ys: seq<nat>)
    requires 3 <= |xs| && 3 <= |ys|
    ensures xs[..3] == ys[..3] <==> xs[0] == ys[0] && xs[1] == ys[1] && xs[2] == ys[2]
  {
    assert xs[..3] == [xs[0], xs[1], xs[2]] && ys[..3] == [ys[0], ys[1], ys[2]];
  }

  lemma Agree4(xs: seq<nat>, ys: seq<nat>)
    requires 4 <= |xs| && 4 <= |ys|
    ensures xs[..4] == ys[..4] <==> xs[0] == ys[0] && xs[1] == ys[1] && xs[2] == ys[2] && xs[3] == ys[3]
  {
    assert xs[..4] == [xs[0], xs[1], xs[2], xs[3]] && ys[..4] == [ys[0], ys[1], ys[2], ys[3]];
  }

  lemma Agree8(xs: seq<nat>, ys: seq<nat>)
    requires 8 <= |xs| && 8 <= |ys|
    ensures xs[..8] == ys[..8] <==> (forall m :: 0 <= m < 8 ==> xs[m] == ys[m])
  {
    if forall m :: 0 <= m < 8 ==> xs[m] == ys[m] {
      assert forall m :: 0 <= m < 8 ==> xs[..8][m] == ys[..8][m];
    }
  }

  /** Each range of a valid list is valid, alone too. */
  lemma ValidAt(ranges: seq<Net>, i: nat)
    requires ValidRanges(ranges) && i < |ranges|
    ensures ranges[i].Valid() && ValidRanges([ranges[i]])
  {
  }

  lemma QuadValid(os: seq<nat>)
    requires |os| == 4 && OctetValues(os)
    ensures V4(FromOctets(os)).Valid()
  {
  }

  lemma SixValid(gs: seq<nat>)
    requires |gs| == 8 && GroupValues(gs)
    ensures V6(FromGroups(gs)).Valid()
  {
  }

  /** A range never holds an address of the other family. */
  lemma OtherFamily(n: Net, a: Addr)
    requires n.Valid() && a.Valid() && n.network.V4? != a.V4?
    ensures !Contains(n, a)
  {
  }

  /** An IPv4 range read from a dotted address and a whole number of
      octets: the octets after the prefix are cleared. */
  lemma QuadCidr(os: seq<nat>, k: nat, ns: seq<nat>, t: string, d: string, text: string)
    requires |os| == 4 && OctetValues(os) && ListedAs(t, t, V4(FromOctets(os)))
    requires |ns| == 4 && OctetValues(ns) && k <= 4 && ns[..k] == os[..k]
    requires forall m :: k <= m < 4 ==> ns[m] == 0
    requires Digits(8 * k, 10) == d && text == t + "/" + d
    ensures ParseCidr(text) == Some(Net(V4(FromOctets(ns)), 8 * k))
  {
    var a, c := V4(FromOctets(os)), FromOctets(ns);
    hide *;
    ListedParses(t, t, a);
    QuadFacts(os);
    QuadFacts(ns);
    OctetsPrefix(ns, os, k);
    QuadZeros(ns, k);
    AddrTextNoSlash(t);
    WholeBytesCidr(t, a, k, c);
  }

  lemma ListedParses(ip: string, t: string, a: Addr)
    requires ListedAs(ip, t, a)
    ensures ParseIP(t) == Some(a) && AddrText(t) && t != ""
  {
  }

  lemma QuadFacts(os: seq<nat>)
    requires |os| == 4 && OctetValues(os)
    ensures V4(FromOctets(os)).Valid() && V4(FromOctets(os)).Width() == 32 && |FromOctets(os)| == 4
  {
  }

  lemma SixFacts(gs: seq<nat>)
    requires |gs| == 8 && GroupValues(gs)
    ensures V6(FromGroups(gs)).Valid() && V6(FromGroups(gs)).Width() == 128 && |FromGroups(gs)| == 16
  {
  }

  /** Zero values from `k` on give zero bytes from `2k` on. */
  lemma GroupZeros(gs: seq<nat>, k: nat)
    requires |gs| == 8 && GroupValues(gs) && k <= 8
    requires forall m :: k <= m < 8 ==> gs[m] == 0
    ensures FromGroups(gs)[2 * k..] == Zeros(16 - 2 * k)
  {
    FromGroupsZero(gs, k, 8);
  }

  /** Zero octets from `k` on give zero bytes from `k` on. */
  lemma QuadZeros(ns: seq<nat>, k: nat)
    requires |ns| == 4 && OctetValues(ns) && k <= 4
    requires forall m :: k <= m < 4 ==> ns[m] == 0
    ensures FromOctets(ns)[k..] == Zeros(4 - k)
  {
    var c := FromOctets(ns);
    assert forall m :: k <= m < 4 ==> c[m] as nat == 0;
  }

  /** An IPv6 range read from an address whose groups after the prefix are
      already zero. */
  lemma GroupsCidr(gs: seq<nat>, k: nat, ip: string, t: string, d: string, text: string)
    requires |gs| == 8 && GroupValues(gs) && ListedAs(ip, t, V6(FromGroups(gs)))
    requires k <= 8 && forall m :: k <= m < 8 ==> gs[m] == 0
    requires Digits(16 * k, 10) == d && text == t + "/" + d
    ensures ParseCidr(text) == Some(Net(V6(FromGroups(gs)), 16 * k))
  {
    var a := V6(FromGroups(gs));
    hide *;
    ListedParses(ip, t, a);
    SixFacts(gs);
    GroupZeros(gs, k);
    AddrTextNoSlash(t);
    assert 16 * k == 8 * (2 * k);
    WholeBytesCidr(t, a, 2 * k, a.bytes);
  }

  /** Address text followed by a prefix length of whole bytes reads as the
      range whose address keeps those bytes and clears the rest. */
  lemma WholeBytesCidr(t: string, a: Addr, k: nat, c: seq<bv8>)
    requires '/' !in t && ParseIP(t) == Some(a)
    requires a.Valid() && 8 * k <= a.Width() && |c| == |a.bytes|
    requires c[..k] == a.bytes[..k] && c[k..] == Zeros(|c| - k)
    ensures ParseCidr(t + "/" + Digits(8 * k, 10)) == Some(Net(a.(bytes := c), 8 * k))
  {
    hide *;
    ParseCidrOf(t, 8 * k);
    MaskedWholeBytes(a, k, c);
  }

  /** A list of one range holds what that range holds. */
  lemma AdmitsOne(n: Net, a: Addr)
    requires n.Valid() && ValidRanges([n]) && a.Valid()
    ensures Admits([n], a) <==> Contains(n, a)
  {
    if Contains(n, a) {
      assert Contains([n][0], a);
    }
  }

  /** A list of two ranges holds what either holds. */
  lemma AdmitsTwo(n0: Net, n1: Net, a: Addr)
    requires ValidRanges([n0, n1]) && a.Valid()
    ensures n0.Valid() && n1.Valid()
    ensures Admits([n0, n1], a) <==> Contains(n0, a) || Contains(n1, a)
  {
    hide Contains, HostBitsClear;
    assert [n0, n1][0] == n0 && [n0, n1][1] == n1;
  }

  /** A list of four ranges holds what any of them holds. */
  lemma AdmitsFour(n0: Net, n1: Net, n2: Net, n3: Net, a: Addr)
    requires ValidRanges([n0, n1, n2, n3]) && a.Valid()
    ensures n0.Valid() && n1.Valid() && n2.Valid() && n3.Valid()
    ensures Admits([n0, n1, n2, n3], a) <==> Contains(n0, a) || Contains(n1, a) || Contains(n2, a) || Contains(n3, a)
  {
    var r := [n0, n1, n2, n3];
    hide Contains, HostBitsClear;
    assert r[0] == n0 && r[1] == n1 && r[2] == n2 && r[3] == n3;
    if Admits(r, a) {
      var i :| 0 <= i < 4 && Contains(r[i], a);
      assert i == 0 || i == 1 || i == 2 || i == 3;
    }
  }

  /** Two lists of ranges together hold what either holds. */
  lemma AdmitsConcat(r1: seq<Net>, r2: seq<Net>, a: Addr)
    requires ValidRanges(r1) && ValidRanges(r2) && a.Valid()
    ensures ValidRanges(r1 + r2)
    ensures Admits(r1 + r2, a) <==> Admits(r1, a) || Admits(r2, a)
  {
    var r := r1 + r2;
    assert forall i :: 0 <= i < |r1| ==> r[i] == r1[i];
    assert forall i :: 0 <= i < |r2| ==> r[|r1| + i] == r2[i];
    if Admits(r, a) {
      var i :| 0 <= i < |r| && Contains(r[i], a);
      if i >= |r1| {
        assert Contains(r2[i - |r1|], a);
      }
    }
  }

  // The printed groups the test addresses are made of.

  lemma Hex2a03()
    ensures Digits(0x2a03, 16) == "2a03"
  {
  }

  lemma Hex4000()
    ensures Digits(0x4000, 16) == "4000"
  {
  }

  lemma HexD080()
    ensures Digits(0xd080, 16) == "d080"
  {
  }

  lemma HexFe80()
    ensures Digits(0xfe80, 16) == "fe80"
  {
  }

  lemma HexDead()
    ensures Digits(0xdead, 16) == "dead"
  {
  }

  lemma HexBeef()
    ensures Digits(0xbeef, 16) == "beef"
  {
  }

  lemma HexFfff()
    ensures Digits(0xffff, 16) == "ffff"
  {
  }

  lemma Hex4242()
    ensures Digits(0x4242, 16) == "4242"
  {
  }

  lemma Hex42()
    ensures Digits(0x42, 16) == "42"
  {
  }

  lemma Hex43()
    ensures Digits(0x43, 16) == "43"
  {
  }

  lemma SmallHexTexts()
    ensures Digits(1, 16) == "1" && Digits(6, 16) == "6" && Digits(7, 16) == "7"
  {
  }

  // ------------------------------------------------ the tests' addresses

  // Each lemma states that the test's text reads as the address it is
  // written for, and how the test writes it in a remote address.

  lemma Dotted_1_2_3_1()
    ensures OctetValues([1, 2, 3, 1])
    ensures ListedAs("1.2.3.1", "1.2.3.1", V4(FromOctets([1, 2, 3, 1])))
  {
    SmallDecimals();
    assert OctetValues([1, 2, 3, 1]);
    hide *;
    QuadNames([1, 2, 3, 1], ["1", "2", "3", "1"], "1.2.3.1");
    ListedPlain("1.2.3.1", V4(FromOctets([1, 2, 3, 1])));
  }

  lemma Dotted_1_2_3_32()
    ensures OctetValues([1, 2, 3, 32])
    ensures ListedAs("1.2.3.32", "1.2.3.32", V4(FromOctets([1, 2, 3, 32])))
  {
    SmallDecimals();
    Dec32();
    assert OctetValues([1, 2, 3, 32]);
    hide *;
    QuadNames([1, 2, 3, 32], ["1", "2", "3", "32"], "1.2.3.32");
    ListedPlain("1.2.3.32", V4(FromOctets([1, 2, 3, 32])));
  }

  lemma Dotted_1_2_3_156()
    ensures OctetValues([1, 2, 3, 156])
    ensures ListedAs("1.2.3.156", "1.2.3.156", V4(FromOctets([1, 2, 3, 156])))
  {
    SmallDecimals();
    Dec156();
    assert OctetValues([1, 2, 3, 156]);
    hide *;
    QuadNames([1, 2, 3, 156], ["1", "2", "3", "156"], "1.2.3.156");
    ListedPlain("1.2.3.156", V4(FromOctets([1, 2, 3, 156])));
  }

  lemma Dotted_1_2_3_255()
    ensures OctetValues([1, 2, 3, 255])
    ensures ListedAs("1.2.3.255", "1.2.3.255", V4(FromOctets([1, 2, 3, 255])))
  {
    SmallDecimals();
    Dec255();
    assert OctetValues([1, 2, 3, 255]);
    hide *;
    QuadNames([1, 2, 3, 255], ["1", "2", "3", "255"], "1.2.3.255");
    ListedPlain("1.2.3.255", V4(FromOctets([1, 2, 3, 255])));
  }

  lemma Dotted_1_2_16_1()
    ensures OctetValues([1, 2, 16, 1])
    ensures ListedAs("1.2.16.1", "1.2.16.1", V4(FromOctets([1, 2, 16, 1])))
  {
    SmallDecimals();
    Dec16();
    assert OctetValues([1, 2, 16, 1]);
    hide *;
    QuadNames([1, 2, 16, 1], ["1", "2", "16", "1"], "1.2.16.1");
    ListedPlain("1.2.16.1", V4(FromOctets([1, 2, 16, 1])));
  }

  lemma Dotted_1_2_32_1()
    ensures OctetValues([1, 2, 32, 1])
    ensures ListedAs("1.2.32.1", "1.2.32.1", V4(FromOctets([1, 2, 32, 1])))
  {
    SmallDecimals();
    Dec32();
    assert OctetValues([1, 2, 32, 1]);
    hide *;
    QuadNames([1, 2, 32, 1], ["1", "2", "32", "1"], "1.2.32.1");
    ListedPlain("1.2.32.1", V4(FromOctets([1, 2, 32, 1])));
  }

  lemma Dotted_127_0_0_1()
    ensures OctetValues([127, 0, 0, 1])
    ensures ListedAs("127.0.0.1", "127.0.0.1", V4(FromOctets([127, 0, 0, 1])))
  {
    Dec127();
    SmallDecimals();
    assert OctetValues([127, 0, 0, 1]);
    hide *;
    QuadNames([127, 0, 0, 1], ["127", "0", "0", "1"], "127.0.0.1");
    ListedPlain("127.0.0.1", V4(FromOctets([127, 0, 0, 1])));
  }

  lemma Dotted_8_8_8_8()
    ensures OctetValues([8, 8, 8, 8])
    ensures ListedAs("8.8.8.8", "8.8.8.8", V4(FromOctets([8, 8, 8, 8])))
  {
    SmallDecimals();
    assert OctetValues([8, 8, 8, 8]);
    hide *;
    QuadNames([8, 8, 8, 8], ["8", "8", "8", "8"], "8.8.8.8");
    ListedPlain("8.8.8.8", V4(FromOctets([8, 8, 8, 8])));
  }

  lemma Dotted_8_8_8_7()
    ensures OctetValues([8, 8, 8, 7])
    ensures ListedAs("8.8.8.7", "8.8.8.7", V4(FromOctets([8, 8, 8, 7])))
  {
    SmallDecimals();
    assert OctetValues([8, 8, 8, 7]);
    hide *;
    QuadNames([8, 8, 8, 7], ["8", "8", "8", "7"], "8.8.8.7");
    ListedPlain("8.8.8.7", V4(FromOctets([8, 8, 8, 7])));
  }

  lemma Dotted_8_8_8_9()
    ensures OctetValues([8, 8, 8, 9])
    ensures ListedAs("8.8.8.9", "8.8.8.9", V4(FromOctets([8, 8, 8, 9])))
  {
    SmallDecimals();
    assert OctetValues([8, 8, 8, 9]);
    hide *;
    QuadNames([8, 8, 8, 9], ["8", "8", "8", "9"], "8.8.8.9");
    ListedPlain("8.8.8.9", V4(FromOctets([8, 8, 8, 9])));
  }

  lemma Dotted_8_8_8_0()
    ensures OctetValues([8, 8, 8, 0])
    ensures ListedAs("8.8.8.0", "8.8.8.0", V4(FromOctets([8, 8, 8, 0])))
  {
    SmallDecimals();
    assert OctetValues([8, 8, 8, 0]);
    hide *;
    QuadNames([8, 8, 8, 0], ["8", "8", "8", "0"], "8.8.8.0");
    ListedPlain("8.8.8.0", V4(FromOctets([8, 8, 8, 0])));
  }

  lemma Dotted_8_8_8_255()
    ensures OctetValues([8, 8, 8, 255])
    ensures ListedAs("8.8.8.255", "8.8.8.255", V4(FromOctets([8, 8, 8, 255])))
  {
    SmallDecimals();
    Dec255();
    assert OctetValues([8, 8, 8, 255]);
    hide *;
    QuadNames([8, 8, 8, 255], ["8", "8", "8", "255"], "8.8.8.255");
    ListedPlain("8.8.8.255", V4(FromOctets([8, 8, 8, 255])));
  }

  lemma Dotted_4_4_4_4()
    ensures OctetValues([4, 4, 4, 4])
    ensures ListedAs("4.4.4.4", "4.4.4.4", V4(FromOctets([4, 4, 4, 4])))
  {
    SmallDecimals();
    assert OctetValues([4, 4, 4, 4]);
    hide *;
    QuadNames([4, 4, 4, 4], ["4", "4", "4", "4"], "4.4.4.4");
    ListedPlain("4.4.4.4", V4(FromOctets([4, 4, 4, 4])));
  }

  lemma Dotted_8_8_4_4()
    ensures OctetValues([8, 8, 4, 4])
    ensures ListedAs("8.8.4.4", "8.8.4.4", V4(FromOctets([8, 8, 4, 4])))
  {
    SmallDecimals();
    assert OctetValues([8, 8, 4, 4]);
    hide *;
    QuadNames([8, 8, 4, 4], ["8", "8", "4", "4"], "8.8.4.4");
    ListedPlain("8.8.4.4", V4(FromOctets([8, 8, 4, 4])));
  }

  lemma Dotted_8_0_0_1()
    ensures OctetValues([8, 0, 0, 1])
    ensures ListedAs("8.0.0.1", "8.0.0.1", V4(FromOctets([8, 0, 0, 1])))
  {
    SmallDecimals();
    assert OctetValues([8, 0, 0, 1]);
    hide *;
    QuadNames([8, 0, 0, 1], ["8", "0", "0", "1"], "8.0.0.1");
    ListedPlain("8.0.0.1", V4(FromOctets([8, 0, 0, 1])));
  }

  lemma Dotted_8_32_42_128()
    ensures OctetValues([8, 32, 42, 128])
    ensures ListedAs("8.32.42.128", "8.32.42.128", V4(FromOctets([8, 32, 42, 128])))
  {
    SmallDecimals();
    Dec32();
    Dec42();
    Dec128();
    assert OctetValues([8, 32, 42, 128]);
    hide *;
    QuadNames([8, 32, 42, 128], ["8", "32", "42", "128"], "8.32.42.128");
    ListedPlain("8.32.42.128", V4(FromOctets([8, 32, 42, 128])));
  }

  lemma Dotted_8_255_255_255()
    ensures OctetValues([8, 255, 255, 255])
    ensures ListedAs("8.255.255.255", "8.255.255.255", V4(FromOctets([8, 255, 255, 255])))
  {
    SmallDecimals();
    Dec255();
    assert OctetValues([8, 255, 255, 255]);
    hide *;
    QuadNames([8, 255, 255, 255], ["8", "255", "255", "255"], "8.255.255.255");
    ListedPlain("8.255.255.255", V4(FromOctets([8, 255, 255, 255])));
  }

  lemma Dotted_4_8_8_8()
    ensures OctetValues([4, 8, 8, 8])
    ensures ListedAs("4.8.8.8", "4.8.8.8", V4(FromOctets([4, 8, 8, 8])))
  {
    SmallDecimals();
    assert OctetValues([4, 8, 8, 8]);
    hide *;
    QuadNames([4, 8, 8, 8], ["4", "8", "8", "8"], "4.8.8.8");
    ListedPlain("4.8.8.8", V4(FromOctets([4, 8, 8, 8])));
  }

  lemma Dotted_1_2_3_4()
    ensures OctetValues([1, 2, 3, 4])
    ensures ListedAs("1.2.3.4", "1.2.3.4", V4(FromOctets([1, 2, 3, 4])))
  {
    SmallDecimals();
    assert OctetValues([1, 2, 3, 4]);
    hide *;
    QuadNames([1, 2, 3, 4], ["1", "2", "3", "4"], "1.2.3.4");
    ListedPlain("1.2.3.4", V4(FromOctets([1, 2, 3, 4])));
  }

  lemma Dotted_1_1_1_1()
    ensures OctetValues([1, 1, 1, 1])
    ensures ListedAs("1.1.1.1", "1.1.1.1", V4(FromOctets([1, 1, 1, 1])))
  {
    SmallDecimals();
    assert OctetValues([1, 1, 1, 1]);
    hide *;
    QuadNames([1, 1, 1, 1], ["1", "1", "1", "1"], "1.1.1.1");
    ListedPlain("1.1.1.1", V4(FromOctets([1, 1, 1, 1])));
  }

  lemma Dotted_2_2_2_2()
    ensures OctetValues([2, 2, 2, 2])
    ensures ListedAs("2.2.2.2", "2.2.2.2", V4(FromOctets([2, 2, 2, 2])))
  {
    SmallDecimals();
    assert OctetValues([2, 2, 2, 2]);
    hide *;
    QuadNames([2, 2, 2, 2], ["2", "2", "2", "2"], "2.2.2.2");
    ListedPlain("2.2.2.2", V4(FromOctets([2, 2, 2, 2])));
  }

  lemma SmallDecimals()
    ensures Digits(0, 10) == "0"
    ensures Digits(1, 10) == "1"
    ensures Digits(2, 10) == "2"
    ensures Digits(3, 10) == "3"
    ensures Digits(4, 10) == "4"
    ensures Digits(5, 10) == "5"
    ensures Digits(6, 10) == "6"
    ensures Digits(7, 10) == "7"
    ensures Digits(8, 10) == "8"
    ensures Digits(9, 10) == "9"
  {
  }

  lemma Dec16()
    ensures Digits(16, 10) == "16"
  {
  }

  lemma Dec24()
    ensures Digits(24, 10) == "24"
  {
  }

  lemma Dec32()
    ensures Digits(32, 10) == "32"
  {
  }

  lemma Dec42()
    ensures Digits(42, 10) == "42"
  {
  }

  lemma Dec64()
    ensures Digits(64, 10) == "64"
  {
  }

  lemma Dec127()
    ensures Digits(127, 10) == "127"
  {
    assert Digits(12, 10) == "12";
  }

  lemma Dec128()
    ensures Digits(128, 10) == "128"
  {
    assert Digits(12, 10) == "12";
  }

  lemma Dec156()
    ensures Digits(156, 10) == "156"
  {
    assert Digits(15, 10) == "15";
  }

  lemma Dec255()
    ensures Digits(255, 10) == "255"
  {
    assert Digits(25, 10) == "25";
  }

  lemma Colons_2a03_4000_6_d080_z()
    ensures GroupValues([0x2a03, 0x4000, 6, 0xd080, 0, 0, 0, 0])
    ensures ListedAs("[2a03:4000:6:d080::]", "2a03:4000:6:d080::", V6(FromGroups([0x2a03, 0x4000, 6, 0xd080, 0, 0, 0, 0])))
  {
    hide *;
    Colons_2a03_4000_6_d080_zText();
    assert "[2a03:4000:6:d080::]" == "[" + "2a03:4000:6:d080::" + "]";
    ListedBracketed("2a03:4000:6:d080::", "[2a03:4000:6:d080::]", V6(FromGroups([0x2a03, 0x4000, 6, 0xd080, 0, 0, 0, 0])));
  }

  lemma Colons_2a03_4000_6_d080_zText()
    ensures GroupValues([0x2a03, 0x4000, 6, 0xd080, 0, 0, 0, 0])
    ensures Names("2a03:4000:6:d080::", V6(FromGroups([0x2a03, 0x4000, 6, 0xd080, 0, 0, 0, 0]))) && ':' in "2a03:4000:6:d080::"
  {
    hide *;
    Colons_2a03_4000_6_d080_zSpelled();
    Hex2a03();
    Hex4000();
    SmallHexTexts();
    HexD080();
    CompressedNames([0x2a03, 0x4000, 6, 0xd080, 0, 0, 0, 0], 4, 8, ["2a03", "4000", "6", "d080"], [], "2a03:4000:6:d080::");
  }

  lemma Colons_2a03_4000_6_d080_zSpelled()
    ensures GroupValues([0x2a03, 0x4000, 6, 0xd080, 0, 0, 0, 0])
    ensures Join(["2a03", "4000", "6", "d080"], ":") + "::" + Join([], ":") == "2a03:4000:6:d080::"
  {
  }

  lemma Colons_2a03_4000_6_d080_z_1()
    ensures GroupValues([0x2a03, 0x4000, 6, 0xd080, 0, 0, 0, 1])
    ensures ListedAs("[2a03:4000:6:d080::1]", "2a03:4000:6:d080::1", V6(FromGroups([0x2a03, 0x4000, 6, 0xd080, 0, 0, 0, 1])))
  {
    hide *;
    Colons_2a03_4000_6_d080_z_1Text();
    assert "[2a03:4000:6:d080::1]" == "[" + "2a03:4000:6:d080::1" + "]";
    ListedBracketed("2a03:4000:6:d080::1", "[2a03:4000:6:d080::1]", V6(FromGroups([0x2a03, 0x4000, 6, 0xd080, 0, 0, 0, 1])));
  }

  lemma Colons_2a03_4000_6_d080_z_1Text()
    ensures GroupValues([0x2a03, 0x4000, 6, 0xd080, 0, 0, 0, 1])
    ensures Names("2a03:4000:6:d080::1", V6(FromGroups([0x2a03, 0x4000, 6, 0xd080, 0, 0, 0, 1]))) && ':' in "2a03:4000:6:d080::1"
  {
    hide *;
    Colons_2a03_4000_6_d080_z_1Spelled();
    Hex2a03();
    Hex4000();
    SmallHexTexts();
    HexD080();
    CompressedNames([0x2a03, 0x4000, 6, 0xd080, 0, 0, 0, 1], 4, 7, ["2a03", "4000", "6", "d080"], ["1"], "2a03:4000:6:d080::1");
  }

  lemma Colons_2a03_4000_6_d080_z_1Spelled()
    ensures GroupValues([0x2a03, 0x4000, 6, 0xd080, 0, 0, 0, 1])
    ensures Join(["2a03", "4000", "6", "d080"], ":") + "::" + Join(["1"], ":") == "2a03:4000:6:d080::1"
  {
  }

  lemma Colons_2a03_4000_6_d080_dead_beef_ffff_ffff()
    ensures GroupValues([0x2a03, 0x4000, 6, 0xd080, 0xdead, 0xbeef, 0xffff, 0xffff])
    ensures ListedAs("[2a03:4000:6:d080:dead:beef:ffff:ffff]", "2a03:4000:6:d080:dead:beef:ffff:ffff", V6(FromGroups([0x2a03, 0x4000, 6, 0xd080, 0xdead, 0xbeef, 0xffff, 0xffff])))
  {
    hide *;
    Colons_2a03_4000_6_d080_dead_beef_ffff_ffffText();
    Colons_2a03_4000_6_d080_dead_beef_ffff_ffffBracketed();
    ListedBracketed("2a03:4000:6:d080:dead:beef:ffff:ffff", "[2a03:4000:6:d080:dead:beef:ffff:ffff]", V6(FromGroups([0x2a03, 0x4000, 6, 0xd080, 0xdead, 0xbeef, 0xffff, 0xffff])));
  }

  lemma Colons_2a03_4000_6_d080_dead_beef_ffff_ffffText()
    ensures GroupValues([0x2a03, 0x4000, 6, 0xd080, 0xdead, 0xbeef, 0xffff, 0xffff])
    ensures Names("2a03:4000:6:d080:dead:beef:ffff:ffff", V6(FromGroups([0x2a03, 0x4000, 6, 0xd080, 0xdead, 0xbeef, 0xffff, 0xffff]))) && ':' in "2a03:4000:6:d080:dead:beef:ffff:ffff"
  {
    hide *;
    Colons_2a03_4000_6_d080_dead_beef_ffff_ffffSpelled();
    Hex2a03();
    Hex4000();
    SmallHexTexts();
    HexD080();
    HexDead();
    HexBeef();
    HexFfff();
    FullNames([0x2a03, 0x4000, 6, 0xd080, 0xdead, 0xbeef, 0xffff, 0xffff], ["2a03", "4000", "6", "d080"] + ["dead", "beef", "ffff", "ffff"], "2a03:4000:6:d080:dead:beef:ffff:ffff");
  }

  lemma Colons_2a03_4000_6_d080_dead_beef_ffff_ffffSpelled()
    ensures GroupValues([0x2a03, 0x4000, 6, 0xd080, 0xdead, 0xbeef, 0xffff, 0xffff])
    ensures Join(["2a03", "4000", "6", "d080"] + ["dead", "beef", "ffff", "ffff"], ":") == "2a03:4000:6:d080:dead:beef:ffff:ffff"
  {
    hide *;
    Colons_2a03_4000_6_d080_dead_beef_ffff_ffffValues();
    JoinAppend(["2a03", "4000", "6", "d080"], ["dead", "beef", "ffff", "ffff"], ":");
    Colons_2a03_4000_6_d080_dead_beef_ffff_ffffFront();
    Colons_2a03_4000_6_d080_dead_beef_ffff_ffffBack();
  }

  lemma Colons_2a03_4000_6_d080_dead_beef_ffff_ffffBracketed()
    ensures "[2a03:4000:6:d080:dead:beef:ffff:ffff]" == "[" + "2a03:4000:6:d080:dead:beef:ffff:ffff" + "]"
  {
    Colons_2a03_4000_6_d080_dead_beef_ffff_ffffSplit();
    Colons_2a03_4000_6_d080_dead_beef_ffff_ffffHalves();
    Colons_2a03_4000_6_d080_dead_beef_ffff_ffffHead();
    Colons_2a03_4000_6_d080_dead_beef_ffff_ffffTail();
    var x, y := "2a03:4000:6:d080", "dead:beef:ffff:ffff";
    assert "[" + (x + ":" + y) + "]" == ("[" + x + ":") + (y + "]");
  }

  lemma Colons_2a03_4000_6_d080_dead_beef_ffff_ffffSplit()
    ensures "2a03:4000:6:d080:dead:beef:ffff:ffff" == "2a03:4000:6:d080" + ":" + "dead:beef:ffff:ffff"
  {
  }

  lemma Colons_2a03_4000_6_d080_dead_beef_ffff_ffffHalves()
    ensures "[2a03:4000:6:d080:dead:beef:ffff:ffff]" == "[2a03:4000:6:d080:" + "dead:beef:ffff:ffff]"
  {
  }

  lemma Colons_2a03_4000_6_d080_dead_beef_ffff_ffffHead()
    ensures "[2a03:4000:6:d080:" == "[" + "2a03:4000:6:d080" + ":"
  {
  }

  lemma Colons_2a03_4000_6_d080_dead_beef_ffff_ffffTail()
    ensures "dead:beef:ffff:ffff]" == "dead:beef:ffff:ffff" + "]"
  {
  }

  lemma Colons_2a03_4000_6_d080_dead_beef_ffff_ffffValues()
    ensures GroupValues([0x2a03, 0x4000, 6, 0xd080, 0xdead, 0xbeef, 0xffff, 0xffff])
  {
  }

  lemma Colons_2a03_4000_6_d080_dead_beef_ffff_ffffFront()
    ensures Join(["2a03", "4000", "6", "d080"], ":") == "2a03:4000:6:d080"
  {
  }

  lemma Colons_2a03_4000_6_d080_dead_beef_ffff_ffffBack()
    ensures Join(["dead", "beef", "ffff", "ffff"], ":") == "dead:beef:ffff:ffff"
  {
  }

  lemma Colons_2a03_4000_6_d080_z_42()
    ensures GroupValues([0x2a03, 0x4000, 6, 0xd080, 0, 0, 0, 0x42])
    ensures ListedAs("[2a03:4000:6:d080::42]", "2a03:4000:6:d080::42", V6(FromGroups([0x2a03, 0x4000, 6, 0xd080, 0, 0, 0, 0x42])))
  {
    hide *;
    Colons_2a03_4000_6_d080_z_42Text();
    assert "[2a03:4000:6:d080::42]" == "[" + "2a03:4000:6:d080::42" + "]";
    ListedBracketed("2a03:4000:6:d080::42", "[2a03:4000:6:d080::42]", V6(FromGroups([0x2a03, 0x4000, 6, 0xd080, 0, 0, 0, 0x42])));
  }

  lemma Colons_2a03_4000_6_d080_z_42Text()
    ensures GroupValues([0x2a03, 0x4000, 6, 0xd080, 0, 0, 0, 0x42])
    ensures Names("2a03:4000:6:d080::42", V6(FromGroups([0x2a03, 0x4000, 6, 0xd080, 0, 0, 0, 0x42]))) && ':' in "2a03:4000:6:d080::42"
  {
    hide *;
    Colons_2a03_4000_6_d080_z_42Spelled();
    Hex2a03();
    Hex4000();
    SmallHexTexts();
    HexD080();
    Hex42();
    CompressedNames([0x2a03, 0x4000, 6, 0xd080, 0, 0, 0, 0x42], 4, 7, ["2a03", "4000", "6", "d080"], ["42"], "2a03:4000:6:d080::42");
  }

  lemma Colons_2a03_4000_6_d080_z_42Spelled()
    ensures GroupValues([0x2a03, 0x4000, 6, 0xd080, 0, 0, 0, 0x42])
    ensures Join(["2a03", "4000", "6", "d080"], ":") + "::" + Join(["42"], ":") == "2a03:4000:6:d080::42"
  {
  }

  lemma Colons_2a03_4000_7_d080_z()
    ensures GroupValues([0x2a03, 0x4000, 7, 0xd080, 0, 0, 0, 0])
    ensures ListedAs("[2a03:4000:7:d080::]", "2a03:4000:7:d080::", V6(FromGroups([0x2a03, 0x4000, 7, 0xd080, 0, 0, 0, 0])))
  {
    hide *;
    Colons_2a03_4000_7_d080_zText();
    assert "[2a03:4000:7:d080::]" == "[" + "2a03:4000:7:d080::" + "]";
    ListedBracketed("2a03:4000:7:d080::", "[2a03:4000:7:d080::]", V6(FromGroups([0x2a03, 0x4000, 7, 0xd080, 0, 0, 0, 0])));
  }

  lemma Colons_2a03_4000_7_d080_zText()
    ensures GroupValues([0x2a03, 0x4000, 7, 0xd080, 0, 0, 0, 0])
    ensures Names("2a03:4000:7:d080::", V6(FromGroups([0x2a03, 0x4000, 7, 0xd080, 0, 0, 0, 0]))) && ':' in "2a03:4000:7:d080::"
  {
    hide *;
    Colons_2a03_4000_7_d080_zSpelled();
    Hex2a03();
    Hex4000();
    SmallHexTexts();
    HexD080();
    CompressedNames([0x2a03, 0x4000, 7, 0xd080, 0, 0, 0, 0], 4, 8, ["2a03", "4000", "7", "d080"], [], "2a03:4000:7:d080::");
  }

  lemma Colons_2a03_4000_7_d080_zSpelled()
    ensures GroupValues([0x2a03, 0x4000, 7, 0xd080, 0, 0, 0, 0])
    ensures Join(["2a03", "4000", "7", "d080"], ":") + "::" + Join([], ":") == "2a03:4000:7:d080::"
  {
  }

  lemma Colons_2a03_4000_7_d080_z_1()
    ensures GroupValues([0x2a03, 0x4000, 7, 0xd080, 0, 0, 0, 1])
    ensures ListedAs("[2a03:4000:7:d080::1]", "2a03:4000:7:d080::1", V6(FromGroups([0x2a03, 0x4000, 7, 0xd080, 0, 0, 0, 1])))
  {
    hide *;
    Colons_2a03_4000_7_d080_z_1Text();
    assert "[2a03:4000:7:d080::1]" == "[" + "2a03:4000:7:d080::1" + "]";
    ListedBracketed("2a03:4000:7:d080::1", "[2a03:4000:7:d080::1]", V6(FromGroups([0x2a03, 0x4000, 7, 0xd080, 0, 0, 0, 1])));
  }

  lemma Colons_2a03_4000_7_d080_z_1Text()
    ensures GroupValues([0x2a03, 0x4000, 7, 0xd080, 0, 0, 0, 1])
    ensures Names("2a03:4000:7:d080::1", V6(FromGroups([0x2a03, 0x4000, 7, 0xd080, 0, 0, 0, 1]))) && ':' in "2a03:4000:7:d080::1"
  {
    hide *;
    Colons_2a03_4000_7_d080_z_1Spelled();
    Hex2a03();
    Hex4000();
    SmallHexTexts();
    HexD080();
    CompressedNames([0x2a03, 0x4000, 7, 0xd080, 0, 0, 0, 1], 4, 7, ["2a03", "4000", "7", "d080"], ["1"], "2a03:4000:7:d080::1");
  }

  lemma Colons_2a03_4000_7_d080_z_1Spelled()
    ensures GroupValues([0x2a03, 0x4000, 7, 0xd080, 0, 0, 0, 1])
    ensures Join(["2a03", "4000", "7", "d080"], ":") + "::" + Join(["1"], ":") == "2a03:4000:7:d080::1"
  {
  }

  lemma Colons_fe80_z()
    ensures GroupValues([0xfe80, 0, 0, 0, 0, 0, 0, 0])
    ensures ListedAs("[fe80::]", "fe80::", V6(FromGroups([0xfe80, 0, 0, 0, 0, 0, 0, 0])))
  {
    hide *;
    Colons_fe80_zText();
    assert "[fe80::]" == "[" + "fe80::" + "]";
    ListedBracketed("fe80::", "[fe80::]", V6(FromGroups([0xfe80, 0, 0, 0, 0, 0, 0, 0])));
  }

  lemma Colons_fe80_zText()
    ensures GroupValues([0xfe80, 0, 0, 0, 0, 0, 0, 0])
    ensures Names("fe80::", V6(FromGroups([0xfe80, 0, 0, 0, 0, 0, 0, 0]))) && ':' in "fe80::"
  {
    hide *;
    Colons_fe80_zSpelled();
    HexFe80();
    CompressedNames([0xfe80, 0, 0, 0, 0, 0, 0, 0], 1, 8, ["fe80"], [], "fe80::");
  }

  lemma Colons_fe80_zSpelled()
    ensures GroupValues([0xfe80, 0, 0, 0, 0, 0, 0, 0])
    ensures Join(["fe80"], ":") + "::" + Join([], ":") == "fe80::"
  {
  }

  lemma Colons_4242_z_1()
    ensures GroupValues([0x4242, 0, 0, 0, 0, 0, 0, 1])
    ensures ListedAs("[4242::1]", "4242::1", V6(FromGroups([0x4242, 0, 0, 0, 0, 0, 0, 1])))
  {
    hide *;
    Colons_4242_z_1Text();
    assert "[4242::1]" == "[" + "4242::1" + "]";
    ListedBracketed("4242::1", "[4242::1]", V6(FromGroups([0x4242, 0, 0, 0, 0, 0, 0, 1])));
  }

  lemma Colons_4242_z_1Text()
    ensures GroupValues([0x4242, 0, 0, 0, 0, 0, 0, 1])
    ensures Names("4242::1", V6(FromGroups([0x4242, 0, 0, 0, 0, 0, 0, 1]))) && ':' in "4242::1"
  {
    hide *;
    Colons_4242_z_1Spelled();
    Hex4242();
    SmallHexTexts();
    CompressedNames([0x4242, 0, 0, 0, 0, 0, 0, 1], 1, 7, ["4242"], ["1"], "4242::1");
  }

  lemma Colons_4242_z_1Spelled()
    ensures GroupValues([0x4242, 0, 0, 0, 0, 0, 0, 1])
    ensures Join(["4242"], ":") + "::" + Join(["1"], ":") == "4242::1"
  {
  }

  lemma Colons_2a03_4000_6_d080_z_43()
    ensures GroupValues([0x2a03, 0x4000, 6, 0xd080, 0, 0, 0, 0x43])
    ensures ListedAs("[2a03:4000:6:d080::43]", "2a03:4000:6:d080::43", V6(FromGroups([0x2a03, 0x4000, 6, 0xd080, 0, 0, 0, 0x43])))
  {
    hide *;
    Colons_2a03_4000_6_d080_z_43Text();
    assert "[2a03:4000:6:d080::43]" == "[" + "2a03:4000:6:d080::43" + "]";
    ListedBracketed("2a03:4000:6:d080::43", "[2a03:4000:6:d080::43]", V6(FromGroups([0x2a03, 0x4000, 6, 0xd080, 0, 0, 0, 0x43])));
  }

  lemma Colons_2a03_4000_6_d080_z_43Text()
    ensures GroupValues([0x2a03, 0x4000, 6, 0xd080, 0, 0, 0, 0x43])
    ensures Names("2a03:4000:6:d080::43", V6(FromGroups([0x2a03, 0x4000, 6, 0xd080, 0, 0, 0, 0x43]))) && ':' in "2a03:4000:6:d080::43"
  {
    hide *;
    Colons_2a03_4000_6_d080_z_43Spelled();
    Hex2a03();
    Hex4000();
    SmallHexTexts();
    HexD080();
    Hex43();
    CompressedNames([0x2a03, 0x4000, 6, 0xd080, 0, 0, 0, 0x43], 4, 7, ["2a03", "4000", "6", "d080"], ["43"], "2a03:4000:6:d080::43");
  }

  lemma Colons_2a03_4000_6_d080_z_43Spelled()
    ensures GroupValues([0x2a03, 0x4000, 6, 0xd080, 0, 0, 0, 0x43])
    ensures Join(["2a03", "4000", "6", "d080"], ":") + "::" + Join(["43"], ":") == "2a03:4000:6:d080::43"
  {
  }

  lemma Colons_fe80_z_1()
    ensures GroupValues([0xfe80, 0, 0, 0, 0, 0, 0, 1])
    ensures ListedAs("[fe80::1]", "fe80::1", V6(FromGroups([0xfe80, 0, 0, 0, 0, 0, 0, 1])))
  {
    hide *;
    Colons_fe80_z_1Text();
    assert "[fe80::1]" == "[" + "fe80::1" + "]";
    ListedBracketed("fe80::1", "[fe80::1]", V6(FromGroups([0xfe80, 0, 0, 0, 0, 0, 0, 1])));
  }

  lemma Colons_fe80_z_1Text()
    ensures GroupValues([0xfe80, 0, 0, 0, 0, 0, 0, 1])
    ensures Names("fe80::1", V6(FromGroups([0xfe80, 0, 0, 0, 0, 0, 0, 1]))) && ':' in "fe80::1"
  {
    hide *;
    Colons_fe80_z_1Spelled();
    HexFe80();
    SmallHexTexts();
    CompressedNames([0xfe80, 0, 0, 0, 0, 0, 0, 1], 1, 7, ["fe80"], ["1"], "fe80::1");
  }

  lemma Colons_fe80_z_1Spelled()
    ensures GroupValues([0xfe80, 0, 0, 0, 0, 0, 0, 1])
    ensures Join(["fe80"], ":") + "::" + Join(["1"], ":") == "fe80::1"
  {
  }

  lemma Colons_fe80_z_fe80()
    ensures GroupValues([0xfe80, 0, 0, 0, 0, 0, 0, 0xfe80])
    ensures ListedAs("[fe80::fe80]", "fe80::fe80", V6(FromGroups([0xfe80, 0, 0, 0, 0, 0, 0, 0xfe80])))
  {
    hide *;
    Colons_fe80_z_fe80Text();
    assert "[fe80::fe80]" == "[" + "fe80::fe80" + "]";
    ListedBracketed("fe80::fe80", "[fe80::fe80]", V6(FromGroups([0xfe80, 0, 0, 0, 0, 0, 0, 0xfe80])));
  }

  lemma Colons_fe80_z_fe80Text()
    ensures GroupValues([0xfe80, 0, 0, 0, 0, 0, 0, 0xfe80])
    ensures Names("fe80::fe80", V6(FromGroups([0xfe80, 0, 0, 0, 0, 0, 0, 0xfe80]))) && ':' in "fe80::fe80"
  {
    hide *;
    Colons_fe80_z_fe80Spelled();
    HexFe80();
    CompressedNames([0xfe80, 0, 0, 0, 0, 0, 0, 0xfe80], 1, 7, ["fe80"], ["fe80"], "fe80::fe80");
  }

  lemma Colons_fe80_z_fe80Spelled()
    ensures GroupValues([0xfe80, 0, 0, 0, 0, 0, 0, 0xfe80])
    ensures Join(["fe80"], ":") + "::" + Join(["fe80"], ":") == "fe80::fe80"
  {
  }

  lemma Colons_ffff_z()
    ensures GroupValues([0xffff, 0, 0, 0, 0, 0, 0, 0])
    ensures ListedAs("[ffff::]", "ffff::", V6(FromGroups([0xffff, 0, 0, 0, 0, 0, 0, 0])))
  {
    hide *;
    Colons_ffff_zText();
    assert "[ffff::]" == "[" + "ffff::" + "]";
    ListedBracketed("ffff::", "[ffff::]", V6(FromGroups([0xffff, 0, 0, 0, 0, 0, 0, 0])));
  }

  lemma Colons_ffff_zText()
    ensures GroupValues([0xffff, 0, 0, 0, 0, 0, 0, 0])
    ensures Names("ffff::", V6(FromGroups([0xffff, 0, 0, 0, 0, 0, 0, 0]))) && ':' in "ffff::"
  {
    hide *;
    Colons_ffff_zSpelled();
    HexFfff();
    CompressedNames([0xffff, 0, 0, 0, 0, 0, 0, 0], 1, 8, ["ffff"], [], "ffff::");
  }

  lemma Colons_ffff_zSpelled()
    ensures GroupValues([0xffff, 0, 0, 0, 0, 0, 0, 0])
    ensures Join(["ffff"], ":") + "::" + Join([], ":") == "ffff::"
  {
  }

  // ------------------------------------------------ the tests' ranges

  const Cidr_1_2_3_0_24: Net := Net(V4(FromOctets([1, 2, 3, 0])), 24)

  lemma Cidr_1_2_3_0_24Spelled()
    ensures Cidr_1_2_3_0_24 == Net(V4(FromOctets([1, 2, 3, 0])), 8 * 3) && OctetValues([1, 2, 3, 0])
  {
  }

  lemma Cidr_1_2_3_0_24Family()
    ensures Cidr_1_2_3_0_24.network.V4?
  {
  }

  lemma Cidr_1_2_3_0_24Holds(os: seq<nat>)
    requires |os| == 4 && OctetValues(os)
    ensures Cidr_1_2_3_0_24.Valid()
    ensures Contains(Cidr_1_2_3_0_24, V4(FromOctets(os))) <==> os[..3] == [1, 2, 3, 0][..3]
  {
    hide *;
    Cidr_1_2_3_0_24Spelled();
    ContainsOctets([1, 2, 3, 0], 3, os);
  }

  lemma Entry_1_2_3_4_24()
    ensures ParseCidr("1.2.3.4/24") == Some(Cidr_1_2_3_0_24)
  {
    assert Cidr_1_2_3_0_24 == Net(V4(FromOctets([1, 2, 3, 0])), 24);
    assert "1.2.3.4/24" == "1.2.3.4" + "/" + "24";
    assert OctetValues([1, 2, 3, 0]);
    assert [1, 2, 3, 0][..3] == [1, 2, 3, 4][..3] && forall m :: 3 <= m < 4 ==> [1, 2, 3, 0][m] == 0;
    hide *;
    Dotted_1_2_3_4();
    Dec24();
    QuadCidr([1, 2, 3, 4], 3, [1, 2, 3, 0], "1.2.3.4", "24", "1.2.3.4/24");
  }

  const Cidr_8_8_8_8_32: Net := Net(V4(FromOctets([8, 8, 8, 8])), 32)

  lemma Cidr_8_8_8_8_32Spelled()
    ensures Cidr_8_8_8_8_32 == Net(V4(FromOctets([8, 8, 8, 8])), 8 * 4) && OctetValues([8, 8, 8, 8])
  {
  }

  lemma Cidr_8_8_8_8_32Family()
    ensures Cidr_8_8_8_8_32.network.V4?
  {
  }

  lemma Cidr_8_8_8_8_32Holds(os: seq<nat>)
    requires |os| == 4 && OctetValues(os)
    ensures Cidr_8_8_8_8_32.Valid()
    ensures Contains(Cidr_8_8_8_8_32, V4(FromOctets(os))) <==> os[..4] == [8, 8, 8, 8][..4]
  {
    hide *;
    Cidr_8_8_8_8_32Spelled();
    ContainsOctets([8, 8, 8, 8], 4, os);
  }

  lemma Entry_8_8_8_8_32()
    ensures ParseCidr("8.8.8.8/32") == Some(Cidr_8_8_8_8_32)
  {
    assert Cidr_8_8_8_8_32 == Net(V4(FromOctets([8, 8, 8, 8])), 32);
    assert "8.8.8.8/32" == "8.8.8.8" + "/" + "32";
    assert OctetValues([8, 8, 8, 8]);
    hide *;
    Dotted_8_8_8_8();
    Dec32();
    QuadCidr([8, 8, 8, 8], 4, [8, 8, 8, 8], "8.8.8.8", "32", "8.8.8.8/32");
  }

  const Cidr_8_0_0_0_8: Net := Net(V4(FromOctets([8, 0, 0, 0])), 8)

  lemma Cidr_8_0_0_0_8Spelled()
    ensures Cidr_8_0_0_0_8 == Net(V4(FromOctets([8, 0, 0, 0])), 8 * 1) && OctetValues([8, 0, 0, 0])
  {
  }

  lemma Cidr_8_0_0_0_8Family()
    ensures Cidr_8_0_0_0_8.network.V4?
  {
  }

  lemma Cidr_8_0_0_0_8Holds(os: seq<nat>)
    requires |os| == 4 && OctetValues(os)
    ensures Cidr_8_0_0_0_8.Valid()
    ensures Contains(Cidr_8_0_0_0_8, V4(FromOctets(os))) <==> os[..1] == [8, 0, 0, 0][..1]
  {
    hide *;
    Cidr_8_0_0_0_8Spelled();
    ContainsOctets([8, 0, 0, 0], 1, os);
  }

  lemma Entry_8_8_8_8_8()
    ensures ParseCidr("8.8.8.8/8") == Some(Cidr_8_0_0_0_8)
  {
    assert Cidr_8_0_0_0_8 == Net(V4(FromOctets([8, 0, 0, 0])), 8);
    assert "8.8.8.8/8" == "8.8.8.8" + "/" + "8";
    assert OctetValues([8, 0, 0, 0]);
    assert [8, 0, 0, 0][..1] == [8, 8, 8, 8][..1] && forall m :: 1 <= m < 4 ==> [8, 0, 0, 0][m] == 0;
    hide *;
    Dotted_8_8_8_8();
    SmallDecimals();
    QuadCidr([8, 8, 8, 8], 1, [8, 0, 0, 0], "8.8.8.8", "8", "8.8.8.8/8");
  }

  const Cidr_2a03_4000_6_d080_z_64: Net := Net(V6(FromGroups([0x2a03, 0x4000, 6, 0xd080, 0, 0, 0, 0])), 64)

  lemma Cidr_2a03_4000_6_d080_z_64Spelled()
    ensures Cidr_2a03_4000_6_d080_z_64 == Net(V6(FromGroups([0x2a03, 0x4000, 6, 0xd080, 0, 0, 0, 0])), 16 * 4) && GroupValues([0x2a03, 0x4000, 6, 0xd080, 0, 0, 0, 0])
  {
  }

  lemma Cidr_2a03_4000_6_d080_z_64Family()
    ensures !Cidr_2a03_4000_6_d080_z_64.network.V4?
  {
  }

  lemma Cidr_2a03_4000_6_d080_z_64Holds(gs: seq<nat>)
    requires |gs| == 8 && GroupValues(gs)
    ensures Cidr_2a03_4000_6_d080_z_64.Valid()
    ensures Contains(Cidr_2a03_4000_6_d080_z_64, V6(FromGroups(gs))) <==> gs[..4] == [0x2a03, 0x4000, 6, 0xd080, 0, 0, 0, 0][..4]
  {
    hide *;
    Cidr_2a03_4000_6_d080_z_64Spelled();
    ContainsGroups([0x2a03, 0x4000, 6, 0xd080, 0, 0, 0, 0], 4, gs);
  }

  lemma Entry_2a03_4000_6_d080_z_64()
    ensures ParseCidr("2a03:4000:6:d080::/64") == Some(Cidr_2a03_4000_6_d080_z_64)
  {
    assert forall m :: 4 <= m < 8 ==> [0x2a03, 0x4000, 6, 0xd080, 0, 0, 0, 0][m] == 0;
    assert Cidr_2a03_4000_6_d080_z_64 == Net(V6(FromGroups([0x2a03, 0x4000, 6, 0xd080, 0, 0, 0, 0])), 64);
    assert "2a03:4000:6:d080::/64" == "2a03:4000:6:d080::" + "/" + "64";
    hide *;
    Colons_2a03_4000_6_d080_z();
    Dec64();
    GroupsCidr([0x2a03, 0x4000, 6, 0xd080, 0, 0, 0, 0], 4, "[2a03:4000:6:d080::]", "2a03:4000:6:d080::", "64", "2a03:4000:6:d080::/64");
  }

  const Cidr_2a03_4000_6_d080_z42_128: Net := Net(V6(FromGroups([0x2a03, 0x4000, 6, 0xd080, 0, 0, 0, 0x42])), 128)

  lemma Cidr_2a03_4000_6_d080_z42_128Spelled()
    ensures Cidr_2a03_4000_6_d080_z42_128 == Net(V6(FromGroups([0x2a03, 0x4000, 6, 0xd080, 0, 0, 0, 0x42])), 16 * 8) && GroupValues([0x2a03, 0x4000, 6, 0xd080, 0, 0, 0, 0x42])
  {
  }

  lemma Cidr_2a03_4000_6_d080_z42_128Family()
    ensures !Cidr_2a03_4000_6_d080_z42_128.network.V4?
  {
  }

  lemma Cidr_2a03_4000_6_d080_z42_128Holds(gs: seq<nat>)
    requires |gs| == 8 && GroupValues(gs)
    ensures Cidr_2a03_4000_6_d080_z42_128.Valid()
    ensures Contains(Cidr_2a03_4000_6_d080_z42_128, V6(FromGroups(gs))) <==> gs[..8] == [0x2a03, 0x4000, 6, 0xd080, 0, 0, 0, 0x42][..8]
  {
    hide *;
    Cidr_2a03_4000_6_d080_z42_128Spelled();
    ContainsGroups([0x2a03, 0x4000, 6, 0xd080, 0, 0, 0, 0x42], 8, gs);
  }

  lemma Entry_2a03_4000_6_d080_z_42_128()
    ensures ParseCidr("2a03:4000:6:d080::42/128") == Some(Cidr_2a03_4000_6_d080_z42_128)
  {
    assert Cidr_2a03_4000_6_d080_z42_128 == Net(V6(FromGroups([0x2a03, 0x4000, 6, 0xd080, 0, 0, 0, 0x42])), 128);
    assert "2a03:4000:6:d080::42/128" == "2a03:4000:6:d080::42" + "/" + "128";
    hide *;
    Colons_2a03_4000_6_d080_z_42();
    Dec128();
    GroupsCidr([0x2a03, 0x4000, 6, 0xd080, 0, 0, 0, 0x42], 8, "[2a03:4000:6:d080::42]", "2a03:4000:6:d080::42", "128", "2a03:4000:6:d080::42/128");
  }

  const Cidr_fe80_z_16: Net := Net(V6(FromGroups([0xfe80, 0, 0, 0, 0, 0, 0, 0])), 16)

  lemma Cidr_fe80_z_16Spelled()
    ensures Cidr_fe80_z_16 == Net(V6(FromGroups([0xfe80, 0, 0, 0, 0, 0, 0, 0])), 16 * 1) && GroupValues([0xfe80, 0, 0, 0, 0, 0, 0, 0])
  {
  }

  lemma Cidr_fe80_z_16Family()
    ensures !Cidr_fe80_z_16.network.V4?
  {
  }

  lemma Cidr_fe80_z_16Holds(gs: seq<nat>)
    requires |gs| == 8 && GroupValues(gs)
    ensures Cidr_fe80_z_16.Valid()
    ensures Contains(Cidr_fe80_z_16, V6(FromGroups(gs))) <==> gs[..1] == [0xfe80, 0, 0, 0, 0, 0, 0, 0][..1]
  {
    hide *;
    Cidr_fe80_z_16Spelled();
    ContainsGroups([0xfe80, 0, 0, 0, 0, 0, 0, 0], 1, gs);
  }

  lemma Entry_fe80_z_16()
    ensures ParseCidr("fe80::/16") == Some(Cidr_fe80_z_16)
  {
    assert forall m :: 1 <= m < 8 ==> [0xfe80, 0, 0, 0, 0, 0, 0, 0][m] == 0;
    assert Cidr_fe80_z_16 == Net(V6(FromGroups([0xfe80, 0, 0, 0, 0, 0, 0, 0])), 16);
    assert "fe80::/16" == "fe80::" + "/" + "16";
    hide *;
    Colons_fe80_z();
    Dec16();
    GroupsCidr([0xfe80, 0, 0, 0, 0, 0, 0, 0], 1, "[fe80::]", "fe80::", "16", "fe80::/16");
  }

  const Cidr_127_0_0_1_32: Net := Net(V4(FromOctets([127, 0, 0, 1])), 32)

  lemma Cidr_127_0_0_1_32Spelled()
    ensures Cidr_127_0_0_1_32 == Net(V4(FromOctets([127, 0, 0, 1])), 8 * 4) && OctetValues([127, 0, 0, 1])
  {
  }

  lemma Cidr_127_0_0_1_32Family()
    ensures Cidr_127_0_0_1_32.network.V4?
  {
  }

  lemma Cidr_127_0_0_1_32Holds(os: seq<nat>)
    requires |os| == 4 && OctetValues(os)
    ensures Cidr_127_0_0_1_32.Valid()
    ensures Contains(Cidr_127_0_0_1_32, V4(FromOctets(os))) <==> os[..4] == [127, 0, 0, 1][..4]
  {
    hide *;
    Cidr_127_0_0_1_32Spelled();
    ContainsOctets([127, 0, 0, 1], 4, os);
  }

  lemma Entry_127_0_0_1_32()
    ensures ParseCidr("127.0.0.1/32") == Some(Cidr_127_0_0_1_32)
  {
    assert Cidr_127_0_0_1_32 == Net(V4(FromOctets([127, 0, 0, 1])), 32);
    assert "127.0.0.1/32" == "127.0.0.1" + "/" + "32";
    assert OctetValues([127, 0, 0, 1]);
    hide *;
    Dotted_127_0_0_1();
    Dec32();
    QuadCidr([127, 0, 0, 1], 4, [127, 0, 0, 1], "127.0.0.1", "32", "127.0.0.1/32");
  }

  const Cidr_1_2_3_4_32: Net := Net(V4(FromOctets([1, 2, 3, 4])), 32)

  lemma Cidr_1_2_3_4_32Spelled()
    ensures Cidr_1_2_3_4_32 == Net(V4(FromOctets([1, 2, 3, 4])), 8 * 4) && OctetValues([1, 2, 3, 4])
  {
  }

  lemma Cidr_1_2_3_4_32Family()
    ensures Cidr_1_2_3_4_32.network.V4?
  {
  }

  lemma Cidr_1_2_3_4_32Holds(os: seq<nat>)
    requires |os| == 4 && OctetValues(os)
    ensures Cidr_1_2_3_4_32.Valid()
    ensures Contains(Cidr_1_2_3_4_32, V4(FromOctets(os))) <==> os[..4] == [1, 2, 3, 4][..4]
  {
    hide *;
    Cidr_1_2_3_4_32Spelled();
    ContainsOctets([1, 2, 3, 4], 4, os);
  }

  lemma Entry_1_2_3_4_32()
    ensures ParseCidr("1.2.3.4/32") == Some(Cidr_1_2_3_4_32)
  {
    assert Cidr_1_2_3_4_32 == Net(V4(FromOctets([1, 2, 3, 4])), 32);
    assert "1.2.3.4/32" == "1.2.3.4" + "/" + "32";
    assert OctetValues([1, 2, 3, 4]);
    hide *;
    Dotted_1_2_3_4();
    Dec32();
    QuadCidr([1, 2, 3, 4], 4, [1, 2, 3, 4], "1.2.3.4", "32", "1.2.3.4/32");
  }

  const Cidr_127_0_0_0_8: Net := Net(V4(FromOctets([127, 0, 0, 0])), 8)

  lemma Cidr_127_0_0_0_8Spelled()
    ensures Cidr_127_0_0_0_8 == Net(V4(FromOctets([127, 0, 0, 0])), 8 * 1) && OctetValues([127, 0, 0, 0])
  {
  }

  lemma Cidr_127_0_0_0_8Family()
    ensures Cidr_127_0_0_0_8.network.V4?
  {
  }

  lemma Cidr_127_0_0_0_8Holds(os: seq<nat>)
    requires |os| == 4 && OctetValues(os)
    ensures Cidr_127_0_0_0_8.Valid()
    ensures Contains(Cidr_127_0_0_0_8, V4(FromOctets(os))) <==> os[..1] == [127, 0, 0, 0][..1]
  {
    hide *;
    Cidr_127_0_0_0_8Spelled();
    ContainsOctets([127, 0, 0, 0], 1, os);
  }

  lemma Entry_127_0_0_1_8()
    ensures ParseCidr("127.0.0.1/8") == Some(Cidr_127_0_0_0_8)
  {
    assert Cidr_127_0_0_0_8 == Net(V4(FromOctets([127, 0, 0, 0])), 8);
    assert "127.0.0.1/8" == "127.0.0.1" + "/" + "8";
    assert OctetValues([127, 0, 0, 0]);
    assert [127, 0, 0, 0][..1] == [127, 0, 0, 1][..1] && forall m :: 1 <= m < 4 ==> [127, 0, 0, 0][m] == 0;
    hide *;
    Dotted_127_0_0_1();
    SmallDecimals();
    QuadCidr([127, 0, 0, 1], 1, [127, 0, 0, 0], "127.0.0.1", "8", "127.0.0.1/8");
  }

  // ------------------------------------------------ the handler cases

  lemma IPv4Builds()
    ensures Builds(["1.2.3.4/24"], [Cidr_1_2_3_0_24]) && ValidRanges([Cidr_1_2_3_0_24])
  {
    hide *;
    Entry_1_2_3_4_24();
    BuildsOf(["1.2.3.4/24"], [Cidr_1_2_3_0_24]);
  }

  lemma IPv4Quads(os: seq<nat>)
    requires |os| == 4 && OctetValues(os) && ValidRanges([Cidr_1_2_3_0_24])
    ensures Admits([Cidr_1_2_3_0_24], V4(FromOctets(os))) <==> (os[0] == 1 && os[1] == 2 && os[2] == 3)
  {
    hide *;
    IPv4QuadsPrefix(os);
    Agree3(os, [1, 2, 3, 0]);
  }

  lemma IPv4QuadsPrefix(os: seq<nat>)
    requires |os| == 4 && OctetValues(os) && ValidRanges([Cidr_1_2_3_0_24])
    ensures Admits([Cidr_1_2_3_0_24], V4(FromOctets(os))) <==> os[..3] == [1, 2, 3, 0][..3]
  {
    var a := V4(FromOctets(os));
    hide *;
    QuadValid(os);
    ValidAt([Cidr_1_2_3_0_24], 0);
    Cidr_1_2_3_0_24Holds(os);
    AdmitsOne(Cidr_1_2_3_0_24, a);
  }

  lemma IPv4Passes()
    ensures Passes(["1.2.3.4/24"], "1.2.3.1")
    ensures Passes(["1.2.3.4/24"], "1.2.3.32")
    ensures Passes(["1.2.3.4/24"], "1.2.3.156")
    ensures Passes(["1.2.3.4/24"], "1.2.3.255")
  {
    hide *;
    IPv4Builds();
    ProxyOctets();
    IPv4Quads([254, 254, 254, 254]);
    Dotted_1_2_3_1();
    IPv4Quads([1, 2, 3, 1]);
    Checked(["1.2.3.4/24"], [Cidr_1_2_3_0_24], "1.2.3.1", "1.2.3.1", V4(FromOctets([1, 2, 3, 1])));
    Dotted_1_2_3_32();
    IPv4Quads([1, 2, 3, 32]);
    Checked(["1.2.3.4/24"], [Cidr_1_2_3_0_24], "1.2.3.32", "1.2.3.32", V4(FromOctets([1, 2, 3, 32])));
    Dotted_1_2_3_156();
    IPv4Quads([1, 2, 3, 156]);
    Checked(["1.2.3.4/24"], [Cidr_1_2_3_0_24], "1.2.3.156", "1.2.3.156", V4(FromOctets([1, 2, 3, 156])));
    Dotted_1_2_3_255();
    IPv4Quads([1, 2, 3, 255]);
    Checked(["1.2.3.4/24"], [Cidr_1_2_3_0_24], "1.2.3.255", "1.2.3.255", V4(FromOctets([1, 2, 3, 255])));
  }

  lemma IPv4Rejects()
    ensures Rejected(["1.2.3.4/24"], "1.2.16.1")
    ensures Rejected(["1.2.3.4/24"], "1.2.32.1")
    ensures Rejected(["1.2.3.4/24"], "127.0.0.1")
    ensures Rejected(["1.2.3.4/24"], "8.8.8.8")
  {
    hide *;
    IPv4Builds();
    ProxyOctets();
    IPv4Quads([254, 254, 254, 254]);
    Dotted_1_2_16_1();
    IPv4Quads([1, 2, 16, 1]);
    Checked(["1.2.3.4/24"], [Cidr_1_2_3_0_24], "1.2.16.1", "1.2.16.1", V4(FromOctets([1, 2, 16, 1])));
    Dotted_1_2_32_1();
    IPv4Quads([1, 2, 32, 1]);
    Checked(["1.2.3.4/24"], [Cidr_1_2_3_0_24], "1.2.32.1", "1.2.32.1", V4(FromOctets([1, 2, 32, 1])));
    Dotted_127_0_0_1();
    IPv4Quads([127, 0, 0, 1]);
    Checked(["1.2.3.4/24"], [Cidr_1_2_3_0_24], "127.0.0.1", "127.0.0.1", V4(FromOctets([127, 0, 0, 1])));
    Dotted_8_8_8_8();
    IPv4Quads([8, 8, 8, 8]);
    Checked(["1.2.3.4/24"], [Cidr_1_2_3_0_24], "8.8.8.8", "8.8.8.8", V4(FromOctets([8, 8, 8, 8])));
  }

  lemma SingleIPv4Builds()
    ensures Builds(["8.8.8.8/32"], [Cidr_8_8_8_8_32]) && ValidRanges([Cidr_8_8_8_8_32])
  {
    hide *;
    Entry_8_8_8_8_32();
    BuildsOf(["8.8.8.8/32"], [Cidr_8_8_8_8_32]);
  }

  lemma SingleIPv4Quads(os: seq<nat>)
    requires |os| == 4 && OctetValues(os) && ValidRanges([Cidr_8_8_8_8_32])
    ensures Admits([Cidr_8_8_8_8_32], V4(FromOctets(os))) <==> (os[0] == 8 && os[1] == 8 && os[2] == 8 && os[3] == 8)
  {
    hide *;
    SingleIPv4QuadsPrefix(os);
    Agree4(os, [8, 8, 8, 8]);
  }

  lemma SingleIPv4QuadsPrefix(os: seq<nat>)
    requires |os| == 4 && OctetValues(os) && ValidRanges([Cidr_8_8_8_8_32])
    ensures Admits([Cidr_8_8_8_8_32], V4(FromOctets(os))) <==> os[..4] == [8, 8, 8, 8][..4]
  {
    var a := V4(FromOctets(os));
    hide *;
    QuadValid(os);
    ValidAt([Cidr_8_8_8_8_32], 0);
    Cidr_8_8_8_8_32Holds(os);
    AdmitsOne(Cidr_8_8_8_8_32, a);
  }

  lemma SingleIPv4Passes()
    ensures Passes(["8.8.8.8/32"], "8.8.8.8")
  {
    hide *;
    SingleIPv4Builds();
    ProxyOctets();
    SingleIPv4Quads([254, 254, 254, 254]);
    Dotted_8_8_8_8();
    SingleIPv4Quads([8, 8, 8, 8]);
    Checked(["8.8.8.8/32"], [Cidr_8_8_8_8_32], "8.8.8.8", "8.8.8.8", V4(FromOctets([8, 8, 8, 8])));
  }

  lemma SingleIPv4Rejects1()
    ensures Rejected(["8.8.8.8/32"], "8.8.8.7")
    ensures Rejected(["8.8.8.8/32"], "8.8.8.9")
    ensures Rejected(["8.8.8.8/32"], "8.8.8.0")
    ensures Rejected(["8.8.8.8/32"], "8.8.8.255")
  {
    hide *;
    SingleIPv4Builds();
    ProxyOctets();
    SingleIPv4Quads([254, 254, 254, 254]);
    Dotted_8_8_8_7();
    SingleIPv4Quads([8, 8, 8, 7]);
    Checked(["8.8.8.8/32"], [Cidr_8_8_8_8_32], "8.8.8.7", "8.8.8.7", V4(FromOctets([8, 8, 8, 7])));
    Dotted_8_8_8_9();
    SingleIPv4Quads([8, 8, 8, 9]);
    Checked(["8.8.8.8/32"], [Cidr_8_8_8_8_32], "8.8.8.9", "8.8.8.9", V4(FromOctets([8, 8, 8, 9])));
    Dotted_8_8_8_0();
    SingleIPv4Quads([8, 8, 8, 0]);
    Checked(["8.8.8.8/32"], [Cidr_8_8_8_8_32], "8.8.8.0", "8.8.8.0", V4(FromOctets([8, 8, 8, 0])));
    Dotted_8_8_8_255();
    SingleIPv4Quads([8, 8, 8, 255]);
    Checked(["8.8.8.8/32"], [Cidr_8_8_8_8_32], "8.8.8.255", "8.8.8.255", V4(FromOctets([8, 8, 8, 255])));
  }

  lemma SingleIPv4Rejects2()
    ensures Rejected(["8.8.8.8/32"], "4.4.4.4")
    ensures Rejected(["8.8.8.8/32"], "127.0.0.1")
  {
    hide *;
    SingleIPv4Builds();
    ProxyOctets();
    SingleIPv4Quads([254, 254, 254, 254]);
    Dotted_4_4_4_4();
    SingleIPv4Quads([4, 4, 4, 4]);
    Checked(["8.8.8.8/32"], [Cidr_8_8_8_8_32], "4.4.4.4", "4.4.4.4", V4(FromOctets([4, 4, 4, 4])));
    Dotted_127_0_0_1();
    SingleIPv4Quads([127, 0, 0, 1]);
    Checked(["8.8.8.8/32"], [Cidr_8_8_8_8_32], "127.0.0.1", "127.0.0.1", V4(FromOctets([127, 0, 0, 1])));
  }

  lemma TwoIPv4Builds()
    ensures Builds(["1.2.3.4/24", "8.8.8.8/8"], [Cidr_1_2_3_0_24, Cidr_8_0_0_0_8]) && ValidRanges([Cidr_1_2_3_0_24, Cidr_8_0_0_0_8])
  {
    hide *;
    Entry_1_2_3_4_24();
    Entry_8_8_8_8_8();
    BuildsOf(["1.2.3.4/24", "8.8.8.8/8"], [Cidr_1_2_3_0_24, Cidr_8_0_0_0_8]);
  }

  lemma TwoIPv4Quads(os: seq<nat>)
    requires |os| == 4 && OctetValues(os) && ValidRanges([Cidr_1_2_3_0_24, Cidr_8_0_0_0_8])
    ensures Admits([Cidr_1_2_3_0_24, Cidr_8_0_0_0_8], V4(FromOctets(os))) <==> (os[0] == 1 && os[1] == 2 && os[2] == 3) || os[0] == 8
  {
    hide *;
    TwoIPv4QuadsPrefix(os);
    Agree3(os, [1, 2, 3, 0]);
    Agree1(os, [8, 0, 0, 0]);
  }

  lemma TwoIPv4QuadsPrefix(os: seq<nat>)
    requires |os| == 4 && OctetValues(os) && ValidRanges([Cidr_1_2_3_0_24, Cidr_8_0_0_0_8])
    ensures Admits([Cidr_1_2_3_0_24, Cidr_8_0_0_0_8], V4(FromOctets(os))) <==> os[..3] == [1, 2, 3, 0][..3] || os[..1] == [8, 0, 0, 0][..1]
  {
    var a := V4(FromOctets(os));
    hide *;
    QuadValid(os);
    Cidr_1_2_3_0_24Holds(os);
    Cidr_8_0_0_0_8Holds(os);
    AdmitsTwo(Cidr_1_2_3_0_24, Cidr_8_0_0_0_8, a);
  }

  lemma TwoIPv4Passes1()
    ensures Passes(["1.2.3.4/24", "8.8.8.8/8"], "1.2.3.1")
    ensures Passes(["1.2.3.4/24", "8.8.8.8/8"], "1.2.3.32")
    ensures Passes(["1.2.3.4/24", "8.8.8.8/8"], "1.2.3.156")
    ensures Passes(["1.2.3.4/24", "8.8.8.8/8"], "1.2.3.255")
  {
    hide *;
    TwoIPv4Builds();
    ProxyOctets();
    TwoIPv4Quads([254, 254, 254, 254]);
    Dotted_1_2_3_1();
    TwoIPv4Quads([1, 2, 3, 1]);
    Checked(["1.2.3.4/24", "8.8.8.8/8"], [Cidr_1_2_3_0_24, Cidr_8_0_0_0_8], "1.2.3.1", "1.2.3.1", V4(FromOctets([1, 2, 3, 1])));
    Dotted_1_2_3_32();
    TwoIPv4Quads([1, 2, 3, 32]);
    Checked(["1.2.3.4/24", "8.8.8.8/8"], [Cidr_1_2_3_0_24, Cidr_8_0_0_0_8], "1.2.3.32", "1.2.3.32", V4(FromOctets([1, 2, 3, 32])));
    Dotted_1_2_3_156();
    TwoIPv4Quads([1, 2, 3, 156]);
    Checked(["1.2.3.4/24", "8.8.8.8/8"], [Cidr_1_2_3_0_24, Cidr_8_0_0_0_8], "1.2.3.156", "1.2.3.156", V4(FromOctets([1, 2, 3, 156])));
    Dotted_1_2_3_255();
    TwoIPv4Quads([1, 2, 3, 255]);
    Checked(["1.2.3.4/24", "8.8.8.8/8"], [Cidr_1_2_3_0_24, Cidr_8_0_0_0_8], "1.2.3.255", "1.2.3.255", V4(FromOctets([1, 2, 3, 255])));
  }

  lemma TwoIPv4Passes2()
    ensures Passes(["1.2.3.4/24", "8.8.8.8/8"], "8.8.4.4")
    ensures Passes(["1.2.3.4/24", "8.8.8.8/8"], "8.0.0.1")
    ensures Passes(["1.2.3.4/24", "8.8.8.8/8"], "8.32.42.128")
    ensures Passes(["1.2.3.4/24", "8.8.8.8/8"], "8.255.255.255")
  {
    hide *;
    TwoIPv4Builds();
    ProxyOctets();
    TwoIPv4Quads([254, 254, 254, 254]);
    Dotted_8_8_4_4();
    TwoIPv4Quads([8, 8, 4, 4]);
    Checked(["1.2.3.4/24", "8.8.8.8/8"], [Cidr_1_2_3_0_24, Cidr_8_0_0_0_8], "8.8.4.4", "8.8.4.4", V4(FromOctets([8, 8, 4, 4])));
    Dotted_8_0_0_1();
    TwoIPv4Quads([8, 0, 0, 1]);
    Checked(["1.2.3.4/24", "8.8.8.8/8"], [Cidr_1_2_3_0_24, Cidr_8_0_0_0_8], "8.0.0.1", "8.0.0.1", V4(FromOctets([8, 0, 0, 1])));
    Dotted_8_32_42_128();
    TwoIPv4Quads([8, 32, 42, 128]);
    Checked(["1.2.3.4/24", "8.8.8.8/8"], [Cidr_1_2_3_0_24, Cidr_8_0_0_0_8], "8.32.42.128", "8.32.42.128", V4(FromOctets([8, 32, 42, 128])));
    Dotted_8_255_255_255();
    TwoIPv4Quads([8, 255, 255, 255]);
    Checked(["1.2.3.4/24", "8.8.8.8/8"], [Cidr_1_2_3_0_24, Cidr_8_0_0_0_8], "8.255.255.255", "8.255.255.255", V4(FromOctets([8, 255, 255, 255])));
  }

  lemma TwoIPv4Rejects1()
    ensures Rejected(["1.2.3.4/24", "8.8.8.8/8"], "1.2.16.1")
    ensures Rejected(["1.2.3.4/24", "8.8.8.8/8"], "1.2.32.1")
    ensures Rejected(["1.2.3.4/24", "8.8.8.8/8"], "127.0.0.1")
    ensures Rejected(["1.2.3.4/24", "8.8.8.8/8"], "4.4.4.4")
  {
    hide *;
    TwoIPv4Builds();
    ProxyOctets();
    TwoIPv4Quads([254, 254, 254, 254]);
    Dotted_1_2_16_1();
    TwoIPv4Quads([1, 2, 16, 1]);
    Checked(["1.2.3.4/24", "8.8.8.8/8"], [Cidr_1_2_3_0_24, Cidr_8_0_0_0_8], "1.2.16.1", "1.2.16.1", V4(FromOctets([1, 2, 16, 1])));
    Dotted_1_2_32_1();
    TwoIPv4Quads([1, 2, 32, 1]);
    Checked(["1.2.3.4/24", "8.8.8.8/8"], [Cidr_1_2_3_0_24, Cidr_8_0_0_0_8], "1.2.32.1", "1.2.32.1", V4(FromOctets([1, 2, 32, 1])));
    Dotted_127_0_0_1();
    TwoIPv4Quads([127, 0, 0, 1]);
    Checked(["1.2.3.4/24", "8.8.8.8/8"], [Cidr_1_2_3_0_24, Cidr_8_0_0_0_8], "127.0.0.1", "127.0.0.1", V4(FromOctets([127, 0, 0, 1])));
    Dotted_4_4_4_4();
    TwoIPv4Quads([4, 4, 4, 4]);
    Checked(["1.2.3.4/24", "8.8.8.8/8"], [Cidr_1_2_3_0_24, Cidr_8_0_0_0_8], "4.4.4.4", "4.4.4.4", V4(FromOctets([4, 4, 4, 4])));
  }

  lemma TwoIPv4Rejects2()
    ensures Rejected(["1.2.3.4/24", "8.8.8.8/8"], "4.8.8.8")
  {
    hide *;
    TwoIPv4Builds();
    ProxyOctets();
    TwoIPv4Quads([254, 254, 254, 254]);
    Dotted_4_8_8_8();
    TwoIPv4Quads([4, 8, 8, 8]);
    Checked(["1.2.3.4/24", "8.8.8.8/8"], [Cidr_1_2_3_0_24, Cidr_8_0_0_0_8], "4.8.8.8", "4.8.8.8", V4(FromOctets([4, 8, 8, 8])));
  }

  lemma IPv6Builds()
    ensures Builds(["2a03:4000:6:d080::/64"], [Cidr_2a03_4000_6_d080_z_64]) && ValidRanges([Cidr_2a03_4000_6_d080_z_64])
  {
    hide *;
    Entry_2a03_4000_6_d080_z_64();
    BuildsOf(["2a03:4000:6:d080::/64"], [Cidr_2a03_4000_6_d080_z_64]);
  }

  lemma IPv6Quads(os: seq<nat>)
    requires |os| == 4 && OctetValues(os) && ValidRanges([Cidr_2a03_4000_6_d080_z_64])
    ensures !Admits([Cidr_2a03_4000_6_d080_z_64], V4(FromOctets(os)))
  {
    var a := V4(FromOctets(os));
    hide *;
    QuadValid(os);
    ValidAt([Cidr_2a03_4000_6_d080_z_64], 0);
    Cidr_2a03_4000_6_d080_z_64Family();
    AdmitsOne(Cidr_2a03_4000_6_d080_z_64, a);
    OtherFamily(Cidr_2a03_4000_6_d080_z_64, a);
  }

  lemma IPv6Sixes(gs: seq<nat>)
    requires |gs| == 8 && GroupValues(gs) && ValidRanges([Cidr_2a03_4000_6_d080_z_64])
    ensures Admits([Cidr_2a03_4000_6_d080_z_64], V6(FromGroups(gs))) <==> (gs[0] == 0x2a03 && gs[1] == 0x4000 && gs[2] == 6 && gs[3] == 0xd080)
  {
    hide *;
    IPv6SixesPrefix(gs);
    Agree4(gs, [0x2a03, 0x4000, 6, 0xd080, 0, 0, 0, 0]);
  }

  lemma IPv6SixesPrefix(gs: seq<nat>)
    requires |gs| == 8 && GroupValues(gs) && ValidRanges([Cidr_2a03_4000_6_d080_z_64])
    ensures Admits([Cidr_2a03_4000_6_d080_z_64], V6(FromGroups(gs))) <==> gs[..4] == [0x2a03, 0x4000, 6, 0xd080, 0, 0, 0, 0][..4]
  {
    var a := V6(FromGroups(gs));
    hide *;
    SixValid(gs);
    ValidAt([Cidr_2a03_4000_6_d080_z_64], 0);
    Cidr_2a03_4000_6_d080_z_64Holds(gs);
    AdmitsOne(Cidr_2a03_4000_6_d080_z_64, a);
  }

  lemma IPv6Passes()
    ensures Passes(["2a03:4000:6:d080::/64"], "[2a03:4000:6:d080::]")
    ensures Passes(["2a03:4000:6:d080::/64"], "[2a03:4000:6:d080::1]")
    ensures Passes(["2a03:4000:6:d080::/64"], "[2a03:4000:6:d080:dead:beef:ffff:ffff]")
    ensures Passes(["2a03:4000:6:d080::/64"], "[2a03:4000:6:d080::42]")
  {
    hide *;
    IPv6Builds();
    ProxyOctets();
    IPv6Quads([254, 254, 254, 254]);
    Colons_2a03_4000_6_d080_z();
    IPv6Sixes([0x2a03, 0x4000, 6, 0xd080, 0, 0, 0, 0]);
    Checked(["2a03:4000:6:d080::/64"], [Cidr_2a03_4000_6_d080_z_64], "[2a03:4000:6:d080::]", "2a03:4000:6:d080::", V6(FromGroups([0x2a03, 0x4000, 6, 0xd080, 0, 0, 0, 0])));
    Colons_2a03_4000_6_d080_z_1();
    IPv6Sixes([0x2a03, 0x4000, 6, 0xd080, 0, 0, 0, 1]);
    Checked(["2a03:4000:6:d080::/64"], [Cidr_2a03_4000_6_d080_z_64], "[2a03:4000:6:d080::1]", "2a03:4000:6:d080::1", V6(FromGroups([0x2a03, 0x4000, 6, 0xd080, 0, 0, 0, 1])));
    Colons_2a03_4000_6_d080_dead_beef_ffff_ffff();
    IPv6Sixes([0x2a03, 0x4000, 6, 0xd080, 0xdead, 0xbeef, 0xffff, 0xffff]);
    Checked(["2a03:4000:6:d080::/64"], [Cidr_2a03_4000_6_d080_z_64], "[2a03:4000:6:d080:dead:beef:ffff:ffff]", "2a03:4000:6:d080:dead:beef:ffff:ffff", V6(FromGroups([0x2a03, 0x4000, 6, 0xd080, 0xdead, 0xbeef, 0xffff, 0xffff])));
    Colons_2a03_4000_6_d080_z_42();
    IPv6Sixes([0x2a03, 0x4000, 6, 0xd080, 0, 0, 0, 0x42]);
    Checked(["2a03:4000:6:d080::/64"], [Cidr_2a03_4000_6_d080_z_64], "[2a03:4000:6:d080::42]", "2a03:4000:6:d080::42", V6(FromGroups([0x2a03, 0x4000, 6, 0xd080, 0, 0, 0, 0x42])));
  }

  lemma IPv6Rejects()
    ensures Rejected(["2a03:4000:6:d080::/64"], "[2a03:4000:7:d080::]")
    ensures Rejected(["2a03:4000:6:d080::/64"], "[2a03:4000:7:d080::1]")
    ensures Rejected(["2a03:4000:6:d080::/64"], "[fe80::]")
    ensures Rejected(["2a03:4000:6:d080::/64"], "[4242::1]")
  {
    hide *;
    IPv6Builds();
    ProxyOctets();
    IPv6Quads([254, 254, 254, 254]);
    Colons_2a03_4000_7_d080_z();
    IPv6Sixes([0x2a03, 0x4000, 7, 0xd080, 0, 0, 0, 0]);
    Checked(["2a03:4000:6:d080::/64"], [Cidr_2a03_4000_6_d080_z_64], "[2a03:4000:7:d080::]", "2a03:4000:7:d080::", V6(FromGroups([0x2a03, 0x4000, 7, 0xd080, 0, 0, 0, 0])));
    Colons_2a03_4000_7_d080_z_1();
    IPv6Sixes([0x2a03, 0x4000, 7, 0xd080, 0, 0, 0, 1]);
    Checked(["2a03:4000:6:d080::/64"], [Cidr_2a03_4000_6_d080_z_64], "[2a03:4000:7:d080::1]", "2a03:4000:7:d080::1", V6(FromGroups([0x2a03, 0x4000, 7, 0xd080, 0, 0, 0, 1])));
    Colons_fe80_z();
    IPv6Sixes([0xfe80, 0, 0, 0, 0, 0, 0, 0]);
    Checked(["2a03:4000:6:d080::/64"], [Cidr_2a03_4000_6_d080_z_64], "[fe80::]", "fe80::", V6(FromGroups([0xfe80, 0, 0, 0, 0, 0, 0, 0])));
    Colons_4242_z_1();
    IPv6Sixes([0x4242, 0, 0, 0, 0, 0, 0, 1]);
    Checked(["2a03:4000:6:d080::/64"], [Cidr_2a03_4000_6_d080_z_64], "[4242::1]", "4242::1", V6(FromGroups([0x4242, 0, 0, 0, 0, 0, 0, 1])));
  }

  lemma SingleIPv6Builds()
    ensures Builds(["2a03:4000:6:d080::42/128"], [Cidr_2a03_4000_6_d080_z42_128]) && ValidRanges([Cidr_2a03_4000_6_d080_z42_128])
  {
    hide *;
    Entry_2a03_4000_6_d080_z_42_128();
    BuildsOf(["2a03:4000:6:d080::42/128"], [Cidr_2a03_4000_6_d080_z42_128]);
  }

  lemma SingleIPv6Quads(os: seq<nat>)
    requires |os| == 4 && OctetValues(os) && ValidRanges([Cidr_2a03_4000_6_d080_z42_128])
    ensures !Admits([Cidr_2a03_4000_6_d080_z42_128], V4(FromOctets(os)))
  {
    var a := V4(FromOctets(os));
    hide *;
    QuadValid(os);
    ValidAt([Cidr_2a03_4000_6_d080_z42_128], 0);
    Cidr_2a03_4000_6_d080_z42_128Family();
    AdmitsOne(Cidr_2a03_4000_6_d080_z42_128, a);
    OtherFamily(Cidr_2a03_4000_6_d080_z42_128, a);
  }

  lemma SingleIPv6Sixes(gs: seq<nat>)
    requires |gs| == 8 && GroupValues(gs) && ValidRanges([Cidr_2a03_4000_6_d080_z42_128])
    ensures Admits([Cidr_2a03_4000_6_d080_z42_128], V6(FromGroups(gs))) <==> (gs[0] == 0x2a03 && gs[1] == 0x4000 && gs[2] == 6 && gs[3] == 0xd080 && gs[4] == 0 && gs[5] == 0 && gs[6] == 0 && gs[7] == 0x42)
  {
    hide *;
    SingleIPv6SixesPrefix(gs);
    Agree8(gs, [0x2a03, 0x4000, 6, 0xd080, 0, 0, 0, 0x42]);
  }

  lemma SingleIPv6SixesPrefix(gs: seq<nat>)
    requires |gs| == 8 && GroupValues(gs) && ValidRanges([Cidr_2a03_4000_6_d080_z42_128])
    ensures Admits([Cidr_2a03_4000_6_d080_z42_128], V6(FromGroups(gs))) <==> gs[..8] == [0x2a03, 0x4000, 6, 0xd080, 0, 0, 0, 0x42][..8]
  {
    var a := V6(FromGroups(gs));
    hide *;
    SixValid(gs);
    ValidAt([Cidr_2a03_4000_6_d080_z42_128], 0);
    Cidr_2a03_4000_6_d080_z42_128Holds(gs);
    AdmitsOne(Cidr_2a03_4000_6_d080_z42_128, a);
  }

  lemma SingleIPv6Passes()
    ensures Passes(["2a03:4000:6:d080::42/128"], "[2a03:4000:6:d080::42]")
  {
    hide *;
    SingleIPv6Builds();
    ProxyOctets();
    SingleIPv6Quads([254, 254, 254, 254]);
    Colons_2a03_4000_6_d080_z_42();
    SingleIPv6Sixes([0x2a03, 0x4000, 6, 0xd080, 0, 0, 0, 0x42]);
    Checked(["2a03:4000:6:d080::42/128"], [Cidr_2a03_4000_6_d080_z42_128], "[2a03:4000:6:d080::42]", "2a03:4000:6:d080::42", V6(FromGroups([0x2a03, 0x4000, 6, 0xd080, 0, 0, 0, 0x42])));
  }

  lemma SingleIPv6Rejects()
    ensures Rejected(["2a03:4000:6:d080::42/128"], "[2a03:4000:6:d080::1]")
    ensures Rejected(["2a03:4000:6:d080::42/128"], "[2a03:4000:6:d080:dead:beef:ffff:ffff]")
    ensures Rejected(["2a03:4000:6:d080::42/128"], "[2a03:4000:6:d080::43]")
  {
    hide *;
    SingleIPv6Builds();
    ProxyOctets();
    SingleIPv6Quads([254, 254, 254, 254]);
    Colons_2a03_4000_6_d080_z_1();
    SingleIPv6Sixes([0x2a03, 0x4000, 6, 0xd080, 0, 0, 0, 1]);
    Checked(["2a03:4000:6:d080::42/128"], [Cidr_2a03_4000_6_d080_z42_128], "[2a03:4000:6:d080::1]", "2a03:4000:6:d080::1", V6(FromGroups([0x2a03, 0x4000, 6, 0xd080, 0, 0, 0, 1])));
    Colons_2a03_4000_6_d080_dead_beef_ffff_ffff();
    SingleIPv6Sixes([0x2a03, 0x4000, 6, 0xd080, 0xdead, 0xbeef, 0xffff, 0xffff]);
    Checked(["2a03:4000:6:d080::42/128"], [Cidr_2a03_4000_6_d080_z42_128], "[2a03:4000:6:d080:dead:beef:ffff:ffff]", "2a03:4000:6:d080:dead:beef:ffff:ffff", V6(FromGroups([0x2a03, 0x4000, 6, 0xd080, 0xdead, 0xbeef, 0xffff, 0xffff])));
    Colons_2a03_4000_6_d080_z_43();
    SingleIPv6Sixes([0x2a03, 0x4000, 6, 0xd080, 0, 0, 0, 0x43]);
    Checked(["2a03:4000:6:d080::42/128"], [Cidr_2a03_4000_6_d080_z42_128], "[2a03:4000:6:d080::43]", "2a03:4000:6:d080::43", V6(FromGroups([0x2a03, 0x4000, 6, 0xd080, 0, 0, 0, 0x43])));
  }

  lemma TwoIPv6Builds()
    ensures Builds(["2a03:4000:6:d080::/64", "fe80::/16"], [Cidr_2a03_4000_6_d080_z_64, Cidr_fe80_z_16]) && ValidRanges([Cidr_2a03_4000_6_d080_z_64, Cidr_fe80_z_16])
  {
    hide *;
    Entry_2a03_4000_6_d080_z_64();
    Entry_fe80_z_16();
    BuildsOf(["2a03:4000:6:d080::/64", "fe80::/16"], [Cidr_2a03_4000_6_d080_z_64, Cidr_fe80_z_16]);
  }

  lemma TwoIPv6Quads(os: seq<nat>)
    requires |os| == 4 && OctetValues(os) && ValidRanges([Cidr_2a03_4000_6_d080_z_64, Cidr_fe80_z_16])
    ensures !Admits([Cidr_2a03_4000_6_d080_z_64, Cidr_fe80_z_16], V4(FromOctets(os)))
  {
    var a := V4(FromOctets(os));
    hide *;
    QuadValid(os);
    Cidr_2a03_4000_6_d080_z_64Family();
    Cidr_fe80_z_16Family();
    AdmitsTwo(Cidr_2a03_4000_6_d080_z_64, Cidr_fe80_z_16, a);
    OtherFamily(Cidr_2a03_4000_6_d080_z_64, a);
    OtherFamily(Cidr_fe80_z_16, a);
  }

  lemma TwoIPv6Sixes(gs: seq<nat>)
    requires |gs| == 8 && GroupValues(gs) && ValidRanges([Cidr_2a03_4000_6_d080_z_64, Cidr_fe80_z_16])
    ensures Admits([Cidr_2a03_4000_6_d080_z_64, Cidr_fe80_z_16], V6(FromGroups(gs))) <==> (gs[0] == 0x2a03 && gs[1] == 0x4000 && gs[2] == 6 && gs[3] == 0xd080) || gs[0] == 0xfe80
  {
    hide *;
    TwoIPv6SixesPrefix(gs);
    Agree4(gs, [0x2a03, 0x4000, 6, 0xd080, 0, 0, 0, 0]);
    Agree1(gs, [0xfe80, 0, 0, 0, 0, 0, 0, 0]);
  }

  lemma TwoIPv6SixesPrefix(gs: seq<nat>)
    requires |gs| == 8 && GroupValues(gs) && ValidRanges([Cidr_2a03_4000_6_d080_z_64, Cidr_fe80_z_16])
    ensures Admits([Cidr_2a03_4000_6_d080_z_64, Cidr_fe80_z_16], V6(FromGroups(gs))) <==> gs[..4] == [0x2a03, 0x4000, 6, 0xd080, 0, 0, 0, 0][..4] || gs[..1] == [0xfe80, 0, 0, 0, 0, 0, 0, 0][..1]
  {
    var a := V6(FromGroups(gs));
    hide *;
    SixValid(gs);
    Cidr_2a03_4000_6_d080_z_64Holds(gs);
    Cidr_fe80_z_16Holds(gs);
    AdmitsTwo(Cidr_2a03_4000_6_d080_z_64, Cidr_fe80_z_16, a);
  }

  lemma TwoIPv6Passes1()
    ensures Passes(["2a03:4000:6:d080::/64", "fe80::/16"], "[2a03:4000:6:d080::]")
    ensures Passes(["2a03:4000:6:d080::/64", "fe80::/16"], "[2a03:4000:6:d080::1]")
    ensures Passes(["2a03:4000:6:d080::/64", "fe80::/16"], "[2a03:4000:6:d080:dead:beef:ffff:ffff]")
    ensures Passes(["2a03:4000:6:d080::/64", "fe80::/16"], "[2a03:4000:6:d080::42]")
  {
    hide *;
    TwoIPv6Builds();
    ProxyOctets();
    TwoIPv6Quads([254, 254, 254, 254]);
    Colons_2a03_4000_6_d080_z();
    TwoIPv6Sixes([0x2a03, 0x4000, 6, 0xd080, 0, 0, 0, 0]);
    Checked(["2a03:4000:6:d080::/64", "fe80::/16"], [Cidr_2a03_4000_6_d080_z_64, Cidr_fe80_z_16], "[2a03:4000:6:d080::]", "2a03:4000:6:d080::", V6(FromGroups([0x2a03, 0x4000, 6, 0xd080, 0, 0, 0, 0])));
    Colons_2a03_4000_6_d080_z_1();
    TwoIPv6Sixes([0x2a03, 0x4000, 6, 0xd080, 0, 0, 0, 1]);
    Checked(["2a03:4000:6:d080::/64", "fe80::/16"], [Cidr_2a03_4000_6_d080_z_64, Cidr_fe80_z_16], "[2a03:4000:6:d080::1]", "2a03:4000:6:d080::1", V6(FromGroups([0x2a03, 0x4000, 6, 0xd080, 0, 0, 0, 1])));
    Colons_2a03_4000_6_d080_dead_beef_ffff_ffff();
    TwoIPv6Sixes([0x2a03, 0x4000, 6, 0xd080, 0xdead, 0xbeef, 0xffff, 0xffff]);
    Checked(["2a03:4000:6:d080::/64", "fe80::/16"], [Cidr_2a03_4000_6_d080_z_64, Cidr_fe80_z_16], "[2a03:4000:6:d080:dead:beef:ffff:ffff]", "2a03:4000:6:d080:dead:beef:ffff:ffff", V6(FromGroups([0x2a03, 0x4000, 6, 0xd080, 0xdead, 0xbeef, 0xffff, 0xffff])));
    Colons_2a03_4000_6_d080_z_42();
    TwoIPv6Sixes([0x2a03, 0x4000, 6, 0xd080, 0, 0, 0, 0x42]);
    Checked(["2a03:4000:6:d080::/64", "fe80::/16"], [Cidr_2a03_4000_6_d080_z_64, Cidr_fe80_z_16], "[2a03:4000:6:d080::42]", "2a03:4000:6:d080::42", V6(FromGroups([0x2a03, 0x4000, 6, 0xd080, 0, 0, 0, 0x42])));
  }

  lemma TwoIPv6Passes2()
    ensures Passes(["2a03:4000:6:d080::/64", "fe80::/16"], "[fe80::1]")
    ensures Passes(["2a03:4000:6:d080::/64", "fe80::/16"], "[fe80::fe80]")
  {
    hide *;
    TwoIPv6Builds();
    ProxyOctets();
    TwoIPv6Quads([254, 254, 254, 254]);
    Colons_fe80_z_1();
    TwoIPv6Sixes([0xfe80, 0, 0, 0, 0, 0, 0, 1]);
    Checked(["2a03:4000:6:d080::/64", "fe80::/16"], [Cidr_2a03_4000_6_d080_z_64, Cidr_fe80_z_16], "[fe80::1]", "fe80::1", V6(FromGroups([0xfe80, 0, 0, 0, 0, 0, 0, 1])));
    Colons_fe80_z_fe80();
    TwoIPv6Sixes([0xfe80, 0, 0, 0, 0, 0, 0, 0xfe80]);
    Checked(["2a03:4000:6:d080::/64", "fe80::/16"], [Cidr_2a03_4000_6_d080_z_64, Cidr_fe80_z_16], "[fe80::fe80]", "fe80::fe80", V6(FromGroups([0xfe80, 0, 0, 0, 0, 0, 0, 0xfe80])));
  }

  lemma TwoIPv6Rejects()
    ensures Rejected(["2a03:4000:6:d080::/64", "fe80::/16"], "[2a03:4000:7:d080::]")
    ensures Rejected(["2a03:4000:6:d080::/64", "fe80::/16"], "[2a03:4000:7:d080::1]")
    ensures Rejected(["2a03:4000:6:d080::/64", "fe80::/16"], "[4242::1]")
  {
    hide *;
    TwoIPv6Builds();
    ProxyOctets();
    TwoIPv6Quads([254, 254, 254, 254]);
    Colons_2a03_4000_7_d080_z();
    TwoIPv6Sixes([0x2a03, 0x4000, 7, 0xd080, 0, 0, 0, 0]);
    Checked(["2a03:4000:6:d080::/64", "fe80::/16"], [Cidr_2a03_4000_6_d080_z_64, Cidr_fe80_z_16], "[2a03:4000:7:d080::]", "2a03:4000:7:d080::", V6(FromGroups([0x2a03, 0x4000, 7, 0xd080, 0, 0, 0, 0])));
    Colons_2a03_4000_7_d080_z_1();
    TwoIPv6Sixes([0x2a03, 0x4000, 7, 0xd080, 0, 0, 0, 1]);
    Checked(["2a03:4000:6:d080::/64", "fe80::/16"], [Cidr_2a03_4000_6_d080_z_64, Cidr_fe80_z_16], "[2a03:4000:7:d080::1]", "2a03:4000:7:d080::1", V6(FromGroups([0x2a03, 0x4000, 7, 0xd080, 0, 0, 0, 1])));
    Colons_4242_z_1();
    TwoIPv6Sixes([0x4242, 0, 0, 0, 0, 0, 0, 1]);
    Checked(["2a03:4000:6:d080::/64", "fe80::/16"], [Cidr_2a03_4000_6_d080_z_64, Cidr_fe80_z_16], "[4242::1]", "4242::1", V6(FromGroups([0x4242, 0, 0, 0, 0, 0, 0, 1])));
  }

  lemma MixedBuilds()
    ensures Builds(["2a03:4000:6:d080::/64", "fe80::/16", "1.2.3.4/24", "8.8.8.8/8"], [Cidr_2a03_4000_6_d080_z_64, Cidr_fe80_z_16, Cidr_1_2_3_0_24, Cidr_8_0_0_0_8]) && ValidRanges([Cidr_2a03_4000_6_d080_z_64, Cidr_fe80_z_16, Cidr_1_2_3_0_24, Cidr_8_0_0_0_8])
  {
    hide *;
    Entry_2a03_4000_6_d080_z_64();
    Entry_fe80_z_16();
    Entry_1_2_3_4_24();
    Entry_8_8_8_8_8();
    BuildsOf(["2a03:4000:6:d080::/64", "fe80::/16", "1.2.3.4/24", "8.8.8.8/8"], [Cidr_2a03_4000_6_d080_z_64, Cidr_fe80_z_16, Cidr_1_2_3_0_24, Cidr_8_0_0_0_8]);
  }

  lemma MixedQuads(os: seq<nat>)
    requires |os| == 4 && OctetValues(os) && ValidRanges([Cidr_2a03_4000_6_d080_z_64, Cidr_fe80_z_16, Cidr_1_2_3_0_24, Cidr_8_0_0_0_8])
    ensures Admits([Cidr_2a03_4000_6_d080_z_64, Cidr_fe80_z_16, Cidr_1_2_3_0_24, Cidr_8_0_0_0_8], V4(FromOctets(os))) <==> (os[0] == 1 && os[1] == 2 && os[2] == 3) || os[0] == 8
  {
    hide *;
    MixedQuadsPrefix(os);
    Agree3(os, [1, 2, 3, 0]);
    Agree1(os, [8, 0, 0, 0]);
  }

  lemma MixedQuadsPrefix(os: seq<nat>)
    requires |os| == 4 && OctetValues(os) && ValidRanges([Cidr_2a03_4000_6_d080_z_64, Cidr_fe80_z_16, Cidr_1_2_3_0_24, Cidr_8_0_0_0_8])
    ensures Admits([Cidr_2a03_4000_6_d080_z_64, Cidr_fe80_z_16, Cidr_1_2_3_0_24, Cidr_8_0_0_0_8], V4(FromOctets(os))) <==> os[..3] == [1, 2, 3, 0][..3] || os[..1] == [8, 0, 0, 0][..1]
  {
    var a := V4(FromOctets(os));
    hide *;
    QuadValid(os);
    Cidr_2a03_4000_6_d080_z_64Family();
    Cidr_fe80_z_16Family();
    Cidr_1_2_3_0_24Holds(os);
    Cidr_8_0_0_0_8Holds(os);
    AdmitsFour(Cidr_2a03_4000_6_d080_z_64, Cidr_fe80_z_16, Cidr_1_2_3_0_24, Cidr_8_0_0_0_8, a);
    OtherFamily(Cidr_2a03_4000_6_d080_z_64, a);
    OtherFamily(Cidr_fe80_z_16, a);
  }

  lemma MixedSixes(gs: seq<nat>)
    requires |gs| == 8 && GroupValues(gs) && ValidRanges([Cidr_2a03_4000_6_d080_z_64, Cidr_fe80_z_16, Cidr_1_2_3_0_24, Cidr_8_0_0_0_8])
    ensures Admits([Cidr_2a03_4000_6_d080_z_64, Cidr_fe80_z_16, Cidr_1_2_3_0_24, Cidr_8_0_0_0_8], V6(FromGroups(gs))) <==> (gs[0] == 0x2a03 && gs[1] == 0x4000 && gs[2] == 6 && gs[3] == 0xd080) || gs[0] == 0xfe80
  {
    hide *;
    MixedSixesPrefix(gs);
    Agree4(gs, [0x2a03, 0x4000, 6, 0xd080, 0, 0, 0, 0]);
    Agree1(gs, [0xfe80, 0, 0, 0, 0, 0, 0, 0]);
  }

  lemma MixedSixesPrefix(gs: seq<nat>)
    requires |gs| == 8 && GroupValues(gs) && ValidRanges([Cidr_2a03_4000_6_d080_z_64, Cidr_fe80_z_16, Cidr_1_2_3_0_24, Cidr_8_0_0_0_8])
    ensures Admits([Cidr_2a03_4000_6_d080_z_64, Cidr_fe80_z_16, Cidr_1_2_3_0_24, Cidr_8_0_0_0_8], V6(FromGroups(gs))) <==> gs[..4] == [0x2a03, 0x4000, 6, 0xd080, 0, 0, 0, 0][..4] || gs[..1] == [0xfe80, 0, 0, 0, 0, 0, 0, 0][..1]
  {
    var a := V6(FromGroups(gs));
    hide *;
    SixValid(gs);
    Cidr_2a03_4000_6_d080_z_64Holds(gs);
    Cidr_fe80_z_16Holds(gs);
    Cidr_1_2_3_0_24Family();
    Cidr_8_0_0_0_8Family();
    AdmitsFour(Cidr_2a03_4000_6_d080_z_64, Cidr_fe80_z_16, Cidr_1_2_3_0_24, Cidr_8_0_0_0_8, a);
    OtherFamily(Cidr_1_2_3_0_24, a);
    OtherFamily(Cidr_8_0_0_0_8, a);
  }

  lemma MixedPasses1()
    ensures Passes(["2a03:4000:6:d080::/64", "fe80::/16", "1.2.3.4/24", "8.8.8.8/8"], "[2a03:4000:6:d080::]")
    ensures Passes(["2a03:4000:6:d080::/64", "fe80::/16", "1.2.3.4/24", "8.8.8.8/8"], "[2a03:4000:6:d080::1]")
    ensures Passes(["2a03:4000:6:d080::/64", "fe80::/16", "1.2.3.4/24", "8.8.8.8/8"], "[2a03:4000:6:d080:dead:beef:ffff:ffff]")
    ensures Passes(["2a03:4000:6:d080::/64", "fe80::/16", "1.2.3.4/24", "8.8.8.8/8"], "[2a03:4000:6:d080::42]")
  {
    hide *;
    MixedBuilds();
    ProxyOctets();
    MixedQuads([254, 254, 254, 254]);
    Colons_2a03_4000_6_d080_z();
    MixedSixes([0x2a03, 0x4000, 6, 0xd080, 0, 0, 0, 0]);
    Checked(["2a03:4000:6:d080::/64", "fe80::/16", "1.2.3.4/24", "8.8.8.8/8"], [Cidr_2a03_4000_6_d080_z_64, Cidr_fe80_z_16, Cidr_1_2_3_0_24, Cidr_8_0_0_0_8], "[2a03:4000:6:d080::]", "2a03:4000:6:d080::", V6(FromGroups([0x2a03, 0x4000, 6, 0xd080, 0, 0, 0, 0])));
    Colons_2a03_4000_6_d080_z_1();
    MixedSixes([0x2a03, 0x4000, 6, 0xd080, 0, 0, 0, 1]);
    Checked(["2a03:4000:6:d080::/64", "fe80::/16", "1.2.3.4/24", "8.8.8.8/8"], [Cidr_2a03_4000_6_d080_z_64, Cidr_fe80_z_16, Cidr_1_2_3_0_24, Cidr_8_0_0_0_8], "[2a03:4000:6:d080::1]", "2a03:4000:6:d080::1", V6(FromGroups([0x2a03, 0x4000, 6, 0xd080, 0, 0, 0, 1])));
    Colons_2a03_4000_6_d080_dead_beef_ffff_ffff();
    MixedSixes([0x2a03, 0x4000, 6, 0xd080, 0xdead, 0xbeef, 0xffff, 0xffff]);
    Checked(["2a03:4000:6:d080::/64", "fe80::/16", "1.2.3.4/24", "8.8.8.8/8"], [Cidr_2a03_4000_6_d080_z_64, Cidr_fe80_z_16, Cidr_1_2_3_0_24, Cidr_8_0_0_0_8], "[2a03:4000:6:d080:dead:beef:ffff:ffff]", "2a03:4000:6:d080:dead:beef:ffff:ffff", V6(FromGroups([0x2a03, 0x4000, 6, 0xd080, 0xdead, 0xbeef, 0xffff, 0xffff])));
    Colons_2a03_4000_6_d080_z_42();
    MixedSixes([0x2a03, 0x4000, 6, 0xd080, 0, 0, 0, 0x42]);
    Checked(["2a03:4000:6:d080::/64", "fe80::/16", "1.2.3.4/24", "8.8.8.8/8"], [Cidr_2a03_4000_6_d080_z_64, Cidr_fe80_z_16, Cidr_1_2_3_0_24, Cidr_8_0_0_0_8], "[2a03:4000:6:d080::42]", "2a03:4000:6:d080::42", V6(FromGroups([0x2a03, 0x4000, 6, 0xd080, 0, 0, 0, 0x42])));
  }

  lemma MixedPasses2()
    ensures Passes(["2a03:4000:6:d080::/64", "fe80::/16", "1.2.3.4/24", "8.8.8.8/8"], "[fe80::1]")
    ensures Passes(["2a03:4000:6:d080::/64", "fe80::/16", "1.2.3.4/24", "8.8.8.8/8"], "[fe80::fe80]")
    ensures Passes(["2a03:4000:6:d080::/64", "fe80::/16", "1.2.3.4/24", "8.8.8.8/8"], "1.2.3.1")
    ensures Passes(["2a03:4000:6:d080::/64", "fe80::/16", "1.2.3.4/24", "8.8.8.8/8"], "1.2.3.32")
  {
    hide *;
    MixedBuilds();
    ProxyOctets();
    MixedQuads([254, 254, 254, 254]);
    Colons_fe80_z_1();
    MixedSixes([0xfe80, 0, 0, 0, 0, 0, 0, 1]);
    Checked(["2a03:4000:6:d080::/64", "fe80::/16", "1.2.3.4/24", "8.8.8.8/8"], [Cidr_2a03_4000_6_d080_z_64, Cidr_fe80_z_16, Cidr_1_2_3_0_24, Cidr_8_0_0_0_8], "[fe80::1]", "fe80::1", V6(FromGroups([0xfe80, 0, 0, 0, 0, 0, 0, 1])));
    Colons_fe80_z_fe80();
    MixedSixes([0xfe80, 0, 0, 0, 0, 0, 0, 0xfe80]);
    Checked(["2a03:4000:6:d080::/64", "fe80::/16", "1.2.3.4/24", "8.8.8.8/8"], [Cidr_2a03_4000_6_d080_z_64, Cidr_fe80_z_16, Cidr_1_2_3_0_24, Cidr_8_0_0_0_8], "[fe80::fe80]", "fe80::fe80", V6(FromGroups([0xfe80, 0, 0, 0, 0, 0, 0, 0xfe80])));
    Dotted_1_2_3_1();
    MixedQuads([1, 2, 3, 1]);
    Checked(["2a03:4000:6:d080::/64", "fe80::/16", "1.2.3.4/24", "8.8.8.8/8"], [Cidr_2a03_4000_6_d080_z_64, Cidr_fe80_z_16, Cidr_1_2_3_0_24, Cidr_8_0_0_0_8], "1.2.3.1", "1.2.3.1", V4(FromOctets([1, 2, 3, 1])));
    Dotted_1_2_3_32();
    MixedQuads([1, 2, 3, 32]);
    Checked(["2a03:4000:6:d080::/64", "fe80::/16", "1.2.3.4/24", "8.8.8.8/8"], [Cidr_2a03_4000_6_d080_z_64, Cidr_fe80_z_16, Cidr_1_2_3_0_24, Cidr_8_0_0_0_8], "1.2.3.32", "1.2.3.32", V4(FromOctets([1, 2, 3, 32])));
  }

  lemma MixedPasses3()
    ensures Passes(["2a03:4000:6:d080::/64", "fe80::/16", "1.2.3.4/24", "8.8.8.8/8"], "1.2.3.156")
    ensures Passes(["2a03:4000:6:d080::/64", "fe80::/16", "1.2.3.4/24", "8.8.8.8/8"], "1.2.3.255")
    ensures Passes(["2a03:4000:6:d080::/64", "fe80::/16", "1.2.3.4/24", "8.8.8.8/8"], "8.8.4.4")
    ensures Passes(["2a03:4000:6:d080::/64", "fe80::/16", "1.2.3.4/24", "8.8.8.8/8"], "8.0.0.1")
  {
    hide *;
    MixedBuilds();
    ProxyOctets();
    MixedQuads([254, 254, 254, 254]);
    Dotted_1_2_3_156();
    MixedQuads([1, 2, 3, 156]);
    Checked(["2a03:4000:6:d080::/64", "fe80::/16", "1.2.3.4/24", "8.8.8.8/8"], [Cidr_2a03_4000_6_d080_z_64, Cidr_fe80_z_16, Cidr_1_2_3_0_24, Cidr_8_0_0_0_8], "1.2.3.156", "1.2.3.156", V4(FromOctets([1, 2, 3, 156])));
    Dotted_1_2_3_255();
    MixedQuads([1, 2, 3, 255]);
    Checked(["2a03:4000:6:d080::/64", "fe80::/16", "1.2.3.4/24", "8.8.8.8/8"], [Cidr_2a03_4000_6_d080_z_64, Cidr_fe80_z_16, Cidr_1_2_3_0_24, Cidr_8_0_0_0_8], "1.2.3.255", "1.2.3.255", V4(FromOctets([1, 2, 3, 255])));
    Dotted_8_8_4_4();
    MixedQuads([8, 8, 4, 4]);
    Checked(["2a03:4000:6:d080::/64", "fe80::/16", "1.2.3.4/24", "8.8.8.8/8"], [Cidr_2a03_4000_6_d080_z_64, Cidr_fe80_z_16, Cidr_1_2_3_0_24, Cidr_8_0_0_0_8], "8.8.4.4", "8.8.4.4", V4(FromOctets([8, 8, 4, 4])));
    Dotted_8_0_0_1();
    MixedQuads([8, 0, 0, 1]);
    Checked(["2a03:4000:6:d080::/64", "fe80::/16", "1.2.3.4/24", "8.8.8.8/8"], [Cidr_2a03_4000_6_d080_z_64, Cidr_fe80_z_16, Cidr_1_2_3_0_24, Cidr_8_0_0_0_8], "8.0.0.1", "8.0.0.1", V4(FromOctets([8, 0, 0, 1])));
  }

  lemma MixedPasses4()
    ensures Passes(["2a03:4000:6:d080::/64", "fe80::/16", "1.2.3.4/24", "8.8.8.8/8"], "8.32.42.128")
    ensures Passes(["2a03:4000:6:d080::/64", "fe80::/16", "1.2.3.4/24", "8.8.8.8/8"], "8.255.255.255")
  {
    hide *;
    MixedBuilds();
    ProxyOctets();
    MixedQuads([254, 254, 254, 254]);
    Dotted_8_32_42_128();
    MixedQuads([8, 32, 42, 128]);
    Checked(["2a03:4000:6:d080::/64", "fe80::/16", "1.2.3.4/24", "8.8.8.8/8"], [Cidr_2a03_4000_6_d080_z_64, Cidr_fe80_z_16, Cidr_1_2_3_0_24, Cidr_8_0_0_0_8], "8.32.42.128", "8.32.42.128", V4(FromOctets([8, 32, 42, 128])));
    Dotted_8_255_255_255();
    MixedQuads([8, 255, 255, 255]);
    Checked(["2a03:4000:6:d080::/64", "fe80::/16", "1.2.3.4/24", "8.8.8.8/8"], [Cidr_2a03_4000_6_d080_z_64, Cidr_fe80_z_16, Cidr_1_2_3_0_24, Cidr_8_0_0_0_8], "8.255.255.255", "8.255.255.255", V4(FromOctets([8, 255, 255, 255])));
  }

  lemma MixedRejects1()
    ensures Rejected(["2a03:4000:6:d080::/64", "fe80::/16", "1.2.3.4/24", "8.8.8.8/8"], "[2a03:4000:7:d080::]")
    ensures Rejected(["2a03:4000:6:d080::/64", "fe80::/16", "1.2.3.4/24", "8.8.8.8/8"], "[2a03:4000:7:d080::1]")
    ensures Rejected(["2a03:4000:6:d080::/64", "fe80::/16", "1.2.3.4/24", "8.8.8.8/8"], "[4242::1]")
    ensures Rejected(["2a03:4000:6:d080::/64", "fe80::/16", "1.2.3.4/24", "8.8.8.8/8"], "1.2.16.1")
  {
    hide *;
    MixedBuilds();
    ProxyOctets();
    MixedQuads([254, 254, 254, 254]);
    Colons_2a03_4000_7_d080_z();
    MixedSixes([0x2a03, 0x4000, 7, 0xd080, 0, 0, 0, 0]);
    Checked(["2a03:4000:6:d080::/64", "fe80::/16", "1.2.3.4/24", "8.8.8.8/8"], [Cidr_2a03_4000_6_d080_z_64, Cidr_fe80_z_16, Cidr_1_2_3_0_24, Cidr_8_0_0_0_8], "[2a03:4000:7:d080::]", "2a03:4000:7:d080::", V6(FromGroups([0x2a03, 0x4000, 7, 0xd080, 0, 0, 0, 0])));
    Colons_2a03_4000_7_d080_z_1();
    MixedSixes([0x2a03, 0x4000, 7, 0xd080, 0, 0, 0, 1]);
    Checked(["2a03:4000:6:d080::/64", "fe80::/16", "1.2.3.4/24", "8.8.8.8/8"], [Cidr_2a03_4000_6_d080_z_64, Cidr_fe80_z_16, Cidr_1_2_3_0_24, Cidr_8_0_0_0_8], "[2a03:4000:7:d080::1]", "2a03:4000:7:d080::1", V6(FromGroups([0x2a03, 0x4000, 7, 0xd080, 0, 0, 0, 1])));
    Colons_4242_z_1();
    MixedSixes([0x4242, 0, 0, 0, 0, 0, 0, 1]);
    Checked(["2a03:4000:6:d080::/64", "fe80::/16", "1.2.3.4/24", "8.8.8.8/8"], [Cidr_2a03_4000_6_d080_z_64, Cidr_fe80_z_16, Cidr_1_2_3_0_24, Cidr_8_0_0_0_8], "[4242::1]", "4242::1", V6(FromGroups([0x4242, 0, 0, 0, 0, 0, 0, 1])));
    Dotted_1_2_16_1();
    MixedQuads([1, 2, 16, 1]);
    Checked(["2a03:4000:6:d080::/64", "fe80::/16", "1.2.3.4/24", "8.8.8.8/8"], [Cidr_2a03_4000_6_d080_z_64, Cidr_fe80_z_16, Cidr_1_2_3_0_24, Cidr_8_0_0_0_8], "1.2.16.1", "1.2.16.1", V4(FromOctets([1, 2, 16, 1])));
  }

  lemma MixedRejects2()
    ensures Rejected(["2a03:4000:6:d080::/64", "fe80::/16", "1.2.3.4/24", "8.8.8.8/8"], "1.2.32.1")
    ensures Rejected(["2a03:4000:6:d080::/64", "fe80::/16", "1.2.3.4/24", "8.8.8.8/8"], "127.0.0.1")
    ensures Rejected(["2a03:4000:6:d080::/64", "fe80::/16", "1.2.3.4/24", "8.8.8.8/8"], "4.4.4.4")
    ensures Rejected(["2a03:4000:6:d080::/64", "fe80::/16", "1.2.3.4/24", "8.8.8.8/8"], "4.8.8.8")
  {
    hide *;
    MixedBuilds();
    ProxyOctets();
    MixedQuads([254, 254, 254, 254]);
    Dotted_1_2_32_1();
    MixedQuads([1, 2, 32, 1]);
    Checked(["2a03:4000:6:d080::/64", "fe80::/16", "1.2.3.4/24", "8.8.8.8/8"], [Cidr_2a03_4000_6_d080_z_64, Cidr_fe80_z_16, Cidr_1_2_3_0_24, Cidr_8_0_0_0_8], "1.2.32.1", "1.2.32.1", V4(FromOctets([1, 2, 32, 1])));
    Dotted_127_0_0_1();
    MixedQuads([127, 0, 0, 1]);
    Checked(["2a03:4000:6:d080::/64", "fe80::/16", "1.2.3.4/24", "8.8.8.8/8"], [Cidr_2a03_4000_6_d080_z_64, Cidr_fe80_z_16, Cidr_1_2_3_0_24, Cidr_8_0_0_0_8], "127.0.0.1", "127.0.0.1", V4(FromOctets([127, 0, 0, 1])));
    Dotted_4_4_4_4();
    MixedQuads([4, 4, 4, 4]);
    Checked(["2a03:4000:6:d080::/64", "fe80::/16", "1.2.3.4/24", "8.8.8.8/8"], [Cidr_2a03_4000_6_d080_z_64, Cidr_fe80_z_16, Cidr_1_2_3_0_24, Cidr_8_0_0_0_8], "4.4.4.4", "4.4.4.4", V4(FromOctets([4, 4, 4, 4])));
    Dotted_4_8_8_8();
    MixedQuads([4, 8, 8, 8]);
    Checked(["2a03:4000:6:d080::/64", "fe80::/16", "1.2.3.4/24", "8.8.8.8/8"], [Cidr_2a03_4000_6_d080_z_64, Cidr_fe80_z_16, Cidr_1_2_3_0_24, Cidr_8_0_0_0_8], "4.8.8.8", "4.8.8.8", V4(FromOctets([4, 8, 8, 8])));
  }

  // ------------------------------------------------ building a whitelister

  /** A nil or empty list is refused, with the message the construction
      test expects. */
  lemma NoWhitelistsCase(useHeader: bool)
    ensures NewIPWhitelister([], useHeader) == Failure(NoWhitelists)
    ensures Message(NewIPWhitelister([], useHeader).error) == "no whitelists provided"
  {
  }

  /** The empty entry is named as the first bad entry, whether it stands
      alone or between two good ones. */
  lemma EmptyEntryCase(useHeader: bool)
    ensures NewIPWhitelister(["1.2.3.4/24", "", "fe80::/16"], useHeader) == Failure(InvalidCidr(""))
    ensures NewIPWhitelister([""], useHeader) == Failure(InvalidCidr(""))
    ensures Message(InvalidCidr("")) == "parsing CIDR whitelist <nil>: invalid CIDR address: "
  {
    hide *;
    EmptyAmongGood();
    EmptyAlone();
    EmptyMessage();
  }

  lemma EmptyAmongGood()
    ensures forall u :: NewIPWhitelister(["1.2.3.4/24", "", "fe80::/16"], u) == Failure(InvalidCidr(""))
  {
    var es := ["1.2.3.4/24", "", "fe80::/16"];
    hide *;
    Entry_1_2_3_4_24();
    NoSlashNoCidr("");
    FirstBadEntry(es, 1);
  }

  lemma EmptyAlone()
    ensures forall u :: NewIPWhitelister([""], u) == Failure(InvalidCidr(""))
  {
    hide *;
    NoSlashNoCidr("");
    FirstBadEntry([""], 0);
  }

  lemma EmptyMessage()
    ensures Message(InvalidCidr("")) == "parsing CIDR whitelist <nil>: invalid CIDR address: "
  {
  }

  /** A list whose entry `i` is bad and whose earlier entries are good is
      refused, naming entry `i`. */
  lemma FirstBadEntry(entries: seq<string>, i: nat)
    requires i < |entries| && ParseCidr(entries[i]) == None
    requires forall k :: 0 <= k < i ==> ParseCidr(entries[k]).Some?
    ensures forall u :: NewIPWhitelister(entries, u) == Failure(InvalidCidr(entries[i]))
  {
    forall u
      ensures NewIPWhitelister(entries, u) == Failure(InvalidCidr(entries[i]))
    {
      ParseAllSucceeds(entries);
      var r := NewIPWhitelister(entries, u);
      assert FirstInvalid(entries, i);
      var j :| FirstInvalid(entries, j) && r.error == InvalidCidr(entries[j]);
      FirstInvalidUnique(entries, i, j);
    }
  }

  /** Text without a slash is refused, with the message the construction
      test expects. */
  lemma InvalidEntryCase(useHeader: bool)
    ensures NewIPWhitelister(["foo"], useHeader) == Failure(InvalidCidr("foo"))
    ensures Message(InvalidCidr("foo")) == "parsing CIDR whitelist <nil>: invalid CIDR address: foo"
  {
    NoSlashNoCidr("foo");
    hide *;
    FirstBadEntry(["foo"], 0);
    FooMessage();
  }

  lemma FooMessage()
    ensures Message(InvalidCidr("foo")) == "parsing CIDR whitelist <nil>: invalid CIDR address: foo"
  {
  }

  /** The range is well formed and its mask is `m`, byte for byte. */
  predicate HasMask(n: Net, m: seq<bv8>) {
    n.Valid() && n.Mask() == m
  }

  /** An IPv4 range and an IPv6 range, kept in order: `1.2.3.0` with mask
      `255.255.255.0`, and `fe80::` with the mask that reads as `ffff::`. */
  lemma MixedEntriesCase()
    ensures Cidr_1_2_3_0_24.network == V4(FromOctets([1, 2, 3, 0]))
    ensures HasMask(Cidr_1_2_3_0_24, FromOctets([255, 255, 255, 0]))
    ensures ParseIP("fe80::") == Some(Cidr_fe80_z_16.network)
    ensures GroupValues([0xffff, 0, 0, 0, 0, 0, 0, 0])
    ensures HasMask(Cidr_fe80_z_16, FromGroups([0xffff, 0, 0, 0, 0, 0, 0, 0]))
    ensures ParseIP("ffff::") == Some(V6(FromGroups([0xffff, 0, 0, 0, 0, 0, 0, 0])))
    ensures Builds(["1.2.3.4/24", "fe80::/16"], [Cidr_1_2_3_0_24, Cidr_fe80_z_16])
  {
    hide *;
    Entry_1_2_3_4_24();
    Entry_fe80_z_16();
    BuildsOf(["1.2.3.4/24", "fe80::/16"], [Cidr_1_2_3_0_24, Cidr_fe80_z_16]);
    ValidAt([Cidr_1_2_3_0_24, Cidr_fe80_z_16], 0);
    ValidAt([Cidr_1_2_3_0_24, Cidr_fe80_z_16], 1);
    Cidr_1_2_3_0_24Spelled();
    Mask24();
    Cidr_fe80_z_16Spelled();
    Colons_fe80_zText();
    NamesParse("fe80::", V6(FromGroups([0xfe80, 0, 0, 0, 0, 0, 0, 0])));
    Colons_ffff_zText();
    NamesParse("ffff::", V6(FromGroups([0xffff, 0, 0, 0, 0, 0, 0, 0])));
    Mask16();
  }

  lemma NamesParse(t: string, a: Addr)
    requires Names(t, a)
    ensures ParseIP(t) == Some(a)
  {
  }

  lemma Mask24()
    ensures HasMask(Cidr_1_2_3_0_24, FromOctets([255, 255, 255, 0]))
  {
    Cidr_1_2_3_0_24Holds([1, 2, 3, 0]);
  }

  lemma Mask16()
    ensures GroupValues([0xffff, 0, 0, 0, 0, 0, 0, 0])
    ensures HasMask(Cidr_fe80_z_16, FromGroups([0xffff, 0, 0, 0, 0, 0, 0, 0]))
  {
    Cidr_fe80_z_16Holds([0xfe80, 0, 0, 0, 0, 0, 0, 0]);
    Cidr_fe80_z_16Spelled();
    hide *;
    MaskFfff();
  }

  /** The mask of a sixteen-bit IPv6 prefix reads as `ffff::`. */
  lemma MaskFfff()
    ensures GroupValues([0xffff, 0, 0, 0, 0, 0, 0, 0])
    ensures CidrMask(16, 16) == FromGroups([0xffff, 0, 0, 0, 0, 0, 0, 0])
  {
    hide *;
    FfffHead();
    FfffTail();
    SixteenOnes(FromGroups([0xffff, 0, 0, 0, 0, 0, 0, 0]));
  }

  lemma FfffHead()
    ensures GroupValues([0xffff, 0, 0, 0, 0, 0, 0, 0])
    ensures var b := FromGroups([0xffff, 0, 0, 0, 0, 0, 0, 0]); |b| == 16 && b[0] == 0xFF && b[1] == 0xFF
  {
    var gs := [0xffff, 0, 0, 0, 0, 0, 0, 0];
    assert GroupValues(gs);
    hide *;
    FromGroupsGroups(gs);
    FirstGroupFfff(FromGroups(gs));
  }

  lemma FfffTail()
    ensures GroupValues([0xffff, 0, 0, 0, 0, 0, 0, 0])
    ensures forall m :: 2 <= m < 16 ==> FromGroups([0xffff, 0, 0, 0, 0, 0, 0, 0])[m] == 0
  {
    var gs := [0xffff, 0, 0, 0, 0, 0, 0, 0];
    assert GroupValues(gs) && forall k :: 1 <= k < 8 ==> gs[k] == 0;
    hide *;
    FromGroupsZero(gs, 1, 8);
  }

  lemma FirstGroupFfff(b: seq<bv8>)
    requires |b| == 16 && Group(b, 0) == 0xffff
    ensures b[0] == 0xFF && b[1] == 0xFF
  {
  }

  lemma SixteenOnes(b: seq<bv8>)
    requires |b| == 16 && b[0] == 0xFF && b[1] == 0xFF
    requires forall m :: 2 <= m < 16 ==> b[m] == 0
    ensures CidrMask(16, 16) == b
  {
    var m := CidrMask(16, 16);
    hide *;
    forall k | 0 <= k < 16
      ensures m[k] == b[k]
    {
      CidrMaskByte(16, 16, k);
      SixteenOnesByte(k);
    }
  }

  lemma SixteenOnesByte(k: nat)
    ensures k < 2 ==> MaskByte(OnesFrom(16, k)) == 0xFF
    ensures k >= 2 ==> MaskByte(OnesFrom(16, k)) == 0
  {
  }

  /** The one IPv4 range `127.0.0.0` with mask `255.0.0.0`. */
  lemma IPv4OnlyCase()
    ensures Cidr_127_0_0_0_8.network == V4(FromOctets([127, 0, 0, 0]))
    ensures HasMask(Cidr_127_0_0_0_8, FromOctets([255, 0, 0, 0]))
    ensures Builds(["127.0.0.1/8"], [Cidr_127_0_0_0_8])
  {
    hide *;
    Entry_127_0_0_1_8();
    BuildsOf(["127.0.0.1/8"], [Cidr_127_0_0_0_8]);
    Cidr_127_0_0_0_8Spelled();
    Mask8();
  }

  lemma Mask8()
    ensures HasMask(Cidr_127_0_0_0_8, FromOctets([255, 0, 0, 0]))
  {
    Cidr_127_0_0_0_8Holds([127, 0, 0, 0]);
  }

  // ------------------------------------------------------ broken addresses

  /** The whitelister of the broken-address test, which does not hold the
      proxy's address. */
  lemma BrokenBuilds()
    ensures Builds(["127.0.0.1/32"], [Cidr_127_0_0_1_32]) && ValidRanges([Cidr_127_0_0_1_32])
    ensures !Admits([Cidr_127_0_0_1_32], ProxyAddr)
  {
    hide *;
    Entry_127_0_0_1_32();
    BuildsOf(["127.0.0.1/32"], [Cidr_127_0_0_1_32]);
    ProxyOctets();
    QuadValid([254, 254, 254, 254]);
    ValidAt([Cidr_127_0_0_1_32], 0);
    Cidr_127_0_0_1_32Holds([254, 254, 254, 254]);
    AdmitsOne(Cidr_127_0_0_1_32, ProxyAddr);
    Agree4([254, 254, 254, 254], [127, 0, 0, 1]);
  }

  /** Text with neither a dot nor a colon is no address. */
  lemma NoSeparatorNoAddr(s: string)
    requires '.' !in s && ':' !in s
    ensures ParseIP(s) == None
  {
  }

  /** Words that hold neither a dot nor a colon are no address and fail
      both checks of the handler test. */
  lemma BrokenWord()
    ensures Rejected(["127.0.0.1/32"], "foo")
  {
    var e, r, s := ["127.0.0.1/32"], [Cidr_127_0_0_1_32], "foo";
    assert '.' !in s && ':' !in s && ',' !in s && '[' !in s && ']' !in s;
    assert !IsSpace(s[0]) && !IsSpace(s[|s| - 1]);
    hide *;
    BrokenBuilds();
    NoSeparatorNoAddr(s);
    RejectedText(e, r, s);
  }

  lemma BrokenSymbols()
    ensures Rejected(["127.0.0.1/32"], "\\&$§&/(")
  {
    var e, r, s := ["127.0.0.1/32"], [Cidr_127_0_0_1_32], "\\&$§&/(";
    assert '.' !in s && ':' !in s && ',' !in s && '[' !in s && ']' !in s;
    assert !IsSpace(s[0]) && !IsSpace(s[|s| - 1]);
    hide *;
    BrokenBuilds();
    NoSeparatorNoAddr(s);
    RejectedText(e, r, s);
  }

  /** `10.0.0.350` has an octet above 255 and is no address. */
  lemma BrokenOctet()
    ensures Rejected(["127.0.0.1/32"], "10.0.0.350")
  {
    var e, r, s := ["127.0.0.1/32"], [Cidr_127_0_0_1_32], "10.0.0.350";
    assert ':' !in s && ',' !in s && '[' !in s && ']' !in s;
    assert !IsSpace(s[0]) && !IsSpace(s[|s| - 1]);
    hide *;
    BrokenBuilds();
    Octet350();
    RejectedText(e, r, s);
  }

  lemma Octet350()
    ensures ParseIP("10.0.0.350") == None
  {
    hide *;
    Octet350Separator();
    Octet350Quad();
    DotFirstIPv4("10.0.0.350");
  }

  lemma DotFirstIPv4(s: string)
    requires FirstSeparator(s) == Some('.') && ParseIPv4(s) == None
    ensures ParseIP(s) == None
  {
  }

  lemma Octet350Separator()
    ensures FirstSeparator("10.0.0.350") == Some('.')
  {
    assert "10.0.0.350" == "10" + ".0.0.350";
    assert AllDigitsOf("10", 10);
    hide *;
    FirstSeparatorAfter("10", ".0.0.350", 10);
    DotLeads(".0.0.350");
  }

  lemma DotLeads(s: string)
    requires |s| > 0 && s[0] == '.'
    ensures FirstSeparator(s) == Some('.')
  {
  }

  /** The octet loop reads 10, 0 and 0 and stops at 350. */
  lemma Octet350Quad()
    ensures ParseIPv4("10.0.0.350") == None
  {
    assert !IsDigit(".0.0.350"[2]) && !IsDigit(".0.350"[2]);
    hide *;
    Octet350First();
    Octet350Zero(".0.0.350", [10]);
    Octet350Zero(".0.350", [10, 0]);
    Octet350Last();
    Octet350Rests();
    QuadOctets("10.0.0.350");
  }

  lemma Octet350Rests()
    ensures ".0.0.350"[1..][1..] == ".0.350" && ".0.350"[1..][1..] == ".350"
    ensures [10 as bv8] + [0 as bv8] == [10, 0] && [10 as bv8, 0] + [0 as bv8] == [10, 0, 0]
  {
  }

  lemma QuadOctets(s: string)
    ensures ParseIPv4(s) == Octets(s, [])
  {
  }

  lemma Octet350First()
    ensures Octets("10.0.0.350", []) == Octets(".0.0.350", [10])
  {
    hide *;
    Scan10();
    FirstOctet("10.0.0.350", 10, 2);
    Tail10();
  }

  lemma Tail10()
    ensures "10.0.0.350"[2..] == ".0.0.350"
  {
  }

  lemma Scan10()
    ensures Scan("10.0.0.350", 10) == Number(10, 2, true)
  {
    assert !IsDigitOf(".0.0.350"[0], 10) && 10 < Big;
    assert "10.0.0.350" == "10" + ".0.0.350";
    hide *;
    Dec10();
    ScanDigits(10, 10, ".0.0.350");
  }

  lemma Dec10()
    ensures Digits(10, 10) == "10"
  {
    assert Digits(1, 10) == "1";
  }

  /** The first turn of the octet loop reads a number of at most 255. */
  lemma FirstOctet(s: string, n: nat, len: nat)
    requires 0 < |s| && Scan(s, 10) == Number(n, len, true) && n <= 255
    ensures Octets(s, []) == Octets(s[len..], [n as bv8])
  {
    hide DottedChars, AllDigitsOf, Value, Scan;
    var acc: seq<bv8> := [];
    assert acc + [n as bv8] == [n as bv8];
  }

  lemma Octet350Zero(s: string, acc: seq<bv8>)
    requires 1 <= |acc| < 4 && 2 <= |s| && s[0] == '.' && s[1] == '0' && (|s| == 2 || !IsDigit(s[2]))
    ensures Octets(s, acc) == Octets(s[1..][1..], acc + [0 as bv8])
  {
    assert s[1..] == Digits(0, 10) + s[1..][1..];
    ScanDigits(0, 10, s[1..][1..]);
    OctetStep(s, acc, 0, 1);
  }

  lemma Octet350Last()
    ensures Octets(".350", [10, 0, 0]) == None
  {
    assert Digits(350, 10) == "350" by {
      assert Digits(35, 10) == "35" by {
        assert Digits(3, 10) == "3";
      }
    }
    assert ".350"[1..] == Digits(350, 10) + "";
    ScanDigits(350, 10, "");
  }

  /** `fe:::80` has a third colon after `::` and is no address; a remote
      address with a colon in its host does not split. */
  lemma BrokenColons()
    ensures Rejected(["127.0.0.1/32"], "fe:::80")
  {
    var e, r, s := ["127.0.0.1/32"], [Cidr_127_0_0_1_32], "fe:::80";
    assert ':' in s && ',' !in s && '[' !in s && ']' !in s;
    assert !IsSpace(s[0]) && !IsSpace(s[|s| - 1]);
    hide *;
    BrokenBuilds();
    TripleColon();
    RejectedColonText(e, r, s);
  }

  lemma TripleColon()
    ensures ParseIP("fe:::80") == None
  {
    hide *;
    TripleColonSeparator();
    TripleColonGroups();
    ColonFirstIPv6("fe:::80");
  }

  lemma ColonFirstIPv6(s: string)
    requires FirstSeparator(s) == Some(':') && ParseIPv6(s) == None
    ensures ParseIP(s) == None
  {
  }

  lemma TripleColonSeparator()
    ensures FirstSeparator("fe:::80") == Some(':')
  {
    assert "fe:::80" == "fe" + ":::80";
    assert AllDigitsOf("fe", 16);
    hide *;
    FirstSeparatorAfter("fe", ":::80", 16);
    ColonLeads(":::80");
  }

  lemma ColonLeads(s: string)
    requires |s| > 0 && s[0] == ':'
    ensures FirstSeparator(s) == Some(':')
  {
  }

  /** The group loop reads `fe`, takes `::` as the ellipsis and finds no
      group after it. */
  lemma TripleColonGroups()
    ensures ParseIPv6("fe:::80") == None
  {
    hide *;
    ScanFe();
    GroupStep("fe:::80", [], None, 0xfe, 2, [0, 0xfe]);
    TripleColonRest();
    TripleColonChain();
  }

  lemma ScanFe()
    ensures Scan("fe:::80", 16) == Number(0xfe, 2, true)
    ensures "fe:::80"[2] != '.'
    ensures var e: seq<bv8> := []; e + [(0xfe / 256) as bv8, (0xfe % 256) as bv8] == [0, 0xfe]
  {
    assert !IsDigitOf(":::80"[0], 16) && 0xfe < Big;
    assert "fe:::80" == "fe" + ":::80";
    hide *;
    HexFe();
    ScanDigits(0xfe, 16, ":::80");
  }

  lemma HexFe()
    ensures Digits(0xfe, 16) == "fe"
  {
    assert Digits(0xf, 16) == "f";
  }

  lemma TripleColonRest()
    ensures AfterGroup("fe:::80"[2..], [0, 0xfe], None) == None
  {
    assert "fe:::80"[2..] == ":::80";
    assert ":::80"[1..][1..] == ":80";
    hide *;
    NoGroupAfterColon(":80", [0, 0xfe], Some(2));
    ColonAfterGroup(":::80", [0, 0xfe]);
  }

  /** After `::`, a text that opens with no hexadecimal digit is no group. */
  lemma NoGroupAfterColon(s: string, bytes: seq<bv8>, ellipsis: Option<nat>)
    requires |bytes| < 16 && |s| > 0 && !IsDigitOf(s[0], 16)
    ensures GroupLoop(s, bytes, ellipsis) == None
  {
    assert Scan(s, 16).len == 0;
  }

  lemma ColonAfterGroup(t: string, bytes: seq<bv8>)
    requires |t| > 2 && t[0] == ':' && t[1] == ':'
    ensures AfterGroup(t, bytes, None) == GroupLoop(t[1..][1..], bytes, Some(|bytes|))
  {
  }

  lemma TripleColonChain()
    requires GroupLoop("fe:::80", [], None) == AfterGroup("fe:::80"[2..], [0, 0xfe], None)
    requires AfterGroup("fe:::80"[2..], [0, 0xfe], None) == None
    ensures ParseIPv6("fe:::80") == None
  {
    assert "fe:::80"[0] != ':';
    hide *;
    UnwrappedIPv6("fe:::80");
  }

  lemma UnwrappedIPv6(s: string)
    requires |s| > 0 && s[0] != ':'
    ensures ParseIPv6(s) == Expand(GroupLoop(s, [], None))
  {
  }

  /** A host with a colon and no bracket does not split from its port. */
  lemma ColonHostFails(h: string)
    requires ':' in h && '[' !in h
    ensures SplitHostPort(h + ":" + Port).Failure?
  {
    var s := h + ":" + Port;
    assert s[|h| + 1..] == Port;
    LastIndexOfAt(s, ':', |h|);
    assert s[0] == h[0] && s[..|h|] == h;
  }

  /** Text with a colon that is no address, has no comma or bracket, and
      no white space at its ends fails both checks of the handler test. */
  lemma RejectedColonText(entries: seq<string>, ranges: seq<Net>, ip: string)
    requires Builds(entries, ranges) && ValidRanges(ranges)
    requires ParseIP(ip) == None && ':' in ip
    requires ',' !in ip && '[' !in ip && ']' !in ip
    requires !IsSpace(ip[0]) && !IsSpace(ip[|ip| - 1])
    ensures Rejected(entries, ip)
  {
    var wt := IPWhitelister(ranges, true);
    ColonHostFails(ip);
    Unbracketed(ip);
    hide SplitHostPort, ParseIP, TrimBrackets, InSomeRange;
    ForwardedHostDecides(wt, Proxy, ip, "");
  }

  lemma Unbracketed(ip: string)
    requires ip != "" && '[' !in ip && ']' !in ip
    ensures TrimBrackets(ip) == ip
  {
    assert ip[0] in ip && ip[|ip| - 1] in ip;
  }

  /** The empty text: the remote address `:2342` has an empty host, which
      is no address, and an empty `X-Forwarded-For` leaves the decision to
      the proxy's address. */
  lemma BrokenEmpty()
    ensures Rejected(["127.0.0.1/32"], "")
  {
    hide *;
    BrokenBuilds();
    RejectedEmpty(["127.0.0.1/32"], [Cidr_127_0_0_1_32]);
  }

  lemma RejectedEmpty(entries: seq<string>, ranges: seq<Net>)
    requires Builds(entries, ranges) && ValidRanges(ranges)
    ensures !Admits(ranges, ProxyAddr) ==> Rejected(entries, "")
  {
    var wf, wt := IPWhitelister(ranges, false), IPWhitelister(ranges, true);
    PlainSplits("");
    assert "" + ":" + Port == ":" + Port;
    assert TrimBrackets("") == "";
    NoSeparatorNoAddr("");
    hide SplitHostPort, ParseIP;
    ProxyDecides(wt, "", "");
  }

  // ------------------------------------------------------- the last hop

  lemma LastHopBuilds()
    ensures Builds(["1.2.3.4/32"], [Cidr_1_2_3_4_32]) && ValidRanges([Cidr_1_2_3_4_32])
  {
    hide *;
    Entry_1_2_3_4_32();
    BuildsOf(["1.2.3.4/32"], [Cidr_1_2_3_4_32]);
  }

  lemma LastHopQuads(os: seq<nat>)
    requires |os| == 4 && OctetValues(os) && ValidRanges([Cidr_1_2_3_4_32])
    ensures Admits([Cidr_1_2_3_4_32], V4(FromOctets(os))) <==> (os[0] == 1 && os[1] == 2 && os[2] == 3 && os[3] == 4)
  {
    var a := V4(FromOctets(os));
    hide *;
    QuadValid(os);
    ValidAt([Cidr_1_2_3_4_32], 0);
    Cidr_1_2_3_4_32Holds(os);
    AdmitsOne(Cidr_1_2_3_4_32, a);
    Agree4(os, [1, 2, 3, 4]);
  }

  /** Whatever hops come before it, the last hop `1.2.3.4` is let
      through. */
  lemma LastHopPasses()
    ensures Forwarded(["1.2.3.4/32"], "1.1.1.1,1.2.3.4", Allow)
    ensures Forwarded(["1.2.3.4/32"], "1.1.1.1,2.2.2.2,1.2.3.4", Allow)
    ensures Forwarded(["1.2.3.4/32"], "1.2.3.4", Allow)
  {
    var e, r := ["1.2.3.4/32"], [Cidr_1_2_3_4_32];
    var a := V4(FromOctets([1, 2, 3, 4]));
    assert "1.1.1.1,1.2.3.4" == "1.1.1.1" + "," + "1.2.3.4";
    assert "1.1.1.1,2.2.2.2,1.2.3.4" == "1.1.1.1,2.2.2.2" + "," + "1.2.3.4";
    assert !IsBracket("1.1.1.1"[0]) && !IsBracket("1.1.1.1,2.2.2.2"[0]);
    hide *;
    LastHopBuilds();
    Dotted_1_2_3_4();
    LastHopQuads([1, 2, 3, 4]);
    ForwardedLast(e, r, "1.1.1.1,1.2.3.4", "1.1.1.1", "1.2.3.4", a);
    ForwardedLast(e, r, "1.1.1.1,2.2.2.2,1.2.3.4", "1.1.1.1,2.2.2.2", "1.2.3.4", a);
    ForwardedLast(e, r, "1.2.3.4", "", "1.2.3.4", a);
  }

  lemma RejectedHops()
    ensures "1.2.3.4,1.1.1.1" == "1.2.3.4" + "," + "1.1.1.1"
    ensures "1.1.1.1,1.2.3.4,2.2.2.2" == "1.1.1.1,1.2.3.4" + "," + "2.2.2.2"
    ensures !IsBracket("1.2.3.4"[0]) && !IsBracket("1.1.1.1,1.2.3.4"[0])
  {
  }

  /** Whatever hops come before it, a last hop other than `1.2.3.4` is
      turned away, even when `1.2.3.4` comes earlier. */
  lemma LastHopRejects()
    ensures Forwarded(["1.2.3.4/32"], "1.2.3.4,1.1.1.1", Deny)
    ensures Forwarded(["1.2.3.4/32"], "1.1.1.1,1.2.3.4,2.2.2.2", Deny)
    ensures Forwarded(["1.2.3.4/32"], "1.1.1.1", Deny)
  {
    var e, r := ["1.2.3.4/32"], [Cidr_1_2_3_4_32];
    var one, two := V4(FromOctets([1, 1, 1, 1])), V4(FromOctets([2, 2, 2, 2]));
    hide *;
    RejectedHops();
    LastHopBuilds();
    Dotted_1_1_1_1();
    LastHopQuads([1, 1, 1, 1]);
    Dotted_2_2_2_2();
    LastHopQuads([2, 2, 2, 2]);
    ForwardedLast(e, r, "1.2.3.4,1.1.1.1", "1.2.3.4", "1.1.1.1", one);
    ForwardedLast(e, r, "1.1.1.1,1.2.3.4,2.2.2.2", "1.1.1.1,1.2.3.4", "2.2.2.2", two);
    ForwardedLast(e, r, "1.1.1.1", "", "1.1.1.1", one);
  }

  // ---------------------------------------- an address with leading zeros

  /** The test's IPv6 address with leading zeros in two of its groups reads
      as the address of those groups; the test writes it in brackets. */
  lemma PaddedAddress()
    ensures GroupValues([0xfe80, 0xaa00, 0xbb, 0x4232, 0xff00, 0xeeee, 0xff, 0x1111])
    ensures ListedAs("[fe80:aa00:00bb:4232:ff00:eeee:00ff:1111]", "fe80:aa00:00bb:4232:ff00:eeee:00ff:1111", V6(FromGroups([0xfe80, 0xaa00, 0xbb, 0x4232, 0xff00, 0xeeee, 0xff, 0x1111])))
  {
    hide *;
    PaddedText();
    PaddedBracketed();
    ListedBracketed("fe80:aa00:00bb:4232:ff00:eeee:00ff:1111", "[fe80:aa00:00bb:4232:ff00:eeee:00ff:1111]", V6(FromGroups([0xfe80, 0xaa00, 0xbb, 0x4232, 0xff00, 0xeeee, 0xff, 0x1111])));
  }

  lemma PaddedText()
    ensures GroupValues([0xfe80, 0xaa00, 0xbb, 0x4232, 0xff00, 0xeeee, 0xff, 0x1111])
    ensures Names("fe80:aa00:00bb:4232:ff00:eeee:00ff:1111", V6(FromGroups([0xfe80, 0xaa00, 0xbb, 0x4232, 0xff00, 0xeeee, 0xff, 0x1111]))) && ':' in "fe80:aa00:00bb:4232:ff00:eeee:00ff:1111"
  {
    hide *;
    PaddedValues();
    PaddedSpelled();
    SpelledNames([0xfe80, 0xaa00, 0xbb, 0x4232, 0xff00, 0xeeee, 0xff, 0x1111], ["fe80", "aa00", "00bb", "4232"] + ["ff00", "eeee", "00ff", "1111"], "fe80:aa00:00bb:4232:ff00:eeee:00ff:1111");
  }

  /** Each group is spelled in four digits, `00bb` and `00ff` with leading
      zeros. */
  lemma PaddedValues()
    ensures |[0xfe80, 0xaa00, 0xbb, 0x4232, 0xff00, 0xeeee, 0xff, 0x1111]| == 8 && GroupValues([0xfe80, 0xaa00, 0xbb, 0x4232, 0xff00, 0xeeee, 0xff, 0x1111]) && |["fe80", "aa00", "00bb", "4232"] + ["ff00", "eeee", "00ff", "1111"]| == 8
    ensures forall k :: 0 <= k < 8 ==> Spells((["fe80", "aa00", "00bb", "4232"] + ["ff00", "eeee", "00ff", "1111"])[k], [0xfe80, 0xaa00, 0xbb, 0x4232, 0xff00, 0xeeee, 0xff, 0x1111][k])
  {
    forall k | 0 <= k < 8
      ensures Spells((["fe80", "aa00", "00bb", "4232"] + ["ff00", "eeee", "00ff", "1111"])[k], [0xfe80, 0xaa00, 0xbb, 0x4232, 0xff00, 0xeeee, 0xff, 0x1111][k])
    {
      PaddedGroup((["fe80", "aa00", "00bb", "4232"] + ["ff00", "eeee", "00ff", "1111"])[k], [0xfe80, 0xaa00, 0xbb, 0x4232, 0xff00, 0xeeee, 0xff, 0x1111][k]);
    }
  }

  lemma PaddedGroup(d: string, g: nat)
    requires d in ["fe80", "aa00", "00bb", "4232"] + ["ff00", "eeee", "00ff", "1111"]
    requires g == (if d == "fe80" then 0xfe80 else if d == "aa00" then 0xaa00 else if d == "00bb" then 0xbb
      else if d == "4232" then 0x4232 else if d == "ff00" then 0xff00 else if d == "eeee" then 0xeeee
      else if d == "00ff" then 0xff else 0x1111)
    ensures Spells(d, g)
  {
    assert |d| == 4 && AllDigitsOf(d, 16);
    Value4(d);
  }

  lemma PaddedSpelled()
    ensures Join(["fe80", "aa00", "00bb", "4232"] + ["ff00", "eeee", "00ff", "1111"], ":") == "fe80:aa00:00bb:4232:ff00:eeee:00ff:1111"
  {
    hide *;
    JoinAppend(["fe80", "aa00", "00bb", "4232"], ["ff00", "eeee", "00ff", "1111"], ":");
    PaddedFront();
    PaddedBack();
    PaddedSplit();
  }

  lemma PaddedFront()
    ensures Join(["fe80", "aa00", "00bb", "4232"], ":") == "fe80:aa00:00bb:4232"
  {
  }

  lemma PaddedBack()
    ensures Join(["ff00", "eeee", "00ff", "1111"], ":") == "ff00:eeee:00ff:1111"
  {
  }

  lemma PaddedSplit()
    ensures "fe80:aa00:00bb:4232:ff00:eeee:00ff:1111" == "fe80:aa00:00bb:4232" + ":" + "ff00:eeee:00ff:1111"
  {
  }

  lemma PaddedBracketed()
    ensures "[fe80:aa00:00bb:4232:ff00:eeee:00ff:1111]" == "[" + "fe80:aa00:00bb:4232:ff00:eeee:00ff:1111" + "]"
  {
    PaddedSplit();
    PaddedHalves();
    PaddedHead();
    PaddedTail();
    var x, y := "fe80:aa00:00bb:4232", "ff00:eeee:00ff:1111";
    assert "[" + (x + ":" + y) + "]" == ("[" + x + ":") + (y + "]");
  }

  lemma PaddedHalves()
    ensures "[fe80:aa00:00bb:4232:ff00:eeee:00ff:1111]" == "[fe80:aa00:00bb:4232:" + "ff00:eeee:00ff:1111]"
  {
  }

  lemma PaddedHead()
    ensures "[fe80:aa00:00bb:4232:" == "[" + "fe80:aa00:00bb:4232" + ":"
  {
  }

  lemma PaddedTail()
    ensures "ff00:eeee:00ff:1111]" == "ff00:eeee:00ff:1111" + "]"
  {
  }

  /** The address with leading zeros passes against the two IPv6 ranges. */
  lemma TwoIPv6PassesPadded()
    ensures Passes(["2a03:4000:6:d080::/64", "fe80::/16"], "[fe80:aa00:00bb:4232:ff00:eeee:00ff:1111]")
  {
    hide *;
    TwoIPv6Builds();
    ProxyOctets();
    TwoIPv6Quads([254, 254, 254, 254]);
    PaddedAddress();
    TwoIPv6Sixes([0xfe80, 0xaa00, 0xbb, 0x4232, 0xff00, 0xeeee, 0xff, 0x1111]);
    Checked(["2a03:4000:6:d080::/64", "fe80::/16"], [Cidr_2a03_4000_6_d080_z_64, Cidr_fe80_z_16], "[fe80:aa00:00bb:4232:ff00:eeee:00ff:1111]", "fe80:aa00:00bb:4232:ff00:eeee:00ff:1111", V6(FromGroups([0xfe80, 0xaa00, 0xbb, 0x4232, 0xff00, 0xeeee, 0xff, 0x1111])));
  }

  /** The address with leading zeros passes against the mixed ranges. */
  lemma MixedPassesPadded()
    ensures Passes(["2a03:4000:6:d080::/64", "fe80::/16", "1.2.3.4/24", "8.8.8.8/8"], "[fe80:aa00:00bb:4232:ff00:eeee:00ff:1111]")
  {
    hide *;
    MixedBuilds();
    ProxyOctets();
    MixedQuads([254, 254, 254, 254]);
    PaddedAddress();
    MixedSixes([0xfe80, 0xaa00, 0xbb, 0x4232, 0xff00, 0xeeee, 0xff, 0x1111]);
    Checked(["2a03:4000:6:d080::/64", "fe80::/16", "1.2.3.4/24", "8.8.8.8/8"], [Cidr_2a03_4000_6_d080_z_64, Cidr_fe80_z_16, Cidr_1_2_3_0_24, Cidr_8_0_0_0_8], "[fe80:aa00:00bb:4232:ff00:eeee:00ff:1111]", "fe80:aa00:00bb:4232:ff00:eeee:00ff:1111", V6(FromGroups([0xfe80, 0xaa00, 0xbb, 0x4232, 0xff00, 0xeeee, 0xff, 0x1111])));
  }

  /** Four hexadecimal digits are worth their place values. */
  lemma Value4(d: string)
    requires |d| == 4 && AllDigitsOf(d, 16)
    ensures Value(d, 16) == DigitValue(d[0]) * 4096 + DigitValue(d[1]) * 256 + DigitValue(d[2]) * 16 + DigitValue(d[3])
  {
    assert Value(d[..1], 16) == DigitValue(d[0]) by {
      assert d[..1][..0] == [];
    }
    assert Value(d[..2], 16) == Value(d[..1], 16) * 16 + DigitValue(d[1]) by {
      assert d[..2][..1] == d[..1];
    }
    assert Value(d[..3], 16) == Value(d[..2], 16) * 16 + DigitValue(d[2]) by {
      assert d[..3][..2] == d[..2];
    }
  }

}
