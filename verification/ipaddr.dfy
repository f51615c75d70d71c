/** IP addresses and their textual forms, as Go's `net.ParseIP` reads them:
    dotted-quad IPv4 (section 3.1 of RFC 4632 writes networks this way) and
    IPv6 text with optional `::` compression and an optional dotted IPv4
    tail (section 2.2 of RFC 4291). */
module IPAddr {
  import opened Wrappers
  import opened Text

  /** An address keeps the family it was written in: four bytes for IPv4,
      sixteen for IPv6. */
  datatype Addr = V4(bytes: seq<bv8>) | V6(bytes: seq<bv8>) {
    predicate Valid() {
      if V4? then |bytes| == 4 else |bytes| == 16
    }

    /** The number of bits in an address of this family. */
    function Width(): nat {
      if V4? then 32 else 128
    }
  }

  predicate SameFamily(a: Addr, b: Addr) {
    a.V4? == b.V4?
  }

  function Zeros(n: nat): (z: seq<bv8>)
    ensures |z| == n && forall i :: 0 <= i < n ==> z[i] == 0
  {
    seq(n, _ => 0)
  }

  // ---------------------------------------------------------------- IPv4

  /** Go's `parseIPv4`: exactly four decimal numbers of at most 255, joined
      by dots, using up the whole string. Leading zeros are accepted. */
  function ParseIPv4(s: string): (r: Option<seq<bv8>>)
    ensures r.Some? ==> |r.value| == 4
    ensures r.Some? ==> 0 < |s| && IsDigit(s[0]) && DottedChars(s)
  {
    Octets(s, [])
  }

  /** Text made of decimal digits and dots only. */
  predicate DottedChars(s: string) {
    forall i :: 0 <= i < |s| ==> IsDigit(s[i]) || s[i] == '.'
  }

  /** The octet loop of `parseIPv4`; `acc` holds the octets read so far. */
  function Octets(s: string, acc: seq<bv8>): (r: Option<seq<bv8>>)
    requires |acc| <= 4
    ensures r.Some? ==> |r.value| == 4 && r.value[..|acc|] == acc
    ensures r.Some? ==> DottedChars(s) && (|acc| == 0 ==> 0 < |s| && IsDigit(s[0]))
    decreases 4 - |acc|
  {
    if |acc| == 4 then
      if |s| == 0 then Some(acc) else None
    else if |s| == 0 then None
    else if |acc| > 0 && s[0] != '.' then None
    else
      var t := if |acc| > 0 then s[1..] else s;
      var d := Scan(t, 10);
      if !d.ok || d.value > 255 then None
      else
        var r := Octets(t[d.len..], acc + [d.value as bv8]);
        assert r.Some? ==> r.value[..|acc|] == r.value[..|acc| + 1][..|acc|];
        if r.Some? then
          DottedJoin(s, t, d.len);
          r
        else
          r
  }

  /** A number followed by dotted text, after an optional dot, is dotted
      text. */
  lemma DottedJoin(s: string, t: string, k: nat)
    requires t == s || (0 < |s| && s[0] == '.' && t == s[1..])
    requires k <= |t| && AllDigitsOf(t[..k], 10) && DottedChars(t[k..])
    ensures DottedChars(s)
  {
    forall i | 0 <= i < |t|
      ensures IsDigit(t[i]) || t[i] == '.'
    {
      if i < k {
        assert t[i] == t[..k][i];
      } else {
        assert t[i] == t[k..][i - k];
      }
    }
  }

  /** The canonical dotted-quad text of four bytes. */
  function FormatIPv4(b: seq<bv8>): string
    requires |b| == 4
  {
    Digits(b[0] as nat, 10) + DotTail(b, 1)
  }

  /** `.b[k].b[k+1]...` up to the last byte. */
  function DotTail(b: seq<bv8>, k: nat): string
    requires k <= |b|
    decreases |b| - k
  {
    if k == |b| then "" else "." + Digits(b[k] as nat, 10) + DotTail(b, k + 1)
  }

  /** One turn of the octet loop over a dot and a number of at most 255. */
  lemma OctetStep(s: string, acc: seq<bv8>, n: nat, len: nat)
    requires 1 <= |acc| < 4 && 0 < |s| && s[0] == '.'
    requires Scan(s[1..], 10) == Number(n, len, true) && n <= 255
    ensures Octets(s, acc) == Octets(s[1..][len..], acc + [n as bv8])
  {
  }

  /** Reading the dotted tail from octet `k` on gives back the remaining
      octets. */
  lemma {:induction false} OctetsOfDotTail(b: seq<bv8>, k: nat)
    requires |b| == 4 && 1 <= k <= 4
    ensures Octets(DotTail(b, k), b[..k]) == Some(b)
    decreases 4 - k
  {
    if k < 4 {
      hide *;
      DotTailStep(b, k);
      OctetsOfDotTail(b, k + 1);
    } else {
      assert b[..4] == b;
    }
  }

  /** One octet of the dotted tail is read back. */
  lemma DotTailStep(b: seq<bv8>, k: nat)
    requires |b| == 4 && 1 <= k < 4
    ensures Octets(DotTail(b, k), b[..k]) == Octets(DotTail(b, k + 1), b[..k + 1])
  {
    var n := b[k] as nat;
    var dec := Digits(n, 10);
    var rest := DotTail(b, k + 1);
    DotTailShape(b, k);
    ScanDigits(n, 10, rest);
    ByteOfNat(b[k], n);
    hide *;
    var s := "." + (dec + rest);
    assert s[1..] == dec + rest;
    assert (dec + rest)[|dec|..] == rest;
    assert b[..k] + [n as bv8] == b[..k + 1];
    OctetStep(s, b[..k], n, |dec|);
  }

  /** The dotted tail from octet `k` is a dot, the octet's digits and the
      dotted tail after it. */
  lemma DotTailShape(b: seq<bv8>, k: nat)
    requires |b| == 4 && 1 <= k < 4
    ensures DotTail(b, k) == "." + (Digits(b[k] as nat, 10) + DotTail(b, k + 1))
    ensures DotTail(b, k + 1) == "" || DotTail(b, k + 1)[0] == '.'
  {
  }

  /** Printing four bytes as a dotted quad and parsing the text back gives
      the same four bytes. */
  lemma ParseFormatIPv4(b: seq<bv8>)
    requires |b| == 4
    ensures ParseIPv4(FormatIPv4(b)) == Some(b)
  {
    var n := b[0] as nat;
    var dec := Digits(n, 10);
    var rest := DotTail(b, 1);
    ScanDigits(n, 10, rest);
    assert (dec + rest)[|dec|..] == rest;
    ByteOfNat(b[0], n);
    assert [] + [n as bv8] == b[..1];
    OctetsOfDotTail(b, 1);
  }

  // ---------------------------------------------------------------- IPv6

  /** The state in which Go's `parseIPv6` leaves its group loop: the text
      not consumed, the bytes read so far and where `::` stood. */
  datatype Groups = Groups(rest: string, bytes: seq<bv8>, ellipsis: Option<nat>)

  predicate GroupsOk(g: Groups) {
    LoopInv(g.bytes, g.ellipsis)
  }

  /** What holds of the bytes and the `::` position on every pass: at most
      sixteen bytes, and `::` stands within them. */
  predicate LoopInv(bytes: seq<bv8>, ellipsis: Option<nat>) {
    |bytes| <= 16 && (ellipsis.Some? ==> ellipsis.value <= |bytes|)
  }

  /** Go's `parseIPv6` without zones: hexadecimal groups of at most 0xFFFF
      separated by `:`, at most one `::` standing for one or more zero
      groups, and an optional dotted IPv4 tail in the last 32 bits. */
  function ParseIPv6(s: string): (r: Option<seq<bv8>>)
    ensures r.Some? ==> |r.value| == 16
  {
    if |s| >= 2 && s[0] == ':' && s[1] == ':' then
      if |s| == 2 then Some(Zeros(16))
      else Expand(GroupLoop(s[2..], [], Some(0)))
    else Expand(GroupLoop(s, [], None))
  }

  /** One pass of the group loop of `parseIPv6`, which runs while fewer
      than sixteen bytes are read: a hexadecimal group, or the dotted IPv4
      tail, which ends the loop. */
  function GroupLoop(s: string, bytes: seq<bv8>, ellipsis: Option<nat>): (r: Option<Groups>)
    ensures r.Some? && LoopInv(bytes, ellipsis) && |bytes| % 2 == 0 ==> GroupsOk(r.value)
    decreases 16 - |bytes|, 0
  {
    if |bytes| >= 16 then Some(Groups(s, bytes, ellipsis))
    else
      var h := Scan(s, 16);
      if !h.ok || h.value > 0xFFFF then None
      else if h.len < |s| && s[h.len] == '.' then
        if ellipsis.None? && |bytes| != 12 then None
        else if |bytes| + 4 > 16 then None
        else match ParseIPv4(s)
          case None => None
          case Some(v4) => Some(Groups("", bytes + v4, ellipsis))
      else
        AfterGroup(s[h.len..], bytes + [(h.value / 256) as bv8, (h.value % 256) as bv8], ellipsis)
  }

  /** The rest of a pass after a group: the end of the text, or a `:` and,
      possibly, the `::` that may occur once, after which the text may
      end. */
  function AfterGroup(t: string, bytes: seq<bv8>, ellipsis: Option<nat>): (r: Option<Groups>)
    ensures r.Some? && LoopInv(bytes, ellipsis) && |bytes| % 2 == 0 ==> GroupsOk(r.value)
    decreases 16 - |bytes|, 1
  {
    if |t| == 0 then Some(Groups(t, bytes, ellipsis))
    else if t[0] != ':' || |t| == 1 then None
    else
      var u := t[1..];
      if u[0] == ':' then
        if ellipsis.Some? then None
        else if |u| == 1 then Some(Groups(u[1..], bytes, Some(|bytes|)))
        else GroupLoop(u[1..], bytes, Some(|bytes|))
      else GroupLoop(u, bytes, ellipsis)
  }

  /** The end of `parseIPv6`: all text must be used, and a short address
      must have a `::`, which is widened with zeros to sixteen bytes; a full
      address must not have one. */
  function Expand(g: Option<Groups>): (r: Option<seq<bv8>>)
    requires g.Some? ==> GroupsOk(g.value)
    ensures r.Some? ==> |r.value| == 16
    ensures r.Some? ==> g.Some? && g.value.rest == ""
    ensures r.Some? && g.value.ellipsis.None? ==> r.value == g.value.bytes
    ensures r.Some? && g.value.ellipsis.Some? ==>
      var e, b := g.value.ellipsis.value, g.value.bytes;
      |b| < 16 && r.value == b[..e] + Zeros(16 - |b|) + b[e..]
  {
    match g
    case None => None
    case Some(Groups(rest, bytes, ellipsis)) =>
      if |rest| != 0 then None
      else if |bytes| < 16 then
        match ellipsis
        case None => None
        case Some(e) => Some(bytes[..e] + Zeros(16 - |bytes|) + bytes[e..])
      else if ellipsis.Some? then None
      else Some(bytes)
  }

  /** The 16-bit group `k` of a sixteen-byte address. */
  function Group(b: seq<bv8>, k: nat): (n: nat)
    requires |b| == 16 && k < 8
    ensures n < 0x1_0000
  {
    b[2 * k] as nat * 256 + b[2 * k + 1] as nat
  }

  /** Groups `k` to `end - 1` in lower-case hexadecimal without leading
      zeros, separated by colons. */
  function GroupsText(b: seq<bv8>, k: nat, end: nat): string
    requires |b| == 16 && k < end <= 8
    decreases end - k, 1
  {
    Digits(Group(b, k), 16) + ColonTail(b, k + 1, end)
  }

  /** `:group(k):group(k+1)...` up to group `end - 1`. */
  function ColonTail(b: seq<bv8>, k: nat, end: nat): string
    requires |b| == 16 && k <= end <= 8
    decreases end - k, 2
  {
    if k == end then "" else ":" + GroupsText(b, k, end)
  }

  /** The uncompressed IPv6 text of sixteen bytes: eight groups. */
  function FormatIPv6(b: seq<bv8>): string
    requires |b| == 16
  {
    GroupsText(b, 0, 8)
  }

  /** The IPv6 text of sixteen bytes with groups `i` to `j - 1`, which must
      be zero, written as `::`. */
  function FormatIPv6Compressed(b: seq<bv8>, i: nat, j: nat): string
    requires |b| == 16 && i < j <= 8
  {
    (if i == 0 then "" else GroupsText(b, 0, i)) + "::" + (if j == 8 then "" else GroupsText(b, j, 8))
  }

  /** Groups `i` to `j - 1` of `b` are all zero. */
  predicate ZeroGroups(b: seq<bv8>, i: nat, j: nat)
    requires |b| == 16 && i <= j <= 8
  {
    forall k :: 2 * i <= k < 2 * j ==> b[k] == 0
  }

  lemma ByteOfNat(x: bv8, v: nat)
    requires v == x as nat
    ensures v as bv8 == x
  {
  }

  /** A 16-bit group splits back into the two bytes it was made of. */
  lemma ByteSplit(x: bv8, y: bv8, g: nat)
    requires g == x as nat * 256 + y as nat
    ensures (g / 256) as bv8 == x && (g % 256) as bv8 == y
  {
    DivMod256(x as nat, y as nat, g);
    ByteOfNat(x, g / 256);
    ByteOfNat(y, g % 256);
  }

  lemma DivMod256(x: nat, y: nat, g: nat)
    requires y < 256 && g == x * 256 + y
    ensures g / 256 == x && g % 256 == y
  {
  }

  /** One pass of the group loop over a group followed by something other
      than a dot appends the group's two bytes. */
  lemma GroupStep(s: string, bytes: seq<bv8>, ellipsis: Option<nat>, n: nat, len: nat, bytes': seq<bv8>)
    requires |bytes| < 16
    requires Scan(s, 16) == Number(n, len, true) && n <= 0xFFFF
    requires len == |s| || s[len] != '.'
    requires bytes' == bytes + [(n / 256) as bv8, (n % 256) as bv8]
    ensures GroupLoop(s, bytes, ellipsis) == AfterGroup(s[len..], bytes', ellipsis)
  {
  }

  /** Appending the two bytes of group `k` to `acc` appends bytes `2k` and
      `2k + 1` of the address. */
  lemma AppendGroup(b: seq<bv8>, k: nat, acc: seq<bv8>)
    requires |b| == 16 && k < 8
    ensures var g := Group(b, k);
      acc + [(g / 256) as bv8, (g % 256) as bv8] == acc + b[2 * k..2 * k + 2]
  {
    ByteSplit(b[2 * k], b[2 * k + 1], Group(b, k));
  }

  /** The text of group `k` followed by `tail` scans as the group's value
      and is followed by `tail`. */
  lemma ScanGroupText(b: seq<bv8>, k: nat, end: nat, tail: string)
    requires |b| == 16 && k < end <= 8
    requires tail == [] || tail[0] == ':'
    ensures var s := GroupsText(b, k, end) + tail;
      var len := |Digits(Group(b, k), 16)|;
      && Scan(s, 16) == Number(Group(b, k), len, true)
      && s[len..] == ColonTail(b, k + 1, end) + tail
      && (len == |s| || s[len] != '.')
  {
    var rest := ColonTail(b, k + 1, end) + tail;
    var hex := Digits(Group(b, k), 16);
    assert GroupsText(b, k, end) + tail == hex + rest;
    assert rest == [] || rest[0] == ':';
    ScanDigits(Group(b, k), 16, rest);
    assert (hex + rest)[|hex|..] == rest;
  }

  /** Reading group `k` appends bytes `2k` and `2k + 1`. */
  lemma GroupOfText(b: seq<bv8>, k: nat, end: nat, tail: string, acc: seq<bv8>, ellipsis: Option<nat>)
    requires |b| == 16 && k < end <= 8
    requires tail == [] || tail[0] == ':'
    requires |acc| < 16
    ensures GroupLoop(GroupsText(b, k, end) + tail, acc, ellipsis)
         == AfterGroup(ColonTail(b, k + 1, end) + tail, acc + b[2 * k..2 * k + 2], ellipsis)
  {
    ScanGroupText(b, k, end, tail);
    AppendGroup(b, k, acc);
    GroupStep(GroupsText(b, k, end) + tail, acc, ellipsis, Group(b, k),
      |Digits(Group(b, k), 16)|, acc + b[2 * k..2 * k + 2]);
  }

  /** After a group that is not the last, a single colon leads to the next
      group. */
  lemma ColonOfText(b: seq<bv8>, k: nat, end: nat, tail: string, acc: seq<bv8>, ellipsis: Option<nat>)
    requires |b| == 16 && k < end <= 8
    ensures AfterGroup(ColonTail(b, k, end) + tail, acc, ellipsis)
         == GroupLoop(GroupsText(b, k, end) + tail, acc, ellipsis)
  {
    ColonTailText(b, k, end, tail);
    hide *;
    SingleColon(GroupsText(b, k, end) + tail, acc, ellipsis);
  }

  /** A colon tail is a colon followed by groups. */
  lemma ColonTailText(b: seq<bv8>, k: nat, end: nat, tail: string)
    requires |b| == 16 && k < end <= 8
    ensures var s := GroupsText(b, k, end) + tail;
      ColonTail(b, k, end) + tail == ":" + s && 0 < |s| && s[0] != ':'
  {
    var s := GroupsText(b, k, end) + tail;
    GroupsTextStart(b, k, end);
    assert s[0] == GroupsText(b, k, end)[0];
  }

  /** A single colon in front of a text that does not start with another
      one leads straight back into the group loop. */
  lemma SingleColon(s: string, acc: seq<bv8>, ellipsis: Option<nat>)
    requires 0 < |s| && s[0] != ':'
    ensures AfterGroup(":" + s, acc, ellipsis) == GroupLoop(s, acc, ellipsis)
  {
    hide GroupLoop;
    assert (":" + s)[1..] == s;
  }

  /** The group loop reads groups `k` to `end - 1` of a text of plain
      groups, appending their bytes, and stops in front of `tail`. */
  lemma {:induction false} GroupLoopOfText(b: seq<bv8>, k: nat, end: nat, tail: string, acc: seq<bv8>, ellipsis: Option<nat>)
    requires |b| == 16 && k < end <= 8
    requires tail == [] || tail[0] == ':'
    requires |acc| + 2 * (end - k) <= 16
    ensures GroupLoop(GroupsText(b, k, end) + tail, acc, ellipsis)
         == AfterGroup(tail, acc + b[2 * k..2 * end], ellipsis)
    decreases end - k
  {
    hide *;
    if k + 1 < end {
      var acc' := acc + b[2 * k..2 * k + 2];
      assert |acc'| == |acc| + 2;
      GroupLoopOfText(b, k + 1, end, tail, acc', ellipsis);
      MiddleGroup(b, k, end, tail, acc, ellipsis);
    } else {
      LastGroup(b, k, tail, acc, ellipsis);
    }
  }

  /** A group followed by more groups: one step of `GroupLoopOfText`. */
  lemma MiddleGroup(b: seq<bv8>, k: nat, end: nat, tail: string, acc: seq<bv8>, ellipsis: Option<nat>)
    requires |b| == 16 && k + 1 < end <= 8
    requires tail == [] || tail[0] == ':'
    requires |acc| < 16
    requires GroupLoop(GroupsText(b, k + 1, end) + tail, acc + b[2 * k..2 * k + 2], ellipsis)
          == AfterGroup(tail, acc + b[2 * k..2 * k + 2] + b[2 * k + 2..2 * end], ellipsis)
    ensures GroupLoop(GroupsText(b, k, end) + tail, acc, ellipsis)
         == AfterGroup(tail, acc + b[2 * k..2 * end], ellipsis)
  {
    hide *;
    var acc' := acc + b[2 * k..2 * k + 2];
    GroupOfText(b, k, end, tail, acc, ellipsis);
    ColonOfText(b, k + 1, end, tail, acc', ellipsis);
    AppendSlices(acc, b, 2 * k, 2 * k + 2, 2 * end);
  }

  /** The last group in front of `tail`. */
  lemma LastGroup(b: seq<bv8>, k: nat, tail: string, acc: seq<bv8>, ellipsis: Option<nat>)
    requires |b| == 16 && k < 8
    requires tail == [] || tail[0] == ':'
    requires |acc| < 16
    ensures GroupLoop(GroupsText(b, k, k + 1) + tail, acc, ellipsis)
         == AfterGroup(tail, acc + b[2 * k..2 * (k + 1)], ellipsis)
  {
    GroupOfText(b, k, k + 1, tail, acc, ellipsis);
    EmptyColonTail(b, k + 1, tail);
  }

  lemma AppendSlices(acc: seq<bv8>, b: seq<bv8>, i: nat, j: nat, k: nat)
    requires i <= j <= k <= |b|
    ensures acc + b[i..j] + b[j..k] == acc + b[i..k]
  {
    assert b[i..j] + b[j..k] == b[i..k];
  }

  lemma EmptyColonTail(b: seq<bv8>, end: nat, tail: string)
    requires |b| == 16 && end <= 8
    ensures ColonTail(b, end, end) + tail == tail
  {
  }

  /** Printing sixteen bytes as eight groups and parsing the text back gives
      the same sixteen bytes. */
  lemma ParseFormatIPv6(b: seq<bv8>)
    requires |b| == 16
    ensures ParseIPv6(FormatIPv6(b)) == Some(b)
  {
    FormatIPv6Text(b);
    var s := FormatIPv6(b);
    hide *;
    GroupLoopOfText(b, 0, 8, "", [], None);
    FullGroupsParse(s, b);
  }

  /** The uncompressed text is the eight groups, starting with a digit. */
  lemma FormatIPv6Text(b: seq<bv8>)
    requires |b| == 16
    ensures var s := FormatIPv6(b); s == GroupsText(b, 0, 8) + "" && 0 < |s| && s[0] != ':'
    ensures [] + b[0..16] == b
  {
    GroupsTextStart(b, 0, 8);
  }

  /** A text not starting with a colon whose group loop reads sixteen
      bytes without `::` and uses up the text parses as those bytes. */
  lemma FullGroupsParse(s: string, b: seq<bv8>)
    requires 0 < |s| && s[0] != ':' && |b| == 16
    requires GroupLoop(s, [], None) == AfterGroup("", b, None)
    ensures ParseIPv6(s) == Some(b)
  {
  }

  /** A `::` after the groups read so far records where it stands and,
      unless the text ends there, goes on with the next group. */
  lemma AfterDoubleColon(rest: string, bytes: seq<bv8>)
    ensures AfterGroup("::" + rest, bytes, None)
         == if rest == "" then Some(Groups("", bytes, Some(|bytes|))) else GroupLoop(rest, bytes, Some(|bytes|))
  {
    hide GroupLoop;
    var u := ("::" + rest)[1..];
    assert u == ":" + rest && u[1..] == rest;
  }

  /** Zero groups `i` to `j - 1` put back between the bytes around them
      restore the address. */
  lemma ZerosBetween(b: seq<bv8>, i: nat, j: nat)
    requires |b| == 16 && i < j <= 8 && ZeroGroups(b, i, j)
    ensures b[..2 * i] + Zeros(2 * (j - i)) + b[2 * j..] == b
  {
    var r := b[..2 * i] + Zeros(2 * (j - i)) + b[2 * j..];
    assert |r| == 16;
    forall n | 0 <= n < 16
      ensures r[n] == b[n]
    {
      if n < 2 * i {
      } else if n < 2 * j {
        assert r[n] == Zeros(2 * (j - i))[n - 2 * i];
      } else {
        assert r[n] == b[2 * j..][n - 2 * j];
      }
    }
  }

  /** The group loop ends with the text. */
  lemma AfterLastGroup(bytes: seq<bv8>, ellipsis: Option<nat>)
    ensures AfterGroup("", bytes, ellipsis) == Some(Groups("", bytes, ellipsis))
  {
  }

  /** A short group list with `::` at `e` and no text left widens to
      sixteen bytes. */
  lemma ExpandShort(bytes: seq<bv8>, e: nat)
    requires |bytes| < 16 && e <= |bytes|
    ensures Expand(Some(Groups("", bytes, Some(e)))) == Some(bytes[..e] + Zeros(16 - |bytes|) + bytes[e..])
  {
  }

  /** A text starting with `::` followed by groups `j` to 7 reads those
      groups' bytes with `::` at the front. */
  lemma LeadingCompressed(b: seq<bv8>, j: nat)
    requires |b| == 16 && 0 < j < 8
    ensures ParseIPv6(FormatIPv6Compressed(b, 0, j)) == Expand(Some(Groups("", b[2 * j..], Some(0))))
  {
    hide *;
    var right := GroupsText(b, j, 8);
    LeadingText(b, j);
    GroupLoopOfText(b, j, 8, "", [], Some(0));
    LeadingEllipsis(right);
    assert right + "" == right;
    assert [] + b[2 * j..16] == b[2 * j..];
    AfterLastGroup(b[2 * j..], Some(0));
  }

  lemma LeadingText(b: seq<bv8>, j: nat)
    requires |b| == 16 && 0 < j < 8
    ensures FormatIPv6Compressed(b, 0, j) == "::" + GroupsText(b, j, 8) && |GroupsText(b, j, 8)| > 0
  {
  }

  /** Text after a leading `::` is read by the group loop with the ellipsis
      at the start. */
  lemma LeadingEllipsis(right: string)
    requires |right| > 0
    ensures ParseIPv6("::" + right) == Expand(GroupLoop(right, [], Some(0)))
  {
    assert ("::" + right)[2..] == right;
  }

  /** `::` alone is the all-zero address. */
  lemma AllZeroCompressed(b: seq<bv8>)
    requires |b| == 16
    ensures ParseIPv6(FormatIPv6Compressed(b, 0, 8)) == Some(Zeros(16))
  {
    assert FormatIPv6Compressed(b, 0, 8) == "::";
  }

  /** Groups `0` to `i - 1`, then `::`, then groups `j` to 7 (none when `j`
      is 8) read the bytes of those groups with `::` after the first `2i`
      bytes. */
  lemma InnerCompressed(b: seq<bv8>, i: nat, j: nat)
    requires |b| == 16 && 0 < i < j <= 8
    ensures ParseIPv6(FormatIPv6Compressed(b, i, j)) == Expand(Some(Groups("", b[..2 * i] + b[2 * j..], Some(2 * i))))
  {
    var left := GroupsText(b, 0, i);
    var right := if j == 8 then "" else GroupsText(b, j, 8);
    var s := left + ("::" + right);
    CompressedText(b, i, j);
    hide *;
    NotDoubleColonStart(s);
    GroupLoopOfText(b, 0, i, "::" + right, [], None);
    assert [] + b[0..2 * i] == b[..2 * i];
    if j < 8 {
      RightOfDoubleColon(b, i, j);
    } else {
      NothingAfterDoubleColon(b, i);
    }
  }

  /** `::` followed by groups `j` to 7, after the bytes of groups `0` to
      `i - 1`. */
  lemma RightOfDoubleColon(b: seq<bv8>, i: nat, j: nat)
    requires |b| == 16 && 0 < i < j < 8
    ensures AfterGroup("::" + GroupsText(b, j, 8), b[..2 * i], None)
         == Some(Groups("", b[..2 * i] + b[2 * j..], Some(2 * i)))
  {
    var right := GroupsText(b, j, 8);
    var acc := b[..2 * i];
    GroupsTextStart(b, j, 8);
    assert |acc| == 2 * i;
    hide *;
    AfterDoubleColon(right, acc);
    assert right + "" == right;
    GroupLoopOfText(b, j, 8, "", acc, Some(2 * i));
    assert b[2 * j..16] == b[2 * j..];
    AfterLastGroup(acc + b[2 * j..], Some(2 * i));
  }

  /** `::` ending the text, after the bytes of groups `0` to `i - 1`. */
  lemma NothingAfterDoubleColon(b: seq<bv8>, i: nat)
    requires |b| == 16 && 0 < i < 8
    ensures AfterGroup("::" + "", b[..2 * i], None) == Some(Groups("", b[..2 * i] + b[16..], Some(2 * i)))
  {
    AfterDoubleColon("", b[..2 * i]);
    assert b[..2 * i] + b[16..] == b[..2 * i];
  }

  /** The shape of the compressed text when groups come before `::`. */
  lemma CompressedText(b: seq<bv8>, i: nat, j: nat)
    requires |b| == 16 && 0 < i < j <= 8
    ensures var s := GroupsText(b, 0, i) + ("::" + if j == 8 then "" else GroupsText(b, j, 8));
      && FormatIPv6Compressed(b, i, j) == s
      && 0 < |s| && s[0] != ':'
  {
    GroupsTextStart(b, 0, i);
  }

  /** Group text starts with a hexadecimal digit. */
  lemma GroupsTextStart(b: seq<bv8>, k: nat, end: nat)
    requires |b| == 16 && k < end <= 8
    ensures 0 < |GroupsText(b, k, end)| && IsHexDigit(GroupsText(b, k, end)[0])
  {
    var hex := Digits(Group(b, k), 16);
    assert GroupsText(b, k, end)[0] == hex[0];
    DigitsValue(Group(b, k), 16);
  }

  /** A text that does not start with a colon goes straight to the group
      loop. */
  lemma NotDoubleColonStart(s: string)
    requires 0 < |s| && s[0] != ':'
    ensures ParseIPv6(s) == Expand(GroupLoop(s, [], None))
  {
  }

  /** Widening the bytes around a run of zero groups at the place of the
      run restores the address. */
  lemma ExpandAround(b: seq<bv8>, i: nat, j: nat)
    requires |b| == 16 && i < j <= 8 && ZeroGroups(b, i, j)
    ensures Expand(Some(Groups("", b[..2 * i] + b[2 * j..], Some(2 * i)))) == Some(b)
  {
    ZerosBetween(b, i, j);
    var bytes := b[..2 * i] + b[2 * j..];
    ExpandShort(bytes, 2 * i);
    assert bytes[..2 * i] == b[..2 * i] && bytes[2 * i..] == b[2 * j..];
  }

  /** Printing sixteen bytes with a run of zero groups written as `::` and
      parsing the text back gives the same sixteen bytes. */
  lemma ParseFormatIPv6Compressed(b: seq<bv8>, i: nat, j: nat)
    requires |b| == 16 && i < j <= 8 && ZeroGroups(b, i, j)
    ensures ParseIPv6(FormatIPv6Compressed(b, i, j)) == Some(b)
  {
    if i == 0 && j == 8 {
      AllZeroCompressed(b);
      ZerosBetween(b, i, j);
      assert b[..0] + Zeros(16) + b[16..] == Zeros(16);
    } else if i == 0 {
      LeadingCompressed(b, j);
      ExpandAround(b, i, j);
      assert b[..0] + b[2 * j..] == b[2 * j..];
    } else {
      InnerCompressed(b, i, j);
      ExpandAround(b, i, j);
    }
  }

  // ---------------------------------------------------------- ParseIP

  /** The first `.` or `:` of `s`, which decides the family Go's
      `ParseIP` tries. */
  function FirstSeparator(s: string): (r: Option<char>)
    ensures r.Some? ==> r.value in ".:" && r.value in s
    ensures r.None? <==> '.' !in s && ':' !in s
  {
    if |s| == 0 then None
    else if s[0] == '.' || s[0] == ':' then Some(s[0])
    else FirstSeparator(s[1..])
  }

  /** Go's `net.ParseIP`: a text whose first separator is a dot is read as
      IPv4, one whose first separator is a colon as IPv6, anything else is
      not an address. */
  function ParseIP(s: string): (r: Option<Addr>)
    ensures r.Some? ==> r.value.Valid()
  {
    match FirstSeparator(s)
    case None => None
    case Some(c) =>
      if c == '.' then
        match ParseIPv4(s)
        case None => None
        case Some(b) => Some(V4(b))
      else
        match ParseIPv6(s)
        case None => None
        case Some(b) => Some(V6(b))
  }

  lemma {:induction false} FirstSeparatorAfter(a: string, b: string, base: nat)
    requires AllDigitsOf(a, base)
    ensures FirstSeparator(a + b) == FirstSeparator(b)
  {
    if |a| > 0 {
      assert IsDigitOf(a[0], base);
      assert a[0] != '.' && a[0] != ':';
      assert (a + b)[0] == a[0] && (a + b)[1..] == a[1..] + b;
      assert AllDigitsOf(a[1..], base);
      FirstSeparatorAfter(a[1..], b, base);
      assert FirstSeparator(a + b) == FirstSeparator((a + b)[1..]);
    } else {
      assert a + b == b;
    }
  }

  /** The canonical text of any address parses back to that address. */
  lemma ParseFormat(a: Addr)
    requires a.Valid()
    ensures ParseIP(Format(a)) == Some(a)
  {
    match a
    case V4(b) =>
      var dec := Digits(b[0] as nat, 10);
      DigitsValue(b[0] as nat, 10);
      FirstSeparatorAfter(dec, DotTail(b, 1), 10);
      ParseFormatIPv4(b);
    case V6(b) =>
      var hex := Digits(Group(b, 0), 16);
      DigitsValue(Group(b, 0), 16);
      FirstSeparatorAfter(hex, ColonTail(b, 1, 8), 16);
      ParseFormatIPv6(b);
  }

  /** The text `Format` gives an address: a dotted quad for IPv4 and eight
      uncompressed groups for IPv6. */
  function Format(a: Addr): string
    requires a.Valid()
  {
    if a.V4? then FormatIPv4(a.bytes) else FormatIPv6(a.bytes)
  }

  /** Compressed IPv6 text goes through `ParseIP` to the address it
      denotes. */
  lemma ParseCompressed(b: seq<bv8>, i: nat, j: nat)
    requires |b| == 16 && i < j <= 8 && ZeroGroups(b, i, j)
    ensures ParseIP(FormatIPv6Compressed(b, i, j)) == Some(V6(b))
  {
    var s := FormatIPv6Compressed(b, i, j);
    CompressedSeparator(b, i, j);
    ParseFormatIPv6Compressed(b, i, j);
    hide *;
    ParseAsIPv6(s, b);
  }

  /** Text whose first separator is a colon and which reads as sixteen
      bytes is that IPv6 address. */
  lemma ParseAsIPv6(s: string, b: seq<bv8>)
    requires FirstSeparator(s) == Some(':') && ParseIPv6(s) == Some(b)
    ensures ParseIP(s) == Some(V6(b))
  {
    hide FirstSeparator, ParseIPv6;
  }

  /** The first separator of compressed text is a colon. */
  lemma CompressedSeparator(b: seq<bv8>, i: nat, j: nat)
    requires |b| == 16 && i < j <= 8
    ensures FirstSeparator(FormatIPv6Compressed(b, i, j)) == Some(':')
  {
    var right := if j == 8 then "" else GroupsText(b, j, 8);
    if i > 0 {
      var hex := Digits(Group(b, 0), 16);
      var rest := ColonTail(b, 1, i) + ("::" + right);
      CompressedAfterDigits(b, i, j);
      hide *;
      ColonTailStart(b, 1, i, "::" + right);
      FirstSeparatorAfter(hex, rest, 16);
      SeparatorFirst(rest);
    } else {
      CompressedFront(b, j);
      hide *;
      SeparatorFirst(FormatIPv6Compressed(b, i, j));
    }
  }

  /** Compressed text with groups before `::` is the first group's digits
      followed by a colon tail and the `::`. */
  lemma CompressedAfterDigits(b: seq<bv8>, i: nat, j: nat)
    requires |b| == 16 && 0 < i < j <= 8
    ensures var right := if j == 8 then "" else GroupsText(b, j, 8);
      var hex := Digits(Group(b, 0), 16);
      && FormatIPv6Compressed(b, i, j) == hex + (ColonTail(b, 1, i) + ("::" + right))
      && AllDigitsOf(hex, 16)
  {
    CompressedText(b, i, j);
    assert GroupsText(b, 0, i) == Digits(Group(b, 0), 16) + ColonTail(b, 1, i);
    DigitsValue(Group(b, 0), 16);
  }

  /** Compressed text without groups before `::` starts with a colon. */
  lemma CompressedFront(b: seq<bv8>, j: nat)
    requires |b| == 16 && 0 < j <= 8
    ensures var s := FormatIPv6Compressed(b, 0, j); 0 < |s| && s[0] == ':'
  {
  }

  /** A colon tail followed by text starting with a colon starts with a
      colon. */
  lemma ColonTailStart(b: seq<bv8>, k: nat, end: nat, t: string)
    requires |b| == 16 && k <= end <= 8 && 0 < |t| && t[0] == ':'
    ensures 0 < |ColonTail(b, k, end) + t| && (ColonTail(b, k, end) + t)[0] == ':'
  {
  }

  /** Text whose first separator is not a dot is never a dotted quad. */
  lemma IPv4NeedsDotFirst(s: string)
    requires FirstSeparator(s) != Some('.')
    ensures ParseIPv4(s) == None
  {
    var d := Scan(s, 10);
    if d.ok && d.value <= 255 {
      NoDotAfterNumber(s);
      hide FirstSeparator, Scan;
      assert Octets(s[d.len..], [d.value as bv8]) == None;
      assert Octets(s, []) == Octets(s[d.len..], [d.value as bv8]);
    }
  }

  /** In text whose first separator is not a dot, no dot follows the
      leading decimal number. */
  lemma NoDotAfterNumber(s: string)
    requires FirstSeparator(s) != Some('.')
    ensures var n := Scan(s, 10).len; n == |s| || s[n] != '.'
  {
    var n := Scan(s, 10).len;
    NumberPrefix(s);
    hide *;
    FirstSeparatorAfter(s[..n], s[n..], 10);
    if n < |s| {
      SeparatorFirst(s[n..]);
    }
  }

  /** The leading decimal number of `s` is a run of digits. */
  lemma NumberPrefix(s: string)
    ensures var n := Scan(s, 10).len; AllDigitsOf(s[..n], 10) && s == s[..n] + s[n..]
  {
    RunIsLongestDigitPrefix(s, 10);
  }

  /** A text starting with a separator has that one first. */
  lemma SeparatorFirst(t: string)
    requires 0 < |t|
    ensures t[0] == '.' || t[0] == ':' ==> FirstSeparator(t) == Some(t[0])
  {
  }

  // -------------------------------------------------------- address text

  /** The characters address text is made of: hexadecimal digits, dots and
      colons. */
  predicate AddrText(s: string) {
    forall i :: 0 <= i < |s| ==> IsHexDigit(s[i]) || s[i] == '.' || s[i] == ':'
  }

  lemma AddrTextConcat(x: string, y: string)
    requires AddrText(x) && AddrText(y)
    ensures AddrText(x + y)
  {
    forall i | 0 <= i < |x + y|
      ensures IsHexDigit((x + y)[i]) || (x + y)[i] == '.' || (x + y)[i] == ':'
    {
      if i >= |x| {
        assert (x + y)[i] == y[i - |x|];
      }
    }
  }

  lemma DigitsText(n: nat, base: nat)
    requires base == 10 || base == 16
    ensures AddrText(Digits(n, base))
  {
    DigitsValue(n, base);
  }

  lemma {:induction false} DotTailText(b: seq<bv8>, k: nat)
    requires k <= |b|
    ensures AddrText(DotTail(b, k))
    decreases |b| - k
  {
    if k < |b| {
      DigitsText(b[k] as nat, 10);
      DotTailText(b, k + 1);
      AddrTextConcat(".", Digits(b[k] as nat, 10));
      AddrTextConcat("." + Digits(b[k] as nat, 10), DotTail(b, k + 1));
    }
  }

  lemma {:induction false} GroupsTextText(b: seq<bv8>, k: nat, end: nat)
    requires |b| == 16 && k < end <= 8
    ensures AddrText(GroupsText(b, k, end))
    decreases end - k
  {
    var d := Digits(Group(b, k), 16);
    var t := ColonTail(b, k + 1, end);
    assert GroupsText(b, k, end) == d + t;
    DigitsText(Group(b, k), 16);
    if k + 1 < end {
      assert t == ":" + GroupsText(b, k + 1, end);
      assert AddrText(":");
      hide *;
      GroupsTextText(b, k + 1, end);
      AddrTextConcat(":", GroupsText(b, k + 1, end));
      AddrTextConcat(d, t);
    } else {
      assert d + t == d;
    }
  }

  /** Canonical address text is made of address characters only. */
  lemma FormatText(a: Addr)
    requires a.Valid()
    ensures AddrText(Format(a))
  {
    if a.V4? {
      DigitsText(a.bytes[0] as nat, 10);
      DotTailText(a.bytes, 1);
      AddrTextConcat(Digits(a.bytes[0] as nat, 10), DotTail(a.bytes, 1));
    } else {
      GroupsTextText(a.bytes, 0, 8);
    }
  }

  /** Compressed IPv6 text is made of address characters only. */
  lemma CompressedFormatText(b: seq<bv8>, i: nat, j: nat)
    requires |b| == 16 && i < j <= 8
    ensures AddrText(FormatIPv6Compressed(b, i, j))
  {
    var left := if i == 0 then "" else GroupsText(b, 0, i);
    var right := if j == 8 then "" else GroupsText(b, j, 8);
    if i > 0 { GroupsTextText(b, 0, i); }
    if j < 8 { GroupsTextText(b, j, 8); }
    AddrTextConcat(left, "::");
    AddrTextConcat(left + "::", right);
  }
}
