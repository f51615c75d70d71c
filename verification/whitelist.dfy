/** The IP whitelisting middleware: `NewIPWhitelister` turns a list of CIDR
    texts into an ordered list of ranges, and each request is let through
    to the next handler exactly when the client address it names lies in
    one of them; otherwise the answer is 403 Forbidden. */
module Whitelist {
  import opened Wrappers
  import opened Text
  import opened IPAddr
  import opened IPNet
  import opened HostPort

  // -------------------------------------------------------- construction

  /** Why a whitelister cannot be built. */
  datatype ConfigError =
    | NoWhitelists              // the list is nil or empty
    | InvalidCidr(entry: string) // the first entry that is not a CIDR

  /** The fixed text in front of the offending entry. Go prints the nil
      network it has at that point as `<nil>`. */
  const InvalidCidrPrefix: string := "parsing CIDR whitelist <nil>: invalid CIDR address: "

  /** The error text the caller sees. */
  function Message(e: ConfigError): string {
    match e
    case NoWhitelists => "no whitelists provided"
    case InvalidCidr(entry) => InvalidCidrPrefix + entry
  }

  /** Every range is well formed and has its host bits clear. */
  predicate ValidRanges(ranges: seq<Net>) {
    forall i :: 0 <= i < |ranges| ==> ranges[i].Valid() && HostBitsClear(ranges[i])
  }

  /** The middleware state: the ranges in configuration order and whether
      forwarding headers are trusted. Neither changes after construction. */
  datatype IPWhitelister = IPWhitelister(whitelists: seq<Net>, useHeader: bool) {
    predicate Valid() {
      |whitelists| > 0 && ValidRanges(whitelists)
    }
  }

  /** Entry `i` is the first one that is not a CIDR. */
  predicate FirstInvalid(entries: seq<string>, i: int) {
    && 0 <= i < |entries|
    && ParseCidr(entries[i]).None?
    && forall k :: 0 <= k < i ==> ParseCidr(entries[k]).Some?
  }

  /** A list has at most one first bad entry. */
  lemma FirstInvalidUnique(entries: seq<string>, i: int, j: int)
    requires FirstInvalid(entries, i) && FirstInvalid(entries, j)
    ensures i == j
  {
  }

  /** Parses the entries in order, stopping at the first that is not a
      CIDR. */
  function ParseAll(entries: seq<string>): (r: Result<seq<Net>, ConfigError>)
    ensures r.Success? ==> |r.value| == |entries|
    ensures r.Success? ==> forall i :: 0 <= i < |entries| ==> ParseCidr(entries[i]) == Some(r.value[i])
    ensures r.Failure? ==> exists i :: FirstInvalid(entries, i) && r.error == InvalidCidr(entries[i])
  {
    if |entries| == 0 then Success([])
    else
      match ParseCidr(entries[0])
      case None =>
        assert FirstInvalid(entries, 0);
        Failure(InvalidCidr(entries[0]))
      case Some(n) =>
        match ParseAll(entries[1..])
        case Failure(e) =>
          FirstInvalidLater(entries, e);
          Failure(e)
        case Success(ns) =>
          ParsedCons(entries, n, ns);
          Success([n] + ns)
  }

  /** A first bad entry after a good head is the first bad entry of the
      whole list. */
  lemma FirstInvalidLater(entries: seq<string>, e: ConfigError)
    requires |entries| > 0 && ParseCidr(entries[0]).Some?
    requires exists i :: FirstInvalid(entries[1..], i) && e == InvalidCidr(entries[1..][i])
    ensures exists i :: FirstInvalid(entries, i) && e == InvalidCidr(entries[i])
  {
    // Only which entries parse matters here, not how they parse.
    hide ParseCidr;
    var i :| FirstInvalid(entries[1..], i) && e == InvalidCidr(entries[1..][i]);
    assert forall k :: 1 <= k <= i ==> entries[k] == entries[1..][k - 1];
    assert FirstInvalid(entries, i + 1);
  }

  /** The networks of a good head and a good tail, in order. */
  lemma ParsedCons(entries: seq<string>, n: Net, ns: seq<Net>)
    requires |entries| > 0 && ParseCidr(entries[0]) == Some(n)
    requires |ns| == |entries| - 1
    requires forall i :: 0 <= i < |ns| ==> ParseCidr(entries[1..][i]) == Some(ns[i])
    ensures forall i :: 0 <= i < |entries| ==> ParseCidr(entries[i]) == Some(([n] + ns)[i])
  {
    // The parse results are taken as given; ParseCidr is never unfolded.
    hide ParseCidr;
    forall i | 0 <= i < |entries|
      ensures ParseCidr(entries[i]) == Some(([n] + ns)[i])
    {
      if i > 0 {
        assert entries[i] == entries[1..][i - 1];
      }
    }
  }

  /** Parsing succeeds exactly when every entry is a CIDR. */
  lemma ParseAllSucceeds(entries: seq<string>)
    ensures ParseAll(entries).Success? <==> forall i :: 0 <= i < |entries| ==> ParseCidr(entries[i]).Some?
  {
    // The contract of ParseAll says it all; unfolding either function
    // would only give the solver more to try.
    hide ParseCidr, ParseAll;
  }

  /** Go's `NewIPWhitelister`: a nil or empty list is refused, and so is a
      list with an entry that is not a CIDR, naming the first such entry;
      otherwise the ranges are kept in the order given. */
  function NewIPWhitelister(entries: seq<string>, useHeader: bool): (r: Result<IPWhitelister, ConfigError>)
    ensures r == Failure(NoWhitelists) <==> |entries| == 0
    ensures r.Failure? && |entries| > 0 ==> exists i :: FirstInvalid(entries, i) && r.error == InvalidCidr(entries[i])
    ensures r.Success? ==> r.value.Valid() && r.value.useHeader == useHeader
    ensures r.Success? ==> |r.value.whitelists| == |entries|
    ensures r.Success? ==> forall i :: 0 <= i < |entries| ==> ParseCidr(entries[i]) == Some(r.value.whitelists[i])
  {
    if |entries| == 0 then Failure(NoWhitelists)
    else
      match ParseAll(entries)
      case Failure(e) => Failure(e)
      case Success(ns) => Success(IPWhitelister(ns, useHeader))
  }

  // ------------------------------------------------------------ requests

  /** The parts of a request the middleware reads. A header that is not
      set reads as the empty text, as Go's `Header.Get` gives it. */
  datatype Request = Request(remoteAddr: string, xForwardedFor: string, xRealIp: string)

  /** What the middleware decides. */
  datatype Decision = Allow | Deny

  /** An address literal in brackets, taken from a header, without them. */
  function Unwrap(s: string): (r: string)
    ensures |r| <= |s|
  {
    if 2 <= |s| && s[0] == '[' && s[|s| - 1] == ']' then s[1..|s| - 1] else s
  }

  /** The address text the request names, or `None` when the remote address
      is not `host:port`. With header trust on, a non-empty
      `X-Forwarded-For` gives its last comma-separated element, trimmed;
      otherwise a non-empty `X-Real-Ip` is used; otherwise the host of the
      remote address. */
  function Candidate(useHeader: bool, req: Request): (r: Option<string>)
    ensures useHeader && req.xForwardedFor != "" ==> r.Some? && ',' !in r.value
    ensures useHeader && req.xForwardedFor == "" && req.xRealIp != "" ==> r.Some?
    ensures !useHeader || (req.xForwardedFor == "" && req.xRealIp == "") ==>
      (r.Some? <==> SplitHostPort(req.remoteAddr).Success?)
  {
    if useHeader && req.xForwardedFor != "" then
      var last := LastElement(req.xForwardedFor);
      OneHop(last);
      Some(Unwrap(TrimSpace(last)))
    else if useHeader && req.xRealIp != "" then
      Some(Unwrap(req.xRealIp))
    else
      match SplitHostPort(req.remoteAddr)
      case Failure(_) => None
      case Success(p) => Some(p.host)
  }

  /** Trimming and unwrapping one hop of `X-Forwarded-For` leaves no
      comma: the candidate is never a list. */
  lemma OneHop(s: string)
    requires ',' !in s
    ensures ',' !in Unwrap(TrimSpace(s))
  {
    var t := TrimSpace(s);
    var i, j :| 0 <= i <= j <= |s| && t == s[i..j] && SpaceBetween(s, 0, i) && SpaceBetween(s, j, |s|);
    NotInSlice(s, i, j, ',');
    if 2 <= |t| && t[0] == '[' && t[|t| - 1] == ']' {
      NotInSlice(t, 1, |t| - 1, ',');
    }
  }

  lemma NotInSlice(s: string, i: nat, j: nat, c: char)
    requires i <= j <= |s| && c !in s
    ensures c !in s[i..j]
  {
    assert forall k :: i <= k < j ==> s[i..j][k - i] == s[k];
  }

  /** Some range, tested the way Go's `IPNet.Contains` tests it, holds the
      address. */
  predicate Admits(ranges: seq<Net>, a: Addr)
    requires ValidRanges(ranges) && a.Valid()
  {
    exists i :: 0 <= i < |ranges| && Contains(ranges[i], a)
  }

  /** Some range has the same first bits as the address: the meaning of a
      whitelist. */
  predicate InSomeRange(ranges: seq<Net>, a: Addr)
    requires ValidRanges(ranges) && a.Valid()
  {
    exists i :: 0 <= i < |ranges| && InRange(ranges[i], a)
  }

  /** The decision for an address text: it must parse, and some range must
      hold it. */
  function DecideAddr(w: IPWhitelister, text: string): (d: Decision)
    requires w.Valid()
    ensures d == Allow <==> ParseIP(text).Some? && InSomeRange(w.whitelists, ParseIP(text).value)
  {
    match ParseIP(text)
    case None => Deny
    case Some(a) =>
      AdmitsIffInSomeRange(w.whitelists, a);
      if Admits(w.whitelists, a) then Allow else Deny
  }

  /** The decision for a request: it is let through exactly when it names
      an address text that parses to an address sharing its first bits with
      some range. Every other request, among them every one naming text that
      is not an address or naming none, is denied: the middleware fails
      closed. */
  function Decide(w: IPWhitelister, req: Request): (d: Decision)
    requires w.Valid()
    ensures d == Allow <==>
      var c := Candidate(w.useHeader, req);
      c.Some? && ParseIP(c.value).Some? && InSomeRange(w.whitelists, ParseIP(c.value).value)
  {
    match Candidate(w.useHeader, req)
    case None => Deny
    case Some(text) => DecideAddr(w, text)
  }

  // ----------------------------------------------------------- responses

  /** A response as the client sees it. */
  datatype Response = Response(status: nat, body: string)

  /** What a denied request gets: status 403 and the status text. */
  const Forbidden: Response := Response(403, "Forbidden")

  /** Go's `ServeHTTP`: resolve the candidate, parse it, try the ranges in
      order, and hand over to the next handler, whose response is `next`, at
      the first that holds the address. */
  method ServeHTTP(w: IPWhitelister, req: Request, next: Response) returns (resp: Response)
    requires w.Valid()
    ensures Decide(w, req) == Allow ==> resp == next
    ensures Decide(w, req) == Deny ==> resp == Forbidden
  {
    // The loop reasons through the contracts of ContainsLoop and
    // ContainsIffInRange; the definitions themselves are not needed.
    hide Candidate, ParseIP, Contains, InRange;
    var candidate := Candidate(w.useHeader, req);
    if candidate.None? {
      return Forbidden;
    }
    var ip := ParseIP(candidate.value);
    if ip.None? {
      return Forbidden;
    }
    var a := ip.value;
    var i := 0;
    while i < |w.whitelists|
      invariant 0 <= i <= |w.whitelists|
      invariant forall k :: 0 <= k < i ==> !InRange(w.whitelists[k], a)
    {
      var inside := ContainsLoop(w.whitelists[i], a);
      if inside {
        ContainsIffInRange(w.whitelists[i], a);
        return next;
      }
      i := i + 1;
    }
    forall k | 0 <= k < |w.whitelists| {
      ContainsIffInRange(w.whitelists[k], a);
    }
    return Forbidden;
  }

  // ------------------------------------------------ construction lemmas

  /** Construction fails exactly when the list is empty or some entry is
      not a CIDR; the error text names the first such entry. */
  lemma ConstructionFails(entries: seq<string>, useHeader: bool)
    ensures NewIPWhitelister(entries, useHeader).Failure? <==>
      |entries| == 0 || exists i :: 0 <= i < |entries| && ParseCidr(entries[i]).None?
    ensures var r := NewIPWhitelister(entries, useHeader);
      r.Failure? && |entries| > 0 ==>
        exists i :: FirstInvalid(entries, i) && Message(r.error) == InvalidCidrPrefix + entries[i]
  {
    ParseAllSucceeds(entries);
  }

  /** Appending entries keeps every request that was let through let
      through. */
  lemma MoreEntriesNeverDeny(entries: seq<string>, extra: seq<string>, useHeader: bool, req: Request)
    requires NewIPWhitelister(entries, useHeader).Success?
    requires NewIPWhitelister(entries + extra, useHeader).Success?
    ensures var w, w2 := NewIPWhitelister(entries, useHeader).value, NewIPWhitelister(entries + extra, useHeader).value;
      Decide(w, req) == Allow ==> Decide(w2, req) == Allow
  {
    var w, w2 := NewIPWhitelister(entries, useHeader).value, NewIPWhitelister(entries + extra, useHeader).value;
    forall n | n in w.whitelists
      ensures n in w2.whitelists
    {
      var i :| 0 <= i < |w.whitelists| && w.whitelists[i] == n;
      assert (entries + extra)[i] == entries[i];
      assert w2.whitelists[i] == n;
    }
    MoreRangesNeverDeny(w, w2, req);
  }

  // ---------------------------------------------------- decision lemmas

  /** Go's byte-wise test and the prefix meaning pick the same ranges. */
  lemma AdmitsIffInSomeRange(ranges: seq<Net>, a: Addr)
    requires ValidRanges(ranges) && a.Valid()
    ensures Admits(ranges, a) <==> InSomeRange(ranges, a)
  {
    forall i | 0 <= i < |ranges| {
      ContainsIffInRange(ranges[i], a);
    }
  }

  /** Without header trust the headers change nothing: only the remote
      address counts. */
  lemma HeadersIgnoredWithoutTrust(w: IPWhitelister, req1: Request, req2: Request)
    requires w.Valid() && !w.useHeader && req1.remoteAddr == req2.remoteAddr
    ensures Decide(w, req1) == Decide(w, req2)
  {
  }

  /** With header trust, a non-empty `X-Forwarded-For` decides alone: the
      remote address changes nothing, and under the assumed header order of
      `Candidate` neither does `X-Real-Ip`. */
  lemma ForwardedForDecides(w: IPWhitelister, req1: Request, req2: Request)
    requires w.Valid() && w.useHeader
    requires req1.xForwardedFor == req2.xForwardedFor != ""
    ensures Decide(w, req1) == Decide(w, req2)
  {
  }

  /** With header trust and no `X-Forwarded-For`, a non-empty `X-Real-Ip`
      decides alone. */
  lemma RealIpDecides(w: IPWhitelister, req1: Request, req2: Request)
    requires w.Valid() && w.useHeader
    requires req1.xForwardedFor == req2.xForwardedFor == ""
    requires req1.xRealIp == req2.xRealIp != ""
    ensures Decide(w, req1) == Decide(w, req2)
  {
  }

  /** Only the last hop of `X-Forwarded-For` counts: earlier hops and the
      remote address make no difference, and under the assumed header order
      of `Candidate` neither does `X-Real-Ip`. */
  lemma LastHopOnly(w: IPWhitelister, earlier: string, last: string, remote1: string, remote2: string, realIp1: string, realIp2: string)
    requires w.Valid() && w.useHeader && ',' !in last && last != ""
    ensures Decide(w, Request(remote1, earlier + "," + last, realIp1)) == Decide(w, Request(remote2, last, realIp2))
  {
    LastElementAfter(earlier, last);
    LastElementOfOne(last);
  }

  /** Without trusted headers, a request from `host:port` is decided by
      its host alone. */
  lemma RemoteHostDecides(w: IPWhitelister, host: string, port: string, forwardedFor: string, realIp: string)
    requires w.Valid() && Clean(Parts(host, port))
    requires !w.useHeader || (forwardedFor == "" && realIp == "")
    ensures Decide(w, Request(JoinHostPort(Parts(host, port)), forwardedFor, realIp)) == DecideAddr(w, host)
  {
    SplitJoin(Parts(host, port));
  }

  /** With header trust, a one-element `X-Forwarded-For` without surrounding
      white space or brackets is decided as that address text. */
  lemma ForwardedHostDecides(w: IPWhitelister, remote: string, host: string, realIp: string)
    requires w.Valid() && w.useHeader && host != "" && ',' !in host
    requires !IsSpace(host[0]) && !IsSpace(host[|host| - 1]) && host[0] != '['
    ensures Decide(w, Request(remote, host, realIp)) == DecideAddr(w, host)
  {
    LastElementOfOne(host);
    TrimSpaceUnspaced(host);
  }

  /** With header trust and no `X-Forwarded-For`, an `X-Real-Ip` without
      brackets is decided as that address text. */
  lemma RealIpHostDecides(w: IPWhitelister, remote: string, host: string)
    requires w.Valid() && w.useHeader && host != "" && host[0] != '['
    ensures Decide(w, Request(remote, "", host)) == DecideAddr(w, host)
  {
  }

  /** More ranges never turn an allowed request away. */
  lemma MoreRangesNeverDeny(w: IPWhitelister, w2: IPWhitelister, req: Request)
    requires w.Valid() && w2.Valid() && w.useHeader == w2.useHeader
    requires forall n :: n in w.whitelists ==> n in w2.whitelists
    ensures Decide(w, req) == Allow ==> Decide(w2, req) == Allow
  {
    // Both decisions share the candidate and its parse; only the ranges
    // differ, so neither definition has to be unfolded.
    hide Candidate, ParseIP;
    match Candidate(w.useHeader, req)
    case None =>
    case Some(t) =>
      match ParseIP(t)
      case None =>
      case Some(a) => AdmitsMonotone(w.whitelists, w2.whitelists, a);
  }

  /** An address some range holds is held by any list containing that
      range. */
  lemma AdmitsMonotone(ranges: seq<Net>, ranges2: seq<Net>, a: Addr)
    requires ValidRanges(ranges) && ValidRanges(ranges2) && a.Valid()
    requires forall n :: n in ranges ==> n in ranges2
    ensures Admits(ranges, a) ==> Admits(ranges2, a)
  {
    // The same range is in both lists; what it holds does not matter.
    hide Contains;
    if Admits(ranges, a) {
      var i :| 0 <= i < |ranges| && Contains(ranges[i], a);
      assert ranges[i] in ranges2;
      var j :| 0 <= j < |ranges2| && ranges2[j] == ranges[i];
      assert Contains(ranges2[j], a);
    }
  }

  /** The order of the ranges does not matter to the decision; it only
      decides which bad entry a construction error names. */
  lemma OrderIrrelevant(w: IPWhitelister, w2: IPWhitelister, req: Request)
    requires w.Valid() && w2.Valid() && w.useHeader == w2.useHeader
    requires multiset(w.whitelists) == multiset(w2.whitelists)
    ensures Decide(w, req) == Decide(w2, req)
  {
    assert forall n :: n in w.whitelists <==> n in multiset(w.whitelists);
    assert forall n :: n in w2.whitelists <==> n in multiset(w2.whitelists);
    MoreRangesNeverDeny(w, w2, req);
    MoreRangesNeverDeny(w2, w, req);
  }
}
