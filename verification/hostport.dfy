/** The `host:port` text of a request's remote address, as Go's
    `net.SplitHostPort` and `net.JoinHostPort` read and write it. An IPv6
    host is written in brackets.

    Proofs in this module and the ones that use it `hide` the definitions
    they need not unfold, so that the solver works from the contracts of
    the lemmas they call; that keeps the larger proofs within bounds. */
module HostPort {
  import opened Wrappers
  import opened Text

  /** The reasons `SplitHostPort` gives for refusing a text. */
  datatype SplitError =
    | MissingPort       // "missing port in address"
    | TooManyColons     // "too many colons in address"
    | MissingClose      // "missing ']' in address"
    | UnexpectedOpen    // "unexpected '[' in address"
    | UnexpectedClose   // "unexpected ']' in address"

  datatype Parts = Parts(host: string, port: string)

  /** Host and port that a split can produce: no brackets in either, and no
      colon in the port. */
  predicate Clean(p: Parts) {
    '[' !in p.host && ']' !in p.host && ':' !in p.port && '[' !in p.port && ']' !in p.port
  }

  /** Go's `JoinHostPort`: a host with a colon goes in brackets. */
  function JoinHostPort(p: Parts): (r: string)
    ensures |p.port| < |r| && r[|r| - |p.port|..] == p.port
    ensures ':' !in p.port ==> LastIndexOf(r, ':') == Some(|r| - |p.port| - 1)
    ensures Clean(p) ==> (r[0] == '[' <==> ':' in p.host)
  {
    var pre := if ':' in p.host then "[" + p.host + "]" else p.host;
    JoinFacts(p, pre);
    pre + ":" + p.port
  }

  lemma JoinFacts(p: Parts, pre: string)
    requires pre == if ':' in p.host then "[" + p.host + "]" else p.host
    ensures var r := pre + ":" + p.port;
      && |p.port| < |r| && r[|r| - |p.port|..] == p.port
      && (':' !in p.port ==> LastIndexOf(r, ':') == Some(|r| - |p.port| - 1))
      && (Clean(p) ==> (r[0] == '[' <==> ':' in p.host))
  {
    PortAfterColon(pre, p.port);
    BracketFirst(p, pre);
  }

  /** A joined text starts with `[` exactly when the host was bracketed. */
  lemma BracketFirst(p: Parts, pre: string)
    requires pre == if ':' in p.host then "[" + p.host + "]" else p.host
    ensures Clean(p) ==> ((pre + ":" + p.port)[0] == '[' <==> ':' in p.host)
  {
    if Clean(p) && ':' !in p.host && |p.host| > 0 {
      assert p.host[0] in p.host;
    }
  }

  /** In `pre:port` the port follows the colon, which is the last one when
      the port has none. */
  lemma PortAfterColon(pre: string, port: string)
    ensures var r := pre + ":" + port;
      && |port| < |r| && r[|r| - |port|..] == port && r[|pre|] == ':'
      && (':' !in port ==> LastIndexOf(r, ':') == Some(|pre|))
  {
    var r := pre + ":" + port;
    assert r[|pre| + 1..] == port;
    if ':' !in port {
      LastIndexOfAt(r, ':', |pre|);
    }
  }

  /** `SplitHostPort` on a text starting with `[`, whose last colon is at
      `i`: the first `]` must come just before that colon; no `[` may follow
      the opening one and no `]` the colon. */
  function SplitBracketedHost(s: string, i: nat): (r: Result<Parts, SplitError>)
    requires i < |s| && s[i] == ':' && ':' !in s[i + 1..] && s[0] == '['
    ensures r.Success? ==> Clean(r.value) && s == "[" + r.value.host + "]:" + r.value.port
  {
    match IndexOf(s, ']')
    case None => Failure(MissingClose)
    case Some(end) =>
      if end + 1 == |s| then Failure(MissingPort)
      else if end + 1 == i then
        if '[' in s[1..] then Failure(UnexpectedOpen)
        else if ']' in s[i..] then Failure(UnexpectedClose)
        else
          assert s == "[" + s[1..end] + "]:" + s[i + 1..];
          assert forall c :: c in s[1..end] ==> c in s[1..];
          assert forall c :: c in s[i + 1..] ==> c in s[1..] && c in s[i..];
          Success(Parts(s[1..end], s[i + 1..]))
      else if s[end + 1] == ':' then Failure(TooManyColons)
      else Failure(MissingPort)
  }

  /** `SplitHostPort` on any other text whose last colon is at `i`: the host
      before it may hold no colon, and no bracket may appear at all. */
  function SplitPlainHost(s: string, i: nat): (r: Result<Parts, SplitError>)
    requires i < |s| && s[i] == ':' && ':' !in s[i + 1..]
    ensures r.Success? ==> Clean(r.value) && ':' !in r.value.host && s == r.value.host + ":" + r.value.port
  {
    if ':' in s[..i] then Failure(TooManyColons)
    else if '[' in s then Failure(UnexpectedOpen)
    else if ']' in s then Failure(UnexpectedClose)
    else
      assert s == s[..i] + ":" + s[i + 1..];
      assert forall c :: c in s[..i] ==> c in s;
      assert forall c :: c in s[i + 1..] ==> c in s;
      Success(Parts(s[..i], s[i + 1..]))
  }

  /** Go's `SplitHostPort`: the port follows the last colon; a host in
      brackets must end just before it, any other host must hold no colon;
      brackets may appear nowhere else. */
  function SplitHostPort(s: string): (r: Result<Parts, SplitError>)
    ensures r.Success? ==> Clean(r.value)
    ensures r.Success? ==> s == JoinHostPort(r.value) || s == "[" + r.value.host + "]:" + r.value.port
  {
    match LastIndexOf(s, ':')
    case None => Failure(MissingPort)
    case Some(i) =>
      if s[0] == '[' then SplitBracketedHost(s, i) else SplitPlainHost(s, i)
  }

  /** Splitting undoes joining whenever the parts are clean. */
  lemma SplitJoin(p: Parts)
    requires Clean(p)
    ensures SplitHostPort(JoinHostPort(p)) == Success(p)
  {
    JoinForms(p);
    // The two forms of the join are all that is needed of it.
    hide *;
    if ':' in p.host {
      SplitBracketedForm(p);
    } else {
      SplitPlainForm(p);
    }
  }

  lemma JoinForms(p: Parts)
    ensures ':' in p.host ==> JoinHostPort(p) == "[" + p.host + "]:" + p.port
    ensures ':' !in p.host ==> JoinHostPort(p) == p.host + ":" + p.port
  {
  }

  /** A clean host without a colon followed by a port splits into the
      two. */
  lemma SplitPlainForm(p: Parts)
    requires Clean(p) && ':' !in p.host
    ensures SplitHostPort(p.host + ":" + p.port) == Success(p)
  {
    PlainText(p);
    var s := p.host + ":" + p.port;
    // The positions come from PlainText; unfolding the searches again
    // would only give the solver more to try.
    hide IndexOf, LastIndexOf;
    assert SplitHostPort(s) == SplitPlainHost(s, |p.host|);
  }

  /** Where the colon and the brackets are in `host:port`. */
  lemma PlainText(p: Parts)
    requires Clean(p) && ':' !in p.host
    ensures var s := p.host + ":" + p.port;
      && LastIndexOf(s, ':') == Some(|p.host|)
      && s[..|p.host|] == p.host && s[|p.host| + 1..] == p.port
      && (s[0] == '[' <==> false)
      && '[' !in s && ']' !in s
  {
    var s := p.host + ":" + p.port;
    assert s[|p.host| + 1..] == p.port;
    LastIndexOfAt(s, ':', |p.host|);
    assert s[..|p.host|] == p.host;
    if |p.host| > 0 {
      assert s[0] == p.host[0];
    }
  }

  /** A clean host in brackets followed by a port splits into the two, also
      when the host holds no colon. */
  lemma SplitBracketedForm(p: Parts)
    requires Clean(p)
    ensures SplitHostPort("[" + p.host + "]:" + p.port) == Success(p)
  {
    BracketedText(p);
    var s := "[" + p.host + "]:" + p.port;
    // The positions come from BracketedText, as in SplitJoin.
    hide IndexOf, LastIndexOf;
    assert SplitHostPort(s) == SplitBracketedHost(s, |p.host| + 2);
  }

  /** Where the colon and the brackets are in `[host]:port`. */
  lemma BracketedText(p: Parts)
    requires Clean(p)
    ensures var s, n := "[" + p.host + "]:" + p.port, |p.host|;
      && s[0] == '[' && n + 2 < |s| && s[n + 2] == ':'
      && IndexOf(s, ']') == Some(n + 1) && LastIndexOf(s, ':') == Some(n + 2)
      && s[1..n + 1] == p.host && s[n + 3..] == p.port
      && '[' !in s[1..] && ']' !in s[n + 2..]
  {
    BracketedSlices(p);
    var s := "[" + p.host + "]:" + p.port;
    var n := |p.host|;
    // From here on only the facts of BracketedSlices and of the two lemmas
    // below are needed; hiding every definition keeps the proof small.
    hide *;
    IndexOfAt(s, ']', n + 1);
    LastIndexOfAt(s, ':', n + 2);
  }

  /** The pieces of `[host]:port`. */
  lemma BracketedSlices(p: Parts)
    requires Clean(p)
    ensures var s, n := "[" + p.host + "]:" + p.port, |p.host|;
      && s[0] == '[' && n + 2 < |s| && s[n + 1] == ']' && s[n + 2] == ':'
      && s[1..n + 1] == p.host && s[n + 3..] == p.port
      && ']' !in s[..n + 1] && ':' !in s[n + 3..]
      && '[' !in s[1..] && ']' !in s[n + 2..]
  {
    var s := "[" + p.host + "]:" + p.port;
    var n := |p.host|;
    assert s[..n + 1] == "[" + p.host;
    assert s[n + 3..] == p.port;
    assert s[1..] == p.host + "]:" + p.port;
    assert s[n + 2..] == ":" + p.port;
    assert s[1..n + 1] == p.host;
  }

  /** Exactly the joined and the bracketed forms of clean parts split, and
      they split into those parts. */
  lemma SplitHostPortIff(s: string, p: Parts)
    ensures SplitHostPort(s) == Success(p) <==>
      Clean(p) && (s == JoinHostPort(p) || s == "[" + p.host + "]:" + p.port)
  {
    if Clean(p) {
      if s == JoinHostPort(p) {
        SplitJoin(p);
      } else if s == "[" + p.host + "]:" + p.port {
        SplitBracketedForm(p);
      }
    }
  }
}
