/**
 * `ReadUserIP` of 6.Simple_Rate_Limiter/go/util/util.go: the client address a
 * limiter keys its state by, taken from the X-Real-IP header, else the first
 * entry of X-Forwarded-For, else the host part of the connection's address.
 *
 * Go's `net.SplitHostPort`, which the last step relies on, is modelled here
 * as well, from the behaviour of the Go standard library; its partner is
 * `JoinHostPort`.  Strings are sequences of characters standing for Go's bytes.
 */
module ClientIp {
  import opened Wrappers

  /** The parts of an `http.Request` that `ReadUserIP` looks at: the values
    * `Header.Get` returns ("" when absent) and `RemoteAddr`. */
  datatype Request = Request(xRealIp: string, xForwardedFor: string, remoteAddr: string)

  /** The first position of `c` in `s`, or -1 (`strings.IndexByte`). */
  function IndexOf(s: string, c: char): (i: int)
    ensures -1 <= i < |s|
    ensures 0 <= i ==> s[i] == c && c !in s[..i]
    ensures i < 0 ==> c !in s
  {
    if s == [] then -1
    else if s[0] == c then 0
    else
      var j := IndexOf(s[1..], c);
      assert s == [s[0]] + s[1..];
      if j < 0 then -1
      else
        assert s[..j + 1] == [s[0]] + s[1..][..j];
        j + 1
  }

  /** The last position of `c` in `s`, or -1 (`strings.LastIndexByte`). */
  function LastIndexOf(s: string, c: char): (i: int)
    ensures -1 <= i < |s|
    ensures 0 <= i ==> s[i] == c && c !in s[i + 1..]
    ensures i < 0 ==> c !in s
  {
    if s == [] then -1
    else if s[|s| - 1] == c then |s| - 1
    else
      var init := s[..|s| - 1];
      var j := LastIndexOf(init, c);
      assert s == init + [s[|s| - 1]];
      if j < 0 then -1
      else
        assert s[j + 1..] == init[j + 1..] + [s[|s| - 1]];
        j
  }

  /** `strings.Split(s, ",")[0]`: the text before the first comma, or all of
    * `s` when it has none. */
  function BeforeComma(s: string): (r: string)
    ensures r <= s && ',' !in r
    ensures |r| < |s| ==> s[|r|] == ','
  {
    if s == [] || s[0] == ',' then []
    else
      assert s == [s[0]] + s[1..];
      [s[0]] + BeforeComma(s[1..])
  }

  /** `net.AddrError`: why an address was refused, and the address. */
  datatype AddrError = AddrError(err: string, addr: string)

  const MissingPort := "missing port in address"
  const TooManyColons := "too many colons in address"

  /** `net.SplitHostPort`: splits "host:port" or "[host]:port" at the last
    * colon.  A bracketed host may hold colons; any other stray colon or
    * bracket is refused. */
  function SplitHostPort(hostport: string): Result<(string, string), AddrError>
  {
    var i := LastIndexOf(hostport, ':');
    if i < 0 then Failure(AddrError(MissingPort, hostport))
    else if hostport[0] == '[' then SplitBracketed(hostport, i)
    else SplitPlain(hostport, i)
  }

  /** The split of "[host]:port", whose last colon is at `i`: the first ']'
    * must come just before it. */
  function SplitBracketed(hostport: string, i: int): Result<(string, string), AddrError>
    requires 0 <= i < |hostport| && hostport[0] == '['
  {
    var end := IndexOf(hostport, ']');
    if end < 0 then Failure(AddrError("missing ']' in address", hostport))
    else if end + 1 == |hostport| then Failure(AddrError(MissingPort, hostport))
    else if end + 1 != i then
      Failure(AddrError(if hostport[end + 1] == ':' then TooManyColons else MissingPort, hostport))
    else if IndexOf(hostport[1..], '[') >= 0 then Failure(AddrError("unexpected '[' in address", hostport))
    else if IndexOf(hostport[end + 1..], ']') >= 0 then Failure(AddrError("unexpected ']' in address", hostport))
    else Success((hostport[1..end], hostport[i + 1..]))
  }

  /** The split of "host:port", whose last colon is at `i`: the host may
    * hold no colon. */
  function SplitPlain(hostport: string, i: int): Result<(string, string), AddrError>
    requires 0 <= i < |hostport|
  {
    if IndexOf(hostport[..i], ':') >= 0 then Failure(AddrError(TooManyColons, hostport))
    else if IndexOf(hostport, '[') >= 0 then Failure(AddrError("unexpected '[' in address", hostport))
    else if IndexOf(hostport, ']') >= 0 then Failure(AddrError("unexpected ']' in address", hostport))
    else Success((hostport[..i], hostport[i + 1..]))
  }

  /** A character missing from a suffix is missing from every slice of it. */
  lemma NotInSlice(s: string, c: char, a: int, b: int, d: int)
    requires 0 <= a <= b <= d <= |s| && c !in s[a..]
    ensures c !in s[b..d]
  {
    forall k | b <= k < d
      ensures s[k] != c
    {
      assert s[k] == s[a..][k - a];
    }
  }

  /** A well-formed "host:port" or "[host]:port": the port holds no colon,
    * neither part a bracket, and an unbracketed host no colon. */
  ghost predicate HostPort(hostport: string, host: string, port: string)
  {
    ((hostport == host + ":" + port && ':' !in host) || hostport == "[" + host + "]:" + port) &&
    ':' !in port && '[' !in host && '[' !in port && ']' !in host && ']' !in port
  }

  lemma SplitBracketedSound(hostport: string, i: int)
    requires 0 <= i < |hostport| && hostport[i] == ':' && ':' !in hostport[i + 1..] && hostport[0] == '['
    requires SplitBracketed(hostport, i).Success?
    ensures HostPort(hostport, SplitBracketed(hostport, i).value.0, SplitBracketed(hostport, i).value.1)
  {
    var (host, port) := SplitBracketed(hostport, i).value;
    var end := IndexOf(hostport, ']');
    var n := |hostport|;
    assert host == hostport[1..end] && port == hostport[i + 1..n];
    assert hostport == hostport[..1] + host + hostport[end..i + 1] + port;
    assert hostport[end..i + 1] == "]:";
    NotInSlice(hostport, '[', 1, 1, end);
    NotInSlice(hostport, '[', 1, i + 1, n);
    NotInSlice(hostport, ']', end + 1, i + 1, n);
  }

  lemma SplitPlainSound(hostport: string, i: int)
    requires 0 <= i < |hostport| && hostport[i] == ':' && ':' !in hostport[i + 1..]
    requires SplitPlain(hostport, i).Success?
    ensures HostPort(hostport, SplitPlain(hostport, i).value.0, SplitPlain(hostport, i).value.1)
  {
    var (host, port) := SplitPlain(hostport, i).value;
    var n := |hostport|;
    assert host == hostport[..i] && port == hostport[i + 1..n];
    assert hostport == host + [hostport[i]] + port;
    NotInSlice(hostport, '[', 0, 0, i);
    NotInSlice(hostport, '[', 0, i + 1, n);
    NotInSlice(hostport, ']', 0, 0, i);
    NotInSlice(hostport, ']', 0, i + 1, n);
  }

  /** What a successful split means (`HostPort`); an address without a
    * colon is refused for its missing port. */
  lemma SplitHostPortSound(hostport: string)
    ensures SplitHostPort(hostport).Success? ==>
      HostPort(hostport, SplitHostPort(hostport).value.0, SplitHostPort(hostport).value.1)
    ensures ':' !in hostport ==> SplitHostPort(hostport) == Failure(AddrError(MissingPort, hostport))
  {
    if SplitHostPort(hostport).Success? {
      var i := LastIndexOf(hostport, ':');
      if hostport[0] == '[' {
        SplitBracketedSound(hostport, i);
      } else {
        SplitPlainSound(hostport, i);
      }
    }
  }

  /** `net.JoinHostPort`: brackets a host that holds a colon. */
  function JoinHostPort(host: string, port: string): string
  {
    if ':' in host then "[" + host + "]:" + port else host + ":" + port
  }

  /** Splitting a joined address gives back its host and port, provided
    * neither holds a bracket and the port holds no colon. */
  lemma SplitJoin(host: string, port: string)
    requires '[' !in host && '[' !in port && ']' !in host && ']' !in port && ':' !in port
    ensures SplitHostPort(JoinHostPort(host, port)) == Success((host, port))
  {
    var s := JoinHostPort(host, port);
    var n := |host|;
    if ':' in host {
      assert s[n + 2] == ':' && s[n + 3..] == port;
      assert LastIndexOf(s, ':') == n + 2;
      SplitJoinBracketed(host, port);
    } else {
      assert s[n] == ':' && s[n + 1..] == port;
      assert LastIndexOf(s, ':') == n;
      assert s[..n] == host;
    }
  }

  lemma SplitJoinBracketed(host: string, port: string)
    requires '[' !in host && '[' !in port && ']' !in host && ']' !in port && ':' !in port
    ensures SplitBracketed("[" + host + "]:" + port, |host| + 2) == Success((host, port))
  {
    var s := "[" + host + "]:" + port;
    var n := |host|;
    assert s[n + 1] == ']' && s[..n + 1] == "[" + host;
    assert IndexOf(s, ']') == n + 1;
    assert s[1..n + 1] == host;
    assert s[1..] == host + "]:" + port;
    assert s[n + 2..] == ":" + port;
    assert s[n + 3..] == port;
  }

  /** `ReadUserIP`. */
  function ReadUserIP(r: Request): (ip: string)
    ensures r.xRealIp != "" ==> ip == r.xRealIp
    ensures r.xRealIp == "" && r.xForwardedFor != "" && r.xForwardedFor[0] != ',' ==>
      ip != "" && ip <= r.xForwardedFor && ',' !in ip &&
      (|ip| < |r.xForwardedFor| ==> r.xForwardedFor[|ip|] == ',')
    ensures r.xRealIp == "" && (r.xForwardedFor == "" || r.xForwardedFor[0] == ',') ==>
      ip == (if SplitHostPort(r.remoteAddr).Success? then SplitHostPort(r.remoteAddr).value.0 else r.remoteAddr)
  {
    var fromHeaders := if r.xRealIp != "" then r.xRealIp
                       else if r.xForwardedFor != "" then BeforeComma(r.xForwardedFor)
                       else "";
    if fromHeaders != "" then fromHeaders
    else
      match SplitHostPort(r.remoteAddr)
      case Success((host, _)) => host
      case Failure(_) => r.remoteAddr
  }
}
