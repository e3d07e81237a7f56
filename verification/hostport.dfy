/** Go's net.SplitHostPort, which the proxy check uses to take the host
    out of the connection's remote address, and net.JoinHostPort, its
    inverse. */
module HostPort {
  import opened Wrappers
  import opened Strings

  const MissingPort := "missing port in address"
  const TooManyColons := "too many colons in address"
  const MissingBracket := "missing ']' in address"
  const UnexpectedOpenBracket := "unexpected '[' in address"
  const UnexpectedCloseBracket := "unexpected ']' in address"

  /** Splits `host:port` or `[host]:port` at the last colon. An unbracketed
      host may hold no colon; brackets may appear only around the host. */
  function SplitHostPort(hostport: string): (r: Result<(string, string), string>)
    ensures ':' !in hostport ==> r == Err(MissingPort)
    ensures r.Ok? ==> var (host, port) := r.value;
              && (|| (hostport == host + ":" + port && ':' !in host)
                  || hostport == "[" + host + "]:" + port)
              && '[' !in host && ']' !in host
              && ':' !in port && '[' !in port && ']' !in port
  {
    var i := LastIndexOf(hostport, ':');
    if i < 0 then Err(MissingPort)
    else if hostport[0] == '[' then
      var end := IndexOf(hostport, ']');
      if end < 0 then Err(MissingBracket)
      else if end + 1 == |hostport| then Err(MissingPort)
      else if end + 1 != i then
        if hostport[end + 1] == ':' then Err(TooManyColons) else Err(MissingPort)
      else
        assert hostport == "[" + hostport[1..end] + "]:" + hostport[i + 1..];
        CheckBrackets(hostport, hostport[1..end], 1, end + 1, i)
    else
      var host := hostport[..i];
      if ':' in host then Err(TooManyColons)
      else
        assert hostport == host + ":" + hostport[i + 1..];
        CheckBrackets(hostport, host, 0, 0, i)
  }

  /** The final checks of SplitHostPort: no '[' from position `j` on and no
      ']' from position `k` on; the port is what follows the colon at `i`. */
  function CheckBrackets(hostport: string, host: string, j: nat, k: nat, i: nat)
    : (r: Result<(string, string), string>)
    requires j <= k <= i < |hostport| && hostport[i] == ':' && ':' !in hostport[i + 1..]
    ensures r.Ok? ==> r.value == (host, hostport[i + 1..])
    ensures r.Ok? ==> '[' !in hostport[j..] && ']' !in hostport[k..]
  {
    if '[' in hostport[j..] then Err(UnexpectedOpenBracket)
    else if ']' in hostport[k..] then Err(UnexpectedCloseBracket)
    else Ok((host, hostport[i + 1..]))
  }

  /** Go's net.JoinHostPort: a host holding a colon is bracketed. */
  function JoinHostPort(host: string, port: string): (r: string) {
    if ':' in host then "[" + host + "]:" + port else host + ":" + port
  }

  lemma SplitBracketed(host: string, port: string)
    requires '[' !in host && ']' !in host
    requires ':' !in port && '[' !in port && ']' !in port
    ensures SplitHostPort("[" + host + "]:" + port) == Ok((host, port))
  {
    var s := "[" + host + "]:" + port;
    var end := |host| + 1;
    assert s[end + 2..] == port;
    LastIndexOfAt(s, ':', end + 1);
    assert s[..end] == "[" + host;
    IndexOfAt(s, ']', end);
    assert s[1..end] == host;
    assert s[1..] == host + "]:" + port;
    assert s[end + 1..] == ":" + port;
  }

  lemma SplitPlain(host: string, port: string)
    requires ':' !in host && '[' !in host && ']' !in host
    requires ':' !in port && '[' !in port && ']' !in port
    ensures SplitHostPort(host + ":" + port) == Ok((host, port))
  {
    var s := host + ":" + port;
    var i := |host|;
    assert s[i + 1..] == port && s[..i] == host;
    LastIndexOfAt(s, ':', i);
    assert s[0] != '[' by {
      if |host| > 0 { assert s[0] == host[0]; }
    }
    assert s[0..] == s;
  }

  /** Splitting undoes joining, for a host without brackets and a port
      without colons or brackets. */
  lemma SplitJoinHostPort(host: string, port: string)
    requires '[' !in host && ']' !in host
    requires ':' !in port && '[' !in port && ']' !in port
    ensures SplitHostPort(JoinHostPort(host, port)) == Ok((host, port))
  {
    if ':' in host {
      SplitBracketed(host, port);
    } else {
      SplitPlain(host, port);
    }
  }
}
