/** The console's address helpers: choosing the address to show for a
    network interface, and writing a DNS or web address with its port. */
module Addresses {
  import opened Results
  import opened Js
  import opened Helpers

  /** The standard ports, after which no port is written. */
  const StandardDnsPort := 53
  const StandardWebPort := 80

  // ---------------------------------------------------------------------------
  // getInterfaceIp

  /** An address written with a ':' is taken to be IPv6. */
  predicate IsV6(ip: string) {
    Includes(ip, ':')
  }

  /** `getInterfaceIp`: the last IPv4 address of the interface; the first
      address when all are IPv6; nothing (`undefined`) when there is no
      address at all. */
  method GetInterfaceIp(ips: seq<string>) returns (r: Option<string>)
    ensures ips == [] ==> r.None?
    ensures ips != [] && (forall i :: 0 <= i < |ips| ==> IsV6(ips[i])) ==> r == Some(ips[0])
    ensures (exists i :: 0 <= i < |ips| && !IsV6(ips[i])) ==>
              exists k :: 0 <= k < |ips| && r == Some(ips[k]) && !IsV6(ips[k])
                          && forall j :: k < j < |ips| ==> IsV6(ips[j])
  {
    // `every`: whether all addresses are IPv6
    var onlyV6 := true;
    var i := 0;
    while i < |ips|
      invariant 0 <= i <= |ips|
      invariant onlyV6 <==> forall j :: 0 <= j < i ==> IsV6(ips[j])
    {
      if !IsV6(ips[i]) {
        onlyV6 := false;
      }
      i := i + 1;
    }
    r := if ips == [] then None else Some(ips[0]);
    if !onlyV6 {
      // `forEach`: every IPv4 address overwrites the choice
      ghost var last := -1;
      i := 0;
      while i < |ips|
        invariant 0 <= i <= |ips|
        invariant -1 <= last < i
        invariant last >= 0 ==> r == Some(ips[last]) && !IsV6(ips[last])
        invariant forall j :: last < j < i ==> IsV6(ips[j])
      {
        if !IsV6(ips[i]) {
          r := Some(ips[i]);
          last := i;
        }
        i := i + 1;
      }
      assert last >= 0;
    }
  }

  // ---------------------------------------------------------------------------
  // getDnsAddress and getWebAddress

  /** `[ip]:port`, the form that keeps an IPv6 address apart from its port. */
  function Bracketed(ip: string, port: string): string {
    "[" + ip + "]:" + port
  }

  /** `ip:port`. */
  function Plain(ip: string, port: string): string {
    ip + ":" + port
  }

  /** Whether a port is written at all: it must be truthy and not the
      standard port, compared strictly (the text "53" is not the number). */
  predicate WritesPort(port: Value, standard: int) {
    Truthy(port) && port != Num(standard)
  }

  /** `getDnsAddress`: the bare address for a missing or standard port;
      otherwise the address with its port, bracketed when it is IPv6. */
  function GetDnsAddress(ip: string, port: Value): (address: string)
    ensures !WritesPort(port, StandardDnsPort) ==> address == ip
    ensures WritesPort(port, StandardDnsPort) && IsV6(ip) ==> address == Bracketed(ip, ToString(port))
    ensures WritesPort(port, StandardDnsPort) && !IsV6(ip) ==> address == Plain(ip, ToString(port))
  {
    if WritesPort(port, StandardDnsPort) then
      if IsV6(ip) then Bracketed(ip, ToString(port)) else Plain(ip, ToString(port))
    else ip
  }

  const Http := "http://"

  /** `getWebAddress`: `http://` and the address, with the port unless it is
      missing or standard; an IPv6 address is bracketed unless it already
      carries a bracket. */
  function GetWebAddress(ip: string, port: Value): (address: string)
    ensures |address| >= |Http| && address[..|Http|] == Http
    ensures !WritesPort(port, StandardWebPort) ==> address[|Http|..] == ip
    ensures WritesPort(port, StandardWebPort) && IsV6(ip) && !Includes(ip, '[') ==>
              address[|Http|..] == Bracketed(ip, ToString(port))
    ensures WritesPort(port, StandardWebPort) && !(IsV6(ip) && !Includes(ip, '[')) ==>
              address[|Http|..] == Plain(ip, ToString(port))
  {
    var rest :=
      if WritesPort(port, StandardWebPort) then
        if IsV6(ip) && !Includes(ip, '[') then Bracketed(ip, ToString(port)) else Plain(ip, ToString(port))
      else ip;
    SliceRight(Http, rest);
    Http + rest
  }

  // ---------------------------------------------------------------------------
  // Reading an address back

  /** Splits `host:port` or `[host]:port` at the port separator: after a
      leading bracket at the first ']', otherwise at the last ':'. */
  function HostPort(s: string): (r: Option<(string, string)>)
  {
    if s != [] && s[0] == '[' then
      match IndexOf(s, ']')
      case Some(k) =>
        if k + 1 < |s| && s[k + 1] == ':' then Some((s[1..k], s[k + 2..])) else None
      case None => None
    else
      match LastIndexOf(s, ':')
      case Some(k) => Some((s[..k], s[k + 1..]))
      case None => None
  }

  /** An address literal carries no brackets of its own. */
  predicate Unbracketed(ip: string) {
    '[' !in ip && ']' !in ip
  }

  lemma BracketedReadBack(ip: string, port: string)
    requires ']' !in ip
    ensures HostPort(Bracketed(ip, port)) == Some((ip, port))
  {
    var A := "[" + ip;
    var B := A + "]:";
    var s := B + port;
    assert s == Bracketed(ip, port);
    var k := |A|;
    SliceLeft(B, port, 0, |B|);
    assert s[..k] == A by {
      SliceLeft(B, port, 0, k);
      SliceLeft(A, "]:", 0, k);
    }
    assert s[1..k] == ip by {
      SliceLeft(B, port, 1, k);
      SliceLeft(A, "]:", 1, k);
      SliceRight("[", ip);
    }
    assert s[k] == ']' && s[k + 1] == ':';
    SliceRight(B, port);
    IndexOfAt(s, ']', k);
  }

  lemma PlainReadBack(ip: string, port: string)
    requires '[' !in ip && ':' !in port
    ensures HostPort(Plain(ip, port)) == Some((ip, port))
  {
    var A := ip + ":";
    var s := A + port;
    assert s == Plain(ip, port);
    assert s[0] != '[' by {
      if ip != [] {
        assert s[0] == ip[0];
      }
    }
    SliceRight(A, port);
    assert s[..|ip|] == ip by {
      SliceLeft(A, port, 0, |ip|);
    }
    LastIndexOfAt(s, ':', |ip|);
  }

  /** A written port never contains ':' when it is a number. */
  lemma NumberHasNoColon(n: int)
    ensures ':' !in IntToString(n)
  {
    var s := IntToString(n);
    assert forall i :: 0 <= i < |s| ==> s[i] == '-' || IsDigit(s[i]);
  }

  /** A DNS address with a written numeric port splits back into the
      address and the port, and `parseInt` reads the port back. */
  lemma DnsAddressReadBack(ip: string, n: int)
    requires Unbracketed(ip) && WritesPort(Num(n), StandardDnsPort)
    ensures var hp := HostPort(GetDnsAddress(ip, Num(n)));
            hp.Some? && hp.value.0 == ip && ParseInt(hp.value.1) == Num(n)
  {
    NumberHasNoColon(n);
    ParseIntRoundTrip(n);
    if IsV6(ip) {
      BracketedReadBack(ip, IntToString(n));
    } else {
      PlainReadBack(ip, IntToString(n));
    }
  }

  /** The same for a web address, after its `http://`. */
  lemma WebAddressReadBack(ip: string, n: int)
    requires Unbracketed(ip) && WritesPort(Num(n), StandardWebPort)
    ensures var hp := HostPort(GetWebAddress(ip, Num(n))[|Http|..]);
            hp.Some? && hp.value.0 == ip && ParseInt(hp.value.1) == Num(n)
  {
    NumberHasNoColon(n);
    ParseIntRoundTrip(n);
    if IsV6(ip) {
      BracketedReadBack(ip, IntToString(n));
    } else {
      PlainReadBack(ip, IntToString(n));
    }
  }

  /** The examples of the console: the standard DNS port is left out, any
      other port is written, IPv6 in brackets. */
  lemma DnsAddressExamples()
    ensures GetDnsAddress("127.0.0.1", Num(53)) == "127.0.0.1"
    ensures GetDnsAddress("127.0.0.1", Num(5353)) == "127.0.0.1:5353"
    ensures GetDnsAddress("::1", Num(5353)) == "[::1]:5353"
    ensures GetDnsAddress("127.0.0.1", Str("53")) == "127.0.0.1:53"
  {
    Text5353();
    assert !IsV6("127.0.0.1");
    assert IsV6("::1");
  }

  lemma Text5353()
    ensures ToString(Num(5353)) == "5353"
  {
    assert NatToString(5) == "5";
    assert NatToString(53) == NatToString(5) + "3";
    assert NatToString(535) == NatToString(53) + "5";
    assert NatToString(5353) == NatToString(535) + "3";
  }
}
