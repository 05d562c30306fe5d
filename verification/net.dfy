/** IP addresses as byte strings, after Go's `net.IP`, and the address
    parsers of the platform libraries, which this model takes as given. */
module Net {
  import opened Results

  type byte = bv8

  /** Go's `net.IP`: 4 bytes for the compact IPv4 form, 16 bytes otherwise. */
  type IP = seq<byte>

  const IPv4Len := 4
  const IPv6Len := 16

  /** The 12-byte prefix of an IPv4 address written in 16-byte form. */
  const V4InV6Prefix: seq<byte> := [0, 0, 0, 0, 0, 0, 0, 0, 0, 0, 0xff, 0xff]

  /** `net.IP.To4`: the 4-byte form of an IPv4 address, or nothing (nil)
      when the address is not IPv4. A 16-byte address is IPv4 when it
      starts with ten zero bytes and two 0xff bytes. */
  function To4(ip: IP): (r: Option<IP>)
    ensures r.Some? ==> |r.value| == IPv4Len
    ensures |ip| == IPv4Len ==> r == Some(ip)
    ensures |ip| != IPv4Len && |ip| != IPv6Len ==> r.None?
  {
    if |ip| == IPv4Len then Some(ip)
    else if |ip| == IPv6Len && ip[..12] == V4InV6Prefix then Some(ip[12..])
    else None
  }

  /** `net.IPv4(a, b, c, d)`: the 16-byte form of an IPv4 address. */
  function To16(ip: IP): (r: IP)
    requires |ip| == IPv4Len
    ensures |r| == IPv6Len
  {
    V4InV6Prefix + ip
  }

  /** Both spellings of an IPv4 address convert to the same compact form. */
  lemma To4OfTo16(ip: IP)
    requires |ip| == IPv4Len
    ensures To4(To16(ip)) == Some(ip)
  {
    assert To16(ip)[..12] == V4InV6Prefix;
    assert To16(ip)[12..] == ip;
  }

  /** A 16-byte address has a compact IPv4 form exactly when it is the
      16-byte spelling of that form. */
  lemma To4Inverse(ip: IP)
    requires |ip| == IPv6Len
    ensures To4(ip).Some? <==> exists v4: IP :: |v4| == IPv4Len && ip == To16(v4)
  {
    if To4(ip).Some? {
      assert ip == To16(ip[12..]);
    } else {
      forall v4: IP | |v4| == IPv4Len
        ensures ip != To16(v4)
      {
        To4OfTo16(v4);
      }
    }
  }

  /** The address routines of Go's standard library and of the DNS
      forwarder, which the model does not define: `net.ParseIP`,
      `net.IP.String`, whether `net.ParseCIDR` and `net.ParseMAC` accept a
      string, and whether `dnsforward.ValidateUpstreams` accepts a list. */
  datatype Library = Library(
    parseIP: string -> Option<IP>,
    formatIP: IP -> string,
    isCIDR: string -> bool,
    isMAC: string -> bool,
    validUpstreams: seq<string> -> bool)
}
