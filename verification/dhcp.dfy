/** The DHCP server's address helpers: picking an interface's IPv4 network,
    parsing an IPv4 address, and validating a subnet mask. */
module Dhcp {
  import opened Results
  import opened Net

  /** Go's `net.IPNet`: an address with its mask. */
  datatype IPNet = IPNet(ip: IP, mask: IP)

  /** The errors `parseIPv4` reports. */
  datatype ParseError = NotAnIP(text: string) | NotIPv4(text: string)

  // ---------------------------------------------------------------------------
  // getIfaceIPv4

  /** The selection loop of `getIfaceIPv4` over an interface's addresses:
      the first address that has an IPv4 form, cut down to its 4 bytes and
      keeping its mask; nothing when no address is IPv4. */
  method FirstIPv4(addrs: seq<IPNet>) returns (r: Option<IPNet>)
    ensures r.None? <==> forall i :: 0 <= i < |addrs| ==> To4(addrs[i].ip).None?
    ensures r.Some? ==> exists k :: 0 <= k < |addrs|
                          && (forall j :: 0 <= j < k ==> To4(addrs[j].ip).None?)
                          && To4(addrs[k].ip) == Some(r.value.ip)
                          && r.value.mask == addrs[k].mask
    ensures r.Some? ==> |r.value.ip| == IPv4Len
  {
    var i := 0;
    while i < |addrs|
      invariant 0 <= i <= |addrs|
      invariant forall j :: 0 <= j < i ==> To4(addrs[j].ip).None?
    {
      var v4 := To4(addrs[i].ip);
      if v4.Some? {
        return Some(IPNet(v4.value, addrs[i].mask));
      }
      i := i + 1;
    }
    return None;
  }

  // ---------------------------------------------------------------------------
  // parseIPv4

  /** `parseIPv4`: text that is no IP address, and an address without an
      IPv4 form, are two distinct errors; otherwise the 4-byte form. */
  function ParseIPv4(lib: Library, text: string): (r: Result<IP, ParseError>)
    ensures lib.parseIP(text).None? <==> r == Failure(NotAnIP(text))
    ensures r == Failure(NotIPv4(text)) <==> lib.parseIP(text).Some? && To4(lib.parseIP(text).value).None?
    ensures r.Success? ==> |r.value| == IPv4Len && To4(lib.parseIP(text).value) == Some(r.value)
  {
    match lib.parseIP(text)
    case None => Failure(NotAnIP(text))
    case Some(ip) =>
      match To4(ip)
      case None => Failure(NotIPv4(text))
      case Some(v4) => Success(v4)
  }

  /** Whatever spelling the parser returns for an IPv4 address, `parseIPv4`
      yields the same 4 bytes. */
  lemma ParseIPv4Either(lib: Library, text: string, v4: IP)
    requires |v4| == IPv4Len
    requires lib.parseIP(text) == Some(v4) || lib.parseIP(text) == Some(To16(v4))
    ensures ParseIPv4(lib, text) == Success(v4)
  {
    To4OfTo16(v4);
  }

  // ---------------------------------------------------------------------------
  // isValidSubnetMask

  /** A `uint32` as its 32 bits, most significant first. */
  type Word = w: seq<bool> | |w| == 32 witness Zeros(32)

  function Zeros(k: nat): (z: seq<bool>)
    ensures |z| == k && forall i :: 0 <= i < k ==> !z[i]
  {
    seq(k, _ => false)
  }

  /** The eight bits of a byte, most significant first. */
  function ByteBits(b: byte): (r: seq<bool>)
    ensures |r| == 8
  {
    [b & 0x80 != 0, b & 0x40 != 0, b & 0x20 != 0, b & 0x10 != 0,
     b & 0x08 != 0, b & 0x04 != 0, b & 0x02 != 0, b & 0x01 != 0]
  }

  /** `binary.BigEndian.Uint32`: the first four bytes as one word, the
      first byte most significant; bytes after the fourth are ignored. */
  function BigEndian32(b: seq<byte>): (w: Word)
    requires |b| >= 4
    ensures forall k :: 0 <= k < 4 ==> w[8 * k .. 8 * k + 8] == ByteBits(b[k])
  {
    var x0, x1, x2, x3 := ByteBits(b[0]), ByteBits(b[1]), ByteBits(b[2]), ByteBits(b[3]);
    Quarters(x0, x1, x2, x3);
    var w := x0 + x1 + x2 + x3;
    assert forall k :: 0 <= k < 4 ==> w[8 * k .. 8 * k + 8] == ByteBits(b[k]) by {
      forall k | 0 <= k < 4 ensures w[8 * k .. 8 * k + 8] == ByteBits(b[k]) {
        if k == 0 {} else if k == 1 {} else if k == 2 {} else {}
      }
    }
    w
  }

  lemma Quarters(x0: seq<bool>, x1: seq<bool>, x2: seq<bool>, x3: seq<bool>)
    requires |x0| == |x1| == |x2| == |x3| == 8
    ensures var w := x0 + x1 + x2 + x3;
              |w| == 32 && w[..8] == x0 && w[8..16] == x1 && w[16..24] == x2 && w[24..] == x3
  {
  }

  // ---------------------------------------------------------------------------
  // The bits as a number

  function Pow2(k: nat): nat
  {
    if k == 0 then 1 else 2 * Pow2(k - 1)
  }

  lemma {:induction false} Pow2Add(a: nat, b: nat)
    ensures Pow2(a + b) == Pow2(a) * Pow2(b)
  {
    if b > 0 {
      Pow2Add(a, b - 1);
    }
  }

  lemma Pow2Values()
    ensures Pow2(8) == 256 && Pow2(31) == 0x8000_0000 && Pow2(32) == 0x1_0000_0000
  {
    assert Pow2(7) == 128;
    Pow2Add(8, 8);
    Pow2Add(16, 8);
    Pow2Add(24, 7);
    Pow2Add(31, 1);
  }

  /** The unsigned number the bits spell, most significant first. */
  function BitsValue(bits: seq<bool>): nat
  {
    if bits == [] then 0 else 2 * BitsValue(bits[..|bits| - 1]) + (if bits[|bits| - 1] then 1 else 0)
  }

  lemma {:induction false} BitsValueBound(bits: seq<bool>)
    ensures BitsValue(bits) < Pow2(|bits|)
  {
    if bits != [] {
      BitsValueBound(bits[..|bits| - 1]);
    }
  }

  lemma {:induction false} BitsValueAppend(a: seq<bool>, b: seq<bool>)
    ensures BitsValue(a + b) == BitsValue(a) * Pow2(|b|) + BitsValue(b)
  {
    if b == [] {
      assert a + b == a;
    } else {
      var b', bit := b[..|b| - 1], if b[|b| - 1] then 1 else 0;
      assert (a + b)[..|a + b| - 1] == a + b';
      assert BitsValue(a + b) == 2 * BitsValue(a + b') + bit;
      assert BitsValue(b) == 2 * BitsValue(b') + bit;
      assert Pow2(|b|) == 2 * Pow2(|b'|);
      BitsValueAppend(a, b');
      ShiftStep(BitsValue(a), Pow2(|b'|), BitsValue(b'), bit);
    }
  }

  /** One more low bit: `2 * (x * y + z) + c == x * (2 * y) + (2 * z + c)`. */
  lemma ShiftStep(x: nat, y: nat, z: nat, c: nat)
    ensures 2 * (x * y + z) + c == x * (2 * y) + (2 * z + c)
  {
    assert 2 * (x * y) == x * (2 * y);
  }

  lemma {:induction false} BitsValueZero(bits: seq<bool>)
    ensures BitsValue(bits) == 0 <==> forall k :: 0 <= k < |bits| ==> !bits[k]
  {
    if bits != [] {
      BitsValueZero(bits[..|bits| - 1]);
    }
  }

  /** `ByteBits` spells the byte's value. */
  lemma ByteBitsValue(b: byte)
    ensures BitsValue(ByteBits(b)) == b as nat
  {
    EightBitsValue(ByteBits(b));
    ByteWeights(b);
  }

  /** Eight bits, most significant first, weighted 128 down to 1. */
  function Weighted8(r: seq<bool>): nat
    requires |r| == 8
  {
    (if r[0] then 128 else 0) + (if r[1] then 64 else 0) + (if r[2] then 32 else 0) + (if r[3] then 16 else 0)
    + (if r[4] then 8 else 0) + (if r[5] then 4 else 0) + (if r[6] then 2 else 0) + (if r[7] then 1 else 0)
  }

  lemma EightBitsValue(r: seq<bool>)
    requires |r| == 8
    ensures BitsValue(r) == Weighted8(r)
  {
    assert BitsValue(r[..1]) == (if r[0] then 1 else 0);
    assert BitsValue(r[..2]) == 2 * BitsValue(r[..1]) + (if r[1] then 1 else 0);
    assert r[..3][..2] == r[..2];
    assert BitsValue(r[..3]) == 2 * BitsValue(r[..2]) + (if r[2] then 1 else 0);
    assert r[..4][..3] == r[..3];
    assert BitsValue(r[..4]) == 2 * BitsValue(r[..3]) + (if r[3] then 1 else 0);
    assert r[..5][..4] == r[..4];
    assert BitsValue(r[..5]) == 2 * BitsValue(r[..4]) + (if r[4] then 1 else 0);
    assert r[..6][..5] == r[..5];
    assert BitsValue(r[..6]) == 2 * BitsValue(r[..5]) + (if r[5] then 1 else 0);
    assert r[..7][..6] == r[..6];
    assert BitsValue(r[..7]) == 2 * BitsValue(r[..6]) + (if r[6] then 1 else 0);
    assert r == r[..8];
    assert BitsValue(r) == 2 * BitsValue(r[..7]) + (if r[7] then 1 else 0);
  }

  lemma ByteWeights(b: byte)
    ensures Weighted8(ByteBits(b)) == b as nat
  {
  }

  /** `binary.BigEndian.Uint32` is the number the four bytes spell in base
      256, the first byte most significant. */
  lemma BigEndianValue(b: seq<byte>)
    requires |b| >= 4
    ensures BitsValue(BigEndian32(b)) == ((b[0] as nat * 256 + b[1] as nat) * 256 + b[2] as nat) * 256 + b[3] as nat
  {
    var x0, x1, x2, x3 := ByteBits(b[0]), ByteBits(b[1]), ByteBits(b[2]), ByteBits(b[3]);
    assert BigEndian32(b) == x0 + x1 + x2 + x3;
    ByteBitsValue(b[0]);
    ByteBitsValue(b[1]);
    ByteBitsValue(b[2]);
    ByteBitsValue(b[3]);
    Pow2Values();
    BitsValueAppend(x0, x1);
    BitsValueAppend(x0 + x1, x2);
    BitsValueAppend(x0 + x1 + x2, x3);
  }

  /** `n == 0` is the word of value 0. */
  lemma IsZeroValue(n: Word)
    ensures IsZero(n) <==> BitsValue(n) == 0
  {
    BitsValueZero(n);
  }

  /** `n & 0x80000000 != 0` is `n >= 2^31`. */
  lemma TopBitValue(n: Word)
    ensures TopBit(n) <==> BitsValue(n) >= 0x8000_0000
  {
    assert n == [n[0]] + n[1..];
    BitsValueAppend([n[0]], n[1..]);
    assert [n[0]][..0] == [];
    BitsValueBound(n[1..]);
    Pow2Values();
  }

  /** `n <<= 1` is doubling modulo 2^32. */
  lemma ShiftLeftValue(n: Word)
    ensures BitsValue(ShiftLeft(n)) == (2 * BitsValue(n)) % 0x1_0000_0000
  {
    var rest := n[1..];
    assert n == [n[0]] + rest;
    BitsValueAppend([n[0]], rest);
    assert [n[0]][..0] == [];
    BitsValueAppend(rest, [false]);
    assert [false][..0] == [];
    BitsValueBound(rest);
    Pow2Values();
  }

  /** `n == 0` on a `uint32`. */
  predicate IsZero(n: Word) {
    forall k :: 0 <= k < 32 ==> !n[k]
  }

  /** `n & 0x80000000 != 0` on a `uint32`. */
  predicate TopBit(n: Word) {
    n[0]
  }

  /** `n <<= 1` on a `uint32`: the top bit is lost and a 0 comes in below. */
  function ShiftLeft(n: Word): (r: Word)
    ensures forall k :: 0 <= k < 31 ==> r[k] == n[k + 1]
    ensures !r[31]
  {
    n[1..] + [false]
  }

  /** A well-formed subnet mask: some number `k` of 1 bits at the top and
      only 0 bits below them. */
  ghost predicate IsPrefixMask(v: Word) {
    exists k :: 0 <= k <= 32 && IsRun(v, k)
  }

  /** Bits `0 .. k-1` are 1 and bits `k .. 31` are 0. */
  ghost predicate IsRun(v: Word, k: int) {
    forall j :: 0 <= j < 32 ==> (v[j] <==> j < k)
  }

  /** No 0 bit is followed, further down, by a 1 bit. */
  ghost predicate NoOneAfterZero(v: Word) {
    forall j, k :: 0 <= j < k < 32 && !v[j] ==> !v[k]
  }

  /** `isValidSubnetMask`: reads the first four bytes as a big-endian word
      and checks it with `ScanMask`. A mask shorter than four bytes makes the
      source panic. */
  method IsValidSubnetMask(mask: seq<byte>) returns (ok: bool)
    requires |mask| >= 4
    ensures ok <==> IsPrefixMask(BigEndian32(mask))
    ensures ok <==> NoOneAfterZero(BigEndian32(mask))
  {
    ok := ScanMask(BigEndian32(mask));
  }

  /** The loop of `isValidSubnetMask`: shifts the word left until it is
      zero, failing if a 0 reaches the top bit first. */
  method ScanMask(v: Word) returns (ok: bool)
    ensures ok <==> IsPrefixMask(v)
    ensures ok <==> NoOneAfterZero(v)
  {
    var n := v;
    var i := 0;
    while i != 32
      invariant 0 <= i <= 32
      invariant n == v[i..] + Zeros(i)
      invariant forall j :: 0 <= j < i ==> v[j]
    {
      if IsZero(n) {
        assert forall j :: i <= j < 32 ==> n[j - i] == v[j];
        assert IsRun(v, i);
        break;
      }
      if !TopBit(n) {
        var k :| 0 <= k < 32 && n[k];
        assert n[0] == v[i] && n[k] == v[i + k];
        return false;
      }
      n := ShiftLeft(n);
      i := i + 1;
    }
    assert IsRun(v, i);
    PrefixMaskIsNoOneAfterZero(v);
    return true;
  }

  /** The two readings of a well-formed mask agree: a leading run of ones,
      and no one after a zero. */
  lemma PrefixMaskIsNoOneAfterZero(v: Word)
    ensures IsPrefixMask(v) <==> NoOneAfterZero(v)
  {
    if NoOneAfterZero(v) {
      var k := FirstZero(v, 0);
      assert IsRun(v, k);
    }
  }

  /** The first 0 bit at or after `j`, or 32 when there is none. */
  ghost function FirstZero(v: Word, j: nat): (k: nat)
    requires j <= 32
    ensures j <= k <= 32
    ensures forall m :: j <= m < k ==> v[m]
    ensures k < 32 ==> !v[k]
    decreases 32 - j
  {
    if j == 32 then 32 else if !v[j] then j else FirstZero(v, j + 1)
  }

  /** 255.255.255.0 and 0.0.0.0 are accepted; 255.0.255.0 is not. */
  lemma MaskExamples()
    ensures IsPrefixMask(BigEndian32([255, 255, 255, 0]))
    ensures IsPrefixMask(BigEndian32([0, 0, 0, 0]))
    ensures !NoOneAfterZero(BigEndian32([255, 0, 255, 0]))
  {
    assert IsRun(BigEndian32([255, 255, 255, 0]), 24);
    assert IsRun(BigEndian32([0, 0, 0, 0]), 0);
    var v := BigEndian32([255, 0, 255, 0]);
    assert !v[8] && v[16];
  }
}
