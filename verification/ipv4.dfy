/**
  IPv4 addresses and networks as the scanner uses them through Python's
  ipaddress module: dotted-quad text, networks given by a prefix length as in
  section 3.1 of RFC 4632, and the host addresses of a network (all addresses
  but the network and broadcast addresses).
 */
module IPv4 {
  import opened Optional
  import opened Text
  import opened Decimal

  /** How many IPv4 addresses there are. */
  const AddressCount: nat := 0x1_0000_0000

  /** An IPv4 address as its 32-bit unsigned value. */
  type Ip = n: nat | n < 0x1_0000_0000

  function Pow2(k: nat): (r: nat)
    ensures r >= 1
  {
    if k == 0 then 1 else 2 * Pow2(k - 1)
  }

  lemma {:induction false} Pow2Add(a: nat, b: nat)
    ensures Pow2(a + b) == Pow2(a) * Pow2(b)
    decreases a
  {
    if a > 0 {
      Pow2Add(a - 1, b);
      assert Pow2(a + b) == 2 * Pow2(a - 1 + b);
    }
  }

  lemma {:induction false} Pow2Monotone(a: nat, b: nat)
    requires a <= b
    ensures Pow2(a) <= Pow2(b)
    decreases b - a
  {
    if a < b {
      Pow2Monotone(a, b - 1);
    }
  }

  lemma Pow2Of32()
    ensures Pow2(32) == AddressCount
  {
    assert Pow2(4) == 16 by {
      assert Pow2(1) == 2;
      assert Pow2(2) == 4;
      assert Pow2(3) == 8;
    }
    Pow2Add(4, 4);
    Pow2Add(8, 8);
    Pow2Add(16, 16);
  }

  /** 2^(k+1) fits in 33 bits exactly when k is at most 32. */
  lemma Pow2Threshold(k: nat)
    ensures k <= 32 ==> Pow2(k + 1) <= 2 * AddressCount
    ensures k > 32 ==> Pow2(k) >= 2 * AddressCount
  {
    Pow2Of32();
    assert Pow2(33) == 2 * Pow2(32);
    if k <= 32 {
      Pow2Monotone(k + 1, 33);
    } else {
      Pow2Monotone(33, k);
    }
  }

  /** The integer part of log2(n): the exponent of the largest power of two not above n. */
  function FloorLog2(n: nat): (k: nat)
    requires n >= 1
    ensures Pow2(k) <= n < Pow2(k + 1)
    decreases n
  {
    if n == 1 then 0 else 1 + FloorLog2(n / 2)
  }

  /** The bracketing power of two determines FloorLog2. */
  lemma FloorLog2Unique(n: nat, k: nat)
    requires Pow2(k) <= n < Pow2(k + 1)
    ensures FloorLog2(n) == k
  {
    var j := FloorLog2(n);
    if j < k {
      Pow2Monotone(j + 1, k);
    } else if j > k {
      Pow2Monotone(k + 1, j);
    }
  }

  lemma MulLe(a: nat, b: nat, p: nat)
    requires a <= b
    ensures a * p <= b * p
  {
  }

  /** If a multiple of `p` lies below the next multiple after `b * p`, it is at most `b * p`. */
  lemma MulBracket(a: nat, b: nat, p: nat)
    requires p > 0 && a * p < b * p + p
    ensures a <= b
  {
    if a > b {
      MulLe(b + 1, a, p);
      assert false;
    }
  }

  /** Euclidean division is determined by the bracketing multiple. */
  lemma DivUnique(x: nat, p: nat, q: nat)
    requires p > 0 && q * p <= x < q * p + p
    ensures x / p == q && x % p == x - q * p
  {
    var d := x / p;
    assert x == d * p + x % p;
    MulBracket(d, q, p);
    MulBracket(q, d, p);
  }

  /** Clearing the remainder modulo `p` gives the multiple of `p` just below. */
  lemma AlignDown(a: nat, p: nat)
    requires p > 0
    ensures (a - a % p) % p == 0 && (a - a % p) / p == a / p
    ensures a - a % p <= a < a - a % p + p
  {
    var q := a / p;
    assert a == q * p + a % p;
    DivUnique(q * p, p, q);
  }

  /** A multiple of `p` below `p * m` leaves room for a whole block of `p` below `p * m`. */
  lemma AlignedFits(base: nat, p: nat, m: nat)
    requires p > 0 && base % p == 0 && base < p * m
    ensures base + p <= p * m
  {
    var q := base / p;
    assert base == q * p + base % p;
    if q >= m {
      MulLe(m, q, p);
      assert false;
    }
    MulLe(q + 1, m, p);
  }

  /** The number of addresses in a network with the given prefix length. */
  function BlockSize(prefix: nat): nat
    requires prefix <= 32
  {
    Pow2(32 - prefix)
  }

  /** A network: a base address and a prefix length. */
  datatype Network = Network(base: Ip, prefix: nat)

  /** The prefix is at most 32 and the base has every host bit clear. */
  predicate ValidNetwork(n: Network)
  {
    n.prefix <= 32 && n.base % BlockSize(n.prefix) == 0
  }

  /** The last address of the network. */
  function Broadcast(n: Network): nat
    requires n.prefix <= 32
  {
    n.base + BlockSize(n.prefix) - 1
  }

  /** `x` agrees with the network's base on the leading `prefix` bits. */
  predicate InNetwork(x: nat, n: Network)
  {
    n.prefix <= 32 && x / BlockSize(n.prefix) == n.base / BlockSize(n.prefix)
  }

  /** A valid network lies wholly inside the address space. */
  lemma BlockFits(n: Network)
    requires ValidNetwork(n)
    ensures Broadcast(n) < AddressCount
  {
    Pow2Add(32 - n.prefix, n.prefix);
    Pow2Of32();
    AlignedFits(n.base, BlockSize(n.prefix), Pow2(n.prefix));
  }

  /** `a` rounded down to a multiple of `p`. */
  function AlignedBelow(a: nat, p: nat): (base: nat)
    requires p > 0
    ensures base % p == 0 && base / p == a / p
    ensures base <= a < base + p
  {
    AlignDown(a, p);
    a - a % p
  }

  /**
    The network of the given prefix length that holds `a`: `a` with its host
    bits cleared, as ipaddress.IPv4Network(..., strict=False) derives it.
   */
  function NetworkOf(a: Ip, prefix: nat): (n: Network)
    requires prefix <= 32
    ensures ValidNetwork(n) && n.prefix == prefix
    ensures n.base <= a <= Broadcast(n)
    ensures InNetwork(a, n)
  {
    Network(AlignedBelow(a, BlockSize(prefix)), prefix)
  }

  /** A network of prefix at most 30 holds at least four addresses. */
  lemma BlockAtLeastFour(prefix: nat)
    requires prefix <= 30
    ensures BlockSize(prefix) >= 4
  {
    Pow2Monotone(2, 32 - prefix);
    assert Pow2(2) == 4;
  }

  /**
    The host addresses of a network of prefix at most 30, in ascending order:
    every address strictly between the network and broadcast addresses.
   */
  function HostRange(n: Network): (r: seq<Ip>)
    requires ValidNetwork(n) && n.prefix <= 30
    ensures |r| == BlockSize(n.prefix) - 2
    ensures forall i, j :: 0 <= i < j < |r| ==> r[i] < r[j]
    ensures forall i :: 0 <= i < |r| ==> n.base < r[i] < Broadcast(n)
  {
    BlockFits(n);
    BlockAtLeastFour(n.prefix);
    var k := BlockSize(n.prefix) - 2;
    seq(k, i requires 0 <= i < k => (n.base + 1 + i) as Ip)
  }

  /** A /30 network has exactly two hosts, the two addresses after its base. */
  lemma HostRangeSlash30(n: Network)
    requires ValidNetwork(n) && n.prefix == 30
    ensures n.base + 2 < AddressCount
    ensures HostRange(n) == [n.base + 1, n.base + 2]
  {
  }

  /** Every address strictly inside the network is listed among its hosts. */
  lemma HostRangeComplete(n: Network, x: Ip)
    requires ValidNetwork(n) && n.prefix <= 30
    requires n.base < x < Broadcast(n)
    ensures x - n.base - 1 < |HostRange(n)| && HostRange(n)[x - n.base - 1] == x
  {
  }

  /**
    The host addresses of any network: HostRange up to prefix 30, and for the
    two smallest networks (prefix 31 and 32) whatever `tiny` gives, standing
    for the ipaddress library's special cases, which are not part of this model.
   */
  function Hosts(n: Network, tiny: Network -> seq<Ip>): seq<Ip>
    requires ValidNetwork(n)
  {
    if n.prefix <= 30 then HostRange(n) else tiny(n)
  }

  /** One dotted-quad octet as ipaddress accepts it: one to three ASCII digits, no leading zero, at most 255. */
  function ParseOctet(s: string): (r: Option<nat>)
    ensures r.Some? ==> r.value < 256 && Canonical(s) && DigitsValue(s) == r.value
  {
    if |s| <= 3 && Canonical(s) && DigitsValue(s) < 256 then Some(DigitsValue(s)) else None
  }

  function FromOctets(a: nat, b: nat, c: nat, d: nat): Ip
    requires a < 256 && b < 256 && c < 256 && d < 256
  {
    ((a * 256 + b) * 256 + c) * 256 + d
  }

  /** The four octets of an address, most significant first. */
  function Octets(x: Ip): (o: seq<nat>)
    ensures |o| == 4 && forall i :: 0 <= i < 4 ==> o[i] < 256
    ensures FromOctets(o[0], o[1], o[2], o[3]) == x
  {
    var x1 := x / 256;
    var x2 := x1 / 256;
    [x2 / 256, x2 % 256, x1 % 256, x % 256]
  }

  /** An address is determined by its octets, and the octets by the address. */
  lemma OctetsOfFromOctets(a: nat, b: nat, c: nat, d: nat)
    requires a < 256 && b < 256 && c < 256 && d < 256
    ensures Octets(FromOctets(a, b, c, d)) == [a, b, c, d]
  {
    var x := FromOctets(a, b, c, d);
    DivUnique(x, 256, (a * 256 + b) * 256 + c);
    DivUnique((a * 256 + b) * 256 + c, 256, a * 256 + b);
    DivUnique(a * 256 + b, 256, a);
  }

  /** Four pieces, each a valid octet. */
  predicate DottedQuad(parts: seq<string>)
  {
    && |parts| == 4
    && ParseOctet(parts[0]).Some? && ParseOctet(parts[1]).Some?
    && ParseOctet(parts[2]).Some? && ParseOctet(parts[3]).Some?
  }

  /** The four pieces read as the four octets `o`, in order. */
  predicate OctetsRead(parts: seq<string>, o: seq<nat>)
  {
    && |parts| == 4 && |o| == 4
    && ParseOctet(parts[0]) == Some(o[0]) && ParseOctet(parts[1]) == Some(o[1])
    && ParseOctet(parts[2]) == Some(o[2]) && ParseOctet(parts[3]) == Some(o[3])
  }

  /**
    Python's IPv4Address(s): None where it raises AddressValueError. The text
    must be exactly four '.'-separated octets, each one to three ASCII digits
    without a leading zero and at most 255; the address is the one with those
    octets.
   */
  function ParseIp(s: string): (r: Option<Ip>)
    ensures r.Some? <==> DottedQuad(Split(s, {'.'}))
    ensures r.Some? ==> OctetsRead(Split(s, {'.'}), Octets(r.value))
  {
    var parts := Split(s, {'.'});
    if |parts| != 4 then None
    else
      match (ParseOctet(parts[0]), ParseOctet(parts[1]), ParseOctet(parts[2]), ParseOctet(parts[3]))
      case (Some(a), Some(b), Some(c), Some(d)) =>
        OctetsOfFromOctets(a, b, c, d);
        Some(FromOctets(a, b, c, d))
      case _ => None
  }

  function OctetStrings(x: Ip): (parts: seq<string>)
    ensures |parts| == 4
  {
    var o := Octets(x);
    [NatToString(o[0]), NatToString(o[1]), NatToString(o[2]), NatToString(o[3])]
  }

  /** Python's str() of an IPv4Address. */
  function FormatIp(x: Ip): string
  {
    Join(OctetStrings(x), ".")
  }

  /** Reading a formatted address gives the address back. */
  lemma ParseFormatIp(x: Ip)
    ensures ParseIp(FormatIp(x)) == Some(x)
  {
    var parts := OctetStrings(x);
    forall i | 0 <= i < 4
      ensures NoneOf(parts[i], {'.'}) && ParseOctet(parts[i]) == Some(Octets(x)[i])
    {
      NatToStringShort(Octets(x)[i]);
    }
    SplitJoin(parts, '.', {'.'});
  }

  /** Every accepted address text is the formatted form of the address it denotes. */
  lemma FormatParseIp(s: string, x: Ip)
    requires ParseIp(s) == Some(x)
    ensures FormatIp(x) == s
  {
    var parts := Split(s, {'.'});
    var a, b, c, d := ParseOctet(parts[0]).value, ParseOctet(parts[1]).value,
                      ParseOctet(parts[2]).value, ParseOctet(parts[3]).value;
    OctetsOfFromOctets(a, b, c, d);
    CanonicalRoundTrip(parts[0]);
    CanonicalRoundTrip(parts[1]);
    CanonicalRoundTrip(parts[2]);
    CanonicalRoundTrip(parts[3]);
    assert OctetStrings(x) == parts;
    JoinSplit(s, '.');
  }

  /** Distinct addresses format differently. */
  lemma FormatIpInjective(x: Ip, y: Ip)
    requires FormatIp(x) == FormatIp(y)
    ensures x == y
  {
    ParseFormatIp(x);
    ParseFormatIp(y);
  }
}
