/**
  Range-descriptor expansion (cidr_to_ip_range): a descriptor "<ipv4>/<count>"
  names a block of `count` addresses; the scanner turns it into a CIDR network
  whose prefix length is 32 - floor(log2 count), masks the address down to that
  network and lists the network's host addresses as dotted-quad strings.
  Every malformed descriptor expands to the empty list.
 */
module Expander {
  import opened Optional
  import opened Text
  import opened Decimal
  import opened IPv4

  /** The address and the count of a descriptor that splits into exactly two parts on '/'. */
  predicate SplitsInTwo(desc: string)
  {
    |Split(desc, {'/'})| == 2
  }

  function AddressText(desc: string): string
    requires SplitsInTwo(desc)
  {
    Split(desc, {'/'})[0]
  }

  function CountText(desc: string): string
    requires SplitsInTwo(desc)
  {
    Split(desc, {'/'})[1]
  }

  /**
    A descriptor the scanner can expand: two parts, a count int() accepts
    between 1 and 2^33 - 1 (so that 32 - floor(log2 count) is a prefix length
    from 0 to 32), and an address ipaddress accepts.
   */
  predicate Expandable(desc: string)
  {
    && SplitsInTwo(desc)
    && ParseInt(CountText(desc)).Some?
    && 1 <= ParseInt(CountText(desc)).value < 2 * AddressCount
    && ParseIp(AddressText(desc)).Some?
  }

  /**
    The network a descriptor denotes: the prefix length is 32 minus the
    integer part of log2 of the count, so the block holds the largest power of
    two not above the count, and it is the block that holds the given address.
   */
  function ParseDescriptor(desc: string): (r: Option<Network>)
    ensures r.Some? <==> Expandable(desc)
    ensures r.Some? ==>
              var count := ParseInt(CountText(desc)).value;
              && ValidNetwork(r.value)
              && BlockSize(r.value.prefix) <= count < 2 * BlockSize(r.value.prefix)
              && InNetwork(ParseIp(AddressText(desc)).value, r.value)
  {
    if !SplitsInTwo(desc) then None
    else
      var count, address := ParseInt(CountText(desc)), ParseIp(AddressText(desc));
      if count.None? || address.None? then None
      else NetworkFor(count.value, address.value)
  }

  /** A count text that starts with one of the separators U+1C to U+1F makes int() fail, so it expands to nothing. */
  lemma SeparatorCountExpandsToNothing(desc: string, tiny: Network -> seq<Ip>)
    requires SplitsInTwo(desc)
    requires |CountText(desc)| > 0 && '\U{1C}' <= CountText(desc)[0] <= '\U{1F}'
    ensures CidrToIpRange(desc, tiny) == []
  {
  }

  /** The network of the prefix a count derives that holds an address, if the count derives a prefix. */
  function NetworkFor(count: int, a: Ip): (r: Option<Network>)
    ensures r.Some? <==> 1 <= count < 2 * AddressCount
    ensures r.Some? ==>
              && ValidNetwork(r.value)
              && BlockSize(r.value.prefix) <= count < 2 * BlockSize(r.value.prefix)
              && InNetwork(a, r.value)
  {
    match PrefixFor(count)
    case None => None
    case Some(prefix) => Some(NetworkOf(a, prefix))
  }

  /**
    The prefix length 32 - floor(log2 count) the scanner derives from a count,
    or None where the count is not positive or the prefix would be negative.
    It is a valid prefix exactly when 1 <= count < 2^33, and its block is the
    largest power of two not above the count.
   */
  function PrefixFor(count: int): (r: Option<nat>)
    ensures r.Some? <==> 1 <= count < 2 * AddressCount
    ensures r.Some? ==> r.value <= 32 && BlockSize(r.value) <= count < 2 * BlockSize(r.value)
  {
    if count <= 0 then None
    else
      var k := FloorLog2(count);
      Pow2Threshold(k);
      if 32 - k < 0 then None else Some(32 - k)
  }

  /** A count and the largest power of two not above it derive the same prefix length. */
  lemma PrefixRoundsDown(count: int)
    requires count >= 1
    ensures PrefixFor(count) == PrefixFor(Pow2(FloorLog2(count)))
  {
    FloorLog2Unique(Pow2(FloorLog2(count)), FloorLog2(count));
  }

  /** The dotted-quad text of each address, in order. */
  function FormatAll(xs: seq<Ip>): (r: seq<string>)
    ensures |r| == |xs|
  {
    seq(|xs|, i requires 0 <= i < |xs| => FormatIp(xs[i]))
  }

  /**
    cidr_to_ip_range: the host addresses of the descriptor's network as text.
    `tiny` stands for what ipaddress lists as the hosts of a /31 or /32 network.
   */
  function CidrToIpRange(desc: string, tiny: Network -> seq<Ip>): (r: seq<string>)
    ensures ParseDescriptor(desc).None? ==> r == []
    ensures ParseDescriptor(desc).Some? && ParseDescriptor(desc).value.prefix <= 30 ==>
              |r| == BlockSize(ParseDescriptor(desc).value.prefix) - 2
  {
    match ParseDescriptor(desc)
    case None => []
    case Some(n) => FormatAll(Hosts(n, tiny))
  }

  /**
    For a network of prefix at most 30, the expansion lists dotted-quad texts
    of addresses strictly between the network and broadcast addresses, in
    ascending order.
   */
  lemma ExpansionAddresses(desc: string, tiny: Network -> seq<Ip>)
    requires ParseDescriptor(desc).Some? && ParseDescriptor(desc).value.prefix <= 30
    ensures var n := ParseDescriptor(desc).value;
            var r := CidrToIpRange(desc, tiny);
            && (forall i :: 0 <= i < |r| ==>
                  ParseIp(r[i]).Some? && n.base < ParseIp(r[i]).value < Broadcast(n))
            && (forall i, j :: 0 <= i < j < |r| ==> ParseIp(r[i]).value < ParseIp(r[j]).value)
  {
    ExpansionOfNetwork(desc, tiny);
    FormattedHostsOrdered(ParseDescriptor(desc).value);
  }

  /** The formatted hosts of a network read back as ascending addresses strictly inside it. */
  lemma FormattedHostsOrdered(n: Network)
    requires ValidNetwork(n) && n.prefix <= 30
    ensures var r := FormatAll(HostRange(n));
            && (forall i :: 0 <= i < |r| ==> ParseIp(r[i]).Some? && n.base < ParseIp(r[i]).value < Broadcast(n))
            && (forall i, j :: 0 <= i < j < |r| ==> ParseIp(r[i]).value < ParseIp(r[j]).value)
  {
    FormattedHostsParse(n);
  }

  /** Each formatted host reads back as the host address it came from. */
  lemma FormattedHostsParse(n: Network)
    requires ValidNetwork(n) && n.prefix <= 30
    ensures forall i :: 0 <= i < |HostRange(n)| ==> ParseIp(FormatAll(HostRange(n))[i]) == Some(HostRange(n)[i])
  {
    var hosts := HostRange(n);
    forall i | 0 <= i < |hosts| ensures ParseIp(FormatAll(hosts)[i]) == Some(hosts[i]) {
      ParseFormatIp(hosts[i]);
    }
  }

  /** The expansion of a descriptor never lists an address twice. */
  lemma ExpansionDistinct(desc: string, tiny: Network -> seq<Ip>)
    requires ParseDescriptor(desc).Some? && ParseDescriptor(desc).value.prefix <= 30
    ensures forall i, j :: 0 <= i < j < |CidrToIpRange(desc, tiny)| ==>
              CidrToIpRange(desc, tiny)[i] != CidrToIpRange(desc, tiny)[j]
  {
    var r := CidrToIpRange(desc, tiny);
    ExpansionAddresses(desc, tiny);
    forall i, j | 0 <= i < j < |r| ensures r[i] != r[j] {
      assert ParseIp(r[i]).value < ParseIp(r[j]).value;
    }
  }

  /** Every address strictly between the network and broadcast addresses is listed. */
  lemma ExpansionComplete(desc: string, tiny: Network -> seq<Ip>, x: Ip)
    requires ParseDescriptor(desc).Some? && ParseDescriptor(desc).value.prefix <= 30
    requires ParseDescriptor(desc).value.base < x < Broadcast(ParseDescriptor(desc).value)
    ensures FormatIp(x) in CidrToIpRange(desc, tiny)
  {
    ExpansionOfNetwork(desc, tiny);
    FormattedHostsComplete(ParseDescriptor(desc).value, x);
  }

  /** A descriptor whose network has prefix at most 30 expands to that network's formatted host range. */
  lemma ExpansionOfNetwork(desc: string, tiny: Network -> seq<Ip>)
    requires ParseDescriptor(desc).Some? && ParseDescriptor(desc).value.prefix <= 30
    ensures CidrToIpRange(desc, tiny) == FormatAll(HostRange(ParseDescriptor(desc).value))
  {
  }

  /** The formatted hosts of a network list every address strictly inside it. */
  lemma FormattedHostsComplete(n: Network, x: Ip)
    requires ValidNetwork(n) && n.prefix <= 30
    requires n.base < x < Broadcast(n)
    ensures FormatIp(x) in FormatAll(HostRange(n))
  {
    HostRangeComplete(n, x);
    assert FormatAll(HostRange(n))[x - n.base - 1] == FormatIp(x);
  }

  /** The descriptor text the registry filter writes for an address text and a count. */
  function Descriptor(ipText: string, count: int): string
  {
    ipText + "/" + IntToString(count)
  }

  /** A descriptor built from an address text without '/' splits back into that text and the count. */
  lemma DescriptorSplits(ipText: string, count: int)
    requires NoneOf(ipText, {'/'})
    ensures SplitsInTwo(Descriptor(ipText, count))
    ensures AddressText(Descriptor(ipText, count)) == ipText
    ensures ParseInt(CountText(Descriptor(ipText, count))) == Some(count)
  {
    var c := IntToString(count);
    assert NoneOf(c, {'/'});
    assert Join([ipText, c], "/") == Descriptor(ipText, count);
    SplitJoin([ipText, c], '/', {'/'});
    ParseIntString(count);
  }

  /**
    A count that is not a power of two rounds down: the descriptor expands
    exactly as the one whose count is the largest power of two not above it.
   */
  lemma RoundsDownToPowerOfTwo(ipText: string, count: int, tiny: Network -> seq<Ip>)
    requires NoneOf(ipText, {'/'}) && count >= 1
    ensures CidrToIpRange(Descriptor(ipText, count), tiny)
         == CidrToIpRange(Descriptor(ipText, Pow2(FloorLog2(count))), tiny)
  {
    var d1, d2 := Descriptor(ipText, count), Descriptor(ipText, Pow2(FloorLog2(count)));
    DescriptorSplits(ipText, count);
    DescriptorSplits(ipText, Pow2(FloorLog2(count)));
    PrefixRoundsDown(count);
    assert ParseDescriptor(d1) == ParseDescriptor(d2);
  }

  /** The descriptor of an address text and a count names the block of that address. */
  lemma DescriptorNetwork(ipText: string, count: int, a: Ip, prefix: nat)
    requires NoneOf(ipText, {'/'}) && ParseIp(ipText) == Some(a)
    requires PrefixFor(count) == Some(prefix)
    ensures ParseDescriptor(Descriptor(ipText, count)) == Some(NetworkOf(a, prefix))
  {
    DescriptorSplits(ipText, count);
  }

  /** A count of 2^k, k <= 32, derives the prefix length 32 - k. */
  lemma PrefixOfPowerOfTwo(k: nat)
    requires k <= 32
    ensures PrefixFor(Pow2(k)) == Some(32 - k)
    ensures BlockSize(32 - k) == Pow2(k)
  {
    Pow2Threshold(k);
    FloorLog2Unique(Pow2(k), k);
  }

  /** A block of 2^k addresses, 2 <= k <= 32, expands to 2^k - 2 hosts. */
  lemma HostCount(ipText: string, k: nat, tiny: Network -> seq<Ip>)
    requires NoneOf(ipText, {'/'}) && ParseIp(ipText).Some?
    requires 2 <= k <= 32
    ensures |CidrToIpRange(Descriptor(ipText, Pow2(k)), tiny)| == Pow2(k) - 2
  {
    HostCountAt(ipText, ParseIp(ipText).value, k, tiny);
  }

  lemma HostCountAt(ipText: string, a: Ip, k: nat, tiny: Network -> seq<Ip>)
    requires NoneOf(ipText, {'/'}) && ParseIp(ipText) == Some(a)
    requires 2 <= k <= 32
    ensures |CidrToIpRange(Descriptor(ipText, Pow2(k)), tiny)| == Pow2(k) - 2
  {
    PowerOfTwoDescriptor(ipText, a, k);
    ExpansionSize(Descriptor(ipText, Pow2(k)), NetworkOf(a, 32 - k), k, tiny);
  }

  /** A descriptor with a count of 2^k denotes the /(32 - k) network of its start address. */
  lemma PowerOfTwoDescriptor(ipText: string, a: Ip, k: nat)
    requires NoneOf(ipText, {'/'}) && ParseIp(ipText) == Some(a)
    requires 2 <= k <= 32
    ensures ParseDescriptor(Descriptor(ipText, Pow2(k))) == Some(NetworkOf(a, 32 - k))
    ensures BlockSize(32 - k) == Pow2(k)
  {
    PrefixOfPowerOfTwo(k);
    DescriptorNetwork(ipText, Pow2(k), a, 32 - k);
  }

  lemma ExpansionSize(d: string, n: Network, k: nat, tiny: Network -> seq<Ip>)
    requires 2 <= k <= 32 && ParseDescriptor(d) == Some(n) && n.prefix == 32 - k
    requires BlockSize(32 - k) == Pow2(k)
    ensures |CidrToIpRange(d, tiny)| == Pow2(k) - 2
  {
  }

  /** A descriptor that names a /30 network expands to the two addresses after its base. */
  lemma Slash30Expansion(desc: string, tiny: Network -> seq<Ip>)
    requires ParseDescriptor(desc).Some? && ParseDescriptor(desc).value.prefix == 30
    ensures var n := ParseDescriptor(desc).value;
            && n.base + 2 < AddressCount
            && CidrToIpRange(desc, tiny) == [FormatIp(n.base + 1), FormatIp(n.base + 2)]
  {
    var n := ParseDescriptor(desc).value;
    HostRangeSlash30(n);
    assert CidrToIpRange(desc, tiny) == FormatAll(HostRange(n));
    FormatAllPair(n.base + 1, n.base + 2);
  }

  lemma FormatAllPair(x: Ip, y: Ip)
    ensures FormatAll([x, y]) == [FormatIp(x), FormatIp(y)]
  {
  }

  /**
    A count of 4 gives a /30 network: the expansion is the two addresses that
    follow the address with its two low bits cleared.
   */
  lemma CountFourGivesTwoHosts(ipText: string, tiny: Network -> seq<Ip>)
    requires NoneOf(ipText, {'/'}) && ParseIp(ipText).Some?
    ensures var a := ParseIp(ipText).value;
            var base := a - a % 4;
            && base + 2 < AddressCount
            && CidrToIpRange(Descriptor(ipText, 4), tiny) == [FormatIp(base + 1), FormatIp(base + 2)]
  {
    var a := ParseIp(ipText).value;
    var desc := Descriptor(ipText, 4);
    PrefixOfPowerOfTwo(2);
    assert Pow2(2) == 4;
    DescriptorNetwork(ipText, 4, a, 30);
    var n := NetworkOf(a, 30);
    assert n.base == a - a % 4;
    assert ParseDescriptor(desc) == Some(n);
    Slash30Expansion(desc, tiny);
  }
}
