/**
 * IPv4 addresses and networks as Python's `ipaddress` module reads them
 * (Python 3.9.5 and later): `ip_address` / `IPv4Address` parse a dotted quad,
 * `IPv4Network` parses a prefix in the notation of section 3.1 of RFC 4632
 * (`address/length`), also accepting a dotted netmask or hostmask after the slash,
 * and refuses a network address with host bits set. An address is a 32-bit value;
 * keeping the top `p` bits of it is the mask comparison `address & netmask`.
 */
module Ipv4 {
  import opened Wrappers
  import opened Text

  const ADDRESS_COUNT: nat := 0x1_0000_0000
  const ALL_ONES: nat := 0xFFFF_FFFF

  /** A 32-bit address value. */
  type Addr = n: nat | n < 0x1_0000_0000

  /** A parsed `IPv4Network`: its network address and prefix length. */
  datatype Network = Network(address: Addr, prefixLen: nat)

  // ---------------------------------------------------------------------------
  // Dotted quads

  /**
   * One octet of a dotted quad: non-empty ASCII digits, at most three of them,
   * no leading zero unless the octet is "0", value at most 255.
   */
  function ParseOctet(s: string): Option<nat>
  {
    if |s| == 0 then None
    else if !IsDecimal(s) then None
    else if |s| > 3 then None
    else if s[0] == '0' && |s| > 1 then None
    else if DecimalValue(s) > 255 then None
    else Some(DecimalValue(s))
  }

  function FromOctets(a: nat, b: nat, c: nat, d: nat): Addr
    requires a < 256 && b < 256 && c < 256 && d < 256
  {
    a * 0x100_0000 + b * 0x1_0000 + c * 0x100 + d
  }

  /**
   * `IPv4Address(s)`: exactly four dot-separated octets, big-endian. An accepted text
   * holds digits and dots only, so IPv6 text and text with a netmask are refused.
   */
  function ParseAddress(s: string): (r: Option<Addr>)
    ensures r.Some? ==> forall k | 0 <= k < |s| :: s[k] == '.' || IsDigit(s[k])
  {
    var octets := Split(s, '.');
    if |s| == 0 || |octets| != 4 then None
    else
      match (ParseOctet(octets[0]), ParseOctet(octets[1]), ParseOctet(octets[2]), ParseOctet(octets[3]))
      case (Some(a), Some(b), Some(c), Some(d)) =>
        DottedQuadText(s);
        if a < 256 && b < 256 && c < 256 && d < 256 then Some(FromOctets(a, b, c, d)) else None
      case _ => None
  }

  /** A text that splits into four octets is made of digits and dots. */
  lemma DottedQuadText(s: string)
    requires |Split(s, '.')| == 4 && forall i | 0 <= i < 4 :: ParseOctet(Split(s, '.')[i]).Some?
    ensures forall k | 0 <= k < |s| :: s[k] == '.' || IsDigit(s[k])
  {
    JoinSplit(s, '.');
    JoinOfDigits(Split(s, '.'), '.');
  }

  /** `str(IPv4Address(x))`: the four octets in decimal, joined by dots. */
  function FormatAddress(x: Addr): string
  {
    Join(OctetTexts(x), '.')
  }

  function OctetTexts(x: Addr): seq<string>
  {
    [DecimalText(x / 0x100_0000), DecimalText(x / 0x1_0000 % 0x100),
     DecimalText(x / 0x100 % 0x100), DecimalText(x % 0x100)]
  }

  lemma OctetsOfFromOctets(a: nat, b: nat, c: nat, d: nat)
    requires a < 256 && b < 256 && c < 256 && d < 256
    ensures var x := FromOctets(a, b, c, d);
      x / 0x100_0000 == a && x / 0x1_0000 % 0x100 == b && x / 0x100 % 0x100 == c && x % 0x100 == d
  {
    var x := FromOctets(a, b, c, d);
    assert x / 0x100 == a * 0x1_0000 + b * 0x100 + c;
    assert x / 0x1_0000 == a * 0x100 + b;
  }

  lemma FromOctetsOfOctets(x: Addr)
    ensures FromOctets(x / 0x100_0000, x / 0x1_0000 % 0x100, x / 0x100 % 0x100, x % 0x100) == x
  {
    assert x == x / 0x100 * 0x100 + x % 0x100;
    assert x / 0x100 == x / 0x1_0000 * 0x100 + x / 0x100 % 0x100;
    assert x / 0x1_0000 == x / 0x100_0000 * 0x100 + x / 0x1_0000 % 0x100;
  }

  /** The text of a number below 256 reads back as that octet. */
  lemma OctetOfText(n: nat)
    requires n < 256
    ensures ParseOctet(DecimalText(n)) == Some(n)
  {
    TextLength(n);
    DecimalValueOfText(n);
  }

  /** An octet is accepted only in its canonical spelling. */
  lemma TextOfOctet(s: string)
    requires ParseOctet(s).Some?
    ensures DecimalText(ParseOctet(s).value) == s
  {
    TextOfDecimalValue(s);
  }

  lemma OctetIsDecimal(s: string)
    requires ParseOctet(s).Some?
    ensures '.' !in s && '/' !in s
  {
  }

  /** Formatting an address and parsing the text gives the address back. */
  lemma ParseFormat(x: Addr)
    ensures ParseAddress(FormatAddress(x)) == Some(x)
  {
    var texts := OctetTexts(x);
    OctetOfText(x / 0x100_0000);
    OctetOfText(x / 0x1_0000 % 0x100);
    OctetOfText(x / 0x100 % 0x100);
    OctetOfText(x % 0x100);
    forall i | 0 <= i < 4 ensures '.' !in texts[i] { OctetIsDecimal(texts[i]); }
    SplitJoin(texts, '.');
    FromOctetsOfOctets(x);
  }

  /** Every accepted text is the canonical spelling of the address it denotes. */
  lemma FormatParse(s: string)
    requires ParseAddress(s).Some?
    ensures FormatAddress(ParseAddress(s).value) == s
  {
    var octets := Split(s, '.');
    var a, b, c, d := ParseOctet(octets[0]).value, ParseOctet(octets[1]).value,
                      ParseOctet(octets[2]).value, ParseOctet(octets[3]).value;
    OctetsOfFromOctets(a, b, c, d);
    TextOfOctet(octets[0]);
    TextOfOctet(octets[1]);
    TextOfOctet(octets[2]);
    TextOfOctet(octets[3]);
    assert OctetTexts(ParseAddress(s).value) == octets;
    JoinSplit(s, '.');
  }

  lemma {:induction false} JoinFree(parts: seq<string>, sep: char, c: char)
    requires |parts| >= 1 && sep != c
    requires forall i | 0 <= i < |parts| :: c !in parts[i]
    ensures c !in Join(parts, sep)
  {
    if |parts| > 1 {
      JoinFree(parts[1..], sep, c);
    }
  }

  // ---------------------------------------------------------------------------
  // Prefixes and masks

  function Pow2(k: nat): (r: nat)
    ensures r >= 1
  {
    if k == 0 then 1 else 2 * Pow2(k - 1)
  }

  lemma {:induction false} Pow2Monotone(i: nat, j: nat)
    requires i < j
    ensures Pow2(i) < Pow2(j)
  {
    if i < j - 1 {
      Pow2Monotone(i, j - 1);
    }
  }

  lemma Pow2Of32()
    ensures Pow2(32) == ADDRESS_COUNT
  {
    assert Pow2(1) == 2;
    assert Pow2(2) == 4;
    assert Pow2(3) == 8;
    assert Pow2(4) == 16;
    assert Pow2(5) == 32;
    assert Pow2(6) == 64;
    assert Pow2(7) == 128;
    assert Pow2(8) == 256;
    assert Pow2(9) == 512;
    assert Pow2(10) == 1024;
    assert Pow2(11) == 2048;
    assert Pow2(12) == 4096;
    assert Pow2(13) == 8192;
    assert Pow2(14) == 16384;
    assert Pow2(15) == 32768;
    assert Pow2(16) == 65536;
    assert Pow2(17) == 131072;
    assert Pow2(18) == 262144;
    assert Pow2(19) == 524288;
    assert Pow2(20) == 1048576;
    assert Pow2(21) == 2097152;
    assert Pow2(22) == 4194304;
    assert Pow2(23) == 8388608;
    assert Pow2(24) == 16777216;
    assert Pow2(25) == 33554432;
    assert Pow2(26) == 67108864;
    assert Pow2(27) == 134217728;
    assert Pow2(28) == 268435456;
    assert Pow2(29) == 536870912;
    assert Pow2(30) == 1073741824;
    assert Pow2(31) == 2147483648;
    assert Pow2(32) == 4294967296;
  }

  lemma Pow2AtMost32(k: nat)
    requires k <= 32
    ensures Pow2(k) <= ADDRESS_COUNT
  {
    Pow2Of32();
    if k < 32 { Pow2Monotone(k, 32); }
  }

  /** `address & netmask`: the address with its low `32 - p` (host) bits cleared. */
  function Masked(x: Addr, p: nat): (r: Addr)
    requires p <= 32
  {
    x / Pow2(32 - p) * Pow2(32 - p)
  }

  /** The netmask of prefix length `p`: `p` one bits followed by zero bits. */
  function Netmask(p: nat): (r: Addr)
    requires p <= 32
  {
    Pow2AtMost32(32 - p);
    ADDRESS_COUNT - Pow2(32 - p)
  }

  /** The prefix length, at least `from`, whose netmask is `m`, if there is one. */
  function PrefixOfNetmask(m: nat, from: nat): (r: Option<nat>)
    requires from <= 33
    decreases 33 - from
    ensures r.Some? ==> from <= r.value <= 32 && Netmask(r.value) == m
    ensures r.None? ==> forall q | from <= q <= 32 :: Netmask(q) != m
  {
    if from > 32 then None
    else if Netmask(from) == m then Some(from)
    else PrefixOfNetmask(m, from + 1)
  }

  /**
   * `_make_netmask`: the text after the slash is a decimal prefix length up to 32
   * (leading zeros allowed); failing that, a dotted quad that is a netmask; failing
   * that, one whose bitwise complement is a netmask (a hostmask).
   */
  function ParsePrefixLength(s: string): (r: Option<nat>)
    ensures r.Some? ==> r.value <= 32
  {
    if IsDecimal(s) && DecimalValue(s) <= 32 then Some(DecimalValue(s))
    else
      match ParseAddress(s)
      case None => None
      case Some(m) => MaskPrefixLength(m)
  }

  /** A dotted mask stands for a prefix length as a netmask or, failing that, as a hostmask. */
  function MaskPrefixLength(m: Addr): (r: Option<nat>)
    ensures r.Some? ==> r.value <= 32
    ensures r.Some? ==> Netmask(r.value) == m || Netmask(r.value) == ALL_ONES - m
    ensures r.None? ==> forall q | q <= 32 :: Netmask(q) != m && Netmask(q) != ALL_ONES - m
  {
    match PrefixOfNetmask(m, 0)
    case Some(p) => Some(p)
    case None => PrefixOfNetmask(ALL_ONES - m, 0)
  }

  /**
   * `IPv4Network(s)` with its default `strict=True`: at most one slash, a dotted-quad
   * network address, a prefix length (32 when absent), and no host bits set.
   */
  function ParseNetwork(s: string): (r: Option<Network>)
    ensures r.Some? ==> r.value.prefixLen <= 32
    ensures r.Some? ==> Masked(r.value.address, r.value.prefixLen) == r.value.address
    ensures r.Some? ==> ParseAddress(Split(s, '/')[0]) == Some(r.value.address)
  {
    var parts := Split(s, '/');
    if |parts| > 2 then None
    else
      match ParseAddress(parts[0])
      case None => None
      case Some(a) =>
        match (if |parts| == 1 then Some(32) else ParsePrefixLength(parts[1]))
        case None => None
        case Some(p) => if Masked(a, p) != a then None else Some(Network(a, p))
  }

  /**
   * `IPv4Address(x) in network`: the address masked with the netmask is the network
   * address. By section 3.1 of RFC 4632 that means, for a network without host bits,
   * that the first `prefixLen` bits of the two agree.
   */
  predicate Contains(n: Network, x: Addr): (r: bool)
    requires n.prefixLen <= 32
    ensures Masked(n.address, n.prefixLen) == n.address ==>
      (r <==> x / Pow2(32 - n.prefixLen) == n.address / Pow2(32 - n.prefixLen))
  {
    SameQuotient(x, n.address, Pow2(32 - n.prefixLen));
    Masked(x, n.prefixLen) == n.address
  }

  /**
   * The per-entry test of `existing_ips_in_range`: the entry parses as an IPv4 address,
   * the range parses as a network, and the network contains the address. Either parse
   * failing raises `ValueError`, which the source catches, so the entry is skipped.
   */
  function InPrefix(entry: string, netRange: string): (r: bool)
    ensures r ==> ParseAddress(entry).Some? && ParseNetwork(netRange).Some?
  {
    match ParseAddress(entry)
    case None => false
    case Some(x) =>
      match ParseNetwork(netRange)
      case None => false
      case Some(n) => Contains(n, x)
  }

  // ---------------------------------------------------------------------------
  // What the prefix notation means

  /** Rounding `x` down to a multiple of `h` gives the multiple `a` exactly when both have the same quotient. */
  lemma SameQuotient(x: nat, a: nat, h: nat)
    requires h >= 1
    ensures a / h * h == a ==> ((x / h * h == a) <==> (x / h == a / h))
  {
    if x / h * h == a {
      DivMulCancel(x / h, h);
    }
  }

  lemma DivMulCancel(q: nat, h: nat)
    requires h >= 1
    ensures (q * h) / h == q
  {
    var d, m := (q * h) / h, (q * h) % h;
    assert q * h == d * h + m && 0 <= m < h;
  }

  /** A network always contains its own network address. */
  lemma ContainsItsAddress(n: Network)
    requires n.prefixLen <= 32 && Masked(n.address, n.prefixLen) == n.address
    ensures Contains(n, n.address)
  {
  }

  /** A /32 network contains its address and nothing else; a /0 network contains everything. */
  lemma HostAndDefaultRoutes(n: Network, x: Addr)
    requires n.prefixLen <= 32
    ensures n.prefixLen == 32 ==> (Contains(n, x) <==> x == n.address)
    ensures n.prefixLen == 0 && n.address == 0 ==> Contains(n, x)
  {
    Pow2Of32();
  }

  /** The text `a/p` written by the canonical formatter parses back to the network. */
  lemma ParseNetworkText(a: Addr, p: nat)
    requires p <= 32 && Masked(a, p) == a
    ensures ParseNetwork(FormatAddress(a) + "/" + DecimalText(p)) == Some(Network(a, p))
  {
    NetworkTextParts(a, p);
  }

  /** Strict parsing: the text `a/p` of an address with host bits set is refused, not masked. */
  lemma HostBitsRefused(a: Addr, p: nat)
    requires p <= 32 && Masked(a, p) != a
    ensures ParseNetwork(FormatAddress(a) + "/" + DecimalText(p)) == None
  {
    NetworkTextParts(a, p);
  }

  /** The text `a/p` splits at its one slash into an address and a prefix length. */
  lemma NetworkTextParts(a: Addr, p: nat)
    requires p <= 32
    ensures var parts := Split(FormatAddress(a) + "/" + DecimalText(p), '/');
      && parts == [FormatAddress(a), DecimalText(p)]
      && ParseAddress(parts[0]) == Some(a)
      && ParsePrefixLength(parts[1]) == Some(p)
  {
    var parts := [FormatAddress(a), DecimalText(p)];
    var s := FormatAddress(a) + "/" + DecimalText(p);
    assert Join(parts, '/') == s;
    ParseFormat(a);
    SlashInAddressText(a);
    SplitJoin(parts, '/');
    DecimalValueOfText(p);
  }

  lemma SlashInAddressText(a: Addr)
    ensures '/' !in FormatAddress(a)
  {
    var texts := OctetTexts(a);
    OctetOfText(a / 0x100_0000);
    OctetOfText(a / 0x1_0000 % 0x100);
    OctetOfText(a / 0x100 % 0x100);
    OctetOfText(a % 0x100);
    forall i | 0 <= i < 4 ensures '/' !in texts[i] { OctetIsDecimal(texts[i]); }
    JoinFree(texts, '.', '/');
  }

  lemma NetmaskInjective(p: nat, q: nat)
    requires p <= 32 && q <= 32 && p != q
    ensures Netmask(p) != Netmask(q)
  {
    if p < q { Pow2Monotone(32 - q, 32 - p); } else { Pow2Monotone(32 - p, 32 - q); }
  }

  /** A dotted netmask after the slash stands for its prefix length. */
  lemma NetmaskForm(p: nat)
    requires p <= 32
    ensures ParsePrefixLength(FormatAddress(Netmask(p))) == Some(p)
  {
    PrefixOfNetmaskFinds(p, 0, Netmask(p));
    MaskText(Netmask(p));
  }

  lemma DotInAddressText(a: Addr)
    ensures !IsDecimal(FormatAddress(a))
  {
    var texts := OctetTexts(a);
    var s := FormatAddress(a);
    assert s == texts[0] + ['.'] + Join(texts[1..], '.');
    assert s[|texts[0]|] == '.';
  }

  lemma Pow2Even(k: nat)
    requires k >= 1
    ensures Pow2(k) % 2 == 0
  {
  }

  /**
   * A dotted hostmask after the slash stands for its prefix length too; the two
   * ambiguous masks, all zeros and all ones, are read as netmasks instead.
   */
  lemma HostmaskForm(p: nat, h: Addr)
    requires 0 < p < 32 && h + 1 == Pow2(32 - p)
    ensures ParsePrefixLength(FormatAddress(h)) == Some(p)
  {
    HostmaskIsOdd(p, h);
    HostmaskPrefix(h, p);
    MaskText(h);
  }

  /** A hostmask with host bits is odd, below all ones, and the complement of a netmask. */
  lemma HostmaskIsOdd(p: nat, h: Addr)
    requires 0 < p < 32 && h + 1 == Pow2(32 - p)
    ensures h % 2 == 1 && h < ALL_ONES && Netmask(p) == ALL_ONES - h
  {
    Pow2Even(32 - p);
    Pow2Of32();
    Pow2Monotone(32 - p, 32);
  }

  /** An odd mask below all ones, whose complement is the netmask of `p`, stands for `p`. */
  lemma HostmaskPrefix(h: Addr, p: nat)
    requires h % 2 == 1 && h < ALL_ONES && p <= 32 && Netmask(p) == ALL_ONES - h
    ensures MaskPrefixLength(h) == Some(p)
  {
    assert PrefixOfNetmask(h, 0) == None by {
      OddMaskSearchFails(h, 0);
    }
    assert PrefixOfNetmask(ALL_ONES - h, 0) == Some(p) by {
      PrefixOfNetmaskFinds(p, 0, ALL_ONES - h);
    }
  }

  /** A mask written out in dotted form after the slash is read back as that mask. */
  lemma MaskText(m: Addr)
    ensures ParsePrefixLength(FormatAddress(m)) == MaskPrefixLength(m)
  {
    ParseFormat(m);
    DotInAddressText(m);
    DottedPrefixLength(FormatAddress(m), m);
  }

  /** The search for a netmask's prefix length, started at or below it, finds it. */
  lemma {:induction false} PrefixOfNetmaskFinds(p: nat, from: nat, m: nat)
    requires from <= p <= 32 && Netmask(p) == m
    decreases p - from
    ensures PrefixOfNetmask(m, from) == Some(p)
  {
    if from < p {
      NetmaskInjective(p, from);
      PrefixOfNetmaskFinds(p, from + 1, m);
    }
  }

  /** Dotted text after the slash is read as a mask. */
  lemma DottedPrefixLength(t: string, m: Addr)
    requires !IsDecimal(t) && ParseAddress(t) == Some(m)
    ensures ParsePrefixLength(t) == MaskPrefixLength(m)
  {
  }

  /** Every netmask but all ones is even, so an odd mask below all ones is no netmask. */
  lemma NetmaskIsNoOddMask(q: nat, h: nat)
    requires q <= 32 && h % 2 == 1 && h < ALL_ONES
    ensures Netmask(q) != h
  {
    Pow2Of32();
    if q < 32 {
      Pow2Even(32 - q);
    }
  }

  /** The search for a netmask's prefix length fails on an odd mask below all ones. */
  lemma {:induction false} OddMaskSearchFails(h: nat, from: nat)
    requires h % 2 == 1 && h < ALL_ONES && from <= 33
    decreases 33 - from
    ensures PrefixOfNetmask(h, from) == None
  {
    if from <= 32 {
      NetmaskIsNoOddMask(from, h);
      OddMaskSearchFails(h, from + 1);
    }
  }

  /** Whatever the entry, an invalid range contains nothing. */
  lemma InvalidRangeContainsNothing(entry: string, netRange: string)
    requires ParseNetwork(netRange).None?
    ensures !InPrefix(entry, netRange)
  {
  }
}
