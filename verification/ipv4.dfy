/** IPv4 text as Python's `ipaddress.IPv4Network(text, strict=False)` reads
    it: a dotted-quad address, optionally followed by `/` and either a prefix
    length, a dotted netmask or a dotted hostmask. Octets are 1 to 3 ASCII
    digits at most 255, without leading zeros. */
module Ipv4 {
  import opened Wrappers
  import opened Text
  import opened Decimal
  import opened Network

  const AllOnes: nat := 0xFFFF_FFFF

  /** `_parse_octet`: one decimal octet. The octets it accepts are exactly
      the printed forms of 0 to 255. */
  function ParseOctet(o: string): (r: Option<nat>)
    ensures r.Some? ==> r.value < 256 && o == Show(r.value)
  {
    if o == [] then None
    else if !AllDigits(o) then None
    else if |o| > 3 then None
    else if o != "0" && o[0] == '0' then None
    else if Value(o) > 255 then None
    else
      ShowOfValue(o);
      Some(Value(o))
  }

  lemma ParseOctetShow(v: nat)
    requires v < 256
    ensures ParseOctet(Show(v)) == Some(v)
  {
    ShowCanonical(v);
    ShowShort(v);
    ValueOfShow(v);
  }

  /** The four bytes of an address, most significant first
      (`int.to_bytes(4, 'big')`). */
  function OctetsOf(a: nat): (o: seq<nat>)
    ensures |o| == 4 && forall i :: 0 <= i < 4 ==> o[i] < 256
  {
    [a / 256 / 256 / 256 % 256, a / 256 / 256 % 256, a / 256 % 256, a % 256]
  }

  /** `int.from_bytes(octets, 'big')` for four octets. */
  function FromOctets(o: seq<nat>): nat
    requires |o| == 4
  {
    ((o[0] * 256 + o[1]) * 256 + o[2]) * 256 + o[3]
  }

  lemma FromOctetsOf(a: nat)
    requires a < 0x1_0000_0000
    ensures FromOctets(OctetsOf(a)) == a
  {
    var q1 := a / 256;
    var q2 := q1 / 256;
    var q3 := q2 / 256;
    assert a == q1 * 256 + a % 256;
    assert q1 == q2 * 256 + q1 % 256;
    assert q2 == q3 * 256 + q2 % 256;
    assert q3 < 256;
  }

  lemma OctetsOfFrom(o: seq<nat>)
    requires |o| == 4 && forall i :: 0 <= i < 4 ==> o[i] < 256
    ensures FromOctets(o) < 0x1_0000_0000
    ensures OctetsOf(FromOctets(o)) == o
  {
    var q2 := o[0] * 256 + o[1];
    var q1 := q2 * 256 + o[2];
    var a := q1 * 256 + o[3];
    DivModUnique(a, 256, q1, o[3]);
    DivModUnique(q1, 256, q2, o[2]);
    DivModUnique(q2, 256, o[0], o[1]);
    DivModUnique(o[0], 256, 0, o[0]);
  }

  /** `_ip_int_from_string`: a dotted-quad address as an integer. */
  function ParseAddress(t: string): (r: Option<nat>)
    ensures r.Some? ==> r.value < 0x1_0000_0000
  {
    if t == [] then None
    else
      var parts := Split(t, '.');
      if |parts| != 4 then None
      else
        match CollectAll(parts, ParseOctet)
        case None => None
        case Some(o) =>
          OctetsOfFrom(o);
          Some(FromOctets(o))
  }

  /** `str(IPv4Address(a))`: the dotted-quad form of an address. */
  function AddressText(a: nat): string
    requires a < 0x1_0000_0000
  {
    var o := OctetsOf(a);
    Join([Show(o[0]), Show(o[1]), Show(o[2]), Show(o[3])], '.')
  }

  /** An address is written with digits and dots only. */
  lemma AddressTextChars(a: nat, c: char)
    requires a < 0x1_0000_0000 && c in AddressText(a)
    ensures IsDigit(c) || c == '.'
  {
    var o := OctetsOf(a);
    var parts := [Show(o[0]), Show(o[1]), Show(o[2]), Show(o[3])];
    JoinMembers(parts, '.', c);
  }

  /** Every printed address parses back to itself. */
  lemma ParseAddressText(a: nat)
    requires a < 0x1_0000_0000
    ensures ParseAddress(AddressText(a)) == Some(a)
  {
    var o := OctetsOf(a);
    var parts := [Show(o[0]), Show(o[1]), Show(o[2]), Show(o[3])];
    forall i | 0 <= i < 4 ensures '.' !in parts[i] && ParseOctet(parts[i]) == Some(o[i]) {
      ParseOctetShow(o[i]);
    }
    SplitJoin(parts, '.');
    assert Split(AddressText(a), '.') == parts;
    var r := CollectAll(parts, ParseOctet);
    assert r.Some?;
    assert forall i :: 0 <= i < 4 ==> ParseOctet(parts[i]) == Some(r.value[i]);
    assert r.value == o;
    FromOctetsOf(a);
  }

  /** Only printed addresses parse. */
  lemma ParseAddressCanonical(t: string)
    requires ParseAddress(t).Some?
    ensures t == AddressText(ParseAddress(t).value)
  {
    var parts := Split(t, '.');
    var o := CollectAll(parts, ParseOctet).value;
    JoinSplit(t, '.');
    assert forall i :: 0 <= i < 4 ==> ParseOctet(parts[i]) == Some(o[i]);
    OctetsOfFrom(o);
    assert parts == [Show(o[0]), Show(o[1]), Show(o[2]), Show(o[3])];
  }

  /** The addresses `ParseAddress` accepts are exactly the printed ones:
      parsing and printing are inverse bijections between in-range integers
      and canonical dotted quads. */
  lemma ParseAddressIff(t: string, a: nat)
    ensures ParseAddress(t) == Some(a) <==> a < 0x1_0000_0000 && t == AddressText(a)
  {
    if a < 0x1_0000_0000 && t == AddressText(a) {
      ParseAddressText(a);
    }
    if ParseAddress(t) == Some(a) {
      ParseAddressCanonical(t);
    }
  }

  /** `_count_righthand_zero_bits(v, bits)`: trailing zero bits of `v`,
      capped at `bits` (so 0 has `bits` of them). */
  function TrailingZeros(v: nat, bits: nat): (t: nat)
    ensures t <= bits
  {
    if bits == 0 || v % 2 == 1 then 0 else 1 + TrailingZeros(v / 2, bits - 1)
  }

  /** Powers of two up to `2^32` fit the IPv4 address space. */
  lemma Pow2Fits(k: nat)
    requires k <= 32
    ensures Pow2(k) <= 0x1_0000_0000
  {
    Pow2Monotone(k, 32);
    Pow2Values();
  }

  /** The netmask of a `p`-bit prefix: `p` one bits followed by zero bits. */
  function Netmask(p: nat): nat
    requires p <= 32
  {
    Pow2Fits(32 - p);
    0x1_0000_0000 - Pow2(32 - p)
  }

  /** `_prefix_from_ip_int`: the prefix length of a netmask, or failure when
      the value mixes zeroes and ones in any other pattern. */
  function PrefixFromInt(v: nat): (r: Option<nat>)
    ensures r.Some? ==> r.value <= 32
  {
    var tz := TrailingZeros(v, 32);
    var p := 32 - tz;
    if v / Pow2(tz) == Pow2(p) - 1 then Some(p) else None
  }

  /** Doubling a multiple of `d` gives a multiple of `2 * d`. */
  lemma DoubleMultiple(x: nat, d: nat)
    requires d > 0 && x % d == 0
    ensures (2 * x) % (2 * d) == 0
  {
    var k := x / d;
    assert x == k * d;
    assert 2 * x == k * (2 * d);
    MulMod(k, 2 * d);
  }

  lemma {:induction false} TrailingZerosDivide(v: nat, bits: nat)
    ensures v % Pow2(TrailingZeros(v, bits)) == 0
  {
    if bits > 0 && v % 2 == 0 {
      var t := TrailingZeros(v / 2, bits - 1);
      TrailingZerosDivide(v / 2, bits - 1);
      assert TrailingZeros(v, bits) == t + 1;
      assert Pow2(t + 1) == 2 * Pow2(t);
      DoubleMultiple(v / 2, Pow2(t));
      assert v == 2 * (v / 2);
    }
  }


  lemma {:induction false} TrailingZerosOfZero(bits: nat)
    ensures TrailingZeros(0, bits) == bits
  {
    if bits > 0 {
      TrailingZerosOfZero(bits - 1);
    }
  }

  /** An odd number shifted left by `k` places has `k` trailing zeros. */
  lemma {:induction false} TrailingZerosShifted(m: nat, k: nat, bits: nat)
    requires m % 2 == 1 && k <= bits
    ensures TrailingZeros(m * Pow2(k), bits) == k
  {
    if k > 0 {
      var v := m * Pow2(k);
      assert v == 2 * (m * Pow2(k - 1));
      TrailingZerosShifted(m, k - 1, bits - 1);
    }
  }

  lemma PrefixFromIntSound(v: nat)
    requires PrefixFromInt(v).Some?
    ensures v == Netmask(PrefixFromInt(v).value)
  {
    var tz := TrailingZeros(v, 32);
    var p := 32 - tz;
    var x, d := Pow2(p), Pow2(tz);
    TrailingZerosDivide(v, 32);
    assert v / d == x - 1 && v % d == 0;
    DivMod(v, d);
    assert v == (x - 1) * d;
    Pow2Add(p, tz);
    Pow2Values();
    assert x * d == 0x1_0000_0000;
    MulPred(x, d);
  }

  /** A netmask is its prefix's worth of one bits shifted past the host bits. */
  lemma NetmaskFactor(p: nat, m: nat, d: nat)
    requires p <= 32 && m + 1 == Pow2(p) && d == Pow2(32 - p)
    ensures Netmask(p) == m * d
  {
    Pow2Add(p, 32 - p);
    Pow2Values();
    MulPred(m + 1, d);
  }

  /** What `PrefixFromInt` does once the trailing zeros are known. */
  lemma PrefixFromIntOf(v: nat, k: nat)
    requires k <= 32 && TrailingZeros(v, 32) == k
    requires v / Pow2(k) == Pow2(32 - k) - 1
    ensures PrefixFromInt(v) == Some(32 - k)
  {
  }

  lemma PrefixFromIntZero()
    ensures PrefixFromInt(0) == Some(0)
  {
    TrailingZerosOfZero(32);
    DivModUnique(0, Pow2(32), 0, 0);
    PrefixFromIntOf(0, 32);
  }

  /** An odd multiplier below `2^(32 - k)` shifted by `k` places. */
  lemma PrefixFromIntOdd(m: nat, k: nat, v: nat)
    requires k <= 32 && m % 2 == 1 && m == Pow2(32 - k) - 1 && v == m * Pow2(k)
    ensures PrefixFromInt(v) == Some(32 - k)
  {
    TrailingZerosShifted(m, k, 32);
    MulMod(m, Pow2(k));
    PrefixFromIntOf(v, k);
  }

  lemma PrefixFromIntShifted(p: nat, m: nat, v: nat)
    requires 0 < p <= 32 && m + 1 == Pow2(p) && v == m * Pow2(32 - p)
    ensures PrefixFromInt(v) == Some(p)
  {
    Pow2PredOdd(p);
    PrefixFromIntOdd(m, 32 - p, v);
  }

  lemma PrefixFromIntComplete(p: nat)
    requires p <= 32
    ensures PrefixFromInt(Netmask(p)) == Some(p)
  {
    var m, d := Pow2(p) - 1, Pow2(32 - p);
    NetmaskFactor(p, m, d);
    if p == 0 {
      PrefixFromIntZero();
    } else {
      PrefixFromIntShifted(p, m, Netmask(p));
    }
  }

  /** `PrefixFromInt` recognises exactly the 33 netmasks. */
  lemma PrefixFromIntIff(v: nat, p: nat)
    ensures PrefixFromInt(v) == Some(p) <==> p <= 32 && v == Netmask(p)
  {
    if PrefixFromInt(v) == Some(p) {
      PrefixFromIntSound(v);
    }
    if p <= 32 && v == Netmask(p) {
      PrefixFromIntComplete(p);
    }
  }

  /** The prefix after `/`: a decimal prefix length from 0 to 32
      (`_prefix_from_prefix_string`), failing that a dotted netmask, failing
      that a dotted hostmask (`_prefix_from_ip_string`). */
  function ParsePrefix(m: string): (r: Option<nat>)
    ensures r.Some? ==> r.value <= 32
  {
    if m != [] && AllDigits(m) && Value(m) <= 32 then Some(Value(m))
    else
      match ParseAddress(m)
      case None => None
      case Some(v) =>
        match PrefixFromInt(v)
        case Some(p) => Some(p)
        case None => PrefixFromInt(AllOnes - v)
  }

  /** The IPv4 network of prefix `p` containing `a`. */
  function MakeV4(a: nat, p: nat): (n: Network)
    requires a < 0x1_0000_0000 && p <= 32
    ensures n.version == V4 && n.prefix == p && n.base == Mask(a, p, 32)
  {
    Pow2Values();
    MakeNetwork(V4, a, p)
  }

  /** `IPv4Network(s, strict=False)`: host bits of the address are cleared
      rather than rejected; a bare address is a /32 network. */
  function ParseNetwork(s: string): (r: Option<Network>)
    ensures r.Some? ==> r.value.version == V4
  {
    var parts := Split(s, '/');
    if |parts| > 2 then None
    else
      match ParseAddress(parts[0])
      case None => None
      case Some(a) =>
        var prefix := if |parts| == 1 then Some(32) else ParsePrefix(parts[1]);
        match prefix
        case None => None
        case Some(p) => Some(MakeV4(a, p))
  }

  /** `str(IPv4Network)`: address, slash, prefix length. */
  function Format(n: Network): string
    requires n.version == V4
  {
    Pow2Values();
    AddressText(n.base) + "/" + Show(n.prefix)
  }

  lemma SplitAddressSlash(a: nat, m: string)
    requires a < 0x1_0000_0000 && '/' !in m
    ensures Split(AddressText(a) + "/" + m, '/') == [AddressText(a), m]
  {
    if '/' in AddressText(a) {
      AddressTextChars(a, '/');
    }
    SplitJoin([AddressText(a), m], '/');
  }

  /** An address followed by `/` and a slash-free prefix text denotes the
      masked network when the prefix text is readable, and nothing otherwise. */
  lemma ParseAddressWithPrefix(a: nat, m: string)
    requires a < 0x1_0000_0000 && '/' !in m
    ensures ParseNetwork(AddressText(a) + "/" + m)
            == if ParsePrefix(m).Some? then Some(MakeV4(a, ParsePrefix(m).value)) else None
  {
    SplitAddressSlash(a, m);
    ParseAddressIff(AddressText(a), a);
  }

  lemma ParsePrefixShow(p: nat)
    requires p <= 32
    ensures ParsePrefix(Show(p)) == Some(p)
  {
    ValueOfShow(p);
  }

  lemma DottedHasDot(a: nat)
    requires a < 0x1_0000_0000
    ensures '.' in AddressText(a)
  {
    var o := OctetsOf(a);
    assert AddressText(a) == Show(o[0]) + ['.'] + Join([Show(o[1]), Show(o[2]), Show(o[3])], '.');
    assert AddressText(a)[|Show(o[0])|] == '.';
  }

  /** Prefix text with a dot in it is never a prefix length: it is read as
      an address, first as a netmask and then as a hostmask. */
  lemma ParsePrefixAddress(m: string, x: nat)
    requires '.' in m && ParseAddress(m) == Some(x)
    ensures ParsePrefix(m)
            == if PrefixFromInt(x).Some? then PrefixFromInt(x) else PrefixFromInt(AllOnes - x)
  {
    var k :| 0 <= k < |m| && m[k] == '.';
    assert !IsDigit(m[k]);
  }

  /** A dotted prefix text is read as an address, never as a prefix length. */
  lemma ParsePrefixDotted(x: nat)
    requires x < 0x1_0000_0000
    ensures ParsePrefix(AddressText(x))
            == if PrefixFromInt(x).Some? then PrefixFromInt(x) else PrefixFromInt(AllOnes - x)
  {
    DottedHasDot(x);
    ParseAddressText(x);
    ParsePrefixAddress(AddressText(x), x);
  }


  lemma ParsePrefixNetmask(p: nat)
    requires p <= 32
    ensures Netmask(p) < 0x1_0000_0000
    ensures ParsePrefix(AddressText(Netmask(p))) == Some(p)
  {
    ParsePrefixDotted(Netmask(p));
    PrefixFromIntComplete(p);
  }

  lemma Pow2Even(k: nat)
    requires k >= 1
    ensures Pow2(k) % 2 == 0
  {
  }

  /** One less than a positive power of two is odd. */
  lemma Pow2PredOdd(k: nat)
    requires k >= 1
    ensures (Pow2(k) - 1) % 2 == 1
  {
    Pow2Even(k);
    DivModUnique(Pow2(k) - 1, 2, Pow2(k) / 2 - 1, 1);
  }

  /** Every netmask but the all-ones one ends in a zero bit. */
  lemma NetmaskEven(q: nat)
    requires q < 32
    ensures Netmask(q) % 2 == 0
  {
    var b := Pow2(31 - q);
    assert Pow2(32 - q) == 2 * b;
    DivModUnique(Netmask(q), 2, 0x8000_0000 - b, 0);
  }

  /** A value that is no netmask has no prefix length. */
  lemma NoNetmaskNoPrefix(v: nat)
    requires forall q :: q <= 32 ==> Netmask(q) != v
    ensures PrefixFromInt(v) == None
  {
    if PrefixFromInt(v).Some? {
      PrefixFromIntSound(v);
    }
  }

  lemma HostmaskIsNoNetmask(k: nat, q: nat)
    requires 0 < k < 32 && q <= 32
    ensures Netmask(q) != Pow2(k) - 1
  {
    Pow2PredOdd(k);
    if q < 32 {
      NetmaskEven(q);
    } else {
      Pow2StrictMonotone(k, 32);
      Pow2Values();
    }
  }

  /** A hostmask strictly between all-zero and all-one bits is no netmask. */
  lemma HostmaskNotNetmask(k: nat, h: nat)
    requires 0 < k < 32 && h + 1 == Pow2(k)
    ensures PrefixFromInt(h) == None
  {
    forall q | q <= 32 ensures Netmask(q) != h {
      HostmaskIsNoNetmask(k, q);
    }
    NoNetmaskNoPrefix(h);
  }


  /** The complement of a `k`-bit hostmask is the netmask of `32 - k`. */
  lemma HostmaskComplement(p: nat, h: nat)
    requires p <= 32 && h + 1 == Pow2(32 - p)
    ensures h < 0x1_0000_0000 && AllOnes - h == Netmask(p)
  {
    Pow2Fits(32 - p);
  }

  /** A dotted prefix text that is no netmask but whose complement is the
      netmask of `p` is read as prefix `p`. */
  lemma ParsePrefixComplement(x: nat, p: nat)
    requires x < 0x1_0000_0000 && p <= 32
    requires PrefixFromInt(x) == None && PrefixFromInt(AllOnes - x) == Some(p)
    ensures ParsePrefix(AddressText(x)) == Some(p)
  {
    ParsePrefixDotted(x);
  }

  lemma ParsePrefixHostmask(p: nat)
    requires 0 < p < 32
    ensures Pow2(32 - p) - 1 < 0x1_0000_0000
    ensures ParsePrefix(AddressText(Pow2(32 - p) - 1)) == Some(p)
  {
    var h := Pow2(32 - p) - 1;
    HostmaskComplement(p, h);
    HostmaskNotNetmask(32 - p, h);
    PrefixFromIntComplete(p);
    ParsePrefixComplement(h, p);
  }

  /** Host bits in the written address are masked away: any address with a
      decimal prefix denotes the network that contains it. */
  lemma ParseHostBitsMasked(a: nat, p: nat)
    requires a < 0x1_0000_0000 && p <= 32
    ensures ParseNetwork(AddressText(a) + "/" + Show(p)) == Some(MakeV4(a, p))
  {
    assert '/' !in Show(p);
    ParseAddressWithPrefix(a, Show(p));
    ParsePrefixShow(p);
  }

  /** Printing a network and parsing the text gives the network back. */
  lemma FormatRoundTrip(n: Network)
    requires n.version == V4
    ensures ParseNetwork(Format(n)) == Some(n)
  {
    Pow2Values();
    ParseHostBitsMasked(n.base, n.prefix);
    MaskIdempotent(n);
  }

  /** Two addresses in the same block, written with the same prefix, parse to
      the same network. */
  lemma SameBlockSameNetwork(a: nat, b: nat, p: nat)
    requires a < 0x1_0000_0000 && b < 0x1_0000_0000 && p <= 32
    requires Mask(a, p, 32) == Mask(b, p, 32)
    ensures ParseNetwork(AddressText(a) + "/" + Show(p)) == ParseNetwork(AddressText(b) + "/" + Show(p))
  {
    ParseHostBitsMasked(a, p);
    ParseHostBitsMasked(b, p);
  }

  /** A bare address is the single-address network. */
  lemma ParseBareAddress(a: nat)
    requires a < 0x1_0000_0000
    ensures ParseNetwork(AddressText(a)) == Some(Net(V4, a, 32))
  {
    Pow2Values();
    if '/' in AddressText(a) {
      AddressTextChars(a, '/');
    }
    SplitNoSeparator(AddressText(a), '/');
    ParseAddressIff(AddressText(a), a);
  }

  /** A dotted netmask means the same as its prefix length. */
  lemma ParseNetmaskForm(a: nat, p: nat)
    requires a < 0x1_0000_0000 && p <= 32
    ensures Netmask(p) < 0x1_0000_0000
    ensures ParseNetwork(AddressText(a) + "/" + AddressText(Netmask(p)))
            == ParseNetwork(AddressText(a) + "/" + Show(p))
  {
    ParsePrefixNetmask(p);
    var m := AddressText(Netmask(p));
    if '/' in m {
      AddressTextChars(Netmask(p), '/');
    }
    ParseAddressWithPrefix(a, m);
    ParseHostBitsMasked(a, p);
  }

  /** A dotted hostmask strictly between all-zero and all-one bits means the
      same as its prefix length. (The two ends read as netmasks: `0.0.0.0`
      is /0 and `255.255.255.255` is /32.) */
  lemma ParseHostmaskForm(a: nat, p: nat)
    requires a < 0x1_0000_0000 && 0 < p < 32
    ensures Pow2(32 - p) - 1 < 0x1_0000_0000
    ensures ParseNetwork(AddressText(a) + "/" + AddressText(Pow2(32 - p) - 1))
            == ParseNetwork(AddressText(a) + "/" + Show(p))
  {
    ParsePrefixHostmask(p);
    var m := AddressText(Pow2(32 - p) - 1);
    if '/' in m {
      AddressTextChars(Pow2(32 - p) - 1, '/');
    }
    ParseAddressWithPrefix(a, m);
    ParseHostBitsMasked(a, p);
  }

  /** IPv4 text never contains a colon: a colon anywhere makes the parse
      fail, so such text can only be IPv6. */
  lemma ColonNeverIpv4(s: string)
    requires ':' in s
    ensures ParseNetwork(s) == None
  {
    var parts := Split(s, '/');
    if |parts| <= 2 {
      JoinSplit(s, '/');
      JoinMembers(parts, '/', ':');
      var i :| 0 <= i < |parts| && ':' in parts[i];
      ColonNeverAddress(parts[i]);
      if i == 1 && ParseAddress(parts[0]).Some? {
        var k :| 0 <= k < |parts[1]| && parts[1][k] == ':';
        assert !IsDigit(parts[1][k]);
      }
    }
  }

  lemma ColonNeverAddress(t: string)
    requires ':' in t
    ensures ParseAddress(t) == None
  {
    var parts := Split(t, '.');
    if t != [] && |parts| == 4 {
      JoinSplit(t, '.');
      JoinMembers(parts, '.', ':');
      var i :| 0 <= i < |parts| && ':' in parts[i];
    }
  }
}
