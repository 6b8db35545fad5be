/**
 * The test of an IPv4 address against address ranges (src/config/cidr-validator.ts): its signed 32-bit arithmetic,
 * compared with section 3.1 of RFC 4632.
 */
module Cidr {
  import Decimal
  import opened Text

  // ---- Numbers of the language --------------------------------------------------------------------------------------

  datatype Number = NaN | Whole(value: int)

  const TWO_TO_32: int := 0x1_0000_0000

  function Pow2(n: nat): (r: nat)
    ensures r >= 1
  {
    if n == 0 then 1 else 2 * Pow2(n - 1)
  }

  function ToUint32(x: Number): (r: nat)
    ensures r < TWO_TO_32
  {
    if x.NaN? then 0 else x.value % TWO_TO_32
  }

  /** The operand of a bitwise operator. */
  function ToInt32(x: Number): (r: int)
    ensures -0x8000_0000 <= r < 0x8000_0000
  {
    var n := ToUint32(x);
    if n < 0x8000_0000 then n else n - TWO_TO_32
  }

  /** `x << 8` */
  function ShiftLeft8(x: Number): int {
    ToInt32(Whole(ToInt32(x) * 0x100))
  }

  function Add(x: Number, y: Number): Number {
    if x.NaN? || y.NaN? then NaN else Whole(x.value + y.value)
  }

  /** The conjunction of the lowest `n` bits. */
  function BitAnd(x: nat, y: nat, n: nat): nat {
    if n == 0 then 0
    else 2 * BitAnd(x / 2, y / 2, n - 1) + if x % 2 == 1 && y % 2 == 1 then 1 else 0
  }

  /** `x & y` */
  function And(x: Number, y: Number): int {
    ToInt32(Whole(BitAnd(ToUint32(x), ToUint32(y), 32)))
  }

  /** `~x` */
  function Not(x: Number): int {
    -ToInt32(x) - 1
  }

  /** What `parseInt` skips. */
  predicate IsSpace(c: char) {
    '\U{0009}' <= c <= '\U{000D}' || c == ' ' || c == '\U{00A0}' || c == '\U{1680}' || '\U{2000}' <= c <= '\U{200A}'
    || c in ['\U{2028}', '\U{2029}', '\U{202F}', '\U{205F}', '\U{3000}', '\U{FEFF}']
  }

  function TrimStart(s: string): string {
    if s != "" && IsSpace(s[0]) then TrimStart(s[1..]) else s
  }

  /** `parseInt(s, 10)`: the longest run of digits at the start, after white space and a sign. */
  function ParseInt(s: string): Number {
    var trimmed := TrimStart(s);
    var signed := trimmed != "" && trimmed[0] in {'+', '-'};
    var digits := if signed then trimmed[1..] else trimmed;
    var end := Decimal.DigitsEnd(digits, 0);
    if end == 0 then NaN
    else
      var value: int := Decimal.Value(digits[0..end]);
      Whole(if signed && trimmed[0] == '-' then -value else value)
  }

  // ---- The validator ------------------------------------------------------------------------------------------------

  function FoldOctets(acc: Number, octets: seq<string>): Number
    decreases |octets|
  {
    if octets == [] then acc
    else FoldOctets(Add(Whole(ShiftLeft8(acc)), ParseInt(octets[0])), octets[1..])
  }

  function Ip4ToInt(ip: string): (r: nat)
    ensures r < TWO_TO_32
  {
    ToUint32(FoldOctets(Whole(0), Split(ip, '.')))
  }

  /** `~(2 ** (32 - bits) - 1)`; the power of a negative number is a fraction, which a bitwise operator drops. */
  function Mask(bits: Number): int {
    if bits.NaN? then Not(NaN)
    else if bits.value > 32 then Not(Whole(0))
    else Not(Whole(Pow2(32 - bits.value) - 1))
  }

  predicate IsIp4InCidr(ip: string, cidr: string) {
    var pieces := Split(cidr, '/');
    var range := pieces[0];
    var bits := if |pieces| > 1 then pieces[1] else "32";
    var mask := Mask(ParseInt(bits));
    And(Whole(Ip4ToInt(ip)), Whole(mask)) == And(Whole(Ip4ToInt(range)), Whole(mask))
  }

  predicate IsIp4InCidrs(ip: string, cidrs: seq<string>) {
    exists x | 0 <= x < |cidrs| :: IsIp4InCidr(ip, cidrs[x])
  }

  // ---- Masks --------------------------------------------------------------------------------------------------------

  /** The number of low bits that the mask clears. */
  function HostBits(bits: Number): (k: nat)
    ensures k <= 32
  {
    if bits.NaN? || bits.value > 32 then 0 else if bits.value < 0 then 32 else 32 - bits.value
  }

  lemma {:induction false} Pow2Divides(n: nat, k: nat)
    requires k <= n
    ensures Pow2(n) == Pow2(k) * Pow2(n - k)
  {
    if k > 0 {
      Pow2Divides(n - 1, k - 1);
    }
  }

  lemma Pow2Of32()
    ensures Pow2(32) == TWO_TO_32
  {
    assert Pow2(8) == 0x100;
    Pow2Divides(16, 8);
    Pow2Divides(32, 16);
  }

  lemma {:induction false} BitAndOnes(x: nat, n: nat)
    requires x < Pow2(n)
    ensures BitAnd(x, Pow2(n) - 1, n) == x
  {
    if n > 0 {
      BitAndOnes(x / 2, n - 1);
      assert (Pow2(n) - 1) / 2 == Pow2(n - 1) - 1;
    }
  }

  // Clearing the low bits is dividing and multiplying again.
  lemma {:induction false} BitAndMask(x: nat, k: nat, n: nat)
    requires k <= n && x < Pow2(n)
    ensures Pow2(k) <= Pow2(n)
    ensures BitAnd(x, Pow2(n) - Pow2(k), n) == x / Pow2(k) * Pow2(k)
  {
    if k == 0 {
      BitAndOnes(x, n);
    } else {
      var q, m := x / 2 / Pow2(k - 1), Pow2(k - 1);
      BitAndMask(x / 2, k - 1, n - 1);
      DivideTwice(x, m);
      assert Pow2(n) == 2 * Pow2(n - 1) && Pow2(k) == 2 * m;
      hide Pow2;
      assert (Pow2(n) - Pow2(k)) / 2 == Pow2(n - 1) - m && (Pow2(n) - Pow2(k)) % 2 == 0;
      assert BitAnd(x, Pow2(n) - Pow2(k), n) == 2 * BitAnd(x / 2, Pow2(n - 1) - m, n - 1);
      DoubledProduct(q, m);
    }
  }

  lemma DoubledProduct(q: nat, m: nat)
    ensures q * (2 * m) == 2 * (q * m)
  {
  }

  lemma DivideTwice(x: nat, m: nat)
    requires m > 0
    ensures x / (2 * m) == x / 2 / m
  {
    var q, r := x / 2 / m, x / 2 % m;
    assert x / 2 == m * q + r;
    assert x == 2 * (m * q + r) + x % 2;
    assert x == (2 * m) * q + (2 * r + x % 2);
    QuotientIs(x, 2 * m, q, 2 * r + x % 2);
  }

  lemma QuotientIs(x: nat, m: nat, q: nat, r: nat)
    requires m > 0 && x == m * q + r && r < m
    ensures x / m == q
  {
    TimesMonotone(m, x / m + 1, q);
    TimesMonotone(m, q + 1, x / m);
  }

  lemma TimesMonotone(m: nat, a: nat, b: nat)
    ensures a <= b ==> m * a <= m * b
  {
  }

  lemma MaskExact(bits: Number)
    ensures ToUint32(Whole(Mask(bits))) == TWO_TO_32 - Pow2(HostBits(bits))
  {
    hide Pow2, ToUint32, ToInt32;
    Pow2OfZero();
    if bits.NaN? || bits.value > 32 {
      NotExact(NaN);
      NotExact(Whole(0));
      assert ToUint32(NaN) == 0 && ToUint32(Whole(0)) == 0 by {
        NothingIsZero();
      }
    } else {
      OnesExact(32 - bits.value);
      NotExact(Whole(Pow2(32 - bits.value) - 1));
    }
  }

  lemma NothingIsZero()
    ensures ToUint32(NaN) == 0 && ToUint32(Whole(0)) == 0
  {
  }

  lemma NotExact(x: Number)
    ensures ToUint32(Whole(Not(x))) == TWO_TO_32 - 1 - ToUint32(x)
  {
  }

  lemma OnesExact(e: nat)
    ensures ToUint32(Whole(Pow2(e) - 1)) == Pow2(if e > 32 then 32 else e) - 1
  {
    hide Pow2;
    Pow2Of32();
    if e >= 32 {
      Pow2Divides(e, 32);
      WrapsAround(Pow2(e - 32));
    } else {
      Pow2Divides(32, e);
      MultiplesAreLarger(Pow2(e), Pow2(32 - e));
    }
  }

  lemma WrapsAround(q: nat)
    requires q >= 1
    ensures (TWO_TO_32 * q - 1) % TWO_TO_32 == TWO_TO_32 - 1
  {
    assert TWO_TO_32 * q - 1 == TWO_TO_32 * (q - 1) + (TWO_TO_32 - 1);
  }

  lemma MultiplesAreLarger(x: nat, y: nat)
    requires y >= 1
    ensures x <= x * y
  {
  }

  // Two multiples of the same number are equal exactly if the factors are.
  lemma SameQuotient(q1: nat, q2: nat, m: nat)
    requires m > 0
    ensures q1 * m == q2 * m <==> q1 == q2
  {
  }

  lemma AndWithMask(x: nat, bits: Number)
    requires x < TWO_TO_32
    ensures var m := Pow2(HostBits(bits));
            ToUint32(Whole(And(Whole(x), Whole(Mask(bits))))) == x / m * m
  {
    hide BitAnd, Mask, Pow2;
    Pow2Of32();
    MaskExact(bits);
    var k := HostBits(bits);
    BitAndMask(x, k, 32);
    var r := BitAnd(x, TWO_TO_32 - Pow2(k), 32);
    RoundedDown(x, Pow2(k));
    assert ToUint32(Whole(x)) == x;
    assert And(Whole(x), Whole(Mask(bits))) == ToInt32(Whole(r));
    SignDropped(r);
  }

  lemma RoundedDown(x: nat, m: nat)
    requires m > 0
    ensures 0 <= x / m * m <= x
  {
    assert x == m * (x / m) + x % m;
  }

  lemma SignDropped(r: nat)
    requires r < TWO_TO_32
    ensures ToUint32(Whole(ToInt32(Whole(r)))) == r
  {
  }

  /** The two parts of a range; a missing prefix length is 32. */
  function RangeOf(cidr: string): string {
    Split(cidr, '/')[0]
  }

  function BitsOf(cidr: string): Number {
    ParseInt(if |Split(cidr, '/')| > 1 then Split(cidr, '/')[1] else "32")
  }

  // Main result, for every pair of texts: the signed test compares the two addresses without their host bits.
  lemma CidrTestExact(ip: string, cidr: string)
    ensures var m := Pow2(HostBits(BitsOf(cidr)));
            IsIp4InCidr(ip, cidr) <==> Ip4ToInt(ip) / m == Ip4ToInt(RangeOf(cidr)) / m
  {
    hide And, Mask, Pow2, Ip4ToInt, Split, ParseInt, HostBits;
    var bits := BitsOf(cidr);
    var a, b, m := Ip4ToInt(ip), Ip4ToInt(RangeOf(cidr)), Pow2(HostBits(bits));
    AndWithMask(a, bits);
    AndWithMask(b, bits);
    var x, y := And(Whole(a), Whole(Mask(bits))), And(Whole(b), Whole(Mask(bits)));
    AndIsInt32(Whole(a), Whole(Mask(bits)));
    AndIsInt32(Whole(b), Whole(Mask(bits)));
    assert x == y <==> ToUint32(Whole(x)) == ToUint32(Whole(y));
    SameQuotient(a / m, b / m, m);
  }

  lemma AndIsInt32(x: Number, y: Number)
    ensures -0x8000_0000 <= And(x, y) < 0x8000_0000
  {
  }

  // ---- Addresses in dotted form -------------------------------------------------------------------------------------

  /** An address of section 3.1 of RFC 4632. */
  datatype Address = Address(a: nat, b: nat, c: nat, d: nat)
  {
    predicate Valid() {
      a < 256 && b < 256 && c < 256 && d < 256
    }

    function Dotted(): string {
      Join([Decimal.Print(a), Decimal.Print(b), Decimal.Print(c), Decimal.Print(d)], ".")
    }

    function Number(): nat {
      ((a * 256 + b) * 256 + c) * 256 + d
    }
  }

  lemma ParseIntOfPrint(n: nat)
    ensures ParseInt(Decimal.Print(n)) == Whole(n)
  {
    var s := Decimal.Print(n);
    assert Decimal.IsDigit(s[0]);
    assert s[0..|s|] == s;
    Decimal.DigitsEndAt(s, 0, |s|);
    Decimal.ValueOfPrint(n);
  }

  lemma PrintHasNo(n: nat, c: char)
    requires !Decimal.IsDigit(c)
    ensures c !in Decimal.Print(n)
  {
  }

  lemma DottedValue(x: Address)
    requires x.Valid()
    ensures Ip4ToInt(x.Dotted()) == x.Number()
  {
    hide ParseInt, Split, Join;
    var octets := [Decimal.Print(x.a), Decimal.Print(x.b), Decimal.Print(x.c), Decimal.Print(x.d)];
    PrintHasNo(x.a, '.');
    PrintHasNo(x.b, '.');
    PrintHasNo(x.c, '.');
    PrintHasNo(x.d, '.');
    SplitJoin(octets, '.');
    ParseIntOfPrint(x.a);
    ParseIntOfPrint(x.b);
    ParseIntOfPrint(x.c);
    ParseIntOfPrint(x.d);
    FoldFour(x);
  }

  lemma FoldStep(acc: nat, octet: nat, rest: seq<string>)
    ensures FoldOctets(Whole(acc), [Decimal.Print(octet)] + rest)
            == FoldOctets(Whole(ShiftLeft8(Whole(acc)) + octet), rest)
  {
    hide ParseInt, ShiftLeft8;
    ParseIntOfPrint(octet);
    assert ([Decimal.Print(octet)] + rest)[1..] == rest;
  }

  lemma ShiftedSmall(n: nat)
    requires n < 0x80_0000
    ensures ShiftLeft8(Whole(n)) == n * 256
  {
  }

  lemma ShiftedLast(n: nat, octet: nat)
    requires n < 0x100_0000 && octet < 256
    ensures ToUint32(Whole(ShiftLeft8(Whole(n)) + octet)) == n * 256 + octet
  {
  }

  lemma FoldFour(x: Address)
    requires x.Valid()
    ensures var octets := [Decimal.Print(x.a), Decimal.Print(x.b), Decimal.Print(x.c), Decimal.Print(x.d)];
            ToUint32(FoldOctets(Whole(0), octets)) == x.Number()
  {
    hide ShiftLeft8, ToUint32, Decimal.Print, FoldOctets;
    var a, b, c, d := Decimal.Print(x.a), Decimal.Print(x.b), Decimal.Print(x.c), Decimal.Print(x.d);
    var two := x.a * 256 + x.b;
    var three := two * 256 + x.c;
    ShiftedSmall(0);
    ShiftedSmall(x.a);
    ShiftedSmall(two);
    ShiftedLast(three, x.d);
    assert [a, b, c, d] == [a] + [b, c, d];
    FoldStep(0, x.a, [b, c, d]);
    assert [b, c, d] == [b] + [c, d];
    FoldStep(x.a, x.b, [c, d]);
    assert [c, d] == [c] + [d];
    FoldStep(two, x.c, [d]);
    assert [d] == [d] + [];
    FoldStep(three, x.d, []);
    FoldNothing(Whole(ShiftLeft8(Whole(three)) + x.d));
  }

  lemma FoldNothing(acc: Number)
    ensures FoldOctets(acc, []) == acc
  {
  }

  // Main result: for valid octets and a prefix length of 0 to 32 an address is in one of the ranges exactly if its
  // first bits, as many as the prefix says, are those of the range.
  lemma InRangeExactly(x: Address, range: Address, prefix: nat)
    requires x.Valid() && range.Valid() && prefix <= 32
    ensures IsIp4InCidr(x.Dotted(), range.Dotted() + "/" + Decimal.Print(prefix)) <==>
              x.Number() / Pow2(32 - prefix) == range.Number() / Pow2(32 - prefix)
    ensures IsIp4InCidr(x.Dotted(), range.Dotted()) <==> x.Number() == range.Number()
  {
    hide ParseInt, Ip4ToInt, Split, Pow2, IsIp4InCidr;
    var cidr := range.Dotted() + "/" + Decimal.Print(prefix);
    DottedValue(x);
    DottedValue(range);
    DottedHasNoSlash(range);
    CidrTestExact(x.Dotted(), cidr);
    CidrTestExact(x.Dotted(), range.Dotted());
    SplitClean(range.Dotted(), '/');
    PrintHasNo(prefix, '/');
    SplitClean(Decimal.Print(prefix), '/');
    SplitConcat(range.Dotted(), '/', Decimal.Print(prefix));
    ParseIntOfPrint(prefix);
    assert cidr == range.Dotted() + ['/'] + Decimal.Print(prefix);
    ParseIntOf32();
    Pow2OfZero();
  }

  lemma DottedHasNoSlash(x: Address)
    ensures '/' !in x.Dotted()
  {
    var octets := [Decimal.Print(x.a), Decimal.Print(x.b), Decimal.Print(x.c), Decimal.Print(x.d)];
    PrintHasNo(x.a, '/');
    PrintHasNo(x.b, '/');
    PrintHasNo(x.c, '/');
    PrintHasNo(x.d, '/');
    if '/' in x.Dotted() {
      JoinedChars(octets, '.', '/');
    }
  }

  lemma ParseIntOf32()
    ensures ParseInt("32") == Whole(32)
  {
    hide ParseInt;
    ParseIntOfPrint(32);
    assert Decimal.DigitChar(3) == '3' && Decimal.DigitChar(2) == '2';
    assert Decimal.Print(3) == "3";
    assert Decimal.Print(32) == Decimal.Print(3) + "2" == "32";
  }

  lemma Pow2OfZero()
    ensures Pow2(0) == 1
  {
  }

  /** A range as it is configured: an address and the number of leading bits that count. */
  datatype Range = Range(address: Address, prefix: nat)
  {
    predicate Valid() {
      address.Valid() && prefix <= 32
    }

    function Dotted(): string {
      address.Dotted() + "/" + Decimal.Print(prefix)
    }

    predicate Contains(x: Address)
      requires Valid()
    {
      x.Number() / Pow2(32 - prefix) == address.Number() / Pow2(32 - prefix)
    }
  }

  lemma InSomeRangeExactly(x: Address, ranges: seq<Range>)
    requires x.Valid() && forall range | range in ranges :: range.Valid()
    ensures IsIp4InCidrs(x.Dotted(), seq(|ranges|, i requires 0 <= i < |ranges| => ranges[i].Dotted()))
            <==> exists range | range in ranges :: range.Contains(x)
  {
    hide IsIp4InCidr, Pow2, Decimal.Print, Address.Dotted, Address.Number, Address.Valid;
    var cidrs := seq(|ranges|, i requires 0 <= i < |ranges| => ranges[i].Dotted());
    forall i | 0 <= i < |ranges|
      ensures IsIp4InCidr(x.Dotted(), cidrs[i]) <==> ranges[i].Contains(x)
    {
      assert ranges[i] in ranges;
      InRangeExactly(x, ranges[i].address, ranges[i].prefix);
    }
  }
}
