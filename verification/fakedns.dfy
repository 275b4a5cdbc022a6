/** The FakeDNS allocator: a counter kept as the bytes of an address and incremented in place,
    tested against the CIDR mask, and reset to host 3; and the two maps it feeds. */
module FakeDns {
  import opened Bytes
  import opened BigEndian
  import Net = IP

  /** net.IPNet after ParseCIDR: the network address, in 4 or 16 bytes, and the mask length. */
  datatype Cidr = Cidr(ip: Bytes, prefix: nat)

  predicate Shaped(c: Cidr) {
    |c.ip| == 4 || |c.ip| == 16
  }

  /** The address the allocator works on: network.IP.To4(), or To16() when there is none. */
  function Base(c: Cidr): (b: Bytes)
    requires Shaped(c)
    ensures |b| == 4 || |b| == 16
  {
    if Net.To4(c.ip) != [] then Net.To4(c.ip) else c.ip
  }

  /** An IPv4 range written in IPv6 form, ::ffff:a.b.c.d/n: the network keeps its 16 bytes. */
  predicate Mapped(c: Cidr)
    requires Shaped(c)
  {
    |Base(c)| != |c.ip|
  }

  /** The mask length on Base. */
  function Bits(c: Cidr): nat
    requires Shaped(c)
  {
    if Mapped(c) && c.prefix >= 96 then c.prefix - 96 else c.prefix
  }

  /** The number of addresses of the range. */
  function Size(c: Cidr): (n: nat)
    requires Shaped(c)
    ensures n > 0
  {
    Pow2(if Bits(c) <= 8 * |Base(c)| then 8 * |Base(c)| - Bits(c) else 0)
  }

  /** ParseCIDR leaves the host bits zero, so a range written in IPv6 form that still shows the
      IPv4 prefix has a mask of at least 96. */
  ghost predicate ValidCidr(c: Cidr) {
    && Shaped(c) && c.prefix <= 8 * |c.ip| && (Mapped(c) ==> c.prefix >= 96)
    && Value(Base(c)) % Size(c) == 0
  }

  /** network.Contains: an IPv4-mapped address is looked at as IPv4. */
  predicate InNetwork(c: Cidr, ip: Bytes)
    requires Shaped(c)
  {
    Contains(Base(c), Bits(c), if Net.To4(ip) != [] then Net.To4(ip) else ip)
  }

  /** The network address with another last byte: .1 gateway, .2 DNS, .3 first allocation. */
  function Host(c: Cidr, i: byte): (ip: Bytes)
    requires Shaped(c)
    ensures |ip| == |Base(c)|
  {
    Base(c)[|Base(c)| - 1 := i]
  }

  /** What the counter is set to when it leaves the range: as many bytes of network.IP as it has,
      and a last byte of 3. */
  function Reset(c: Cidr): (ip: Bytes)
    requires Shaped(c)
    ensures |ip| == |Base(c)|
  {
    c.ip[..|Base(c)|][|Base(c)| - 1 := 3]
  }

  /** The counter starts over where it began: always, but for some ranges in IPv6 form. */
  predicate StartsOver(c: Cidr)
    requires Shaped(c)
  {
    Reset(c) == Host(c, 3)
  }

  function Advance(c: Cidr, ip: Bytes): (next: Bytes)
    requires Shaped(c) && |ip| == |Base(c)|
    ensures |next| == |Base(c)|
  {
    if InNetwork(c, Inc(ip)) then Inc(ip) else Reset(c)
  }

  datatype Fake = Fake(forward: map<string, Bytes>, reverse: map<Bytes, string>, next: Bytes)

  function Fresh(c: Cidr): Fake
    requires Shaped(c)
  {
    Fake(map[], map[], Host(c, 3))
  }

  /** Allocate: the recorded address of a known domain, else the next one. */
  function Allocated(c: Cidr, s: Fake, domain: string): (r: (Fake, Bytes))
    requires Shaped(c) && |s.next| == |Base(c)|
    ensures |r.0.next| == |Base(c)|
  {
    if domain in s.forward then (s, s.forward[domain])
    else (Fake(s.forward[domain := s.next], s.reverse[Net.Key(s.next) := domain], Advance(c, s.next)), s.next)
  }

  /** The state after a sequence of requests. */
  function Run(c: Cidr, requests: seq<string>): (s: Fake)
    requires Shaped(c)
    ensures |s.next| == |Base(c)|
  {
    if requests == [] then Fresh(c)
    else Allocated(c, Run(c, requests[..|requests| - 1]), requests[|requests| - 1]).0
  }

  // ---- the counter in terms of host offsets ------------------------------

  /** The offset of an address within the range. */
  function Offset(c: Cidr, ip: Bytes): int
    requires Shaped(c)
  {
    Value(ip) - Value(Base(c))
  }

  /** ::ffff:0:0, where the IPv4-mapped addresses begin. */
  function MappedStart(): nat {
    0xFFFF * Pow2(32)
  }

  /** How many addresses from the start of the range the counter can walk through: all of them,
      or those before the mapped ones, which Contains takes for IPv4. */
  function Limit(c: Cidr): int
    requires Shaped(c)
  {
    if |Base(c)| == 16 && Value(Base(c)) <= MappedStart() < Value(Base(c)) + Size(c)
    then MappedStart() - Value(Base(c)) else Size(c)
  }

  /** The whole of IPv4: the one range the counter cannot leave. */
  predicate Whole(c: Cidr)
    requires Shaped(c)
  {
    |Base(c)| == 4 && Bits(c) == 0
  }

  lemma {:induction false} PrefixValue(x: Bytes, k: nat)
    requires k <= |x|
    ensures Value(x) / Pow2(8 * k) == Value(x[..|x| - k])
  {
    if k == 0 {
      assert x[..|x|] == x;
    } else {
      var front := x[..|x| - 1];
      PrefixValue(front, k - 1);
      assert front[..|front| - (k - 1)] == x[..|x| - k];
      Pow2Add8(8 * (k - 1));
      DropLow(Value(front), x[|x| - 1], Pow2(8 * (k - 1)));
    }
  }

  lemma MappedPrefixValue()
    ensures Value(Net.V4_PREFIX) == 0xFFFF
  {
    var zeros := Zeros(10);
    ZerosValue(10);
    assert Net.V4_PREFIX[..11] == zeros + [255] && (zeros + [255])[..10] == zeros;
    assert Value(zeros + [255]) == 255;
  }

  lemma {:induction false} ZerosValue(n: nat)
    ensures Value(Zeros(n)) == 0
  {
    if n > 0 {
      ZerosValue(n - 1);
      assert Zeros(n)[..n - 1] == Zeros(n - 1);
    }
  }

  lemma MappedMeansRange(x: Bytes)
    requires |x| == 16
    ensures Net.To4(x) != [] <==> MappedStart() <= Value(x) < MappedStart() + Pow2(32)
  {
    hide Value, Pow2;
    PrefixValue(x, 4);
    MappedPrefixValue();
    if Value(x[..12]) == Value(Net.V4_PREFIX) { ValueInjective(x[..12], Net.V4_PREFIX); }
    QuotientIs(Value(x), Pow2(32), 0xFFFF);
  }

  lemma QuotientIs(x: nat, d: nat, q: nat)
    requires d > 0
    ensures x / d == q <==> q * d <= x < q * d + d
  {
    assert x == x / d * d + x % d;
    if q * d <= x < q * d + d { DivUnique(x, d, q, x - q * d); }
  }

  lemma {:induction false} ValueSplit(x: Bytes, k: nat)
    requires k <= |x|
    ensures Value(x) == Value(x[..|x| - k]) * Pow2(8 * k) + Value(x[|x| - k..])
  {
    hide Value, Pow2;
    PowersOfAByte();
    if k == 0 {
      assert x[..|x|] == x && x[|x|..] == [];
      assert Value([]) == 0 by { ZerosValue(0); assert Zeros(0) == []; }
    } else {
      var front, last, j := x[..|x| - 1], x[|x| - 1], |x| - k;
      ValueSplit(front, k - 1);
      assert front[..j] == x[..j] && x[j..] == front[j..] + [last];
      ValueOfLast(front, last);
      ValueOfLast(front[j..], last);
      assert x == front + [last];
      Pow2Add8(8 * (k - 1));
      Regrouped(Value(x[..j]), Pow2(8 * (k - 1)), Value(front[j..]), last as nat);
    }
  }

  lemma ValueOfLast(front: Bytes, last: byte)
    ensures Value(front + [last]) == 256 * Value(front) + last as nat
  {
    assert (front + [last])[..|front|] == front;
  }

  lemma Regrouped(a: nat, d: nat, b: nat, x: nat)
    ensures 256 * (a * d + b) + x == a * (256 * d) + (256 * b + x)
  {
  }

  lemma MappedValue(x: Bytes)
    requires |x| == 16 && Net.To4(x) != []
    ensures Value(x) == MappedStart() + Value(Net.To4(x)) && Value(Net.To4(x)) < Pow2(32)
  {
    hide Value, Pow2;
    ValueSplit(x, 4);
    MappedPrefixValue();
    ValueBound(Net.To4(x));
  }

  lemma AddMultiple(q: nat, d: nat, x: nat)
    requires d > 0
    ensures (q * d + x) % d == x % d
  {
    assert x == x / d * d + x % d;
    assert q * d + x == (q + x / d) * d + x % d;
    DivUnique(q * d + x, d, q + x / d, x % d);
  }

  /** A mapped network with zero host bits has at most 32 of them, and they are those of its IPv4
      form. */
  lemma MappedHostBits(v: nat, h: nat)
    requires v < Pow2(32)
    ensures Pow2(h) > 0 && ((MappedStart() + v) % Pow2(h) == 0 <==> h <= 32 && v % Pow2(h) == 0)
  {
    hide Pow2;
    Pow2Positive(h);
    if h <= 32 {
      Pow2Product(h, 32 - h);
      Reassociate(0xFFFF, Pow2(32 - h), Pow2(h));
      AddMultiple(0xFFFF * Pow2(32 - h), Pow2(h), v);
    } else {
      Pow2Product(32, 1);
      PowersOfAByte();
      Pow2Product(33, h - 33);
      Pow2Positive(h - 33);
      DivUnique(MappedStart() + v, Pow2(33), 0x7FFF, Pow2(32) + v);
      if (MappedStart() + v) % Pow2(h) == 0 { MultipleOfMultiple(MappedStart() + v, Pow2(33), Pow2(h - 33)); }
    }
  }

  /** A parsed range is a prefix length no longer than the address and zero host bits, and it has
      two to the power of the number of host bits addresses, in either form. */
  lemma ValidCidrIff(c: Cidr)
    requires Shaped(c)
    ensures ValidCidr(c) <==> c.prefix <= 8 * |c.ip| && Value(c.ip) % Pow2(8 * |c.ip| - c.prefix) == 0
    ensures ValidCidr(c) ==> Size(c) == Pow2(8 * |c.ip| - c.prefix)
  {
    hide Value, Pow2, MappedStart;
    if Mapped(c) && c.prefix <= 128 {
      MappedValue(c.ip);
      MappedHostBits(Value(Base(c)), 128 - c.prefix);
    }
  }

  /** The first bits of an address, as a number. */
  function FirstBits(ip: Bytes, bits: nat): nat
    requires bits <= 8 * |ip|
  {
    Quotient(Value(ip), Pow2(8 * |ip| - bits))
  }

  function Quotient(x: nat, d: nat): nat
    requires d > 0
  {
    x / d
  }

  /** An address of the network's own length is in the range exactly when it begins with the bits of
      the prefix; but a range of IPv6 addresses has no IPv4 ones in it, however it begins. */
  lemma InNetworkIff(c: Cidr, ip: Bytes)
    requires ValidCidr(c) && |ip| == |c.ip|
    ensures InNetwork(c, ip) <==>
            FirstBits(ip, c.prefix) == FirstBits(c.ip, c.prefix) && (Net.To4(ip) != [] <==> Net.To4(c.ip) != [])
  {
    hide Value, Pow2, MappedStart, Contains, Size;
    ValidCidrIff(c);
    if Mapped(c) {
      MappedBits(c, ip);
    } else {
      ContainsIsQuotient(Base(c), Bits(c), ip);
      LengthsDiffer(c, Net.To4(ip));
    }
  }

  lemma LengthsDiffer(c: Cidr, ip: Bytes)
    requires Shaped(c)
    ensures |ip| != |Base(c)| ==> !Contains(Base(c), Bits(c), ip)
  {
  }

  lemma MappedBits(c: Cidr, ip: Bytes)
    requires ValidCidr(c) && Mapped(c) && |ip| == 16
    ensures InNetwork(c, ip) <==> FirstBits(ip, c.prefix) == FirstBits(c.ip, c.prefix) && Net.To4(ip) != []
  {
    hide Value, Pow2, MappedStart, Contains, Size;
    LengthsDiffer(c, ip);
    if Net.To4(ip) != [] {
      var h := 128 - c.prefix;
      ContainsIsQuotient(Base(c), Bits(c), Net.To4(ip));
      MappedValue(c.ip);
      MappedValue(ip);
      MappedQuotient(Value(Base(c)), h);
      MappedQuotient(Value(Net.To4(ip)), h);
    }
  }

  lemma MappedQuotient(v: nat, h: nat)
    requires h <= 32
    ensures (MappedStart() + v) / Pow2(h) == 0xFFFF * Pow2(32 - h) + v / Pow2(h)
  {
    hide Pow2;
    Pow2Positive(h);
    Pow2Product(h, 32 - h);
    Reassociate(0xFFFF, Pow2(32 - h), Pow2(h));
    AddQuotient(0xFFFF * Pow2(32 - h), Pow2(h), v);
  }

  lemma AddQuotient(q: nat, d: nat, x: nat)
    requires d > 0
    ensures (q * d + x) / d == q + x / d
  {
    assert x == x / d * d + x % d;
    assert q * d + x == (q + x / d) * d + x % d;
    DivUnique(q * d + x, d, q + x / d, x % d);
  }

  /** An IPv4 address is looked at alike in its two forms. */
  lemma FormsAreAlike(c: Cidr, ip: Bytes)
    requires Shaped(c) && |ip| == 4
    ensures InNetwork(c, ip) <==> InNetwork(c, [0, 0, 0, 0, 0, 0, 0, 0, 0, 0, 255, 255] + ip)
  {
    var mapped := Net.V4_PREFIX + ip;
    assert mapped[..12] == Net.V4_PREFIX && mapped[12..] == ip;
  }

  /** The form of an address that has the given length, if it has one. */
  function Form(ip: Bytes, n: nat): Bytes {
    if |ip| == n then ip else if n == 16 then Net.To16(ip) else Net.To4(ip)
  }

  /** Contains, for slices of any length. */
  lemma ContainedIff(c: Cidr, ip: Bytes)
    requires ValidCidr(c)
    ensures
      var x := Form(ip, |c.ip|);
      InNetwork(c, ip) <==>
      |x| == |c.ip| && FirstBits(x, c.prefix) == FirstBits(c.ip, c.prefix) && (Net.To4(x) != [] <==> Net.To4(c.ip) != [])
  {
    hide FirstBits, Contains, Size, Value;
    var x := Form(ip, |c.ip|);
    LengthsDiffer(c, ip);
    if |ip| == 4 && |c.ip| == 16 { FormsAreAlike(c, ip); }
    if |x| == |c.ip| { InNetworkIff(c, x); }
  }

  lemma InNetworkMeansOffset(c: Cidr, ip: Bytes)
    requires ValidCidr(c) && |ip| == |Base(c)|
    ensures InNetwork(c, ip) <==>
            0 <= Offset(c, ip) < Size(c) && !(|ip| == 16 && MappedStart() <= Value(ip) < MappedStart() + Pow2(32))
  {
    hide Value, Pow2, MappedStart;
    if |ip| == 16 { MappedMeansRange(ip); }
    ContainsIsQuotient(Base(c), Bits(c), ip);
    RangeIsQuotient(Value(Base(c)), Value(ip), Size(c));
  }

  lemma RangeIsQuotient(base: nat, x: nat, d: nat)
    requires d > 0 && base % d == 0
    ensures base / d == x / d <==> 0 <= x - base < d
  {
    var q := base / d;
    assert base == q * d;
    QuotientIs(x, d, q);
  }

  /** Where the counter stays in the range and where it leaves it. */
  lemma WalkedIsInNetwork(c: Cidr, ip: Bytes)
    requires ValidCidr(c) && |ip| == |Base(c)|
    ensures 0 <= Offset(c, ip) < Limit(c) ==> InNetwork(c, ip)
    ensures Offset(c, ip) < 0 || Offset(c, ip) == Limit(c) || Offset(c, ip) >= Size(c) ==> !InNetwork(c, ip)
  {
    hide Value, Pow2, MappedStart, Size, InNetwork;
    InNetworkMeansOffset(c, ip);
    if |ip| == 16 { MappedMeansRange(Base(c)); }
    Pow2Positive(32);
  }

  lemma Pow2Positive(k: nat)
    ensures Pow2(k) > 0
  {
  }

  lemma RangeEnds(c: Cidr)
    requires ValidCidr(c)
    ensures Value(Base(c)) + Size(c) <= Pow2(8 * |Base(c)|)
    ensures Bits(c) > 0 ==> Size(c) < Pow2(8 * |Base(c)|)
    ensures Bits(c) == 0 ==> Size(c) == Pow2(8 * |Base(c)|) && Value(Base(c)) == 0
  {
    hide Value;
    var n, bits := 8 * |Base(c)|, Bits(c);
    ValueBound(Base(c));
    Pow2Product(n - bits, bits);
    MultipleBelow(Value(Base(c)), Size(c), Pow2(bits));
    if bits > 0 { Pow2Product(n - bits, bits - 1); }
  }

  lemma {:induction false} Pow2Product(a: nat, b: nat)
    ensures Pow2(a + b) == Pow2(a) * Pow2(b) && (b > 0 ==> Pow2(a + b) >= 2 * Pow2(a))
  {
    if b > 0 {
      Pow2Product(a, b - 1);
      DoubleProduct(Pow2(a), Pow2(b - 1));
    }
  }

  lemma DoubleProduct(x: nat, y: nat)
    requires y > 0
    ensures x * (2 * y) == 2 * (x * y) && 2 * (x * y) >= 2 * x
  {
    assert x * y >= x;
  }

  lemma MultipleBelow(x: nat, d: nat, m: nat)
    requires d > 0 && x % d == 0 && x < d * m
    ensures x + d <= d * m
  {
    var q := x / d;
    assert x == q * d;
    assert q >= m ==> q * d >= d * m;
    assert (q + 1) * d <= d * m;
  }

  /** The mapped addresses, if the range has them, are far from its start. */
  lemma LimitIsFar(c: Cidr)
    requires ValidCidr(c)
    ensures 0 < Limit(c) <= Size(c) && (Limit(c) < Size(c) ==> Limit(c) > 3)
  {
    hide Value, Pow2, MappedStart;
    if |Base(c)| == 16 {
      MappedMeansRange(Base(c));
      Pow2Positive(32);
      MappedGap(Value(Base(c)), 128 - Bits(c));
    }
  }

  lemma MappedGap(base: nat, h: nat)
    requires Pow2(h) > 0 && base % Pow2(h) == 0
    ensures base < MappedStart() < base + Pow2(h) ==> MappedStart() - base > 3
  {
    hide Pow2, MappedStart;
    if base < MappedStart() {
      if h <= 32 { SmallRangeGap(base, h); } else { LargeRangeGap(base, h); }
    }
  }

  lemma SmallRangeGap(base: nat, h: nat)
    requires h <= 32 && Pow2(h) > 0 && base % Pow2(h) == 0 && base < MappedStart()
    ensures MappedStart() - base >= Pow2(h)
  {
    hide Pow2;
    var k := 0xFFFF * Pow2(32 - h);
    Pow2Product(h, 32 - h);
    Reassociate(0xFFFF, Pow2(32 - h), Pow2(h));
    MultipleGap(base, k, Pow2(h));
  }

  lemma Reassociate(a: nat, b: nat, c: nat)
    ensures a * (c * b) == a * b * c
  {
  }

  lemma LargeRangeGap(base: nat, h: nat)
    requires h > 32 && base % Pow2(h) == 0 && base < MappedStart()
    ensures MappedStart() - base > 3
  {
    hide Pow2;
    Pow2Big();
    Pow2Product(32, h - 32);
    Pow2Positive(h - 32);
    MultipleOfMultiple(base, Pow2(32), Pow2(h - 32));
    MultipleGap(base, 0xFFFF, Pow2(32));
  }

  lemma Pow2Big()
    ensures Pow2(32) > 3
  {
    hide Pow2;
    Pow2Product(2, 30);
    PowersOfAByte();
    Pow2Positive(30);
  }

  lemma MultipleGap(x: nat, m: nat, d: nat)
    requires d > 0 && x % d == 0 && x < m * d
    ensures m * d - x >= d
  {
    MultipleBelow(x, d, m);
  }

  lemma MultipleOfMultiple(x: nat, d: nat, k: nat)
    requires d > 0 && k > 0 && x % (d * k) == 0
    ensures x % d == 0
  {
    var q := x / (d * k);
    assert x == q * (d * k) == (q * k) * d + 0;
    DivUnique(x, d, q * k, 0);
  }

  lemma FirstOffset(c: Cidr)
    requires ValidCidr(c)
    ensures var n := |Base(c)|;
      && Offset(c, Host(c, 3)) == 3 - Base(c)[n - 1] as int
      && Value(Inc(Host(c, 3))) == Value(Host(c, 3)) + 1
      && (Bits(c) <= 8 * n - 8 ==> Base(c)[n - 1] == 0)
  {
    hide Pow2;
    var n := |Base(c)|;
    LastByte(Base(c), 3);
    LastByte(Base(c), 4);
    assert Inc(Host(c, 3)) == Host(c, 4) by { assert Host(c, 3)[..n - 1] + [4] == Host(c, 4); }
    if Bits(c) <= 8 * n - 8 { LowBitsZero(Base(c), 8 * n - 8 - Bits(c)); }
  }

  lemma LastByte(b: Bytes, i: byte)
    requires b != []
    ensures Value(b[|b| - 1 := i]) == Value(b) - b[|b| - 1] as int + i as int
  {
    var n := |b| - 1;
    assert b[n := i][..n] == b[..n];
  }

  lemma LowBitsZero(b: Bytes, h: nat)
    requires b != [] && Value(b) % Pow2(h + 8) == 0
    ensures b[|b| - 1] == 0
  {
    Pow2Add8(h);
    LowByteZero(Value(b[..|b| - 1]), b[|b| - 1] as nat, Pow2(h));
  }

  lemma LowByteZero(f: nat, x: nat, d: nat)
    requires x < 256 && d > 0 && (256 * f + x) % (256 * d) == 0
    ensures x == 0
  {
    var q := (256 * f + x) / (256 * d);
    assert 256 * f + x == q * (256 * d) == 256 * (q * d);
  }

  /** Offset of the first address. */
  function Start(c: Cidr): int
    requires Shaped(c)
  {
    Offset(c, Host(c, 3))
  }

  lemma StartInNetwork(c: Cidr)
    requires ValidCidr(c)
    ensures InNetwork(c, Host(c, 3)) <==> 0 <= Start(c) < Size(c)
    ensures -252 <= Start(c) <= 3 && (0 <= Start(c) < Size(c) ==> Start(c) < Limit(c))
  {
    hide Value, Size, InNetwork, Limit, Inc;
    FirstOffset(c);
    WalkedIsInNetwork(c, Host(c, 3));
    LimitIsFar(c);
  }

  /** One step of the counter: on through the range, back to the reset address from its end; but
      in the whole of IPv4 the step past the last address is to 0.0.0.0. */
  lemma AdvanceSteps(c: Cidr, ip: Bytes)
    requires ValidCidr(c) && |ip| == |Base(c)| && -1 <= Offset(c, ip) < Limit(c)
    ensures
      var k := Offset(c, ip) + 1;
      && (k < Limit(c) ==> Offset(c, Advance(c, ip)) == k)
      && (k == Limit(c) && !Whole(c) ==> Advance(c, ip) == Reset(c))
      && (k == Limit(c) && Whole(c) ==> Offset(c, Advance(c, ip)) == 0)
  {
    hide Pow2, Inc, Value, Size, InNetwork;
    IncIsPlusOne(ip);
    RangeEnds(c);
    LimitIsFar(c);
    WalkedIsInNetwork(c, Inc(ip));
    WholeLimit(c);
  }

  lemma WholeLimit(c: Cidr)
    requires ValidCidr(c)
    ensures Whole(c) ==> Limit(c) == Size(c) && Value(Base(c)) == 0
    ensures Limit(c) == Size(c) == Pow2(8 * |Base(c)|) ==> Whole(c)
  {
    hide Value;
    RangeEnds(c);
    if |Base(c)| == 16 { MappedInWhole(); }
  }

  lemma MappedInWhole()
    ensures MappedStart() < Pow2(128)
  {
    hide Pow2;
    PowersOfAByte();
    Pow2Product(8, 8);
    Pow2Product(32, 16);
    Pow2Product(48, 80);
    Pow2Positive(80);
    Pow2Positive(32);
    assert Pow2(48) == 0x1_0000 * Pow2(32);
    assert Pow2(48) * 1 <= Pow2(48) * Pow2(80);
  }

  /** A first address that neither lies in the range nor just before it is the only one. */
  lemma OutsideSticks(c: Cidr)
    requires ValidCidr(c) && (Start(c) < -1 || Start(c) >= Size(c))
    ensures Advance(c, Host(c, 3)) == Reset(c)
  {
    hide Value, Size, InNetwork, Inc;
    FirstOffset(c);
    WalkedIsInNetwork(c, Inc(Host(c, 3)));
  }

  // ---- runs --------------------------------------------------------------

  /** The address given to the i-th new domain. */
  function Addr(c: Cidr, i: nat): (ip: Bytes)
    requires Shaped(c)
    ensures |ip| == |Base(c)|
  {
    if i == 0 then Host(c, 3) else Advance(c, Addr(c, i - 1))
  }

  /** How many addresses the counter goes through before it is reset. */
  function Lead(c: Cidr): int
    requires Shaped(c)
  {
    if -1 <= Start(c) < Size(c) then Limit(c) - Start(c) else 1
  }

  /** How many it goes through before it repeats, when it starts over. */
  function Period(c: Cidr): int
    requires Shaped(c)
  {
    if Whole(c) then Size(c) else Lead(c)
  }

  lemma LeadPositive(c: Cidr)
    requires ValidCidr(c)
    ensures Lead(c) > 0 && Period(c) > 0
  {
    hide Size, Limit, Start, InNetwork;
    StartInNetwork(c);
    LimitIsFar(c);
  }

  /** Up to its first reset the counter walks up from its first address. */
  lemma {:induction false} LeadWalks(c: Cidr, i: nat)
    requires ValidCidr(c)
    ensures i < Lead(c) ==> Offset(c, Addr(c, i)) == Start(c) + i
    ensures i == Lead(c) && !Whole(c) ==> Addr(c, i) == Reset(c)
    ensures i == Lead(c) && Whole(c) ==> Offset(c, Addr(c, i)) == 0
  {
    hide Advance, InNetwork, Size, Value, Limit, Inc, Host, Whole, Reset;
    LeadPositive(c);
    AddrUnfolds(c, i);
    if 0 < i <= Lead(c) {
      LeadWalks(c, i - 1);
      if -1 <= Start(c) < Size(c) {
        AdvanceSteps(c, Addr(c, i - 1));
      } else {
        AddrUnfolds(c, 0);
        OutsideSticks(c);
        StartIsNotWhole(c);
      }
    }
  }

  lemma AddrUnfolds(c: Cidr, i: nat)
    requires Shaped(c)
    ensures i == 0 ==> Addr(c, i) == Host(c, 3)
    ensures i > 0 ==> Addr(c, i) == Advance(c, Addr(c, i - 1))
  {
  }

  lemma StartIsNotWhole(c: Cidr)
    requires ValidCidr(c)
    ensures Whole(c) ==> Start(c) == 3 && 3 < Size(c)
  {
    hide Value, Inc;
    FirstOffset(c);
    RangeEnds(c);
    Pow2Big();
  }

  /** The whole sequence, for every range that starts over. */
  lemma {:induction false} AddrPosition(c: Cidr, i: nat)
    requires ValidCidr(c) && StartsOver(c)
    ensures Period(c) > 0
    ensures Offset(c, Addr(c, i)) == if Whole(c) then (3 + i) % Period(c) else Start(c) + i % Period(c)
  {
    hide Advance, InNetwork, Size, Value, Limit, Inc, Host, Reset;
    LeadPositive(c);
    AddrUnfolds(c, i);
    StartIsNotWhole(c);
    SmallMod(3, Period(c));
    SmallMod(0, Period(c));
    if i == 0 {
    } else {
      AddrPosition(c, i - 1);
      PositionStep(c, i);
    }
  }

  lemma SmallMod(k: nat, n: int)
    ensures 0 <= k < n ==> k % n == k
  {
  }

  lemma PositionStep(c: Cidr, i: nat)
    requires ValidCidr(c) && StartsOver(c) && i > 0 && Period(c) > 0
    requires Offset(c, Addr(c, i - 1)) == if Whole(c) then (2 + i) % Period(c) else Start(c) + (i - 1) % Period(c)
    ensures Offset(c, Addr(c, i)) == if Whole(c) then (3 + i) % Period(c) else Start(c) + i % Period(c)
  {
    hide Advance, InNetwork, Size, Value, Inc, Reset, Host, Start;
    AddrUnfolds(c, i);
    WholeLimit(c);
    if Whole(c) {
      ModNext(2 + i, Period(c));
      AdvanceSteps(c, Addr(c, i - 1));
    } else {
      ModNext(i - 1, Period(c));
      if -1 <= Start(c) < Size(c) {
        AdvanceSteps(c, Addr(c, i - 1));
      } else {
        SameOffset(c, Addr(c, i - 1), Host(c, 3));
        OutsideSticks(c);
      }
      ResetOffset(c);
    }
  }

  lemma ResetOffset(c: Cidr)
    requires Shaped(c) && StartsOver(c)
    ensures Offset(c, Reset(c)) == Start(c)
  {
  }

  lemma SameOffset(c: Cidr, a: Bytes, b: Bytes)
    requires Shaped(c) && |a| == |b|
    ensures Offset(c, a) == Offset(c, b) <==> a == b
  {
    if Offset(c, a) == Offset(c, b) { ValueInjective(a, b); }
  }

  lemma ModNext(i: nat, n: nat)
    requires n > 0
    ensures (i + 1) % n == if i % n + 1 < n then i % n + 1 else 0
  {
    var q, r := i / n, i % n;
    assert i == q * n + r;
    if r + 1 < n {
      DivUnique(i + 1, n, q, r + 1);
    } else {
      assert i + 1 == (q + 1) * n + 0;
      DivUnique(i + 1, n, q + 1, 0);
    }
  }

  /** Two places in the allocation order share an address exactly when they are a multiple of
      the period apart. */
  lemma SameAddr(c: Cidr, i: nat, j: nat)
    requires ValidCidr(c) && StartsOver(c)
    ensures Period(c) > 0 && (Addr(c, i) == Addr(c, j) <==> i % Period(c) == j % Period(c))
  {
    hide Addr, Period, Offset, Start, Size, Whole;
    AddrPosition(c, i);
    AddrPosition(c, j);
    SameOffset(c, Addr(c, i), Addr(c, j));
    if Whole(c) { ModShift(i, j, 3, Period(c)); }
  }

  lemma ModShift(i: nat, j: nat, k: nat, n: nat)
    requires n > 0
    ensures (k + i) % n == (k + j) % n <==> i % n == j % n
  {
    SameMod(i, j, n);
    SameMod(k + i, k + j, n);
  }

  lemma SameMod(a: nat, b: nat, n: nat)
    requires n > 0
    ensures a % n == b % n <==> (a - b) % n == 0
  {
    assert a == a / n * n + a % n && b == b / n * n + b % n;
    var q := a / n - b / n;
    assert a - b == q * n + (a % n - b % n);
    if a % n == b % n {
      assert a - b == q * n;
      MultipleMod(q, n);
    }
    if (a - b) % n == 0 {
      var m := (a - b) / n;
      assert a - b == m * n;
      assert (m - q) * n == a % n - b % n;
      SmallMultiple(m - q, n);
    }
  }

  lemma MultipleMod(q: int, n: nat)
    requires n > 0
    ensures q * n % n == 0
  {
    var x := q * n;
    assert x == x / n * n + x % n;
    assert (q - x / n) * n == x % n;
    SmallMultiple(q - x / n, n);
  }

  // ---- ranges that do not start over -------------------------------------

  /** A range in IPv6 form is reset to 0.0.0.3, which it does not contain unless it starts over,
      and stays there. */
  lemma ResetSticks(c: Cidr)
    requires ValidCidr(c) && !StartsOver(c)
    ensures !Whole(c) && !InNetwork(c, Reset(c)) && Advance(c, Reset(c)) == Reset(c)
  {
    hide Size, InNetwork;
    MappedReset(c);
    var three: Bytes, four: Bytes := [0, 0, 0, 3], [0, 0, 0, 4];
    SmallValues();
    assert Inc(three) == four by { assert three[..3] + [4] == four; }
    WalkedIsInNetwork(c, three);
    WalkedIsInNetwork(c, four);
    if Value(Base(c)) <= 4 { LowBaseStartsOver(c); }
    WholeLimit(c);
  }

  lemma UnmappedStartsOver(c: Cidr)
    requires Shaped(c)
    ensures !Mapped(c) ==> StartsOver(c)
  {
    if !Mapped(c) { assert c.ip[..|c.ip|] == c.ip; }
  }

  /** Written as IPv4, or not IPv4 at all, a range is reset to its own host 3; in the form ::ffff:a.b.c.d
      the first bytes of the network are zeros, so the counter starts over only from 0.0.0.3. */
  lemma StartsOverIff(c: Cidr)
    requires Shaped(c)
    ensures |c.ip| == 4 || Net.To4(c.ip) == [] ==> Reset(c) == c.ip[|c.ip| - 1 := 3]
    ensures |c.ip| == 16 && Net.To4(c.ip) != [] ==> Reset(c) == [0, 0, 0, 3]
    ensures StartsOver(c) <==> |c.ip| == 4 || Net.To4(c.ip) == [] || c.ip[12..15] == [0, 0, 0]
  {
    UnmappedStartsOver(c);
    if |c.ip| == 4 || Net.To4(c.ip) == [] {
      assert c.ip[..|c.ip|] == c.ip;
    } else {
      assert c.ip[..4] == c.ip[..12][..4] == [0, 0, 0, 0];
      var base := c.ip[12..];
      assert base[..3] == c.ip[12..15];
      assert base[3 := 3] == base[..3] + [3];
      if StartsOver(c) { assert base[3 := 3][..3] == [0, 0, 0]; }
    }
  }

  lemma MappedReset(c: Cidr)
    requires Shaped(c) && !StartsOver(c)
    ensures Mapped(c) && |Base(c)| == 4 && Reset(c) == [0, 0, 0, 3]
  {
    UnmappedStartsOver(c);
    assert c.ip[..4] == c.ip[..12][..4];
  }

  lemma SmallValues()
    ensures Value([0, 0, 0, 3]) == 3 && Value([0, 0, 0, 4]) == 4
  {
    ZerosValue(3);
    var a: Bytes, b: Bytes := [0, 0, 0, 3], [0, 0, 0, 4];
    assert a[..3] == Zeros(3) && b[..3] == Zeros(3);
  }

  lemma LowBaseStartsOver(c: Cidr)
    requires ValidCidr(c) && |Base(c)| == 4 && Value(Base(c)) <= 4 && Reset(c) == [0, 0, 0, 3]
    ensures StartsOver(c)
  {
    hide Pow2;
    var front := Base(c)[..3];
    assert Value(front) == 0;
    LastByte(Base(c), 3);
    SmallValues();
    ValueInjective(Host(c, 3), Reset(c));
  }

  /** There the places before the first reset all have their own address, and all later ones
      share the last. */
  lemma SameAddrStuck(c: Cidr, i: nat, j: nat)
    requires ValidCidr(c) && !StartsOver(c)
    ensures Addr(c, i) == Addr(c, j) <==> i == j || (i >= Lead(c) && j >= Lead(c))
  {
    hide Addr, Lead, Offset, Size, InNetwork, Value, Reset, Advance, Whole;
    StuckAddr(c, i);
    StuckAddr(c, j);
    SameOffset(c, Addr(c, i), Addr(c, j));
  }

  lemma {:induction false} StuckAddr(c: Cidr, i: nat)
    requires ValidCidr(c) && !StartsOver(c)
    ensures if i < Lead(c) then Offset(c, Addr(c, i)) == Start(c) + i && Addr(c, i) != Reset(c) else Addr(c, i) == Reset(c)
  {
    hide Advance, InNetwork, Size, Value, Limit, Inc, Host, Reset, Whole, Start, Lead;
    ResetSticks(c);
    LeadWalks(c, i);
    AddrUnfolds(c, i);
    if i > Lead(c) {
      LeadPositive(c);
      StuckAddr(c, i - 1);
    } else if i < Lead(c) {
      WalkedIsNotReset(c, i);
    }
  }

  lemma WalkedIsNotReset(c: Cidr, i: nat)
    requires ValidCidr(c) && !StartsOver(c) && i < Lead(c) && Offset(c, Addr(c, i)) == Start(c) + i
    ensures Addr(c, i) != Reset(c)
  {
    hide Advance, InNetwork, Size, Value, Limit, Inc, Whole;
    ResetSticks(c);
    AddrUnfolds(c, i);
    if i > 0 { WalkedIsInNetwork(c, Addr(c, i)); }
  }

  // ---- the two maps ------------------------------------------------------

  /** No address of the sequence is an IPv4-mapped one in 16 bytes, so its text is its own. */
  lemma AddrIsKey(c: Cidr, i: nat)
    requires ValidCidr(c)
    ensures Net.Key(Addr(c, i)) == Addr(c, i)
  {
    hide Value, Size, Limit, Contains, Inc, Advance;
    HostIsKey(c);
    UnmappedStartsOver(c);
    AddrUnfolds(c, i);
    if i > 0 { NextIsKey(c, Addr(c, i - 1)); }
  }

  lemma HostIsKey(c: Cidr)
    requires Shaped(c)
    ensures Net.Key(Host(c, 3)) == Host(c, 3)
  {
    assert |Base(c)| == 16 ==> Host(c, 3)[..12] == c.ip[..12];
  }

  lemma NextIsKey(c: Cidr, ip: Bytes)
    requires ValidCidr(c) && |ip| == |Base(c)|
    ensures Net.Key(Advance(c, ip)) == Advance(c, ip)
  {
    hide Value, Size, Limit, Inc;
    HostIsKey(c);
    UnmappedStartsOver(c);
  }

  /** What holds of every state reachable by Allocate alone. */
  ghost predicate Reachable(c: Cidr, s: Fake)
    requires Shaped(c)
  {
    && s.next == Addr(c, |s.forward|)
    && (forall d | d in s.forward :: exists i: nat :: i < |s.forward| && s.forward[d] == Addr(c, i))
    && (forall ip | ip in s.reverse :: s.reverse[ip] in s.forward && s.forward[s.reverse[ip]] == ip)
    && (forall d | d in s.forward :: s.forward[d] in s.reverse)
  }

  lemma {:induction false} RunIsReachable(c: Cidr, requests: seq<string>)
    requires ValidCidr(c)
    ensures Reachable(c, Run(c, requests))
  {
    hide Addr, Advance, Host, ValidCidr, Net.Key, Net.To4;
    assert Shaped(c) by { ValidIsShaped(c); }
    if requests == [] {
      AddrUnfolds(c, 0);
    } else {
      var before, d := Run(c, requests[..|requests| - 1]), requests[|requests| - 1];
      RunIsReachable(c, requests[..|requests| - 1]);
      var after := Run(c, requests);
      if d !in before.forward {
        assert |after.forward| == |before.forward| + 1;
        AddrUnfolds(c, |after.forward|);
        AddrIsKey(c, |before.forward|);
        forall e | e in after.forward ensures exists i: nat :: i < |after.forward| && after.forward[e] == Addr(c, i) {
          if e == d {
            assert after.forward[e] == Addr(c, |before.forward|);
          } else {
            var i: nat :| i < |before.forward| && before.forward[e] == Addr(c, i);
            assert after.forward[e] == Addr(c, i);
          }
        }
      }
    }
  }

  lemma ValidIsShaped(c: Cidr)
    requires ValidCidr(c)
    ensures Shaped(c)
  {
  }

  /** In every run of Allocate, before and after wrapping, looking an address up and then the
      domain found gives the address back. */
  lemma {:induction false} ForwardOfReverse(c: Cidr, requests: seq<string>, ip: Bytes)
    requires ValidCidr(c) && ip in Run(c, requests).reverse
    ensures
      var s := Run(c, requests);
      s.reverse[ip] in s.forward && s.forward[s.reverse[ip]] == ip
  {
    RunIsReachable(c, requests);
  }

  ghost predicate Distinct(domains: seq<string>) {
    forall i, j :: 0 <= i < j < |domains| ==> domains[i] != domains[j]
  }

  /** A request for a domain not known before. */
  lemma NewRequest(c: Cidr, requests: seq<string>)
    requires ValidCidr(c) && requests != []
    ensures
      var n := |requests| - 1;
      var before, after := Run(c, requests[..n]), Run(c, requests);
      requests[n] !in before.forward ==>
        var ip := Addr(c, |before.forward|);
        after.forward == before.forward[requests[n] := ip] && after.reverse == before.reverse[ip := requests[n]]
  {
    hide Addr, Advance, Host, ValidCidr, Net.Key;
    assert Shaped(c) by { ValidIsShaped(c); }
    var front := requests[..|requests| - 1];
    RunIsReachable(c, front);
    AddrIsKey(c, |Run(c, front).forward|);
  }

  /** The forward map gives the domains their addresses in order, and nothing else. */
  ghost predicate InOrder(c: Cidr, forward: map<string, Bytes>, domains: seq<string>)
    requires Shaped(c)
  {
    && |forward| == |domains| && (forall d :: d in forward <==> d in domains)
    && (forall i :: 0 <= i < |domains| ==> domains[i] in forward && forward[domains[i]] == Addr(c, i))
  }

  lemma OneMoreInOrder(c: Cidr, forward: map<string, Bytes>, domains: seq<string>, d: string)
    requires Shaped(c) && InOrder(c, forward, domains) && d !in domains
    ensures InOrder(c, forward[d := Addr(c, |domains|)], domains + [d])
  {
    hide Addr, Shaped;
    OneMoreKey(forward, domains, d, Addr(c, |domains|));
    var all, after := domains + [d], forward[d := Addr(c, |domains|)];
    forall i | 0 <= i < |all| ensures all[i] in after && after[all[i]] == Addr(c, i) {
      OneMoreValue(c, forward, domains, d, i);
    }
  }

  lemma OneMoreKey(forward: map<string, Bytes>, domains: seq<string>, d: string, ip: Bytes)
    requires (forall e :: e in forward <==> e in domains) && d !in domains
    ensures |forward[d := ip]| == |forward| + 1 && forall e :: e in forward[d := ip] <==> e in domains + [d]
  {
    forall e ensures e in forward[d := ip] <==> e in domains + [d] {
      assert e in domains + [d] <==> e in domains || e == d;
    }
  }

  lemma OneMoreValue(c: Cidr, forward: map<string, Bytes>, domains: seq<string>, d: string, i: nat)
    requires Shaped(c) && InOrder(c, forward, domains) && d !in domains && i <= |domains|
    ensures var all, after := domains + [d], forward[d := Addr(c, |domains|)]; all[i] in after && after[all[i]] == Addr(c, i)
  {
    hide Addr, Shaped;
    if i < |domains| { assert domains[i] in domains; }
  }

  lemma LastIsNew(domains: seq<string>)
    requires Distinct(domains) && domains != []
    ensures var n := |domains| - 1; Distinct(domains[..n]) && domains[n] !in domains[..n] && domains == domains[..n] + [domains[n]]
  {
  }

  /** New domains get the addresses in order. */
  lemma {:induction false} DistinctRun(c: Cidr, domains: seq<string>)
    requires ValidCidr(c) && Distinct(domains)
    ensures Shaped(c) && InOrder(c, Run(c, domains).forward, domains)
  {
    hide Run, ValidCidr, Distinct, InOrder;
    assert Shaped(c) by { ValidIsShaped(c); }
    if domains == [] {
      NothingAllocated(c);
    } else {
      var n := |domains| - 1;
      LastIsNew(domains);
      DistinctRun(c, domains[..n]);
      InOrderHas(c, Run(c, domains[..n]).forward, domains[..n], domains[n]);
      NewRequest(c, domains);
      OneMoreInOrder(c, Run(c, domains[..n]).forward, domains[..n], domains[n]);
    }
  }

  lemma InOrderHas(c: Cidr, forward: map<string, Bytes>, domains: seq<string>, d: string)
    requires Shaped(c) && InOrder(c, forward, domains)
    ensures |forward| == |domains| && (d in forward <==> d in domains)
  {
  }

  lemma NothingAllocated(c: Cidr)
    requires Shaped(c)
    ensures InOrder(c, Run(c, []).forward, [])
  {
  }

  /** One more new domain. */
  lemma NewDomain(c: Cidr, domains: seq<string>)
    requires ValidCidr(c) && Distinct(domains) && domains != []
    ensures
      var n := |domains| - 1;
      Distinct(domains[..n]) && Run(c, domains).reverse == Run(c, domains[..n]).reverse[Addr(c, n) := domains[n]]
  {
    hide Addr, Run, ValidCidr;
    assert Shaped(c) by { ValidIsShaped(c); }
    var n := |domains| - 1;
    DistinctRun(c, domains[..n]);
    NewRequest(c, domains);
    assert domains[n] !in domains[..n];
  }

  /** While no later domain has been given its address, a domain owns it. */
  lemma {:induction false} LastOwns(c: Cidr, domains: seq<string>, i: nat)
    requires ValidCidr(c) && Distinct(domains) && i < |domains|
    requires forall j :: i < j < |domains| ==> Addr(c, j) != Addr(c, i)
    ensures var s := Run(c, domains); Addr(c, i) in s.reverse && s.reverse[Addr(c, i)] == domains[i]
  {
    hide Addr, Run, ValidCidr, Distinct;
    NewDomain(c, domains);
    if i < |domains| - 1 { LastOwns(c, domains[..|domains| - 1], i); }
  }

  /** The last place among the first n that has the address of place i. */
  lemma {:induction false} LastPlace(c: Cidr, i: nat, n: nat) returns (j: nat)
    requires Shaped(c) && i < n
    ensures i <= j < n && Addr(c, j) == Addr(c, i) && forall k :: j < k < n ==> Addr(c, k) != Addr(c, i)
    decreases n
  {
    hide Addr;
    if i == n - 1 || Addr(c, n - 1) == Addr(c, i) {
      j := n - 1;
    } else {
      j := LastPlace(c, i, n - 1);
    }
  }

  /** Of n distinct domains, the i-th owns its address exactly when no later one was given it. */
  lemma OwnsAddressIffLast(c: Cidr, domains: seq<string>, i: nat)
    requires ValidCidr(c) && Distinct(domains) && i < |domains|
    ensures
      var s := Run(c, domains);
      && domains[i] in s.forward && s.forward[domains[i]] in s.reverse
      && (s.reverse[s.forward[domains[i]]] == domains[i] <==> forall j :: i < j < |domains| ==> Addr(c, j) != Addr(c, i))
  {
    hide Addr, Run, ValidCidr, Distinct;
    assert Shaped(c) by { ValidIsShaped(c); }
    RunGives(c, domains, i);
    var j := LastPlace(c, i, |domains|);
    LastOwns(c, domains, j);
    if i < j { DistinctAt(domains, i, j); }
  }

  lemma RunGives(c: Cidr, domains: seq<string>, i: nat)
    requires ValidCidr(c) && Distinct(domains) && i < |domains|
    ensures var s := Run(c, domains); domains[i] in s.forward && s.forward[domains[i]] == Addr(c, i)
  {
    hide Addr, Run, ValidCidr, Distinct;
    DistinctRun(c, domains);
  }

  lemma DistinctAt(domains: seq<string>, i: nat, j: nat)
    requires Distinct(domains) && i < j < |domains|
    ensures domains[i] != domains[j]
  {
  }

  lemma NotCongruent(i: nat, n: nat, m: nat)
    requires i < n < i + m
    ensures i % m != n % m
  {
    assert i == i / m * m + i % m && n == n / m * m + n % m;
    if i % m == n % m {
      assert (n / m - i / m) * m == n - i;
      SmallMultiple(n / m - i / m, m);
    }
  }

  lemma OnePeriodOn(i: nat, m: nat)
    requires m > 0
    ensures (i + m) % m == i % m
  {
    assert i == i / m * m + i % m;
    DivUnique(i + m, m, i / m + 1, i % m);
  }

  /** No later place among the first n has the address of place i exactly when i is recent. */
  lemma RecentIffNoLater(c: Cidr, i: nat, n: nat)
    requires ValidCidr(c) && StartsOver(c) && i < n
    ensures (forall j :: i < j < n ==> Addr(c, j) != Addr(c, i)) <==> n <= i + Period(c)
  {
    hide Addr, Period, ValidCidr, StartsOver;
    assert Shaped(c) by { ValidIsShaped(c); }
    LeadPositive(c);
    if n <= i + Period(c) {
      forall j | i < j < n ensures Addr(c, j) != Addr(c, i) {
        SameAddr(c, i, j);
        NotCongruent(i, j, Period(c));
      }
    } else {
      SameAddr(c, i, i + Period(c));
      OnePeriodOn(i, Period(c));
      assert Addr(c, i + Period(c)) == Addr(c, i);
    }
  }

  /** Of n distinct domains over a range that starts over, the i-th owns its address exactly when
      it is among the last C, where C is how many addresses the counter goes through: from the
      first one to the end of the range; one more than the range when it starts just before it;
      one alone when it starts anywhere else outside; and all of IPv4 in 0.0.0.0/0. */
  lemma OwnsAddressIffRecent(c: Cidr, domains: seq<string>, i: nat)
    requires ValidCidr(c) && StartsOver(c) && Distinct(domains) && i < |domains|
    ensures
      var s := Run(c, domains);
      && domains[i] in s.forward && s.forward[domains[i]] in s.reverse
      && (s.reverse[s.forward[domains[i]]] == domains[i] <==> |domains| <= i + Period(c))
  {
    hide Addr, Period, Run, ValidCidr, StartsOver, Distinct;
    assert Shaped(c) by { ValidIsShaped(c); }
    OwnsAddressIffLast(c, domains, i);
    RecentIffNoLater(c, i, |domains|);
  }

  /** How many addresses the counter goes through, when at least eight bits are left to hosts: all but
      the first three of the range; all of them in the whole of IPv4; and only those in front of the
      IPv4-mapped addresses in a range of IPv6 addresses that has these in it. */
  lemma PeriodIs(c: Cidr)
    requires ValidCidr(c) && StartsOver(c) && 8 * |c.ip| - c.prefix >= 8
    ensures
      var h := 8 * |c.ip| - c.prefix;
      Period(c) ==
        if h == 32 && Net.To4(c.ip) != [] then Pow2(32)
        else if Net.To4(c.ip) == [] && Value(c.ip) <= 0xFFFF * Pow2(32) < Value(c.ip) + Pow2(h)
        then 0xFFFF * Pow2(32) - Value(c.ip) - 3
        else Pow2(h) - 3
  {
    hide Value, Pow2, StartsOver, Start, InNetwork;
    var h := 8 * |c.ip| - c.prefix;
    ValidCidrIff(c);
    StartsAtThree(c);
    Pow2Product(8, h - 8);
    PowersOfAByte();
    Pow2Positive(h - 8);
    assert Pow2(h) >= 256 by { TimesMonotone(1, Pow2(h - 8), 256); }
  }

  /** With fewer than eight bits it depends on where the range stands in its last byte. */
  lemma SmallPeriodIs(c: Cidr)
    requires ValidCidr(c) && StartsOver(c) && 8 * |c.ip| - c.prefix < 8
    ensures
      var last, size := c.ip[|c.ip| - 1] as nat, Pow2(8 * |c.ip| - c.prefix);
      Period(c) == if last <= 3 < last + size then last + size - 3 else if last == 4 then size + 1 else 1
  {
    hide Value, Pow2, StartsOver, InNetwork, Inc, MappedStart;
    ValidCidrIff(c);
    FirstOffset(c);
    var h := 8 * |c.ip| - c.prefix;
    Pow2Positive(h);
    if |Base(c)| == 16 {
      MappedMeansRange(Base(c));
      Pow2Positive(32);
      if Value(Base(c)) < MappedStart() { SmallRangeGap(Value(Base(c)), h); }
    }
  }

  /** Of n distinct domains over an IPv4 range of at least 256 addresses, the i-th owns its address
      exactly when it is among the last 2^(32 - prefix) - 3, or the last 2^32 over 0.0.0.0/0. */
  lemma OwnsAddressInIpv4Range(c: Cidr, domains: seq<string>, i: nat)
    requires |c.ip| == 4 && c.prefix <= 24 && Value(c.ip) % Pow2(32 - c.prefix) == 0
    requires Distinct(domains) && i < |domains|
    ensures
      var s := Run(c, domains);
      && domains[i] in s.forward && s.forward[domains[i]] in s.reverse
      && (s.reverse[s.forward[domains[i]]] == domains[i] <==>
            |domains| <= i + if c.prefix == 0 then Pow2(32) else Pow2(32 - c.prefix) - 3)
  {
    hide Value, Pow2, Run, ValidCidr, StartsOver, Period, Distinct;
    ValidCidrIff(c);
    UnmappedStartsOver(c);
    PeriodIs(c);
    OwnsAddressIffRecent(c, domains, i);
  }

  /** The repository's own default range: 198.18.0.0/15 is the addresses 198.18.x.y and 198.19.x.y,
      and the counter goes through 131069 addresses before it repeats. */
  lemma DefaultRange(a: byte, b: byte, x: byte, y: byte)
    ensures
      var c := Cidr([198, 18, 0, 0], 15);
      ValidCidr(c) && StartsOver(c) && (InNetwork(c, [a, b, x, y]) <==> a == 198 && (b == 18 || b == 19)) && Period(c) == 131069
  {
    hide Pow2, Contains, StartsOver, Period;
    var c := Cidr([198, 18, 0, 0], 15);
    assert Pow2(17) == 131072 by {
      PowersOfAByte();
      Pow2Product(8, 8);
      Pow2Product(16, 1);
    }
    FourBytes(198, 18, 0, 0);
    FourBytes(a, b, x, y);
    ValidCidrIff(c);
    UnmappedStartsOver(c);
    PeriodIs(c);
    InNetworkIff(c, [a, b, x, y]);
  }

  lemma FourBytes(a: byte, b: byte, x: byte, y: byte)
    ensures Value([a, b, x, y]) == 0x100_0000 * a + 0x1_0000 * b + 256 * x + y
  {
    var one: Bytes, two: Bytes, three: Bytes, four: Bytes := [a], [a, b], [a, b, x], [a, b, x, y];
    assert one[..0] == [] && two[..1] == one && three[..2] == two && four[..3] == three;
    assert Value(one) == a as nat;
    assert Value(two) == 256 * Value(one) + b as nat;
    assert Value(three) == 256 * Value(two) + x as nat;
    assert Value(four) == 256 * Value(three) + y as nat;
  }

  /** Over a range that does not start over, those before the first reset keep their addresses for
      good, and of the others only the last one owns the address they share. */
  lemma OwnsAddressWhenStuck(c: Cidr, domains: seq<string>, i: nat)
    requires ValidCidr(c) && !StartsOver(c) && Distinct(domains) && i < |domains|
    ensures
      var s := Run(c, domains);
      && domains[i] in s.forward && s.forward[domains[i]] in s.reverse
      && (s.reverse[s.forward[domains[i]]] == domains[i] <==> i < Lead(c) || i == |domains| - 1)
  {
    hide Addr, Lead, Run, ValidCidr, StartsOver;
    assert Shaped(c) by { ValidIsShaped(c); }
    OwnsAddressIffLast(c, domains, i);
    forall j | i < j < |domains| ensures Addr(c, j) == Addr(c, i) <==> i >= Lead(c) {
      SameAddrStuck(c, i, j);
    }
    assert i < |domains| - 1 && i >= Lead(c) ==> Addr(c, i + 1) == Addr(c, i);
  }

  /** Asking again for a domain that already has an address changes nothing, so any sequence
      of requests leaves the state its first occurrences alone leave. */
  function FirstOccurrences(requests: seq<string>): (r: seq<string>)
    ensures forall d :: d in r <==> d in requests
  {
    if requests == [] then []
    else
      var front, d := requests[..|requests| - 1], requests[|requests| - 1];
      assert requests == front + [d];
      if d in front then FirstOccurrences(front) else FirstOccurrences(front) + [d]
  }

  lemma {:induction false} RepeatsChangeNothing(c: Cidr, requests: seq<string>)
    requires ValidCidr(c)
    ensures Distinct(FirstOccurrences(requests)) && Run(c, requests) == Run(c, FirstOccurrences(requests))
  {
    hide Advance, Addr, Host, ValidCidr, Net.Key;
    assert Shaped(c) by { ValidIsShaped(c); }
    if requests != [] {
      var front, d := requests[..|requests| - 1], requests[|requests| - 1];
      RepeatsChangeNothing(c, front);
      DistinctRun(c, FirstOccurrences(front));
      assert d in Run(c, front).forward <==> d in front;
      if d !in front {
        assert FirstOccurrences(requests)[..|FirstOccurrences(requests)| - 1] == FirstOccurrences(front);
      }
    }
  }

  /** What Allocate answers: the address a domain got first, whenever it asks again, and for a new
      one the next address of the sequence, which from then on leads back to it. */
  lemma AllocateAnswers(c: Cidr, requests: seq<string>, d: string)
    requires ValidCidr(c)
    ensures
      var s, (s', ip) := Run(c, requests), Allocated(c, Run(c, requests), d);
      && s' == Run(c, requests + [d]) && d in s'.forward && s'.forward[d] == ip
      && (d in requests ==> d in s.forward && ip == s.forward[d] && s' == s)
      && (d !in requests ==> ip == Addr(c, |FirstOccurrences(requests)|) && ip in s'.reverse && s'.reverse[ip] == d)
  {
    hide Advance, Host, ValidCidr, Net.Key, Addr, FirstOccurrences;
    assert Shaped(c) by { ValidIsShaped(c); }
    assert (requests + [d])[..|requests|] == requests;
    RunIsReachable(c, requests);
    AddrIsKey(c, |Run(c, requests).forward|);
    RepeatsChangeNothing(c, requests);
    DistinctRun(c, FirstOccurrences(requests));
  }

  // ---- which addresses are ever handed out -------------------------------

  function Label(i: nat): string {
    seq(i, _ => 'a')
  }

  function Labels(n: nat): (r: seq<string>)
    ensures |r| == n
  {
    seq(n, i requires 0 <= i < n => Label(i))
  }

  lemma LabelsDistinct(n: nat)
    ensures Distinct(Labels(n))
  {
    forall i, j | 0 <= i < j < n ensures Labels(n)[i] != Labels(n)[j] {
      assert |Label(i)| != |Label(j)|;
    }
  }

  ghost predicate HandedOut(c: Cidr, ip: Bytes)
    requires Shaped(c)
  {
    exists requests, d :: GivesTo(c, requests, d, ip)
  }

  predicate GivesTo(c: Cidr, requests: seq<string>, d: string, ip: Bytes)
    requires Shaped(c)
  {
    d in Run(c, requests).forward && Run(c, requests).forward[d] == ip
  }

  /** The addresses handed out in some run are those of the sequence. */
  lemma HandedOutIsAddr(c: Cidr, ip: Bytes)
    requires ValidCidr(c)
    ensures HandedOut(c, ip) <==> exists i: nat :: Addr(c, i) == ip
  {
    hide Addr, Run, ValidCidr, GivesTo;
    assert Shaped(c) by { ValidIsShaped(c); }
    if HandedOut(c, ip) {
      var requests, d :| GivesTo(c, requests, d, ip);
      var i := PlaceOf(c, requests, d, ip);
    }
    if exists i: nat :: Addr(c, i) == ip {
      var i: nat :| Addr(c, i) == ip;
      AddrIsGiven(c, i);
    }
  }

  lemma PlaceOf(c: Cidr, requests: seq<string>, d: string, ip: Bytes) returns (i: nat)
    requires ValidCidr(c) && GivesTo(c, requests, d, ip)
    ensures Addr(c, i) == ip
  {
    hide Addr, Run, ValidCidr;
    assert Shaped(c) by { ValidIsShaped(c); }
    RunIsReachable(c, requests);
    var s := Run(c, requests);
    i :| i < |s.forward| && s.forward[d] == Addr(c, i);
  }

  lemma AddrIsGiven(c: Cidr, i: nat)
    requires ValidCidr(c)
    ensures HandedOut(c, Addr(c, i))
  {
    hide Addr, Run, ValidCidr, Labels, Label, Distinct;
    assert Shaped(c) by { ValidIsShaped(c); }
    var domains := Labels(i + 1);
    LabelsDistinct(i + 1);
    DistinctRun(c, domains);
    assert GivesTo(c, domains, domains[i], Addr(c, i));
  }

  /** For every range, all addresses ever handed out lie in it exactly when the first one does
      and the counter starts over. */
  lemma HandedOutInNetworkIff(c: Cidr)
    requires ValidCidr(c)
    ensures (forall ip :: HandedOut(c, ip) ==> InNetwork(c, ip)) <==> InNetwork(c, Host(c, 3)) && StartsOver(c)
  {
    hide Addr, InNetwork, Advance, Host, HandedOut, ValidCidr, Lead, StartsOver, Whole, Reset, Limit, Size;
    assert Shaped(c) by { ValidIsShaped(c); }
    forall ip ensures HandedOut(c, ip) <==> exists i: nat :: Addr(c, i) == ip {
      HandedOutIsAddr(c, ip);
    }
    AddrUnfolds(c, 0);
    assert HandedOut(c, Host(c, 3));
    if !StartsOver(c) {
      ResetSticks(c);
      LeadPositive(c);
      LeadWalks(c, Lead(c));
      assert HandedOut(c, Reset(c));
    } else if InNetwork(c, Host(c, 3)) {
      forall i: nat ensures InNetwork(c, Addr(c, i)) {
        AddrInNetwork(c, i);
      }
    }
  }

  lemma {:induction false} AddrInNetwork(c: Cidr, i: nat)
    requires ValidCidr(c) && InNetwork(c, Host(c, 3)) && StartsOver(c)
    ensures InNetwork(c, Addr(c, i))
  {
    if i > 0 { AddrInNetwork(c, i - 1); }
  }

  /** For every range that leaves at least one whole byte to hosts: nothing outside it and
      neither its network, gateway nor DNS address is ever handed out, exactly when the counter
      starts over and the range is not all of IPv4. */
  lemma ReservedNeverHandedOutIff(c: Cidr)
    requires ValidCidr(c) && Bits(c) <= 8 * |Base(c)| - 8
    ensures (forall ip :: HandedOut(c, ip) ==> InNetwork(c, ip) && Offset(c, ip) >= 3) <==> StartsOver(c) && !Whole(c)
  {
    hide Addr, InNetwork, Advance, Host, HandedOut, ValidCidr, Lead, StartsOver, Whole, Reset, Offset, Size, Bits, Base;
    assert Shaped(c) by { ValidIsShaped(c); }
    forall ip ensures HandedOut(c, ip) <==> exists i: nat :: Addr(c, i) == ip {
      HandedOutIsAddr(c, ip);
    }
    StartsAtThree(c);
    HandedOutInNetworkIff(c);
    if StartsOver(c) && Whole(c) {
      LeadPositive(c);
      LeadWalks(c, Lead(c));
      assert HandedOut(c, Addr(c, Lead(c)));
    } else if StartsOver(c) {
      forall i: nat ensures Offset(c, Addr(c, i)) >= 3 {
        AddrPosition(c, i);
      }
    }
  }

  lemma StartsAtThree(c: Cidr)
    requires ValidCidr(c) && Bits(c) <= 8 * |Base(c)| - 8
    ensures Start(c) == 3 && InNetwork(c, Host(c, 3))
  {
    hide Value, Inc, InNetwork;
    var n := |Base(c)|;
    FirstOffset(c);
    StartInNetwork(c);
    Pow2Product(8, 8 * n - 8 - Bits(c));
    PowersOfAByte();
    Pow2Positive(8 * n - 8 - Bits(c));
  }

  // ---- the code ----------------------------------------------------------

  class FakeDns {
    const network: Cidr
    const nextIP: array<byte>
    const gateway: Bytes
    const dnsIP: Bytes
    var forward: map<string, Bytes>
    var reverse: map<Bytes, string>

    ghost predicate Valid()
      reads this
    {
      Shaped(network) && nextIP.Length == |Base(network)|
    }

    ghost function State(): Fake
      reads this, nextIP
    {
      Fake(forward, reverse, nextIP[..])
    }

    /** NewFakeDns on a parsed range. */
    constructor (network: Cidr)
      requires Shaped(network)
      ensures Valid() && fresh(nextIP) && this.network == network
      ensures State() == Fresh(network)
      ensures gateway == Host(network, 1) && dnsIP == Host(network, 2)
    {
      var ip := Net.To4(network.ip);
      if ip == [] { ip := Net.To16(network.ip); }
      var n := |ip|;
      this.network := network;
      gateway, dnsIP := ip[n - 1 := 1], ip[n - 1 := 2];
      forward, reverse := map[], map[];
      nextIP := new byte[n](i requires 0 <= i < n => if i == n - 1 then 3 else ip[i]);
    }

    method Allocate(domain: string) returns (ip: Bytes)
      requires Valid()
      modifies this, nextIP
      ensures Valid()
      ensures |old(State()).next| == |Base(network)|
      ensures (State(), ip) == Allocated(network, old(State()), domain)
    {
      hide Contains, Inc, Net.To4, Bits;
      if domain in forward { return forward[domain]; }
      ip := nextIP[..];
      IncrementInPlace(nextIP);
      var next := nextIP[..];
      if !Contains(Base(network), Bits(network), if Net.To4(next) != [] then Net.To4(next) else next) {
        var n := nextIP.Length;
        Copy(nextIP, 0, network.ip[..n]);
        nextIP[n - 1] := 3;
        assert nextIP[..] == Reset(network);
      }
      forward := forward[domain := ip];
      reverse := reverse[Net.Key(ip) := domain];
    }

    /** The lookup goes by the text of the address, so the 16-byte form finds it too. */
    method Domain(ip: Bytes) returns (domain: string, ok: bool)
      ensures ok <==> Net.Key(ip) in State().reverse
      ensures ok ==> domain == State().reverse[Net.Key(ip)]
    {
      var key := Net.Key(ip);
      domain, ok := "", key in reverse;
      if ok { domain := reverse[key]; }
    }

    method IP(domain: string) returns (ip: Bytes, ok: bool)
      ensures ok <==> domain in State().forward
      ensures ok ==> ip == State().forward[domain]
    {
      ip, ok := [], domain in forward;
      if ok { ip := forward[domain]; }
    }

    /** IsFake accepts exactly the addresses that begin with the bits of the prefix, IPv4 ones in
        either form. They are the consecutive ones from the network address on. */
    method IsFake(ip: Bytes) returns (r: bool)
      requires ValidCidr(network)
      ensures
        var x := Form(ip, |network.ip|);
        r <==> |x| == |network.ip| && FirstBits(x, network.prefix) == FirstBits(network.ip, network.prefix)
               && (Net.To4(x) != [] <==> Net.To4(network.ip) != [])
      ensures
        var x := if Net.To4(ip) != [] then Net.To4(ip) else ip;
        var base := Base(network);
        r <==> |x| == |base| && Value(base) <= Value(x) < Value(base) + Size(network)
    {
      hide Value, Size, FirstBits, Form;
      ContainedIff(network, ip);
      var x := Net.To4(ip);
      if x == [] { x := ip; }
      if |x| != |Base(network)| { return false; }
      r := Contains(Base(network), Bits(network), x);
      InNetworkMeansOffset(network, x);
      if |x| == 16 { MappedMeansRange(x); }
    }
  }
}
