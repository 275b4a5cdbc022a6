/** Big-endian byte strings as numbers: increment with carry, and the bit masks of a CIDR. */
module BigEndian {
  import opened Bytes

  function Pow2(k: nat): (r: nat)
    ensures r > 0
  {
    if k == 0 then 1 else 2 * Pow2(k - 1)
  }

  function Value(b: Bytes): nat {
    if b == [] then 0 else 256 * Value(b[..|b| - 1]) + b[|b| - 1] as nat
  }

  lemma {:induction false} ValueBound(b: Bytes)
    ensures Value(b) < Pow2(8 * |b|)
  {
    if b != [] {
      ValueBound(b[..|b| - 1]);
      Pow2Add8(8 * (|b| - 1));
    }
  }

  lemma Pow2Add8(k: nat)
    ensures Pow2(k + 8) == 256 * Pow2(k)
  {
    assert Pow2(k + 4) == 16 * Pow2(k) by { assert Pow2(k + 2) == 4 * Pow2(k); }
    assert Pow2(k + 8) == 16 * Pow2(k + 4) by { assert Pow2(k + 6) == 4 * Pow2(k + 4); }
  }

  lemma {:induction false} ValueInjective(a: Bytes, b: Bytes)
    requires |a| == |b| && Value(a) == Value(b)
    ensures a == b
  {
    if a != [] {
      var a', b' := a[..|a| - 1], b[..|b| - 1];
      ValueInjective(a', b');
      assert a == a' + [a[|a| - 1]] && b == b' + [b[|b| - 1]];
    }
  }

  // ---- increment ---------------------------------------------------------

  /** One more, with carry, wrapping to all zeros. */
  function Inc(b: Bytes): (r: Bytes)
    ensures |r| == |b|
  {
    if b == [] then []
    else if b[|b| - 1] == 255 then Inc(b[..|b| - 1]) + [0]
    else b[..|b| - 1] + [b[|b| - 1] + 1]
  }

  lemma {:induction false} IncIsPlusOne(b: Bytes)
    ensures Value(Inc(b)) == if Value(b) + 1 == Pow2(8 * |b|) then 0 else Value(b) + 1
  {
    if b != [] {
      var front, last := b[..|b| - 1], b[|b| - 1];
      IncIsPlusOne(front);
      ValueBound(front);
      Pow2Add8(8 * |front|);
      assert Inc(b)[..|b| - 1] == if last == 255 then Inc(front) else front;
    }
  }

  /** The loop of Allocate: bytes from the last one up, until one does not wrap to zero. */
  method IncrementInPlace(b: array<byte>)
    modifies b
    ensures b[..] == Inc(old(b[..]))
  {
    ghost var start := b[..];
    var i := b.Length - 1;
    assert start[..b.Length] == start;
    while i >= 0
      invariant -1 <= i < b.Length
      invariant b[..i + 1] == start[..i + 1]
      invariant b[i + 1..] == Zeros(b.Length - 1 - i)
      invariant Inc(start) == Inc(start[..i + 1]) + Zeros(b.Length - 1 - i)
    {
      ghost var tail := b[i + 1..];
      assert start[..i + 1][..i] == start[..i];
      b[i] := if b[i] == 255 then 0 else b[i] + 1;
      assert b[..i] == start[..i] && b[i + 1..] == tail;
      assert b[..] == b[..i] + [b[i]] + b[i + 1..];
      if b[i] != 0 { return; }
      assert [0] + tail == Zeros(b.Length - i);
      assert Inc(start[..i]) + [0] + tail == Inc(start[..i]) + ([0] + tail);
      i := i - 1;
    }
  }

  // ---- masks -------------------------------------------------------------

  /** Bitwise and of the low n bits. */
  function And(x: nat, m: nat, n: nat): nat {
    if n == 0 then 0 else 2 * And(x / 2, m / 2, n - 1) + (if x % 2 == 1 && m % 2 == 1 then 1 else 0)
  }

  lemma Pow2Half(k: nat)
    ensures if k == 0 then Pow2(k) == 1 else Pow2(k) == 2 * Pow2(k - 1)
  {
  }

  /** Masking with the high bits keeps everything but the remainder. */
  lemma {:induction false} AndHighBits(x: nat, n: nat, k: nat)
    requires k <= n && x < Pow2(n)
    ensures Pow2(k) <= Pow2(n) && And(x, Pow2(n) - Pow2(k), n) == x - x % Pow2(k)
  {
    hide Pow2;
    Pow2Half(n);
    Pow2Half(k);
    if n > 0 {
      var j := if k == 0 then 0 else k - 1;
      AndHighBits(x / 2, n - 1, j);
      if k > 0 { HalfMod(x, Pow2(j)); } else { Pow2Half(j); ModOne(x); }
    }
  }

  lemma ModOne(x: nat)
    ensures x % 1 == 0 && x / 2 % 1 == 0
  {
  }

  lemma HalfMod(x: nat, d: nat)
    requires d > 0
    ensures 2 * (x / 2 - x / 2 % d) == x - x % (2 * d)
  {
    var q, r := x / 2 / d, x / 2 % d;
    assert x / 2 == q * d + r;
    assert x == q * (2 * d) + (2 * r + x % 2);
    DivUnique(x, 2 * d, q, 2 * r + x % 2);
  }

  lemma DivUnique(x: nat, d: nat, q: nat, r: nat)
    requires d > 0 && x == q * d + r && r < d
    ensures x / d == q && x % d == r
  {
    var q', r' := x / d, x % d;
    assert (q - q') * d == r' - r;
    SmallMultiple(q - q', d);
  }

  lemma SmallMultiple(z: int, d: int)
    requires -d < z * d < d
    ensures z == 0
  {
    assert z >= 1 ==> z * d >= d;
    assert z <= -1 ==> z * d <= -d;
  }

  /** Byte i of net.CIDRMask(prefix, 8n). */
  function MaskByte(prefix: nat, i: nat): (m: nat)
    ensures m < 256
  {
    if prefix >= 8 * i + 8 then 255
    else if prefix <= 8 * i then 0
    else
      assert 1 <= 8 * i + 8 - prefix <= 7;
      PowersOfAByte();
      256 - Pow2(8 * i + 8 - prefix)
  }

  lemma PowersOfAByte()
    ensures Pow2(0) == 1 && Pow2(1) == 2 && Pow2(2) == 4 && Pow2(3) == 8 && Pow2(4) == 16
    ensures Pow2(5) == 32 && Pow2(6) == 64 && Pow2(7) == 128 && Pow2(8) == 256
  {
    assert Pow2(2) == 4;
    assert Pow2(4) == 16;
    assert Pow2(6) == 64;
  }

  /** IPNet.Contains on addresses of the network's own length. */
  predicate Contains(network: Bytes, prefix: nat, ip: Bytes) {
    |ip| == |network| &&
    forall i :: 0 <= i < |ip| ==> And(network[i], MaskByte(prefix, i), 8) == And(ip[i], MaskByte(prefix, i), 8)
  }

  lemma MaskedByte(x: byte, prefix: nat, i: nat)
    ensures prefix >= 8 * i + 8 ==> And(x, MaskByte(prefix, i), 8) == x as nat
    ensures prefix <= 8 * i ==> And(x, MaskByte(prefix, i), 8) == 0
    ensures 8 * i < prefix < 8 * i + 8 ==> And(x, MaskByte(prefix, i), 8) == x as nat - x as nat % Pow2(8 * i + 8 - prefix)
  {
    hide And, Pow2;
    PowersOfAByte();
    SmallRemainders(x);
    var k := if prefix >= 8 * i + 8 then 0 else if prefix <= 8 * i then 8 else 8 * i + 8 - prefix;
    AndHighBits(x, 8, k);
  }

  lemma SmallRemainders(x: byte)
    ensures x as nat % 1 == 0 && x as nat % 256 == x as nat
  {
  }

  /** The mask test compares the numbers above the host bits. */
  lemma {:induction false} ContainsIsQuotient(a: Bytes, prefix: nat, b: Bytes)
    requires |a| == |b|
    ensures
      var d := Pow2(if prefix <= 8 * |a| then 8 * |a| - prefix else 0);
      Contains(a, prefix, b) <==> Value(a) / d == Value(b) / d
  {
    hide Contains, And, MaskByte, Pow2;
    if a == [] {
      ContainsNothing(prefix);
    } else {
      var n := |a| - 1;
      var a', b', x, y := a[..n], b[..n], a[n] as nat, b[n] as nat;
      ContainsIsQuotient(a', prefix, b');
      ContainsLast(a, prefix, b);
      MaskedByte(a[n], prefix, n);
      MaskedByte(b[n], prefix, n);
      QuotientStep(Value(a'), x, Value(b'), y, prefix, n);
    }
  }

  /** How the quotient test changes when one more byte is looked at. */
  lemma QuotientStep(f: nat, x: nat, g: nat, y: nat, prefix: nat, n: nat)
    requires x < 256 && y < 256
    ensures
      var d' := Pow2(if prefix <= 8 * n then 8 * n - prefix else 0);
      var d := Pow2(if prefix <= 8 * n + 8 then 8 * n + 8 - prefix else 0);
      (256 * f + x) / d == (256 * g + y) / d <==>
      && f / d' == g / d'
      && (prefix >= 8 * n + 8 ==> x == y)
      && (8 * n < prefix < 8 * n + 8 ==> x - x % Pow2(8 * n + 8 - prefix) == y - y % Pow2(8 * n + 8 - prefix))
  {
    hide Pow2;
    PowersOfAByte();
    if prefix <= 8 * n {
      Pow2Add8(8 * n - prefix);
      DropLow(f, x, Pow2(8 * n - prefix));
      DropLow(g, y, Pow2(8 * n - prefix));
    } else {
      OneDivides(f, x);
      OneDivides(g, y);
      if prefix < 8 * n + 8 { SplitByte(f, x, g, y, 8 * n + 8 - prefix); }
    }
  }

  lemma OneDivides(f: nat, x: nat)
    ensures f / 1 == f && (256 * f + x) / 1 == 256 * f + x
  {
  }

  lemma ContainsNothing(prefix: nat)
    ensures Contains([], prefix, [])
  {
  }

  lemma ContainsLast(a: Bytes, prefix: nat, b: Bytes)
    requires |a| == |b| > 0
    ensures
      var n := |a| - 1;
      Contains(a, prefix, b) <==>
      (Contains(a[..n], prefix, b[..n]) && And(a[n], MaskByte(prefix, n), 8) == And(b[n], MaskByte(prefix, n), 8))
  {
    hide And, MaskByte;
    var n := |a| - 1;
    if Contains(a[..n], prefix, b[..n]) && And(a[n], MaskByte(prefix, n), 8) == And(b[n], MaskByte(prefix, n), 8) {
      forall i | 0 <= i < |b| ensures And(a[i], MaskByte(prefix, i), 8) == And(b[i], MaskByte(prefix, i), 8) {
        if i < n { assert a[i] == a[..n][i] && b[i] == b[..n][i]; }
      }
    }
    if Contains(a, prefix, b) {
      forall i | 0 <= i < n ensures And(a[..n][i], MaskByte(prefix, i), 8) == And(b[..n][i], MaskByte(prefix, i), 8) {
        assert a[i] == a[..n][i] && b[i] == b[..n][i];
      }
    }
  }

  /** Dropping eight bits and then some more. */
  lemma DropLow(f: nat, x: nat, d: nat)
    requires x < 256 && d > 0
    ensures (256 * f + x) / (256 * d) == f / d
  {
    var q, r := f / d, f % d;
    assert f == q * d + r;
    assert 256 * f + x == q * (256 * d) + (256 * r + x);
    DivUnique(256 * f + x, 256 * d, q, 256 * r + x);
  }

  /** Comparing above k bits of the last byte compares the rest and the byte's own high bits. */
  lemma SplitByte(f: nat, x: nat, g: nat, y: nat, k: nat)
    requires x < 256 && y < 256 && 1 <= k <= 7
    ensures (256 * f + x) / Pow2(k) == (256 * g + y) / Pow2(k) <==> f == g && x - x % Pow2(k) == y - y % Pow2(k)
  {
    hide Pow2;
    ByteSplits(k);
    SplitByteBy(f, x, g, y, Pow2(k), Pow2(8 - k));
  }

  lemma ByteSplits(k: nat)
    requires 1 <= k <= 7
    ensures Pow2(k) * Pow2(8 - k) == 256
  {
    hide Pow2;
    PowersOfAByte();
    assert k == 1 || k == 2 || k == 3 || k == 4 || k == 5 || k == 6 || k == 7;
  }

  lemma SplitByteBy(f: nat, x: nat, g: nat, y: nat, d: nat, c: nat)
    requires x < 256 && y < 256 && d > 0 && d * c == 256
    ensures (256 * f + x) / d == (256 * g + y) / d <==> f == g && x - x % d == y - y % d
  {
    QuotientSplits(f, x, d, c);
    QuotientSplits(g, y, d, c);
    var u, v := x / d, y / d;
    Digits(c, f, u, g, v);
    Euclid(x, d);
    Euclid(y, d);
    SameMultiple(u, v, d);
  }

  lemma Euclid(x: nat, d: nat)
    requires d > 0
    ensures x - x % d == x / d * d
  {
  }

  lemma Digits(c: nat, f: nat, u: nat, g: nat, v: nat)
    requires u < c && v < c
    ensures c * f + u == c * g + v <==> f == g && u == v
  {
    if c * f + u == c * g + v {
      assert (f - g) * c == v - u;
      SmallMultiple(f - g, c);
    }
  }

  lemma SameMultiple(u: nat, v: nat, d: nat)
    requires d > 0
    ensures u * d == v * d <==> u == v
  {
    if u * d == v * d {
      assert (u - v) * d == 0;
      SmallMultiple(u - v, d);
    }
  }

  lemma Regroup(f: nat, d: nat, c: nat, u: nat)
    requires d * c == 256
    ensures (c * f + u) * d == 256 * f + u * d
  {
    assert (c * f + u) * d == (d * c) * f + u * d;
  }

  lemma TimesMonotone(a: nat, b: nat, d: nat)
    requires a <= b
    ensures a * d <= b * d
  {
  }

  lemma QuotientSplits(f: nat, x: nat, d: nat, c: nat)
    requires d > 0 && d * c == 256 && x < 256
    ensures (256 * f + x) / d == c * f + x / d && x / d < c
  {
    var u, r := x / d, x % d;
    Euclid(x, d);
    Regroup(f, d, c, u);
    DivUnique(256 * f + x, d, c * f + u, r);
    if u >= c { TimesMonotone(c, u, d); }
  }
}
