/** Byte strings as the Go code sees them: slices of octets, the big-endian 16-bit
    fields of encoding/binary, and the built-in copy. */
module Bytes {
  type byte = x: int | 0 <= x < 256
  type Bytes = seq<byte>

  const U16 := 0x1_0000

  /** binary.BigEndian.PutUint16(b, uint16(n)): the conversion keeps n modulo 2^16. */
  function Put16(n: nat): (b: Bytes)
    ensures |b| == 2
  {
    [n / 256 % 256, n % 256]
  }

  function Get16(b: Bytes): (n: nat)
    requires |b| == 2
    ensures n < U16
  {
    (b[0] as int) * 256 + (b[1] as int)
  }

  lemma Get16Put16(n: nat)
    ensures Get16(Put16(n)) == n % U16
    ensures n < U16 ==> Get16(Put16(n)) == n
  {
    assert n == 256 * (n / 256) + n % 256;
    assert n / 256 == 256 * (n / 256 / 256) + n / 256 % 256;
    assert n == U16 * (n / 256 / 256) + (n / 256 % 256 * 256 + n % 256);
  }

  /** A value preceded by its length in 16 bits, the shape of every variable field here. */
  function Prefixed(x: Bytes): Bytes {
    Put16(|x|) + x
  }

  datatype Field = Missing | Field(value: Bytes, rest: Bytes)

  /** The length-prefixed field at the front of b, if all of it is there. */
  function TakeField(b: Bytes): Field {
    if |b| < 2 then Missing
    else
      var n := Get16(b[..2]);
      if |b| < 2 + n then Missing else Field(b[2..2 + n], b[2 + n..])
  }

  lemma TakePrefixed(x: Bytes, rest: Bytes)
    requires |x| < U16
    ensures TakeField(Prefixed(x) + rest) == Field(x, rest)
  {
    var b := Prefixed(x) + rest;
    Get16Put16(|x|);
    assert b[..2] == Put16(|x|) && b[2..2 + |x|] == x && b[2 + |x|..] == rest;
  }

  lemma Put16Get16(b: Bytes)
    requires |b| == 2
    ensures Put16(Get16(b)) == b
  {
    assert (b[0] as int * 256 + b[1] as int) / 256 == b[0] as int;
  }

  /** A field that is there is what its encoding says. */
  lemma TakenIsPrefixed(b: Bytes)
    requires TakeField(b).Field?
    ensures |TakeField(b).value| < U16 && b == Prefixed(TakeField(b).value) + TakeField(b).rest
  {
    var n := Get16(b[..2]);
    Put16Get16(b[..2]);
    assert b == b[..2] + b[2..2 + n] + b[2 + n..];
  }

  /** A field cut short is seen to be missing. */
  lemma TakeCut(x: Bytes, k: nat)
    requires |x| < U16 && k < |Prefixed(x)|
    ensures TakeField(Prefixed(x)[..k]) == Missing
  {
    Get16Put16(|x|);
    if k >= 2 {
      assert Prefixed(x)[..k][..2] == Put16(|x|);
    }
  }

  lemma TakeAt(b: Bytes, o: nat)
    requires o <= |b|
    ensures TakeField(b[o..]) ==
            if |b| < o + 2 || |b| < o + 2 + Get16(b[o..o + 2]) then Missing
            else Field(b[o + 2..o + 2 + Get16(b[o..o + 2])], b[o + 2 + Get16(b[o..o + 2])..])
  {
    var rest := b[o..];
    if |b| >= o + 2 {
      assert rest[..2] == b[o..o + 2];
      var n := Get16(b[o..o + 2]);
      if |b| >= o + 2 + n {
        assert rest[2..2 + n] == b[o + 2..o + 2 + n];
        assert rest[2 + n..] == b[o + 2 + n..];
      }
    }
  }

  function Zeros(n: nat): (b: Bytes)
    ensures |b| == n
  {
    seq(n, _ => 0)
  }

  /** copy(buf[at:], src) for a destination that has room for all of src. */
  method Copy(buf: array<byte>, at: nat, src: Bytes)
    requires at + |src| <= buf.Length
    modifies buf
    ensures buf[..at + |src|] == old(buf[..at]) + src
    ensures buf[at + |src|..] == old(buf[at + |src|..])
  {
    for i := 0 to |src|
      invariant buf[..at + i] == old(buf[..at]) + src[..i]
      invariant buf[at + i..] == old(buf[at + i..])
    {
      assert buf[at + i + 1..] == buf[at + i..][1..];
      buf[at + i] := src[i];
      assert buf[..at + i + 1] == buf[..at + i] + [src[i]];
    }
  }

  /** PutUint16(buf[at:], uint16(len(src))) and copy(buf[at+2:], src). */
  method CopyPrefixed(buf: array<byte>, at: nat, src: Bytes)
    requires at + 2 + |src| <= buf.Length
    modifies buf
    ensures buf[..at + 2 + |src|] == old(buf[..at]) + Prefixed(src)
    ensures buf[at + 2 + |src|..] == old(buf[at + 2 + |src|..])
  {
    hide Put16;
    ghost var front := buf[..at];
    ghost var tail := buf[at + 2 + |src|..];
    Copy(buf, at, Put16(|src|));
    assert buf[at + 2..][|src|..] == tail;
    Copy(buf, at + 2, src);
    assert front + Put16(|src|) + src == front + Prefixed(src);
  }

  /** make([]byte, n): a zeroed buffer. */
  method Make(n: nat) returns (buf: array<byte>)
    ensures fresh(buf) && buf[..] == Zeros(n)
  {
    buf := new byte[n](_ => 0);
  }
}
