/** Bytes, Go strings as sequences of bytes, and big-endian integers. */
module Bytes {
  type Byte = c: char | c as int < 256

  type ByteString = seq<Byte>

  const ZERO: Byte := '\0'

  lemma Regroup(a: ByteString, b: ByteString, c: ByteString)
    ensures (a + b) + c == a + (b + c)
  {
  }

  function ToByte(n: nat): Byte {
    (n % 256) as char
  }

  // binary.BigEndian.PutUint16 and PutUint32 of the low bits.
  function PutUint16(n: nat): (r: ByteString)
    ensures |r| == 2
  {
    [ToByte(n / 256), ToByte(n)]
  }

  function PutUint32(n: nat): (r: ByteString)
    ensures |r| == 4
  {
    PutUint16(n / 65536) + PutUint16(n)
  }

  function Uint16(b: ByteString): (r: nat)
    requires |b| == 2
    ensures r < 65536
  {
    b[0] as int * 256 + b[1] as int
  }

  function Uint32(b: ByteString): (r: nat)
    requires |b| == 4
    ensures r < 0x1_0000_0000
  {
    Uint16(b[..2]) * 65536 + Uint16(b[2..])
  }

  lemma Uint16Put(n: nat)
    ensures Uint16(PutUint16(n)) == n % 65536
  {
  }

  lemma Uint32Put(n: nat)
    ensures Uint32(PutUint32(n)) == n % 0x1_0000_0000
  {
    hide PutUint16, Uint16;
    Uint16Put(n / 65536);
    Uint16Put(n);
    SplitMod(n);
    assert PutUint32(n)[..2] == PutUint16(n / 65536) && PutUint32(n)[2..] == PutUint16(n);
  }

  // The number a byte string stands for, most significant byte first.
  function BigEndian(b: ByteString): nat {
    if b == [] then 0 else BigEndian(b[..|b| - 1]) * 256 + b[|b| - 1] as int
  }

  lemma Uint16IsBigEndian(b: ByteString)
    requires |b| == 2
    ensures Uint16(b) == BigEndian(b)
  {
    assert b[..1][..0] == [];
    assert BigEndian(b[..1]) == b[0] as int;
  }

  lemma Uint32IsBigEndian(b: ByteString)
    requires |b| == 4
    ensures Uint32(b) == BigEndian(b)
  {
    Uint16IsBigEndian(b[..2]);
    hide Uint16;
    assert b[..3][..2] == b[..2];
    assert BigEndian(b[..3]) == BigEndian(b[..2]) * 256 + b[2] as int;
    assert BigEndian(b[2..]) == b[2] as int * 256 + b[3] as int by { Uint16OfTail(b); }
    Uint16IsBigEndian(b[2..]);
  }

  lemma Uint16OfTail(b: ByteString)
    requires |b| == 4
    ensures BigEndian(b[2..]) == b[2] as int * 256 + b[3] as int
  {
    Uint16IsBigEndian(b[2..]);
  }

  lemma SplitMod(n: nat)
    ensures n % 0x1_0000_0000 == n / 65536 % 65536 * 65536 + n % 65536
  {
  }

  lemma PutUint16Of(b: ByteString)
    requires |b| == 2
    ensures PutUint16(Uint16(b)) == b
  {
  }

  lemma PutUint32Of(b: ByteString)
    requires |b| == 4
    ensures PutUint32(Uint32(b)) == b
  {
    hide PutUint16, Uint16;
    var hi, lo := Uint16(b[..2]), Uint16(b[2..]);
    PutUint16Of(b[..2]);
    PutUint16Of(b[2..]);
    LowHalf(hi, lo);
    assert b == b[..2] + b[2..];
  }

  lemma LowHalf(hi: nat, lo: nat)
    requires lo < 65536
    ensures (hi * 65536 + lo) / 65536 == hi && PutUint16(hi * 65536 + lo) == PutUint16(lo)
  {
    assert (hi * 65536 + lo) / 256 == hi * 256 + lo / 256;
    assert (hi * 256 + lo / 256) % 256 == lo / 256 % 256;
    assert (hi * 65536 + lo) % 256 == lo % 256;
  }
}
