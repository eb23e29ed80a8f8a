/** Numbers and bits as they stand in memory. */
module Bytes {
  import opened Common

  // ---------------------------------------------------------------- numbers

  function Power(base: nat, n: nat): nat { if n == 0 then 1 else base * Power(base, n - 1) }

  /** The n bytes of a number, lowest first. */
  function Little(u: nat, n: nat): (r: seq<Byte>)
    ensures |r| == n
    decreases n, u
  {
    if n == 0 then [] else [(u % 256) as Byte] + Little(u / 256, n - 1)
  }

  function Number(bytes: seq<Byte>): nat {
    if bytes == [] then 0 else bytes[0] as nat + 256 * Number(bytes[1..])
  }

  lemma {:induction false} NumberOfLittle(u: nat, n: nat)
    requires u < Power(256, n)
    ensures Number(Little(u, n)) == u
  {
    if n > 0 {
      assert u / 256 < Power(256, n - 1);
      NumberOfLittle(u / 256, n - 1);
      assert Little(u, n)[1..] == Little(u / 256, n - 1);
    }
  }

  lemma DivideTwice(u: nat)
    ensures u / 256 / 256 == u / 0x1_0000
  {
  }

  lemma DivideThrice(u: nat)
    ensures u / 0x1_0000 / 256 == u / 0x100_0000
  {
  }

  /** A 32-bit number lies in memory with its lowest byte first. */
  lemma LittleWord(u: nat)
    ensures Little(u, 4)[0] as nat == u % 256 && Little(u, 4)[1] as nat == u / 0x100 % 256
    ensures Little(u, 4)[2] as nat == u / 0x1_0000 % 256 && Little(u, 4)[3] as nat == u / 0x100_0000 % 256
  {
    DivideTwice(u);
    DivideThrice(u);
    assert Little(u, 4)[1..] == Little(u / 256, 3) && Little(u / 256, 3)[1..] == Little(u / 256 / 256, 2);
    assert Little(u / 256 / 256, 2)[1..] == Little(u / 256 / 256 / 256, 1);
  }

  lemma {:induction false} WordNumber(u: nat, tail: seq<Byte>)
    requires u < 0x1_0000_0000
    ensures Number((Little(u, 4) + tail)[..4]) == u
  {
    assert Power(256, 2) == 65536 && Power(256, 4) == 256 * (256 * Power(256, 2));
    NumberOfLittle(u, 4);
    assert (Little(u, 4) + tail)[..4] == Little(u, 4);
  }

  // ---------------------------------------------------------------- bits of a byte

  function Bit(b: nat, j: nat): bool { if j == 0 then b % 2 == 1 else Bit(b / 2, j - 1) }

  /** b with bit j set or cleared. */
  function WithBit(b: nat, j: nat, on: bool): nat {
    if j == 0 then b / 2 * 2 + (if on then 1 else 0) else b % 2 + 2 * WithBit(b / 2, j - 1, on)
  }

  lemma {:induction false} WithBitIs(b: nat, j: nat, on: bool, n: nat, k: nat)
    requires b < Power(2, n) && j < n
    ensures WithBit(b, j, on) < Power(2, n)
    ensures Bit(WithBit(b, j, on), k) == if k == j then on else Bit(b, k)
    decreases n
  {
    if j == 0 {
      assert k > 0 ==> WithBit(b, j, on) / 2 == b / 2;
    } else {
      assert b / 2 < Power(2, n - 1);
      assert WithBit(b, j, on) / 2 == WithBit(b / 2, j - 1, on) && WithBit(b, j, on) % 2 == b % 2;
      WithBitIs(b / 2, j - 1, on, n - 1, if k == 0 then 0 else k - 1);
    }
  }

  /** The number whose bits are `bits`, lowest first. */
  function Packed(bits: seq<bool>): (r: nat)
    ensures r < Power(2, |bits|)
  {
    if bits == [] then 0 else (if bits[0] then 1 else 0) + 2 * Packed(bits[1..])
  }

  lemma {:induction false} PackedBits(bits: seq<bool>, j: nat)
    ensures Bit(Packed(bits), j) <==> j < |bits| && bits[j]
    decreases j
  {
    if bits == [] {
      ZeroBit(j);
    } else if j > 0 {
      assert Packed(bits) / 2 == Packed(bits[1..]);
      PackedBits(bits[1..], j - 1);
    }
  }

  lemma {:induction false} ZeroBit(j: nat)
    ensures !Bit(0, j)
  {
    if j > 0 { ZeroBit(j - 1); }
  }

  /** Bytes with the same bits are the same. */
  lemma {:induction false} SameBits(a: nat, b: nat, n: nat)
    requires a < Power(2, n) && b < Power(2, n) && forall j :: 0 <= j < n ==> Bit(a, j) == Bit(b, j)
    ensures a == b
  {
    if n > 0 {
      assert Bit(a, 0) == Bit(b, 0);
      forall j | 0 <= j < n - 1 ensures Bit(a / 2, j) == Bit(b / 2, j) {
        assert Bit(a, j + 1) == Bit(b, j + 1);
      }
      assert a / 2 < Power(2, n - 1) && b / 2 < Power(2, n - 1);
      SameBits(a / 2, b / 2, n - 1);
    }
  }

  lemma {:induction false} PowersUpTo8(k: nat)
    requires k <= 8
    ensures Power(2, k) <= Power(2, 8) == 256
  {
    assert Power(2, 4) == 16 && Power(2, 8) == 16 * Power(2, 4);
  }

  // ---------------------------------------------------------------- bits of a buffer

  /** Bit j of a bitmap that starts at `at`. */
  predicate BitOf(b: seq<Byte>, at: nat, j: nat)
    requires at + j / 8 < |b|
  {
    Bit(b[at + j / 8] as nat, j % 8)
  }

  /** One bit changes, and no other byte. */
  method SetBit(buf: array<Byte>, at: nat, i: nat, on: bool)
    requires at + i / 8 < buf.Length
    modifies buf
    ensures forall x :: 0 <= x < buf.Length && x != at + i / 8 ==> buf[x] == old(buf[x])
    ensures forall j :: 0 <= j && at + j / 8 < buf.Length ==>
              BitOf(buf[..], at, j) == if j == i then on else BitOf(old(buf[..]), at, j)
  {
    var byte := buf[at + i / 8] as nat;
    PowersUpTo8(8);
    WithBitIs(byte, i % 8, on, 8, 0);
    buf[at + i / 8] := WithBit(byte, i % 8, on) as Byte;
    forall j | 0 <= j && at + j / 8 < buf.Length
      ensures BitOf(buf[..], at, j) == if j == i then on else BitOf(old(buf[..]), at, j)
    {
      WithBitIs(byte, i % 8, on, 8, j % 8);
    }
  }
}
