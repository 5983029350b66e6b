/**
 * The big-endian scalar codec of ru.maklas.mrudp2.PacketType:
 * `putShort`/`putInt`/`putLong`, which write into a caller's byte array
 * in place, and `extractShort`/`extractInt`/`extractLong`, which read back.
 */
module PacketType {
  import opened JavaInts

  /** The Java `(short)` narrowing: the low 16 bits read as two's complement. */
  function ToShort(x: int): (r: int)
    ensures -0x8000 <= r < 0x8000
    ensures (r - x) % TWO_16 == 0
  {
    (x + 0x8000) % TWO_16 - 0x8000
  }

  /** `w` written over `s` starting at `offset`; every other element kept. */
  function Overwrite(s: seq<int8>, offset: int, w: seq<int8>): (r: seq<int8>)
    requires 0 <= offset && offset + |w| <= |s|
    ensures |r| == |s|
  {
    seq(|s|, i requires 0 <= i < |s| => if offset <= i < offset + |w| then w[i - offset] else s[i])
  }

  /** An overwrite changes exactly the elements under `w`, to those of `w`. */
  lemma OverwriteAt(s: seq<int8>, offset: int, w: seq<int8>)
    requires 0 <= offset && offset + |w| <= |s|
    ensures forall i :: 0 <= i < |s| && !(offset <= i < offset + |w|) ==> Overwrite(s, offset, w)[i] == s[i]
    ensures forall i :: 0 <= i < |w| ==> Overwrite(s, offset, w)[offset + i] == w[i]
  {
  }

  /** A sequence that agrees with `w` on `offset ..` and with `before` elsewhere is the overwrite. */
  lemma OverwriteExt(after: seq<int8>, before: seq<int8>, offset: int, w: seq<int8>)
    requires 0 <= offset && offset + |w| <= |before| && |after| == |before|
    requires forall i :: 0 <= i < |before| ==> after[i] == if offset <= i < offset + |w| then w[i - offset] else before[i]
    ensures after == Overwrite(before, offset, w)
  {
    OverwriteAt(before, offset, w);
  }

  // ---------------------------------------------------------------- encodings

  /** The two bytes `putShort` writes for `value`, most significant first. */
  function ShortBytes(value: int): (s: seq<int8>)
  {
    [ToByte(UShr32(value, 1)), ToByte(value)]
  }

  /** The four bytes `putInt` writes for `value`, most significant first. */
  function IntBytes(value: int): (s: seq<int8>)
  {
    [ToByte(UShr32(value, 3)), ToByte(UShr32(value, 2)), ToByte(UShr32(value, 1)), ToByte(value)]
  }

  /** The eight bytes `putLong` writes for `value`, most significant first. */
  function LongBytes(value: int): (s: seq<int8>)
  {
    [ToByte(UShr64(value, 7)), ToByte(UShr64(value, 6)), ToByte(UShr64(value, 5)), ToByte(UShr64(value, 4)),
     ToByte(UShr64(value, 3)), ToByte(UShr64(value, 2)), ToByte(UShr64(value, 1)), ToByte(value)]
  }

  // ---------------------------------------------------------------- writers

  method PutShort(bytes: array<int8>, value: int, offset: int)
    requires IsInt32(value)
    requires 0 <= offset && offset + 2 <= bytes.Length
    modifies bytes
    ensures bytes[..] == Overwrite(old(bytes[..]), offset, ShortBytes(value))
  {
    bytes[offset] := ToByte(UShr32(value, 1));
    bytes[1 + offset] := ToByte(value);
    OverwriteExt(bytes[..], old(bytes[..]), offset, ShortBytes(value));
  }

  method PutInt(bytes: array<int8>, value: int, offset: int)
    requires IsInt32(value)
    requires 0 <= offset && offset + 4 <= bytes.Length
    modifies bytes
    ensures bytes[..] == Overwrite(old(bytes[..]), offset, IntBytes(value))
  {
    bytes[offset] := ToByte(UShr32(value, 3));
    bytes[1 + offset] := ToByte(UShr32(value, 2));
    bytes[2 + offset] := ToByte(UShr32(value, 1));
    bytes[3 + offset] := ToByte(value);
    OverwriteExt(bytes[..], old(bytes[..]), offset, IntBytes(value));
  }

  method PutLong(bytes: array<int8>, value: int, offset: int)
    requires IsInt64(value)
    requires 0 <= offset && offset + 8 <= bytes.Length
    modifies bytes
    ensures bytes[..] == Overwrite(old(bytes[..]), offset, LongBytes(value))
  {
    bytes[offset] := ToByte(UShr64(value, 7));
    bytes[1 + offset] := ToByte(UShr64(value, 6));
    bytes[2 + offset] := ToByte(UShr64(value, 5));
    bytes[3 + offset] := ToByte(UShr64(value, 4));
    bytes[4 + offset] := ToByte(UShr64(value, 3));
    bytes[5 + offset] := ToByte(UShr64(value, 2));
    bytes[6 + offset] := ToByte(UShr64(value, 1));
    bytes[7 + offset] := ToByte(value);
    OverwriteExt(bytes[..], old(bytes[..]), offset, LongBytes(value));
  }

  // ---------------------------------------------------------------- readers

  /**
   * `bytes[offset] << 8 | (bytes[1 + offset] & 0xFF)`: the high byte is
   * sign-extended, so the result is a signed 16-bit value. The two operands
   * of `|` have no bit in common, so `|` is `+`.
   */
  function ExtractShort(bytes: seq<int8>, offset: int): (r: int)
    requires 0 <= offset && offset + 2 <= |bytes|
    ensures -0x8000 <= r < 0x8000
    ensures r < 0 <==> bytes[offset] < 0
  {
    bytes[offset] * TWO_8 + Unsigned8(bytes[1 + offset])
  }

  /** `extractInt`: four bytes, most significant first and sign-extended; `|` is `+` as above. */
  function ExtractInt(bytes: seq<int8>, offset: int): (r: int)
    requires 0 <= offset && offset + 4 <= |bytes|
    ensures IsInt32(r)
    ensures r < 0 <==> bytes[offset] < 0
  {
    bytes[offset] * TWO_24 + Unsigned8(bytes[1 + offset]) * TWO_16
      + Unsigned8(bytes[2 + offset]) * TWO_8 + Unsigned8(bytes[3 + offset])
  }

  /** The unsigned big-endian value of a byte sequence. */
  function Unsigned(s: seq<int8>): (u: int)
    ensures u >= 0
  {
    if |s| == 0 then 0 else Unsigned(s[..|s| - 1]) * TWO_8 + Unsigned8(s[|s| - 1])
  }

  lemma UnsignedSnoc(s: seq<int8>, b: int8)
    ensures Unsigned(s + [b]) == Unsigned(s) * TWO_8 + Unsigned8(b)
  {
    assert (s + [b])[..|s|] == s;
  }

  /** What `extractLong` returns for eight bytes: their unsigned value, wrapped into a `long`. */
  function LongValue(s: seq<int8>): int
  {
    Wrap64(Unsigned(s))
  }

  method ExtractLong(bytes: array<int8>, offset: int) returns (result: int)
    requires 0 <= offset && offset + 8 <= bytes.Length
    ensures IsInt64(result)
    ensures result == LongValue(bytes[offset..offset + 8])
  {
    result := 0;
    var i := offset;
    while i < 8 + offset
      invariant offset <= i <= offset + 8
      invariant result == Wrap64(Unsigned(bytes[offset..i]))
    {
      ghost var prefix := bytes[offset..i];
      UnsignedSnoc(prefix, bytes[i]);
      assert bytes[offset..i + 1] == prefix + [bytes[i]];
      ShiftInByte(Unsigned(prefix), bytes[i]);
      // result <<= 8
      result := Wrap64(result * TWO_8);
      // result |= (bytes[i] & 0xFF); the low 8 bits of result are clear, so `|` is `+`
      result := result + Unsigned8(bytes[i]);
      i := i + 1;
    }
  }

  // ---------------------------------------------------------------- reference encoding

  /** `x >> (8 * n)`: arithmetic shift right by whole bytes. */
  function ShrBytes(x: int, n: nat): int
    decreases n
  {
    if n == 0 then x else ShrBytes(x / TWO_8, n - 1)
  }

  /** The low `n` bytes of `x`, most significant first: the reference big-endian encoding. */
  function BigEndian(x: int, n: nat): (s: seq<int8>)
    ensures |s| == n
    decreases n
  {
    if n == 0 then [] else BigEndian(x / TWO_8, n - 1) + [ToByte(x)]
  }

  lemma {:induction false} ShrBytesIsDiv(x: int, n: nat)
    requires n <= 8
    ensures ShrBytes(x, n) == x / Pow256(n)
    decreases n
  {
    if n > 0 {
      ShrBytesIsDiv(x / TWO_8, n - 1);
      Pow256Step(n);
      DivDiv(x, TWO_8, Pow256(n - 1));
    }
  }

  lemma {:induction false} BigEndianAt(x: int, n: nat, j: nat)
    requires j < n
    ensures BigEndian(x, n)[j] == ToByte(ShrBytes(x, n - 1 - j))
    decreases n
  {
    if j < n - 1 {
      BigEndianAt(x / TWO_8, n - 1, j);
    }
  }

  /** Reading back `n` bytes of `x` unsigned leaves out exactly the bits above them. */
  lemma {:induction false} UnsignedBigEndian(x: int, n: nat)
    requires n <= 8
    ensures Unsigned(BigEndian(x, n)) == x - ShrBytes(x, n) * Pow256(n)
    decreases n
  {
    if n > 0 {
      var y := x / TWO_8;
      UnsignedBigEndian(y, n - 1);
      UnsignedSnoc(BigEndian(y, n - 1), ToByte(x));
      UnsignedToByte(x);
      Pow256Step(n);
      assert BigEndian(x, n) == BigEndian(y, n - 1) + [ToByte(x)];
      HornerStep(x, ShrBytes(x, n), Pow256(n - 1), Unsigned(BigEndian(y, n - 1)));
    }
  }

  /** The arithmetic of one byte of `UnsignedBigEndian`, with the powers left opaque. */
  lemma HornerStep(x: int, h: int, p: int, a: int)
    requires a == x / TWO_8 - h * p
    ensures a * TWO_8 + x % TWO_8 == x - h * (p * TWO_8)
  {
    assert x == (x / TWO_8) * TWO_8 + x % TWO_8;
  }

  lemma {:induction false} UnsignedBound(s: seq<int8>)
    requires |s| <= 8
    ensures Unsigned(s) < Pow256(|s|)
  {
    if |s| > 0 {
      UnsignedBound(s[..|s| - 1]);
      Pow256Step(|s|);
    }
  }

  /** `putLong` writes the reference encoding. */
  lemma LongBytesAreBigEndian(v: int)
    requires IsInt64(v)
    ensures LongBytes(v) == BigEndian(v, 8)
  {
    forall j | 0 <= j < 8
      ensures LongBytes(v)[j] == BigEndian(v, 8)[j]
    {
      BigEndianAt(v, 8, j);
      ShrBytesIsDiv(v, 7 - j);
      LongByte(v, j);
    }
  }

  lemma LongByte(v: int, j: nat)
    requires IsInt64(v) && j < 8
    ensures LongBytes(v)[j] == ToByte(v / Pow256(7 - j))
  {
    if j < 7 { UShr64Byte(v, 7 - j); }
  }

  /** `putInt` writes the reference encoding. */
  lemma IntBytesAreBigEndian(v: int)
    requires IsInt32(v)
    ensures IntBytes(v) == BigEndian(v, 4)
  {
    forall j | 0 <= j < 4
      ensures IntBytes(v)[j] == BigEndian(v, 4)[j]
    {
      BigEndianAt(v, 4, j);
      ShrBytesIsDiv(v, 3 - j);
      if j < 3 { UShr32Byte(v, 3 - j); }
    }
  }

  /** `putShort` writes the reference encoding. */
  lemma ShortBytesAreBigEndian(v: int)
    requires IsInt32(v)
    ensures ShortBytes(v) == BigEndian(v, 2)
  {
    BigEndianAt(v, 2, 0);
    BigEndianAt(v, 2, 1);
    ShrBytesIsDiv(v, 1);
    UShr32Byte(v, 1);
  }

  lemma DivisorChain(y: int)
    ensures y / TWO_8 / TWO_8 == y / TWO_16
    ensures y / TWO_16 / TWO_8 == y / TWO_24
  {
    DivDiv(y, TWO_8, TWO_8);
    DivDiv(y, TWO_16, TWO_8);
  }

  // ---------------------------------------------------------------- round trips

  /**
   * `extractShort(putShort(v))` is `(short) v`: the value itself in
   * -32768 .. 32767, and `v - 65536` in 32768 .. 65535, because the high
   * byte is sign-extended on the way back.
   */
  lemma {:induction false} ShortRoundTrip(v: int)
    requires IsInt32(v)
    ensures ExtractShort(ShortBytes(v), 0) == ToShort(v)
    ensures -0x8000 <= v < 0x8000 ==> ExtractShort(ShortBytes(v), 0) == v
    ensures 0x8000 <= v < TWO_16 ==> ExtractShort(ShortBytes(v), 0) == v - TWO_16
  {
    ShortBytesValue(v);
    if -0x8000 <= v < 0x8000 {
      ToShortUnique(v, v);
    } else if 0x8000 <= v < TWO_16 {
      ToShortUnique(v, v - TWO_16);
    }
  }

  lemma ShortBytesValue(v: int)
    requires IsInt32(v)
    ensures ExtractShort(ShortBytes(v), 0) == ToShort(v)
  {
    var y := v / TWO_8;
    UShr32Byte(v, 1);
    UnsignedToByte(v);
    var r := ToByte(y) * TWO_8 + v % TWO_8;
    assert ExtractShort(ShortBytes(v), 0) == r;
    var m := (ToByte(y) - y) / TWO_8;
    assert ToByte(y) - y == m * TWO_8;
    assert r - v == m * TWO_16;
    ToShortUnique(v, r);
  }

  lemma ToShortUnique(x: int, r: int)
    requires -0x8000 <= r < 0x8000 && (r - x) % TWO_16 == 0
    ensures ToShort(x) == r
  {
  }

  /** `extractInt(putInt(v)) == v` for every `int`, and the first byte is the most significant one. */
  lemma {:induction false} IntRoundTrip(v: int)
    requires IsInt32(v)
    ensures ExtractInt(IntBytes(v), 0) == v
    ensures IntBytes(v)[0] == v / TWO_24 && IntBytes(v)[3] == ToByte(v)
  {
    UShr32Byte(v, 3);
    UShr32Byte(v, 2);
    UShr32Byte(v, 1);
    var y1 := v / TWO_8;
    var y2 := y1 / TWO_8;
    var y3 := y2 / TWO_8;
    DivisorChain(v);
    UnsignedToByte(y2);
    UnsignedToByte(y1);
    UnsignedToByte(v);
    assert v == y1 * TWO_8 + v % TWO_8;
    assert y1 == y2 * TWO_8 + y1 % TWO_8;
    assert y2 == y3 * TWO_8 + y2 % TWO_8;
  }

  /** `extractLong(putLong(v)) == v` for every `long`. */
  lemma LongRoundTrip(v: int)
    requires IsInt64(v)
    ensures LongValue(LongBytes(v)) == v
  {
    LongBytesAreBigEndian(v);
    UnsignedBigEndian(v, 8);
    UnsignedBound(BigEndian(v, 8));
    var k := ShrBytes(v, 8);
    assert Unsigned(BigEndian(v, 8)) == v - k * TWO_64;
    Wrap64Unique(Unsigned(LongBytes(v)), v, k);
  }

  /** Written at `offset` of a larger buffer, a short reads back as `(short) v` there. */
  lemma ShortRoundTripAt(s: seq<int8>, offset: int, v: int)
    requires IsInt32(v) && 0 <= offset && offset + 2 <= |s|
    ensures ExtractShort(Overwrite(s, offset, ShortBytes(v)), offset) == ToShort(v)
  {
    OverwriteAt(s, offset, ShortBytes(v));
    ShortRoundTrip(v);
  }

  /** Written at `offset` of a larger buffer, an int reads back unchanged there. */
  lemma IntRoundTripAt(s: seq<int8>, offset: int, v: int)
    requires IsInt32(v) && 0 <= offset && offset + 4 <= |s|
    ensures ExtractInt(Overwrite(s, offset, IntBytes(v)), offset) == v
  {
    OverwriteAt(s, offset, IntBytes(v));
    IntRoundTrip(v);
  }

  /** Written at `offset` of a larger buffer, a long reads back unchanged there. */
  lemma LongRoundTripAt(s: seq<int8>, offset: int, v: int)
    requires IsInt64(v) && 0 <= offset && offset + 8 <= |s|
    ensures LongValue(Overwrite(s, offset, LongBytes(v))[offset..offset + 8]) == v
  {
    OverwriteAt(s, offset, LongBytes(v));
    assert Overwrite(s, offset, LongBytes(v))[offset..offset + 8] == LongBytes(v);
    LongRoundTrip(v);
  }
}
