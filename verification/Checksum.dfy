/** The checksum the renamer joins ROM content and DAT records on:
    `calculate_crc32` (renamer.py:100-102), i.e. the CRC-32 of the ZIP
    file format (PKWARE APPNOTE.TXT section 4.4.7, the reflected
    polynomial 0xEDB88320 of IEEE 802.3 clause 3.2.9), masked to 32 bits
    and rendered with `format(crc, '08x')`. */
module Checksum {

  /** The reflected CRC-32 generator polynomial. */
  const Polynomial: bv32 := 0xEDB8_8320

  /** 2^32, the modulus of `& 0xFFFFFFFF`. */
  const Two32: nat := 0x1_0000_0000

  /** One shift of the reflected CRC register. */
  function ShiftBit(c: bv32): bv32
  {
    if c & 1 == 1 then (c >> 1) ^ Polynomial else c >> 1
  }

  /** Feed one byte into the register, least significant bit first. */
  function AddByte(c: bv32, b: bv8): bv32
  {
    var x := c ^ (b as bv32);
    ShiftBit(ShiftBit(ShiftBit(ShiftBit(ShiftBit(ShiftBit(ShiftBit(ShiftBit(x))))))))
  }

  /** The register after feeding `data` in order, starting from `c`. */
  function Register(c: bv32, data: seq<bv8>): bv32
    decreases |data|
  {
    if data == [] then c else Register(AddByte(c, data[0]), data[1..])
  }

  /** CRC-32 of `data`: preset to all ones, final complement. */
  function Crc32(data: seq<bv8>): (r: nat)
    ensures r < Two32
  {
    (Register(0xFFFF_FFFF, data) ^ 0xFFFF_FFFF) as nat
  }

  /** The register is a left fold: feeding `a + b` is feeding `a` then `b`,
      so a checksum can be computed over a stream in pieces. */
  lemma {:induction false} RegisterAppend(c: bv32, a: seq<bv8>, b: seq<bv8>)
    ensures Register(c, a + b) == Register(Register(c, a), b)
    decreases |a|
  {
    if a == [] {
      assert a + b == b;
    } else {
      assert (a + b)[0] == a[0];
      assert (a + b)[1..] == a[1..] + b;
      RegisterAppend(AddByte(c, a[0]), a[1..], b);
    }
  }

  /** The standard check value: the CRC-32 of the ASCII digits "123456789"
      is 0xCBF43926. */
  lemma CheckValue()
    ensures Crc32([0x31, 0x32, 0x33, 0x34, 0x35, 0x36, 0x37, 0x38, 0x39]) == 0xCBF4_3926
  {
    var d: seq<bv8> := [0x31, 0x32, 0x33, 0x34, 0x35, 0x36, 0x37, 0x38, 0x39];
    assert AddByte(0xFFFF_FFFF, 0x31) == 0x7c23_1048;
    assert AddByte(0x7c23_1048, 0x32) == 0xb0ac_bb32;
    assert AddByte(0xb0ac_bb32, 0x33) == 0x77b7_9c2d;
    assert AddByte(0x77b7_9c2d, 0x34) == 0x641c_1f5c;
    assert AddByte(0x641c_1f5c, 0x35) == 0x340a_c5e3;
    assert AddByte(0x340a_c5e3, 0x36) == 0xf68d_2c9e;
    assert AddByte(0xf68d_2c9e, 0x37) == 0xaffc_9660;
    assert AddByte(0xaffc_9660, 0x38) == 0x651f_2550;
    assert AddByte(0x651f_2550, 0x39) == 0x340b_c6d9;
    assert Register(0xFFFF_FFFF, d) == Register(0x7c23_1048, d[1..]);
    assert Register(0x7c23_1048, d[1..]) == Register(0xb0ac_bb32, d[2..]);
    assert Register(0xb0ac_bb32, d[2..]) == Register(0x77b7_9c2d, d[3..]);
    assert Register(0x77b7_9c2d, d[3..]) == Register(0x641c_1f5c, d[4..]);
    assert Register(0x641c_1f5c, d[4..]) == Register(0x340a_c5e3, d[5..]);
    assert Register(0x340a_c5e3, d[5..]) == Register(0xf68d_2c9e, d[6..]);
    assert Register(0xf68d_2c9e, d[6..]) == Register(0xaffc_9660, d[7..]);
    assert Register(0xaffc_9660, d[7..]) == Register(0x651f_2550, d[8..]);
    assert Register(0x651f_2550, d[8..]) == Register(0x340b_c6d9, d[9..]);
    assert d[9..] == [];
  }

  // ---- `format(n, '08x')` and its inverse `int(s, 16)` ----

  function Pow16(w: nat): (p: nat)
    ensures p > 0
  {
    if w == 0 then 1 else 16 * Pow16(w - 1)
  }

  predicate IsHexDigit(c: char)
  {
    '0' <= c <= '9' || 'a' <= c <= 'f'
  }

  /** The lowercase hex digit of a value below 16. */
  function HexChar(d: nat): (c: char)
    requires d < 16
    ensures IsHexDigit(c)
  {
    if d < 10 then ('0' as int + d) as char else ('a' as int + d - 10) as char
  }

  /** Value of one lowercase hex digit. */
  function DigitValue(c: char): (v: nat)
    requires IsHexDigit(c)
    ensures v < 16 && HexChar(v) == c
  {
    if c <= '9' then c as int - '0' as int else c as int - 'a' as int + 10
  }

  /** The lowest `w` hex digits of `n`, most significant first, zero-padded. */
  function HexDigits(n: nat, w: nat): (s: string)
    ensures |s| == w
    ensures forall i :: 0 <= i < |s| ==> IsHexDigit(s[i])
  {
    if w == 0 then "" else HexDigits(n / 16, w - 1) + [HexChar(n % 16)]
  }

  /** `int(s, 16)` for a string of lowercase hex digits. */
  function ParseHex(s: string): (v: nat)
    requires forall i :: 0 <= i < |s| ==> IsHexDigit(s[i])
    ensures v < Pow16(|s|)
  {
    if s == [] then 0
    else ParseHex(s[..|s| - 1]) * 16 + DigitValue(s[|s| - 1])
  }

  /** Parsing a rendering of a number that fits in `w` digits gives it back. */
  lemma {:induction false} ParseHexDigits(n: nat, w: nat)
    requires n < Pow16(w)
    ensures ParseHex(HexDigits(n, w)) == n
  {
    if w > 0 {
      var s := HexDigits(n, w);
      assert s[..w - 1] == HexDigits(n / 16, w - 1);
      ParseHexDigits(n / 16, w - 1);
      assert DigitValue(s[w - 1]) == n % 16;
    }
  }

  /** Rendering a parsed digit string at its own width gives it back, so
      two different 8-digit strings never denote the same checksum. */
  lemma {:induction false} HexDigitsParse(s: string)
    requires forall i :: 0 <= i < |s| ==> IsHexDigit(s[i])
    ensures HexDigits(ParseHex(s), |s|) == s
  {
    if s != [] {
      var w := |s|;
      var init := s[..w - 1];
      var p, d := ParseHex(init), DigitValue(s[w - 1]);
      DivModDigit(p, d);
      HexDigitsParse(init);
      assert s == init + [s[w - 1]];
    }
  }

  lemma DivModDigit(p: nat, d: nat)
    requires d < 16
    ensures (p * 16 + d) / 16 == p && (p * 16 + d) % 16 == d
  {
  }

  /** `calculate_crc32(file_data)`: `zipfile.crc32(file_data) & 0xFFFFFFFF`
      formatted as `'08x'`. The result is exactly eight lowercase hex
      digits, and reading them back as a hex number gives the masked CRC. */
  function CalculateCrc32(data: seq<bv8>): (s: string)
    ensures |s| == 8
    ensures forall i :: 0 <= i < |s| ==> IsHexDigit(s[i])
    ensures ParseHex(s) == Crc32(data) % Two32
  {
    var crc := Crc32(data) % Two32;
    assert Pow16(8) == Two32;
    ParseHexDigits(crc, 8);
    HexDigits(crc, 8)
  }

  /** The mask is the identity on a CRC-32 value: the checksum string is
      the rendering of the CRC itself. */
  lemma CalculateCrc32IsCrc(data: seq<bv8>)
    ensures ParseHex(CalculateCrc32(data)) == Crc32(data)
  {
    MaskIsIdentity(Crc32(data));
  }

  lemma MaskIsIdentity(c: nat)
    requires c < Two32
    ensures c % Two32 == c
  {
  }

  /** Two byte sequences give the same checksum string exactly when their
      CRC-32 values are equal. */
  lemma CalculateCrc32Injective(a: seq<bv8>, b: seq<bv8>)
    ensures CalculateCrc32(a) == CalculateCrc32(b) <==> Crc32(a) == Crc32(b)
  {
    if CalculateCrc32(a) == CalculateCrc32(b) {
      CalculateCrc32IsCrc(a);
      CalculateCrc32IsCrc(b);
    }
  }
}
