/** The CRC-24Q parity of RTCM 3 frames, computed a byte at a time through a table of 256 words.

    A 24-bit word is kept as its three bytes. Every table entry is proved to be eight steps of long
    division by the generator 0x1864CFB, so the table-driven register is the remainder of the message
    shifted up by 24 bits. */
module Crc24q {
  import opened BitFields
  import opened CrcDivision

  /** 0x1864CFB, all 25 coefficients. */
  const GENERATOR: Generator := [true] + Bits([0x86, 0x4C, 0xFB])

  datatype Word24 = Word(hi: byte, mid: byte, lo: byte) {
    function Bytes(): seq<byte> {
      [hi, mid, lo]
    }
  }

  function XorWord(a: Word24, b: Word24): Word24 {
    Word(a.hi ^ b.hi, a.mid ^ b.mid, a.lo ^ b.lo)
  }

  /** tbl_CRC24Q, sixteen entries to a row. */
  function Table(i: nat): Word24
    requires i < 256
  {
    var h, l := i / 16, i % 16;
    match h
    case 0 => Row0(l)
    case 1 => Row1(l)
    case 2 => Row2(l)
    case 3 => Row3(l)
    case 4 => Row4(l)
    case 5 => Row5(l)
    case 6 => Row6(l)
    case 7 => Row7(l)
    case 8 => Row8(l)
    case 9 => Row9(l)
    case 10 => Row10(l)
    case 11 => Row11(l)
    case 12 => Row12(l)
    case 13 => Row13(l)
    case 14 => Row14(l)
    case _ => Row15(l)
  }

  function Row0(l: nat): Word24
    requires l < 16
  {
    match l
    case 0 => Word(0x00, 0x00, 0x00)
    case 1 => Word(0x86, 0x4C, 0xFB)
    case 2 => Word(0x8A, 0xD5, 0x0D)
    case 3 => Word(0x0C, 0x99, 0xF6)
    case 4 => Word(0x93, 0xE6, 0xE1)
    case 5 => Word(0x15, 0xAA, 0x1A)
    case 6 => Word(0x19, 0x33, 0xEC)
    case 7 => Word(0x9F, 0x7F, 0x17)
    case 8 => Word(0xA1, 0x81, 0x39)
    case 9 => Word(0x27, 0xCD, 0xC2)
    case 10 => Word(0x2B, 0x54, 0x34)
    case 11 => Word(0xAD, 0x18, 0xCF)
    case 12 => Word(0x32, 0x67, 0xD8)
    case 13 => Word(0xB4, 0x2B, 0x23)
    case 14 => Word(0xB8, 0xB2, 0xD5)
    case _ => Word(0x3E, 0xFE, 0x2E)
  }

  function Row1(l: nat): Word24
    requires l < 16
  {
    match l
    case 0 => Word(0xC5, 0x4E, 0x89)
    case 1 => Word(0x43, 0x02, 0x72)
    case 2 => Word(0x4F, 0x9B, 0x84)
    case 3 => Word(0xC9, 0xD7, 0x7F)
    case 4 => Word(0x56, 0xA8, 0x68)
    case 5 => Word(0xD0, 0xE4, 0x93)
    case 6 => Word(0xDC, 0x7D, 0x65)
    case 7 => Word(0x5A, 0x31, 0x9E)
    case 8 => Word(0x64, 0xCF, 0xB0)
    case 9 => Word(0xE2, 0x83, 0x4B)
    case 10 => Word(0xEE, 0x1A, 0xBD)
    case 11 => Word(0x68, 0x56, 0x46)
    case 12 => Word(0xF7, 0x29, 0x51)
    case 13 => Word(0x71, 0x65, 0xAA)
    case 14 => Word(0x7D, 0xFC, 0x5C)
    case _ => Word(0xFB, 0xB0, 0xA7)
  }

  function Row2(l: nat): Word24
    requires l < 16
  {
    match l
    case 0 => Word(0x0C, 0xD1, 0xE9)
    case 1 => Word(0x8A, 0x9D, 0x12)
    case 2 => Word(0x86, 0x04, 0xE4)
    case 3 => Word(0x00, 0x48, 0x1F)
    case 4 => Word(0x9F, 0x37, 0x08)
    case 5 => Word(0x19, 0x7B, 0xF3)
    case 6 => Word(0x15, 0xE2, 0x05)
    case 7 => Word(0x93, 0xAE, 0xFE)
    case 8 => Word(0xAD, 0x50, 0xD0)
    case 9 => Word(0x2B, 0x1C, 0x2B)
    case 10 => Word(0x27, 0x85, 0xDD)
    case 11 => Word(0xA1, 0xC9, 0x26)
    case 12 => Word(0x3E, 0xB6, 0x31)
    case 13 => Word(0xB8, 0xFA, 0xCA)
    case 14 => Word(0xB4, 0x63, 0x3C)
    case _ => Word(0x32, 0x2F, 0xC7)
  }

  function Row3(l: nat): Word24
    requires l < 16
  {
    match l
    case 0 => Word(0xC9, 0x9F, 0x60)
    case 1 => Word(0x4F, 0xD3, 0x9B)
    case 2 => Word(0x43, 0x4A, 0x6D)
    case 3 => Word(0xC5, 0x06, 0x96)
    case 4 => Word(0x5A, 0x79, 0x81)
    case 5 => Word(0xDC, 0x35, 0x7A)
    case 6 => Word(0xD0, 0xAC, 0x8C)
    case 7 => Word(0x56, 0xE0, 0x77)
    case 8 => Word(0x68, 0x1E, 0x59)
    case 9 => Word(0xEE, 0x52, 0xA2)
    case 10 => Word(0xE2, 0xCB, 0x54)
    case 11 => Word(0x64, 0x87, 0xAF)
    case 12 => Word(0xFB, 0xF8, 0xB8)
    case 13 => Word(0x7D, 0xB4, 0x43)
    case 14 => Word(0x71, 0x2D, 0xB5)
    case _ => Word(0xF7, 0x61, 0x4E)
  }

  function Row4(l: nat): Word24
    requires l < 16
  {
    match l
    case 0 => Word(0x19, 0xA3, 0xD2)
    case 1 => Word(0x9F, 0xEF, 0x29)
    case 2 => Word(0x93, 0x76, 0xDF)
    case 3 => Word(0x15, 0x3A, 0x24)
    case 4 => Word(0x8A, 0x45, 0x33)
    case 5 => Word(0x0C, 0x09, 0xC8)
    case 6 => Word(0x00, 0x90, 0x3E)
    case 7 => Word(0x86, 0xDC, 0xC5)
    case 8 => Word(0xB8, 0x22, 0xEB)
    case 9 => Word(0x3E, 0x6E, 0x10)
    case 10 => Word(0x32, 0xF7, 0xE6)
    case 11 => Word(0xB4, 0xBB, 0x1D)
    case 12 => Word(0x2B, 0xC4, 0x0A)
    case 13 => Word(0xAD, 0x88, 0xF1)
    case 14 => Word(0xA1, 0x11, 0x07)
    case _ => Word(0x27, 0x5D, 0xFC)
  }

  function Row5(l: nat): Word24
    requires l < 16
  {
    match l
    case 0 => Word(0xDC, 0xED, 0x5B)
    case 1 => Word(0x5A, 0xA1, 0xA0)
    case 2 => Word(0x56, 0x38, 0x56)
    case 3 => Word(0xD0, 0x74, 0xAD)
    case 4 => Word(0x4F, 0x0B, 0xBA)
    case 5 => Word(0xC9, 0x47, 0x41)
    case 6 => Word(0xC5, 0xDE, 0xB7)
    case 7 => Word(0x43, 0x92, 0x4C)
    case 8 => Word(0x7D, 0x6C, 0x62)
    case 9 => Word(0xFB, 0x20, 0x99)
    case 10 => Word(0xF7, 0xB9, 0x6F)
    case 11 => Word(0x71, 0xF5, 0x94)
    case 12 => Word(0xEE, 0x8A, 0x83)
    case 13 => Word(0x68, 0xC6, 0x78)
    case 14 => Word(0x64, 0x5F, 0x8E)
    case _ => Word(0xE2, 0x13, 0x75)
  }

  function Row6(l: nat): Word24
    requires l < 16
  {
    match l
    case 0 => Word(0x15, 0x72, 0x3B)
    case 1 => Word(0x93, 0x3E, 0xC0)
    case 2 => Word(0x9F, 0xA7, 0x36)
    case 3 => Word(0x19, 0xEB, 0xCD)
    case 4 => Word(0x86, 0x94, 0xDA)
    case 5 => Word(0x00, 0xD8, 0x21)
    case 6 => Word(0x0C, 0x41, 0xD7)
    case 7 => Word(0x8A, 0x0D, 0x2C)
    case 8 => Word(0xB4, 0xF3, 0x02)
    case 9 => Word(0x32, 0xBF, 0xF9)
    case 10 => Word(0x3E, 0x26, 0x0F)
    case 11 => Word(0xB8, 0x6A, 0xF4)
    case 12 => Word(0x27, 0x15, 0xE3)
    case 13 => Word(0xA1, 0x59, 0x18)
    case 14 => Word(0xAD, 0xC0, 0xEE)
    case _ => Word(0x2B, 0x8C, 0x15)
  }

  function Row7(l: nat): Word24
    requires l < 16
  {
    match l
    case 0 => Word(0xD0, 0x3C, 0xB2)
    case 1 => Word(0x56, 0x70, 0x49)
    case 2 => Word(0x5A, 0xE9, 0xBF)
    case 3 => Word(0xDC, 0xA5, 0x44)
    case 4 => Word(0x43, 0xDA, 0x53)
    case 5 => Word(0xC5, 0x96, 0xA8)
    case 6 => Word(0xC9, 0x0F, 0x5E)
    case 7 => Word(0x4F, 0x43, 0xA5)
    case 8 => Word(0x71, 0xBD, 0x8B)
    case 9 => Word(0xF7, 0xF1, 0x70)
    case 10 => Word(0xFB, 0x68, 0x86)
    case 11 => Word(0x7D, 0x24, 0x7D)
    case 12 => Word(0xE2, 0x5B, 0x6A)
    case 13 => Word(0x64, 0x17, 0x91)
    case 14 => Word(0x68, 0x8E, 0x67)
    case _ => Word(0xEE, 0xC2, 0x9C)
  }

  function Row8(l: nat): Word24
    requires l < 16
  {
    match l
    case 0 => Word(0x33, 0x47, 0xA4)
    case 1 => Word(0xB5, 0x0B, 0x5F)
    case 2 => Word(0xB9, 0x92, 0xA9)
    case 3 => Word(0x3F, 0xDE, 0x52)
    case 4 => Word(0xA0, 0xA1, 0x45)
    case 5 => Word(0x26, 0xED, 0xBE)
    case 6 => Word(0x2A, 0x74, 0x48)
    case 7 => Word(0xAC, 0x38, 0xB3)
    case 8 => Word(0x92, 0xC6, 0x9D)
    case 9 => Word(0x14, 0x8A, 0x66)
    case 10 => Word(0x18, 0x13, 0x90)
    case 11 => Word(0x9E, 0x5F, 0x6B)
    case 12 => Word(0x01, 0x20, 0x7C)
    case 13 => Word(0x87, 0x6C, 0x87)
    case 14 => Word(0x8B, 0xF5, 0x71)
    case _ => Word(0x0D, 0xB9, 0x8A)
  }

  function Row9(l: nat): Word24
    requires l < 16
  {
    match l
    case 0 => Word(0xF6, 0x09, 0x2D)
    case 1 => Word(0x70, 0x45, 0xD6)
    case 2 => Word(0x7C, 0xDC, 0x20)
    case 3 => Word(0xFA, 0x90, 0xDB)
    case 4 => Word(0x65, 0xEF, 0xCC)
    case 5 => Word(0xE3, 0xA3, 0x37)
    case 6 => Word(0xEF, 0x3A, 0xC1)
    case 7 => Word(0x69, 0x76, 0x3A)
    case 8 => Word(0x57, 0x88, 0x14)
    case 9 => Word(0xD1, 0xC4, 0xEF)
    case 10 => Word(0xDD, 0x5D, 0x19)
    case 11 => Word(0x5B, 0x11, 0xE2)
    case 12 => Word(0xC4, 0x6E, 0xF5)
    case 13 => Word(0x42, 0x22, 0x0E)
    case 14 => Word(0x4E, 0xBB, 0xF8)
    case _ => Word(0xC8, 0xF7, 0x03)
  }

  function Row10(l: nat): Word24
    requires l < 16
  {
    match l
    case 0 => Word(0x3F, 0x96, 0x4D)
    case 1 => Word(0xB9, 0xDA, 0xB6)
    case 2 => Word(0xB5, 0x43, 0x40)
    case 3 => Word(0x33, 0x0F, 0xBB)
    case 4 => Word(0xAC, 0x70, 0xAC)
    case 5 => Word(0x2A, 0x3C, 0x57)
    case 6 => Word(0x26, 0xA5, 0xA1)
    case 7 => Word(0xA0, 0xE9, 0x5A)
    case 8 => Word(0x9E, 0x17, 0x74)
    case 9 => Word(0x18, 0x5B, 0x8F)
    case 10 => Word(0x14, 0xC2, 0x79)
    case 11 => Word(0x92, 0x8E, 0x82)
    case 12 => Word(0x0D, 0xF1, 0x95)
    case 13 => Word(0x8B, 0xBD, 0x6E)
    case 14 => Word(0x87, 0x24, 0x98)
    case _ => Word(0x01, 0x68, 0x63)
  }

  function Row11(l: nat): Word24
    requires l < 16
  {
    match l
    case 0 => Word(0xFA, 0xD8, 0xC4)
    case 1 => Word(0x7C, 0x94, 0x3F)
    case 2 => Word(0x70, 0x0D, 0xC9)
    case 3 => Word(0xF6, 0x41, 0x32)
    case 4 => Word(0x69, 0x3E, 0x25)
    case 5 => Word(0xEF, 0x72, 0xDE)
    case 6 => Word(0xE3, 0xEB, 0x28)
    case 7 => Word(0x65, 0xA7, 0xD3)
    case 8 => Word(0x5B, 0x59, 0xFD)
    case 9 => Word(0xDD, 0x15, 0x06)
    case 10 => Word(0xD1, 0x8C, 0xF0)
    case 11 => Word(0x57, 0xC0, 0x0B)
    case 12 => Word(0xC8, 0xBF, 0x1C)
    case 13 => Word(0x4E, 0xF3, 0xE7)
    case 14 => Word(0x42, 0x6A, 0x11)
    case _ => Word(0xC4, 0x26, 0xEA)
  }

  function Row12(l: nat): Word24
    requires l < 16
  {
    match l
    case 0 => Word(0x2A, 0xE4, 0x76)
    case 1 => Word(0xAC, 0xA8, 0x8D)
    case 2 => Word(0xA0, 0x31, 0x7B)
    case 3 => Word(0x26, 0x7D, 0x80)
    case 4 => Word(0xB9, 0x02, 0x97)
    case 5 => Word(0x3F, 0x4E, 0x6C)
    case 6 => Word(0x33, 0xD7, 0x9A)
    case 7 => Word(0xB5, 0x9B, 0x61)
    case 8 => Word(0x8B, 0x65, 0x4F)
    case 9 => Word(0x0D, 0x29, 0xB4)
    case 10 => Word(0x01, 0xB0, 0x42)
    case 11 => Word(0x87, 0xFC, 0xB9)
    case 12 => Word(0x18, 0x83, 0xAE)
    case 13 => Word(0x9E, 0xCF, 0x55)
    case 14 => Word(0x92, 0x56, 0xA3)
    case _ => Word(0x14, 0x1A, 0x58)
  }

  function Row13(l: nat): Word24
    requires l < 16
  {
    match l
    case 0 => Word(0xEF, 0xAA, 0xFF)
    case 1 => Word(0x69, 0xE6, 0x04)
    case 2 => Word(0x65, 0x7F, 0xF2)
    case 3 => Word(0xE3, 0x33, 0x09)
    case 4 => Word(0x7C, 0x4C, 0x1E)
    case 5 => Word(0xFA, 0x00, 0xE5)
    case 6 => Word(0xF6, 0x99, 0x13)
    case 7 => Word(0x70, 0xD5, 0xE8)
    case 8 => Word(0x4E, 0x2B, 0xC6)
    case 9 => Word(0xC8, 0x67, 0x3D)
    case 10 => Word(0xC4, 0xFE, 0xCB)
    case 11 => Word(0x42, 0xB2, 0x30)
    case 12 => Word(0xDD, 0xCD, 0x27)
    case 13 => Word(0x5B, 0x81, 0xDC)
    case 14 => Word(0x57, 0x18, 0x2A)
    case _ => Word(0xD1, 0x54, 0xD1)
  }

  function Row14(l: nat): Word24
    requires l < 16
  {
    match l
    case 0 => Word(0x26, 0x35, 0x9F)
    case 1 => Word(0xA0, 0x79, 0x64)
    case 2 => Word(0xAC, 0xE0, 0x92)
    case 3 => Word(0x2A, 0xAC, 0x69)
    case 4 => Word(0xB5, 0xD3, 0x7E)
    case 5 => Word(0x33, 0x9F, 0x85)
    case 6 => Word(0x3F, 0x06, 0x73)
    case 7 => Word(0xB9, 0x4A, 0x88)
    case 8 => Word(0x87, 0xB4, 0xA6)
    case 9 => Word(0x01, 0xF8, 0x5D)
    case 10 => Word(0x0D, 0x61, 0xAB)
    case 11 => Word(0x8B, 0x2D, 0x50)
    case 12 => Word(0x14, 0x52, 0x47)
    case 13 => Word(0x92, 0x1E, 0xBC)
    case 14 => Word(0x9E, 0x87, 0x4A)
    case _ => Word(0x18, 0xCB, 0xB1)
  }

  function Row15(l: nat): Word24
    requires l < 16
  {
    match l
    case 0 => Word(0xE3, 0x7B, 0x16)
    case 1 => Word(0x65, 0x37, 0xED)
    case 2 => Word(0x69, 0xAE, 0x1B)
    case 3 => Word(0xEF, 0xE2, 0xE0)
    case 4 => Word(0x70, 0x9D, 0xF7)
    case 5 => Word(0xF6, 0xD1, 0x0C)
    case 6 => Word(0xFA, 0x48, 0xFA)
    case 7 => Word(0x7C, 0x04, 0x01)
    case 8 => Word(0x42, 0xFA, 0x2F)
    case 9 => Word(0xC4, 0xB6, 0xD4)
    case 10 => Word(0xC8, 0x2F, 0x22)
    case 11 => Word(0x4E, 0x63, 0xD9)
    case 12 => Word(0xD1, 0x1C, 0xCE)
    case 13 => Word(0x57, 0x50, 0x35)
    case 14 => Word(0x5B, 0xC9, 0xC3)
    case _ => Word(0xDD, 0x85, 0x38)
  }

  // ---------- the table is linear and its powers of two are division steps ----------

  /** The highest power of two in an index. */
  function TopPower(i: nat): (p: nat)
    requires 1 <= i < 256
    ensures 1 <= p <= i
  {
    if i < 2 then 1 else if i < 4 then 2 else if i < 8 then 4 else if i < 16 then 8
    else if i < 32 then 16 else if i < 64 then 32 else if i < 128 then 64 else 128
  }

  predicate Closes(i: nat)
    requires 1 <= i < 256
  {
    Table(i) == XorWord(Table(TopPower(i)), Table(i - TopPower(i)))
  }

  lemma Row0Closes(i: nat)
    requires 1 <= i < 16
    ensures Closes(i)
  {
    match i
    case 1 =>
    case 2 =>
    case 3 =>
    case 4 =>
    case 5 =>
    case 6 =>
    case 7 =>
    case 8 =>
    case 9 =>
    case 10 =>
    case 11 =>
    case 12 =>
    case 13 =>
    case 14 =>
    case _ =>
  }

  lemma Row1Closes(l: nat)
    requires l < 16
    ensures Closes(16 + l)
  {
    match l
    case 0 =>
    case 1 =>
    case 2 =>
    case 3 =>
    case 4 =>
    case 5 =>
    case 6 =>
    case 7 =>
    case 8 =>
    case 9 =>
    case 10 =>
    case 11 =>
    case 12 =>
    case 13 =>
    case 14 =>
    case _ =>
  }

  lemma Row2Closes(l: nat)
    requires l < 16
    ensures Closes(32 + l)
  {
    match l
    case 0 =>
    case 1 =>
    case 2 =>
    case 3 =>
    case 4 =>
    case 5 =>
    case 6 =>
    case 7 =>
    case 8 =>
    case 9 =>
    case 10 =>
    case 11 =>
    case 12 =>
    case 13 =>
    case 14 =>
    case _ =>
  }

  lemma Row3Closes(l: nat)
    requires l < 16
    ensures Closes(48 + l)
  {
    match l
    case 0 =>
    case 1 =>
    case 2 =>
    case 3 =>
    case 4 =>
    case 5 =>
    case 6 =>
    case 7 =>
    case 8 =>
    case 9 =>
    case 10 =>
    case 11 =>
    case 12 =>
    case 13 =>
    case 14 =>
    case _ =>
  }

  lemma Row4Closes(l: nat)
    requires l < 16
    ensures Closes(64 + l)
  {
    match l
    case 0 =>
    case 1 =>
    case 2 =>
    case 3 =>
    case 4 =>
    case 5 =>
    case 6 =>
    case 7 =>
    case 8 =>
    case 9 =>
    case 10 =>
    case 11 =>
    case 12 =>
    case 13 =>
    case 14 =>
    case _ =>
  }

  lemma Row5Closes(l: nat)
    requires l < 16
    ensures Closes(80 + l)
  {
    match l
    case 0 =>
    case 1 =>
    case 2 =>
    case 3 =>
    case 4 =>
    case 5 =>
    case 6 =>
    case 7 =>
    case 8 =>
    case 9 =>
    case 10 =>
    case 11 =>
    case 12 =>
    case 13 =>
    case 14 =>
    case _ =>
  }

  lemma Row6Closes(l: nat)
    requires l < 16
    ensures Closes(96 + l)
  {
    match l
    case 0 =>
    case 1 =>
    case 2 =>
    case 3 =>
    case 4 =>
    case 5 =>
    case 6 =>
    case 7 =>
    case 8 =>
    case 9 =>
    case 10 =>
    case 11 =>
    case 12 =>
    case 13 =>
    case 14 =>
    case _ =>
  }

  lemma Row7Closes(l: nat)
    requires l < 16
    ensures Closes(112 + l)
  {
    match l
    case 0 =>
    case 1 =>
    case 2 =>
    case 3 =>
    case 4 =>
    case 5 =>
    case 6 =>
    case 7 =>
    case 8 =>
    case 9 =>
    case 10 =>
    case 11 =>
    case 12 =>
    case 13 =>
    case 14 =>
    case _ =>
  }

  lemma Row8Closes(l: nat)
    requires l < 16
    ensures Closes(128 + l)
  {
    match l
    case 0 =>
    case 1 =>
    case 2 =>
    case 3 =>
    case 4 =>
    case 5 =>
    case 6 =>
    case 7 =>
    case 8 =>
    case 9 =>
    case 10 =>
    case 11 =>
    case 12 =>
    case 13 =>
    case 14 =>
    case _ =>
  }

  lemma Row9Closes(l: nat)
    requires l < 16
    ensures Closes(144 + l)
  {
    match l
    case 0 =>
    case 1 =>
    case 2 =>
    case 3 =>
    case 4 =>
    case 5 =>
    case 6 =>
    case 7 =>
    case 8 =>
    case 9 =>
    case 10 =>
    case 11 =>
    case 12 =>
    case 13 =>
    case 14 =>
    case _ =>
  }

  lemma Row10Closes(l: nat)
    requires l < 16
    ensures Closes(160 + l)
  {
    match l
    case 0 =>
    case 1 =>
    case 2 =>
    case 3 =>
    case 4 =>
    case 5 =>
    case 6 =>
    case 7 =>
    case 8 =>
    case 9 =>
    case 10 =>
    case 11 =>
    case 12 =>
    case 13 =>
    case 14 =>
    case _ =>
  }

  lemma Row11Closes(l: nat)
    requires l < 16
    ensures Closes(176 + l)
  {
    match l
    case 0 =>
    case 1 =>
    case 2 =>
    case 3 =>
    case 4 =>
    case 5 =>
    case 6 =>
    case 7 =>
    case 8 =>
    case 9 =>
    case 10 =>
    case 11 =>
    case 12 =>
    case 13 =>
    case 14 =>
    case _ =>
  }

  lemma Row12Closes(l: nat)
    requires l < 16
    ensures Closes(192 + l)
  {
    match l
    case 0 =>
    case 1 =>
    case 2 =>
    case 3 =>
    case 4 =>
    case 5 =>
    case 6 =>
    case 7 =>
    case 8 =>
    case 9 =>
    case 10 =>
    case 11 =>
    case 12 =>
    case 13 =>
    case 14 =>
    case _ =>
  }

  lemma Row13Closes(l: nat)
    requires l < 16
    ensures Closes(208 + l)
  {
    match l
    case 0 =>
    case 1 =>
    case 2 =>
    case 3 =>
    case 4 =>
    case 5 =>
    case 6 =>
    case 7 =>
    case 8 =>
    case 9 =>
    case 10 =>
    case 11 =>
    case 12 =>
    case 13 =>
    case 14 =>
    case _ =>
  }

  lemma Row14Closes(l: nat)
    requires l < 16
    ensures Closes(224 + l)
  {
    match l
    case 0 =>
    case 1 =>
    case 2 =>
    case 3 =>
    case 4 =>
    case 5 =>
    case 6 =>
    case 7 =>
    case 8 =>
    case 9 =>
    case 10 =>
    case 11 =>
    case 12 =>
    case 13 =>
    case 14 =>
    case _ =>
  }

  lemma Row15Closes(l: nat)
    requires l < 16
    ensures Closes(240 + l)
  {
    match l
    case 0 =>
    case 1 =>
    case 2 =>
    case 3 =>
    case 4 =>
    case 5 =>
    case 6 =>
    case 7 =>
    case 8 =>
    case 9 =>
    case 10 =>
    case 11 =>
    case 12 =>
    case 13 =>
    case 14 =>
    case _ =>
  }

  /** Splitting off the highest bit of the index splits the entry. */
  lemma TableCloses(i: nat)
    requires 1 <= i < 256
    ensures Closes(i)
  {
    if i < 16 {
      Row0Closes(i);
    } else if i < 32 {
      Row1Closes(i - 16);
    } else if i < 48 {
      Row2Closes(i - 32);
    } else if i < 64 {
      Row3Closes(i - 48);
    } else if i < 80 {
      Row4Closes(i - 64);
    } else if i < 96 {
      Row5Closes(i - 80);
    } else if i < 112 {
      Row6Closes(i - 96);
    } else if i < 128 {
      Row7Closes(i - 112);
    } else if i < 144 {
      Row8Closes(i - 128);
    } else if i < 160 {
      Row9Closes(i - 144);
    } else if i < 176 {
      Row10Closes(i - 160);
    } else if i < 192 {
      Row11Closes(i - 176);
    } else if i < 208 {
      Row12Closes(i - 192);
    } else if i < 224 {
      Row13Closes(i - 208);
    } else if i < 240 {
      Row14Closes(i - 224);
    } else {
      Row15Closes(i - 240);
    }
  }

  function ShiftByte(a: byte, b: byte): byte {
    (a << 1) | (b >> 7)
  }

  function ShiftWord(w: Word24): Word24 {
    Word(ShiftByte(w.hi, w.mid), ShiftByte(w.mid, w.lo), ShiftByte(w.lo, 0))
  }

  function WordStep(w: Word24): Word24 {
    if BitOf(w.hi, 0) then XorWord(ShiftWord(w), Word(0x86, 0x4C, 0xFB)) else ShiftWord(w)
  }

  lemma ShiftByteAt(a: byte, b: byte, j: nat)
    requires j < 8
    ensures BitOf(ShiftByte(a, b), j) == if j < 7 then BitOf(a, j + 1) else BitOf(b, 0)
  {
  }

  lemma XorByteAt(a: byte, b: byte, j: nat)
    requires j < 8
    ensures BitOf(a ^ b, j) == (BitOf(a, j) != BitOf(b, j))
  {
    OneHot(a, j);
    OneHot(b, j);
    XorMask(a, b, BitMask(j));
    XorUnits(BitMask(j));
    XorUnits(0);
  }

  lemma OneHot(b: byte, j: nat)
    requires j < 8
    ensures b & BitMask(j) == 0 || b & BitMask(j) == BitMask(j)
    ensures BitMask(j) != 0
  {
  }

  lemma XorMask(a: byte, b: byte, m: byte)
    ensures (a ^ b) & m == (a & m) ^ (b & m)
  {
  }

  lemma XorUnits(m: byte)
    ensures m ^ 0 == m == 0 ^ m && m ^ m == 0
  {
  }

  ghost predicate IsXor(x: byte, a: byte, b: byte) {
    forall j: nat | j < 8 :: BitOf(x, j) == (BitOf(a, j) != BitOf(b, j))
  }

  lemma XorByteIsXor(a: byte, b: byte)
    ensures IsXor(a ^ b, a, b)
  {
    forall j: nat | j < 8
      ensures BitOf(a ^ b, j) == (BitOf(a, j) != BitOf(b, j))
    {
      XorByteAt(a, b, j);
    }
  }

  lemma WordBits(w: Word24)
    ensures Bits(w.Bytes()) == Bits([w.hi]) + Bits([w.mid]) + Bits([w.lo])
  {
  }

  lemma BitsOfXorByte(x: byte, a: byte, b: byte)
    requires IsXor(x, a, b)
    ensures Bits([x]) == Xor(Bits([a]), Bits([b]))
  {
  }

  lemma BitsOfXor(x: Word24, a: Word24, b: Word24)
    requires IsXor(x.hi, a.hi, b.hi) && IsXor(x.mid, a.mid, b.mid) && IsXor(x.lo, a.lo, b.lo)
    ensures Bits(x.Bytes()) == Xor(Bits(a.Bytes()), Bits(b.Bytes()))
  {
    BitsOfXorByte(x.hi, a.hi, b.hi);
    BitsOfXorByte(x.mid, a.mid, b.mid);
    BitsOfXorByte(x.lo, a.lo, b.lo);
    WordBits(x);
    WordBits(a);
    WordBits(b);
  }

  lemma XorWordBits(a: Word24, b: Word24)
    ensures Bits(XorWord(a, b).Bytes()) == Xor(Bits(a.Bytes()), Bits(b.Bytes()))
  {
    XorByteIsXor(a.hi, b.hi);
    XorByteIsXor(a.mid, b.mid);
    XorByteIsXor(a.lo, b.lo);
    BitsOfXor(XorWord(a, b), a, b);
  }

  lemma ShiftByteBits(a: byte, b: byte)
    ensures Bits([ShiftByte(a, b)]) == Bits([a])[1..] + Bits([b])[..1]
  {
    forall k | 0 <= k < 8
      ensures Bits([ShiftByte(a, b)])[k] == (Bits([a])[1..] + Bits([b])[..1])[k]
    {
      ShiftByteAt(a, b, k);
    }
  }

  lemma ShiftWordBits(w: Word24)
    ensures Bits(ShiftWord(w).Bytes()) == Bits(w.Bytes())[1..] + [false]
  {
    WordBits(w);
    WordBits(ShiftWord(w));
    ShiftByteBits(w.hi, w.mid);
    ShiftByteBits(w.mid, w.lo);
    ShiftByteBits(w.lo, 0);
  }

  lemma WordStepIsDivision(w: Word24)
    ensures Bits(WordStep(w).Bytes()) == DivideBit(GENERATOR, Bits(w.Bytes()), false)
  {
    var g := Word(0x86, 0x4C, 0xFB);
    var b, s := Bits(w.Bytes()), Bits(ShiftWord(w).Bytes());
    ShiftWordBits(w);
    XorWordBits(ShiftWord(w), g);
    assert b[0] == BitOf(w.hi, 0);
    assert (b + [false])[1..] == s;
    assert Xor(b + [false], GENERATOR)[1..] == Xor(s, Bits(g.Bytes()));
  }

  lemma TablePowers(k: nat)
    requires k < 7
    ensures Pow2(k + 1) < 256
    ensures Table(Pow2(k + 1)) == WordStep(Table(Pow2(k)))
  {
    PowersUpTo8();
    match k
    case 0 =>
    case 1 =>
    case 2 =>
    case 3 =>
    case 4 =>
    case 5 =>
    case 6 =>
  }

  // ---------- every entry is the parity of its index ----------

  lemma {:induction false} FieldPower(k: nat, n: nat)
    requires k < n
    ensures Field(Pow2(k), n) == Zeros(n - 1 - k) + [true] + Zeros(k)
    decreases k
  {
    FieldStep(Pow2(k), n);
    if k == 0 {
      FieldZero(n - 1);
    } else {
      FieldPower(k - 1, n - 1);
    }
  }

  /** Adding a power of two above a number sets one bit of its field. */
  lemma {:induction false} FieldAddPower(k: nat, v: nat, n: nat)
    requires k < n && v < Pow2(k)
    ensures Field(Pow2(k) + v, n) == Xor(Field(Pow2(k), n), Field(v, n))
    decreases k
  {
    if k == 0 {
      FieldZero(n);
      XorZeros(Field(1, n));
    } else {
      assert (Pow2(k) + v) / 2 == Pow2(k - 1) + v / 2;
      assert (Pow2(k) + v) % 2 == v % 2;
      FieldAddPower(k - 1, v / 2, n - 1);
      FieldStep(Pow2(k), n);
      FieldStep(v, n);
      FieldStep(Pow2(k) + v, n);
    }
  }

  lemma ParityOfPower(k: nat)
    requires k < 8
    ensures Parity(GENERATOR, Field(Pow2(k), 8)) == Power(GENERATOR, 24 + k)
  {
    FieldPower(k, 8);
    assert Field(Pow2(k), 8) + Zeros(24) == Zeros(7 - k) + ([true] + Zeros(24 + k));
    DivideLeadingZeros(GENERATOR, 7 - k, [true] + Zeros(24 + k));
  }

  lemma {:induction false} TableOfPower(k: nat)
    requires k < 8
    ensures Pow2(k) < 256
    ensures Bits(Table(Pow2(k)).Bytes()) == Power(GENERATOR, 24 + k)
  {
    if k == 0 {
      assert Table(1) == Word(0x86, 0x4C, 0xFB);
      PowerOfDegree(GENERATOR);
    } else {
      TableOfPower(k - 1);
      TablePowers(k - 1);
      WordStepIsDivision(Table(Pow2(k - 1)));
      PowerNext(GENERATOR, 23 + k);
    }
  }

  lemma ParityXor(a: seq<bool>, b: seq<bool>)
    requires |a| == |b|
    ensures Parity(GENERATOR, Xor(a, b)) == Xor(Parity(GENERATOR, a), Parity(GENERATOR, b))
  {
    var z := Zeros(24);
    DivideXor(GENERATOR, z, a + z, z, b + z);
    XorZeros(z);
    assert Xor(a + z, b + z) == Xor(a, b) + z;
  }

  lemma TopPowerIsPower(i: nat) returns (k: nat)
    requires 1 <= i < 256
    ensures k < 8 && TopPower(i) == Pow2(k) && i - Pow2(k) < Pow2(k)
  {
    PowersUpTo8();
    k := if i < 2 then 0 else if i < 4 then 1 else if i < 8 then 2 else if i < 16 then 3
         else if i < 32 then 4 else if i < 64 then 5 else if i < 128 then 6 else 7;
  }

  /** The whole table: entry i is the remainder of i, an 8-bit string, shifted up by 24. */
  lemma {:induction false} TableIsParity(i: nat)
    requires i < 256
    ensures Bits(Table(i).Bytes()) == Parity(GENERATOR, Field(i, 8))
  {
    if i == 0 {
      FieldZero(8);
      assert Zeros(8) + Zeros(24) == Zeros(32);
      DivideZeros(GENERATOR, 32);
      assert Table(0) == Word(0, 0, 0);
    } else {
      var k := TopPowerIsPower(i);
      var v := i - Pow2(k);
      TableCloses(i);
      XorWordBits(Table(Pow2(k)), Table(v));
      TableIsParity(v);
      TableOfPower(k);
      ParityOfPower(k);
      FieldAddPower(k, v, 8);
      ParityXor(Field(Pow2(k), 8), Field(v, 8));
    }
  }

  // ---------- the byte loop ----------

  /** A byte as a table index. */
  function Index(b: byte): (r: nat)
    ensures r < 256
  {
    PowersUpTo8();
    UIntBound(Bits([b]));
    UInt(Bits([b]))
  }

  /** ((crc << 8) & 0xFFFFFF) ^ tbl_CRC24Q[(crc >> 16) ^ b]. */
  function Absorb(crc: Word24, b: byte): Word24 {
    XorWord(Word(crc.mid, crc.lo, 0), Table(Index(crc.hi ^ b)))
  }

  function Register(s: seq<byte>): Word24 {
    if |s| == 0 then Word(0, 0, 0) else Absorb(Register(s[..|s| - 1]), s[|s| - 1])
  }

  /** crc24q. */
  method Crc24(buff: array<byte>, len: nat) returns (crc: Word24)
    requires len <= buff.Length
    ensures crc == Register(buff[..len])
  {
    crc := Word(0, 0, 0);
    var i := 0;
    while i < len
      invariant 0 <= i <= len
      invariant crc == Register(buff[..i])
    {
      assert buff[..i + 1][..i] == buff[..i];
      crc := Absorb(crc, buff[i]);
      i := i + 1;
    }
  }

  /** Feeding a byte in at the top: the low 16 bits only move up, the top byte is divided on its own. */
  lemma ParityStepSplit(c: seq<bool>, b: seq<bool>)
    requires |c| == 24 && |b| == 8
    ensures ParityStep(GENERATOR, c, b) == Xor(c[8..] + Zeros(8), Parity(GENERATOR, Xor(c[..8], b)))
  {
    var top, rest := Xor(c[..8], b), Zeros(8) + c[8..];
    assert Xor(c, b + Zeros(16)) == Xor(rest, top + Zeros(16));
    DivideLow(c[8..]);
    ParityOfEight(GENERATOR, top);
    DivideXor(GENERATOR, rest, Zeros(8), top + Zeros(16), Zeros(8));
    XorZeros(Zeros(8));
  }

  lemma DivideLow(t: seq<bool>)
    requires |t| == 16
    ensures Divide(GENERATOR, Zeros(8) + t, Zeros(8)) == t + Zeros(8)
  {
    DivideSmall(GENERATOR, t);
    DivideConcat(GENERATOR, Zeros(24), t, Zeros(8));
    DivideSmall(GENERATOR, t + Zeros(8));
    assert Zeros(0) + (t + Zeros(8)) == t + Zeros(8);
  }

  lemma ShiftedRegister(crc: Word24)
    ensures Bits(Word(crc.mid, crc.lo, 0).Bytes()) == Bits(crc.Bytes())[8..] + Zeros(8)
    ensures Bits(crc.Bytes())[..8] == Bits([crc.hi])
  {
    WordBits(crc);
    WordBits(Word(crc.mid, crc.lo, 0));
    ZeroByteBits();
  }

  lemma EntryFor(x: byte)
    ensures Bits(Table(Index(x)).Bytes()) == Parity(GENERATOR, Bits([x]))
  {
    FieldUInt(Bits([x]));
    TableIsParity(Index(x));
  }

  lemma AbsorbIsDivision(crc: Word24, b: byte)
    ensures Bits(Absorb(crc, b).Bytes()) == ParityStep(GENERATOR, Bits(crc.Bytes()), Bits([b]))
  {
    XorByteIsXor(crc.hi, b);
    BitsOfXorByte(crc.hi ^ b, crc.hi, b);
    ShiftedRegister(crc);
    EntryFor(crc.hi ^ b);
    ParityStepSplit(Bits(crc.Bytes()), Bits([b]));
    XorWordBits(Word(crc.mid, crc.lo, 0), Table(Index(crc.hi ^ b)));
  }

  lemma ZeroByteBits()
    ensures Bits([0]) == Zeros(8)
  {
  }

  lemma ZeroWordBits()
    ensures Bits(Word(0, 0, 0).Bytes()) == Zeros(24)
  {
    ZeroByteBits();
    WordBits(Word(0, 0, 0));
    assert Zeros(8) + Zeros(8) + Zeros(8) == Zeros(24);
  }

  lemma RegisterNext(t: seq<byte>, b: byte)
    ensures Bits(Register(t + [b]).Bytes()) == ParityStep(GENERATOR, Bits(Register(t).Bytes()), Bits([b]))
  {
    AbsorbIsDivision(Register(t), b);
    assert (t + [b])[..|t|] == t;
  }

  lemma GeneratorValue()
    ensures UInt(GENERATOR) == 0x186_4CFB
  {
    var a: seq<byte> := [0x86];
    ByteValue(0x86);
    BytesValue(a, 0x4C);
    BytesValue(a + [0x4C], 0xFB);
    assert a + [0x4C] + [0xFB] == [0x86, 0x4C, 0xFB];
    UIntCons(true, Bits([0x86, 0x4C, 0xFB]));
    assert Pow2(8) == 256;
    assert Pow2(16) == 65536;
    assert Pow2(24) == 0x100_0000;
  }

  /** The register after a message holds the remainder of long division by 0x1864CFB. */
  lemma {:induction false} RegisterIsParity(s: seq<byte>)
    ensures Bits(Register(s).Bytes()) == Parity(GENERATOR, Bits(s))
  {
    if |s| == 0 {
      assert Bits(s) == [] && [] + Zeros(24) == Zeros(24);
      DivideZeros(GENERATOR, 24);
      ZeroWordBits();
    } else {
      var t, b := s[..|s| - 1], s[|s| - 1];
      assert s == t + [b];
      RegisterIsParity(t);
      RegisterNext(t, b);
      BitsConcat(t, [b]);
      ParityExtend(GENERATOR, Bits(t), Bits([b]));
    }
  }

  /** A message followed by its own parity leaves the register at zero. */
  lemma ResidueIsZero(s: seq<byte>)
    ensures Register(s + Register(s).Bytes()) == Word(0, 0, 0)
  {
    var p := Register(s).Bytes();
    RegisterIsParity(s);
    BitsConcat(s, p);
    ParityDivides(GENERATOR, Bits(s));
    DivisibleHasZeroParity(GENERATOR, Bits(s + p));
    RegisterIsParity(s + p);
    ZeroRegister(s + p);
  }

  lemma ZeroRegister(s: seq<byte>)
    requires Parity(GENERATOR, Bits(s)) == Zeros(24)
    ensures Register(s) == Word(0, 0, 0)
  {
    RegisterIsParity(s);
    ZeroWordBits();
    SameBitsSameBytes(Register(s).Bytes(), Word(0, 0, 0).Bytes());
  }
}
