/**
 Integer logarithms: the multiply-and-look-up forms for 32 and 64 bits, the shifting loop, and
 the power-of-two test.
*/
module Log2 {
  function Pow2(r: nat): (p: nat)
    ensures p >= 1
  {
    if r == 0 then 1 else 2 * Pow2(r - 1)
  }

  /** The number a word denotes, read bit by bit. */
  function Value64(v: bv64): nat
    decreases v
  {
    if v == 0 then 0 else 2 * Value64(v >> 1) + if v & 1 == 1 then 1 else 0
  }

  /** One less than the number of right shifts that empty the word. */
  function Bits64(v: bv64): (n: int)
    ensures n >= -1 && (v != 0 ==> n >= 0)
    decreases v
  {
    if v == 0 then -1 else 1 + Bits64(v >> 1)
  }

  /** For a non-zero word that is the floor of the base-2 logarithm of its value. */
  lemma {:induction false} BitsIsLog(v: bv64)
    requires v != 0
    ensures Pow2(Bits64(v)) <= Value64(v) < Pow2(Bits64(v) + 1)
    decreases v
  {
    if v >> 1 != 0 {
      BitsIsLog(v >> 1);
    }
  }

  /** The loop that shifts until nothing is left. */
  method Bits(value: bv64) returns (n: int)
    ensures n == Bits64(value)
    ensures value != 0 ==> n >= 0 && Pow2(n) <= Value64(value) < Pow2(n + 1)
  {
    var v := value;
    n := 0;
    while v != 0
      invariant Bits64(value) == n + Bits64(v)
      decreases v
    {
      v := v >> 1;
      n := n + 1;
    }
    n := n - 1;
    if value != 0 {
      BitsIsLog(value);
    }
  }

  // ---------------------------------------------------------------- table look-up

  const TAB32: seq<int> :=
    [0, 9, 1, 10, 13, 21, 2, 29] +
    [11, 14, 16, 18, 22, 25, 3, 30] +
    [8, 12, 20, 28, 15, 17, 24, 7] +
    [19, 27, 23, 6, 26, 5, 4, 31]

  const TAB64: seq<int> :=
    [63, 0, 58, 1, 59, 47, 53, 2] +
    [60, 39, 48, 27, 54, 33, 42, 3] +
    [61, 51, 37, 40, 49, 18, 28, 20] +
    [55, 30, 34, 11, 43, 14, 22, 4] +
    [62, 57, 46, 52, 38, 26, 32, 41] +
    [50, 36, 17, 19, 29, 10, 13, 21] +
    [56, 45, 25, 31, 35, 16, 9, 12] +
    [44, 24, 15, 8, 23, 7, 6, 5]

  function Top5(x: bv32): bv5 { (x >> 27) as bv5 }
  function Top6(x: bv64): bv6 { (x >> 58) as bv6 }

  /** The table entry for a smeared word. */
  function Look32(s: bv32): int { TAB32[Top5(s * 0x07C4ACDD) as int] }
  function Look64(s: bv64): int { TAB64[Top6((s - (s >> 1)) * 0x07EDD5E59A4E28C2) as int] }

  /** All bits up to the highest one are set. */
  predicate Mask32(s: bv32) { s != 0 && (s >> 1) | s == s }
  predicate Mask64(s: bv64) { s != 0 && (s >> 1) | s == s }

  /** The logarithm of every non-zero word, the same as the loop's; 0 for zero. */
  method Log2_32(value: bv32) returns (r: int)
    ensures value != 0 ==> r == Bits64(value as bv64) && r >= 0 && Pow2(r) <= Value64(value as bv64) < Pow2(r + 1)
    ensures value == 0 ==> r == 0
  {
    var v := SmearDown32(value);
    r := Entry32Of(v);
    if value != 0 {
      BitsIsLog(value as bv64);
    }
  }

  /** Sets every bit below the highest one, in place. */
  method SmearDown32(value: bv32) returns (v: bv32)
    ensures value != 0 ==> Mask32(v) && Bits64(v as bv64) == Bits64(value as bv64)
    ensures value == 0 ==> v == 0
  {
    v := SmearSteps32(value);
    if value == 0 {
      Smear32Zero(value);
    } else {
      Smear32Bits(value, v, value as bv64, v as bv64);
    }
  }

  method SmearSteps32(value: bv32) returns (v: bv32)
    ensures v == Smear32(value)
  {
    v := value;
    v := v | (v >> 1);
    v := v | (v >> 2);
    v := v | (v >> 4);
    v := v | (v >> 8);
    v := v | (v >> 16);
  }

  method Entry32Of(v: bv32) returns (r: int)
    ensures Mask32(v) ==> r == Bits64(v as bv64)
    ensures v == 0 ==> r == 0
  {
    r := TAB32[Top5(v * 0x07C4ACDD) as int];
    if v != 0 && (v >> 1) | v == v {
      MaskAgrees32(v);
    }
  }

  /** The logarithm of every non-zero word, the same as the loop's; 63 for zero. */
  method Log2_64(value: bv64) returns (r: int)
    ensures value != 0 ==> r == Bits64(value) && r >= 0 && Pow2(r) <= Value64(value) < Pow2(r + 1)
    ensures value == 0 ==> r == 63
  {
    var v := SmearDown64(value);
    r := Entry64Of(v);
    if value != 0 {
      BitsIsLog(value);
    }
  }

  /** Sets every bit below the highest one, in place. */
  method SmearDown64(value: bv64) returns (v: bv64)
    ensures value != 0 ==> Mask64(v) && Bits64(v) == Bits64(value)
    ensures value == 0 ==> v == 0
  {
    v := SmearSteps64(value);
    if value == 0 {
      Smear64Zero(value);
    } else {
      Smear64Bits(value, v);
    }
  }

  method SmearSteps64(value: bv64) returns (v: bv64)
    ensures v == Smear64(value)
  {
    v := value;
    v := v | (v >> 1);
    ghost var a := v;
    v := v | (v >> 2);
    ghost var b := v;
    v := v | (v >> 4);
    ghost var c := v;
    v := v | (v >> 8);
    ghost var d := v;
    v := v | (v >> 16);
    ghost var e := v;
    v := v | (v >> 32);
    SmearIs64(value, a, b, c, d, e, v);
  }

  lemma SmearIs64(v: bv64, a: bv64, b: bv64, c: bv64, d: bv64, e: bv64, f: bv64)
    requires a == v | (v >> 1) && b == a | (a >> 2) && c == b | (b >> 4)
    requires d == c | (c >> 8) && e == d | (d >> 16) && f == e | (e >> 32)
    ensures f == Smear64(v)
  {
  }

  method Entry64Of(v: bv64) returns (r: int)
    ensures Mask64(v) ==> r == Bits64(v)
    ensures v == 0 ==> r == 63
  {
    r := TAB64[Top6((v - (v >> 1)) * 0x07EDD5E59A4E28C2) as int];
    if v != 0 && (v >> 1) | v == v {
      MaskAgrees64(v);
    }
  }

  function Smear32(v: bv32): bv32 {
    var a := v | (v >> 1);
    var b := a | (a >> 2);
    var c := b | (b >> 4);
    var d := c | (c >> 8);
    d | (d >> 16)
  }

  function Smear64(v: bv64): bv64 {
    var a := v | (v >> 1);
    var b := a | (a >> 2);
    var c := b | (b >> 4);
    var d := c | (c >> 8);
    var e := d | (d >> 16);
    e | (e >> 32)
  }

  lemma Smear32Zero(v: bv32)
    requires v == 0
    ensures Smear32(v) == 0
  {
  }

  /** Smearing fills every bit below the highest one and leaves that one where it is. */
  lemma Smear32Mask(v: bv32, s: bv32)
    requires v != 0 && s == Smear32(v)
    ensures Mask32(s) && v <= s && v > s >> 1
  {
    Smear32Fills(v, s);
    Smear32AtLeast(v, s);
    Smear32NoMore(v, s);
  }

  lemma Smear32Fills(v: bv32, s: bv32)
    requires s == Smear32(v)
    ensures (s >> 1) | s == s
  {
  }

  lemma Smear32AtLeast(v: bv32, s: bv32)
    requires s == Smear32(v)
    ensures v <= s
  {
  }

  lemma Smear32NoMore(v: bv32, s: bv32)
    requires v != 0 && s == Smear32(v)
    ensures v > s >> 1
  {
  }

  lemma Smear64Zero(v: bv64)
    requires v == 0
    ensures Smear64(v) == 0
  {
  }

  /** Smearing fills every bit below the highest one and leaves that one where it is. */
  lemma Smear64Mask(v: bv64, s: bv64)
    requires v != 0 && s == Smear64(v)
    ensures Mask64(s) && v <= s && v > s >> 1
  {
    Smear64Fills(v, s);
    Smear64AtLeast(v, s);
    Smear64NoMore(v, s);
  }

  lemma Smear64Fills(v: bv64, s: bv64)
    requires s == Smear64(v)
    ensures (s >> 1) | s == s
  {
  }

  lemma Smear64AtLeast(v: bv64, s: bv64)
    requires s == Smear64(v)
    ensures v <= s
  {
  }

  lemma Smear64NoMore(v: bv64, s: bv64)
    requires v != 0 && s == Smear64(v)
    ensures v > s >> 1
  {
  }

  lemma Smear32Bits(v: bv32, s: bv32, w: bv64, m: bv64)
    requires v != 0 && s == Smear32(v) && w == v as bv64 && m == s as bv64
    ensures Mask32(s) && Bits64(m) == Bits64(w)
  {
    Smear32Mask(v, s);
    Widen(v, s, w, m);
    BitsOfMask(w, m);
  }

  lemma Smear64Bits(v: bv64, s: bv64)
    requires v != 0 && s == Smear64(v)
    ensures Mask64(s) && Bits64(s) == Bits64(v)
  {
    Smear64Mask(v, s);
    BitsOfMask(v, s);
  }

  lemma Widen(v: bv32, s: bv32, w: bv64, m: bv64)
    requires (s >> 1) | s == s && v <= s && v > s >> 1 && w == v as bv64 && m == s as bv64
    ensures (m >> 1) | m == m && w <= m && w > m >> 1
  {
  }

  lemma {:induction false} BitsOfMask(v: bv64, s: bv64)
    requires (s >> 1) | s == s && v <= s && v > s >> 1
    ensures s != 0 && Bits64(v) == Bits64(s)
    decreases s
  {
    if s != 1 {
      BitsOfMask(v >> 1, s >> 1);
    }
  }

  /** `log2` passes its argument through the 32-bit form: right exactly for arguments that fit 32 bits. */
  method Log2(v: bv64) returns (r: int)
    ensures v != 0 ==> (r == Bits64(v) <==> v <= 0xFFFF_FFFF)
  {
    var low := (v & 0xFFFF_FFFF) as bv32;
    r := Log2_32(low);
    LowWord(v, low, low as bv64);
    if v != 0 {
      BitsRange(v, Smear64(v));
      if low != 0 {
        BitsRange(low as bv64, Smear64(low as bv64));
      }
    }
  }

  lemma LowWord(v: bv64, low: bv32, wide: bv64)
    requires low == (v & 0xFFFF_FFFF) as bv32 && wide == low as bv64
    ensures wide <= 0xFFFF_FFFF && (v <= 0xFFFF_FFFF ==> wide == v) && (low != 0 <==> wide != 0)
  {
  }

  /** The position of the highest bit, coarsely. */
  lemma BitsRange(v: bv64, s: bv64)
    requires v != 0 && s == Smear64(v)
    ensures Bits64(v) < 32 <==> v <= 0xFFFF_FFFF
  {
    Smear64Mask(v, s);
    BitsOfMask(v, s);
    MaskRange(s);
    SmearRange(v, s);
  }

  lemma SmearRange(v: bv64, s: bv64)
    requires v <= s && v > s >> 1 && (s >> 1) | s == s
    ensures v <= 0xFFFF_FFFF <==> s <= 0xFFFF_FFFF
  {
  }

  lemma MaskRange(s: bv64)
    requires Mask64(s)
    ensures Bits64(s) < 32 <==> s <= 0xFFFF_FFFF
  {
    MaskAgrees64(s);
  }

  // ---------------------------------------------------------------- the tables, entry by entry

  predicate Entry32(s: bv32, r: int) { Look32(s) == r && Bits64(s as bv64) == r }
  predicate Entry64(s: bv64, r: int) { Look64(s) == r && Bits64(s) == r }

  lemma Entries32From0()
    ensures Entry32(0x1, 0) && Entry32(0x3, 1)
    ensures Entry32(0x7, 2) && Entry32(0xF, 3)
  {
  }

  lemma Entries32From4()
    ensures Entry32(0x1F, 4) && Entry32(0x3F, 5)
    ensures Entry32(0x7F, 6) && Entry32(0xFF, 7)
  {
    Entries32From0();
  }

  lemma Entries32From8()
    ensures Entry32(0x1FF, 8) && Entry32(0x3FF, 9)
    ensures Entry32(0x7FF, 10) && Entry32(0xFFF, 11)
  {
    Entries32From4();
  }

  lemma Entries32From12()
    ensures Entry32(0x1FFF, 12) && Entry32(0x3FFF, 13)
    ensures Entry32(0x7FFF, 14) && Entry32(0xFFFF, 15)
  {
    Entries32From8();
  }

  lemma Table32Upto16(s: bv32)
    requires Mask32(s) && s <= 0xFFFF
    ensures Look32(s) == Bits64(s as bv64) && 0 <= Look32(s) < 16
  {
    Entries32From0();
    Entries32From4();
    Entries32From8();
    Entries32From12();
    assert s in {0x1, 0x3, 0x7, 0xF}
        || s in {0x1F, 0x3F, 0x7F, 0xFF}
        || s in {0x1FF, 0x3FF, 0x7FF, 0xFFF}
        || s in {0x1FFF, 0x3FFF, 0x7FFF, 0xFFFF};
  }

  lemma Entries32From16()
    ensures Entry32(0x1_FFFF, 16) && Entry32(0x3_FFFF, 17)
    ensures Entry32(0x7_FFFF, 18) && Entry32(0xF_FFFF, 19)
  {
    Entries32From12();
  }

  lemma Entries32From20()
    ensures Entry32(0x1F_FFFF, 20) && Entry32(0x3F_FFFF, 21)
    ensures Entry32(0x7F_FFFF, 22) && Entry32(0xFF_FFFF, 23)
  {
    Entries32From16();
  }

  lemma Entries32From24()
    ensures Entry32(0x1FF_FFFF, 24) && Entry32(0x3FF_FFFF, 25)
    ensures Entry32(0x7FF_FFFF, 26) && Entry32(0xFFF_FFFF, 27)
  {
    Entries32From20();
  }

  lemma Entries32From28()
    ensures Entry32(0x1FFF_FFFF, 28) && Entry32(0x3FFF_FFFF, 29)
    ensures Entry32(0x7FFF_FFFF, 30) && Entry32(0xFFFF_FFFF, 31)
  {
    Entries32From24();
  }

  lemma Table32Upto32(s: bv32)
    requires Mask32(s) && s > 0xFFFF && s <= 0xFFFF_FFFF
    ensures Look32(s) == Bits64(s as bv64) && 16 <= Look32(s) < 32
  {
    Entries32From16();
    Entries32From20();
    Entries32From24();
    Entries32From28();
    assert s in {0x1_FFFF, 0x3_FFFF, 0x7_FFFF, 0xF_FFFF}
        || s in {0x1F_FFFF, 0x3F_FFFF, 0x7F_FFFF, 0xFF_FFFF}
        || s in {0x1FF_FFFF, 0x3FF_FFFF, 0x7FF_FFFF, 0xFFF_FFFF}
        || s in {0x1FFF_FFFF, 0x3FFF_FFFF, 0x7FFF_FFFF, 0xFFFF_FFFF};
  }

  lemma Entries64From0()
    ensures Entry64(0x1, 0) && Entry64(0x3, 1)
    ensures Entry64(0x7, 2) && Entry64(0xF, 3)
  {
  }

  lemma Entries64From4()
    ensures Entry64(0x1F, 4) && Entry64(0x3F, 5)
    ensures Entry64(0x7F, 6) && Entry64(0xFF, 7)
  {
    Entries64From0();
  }

  lemma Entries64From8()
    ensures Entry64(0x1FF, 8) && Entry64(0x3FF, 9)
    ensures Entry64(0x7FF, 10) && Entry64(0xFFF, 11)
  {
    Entries64From4();
  }

  lemma Entries64From12()
    ensures Entry64(0x1FFF, 12) && Entry64(0x3FFF, 13)
    ensures Entry64(0x7FFF, 14) && Entry64(0xFFFF, 15)
  {
    Entries64From8();
  }

  lemma Table64Upto16(s: bv64)
    requires Mask64(s) && s <= 0xFFFF
    ensures Look64(s) == Bits64(s) && 0 <= Look64(s) < 16
  {
    Entries64From0();
    Entries64From4();
    Entries64From8();
    Entries64From12();
    assert s in {0x1, 0x3, 0x7, 0xF}
        || s in {0x1F, 0x3F, 0x7F, 0xFF}
        || s in {0x1FF, 0x3FF, 0x7FF, 0xFFF}
        || s in {0x1FFF, 0x3FFF, 0x7FFF, 0xFFFF};
  }

  lemma Entries64From16()
    ensures Entry64(0x1_FFFF, 16) && Entry64(0x3_FFFF, 17)
    ensures Entry64(0x7_FFFF, 18) && Entry64(0xF_FFFF, 19)
  {
    Entries64From12();
  }

  lemma Entries64From20()
    ensures Entry64(0x1F_FFFF, 20) && Entry64(0x3F_FFFF, 21)
    ensures Entry64(0x7F_FFFF, 22) && Entry64(0xFF_FFFF, 23)
  {
    Entries64From16();
  }

  lemma Entries64From24()
    ensures Entry64(0x1FF_FFFF, 24) && Entry64(0x3FF_FFFF, 25)
    ensures Entry64(0x7FF_FFFF, 26) && Entry64(0xFFF_FFFF, 27)
  {
    Entries64From20();
  }

  lemma Entries64From28()
    ensures Entry64(0x1FFF_FFFF, 28) && Entry64(0x3FFF_FFFF, 29)
    ensures Entry64(0x7FFF_FFFF, 30) && Entry64(0xFFFF_FFFF, 31)
  {
    Entries64From24();
  }

  lemma Table64Upto32(s: bv64)
    requires Mask64(s) && s > 0xFFFF && s <= 0xFFFF_FFFF
    ensures Look64(s) == Bits64(s) && 16 <= Look64(s) < 32
  {
    Entries64From16();
    Entries64From20();
    Entries64From24();
    Entries64From28();
    assert s in {0x1_FFFF, 0x3_FFFF, 0x7_FFFF, 0xF_FFFF}
        || s in {0x1F_FFFF, 0x3F_FFFF, 0x7F_FFFF, 0xFF_FFFF}
        || s in {0x1FF_FFFF, 0x3FF_FFFF, 0x7FF_FFFF, 0xFFF_FFFF}
        || s in {0x1FFF_FFFF, 0x3FFF_FFFF, 0x7FFF_FFFF, 0xFFFF_FFFF};
  }

  lemma Entries64From32()
    ensures Entry64(0x1_FFFF_FFFF, 32) && Entry64(0x3_FFFF_FFFF, 33)
    ensures Entry64(0x7_FFFF_FFFF, 34) && Entry64(0xF_FFFF_FFFF, 35)
  {
    Entries64From28();
  }

  lemma Entries64From36()
    ensures Entry64(0x1F_FFFF_FFFF, 36) && Entry64(0x3F_FFFF_FFFF, 37)
    ensures Entry64(0x7F_FFFF_FFFF, 38) && Entry64(0xFF_FFFF_FFFF, 39)
  {
    Entries64From32();
  }

  lemma Entries64From40()
    ensures Entry64(0x1FF_FFFF_FFFF, 40) && Entry64(0x3FF_FFFF_FFFF, 41)
    ensures Entry64(0x7FF_FFFF_FFFF, 42) && Entry64(0xFFF_FFFF_FFFF, 43)
  {
    Entries64From36();
  }

  lemma Entries64From44()
    ensures Entry64(0x1FFF_FFFF_FFFF, 44) && Entry64(0x3FFF_FFFF_FFFF, 45)
    ensures Entry64(0x7FFF_FFFF_FFFF, 46) && Entry64(0xFFFF_FFFF_FFFF, 47)
  {
    Entries64From40();
  }

  lemma Table64Upto48(s: bv64)
    requires Mask64(s) && s > 0xFFFF_FFFF && s <= 0xFFFF_FFFF_FFFF
    ensures Look64(s) == Bits64(s) && 32 <= Look64(s) < 48
  {
    Entries64From32();
    Entries64From36();
    Entries64From40();
    Entries64From44();
    assert s in {0x1_FFFF_FFFF, 0x3_FFFF_FFFF, 0x7_FFFF_FFFF, 0xF_FFFF_FFFF}
        || s in {0x1F_FFFF_FFFF, 0x3F_FFFF_FFFF, 0x7F_FFFF_FFFF, 0xFF_FFFF_FFFF}
        || s in {0x1FF_FFFF_FFFF, 0x3FF_FFFF_FFFF, 0x7FF_FFFF_FFFF, 0xFFF_FFFF_FFFF}
        || s in {0x1FFF_FFFF_FFFF, 0x3FFF_FFFF_FFFF, 0x7FFF_FFFF_FFFF, 0xFFFF_FFFF_FFFF};
  }

  lemma Entries64From48()
    ensures Entry64(0x1_FFFF_FFFF_FFFF, 48) && Entry64(0x3_FFFF_FFFF_FFFF, 49)
    ensures Entry64(0x7_FFFF_FFFF_FFFF, 50) && Entry64(0xF_FFFF_FFFF_FFFF, 51)
  {
    Entries64From44();
  }

  lemma Entries64From52()
    ensures Entry64(0x1F_FFFF_FFFF_FFFF, 52) && Entry64(0x3F_FFFF_FFFF_FFFF, 53)
    ensures Entry64(0x7F_FFFF_FFFF_FFFF, 54) && Entry64(0xFF_FFFF_FFFF_FFFF, 55)
  {
    Entries64From48();
  }

  lemma Entries64From56()
    ensures Entry64(0x1FF_FFFF_FFFF_FFFF, 56) && Entry64(0x3FF_FFFF_FFFF_FFFF, 57)
    ensures Entry64(0x7FF_FFFF_FFFF_FFFF, 58) && Entry64(0xFFF_FFFF_FFFF_FFFF, 59)
  {
    Entries64From52();
  }

  lemma Entries64From60()
    ensures Entry64(0x1FFF_FFFF_FFFF_FFFF, 60) && Entry64(0x3FFF_FFFF_FFFF_FFFF, 61)
    ensures Entry64(0x7FFF_FFFF_FFFF_FFFF, 62) && Entry64(0xFFFF_FFFF_FFFF_FFFF, 63)
  {
    Entries64From56();
  }

  lemma Table64Upto64(s: bv64)
    requires Mask64(s) && s > 0xFFFF_FFFF_FFFF && s <= 0xFFFF_FFFF_FFFF_FFFF
    ensures Look64(s) == Bits64(s) && 48 <= Look64(s) < 64
  {
    Entries64From48();
    Entries64From52();
    Entries64From56();
    Entries64From60();
    assert s in {0x1_FFFF_FFFF_FFFF, 0x3_FFFF_FFFF_FFFF, 0x7_FFFF_FFFF_FFFF, 0xF_FFFF_FFFF_FFFF}
        || s in {0x1F_FFFF_FFFF_FFFF, 0x3F_FFFF_FFFF_FFFF, 0x7F_FFFF_FFFF_FFFF, 0xFF_FFFF_FFFF_FFFF}
        || s in {0x1FF_FFFF_FFFF_FFFF, 0x3FF_FFFF_FFFF_FFFF, 0x7FF_FFFF_FFFF_FFFF, 0xFFF_FFFF_FFFF_FFFF}
        || s in {0x1FFF_FFFF_FFFF_FFFF, 0x3FFF_FFFF_FFFF_FFFF, 0x7FFF_FFFF_FFFF_FFFF, 0xFFFF_FFFF_FFFF_FFFF};
  }

  lemma MaskAgrees32(s: bv32)
    requires Mask32(s)
    ensures Look32(s) == Bits64(s as bv64)
  {
    if s <= 0xFFFF {
      Table32Upto16(s);
    } else {
      Table32Upto32(s);
    }
  }

  lemma MaskAgrees64(s: bv64)
    requires Mask64(s)
    ensures Look64(s) == Bits64(s)
    ensures Look64(s) < 32 <==> s <= 0xFFFF_FFFF
  {
    if s <= 0xFFFF {
      Table64Upto16(s);
    } else if s <= 0xFFFF_FFFF {
      Table64Upto32(s);
    } else if s <= 0xFFFF_FFFF_FFFF {
      Table64Upto48(s);
    } else {
      Table64Upto64(s);
    }
  }

  // ---------------------------------------------------------------- powers of two

  predicate IsPowerOfTwo(n: bv64) { n != 0 && n & (n - 1) == 0 }

  predicate SingleBit(v: bv64)
    decreases v
  {
    v == 1 || (v != 0 && v & 1 == 0 && SingleBit(v >> 1))
  }

  lemma HalfPower(v: bv64)
    requires v != 0 && v != 1
    ensures v & (v - 1) == 0 <==> v & 1 == 0 && (v >> 1) & ((v >> 1) - 1) == 0
  {
  }

  lemma {:induction false} PowerIsSingleBit(v: bv64)
    ensures IsPowerOfTwo(v) <==> SingleBit(v)
    decreases v
  {
    if v != 0 && v != 1 {
      HalfPower(v);
      PowerIsSingleBit(v >> 1);
    }
  }

  lemma {:induction false} SingleBitValue(v: bv64)
    ensures SingleBit(v) <==> v != 0 && Value64(v) == Pow2(Bits64(v))
    decreases v
  {
    if v != 0 && v != 1 {
      SingleBitValue(v >> 1);
    }
  }

  /** True exactly for the words whose value is the power of two the loop finds. */
  lemma IsPowerOfTwoExactly(v: bv64)
    ensures IsPowerOfTwo(v) <==> v != 0 && Value64(v) == Pow2(Bits64(v))
  {
    PowerIsSingleBit(v);
    SingleBitValue(v);
  }
}
