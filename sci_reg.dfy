/**
  The SCI script VM's register value `reg_t` (engines/sci/engine/vm_types.h).

  A register stores a 16-bit segment field and a 16-bit offset field. Before
  SCI3 the offset is stored as it is; from SCI3 on the two top bits of the
  segment field hold bits 16-17 of the offset. The global version query
  `getSciVersion() >= SCI_VERSION_3` is the explicit parameter `sci3`.

  Fields are unsigned integers. The masks and shifts of the source act on
  disjoint bit fields and are written arithmetically:
  `x & 0xFFFF` is `x % 0x10000`, `(x & 0x30000) >> 2` is `x / 0x10000 % 4 * 0x4000`,
  `(s & 0xC000) << 2` is `s / 0x4000 * 0x10000`, `s & 0x3FFF` is `s % 0x4000`,
  and `|` of two values with disjoint bits is their sum.
*/
module SciRegister {

  type uint16 = x: int | 0 <= x < 0x10000
  type uint32 = x: int | 0 <= x < 0x1_0000_0000
  type SegmentId = uint16

  const UninitializedSegment: SegmentId := 0x1FFF
  const OffsetMask: uint32 := 0x7FFFF
  /** Special offset that marks an error or a finished operation. */
  const SignalOffset: uint32 := 0xFFFF

  /** The two stored fields of a reg_t, exactly as laid out in memory. */
  datatype RegT = RegT(segment: SegmentId, offset: uint16)

  // ---------------------------------------------------------------------
  // Encoding adapter
  // ---------------------------------------------------------------------

  /** getOffset: the logical offset. Before SCI3 it is the stored offset;
      from SCI3 on bits 16-17 come from bits 14-15 of the segment field. */
  function GetOffset(r: RegT, sci3: bool): (o: uint32)
    ensures o % 0x10000 == r.offset
    ensures !sci3 ==> o < 0x10000
    ensures sci3 ==> o < 0x40000 && o / 0x10000 == r.segment / 0x4000
  {
    if !sci3 then r.offset
    else r.segment / 0x4000 * 0x10000 + r.offset
  }

  /** getSegment: the logical segment. The body of getSegment is not part of
      the header; from SCI3 on it is taken to be the low 14 bits of the
      segment field, the bits that setOffset leaves alone. */
  function GetSegment(r: RegT, sci3: bool): (s: SegmentId)
    ensures !sci3 ==> s == r.segment
    ensures sci3 ==> s < 0x4000 && s == r.segment % 0x4000
  {
    if !sci3 then r.segment else r.segment % 0x4000
  }

  /** The value after setOffset(o). Before SCI3 the offset is truncated to
      16 bits; from SCI3 on bits 16-17 of `o` go to bits 14-15 of the segment
      field and its low 14 bits are kept. */
  function WithOffset(r: RegT, o: uint32, sci3: bool): (r': RegT)
    ensures r'.offset == o % 0x10000
    ensures !sci3 ==> r'.segment == r.segment
    ensures sci3 ==> r'.segment % 0x4000 == r.segment % 0x4000
    ensures sci3 ==> r'.segment / 0x4000 == o / 0x10000 % 4
  {
    if !sci3 then RegT(r.segment, o % 0x10000)
    else RegT(o / 0x10000 % 4 * 0x4000 + r.segment % 0x4000, o % 0x10000)
  }

  /** The value after setSegment(s). Its body is not part of the header; from
      SCI3 on it is taken to replace the low 14 bits of the segment field and
      keep the two offset bits above them. */
  function WithSegment(r: RegT, s: SegmentId, sci3: bool): (r': RegT)
    ensures r'.offset == r.offset
    ensures GetSegment(r', sci3) == if sci3 then s % 0x4000 else s
    ensures GetOffset(r', sci3) == GetOffset(r, sci3)
  {
    if !sci3 then RegT(s, r.offset)
    else RegT(r.segment / 0x4000 * 0x4000 + s % 0x4000, r.offset)
  }

  /** The value after init(segment, offset), taken to be setSegment followed
      by setOffset (the body of init is not part of the header). */
  function InitValue(r: RegT, s: SegmentId, o: uint32, sci3: bool): (r': RegT)
    ensures GetSegment(r', sci3) == if sci3 then s % 0x4000 else s
    ensures GetOffset(r', sci3) == if sci3 then o % 0x40000 else o % 0x10000
  {
    var r1 := WithSegment(r, s, sci3);
    Sci3OffsetRoundTrip(r1, o);
    WithOffset(r1, o, sci3)
  }

  /** make_reg: a register built by init on a fresh, uninitialised reg_t.
      By InitIgnoresPrevious the initial contents do not matter. */
  function MakeReg(s: SegmentId, o: uint16, sci3: bool): (r: RegT)
    ensures GetSegment(r, sci3) == if sci3 then s % 0x4000 else s
    ensures GetOffset(r, sci3) == o
  {
    InitValue(RegT(0, 0), s, o, sci3)
  }

  /** make_reg32: as make_reg, with a 32-bit offset argument. */
  function MakeReg32(s: SegmentId, o: uint32, sci3: bool): (r: RegT)
    ensures GetSegment(r, sci3) == if sci3 then s % 0x4000 else s
    ensures sci3 ==> GetOffset(r, sci3) == o % 0x40000
    ensures !sci3 ==> GetOffset(r, sci3) == o % 0x10000
  {
    InitValue(RegT(0, 0), s, o, sci3)
  }

  // ---------------------------------------------------------------------
  // Classification and narrowing
  // ---------------------------------------------------------------------

  /** isNull: `(getOffset() | getSegment()) == 0`; an OR of two unsigned
      values is zero exactly when both are. */
  predicate IsNull(r: RegT, sci3: bool)
    ensures IsNull(r, sci3) ==> IsNumber(r, sci3) && r.offset == 0
  {
    GetOffset(r, sci3) == 0 && GetSegment(r, sci3) == 0
  }

  /** isNumber: segment 0; such a register is make_reg32(0, its value). */
  predicate IsNumber(r: RegT, sci3: bool)
    ensures IsNumber(r, sci3) ==> r == MakeReg32(0, GetOffset(r, sci3), sci3)
  {
    GetSegment(r, sci3) == 0
  }

  /** isPointer: a real segment, neither 0 nor the uninitialised marker. */
  predicate IsPointer(r: RegT, sci3: bool)
    ensures IsPointer(r, sci3) ==> !IsNumber(r, sci3) && !IsNull(r, sci3)
  {
    GetSegment(r, sci3) != 0 && GetSegment(r, sci3) != UninitializedSegment
  }

  /** isInitialized: anything but the uninitialised marker segment. */
  predicate IsInitialized(r: RegT, sci3: bool)
    ensures IsInitialized(r, sci3) <==> IsNumber(r, sci3) || IsPointer(r, sci3)
  {
    GetSegment(r, sci3) != UninitializedSegment
  }

  /** toUint16: the logical offset cast to uint16, which is the stored
      offset field in both layouts. */
  function ToUint16(r: RegT, sci3: bool): (u: uint16)
    ensures u == r.offset
  {
    GetOffset(r, sci3) % 0x10000
  }

  /** toSint16: the logical offset cast to int16 (two's complement). */
  function ToSint16(r: RegT, sci3: bool): (i: int)
    ensures -0x8000 <= i < 0x8000
    ensures i % 0x10000 == ToUint16(r, sci3)
    ensures i < 0 <==> ToUint16(r, sci3) >= 0x8000
  {
    var low := GetOffset(r, sci3) % 0x10000;
    if low >= 0x8000 then low - 0x10000 else low
  }

  // ---------------------------------------------------------------------
  // Comparison
  // ---------------------------------------------------------------------

  /** operator== : same logical offset and same logical segment. */
  predicate Eq(a: RegT, b: RegT, sci3: bool)
    ensures a == b ==> Eq(a, b, sci3)
  {
    GetOffset(a, sci3) == GetOffset(b, sci3) && GetSegment(a, sci3) == GetSegment(b, sci3)
  }

  /** operator!= */
  predicate Neq(a: RegT, b: RegT, sci3: bool)
    ensures Neq(a, b, sci3) <==> !Eq(a, b, sci3)
  {
    GetOffset(a, sci3) != GetOffset(b, sci3) || GetSegment(a, sci3) != GetSegment(b, sci3)
  }

  /** The three-way `cmp(right, treatAsUnsigned)` is not part of the header;
      it is a parameter of the relational operators: `cmp(left, right, unsigned)`
      is positive, zero or negative. */
  type Cmp = (RegT, RegT, bool) -> int

  /** The comparison seen from the other operand: `Mirrored(cmp)(x, y, u)`
      is `-cmp(y, x, u)`. */
  function Mirrored(cmp: Cmp): Cmp {
    (x: RegT, y: RegT, u: bool) => -cmp(y, x, u)
  }

  /** operator> : a positive cmp, which is never a tie. */
  predicate Gt(a: RegT, b: RegT, cmp: Cmp)
    ensures Gt(a, b, cmp) ==> cmp(a, b, false) != 0
  {
    cmp(a, b, false) > 0
  }

  /** operator< : b > a under the mirrored comparison. */
  predicate Lt(a: RegT, b: RegT, cmp: Cmp)
    ensures Lt(a, b, cmp) <==> Gt(b, a, Mirrored(cmp))
  {
    cmp(a, b, false) < 0
  }

  /** operator>= : not less. */
  predicate Ge(a: RegT, b: RegT, cmp: Cmp)
    ensures Ge(a, b, cmp) <==> !Lt(a, b, cmp)
  {
    cmp(a, b, false) >= 0
  }

  /** operator<= : not greater. */
  predicate Le(a: RegT, b: RegT, cmp: Cmp)
    ensures Le(a, b, cmp) <==> !Gt(a, b, cmp)
  {
    cmp(a, b, false) <= 0
  }

  /** operator> with the unsigned comparison. */
  predicate GtU(a: RegT, b: RegT, cmp: Cmp)
    ensures GtU(a, b, cmp) ==> cmp(a, b, true) != 0
  {
    cmp(a, b, true) > 0
  }

  /** operator< with the unsigned comparison. */
  predicate LtU(a: RegT, b: RegT, cmp: Cmp)
    ensures LtU(a, b, cmp) <==> GtU(b, a, Mirrored(cmp))
  {
    cmp(a, b, true) < 0
  }

  /** operator>= with the unsigned comparison. */
  predicate GeU(a: RegT, b: RegT, cmp: Cmp)
    ensures GeU(a, b, cmp) <==> !LtU(a, b, cmp)
  {
    cmp(a, b, true) >= 0
  }

  /** operator<= with the unsigned comparison. */
  predicate LeU(a: RegT, b: RegT, cmp: Cmp)
    ensures LeU(a, b, cmp) <==> !GtU(a, b, cmp)
  {
    cmp(a, b, true) <= 0
  }

  // ---------------------------------------------------------------------
  // Properties of the encoding
  // ---------------------------------------------------------------------

  /** Before SCI3 a 16-bit offset round-trips through setOffset/getOffset;
      wider offsets are truncated to their low 16 bits. */
  lemma ClassicOffsetRoundTrip(r: RegT, o: uint32)
    ensures GetOffset(WithOffset(r, o, false), false) == o % 0x10000
    ensures o < 0x10000 ==> GetOffset(WithOffset(r, o, false), false) == o
  {
  }

  /** From SCI3 on every 18-bit offset round-trips; bit 18 and above are lost. */
  lemma Sci3OffsetRoundTrip(r: RegT, o: uint32)
    ensures GetOffset(WithOffset(r, o, true), true) == o % 0x40000
    ensures o < 0x40000 ==> GetOffset(WithOffset(r, o, true), true) == o
  {
    var r' := WithOffset(r, o, true);
    assert r'.segment / 0x4000 == o / 0x10000 % 4;
    assert o % 0x40000 == o / 0x10000 % 4 * 0x10000 + o % 0x10000;
  }

  /** kOffsetMask admits 19-bit offsets, but setOffset keeps only 18 bits:
      offset 0x40000 lies inside the mask and reads back as 0. */
  lemma Sci3NineteenthBitLost(r: RegT)
    ensures 0x40000 < OffsetMask
    ensures GetOffset(WithOffset(r, 0x40000, true), true) == 0
  {
  }

  /** setOffset never changes the logical segment, hence never changes what
      kind of value the register holds. */
  lemma WithOffsetKeepsSegment(r: RegT, o: uint32, sci3: bool)
    ensures GetSegment(WithOffset(r, o, sci3), sci3) == GetSegment(r, sci3)
    ensures IsNumber(WithOffset(r, o, sci3), sci3) == IsNumber(r, sci3)
    ensures IsPointer(WithOffset(r, o, sci3), sci3) == IsPointer(r, sci3)
    ensures IsInitialized(WithOffset(r, o, sci3), sci3) == IsInitialized(r, sci3)
  {
  }

  /** A register is determined by its logical offset and segment together
      with, from SCI3 on, nothing else: the stored bits are recovered. */
  lemma {:induction false} LogicalDeterminesStored(a: RegT, b: RegT, sci3: bool)
    requires GetOffset(a, sci3) == GetOffset(b, sci3)
    requires GetSegment(a, sci3) == GetSegment(b, sci3)
    ensures a == b
  {
    if sci3 {
      assert a.offset == GetOffset(a, sci3) % 0x10000 == b.offset;
      assert a.segment / 0x4000 == GetOffset(a, sci3) / 0x10000 == b.segment / 0x4000;
      assert a.segment == a.segment / 0x4000 * 0x4000 + a.segment % 0x4000;
      assert b.segment == b.segment / 0x4000 * 0x4000 + b.segment % 0x4000;
    }
  }

  /** setOffset(getOffset()) leaves every stored bit as it was. */
  lemma WithOwnOffsetIsIdentity(r: RegT, sci3: bool)
    ensures WithOffset(r, GetOffset(r, sci3), sci3) == r
  {
    var r' := WithOffset(r, GetOffset(r, sci3), sci3);
    WithOffsetKeepsSegment(r, GetOffset(r, sci3), sci3);
    if sci3 { Sci3OffsetRoundTrip(r, GetOffset(r, sci3)); }
    LogicalDeterminesStored(r', r, sci3);
  }

  /** A second setOffset overrides the first one completely. */
  lemma WithOffsetOverrides(r: RegT, a: uint32, b: uint32, sci3: bool)
    ensures WithOffset(WithOffset(r, a, sci3), b, sci3) == WithOffset(r, b, sci3)
  {
  }

  /** What init leaves behind does not depend on the register's previous
      contents, so make_reg on an uninitialised reg_t is well defined. */
  lemma InitIgnoresPrevious(r1: RegT, r2: RegT, s: SegmentId, o: uint32, sci3: bool)
    ensures InitValue(r1, s, o, sci3) == InitValue(r2, s, o, sci3)
  {
    LogicalDeterminesStored(InitValue(r1, s, o, sci3), InitValue(r2, s, o, sci3), sci3);
  }

  // ---------------------------------------------------------------------
  // Properties of the classification predicates
  // ---------------------------------------------------------------------

  /** isNull holds exactly for the all-zero stored register, in both layouts. */
  lemma IsNullExactlyZero(r: RegT, sci3: bool)
    ensures IsNull(r, sci3) <==> r == RegT(0, 0)
  {
    if IsNull(r, sci3) {
      LogicalDeterminesStored(r, RegT(0, 0), sci3);
    }
  }

  /** A number register carrying SIGNAL_OFFSET is not the null register. */
  lemma SignalIsNotNull(sci3: bool)
    ensures IsNumber(MakeReg(0, SignalOffset, sci3), sci3)
    ensures !IsNull(MakeReg(0, SignalOffset, sci3), sci3)
  {
  }

  // ---------------------------------------------------------------------
  // Properties of the comparison operators
  // ---------------------------------------------------------------------

  /** != is exactly the negation of ==, and == compares the stored fields:
      two registers are equal exactly when all their stored bits agree. */
  lemma EqualityIsStoredEquality(a: RegT, b: RegT, sci3: bool)
    ensures Neq(a, b, sci3) <==> !Eq(a, b, sci3)
    ensures Eq(a, b, sci3) <==> a == b
  {
    if Eq(a, b, sci3) {
      LogicalDeterminesStored(a, b, sci3);
    }
  }

  /** The relational operators all go through one cmp, so each pair of
      opposite operators are negations of each other, and the same holds for
      the unsigned family. */
  lemma RelationalDuality(a: RegT, b: RegT, cmp: Cmp)
    ensures Le(a, b, cmp) <==> !Gt(a, b, cmp)
    ensures Ge(a, b, cmp) <==> !Lt(a, b, cmp)
    ensures LeU(a, b, cmp) <==> !GtU(a, b, cmp)
    ensures GeU(a, b, cmp) <==> !LtU(a, b, cmp)
    ensures Ge(a, b, cmp) && Le(a, b, cmp) <==> cmp(a, b, false) == 0
  {
  }

  // ---------------------------------------------------------------------
  // incOffset
  // ---------------------------------------------------------------------

  /** The value after incOffset(delta): setOffset(getOffset() + delta), the
      sum of a uint32 and an int32 taken modulo 2^32. */
  function IncOffsetValue(r: RegT, delta: int, sci3: bool): (r': RegT)
    requires -0x8000_0000 <= delta < 0x8000_0000
    ensures GetSegment(r', sci3) == GetSegment(r, sci3)
    ensures sci3 ==> GetOffset(r', sci3) == (GetOffset(r, sci3) + delta) % 0x40000
    ensures !sci3 ==> GetOffset(r', sci3) == (GetOffset(r, sci3) + delta) % 0x10000
  {
    var o := (GetOffset(r, sci3) + delta) % 0x1_0000_0000;
    WrapThenNarrow(GetOffset(r, sci3) + delta);
    WithOffsetKeepsSegment(r, o, sci3);
    Sci3OffsetRoundTrip(r, o);
    WithOffset(r, o, sci3)
  }

  /** incOffset(-d) undoes incOffset(d): the offset arithmetic is modular in
      the offset's stored width, in both layouts. */
  lemma IncOffsetInverse(r: RegT, delta: int, sci3: bool)
    requires -0x8000_0000 < delta < 0x8000_0000
    ensures IncOffsetValue(IncOffsetValue(r, delta, sci3), -delta, sci3) == r
  {
    var r1 := IncOffsetValue(r, delta, sci3);
    var r2 := IncOffsetValue(r1, -delta, sci3);
    var m := if sci3 then 0x40000 else 0x10000;
    var o := GetOffset(r, sci3);
    assert o < m;
    ModSumCancels(o, delta, m);
    assert GetOffset(r2, sci3) == o;
    LogicalDeterminesStored(r2, r, sci3);
  }

  /** Wrapping to 32 bits, then keeping 18 or 16 bits, is keeping 18 or 16 bits. */
  lemma WrapThenNarrow(x: int)
    ensures x % 0x1_0000_0000 % 0x40000 == x % 0x40000
    ensures x % 0x1_0000_0000 % 0x10000 == x % 0x10000
  {
    var q := x / 0x1_0000_0000;
    assert x % 0x1_0000_0000 == x - (q * 0x4000) * 0x40000;
    assert x % 0x1_0000_0000 == x - (q * 0x10000) * 0x10000;
  }

  /** ((o + d) mod m - d) mod m == o for 0 <= o < m, at the two offset widths. */
  lemma ModSumCancels(o: int, d: int, m: int)
    requires m == 0x40000 || m == 0x10000
    requires 0 <= o < m
    ensures ((o + d) % m - d) % m == o
  {
    if m == 0x40000 {
      var q := (o + d) / 0x40000;
      assert (o + d) % 0x40000 - d == o + (-q) * 0x40000;
      assert (o + (-q) * 0x40000) % 0x40000 == o;
    } else {
      var q := (o + d) / 0x10000;
      assert (o + d) % 0x10000 - d == o + (-q) * 0x10000;
      assert (o + (-q) * 0x10000) % 0x10000 == o;
    }
  }

  // ---------------------------------------------------------------------
  // The mutating members
  // ---------------------------------------------------------------------

  /** A reg_t lvalue (a variable, stack slot or property) whose fields the
      mutating members update in place. */
  class Register {
    var segment: SegmentId
    var offset: uint16

    function Value(): RegT
      reads this
    {
      RegT(segment, offset)
    }

    constructor (r: RegT)
      ensures Value() == r
    {
      segment, offset := r.segment, r.offset;
    }

    /** setOffset */
    method SetOffset(o: uint32, sci3: bool)
      modifies this
      ensures Value() == WithOffset(old(Value()), o, sci3)
    {
      if !sci3 {
        offset := o % 0x10000;
      } else {
        offset := o % 0x10000;
        segment := o / 0x10000 % 4 * 0x4000 + segment % 0x4000;
      }
    }

    /** setSegment (body inferred, see WithSegment). */
    method SetSegment(s: SegmentId, sci3: bool)
      modifies this
      ensures Value() == WithSegment(old(Value()), s, sci3)
    {
      if !sci3 {
        segment := s;
      } else {
        segment := segment / 0x4000 * 0x4000 + s % 0x4000;
      }
    }

    /** init (body inferred): setSegment, then setOffset. */
    method Init(s: SegmentId, o: uint32, sci3: bool)
      modifies this
      ensures Value() == InitValue(old(Value()), s, o, sci3)
    {
      SetSegment(s, sci3);
      SetOffset(o, sci3);
    }

    /** incOffset(delta) with an int32 argument. */
    method IncOffset(delta: int, sci3: bool)
      requires -0x8000_0000 <= delta < 0x8000_0000
      modifies this
      ensures Value() == IncOffsetValue(old(Value()), delta, sci3)
    {
      var cur := GetOffset(Value(), sci3);
      SetOffset((cur + delta) % 0x1_0000_0000, sci3);
    }

    /** The compound assignments (+=, -=, &=, |=, ^=): `*this = *this op right`
        for a binary operator whose body is not part of the header. */
    method CompoundAssign(op: (RegT, RegT) -> RegT, right: RegT)
      modifies this
      ensures Value() == op(old(Value()), right)
    {
      var r := op(Value(), right);
      segment, offset := r.segment, r.offset;
    }

    /** The compound assignments with an int16 right operand. */
    method CompoundAssignInt16(op: (RegT, int) -> RegT, right: int)
      requires -0x8000 <= right < 0x8000
      modifies this
      ensures Value() == op(old(Value()), right)
    {
      var r := op(Value(), right);
      segment, offset := r.segment, r.offset;
    }
  }
}
