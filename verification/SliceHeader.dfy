/**
 NAL unit types and the first_mb_in_slice test of services/ingest/main.go, with the run-time panics of the
 source made explicit and its 64-bit arithmetic written out modulo 2^64.
 */
module SliceHeader {
  import opened Bytes
  import opened AnnexB
  import opened Powers

  /** Panic stands for an index out of range at run time. */
  datatype Outcome<T> = Panic | Done(value: T)

  const WORD := 0x1_0000_0000_0000_0000

  function Bit(nal: Bytes, k: nat): (b: nat)
    requires k < 8 * |nal|
    ensures b < 2
  {
    nal[k / 8] / Pow2(7 - k % 8) % 2
  }

  function NalType(nal: Bytes): Outcome<nat> {
    var offset := NalStartCodeLen(nal);
    if offset < |nal| then Done(nal[offset] % 32) else Panic
  }

  /** Zero bits from off up to the next one bit, or to the end of the unit. */
  function LeadingZeros(nal: Bytes, off: nat): (z: nat)
    ensures off + z <= 8 * |nal| || z == 0
    ensures off + z < 8 * |nal| ==> Bit(nal, off + z) == 1
    ensures forall k :: off <= k < off + z ==> Bit(nal, k) == 0
    decreases 8 * |nal| - off
  {
    if off >= 8 * |nal| || Bit(nal, off) == 1 then 0 else 1 + LeadingZeros(nal, off + 1)
  }

  /** The bits of a byte, most significant first, are its binary digits. */
  lemma {:induction false} BitsOfByte(nal: Bytes, i: nat, n: nat)
    requires i < |nal| && n <= 8
    ensures ReadBits(nal, 8 * i, n) == nal[i] / Pow2(8 - n)
  {
    hide Pow2;
    if n == 0 {
      Pow2Of8();
    } else {
      BitsOfByte(nal, i, n - 1);
      Double(8 - n);
      HalveTwice(nal[i], Pow2(8 - n));
      var k := 8 * i + (n - 1);
      assert k / 8 == i && k % 8 == n - 1;
    }
  }

  lemma HalveTwice(b: nat, m: nat)
    requires m > 0
    ensures b / m == 2 * (b / (2 * m)) + b / m % 2
  {
    var q, r := b / (2 * m), b % (2 * m);
    assert b == q * (2 * m) + r;
    if r < m {
      ModUnique(b, m, 2 * q, r);
    } else {
      ModUnique(b, m, 2 * q + 1, r - m);
    }
  }

  lemma Pow2Of8()
    ensures Pow2(8) == 256
  {
  }

  /** The n bits from off on, as an unsigned number. */
  function ReadBits(nal: Bytes, off: nat, n: nat): (v: nat)
    requires off + n <= 8 * |nal|
    ensures v < Pow2(n)
  {
    if n == 0 then 0 else 2 * ReadBits(nal, off, n - 1) + Bit(nal, off + n - 1)
  }

  /** ue(v) of clause 9.1 of ITU-T H.264, for a code that is completely present. */
  function UeV(nal: Bytes, off: nat): nat
    requires Present(nal, off)
  {
    var z := LeadingZeros(nal, off);
    Pow2(z) - 1 + ReadBits(nal, off + z + 1, z)
  }

  predicate Present(nal: Bytes, off: nat) {
    off + 2 * LeadingZeros(nal, off) + 1 <= 8 * |nal|
  }

  /** The suffix loop checks bit b but reads bit b + 1, and runs off the end exactly here. */
  predicate SuffixPanics(nal: Bytes, off: nat) {
    var z := LeadingZeros(nal, off);
    z > 0 && off + z + 2 <= 8 * |nal| <= off + 2 * z + 1
  }

  /** The z bits the source uses as suffix: those one place after the real ones, or none at the end. */
  function ShiftedSuffix(nal: Bytes, off: nat): nat {
    var z := LeadingZeros(nal, off);
    if off + 2 * z + 2 <= 8 * |nal| then ReadBits(nal, off + z + 2, z) else 0
  }

  function Shift1(z: nat): nat {
    if z < 64 then Pow2(z) else 0
  }

  /** The decoded value as a 64-bit word. */
  function Word(nal: Bytes, off: nat): nat {
    (Shift1(LeadingZeros(nal, off)) - 1 + ShiftedSuffix(nal, off)) % WORD
  }

  /** The first loop of readUE: skip zero bits and the one bit that ends them, if there is one. */
  method SkipZeros(nal: Bytes, off: nat) returns (zeros: nat, bitOffset: nat)
    ensures zeros == LeadingZeros(nal, off)
    ensures bitOffset == off + zeros + (if off + zeros < 8 * |nal| then 1 else 0)
  {
    hide Bit;
    bitOffset, zeros := off, 0;
    while bitOffset / 8 < |nal|
      invariant bitOffset == off + zeros
      invariant LeadingZeros(nal, off) == zeros + LeadingZeros(nal, bitOffset)
      decreases 8 * |nal| - bitOffset
    {
      if Bit(nal, bitOffset) == 0 {
        zeros := zeros + 1;
        bitOffset := bitOffset + 1;
      } else {
        bitOffset := bitOffset + 1;
        return;
      }
    }
  }

  /** The second loop of readUE: zeros more bits, each read one place after the one that was checked. */
  method ReadSuffix(nal: Bytes, first: nat, zeros: nat) returns (r: Outcome<nat>)
    ensures zeros > 0 && first + 1 <= 8 * |nal| <= first + zeros <==> r.Panic?
    ensures zeros == 0 || first >= 8 * |nal| ==> r == Done(0)
    ensures first + zeros + 1 <= 8 * |nal| ==> r == Done(ReadBits(nal, first + 1, zeros) % WORD)
  {
    hide Bit;
    var bitOffset, value, i := first, 0, 0;
    while i < zeros
      invariant 0 <= i <= zeros && bitOffset == first + i
      invariant first + i + 1 <= 8 * |nal| || i == 0
      invariant value == if i == 0 then 0 else ReadBits(nal, first + 1, i) % WORD
    {
      if bitOffset / 8 >= |nal| { break; }
      bitOffset := bitOffset + 1;
      if bitOffset / 8 >= |nal| { return Panic; }
      Doubling(if i == 0 then 0 else ReadBits(nal, first + 1, i), Bit(nal, bitOffset));
      value := (value * 2 + Bit(nal, bitOffset)) % WORD;
      i := i + 1;
    }
    return Done(value);
  }

  method ReadUE(nal: Bytes, off: nat) returns (r: Outcome<nat>)
    ensures r == if SuffixPanics(nal, off) then Panic else Done(Word(nal, off))
  {
    hide Bit, Pow2, ReadBits;
    var zeros, bitOffset := SkipZeros(nal, off);
    var suffix := ReadSuffix(nal, bitOffset, zeros);
    if suffix.Panic? { return Panic; }
    WordSum(Shift1(zeros) - 1, ShiftedSuffix(nal, off));
    return Done((Shift1(zeros) - 1 + suffix.value) % WORD);
  }

  lemma Doubling(v: nat, b: nat)
    ensures (v % WORD * 2 + b) % WORD == (2 * v + b) % WORD
  {
  }

  lemma WordSum(a: int, v: nat)
    ensures (a + v % WORD) % WORD == (a + v) % WORD
  {
  }

  // ----- The zero test is right although the value is not -----

  lemma Pow2Of63(n: nat)
    requires n == 63
    ensures Pow2(n) == 0x8000_0000_0000_0000
  {
    var a: nat := n / 9;
    Pow2Of7(a);
    hide Pow2;
    Pow2Add(a, a);
    Pow2Add(2 * a, 2 * a);
    Pow2Add(4 * a, 4 * a);
    Pow2Add(8 * a, a);
  }

  lemma Pow2Of7(n: nat)
    requires n == 7
    ensures Pow2(n) == 128
  {
    assert Pow2(7) == 128;
  }

  /** When exactly the decoded word is zero; beyond 63 leading zeros the shift has wrapped to zero. */
  lemma WordIsZero(nal: Bytes, off: nat)
    ensures var z := LeadingZeros(nal, off);
            Word(nal, off) == 0 <==> z == 0 || (z >= 64 && ShiftedSuffix(nal, off) % WORD == 1)
  {
    hide Bit, LeadingZeros;
    var z, v := LeadingZeros(nal, off), ShiftedSuffix(nal, off);
    if z == 0 {
      assert v == 0;
    } else if z < 64 {
      Pow2Monotone(z, 63);
      Pow2Monotone(1, z);
      Pow2Of63(63);
      assert v < Pow2(z) && Pow2(1) == 2;
    } else {
      WordSum(-1, v);
    }
  }

  /**
   For a complete code of fewer than 64 leading zeros (legal ones have at most 32) the source either panics, exactly
   when no bit follows the code, or answers the zero test correctly.
   */
  lemma ZeroTestExact(nal: Bytes, off: nat)
    requires Present(nal, off) && LeadingZeros(nal, off) < 64
    ensures var z := LeadingZeros(nal, off);
            SuffixPanics(nal, off) <==> z > 0 && off + 2 * z + 1 == 8 * |nal|
    ensures !SuffixPanics(nal, off) ==> (Word(nal, off) == 0 <==> UeV(nal, off) == 0)
  {
    WordIsZero(nal, off);
    var z := LeadingZeros(nal, off);
    if z > 0 {
      Pow2Monotone(1, z);
      assert Pow2(1) == 2;
    }
  }

  /**
   A code that is cut off by the end of the unit: a panic if bits are left behind the leading zeros and the one bit,
   otherwise all ones, so that the zero test holds only if there are no bits at all.
   */
  lemma IncompleteExact(nal: Bytes, off: nat)
    requires !Present(nal, off) && LeadingZeros(nal, off) < 64
    ensures var z := LeadingZeros(nal, off);
            && (SuffixPanics(nal, off) <==> off + z + 1 < 8 * |nal|)
            && (!SuffixPanics(nal, off) ==> Word(nal, off) == Pow2(z) - 1)
            && (Word(nal, off) == 0 && !SuffixPanics(nal, off) <==> off >= 8 * |nal|)
  {
    hide Bit;
    var z := LeadingZeros(nal, off);
    Pow2Monotone(z, 63);
    Pow2Of63(63);
    hide ReadBits;
    if z > 0 {
      Double(z - 1);
    }
    hide Pow2;
    assert ShiftedSuffix(nal, off) == 0;
  }

  // ----- When the value is right -----

  /** The n bits from x on read the same one place later exactly when all n + 1 bits are equal. */
  lemma {:induction false} ShiftedBits(nal: Bytes, x: nat, n: nat)
    requires x + n + 1 <= 8 * |nal|
    ensures ReadBits(nal, x, n) == ReadBits(nal, x + 1, n) <==> AllBits(nal, x, n + 1, Bit(nal, x))
  {
    hide Bit;
    if n > 0 {
      ShiftedBits(nal, x, n - 1);
      assert AllBits(nal, x, n + 1, Bit(nal, x)) ==> Bit(nal, x + n) == Bit(nal, x) == Bit(nal, x + n - 1);
    }
  }

  ghost predicate AllBits(nal: Bytes, x: nat, n: nat, b: nat)
    requires x + n <= 8 * |nal|
  {
    forall k :: x <= k < x + n ==> Bit(nal, k) == b
  }

  lemma {:induction false} ZeroBits(nal: Bytes, x: nat, n: nat)
    requires x + n <= 8 * |nal|
    ensures ReadBits(nal, x, n) == 0 <==> AllBits(nal, x, n, 0)
  {
    hide Bit;
    if n > 0 {
      ZeroBits(nal, x, n - 1);
    }
  }

  /** The word as the source's signed integer. */
  function Signed(word: nat): int {
    if word < WORD / 2 then word else word - WORD
  }

  /** Up to 62 leading zeros the value fits the integer; from there on it may be negative. */
  lemma SignedValue(nal: Bytes, off: nat)
    requires Present(nal, off) && off + 2 * LeadingZeros(nal, off) + 2 <= 8 * |nal|
    ensures var z, v, r := LeadingZeros(nal, off), ShiftedSuffix(nal, off), Signed(Word(nal, off));
            && r < WORD / 2
            && (z < 63 ==> r == Pow2(z) - 1 + v)
            && (z == 63 ==> Pow2(z) == WORD / 2 && (v == 0 ==> r == Pow2(z) - 1) && (v > 0 ==> r < 0))
            && (z > 63 ==> WORD / 2 < Pow2(z))
  {
    SuffixBound(nal, off);
    hide Bit, LeadingZeros, ReadBits, Pow2, ShiftedSuffix, Signed;
    PowerBounds(LeadingZeros(nal, off));
    SignedSum(Shift1(LeadingZeros(nal, off)) - 1 + ShiftedSuffix(nal, off));
  }

  lemma SignedSum(x: int)
    ensures Signed(x % WORD) < WORD / 2
    ensures 0 <= x < WORD ==> Signed(x % WORD) == if x < WORD / 2 then x else x - WORD
  {
  }

  lemma SuffixBound(nal: Bytes, off: nat)
    requires Present(nal, off) && off + 2 * LeadingZeros(nal, off) + 2 <= 8 * |nal|
    ensures ShiftedSuffix(nal, off) < Pow2(LeadingZeros(nal, off))
  {
    hide Bit, LeadingZeros;
  }

  lemma PowerBounds(z: nat)
    ensures z < 63 ==> Pow2(z) <= WORD / 4
    ensures z == 63 ==> Pow2(z) == WORD / 2
    ensures z > 63 ==> Pow2(z) >= WORD
  {
    Pow2Of63(63);
    Double(63);
    Double(62);
    hide Pow2;
    if z < 63 {
      Pow2Monotone(z, 62);
    } else if z > 63 {
      Pow2Monotone(64, z);
    }
  }

  lemma Double(n: nat)
    ensures Pow2(n + 1) == 2 * Pow2(n)
  {
  }

  /**
   readUE returns ue(v) of a complete code if and only if the code is the single bit 1, or a bit follows it and the
   suffix and that bit are all equal; at 63 leading zeros they have to be zero, and beyond that it never does.
   */
  lemma ValueExact(nal: Bytes, off: nat)
    requires Present(nal, off)
    ensures var z := LeadingZeros(nal, off);
            !SuffixPanics(nal, off) && Signed(Word(nal, off)) == UeV(nal, off) <==>
            z == 0 || (&& z <= 63 && off + 2 * z + 2 <= 8 * |nal|
                       && AllBits(nal, off + z + 1, z + 1, if z < 63 then Bit(nal, off + z + 1) else 0))
  {
    hide Bit, LeadingZeros, ReadBits, Word, AllBits, Signed;
    var z := LeadingZeros(nal, off);
    if z > 0 && !SuffixPanics(nal, off) {
      var x := off + z + 1;
      SignedValue(nal, off);
      if z < 63 {
        ShiftedBits(nal, x, z);
      } else if z == 63 {
        ZeroBits(nal, x, z);
        ZeroBits(nal, x + 1, z);
        JoinZeros(nal, x, z);
      }
    } else if z == 0 {
      SingleBit(nal, off);
    }
  }

  lemma SingleBit(nal: Bytes, off: nat)
    requires Present(nal, off) && LeadingZeros(nal, off) == 0
    ensures !SuffixPanics(nal, off) && Signed(Word(nal, off)) == 0 == UeV(nal, off)
  {
    hide Bit, LeadingZeros;
    WordIsZero(nal, off);
    NoBits(nal, off + 1);
  }

  lemma NoBits(nal: Bytes, x: nat)
    requires x <= 8 * |nal|
    ensures ReadBits(nal, x, 0) == 0 && Pow2(0) == 1
  {
  }

  lemma JoinZeros(nal: Bytes, x: nat, n: nat)
    requires 0 < n && x + n + 1 <= 8 * |nal|
    ensures AllBits(nal, x, n + 1, 0) <==> AllBits(nal, x, n, 0) && AllBits(nal, x + 1, n, 0)
  {
    hide Bit;
  }

  lemma BitsOf50()
    ensures var nal: Bytes := [0x50]; Bit(nal, 0) == 0 && Bit(nal, 1) == 1 && Bit(nal, 2) == 0 && Bit(nal, 3) == 1
  {
    assert Pow2(4) == 16;
    Pow2Add(4, 1);
    Pow2Add(4, 2);
    Pow2Add(4, 3);
  }

  /** Wherever the code 010, ue(v) = 1, is followed by a one bit, it is read as 2. */
  lemma OneReadAsTwo(nal: Bytes, off: nat)
    requires off + 4 <= 8 * |nal| && Bit(nal, off) == 0 && Bit(nal, off + 1) == 1
    requires Bit(nal, off + 2) == 0 && Bit(nal, off + 3) == 1
    ensures Present(nal, off) && UeV(nal, off) == 1 && !SuffixPanics(nal, off) && Signed(Word(nal, off)) == 2
  {
    hide Bit, ReadBits;
    assert LeadingZeros(nal, off + 1) == 0 && LeadingZeros(nal, off) == 1 && Pow2(1) == 2;
    OneBit(nal, off + 2);
    OneBit(nal, off + 3);
  }

  lemma ValueWrong()
    ensures Present([0x50], 0) && UeV([0x50], 0) == 1 && !SuffixPanics([0x50], 0) && Signed(Word([0x50], 0)) == 2
  {
    BitsOf50();
    hide *;
    OneReadAsTwo([0x50], 0);
  }

  lemma OneBit(nal: Bytes, x: nat)
    requires x < 8 * |nal|
    ensures ReadBits(nal, x, 1) == Bit(nal, x)
  {
    hide Bit;
    NoBits(nal, x);
  }

  /** isFirstSliceOfFrame */
  function IsFirstSlice(nal: Bytes): Outcome<bool> {
    var offset := NalStartCodeLen(nal);
    if offset == 0 then Done(false)
    else if offset >= |nal| then Panic
    else if nal[offset] % 32 != 1 && nal[offset] % 32 != 5 then Done(false)
    else if SuffixPanics(nal, 8 * (offset + 1)) then Panic
    else Done(Word(nal, 8 * (offset + 1)) == 0)
  }

  method IsFirstSliceOfFrame(nal: Bytes) returns (r: Outcome<bool>)
    ensures r == IsFirstSlice(nal)
  {
    var offset := NalStartCodeLen(nal);
    if offset == 0 { return Done(false); }
    if offset >= |nal| { return Panic; }
    var t := nal[offset] % 32;
    if t != 1 && t != 5 { return Done(false); }
    var fms := ReadUE(nal, 8 * (offset + 1));
    if fms.Panic? { return Panic; }
    return Done(fms.value == 0);
  }

  /** Units without a start code, and those that are not slices, never begin a frame this way. */
  lemma OtherUnits(nal: Bytes)
    requires NalStartCodeLen(nal) == 0 || NalType(nal) !in {Done(1), Done(5)}
    ensures var n := NalStartCodeLen(nal); IsFirstSlice(nal) == if 0 < n && |nal| <= n then Panic else Done(false)
  {
  }

  /** On a slice whose first_mb_in_slice is a complete code followed by a bit, the answer is the standard's. */
  lemma FirstSliceExact(nal: Bytes)
    requires NalStartCodeLen(nal) > 0 && NalType(nal) in {Done(1), Done(5)}
    requires var off := 8 * (NalStartCodeLen(nal) + 1);
             Present(nal, off) && LeadingZeros(nal, off) < 64
             && off + 2 * LeadingZeros(nal, off) + 2 <= 8 * |nal|
    ensures IsFirstSlice(nal) == Done(UeV(nal, 8 * (NalStartCodeLen(nal) + 1)) == 0)
  {
    ZeroTestExact(nal, 8 * (NalStartCodeLen(nal) + 1));
  }
}
