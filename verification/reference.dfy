/**
 * The reference codec: `new_reference` packs a 4-bit type tag, a 32-bit
 * offset and a 28-bit size into one u64, laid out (most significant bit
 * first) as [type:4][offset:32][size:28]. The code has no decoder; `Decode`
 * is the receiver's side of that layout and exists to state the round trip.
 */
module Reference {
  import opened Bits
  import opened Panics

  const SIZE_LIMIT: nat := 0x1000_0000      // 1 << 28
  const SIZE_MASK: nat := 0xFFF_FFFF        // the 28 low bits
  const OFFSET_UNIT: nat := 0x1000_0000     // weight of the offset field, 1 << 28
  const TYPE_UNIT: nat := 0x1000_0000_0000_0000  // weight of the type field, 1 << 60

  /** The three fields of a reference, as `new_reference` receives them. */
  datatype Fields = Fields(typ: u8, offset: u32, size: u32)

  /** The packing expression of `new_reference`, over u64 bit operations. */
  function Pack(typ: u8, offset: u32, size: u32): (w: nat)
  {
    Or(Or(ShiftLeft64(typ, 60), ShiftLeft64(offset, 28)), And(size, SIZE_MASK))
  }

  /** `new_reference(typ, offset, size)`. */
  function NewReference(typ: u8, offset: u32, size: u32): (r: Result<u64>)
    ensures r.Panicked? <==> size >= SIZE_LIMIT
    ensures r.Panicked? ==> r.panic == SizeExceeds28Bits(size)
    ensures r.Ok? ==> Decode(r.value) == Fields(typ % 16, offset, size)
  {
    if size >= SIZE_LIMIT then
      Panicked(SizeExceeds28Bits(size))
    else
      PackDecodes(typ, offset, size);
      Ok(Pack(typ, offset, size))
  }

  /** Splits a word into its three fields: top 4 bits, next 32 bits, low 28 bits. */
  function Decode(word: u64): (f: Fields)
    ensures f.typ < 16 && f.size < SIZE_LIMIT
  {
    Fields(word / TYPE_UNIT, (word / OFFSET_UNIT) % U32_LIMIT, word % OFFSET_UNIT)
  }

  /** Decoding loses nothing: the fields, weighted by their positions, add up to the word. */
  lemma DecodeRecomposes(word: u64)
    ensures var f := Decode(word); word == f.typ * TYPE_UNIT + f.offset * OFFSET_UNIT + f.size
  {
    var high := word / OFFSET_UNIT;
    DivModUnique(high, U32_LIMIT, word / TYPE_UNIT, high % U32_LIMIT);
  }

  /**
   * The u64-to-i64 conversion succeeds exactly when the top bit of the 4-bit
   * tag (bit 63 of the word) is clear.
   */
  lemma ToI64IffTagBelow8(word: u64)
    ensures ToI64(word).Ok? <==> Decode(word).typ < 8
  {
    var f := Decode(word);
    DecodeRecomposes(word);
    var low := f.offset * OFFSET_UNIT + f.size;
    assert f.offset * OFFSET_UNIT <= (U32_LIMIT - 1) * OFFSET_UNIT;
    assert low < TYPE_UNIT;
    if f.typ < 8 {
      assert f.typ * TYPE_UNIT <= 7 * TYPE_UNIT;
    } else {
      assert f.typ * TYPE_UNIT >= 8 * TYPE_UNIT;
    }
  }

  /** Shifting a u8 left by 60 within a u64 keeps only its low 4 bits. */
  lemma TagShift(typ: u8)
    ensures ShiftLeft64(typ, 60) == (typ % 16) * TYPE_UNIT
  {
    ShiftLeft64Value(typ, 60);
    Pow2Values();
    var t := (typ % 16) * TYPE_UNIT;
    assert typ * TYPE_UNIT == (typ / 16) * U64_LIMIT + t;
    DivModUnique(typ * TYPE_UNIT, U64_LIMIT, typ / 16, t);
  }

  /** Shifting a u32 left by 28 within a u64 loses nothing. */
  lemma OffsetShift(offset: u32)
    ensures ShiftLeft64(offset, 28) == offset * OFFSET_UNIT
  {
    ShiftLeft64Value(offset, 28);
    Pow2Values();
    DivModUnique(offset * OFFSET_UNIT, U64_LIMIT, 0, offset * OFFSET_UNIT);
  }

  /** Under the size check, the `& 0xFFFFFFF` mask leaves the size unchanged. */
  lemma SizeMask(size: u32)
    requires size < SIZE_LIMIT
    ensures And(size, SIZE_MASK) == size
  {
    Pow2Values();
    AndLowMask(size, 28);
    assert Pow2(28) - 1 == SIZE_MASK;
    DivModUnique(size, Pow2(28), 0, size);
  }

  /** The three shifted fields occupy disjoint bits, so their OR is their sum. */
  lemma PackIsSum(typ: u8, offset: u32, size: u32)
    requires size < SIZE_LIMIT
    ensures Pack(typ, offset, size) == (typ % 16) * TYPE_UNIT + offset * OFFSET_UNIT + size
  {
    var tag := typ % 16;
    var upper := tag * U32_LIMIT + offset;
    calc {
      Pack(typ, offset, size);
      Or(Or(ShiftLeft64(typ, 60), ShiftLeft64(offset, 28)), And(size, SIZE_MASK));
      { TagShift(typ); OffsetShift(offset); SizeMask(size); }
      Or(Or(tag * TYPE_UNIT, offset * OFFSET_UNIT), size);
      { OrBelowTag(tag, offset * OFFSET_UNIT); }
      Or(tag * TYPE_UNIT + offset * OFFSET_UNIT, size);
      { assert tag * TYPE_UNIT + offset * OFFSET_UNIT == upper * OFFSET_UNIT; }
      Or(upper * OFFSET_UNIT, size);
      { OrBelowOffset(upper, size); }
      upper * OFFSET_UNIT + size;
    }
  }

  lemma OrBelowTag(tag: nat, low: nat)
    requires low < TYPE_UNIT
    ensures Or(tag * TYPE_UNIT, low) == tag * TYPE_UNIT + low
  {
    Pow2Values();
    OrOfDisjoint(tag, low, 60);
  }

  lemma OrBelowOffset(upper: nat, size: nat)
    requires size < SIZE_LIMIT
    ensures Or(upper * OFFSET_UNIT, size) == upper * OFFSET_UNIT + size
  {
    Pow2Values();
    OrOfDisjoint(upper, size, 28);
  }

  /** An accepted packing fits in a u64 and decodes to the low 4 bits of the tag, the offset and the size. */
  lemma PackDecodes(typ: u8, offset: u32, size: u32)
    requires size < SIZE_LIMIT
    ensures Pack(typ, offset, size) < U64_LIMIT
    ensures Decode(Pack(typ, offset, size)) == Fields(typ % 16, offset, size)
  {
    PackIsSum(typ, offset, size);
    DecodeOfSum(typ % 16, offset, size, Pack(typ, offset, size));
  }

  /** In-range fields, weighted by their positions, decode to themselves. */
  lemma DecodeOfSum(typ: u8, offset: u32, size: u32, word: nat)
    requires typ < 16 && size < SIZE_LIMIT
    requires word == typ * TYPE_UNIT + offset * OFFSET_UNIT + size
    ensures word < U64_LIMIT
    ensures Decode(word) == Fields(typ, offset, size)
  {
    var high := typ * U32_LIMIT + offset;
    assert word == high * OFFSET_UNIT + size;
    DivModUnique(word, OFFSET_UNIT, high, size);
    DivModUnique(high, U32_LIMIT, typ, offset);
    DivModUnique(word, TYPE_UNIT, typ, offset * OFFSET_UNIT + size);
  }

  /** The type field round-trips exactly when the tag fits in 4 bits. */
  lemma TagRoundTripsIffBelow16(typ: u8, offset: u32, size: u32)
    requires size < SIZE_LIMIT
    ensures NewReference(typ, offset, size).Ok?
    ensures Decode(NewReference(typ, offset, size).value) == Fields(typ, offset, size) <==> typ < 16
  {
    if typ < 16 {
      DivModUnique(typ, 16, 0, typ);
    } else {
      assert typ % 16 < 16 <= typ;
    }
  }

  /** Every u64 is the reference of exactly the fields it decodes to. */
  lemma EveryWordIsAReference(word: u64)
    ensures NewReference(Decode(word).typ, Decode(word).offset, Decode(word).size) == Ok(word)
  {
    var f := Decode(word);
    DecodeRecomposes(word);
    PackIsSum(f.typ, f.offset, f.size);
    DivModUnique(f.typ, 16, 0, f.typ);
    assert Pack(f.typ, f.offset, f.size) == word;
  }

  /** A reference converts to i64 exactly when its tag is below 8 (bit 63 clear). */
  lemma ConvertsToI64IffTagBelow8(typ: u8, offset: u32, size: u32)
    requires size < SIZE_LIMIT
    ensures NewReference(typ, offset, size).value < I64_LIMIT <==> typ % 16 < 8
    ensures ToI64(NewReference(typ, offset, size).value).Ok? <==> typ % 16 < 8
  {
    PackIsSum(typ, offset, size);
  }

  /** A tag below 8 leaves bit 63 clear: the reference converts to i64 and keeps the whole tag. */
  lemma SmallTagConverts(typ: u8, offset: u32, size: u32)
    requires typ < 8 && size < SIZE_LIMIT
    ensures NewReference(typ, offset, size).Ok?
    ensures NewReference(typ, offset, size).value < I64_LIMIT
    ensures Decode(NewReference(typ, offset, size).value) == Fields(typ, offset, size)
  {
    DivModUnique(typ, 16, 0, typ);
    ConvertsToI64IffTagBelow8(typ, offset, size);
  }
}
