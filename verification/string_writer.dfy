/**
 * `write_string(offset, data)`: copies the bytes of a string into linear
 * memory starting at `offset`, then builds a string reference (type tag 5)
 * for them and returns it with the number of bytes written. The copy happens
 * first; the conversions that can panic come after it.
 */
module StringWriter {
  import opened Bits
  import opened Panics
  import opened Reference

  const STRING_TAG: u8 := 5

  /** Memory after `data` is copied to `offset`: that range holds `data`, the rest is as before. */
  function Written(mem: seq<u8>, offset: nat, data: seq<u8>): (r: seq<u8>)
    requires offset + |data| <= |mem|
    ensures |r| == |mem|
    ensures r[offset..offset + |data|] == data
    ensures forall i :: 0 <= i < |mem| && !(offset <= i < offset + |data|) ==> r[i] == mem[i]
  {
    mem[..offset] + data + mem[offset + |data|..]
  }

  /**
   * The value `write_string` returns once the bytes are in place: the string
   * reference converted to i64, paired with the length. It panics when the
   * offset or the length does not fit in a u32, or when the length needs
   * more than 28 bits; the i64 conversion never fails, since tag 5 leaves
   * bit 63 clear.
   */
  function WriteResult(offset: nat, len: nat): (r: Result<(i64, nat)>)
    ensures r.Ok? <==> offset < U32_LIMIT && len < SIZE_LIMIT
    ensures r.Ok? ==> r.value.1 == len
    ensures r.Ok? ==> 0 <= r.value.0 && Decode(r.value.0) == Fields(STRING_TAG, offset, len)
    ensures r.Panicked? ==> r.panic != ReferenceNotI64
  {
    if offset >= U32_LIMIT then Panicked(OffsetNotU32)
    else if len >= U32_LIMIT then Panicked(LengthNotU32)
    else
      var word := NewReference(STRING_TAG, offset, len);
      if word.Panicked? then Panicked(word.panic)
      else
        SmallTagConverts(STRING_TAG, offset, len);
        match ToI64(word.value)
        case Panicked(p) => Panicked(p)
        case Ok(reference) => Ok((reference, len))
  }

  /** `write_string`, with linear memory as an array of bytes. */
  method WriteString(mem: array<u8>, offset: nat, data: seq<u8>) returns (r: Result<(i64, nat)>)
    requires offset + |data| <= mem.Length
    modifies mem
    ensures mem[..] == Written(old(mem[..]), offset, data)
    ensures |data| == 0 ==> mem[..] == old(mem[..])
    ensures r == WriteResult(offset, |data|)
  {
    var len := |data|;
    var i := 0;
    while i < len
      invariant 0 <= i <= len
      invariant forall j :: 0 <= j < i ==> mem[offset + j] == data[j]
      invariant forall j :: 0 <= j < mem.Length && !(offset <= j < offset + i) ==> mem[j] == old(mem[j])
    {
      mem[offset + i] := data[i];
      i := i + 1;
    }
    ghost var expected := Written(old(mem[..]), offset, data);
    assert forall j :: 0 <= j < mem.Length ==> mem[j] == expected[j] by {
      forall j | offset <= j < offset + len
        ensures mem[j] == expected[j]
      {
        assert expected[j] == expected[offset..offset + len][j - offset];
      }
    }
    assert mem[..] == expected;

    r := WriteResult(offset, len);
  }

  /** Copying nothing leaves memory as it was. */
  lemma EmptyWriteChangesNothing(mem: seq<u8>, offset: nat)
    requires offset <= |mem|
    ensures Written(mem, offset, []) == mem
  {
  }

  /**
   * Two writes where the second starts at the first's offset plus the count
   * it returned are one write of the two strings joined: no gap, no overlap.
   */
  lemma SequentialWritesCompose(mem: seq<u8>, offset: nat, first: seq<u8>, second: seq<u8>)
    requires offset + |first| + |second| <= |mem|
    ensures Written(Written(mem, offset, first), offset + |first|, second) == Written(mem, offset, first + second)
  {
  }
}
