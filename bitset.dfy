/**
 * A fixed-size bit array holding fields of 1 to 7 bits, most significant bit
 * first, that may straddle two bytes (src/compact_str/bitset.rs). Bytes are
 * `bv8`; bit `k` of the set is bit `7 - k % 8` of byte `k / 8`.
 */
module BitSets {

  /** `VALUE_MASKS`, as written: entry 6, meant for 7-bit fields, keeps only five bits. */
  const ValueMasks: seq<bv8> := [0x01, 0x03, 0x07, 0x0F, 0x1F, 0x3F, 0x1F, 0xFF]

  /** The `c` low bits set: what entry `c - 1` of the masks is meant to be. */
  function Low(c: bv8): bv8
    requires c <= 8
  {
    ((1 as bv8) << c) - 1
  }

  /**
   * A bit position or field width below 8 as a byte, the source's `as u8`
   * cast, written out value by value.
   */
  function Small(x: nat): (r: bv8)
    requires x < 8
  {
    if x == 0 then 0 else if x == 1 then 1 else if x == 2 then 2 else if x == 3 then 3
    else if x == 4 then 4 else if x == 5 then 5 else if x == 6 then 6 else 7
  }

  /** Every mask but entry 6 is the intended one. */
  lemma MasksAsIntended(c: bv8)
    requires 1 <= c <= 8
    ensures c != 7 ==> ValueMasks[(c - 1) as int] == Low(c)
    ensures c == 7 ==> ValueMasks[(c - 1) as int] == Low(5)
  {
  }

  /** Writes the `count` low bits of `value` into bits `offset..offset+count` of `b`, counted from the top. */
  function EncodeByte(b: bv8, offset: bv8, count: bv8, value: bv8): bv8
    requires 1 <= count <= 8 && offset <= 8 && offset + count <= 8
  {
    var m := ValueMasks[(count - 1) as int];
    var mask := !(m << ((8 - offset) - count));
    var v := (value & m) << ((8 - offset) - count);
    (b & mask) | v
  }

  /** Reads bits `offset..offset+count` of `b`, counted from the top. */
  function DecodeByte(b: bv8, offset: bv8, count: bv8): bv8
    requires 1 <= count <= 8 && offset <= 8 && offset + count <= 8
  {
    (b >> ((8 - offset) - count)) & ValueMasks[(count - 1) as int]
  }

  /** Bit `i` of a byte, counted from the most significant. */
  function ByteBit(b: bv8, i: bv8): bv8
    requires i < 8
  {
    (b >> (7 - i)) & 1
  }

  /** `do_encode`: byte `idx` of `arr` with the field written. */
  function DoEncode(arr: seq<bv8>, idx: nat, offset: bv8, count: bv8, value: bv8): bv8
    requires idx < |arr| && 1 <= count <= 8 && offset <= 8 && offset + count <= 8
  {
    EncodeByte(arr[idx], offset, count, value)
  }

  /** `do_decode`: the field read from byte `idx` of `arr`. */
  function DoDecode(arr: seq<bv8>, idx: nat, offset: bv8, count: bv8): bv8
    requires idx < |arr| && 1 <= count <= 8 && offset <= 8 && offset + count <= 8
  {
    DecodeByte(arr[idx], offset, count)
  }

  /**
   * `write_bits!`: a field that fits its first byte is encoded there; one that
   * does not is split into its high bits, at the end of the first byte, and its
   * low bits, at the start of the next. Asking for a field that ends past the
   * last byte indexes out of range in the source, hence the precondition.
   */
  function WriteBits(s: seq<bv8>, offset: nat, w: nat, value: bv8): (r: seq<bv8>)
    requires 1 <= w <= 7 && offset + w <= 8 * |s|
    ensures |r| == |s|
  {
    WriteAt(s, offset / 8, Small(offset % 8), Small(w), value)
  }

  /** `write_bits!` with the offset split into its byte and the bit within that byte. */
  function WriteAt(s: seq<bv8>, bf: nat, bo: bv8, w: bv8, value: bv8): (r: seq<bv8>)
    requires bo < 8 && 1 <= w <= 7 && bf < |s| && (bo + w > 8 ==> bf + 1 < |s|)
    ensures |r| == |s|
  {
    if bo + w <= 8 then
      s[bf := DoEncode(s, bf, bo, w, value)]
    else
      var first := 8 - bo;
      var second := w - first;
      var s1 := s[bf := DoEncode(s, bf, bo, first, value >> second)];
      s1[bf + 1 := DoEncode(s1, bf + 1, 0, second, value)]
  }

  /**
   * `get_bits`: the field read back, with a straddling field's high bits from
   * its first byte and its low bits from the next; past the last byte those
   * low bits read as zero.
   */
  function ReadBits(s: seq<bv8>, offset: nat, count: nat): bv8
    requires 1 <= count <= 7 && offset < 8 * |s|
  {
    GetAt(s, offset / 8, Small(offset % 8), Small(count))
  }

  /** `get_bits` with the offset split into its byte and the bit within that byte. */
  function GetAt(s: seq<bv8>, bf: nat, bo: bv8, count: bv8): bv8
    requires bo < 8 && 1 <= count <= 7 && bf < |s|
  {
    if bo + count <= 8 then
      DoDecode(s, bf, bo, count)
    else
      var first := 8 - bo;
      var second := count - first;
      var msb := DoDecode(s, bf, bo, first) << second;
      var lsb := if bf + 1 < |s| then DoDecode(s, bf + 1, 0, second) else 0;
      msb | lsb
  }

  /** `empty`: `n` zero bytes. */
  function Zeros(n: nat): (r: seq<bv8>)
    ensures |r| == n && forall i :: 0 <= i < n ==> r[i] == 0
  {
    seq(n, _ => 0)
  }

  // Byte-level facts, over bit-vector offsets.

  /** `do_encode` leaves every bit outside its field as it was. */
  lemma EncodeKeepsOtherBits(b: bv8, o: bv8, c: bv8, v: bv8, i: bv8)
    requires 1 <= c <= 7 && o <= 8 && o + c <= 8 && i < 8
    requires i < o || o + c <= i
    ensures ByteBit(EncodeByte(b, o, c, v), i) == ByteBit(b, i)
  {
  }

  /** `do_encode` puts the field's bits, most significant first, at `offset..offset+count`. */
  lemma EncodeSetsBits(b: bv8, o: bv8, c: bv8, v: bv8, i: bv8)
    requires 1 <= c <= 6 && o <= 8 && o + c <= 8 && o <= i < o + c
    ensures ByteBit(EncodeByte(b, o, c, v), i) == (v >> (c - 1 - (i - o))) & 1
  {
  }

  /** `do_decode` reads back what `do_encode` wrote, cut to the field's width, for widths up to 6. */
  lemma DecodeEncodeByte(b: bv8, o: bv8, c: bv8, v: bv8)
    requires 1 <= c <= 6 && o <= 8 && o + c <= 8
    ensures DecodeByte(EncodeByte(b, o, c, v), o, c) == v & Low(c)
  {
  }

  /** For width 7, entry 6 of the masks cuts the value to its five low bits on both sides. */
  lemma DecodeEncodeByteSeven(b: bv8, o: bv8, v: bv8)
    requires o <= 1
    ensures DecodeByte(EncodeByte(b, o, 7, v), o, 7) == v & 0x1F
  {
  }

  /** Encoding one field of a byte does not change the decoding of a field that does not overlap it. */
  lemma DisjointByte(b: bv8, o1: bv8, c1: bv8, o2: bv8, c2: bv8, v: bv8)
    requires 1 <= c1 <= 7 && o1 <= 8 && o1 + c1 <= 8 && 1 <= c2 <= 7 && o2 <= 8 && o2 + c2 <= 8
    requires o1 + c1 <= o2 || o2 + c2 <= o1
    ensures DecodeByte(EncodeByte(b, o2, c2, v), o1, c1) == DecodeByte(b, o1, c1)
  {
    if o1 + c1 <= o2 {
      DisjointByteBefore(b, o1, c1, o2, c2, v);
    } else {
      DisjointByteAfter(b, o1, c1, o2, c2, v);
    }
  }

  /** Replacing bits that the read mask does not see leaves the read unchanged. */
  lemma MaskedUnchanged(b: bv8, x: bv8, y: bv8, sh: bv8, m: bv8)
    requires sh < 8 && (x >> sh) & m == 0 && (y >> sh) & m == 0
    ensures (((b & !x) | y) >> sh) & m == (b >> sh) & m
  {
  }

  /** The field read lies wholly before the field written. */
  lemma DisjointByteBefore(b: bv8, o1: bv8, c1: bv8, o2: bv8, c2: bv8, v: bv8)
    requires 1 <= c1 <= 7 && o1 <= 8 && o1 + c1 <= 8 && 1 <= c2 <= 7 && o2 <= 8 && o2 + c2 <= 8
    requires o1 + c1 <= o2
    ensures DecodeByte(EncodeByte(b, o2, c2, v), o1, c1) == DecodeByte(b, o1, c1)
  {
    var m1 := ValueMasks[(c1 - 1) as int];
    var m2 := ValueMasks[(c2 - 1) as int];
    var sh1 := (8 - o1) - c1;
    var sh2 := (8 - o2) - c2;
    assert m1 <= 0x3F && m2 <= 0x3F;
    assert ((m2 << sh2) >> sh1) & m1 == 0;
    assert (((v & m2) << sh2) >> sh1) & m1 == 0;
    MaskedUnchanged(b, m2 << sh2, (v & m2) << sh2, sh1, m1);
  }

  /** The field read lies wholly after the field written. */
  lemma DisjointByteAfter(b: bv8, o1: bv8, c1: bv8, o2: bv8, c2: bv8, v: bv8)
    requires 1 <= c1 <= 7 && o1 <= 8 && o1 + c1 <= 8 && 1 <= c2 <= 7 && o2 <= 8 && o2 + c2 <= 8
    requires o2 + c2 <= o1
    ensures DecodeByte(EncodeByte(b, o2, c2, v), o1, c1) == DecodeByte(b, o1, c1)
  {
    var m1 := ValueMasks[(c1 - 1) as int];
    var m2 := ValueMasks[(c2 - 1) as int];
    var sh1 := (8 - o1) - c1;
    var sh2 := (8 - o2) - c2;
    assert m1 <= 0x3F && m2 <= 0x3F;
    assert ((m2 << sh2) >> sh1) & m1 == 0;
    assert (((v & m2) << sh2) >> sh1) & m1 == 0;
    MaskedUnchanged(b, m2 << sh2, (v & m2) << sh2, sh1, m1);
  }

  /** Every field of a zero byte reads zero. */
  lemma DecodeZero(o: bv8, c: bv8)
    requires 1 <= c <= 7 && o <= 8 && o + c <= 8
    ensures DecodeByte(0, o, c) == 0
  {
  }

  /** The high and low parts of a straddling field join back into the field. */
  lemma JoinHalves(v: bv8, first: bv8, second: bv8)
    requires 1 <= first <= 6 && 1 <= second <= 6 && first + second <= 7
    ensures (((v >> second) & Low(first)) << second) | (v & Low(second)) == v & Low(first + second)
  {
  }

  // Properties of the whole set.

  /** Reading back after writing gives the value's low bits, for widths up to 6 and straddling 7-bit fields. */
  lemma GetAtOfWriteAt(s: seq<bv8>, bf: nat, bo: bv8, w: bv8, value: bv8)
    requires bo < 8 && 1 <= w <= 7 && bf < |s| && (bo + w > 8 ==> bf + 1 < |s|)
    requires w <= 6 || bo + w > 8
    ensures GetAt(WriteAt(s, bf, bo, w, value), bf, bo, w) == value & Low(w)
  {
    if bo + w <= 8 {
      var r := WriteAt(s, bf, bo, w, value);
      assert r[bf] == EncodeByte(s[bf], bo, w, value);
      DecodeEncodeByte(s[bf], bo, w, value);
    } else {
      GetAtOfWriteAtStraddle(s, bf, bo, w, value);
    }
  }

  /** The two bytes a straddling write leaves behind. */
  lemma WriteAtStraddleBytes(s: seq<bv8>, bf: nat, bo: bv8, w: bv8, value: bv8)
    requires bo < 8 && 1 <= w <= 7 && bf + 1 < |s| && bo + w > 8
    ensures WriteAt(s, bf, bo, w, value)[bf] == EncodeByte(s[bf], bo, 8 - bo, value >> (w - (8 - bo)))
    ensures WriteAt(s, bf, bo, w, value)[bf + 1] == EncodeByte(s[bf + 1], 0, w - (8 - bo), value)
  {
  }

  /** A straddling read joins the two decoded halves. */
  lemma GetAtStraddleJoins(r: seq<bv8>, bf: nat, bo: bv8, w: bv8)
    requires bo < 8 && 1 <= w <= 7 && bf + 1 < |r| && bo + w > 8
    ensures GetAt(r, bf, bo, w) == (DecodeByte(r[bf], bo, 8 - bo) << (w - (8 - bo))) | DecodeByte(r[bf + 1], 0, w - (8 - bo))
  {
  }

  /** The straddling case of `GetAtOfWriteAt`. */
  lemma GetAtOfWriteAtStraddle(s: seq<bv8>, bf: nat, bo: bv8, w: bv8, value: bv8)
    requires bo < 8 && 1 <= w <= 7 && bf + 1 < |s| && bo + w > 8
    ensures GetAt(WriteAt(s, bf, bo, w, value), bf, bo, w) == value & Low(w)
  {
    var first := 8 - bo;
    var second := w - first;
    assert 1 <= first <= 6 && 1 <= second <= 6 && first + second == w;
    var r := WriteAt(s, bf, bo, w, value);
    WriteAtStraddleBytes(s, bf, bo, w, value);
    GetAtStraddleJoins(r, bf, bo, w);
    DecodeEncodeByte(s[bf], bo, first, value >> second);
    DecodeEncodeByte(s[bf + 1], 0, second, value);
    JoinHalves(value, first, second);
  }

  /** A straddling read where the next byte is missing keeps only the high bits. */
  lemma GetAtStraddleAtEnd(r: seq<bv8>, bf: nat, bo: bv8, w: bv8)
    requires bo < 8 && 1 <= w <= 7 && bf + 1 == |r| && bo + w > 8
    ensures GetAt(r, bf, bo, w) == DecodeByte(r[bf], bo, 8 - bo) << (w - (8 - bo))
  {
  }

  /** The 7-bit field that fits one byte reads back only five bits, through entry 6 of the masks. */
  lemma GetAtOfWriteAtSeven(s: seq<bv8>, bf: nat, bo: bv8, value: bv8)
    requires bo <= 1 && bf < |s|
    ensures GetAt(WriteAt(s, bf, bo, 7, value), bf, bo, 7) == value & 0x1F
  {
    var r := WriteAt(s, bf, bo, 7, value);
    assert r[bf] == EncodeByte(s[bf], bo, 7, value);
    DecodeEncodeByteSeven(s[bf], bo, value);
  }

  /** Every field of an empty set reads zero. */
  lemma GetAtOfEmpty(n: nat, bf: nat, bo: bv8, w: bv8)
    requires bo < 8 && 1 <= w <= 7 && bf < n
    ensures GetAt(Zeros(n), bf, bo, w) == 0
  {
    var e := Zeros(n);
    assert e[bf] == 0;
    if bo + w <= 8 {
      DecodeZero(bo, w);
    } else {
      DecodeZero(bo, 8 - bo);
      if bf + 1 < n {
        assert e[bf + 1] == 0;
        DecodeZero(0, w - (8 - bo));
      }
    }
  }

  /**
   * Field 1, at byte `bf1` bit `bo1` and `w1` bits wide, ends at or before
   * field 2 starts, at byte `bf2` bit `bo2`.
   */
  predicate EndsBefore(bf1: nat, bo1: bv8, w1: bv8, bf2: nat, bo2: bv8)
    requires bo1 < 8 && w1 <= 7
  {
    bf1 + 1 < bf2
    || (bf1 + 1 == bf2 && (bo1 + w1 <= 8 || bo1 + w1 - 8 <= bo2))
    || (bf1 == bf2 && bo1 + w1 <= bo2)
  }

  /** A write leaves every byte but its first and, when it straddles, the next one. */
  lemma WriteAtOtherBytes(s: seq<bv8>, bf: nat, bo: bv8, w: bv8, value: bv8, i: nat)
    requires bo < 8 && 1 <= w <= 7 && bf < |s| && (bo + w > 8 ==> bf + 1 < |s|)
    requires i < |s| && i != bf && (bo + w > 8 ==> i != bf + 1)
    ensures WriteAt(s, bf, bo, w, value)[i] == s[i]
  {
  }

  /** The first byte of a write, whether or not it straddles. */
  lemma WriteAtFirstByte(s: seq<bv8>, bf: nat, bo: bv8, w: bv8, value: bv8)
    requires bo < 8 && 1 <= w <= 7 && bf < |s| && (bo + w > 8 ==> bf + 1 < |s|)
    ensures bo + w <= 8 ==> WriteAt(s, bf, bo, w, value)[bf] == EncodeByte(s[bf], bo, w, value)
    ensures bo + w > 8 ==> WriteAt(s, bf, bo, w, value)[bf] == EncodeByte(s[bf], bo, 8 - bo, value >> (w - (8 - bo)))
  {
  }

  /** A read only looks at the bits of its own bytes it covers. */
  lemma GetAtFromParts(r: seq<bv8>, s: seq<bv8>, bf: nat, bo: bv8, w: bv8)
    requires bo < 8 && 1 <= w <= 7 && bf < |s| && |r| == |s|
    requires bo + w <= 8 ==> DecodeByte(r[bf], bo, w) == DecodeByte(s[bf], bo, w)
    requires bo + w > 8 ==> DecodeByte(r[bf], bo, 8 - bo) == DecodeByte(s[bf], bo, 8 - bo)
    requires bo + w > 8 && bf + 1 < |s| ==>
      DecodeByte(r[bf + 1], 0, w - (8 - bo)) == DecodeByte(s[bf + 1], 0, w - (8 - bo))
    ensures GetAt(r, bf, bo, w) == GetAt(s, bf, bo, w)
  {
    if bo + w > 8 {
      var first := 8 - bo;
      var second := w - first;
      assert DoDecode(r, bf, bo, first) == DoDecode(s, bf, bo, first);
      assert (if bf + 1 < |r| then DoDecode(r, bf + 1, 0, second) else 0)
          == (if bf + 1 < |s| then DoDecode(s, bf + 1, 0, second) else 0);
    }
  }

  /** A write that starts at or after the end of a field leaves that field's reading unchanged. */
  lemma GetAtAfterLaterWrite(s: seq<bv8>, bf1: nat, bo1: bv8, w1: bv8, bf2: nat, bo2: bv8, w2: bv8, value: bv8)
    requires bo1 < 8 && 1 <= w1 <= 7 && bf1 < |s|
    requires bo2 < 8 && 1 <= w2 <= 7 && bf2 < |s| && (bo2 + w2 > 8 ==> bf2 + 1 < |s|)
    requires EndsBefore(bf1, bo1, w1, bf2, bo2)
    ensures GetAt(WriteAt(s, bf2, bo2, w2, value), bf1, bo1, w1) == GetAt(s, bf1, bo1, w1)
  {
    var r := WriteAt(s, bf2, bo2, w2, value);
    var c2 := if bo2 + w2 <= 8 then w2 else 8 - bo2;
    var v2 := if bo2 + w2 <= 8 then value else value >> (w2 - (8 - bo2));
    WriteAtFirstByte(s, bf2, bo2, w2, value);
    assert r[bf2] == EncodeByte(s[bf2], bo2, c2, v2);
    if bf1 == bf2 {
      DisjointByteBefore(s[bf1], bo1, w1, bo2, c2, v2);
    } else {
      WriteAtOtherBytes(s, bf2, bo2, w2, value, bf1);
      if bo1 + w1 > 8 && bf1 + 1 < |s| {
        if bf1 + 1 == bf2 {
          DisjointByteBefore(s[bf1 + 1], 0, w1 - (8 - bo1), bo2, c2, v2);
        } else {
          WriteAtOtherBytes(s, bf2, bo2, w2, value, bf1 + 1);
        }
      }
    }
    GetAtFromParts(r, s, bf1, bo1, w1);
  }

  // The same facts over whole-set offsets.
  /** A field inside the set, split into its byte and its bit within the byte, meets `WriteAt`'s demands. */
  lemma SplitField(o: nat, w: nat, n: nat)
    requires 1 <= w <= 7 && o + w <= 8 * n
    ensures o / 8 < n && Small(o % 8) < 8 && 1 <= Small(w) <= 7
    ensures Small(o % 8) + Small(w) > 8 <==> o % 8 + w > 8
    ensures Small(o % 8) + Small(w) > 8 ==> o / 8 + 1 < n
    ensures Small(o % 8) <= 1 <==> o % 8 <= 1
    ensures Small(w) <= 6 <==> w <= 6
  {
  }

  /** A field ending at or before offset `o2` still does so once both offsets are split into byte and bit. */
  lemma SplitOffsets(o1: nat, w1: nat, o2: nat)
    requires 1 <= w1 <= 7 && o1 + w1 <= o2
    ensures EndsBefore(o1 / 8, Small(o1 % 8), Small(w1), o2 / 8, Small(o2 % 8))
  {
  }

  /** `get_bits` after `set_bits` at the same place: the value's low bits, save for 7-bit fields within one byte. */
  lemma GetBitsOfWriteBits(s: seq<bv8>, offset: nat, w: nat, value: bv8)
    requires 1 <= w <= 7 && offset + w <= 8 * |s|
    ensures w <= 6 || offset % 8 >= 2 ==> ReadBits(WriteBits(s, offset, w, value), offset, w) == value & Low(Small(w))
    ensures w == 7 && offset % 8 <= 1 ==> ReadBits(WriteBits(s, offset, w, value), offset, w) == value & 0x1F
  {
    if w == 7 && offset % 8 <= 1 {
      GetBitsOfWriteBitsSeven(s, offset, value);
    } else {
      GetBitsOfWriteBitsFull(s, offset, w, value);
    }
  }

  /** The case of `GetBitsOfWriteBits` where every bit of the value survives. */
  lemma GetBitsOfWriteBitsFull(s: seq<bv8>, offset: nat, w: nat, value: bv8)
    requires 1 <= w <= 7 && offset + w <= 8 * |s| && (w <= 6 || offset % 8 >= 2)
    ensures ReadBits(WriteBits(s, offset, w, value), offset, w) == value & Low(Small(w))
  {
    SplitField(offset, w, |s|);
    GetAtOfWriteAt(s, offset / 8, Small(offset % 8), Small(w), value);
  }

  /** The case of `GetBitsOfWriteBits` where a 7-bit field lies within one byte. */
  lemma GetBitsOfWriteBitsSeven(s: seq<bv8>, offset: nat, value: bv8)
    requires offset + 7 <= 8 * |s| && offset % 8 <= 1
    ensures ReadBits(WriteBits(s, offset, 7, value), offset, 7) == value & 0x1F
  {
    SplitField(offset, 7, |s|);
    GetAtOfWriteAtSeven(s, offset / 8, Small(offset % 8), value);
  }

  /** A 7-bit field within one byte loses its top two bits. */
  lemma SevenBitFieldLosesBits(s: seq<bv8>)
    requires |s| >= 1
    ensures ReadBits(WriteBits(s, 0, 7, 0x7F), 0, 7) == 0x1F
  {
    GetBitsOfWriteBits(s, 0, 7, 0x7F);
  }

  /** `set_bits` at or after the end of a field leaves `get_bits` of that field unchanged. */
  lemma GetBitsAfterLaterWrite(s: seq<bv8>, o1: nat, w1: nat, o2: nat, w2: nat, value: bv8)
    requires 1 <= w1 <= 7 && o1 < 8 * |s|
    requires 1 <= w2 <= 7 && o2 + w2 <= 8 * |s|
    requires o1 + w1 <= o2
    ensures ReadBits(WriteBits(s, o2, w2, value), o1, w1) == ReadBits(s, o1, w1)
  {
    SplitField(o1, w1, |s|);
    SplitField(o2, w2, |s|);
    SplitOffsets(o1, w1, o2);
    GetAtAfterLaterWrite(s, o1 / 8, Small(o1 % 8), Small(w1), o2 / 8, Small(o2 % 8), Small(w2), value);
  }

  /** Every field of an `empty` set reads zero. */
  lemma GetBitsOfEmpty(n: nat, offset: nat, count: nat)
    requires 1 <= count <= 7 && offset < 8 * n
    ensures ReadBits(Zeros(n), offset, count) == 0
  {
    GetAtOfEmpty(n, offset / 8, Small(offset % 8), Small(count));
  }

  /** Bit `j` of byte `i` lies in the field at byte `bf`, bit `bo`, `w` bits wide. */
  predicate InField(bf: nat, bo: bv8, w: bv8, i: nat, j: bv8)
    requires bo < 8 && w <= 7
  {
    (i == bf && bo <= j && j - bo < w) || (i == bf + 1 && bo + w > 8 && j < bo + w - 8)
  }

  /** A write changes no bit outside its field. */
  lemma WriteAtKeepsOtherBits(s: seq<bv8>, bf: nat, bo: bv8, w: bv8, value: bv8, i: nat, j: bv8)
    requires bo < 8 && 1 <= w <= 7 && bf < |s| && (bo + w > 8 ==> bf + 1 < |s|)
    requires i < |s| && j < 8 && !InField(bf, bo, w, i, j)
    ensures ByteBit(WriteAt(s, bf, bo, w, value)[i], j) == ByteBit(s[i], j)
  {
    WriteAtFirstByte(s, bf, bo, w, value);
    if i == bf {
      if bo + w <= 8 {
        EncodeKeepsOtherBits(s[bf], bo, w, value, j);
      } else {
        EncodeKeepsOtherBits(s[bf], bo, 8 - bo, value >> (w - (8 - bo)), j);
      }
    } else if i == bf + 1 && bo + w > 8 {
      WriteAtStraddleBytes(s, bf, bo, w, value);
      EncodeKeepsOtherBits(s[bf + 1], 0, w - (8 - bo), value, j);
    } else {
      WriteAtOtherBytes(s, bf, bo, w, value, i);
    }
  }

  /** Bit `k` of the whole set: bit `k % 8`, from the top, of byte `k / 8`. */
  function Bit(s: seq<bv8>, k: nat): bv8
    requires k < 8 * |s|
  {
    ByteBit(s[k / 8], Small(k % 8))
  }

  /** A bit before or after a field is not in it. */
  lemma OutsideField(offset: nat, w: nat, k: nat)
    requires 1 <= w <= 7 && (k < offset || offset + w <= k)
    ensures !InField(offset / 8, Small(offset % 8), Small(w), k / 8, Small(k % 8))
  {
  }

  /** `set_bits` changes no bit of the set outside `offset..offset+w`, on either side of a byte boundary. */
  lemma WriteBitsKeepsOtherBits(s: seq<bv8>, offset: nat, w: nat, value: bv8, k: nat)
    requires 1 <= w <= 7 && offset + w <= 8 * |s|
    requires k < 8 * |s| && (k < offset || offset + w <= k)
    ensures Bit(WriteBits(s, offset, w, value), k) == Bit(s, k)
  {
    OutsideField(offset, w, k);
    WriteAtKeepsOtherBits(s, offset / 8, Small(offset % 8), Small(w), value, k / 8, Small(k % 8));
  }

  /** A field reads back no more than `count` bits. */
  lemma GetAtBound(s: seq<bv8>, bf: nat, bo: bv8, count: bv8)
    requires bo < 8 && 1 <= count <= 7 && bf < |s|
    ensures GetAt(s, bf, bo, count) <= Low(count)
  {
    if bo + count <= 8 {
      DecodeBound(s[bf], bo, count);
    } else {
      var first, second := 8 - bo, count - (8 - bo);
      DecodeBound(s[bf], bo, first);
      var lsb := if bf + 1 < |s| then DecodeByte(s[bf + 1], 0, second) else 0;
      if bf + 1 < |s| {
        DecodeBound(s[bf + 1], 0, second);
      }
      JoinBound(DecodeByte(s[bf], bo, first), lsb, first, second);
    }
  }

  /** A decoded field of width up to 7 fits its width. */
  lemma DecodeBound(b: bv8, o: bv8, c: bv8)
    requires 1 <= c <= 7 && o <= 8 && o + c <= 8
    ensures DecodeByte(b, o, c) <= Low(c)
  {
  }

  /** Joining two parts that fit their widths fits the summed width. */
  lemma JoinBound(hi: bv8, lo: bv8, first: bv8, second: bv8)
    requires 1 <= first <= 6 && 1 <= second <= 6 && first + second <= 7
    requires hi <= Low(first) && lo <= Low(second)
    ensures (hi << second) | lo <= Low(first + second)
  {
  }

  // `from_buffer`.

  /** The offset of field `i` when every field is `w` bits wide: `from_buffer` adds `w` per byte. */
  function Offset(i: nat, w: nat): nat
  {
    if i == 0 then 0 else Offset(i - 1, w) + w
  }

  /** The offsets `from_buffer` steps through are the multiples of the width. */
  lemma {:induction false} OffsetIsProduct(i: nat, w: nat)
    ensures Offset(i, w) == i * w
  {
    if i > 0 {
      OffsetIsProduct(i - 1, w);
      assert i * w == (i - 1) * w + w;
    }
  }

  /** A later field starts no earlier than where an earlier one ends. */
  lemma {:induction false} OffsetMonotone(i: nat, j: nat, w: nat)
    requires i <= j
    ensures Offset(i, w) <= Offset(j, w)
    decreases j
  {
    if i < j {
      OffsetMonotone(i, j - 1, w);
    }
  }

  /** The loop of `from_buffer` stops at the first `i` that reaches `max_bytes` or whose offset leaves the set. */
  function IterationsFrom(n: nat, maxBytes: nat, w: nat, i: nat): (r: nat)
    requires 1 <= w
    ensures i <= r && (r == i || r <= maxBytes)
    ensures r >= maxBytes || Offset(r, w) >= 8 * n
    ensures r > i ==> r - 1 < maxBytes && Offset(r - 1, w) < 8 * n
    decreases maxBytes - i
  {
    if i < maxBytes && Offset(i, w) < 8 * n then IterationsFrom(n, maxBytes, w, i + 1) else i
  }

  /** How many bytes of the buffer `from_buffer` writes. */
  function Iterations(n: nat, maxBytes: nat, w: nat): (r: nat)
    requires 1 <= w
    ensures r <= maxBytes
    ensures r == maxBytes || Offset(r, w) >= 8 * n
    ensures r > 0 ==> Offset(r - 1, w) < 8 * n
  {
    IterationsFrom(n, maxBytes, w, 0)
  }

  /** The set after the first `k` bytes of `buffer` are written as `w`-bit fields, field `i` at `Offset(i, w)`. */
  function Fill(s: seq<bv8>, buffer: seq<bv8>, w: nat, k: nat): (r: seq<bv8>)
    requires 1 <= w <= 7 && k <= |buffer| && Offset(k, w) <= 8 * |s|
    ensures |r| == |s|
    decreases k, 1
  {
    if k == 0 then s else FillField(s, buffer, w, k - 1)
  }

  /** The set holding the first `i + 1` fields: field `i` written over the set holding the first `i`. */
  function FillField(s: seq<bv8>, buffer: seq<bv8>, w: nat, i: nat): (r: seq<bv8>)
    requires 1 <= w <= 7 && i < |buffer| && Offset(i + 1, w) <= 8 * |s|
    ensures |r| == |s|
    decreases i + 1, 0
  {
    WriteBits(Fill(s, buffer, w, i), Offset(i, w), w, buffer[i])
  }

  /** One step of the fill, unfolded. */
  lemma FillStep(s: seq<bv8>, buffer: seq<bv8>, w: nat, i: nat)
    requires 1 <= w <= 7 && i < |buffer| && Offset(i + 1, w) <= 8 * |s|
    ensures Offset(i, w) + w <= 8 * |s|
    ensures Fill(s, buffer, w, i + 1) == WriteBits(Fill(s, buffer, w, i), Offset(i, w), w, buffer[i])
  {
    assert Fill(s, buffer, w, i + 1) == FillField(s, buffer, w, i);
  }

  /** Writing field `k - 1` leaves the reading of an earlier field `i` as it was. */
  lemma FillKeepsEarlierField(s: seq<bv8>, buffer: seq<bv8>, w: nat, k: nat, i: nat)
    requires 1 <= w <= 7 && k <= |buffer| && Offset(k, w) <= 8 * |s| && i + 1 < k
    ensures Offset(i, w) < 8 * |s| && Offset(k - 1, w) <= 8 * |s|
    ensures ReadBits(Fill(s, buffer, w, k), Offset(i, w), w) == ReadBits(Fill(s, buffer, w, k - 1), Offset(i, w), w)
  {
    FillStep(s, buffer, w, k - 1);
    OffsetMonotone(i + 1, k - 1, w);
    GetBitsAfterLaterWrite(Fill(s, buffer, w, k - 1), Offset(i, w), w, Offset(k - 1, w), w, buffer[k - 1]);
  }

  /** The field written last reads back as `get_bits` returns it. */
  lemma FillReadsLast(s: seq<bv8>, buffer: seq<bv8>, w: nat, i: nat)
    requires 1 <= w <= 7 && i < |buffer| && Offset(i + 1, w) <= 8 * |s|
    ensures Offset(i, w) < 8 * |s|
    ensures w <= 6 || Offset(i, w) % 8 >= 2 ==> ReadBits(Fill(s, buffer, w, i + 1), Offset(i, w), w) == buffer[i] & Low(Small(w))
    ensures w == 7 && Offset(i, w) % 8 <= 1 ==> ReadBits(Fill(s, buffer, w, i + 1), Offset(i, w), w) == buffer[i] & 0x1F
  {
    FillStep(s, buffer, w, i);
    GetBitsOfWriteBits(Fill(s, buffer, w, i), Offset(i, w), w, buffer[i]);
  }

  /** After filling, field `i` reads back byte `i` of the buffer, cut to the field's width as `get_bits` does. */
  lemma {:induction false} FillReads(s: seq<bv8>, buffer: seq<bv8>, w: nat, k: nat, i: nat)
    requires 1 <= w <= 7 && k <= |buffer| && Offset(k, w) <= 8 * |s| && i < k
    ensures Offset(i, w) < 8 * |s|
    ensures w <= 6 || Offset(i, w) % 8 >= 2 ==> ReadBits(Fill(s, buffer, w, k), Offset(i, w), w) == buffer[i] & Low(Small(w))
    ensures w == 7 && Offset(i, w) % 8 <= 1 ==> ReadBits(Fill(s, buffer, w, k), Offset(i, w), w) == buffer[i] & 0x1F
  {
    if i == k - 1 {
      FillReadsLast(s, buffer, w, i);
    } else {
      FillKeepsEarlierField(s, buffer, w, k, i);
      FillReads(s, buffer, w, k - 1, i);
    }
  }

  /** Filling changes no bit from the end of the last field on. */
  lemma {:induction false} FillKeepsLaterBits(s: seq<bv8>, buffer: seq<bv8>, w: nat, k: nat, b: nat)
    requires 1 <= w <= 7 && k <= |buffer| && Offset(k, w) <= 8 * |s|
    requires Offset(k, w) <= b < 8 * |s|
    ensures Bit(Fill(s, buffer, w, k), b) == Bit(s, b)
  {
    if k > 0 {
      FillStep(s, buffer, w, k - 1);
      FillKeepsLaterBits(s, buffer, w, k - 1, b);
      WriteBitsKeepsOtherBits(Fill(s, buffer, w, k - 1), Offset(k - 1, w), w, buffer[k - 1], b);
    }
  }

  /** `write_bits!`, in place on the bytes of a set: the offset is split into its byte and its bit, then written. */
  method Write(a: array<bv8>, offset: nat, w: nat, value: bv8)
    requires 1 <= w <= 7 && offset + w <= 8 * a.Length
    modifies a
    ensures a[..] == WriteBits(old(a[..]), offset, w, value)
  {
    var byteFrom := offset / 8;
    var bitOffset := Small(offset - byteFrom * 8);
    var width := Small(w);
    WriteBitsSplit(a[..], offset, w, value, byteFrom, bitOffset, width);
    WriteBytes(a, byteFrom, bitOffset, width, value);
  }

  /** The body of `write_bits!` once the offset is split: one byte, or the end of one and the start of the next. */
  method WriteBytes(a: array<bv8>, bf: nat, bo: bv8, w: bv8, value: bv8)
    requires bo < 8 && 1 <= w <= 7 && bf < a.Length && (bo + w > 8 ==> bf + 1 < a.Length)
    modifies a
    ensures a[..] == WriteAt(old(a[..]), bf, bo, w, value)
  {
    if bo + w <= 8 {
      a[bf] := DoEncode(a[..], bf, bo, w, value);
    } else {
      var first := 8 - bo;
      var second := w - first;
      a[bf] := DoEncode(a[..], bf, bo, first, value >> second);
      a[bf + 1] := DoEncode(a[..], bf + 1, 0, second, value);
    }
  }

  /** `write_bits!`'s own split of the offset, `offset - (offset / 8) * 8`, is the bit within the byte. */
  lemma WriteBitsSplit(s: seq<bv8>, offset: nat, w: nat, value: bv8, bf: nat, bo: bv8, width: bv8)
    requires 1 <= w <= 7 && offset + w <= 8 * |s|
    requires bf == offset / 8 && bo == Small(offset - bf * 8) && width == Small(w)
    ensures bf < |s| && bo < 8 && 1 <= width <= 7 && (bo + width > 8 ==> bf + 1 < |s|)
    ensures WriteBits(s, offset, w, value) == WriteAt(s, bf, bo, width, value)
  {
    SplitField(offset, w, |s|);
    assert offset - (offset / 8) * 8 == offset % 8;
  }

  /** The loop runs on exactly as long as its condition holds: pass `i` happens iff `i < max_bytes` and offset `i` is inside the set. */
  lemma {:induction false} IterationsFromStops(n: nat, maxBytes: nat, w: nat, j: nat, i: nat)
    requires 1 <= w && j <= i <= IterationsFrom(n, maxBytes, w, j)
    ensures i < IterationsFrom(n, maxBytes, w, j) <==> i < maxBytes && Offset(i, w) < 8 * n
    decreases i - j
  {
    if j < i {
      IterationsFromStops(n, maxBytes, w, j + 1, i);
    }
  }

  /** One pass of `from_buffer`'s loop: byte `i` is read and the field it fills lies inside the set. */
  lemma FromBufferStep(n: nat, buffer: seq<bv8>, maxBytes: nat, w: nat, k: nat, i: nat)
    requires 1 <= w <= 7 && k == Iterations(n, maxBytes, w) && k <= |buffer| && Offset(k, w) <= 8 * n
    requires i <= k && Offset(i, w) < n * 8 && i < maxBytes
    ensures i < k && i < |buffer| && Offset(i + 1, w) == Offset(i, w) + w <= 8 * n
  {
    IterationsFromStops(n, maxBytes, w, 0, i);
    OffsetMonotone(i + 1, k, w);
  }

  /** A set holding the first `i` fields, with field `i` written next, holds the first `i + 1`. */
  lemma FillNext(s: seq<bv8>, buffer: seq<bv8>, w: nat, i: nat, before: seq<bv8>, after: seq<bv8>)
    requires 1 <= w <= 7 && i < |buffer| && Offset(i + 1, w) <= 8 * |s|
    requires before == Fill(s, buffer, w, i)
    requires Offset(i, w) + w <= 8 * |before| && after == WriteBits(before, Offset(i, w), w, buffer[i])
    ensures after == Fill(s, buffer, w, i + 1)
  {
    FillStep(s, buffer, w, i);
  }

  /**
   * The overrun `from_buffer` does not guard against: a one-byte set filled with
   * 3-bit fields from three buffer bytes makes three passes, and the third field
   * starts inside the set but ends past it, so its low bits would go to byte 1.
   */
  lemma FromBufferOverrunExample()
    ensures Iterations(1, 3, 3) == 3
    ensures Offset(2, 3) < 8 < Offset(2, 3) + 3
  {
    assert Offset(2, 3) == 6;
  }

  /** `t` is the set after the first `k` fields of the fill. */
  predicate Filled(t: seq<bv8>, s: seq<bv8>, buffer: seq<bv8>, w: nat, k: nat)
    requires 1 <= w <= 7 && k <= |buffer| && Offset(k, w) <= 8 * |s|
  {
    t == Fill(s, buffer, w, k)
  }

  /** When the loop of `from_buffer` stops, it has made `Iterations` passes. */
  lemma FromBufferExit(n: nat, maxBytes: nat, w: nat, k: nat, i: nat)
    requires 1 <= w && k == Iterations(n, maxBytes, w) && i <= k && !(Offset(i, w) < n * 8 && i < maxBytes)
    ensures i == k
  {
    IterationsFromStops(n, maxBytes, w, 0, i);
  }

  /** The body of `from_buffer`'s loop: byte `i` of `buffer` is written as the field at `offset`. */
  method WriteField(a: array<bv8>, ghost s: seq<bv8>, buffer: seq<bv8>, w: nat, i: nat, offset: nat)
    requires 1 <= w <= 7 && i < |buffer| && Offset(i + 1, w) <= 8 * |s|
    requires offset == Offset(i, w) && Filled(a[..], s, buffer, w, i)
    modifies a
    ensures Filled(a[..], s, buffer, w, i + 1)
  {
    var value := buffer[i];
    ghost var before := a[..];
    Write(a, offset, w, value);
    FillNext(s, buffer, w, i, before, a[..]);
  }

  /** The loop of `from_buffer`, over the bytes of the set it builds. */
  method FillLoop(result: array<bv8>, ghost s: seq<bv8>, buffer: seq<bv8>, maxBytes: nat, w: nat)
    requires 1 <= w <= 7 && result[..] == s && |s| == result.Length
    requires Iterations(result.Length, maxBytes, w) <= |buffer| && Offset(Iterations(result.Length, maxBytes, w), w) <= 8 * |s|
    modifies result
    ensures Filled(result[..], s, buffer, w, Iterations(result.Length, maxBytes, w))
  {
    var n := result.Length;
    ghost var k := Iterations(n, maxBytes, w);
    var offset := 0;
    var byte := 0;
    while offset < n * 8 && byte < maxBytes
      invariant byte <= k && offset == Offset(byte, w)
      invariant Offset(byte, w) <= 8 * |s|
      invariant Filled(result[..], s, buffer, w, byte)
      decreases maxBytes - byte
    {
      FromBufferStep(n, buffer, maxBytes, w, k, byte);
      WriteField(result, s, buffer, w, byte, offset);
      offset := offset + w;
      byte := byte + 1;
    }
    FromBufferExit(n, maxBytes, w, k, byte);
  }

  /** `BitSet<N>`: `N` bytes, updated in place by `set_bits`. */
  class BitSet {
    const bytes: array<bv8>

    /** `empty` (and `default`). */
    constructor Empty(n: nat)
      ensures fresh(bytes) && bytes[..] == Zeros(n)
    {
      bytes := new bv8[n](_ => 0);
    }

    /**
     * `from_buffer`: byte `i` of `buffer` becomes the `w`-bit field at offset
     * `i * w`, for as long as `i < max_bytes` and that offset lies in the set.
     * The source reads `buffer[i]` without a check and writes a straddling last
     * field past the end of the set; the preconditions rule out exactly those.
     */
    constructor FromBuffer(n: nat, buffer: seq<bv8>, maxBytes: nat, w: nat)
      requires 1 <= w <= 7
      requires Iterations(n, maxBytes, w) <= |buffer| && Offset(Iterations(n, maxBytes, w), w) <= 8 * n
      ensures fresh(bytes)
      ensures bytes[..] == Fill(Zeros(n), buffer, w, Iterations(n, maxBytes, w))
    {
      var result := new bv8[n](_ => 0);
      FillLoop(result, Zeros(n), buffer, maxBytes, w);
      bytes := result;
    }

    /** `set_bits`: the field at `offset`, `w` bits wide, now holds `value`'s low bits. */
    method SetBits(offset: nat, w: nat, value: bv8)
      requires 1 <= w <= 7 && offset + w <= 8 * bytes.Length
      modifies bytes
      ensures bytes[..] == WriteBits(old(bytes[..]), offset, w, value)
    {
      Write(bytes, offset, w, value);
    }

    /** `get_bits`: the field at `offset`, `count` bits wide; it never exceeds `count` bits. */
    function GetBits(offset: nat, count: nat): (r: bv8)
      requires 1 <= count <= 7 && offset < 8 * bytes.Length
      reads bytes
      ensures r <= Low(Small(count))
    {
      GetAtBound(bytes[..], offset / 8, Small(offset % 8), Small(count));
      ReadBits(bytes[..], offset, count)
    }
  }

  /** `get_bits` of a field that would run past the last byte: the missing low bits read as zero. */
  lemma GetBitsPastEnd(s: seq<bv8>, offset: nat, count: nat)
    requires 1 <= count <= 7 && offset < 8 * |s| && offset + count > 8 * |s| && offset % 8 + count > 8
    ensures ReadBits(s, offset, count) ==
      DecodeByte(s[|s| - 1], Small(offset % 8), 8 - Small(offset % 8)) << (Small(count) - (8 - Small(offset % 8)))
  {
    GetAtStraddleAtEnd(s, offset / 8, Small(offset % 8), Small(count));
  }
}
