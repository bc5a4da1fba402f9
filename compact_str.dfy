/**
 * Short strings packed five bits per character into one unsigned integer
 * (src/compact_str/mod.rs). Character `i` is the 5-bit slot at bits `5i..5i+4`;
 * a zero slot ends the string; codes 2..27 are the letters and 1 is the
 * underscore. The five integer widths of the source are one datatype, and the
 * raw integer is a `nat` read in base 32.
 */
module CompactStrs {

  import opened Wrappers

  /** An unsigned 8-bit value, the source's `u8`. */
  type byte = b: int | 0 <= b < 256

  /** The five instantiations `CompactStr8` .. `CompactStr128`. */
  datatype Width = W8 | W16 | W32 | W64 | W128

  /** The number of bits of the backing integer. */
  function Bits(w: Width): nat
  {
    match w
    case W8 => 8
    case W16 => 16
    case W32 => 32
    case W64 => 64
    case W128 => 128
  }

  /** One more than the largest value of the backing integer, `2^Bits(w)`. */
  function Limit(w: Width): nat
  {
    match w
    case W8 => 0x100
    case W16 => 0x1_0000
    case W32 => 0x1_0000_0000
    case W64 => 0x1_0000_0000_0000_0000
    case W128 => 0x1_0000_0000_0000_0000_0000_0000_0000_0000
  }

  /** `CAPACITY`: how many whole 5-bit slots fit in the backing integer. */
  function Capacity(w: Width): nat
  {
    Bits(w) / 5
  }

  /** `32^n`. */
  function Pow32(n: nat): (r: nat)
    ensures r >= 1
  {
    if n == 0 then 1 else 32 * Pow32(n - 1)
  }

  /** The capacities are 1, 3, 6, 12 and 25 slots, and that many slots always fit. */
  lemma CapacityValues(w: Width)
    ensures Capacity(W8) == 1 && Capacity(W16) == 3 && Capacity(W32) == 6
    ensures Capacity(W64) == 12 && Capacity(W128) == 25
    ensures 1 <= Capacity(w) && Pow32(Capacity(w)) <= Limit(w)
  {
    Pow32Values(3, 0x8000, 3, 0x8000, 6);
    Pow32Values(6, 0x4000_0000, 6, 0x4000_0000, 12);
    Pow32Values(12, 0x1000_0000_0000_0000, 12, 0x1000_0000_0000_0000, 24);
    Pow32Values(24, 0x100_0000_0000_0000_0000_0000_0000_0000, 1, 32, 25);
  }

  /** `Pow32Add` for known powers. */
  lemma Pow32Values(m: nat, a: nat, n: nat, b: nat, k: nat)
    requires Pow32(m) == a && Pow32(n) == b && k == m + n
    ensures Pow32(k) == a * b
  {
    Pow32Add(m, n);
  }

  /** `32^(m+n) == 32^m * 32^n`. */
  lemma {:induction false} Pow32Add(m: nat, n: nat)
    ensures Pow32(m + n) == Pow32(m) * Pow32(n)
  {
    if m > 0 {
      Pow32Add(m - 1, n);
      assert Pow32(m + n) == 32 * Pow32(m - 1 + n);
    }
  }

  /** A packed string: the width of its backing integer and that integer's value. */
  datatype CompactStr = CompactStr(width: Width, raw: nat)

  /** The message of `try_new`'s first error. */
  const TooManyChars: string := "String contains too many characters."

  /** The message of `try_new`'s second error. */
  const InvalidChars: string := "String contains invalid characters."

  /**
   * `encode_char`: lower- and upper-case letters to 2..27, space and underscore
   * to 1, anything else refused; zero, the terminator, is never produced.
   */
  function EncodeChar(v: byte): (r: Option<byte>)
    ensures r.Some? <==> ('a' as int <= v <= 'z' as int || 'A' as int <= v <= 'Z' as int || v == ' ' as int || v == '_' as int)
    ensures r.Some? ==> 1 <= r.value <= 27
  {
    if 'a' as int <= v <= 'z' as int then Some(v - 95)
    else if 'A' as int <= v <= 'Z' as int then Some(v - 63)
    else if v == ' ' as int || v == '_' as int then Some(1)
    else None
  }

  /** `unencode_char`, on the 5-bit values it is given: 0 to NUL, 1 to underscore, others shifted up to `A`.. */
  function UnencodeChar(v: byte): byte
    requires v < 32
  {
    if v == 0 then 0 else if v == 1 then '_' as int else v + 63
  }

  /** What a character reads back as: letters upper-cased, space and underscore as underscore. */
  function Sanitize(v: byte): byte
  {
    if 'a' as int <= v <= 'z' as int then v - 32
    else if 'A' as int <= v <= 'Z' as int then v
    else '_' as int
  }

  /** Encoding then decoding a character upper-cases it; decoding then encoding a code gives it back. */
  lemma EncodeUnencode(v: byte, code: byte)
    ensures EncodeChar(v).Some? ==> UnencodeChar(EncodeChar(v).value) == Sanitize(v)
    ensures 1 <= code <= 27 ==> EncodeChar(UnencodeChar(code)) == Some(code)
  {
  }

  /** Every byte of `s` is one `encode_char` accepts. */
  predicate ValidStr(s: seq<byte>)
  {
    forall i :: 0 <= i < |s| ==> EncodeChar(s[i]).Some?
  }

  /** The codes of a valid string. */
  function Codes(s: seq<byte>): (r: seq<byte>)
    requires ValidStr(s)
    ensures |r| == |s| && forall i :: 0 <= i < |s| ==> Some(r[i]) == EncodeChar(s[i])
  {
    seq(|s|, i requires 0 <= i < |s| => EncodeChar(s[i]).value)
  }

  /** Slot `i` of `v`, read by repeatedly dropping the lowest slot. */
  function Digit(v: nat, i: nat): (r: nat)
    ensures r < 32
  {
    if i == 0 then v % 32 else Digit(v / 32, i - 1)
  }

  /** `get_raw`: the 5-bit slot `idx`, `(raw >> 5*idx) & 0b1_1111`. */
  function GetRaw(c: CompactStr, idx: nat): (r: byte)
    requires idx < Capacity(c.width)
    ensures r < 32
  {
    (c.raw / Pow32(idx)) % 32
  }

  /** Dividing by 32 then by `32^i` is dividing by `32^(i+1)`. */
  lemma DivDiv32(v: nat, i: nat)
    ensures v / 32 / Pow32(i) == v / Pow32(i + 1)
  {
    var p := Pow32(i);
    var q := v / 32 / p;
    var r := v / 32 % p;
    assert v / 32 == q * p + r;
    assert v == 32 * (q * p + r) + v % 32;
    assert v == q * (32 * p) + (32 * r + v % 32);
    assert 0 <= 32 * r + v % 32 < 32 * p;
    DivUnique(v, 32 * p, q, 32 * r + v % 32);
  }

  lemma DivUnique(a: nat, m: nat, q: nat, r: nat)
    requires m > 0 && a == q * m + r && r < m
    ensures a / m == q
  {
    var q', r' := a / m, a % m;
    assert a == q' * m + r';
    if q' > q {
      MulGap(q', q, m);
    } else if q' < q {
      MulGap(q, q', m);
    }
  }

  lemma {:induction false} MulGap(q1: nat, q2: nat, m: nat)
    requires q1 > q2
    ensures q1 * m >= q2 * m + m
  {
    if q1 > q2 + 1 {
      MulGap(q1 - 1, q2, m);
    }
    assert q1 * m == (q1 - 1) * m + m;
  }

  /** Slot `i` is the value shifted right by `5i` and masked to five bits. */
  lemma {:induction false} DigitIsShift(v: nat, i: nat)
    ensures Digit(v, i) == (v / Pow32(i)) % 32
  {
    if i > 0 {
      DigitIsShift(v / 32, i - 1);
      DivDiv32(v, i - 1);
    }
  }

  /**
   * What `set_raw!` leaves in a slot that held `d` when writing `val`: it clears
   * only the slot's lowest bit (`1 << (idx*5)`) before OR-ing in the five low bits
   * of `val`, so the other four old bits survive.
   */
  function SetDigit(d: nat, val: byte): (r: nat)
    requires d < 32
    ensures r < 32
  {
    (((d as bv8) & 0x1E) | ((val as bv8) & 0x1F)) as nat
  }

  /** Writing into an empty slot stores the 5-bit value itself. */
  lemma SetDigitOnZero(val: byte)
    requires val < 32
    ensures SetDigit(0, val) == val
  {
  }

  /**
   * `set_raw!` on the slot `idx` of `v`: every other slot, and the bits above the
   * slots, are kept.
   */
  function SetRaw(v: nat, idx: nat, val: byte): nat
  {
    if idx == 0 then (v / 32) * 32 + SetDigit(v % 32, val)
    else SetRaw(v / 32, idx - 1, val) * 32 + v % 32
  }

  /** `set_raw!` changes slot `idx` as `SetDigit` says and no other slot. */
  lemma {:induction false} DigitOfSetRaw(v: nat, idx: nat, val: byte, i: nat)
    ensures Digit(SetRaw(v, idx, val), i) == if i == idx then SetDigit(Digit(v, idx), val) else Digit(v, i)
  {
    if idx == 0 {
      if i > 0 {
        assert SetRaw(v, idx, val) / 32 == v / 32;
      }
    } else {
      var w := SetRaw(v / 32, idx - 1, val);
      assert SetRaw(v, idx, val) / 32 == w && SetRaw(v, idx, val) % 32 == v % 32;
      if i > 0 {
        DigitOfSetRaw(v / 32, idx - 1, val, i - 1);
      }
    }
  }

  /** The integer whose slots, lowest first, are `cs`. */
  function Pack(cs: seq<byte>): nat
  {
    if cs == [] then 0 else cs[0] + 32 * Pack(cs[1..])
  }

  /** Every entry of `cs` fits a slot. */
  predicate Fits(cs: seq<byte>)
  {
    forall i :: 0 <= i < |cs| ==> cs[i] < 32
  }

  /** Every slot of zero is zero. */
  lemma {:induction false} DigitOfZero(i: nat)
    ensures Digit(0, i) == 0
  {
    if i > 0 {
      DigitOfZero(i - 1);
    }
  }

  /** A packed sequence of `n` slots is below `32^n` and has exactly those slots, then zeros. */
  lemma {:induction false} PackSlots(cs: seq<byte>, i: nat)
    requires Fits(cs)
    ensures Pack(cs) < Pow32(|cs|)
    ensures Digit(Pack(cs), i) == if i < |cs| then cs[i] else 0
  {
    if cs == [] {
      DigitOfZero(i);
    } else {
      PackSlots(cs[1..], if i == 0 then 0 else i - 1);
      assert Pack(cs) / 32 == Pack(cs[1..]) && Pack(cs) % 32 == cs[0];
    }
  }

  /** Appending a code to the packed prefix is `set_raw!` on the next, still empty, slot. */
  lemma {:induction false} PackSnoc(cs: seq<byte>, c: byte)
    requires Fits(cs) && c < 32
    ensures Pack(cs + [c]) == SetRaw(Pack(cs), |cs|, c)
  {
    if cs == [] {
      SetDigitOnZero(c);
      assert Pack([c]) == c + 32 * Pack([]);
    } else {
      PackSnoc(cs[1..], c);
      assert (cs + [c])[1..] == cs[1..] + [c];
      assert Pack(cs) / 32 == Pack(cs[1..]) && Pack(cs) % 32 == cs[0];
    }
  }

  /** The string's length: the first empty slot, counting from slot `i`, or the capacity. */
  function LengthFrom(c: CompactStr, i: nat): (n: nat)
    requires i <= Capacity(c.width)
    ensures i <= n <= Capacity(c.width)
    ensures forall j :: i <= j < n ==> GetRaw(c, j) != 0
    ensures n < Capacity(c.width) ==> GetRaw(c, n) == 0
    decreases Capacity(c.width) - i
  {
    if i == Capacity(c.width) then i
    else if GetRaw(c, i) == 0 then i
    else LengthFrom(c, i + 1)
  }

  /**
   * The length `len` computes: the index of the first empty slot, or the
   * capacity when every slot is in use.
   */
  function Length(c: CompactStr): (n: nat)
    ensures n <= Capacity(c.width)
    ensures forall j :: 0 <= j < n ==> GetRaw(c, j) != 0
    ensures n < Capacity(c.width) ==> GetRaw(c, n) == 0
  {
    LengthFrom(c, 0)
  }

  /** The length is the only count of leading non-empty slots followed by an empty one or the end. */
  lemma LengthUnique(c: CompactStr, n: nat)
    requires n <= Capacity(c.width)
    requires forall j :: 0 <= j < n ==> GetRaw(c, j) != 0
    requires n < Capacity(c.width) ==> GetRaw(c, n) == 0
    ensures Length(c) == n
  {
  }

  /** `len`: scans the slots for the first empty one. */
  method Len(c: CompactStr) returns (n: nat)
    ensures n == Length(c)
  {
    var i := 0;
    while i < Capacity(c.width)
      invariant i <= Capacity(c.width)
      invariant forall j :: 0 <= j < i ==> GetRaw(c, j) != 0
    {
      if GetRaw(c, i) == 0 {
        return i;
      }
      i := i + 1;
    }
    return Capacity(c.width);
  }

  /** `is_empty`: true exactly for the string of length zero. */
  function IsEmpty(c: CompactStr): (r: bool)
    ensures r <==> Length(c) == 0
  {
    CapacityValues(c.width);
    GetRaw(c, 0) == 0
  }

  /**
   * `get_ascii`: the character in slot `idx`, which must lie below the length.
   * A slot holding a letter code reads back as the upper-case letter, which
   * encodes to the same code.
   */
  function GetAscii(c: CompactStr, idx: nat): (r: byte)
    requires idx < Length(c)
    ensures r != 0
    ensures GetRaw(c, idx) <= 27 ==> EncodeChar(r) == Some(GetRaw(c, idx))
  {
    UnencodeChar(GetRaw(c, idx))
  }

  /**
   * `set_ascii`, returning the updated value: slot `idx`, which must lie below the
   * length, becomes `set_raw!` of the character's code; every other slot is kept
   * and so is the length.
   */
  function SetAscii(c: CompactStr, idx: nat, value: byte): (r: CompactStr)
    requires idx < Length(c) && EncodeChar(value).Some?
    ensures r.width == c.width
    ensures GetRaw(r, idx) == SetDigit(GetRaw(c, idx), EncodeChar(value).value)
    ensures forall j :: 0 <= j < Capacity(c.width) && j != idx ==> GetRaw(r, j) == GetRaw(c, j)
    ensures Length(r) == Length(c)
  {
    var r := CompactStr(c.width, SetRaw(c.raw, idx, EncodeChar(value).value));
    forall j | 0 <= j < Capacity(c.width)
      ensures GetRaw(r, j) == if j == idx then SetDigit(GetRaw(c, idx), EncodeChar(value).value) else GetRaw(c, j)
    {
      DigitIsShift(c.raw, j);
      DigitIsShift(r.raw, j);
      DigitIsShift(c.raw, idx);
      DigitOfSetRaw(c.raw, idx, EncodeChar(value).value, j);
    }
    LengthSameSlots(c, r);
    r
  }

  /** Two strings of one width whose slots are all zero or all non-zero together have the same length. */
  lemma LengthSameSlots(c: CompactStr, r: CompactStr)
    requires c.width == r.width
    requires forall j :: 0 <= j < Capacity(c.width) ==> (GetRaw(r, j) == 0 <==> GetRaw(c, j) == 0)
    ensures Length(r) == Length(c)
  {
    var a, b := Length(c), Length(r);
    if a < b {
      assert GetRaw(c, a) == 0;
    }
  }

  /**
   * `try_new`: too long a string is refused first, then the first byte
   * `encode_char` refuses; otherwise the codes are written slot by slot into a
   * zero integer with `set_raw!`.
   */
  method TryNew(w: Width, s: seq<byte>) returns (r: Result<CompactStr>)
    ensures |s| > Capacity(w) ==> r == Err(TooManyChars)
    ensures |s| <= Capacity(w) && !ValidStr(s) ==> r == Err(InvalidChars)
    ensures |s| <= Capacity(w) && ValidStr(s) ==> r == Ok(CompactStr(w, Pack(Codes(s))))
  {
    if |s| > Capacity(w) {
      return Err(TooManyChars);
    }
    var result: nat := 0;
    var i := 0;
    while i < |s|
      invariant 0 <= i <= |s|
      invariant ValidStr(s[..i])
      invariant result == Pack(Codes(s[..i]))
    {
      match EncodeChar(s[i]) {
        case Some(val) =>
          assert Codes(s[..i + 1]) == Codes(s[..i]) + [val];
          PackSnoc(Codes(s[..i]), val);
          result := SetRaw(result, i, val);
          i := i + 1;
        case None =>
          return Err(InvalidChars);
      }
    }
    assert s[..i] == s;
    return Ok(CompactStr(w, result));
  }

  /** `new`: `try_new` for inputs it accepts (the source panics on the others). */
  method New(w: Width, s: seq<byte>) returns (c: CompactStr)
    requires |s| <= Capacity(w) && ValidStr(s)
    ensures c == CompactStr(w, Pack(Codes(s)))
  {
    var r := TryNew(w, s);
    match r {
      case Ok(v) => c := v;
      case Err(_) => assert false;
    }
  }

  /**
   * A raw value `try_from_raw` accepts: every slot below the length holds a code
   * of at most 27 and every slot from the length up to the capacity is empty.
   * The bits above the last whole slot are not examined.
   */
  predicate Canonical(c: CompactStr)
  {
    forall i :: 0 <= i < Capacity(c.width) ==> GetRaw(c, i) <= (if i < Length(c) then 27 else 0)
  }

  /** `try_from_raw`: the raw value, if it is canonical. */
  method TryFromRaw(w: Width, value: nat) returns (r: Option<CompactStr>)
    requires value < Limit(w)
    ensures r.Some? <==> Canonical(CompactStr(w, value))
    ensures r.Some? ==> r.value == CompactStr(w, value)
  {
    var result := CompactStr(w, value);
    var len := Len(result);
    var i := 0;
    while i < Capacity(w)
      invariant i <= Capacity(w)
      invariant forall j :: 0 <= j < i ==> GetRaw(result, j) <= (if j < len then 27 else 0)
    {
      var raw := GetRaw(result, i);
      if raw > (if i < len then 27 else 0) {
        return None;
      }
      i := i + 1;
    }
    return Some(result);
  }

  /** `from_raw`: `try_from_raw` for values it accepts (the source panics on the others). */
  method FromRaw(w: Width, value: nat) returns (c: CompactStr)
    requires value < Limit(w) && Canonical(CompactStr(w, value))
    ensures c == CompactStr(w, value)
  {
    var r := TryFromRaw(w, value);
    c := r.value;
  }

  /** The characters `to_str` collects: one `get_ascii` per slot below the length. */
  function Decoded(c: CompactStr): (r: seq<byte>)
    ensures |r| == Length(c)
    ensures forall i :: 0 <= i < |r| ==> r[i] == GetAscii(c, i)
  {
    seq(Length(c), i requires 0 <= i < Length(c) => GetAscii(c, i))
  }

  /** `to_str`: appends `get_ascii` of each slot below the length. */
  method ToStr(c: CompactStr) returns (r: seq<byte>)
    ensures r == Decoded(c)
  {
    var n := Len(c);
    r := [];
    for i := 0 to n
      invariant |r| == i && forall j :: 0 <= j < i ==> r[j] == GetAscii(c, j)
    {
      r := r + [GetAscii(c, i)];
    }
  }

  /**
   * What `try_new` builds from an accepted string: it fits the integer, its
   * length is the string's, it is canonical (so `try_from_raw` of its raw value
   * gives it back), and it reads back as the string upper-cased with spaces as
   * underscores.
   */
  lemma TryNewReadsBack(w: Width, s: seq<byte>)
    requires |s| <= Capacity(w) && ValidStr(s)
    ensures CompactStr(w, Pack(Codes(s))).raw < Limit(w)
    ensures Length(CompactStr(w, Pack(Codes(s)))) == |s|
    ensures Canonical(CompactStr(w, Pack(Codes(s))))
    ensures Decoded(CompactStr(w, Pack(Codes(s)))) == seq(|s|, i requires 0 <= i < |s| => Sanitize(s[i]))
  {
    var cs := Codes(s);
    var c := CompactStr(w, Pack(cs));
    PackedSlots(w, cs);
    assert forall j :: 0 <= j < |s| ==> cs[j] >= 1;
    LengthUnique(c, |s|);
    forall i | 0 <= i < |s|
      ensures GetAscii(c, i) == Sanitize(s[i])
    {
      EncodeUnencode(s[i], cs[i]);
    }
  }

  /** Packed codes fit the backing integer and each slot reads back its code, zero past the end. */
  lemma PackedSlots(w: Width, cs: seq<byte>)
    requires |cs| <= Capacity(w) && Fits(cs)
    ensures Pack(cs) < Limit(w)
    ensures forall i :: 0 <= i < Capacity(w) ==> GetRaw(CompactStr(w, Pack(cs)), i) == if i < |cs| then cs[i] else 0
  {
    var c := CompactStr(w, Pack(cs));
    forall i | 0 <= i < Capacity(w)
      ensures GetRaw(c, i) == if i < |cs| then cs[i] else 0
    {
      DigitIsShift(c.raw, i);
      PackSlots(cs, i);
    }
    PackSlots(cs, 0);
    CapacityValues(w);
    Pow32Monotone(|cs|, Capacity(w));
  }

  lemma {:induction false} Pow32Monotone(m: nat, n: nat)
    requires m <= n
    ensures Pow32(m) <= Pow32(n)
  {
    if m < n {
      Pow32Monotone(m, n - 1);
    }
  }

  /** Two numbers below `32^n` with the same `n` lowest slots are equal. */
  lemma {:induction false} SlotsDetermine(a: nat, b: nat, n: nat)
    requires a < Pow32(n) && b < Pow32(n)
    requires forall i :: 0 <= i < n ==> Digit(a, i) == Digit(b, i)
    ensures a == b
  {
    if n > 0 {
      forall i | 0 <= i < n - 1
        ensures Digit(a / 32, i) == Digit(b / 32, i)
      {
        assert Digit(a, i + 1) == Digit(b, i + 1);
      }
      assert Digit(a, 0) == Digit(b, 0);
      SlotsDetermine(a / 32, b / 32, n - 1);
    }
  }

  /**
   * The converse round trip: a canonical value with nothing above its last slot
   * is what `try_new` builds from its own `to_str`.
   */
  lemma DecodedReencodes(c: CompactStr)
    requires Canonical(c) && c.raw < Pow32(Capacity(c.width))
    ensures |Decoded(c)| <= Capacity(c.width) && ValidStr(Decoded(c))
    ensures Pack(Codes(Decoded(c))) == c.raw
  {
    var t := Decoded(c);
    forall i | 0 <= i < |t|
      ensures EncodeChar(t[i]) == Some(GetRaw(c, i))
    {
    }
    var cs := Codes(t);
    assert Fits(cs);
    forall i | 0 <= i < Capacity(c.width)
      ensures Digit(Pack(cs), i) == Digit(c.raw, i)
    {
      PackSlots(cs, i);
      DigitIsShift(c.raw, i);
    }
    PackSlots(cs, 0);
    Pow32Monotone(|cs|, Capacity(c.width));
    SlotsDetermine(Pack(cs), c.raw, Capacity(c.width));
  }

  /**
   * Because `set_raw!` clears only the lowest bit of the slot, `set_ascii` reads
   * back the character written exactly when the old slot's upper four bits are
   * all among the new code's bits; in particular it always does on a slot whose
   * code is 0 or 1.
   */
  lemma SetAsciiReadsBackIff(c: CompactStr, idx: nat, value: byte)
    requires idx < Length(c) && EncodeChar(value).Some?
    ensures GetAscii(SetAscii(c, idx, value), idx) == Sanitize(value) <==>
      ((GetRaw(c, idx) as bv8) & 0x1E) & !(EncodeChar(value).value as bv8) == 0
  {
    var code := EncodeChar(value).value;
    EncodeUnencode(value, code);
    var nd := GetRaw(SetAscii(c, idx, value), idx);
    assert nd == SetDigit(GetRaw(c, idx), code);
    UnencodeInjective(nd, code);
    SetDigitKeepsCode(GetRaw(c, idx), code);
  }

  lemma SetDigitKeepsCode(d: nat, code: byte)
    requires d < 32 && code < 32
    ensures SetDigit(d, code) == code <==> ((d as bv8) & 0x1E) & !(code as bv8) == 0
  {
    var merged := ((d as bv8) & 0x1E) | ((code as bv8) & 0x1F);
    assert SetDigit(d, code) == merged as nat;
    MergeKeepsCode(d as bv8, code as bv8);
    ByteRoundTrip(merged, code);
  }

  /** A byte equals a number below 256 exactly when it is that number's byte. */
  lemma ByteRoundTrip(x: bv8, c: byte)
    requires x < 32 && c < 32
    ensures x as nat == c <==> x == c as bv8
  {
    assert (c as bv8) as nat == c;
  }

  lemma UnencodeInjective(a: byte, b: byte)
    requires a < 32 && b < 32
    ensures UnencodeChar(a) == UnencodeChar(b) <==> a == b
  {
  }

  lemma MergeKeepsCode(d: bv8, v: bv8)
    requires d < 32 && v < 32
    ensures ((d & 0x1E) | (v & 0x1F)) == v <==> (d & 0x1E) & !v == 0
  {
  }

  /** Overwriting `C` (code 4) with `A` (code 2) leaves code 6, which reads back as `E`. */
  lemma SetAsciiOverwriteExample()
    ensures Length(CompactStr(W8, 4)) == 1
    ensures GetAscii(SetAscii(CompactStr(W8, 4), 0, 'A' as int), 0) == 'E' as int
  {
    assert GetRaw(CompactStr(W8, 4), 0) == 4;
    LengthUnique(CompactStr(W8, 4), 1);
  }

  /** The empty string packs to zero and has length zero. */
  lemma EmptyExample()
    ensures Pack(Codes([])) == 0 && Length(CompactStr(W8, 0)) == 0
  {
    LengthUnique(CompactStr(W8, 0), 0);
  }

  /** `abc` in a 16-bit string packs to 4194, which is `0b00100_00011_00010`, and reads back as `ABC`. */
  lemma ShortExample()
    ensures Pack(Codes(['a' as int, 'b' as int, 'c' as int])) == 4194
    ensures Decoded(CompactStr(W16, 4194)) == ['A' as int, 'B' as int, 'C' as int]
  {
    var s: seq<byte> := ['a' as int, 'b' as int, 'c' as int];
    assert Codes(s) == [2, 3, 4];
    assert Pack([2, 3, 4]) == 2 + 32 * Pack([3, 4]);
    assert Pack([3, 4]) == 3 + 32 * Pack([4]);
    assert Pack([4]) == 4 + 32 * Pack([]);
    TryNewReadsBack(W16, s);
  }
}
