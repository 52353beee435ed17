/**
 * The decoder of a DDM allocation dump (AllocationsParser.java).
 *
 * The specification half states the wire layout as functions of the byte
 * sequence: a 15-byte big-endian header, three string tables at
 * `offsetToStrings`, then `numEntries` entries starting at
 * `messageHdrLen`, each entry and each stack frame padded out to the
 * lengths the header declares. The imperative half (`ByteBuffer`,
 * `DescriptorToDot`, `GetString`, `ReadStringTable`, `Parse`) follows the
 * Java code's cursor moves and loops and is proved to compute exactly the
 * specification, error cases included.
 */
module AllocationsParser {
  import opened JavaLang

  /** The exceptions the Java decoder can end with. */
  datatype DecodeError =
    | BufferUnderflow                       // a read past the end of the buffer
    | IllegalPosition(position: int)        // ByteBuffer.position outside [0, limit]
    | NegativeArraySize(size: int)          // a negative string length
    | IndexOutOfBounds(index: int, length: int)  // a string-table index past the table
    | SurrogateCodeUnit(unit: int)          // an unpaired surrogate, which a Dafny char cannot hold

  /** One decoded allocation, as `parse` would print it. */
  datatype AllocEntry = AllocEntry(
    allocNumber: int,
    allocatedClass: string,
    size: int,
    threadId: int,
    stack: seq<string>)

  /** An octet of the dump. */
  type Byte = x: int | 0 <= x < 0x100

  // ---------------------------------------------------------------------
  // Big-endian primitive reads

  function U8At(d: seq<Byte>, p: nat): (v: int)
    requires p + 1 <= |d|
    ensures 0 <= v < 0x100
  {
    d[p] as int
  }

  /** A signed byte, as ByteBuffer.get returns it. */
  function I8At(d: seq<Byte>, p: nat): (v: int)
    requires p + 1 <= |d|
    ensures -0x80 <= v < 0x80
  {
    var u := U8At(d, p);
    if u >= 0x80 then u - 0x100 else u
  }

  function U16At(d: seq<Byte>, p: nat): (v: int)
    requires p + 2 <= |d|
    ensures 0 <= v < 0x1_0000
  {
    U8At(d, p) * 0x100 + U8At(d, p + 1)
  }

  /** The `(short)` reinterpretation of an unsigned 16-bit value. */
  function ToShort(u: int): (v: int)
    requires 0 <= u < 0x1_0000
    ensures -0x8000 <= v < 0x8000 && v % 0x1_0000 == u
  {
    if u >= 0x8000 then u - 0x1_0000 else u
  }

  /** A signed short, as ByteBuffer.getShort returns it. */
  function I16At(d: seq<Byte>, p: nat): int
    requires p + 2 <= |d|
  {
    ToShort(U16At(d, p))
  }

  /** A signed int, as ByteBuffer.getInt returns it. */
  function I32At(d: seq<Byte>, p: nat): (v: int)
    requires p + 4 <= |d|
    ensures -0x8000_0000 <= v < 0x8000_0000
  {
    var u := U16At(d, p) * 0x1_0000 + U16At(d, p + 2);
    if u >= 0x8000_0000 then u - 0x1_0000_0000 else u
  }

  /** `x & 0xff` on a byte widened to int. */
  function Mask8(x: int): int { x % 0x100 }

  /** `x & 0xffff` on a short widened to int. */
  function Mask16(x: int): int { x % 0x1_0000 }

  lemma MaskedByteIsUnsigned(d: seq<Byte>, p: nat)
    requires p + 1 <= |d|
    ensures Mask8(I8At(d, p)) == U8At(d, p)
  {
  }

  lemma MaskedShortIsUnsigned(d: seq<Byte>, p: nat)
    requires p + 2 <= |d|
    ensures Mask16(I16At(d, p)) == U16At(d, p)
  {
  }

  // ---------------------------------------------------------------------
  // The cursor

  /** java.nio.ByteBuffer in big-endian order: the bytes and a position. */
  class ByteBuffer {
    const data: seq<Byte>
    var position: nat

    ghost predicate Valid()
      reads this
    {
      position <= |data|
    }

    constructor Wrap(bytes: seq<Byte>)
      ensures Valid() && data == bytes && position == 0
    {
      data := bytes;
      position := 0;
    }

    method Get() returns (r: Result<int, DecodeError>)
      requires Valid()
      modifies this
      ensures Valid()
      ensures old(position) + 1 <= |data| ==> r == Ok(I8At(data, old(position))) && position == old(position) + 1
      ensures old(position) + 1 > |data| ==> r == Err(BufferUnderflow) && position == old(position)
    {
      if position + 1 > |data| {
        return Err(BufferUnderflow);
      }
      r := Ok(I8At(data, position));
      position := position + 1;
    }

    method GetShort() returns (r: Result<int, DecodeError>)
      requires Valid()
      modifies this
      ensures Valid()
      ensures old(position) + 2 <= |data| ==> r == Ok(I16At(data, old(position))) && position == old(position) + 2
      ensures old(position) + 2 > |data| ==> r == Err(BufferUnderflow) && position == old(position)
    {
      if position + 2 > |data| {
        return Err(BufferUnderflow);
      }
      r := Ok(I16At(data, position));
      position := position + 2;
    }

    /** getChar: an unsigned UTF-16 code unit. */
    method GetChar() returns (r: Result<int, DecodeError>)
      requires Valid()
      modifies this
      ensures Valid()
      ensures old(position) + 2 <= |data| ==> r == Ok(U16At(data, old(position))) && position == old(position) + 2
      ensures old(position) + 2 > |data| ==> r == Err(BufferUnderflow) && position == old(position)
    {
      if position + 2 > |data| {
        return Err(BufferUnderflow);
      }
      r := Ok(U16At(data, position));
      position := position + 2;
    }

    method GetInt() returns (r: Result<int, DecodeError>)
      requires Valid()
      modifies this
      ensures Valid()
      ensures old(position) + 4 <= |data| ==> r == Ok(I32At(data, old(position))) && position == old(position) + 4
      ensures old(position) + 4 > |data| ==> r == Err(BufferUnderflow) && position == old(position)
    {
      if position + 4 > |data| {
        return Err(BufferUnderflow);
      }
      r := Ok(I32At(data, position));
      position := position + 4;
    }

    /** position(int): any position from 0 to the limit; anything else is refused. */
    method SetPosition(p: int) returns (r: Result<(), DecodeError>)
      requires Valid()
      modifies this
      ensures Valid()
      ensures 0 <= p <= |data| ==> r.Ok? && position == p
      ensures !(0 <= p <= |data|) ==> r == Err(IllegalPosition(p)) && position == old(position)
    {
      if p < 0 || p > |data| {
        return Err(IllegalPosition(p));
      }
      position := p;
      r := Ok(());
    }
  }

  // ---------------------------------------------------------------------
  // Type descriptors

  /** `n` copies of "[" (an array descriptor prefix). */
  function Opening(n: nat): (s: string)
    ensures |s| == n && forall i | 0 <= i < n :: s[i] == '['
  {
    if n == 0 then "" else "[" + Opening(n - 1)
  }

  /** `n` copies of "[]" (the dotted array suffix). */
  function Brackets(n: nat): (s: string)
    ensures |s| == 2 * n
  {
    if n == 0 then "" else Brackets(n - 1) + "[]"
  }

  /** Brackets(n) is "[]" repeated n times. */
  lemma {:induction false} BracketsPairs(n: nat)
    ensures forall i | 0 <= i < n :: Brackets(n)[2 * i] == '[' && Brackets(n)[2 * i + 1] == ']'
  {
    if n > 0 {
      BracketsPairs(n - 1);
    }
  }

  predicate IsClassDescriptor(s: string) {
    |s| >= 2 && s[0] == 'L' && s[|s| - 1] == ';'
  }

  /** String.replace(char, char): every `from` becomes `to`, nothing else changes. */
  function ReplaceChar(s: string, from: char, to: char): (r: string)
    ensures |r| == |s|
  {
    if s == [] then [] else [if s[0] == from then to else s[0]] + ReplaceChar(s[1..], from, to)
  }

  /** Position by position, replace swaps `from` for `to` and keeps every other char. */
  lemma {:induction false} ReplaceCharAt(s: string, from: char, to: char)
    ensures forall i | 0 <= i < |s| :: ReplaceChar(s, from, to)[i] == if s[i] == from then to else s[i]
  {
    if s != [] {
      ReplaceCharAt(s[1..], from, to);
    }
  }

  /** The Java name of a one-letter primitive type descriptor; any other string is kept. */
  function PrimitiveName(s: string): string {
    if |s| != 1 then s
    else match s[0]
      case 'C' => "char"
      case 'B' => "byte"
      case 'Z' => "boolean"
      case 'S' => "short"
      case 'I' => "int"
      case 'J' => "long"
      case 'F' => "float"
      case 'D' => "double"
      case _ => s
  }

  /** The dotted name of a descriptor without array dimensions; anything unrecognised is kept as it is. */
  function ElementName(s: string): string {
    if IsClassDescriptor(s) then ReplaceChar(s[1..|s| - 1], '/', '.') else PrimitiveName(s)
  }

  /** What descriptorToDot computes: each leading '[' becomes one trailing "[]". */
  function DottedName(s: string): string {
    if |s| > 0 && s[0] == '[' then DottedName(s[1..]) + "[]" else ElementName(s)
  }

  /** Without a leading '[' the dotted name is the element name. */
  lemma ElementDottedName(s: string)
    requires !StartsWith(s, "[")
    ensures DottedName(s) == ElementName(s)
  {
    assert |s| > 0 ==> s[..1] == [s[0]];
  }

  /** Strips "L...;" and turns '/' into '.', or converts a basic type letter. */
  method ElementToDot(element: string) returns (str: string)
    ensures str == ElementName(element)
  {
    str := element;
    var len := |str|;
    if len >= 2 && str[0] == 'L' && str[len - 1] == ';' {
      str := str[1..len - 1];
      str := ReplaceChar(str, '/', '.');
    } else {
      // convert the basic types
      str := PrimitiveName(str);
    }
  }

  /** Appends one "[]" per array dimension. */
  method AppendArrayPart(name: string, dims: nat) returns (str: string)
    ensures str == name + Brackets(dims)
  {
    str := name;
    var a := 0;
    while a < dims
      invariant 0 <= a <= dims
      invariant str == name + Brackets(a)
    {
      str := str + "[]";
      a := a + 1;
    }
  }

  method DescriptorToDot(descriptor: string) returns (str: string)
    ensures str == DottedName(descriptor)
  {
    str := descriptor;
    // count the number of arrays
    var dims := 0;
    while StartsWith(str, "[")
      invariant 0 <= dims <= |descriptor|
      invariant str == descriptor[dims..]
      invariant forall k | 0 <= k < dims :: descriptor[k] == '['
      decreases |str|
    {
      assert str[0] == str[..1][0] == '[';
      str := str[1..];
      dims := dims + 1;
    }
    assert descriptor == Opening(dims) + str;
    ArrayDescriptorName(dims, str);
    str := ElementToDot(str);
    // now add the array part
    str := AppendArrayPart(str, dims);
  }

  /** Every leading '[' of a descriptor becomes exactly one trailing "[]". */
  lemma {:induction false} ArrayDescriptorName(n: nat, element: string)
    requires !StartsWith(element, "[")
    ensures DottedName(Opening(n) + element) == ElementName(element) + Brackets(n)
  {
    var s := Opening(n) + element;
    if n == 0 {
      assert s == element;
      ElementDottedName(element);
    } else {
      assert s[0] == '[' && s[1..] == Opening(n - 1) + element;
      assert DottedName(s) == DottedName(s[1..]) + "[]";
      ArrayDescriptorName(n - 1, element);
      assert Brackets(n) == Brackets(n - 1) + "[]";
    }
  }

  /** "Lpkg/Name;" loses its 'L' and ';' and every '/' becomes '.'. */
  lemma ClassDescriptorName(name: string)
    ensures DottedName("L" + name + ";") == ReplaceChar(name, '/', '.')
  {
    var s := "L" + name + ";";
    assert s[1..|s| - 1] == name;
  }

  /** The eight primitive letters, alone or as array elements. */
  lemma PrimitiveDescriptorNames()
    ensures DottedName("C") == "char" && DottedName("B") == "byte"
    ensures DottedName("Z") == "boolean" && DottedName("S") == "short"
    ensures DottedName("I") == "int" && DottedName("J") == "long"
    ensures DottedName("F") == "float" && DottedName("D") == "double"
    ensures DottedName("[[I") == "int[][]"
  {
    assert "[[I"[2..] == "I";
  }

  /** A '/' survives exactly when the element is not an "L...;" descriptor. */
  lemma SlashOnlyOutsideClassDescriptors(s: string)
    ensures '/' in ElementName(s) <==> !IsClassDescriptor(s) && '/' in s
  {
    if IsClassDescriptor(s) {
      ReplaceCharAt(s[1..|s| - 1], '/', '.');
    }
  }

  // ---------------------------------------------------------------------
  // Strings and string tables

  /** A UTF-16 code unit. */
  type CodeUnit = u: int | 0 <= u < 0x1_0000

  predicate IsSurrogate(u: CodeUnit) { 0xD800 <= u < 0xE000 }
  predicate IsHighSurrogate(u: CodeUnit) { 0xD800 <= u < 0xDC00 }
  predicate IsLowSurrogate(u: CodeUnit) { 0xDC00 <= u < 0xE000 }

  /** A surrogate with no partner: a high one not followed by a low one, or a low one not preceded by a high one. */
  predicate Unpaired(us: seq<CodeUnit>, k: nat)
    requires k < |us|
  {
    (IsHighSurrogate(us[k]) && !(k + 1 < |us| && IsLowSurrogate(us[k + 1])))
    || (IsLowSurrogate(us[k]) && !(0 < k && IsHighSurrogate(us[k - 1])))
  }

  /** The `n` UTF-16 units stored from `p` on. */
  function Units(d: seq<Byte>, p: nat, n: nat): (us: seq<CodeUnit>)
    requires p + 2 * n <= |d|
    ensures |us| == n && forall k | 0 <= k < n :: us[k] == U16At(d, p + 2 * k)
  {
    seq(n, k requires 0 <= k < n => U16At(d, p + 2 * k))
  }

  /** The supplementary character a high and a low surrogate encode together. */
  function PairChar(hi: CodeUnit, lo: CodeUnit): (c: char)
    requires IsHighSurrogate(hi) && IsLowSurrogate(lo)
    ensures CharUnits(c) == [hi, lo]
  {
    var v := (hi - 0xD800) * 0x400 + (lo - 0xDC00);
    assert v / 0x400 == hi - 0xD800 && v % 0x400 == lo - 0xDC00;
    (0x1_0000 + v) as char
  }

  /** A decoded character in front of a decoded rest; an error in the rest is kept. */
  function PrependChar(c: char, rest: Result<string, DecodeError>): Result<string, DecodeError> {
    match rest
    case Ok(s) => Ok([c] + s)
    case Err(e) => Err(e)
  }

  /**
   * `new String(char[])`: a high surrogate followed by a low one becomes
   * one supplementary character, any other unit one character. A Dafny
   * string cannot hold an unpaired surrogate, so one fails the decode.
   */
  function UnitsToString(us: seq<CodeUnit>): (r: Result<string, DecodeError>)
    ensures r.Ok? ==> |r.value| <= |us|
  {
    if us == [] then Ok("")
    else if 1 < |us| && IsHighSurrogate(us[0]) && IsLowSurrogate(us[1]) then
      PrependChar(PairChar(us[0], us[1]), UnitsToString(us[2..]))
    else if IsSurrogate(us[0]) then Err(SurrogateCodeUnit(us[0]))
    else PrependChar(us[0] as char, UnitsToString(us[1..]))
  }

  /** A decoded string is made of exactly the units read: its UTF-16 encoding is `us`. */
  lemma {:induction false} UnitsToStringChars(us: seq<CodeUnit>)
    ensures UnitsToString(us).Ok? ==> Utf16(UnitsToString(us).value) == us
  {
    var r := UnitsToString(us);
    if r.Ok? && us != [] {
      assert Utf16(r.value) == CharUnits(r.value[0]) + Utf16(r.value[1..]);
      if 1 < |us| && IsHighSurrogate(us[0]) && IsLowSurrogate(us[1]) {
        UnitsToStringChars(us[2..]);
        assert us == [us[0], us[1]] + us[2..];
      } else {
        UnitsToStringChars(us[1..]);
        assert us == [us[0]] + us[1..];
      }
    }
  }

  /** The decode fails exactly when some surrogate is unpaired. */
  lemma {:induction false} UnitsToStringFails(us: seq<CodeUnit>)
    ensures UnitsToString(us).Err? <==> exists k | 0 <= k < |us| :: Unpaired(us, k)
  {
    if us == [] {
    } else if 1 < |us| && IsHighSurrogate(us[0]) && IsLowSurrogate(us[1]) {
      var rest := us[2..];
      UnitsToStringFails(rest);
      assert !Unpaired(us, 0) && !Unpaired(us, 1);
      forall k | 2 <= k < |us|
        ensures Unpaired(us, k) <==> Unpaired(rest, k - 2)
      {
        assert us[k] == rest[k - 2];
        if k + 1 < |us| { assert us[k + 1] == rest[k - 1]; }
      }
      if UnitsToString(us).Err? {
        var j :| 0 <= j < |rest| && Unpaired(rest, j);
        assert Unpaired(us, j + 2);
      }
    } else if IsSurrogate(us[0]) {
      assert Unpaired(us, 0);
    } else {
      var rest := us[1..];
      UnitsToStringFails(rest);
      assert !Unpaired(us, 0);
      forall k | 1 <= k < |us|
        ensures Unpaired(us, k) <==> Unpaired(rest, k - 1)
      {
        assert us[k] == rest[k - 1];
        if k + 1 < |us| { assert us[k + 1] == rest[k]; }
      }
      if UnitsToString(us).Err? {
        var j :| 0 <= j < |rest| && Unpaired(rest, j);
        assert Unpaired(us, j + 1);
      }
    }
  }

  /** Every unit of a string's UTF-16 encoding is a code unit. */
  lemma {:induction false} Utf16Units(s: string)
    ensures forall k | 0 <= k < |Utf16(s)| :: 0 <= Utf16(s)[k] < 0x1_0000
  {
    if s != [] {
      Utf16Units(s[1..]);
    }
  }

  /** The UTF-16 encoding of a string, as code units. */
  function StringUnits(s: string): (us: seq<CodeUnit>)
    ensures us == Utf16(s)
  {
    Utf16Units(s);
    seq(|Utf16(s)|, k requires 0 <= k < |Utf16(s)| => Utf16(s)[k])
  }

  /** Decoding the UTF-16 encoding of any string gives the string back. */
  lemma {:induction false} UnitsToStringOfUtf16(s: string)
    ensures UnitsToString(StringUnits(s)) == Ok(s)
  {
    if s != [] {
      var us := StringUnits(s);
      var u0 := CharUnits(s[0]);
      assert us == u0 + Utf16(s[1..]);
      UnitsToStringOfUtf16(s[1..]);
      if |u0| == 2 {
        assert us[2..] == StringUnits(s[1..]);
        assert CharUnits(PairChar(us[0], us[1])) == u0;
        Utf16Injective([PairChar(us[0], us[1])], [s[0]]);
      } else {
        assert us[1..] == StringUnits(s[1..]);
      }
      assert s == [s[0]] + s[1..];
    }
  }

  /** The big-endian bytes of a sequence of UTF-16 units. */
  function EncodeUnits(us: seq<CodeUnit>): (d: seq<Byte>)
    ensures |d| == 2 * |us|
  {
    if us == [] then []
    else
      var hi: Byte := us[0] / 0x100;
      var lo: Byte := us[0] % 0x100;
      [hi, lo] + EncodeUnits(us[1..])
  }

  /** Unit k of the encoding sits at bytes 2k and 2k + 1. */
  lemma {:induction false} EncodeUnitsAt(us: seq<CodeUnit>)
    ensures forall k | 0 <= k < |us| :: U16At(EncodeUnits(us), 2 * k) == us[k]
  {
    if us != [] {
      EncodeUnitsAt(us[1..]);
      var d := EncodeUnits(us);
      forall k | 0 <= k < |us|
        ensures U16At(d, 2 * k) == us[k]
      {
        if k > 0 {
          assert d[2 * k] == EncodeUnits(us[1..])[2 * (k - 1)];
          assert d[2 * k + 1] == EncodeUnits(us[1..])[2 * (k - 1) + 1];
          assert us[k] == us[1..][k - 1];
        }
      }
    }
  }

  /** getString(buf, len) with the cursor at `p`. */
  function StringAt(d: seq<Byte>, p: nat, len: int): (r: Result<string, DecodeError>)
    ensures r.Ok? ==> 0 <= len && p + 2 * len <= |d|
  {
    if len < 0 then Err(NegativeArraySize(len))
    else if p + 2 * len > |d| then Err(BufferUnderflow)
    else UnitsToString(Units(d, p, len))
  }

  /** A string getString decodes is made of exactly the units it read, so its Java length is `len`. */
  lemma StringAtUnits(d: seq<Byte>, p: nat, len: int)
    ensures StringAt(d, p, len).Ok? ==> Utf16(StringAt(d, p, len).value) == Units(d, p, len)
    ensures StringAt(d, p, len).Ok? ==> JavaLength(StringAt(d, p, len).value) == len
  {
    if 0 <= len && p + 2 * len <= |d| {
      UnitsToStringChars(Units(d, p, len));
    }
  }

  /** getString reads back every string from its big-endian UTF-16 encoding. */
  lemma StringAtEncodeUnits(s: string)
    ensures StringAt(EncodeUnits(StringUnits(s)), 0, JavaLength(s)) == Ok(s)
  {
    var us := StringUnits(s);
    EncodeUnitsAt(us);
    assert Units(EncodeUnits(us), 0, |us|) == us;
    UnitsToStringOfUtf16(s);
  }

  /** getString of the units D835 DCB3 is the single character U+1D4B3, whose Java length is 2. */
  lemma StringAtSurrogatePair()
    ensures StringAt([0xD8, 0x35, 0xDC, 0xB3], 0, 2) == Ok("\U{1D4B3}")
  {
    var us := Units([0xD8, 0x35, 0xDC, 0xB3], 0, 2);
    assert us == [0xD835, 0xDCB3];
    assert PairChar(0xD835, 0xDCB3) == '\U{1D4B3}';
    assert UnitsToString(us[2..]) == Ok("");
    assert UnitsToString(us) == PrependChar('\U{1D4B3}', Ok(""));
    assert ['\U{1D4B3}'] + "" == "\U{1D4B3}";
  }

  /** A 4-byte length, then that many UTF-16 units; the string and the cursor after it. */
  function LengthPrefixedString(d: seq<Byte>, p: nat): (r: Result<(string, nat), DecodeError>)
    ensures r.Ok? ==> p + 4 <= |d| && r.value.1 == p + 4 + 2 * I32At(d, p) <= |d|
  {
    if p + 4 > |d| then Err(BufferUnderflow)
    else
      var s :- StringAt(d, p + 4, I32At(d, p));
      Ok((s, p + 4 + 2 * I32At(d, p)))
  }

  /**
   * The raw strings of readStringTable with the cursor at `p`: `count`
   * strings, each a 4-byte length and that many UTF-16 units. The result
   * is the strings and the cursor after them.
   */
  function ReadTable(d: seq<Byte>, p: nat, count: nat): (r: Result<(seq<string>, nat), DecodeError>)
    requires p <= |d|
    ensures r.Ok? ==> |r.value.0| == count && p + 4 * count <= r.value.1 <= |d|
    decreases count, 1
  {
    if count == 0 then Ok(([], p)) else ReadTableFrom(d, p, count)
  }

  /** A table of at least one string: the first, converted by descriptorToDot, then the rest. */
  function ReadTableFrom(d: seq<Byte>, p: nat, count: nat): (r: Result<(seq<string>, nat), DecodeError>)
    requires p <= |d| && 0 < count
    ensures r.Ok? ==> |r.value.0| == count && p + 4 * count <= r.value.1 <= |d|
    decreases count, 0
  {
    var s :- LengthPrefixedString(d, p);
    var rest :- ReadTable(d, s.1, count - 1);
    Ok(([DottedName(s.0)] + rest.0, rest.1))
  }

  method GetString(buf: ByteBuffer, len: int) returns (r: Result<string, DecodeError>)
    requires buf.Valid()
    modifies buf
    ensures buf.Valid()
    ensures r == StringAt(buf.data, old(buf.position), len)
    ensures r.Ok? ==> buf.position == old(buf.position) + 2 * len
  {
    if len < 0 {
      return Err(NegativeArraySize(len));
    }
    var chars := new CodeUnit[len];
    ghost var p0 := buf.position;
    for i := 0 to len
      invariant buf.Valid() && buf.position == p0 + 2 * i
      invariant forall k | 0 <= k < i :: chars[k] == U16At(buf.data, p0 + 2 * k)
    {
      var c := buf.GetChar();
      if c.Err? {
        return Err(BufferUnderflow);
      }
      chars[i] := c.value;
    }
    assert chars[..] == Units(buf.data, p0, len);
    r := UnitsToString(chars[..]);
  }

  /** Prepends decoded names to a table still being read. */
  function PrependNames(names: seq<string>, r: Result<(seq<string>, nat), DecodeError>): Result<(seq<string>, nat), DecodeError> {
    match r
    case Ok(t) => Ok((names + t.0, t.1))
    case Err(e) => Err(e)
  }

  lemma PrependNoNames(r: Result<(seq<string>, nat), DecodeError>)
    ensures PrependNames([], r) == r
  {
    if r.Ok? {
      assert [] + r.value.0 == r.value.0;
    }
  }

  lemma PrependNamesTwice(a: seq<string>, b: seq<string>, r: Result<(seq<string>, nat), DecodeError>)
    ensures PrependNames(a, PrependNames(b, r)) == PrependNames(a + b, r)
  {
    if r.Ok? {
      assert a + (b + r.value.0) == (a + b) + r.value.0;
    }
  }

  /** A table read so far, then one more string, then the rest. */
  lemma NamesStep(whole: Result<(seq<string>, nat), DecodeError>, names: seq<string>,
                  todo: Result<(seq<string>, nat), DecodeError>, name: string, rest: Result<(seq<string>, nat), DecodeError>)
    requires whole == PrependNames(names, todo) && todo == PrependNames([name], rest)
    ensures whole == PrependNames(names + [name], rest)
  {
    PrependNamesTwice(names, [name], rest);
  }

  /** One step of ReadTable: the first string read, in front of the rest. */
  lemma ReadTableStep(d: seq<Byte>, p: nat, count: nat)
    requires p <= |d| && 0 < count
    ensures match LengthPrefixedString(d, p)
      case Ok(s) => s.1 <= |d| && ReadTable(d, p, count) == PrependNames([DottedName(s.0)], ReadTable(d, s.1, count - 1))
      case Err(e) => ReadTable(d, p, count) == Err(e)
  {
    assert ReadTable(d, p, count) == ReadTableFrom(d, p, count);
  }

  /** The nameLen and getString reads of one readStringTable iteration. */
  method ReadLengthPrefixedString(buf: ByteBuffer) returns (r: Result<string, DecodeError>)
    requires buf.Valid()
    modifies buf
    ensures buf.Valid()
    ensures match LengthPrefixedString(buf.data, old(buf.position))
      case Ok(sp) => r == Ok(sp.0) && buf.position == sp.1
      case Err(e) => r == Err(e)
  {
    var nameLen := buf.GetInt();
    if nameLen.Err? {
      return Err(BufferUnderflow);
    }
    r := GetString(buf, nameLen.value);
  }

  /** One iteration of readStringTable: read the next descriptor and store its dotted form. */
  method ReadTableEntry(buf: ByteBuffer, remaining: nat) returns (r: Result<string, DecodeError>)
    requires buf.Valid() && 0 < remaining
    modifies buf
    ensures buf.Valid()
    ensures r.Ok? ==> ReadTable(buf.data, old(buf.position), remaining)
                      == PrependNames([r.value], ReadTable(buf.data, buf.position, remaining - 1))
    ensures r.Err? ==> ReadTable(buf.data, old(buf.position), remaining) == Err(r.error)
  {
    ReadTableStep(buf.data, buf.position, remaining);
    var descriptor := ReadLengthPrefixedString(buf);
    if descriptor.Err? {
      return Err(descriptor.error);
    }
    var name := DescriptorToDot(descriptor.value);
    r := Ok(name);
  }

  method ReadStringTable(buf: ByteBuffer, strings: array<string>) returns (r: Result<(), DecodeError>)
    requires buf.Valid()
    modifies buf, strings
    ensures buf.Valid()
    ensures match ReadTable(buf.data, old(buf.position), strings.Length)
      case Ok(t) => r.Ok? && strings[..] == t.0 && buf.position == t.1
      case Err(e) => r == Err(e)
  {
    var count := strings.Length;
    ghost var d := buf.data;
    ghost var p0 := buf.position;
    ghost var whole := ReadTable(d, p0, count);
    ghost var names: seq<string> := [];
    var i := 0;
    PrependNoNames(whole);
    while i < count
      invariant 0 <= i <= count && buf.Valid() && buf.data == d
      invariant strings[..i] == names
      invariant whole == PrependNames(names, ReadTable(d, buf.position, count - i))
    {
      ghost var todo := ReadTable(buf.data, buf.position, count - i);
      var name := ReadTableEntry(buf, count - i);
      if name.Err? {
        assert whole == Err(name.error);
        return Err(name.error);
      }
      ghost var rest := ReadTable(buf.data, buf.position, count - i - 1);
      NamesStep(whole, names, todo, name.value, rest);
      strings[i] := name.value;
      names := names + [name.value];
      i := i + 1;
    }
    assert names + [] == strings[..];
    r := Ok(());
  }

  // ---------------------------------------------------------------------
  // Header, frames and entries

  datatype Header = Header(
    messageHdrLen: int,
    entryHdrLen: int,
    stackFrameLen: int,
    numEntries: int,
    offsetToStrings: int,
    numClassNames: int,
    numMethodNames: int,
    numFileNames: int)

  datatype StringTables = StringTables(
    classNames: seq<string>,
    methodNames: seq<string>,
    fileNames: seq<string>)

  /** The header fields at offsets 0, 1, 2 (u8), 3 (u16), 5 (i32), 9, 11, 13 (u16). */
  function ReadHeader(d: seq<Byte>): (h: Header)
    requires 15 <= |d|
    ensures 0 <= h.messageHdrLen < 0x100 && 0 <= h.entryHdrLen < 0x100 && 0 <= h.stackFrameLen < 0x100
    ensures 0 <= h.numEntries < 0x1_0000
    ensures 0 <= h.numClassNames < 0x1_0000 && 0 <= h.numMethodNames < 0x1_0000 && 0 <= h.numFileNames < 0x1_0000
  {
    Header(U8At(d, 0), U8At(d, 1), U8At(d, 2), U16At(d, 3), I32At(d, 5), U16At(d, 9), U16At(d, 11), U16At(d, 13))
  }

  /** The bytes a record really occupies: the declared length, but never less than the fields read. */
  function Stride(declared: int, fixed: nat): nat {
    if declared > fixed then declared else fixed
  }

  /**
   * formatStackTrace: "class.method(file:line)" for a line >= 0,
   * "class.method(file)" for any negative line, "(Unknown Source)" without a file.
   */
  function FormatStackTrace(className: string, methodName: string, sourceFile: Option<string>, line: int): (r: string)
    ensures |r| > |className| + 1 + |methodName|
    ensures r[..|className| + 1 + |methodName|] == className + "." + methodName && r[|r| - 1] == ')'
  {
    className + "." + methodName +
      (if sourceFile.Some? && line >= 0 then "(" + sourceFile.value + ":" + IntToString(line) + ")"
       else if sourceFile.Some? then "(" + sourceFile.value + ")"
       else "(Unknown Source)")
  }

  /** "No source" (-1) and "native" (-2) print alike: with a file, as `(file)`. */
  lemma NegativeLinesFormatAlike(className: string, methodName: string, sourceFile: Option<string>, l1: int, l2: int)
    requires l1 < 0 && l2 < 0
    ensures FormatStackTrace(className, methodName, sourceFile, l1) == FormatStackTrace(className, methodName, sourceFile, l2)
    ensures sourceFile.Some? ==>
      FormatStackTrace(className, methodName, sourceFile, l1) == className + "." + methodName + "(" + sourceFile.value + ")"
  {
  }

  /** With a file, a line >= 0 prints as `(file:line)` and a negative one as `(file)`. */
  lemma FormatStackTraceWithFile(className: string, methodName: string, file: string, line: int)
    ensures line >= 0 ==>
      FormatStackTrace(className, methodName, Some(file), line)
      == className + "." + methodName + "(" + file + ":" + IntToString(line) + ")"
    ensures line < 0 ==>
      FormatStackTrace(className, methodName, Some(file), line) == className + "." + methodName + "(" + file + ")"
  {
  }

  /** Without a file the line never shows. */
  lemma MissingFileIsUnknownSource(className: string, methodName: string, line: int)
    ensures FormatStackTrace(className, methodName, None, line) == className + "." + methodName + "(Unknown Source)"
  {
  }

  /** One stack frame at `p`: three u16 indices and an i16 line, then padding. */
  function DecodeFrame(d: seq<Byte>, h: Header, t: StringTables, p: nat): (r: Result<(string, nat), DecodeError>)
    ensures r.Ok? ==> r.value.1 == p + Stride(h.stackFrameLen, 8) <= |d|
  {
    if p + 8 > |d| then Err(BufferUnderflow)
    else
      var classIndex := U16At(d, p);
      var methodIndex := U16At(d, p + 2);
      var fileIndex := U16At(d, p + 4);
      var line := I16At(d, p + 6);
      if classIndex >= |t.classNames| then Err(IndexOutOfBounds(classIndex, |t.classNames|))
      else if methodIndex >= |t.methodNames| then Err(IndexOutOfBounds(methodIndex, |t.methodNames|))
      else if fileIndex >= |t.fileNames| then Err(IndexOutOfBounds(fileIndex, |t.fileNames|))
      else
        var frame := FormatStackTrace(t.classNames[classIndex], t.methodNames[methodIndex], Some(t.fileNames[fileIndex]), line);
        if p + Stride(h.stackFrameLen, 8) > |d| then Err(BufferUnderflow)
        else Ok((frame, p + Stride(h.stackFrameLen, 8)))
  }

  /** `n` consecutive frames from `p` on: each takes max(8, stackFrameLen) bytes. */
  function DecodeFrames(d: seq<Byte>, h: Header, t: StringTables, p: nat, n: nat): (r: Result<(seq<string>, nat), DecodeError>)
    requires p <= |d|
    ensures r.Ok? ==> |r.value.0| == n && p <= r.value.1 <= |d|
    decreases n, 1
  {
    if n == 0 then Ok(([], p)) else DecodeFramesFrom(d, h, t, p, n)
  }

  /** At least one frame: the first, then the rest. */
  function DecodeFramesFrom(d: seq<Byte>, h: Header, t: StringTables, p: nat, n: nat): (r: Result<(seq<string>, nat), DecodeError>)
    requires p <= |d| && 0 < n
    ensures r.Ok? ==> |r.value.0| == n && p <= r.value.1 <= |d|
    decreases n, 0
  {
    var f :- DecodeFrame(d, h, t, p);
    var rest :- DecodeFrames(d, h, t, f.1, n - 1);
    Ok(([f.0] + rest.0, rest.1))
  }

  /** The fixed part of an entry record. */
  datatype EntryHeader = EntryHeader(totalSize: int, threadId: int, classNameIndex: int, stackDepth: nat)

  /** An entry's size (i32), thread (u16), class index (u16) and depth (u8), padded to entryHdrLen. */
  function DecodeEntryHeader(d: seq<Byte>, h: Header, p: nat): (r: Result<(EntryHeader, nat), DecodeError>)
    ensures r.Ok? ==> p + 9 <= |d| && r.value.1 == p + Stride(h.entryHdrLen, 9) <= |d|
    ensures r.Ok? ==> r.value.0.stackDepth == U8At(d, p + 8) < 0x100
  {
    if p + 9 > |d| then Err(BufferUnderflow)
    else if p + Stride(h.entryHdrLen, 9) > |d| then Err(BufferUnderflow)
    else Ok((EntryHeader(I32At(d, p), U16At(d, p + 4), U16At(d, p + 6), U8At(d, p + 8)), p + Stride(h.entryHdrLen, 9)))
  }

  /**
   * Entry `i` at `p`: size (i32), thread (u16), class index (u16) and
   * depth (u8), padding up to entryHdrLen, the frames, and last the
   * allocated class's lookup. It occupies
   * max(9, entryHdrLen) + depth * max(8, stackFrameLen) bytes.
   */
  function DecodeEntry(d: seq<Byte>, h: Header, t: StringTables, p: nat, i: int): (r: Result<(AllocEntry, nat), DecodeError>)
    ensures r.Ok? ==> p + 9 <= |d| && p < r.value.1 <= |d|
    ensures r.Ok? ==> |r.value.0.stack| == U8At(d, p + 8) && r.value.0.allocNumber == h.numEntries - i
  {
    var eh :- DecodeEntryHeader(d, h, p);
    var frames :- DecodeFrames(d, h, t, eh.1, eh.0.stackDepth);
    var classNameIndex := eh.0.classNameIndex;
    if classNameIndex >= |t.classNames| then Err(IndexOutOfBounds(classNameIndex, |t.classNames|))
    else
      Ok((AllocEntry(h.numEntries - i, t.classNames[classNameIndex], eh.0.totalSize, ToShort(eh.0.threadId), frames.0), frames.1))
  }

  /**
   * A frame that decodes names the class, method and file its three
   * indices select, each inside its table, with the signed line after them.
   */
  lemma DecodeFrameResolves(d: seq<Byte>, h: Header, t: StringTables, p: nat)
    requires DecodeFrame(d, h, t, p).Ok?
    ensures p + 8 <= |d|
    ensures U16At(d, p) < |t.classNames| && U16At(d, p + 2) < |t.methodNames| && U16At(d, p + 4) < |t.fileNames|
    ensures DecodeFrame(d, h, t, p).value.0 ==
      FormatStackTrace(t.classNames[U16At(d, p)], t.methodNames[U16At(d, p + 2)],
                       Some(t.fileNames[U16At(d, p + 4)]), I16At(d, p + 6))
  {
  }

  /**
   * An index at or past the end of its table fails with that index and the
   * table's length; the class index is checked first, then the method
   * index, then the file index.
   */
  lemma DecodeFrameIndexFails(d: seq<Byte>, h: Header, t: StringTables, p: nat)
    requires p + 8 <= |d|
    ensures U16At(d, p) >= |t.classNames| ==>
      DecodeFrame(d, h, t, p) == Err(IndexOutOfBounds(U16At(d, p), |t.classNames|))
    ensures U16At(d, p) < |t.classNames| && U16At(d, p + 2) >= |t.methodNames| ==>
      DecodeFrame(d, h, t, p) == Err(IndexOutOfBounds(U16At(d, p + 2), |t.methodNames|))
    ensures U16At(d, p) < |t.classNames| && U16At(d, p + 2) < |t.methodNames| && U16At(d, p + 4) >= |t.fileNames| ==>
      DecodeFrame(d, h, t, p) == Err(IndexOutOfBounds(U16At(d, p + 4), |t.fileNames|))
  {
  }

  /**
   * An entry that decodes has the size (i32) at offset 0, the thread id
   * (u16, printed as a short) at offset 4, the class its index at offset 6
   * selects, and the frames that follow the padded entry header.
   */
  lemma DecodeEntryResolves(d: seq<Byte>, h: Header, t: StringTables, p: nat, i: int)
    requires DecodeEntry(d, h, t, p, i).Ok?
    ensures p + Stride(h.entryHdrLen, 9) <= |d|
    ensures var e := DecodeEntry(d, h, t, p, i).value.0;
      U16At(d, p + 6) < |t.classNames| &&
      e.allocatedClass == t.classNames[U16At(d, p + 6)] &&
      e.size == I32At(d, p) && e.threadId == ToShort(U16At(d, p + 4)) &&
      DecodeFrames(d, h, t, p + Stride(h.entryHdrLen, 9), U8At(d, p + 8)) == Ok((e.stack, DecodeEntry(d, h, t, p, i).value.1))
  {
  }

  /**
   * Once the entry header is read, a frame that fails fails the entry;
   * only after all frames decode is the class index checked, and one at or
   * past the end of the class table fails with that index.
   */
  lemma DecodeEntryIndexFails(d: seq<Byte>, h: Header, t: StringTables, p: nat, i: int)
    requires DecodeEntryHeader(d, h, p).Ok?
    ensures var frames := DecodeFrames(d, h, t, p + Stride(h.entryHdrLen, 9), U8At(d, p + 8));
      (frames.Err? ==> DecodeEntry(d, h, t, p, i) == Err(frames.error)) &&
      (frames.Ok? && U16At(d, p + 6) >= |t.classNames| ==>
        DecodeEntry(d, h, t, p, i) == Err(IndexOutOfBounds(U16At(d, p + 6), |t.classNames|)))
  {
  }

  /** Entries `i` up to `numEntries`, the first at `p`. */
  function DecodeEntries(d: seq<Byte>, h: Header, t: StringTables, p: nat, i: nat): (r: Result<seq<AllocEntry>, DecodeError>)
    requires i <= h.numEntries
    ensures r.Ok? ==> |r.value| == h.numEntries - i
    ensures r.Ok? ==> forall k | 0 <= k < |r.value| :: r.value[k].allocNumber == h.numEntries - i - k
    decreases h.numEntries - i, 1
  {
    if i == h.numEntries then Ok([]) else DecodeEntriesFrom(d, h, t, p, i)
  }

  /** At least one entry left: entry `i`, then the rest. */
  function DecodeEntriesFrom(d: seq<Byte>, h: Header, t: StringTables, p: nat, i: nat): (r: Result<seq<AllocEntry>, DecodeError>)
    requires i < h.numEntries
    ensures r.Ok? ==> |r.value| == h.numEntries - i
    ensures r.Ok? ==> forall k | 0 <= k < |r.value| :: r.value[k].allocNumber == h.numEntries - i - k
    decreases h.numEntries - i, 0
  {
    var e :- DecodeEntry(d, h, t, p, i);
    var rest :- DecodeEntries(d, h, t, e.1, i + 1);
    Ok([e.0] + rest)
  }

  /** `n` frames occupy exactly `n` strides of max(8, stackFrameLen) bytes. */
  lemma {:induction false} DecodeFramesLength(d: seq<Byte>, h: Header, t: StringTables, p: nat, n: nat)
    requires p <= |d|
    ensures DecodeFrames(d, h, t, p, n).Ok? ==> DecodeFrames(d, h, t, p, n).value.1 == p + n * Stride(h.stackFrameLen, 8)
    decreases n
  {
    if n > 0 {
      assert DecodeFrames(d, h, t, p, n) == DecodeFramesFrom(d, h, t, p, n);
      var f := DecodeFrame(d, h, t, p);
      if f.Ok? {
        DecodeFramesLength(d, h, t, f.value.1, n - 1);
      }
    }
  }

  /** An entry occupies max(9, entryHdrLen) bytes plus one frame stride per stack frame. */
  lemma DecodeEntryLength(d: seq<Byte>, h: Header, t: StringTables, p: nat, i: int)
    ensures DecodeEntry(d, h, t, p, i).Ok? ==>
      DecodeEntry(d, h, t, p, i).value.1
      == p + Stride(h.entryHdrLen, 9) + U8At(d, p + 8) * Stride(h.stackFrameLen, 8)
  {
    var eh := DecodeEntryHeader(d, h, p);
    if eh.Ok? {
      DecodeFramesLength(d, h, t, eh.value.1, eh.value.0.stackDepth);
    }
  }

  /**
   * Where each entry from entry `i` at `p` on starts: `p`, then the end of
   * every entry that decodes, up to the first that fails.
   */
  function EntryStarts(d: seq<Byte>, h: Header, t: StringTables, p: nat, i: nat): (ps: seq<nat>)
    requires i <= h.numEntries
    ensures 1 <= |ps| <= h.numEntries - i + 1 && ps[0] == p
    decreases h.numEntries - i
  {
    if i == h.numEntries then [p]
    else match DecodeEntry(d, h, t, p, i)
      case Ok(e) => [p] + EntryStarts(d, h, t, e.1, i + 1)
      case Err(_) => [p]
  }

  /**
   * Decoded entry k is DecodeEntry at start k, and entry k + 1 starts where
   * entry k ends: its header stride plus its frames' strides further on.
   */
  lemma {:induction false} DecodeEntriesAt(d: seq<Byte>, h: Header, t: StringTables, p: nat, i: nat)
    requires i <= h.numEntries && DecodeEntries(d, h, t, p, i).Ok?
    ensures var es := DecodeEntries(d, h, t, p, i).value;
      var ps := EntryStarts(d, h, t, p, i);
      |ps| == |es| + 1 &&
      forall k | 0 <= k < |es| ::
        DecodeEntry(d, h, t, ps[k], i + k) == Ok((es[k], ps[k + 1])) &&
        ps[k] + 9 <= |d| &&
        ps[k + 1] == ps[k] + Stride(h.entryHdrLen, 9) + U8At(d, ps[k] + 8) * Stride(h.stackFrameLen, 8)
    decreases h.numEntries - i
  {
    if i < h.numEntries {
      var e := DecodeEntry(d, h, t, p, i).value;
      var es := DecodeEntries(d, h, t, p, i).value;
      var rest := DecodeEntries(d, h, t, e.1, i + 1).value;
      assert es == [e.0] + rest;
      DecodeEntriesAt(d, h, t, e.1, i + 1);
      DecodeEntryLength(d, h, t, p, i);
      var ps := EntryStarts(d, h, t, p, i);
      var qs := EntryStarts(d, h, t, e.1, i + 1);
      assert ps == [p] + qs;
      forall k | 1 <= k < |es|
        ensures DecodeEntry(d, h, t, ps[k], i + k) == Ok((es[k], ps[k + 1]))
        ensures ps[k] + 9 <= |d|
        ensures ps[k + 1] == ps[k] + Stride(h.entryHdrLen, 9) + U8At(d, ps[k] + 8) * Stride(h.stackFrameLen, 8)
      {
        assert ps[k] == qs[k - 1] && ps[k + 1] == qs[k] && es[k] == rest[k - 1];
        assert i + k == (i + 1) + (k - 1);
      }
    }
  }

  /** The three string tables (classes, methods, files), read from offsetToStrings on. */
  function DecodeTables(d: seq<Byte>): (r: Result<StringTables, DecodeError>)
    requires 15 <= |d|
    ensures r.Ok? ==> |r.value.classNames| == ReadHeader(d).numClassNames
    ensures r.Ok? ==> |r.value.methodNames| == ReadHeader(d).numMethodNames
    ensures r.Ok? ==> |r.value.fileNames| == ReadHeader(d).numFileNames
  {
    var h := ReadHeader(d);
    if h.offsetToStrings < 0 || h.offsetToStrings > |d| then Err(IllegalPosition(h.offsetToStrings))
    else
      var classes :- ReadTable(d, h.offsetToStrings, h.numClassNames);
      var methods :- ReadTable(d, classes.1, h.numMethodNames);
      var files :- ReadTable(d, methods.1, h.numFileNames);
      Ok(StringTables(classes.0, methods.0, files.0))
  }

  /**
   * The whole dump: header, the three string tables, then the entries
   * from messageHdrLen on. Entry i (from 0) is allocation number
   * numEntries - i.
   */
  function Decode(d: seq<Byte>): (r: Result<seq<AllocEntry>, DecodeError>)
    ensures r.Ok? ==> 15 <= |d| && |r.value| == ReadHeader(d).numEntries
    ensures r.Ok? ==> forall k | 0 <= k < |r.value| :: r.value[k].allocNumber == |r.value| - k
  {
    if |d| < 15 then Err(BufferUnderflow)
    else
      var h := ReadHeader(d);
      var t :- DecodeTables(d);
      if h.messageHdrLen > |d| then Err(IllegalPosition(h.messageHdrLen))
      else DecodeEntries(d, h, t, h.messageHdrLen, 0)
  }
  /**
   * The entries of a dump are read from messageHdrLen on, not from the end
   * of the 15 header bytes: entry k is DecodeEntry at the k-th start, the
   * first start is messageHdrLen, and each next start follows from the
   * strides of the entry before it.
   */
  lemma DecodeEntryOffsets(d: seq<Byte>)
    requires Decode(d).Ok?
    ensures 15 <= |d| && DecodeTables(d).Ok? && 0 <= ReadHeader(d).messageHdrLen <= |d|
    ensures var h := ReadHeader(d);
      var t := DecodeTables(d).value;
      var es := Decode(d).value;
      var ps := EntryStarts(d, h, t, h.messageHdrLen, 0);
      |ps| == |es| + 1 && ps[0] == h.messageHdrLen &&
      forall k | 0 <= k < |es| ::
        DecodeEntry(d, h, t, ps[k], k) == Ok((es[k], ps[k + 1])) &&
        ps[k] + 9 <= |d| &&
        ps[k + 1] == ps[k] + Stride(h.entryHdrLen, 9) + U8At(d, ps[k] + 8) * Stride(h.stackFrameLen, 8)
  {
    var h := ReadHeader(d);
    var t := DecodeTables(d).value;
    assert Decode(d) == DecodeEntries(d, h, t, h.messageHdrLen, 0);
    DecodeEntriesAt(d, h, t, h.messageHdrLen, 0);
  }

  /**
   * The entries parse prints from entry i at p on. Each entry is printed as
   * soon as it is read, so an entry that fails ends the output after the
   * entries before it.
   */
  function PrintedEntries(d: seq<Byte>, h: Header, t: StringTables, p: nat, i: nat): (r: seq<AllocEntry>)
    requires i <= h.numEntries
    decreases h.numEntries - i
  {
    if i == h.numEntries then []
    else
      match DecodeEntry(d, h, t, p, i)
      case Err(_) => []
      case Ok(e) => [e.0] + PrintedEntries(d, h, t, e.1, i + 1)
  }

  /** What parse prints: nothing when the header or a string table fails, otherwise the entries up to the first that fails. */
  function Printed(d: seq<Byte>): seq<AllocEntry> {
    if |d| < 15 then []
    else
      var h := ReadHeader(d);
      match DecodeTables(d)
      case Err(_) => []
      case Ok(t) => if h.messageHdrLen > |d| then [] else PrintedEntries(d, h, t, h.messageHdrLen, 0)
  }

  /**
   * The printed entries are the decoded ones when every entry decodes, and
   * otherwise fewer than the rest of the entries; either way they are
   * numbered down from numEntries - i.
   */
  lemma {:induction false} PrintedEntriesDecoded(d: seq<Byte>, h: Header, t: StringTables, p: nat, i: nat)
    requires i <= h.numEntries
    ensures var printed := PrintedEntries(d, h, t, p, i);
      (DecodeEntries(d, h, t, p, i).Ok? ==> printed == DecodeEntries(d, h, t, p, i).value) &&
      (DecodeEntries(d, h, t, p, i).Err? ==> |printed| < h.numEntries - i) &&
      forall k | 0 <= k < |printed| :: printed[k].allocNumber == h.numEntries - i - k
    decreases h.numEntries - i
  {
    if i < h.numEntries {
      DecodeEntriesStep(d, h, t, p, i);
      match DecodeEntry(d, h, t, p, i)
      case Err(_) =>
      case Ok(e) =>
        PrintedEntriesDecoded(d, h, t, e.1, i + 1);
        var rest := PrintedEntries(d, h, t, e.1, i + 1);
        assert PrintedEntries(d, h, t, p, i) == [e.0] + rest;
    }
  }

  /**
   * parse prints exactly the entries it decodes when the dump is
   * well-formed; when an entry fails it has printed only the entries before
   * it, numbered from numEntries down.
   */
  lemma PrintedIsDecoded(d: seq<Byte>)
    ensures Decode(d).Ok? ==> Printed(d) == Decode(d).value
    ensures Printed(d) != [] ==>
      15 <= |d| && forall k | 0 <= k < |Printed(d)| :: Printed(d)[k].allocNumber == ReadHeader(d).numEntries - k
    ensures Decode(d).Err? && Printed(d) != [] ==> |Printed(d)| < ReadHeader(d).numEntries
  {
    if |d| >= 15 {
      var h := ReadHeader(d);
      if DecodeTables(d).Ok? && h.messageHdrLen <= |d| {
        PrintedEntriesDecoded(d, h, DecodeTables(d).value, h.messageHdrLen, 0);
      }
    }
  }


  // ---------------------------------------------------------------------
  // The cursor-driven decoder

  method ReadFrame(buf: ByteBuffer, h: Header, t: StringTables) returns (r: Result<string, DecodeError>)
    requires buf.Valid()
    modifies buf
    ensures buf.Valid()
    ensures match DecodeFrame(buf.data, h, t, old(buf.position))
      case Ok(f) => r == Ok(f.0) && buf.position == f.1
      case Err(e) => r == Err(e)
  {
    ghost var p := buf.position;
    var c := buf.GetShort();
    if c.Err? { return Err(BufferUnderflow); }
    var m := buf.GetShort();
    if m.Err? { return Err(BufferUnderflow); }
    var f := buf.GetShort();
    if f.Err? { return Err(BufferUnderflow); }
    var lineNumber := buf.GetShort();
    if lineNumber.Err? { return Err(BufferUnderflow); }
    MaskedShortIsUnsigned(buf.data, p);
    MaskedShortIsUnsigned(buf.data, p + 2);
    MaskedShortIsUnsigned(buf.data, p + 4);
    var methodClassNameIndex := Mask16(c.value);
    var methodNameIndex := Mask16(m.value);
    var methodSourceFileIndex := Mask16(f.value);
    if methodClassNameIndex >= |t.classNames| {
      return Err(IndexOutOfBounds(methodClassNameIndex, |t.classNames|));
    }
    if methodNameIndex >= |t.methodNames| {
      return Err(IndexOutOfBounds(methodNameIndex, |t.methodNames|));
    }
    if methodSourceFileIndex >= |t.fileNames| {
      return Err(IndexOutOfBounds(methodSourceFileIndex, |t.fileNames|));
    }
    var frame := FormatStackTrace(t.classNames[methodClassNameIndex], t.methodNames[methodNameIndex],
                                  Some(t.fileNames[methodSourceFileIndex]), lineNumber.value);
    // we've consumed 8 bytes; gobble up any extra
    var skip := 8;
    while skip < h.stackFrameLen
      invariant buf.Valid() && buf.position == p + skip && p + 8 <= |buf.data|
      invariant 8 <= skip <= Stride(h.stackFrameLen, 8)
    {
      var b := buf.Get();
      if b.Err? { return Err(BufferUnderflow); }
      skip := skip + 1;
    }
    r := Ok(frame);
  }

  function PrependFrames(frames: seq<string>, r: Result<(seq<string>, nat), DecodeError>): Result<(seq<string>, nat), DecodeError> {
    match r
    case Ok(t) => Ok((frames + t.0, t.1))
    case Err(e) => Err(e)
  }

  lemma PrependFramesTwice(a: seq<string>, b: seq<string>, r: Result<(seq<string>, nat), DecodeError>)
    ensures PrependFrames(a, PrependFrames(b, r)) == PrependFrames(a + b, r)
  {
    if r.Ok? {
      assert a + (b + r.value.0) == (a + b) + r.value.0;
    }
  }

  /** The frames read so far, then one more frame, then the rest. */
  lemma FramesStep(whole: Result<(seq<string>, nat), DecodeError>, frames: seq<string>,
                   todo: Result<(seq<string>, nat), DecodeError>, frame: string, rest: Result<(seq<string>, nat), DecodeError>)
    requires whole == PrependFrames(frames, todo) && todo == PrependFrames([frame], rest)
    ensures whole == PrependFrames(frames + [frame], rest)
  {
    PrependFramesTwice(frames, [frame], rest);
  }

  lemma DecodeFramesStep(d: seq<Byte>, h: Header, t: StringTables, p: nat, n: nat)
    requires p <= |d| && 0 < n
    ensures match DecodeFrame(d, h, t, p)
      case Ok(f) => f.1 <= |d| && DecodeFrames(d, h, t, p, n) == PrependFrames([f.0], DecodeFrames(d, h, t, f.1, n - 1))
      case Err(e) => DecodeFrames(d, h, t, p, n) == Err(e)
  {
    assert DecodeFrames(d, h, t, p, n) == DecodeFramesFrom(d, h, t, p, n);
  }

  lemma PrependNoFrames(r: Result<(seq<string>, nat), DecodeError>)
    ensures PrependFrames([], r) == r
  {
    if r.Ok? {
      assert [] + r.value.0 == r.value.0;
    }
  }

  /** The fixed reads of one entry and the skip to entryHdrLen. */
  method ReadEntryHeader(buf: ByteBuffer, h: Header) returns (r: Result<EntryHeader, DecodeError>)
    requires buf.Valid()
    modifies buf
    ensures buf.Valid()
    ensures match DecodeEntryHeader(buf.data, h, old(buf.position))
      case Ok(eh) => r == Ok(eh.0) && buf.position == eh.1
      case Err(e) => r == Err(e)
  {
    ghost var p := buf.position;
    var totalSize := buf.GetInt();
    if totalSize.Err? { return Err(BufferUnderflow); }
    var thread := buf.GetShort();
    if thread.Err? { return Err(BufferUnderflow); }
    var cls := buf.GetShort();
    if cls.Err? { return Err(BufferUnderflow); }
    var depth := buf.Get();
    if depth.Err? { return Err(BufferUnderflow); }
    MaskedShortIsUnsigned(buf.data, p + 4);
    MaskedShortIsUnsigned(buf.data, p + 6);
    MaskedByteIsUnsigned(buf.data, p + 8);
    var threadId := Mask16(thread.value);
    var classNameIndex := Mask16(cls.value);
    var stackDepth := Mask8(depth.value);
    // we've consumed 9 bytes; gobble up any extra
    var skip := 9;
    while skip < h.entryHdrLen
      invariant buf.Valid() && buf.position == p + skip && p + 9 <= |buf.data|
      invariant 9 <= skip <= Stride(h.entryHdrLen, 9)
    {
      var b := buf.Get();
      if b.Err? { return Err(BufferUnderflow); }
      skip := skip + 1;
    }
    r := Ok(EntryHeader(totalSize.value, threadId, classNameIndex, stackDepth));
  }

  /** One iteration of the stack-trace loop, with `n` frames still to read. */
  method ReadNextFrame(buf: ByteBuffer, h: Header, t: StringTables, n: nat) returns (r: Result<string, DecodeError>)
    requires buf.Valid() && 0 < n
    modifies buf
    ensures buf.Valid()
    ensures r.Ok? ==> DecodeFrames(buf.data, h, t, old(buf.position), n)
                      == PrependFrames([r.value], DecodeFrames(buf.data, h, t, buf.position, n - 1))
    ensures r.Err? ==> DecodeFrames(buf.data, h, t, old(buf.position), n) == Err(r.error)
  {
    DecodeFramesStep(buf.data, h, t, buf.position, n);
    r := ReadFrame(buf, h, t);
  }

  /** The stack-trace loop of one entry: `stackDepth` frames in a row. */
  method ReadFrames(buf: ByteBuffer, h: Header, t: StringTables, stackDepth: nat) returns (r: Result<seq<string>, DecodeError>)
    requires buf.Valid()
    modifies buf
    ensures buf.Valid()
    ensures match DecodeFrames(buf.data, h, t, old(buf.position), stackDepth)
      case Ok(fs) => r == Ok(fs.0) && buf.position == fs.1
      case Err(e) => r == Err(e)
  {
    ghost var whole := DecodeFrames(buf.data, h, t, buf.position, stackDepth);
    var steArray: seq<string> := [];
    var sti := 0;
    PrependNoFrames(whole);
    while sti < stackDepth
      invariant 0 <= sti <= stackDepth && buf.Valid()
      invariant whole == PrependFrames(steArray, DecodeFrames(buf.data, h, t, buf.position, stackDepth - sti))
    {
      ghost var todo := DecodeFrames(buf.data, h, t, buf.position, stackDepth - sti);
      var frame := ReadNextFrame(buf, h, t, stackDepth - sti);
      if frame.Err? { return Err(frame.error); }
      ghost var rest := DecodeFrames(buf.data, h, t, buf.position, stackDepth - sti - 1);
      FramesStep(whole, steArray, todo, frame.value, rest);
      steArray := steArray + [frame.value];
      sti := sti + 1;
    }
    assert steArray + [] == steArray;
    r := Ok(steArray);
  }

  method ReadEntry(buf: ByteBuffer, h: Header, t: StringTables, i: int) returns (r: Result<AllocEntry, DecodeError>)
    requires buf.Valid()
    modifies buf
    ensures buf.Valid()
    ensures match DecodeEntry(buf.data, h, t, old(buf.position), i)
      case Ok(e) => r == Ok(e.0) && buf.position == e.1
      case Err(e) => r == Err(e)
  {
    var eh := ReadEntryHeader(buf, h);
    if eh.Err? {
      return Err(eh.error);
    }
    var steArray :- ReadFrames(buf, h, t, eh.value.stackDepth);
    var classNameIndex := eh.value.classNameIndex;
    if classNameIndex >= |t.classNames| {
      return Err(IndexOutOfBounds(classNameIndex, |t.classNames|));
    }
    r := Ok(AllocEntry(h.numEntries - i, t.classNames[classNameIndex], eh.value.totalSize, ToShort(eh.value.threadId), steArray));
  }

  function PrependEntries(entries: seq<AllocEntry>, r: Result<seq<AllocEntry>, DecodeError>): Result<seq<AllocEntry>, DecodeError> {
    match r
    case Ok(rest) => Ok(entries + rest)
    case Err(e) => Err(e)
  }

  lemma PrependEntriesTwice(a: seq<AllocEntry>, b: seq<AllocEntry>, r: Result<seq<AllocEntry>, DecodeError>)
    ensures PrependEntries(a, PrependEntries(b, r)) == PrependEntries(a + b, r)
  {
    if r.Ok? {
      assert a + (b + r.value) == (a + b) + r.value;
    }
  }

  /** The entries read so far, then one more entry, then the rest. */
  lemma EntriesStep(whole: Result<seq<AllocEntry>, DecodeError>, entries: seq<AllocEntry>,
                    todo: Result<seq<AllocEntry>, DecodeError>, entry: AllocEntry, rest: Result<seq<AllocEntry>, DecodeError>)
    requires whole == PrependEntries(entries, todo) && todo == PrependEntries([entry], rest)
    ensures whole == PrependEntries(entries + [entry], rest)
  {
    PrependEntriesTwice(entries, [entry], rest);
  }

  lemma DecodeEntriesStep(d: seq<Byte>, h: Header, t: StringTables, p: nat, i: nat)
    requires i < h.numEntries
    ensures match DecodeEntry(d, h, t, p, i)
      case Ok(e) => DecodeEntries(d, h, t, p, i) == PrependEntries([e.0], DecodeEntries(d, h, t, e.1, i + 1))
      case Err(err) => DecodeEntries(d, h, t, p, i) == Err(err)
  {
    assert DecodeEntries(d, h, t, p, i) == DecodeEntriesFrom(d, h, t, p, i);
  }

  lemma PrependNoEntries(r: Result<seq<AllocEntry>, DecodeError>)
    ensures PrependEntries([], r) == r
  {
    if r.Ok? {
      assert [] + r.value == r.value;
    }
  }

  /** The header reads at the start of parse. */
  method ReadHeaderFields(buf: ByteBuffer) returns (r: Result<Header, DecodeError>)
    requires buf.Valid() && buf.position == 0
    modifies buf
    ensures buf.Valid()
    ensures |buf.data| < 15 ==> r == Err(BufferUnderflow)
    ensures |buf.data| >= 15 ==> r == Ok(ReadHeader(buf.data))
  {
    var b0 := buf.Get();
    var b1 := buf.Get();
    var b2 := buf.Get();
    var s3 := buf.GetShort();
    var i5 := buf.GetInt();
    var s9 := buf.GetShort();
    var s11 := buf.GetShort();
    var s13 := buf.GetShort();
    if s13.Err? {
      return Err(BufferUnderflow);
    }
    var d := buf.data;
    MaskedByteIsUnsigned(d, 0);
    MaskedByteIsUnsigned(d, 1);
    MaskedByteIsUnsigned(d, 2);
    MaskedShortIsUnsigned(d, 3);
    MaskedShortIsUnsigned(d, 9);
    MaskedShortIsUnsigned(d, 11);
    MaskedShortIsUnsigned(d, 13);
    var messageHdrLen := Mask8(b0.value);
    var entryHdrLen := Mask8(b1.value);
    var stackFrameLen := Mask8(b2.value);
    var numEntries := Mask16(s3.value);
    var offsetToStrings := i5.value;
    var numClassNames := Mask16(s9.value);
    var numMethodNames := Mask16(s11.value);
    var numFileNames := Mask16(s13.value);
    r := Ok(Header(messageHdrLen, entryHdrLen, stackFrameLen, numEntries, offsetToStrings,
                   numClassNames, numMethodNames, numFileNames));
  }

  /** DecodeTables from the three tables' results, each read where the one before it ends. */
  lemma DecodeTablesOf(d: seq<Byte>, c: Result<(seq<string>, nat), DecodeError>,
                       m: Result<(seq<string>, nat), DecodeError>, f: Result<(seq<string>, nat), DecodeError>)
    requires 15 <= |d| && 0 <= ReadHeader(d).offsetToStrings <= |d|
    requires c == ReadTable(d, ReadHeader(d).offsetToStrings, ReadHeader(d).numClassNames)
    requires c.Ok? ==> m == ReadTable(d, c.value.1, ReadHeader(d).numMethodNames)
    requires c.Ok? && m.Ok? ==> f == ReadTable(d, m.value.1, ReadHeader(d).numFileNames)
    ensures DecodeTables(d) ==
      if c.Err? then Err(c.error)
      else if m.Err? then Err(m.error)
      else if f.Err? then Err(f.error)
      else Ok(StringTables(c.value.0, m.value.0, f.value.0))
  {
  }

  /** Skip forward to the strings and read the three tables. */
  method ReadStringTables(buf: ByteBuffer, h: Header) returns (r: Result<StringTables, DecodeError>)
    requires buf.Valid() && 15 <= |buf.data| && h == ReadHeader(buf.data)
    modifies buf
    ensures buf.Valid()
    ensures r == DecodeTables(buf.data)
  {
    var moved := buf.SetPosition(h.offsetToStrings);
    if moved.Err? {
      return Err(moved.error);
    }
    ghost var d := buf.data;
    var classNames := new string[h.numClassNames];
    var methodNames := new string[h.numMethodNames];
    var fileNames := new string[h.numFileNames];
    ghost var c := ReadTable(d, buf.position, h.numClassNames);
    var read := ReadStringTable(buf, classNames);
    if read.Err? {
      DecodeTablesOf(d, c, c, c);
      return Err(read.error);
    }
    ghost var m := ReadTable(d, buf.position, h.numMethodNames);
    read := ReadStringTable(buf, methodNames);
    if read.Err? {
      DecodeTablesOf(d, c, m, m);
      return Err(read.error);
    }
    ghost var f := ReadTable(d, buf.position, h.numFileNames);
    read := ReadStringTable(buf, fileNames);
    if read.Err? {
      DecodeTablesOf(d, c, m, f);
      return Err(read.error);
    }
    DecodeTablesOf(d, c, m, f);
    r := Ok(StringTables(classNames[..], methodNames[..], fileNames[..]));
  }

  /**
   * The entry loop of parse, from entry 0 at the cursor: the decoded
   * entries or the first entry's error, and the entries printed on the way.
   */
  method ReadEntries(buf: ByteBuffer, h: Header, t: StringTables) returns (r: Result<seq<AllocEntry>, DecodeError>, printed: seq<AllocEntry>)
    requires buf.Valid() && 0 <= h.numEntries
    modifies buf
    ensures r == DecodeEntries(buf.data, h, t, old(buf.position), 0)
    ensures printed == PrintedEntries(buf.data, h, t, old(buf.position), 0)
  {
    ghost var whole := DecodeEntries(buf.data, h, t, buf.position, 0);
    ghost var wholePrinted := PrintedEntries(buf.data, h, t, buf.position, 0);
    var entries: seq<AllocEntry> := [];
    var i := 0;
    PrependNoEntries(whole);
    while i < h.numEntries
      invariant 0 <= i <= h.numEntries && buf.Valid()
      invariant whole == PrependEntries(entries, DecodeEntries(buf.data, h, t, buf.position, i))
      invariant wholePrinted == entries + PrintedEntries(buf.data, h, t, buf.position, i)
    {
      DecodeEntriesStep(buf.data, h, t, buf.position, i);
      ghost var before := buf.position;
      ghost var todo := DecodeEntries(buf.data, h, t, before, i);
      var entry := ReadEntry(buf, h, t, i);
      if entry.Err? {
        assert PrintedEntries(buf.data, h, t, before, i) == [];
        assert entries + [] == entries;
        return Err(entry.error), entries;
      }
      PrintedStep(buf.data, h, t, before, i, entries);
      EntriesStep(whole, entries, todo, entry.value, DecodeEntries(buf.data, h, t, buf.position, i + 1));
      entries := entries + [entry.value];
      i := i + 1;
    }
    assert entries + [] == entries;
    r, printed := Ok(entries), entries;
  }

  /** One printed entry moves from the entries still to print to the entries printed. */
  lemma PrintedStep(d: seq<Byte>, h: Header, t: StringTables, p: nat, i: nat, entries: seq<AllocEntry>)
    requires i < h.numEntries && DecodeEntry(d, h, t, p, i).Ok?
    ensures var e := DecodeEntry(d, h, t, p, i).value;
      entries + PrintedEntries(d, h, t, p, i) == (entries + [e.0]) + PrintedEntries(d, h, t, e.1, i + 1)
  {
    var e := DecodeEntry(d, h, t, p, i).value;
    assert PrintedEntries(d, h, t, p, i) == [e.0] + PrintedEntries(d, h, t, e.1, i + 1);
  }

  /**
   * parse: the decoded entries or the exception it ends with, and the
   * entries its printf calls print on the way, in order.
   */
  method Parse(data: seq<Byte>) returns (r: Result<seq<AllocEntry>, DecodeError>, printed: seq<AllocEntry>)
    ensures r == Decode(data)
    ensures printed == Printed(data)
  {
    printed := [];
    var buf := new ByteBuffer.Wrap(data);
    var h :- ReadHeaderFields(buf);
    var t :- ReadStringTables(buf, h);

    // Skip back to a point just past the header and start reading entries.
    var moved := buf.SetPosition(h.messageHdrLen);
    if moved.Err? {
      return Err(moved.error), printed;
    }
    r, printed := ReadEntries(buf, h, t);
  }
}
