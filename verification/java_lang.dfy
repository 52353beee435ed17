/**
 * The slice of java.lang behaviour the analysed code depends on: boxed
 * option and result values, String.startsWith / contains / compareTo,
 * Long.compare, Long.toString / Integer.toString and Long.parseLong, and
 * StackTraceElement. Library behaviour the model does not interpret
 * (StackTraceElement.toString and regular-expression matching) is
 * supplied by the caller as a `Library` value.
 */
module JavaLang {

  datatype Option<+T> = None | Some(value: T)

  /** A value, or the exception that the Java code would have thrown. */
  datatype Result<+T, +E> = Ok(value: T) | Err(error: E) {
    predicate IsFailure() { Err? }
    function PropagateFailure<U>(): Result<U, E> requires Err? { Err(error) }
    function Extract(): T requires Ok? { value }
  }

  const MinLong: int := -0x8000_0000_0000_0000
  const MaxLong: int := 0x7fff_ffff_ffff_ffff

  /** Java's `int`. */
  type Int32 = x: int | -0x8000_0000 <= x < 0x8000_0000

  /** java.lang.StackTraceElement: class, method, optional file and a line number. */
  datatype StackTraceElement = StackTraceElement(
    className: string,
    methodName: string,
    fileName: Option<string>,
    lineNumber: int)

  /**
   * Library behaviour taken as given: the JDK's rendering of a frame, and
   * `Pattern.compile(pattern).matcher(s).matches()` (a match of the WHOLE
   * of `s`).
   */
  datatype Library = Library(
    steToString: StackTraceElement -> string,
    fullMatch: (string, string) -> bool)

  // ---------------------------------------------------------------------
  // Strings

  predicate StartsWith(s: string, prefix: string) {
    |prefix| <= |s| && s[..|prefix|] == prefix
  }

  predicate OccursAt(s: string, needle: string, i: int) {
    0 <= i <= |s| - |needle| && s[i..i + |needle|] == needle
  }

  /** String.contains: `needle` occurs somewhere in `s` (the empty needle always does). */
  predicate Contains(s: string, needle: string) {
    exists i | 0 <= i <= |s| - |needle| :: OccursAt(s, needle, i)
  }

  lemma {:induction false} ContainsItself(s: string)
    ensures Contains(s, s)
  {
    assert s[0..|s|] == s;
    assert OccursAt(s, s, 0);
  }

  /** A string contains every string that occurs in one of its parts. */
  lemma ContainsInfix(a: string, b: string, c: string, needle: string)
    requires Contains(b, needle)
    ensures Contains(a + b + c, needle)
  {
    var i :| 0 <= i <= |b| - |needle| && OccursAt(b, needle, i);
    var s := a + b + c;
    assert s[|a| + i..|a| + i + |needle|] == b[i..i + |needle|];
    assert OccursAt(s, needle, |a| + i);
  }

  /**
   * The UTF-16 code units Java stores for one character: the character
   * itself below U+10000, otherwise a high and a low surrogate.
   */
  function CharUnits(c: char): (u: seq<int>)
    ensures 1 <= |u| <= 2 && forall i | 0 <= i < |u| :: 0 <= u[i] < 0x1_0000
    ensures |u| == 1 <==> c as int < 0x1_0000
    ensures |u| == 1 ==> !(0xD800 <= u[0] < 0xE000)
    ensures |u| == 2 ==> 0xD800 <= u[0] < 0xDC00 && 0xDC00 <= u[1] < 0xE000
  {
    if c as int < 0x1_0000 then [c as int]
    else
      var v := c as int - 0x1_0000;
      [0xD800 + v / 0x400, 0xDC00 + v % 0x400]
  }

  /** A String's chars: the UTF-16 encoding of the text. */
  function Utf16(s: string): (u: seq<int>)
    ensures |u| >= |s|
  {
    if s == [] then [] else CharUnits(s[0]) + Utf16(s[1..])
  }

  /** Two texts with the same UTF-16 units are the same text. */
  lemma {:induction false} Utf16Injective(a: string, b: string)
    requires Utf16(a) == Utf16(b)
    ensures a == b
  {
    if a != [] && b != [] {
      var ua, ub := CharUnits(a[0]), CharUnits(b[0]);
      assert Utf16(a) == ua + Utf16(a[1..]) && Utf16(b) == ub + Utf16(b[1..]);
      assert Utf16(a)[0] == ua[0] && Utf16(b)[0] == ub[0];
      assert |ua| == |ub|;
      assert ua == Utf16(a)[..|ua|] && ub == Utf16(b)[..|ub|];
      if |ua| == 2 {
        var va, vb := a[0] as int - 0x1_0000, b[0] as int - 0x1_0000;
        assert va == 0x400 * (va / 0x400) + va % 0x400 && vb == 0x400 * (vb / 0x400) + vb % 0x400;
      }
      assert a[0] == b[0];
      assert Utf16(a[1..]) == Utf16(a)[|ua|..] == Utf16(b)[|ub|..] == Utf16(b[1..]);
      Utf16Injective(a[1..], b[1..]);
      assert a == [a[0]] + a[1..] && b == [b[0]] + b[1..];
    }
  }

  /** String.length(): the number of UTF-16 units. */
  function JavaLength(s: string): nat {
    |Utf16(s)|
  }

  /** Encoding distributes over concatenation. */
  lemma {:induction false} Utf16Concat(a: string, b: string)
    ensures Utf16(a + b) == Utf16(a) + Utf16(b)
  {
    if a == [] {
      assert a + b == b;
    } else {
      assert (a + b)[0] == a[0] && (a + b)[1..] == a[1..] + b;
      Utf16Concat(a[1..], b);
    }
  }

  /** Text below U+10000 is one unit per character, each the character's value. */
  lemma {:induction false} Utf16OfBmp(s: string)
    requires forall i | 0 <= i < |s| :: s[i] as int < 0x1_0000
    ensures |Utf16(s)| == |s| && forall i | 0 <= i < |s| :: Utf16(s)[i] == s[i] as int
  {
    if s != [] {
      Utf16OfBmp(s[1..]);
      assert Utf16(s) == [s[0] as int] + Utf16(s[1..]);
      forall i | 0 < i < |s|
        ensures Utf16(s)[i] == s[i] as int
      {
        assert s[1..][i - 1] == s[i];
      }
    }
  }

  /** The comparison loop of String.compareTo over two arrays of code units. */
  function UnitCompare(a: seq<int>, b: seq<int>): (c: int)
    ensures c == 0 <==> a == b
  {
    if |a| == 0 || |b| == 0 then |a| - |b|
    else if a[0] != b[0] then a[0] - b[0]
    else
      var c := UnitCompare(a[1..], b[1..]);
      assert a == [a[0]] + a[1..] && b == [b[0]] + b[1..];
      c
  }

  /**
   * String.compareTo: the difference of the first pair of differing UTF-16
   * units, or else the difference of the lengths in units. A character
   * above U+FFFF compares by its high surrogate, so it sorts before
   * U+E000..U+FFFF.
   */
  function CompareTo(a: string, b: string): (c: int)
    ensures c == 0 <==> a == b
  {
    var c := UnitCompare(Utf16(a), Utf16(b));
    if c == 0 then Utf16Injective(a, b); c else c
  }

  lemma {:induction false} UnitCompareAntisymmetric(a: seq<int>, b: seq<int>)
    ensures UnitCompare(a, b) == -UnitCompare(b, a)
  {
    if |a| > 0 && |b| > 0 && a[0] == b[0] {
      UnitCompareAntisymmetric(a[1..], b[1..]);
    }
  }

  lemma {:induction false} UnitCompareTransitive(a: seq<int>, b: seq<int>, c: seq<int>)
    ensures UnitCompare(a, b) <= 0 && UnitCompare(b, c) <= 0 ==> UnitCompare(a, c) <= 0
    ensures UnitCompare(a, b) < 0 && UnitCompare(b, c) <= 0 ==> UnitCompare(a, c) < 0
    ensures UnitCompare(a, b) <= 0 && UnitCompare(b, c) < 0 ==> UnitCompare(a, c) < 0
  {
    if |a| > 0 && |b| > 0 && |c| > 0 && a[0] == b[0] == c[0] {
      UnitCompareTransitive(a[1..], b[1..], c[1..]);
    }
  }

  lemma CompareToAntisymmetric(a: string, b: string)
    ensures CompareTo(a, b) == -CompareTo(b, a)
  {
    UnitCompareAntisymmetric(Utf16(a), Utf16(b));
  }

  /** The order String.compareTo induces is transitive, for `<=` and for `<`. */
  lemma CompareToTransitive(a: string, b: string, c: string)
    ensures CompareTo(a, b) <= 0 && CompareTo(b, c) <= 0 ==> CompareTo(a, c) <= 0
    ensures CompareTo(a, b) < 0 && CompareTo(b, c) <= 0 ==> CompareTo(a, c) < 0
    ensures CompareTo(a, b) <= 0 && CompareTo(b, c) < 0 ==> CompareTo(a, c) < 0
  {
    UnitCompareTransitive(Utf16(a), Utf16(b), Utf16(c));
  }

  /** A character above U+FFFF sorts before U+FFFD, as its high surrogate does. */
  lemma SupplementarySortsBySurrogate()
    ensures CompareTo("\U{FFFD}", "\U{1D4B3}") > 0
  {
    assert Utf16("\U{FFFD}") == [0xFFFD];
    assert CharUnits('\U{1D4B3}')[0] == 0xD835;
  }

  /** Long.compare / Integer.compare. */
  function LongCompare(x: int, y: int): (c: int)
    ensures c < 0 <==> x < y
    ensures c == 0 <==> x == y
    ensures c > 0 <==> x > y
  {
    if x < y then -1 else if x == y then 0 else 1
  }

  // ---------------------------------------------------------------------
  // Decimal conversion

  predicate IsDigit(c: char) { '0' <= c <= '9' }

  predicate AllDigits(s: string) { forall i | 0 <= i < |s| :: IsDigit(s[i]) }

  function DigitChar(d: int): (c: char)
    requires 0 <= d < 10
    ensures IsDigit(c) && c as int - '0' as int == d
  {
    ('0' as int + d) as char
  }

  /** The value of a string of decimal digits, most significant first. */
  function DigitsValue(s: string): nat
    requires AllDigits(s)
  {
    if s == [] then 0
    else DigitsValue(s[..|s| - 1]) * 10 + (s[|s| - 1] as int - '0' as int)
  }

  /** The decimal digits of a natural number, without leading zeros. */
  function NatToString(n: nat): (s: string)
    ensures |s| > 0 && AllDigits(s)
  {
    if n < 10 then [DigitChar(n)] else NatToString(n / 10) + [DigitChar(n % 10)]
  }

  /** Long.toString / Integer.toString / String.valueOf on an integer. */
  function IntToString(n: int): (s: string)
    ensures |s| > 0
  {
    if n < 0 then "-" + NatToString(-n) else NatToString(n)
  }

  /**
   * Long.parseLong over ASCII digits: an optional '+' or '-', at least one
   * digit, and a value in the range of a Java long; anything else is the
   * NumberFormatException (None).
   */
  function ParseLong(s: string): (r: Option<int>)
    ensures r.Some? ==> MinLong <= r.value <= MaxLong
  {
    if |s| == 0 then None
    else
      var body := if s[0] == '-' || s[0] == '+' then s[1..] else s;
      if |body| == 0 || !AllDigits(body) then None
      else
        var n: int := DigitsValue(body);
        var v := if s[0] == '-' then -n else n;
        if MinLong <= v <= MaxLong then Some(v) else None
  }

  lemma {:induction false} DigitsValueOfNatToString(n: nat)
    ensures DigitsValue(NatToString(n)) == n
  {
    if n >= 10 {
      var s := NatToString(n);
      assert s[..|s| - 1] == NatToString(n / 10);
      DigitsValueOfNatToString(n / 10);
    }
  }

  /** Printing a long and parsing it back gives the same long. */
  lemma {:induction false} ParseLongOfIntToString(n: int)
    requires MinLong <= n <= MaxLong
    ensures ParseLong(IntToString(n)) == Some(n)
  {
    var s := IntToString(n);
    if n < 0 {
      assert s[1..] == NatToString(-n);
      DigitsValueOfNatToString(-n);
    } else {
      DigitsValueOfNatToString(n);
    }
  }
}
