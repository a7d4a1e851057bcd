/**
 * The parts of Java's `String`, `Character` and `Integer` behaviour that the
 * plugin relies on, written out over `string`. A `char` here is a Unicode
 * scalar value, while a Java `char` is a UTF-16 code unit: `String.length()`
 * is therefore `Utf16Length`, which counts a character beyond U+FFFF twice.
 * Case mapping is modelled for the ASCII letters only.
 */
module JavaText {
  import opened Wrappers

  // ---------------------------------------------------------------------------
  // Character classes
  // ---------------------------------------------------------------------------

  /** `Character.isISOControl`: U+0000..U+001F and U+007F..U+009F. */
  predicate IsIsoControl(c: char) {
    c as int <= 0x1F || (0x7F <= c as int <= 0x9F)
  }

  /** The characters `String.trim()` removes: every code unit up to U+0020. */
  predicate IsTrimChar(c: char) {
    c as int <= 0x20
  }

  /** `Character.isWhitespace`, restricted to the ASCII range. */
  predicate IsWhitespace(c: char) {
    c as int == 0x20 || (0x09 <= c as int <= 0x0D) || (0x1C <= c as int <= 0x1F)
  }

  /** The class `\s` of a Java regular expression: space, \t, \n, \x0B, \f, \r. */
  predicate IsRegexSpace(c: char) {
    c as int == 0x20 || (0x09 <= c as int <= 0x0D)
  }

  predicate IsDigit(c: char) {
    '0' <= c <= '9'
  }

  predicate AllDigits(s: string) {
    forall i :: 0 <= i < |s| ==> IsDigit(s[i])
  }

  /** `String.isBlank()`: empty or only white space. */
  predicate IsBlank(s: string) {
    forall i :: 0 <= i < |s| ==> IsWhitespace(s[i])
  }

  // ---------------------------------------------------------------------------
  // length()
  // ---------------------------------------------------------------------------

  /** The number of UTF-16 code units of `c`: two for a character beyond U+FFFF (a surrogate pair). */
  function Utf16Units(c: char): nat {
    if c as int < 0x1_0000 then 1 else 2
  }

  /**
   * `String.length()`: the number of UTF-16 code units. It lies between the
   * number of characters and twice that; it is the number of characters when
   * every character is in the Basic Multilingual Plane, and twice that when none is.
   */
  function Utf16Length(s: string): (n: nat)
    ensures |s| <= n <= 2 * |s|
    ensures (forall i :: 0 <= i < |s| ==> s[i] as int < 0x1_0000) ==> n == |s|
    ensures (forall i :: 0 <= i < |s| ==> s[i] as int >= 0x1_0000) ==> n == 2 * |s|
  {
    if s == [] then 0 else Utf16Length(s[..|s| - 1]) + Utf16Units(s[|s| - 1])
  }

  /** The length of a concatenation is the sum of the lengths. */
  lemma {:induction false} Utf16LengthAppend(a: string, b: string)
    ensures Utf16Length(a + b) == Utf16Length(a) + Utf16Length(b)
    decreases |b|
  {
    if b != [] {
      var init := b[..|b| - 1];
      assert (a + b)[..|a + b| - 1] == a + init;
      Utf16LengthAppend(a, init);
    } else {
      assert a + b == a;
    }
  }

  // ---------------------------------------------------------------------------
  // trim()
  // ---------------------------------------------------------------------------

  /** Neither the first nor the last character is one that `trim()` removes. */
  predicate IsTrimmed(s: string) {
    s == [] || (!IsTrimChar(s[0]) && !IsTrimChar(s[|s| - 1]))
  }

  function TrimStart(s: string): (r: string)
    ensures |r| <= |s|
    ensures r == [] || !IsTrimChar(r[0])
    ensures s != [] && !IsTrimChar(s[0]) ==> r == s
  {
    if s != [] && IsTrimChar(s[0]) then TrimStart(s[1..]) else s
  }

  function TrimEnd(s: string): (r: string)
    ensures |r| <= |s|
    ensures r == [] || !IsTrimChar(r[|r| - 1])
    ensures s != [] && !IsTrimChar(s[|s| - 1]) ==> r == s
  {
    if s != [] && IsTrimChar(s[|s| - 1]) then TrimEnd(s[..|s| - 1]) else s
  }

  /** `TrimStart` removes a prefix. */
  lemma {:induction false} TrimStartSuffix(s: string)
    ensures TrimStart(s) == s[|s| - |TrimStart(s)|..]
  {
    if s != [] && IsTrimChar(s[0]) {
      TrimStartSuffix(s[1..]);
    }
  }

  /** `TrimEnd` removes a suffix. */
  lemma {:induction false} TrimEndPrefix(s: string)
    ensures TrimEnd(s) == s[..|TrimEnd(s)|]
  {
    if s != [] && IsTrimChar(s[|s| - 1]) {
      TrimEndPrefix(s[..|s| - 1]);
    }
  }

  /** `String.trim()`: the result is trimmed, and trimming is the identity on trimmed text. */
  function Trim(s: string): (r: string)
    ensures IsTrimmed(r)
    ensures |r| <= |s|
    ensures IsTrimmed(s) ==> r == s
  {
    TrimEndPrefix(TrimStart(s));
    TrimEnd(TrimStart(s))
  }

  /** Trimming only removes characters: every character of the trimmed text occurs in the input. */
  lemma TrimKeepsCharacters(s: string)
    ensures forall c :: c in Trim(s) ==> c in s
  {
    var t := TrimStart(s);
    var i := |s| - |t|;
    var r := Trim(s);
    TrimStartSuffix(s);
    TrimEndPrefix(t);
    assert r == t[..|r|];
    forall c | c in r
      ensures c in s
    {
      var k :| 0 <= k < |r| && r[k] == c;
      assert s[i + k] == c;
    }
  }

  // ---------------------------------------------------------------------------
  // Case mapping
  // ---------------------------------------------------------------------------

  function LowerChar(c: char): char {
    if 'A' <= c <= 'Z' then (c as int + 32) as char else c
  }

  /** `String.toLowerCase(Locale.ROOT)` on the ASCII letters; other characters are kept. */
  function ToLower(s: string): (r: string)
    ensures |r| == |s|
    ensures forall i :: 0 <= i < |s| ==> r[i] == LowerChar(s[i])
  {
    seq(|s|, i requires 0 <= i < |s| => LowerChar(s[i]))
  }

  /** `String.equalsIgnoreCase`, on the ASCII letters: same length, and equal character by character once lower-cased. */
  predicate EqualsIgnoreCase(a: string, b: string) {
    |a| == |b| && (a == [] || (LowerChar(a[0]) == LowerChar(b[0]) && EqualsIgnoreCase(a[1..], b[1..])))
  }

  /** Every text equals itself without regard to case. */
  lemma {:induction false} EqualsIgnoreCaseReflexive(a: string)
    ensures EqualsIgnoreCase(a, a)
  {
    if a != [] {
      EqualsIgnoreCaseReflexive(a[1..]);
    }
  }

  /** Comparing without regard to case is comparing the lower-cased texts. */
  lemma {:induction false} EqualsIgnoreCaseIsLowerEqual(a: string, b: string)
    ensures EqualsIgnoreCase(a, b) <==> ToLower(a) == ToLower(b)
  {
    if |a| == |b| && a != [] {
      EqualsIgnoreCaseIsLowerEqual(a[1..], b[1..]);
      assert ToLower(a) == [LowerChar(a[0])] + ToLower(a[1..]);
      assert ToLower(b) == [LowerChar(b[0])] + ToLower(b[1..]);
    }
  }

  /** Lower-casing keeps a trimmed string trimmed and is idempotent. */
  lemma ToLowerTrimmed(s: string)
    ensures IsTrimmed(s) ==> IsTrimmed(ToLower(s))
    ensures ToLower(ToLower(s)) == ToLower(s)
  {
  }

  // ---------------------------------------------------------------------------
  // Searching and replacing
  // ---------------------------------------------------------------------------

  /** `String.indexOf(char)`: the first position of `c`, or -1. */
  function IndexOf(s: string, c: char): (i: int)
    ensures -1 <= i < |s|
    ensures 0 <= i ==> s[i] == c && forall k :: 0 <= k < i ==> s[k] != c
    ensures i == -1 <==> c !in s
  {
    if s == [] then -1
    else if s[0] == c then 0
    else
      var j := IndexOf(s[1..], c);
      if j < 0 then -1 else j + 1
  }

  /**
   * `String.replace(target, replacement)`: every non-overlapping occurrence of
   * `target`, found from left to right, is replaced.
   */
  function Replace(s: string, target: string, replacement: string): string
    requires target != []
    decreases |s|
  {
    if |s| < |target| then s
    else if s[..|target|] == target then replacement + Replace(s[|target|..], target, replacement)
    else [s[0]] + Replace(s[1..], target, replacement)
  }

  /** Text that does not contain the first character of `target` is copied unchanged, in front of the rest. */
  lemma {:induction false} ReplaceSkipsPrefix(a: string, t: string, target: string, replacement: string)
    requires target != [] && target[0] !in a
    ensures Replace(a + t, target, replacement) == a + Replace(t, target, replacement)
    decreases |a|
  {
    if a != [] {
      var s := a + t;
      assert s[0] == a[0] != target[0];
      if |s| < |target| {
        assert |t| < |target|;
      } else {
        assert s[..|target|] != target;
      }
      assert s[1..] == a[1..] + t;
      ReplaceSkipsPrefix(a[1..], t, target, replacement);
    } else {
      assert a + t == t;
    }
  }

  /** An occurrence of `target` at the front is replaced. */
  lemma ReplaceAtFront(t: string, target: string, replacement: string)
    requires target != []
    ensures Replace(target + t, target, replacement) == replacement + Replace(t, target, replacement)
  {
    var s := target + t;
    assert s[..|target|] == target;
    assert s[|target|..] == t;
  }

  /** Text without the first character of `target` has nothing to replace. */
  lemma ReplaceAbsent(s: string, target: string, replacement: string)
    requires target != [] && target[0] !in s
    ensures Replace(s, target, replacement) == s
  {
    ReplaceSkipsPrefix(s, [], target, replacement);
    assert s + [] == s;
  }

  // ---------------------------------------------------------------------------
  // Integer.toString and Integer.parseInt
  // ---------------------------------------------------------------------------

  const MIN_INT: int := -0x8000_0000
  const MAX_INT: int := 0x7FFF_FFFF

  function DigitChar(d: nat): (c: char)
    requires d < 10
    ensures IsDigit(c) && c as int - '0' as int == d
  {
    ('0' as int + d) as char
  }

  /** The value of a string of decimal digits. */
  function DigitsValue(s: string): nat
    requires AllDigits(s)
  {
    if s == [] then 0 else DigitsValue(s[..|s| - 1]) * 10 + (s[|s| - 1] as int - '0' as int)
  }

  /** The decimal digits of `n`, most significant first, without leading zeros. */
  function NatToString(n: nat): (r: string)
    ensures r != [] && AllDigits(r)
    ensures DigitsValue(r) == n
    decreases n
  {
    if n < 10 then [DigitChar(n)]
    else
      var prefix := NatToString(n / 10);
      var r := prefix + [DigitChar(n % 10)];
      assert r[..|r| - 1] == prefix;
      r
  }

  /** `String.valueOf(int)`. */
  function IntToString(n: int): (r: string)
    ensures r != []
    ensures forall c :: c in r ==> IsDigit(c) || c == '-'
  {
    if n < 0 then "-" + NatToString(-n) else NatToString(n)
  }

  /**
   * `Integer.parseInt`: an optional sign followed by at least one decimal digit,
   * with a value inside the 32-bit range; anything else is a NumberFormatException (None).
   */
  function ParseInt(s: string): (r: Option<int>)
    ensures r.Some? ==> MIN_INT <= r.value <= MAX_INT
  {
    if s == [] then None
    else
      var negative := s[0] == '-';
      var digits := if s[0] == '-' || s[0] == '+' then s[1..] else s;
      if digits == [] || !AllDigits(digits) then None
      else
        var v: int := if negative then -(DigitsValue(digits) as int) else DigitsValue(digits);
        if MIN_INT <= v <= MAX_INT then Some(v) else None
  }

  /** Parsing what `String.valueOf` printed gives the number back. */
  lemma ParseIntRoundTrip(n: int)
    requires MIN_INT <= n <= MAX_INT
    ensures ParseInt(IntToString(n)) == Some(n)
  {
    if n < 0 {
      var s := IntToString(n);
      assert s[1..] == NatToString(-n);
    } else {
      var s := NatToString(n);
      assert IsDigit(s[0]);
    }
  }
}
