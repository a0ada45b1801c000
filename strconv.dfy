/**
 * Go's `strconv.ParseInt(s, 6, 12)`: the call the extract service uses to
 * read one "partial extraction" index. Base 6, 12-bit result, and the
 * service ignores the returned error and keeps the value.
 */
module Strconv {

  /** How a parse ended: the error kinds `strconv` distinguishes. */
  datatype Status = Ok | SyntaxError | RangeError

  datatype Parsed = Parsed(value: int, status: Status)

  const Base: nat := 6
  /** Largest magnitude `ParseUint` accepts for bit size 12: 1<<12 - 1. */
  const MaxUnsigned: nat := 4095
  /** 1<<(12-1): the bound of the signed 12-bit range [-2048, 2047]. */
  const SignedCutoff: nat := 2048

  /** Digit value of a character in base 6, or -1 when it is not such a digit. */
  function DigitValue(c: char): (d: int)
    ensures -1 <= d < Base as int
    ensures d >= 0 <==> '0' <= c <= '5'
  {
    if '0' <= c <= '5' then c as int - '0' as int else -1
  }

  /**
   * `strconv.ParseUint(s[i..], 6, 12)` with `n` already accumulated. Digits
   * are read left to right; an invalid character is a syntax error with value
   * 0, and the first digit that takes the value past 4095 is a range error
   * with value 4095, whatever follows it.
   */
  function ParseUintFrom(s: string, i: nat, n: nat): (p: Parsed)
    requires i <= |s| && n <= MaxUnsigned
    ensures 0 <= p.value <= MaxUnsigned
    ensures p.status == SyntaxError ==> p.value == 0
    ensures p.status == RangeError ==> p.value == MaxUnsigned
    decreases |s| - i
  {
    if i == |s| then Parsed(n, Ok)
    else
      var d := DigitValue(s[i]);
      if d < 0 then Parsed(0, SyntaxError)
      else if n * Base + d > MaxUnsigned then Parsed(MaxUnsigned, RangeError)
      else ParseUintFrom(s, i + 1, n * Base + d)
  }

  /** `strconv.ParseUint(s, 6, 12)`; the empty string is a syntax error. */
  function ParseUint(s: string): (p: Parsed)
    ensures 0 <= p.value <= MaxUnsigned
    ensures p.status == SyntaxError ==> p.value == 0
  {
    if s == [] then Parsed(0, SyntaxError) else ParseUintFrom(s, 0, 0)
  }

  /**
   * `strconv.ParseInt(s, 6, 12)`: an optional sign, then `ParseUint`; a
   * magnitude outside the signed 12-bit range is clamped to 2047 or -2048 and
   * reported as a range error.
   */
  function ParseInt(s: string): (p: Parsed)
    ensures -(SignedCutoff as int) <= p.value < SignedCutoff as int
    ensures p.status == SyntaxError ==> p.value == 0
    ensures p.status == RangeError ==> s != [] && (p.value == 2047 <==> s[0] != '-') && (p.value == 2047 || p.value == -2048)
  {
    if s == [] then Parsed(0, SyntaxError)
    else
      var neg := s[0] == '-';
      var digits := if s[0] == '+' || s[0] == '-' then s[1..] else s;
      var un := ParseUint(digits);
      if un.status == SyntaxError then Parsed(0, SyntaxError)
      else if !neg && un.value >= SignedCutoff then Parsed(SignedCutoff - 1, RangeError)
      else if neg && un.value > SignedCutoff then Parsed(-(SignedCutoff as int), RangeError)
      else Parsed(if neg then -un.value else un.value, un.status)
  }

  /** The base-6 value of a string of digits '0'..'5', read left to right. */
  function Base6Value(s: string): nat
    requires forall i :: 0 <= i < |s| ==> '0' <= s[i] <= '5'
  {
    if s == [] then 0 else Base6Value(s[..|s| - 1]) * Base + DigitValue(s[|s| - 1])
  }

  /**
   * Reading digits one at a time accumulates the base-6 value: from `n` after
   * `s[..i]`, the rest of a digit string whose full value stays within 4095
   * parses to exactly that value.
   */
  lemma {:induction false} ParseUintFromDigits(s: string, i: nat)
    requires i <= |s|
    requires forall k :: 0 <= k < |s| ==> '0' <= s[k] <= '5'
    requires Base6Value(s) <= MaxUnsigned
    ensures Base6Value(s[..i]) <= MaxUnsigned
    ensures ParseUintFrom(s, i, Base6Value(s[..i])) == Parsed(Base6Value(s), Ok)
    decreases |s| - i
  {
    PrefixValueBounded(s, i);
    if i < |s| {
      assert s[..i + 1][..i] == s[..i];
      PrefixValueBounded(s, i + 1);
      ParseUintFromDigits(s, i + 1);
    } else {
      assert s[..i] == s;
    }
  }

  /** A prefix of a digit string is worth no more than the whole string. */
  lemma {:induction false} PrefixValueBounded(s: string, i: nat)
    requires i <= |s|
    requires forall k :: 0 <= k < |s| ==> '0' <= s[k] <= '5'
    ensures Base6Value(s[..i]) <= Base6Value(s)
    decreases |s| - i
  {
    if i < |s| {
      assert s[..i + 1][..i] == s[..i];
      PrefixValueBounded(s, i + 1);
    } else {
      assert s[..i] == s;
    }
  }

  /**
   * A non-empty unsigned string of base-6 digits worth less than 2048 parses to
   * its value with no error.
   */
  lemma ParseIntDigits(s: string)
    requires s != [] && forall k :: 0 <= k < |s| ==> '0' <= s[k] <= '5'
    requires Base6Value(s) < SignedCutoff
    ensures ParseInt(s) == Parsed(Base6Value(s), Ok)
  {
    ParseUintFromDigits(s, 0);
    assert s[..0] == [];
  }

  /**
   * An unsigned digit string worth 2048..4095 fits `ParseUint` but not the
   * signed range, so it is clamped to 2047 with a range error.
   */
  lemma UnsignedOverflowClamps(s: string)
    requires s != [] && forall k :: 0 <= k < |s| ==> '0' <= s[k] <= '5'
    requires SignedCutoff <= Base6Value(s) <= MaxUnsigned
    ensures ParseInt(s) == Parsed(2047, RangeError)
  {
    ParseUintFromDigits(s, 0);
    assert s[..0] == [];
  }

  /**
   * '-' and a digit string worth at most 4095: the negated value when it is
   * at least -2048, else -2048 with a range error.
   */
  lemma NegativeNumerals(digits: string)
    requires digits != [] && forall k :: 0 <= k < |digits| ==> '0' <= digits[k] <= '5'
    requires Base6Value(digits) <= MaxUnsigned
    ensures Base6Value(digits) <= SignedCutoff ==> ParseInt("-" + digits) == Parsed(-(Base6Value(digits) as int), Ok)
    ensures Base6Value(digits) > SignedCutoff ==> ParseInt("-" + digits) == Parsed(-2048, RangeError)
  {
    ParseUintFromDigits(digits, 0);
    assert digits[..0] == [];
    assert ("-" + digits)[1..] == digits;
  }

  /** Once the digits read so far are worth more than 4095, the rest is not looked at. */
  lemma {:induction false} OverflowFrom(s: string, k: nat, i: nat)
    requires i < k <= |s| && forall j :: 0 <= j < k ==> '0' <= s[j] <= '5'
    requires Base6Value(s[..k]) > MaxUnsigned && Base6Value(s[..i]) <= MaxUnsigned
    ensures ParseUintFrom(s, i, Base6Value(s[..i])) == Parsed(MaxUnsigned, RangeError)
    decreases k - i
  {
    assert s[..i + 1][..i] == s[..i];
    var next := Base6Value(s[..i + 1]);
    assert next == Base6Value(s[..i]) * Base + DigitValue(s[i]);
    if next <= MaxUnsigned {
      assert i + 1 < k;
      OverflowFrom(s, k, i + 1);
    }
  }

  /**
   * A run of leading digits worth more than 4095 is a range error whatever
   * follows it: 2047 unsigned, -2048 after a '-'.
   */
  lemma OverflowPrefixClamps(s: string, k: nat)
    requires 0 < k <= |s| && forall j :: 0 <= j < k ==> '0' <= s[j] <= '5'
    requires Base6Value(s[..k]) > MaxUnsigned
    ensures ParseInt(s) == Parsed(2047, RangeError)
    ensures ParseInt("-" + s) == Parsed(-2048, RangeError)
  {
    assert s[..0] == [];
    OverflowFrom(s, k, 0);
    assert ("-" + s)[1..] == s;
  }

  /** A first character outside '0'..'5' (after an optional sign) makes the parse a syntax error worth 0. */
  lemma BadLeadingDigit(s: string)
    requires s != []
    requires var digits := if s[0] == '+' || s[0] == '-' then s[1..] else s;
      digits == [] || !('0' <= digits[0] <= '5')
    ensures ParseInt(s) == Parsed(0, SyntaxError)
  {
  }

  /** "2" is 2 and "10" is six. */
  lemma SmallNumerals()
    ensures ParseInt("2").value == 2
    ensures ParseInt("10").value == 6
  {
    assert Base6Value("2") == 2 by { assert "2"[..0] == []; }
    ParseIntDigits("2");
    assert Base6Value("10") == 6 by { assert "10"[..1] == "1"; assert "1"[..0] == []; }
    ParseIntDigits("10");
  }

  /** A run of digits is clamped to 12 bits before a later bad character is seen. */
  lemma ClampedNumeral()
    ensures ParseInt("55555x") == Parsed(2047, RangeError)
  {
    var t := "55555x";
    assert ParseUintFrom(t, 4, 1295) == Parsed(4095, RangeError);
    assert ParseUintFrom(t, 3, 215) == ParseUintFrom(t, 4, 1295);
    assert ParseUintFrom(t, 2, 35) == ParseUintFrom(t, 3, 215);
    assert ParseUintFrom(t, 1, 5) == ParseUintFrom(t, 2, 35);
    assert ParseUintFrom(t, 0, 0) == ParseUintFrom(t, 1, 5);
  }

  /** "-1" is -1. */
  lemma NegativeNumeral()
    ensures ParseInt("-1").value == -1
  {
    assert ParseUintFrom("1", 0, 0) == Parsed(1, Ok) by {
      assert ParseUintFrom("1", 1, 1) == Parsed(1, Ok);
    }
    assert "-1"[1..] == "1";
  }

  /** Examples: "2" is 2, "10" is six, "6" is not a base-6 number, and a long run of digits is clamped before a later bad character is seen. */
  lemma Examples()
    ensures ParseInt("2").value == 2
    ensures ParseInt("10").value == 6
    ensures ParseInt("6") == Parsed(0, SyntaxError)
    ensures ParseInt("55555x") == Parsed(2047, RangeError)
    ensures ParseInt("-1").value == -1
  {
    SmallNumerals();
    BadLeadingDigit("6");
    ClampedNumeral();
    NegativeNumeral();
  }
}
