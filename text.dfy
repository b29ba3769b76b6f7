/**
 * The string and number functions of Go's `strings` and `strconv` packages
 * that the server's framing code relies on. A Go string is a sequence of
 * bytes; here each `char` of a `string` stands for one byte.
 */
module Text {
  import opened Outcomes

  /** `pat` occurs in `s` starting at position `i`. */
  predicate At(s: string, pat: string, i: int) {
    0 <= i && i + |pat| <= |s| && s[i..i + |pat|] == pat
  }

  /** `pat` occurs nowhere in `s`. */
  ghost predicate Free(s: string, pat: string) {
    forall i :: !At(s, pat, i)
  }

  /** The first occurrence of `pat` at or after `from`, or -1. */
  function IndexFrom(s: string, pat: string, from: nat): (r: int)
    decreases |s| - from
    ensures r == -1 || (from <= r && At(s, pat, r))
    ensures forall j :: from <= j && (r == -1 || j < r) ==> !At(s, pat, j)
  {
    if from + |pat| > |s| then -1
    else if s[from..from + |pat|] == pat then from
    else IndexFrom(s, pat, from + 1)
  }

  /** strings.Index: the position of the first occurrence of `pat` in `s`, or -1. */
  function IndexOf(s: string, pat: string): (r: int)
    ensures r == -1 || At(s, pat, r)
    ensures forall j :: 0 <= j && (r == -1 || j < r) ==> !At(s, pat, j)
  {
    IndexFrom(s, pat, 0)
  }

  /** The last occurrence of `pat` starting before `n`, or -1. */
  function LastBefore(s: string, pat: string, n: nat): (r: int)
    ensures -1 <= r < n
    ensures r >= 0 ==> At(s, pat, r)
    ensures forall j :: r < j < n ==> !At(s, pat, j)
  {
    if n == 0 then -1
    else if At(s, pat, n - 1) then n - 1
    else LastBefore(s, pat, n - 1)
  }

  /** strings.LastIndex: the position of the last occurrence of `pat` in `s`, or -1. */
  function LastIndexOf(s: string, pat: string): (r: int)
    ensures r == -1 || At(s, pat, r)
    ensures forall j :: r < j ==> !At(s, pat, j)
  {
    LastBefore(s, pat, |s| + 1)
  }

  /** strings.Contains */
  function Contains(s: string, pat: string): (b: bool)
    ensures b <==> exists i :: At(s, pat, i)
  {
    IndexOf(s, pat) >= 0
  }

  /** strings.HasPrefix: `s` is at least as long as `prefix` and agrees with it character by character. */
  function HasPrefix(s: string, prefix: string): (b: bool)
    ensures b <==> |prefix| <= |s| && forall i :: 0 <= i < |prefix| ==> s[i] == prefix[i]
  {
    |prefix| <= |s| && s[..|prefix|] == prefix
  }

  /** strings.TrimPrefix: `s` without `prefix` when it starts with it, `s` itself otherwise. */
  function TrimPrefix(s: string, prefix: string): (r: string)
    ensures HasPrefix(s, prefix) ==> s == prefix + r
    ensures !HasPrefix(s, prefix) ==> r == s
  {
    if HasPrefix(s, prefix) then s[|prefix|..] else s
  }

  /** The pieces of `parts` with `sep` between each two neighbours. */
  function Join(parts: seq<string>, sep: string): string {
    if |parts| == 0 then ""
    else if |parts| == 1 then parts[0]
    else parts[0] + sep + Join(parts[1..], sep)
  }

  lemma PrefixFree(s: string, sep: string, i: int)
    requires sep != "" && 0 <= i <= |s|
    requires forall j :: 0 <= j < i ==> !At(s, sep, j)
    ensures Free(s[..i], sep)
  {
    forall j | At(s[..i], sep, j)
      ensures false
    {
      assert s[..i][j..j + |sep|] == s[j..j + |sep|];
      assert At(s, sep, j);
    }
  }

  /**
   * strings.Split for a non-empty separator: the text between consecutive
   * occurrences of `sep`, left to right. Joining the pieces gives `s` back
   * and no piece contains `sep`.
   */
  function Split(s: string, sep: string): (parts: seq<string>)
    requires sep != ""
    decreases |s|
    ensures |parts| >= 1
    ensures Join(parts, sep) == s
    ensures forall k :: 0 <= k < |parts| ==> Free(parts[k], sep)
  {
    var i := IndexOf(s, sep);
    if i < 0 then
      PrefixFree(s, sep, |s|);
      assert s[..|s|] == s;
      [s]
    else
      PrefixFree(s, sep, i);
      var rest := Split(s[i + |sep|..], sep);
      assert s == s[..i] + sep + s[i + |sep|..];
      assert ([s[..i]] + rest)[1..] == rest;
      [s[..i]] + rest
  }

  /** No proper suffix of `sep` starts with the byte `sep` starts with, so two occurrences never overlap. */
  predicate SelfDisjoint(sep: string) {
    forall m :: 0 < m < |sep| ==> sep[m] != sep[0]
  }

  /** Split undoes Join when no piece contains the separator. */
  lemma {:induction false} SplitJoin(parts: seq<string>, sep: string)
    requires sep != "" && SelfDisjoint(sep) && |parts| >= 1
    requires forall k :: 0 <= k < |parts| ==> Free(parts[k], sep)
    ensures Split(Join(parts, sep), sep) == parts
  {
    var s := Join(parts, sep);
    if |parts| == 1 {
      assert Free(parts[0], sep);
    } else {
      var p := parts[0];
      var rest := Join(parts[1..], sep);
      assert s == p + sep + rest;
      assert At(s, sep, |p|) by {
        assert s[|p|..|p| + |sep|] == sep;
      }
      forall j | 0 <= j < |p|
        ensures !At(s, sep, j)
      {
        if j + |sep| <= |p| {
          AtFront(p, sep + rest, sep, j);
        } else if j + |sep| <= |s| {
          // an occurrence here would straddle the end of `p`
          var m := |p| - j;
          assert s[|p|] == sep[0] != sep[m];
          assert s[j..j + |sep|][m] == s[|p|];
        }
      }
      assert s[..|p|] == p;
      assert s[|p| + |sep|..] == rest;
      SplitJoin(parts[1..], sep);
    }
  }

  /** Occurrences in the second half of a concatenation, counted from its start. */
  lemma AtShift(pre: string, s: string, pat: string, j: int)
    requires 0 <= j
    ensures At(pre + s, pat, |pre| + j) <==> At(s, pat, j)
  {
    if j + |pat| <= |s| {
      assert (pre + s)[|pre| + j..|pre| + j + |pat|] == s[j..j + |pat|];
    }
  }

  /** Occurrences that lie wholly in the first half of a concatenation. */
  lemma AtFront(s: string, t: string, pat: string, j: int)
    requires 0 <= j && j + |pat| <= |s|
    ensures At(s + t, pat, j) <==> At(s, pat, j)
  {
    assert (s + t)[j..j + |pat|] == s[j..j + |pat|];
  }

  lemma AtSingle(s: string, c: char, i: int)
    ensures At(s, [c], i) <==> 0 <= i < |s| && s[i] == c
  {
    if 0 <= i < |s| {
      assert s[i..i + 1] == [s[i]];
    }
  }

  /** Splitting on a one-character separator gives three or more parts exactly when it occurs twice. */
  lemma SplitsThree(s: string, c: char)
    ensures |Split(s, [c])| >= 3 <==> exists a, b :: 0 <= a < b < |s| && s[a] == c && s[b] == c
  {
    if |Split(s, [c])| >= 3 {
      ThreeParts(s, c);
    } else {
      FewParts(s, c);
    }
  }

  /** Three or more parts are separated by at least two separators. */
  lemma ThreeParts(s: string, c: char)
    requires |Split(s, [c])| >= 3
    ensures exists a, b :: 0 <= a < b < |s| && s[a] == c && s[b] == c
  {
    var parts := Split(s, [c]);
    var tail := Join(parts[2..], [c]);
    assert Join(parts[1..], [c]) == parts[1] + [c] + tail;
    assert s == parts[0] + [c] + (parts[1] + [c] + tail);
    var a, b := |parts[0]|, |parts[0]| + 1 + |parts[1]|;
    assert s[a] == c && s[b] == c;
  }

  /** One or two parts leave room for at most one separator. */
  lemma FewParts(s: string, c: char)
    requires |Split(s, [c])| < 3
    ensures forall a, b :: 0 <= a < b < |s| && s[a] == c ==> s[b] != c
  {
    var parts := Split(s, [c]);
    if |parts| == 1 {
      assert s == parts[0];
      forall i | 0 <= i < |s|
        ensures s[i] != c
      {
        AtSingle(s, c, i);
      }
    } else {
      assert s == parts[0] + [c] + parts[1];
      forall i | 0 <= i < |s| && i != |parts[0]|
        ensures s[i] != c
      {
        if i < |parts[0]| {
          assert s[i] == parts[0][i];
          AtSingle(parts[0], c, i);
        } else {
          var m := i - |parts[0]| - 1;
          assert s[i] == parts[1][m];
          AtSingle(parts[1], c, m);
        }
      }
    }
  }

  /**
   * strings.SplitN(s, sep, 2) for a one-byte separator: the text before the
   * first `sep` and the text after it, or None when `sep` does not occur.
   */
  function Cut(s: string, sep: char): (r: Option<(string, string)>)
    ensures r.None? <==> sep !in s
    ensures r.Some? ==> sep !in r.value.0 && s == r.value.0 + [sep] + r.value.1
  {
    var i := IndexOf(s, [sep]);
    if i < 0 then
      assert forall j :: 0 <= j < |s| ==> s[j] != sep by {
        forall j | 0 <= j < |s| ensures s[j] != sep { AtSingle(s, sep, j); }
      }
      None
    else
      AtSingle(s, sep, i);
      assert forall j :: 0 <= j < i ==> s[j] != sep by {
        forall j | 0 <= j < i ensures s[j] != sep { AtSingle(s, sep, j); }
      }
      assert s == s[..i] + [sep] + s[i + 1..];
      Some((s[..i], s[i + 1..]))
  }

  /** The bytes strings.TrimSpace removes: ASCII tab, line feed, vertical tab, form feed, carriage return and space. */
  predicate IsSpace(c: char) {
    c == ' ' || c == '\t' || c == '\n' || c == '\U{000B}' || c == '\U{000C}' || c == '\r'
  }

  /** Neither end of `s` is white space. */
  predicate Trimmed(s: string) {
    s == [] || (!IsSpace(s[0]) && !IsSpace(s[|s| - 1]))
  }

  /** The number of white-space bytes `s` starts with. */
  function LeadingSpace(s: string): (n: nat)
    ensures n <= |s|
    ensures forall i :: 0 <= i < n ==> IsSpace(s[i])
    ensures n == |s| || !IsSpace(s[n])
  {
    if |s| > 0 && IsSpace(s[0]) then 1 + LeadingSpace(s[1..]) else 0
  }

  /** The number of white-space bytes `s` ends with. */
  function TrailingSpace(s: string): (n: nat)
    ensures n <= |s|
    ensures forall i :: |s| - n <= i < |s| ==> IsSpace(s[i])
    ensures n == |s| || !IsSpace(s[|s| - n - 1])
  {
    if |s| > 0 && IsSpace(s[|s| - 1]) then 1 + TrailingSpace(s[..|s| - 1]) else 0
  }

  /** `s[a..b]` is `s` with only white space cut off either end. */
  ghost predicate SpaceAround(s: string, a: int, b: int) {
    && 0 <= a <= b <= |s|
    && (forall i :: 0 <= i < a ==> IsSpace(s[i]))
    && (forall i :: b <= i < |s| ==> IsSpace(s[i]))
  }

  /**
   * strings.TrimSpace: `s` without its leading and trailing white space; what
   * is cut off either side is all white space and what is left is Trimmed.
   */
  function TrimSpace(s: string): (r: string)
    ensures Trimmed(r)
    ensures exists a, b :: SpaceAround(s, a, b) && r == s[a..b]
  {
    var a := LeadingSpace(s);
    var b := |s| - TrailingSpace(s[a..]);
    assert SpaceAround(s, a, b);
    s[a..b]
  }

  /** A single leading space, as the response builder puts before each header value, is trimmed away. */
  lemma {:induction false} TrimSpaceLeadingBlank(s: string)
    requires Trimmed(s)
    ensures TrimSpace(" " + s) == s
  {
    var t := " " + s;
    assert t[1..] == s;
    assert LeadingSpace(t) == 1;
  }

  // ---------------------------------------------------------------- numbers

  /** The range of Go's `int` on a 64-bit platform. */
  const MinInt: int := -0x8000_0000_0000_0000
  const MaxInt: int := 0x7fff_ffff_ffff_ffff

  predicate IsDigit(c: char) {
    '0' as int <= c as int <= '9' as int
  }

  /** One or more decimal digits. */
  predicate IsNumeral(s: string) {
    |s| > 0 && forall i :: 0 <= i < |s| ==> IsDigit(s[i])
  }

  /** The value of a string of decimal digits, most significant first. */
  function DigitsValue(s: string): nat
    requires forall i :: 0 <= i < |s| ==> IsDigit(s[i])
  {
    if s == [] then 0
    else
      assert IsDigit(s[|s| - 1]);
      DigitsValue(s[..|s| - 1]) * 10 + (s[|s| - 1] as int - '0' as int)
  }

  /** The digits of an optionally signed numeral. */
  function Magnitude(s: string): string {
    if |s| > 0 && (s[0] == '+' || s[0] == '-') then s[1..] else s
  }

  /**
   * strconv.Atoi: an optional `+` or `-` followed by at least one decimal
   * digit, whose value fits Go's 64-bit `int`; anything else is an error.
   */
  function Atoi(s: string): (r: Option<int>)
    ensures r.Some? ==> MinInt <= r.value <= MaxInt && IsNumeral(Magnitude(s))
    ensures r.Some? && |s| > 0 && s[0] == '-' ==> r.value <= 0
    ensures r.Some? && (|s| == 0 || s[0] != '-') ==> r.value >= 0
  {
    var digits := Magnitude(s);
    if !IsNumeral(digits) then None
    else
      var v: int := if s[0] == '-' then -(DigitsValue(digits) as int) else DigitsValue(digits);
      if MinInt <= v <= MaxInt then Some(v) else None
  }

  function Digit(d: nat): (c: char)
    requires d < 10
    ensures IsDigit(c) && c as int - '0' as int == d
  {
    ('0' as int + d) as char
  }

  /**
   * strconv.Itoa for a non-negative value: the shortest decimal numeral of `n`,
   * with no sign and no leading zero.
   */
  function Itoa(n: nat): (r: string)
    ensures IsNumeral(r) && DigitsValue(r) == n
    ensures |r| == 1 || r[0] != '0'
  {
    if n < 10 then [Digit(n)]
    else
      var high := Itoa(n / 10);
      var r := high + [Digit(n % 10)];
      assert r[..|r| - 1] == high;
      r
  }

  /** Atoi reads back what Itoa writes, for every value a Go `int` holds. */
  lemma ItoaRoundTrip(n: nat)
    requires n <= MaxInt
    ensures Atoi(Itoa(n)) == Some(n)
  {
  }

  /** `k` zero digits. */
  function ZeroDigits(k: nat): (z: string)
    ensures |z| == k && forall i :: 0 <= i < k ==> z[i] == '0'
  {
    seq(k, _ => '0')
  }

  function Abs(v: int): nat {
    if v < 0 then -v else v
  }

  /**
   * `s` spells `v`: an optional sign ('-' only for a value that is not
   * positive), any number of leading zeros, then the canonical digits of |v|.
   */
  ghost predicate Spells(s: string, sign: string, k: nat, v: int) {
    && (sign == "" || sign == "+" || sign == "-")
    && (sign == "-" ==> v <= 0) && (sign != "-" ==> v >= 0)
    && s == sign + (ZeroDigits(k) + Itoa(Abs(v)))
  }

  /**
   * Atoi reads `v` exactly from the strings that spell `v` with an optional
   * sign and leading zeros, and only for a `v` in Go's 64-bit `int` range.
   */
  lemma AtoiReads(s: string, v: int)
    ensures Atoi(s) == Some(v) <==> MinInt <= v <= MaxInt && exists sign, k :: Spells(s, sign, k, v)
  {
    assert Atoi(s) == Some(v) ==> exists sign, k :: Spells(s, sign, k, v) by {
      if Atoi(s) == Some(v) {
        var sign, k := AtoiSpelling(s);
        assert Spells(s, sign, k, v);
      }
    }
    if MinInt <= v <= MaxInt && exists sign, k :: Spells(s, sign, k, v) {
      var sign, k :| Spells(s, sign, k, v);
      SpellingAtoi(s, sign, k, v);
    }
  }

  /** A spelling of a value in range is read as that value. */
  lemma SpellingAtoi(s: string, sign: string, k: nat, v: int)
    requires Spells(s, sign, k, v) && MinInt <= v <= MaxInt
    ensures Atoi(s) == Some(v)
  {
    AtoiOfSpelling(sign, k, Abs(v));
  }

  /** Every optionally signed numeral with leading zeros whose value fits is accepted, with that value. */
  lemma AtoiOfSpelling(sign: string, k: nat, n: nat)
    requires sign == "" || sign == "+" || sign == "-"
    requires if sign == "-" then n <= -MinInt else n <= MaxInt
    ensures Atoi(sign + (ZeroDigits(k) + Itoa(n))) == Some(if sign == "-" then -(n as int) else n as int)
  {
    LeadingZeros(k, Itoa(n));
    AtoiOfNumeral(sign, ZeroDigits(k) + Itoa(n));
  }

  /** An optional sign and a numeral read as the numeral's value, signed. */
  lemma AtoiOfNumeral(sign: string, digits: string)
    requires sign == "" || sign == "+" || sign == "-"
    requires IsNumeral(digits)
    requires if sign == "-" then DigitsValue(digits) <= -MinInt else DigitsValue(digits) <= MaxInt
    ensures Atoi(sign + digits) == Some(if sign == "-" then -(DigitsValue(digits) as int) else DigitsValue(digits) as int)
  {
    SignedMagnitude(sign, digits);
  }

  /** An optional sign in front of a numeral: Magnitude strips exactly the sign. */
  lemma SignedMagnitude(sign: string, digits: string)
    requires sign == "" || sign == "+" || sign == "-"
    requires IsNumeral(digits)
    ensures Magnitude(sign + digits) == digits
    ensures (sign + digits)[0] == '-' <==> sign == "-"
  {
    var s := sign + digits;
    if sign == "" {
      assert s == digits && IsDigit(s[0]);
    } else {
      assert s[0] == sign[0] && s[1..] == digits;
    }
  }

  /** What Atoi accepts is spelled by its value: sign, leading zeros, canonical digits. */
  lemma AtoiSpelling(s: string) returns (sign: string, k: nat)
    requires Atoi(s).Some?
    ensures Spells(s, sign, k, Atoi(s).value)
  {
    var digits := Magnitude(s);
    sign := s[..|s| - |digits|];
    assert s == sign + digits;
    assert Abs(Atoi(s).value) == DigitsValue(digits);
    k := ZeroCount(digits);
    Canonical(digits, k);
  }

  /** A numeral is its leading zeros followed by the canonical digits of its value. */
  lemma Canonical(digits: string, k: nat)
    requires IsNumeral(digits) && k == ZeroCount(digits)
    ensures digits == ZeroDigits(k) + Itoa(DigitsValue(digits))
  {
    var rest := digits[k..];
    assert digits == ZeroDigits(k) + rest;
    LeadingZeros(k, rest);
    ItoaOfDigits(rest);
  }

  /** How many leading '0's a numeral has before its canonical digits (all but the last, for zero). */
  function ZeroCount(digits: string): (k: nat)
    requires IsNumeral(digits)
    ensures k < |digits| && (forall i :: 0 <= i < k ==> digits[i] == '0')
    ensures k == |digits| - 1 || digits[k] != '0'
    decreases |digits|
  {
    if |digits| == 1 || digits[0] != '0' then 0 else 1 + ZeroCount(digits[1..])
  }

  /** Leading zeros do not change a numeral's value. */
  lemma {:induction false} LeadingZeros(k: nat, digits: string)
    requires forall i :: 0 <= i < |digits| ==> IsDigit(digits[i])
    ensures forall i :: 0 <= i < |ZeroDigits(k) + digits| ==> IsDigit((ZeroDigits(k) + digits)[i])
    ensures DigitsValue(ZeroDigits(k) + digits) == DigitsValue(digits)
    decreases |digits|, k
  {
    var s := ZeroDigits(k) + digits;
    if digits == [] {
      assert s == ZeroDigits(k);
      if k > 0 {
        assert s[..|s| - 1] == ZeroDigits(k - 1) + [];
        LeadingZeros(k - 1, []);
      }
    } else {
      var init := digits[..|digits| - 1];
      assert s[..|s| - 1] == ZeroDigits(k) + init;
      LeadingZeros(k, init);
    }
  }

  /**
   * An unsigned numeral without leading zeros whose value fits an `int` is
   * read as that value, and Itoa writes the same numeral back.
   */
  lemma AtoiCanonical(s: string)
    requires IsNumeral(s) && (|s| == 1 || s[0] != '0') && DigitsValue(s) <= MaxInt
    ensures Atoi(s) == Some(DigitsValue(s))
    ensures Itoa(Atoi(s).value) == s
  {
    assert Magnitude(s) == s;
    ItoaOfDigits(s);
  }

  /** Itoa writes back the numeral Atoi read, when it has no sign and no leading zero. */
  lemma {:induction false} ItoaOfDigits(s: string)
    requires IsNumeral(s) && (|s| == 1 || s[0] != '0')
    ensures Itoa(DigitsValue(s)) == s
  {
    var init := s[..|s| - 1];
    var d := s[|s| - 1] as int - '0' as int;
    if |s| == 1 {
      assert [Digit(d)] == s;
    } else {
      assert init[0] == s[0];
      ItoaOfDigits(init);
      var n := DigitsValue(s);
      if DigitsValue(init) == 0 {
        // A numeral whose leading digit is not '0' has a positive value.
        LeadingDigitPositive(init);
      }
      assert n / 10 == DigitsValue(init) && n % 10 == d;
      assert s == init + [Digit(d)];
    }
  }

  lemma {:induction false} LeadingDigitPositive(s: string)
    requires IsNumeral(s) && s[0] != '0'
    ensures DigitsValue(s) > 0
  {
    if |s| > 1 {
      assert s[..|s| - 1][0] == s[0];
      LeadingDigitPositive(s[..|s| - 1]);
    }
  }

  /** A trimmed numeral does not start or end with white space. */
  lemma ItoaTrimmed(n: nat)
    ensures Trimmed(Itoa(n))
  {
  }
}
