/**
 The Foundation string operations the manifest parsers rely on:
 `hasPrefix`, `range(of:)`, `lowercased()`, `trimmingCharacters(in: "\"")`,
 `components(separatedBy:)` (only its first and last component are ever
 used), and the number conversions `integerValue` / `longLongValue` /
 `doubleValue`, on ASCII text.
 */
module Text {

  /** One match of an attribute-list regular expression: the raw key
      (group 1) and the raw value (group 2, quotes included). */
  datatype Attribute = Attribute(key: string, value: string)

  /** The matches an `NSRegularExpression` reports, in order, on the text
      after a tag's prefix. Regular-expression matching itself is not
      modelled; each parser receives its matcher as a parameter. */
  type AttributeMatcher = string -> seq<Attribute>

  predicate StartsWith(s: string, prefix: string) {
    |prefix| <= |s| && s[..|prefix|] == prefix
  }

  predicate OccursAt(s: string, t: string, i: nat) {
    i + |t| <= |s| && s[i..i + |t|] == t
  }

  /** `s.range(of: t).location != NSNotFound`. */
  function Contains(s: string, t: string): (r: bool)
    ensures r <==> exists i: nat :: OccursAt(s, t, i)
  {
    ContainsFrom(s, t, 0)
  }

  function ContainsFrom(s: string, t: string, from: nat): (r: bool)
    ensures r <==> exists i: nat :: from <= i && OccursAt(s, t, i)
    decreases |s| - from
  {
    if from + |t| > |s| then
      assert forall i: nat :: from <= i ==> !OccursAt(s, t, i);
      false
    else if s[from..from + |t|] == t then
      assert OccursAt(s, t, from);
      true
    else
      var r := ContainsFrom(s, t, from + 1);
      assert forall i: nat :: from <= i && OccursAt(s, t, i) ==> i == from || from + 1 <= i;
      r
  }

  predicate IsDigit(c: char) { '0' <= c <= '9' }

  function DigitValue(c: char): nat
    requires IsDigit(c)
  {
    (c as int) - ('0' as int)
  }

  predicate AllDigits(s: string) {
    forall i :: 0 <= i < |s| ==> IsDigit(s[i])
  }

  /** Decimal value of a digit string, defined from its last digit. */
  function DigitsValue(s: string): nat
    requires AllDigits(s)
  {
    if s == [] then 0
    else DigitsValue(s[..|s| - 1]) * 10 + DigitValue(s[|s| - 1])
  }

  /** Length of the longest all-digit prefix of `s`. */
  function DigitRun(s: string): (n: nat)
    ensures n <= |s|
    ensures AllDigits(s[..n])
    ensures n < |s| ==> !IsDigit(s[n])
  {
    if s == [] || !IsDigit(s[0]) then 0
    else
      var n := 1 + DigitRun(s[1..]);
      assert s[..n] == [s[0]] + s[1..][..n - 1];
      n
  }

  /** Left-to-right accumulation of digits, as `strtol`-style conversions read
      them: `acc` is the value of the digits already consumed. */
  function AccumulateDigits(s: string, acc: nat): nat
  {
    if s == [] || !IsDigit(s[0]) then acc
    else AccumulateDigits(s[1..], acc * 10 + DigitValue(s[0]))
  }

  lemma {:induction false} AccumulateDigitsValue(s: string, acc: nat)
    ensures AccumulateDigits(s, acc) == DigitsValue(s[..DigitRun(s)]) + acc * Pow10(DigitRun(s))
    decreases |s|
  {
    if s == [] || !IsDigit(s[0]) {
      assert s[..DigitRun(s)] == [];
    } else {
      var n := DigitRun(s);
      var d := DigitValue(s[0]);
      var p := Pow10(n - 1);
      AccumulateDigitsValue(s[1..], acc * 10 + d);
      assert DigitRun(s[1..]) == n - 1;
      assert s[1..][..n - 1] == s[1..n];
      DigitsValueCons(s[0], s[1..n]);
      assert [s[0]] + s[1..n] == s[..n];
      assert DigitsValue(s[..n]) == d * p + DigitsValue(s[1..n]);
      Distribute(acc, d, p);
      assert Pow10(n) == 10 * p;
    }
  }

  lemma Distribute(acc: int, d: int, p: int)
    ensures (acc * 10 + d) * p == acc * (10 * p) + d * p
  {
    calc {
      (acc * 10 + d) * p;
      (acc * 10) * p + d * p;
      acc * (10 * p) + d * p;
    }
  }

  lemma {:induction false} DigitsValueCons(c: char, s: string)
    requires IsDigit(c) && AllDigits(s)
    ensures AllDigits([c] + s)
    ensures DigitsValue([c] + s) == DigitValue(c) * Pow10(|s|) + DigitsValue(s)
    decreases |s|
  {
    if s == [] {
    } else {
      var t := [c] + s;
      assert t[..|t| - 1] == [c] + s[..|s| - 1];
      DigitsValueCons(c, s[..|s| - 1]);
    }
  }

  function Pow10(n: nat): (r: nat)
    ensures r >= 1
  {
    if n == 0 then 1 else 10 * Pow10(n - 1)
  }

  predicate IsSpace(c: char) { c == ' ' || c == '\t' || c == '\n' || c == '\r' }

  function SkipSpaces(s: string): (r: string)
    ensures |r| <= |s| && s[|s| - |r|..] == r
    ensures r == [] || !IsSpace(r[0])
  {
    if s != [] && IsSpace(s[0]) then SkipSpaces(s[1..]) else s
  }

  /** `NSString.integerValue` (and `longLongValue`): leading white space, an
      optional sign, then the longest run of digits; 0 when there is none.
      Saturation at the 64-bit limits is not modelled. */
  function IntegerValue(s: string): (v: int)
    ensures AllDigits(s) ==> v == DigitsValue(s)
    ensures s == [] ==> v == 0
  {
    var t := SkipSpaces(s);
    if t != [] && t[0] == '-' then 0 - (AccumulateDigits(t[1..], 0) as int)
    else if t != [] && t[0] == '+' then AccumulateDigits(t[1..], 0)
    else
      AccumulateDigitsValue(t, 0);
      DigitRunOfDigits(s);
      assert s[..|s|] == s;
      AccumulateDigits(t, 0)
  }

  lemma {:induction false} DigitRunOfDigits(s: string)
    ensures AllDigits(s) ==> DigitRun(s) == |s|
  {
    if s != [] && AllDigits(s) {
      DigitRunOfDigits(s[1..]);
    }
  }

  /** Length of the longest prefix of `s` made of digits and dots: the match
      of the regular expression `^[0-9.]+`. */
  function DecimalRun(s: string): (n: nat)
    ensures n <= |s|
    ensures forall i :: 0 <= i < n ==> IsDigit(s[i]) || s[i] == '.'
    ensures n < |s| ==> !(IsDigit(s[n]) || s[n] == '.')
  {
    if s == [] || !(IsDigit(s[0]) || s[0] == '.') then 0
    else 1 + DecimalRun(s[1..])
  }

  /** `NSString.doubleValue` of a `[0-9.]+` token, in exact arithmetic: the
      integer digits, then the fraction digits after the first dot, stopping
      at the second dot. */
  function DecimalValue(token: string): (v: real)
    ensures v >= 0.0
    ensures AllDigits(token) ==> v == DigitsValue(token) as real
  {
    var n := DigitRun(token);
    var whole := DigitsValue(token[..n]) as real;
    if AllDigits(token) then
      DigitRunOfDigits(token);
      assert token[..n] == token;
      whole
    else if n < |token| && token[n] == '.' then
      var rest := token[n + 1..];
      var m := DigitRun(rest);
      var fraction := Fraction(DigitsValue(rest[..m]), Pow10(m));
      whole + fraction
    else whole
  }

  /** `digits / scale` in exact arithmetic. */
  function Fraction(digits: nat, scale: nat): (f: real)
    requires scale >= 1
    ensures f >= 0.0
  {
    digits as real / scale as real
  }

  function LowerChar(c: char): char {
    if 'A' <= c <= 'Z' then (c as int + 32) as char else c
  }

  /** `lowercased()`, on ASCII letters. */
  function Lowercase(s: string): (r: string)
    ensures |r| == |s|
    ensures forall i :: 0 <= i < |s| ==> r[i] == LowerChar(s[i])
  {
    if s == [] then [] else [LowerChar(s[0])] + Lowercase(s[1..])
  }

  /** Number of quotes `s` starts with. */
  function LeadingQuotes(s: string): (n: nat)
    ensures n <= |s|
    ensures forall k :: 0 <= k < n ==> s[k] == '"'
    ensures n < |s| ==> s[n] != '"'
  {
    if s == [] || s[0] != '"' then 0 else 1 + LeadingQuotes(s[1..])
  }

  /** Number of quotes `s` ends with. */
  function TrailingQuotes(s: string): (n: nat)
    ensures n <= |s|
    ensures forall k :: |s| - n <= k < |s| ==> s[k] == '"'
    ensures n < |s| ==> s[|s| - n - 1] != '"'
  {
    if s == [] || s[|s| - 1] != '"' then 0 else 1 + TrailingQuotes(s[..|s| - 1])
  }

  /** `trimmingCharacters(in: CharacterSet(charactersIn: "\""))`: every
      leading and trailing quote goes, nothing inside is touched. */
  function TrimQuotes(s: string): (r: string)
    ensures r == [] || (r[0] != '"' && r[|r| - 1] != '"')
    ensures '"' !in s ==> r == s
    ensures |r| <= |s|
  {
    var t := s[LeadingQuotes(s)..];
    t[..|t| - TrailingQuotes(t)]
  }

  /** The first element of `components(separatedBy: [c])`: the text before
      the first `c`, or all of `s`. */
  function BeforeFirst(s: string, c: char): (r: string)
    ensures c !in r
    ensures r == s || (|r| < |s| && s[|r|] == c)
    ensures r == s[..|r|]
  {
    if s == [] || s[0] == c then []
    else [s[0]] + BeforeFirst(s[1..], c)
  }

  /** The last element of `components(separatedBy: [c])`: the text after
      the last `c`, or all of `s`. */
  function AfterLast(s: string, c: char): (r: string)
    ensures c !in r
    ensures r == s || (|r| < |s| && s[|s| - |r| - 1] == c)
    ensures r == s[|s| - |r|..]
  {
    if s == [] || s[|s| - 1] == c then []
    else
      var front := s[..|s| - 1];
      var r := AfterLast(front, c);
      AfterLastStep(s, c, front, r);
      r + [s[|s| - 1]]
  }

  /** One more character that is not `c` extends the text after the last
      `c`. */
  lemma AfterLastStep(s: string, c: char, front: string, r: string)
    requires s != [] && s[|s| - 1] != c && front == s[..|s| - 1]
    requires c !in r
    requires r == front || (|r| < |front| && front[|front| - |r| - 1] == c)
    requires r == front[|front| - |r|..]
    ensures var r' := r + [s[|s| - 1]];
      && c !in r'
      && (r' == s || (|r'| < |s| && s[|s| - |r'| - 1] == c))
      && r' == s[|s| - |r'|..]
  {
    var last := s[|s| - 1];
    var start := |front| - |r|;
    assert s == front + [last];
    assert s[start..] == front[start..] + [last];
    if r != front {
      assert s[start - 1] == front[start - 1];
    }
  }

}
