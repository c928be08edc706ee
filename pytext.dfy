/**
 * The few pieces of Python's `str` that the crawler relies on: `strip()`,
 * `startswith`, the substring operator `in`, `lower()`, and the regular
 * expression `\d+` (matched by hand, one position at a time); the other
 * pattern, `KIP-(\d+)`, is matched in module `Crawl`.
 * Only ASCII digits and ASCII case are modelled.
 */
module PyText {
  import opened Wrappers

  /** The characters for which Python's `str.isspace()` holds, hence what `strip()` removes. */
  predicate IsSpace(c: char) {
    c == ' ' || '\t' <= c <= '\r' || '\U{1c}' <= c <= '\U{1f}' || c == '\U{85}' || c == '\U{a0}'
    || c == '\U{1680}' || '\U{2000}' <= c <= '\U{200a}' || c == '\U{2028}' || c == '\U{2029}'
    || c == '\U{202f}' || c == '\U{205f}' || c == '\U{3000}'
  }

  ghost predicate AllSpace(s: string) {
    forall k :: 0 <= k < |s| ==> IsSpace(s[k])
  }

  /** `s.lstrip()`. */
  function LStrip(s: string): string {
    if |s| > 0 && IsSpace(s[0]) then LStrip(s[1..]) else s
  }

  /** `lstrip()` leaves a suffix of `s` that does not start with whitespace, and removes only whitespace. */
  lemma {:induction false} LStripSpec(s: string)
    ensures var r := LStrip(s);
            |r| <= |s| && r == s[|s| - |r|..] && AllSpace(s[..|s| - |r|]) && (r == [] || !IsSpace(r[0]))
    decreases |s|
  {
    if |s| > 0 && IsSpace(s[0]) {
      LStripSpec(s[1..]);
      var n := |s| - |LStrip(s)|;
      assert forall k :: 1 <= k < n ==> s[..n][k] == s[1..][..n - 1][k - 1];
    }
  }

  /** `s.rstrip()`. */
  function RStrip(s: string): string {
    if |s| > 0 && IsSpace(s[|s| - 1]) then RStrip(s[..|s| - 1]) else s
  }

  /** `rstrip()` leaves a prefix of `s` that does not end with whitespace, and removes only whitespace. */
  lemma {:induction false} RStripSpec(s: string)
    ensures var r := RStrip(s);
            |r| <= |s| && r == s[..|r|] && AllSpace(s[|r|..]) && (r == [] || !IsSpace(r[|r| - 1]))
    decreases |s|
  {
    if |s| > 0 && IsSpace(s[|s| - 1]) {
      var front := s[..|s| - 1];
      RStripSpec(front);
      var n := |RStrip(s)|;
      assert forall k :: n <= k < |s| - 1 ==> s[k] == front[n..][k - n];
    }
  }

  /** `s.strip()`. */
  function Strip(s: string): string {
    RStrip(LStrip(s))
  }

  /**
   * `strip()` removes whitespace only: `s` is its result with whitespace
   * before and after, and the result neither starts nor ends with whitespace.
   */
  lemma StripSpec(s: string)
    ensures var r := Strip(s);
            (exists i :: 0 <= i <= |s| - |r| && s[i..i + |r|] == r && AllSpace(s[..i]) && AllSpace(s[i + |r|..]))
            && (r == [] || (!IsSpace(r[0]) && !IsSpace(r[|r| - 1])))
  {
    var l := LStrip(s);
    var r := RStrip(l);
    var i := |s| - |l|;
    LStripSpec(s);
    RStripSpec(l);
    assert l == s[i..];
    assert s[i..i + |r|] == l[..|r|] == r;
    assert s[i + |r|..] == l[|r|..];
    assert AllSpace(s[..i]) && AllSpace(s[i + |r|..]);
  }

  /** A string that neither starts nor ends with whitespace is its own `strip()`. */
  lemma StripUnpadded(s: string)
    requires s == [] || (!IsSpace(s[0]) && !IsSpace(s[|s| - 1]))
    ensures Strip(s) == s
  {
  }

  /** `s.startswith(p)`. */
  predicate StartsWith(s: string, p: string) {
    |p| <= |s| && s[..|p|] == p
  }

  /** `sub` occurs in `s` starting at position `i`. */
  predicate OccursAt(s: string, sub: string, i: nat) {
    i + |sub| <= |s| && s[i..i + |sub|] == sub
  }

  /** `sub in s` for strings. */
  function Contains(s: string, sub: string): bool
    decreases |s|
  {
    if |sub| > |s| then false
    else if s[..|sub|] == sub then true
    else Contains(s[1..], sub)
  }

  /** `sub in s` holds exactly when `sub` occurs in `s` at some position. */
  lemma {:induction false} ContainsSpec(s: string, sub: string)
    ensures Contains(s, sub) <==> exists i: nat :: OccursAt(s, sub, i)
    decreases |s|
  {
    if |sub| > |s| {
    } else if s[..|sub|] == sub {
      assert OccursAt(s, sub, 0);
    } else {
      ContainsSpec(s[1..], sub);
      assert forall i: nat :: OccursAt(s[1..], sub, i) <==> OccursAt(s, sub, i + 1);
      assert !OccursAt(s, sub, 0);
      if i: nat :| OccursAt(s, sub, i) {
        assert i > 0 && OccursAt(s[1..], sub, i - 1);
      }
    }
  }

  /** Python's `str.lower()` on ASCII letters; every other character is kept. */
  function LowerChar(c: char): char {
    if 'A' <= c <= 'Z' then (c as int + 32) as char else c
  }

  /** `s.lower()`, character by character. */
  function Lower(s: string): string {
    seq(|s|, k requires 0 <= k < |s| => LowerChar(s[k]))
  }

  /** The character class `\d`, restricted to ASCII. */
  predicate IsDigit(c: char) {
    '0' <= c <= '9'
  }

  /** The position of the first digit of `s` at or after `from`, if there is one. */
  function FirstDigitFrom(s: string, from: nat): (r: Option<nat>)
    ensures r.Some? ==> from <= r.value < |s| && IsDigit(s[r.value])
    decreases |s| - from
  {
    if from >= |s| then None
    else if IsDigit(s[from]) then Some(from)
    else FirstDigitFrom(s, from + 1)
  }

  /** `None` exactly when there is no digit from `from` on, and otherwise no digit comes before the one found. */
  lemma {:induction false} FirstDigitFromSpec(s: string, from: nat)
    ensures FirstDigitFrom(s, from).None? <==> forall k :: from <= k < |s| ==> !IsDigit(s[k])
    ensures FirstDigitFrom(s, from).Some? ==> forall k :: from <= k < FirstDigitFrom(s, from).value ==> !IsDigit(s[k])
    decreases |s| - from
  {
    if from < |s| && !IsDigit(s[from]) {
      FirstDigitFromSpec(s, from + 1);
    }
  }

  /** The longest run of digits that starts at position `i` (greedy `\d+` matched there). */
  function DigitRunAt(s: string, i: nat): (r: string)
    requires i <= |s|
    ensures i + |r| <= |s|
    ensures forall k :: 0 <= k < |r| ==> IsDigit(r[k])
    decreases |s| - i
  {
    if i < |s| && IsDigit(s[i]) then [s[i]] + DigitRunAt(s, i + 1) else []
  }

  /** The run is the slice of `s` from `i`, and it cannot be extended: the next character is not a digit. */
  lemma {:induction false} DigitRunSpec(s: string, i: nat)
    requires i <= |s|
    ensures var r := DigitRunAt(s, i);
            r == s[i..i + |r|] && (i + |r| == |s| || !IsDigit(s[i + |r|]))
    decreases |s| - i
  {
    if i < |s| && IsDigit(s[i]) {
      DigitRunSpec(s, i + 1);
      var rest := DigitRunAt(s, i + 1);
      assert DigitRunAt(s, i) == [s[i]] + rest;
      assert s[i..i + 1 + |rest|] == [s[i]] + s[i + 1..i + 1 + |rest|];
    }
  }

  /**
   * `re.findall(r'\d+', s)[0]`: the first maximal run of digits in `s`, or
   * `None` when `findall` returns an empty list.
   */
  function FirstNumber(s: string): (r: Option<string>)
    ensures r.Some? ==> |r.value| > 0 && forall k :: 0 <= k < |r.value| ==> IsDigit(r.value[k])
  {
    match FirstDigitFrom(s, 0)
    case None => None
    case Some(i) => Some(DigitRunAt(s, i))
  }

  /** No number exactly when `s` has no digit; otherwise the number is the digit run at the first digit. */
  lemma FirstNumberSpec(s: string)
    ensures FirstNumber(s).None? <==> forall k :: 0 <= k < |s| ==> !IsDigit(s[k])
    ensures FirstNumber(s).Some? ==>
              exists i :: 0 <= i < |s| && FirstNumber(s).value == DigitRunAt(s, i)
                          && (forall k :: 0 <= k < i ==> !IsDigit(s[k])) && IsDigit(s[i])
  {
    FirstDigitFromSpec(s, 0);
  }

  function DigitValue(c: char): (d: nat)
    requires IsDigit(c)
    ensures d < 10
  {
    c as int - '0' as int
  }

  /** Python's `int(ds)` for a string of ASCII digits (leading zeros allowed). */
  function DecimalValue(ds: string): nat
    requires forall k :: 0 <= k < |ds| ==> IsDigit(ds[k])
  {
    if ds == [] then 0 else DecimalValue(ds[..|ds| - 1]) * 10 + DigitValue(ds[|ds| - 1])
  }

  /** Python's `str(n)` for a natural number: its decimal digits without leading zeros. */
  function DecimalString(n: nat): (ds: string)
    ensures |ds| > 0 && forall k :: 0 <= k < |ds| ==> IsDigit(ds[k])
  {
    (if n < 10 then [] else DecimalString(n / 10)) + [('0' as int + n % 10) as char]
  }

  /** `int(str(n)) == n`: printing a number in decimal and reading it back gives the number. */
  lemma {:induction false} DecimalRoundTrip(n: nat)
    ensures DecimalValue(DecimalString(n)) == n
  {
    var ds := DecimalString(n);
    var front := if n < 10 then [] else DecimalString(n / 10);
    var last := ('0' as int + n % 10) as char;
    assert ds == front + [last] && ds[..|ds| - 1] == front;
    assert DigitValue(last) == n % 10;
    if n >= 10 {
      DecimalRoundTrip(n / 10);
      assert DecimalValue(front) == n / 10;
    }
    assert n == (n / 10) * 10 + n % 10;
  }
}
