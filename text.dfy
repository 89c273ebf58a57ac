/** Stand-ins for the pieces of the Rust standard library that the command
    parser calls: `Option`, `u64`, `str::split(' ')`, `str::to_lowercase`
    (ASCII letters only) and `str::parse::<u64>`. */
module Text {

  datatype Option<+T> = None | Some(value: T)

  /** The largest value of Rust's `u64`. */
  const U64_MAX: nat := 0xFFFF_FFFF_FFFF_FFFF

  /** Rust's `u64`: the non-negative integers that fit in 64 bits. */
  type U64 = n: nat | n <= U64_MAX

  predicate EndsWith(s: string, c: char) {
    |s| > 0 && s[|s| - 1] == c
  }

  // ---------------------------------------------------------------------
  // str::split with a single-character pattern
  // ---------------------------------------------------------------------

  /** The pieces of `s` between occurrences of `sep`, in order. Every
      occurrence is a boundary, so two adjacent separators give an empty
      piece, and the empty string gives one empty piece. */
  function Split(s: string, sep: char): (parts: seq<string>)
    ensures |parts| >= 1
    ensures forall i :: 0 <= i < |parts| ==> sep !in parts[i]
    decreases |s|
  {
    if s == [] then [[]]
    else
      var rest := Split(s[1..], sep);
      if s[0] == sep then [[]] + rest
      else [[s[0]] + rest[0]] + rest[1..]
  }

  /** The pieces glued back together with `sep` between neighbours. */
  function Join(parts: seq<string>, sep: char): string
    requires |parts| >= 1
  {
    if |parts| == 1 then parts[0] else parts[0] + [sep] + Join(parts[1..], sep)
  }

  /** Splitting loses nothing: joining the pieces gives back the string. */
  lemma {:induction false} JoinSplit(s: string, sep: char)
    ensures Join(Split(s, sep), sep) == s
    decreases |s|
  {
    if s != [] {
      var rest := Split(s[1..], sep);
      JoinSplit(s[1..], sep);
      if s[0] == sep {
        assert ([[]] + rest)[1..] == rest;
      } else if |rest| > 1 {
        var parts := [[s[0]] + rest[0]] + rest[1..];
        assert parts[1..] == rest[1..];
        assert Join(rest, sep) == rest[0] + [sep] + Join(rest[1..], sep);
      }
    }
  }

  /** A string without the separator is a single piece. */
  lemma {:induction false} SplitNoSeparator(w: string, sep: char)
    requires sep !in w
    ensures Split(w, sep) == [w]
    decreases |w|
  {
    if w != [] {
      SplitNoSeparator(w[1..], sep);
      assert [w[0]] + w[1..] == w;
    }
  }

  /** A leading piece without the separator splits off on its own. */
  lemma {:induction false} SplitAfterWord(w: string, sep: char, r: string)
    requires sep !in w
    ensures Split(w + [sep] + r, sep) == [w] + Split(r, sep)
    decreases |w|
  {
    var s := w + [sep] + r;
    if w == [] {
      assert s[1..] == r;
    } else {
      assert s[1..] == w[1..] + [sep] + r;
      SplitAfterWord(w[1..], sep, r);
      assert [w[0]] + w[1..] == w;
    }
  }

  /** Joining pieces that do not contain the separator and splitting again
      gives back the same pieces, empty ones included. */
  lemma {:induction false} SplitJoin(parts: seq<string>, sep: char)
    requires |parts| >= 1
    requires forall i :: 0 <= i < |parts| ==> sep !in parts[i]
    ensures Split(Join(parts, sep), sep) == parts
    decreases |parts|
  {
    if |parts| == 1 {
      SplitNoSeparator(parts[0], sep);
    } else {
      SplitJoin(parts[1..], sep);
      SplitAfterWord(parts[0], sep, Join(parts[1..], sep));
      assert [parts[0]] + parts[1..] == parts;
    }
  }

  /** There is one more piece than there are separators. */
  lemma {:induction false} SplitCount(s: string, sep: char)
    ensures |Split(s, sep)| == multiset(s)[sep] + 1
    decreases |s|
  {
    if s != [] {
      SplitCount(s[1..], sep);
      assert s == [s[0]] + s[1..];
    }
  }

  /** The last character of a joined string, when it is not the separator,
      is the last character of the last piece. */
  lemma {:induction false} JoinEndsWith(parts: seq<string>, sep: char, c: char)
    requires |parts| >= 1 && c != sep
    requires EndsWith(Join(parts, sep), c)
    ensures EndsWith(parts[|parts| - 1], c)
    decreases |parts|
  {
    if |parts| > 1 {
      var tail := Join(parts[1..], sep);
      if tail != [] {
        assert (parts[0] + [sep] + tail)[|parts[0]| + 1 + |tail| - 1] == tail[|tail| - 1];
        JoinEndsWith(parts[1..], sep, c);
      }
    }
  }

  // ---------------------------------------------------------------------
  // str::to_lowercase, restricted to ASCII
  // ---------------------------------------------------------------------

  function LowerChar(c: char): char {
    if 'A' <= c <= 'Z' then (c as int - 'A' as int + 'a' as int) as char else c
  }

  function UpperChar(c: char): char {
    if 'a' <= c <= 'z' then (c as int - 'a' as int + 'A' as int) as char else c
  }

  /** Every ASCII capital letter replaced by its small letter. */
  function Lower(s: string): (r: string)
    ensures |r| == |s|
    ensures forall i :: 0 <= i < |s| ==> r[i] == LowerChar(s[i])
  {
    seq(|s|, i requires 0 <= i < |s| => LowerChar(s[i]))
  }

  /** `w` spells `v` in some letter case: each character is the one of `v`
      or its capital. */
  predicate SpelledInAnyCase(w: string, v: string) {
    |w| == |v| && forall i :: 0 <= i < |w| ==> w[i] == v[i] || w[i] == UpperChar(v[i])
  }

  /** A word with no capitals is what any spelling of it lowercases to. */
  lemma LowerAnyCase(w: string, v: string)
    requires forall i :: 0 <= i < |v| ==> !('A' <= v[i] <= 'Z')
    requires SpelledInAnyCase(w, v)
    ensures Lower(w) == v
  {
  }

  // ---------------------------------------------------------------------
  // str::parse::<u64>
  // ---------------------------------------------------------------------

  predicate IsDigit(c: char) {
    '0' <= c <= '9'
  }

  predicate AllDigits(s: string) {
    forall i :: 0 <= i < |s| ==> IsDigit(s[i])
  }

  function DigitChar(d: nat): char
    requires d < 10
  {
    ('0' as int + d) as char
  }

  /** The value of a string of decimal digits, most significant first. */
  function DigitsValue(s: string): nat
    requires AllDigits(s)
  {
    if s == [] then 0 else DigitsValue(s[..|s| - 1]) * 10 + (s[|s| - 1] as int - '0' as int)
  }

  /** Rust's `str::parse::<u64>`: an optional `+`, then one or more ASCII
      digits whose value fits in 64 bits. A `-` sign, a lone `+`, an empty
      string, any other character and any value above `U64_MAX` are errors. */
  function ParseU64(s: string): (r: Option<U64>)
    ensures r.Some? ==> s != [] && s != "+" && (s[0] == '+' || IsDigit(s[0]))
    ensures r.Some? ==> forall i :: 1 <= i < |s| ==> IsDigit(s[i])
  {
    var digits := if |s| > 0 && s[0] == '+' then s[1..] else s;
    if digits != [] && AllDigits(digits) && DigitsValue(digits) <= U64_MAX
    then Some(DigitsValue(digits))
    else None
  }

  /** The canonical decimal spelling of `n`: digits only, no leading zero. */
  function DecimalString(n: nat): (s: string)
    ensures s != [] && AllDigits(s) && DigitsValue(s) == n
    ensures s[0] == '0' ==> n == 0
  {
    if n < 10 then [DigitChar(n)]
    else
      var s := DecimalString(n / 10) + [DigitChar(n % 10)];
      assert s[..|s| - 1] == DecimalString(n / 10);
      s
  }

  /** Parsing undoes printing for every `u64`, with or without a `+`. */
  lemma ParseDecimal(n: U64)
    ensures ParseU64(DecimalString(n)) == Some(n)
    ensures ParseU64("+" + DecimalString(n)) == Some(n)
  {
  }

  /** Values one past the 64-bit range are rejected. */
  lemma ParseOverflow(n: nat)
    requires n > U64_MAX
    ensures ParseU64(DecimalString(n)) == None
  {
  }

  /** A minus sign is never accepted, not even before zero. */
  lemma ParseRejectsMinus(s: string)
    ensures ParseU64("-" + s) == None
  {
  }

  /** Leading zeros do not change the value of a digit string. */
  lemma {:induction false} DigitsValueLeadingZero(s: string)
    requires AllDigits(s)
    ensures AllDigits("0" + s) && DigitsValue("0" + s) == DigitsValue(s)
    decreases |s|
  {
    var z := "0" + s;
    assert AllDigits(z);
    if s != [] {
      assert z[..|z| - 1] == "0" + s[..|s| - 1];
      DigitsValueLeadingZero(s[..|s| - 1]);
    }
  }

  /** A leading zero, or a leading `+`, before a string of digits does not
      change what it parses to, overflow included. */
  lemma LeadingZero(s: string)
    requires s != [] && AllDigits(s)
    ensures ParseU64("0" + s) == ParseU64(s)
    ensures ParseU64("+" + s) == ParseU64(s)
  {
    DigitsValueLeadingZero(s);
    assert ("+" + s)[1..] == s;
  }

  /** `k` zero digits. */
  function Zeros(k: nat): (z: string)
    ensures |z| == k && AllDigits(z)
  {
    seq(k, i => '0')
  }

  /** Any number of zeros before a digit string leaves its value alone. */
  lemma {:induction false} DigitsValueZeros(k: nat, d: string)
    requires AllDigits(d)
    ensures AllDigits(Zeros(k) + d) && DigitsValue(Zeros(k) + d) == DigitsValue(d)
    decreases k
  {
    if k > 0 {
      DigitsValueZeros(k - 1, d);
      assert Zeros(k) + d == "0" + (Zeros(k - 1) + d);
      DigitsValueLeadingZero(Zeros(k - 1) + d);
    } else {
      assert Zeros(0) + d == d;
    }
  }

  /** A digit string whose first digit is not zero has a positive value. */
  lemma {:induction false} DigitsValuePositive(d: string)
    requires d != [] && AllDigits(d) && d[0] != '0'
    ensures DigitsValue(d) >= 1
    decreases |d|
  {
    if |d| > 1 {
      DigitsValuePositive(d[..|d| - 1]);
    }
  }

  /** A digit string without a superfluous leading zero is the canonical
      spelling of its own value. */
  lemma {:induction false} CanonicalIsDecimal(d: string)
    requires d != [] && AllDigits(d) && (d[0] == '0' ==> |d| == 1)
    ensures d == DecimalString(DigitsValue(d))
    decreases |d|
  {
    var c := d[|d| - 1];
    var digit := c as int - '0' as int;
    if |d| == 1 {
      assert d == [DigitChar(digit)];
    } else {
      var front := d[..|d| - 1];
      DigitsValuePositive(front);
      CanonicalIsDecimal(front);
      var v := DigitsValue(d);
      assert v == DigitsValue(front) * 10 + digit;
      assert v / 10 == DigitsValue(front) && v % 10 == digit;
      assert DigitChar(digit) == c;
      assert d == front + [c];
    }
  }

  /** The number of superfluous leading zeros of a digit string: all of
      them except a last digit that is itself a zero. */
  function ZeroCount(d: string): (k: nat)
    ensures k <= |d|
  {
    if |d| > 1 && d[0] == '0' then 1 + ZeroCount(d[1..]) else 0
  }

  /** A zero before `k` zeros is `k + 1` zeros. */
  lemma OneMoreZero(k: nat, rest: string)
    ensures "0" + (Zeros(k) + rest) == Zeros(k + 1) + rest
  {
    assert Zeros(k + 1) == "0" + Zeros(k);
  }

  /** Every digit string is its superfluous zeros followed by the canonical
      spelling of its value. */
  lemma {:induction false} DigitsAreZerosThenDecimal(d: string)
    requires d != [] && AllDigits(d)
    ensures d == Zeros(ZeroCount(d)) + DecimalString(DigitsValue(d))
    decreases |d|
  {
    if |d| > 1 && d[0] == '0' {
      var tail := d[1..];
      DigitsAreZerosThenDecimal(tail);
      DigitsValueLeadingZero(tail);
      assert d == "0" + tail;
      OneMoreZero(ZeroCount(tail), DecimalString(DigitsValue(tail)));
    } else {
      CanonicalIsDecimal(d);
      assert Zeros(0) == [];
    }
  }

  /** What a successful parse read: an optional `+` and a digit string
      whose value is the result. */
  lemma ParsedDigits(s: string, n: U64) returns (plus: bool, digits: string)
    requires ParseU64(s) == Some(n)
    ensures digits != [] && AllDigits(digits) && DigitsValue(digits) == n
    ensures s == (if plus then "+" + digits else digits)
  {
    plus := s[0] == '+';
    digits := if plus then s[1..] else s;
    if plus {
      assert s == [s[0]] + s[1..];
    }
  }

  /** Whatever parses to `n` is an optional `+`, some zeros and the decimal
      spelling of `n`. */
  lemma ParsedIsPaddedDecimal(s: string, n: U64)
    requires ParseU64(s) == Some(n)
    ensures exists k: nat :: s == Zeros(k) + DecimalString(n) || s == "+" + Zeros(k) + DecimalString(n)
  {
    var plus, digits := ParsedDigits(s, n);
    DigitsAreZerosThenDecimal(digits);
    var k := ZeroCount(digits);
    if plus {
      PlusBefore(Zeros(k), DecimalString(n));
      assert s == "+" + Zeros(k) + DecimalString(n);
    } else {
      assert s == Zeros(k) + DecimalString(n);
    }
  }

  /** Concatenation regroups around a leading `+`. */
  lemma PlusBefore(a: string, b: string)
    ensures "+" + a + b == "+" + (a + b)
  {
  }

  /** A digit string whose value fits in 64 bits parses to that value. */
  lemma ParseDigits(d: string)
    requires d != [] && AllDigits(d) && DigitsValue(d) <= U64_MAX
    ensures ParseU64(d) == Some(DigitsValue(d))
  {
    assert IsDigit(d[0]);
  }

  /** An optional `+`, some zeros and the decimal spelling of a `u64` parse
      to that value. */
  lemma PaddedDecimalParses(k: nat, n: U64)
    ensures ParseU64(Zeros(k) + DecimalString(n)) == Some(n)
    ensures ParseU64("+" + Zeros(k) + DecimalString(n)) == Some(n)
  {
    var digits := Zeros(k) + DecimalString(n);
    DigitsValueZeros(k, DecimalString(n));
    ParseDigits(digits);
    LeadingZero(digits);
    PlusBefore(Zeros(k), DecimalString(n));
  }

  /** The strings that parse to `n` are exactly an optional `+`, any number
      of zeros and the decimal spelling of `n`: with `ParseDecimal`, this
      fixes both the accepted spellings and their values. */
  lemma ParseU64Spellings(s: string, n: U64)
    ensures ParseU64(s) == Some(n) <==>
              exists k: nat :: s == Zeros(k) + DecimalString(n) || s == "+" + Zeros(k) + DecimalString(n)
  {
    if ParseU64(s) == Some(n) {
      ParsedIsPaddedDecimal(s, n);
    }
    if exists k: nat :: s == Zeros(k) + DecimalString(n) || s == "+" + Zeros(k) + DecimalString(n) {
      var k: nat :| s == Zeros(k) + DecimalString(n) || s == "+" + Zeros(k) + DecimalString(n);
      PaddedDecimalParses(k, n);
    }
  }
}
