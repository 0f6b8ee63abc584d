/** The credit card check of the demo form (feature2.js:220-247): the Luhn algorithm of ISO/IEC 7812-1,
    Annex B, over a number from which spaces and hyphens were removed. */
module Luhn {

  predicate IsDigit(c: char) {
    '0' <= c <= '9'
  }

  predicate AllDigits(s: string) {
    forall i :: 0 <= i < |s| ==> IsDigit(s[i])
  }

  function Digit(c: char): (d: nat)
    requires IsDigit(c)
    ensures d < 10
  {
    c as int - '0' as int
  }

  // ---------------------------------------------------------------- the weighted sum

  /** A digit's share of the checksum: the digits of its double, in every second place from the right. */
  function Weighted(d: nat, doubled: bool): nat {
    if doubled then 2 * d / 10 + 2 * d % 10 else d
  }

  /** The weighted sum of digits that `right` more digits follow; the last digit of all has weight one. */
  function WeightedSum(s: string, right: nat): nat
    requires AllDigits(s)
  {
    if s == "" then 0
    else Weighted(Digit(s[0]), (|s| - 1 + right) % 2 == 1) + WeightedSum(s[1..], right)
  }

  predicate Passes(s: string) {
    AllDigits(s) && WeightedSum(s, 0) % 10 == 0
  }

  /** Twice a digit, less nine when that has two digits, is the sum of the digits of its double. */
  lemma DoubledDigit(d: nat)
    requires d < 10
    ensures Weighted(d, true) == if 2 * d > 9 then 2 * d - 9 else 2 * d
  {
  }

  lemma SuffixSum(s: string, i: nat)
    requires AllDigits(s) && i < |s|
    ensures WeightedSum(s[i..], 0) == Weighted(Digit(s[i]), (|s| - 1 - i) % 2 == 1) + WeightedSum(s[i + 1..], 0)
  {
  }

  lemma EmptySum()
    ensures WeightedSum("", 0) == 0
  {
  }

  /** Accepts exactly the strings of 13 to 19 digits whose weighted sum is a multiple of ten. */
  method IsValidCreditCardNumber(cardNumber: string) returns (valid: bool)
    ensures valid <==> 13 <= |cardNumber| <= 19 && Passes(cardNumber)
  {
    hide WeightedSum, Weighted, Digit, IsDigit;
    if !(13 <= |cardNumber| <= 19 && AllDigits(cardNumber)) {
      return false;
    }
    EmptySum();
    var sum := 0;
    var shouldDouble := false;
    var i := |cardNumber| - 1;
    assert cardNumber[i + 1..] == "";
    while i >= 0
      invariant -1 <= i < |cardNumber|
      invariant shouldDouble <==> (|cardNumber| - 1 - i) % 2 == 1
      invariant sum == WeightedSum(cardNumber[i + 1..], 0)
    {
      SuffixSum(cardNumber, i);
      var digit := Digit(cardNumber[i]);
      DoubledDigit(digit);
      PlainDigit(digit);
      if shouldDouble {
        digit := digit * 2;
        if digit > 9 {
          digit := digit - 9;
        }
      }
      sum := sum + digit;
      shouldDouble := !shouldDouble;
      i := i - 1;
    }
    assert cardNumber[0..] == cardNumber;
    return sum % 10 == 0;
  }

  // ---------------------------------------------------------------- what the checksum detects

  lemma {:induction false} SumSplits(a: string, b: string, right: nat)
    requires AllDigits(a) && AllDigits(b)
    ensures WeightedSum(a + b, right) == WeightedSum(a, right + |b|) + WeightedSum(b, right)
  {
    if a == "" {
      assert a + b == b;
    } else {
      assert (a + b)[1..] == a[1..] + b;
      SumSplits(a[1..], b, right);
    }
  }

  lemma SumAround(a: string, x: string, b: string)
    requires AllDigits(a) && AllDigits(x) && AllDigits(b)
    ensures AllDigits(a + x + b)
    ensures WeightedSum(a + x + b, 0) == WeightedSum(a, |x| + |b|) + WeightedSum(x, |b|) + WeightedSum(b, 0)
  {
    hide WeightedSum;
    SumSplits(a + x, b, 0);
    SumSplits(a, x, |b|);
  }

  lemma DigitsOf(a: string, x: string, b: string)
    ensures AllDigits(a + x + b) <==> AllDigits(a) && AllDigits(x) && AllDigits(b)
  {
    var s := a + x + b;
    if AllDigits(s) {
      assert a == s[..|a|] && x == s[|a|..|a| + |x|] && b == s[|a| + |x|..];
    }
  }

  lemma SingleSum(x: char, right: nat)
    requires IsDigit(x)
    ensures AllDigits([x])
    ensures WeightedSum([x], right) == Weighted(Digit(x), right % 2 == 1)
  {
  }

  lemma PairSum(x: char, y: char, right: nat)
    requires IsDigit(x) && IsDigit(y)
    ensures AllDigits([x, y])
    ensures WeightedSum([x, y], right) == Weighted(Digit(x), right % 2 == 0) + Weighted(Digit(y), right % 2 == 1)
  {
    assert [x, y][1..] == [y];
    SingleSum(y, right);
  }

  /** Doubling and adding the digits permutes 0 to 9. */
  lemma WeightedInjective(d: nat, e: nat, doubled: bool)
    requires d < 10 && e < 10 && d != e
    ensures Weighted(d, doubled) < 10 && Weighted(e, doubled) < 10
    ensures Weighted(d, doubled) != Weighted(e, doubled)
  {
  }

  lemma NotBothMultiples(sum: nat, d: nat, e: nat)
    requires d < 10 && e < 10 && d != e
    requires (sum + d) % 10 == 0
    ensures (sum + e) % 10 != 0
  {
  }

  /** Any change of a single digit of a passing number, of any length, makes it fail. */
  lemma SingleErrorDetected(a: string, x: char, y: char, b: string)
    requires IsDigit(x) && IsDigit(y) && x != y
    requires Passes(a + [x] + b)
    ensures !Passes(a + [y] + b)
  {
    DigitsOf(a, [x], b);
    hide WeightedSum, Weighted;
    SingleSum(x, |b|);
    SingleSum(y, |b|);
    SumAround(a, [x], b);
    SumAround(a, [y], b);
    var doubled := |b| % 2 == 1;
    WeightedInjective(Digit(x), Digit(y), doubled);
    NotBothMultiples(WeightedSum(a, 1 + |b|) + WeightedSum(b, 0), Weighted(Digit(x), doubled),
                     Weighted(Digit(y), doubled));
  }

  /** Two digits weigh the same in either order, modulo ten, only if they are equal or 0 and 9. */
  lemma SwapWeight(d: nat, e: nat, sum: nat, doubled: bool)
    requires d < 10 && e < 10
    requires (sum + Weighted(d, !doubled) + Weighted(e, doubled)) % 10 == 0
    ensures (sum + Weighted(e, !doubled) + Weighted(d, doubled)) % 10 == 0
       <==> d == e || (d == 0 && e == 9) || (d == 9 && e == 0)
  {
    var there := Weighted(d, !doubled) + Weighted(e, doubled);
    var back := Weighted(e, !doubled) + Weighted(d, doubled);
    SwapDifference(d, e, doubled);
    SameResidue(sum, there, back);
  }

  lemma SwapDifference(d: nat, e: nat, doubled: bool)
    requires d < 10 && e < 10
    ensures (Weighted(d, !doubled) + Weighted(e, doubled)) % 10 == (Weighted(e, !doubled) + Weighted(d, doubled)) % 10
       <==> d == e || (d == 0 && e == 9) || (d == 9 && e == 0)
  {
    DoubledDigit(d);
    DoubledDigit(e);
    PlainDigit(d);
    PlainDigit(e);
    hide Weighted;
    NearResidues(Weighted(d, !doubled) + Weighted(e, doubled), Weighted(e, !doubled) + Weighted(d, doubled));
  }

  lemma PlainDigit(d: nat)
    ensures Weighted(d, false) == d
  {
  }

  lemma NearResidues(u: nat, v: nat)
    requires -10 < u - v < 10
    ensures u % 10 == v % 10 <==> u == v
  {
  }

  lemma SameResidue(sum: nat, there: nat, back: nat)
    requires (sum + there) % 10 == 0
    ensures (sum + back) % 10 == 0 <==> there % 10 == back % 10
  {
  }

  lemma DigitsTell(x: char, y: char)
    requires IsDigit(x) && IsDigit(y)
    ensures Digit(x) == Digit(y) <==> x == y
    ensures Digit(x) == 0 <==> x == '0'
    ensures Digit(x) == 9 <==> x == '9'
    ensures Digit(y) == 0 <==> y == '0'
    ensures Digit(y) == 9 <==> y == '9'
  {
  }

  /** Swapping two adjacent digits of a passing number goes unnoticed exactly for equal digits and for
      the pair 0 and 9. */
  lemma SwapUndetectedExactlyWhen(a: string, x: char, y: char, b: string)
    requires Passes(a + [x, y] + b)
    ensures Passes(a + [y, x] + b) <==> x == y || (x == '0' && y == '9') || (x == '9' && y == '0')
  {
    DigitsOf(a, [x, y], b);
    assert [x, y][0] == x && [x, y][1] == y;
    DigitsTell(x, y);
    hide WeightedSum, Weighted, Digit, AllDigits;
    var doubled := |b| % 2 == 1;
    PairInside(a, x, y, b, doubled);
    PairInside(a, y, x, b, doubled);
    SwapWeight(Digit(x), Digit(y), WeightedSum(a, 2 + |b|) + WeightedSum(b, 0), doubled);
  }

  lemma PairInside(a: string, x: char, y: char, b: string, doubled: bool)
    requires AllDigits(a) && IsDigit(x) && IsDigit(y) && AllDigits(b)
    requires doubled <==> |b| % 2 == 1
    ensures AllDigits(a + [x, y] + b)
    ensures WeightedSum(a + [x, y] + b, 0)
         == WeightedSum(a, 2 + |b|) + WeightedSum(b, 0) + Weighted(Digit(x), !doubled) + Weighted(Digit(y), doubled)
  {
    hide WeightedSum, Weighted, Digit;
    PairSum(x, y, |b|);
    SumAround(a, [x, y], b);
  }

  /** Every payload has exactly one check digit. */
  lemma UniqueCheckDigit(payload: string) returns (check: char)
    requires AllDigits(payload)
    ensures IsDigit(check) && Passes(payload + [check])
    ensures forall c :: IsDigit(c) && Passes(payload + [c]) ==> c == check
  {
    var sum := WeightedSum(payload, 1);
    check := ('0' as int + Complement(sum)) as char;
    CheckedSum(payload, check);
    hide WeightedSum, Complement;
    forall c | IsDigit(c) && Passes(payload + [c])
      ensures c == check
    {
      CheckedSum(payload, c);
      if c != check {
        NotBothMultiples(sum, Digit(check), Digit(c));
      }
    }
  }

  function Complement(sum: nat): (d: nat)
    ensures d < 10 && (sum + d) % 10 == 0
  {
    (10 - sum % 10) % 10
  }

  lemma CheckedSum(payload: string, c: char)
    requires AllDigits(payload) && IsDigit(c)
    ensures AllDigits(payload + [c])
    ensures WeightedSum(payload + [c], 0) == WeightedSum(payload, 1) + Digit(c)
  {
    SingleSum(c, 0);
    hide WeightedSum;
    SumSplits(payload, [c], 0);
  }

  // ---------------------------------------------------------------- separators

  /** The white space of JavaScript's \s, and the hyphen. */
  predicate IsSeparator(c: char) {
    || c == '-' || c == ' ' || '\t' <= c <= '\r' || c == '\U{00a0}' || c == '\U{1680}'
    || '\U{2000}' <= c <= '\U{200a}' || c == '\U{2028}' || c == '\U{2029}' || c == '\U{202f}'
    || c == '\U{205f}' || c == '\U{3000}' || c == '\U{feff}'
  }

  /** By code point: the hyphen, tab to carriage return, the space separators of Unicode, the two line ends
      and the byte order mark go; digits stay. */
  lemma SeparatorCodes(c: char)
    ensures IsSeparator(c) <==>
              c as int in {45, 9, 10, 11, 12, 13, 32, 160, 5760, 8192, 8193, 8194, 8195, 8196, 8197, 8198, 8199, 8200,
                           8201, 8202, 8232, 8233, 8239, 8287, 12288, 65279}
    ensures IsDigit(c) ==> !IsSeparator(c)
  {
  }

  /** Digits are kept, all of them and in their order. */
  lemma {:induction false} DigitsAreKept(s: string)
    requires AllDigits(s)
    ensures Normalize(s) == s && SeparatorFree(s)
  {
    if s != "" {
      DigitsAreKept(s[1..]);
    }
  }

  /** The last digit counts once and the one before it twice, with the digits of the double added: 2 + 8 and
      1 + 9 make ten, 8 + 1 from the right does not. */
  lemma SmallNumbers()
    ensures Normalize("1-8") == Normalize(" 18") == "18"
    ensures Passes("18") && Passes("59") && !Passes("81") && !Passes("19")
  {
    hide Normalize, Passes;
    NormalizeThree('1', '-', '8');
    NormalizeThree(' ', '1', '8');
    PairPasses('1', '8');
    PairPasses('5', '9');
    PairPasses('8', '1');
    PairPasses('1', '9');
  }

  lemma NormalizeOne(c: char)
    ensures Normalize([c]) == if IsSeparator(c) then "" else [c]
  {
  }

  lemma NormalizeThree(a: char, b: char, c: char)
    ensures Normalize([a, b, c]) == Normalize([a]) + Normalize([b]) + Normalize([c])
    ensures var one := (d: char) => if IsSeparator(d) then "" else [d]; Normalize([a, b, c]) == one(a) + one(b) + one(c)
  {
    NormalizeConcat([a] + [b], [c]);
    NormalizeConcat([a], [b]);
    NormalizeOne(a);
    NormalizeOne(b);
    NormalizeOne(c);
    hide Normalize, IsSeparator;
    assert [a] + [b] + [c] == [a, b, c];
  }

  lemma PairPasses(x: char, y: char)
    requires IsDigit(x) && IsDigit(y)
    ensures var d := x as int - '0' as int;
            Passes([x, y]) <==> ((if d < 5 then 2 * d else 2 * d - 9) + (y as int - '0' as int)) % 10 == 0
  {
    hide WeightedSum, Weighted;
    PairSum(x, y, 0);
    DoubledDigit(Digit(x));
    PlainDigit(Digit(y));
  }

  predicate Separators(s: string) {
    forall i :: 0 <= i < |s| ==> IsSeparator(s[i])
  }

  predicate SeparatorFree(s: string) {
    forall i :: 0 <= i < |s| ==> !IsSeparator(s[i])
  }

  /** normalizeCreditCardNumber */
  function Normalize(s: string): (n: string)
    ensures SeparatorFree(n)
  {
    if s == "" then "" else if IsSeparator(s[0]) then Normalize(s[1..]) else [s[0]] + Normalize(s[1..])
  }

  /** The characters of n with a gap before each of them and one after the last. */
  function Spaced(n: string, gaps: seq<string>): string
    requires |gaps| == |n| + 1
  {
    if n == "" then gaps[0] else gaps[0] + [n[0]] + Spaced(n[1..], gaps[1..])
  }

  lemma {:induction false} NormalizeConcat(a: string, b: string)
    ensures Normalize(a + b) == Normalize(a) + Normalize(b)
  {
    if a == "" {
      assert a + b == b;
    } else {
      assert (a + b)[1..] == a[1..] + b;
      NormalizeConcat(a[1..], b);
    }
  }

  lemma {:induction false} NormalizeSeparators(s: string)
    requires Separators(s)
    ensures Normalize(s) == ""
  {
    if s != "" {
      NormalizeSeparators(s[1..]);
    }
  }

  /** Spaces and hyphens put anywhere into a number are exactly what normalization removes. */
  lemma {:induction false} NormalizeSpaced(n: string, gaps: seq<string>)
    requires |gaps| == |n| + 1 && SeparatorFree(n)
    requires forall i :: 0 <= i < |gaps| ==> Separators(gaps[i])
    ensures Normalize(Spaced(n, gaps)) == n
  {
    NormalizeSeparators(gaps[0]);
    if n != "" {
      NormalizeConcat(gaps[0] + [n[0]], Spaced(n[1..], gaps[1..]));
      NormalizeConcat(gaps[0], [n[0]]);
      NormalizeSpaced(n[1..], gaps[1..]);
    }
  }

  /** Conversely, every string is its normal form with separators put in. */
  lemma {:induction false} SpacedNormal(s: string) returns (gaps: seq<string>)
    ensures |gaps| == |Normalize(s)| + 1
    ensures forall i :: 0 <= i < |gaps| ==> Separators(gaps[i])
    ensures Spaced(Normalize(s), gaps) == s
  {
    hide IsSeparator;
    if s == "" {
      gaps := [""];
    } else {
      var rest := SpacedNormal(s[1..]);
      var n := Normalize(s[1..]);
      if IsSeparator(s[0]) {
        gaps := [[s[0]] + rest[0]] + rest[1..];
        assert gaps[1..] == rest[1..];
        assert s == [s[0]] + s[1..];
      } else {
        gaps := [""] + rest;
        assert gaps[1..] == rest;
        assert Normalize(s)[1..] == n;
        assert s == [s[0]] + s[1..];
      }
    }
  }
}
