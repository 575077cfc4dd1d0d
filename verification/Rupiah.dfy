/** Printing amounts in documents (internal/shared/docpdf/format.go).

    An amount arrives as text; only whether it can be read, and the number it denotes, matters here. */
module Rupiah {
  import opened Digits
  import opened Text
  import opened Wrappers
  import Pricing

  // ---------- grouping ----------

  /** What the loop has written after `i` digits. */
  function Written(digits: string, i: nat): string
    requires i <= |digits|
  {
    if i == 0 then ""
    else
      Written(digits, i - 1)
      + (if i - 1 > 0 && (|digits| - (i - 1)) % 3 == 0 then "." else "") + [digits[i - 1]]
  }

  method GroupThousands(digits: string) returns (b: string)
    ensures b == Join(Groups(digits), '.')
  {
    b := "";
    for i := 0 to |digits|
      invariant b == Written(digits, i)
    {
      if i > 0 && (|digits| - i) % 3 == 0 {
        b := b + ".";
      }
      b := b + [digits[i]];
    }
    WrittenIsJoined(digits);
  }

  /** The groups, split off from the right, three digits at a time. */
  function Groups(digits: string): (groups: seq<string>)
    ensures groups != []
    ensures 0 < |digits| ==> 1 <= |groups[0]| <= 3
    ensures forall k :: 1 <= k < |groups| ==> |groups[k]| == 3
  {
    if |digits| <= 3 then [digits] else Groups(digits[..|digits| - 3]) + [digits[|digits| - 3..]]
  }

  function Concat(parts: seq<string>): string {
    if parts == [] then "" else Concat(parts[..|parts| - 1]) + parts[|parts| - 1]
  }

  lemma ConcatMore(parts: seq<string>, last: string)
    ensures Concat(parts + [last]) == Concat(parts) + last
  {
    assert (parts + [last])[..|parts|] == parts;
  }

  lemma {:induction false} GroupsConcat(digits: string)
    ensures Concat(Groups(digits)) == digits
    decreases |digits|
  {
    if |digits| <= 3 {
      ConcatMore([], digits);
      assert [] + [digits] == Groups(digits);
    } else {
      var front, last := digits[..|digits| - 3], digits[|digits| - 3..];
      GroupsConcat(front);
      ConcatMore(Groups(front), last);
      assert front + last == digits;
    }
  }

  /** The last three digits do not matter to the ones before. */
  lemma {:induction false} WrittenBefore(digits: string, i: nat)
    requires |digits| > 3 && i <= |digits| - 3
    ensures Written(digits, i) == Written(digits[..|digits| - 3], i)
    decreases i
  {
    if i > 0 {
      WrittenBefore(digits, i - 1);
    }
  }

  lemma {:induction false} WrittenShort(digits: string, i: nat)
    requires i <= |digits| <= 3
    ensures Written(digits, i) == digits[..i]
    decreases i
  {
    if i > 0 {
      WrittenShort(digits, i - 1);
      assert digits[..i] == digits[..i - 1] + [digits[i - 1]];
    }
  }

  lemma WrittenDot(digits: string, i: nat)
    requires 0 < i < |digits| && (|digits| - i) % 3 == 0
    ensures Written(digits, i + 1) == Written(digits, i) + "." + [digits[i]]
  {
  }

  lemma WrittenPlain(digits: string, i: nat)
    requires 0 < i < |digits| && (|digits| - i) % 3 != 0
    ensures Written(digits, i + 1) == Written(digits, i) + [digits[i]]
  {
    assert Written(digits, i) + "" == Written(digits, i);
  }

  lemma ThreeMore(s: string, a: char, b: char, c: char)
    ensures s + "." + [a] + [b] + [c] == s + "." + [a, b, c]
  {
  }

  lemma LastGroup(digits: string)
    requires |digits| > 3
    ensures Written(digits, |digits|) == Written(digits, |digits| - 3) + "." + digits[|digits| - 3..]
  {
    hide Written;
    var n := |digits|;
    WrittenDot(digits, n - 3);
    WrittenPlain(digits, n - 2);
    WrittenPlain(digits, n - 1);
    ThreeMore(Written(digits, n - 3), digits[n - 3], digits[n - 2], digits[n - 1]);
    LastThree(digits);
  }

  lemma LastThree(s: string)
    requires |s| > 3
    ensures s[|s| - 3..] == [s[|s| - 3], s[|s| - 2], s[|s| - 1]]
  {
  }

  lemma {:induction false} WrittenIsJoined(digits: string)
    ensures Written(digits, |digits|) == Join(Groups(digits), '.')
    decreases |digits|
  {
    if |digits| <= 3 {
      WrittenShort(digits, |digits|);
      assert digits[..|digits|] == digits;
    } else {
      OneGroupMore(digits);
      WrittenIsJoined(digits[..|digits| - 3]);
    }
  }

  lemma OneGroupMore(digits: string)
    requires |digits| > 3
    ensures var front, last := digits[..|digits| - 3], digits[|digits| - 3..];
            && Written(digits, |digits|) == Written(front, |front|) + "." + last
            && Join(Groups(digits), '.') == Join(Groups(front), '.') + "." + last
  {
    hide Written, Join;
    var front, last := digits[..|digits| - 3], digits[|digits| - 3..];
    WrittenBefore(digits, |digits| - 3);
    LastGroup(digits);
    JoinConcat(Groups(front), [last], '.');
    JoinOne(last, '.');
  }

  lemma JoinOne(part: string, sep: char)
    ensures Join([part], sep) == part
  {
  }

  lemma {:induction false} GroupsHave(digits: string, c: char)
    requires c !in digits
    ensures Without(Groups(digits), c)
    decreases |digits|
  {
    if |digits| > 3 {
      GroupsHave(digits[..|digits| - 3], c);
    }
  }

  /** Deleting the dots. */
  function Ungrouped(s: string): string {
    Concat(Split(s, '.'))
  }

  /** What is grouped: at most three digits, then a dot and three digits, again and again; deleting the dots restores it. */
  lemma GroupingIsUndone(digits: string)
    requires '.' !in digits
    ensures Split(Join(Groups(digits), '.'), '.') == Groups(digits)
    ensures Ungrouped(Join(Groups(digits), '.')) == digits
  {
    GroupsHave(digits, '.');
    SplitInvertsJoin(Groups(digits), '.');
    GroupsConcat(digits);
  }

  // ---------- splitting a decimal ----------

  function Cents(v: real): nat
    requires v >= 0.0
  {
    (v * 100.0 + 0.5).Floor
  }

  function Abs(v: real): real {
    if v < 0.0 then -v else v
  }

  function TwoDigits(n: nat): string
    requires n < 100
  {
    [Digit(n / 10), Digit(n % 10)]
  }

  /** `Rat.FloatString(2)`: the sign is that of the number, even when it rounds to zero. */
  function FloatString2(v: real): string {
    var c := Cents(Abs(v));
    (if v < 0.0 then "-" else "") + Decimal(c / 100) + "." + TwoDigits(c % 100)
  }

  /** `strings.Cut`: None when the separator is absent. */
  function Cut(s: string, sep: char): (string, string) {
    if s == [] then ("", "")
    else if s[0] == sep then ("", s[1..])
    else
      var (a, b) := Cut(s[1..], sep);
      ([s[0]] + a, b)
  }

  function TrimPrefix(s: string, c: char): string {
    if s != [] && s[0] == c then s[1..] else s
  }

  function TrimRight(s: string, c: char): string {
    if s != [] && s[|s| - 1] == c then TrimRight(s[..|s| - 1], c) else s
  }

  /** None: the text cannot be read. */
  function SplitDecimal(v: Option<real>): (string, string) {
    if v == None then ("0", "")
    else
      var (whole, frac) := Cut(FloatString2(v.value), '.');
      (TrimPrefix(whole, '-'), TrimRight(frac, '0'))
  }

  function GroupedText(digits: string): string {
    Join(Groups(digits), '.')
  }

  function FormatRupiah(v: Option<real>): string {
    var (whole, frac) := SplitDecimal(v);
    "Rp " + GroupedText(whole) + if frac == "" then "" else if |frac| == 1 then "," + frac + "0" else "," + frac
  }

  function FormatQuantity(v: Option<real>): string {
    var (whole, frac) := SplitDecimal(v);
    if frac == "" then GroupedText(whole) else GroupedText(whole) + "," + frac
  }

  lemma {:induction false} CutAt(a: string, b: string, sep: char)
    requires sep !in a
    ensures Cut(a + [sep] + b, sep) == (a, b)
    decreases |a|
  {
    var whole := a + [sep] + b;
    if a == [] {
      assert whole[1..] == b;
    } else {
      CutAt(a[1..], b, sep);
      assert whole[1..] == a[1..] + [sep] + b;
      assert [a[0]] + a[1..] == a;
    }
  }

  lemma {:induction false} CutNowhere(a: string, sep: char)
    requires sep !in a
    ensures Cut(a, sep) == (a, "")
    decreases |a|
  {
    if a != [] {
      CutNowhere(a[1..], sep);
      assert [a[0]] + a[1..] == a;
    }
  }

  /** The fraction, its zeros dropped from the right. */
  function Fraction(n: nat): string
    requires n < 100
  {
    if n == 0 then "" else if n % 10 == 0 then [Digit(n / 10)] else TwoDigits(n)
  }

  lemma ZerosDropped(n: nat)
    requires n < 100
    ensures TrimRight(TwoDigits(n), '0') == Fraction(n)
  {
    var tens := [Digit(n / 10)];
    assert TwoDigits(n)[..1] == tens && tens[..0] == "";
    assert Digit(n % 10) == '0' <==> n % 10 == 0;
    assert Digit(n / 10) == '0' <==> n / 10 == 0;
    assert TrimRight(TwoDigits(n), '0') == if n % 10 == 0 then TrimRight(tens, '0') else TwoDigits(n);
    assert TrimRight(tens, '0') == if n / 10 == 0 then TrimRight("", '0') else tens;
  }

  lemma SplitDecimalIs(v: real)
    ensures var c := Cents(Abs(v)); SplitDecimal(Some(v)) == (Decimal(c / 100), Fraction(c % 100))
  {
    hide Decimal, TwoDigits, Cut, Fraction, TrimRight;
    var c := Cents(Abs(v));
    var whole, frac := Decimal(c / 100), TwoDigits(c % 100);
    var signed := (if v < 0.0 then "-" else "") + whole;
    assert '.' !in signed && IsDigit(whole[0]);
    CutAt(signed, frac, '.');
    assert FloatString2(v) == signed + ['.'] + frac;
    assert TrimPrefix(signed, '-') == whole;
    ZerosDropped(c % 100);
  }

  // ---------- reading back ----------

  /** One or two fraction digits, as hundredths. */
  function Hundredths(frac: string): Option<nat> {
    if !AllDigits(frac) || |frac| > 2 then None
    else if frac == "" then Some(0)
    else if |frac| == 1 then Some(10 * Value(frac))
    else Some(Value(frac))
  }

  /** A reader of amounts in Indonesian notation, in cents: dots between groups of digits, a comma before the fraction. */
  function ReadAmount(s: string): Option<nat> {
    var (whole, frac) := Cut(s, ',');
    var digits := Ungrouped(whole);
    if digits == "" || !AllDigits(digits) || Hundredths(frac) == None then None
    else Some(100 * Value(digits) + Hundredths(frac).value)
  }

  function ReadRupiah(s: string): Option<nat> {
    if "Rp " <= s then ReadAmount(s[3..]) else None
  }

  lemma FractionReads(n: nat)
    requires n < 100
    ensures Hundredths(Fraction(n)) == Some(n) && |Fraction(n)| <= 2 && ',' !in Fraction(n)
    ensures |Fraction(n)| == 1 ==> Hundredths(Fraction(n) + "0") == Some(n)
  {
    ValueOfTwo(n);
    if n % 10 == 0 && n > 0 {
      assert [Digit(n / 10)] + "0" == TwoDigits(n);
    }
  }

  lemma ValueOfTwo(n: nat)
    requires n < 100
    ensures Value(TwoDigits(n)) == n && Value([Digit(n / 10)]) == n / 10
  {
    ValueOfDecimal(n / 10);
    assert TwoDigits(n)[..1] == [Digit(n / 10)];
  }

  lemma {:induction false} JoinHas(parts: seq<string>, sep: char, c: char)
    requires c != sep && Without(parts, c)
    ensures c !in Join(parts, sep)
    decreases |parts|
  {
    if |parts| > 1 {
      JoinHas(parts[1..], sep, c);
    }
  }

  lemma GroupedReads(n: nat, frac: string, cents: nat)
    requires Hundredths(frac) == Some(cents)
    ensures ReadAmount(GroupedText(Decimal(n)) + "," + frac) == Some(100 * n + cents)
    ensures frac == "" ==> ReadAmount(GroupedText(Decimal(n))) == Some(100 * n)
  {
    var digits := Decimal(n);
    assert '.' !in digits && ',' !in digits;
    GroupingIsUndone(digits);
    GroupsHave(digits, ',');
    JoinHas(Groups(digits), '.', ',');
    CutAt(GroupedText(digits), frac, ',');
    CutNowhere(GroupedText(digits), ',');
    ValueOfDecimal(n);
  }

  /** Reading back what was printed gives the number rounded to cents, its sign dropped. */
  lemma PrintedAmountReadsBack(v: real)
    ensures ReadRupiah(FormatRupiah(Some(v))) == Some(Cents(Abs(v)))
    ensures ReadAmount(FormatQuantity(Some(v))) == Some(Cents(Abs(v)))
  {
    hide ReadAmount, Fraction, Hundredths, GroupedText, SplitDecimal;
    var c := Cents(Abs(v));
    var whole, frac := Decimal(c / 100), Fraction(c % 100);
    SplitDecimalIs(v);
    FractionReads(c % 100);
    GroupedReads(c / 100, frac, c % 100);
    if frac == "" {
      FractionIsBlank(c % 100);
      assert FormatRupiah(Some(v))[3..] == GroupedText(whole);
    } else if |frac| == 1 {
      GroupedReads(c / 100, frac + "0", c % 100);
      assert FormatRupiah(Some(v)) == "Rp " + (GroupedText(whole) + "," + (frac + "0"));
    } else {
      assert FormatRupiah(Some(v)) == "Rp " + (GroupedText(whole) + "," + frac);
    }
  }

  /** What is printed: the grouped rupiah, and, unless they are zero, a comma and exactly two digits of cents. */
  lemma RupiahShape(v: real)
    ensures var c := Cents(Abs(v));
            FormatRupiah(Some(v)) ==
              "Rp " + GroupedText(Decimal(c / 100)) + if c % 100 == 0 then "" else "," + TwoDigits(c % 100)
  {
    hide Decimal, GroupedText;
    var n := Cents(Abs(v)) % 100;
    SplitDecimalIs(v);
    if n % 10 == 0 && n > 0 {
      assert "," + [Digit(n / 10)] + "0" == "," + TwoDigits(n);
    }
  }

  /** A quantity: grouped, and with only the decimals it needs. */
  lemma QuantityShape(v: real)
    ensures var c := Cents(Abs(v));
            FormatQuantity(Some(v)) ==
              GroupedText(Decimal(c / 100)) + if c % 100 == 0 then "" else if c % 10 == 0 then "," + [Digit(c % 100 / 10)]
                                              else "," + TwoDigits(c % 100)
    ensures FormatQuantity(None) == "0"
  {
    var n := Cents(Abs(v)) % 100;
    SplitDecimalIs(v);
    assert n % 10 == 0 <==> Cents(Abs(v)) % 10 == 0;
    hide Decimal, SplitDecimal, Cents, Abs, TwoDigits;
    assert Groups("0") == ["0"];
    hide GroupedText;
  }

  lemma FractionIsBlank(n: nat)
    requires n < 100 && Fraction(n) == ""
    ensures n == 0
  {
  }

  lemma PrintIsCents(v: real)
    ensures Abs(Pricing.Print2(v)) == Cents(Abs(v)) as real / 100.0
  {
    if v < 0.0 {
      assert Pricing.Print2(v) == -(Cents(-v) as real / 100.0);
    }
  }

  lemma SignOfPrint(v: real)
    ensures Pricing.Print2(v) == if v < 0.0 then -(Cents(-v) as real / 100.0) else Cents(v) as real / 100.0
  {
  }

  /** A printed amount reads back as the number rounded to two decimals iff that is not negative, which is so above minus half
      a cent: the sign is dropped. */
  lemma AmountReadsBackIffNotNegative(v: real)
    ensures var read := ReadRupiah(FormatRupiah(Some(v)));
            read.Some? && (read.value as real / 100.0 == Pricing.Print2(v) <==> v > -0.005)
  {
    PrintedAmountReadsBack(v);
    SignOfPrint(v);
    PrintsNegative(v);
    hide ReadRupiah, FormatRupiah, Cents, Pricing.Print2;
  }

  lemma PrintsNegative(v: real)
    ensures Pricing.Print2(v) >= 0.0 <==> v > -0.005
  {
    if v < 0.0 {
      assert Pricing.RoundHalfUp2(-v) <= 0.0 <==> (-v * 100.0 + 0.5).Floor <= 0;
    } else {
      Pricing.RoundingKeepsSign(v);
    }
  }

  /** Amounts print alike iff they round to the same cents, signs aside. */
  lemma PrintedAlike(v: real, w: real)
    ensures FormatRupiah(Some(v)) == FormatRupiah(Some(w)) <==> Abs(Pricing.Print2(v)) == Abs(Pricing.Print2(w))
  {
    PrintedAmountReadsBack(v);
    PrintedAmountReadsBack(w);
    SplitDecimalIs(v);
    SplitDecimalIs(w);
    PrintIsCents(v);
    PrintIsCents(w);
    hide SplitDecimal, ReadRupiah, GroupedText, Cents, Abs;
  }

  lemma UnreadableAmountIsZero()
    ensures FormatRupiah(None) == FormatRupiah(Some(0.0)) == "Rp 0"
  {
    SplitDecimalIs(0.0);
  }
}
