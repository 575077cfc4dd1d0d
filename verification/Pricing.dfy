/** Line pricing and quotation totals (internal/shared/pricing/calc.go, pricing.go).

    Amounts are exact rationals, as `big.Rat` holds them; a printed two-decimal string is modelled by the number
    it denotes, and a field of a request by whether it is blank, unreadable or a number. */
module Pricing {
  import opened Wrappers
  import opened Text
  import opened Period

  // ---------- rounding ----------

  predicate WholeCents(v: real) {
    v * 100.0 == (v * 100.0).Floor as real
  }

  /** To two decimals, half up; the source calls it on values >= 0 only. */
  function RoundHalfUp2(v: real): real {
    (v * 100.0 + 0.5).Floor as real / 100.0
  }

  /** `FloatString(2)`: to two decimals, half away from zero. */
  function Print2(v: real): real {
    if v >= 0.0 then RoundHalfUp2(v) else -RoundHalfUp2(-v)
  }

  lemma RoundingIsNear(v: real)
    ensures WholeCents(RoundHalfUp2(v)) && v - 0.005 < RoundHalfUp2(v) <= v + 0.005
  {
    var k := (v * 100.0 + 0.5).Floor;
    assert RoundHalfUp2(v) * 100.0 == k as real;
  }

  lemma WholeCentsAreInts(v: real) returns (k: int)
    requires WholeCents(v)
    ensures v == k as real / 100.0
  {
    k := (v * 100.0).Floor;
  }

  lemma CentsOfInt(k: int)
    ensures WholeCents(k as real / 100.0)
    ensures RoundHalfUp2(k as real / 100.0) == k as real / 100.0
  {
    var v := k as real / 100.0;
    assert v * 100.0 == k as real;
    assert (k as real + 0.5).Floor == k;
  }

  lemma PrintKeepsCents(v: real)
    requires WholeCents(v)
    ensures Print2(v) == RoundHalfUp2(v) == v
  {
    var k := WholeCentsAreInts(v);
    CentsOfInt(k);
    CentsOfInt(-k);
    assert -v == (-k) as real / 100.0;
  }

  lemma CentsAdd(a: real, b: real)
    requires WholeCents(a) && WholeCents(b)
    ensures WholeCents(a + b) && WholeCents(a - b)
  {
    var j := WholeCentsAreInts(a);
    var k := WholeCentsAreInts(b);
    CentsOfInt(j + k);
    CentsOfInt(j - k);
    assert a + b == (j + k) as real / 100.0 && a - b == (j - k) as real / 100.0;
  }

  lemma RoundingIsMonotone(a: real, b: real)
    requires a <= b
    ensures RoundHalfUp2(a) <= RoundHalfUp2(b)
  {
    assert (a * 100.0 + 0.5).Floor <= (b * 100.0 + 0.5).Floor;
  }

  // ---------- price attributes ----------

  datatype ChargeType = UnsetCharge | OneTime | Recurring | OtherCharge
  datatype PaymentTiming = UnsetTiming | Prepaid | Postpaid | OtherTiming

  /** A missing frequency is the empty string of the source. */
  datatype Attributes = Attributes(charge: ChargeType, frequency: Option<Frequency>, timing: PaymentTiming)

  /** Fills in the defaults, then validates. */
  function Normalize(a: Attributes): (r: Option<Attributes>)
    ensures r.Some? ==> || (r.value.charge == OneTime && r.value.frequency == None)
                        || (r.value.charge == Recurring && r.value.frequency.Some? && r.value.frequency.value != Unlisted)
    ensures r.Some? ==> r.value.timing != UnsetTiming && r.value.timing != OtherTiming
    ensures r.Some? <==> a.timing != OtherTiming
                         && if a.frequency == None then a.charge == UnsetCharge || a.charge == OneTime
                            else a.charge == Recurring && a.frequency.value != Unlisted
    ensures r.Some? ==> && r.value.frequency == a.frequency && (a.charge != UnsetCharge ==> r.value.charge == a.charge)
                        && (a.timing == UnsetTiming ==> r.value.timing == Prepaid)
                        && (a.timing != UnsetTiming ==> r.value.timing == a.timing)
  {
    var timing := if a.timing == UnsetTiming then Prepaid else a.timing;
    if timing == OtherTiming then None
    else match a.charge
      case UnsetCharge => if a.frequency == None then Some(Attributes(OneTime, None, timing)) else None
      case OneTime => if a.frequency == None then Some(Attributes(OneTime, None, timing)) else None
      case Recurring =>
        if a.frequency == None || a.frequency.value == Unlisted then None
        else Some(Attributes(Recurring, a.frequency, timing))
      case OtherCharge => None
  }

  // ---------- one line ----------

  datatype Field = Blank | Garbled | Number(value: real)

  datatype LineInput = LineInput(description: string, quantity: Field, unitPrice: Field,
                                 discountPercent: Field, taxPercent: Field, attrs: Attributes)

  datatype PricedLine = PricedLine(description: string, quantity: real, unitPrice: real, discountPercent: Option<real>,
                                   taxPercent: real, taxAmount: real, lineTotal: real, attrs: Attributes)

  /** An accepted line: what the fields of a `LineInput` parse to. */
  datatype Line = Line(description: string, quantity: real, price: real, discount: real, tax: real,
                       discountSent: bool, attrs: Attributes)

  function ParseNonNegative(f: Field, fallback: real, max: Option<real>): Option<real> {
    match f
    case Garbled => None
    case _ =>
      var r := if f.Number? then f.value else fallback;
      if r < 0.0 || (max.Some? && r > max.value) then None else Some(r)
  }

  function ParseLine(l: LineInput): Option<Line> {
    var description := TrimSpace(l.description);
    var qty := ParseNonNegative(l.quantity, 1.0, None);
    var price := ParseNonNegative(l.unitPrice, 0.0, None);
    var disc := ParseNonNegative(l.discountPercent, 0.0, Some(100.0));
    var tax := ParseNonNegative(l.taxPercent, 0.0, Some(100.0));
    var attrs := Normalize(l.attrs);
    if attrs == None || description == [] || |description| > 500 || qty == None || price == None || disc == None || tax == None
    then None
    else Some(Line(description, qty.value, price.value, disc.value, tax.value, l.discountPercent != Blank, attrs.value))
  }

  function Times(a: real, b: real): real {
    a * b
  }

  function Percent(base: real, pct: real): real {
    base * pct / 100.0
  }

  function Gross(l: Line): real {
    RoundHalfUp2(Times(l.quantity, l.price))
  }

  function Discount(l: Line): real {
    RoundHalfUp2(Percent(Gross(l), l.discount))
  }

  function Net(l: Line): real {
    Gross(l) - Discount(l)
  }

  function Tax(l: Line): real {
    RoundHalfUp2(Percent(Net(l), l.tax))
  }

  function LineGross(l: Line): real {
    Net(l) + Tax(l)
  }

  function PricedOf(l: Line): PricedLine {
    PricedLine(l.description, Print2(l.quantity), Print2(l.price),
               if l.discountSent then Some(Print2(l.discount)) else None,
               Print2(l.tax), Print2(Tax(l)), Print2(Net(l)), l.attrs)
  }

  predicate Accepted(l: Line) {
    && l.quantity >= 0.0 && l.price >= 0.0 && 0.0 <= l.discount <= 100.0 && 0.0 <= l.tax <= 100.0
    && l.description != [] && |l.description| <= 500 && TrimSpace(l.description) == l.description
    && Normalize(l.attrs) == Some(l.attrs) && (!l.discountSent ==> l.discount == 0.0)
  }

  lemma ParsedLineIsAccepted(l: LineInput)
    requires ParseLine(l).Some?
    ensures Accepted(ParseLine(l).value)
  {
    TrimTrimmed(TrimSpace(l.description), IsSpace);
  }

  /** The discount never exceeds the rounded gross, so the net is not negative, nor is the tax above the net;
      and all four amounts are whole cents. */
  lemma LineAmounts(l: Line)
    requires Accepted(l)
    ensures 0.0 <= Discount(l) <= Gross(l) && 0.0 <= Tax(l) <= Net(l)
    ensures WholeCents(Gross(l)) && WholeCents(Discount(l)) && WholeCents(Net(l)) && WholeCents(Tax(l))
  {
    hide RoundHalfUp2, WholeCents, Percent, Times, TrimSpace;
    assert 0.0 <= Times(l.quantity, l.price) by {
      TimesKeepsSign(l.quantity, l.price);
    }
    RoundingKeepsSign(Times(l.quantity, l.price));
    PercentOf(Gross(l), l.discount);
    CentsAdd(Gross(l), Discount(l));
    PercentOf(Net(l), l.tax);
  }

  lemma TimesKeepsSign(a: real, b: real)
    requires 0.0 <= a && 0.0 <= b
    ensures 0.0 <= Times(a, b)
  {
  }

  lemma RoundingKeepsSign(v: real)
    requires 0.0 <= v
    ensures 0.0 <= RoundHalfUp2(v) && WholeCents(RoundHalfUp2(v))
  {
    RoundingIsNear(v);
    assert (v * 100.0 + 0.5).Floor >= 0;
  }

  lemma PercentOf(base: real, pct: real)
    requires 0.0 <= base && 0.0 <= pct <= 100.0 && WholeCents(base)
    ensures 0.0 <= RoundHalfUp2(Percent(base, pct)) <= base && WholeCents(RoundHalfUp2(Percent(base, pct)))
  {
    hide RoundHalfUp2, WholeCents;
    assert 0.0 <= base * pct <= base * 100.0;
    RoundingKeepsSign(Percent(base, pct));
    RoundingIsMonotone(Percent(base, pct), base);
    PrintKeepsCents(base);
  }

  /** What the line would cost without rounding: q * p * (1 - d) * (1 + t). */
  function ExactGross(l: Line): real {
    Times(Times(Times(l.quantity, l.price), 1.0 - l.discount / 100.0), 1.0 + l.tax / 100.0)
  }

  lemma Scale(e: real, w: real, bound: real, cap: real)
    requires -bound <= e <= bound && 0.0 <= w <= cap && 0.0 <= bound
    ensures -(bound * cap) <= Times(e, w) <= bound * cap
  {
    assert bound * w <= bound * cap;
    assert e * w <= bound * w && -(bound * w) <= e * w;
  }

  lemma Distribute(a: real, b: real, w: real)
    ensures Times(a + b, w) == Times(a, w) + Times(b, w)
    ensures Times(a, 1.0 - w) == a - Times(a, w) && Times(a, 1.0 + w) == a + Times(a, w)
  {
  }

  lemma NestedRoundings(x: real, d: real, t: real, e1: real, e2: real, e3: real)
    requires 0.0 <= d <= 1.0 && 0.0 <= t <= 1.0
    requires -0.005 <= e1 <= 0.005 && -0.005 <= e2 <= 0.005 && -0.005 <= e3 <= 0.005
    ensures var net := (x + e1) - (Times(x + e1, d) + e2);
            -0.025 <= net + (Times(net, t) + e3) - Times(Times(x, 1.0 - d), 1.0 + t) <= 0.025
  {
    var net := (x + e1) - (Times(x + e1, d) + e2);
    Scale(e1, 1.0 - d, 0.005, 1.0);
    var e := Times(e1, 1.0 - d) - e2;
    Scale(e, 1.0 + t, 0.01, 2.0);
    var y := Times(x, 1.0 - d);
    hide Times;
    Distribute(x, e1, d);
    Distribute(e1, 0.0, d);
    assert net == y + e;
    Distribute(y, e, t);
    Distribute(e, 0.0, t);
  }

  /** Three nested roundings move a line by at most 2.5 cents. */
  lemma LineError(l: Line)
    requires Accepted(l)
    ensures -0.025 <= LineGross(l) - ExactGross(l) <= 0.025
  {
    hide RoundHalfUp2, Times, Percent, WholeCents, TrimSpace;
    var d, t := l.discount / 100.0, l.tax / 100.0;
    var qp := Times(l.quantity, l.price);
    RoundingIsNear(qp);
    RoundingIsNear(Percent(Gross(l), l.discount));
    RoundingIsNear(Percent(Net(l), l.tax));
    PercentIsTimes(Gross(l), l.discount);
    PercentIsTimes(Net(l), l.tax);
    NestedRoundings(qp, d, t, Gross(l) - qp, Discount(l) - Times(Gross(l), d), Tax(l) - Times(Net(l), t));
    assert qp + (Gross(l) - qp) == Gross(l);
  }

  lemma PercentIsTimes(base: real, pct: real)
    ensures Percent(base, pct) == Times(base, pct / 100.0)
  {
  }

  // ---------- totals ----------

  function Total(lines: seq<Line>, part: Line -> real): real {
    if lines == [] then 0.0 else Total(lines[..|lines| - 1], part) + part(lines[|lines| - 1])
  }

  function RecurringPart(f: Frequency): Line -> real {
    (l: Line) => if l.attrs.charge == Recurring && l.attrs.frequency.Some? && l.attrs.frequency.value == f then LineGross(l) else 0.0
  }

  function OneTimePart(l: Line): real {
    if l.attrs.charge == Recurring then 0.0 else LineGross(l)
  }

  function FirstInvoicePart(l: Line): real {
    if l.attrs.timing == Prepaid then LineGross(l) else 0.0
  }

  /** The frequencies that occur on recurring lines. */
  function Recurs(lines: seq<Line>): set<Frequency> {
    set l | l in lines && l.attrs.charge == Recurring && l.attrs.frequency.Some? :: l.attrs.frequency.value
  }

  datatype Totals = Totals(subtotal: real, discountTotal: real, taxTotal: real, grandTotal: real,
                           oneTimeTotal: real, firstInvoiceTotal: real, recurringTotals: map<Frequency, real>)

  function BuildTotals(subtotal: real, discountTotal: real, taxTotal: real, oneTime: real, firstInvoice: real,
                       recurring: map<Frequency, real>): Totals {
    Totals(Print2(subtotal), Print2(discountTotal), Print2(taxTotal), Print2(subtotal - discountTotal + taxTotal),
           Print2(oneTime), Print2(firstInvoice), map f | f in recurring :: Print2(recurring[f]))
  }

  function TotalsOf(lines: seq<Line>): Totals {
    BuildTotals(Total(lines, Gross), Total(lines, Discount), Total(lines, Tax),
                Total(lines, OneTimePart), Total(lines, FirstInvoicePart),
                map f | f in Recurs(lines) :: Total(lines, RecurringPart(f)))
  }

  datatype Priced = InvalidLine | Priced(totals: Totals, lines: seq<PricedLine>)

  /** The lines parsed one by one, or nothing if one of them is invalid. */
  function ParseLines(inputs: seq<LineInput>): Option<seq<Line>> {
    if inputs == [] then Some([])
    else match ParseLines(inputs[..|inputs| - 1])
      case None => None
      case Some(lines) =>
        match ParseLine(inputs[|inputs| - 1])
        case None => None
        case Some(l) => Some(lines + [l])
  }

  function PricedOfLines(lines: seq<Line>): seq<PricedLine> {
    seq(|lines|, i requires 0 <= i < |lines| => PricedOf(lines[i]))
  }

  function PriceOf(inputs: seq<LineInput>): Priced {
    if inputs == [] then InvalidLine
    else match ParseLines(inputs)
      case None => InvalidLine
      case Some(lines) => Priced(TotalsOf(lines), PricedOfLines(lines))
  }

  lemma {:induction false} InvalidPrefix(inputs: seq<LineInput>, i: nat)
    requires i <= |inputs| && ParseLines(inputs[..i]) == None
    ensures ParseLines(inputs) == None
    decreases |inputs| - i
  {
    if i < |inputs| {
      assert inputs[..i + 1][..i] == inputs[..i];
      InvalidPrefix(inputs, i + 1);
    } else {
      assert inputs[..i] == inputs;
    }
  }

  lemma RecursOfAppend(lines: seq<Line>, l: Line)
    ensures Recurs(lines + [l]) == Recurs(lines)
            + if l.attrs.charge == Recurring && l.attrs.frequency.Some? then {l.attrs.frequency.value} else {}
  {
    forall m ensures m in lines + [l] <==> m in lines || m == l {
    }
  }

  /** A frequency that no line carries has nothing to add up. */
  lemma {:induction false} NoLinesNoTotal(lines: seq<Line>, f: Frequency)
    requires f !in Recurs(lines)
    ensures Total(lines, RecurringPart(f)) == 0.0
    decreases |lines|
  {
    if lines != [] {
      var front, l := lines[..|lines| - 1], lines[|lines| - 1];
      assert lines == front + [l];
      RecursOfAppend(front, l);
      NoLinesNoTotal(front, f);
    }
  }

  ghost predicate RecurringAgrees(recurring: map<Frequency, real>, lines: seq<Line>) {
    recurring.Keys == Recurs(lines) && forall f :: f in recurring ==> recurring[f] == Total(lines, RecurringPart(f))
  }

  lemma TotalOfAppend(lines: seq<Line>, l: Line, part: Line -> real)
    ensures Total(lines + [l], part) == Total(lines, part) + part(l)
  {
    assert (lines + [l])[..|lines|] == lines;
  }

  lemma RecurringStep(recurring: map<Frequency, real>, lines: seq<Line>, l: Line)
    requires RecurringAgrees(recurring, lines) && (l.attrs.charge == Recurring ==> l.attrs.frequency.Some?)
    ensures l.attrs.charge == Recurring ==>
              RecurringAgrees(recurring[l.attrs.frequency.value :=
                (if l.attrs.frequency.value in recurring then recurring[l.attrs.frequency.value] else 0.0) + LineGross(l)],
                lines + [l])
    ensures l.attrs.charge != Recurring ==> RecurringAgrees(recurring, lines + [l])
  {
    hide LineGross;
    RecursOfAppend(lines, l);
    forall f ensures Total(lines + [l], RecurringPart(f)) == Total(lines, RecurringPart(f)) + RecurringPart(f)(l) {
      TotalOfAppend(lines, l, RecurringPart(f));
    }
    if l.attrs.charge == Recurring && l.attrs.frequency.value !in recurring {
      NoLinesNoTotal(lines, l.attrs.frequency.value);
    }
  }

  ghost predicate Accumulated(lines: seq<Line>, subtotal: real, discountTotal: real, taxTotal: real,
                              oneTime: real, firstInvoice: real) {
    && subtotal == Total(lines, Gross) && discountTotal == Total(lines, Discount) && taxTotal == Total(lines, Tax)
    && oneTime == Total(lines, OneTimePart) && firstInvoice == Total(lines, FirstInvoicePart)
  }

  lemma AccumulatedStep(lines: seq<Line>, l: Line, subtotal: real, discountTotal: real, taxTotal: real,
                        oneTime: real, firstInvoice: real)
    requires Accumulated(lines, subtotal, discountTotal, taxTotal, oneTime, firstInvoice)
    ensures Accumulated(lines + [l], subtotal + Gross(l), discountTotal + Discount(l), taxTotal + Tax(l),
                        if l.attrs.charge == Recurring then oneTime else oneTime + LineGross(l),
                        if l.attrs.timing == Prepaid then firstInvoice + LineGross(l) else firstInvoice)
  {
    hide Gross, Discount, Tax, LineGross;
    TotalOfAppend(lines, l, Gross);
    TotalOfAppend(lines, l, Discount);
    TotalOfAppend(lines, l, Tax);
    TotalOfAppend(lines, l, OneTimePart);
    TotalOfAppend(lines, l, FirstInvoicePart);
  }

  lemma RecurringHasFrequency(l: LineInput)
    requires ParseLine(l).Some?
    ensures ParseLine(l).value.attrs.charge == Recurring ==> ParseLine(l).value.attrs.frequency.Some?
  {
    hide TrimSpace;
  }

  lemma ParseNext(inputs: seq<LineInput>, i: nat, done: seq<Line>)
    requires i < |inputs| && ParseLines(inputs[..i]) == Some(done)
    ensures ParseLine(inputs[i]) == None ==> ParseLines(inputs) == None
    ensures ParseLine(inputs[i]).Some? ==>
              && (ParseLine(inputs[i]).value.attrs.charge == Recurring ==> ParseLine(inputs[i]).value.attrs.frequency.Some?)
              && ParseLines(inputs[..i + 1]) == Some(done + [ParseLine(inputs[i]).value])
  {
    hide ParseLine, Accepted, TrimSpace;
    assert inputs[..i + 1][..i] == inputs[..i];
    if ParseLine(inputs[i]) == None {
      InvalidPrefix(inputs, i + 1);
    } else {
      RecurringHasFrequency(inputs[i]);
    }
  }

  lemma PricedOfAppend(lines: seq<Line>, l: Line)
    ensures PricedOfLines(lines + [l]) == PricedOfLines(lines) + [PricedOf(l)]
  {
  }

  method PriceLines(inputs: seq<LineInput>) returns (r: Priced)
    ensures r == PriceOf(inputs)
  {
    hide Gross, Discount, Tax, Net, LineGross, ParseLine, ParseLines, PricedOf, PricedOfLines, Accumulated, RecurringAgrees;
    if |inputs| == 0 {
      return InvalidLine;
    }
    var subtotal, discountTotal, taxTotal := 0.0, 0.0, 0.0;
    var oneTime, firstInvoice := 0.0, 0.0;
    var recurring: map<Frequency, real> := map[];
    var priced: seq<PricedLine> := [];
    ghost var done: seq<Line> := [];
    NothingDone(inputs);
    for i := 0 to |inputs|
      invariant ParseLines(inputs[..i]) == Some(done)
      invariant Accumulated(done, subtotal, discountTotal, taxTotal, oneTime, firstInvoice)
      invariant RecurringAgrees(recurring, done)
      invariant priced == PricedOfLines(done)
    {
      ParseNext(inputs, i, done);
      var parsed := ParseLine(inputs[i]);
      if parsed == None {
        return InvalidLine;
      }
      var l := parsed.value;
      AccumulatedStep(done, l, subtotal, discountTotal, taxTotal, oneTime, firstInvoice);
      RecurringStep(recurring, done, l);
      PricedOfAppend(done, l);
      var gross := Gross(l);
      var disc := Discount(l);
      var tax := Tax(l);
      subtotal := subtotal + gross;
      discountTotal := discountTotal + disc;
      taxTotal := taxTotal + tax;
      var lineGross := LineGross(l);
      if l.attrs.charge == Recurring {
        var f := l.attrs.frequency.value;
        recurring := recurring[f := (if f in recurring then recurring[f] else 0.0) + lineGross];
      } else {
        oneTime := oneTime + lineGross;
      }
      if l.attrs.timing == Prepaid {
        firstInvoice := firstInvoice + lineGross;
      }
      priced := priced + [PricedOf(l)];
      done := done + [l];
    }
    assert inputs[..|inputs|] == inputs;
    TotalsDone(done, subtotal, discountTotal, taxTotal, oneTime, firstInvoice, recurring);
    return Priced(BuildTotals(subtotal, discountTotal, taxTotal, oneTime, firstInvoice, recurring), priced);
  }

  lemma NothingDone(inputs: seq<LineInput>)
    ensures ParseLines(inputs[..0]) == Some([]) && PricedOfLines([]) == []
    ensures Accumulated([], 0.0, 0.0, 0.0, 0.0, 0.0) && RecurringAgrees(map[], [])
  {
    assert inputs[..0] == [];
  }

  lemma TotalsDone(lines: seq<Line>, subtotal: real, discountTotal: real, taxTotal: real,
                   oneTime: real, firstInvoice: real, recurring: map<Frequency, real>)
    requires Accumulated(lines, subtotal, discountTotal, taxTotal, oneTime, firstInvoice)
    requires RecurringAgrees(recurring, lines)
    ensures BuildTotals(subtotal, discountTotal, taxTotal, oneTime, firstInvoice, recurring) == TotalsOf(lines)
  {
    assert recurring == map f | f in Recurs(lines) :: Total(lines, RecurringPart(f));
  }

  // ---------- the totals agree ----------

  ghost predicate AllAccepted(lines: seq<Line>) {
    forall l :: l in lines ==> Accepted(l)
  }

  lemma {:induction false} ParsedLinesAreAccepted(inputs: seq<LineInput>)
    requires ParseLines(inputs).Some?
    ensures AllAccepted(ParseLines(inputs).value) && |ParseLines(inputs).value| == |inputs|
    decreases |inputs|
  {
    if inputs != [] {
      ParsedLinesAreAccepted(inputs[..|inputs| - 1]);
      ParsedLineIsAccepted(inputs[|inputs| - 1]);
    }
  }

  /** The sum over the six frequencies. */
  function FrequencySum(at: Frequency -> real): real {
    at(Daily) + at(Weekly) + at(Monthly) + at(Quarterly) + at(Semiannual) + at(Annual)
  }

  function RecurringTotal(lines: seq<Line>): Frequency -> real {
    (f: Frequency) => Total(lines, RecurringPart(f))
  }

  function RecurringParts(l: Line): Frequency -> real {
    (f: Frequency) => RecurringPart(f)(l)
  }

  lemma RecurringIn(l: Line, f: Frequency)
    ensures RecurringParts(l)(f) ==
            if l.attrs.charge == Recurring && l.attrs.frequency.Some? && l.attrs.frequency.value == f then LineGross(l) else 0.0
  {
    assert RecurringParts(l)(f) == RecurringPart(f)(l);
  }

  /** A line is one-time or carries exactly one of the six frequencies. */
  lemma LineSplits(l: Line)
    requires Accepted(l)
    ensures Gross(l) - Discount(l) + Tax(l) == LineGross(l) == OneTimePart(l) + FrequencySum(RecurringParts(l))
    ensures 0.0 <= FirstInvoicePart(l) <= LineGross(l)
  {
    hide TrimSpace, Gross, Discount, Tax, RecurringParts;
    LineAmounts(l);
    RecurringIn(l, Daily);
    RecurringIn(l, Weekly);
    RecurringIn(l, Monthly);
    RecurringIn(l, Quarterly);
    RecurringIn(l, Semiannual);
    RecurringIn(l, Annual);
  }

  lemma FrequencySumAdds(a: Frequency -> real, b: Frequency -> real, c: Frequency -> real)
    requires forall f :: c(f) == a(f) + b(f)
    ensures FrequencySum(c) == FrequencySum(a) + FrequencySum(b)
  {
  }

  lemma {:induction false} SumsAgree(lines: seq<Line>)
    requires AllAccepted(lines)
    ensures Total(lines, Gross) - Total(lines, Discount) + Total(lines, Tax)
         == Total(lines, LineGross)
         == Total(lines, OneTimePart) + FrequencySum(RecurringTotal(lines))
    ensures 0.0 <= Total(lines, FirstInvoicePart) <= Total(lines, LineGross)
    decreases |lines|
  {
    if lines != [] {
      hide Gross, Discount, Tax, LineGross, OneTimePart, FirstInvoicePart, RecurringPart, FrequencySum, Accepted;
      var front, l := lines[..|lines| - 1], lines[|lines| - 1];
      assert l in lines && forall m :: m in front ==> m in lines;
      SumsAgree(front);
      LineSplits(l);
      FrequencySumAdds(RecurringTotal(front), RecurringParts(l), RecurringTotal(lines));
    }
  }

  /** Sums of whole cents are whole cents. */
  lemma {:induction false} TotalIsCents(lines: seq<Line>, part: Line -> real)
    requires forall l :: l in lines ==> WholeCents(part(l))
    ensures WholeCents(Total(lines, part))
    decreases |lines|
  {
    if lines == [] {
      CentsOfInt(0);
    } else {
      TotalIsCents(lines[..|lines| - 1], part);
      CentsAdd(Total(lines[..|lines| - 1], part), part(lines[|lines| - 1]));
    }
  }

  lemma PartsAreCents(l: Line, f: Frequency)
    requires Accepted(l)
    ensures WholeCents(Gross(l)) && WholeCents(Discount(l)) && WholeCents(Tax(l)) && WholeCents(LineGross(l))
    ensures WholeCents(OneTimePart(l)) && WholeCents(FirstInvoicePart(l)) && WholeCents(RecurringPart(f)(l))
  {
    LineAmounts(l);
    CentsAdd(Net(l), Tax(l));
    CentsOfInt(0);
  }

  /** Printing to two decimals loses nothing, for any of the totals. */
  lemma PrintingTotalsIsExact(lines: seq<Line>)
    requires AllAccepted(lines)
    ensures var t := TotalsOf(lines);
            && t.subtotal == Total(lines, Gross) && t.discountTotal == Total(lines, Discount)
            && t.taxTotal == Total(lines, Tax) && t.oneTimeTotal == Total(lines, OneTimePart)
            && t.firstInvoiceTotal == Total(lines, FirstInvoicePart)
            && t.grandTotal == Total(lines, Gross) - Total(lines, Discount) + Total(lines, Tax)
            && forall f :: f in t.recurringTotals ==> t.recurringTotals[f] == Total(lines, RecurringPart(f))
  {
    hide Print2, WholeCents, Gross, Discount, Tax;
    forall l | l in lines
      ensures WholeCents(Gross(l)) && WholeCents(Discount(l)) && WholeCents(Tax(l))
      ensures WholeCents(OneTimePart(l)) && WholeCents(FirstInvoicePart(l))
    {
      PartsAreCents(l, Daily);
    }
    forall l, f | l in lines ensures WholeCents(RecurringPart(f)(l)) {
      PartsAreCents(l, f);
    }
    CentsOfTotal(lines, Gross);
    CentsOfTotal(lines, Discount);
    CentsOfTotal(lines, Tax);
    CentsOfTotal(lines, OneTimePart);
    CentsOfTotal(lines, FirstInvoicePart);
    CentsAdd(Total(lines, Gross), Total(lines, Discount));
    CentsAdd(Total(lines, Gross) - Total(lines, Discount), Total(lines, Tax));
    PrintKeepsCents(Total(lines, Gross) - Total(lines, Discount) + Total(lines, Tax));
    forall f ensures Print2(Total(lines, RecurringPart(f))) == Total(lines, RecurringPart(f)) {
      CentsOfTotal(lines, RecurringPart(f));
    }
  }

  lemma CentsOfTotal(lines: seq<Line>, part: Line -> real)
    requires forall l :: l in lines ==> WholeCents(part(l))
    ensures WholeCents(Total(lines, part)) && Print2(Total(lines, part)) == Total(lines, part)
  {
    TotalIsCents(lines, part);
    PrintKeepsCents(Total(lines, part));
  }

  function RecurringSum(recurring: map<Frequency, real>): real {
    FrequencySum((f: Frequency) => if f in recurring then recurring[f] else 0.0)
  }

  /** The header of every accepted list of lines adds up, both ways, and the first invoice is part of it. */
  lemma TotalsAgree(lines: seq<Line>)
    requires AllAccepted(lines)
    ensures var t := TotalsOf(lines);
            && t.grandTotal == t.subtotal - t.discountTotal + t.taxTotal
            && t.grandTotal == t.oneTimeTotal + RecurringSum(t.recurringTotals)
            && 0.0 <= t.firstInvoiceTotal <= t.grandTotal
  {
    hide Gross, Discount, Tax, LineGross, Print2;
    var t := TotalsOf(lines);
    PrintingTotalsIsExact(lines);
    SumsAgree(lines);
    forall f ensures (if f in t.recurringTotals then t.recurringTotals[f] else 0.0) == RecurringTotal(lines)(f) {
      if f !in t.recurringTotals {
        NoLinesNoTotal(lines, f);
      }
    }
  }

  /** The grand total is within 2.5 cents a line of the unrounded q * p * (1 - d) * (1 + t). */
  lemma {:induction false} GrandTotalError(lines: seq<Line>)
    requires AllAccepted(lines)
    ensures var n := |lines| as real;
            -0.025 * n <= Total(lines, LineGross) - Total(lines, ExactGross) <= 0.025 * n
    decreases |lines|
  {
    if lines != [] {
      hide LineGross, ExactGross;
      var front, l := lines[..|lines| - 1], lines[|lines| - 1];
      assert l in lines && forall m :: m in front ==> m in lines;
      GrandTotalError(front);
      LineError(l);
    }
  }

  /** What the priced document shows adds up: the grand total is the sum of the printed lines,
      and it is within 2.5 cents a line of the exact price. */
  lemma PrintedLinesAddUp(inputs: seq<LineInput>)
    requires PriceOf(inputs).Priced?
    ensures var r, lines := PriceOf(inputs), ParseLines(inputs).value;
            && |r.lines| == |inputs|
            && r.totals.grandTotal == PrintedSum(r.lines)
            && (var err := r.totals.grandTotal - Total(lines, ExactGross);
                -0.025 * |inputs| as real <= err <= 0.025 * |inputs| as real)
  {
    hide LineGross, ExactGross;
    ParsedLinesAreAccepted(inputs);
    var lines := ParseLines(inputs).value;
    PrintingTotalsIsExact(lines);
    SumsAgree(lines);
    GrandTotalError(lines);
    PrintedSumIsTotal(lines);
  }

  // ---------- what each priced line shows ----------

  /** What a field of the request means: a blank one its default. */
  ghost predicate Means(f: Field, fallback: real, v: real) {
    (f.Blank? && v == fallback) || (f.Number? && v == f.value)
  }

  /** The fields of an accepted line: one piece for a blank quantity, nothing for a blank price, discount or tax. */
  lemma FieldsMean(l: LineInput)
    requires ParseLine(l).Some?
    ensures var line := ParseLine(l).value;
            && Means(l.quantity, 1.0, line.quantity) && Means(l.unitPrice, 0.0, line.price)
            && Means(l.discountPercent, 0.0, line.discount) && Means(l.taxPercent, 0.0, line.tax)
  {
  }

  /** A line is refused iff a number is unreadable, negative or a percentage above 100, the description is blank or longer than
      500 characters, or the attributes are not accepted. */
  lemma RefusedIff(l: LineInput)
    ensures ParseLine(l).Some? <==>
              && (l.quantity.Number? ==> l.quantity.value >= 0.0) && (l.unitPrice.Number? ==> l.unitPrice.value >= 0.0)
              && (l.discountPercent.Number? ==> 0.0 <= l.discountPercent.value <= 100.0)
              && (l.taxPercent.Number? ==> 0.0 <= l.taxPercent.value <= 100.0)
              && !l.quantity.Garbled? && !l.unitPrice.Garbled? && !l.discountPercent.Garbled? && !l.taxPercent.Garbled?
              && 1 <= |TrimSpace(l.description)| <= 500 && Normalize(l.attrs).Some?
  {
    hide TrimSpace;
  }

  lemma {:induction false} ParsedAt(inputs: seq<LineInput>, i: nat)
    requires ParseLines(inputs).Some? && i < |inputs|
    ensures |ParseLines(inputs).value| == |inputs| && ParseLine(inputs[i]) == Some(ParseLines(inputs).value[i])
    decreases |inputs|
  {
    hide ParseLine;
    ParsedLinesAreAccepted(inputs);
    ParsedLinesAreAccepted(inputs[..|inputs| - 1]);
    if i < |inputs| - 1 {
      ParsedAt(inputs[..|inputs| - 1], i);
    }
  }

  /** The gross amount, rounded, less the discount, rounded, is within a cent of the exact net price. */
  lemma NetError(l: Line)
    requires Accepted(l)
    ensures -0.01 <= Net(l) - Times(Times(l.quantity, l.price), 1.0 - l.discount / 100.0) <= 0.01
  {
    hide RoundHalfUp2, Times, Percent, WholeCents, TrimSpace;
    var d := l.discount / 100.0;
    var qp := Times(l.quantity, l.price);
    RoundingIsNear(qp);
    RoundingIsNear(Percent(Gross(l), l.discount));
    PercentIsTimes(Gross(l), l.discount);
    var e := Gross(l) - qp;
    Scale(e, 1.0 - d, 0.005, 1.0);
    Distribute(qp, e, d);
    Distribute(e, 0.0, d);
    assert qp + e == Gross(l);
  }

  /** Every priced line, field by field: the tax is the tax on the line total, the line total the price after the discount, and
      the rest what was sent, the discount only if it was. */
  lemma PricedLineShows(inputs: seq<LineInput>, i: nat, q: real, price: real, d: real, t: real)
    requires PriceOf(inputs).Priced? && i < |inputs|
    requires Means(inputs[i].quantity, 1.0, q) && Means(inputs[i].unitPrice, 0.0, price)
    requires Means(inputs[i].discountPercent, 0.0, d) && Means(inputs[i].taxPercent, 0.0, t)
    ensures |PriceOf(inputs).lines| == |inputs|
    ensures var l, p := inputs[i], PriceOf(inputs).lines[i];
            && p.taxAmount == RoundHalfUp2(Percent(p.lineTotal, t))
            && WholeCents(p.lineTotal) && -0.01 <= p.lineTotal - Times(Times(q, price), 1.0 - d / 100.0) <= 0.01
            && p.description == TrimSpace(l.description) && Some(p.attrs) == Normalize(l.attrs)
            && p.quantity == RoundHalfUp2(q) && p.unitPrice == RoundHalfUp2(price) && p.taxPercent == RoundHalfUp2(t)
            && p.discountPercent == if l.discountPercent == Blank then None else Some(RoundHalfUp2(d))
  {
    hide RoundHalfUp2, ParseLine, PricedOf, Accepted, WholeCents, TrimSpace, Normalize, TotalsOf, ParseLines, Times, Percent;
    ParsedAt(inputs, i);
    ParsedLinesAreAccepted(inputs);
    FieldsMean(inputs[i]);
    ShownFields(inputs[i], ParseLines(inputs).value[i]);
    PricedOfShows(ParseLines(inputs).value[i]);
  }

  lemma PricedOfShows(l: Line)
    requires Accepted(l)
    ensures var p := PricedOf(l);
            && p.taxAmount == RoundHalfUp2(Percent(p.lineTotal, l.tax))
            && WholeCents(p.lineTotal) && -0.01 <= p.lineTotal - Times(Times(l.quantity, l.price), 1.0 - l.discount / 100.0) <= 0.01
            && p.description == l.description && p.attrs == l.attrs
            && p.quantity == RoundHalfUp2(l.quantity) && p.unitPrice == RoundHalfUp2(l.price)
            && p.taxPercent == RoundHalfUp2(l.tax)
            && p.discountPercent == if l.discountSent then Some(RoundHalfUp2(l.discount)) else None
  {
    LineAmounts(l);
    NetError(l);
    FieldsAreInRange(l);
    hide RoundHalfUp2, Net, Accepted, WholeCents, TrimSpace, Normalize, Times, Percent;
    assert Tax(l) == RoundHalfUp2(Percent(Net(l), l.tax));
    hide Tax;
    PrintKeepsCents(Net(l));
    PrintKeepsCents(Tax(l));
  }

  lemma ShownFields(l: LineInput, line: Line)
    requires ParseLine(l) == Some(line)
    ensures line.description == TrimSpace(l.description) && Some(line.attrs) == Normalize(l.attrs)
    ensures line.discountSent <==> l.discountPercent != Blank
  {
    hide TrimSpace, Normalize;
  }

  function PrintedSum(lines: seq<PricedLine>): real {
    if lines == [] then 0.0
    else PrintedSum(lines[..|lines| - 1]) + (lines[|lines| - 1].lineTotal + lines[|lines| - 1].taxAmount)
  }

  lemma {:induction false} PrintedSumIsTotal(lines: seq<Line>)
    requires AllAccepted(lines)
    ensures PrintedSum(PricedOfLines(lines)) == Total(lines, LineGross)
    decreases |lines|
  {
    if lines != [] {
      var front, l := lines[..|lines| - 1], lines[|lines| - 1];
      assert l in lines && forall m :: m in front ==> m in lines;
      PrintedSumIsTotal(front);
      assert PricedOfLines(lines)[..|lines| - 1] == PricedOfLines(front);
      LineAmounts(l);
      hide Gross, Discount, Tax, Net;
      PrintKeepsCents(Net(l));
      PrintKeepsCents(Tax(l));
    }
  }

  // ---------- pricing a priced document again ----------

  /** A priced line sent back as a request line. */
  function Resent(p: PricedLine): LineInput {
    LineInput(p.description, Number(p.quantity), Number(p.unitPrice),
              if p.discountPercent.Some? then Number(p.discountPercent.value) else Blank, Number(p.taxPercent), p.attrs)
  }

  function ResentLines(ps: seq<PricedLine>): seq<LineInput> {
    seq(|ps|, i requires 0 <= i < |ps| => Resent(ps[i]))
  }

  /** The line as its printed fields give it back. */
  function Printed(l: Line): Line {
    l.(quantity := Print2(l.quantity), price := Print2(l.price), discount := Print2(l.discount), tax := Print2(l.tax))
  }

  function PrintedLines(lines: seq<Line>): seq<Line> {
    seq(|lines|, i requires 0 <= i < |lines| => Printed(lines[i]))
  }

  predicate TwoDecimals(l: Line) {
    WholeCents(l.quantity) && WholeCents(l.price) && WholeCents(l.discount) && WholeCents(l.tax)
  }

  lemma ResentLineParses(l: Line)
    requires Accepted(l)
    ensures ParseLine(Resent(PricedOf(l))) == Some(Printed(l))
  {
    hide RoundHalfUp2, TrimSpace;
    CentsOfInt(0);
    PrintKeepsCents(0.0);
    PrintKeepsBounds(l.quantity);
    PrintKeepsBounds(l.price);
    PrintKeepsBounds(l.discount);
    PrintKeepsBounds(l.tax);
  }

  lemma PrintKeepsBounds(v: real)
    requires 0.0 <= v
    ensures 0.0 <= Print2(v) && WholeCents(Print2(v)) && (v <= 100.0 ==> Print2(v) <= 100.0)
  {
    RoundingKeepsSign(v);
    CentsOfInt(10000);
    if v <= 100.0 {
      RoundingIsMonotone(v, 100.0);
    }
  }

  lemma {:induction false} ResentLinesParse(lines: seq<Line>)
    requires AllAccepted(lines)
    ensures ParseLines(ResentLines(PricedOfLines(lines))) == Some(PrintedLines(lines))
    decreases |lines|
  {
    hide ParseLine, PricedOf, Resent, Printed, Accepted;
    if lines != [] {
      var front, l := lines[..|lines| - 1], lines[|lines| - 1];
      assert l in lines && forall m :: m in front ==> m in lines;
      ResentLinesParse(front);
      ResentLineParses(l);
      var again := ResentLines(PricedOfLines(lines));
      assert again[..|lines| - 1] == ResentLines(PricedOfLines(front));
      assert again[|lines| - 1] == Resent(PricedOf(l));
      assert PrintedLines(lines) == PrintedLines(front) + [Printed(l)];
    }
  }

  /** Pricing a priced document again gives the same totals and lines when the inputs had at most two decimals;
      and whatever the inputs had, a third pricing gives what the second gave. */
  lemma RepricingIsStable(inputs: seq<LineInput>)
    requires PriceOf(inputs).Priced?
    ensures var again := PriceOf(ResentLines(PriceOf(inputs).lines));
            && again.Priced?
            && ((forall l :: l in ParseLines(inputs).value ==> TwoDecimals(l)) ==> again == PriceOf(inputs))
            && PriceOf(ResentLines(again.lines)) == again
  {
    hide ParseLine, PricedOf, Resent, TotalsOf;
    ParsedLinesAreAccepted(inputs);
    var lines := ParseLines(inputs).value;
    ResentLinesParse(lines);
    var printed := PrintedLines(lines);
    forall l | l in lines ensures TwoDecimals(l) ==> Printed(l) == l {
      if TwoDecimals(l) { PrintedIsSame(l); }
    }
    if forall l :: l in lines ==> TwoDecimals(l) {
      assert printed == lines;
    }
    ParsedLinesAreAccepted(ResentLines(PricedOfLines(lines)));
    ResentLinesParse(printed);
    forall i | 0 <= i < |lines| ensures Printed(printed[i]) == printed[i] {
      PrintedTwice(lines[i]);
    }
    assert PrintedLines(printed) == printed;
  }

  lemma PrintedIsSame(l: Line)
    requires TwoDecimals(l)
    ensures Printed(l) == l
  {
    PrintKeepsCents(l.quantity);
    PrintKeepsCents(l.price);
    PrintKeepsCents(l.discount);
    PrintKeepsCents(l.tax);
  }

  lemma PrintedTwice(l: Line)
    requires Accepted(l)
    ensures Printed(Printed(l)) == Printed(l)
  {
    hide RoundHalfUp2, TrimSpace;
    PrintKeepsBounds(l.quantity);
    PrintKeepsBounds(l.price);
    PrintKeepsBounds(l.discount);
    PrintKeepsBounds(l.tax);
    PrintedIsSame(Printed(l));
  }

  /** Pricing the priced document again gives it back. */
  predicate Reprices(inputs: seq<LineInput>) {
    PriceOf(inputs).Priced? && PriceOf(ResentLines(PriceOf(inputs).lines)) == PriceOf(inputs)
  }

  lemma OneLineParses(l: LineInput)
    requires ParseLine(l).Some?
    ensures ParseLines([l]) == Some([ParseLine(l).value])
    ensures PriceOf([l]) == Priced(TotalsOf([ParseLine(l).value]), PricedOfLines([ParseLine(l).value]))
  {
    hide ParseLine;
    assert [l][..0] == [];
    assert ParseLines([l][..0]) == Some([]);
    assert [] + [ParseLine(l).value] == [ParseLine(l).value];
  }

  lemma TotalOfOne(l: Line, part: Line -> real)
    ensures Total([l], part) == part(l)
  {
    assert [l][..0] == [];
    assert Total([l][..0], part) == 0.0;
  }

  predicate SameAmounts(l: Line, m: Line) {
    Gross(l) == Gross(m) && Discount(l) == Discount(m) && Tax(l) == Tax(m)
  }

  /** The totals of one line tell its amounts, and nothing but them and the attributes. */
  lemma TotalsOfOne(l: Line, m: Line)
    requires Accepted(l) && Accepted(m) && l.attrs == m.attrs
    ensures TotalsOf([l]) == TotalsOf([m]) <==> SameAmounts(l, m)
  {
    hide Gross, Discount, Tax, Print2, Accepted;
    forall k, part | k == l || k == m ensures Total([k], part) == part(k) {
      TotalOfOne(k, part);
    }
    assert AllAccepted([l]) && AllAccepted([m]);
    PrintingTotalsIsExact([l]);
    PrintingTotalsIsExact([m]);
    if SameAmounts(l, m) {
      assert LineGross(l) == LineGross(m);
      forall f ensures Total([l], RecurringPart(f)) == Total([m], RecurringPart(f)) {
        assert RecurringPart(f)(l) == RecurringPart(f)(m);
      }
      RecursOfOne(l);
      RecursOfOne(m);
    }
  }

  lemma RecursOfOne(l: Line)
    ensures Recurs([l]) == if l.attrs.charge == Recurring && l.attrs.frequency.Some? then {l.attrs.frequency.value} else {}
  {
    RecursOfAppend([], l);
    assert [] + [l] == [l];
  }

  /** A line re-prices alike iff printing its fields changes none of the three amounts. */
  lemma RepricesIffSameAmounts(l: LineInput)
    requires ParseLine(l).Some?
    ensures Reprices([l]) <==> SameAmounts(ParseLine(l).value, Printed(ParseLine(l).value))
  {
    var line := ParseLine(l).value;
    hide ParseLine, TotalsOf, Printed, PricedOf, Resent, SameAmounts;
    OneLineParses(l);
    ParsedLineIsAccepted(l);
    assert AllAccepted([line]);
    ResentLinesParse([line]);
    var again := ResentLines(PricedOfLines([line]));
    assert PrintedLines([line]) == [Printed(line)];
    ParsedLinesAreAccepted(again);
    assert Printed(line) in PrintedLines([line]);
    PrintedKeepsAttributes(line);
    TotalsOfOne(line, Printed(line));
    if SameAmounts(line, Printed(line)) {
      PrintedAlike(line);
      assert PricedOfLines([Printed(line)]) == PricedOfLines([line]);
    }
  }

  lemma PrintedKeepsAttributes(l: Line)
    ensures Printed(l).attrs == l.attrs
  {
  }

  lemma PrintedAlike(l: Line)
    requires Accepted(l) && SameAmounts(l, Printed(l))
    ensures PricedOf(Printed(l)) == PricedOf(l)
  {
    hide RoundHalfUp2, Gross, Discount, Tax, TrimSpace, Normalize;
    PrintedTwice(l);
  }

  // ---------- what the printed line costs ----------

  datatype Amounts = Amounts(gross: real, discount: real, tax: real)

  /** What quantity times price, a discount and a tax come to. */
  function AmountsOf(product: real, d: real, t: real): Amounts {
    var gross := RoundHalfUp2(product);
    var disc := RoundHalfUp2(Percent(gross, d));
    Amounts(gross, disc, RoundHalfUp2(Percent(gross - disc, t)))
  }

  lemma AmountsOfLine(l: Line)
    ensures AmountsOf(Times(l.quantity, l.price), l.discount, l.tax) == Amounts(Gross(l), Discount(l), Tax(l))
  {
  }

  lemma Magnified(gap: real) returns (n: nat)
    requires gap > 0.0
    ensures Times(n as real, gap) >= 1.0
  {
    var x := 1.0 / gap;
    n := x.Floor + 1;
    assert n as real > x;
    assert Times(x, gap) == 1.0;
    assert Times(n as real, gap) - Times(x, gap) == Times(n as real - x, gap);
    TimesKeepsSign(n as real - x, gap);
  }

  lemma WholeIsCents(n: int)
    ensures WholeCents(n as real)
  {
    CentsOfInt(100 * n);
    assert (100 * n) as real / 100.0 == n as real;
  }

  /** Printing is told by rounding once two values are a whole apart. */
  lemma ApartRoundsApart(a: real, b: real)
    requires a - b >= 1.0 || b - a >= 1.0
    ensures RoundHalfUp2(a) != RoundHalfUp2(b)
  {
    RoundingIsNear(a);
    RoundingIsNear(b);
  }

  lemma TimesGrows(a: real, b: real, gap: real)
    requires a <= b && 0.0 <= gap
    ensures Times(a, gap) <= Times(b, gap)
  {
  }

  lemma TimesOfDifference(w: real, a: real, b: real)
    ensures Times(w, a) - Times(w, b) == Times(w, a - b) && Times(w, b - a) == -Times(w, a - b)
    ensures Percent(w, a) - Percent(w, b) == Times(w, (a - b) / 100.0) && Times(w, (b - a) / 100.0) == -Times(w, (a - b) / 100.0)
  {
  }

  /** A number that printing changes is told by every large enough factor beside it, and as a percentage too. */
  lemma LargeFactorsTell(v: real) returns (n: nat)
    requires v >= 0.0 && !WholeCents(v)
    ensures forall w: real :: w >= n as real ==> RoundHalfUp2(Times(w, Print2(v))) != RoundHalfUp2(Times(w, v))
    ensures forall w: real :: w >= n as real ==> RoundHalfUp2(Percent(w, Print2(v))) != RoundHalfUp2(Percent(w, v))
  {
    var printed := Print2(v);
    RoundingIsNear(v);
    var gap := if printed > v then printed - v else v - printed;
    n := Magnified(gap / 100.0);
    hide Times, Percent, RoundHalfUp2, Print2, WholeCents;
    forall w: real | w >= n as real
      ensures RoundHalfUp2(Times(w, printed)) != RoundHalfUp2(Times(w, v))
      ensures RoundHalfUp2(Percent(w, printed)) != RoundHalfUp2(Percent(w, v))
    {
      TimesGrows(n as real, w, gap / 100.0);
      HundredTimes(w, gap);
      TimesOfDifference(w, printed, v);
      ApartRoundsApart(Times(w, printed), Times(w, v));
      ApartRoundsApart(Percent(w, printed), Percent(w, v));
    }
  }

  lemma HundredTimes(w: real, gap: real)
    requires w >= 0.0 && gap >= 0.0
    ensures Times(w, gap / 100.0) <= Times(w, gap)
  {
  }

  lemma NothingTimes(x: real)
    ensures Times(0.0, x) == 0.0 == Percent(0.0, x)
  {
  }

  /** All of a whole-cent amount is taken off by a discount of 100 percent. */
  lemma AllIsTaken(g: real)
    requires WholeCents(g)
    ensures RoundHalfUp2(Percent(g, 100.0)) == g
  {
    assert Percent(g, 100.0) == g;
    PrintKeepsCents(g);
  }

  /** A quantity or a price of no more than two decimals that, unless it is zero, stands beside a discount of no more than
      two, and, unless that is 100 percent, a tax of no more than two. */
  predicate Kept(factor: real, d: real, t: real) {
    WholeCents(factor) && (factor == 0.0 || (WholeCents(d) && (d == 100.0 || WholeCents(t))))
  }

  lemma KeptStays(a: real, b: real, d: real, t: real)
    requires a >= 0.0 && d >= 0.0 && t >= 0.0 && Kept(a, d, t)
    ensures AmountsOf(Times(Print2(a), b), Print2(d), Print2(t)) == AmountsOf(Times(a, b), d, t)
  {
    PrintKeepsCents(a);
    hide Times, Percent, RoundHalfUp2, Print2, WholeCents;
    var gross := RoundHalfUp2(Times(a, b));
    NothingTimes(b);
    NothingTimes(d);
    NothingTimes(Print2(d));
    NothingTimes(t);
    NothingTimes(Print2(t));
    NothingRounds();
    if a != 0.0 {
      PrintKeepsCents(d);
      if d == 100.0 {
        RoundingIsNear(Times(a, b));
        AllIsTaken(gross);
      } else {
        PrintKeepsCents(t);
      }
    }
  }

  lemma NothingRounds()
    ensures RoundHalfUp2(0.0) == 0.0
  {
    CentsOfInt(0);
  }

  /** What is not kept is told by some whole factor. */
  lemma SomeFactorTells(a: real, d: real, t: real) returns (b: real)
    requires a >= 0.0 && 0.0 <= d <= 100.0 && 0.0 <= t && !Kept(a, d, t)
    ensures b >= 0.0 && WholeCents(b)
    ensures AmountsOf(Times(Print2(a), b), Print2(d), Print2(t)) != AmountsOf(Times(a, b), d, t)
  {
    hide Times, Percent, RoundHalfUp2, Print2, WholeCents;
    if !WholeCents(a) {
      var n := LargeFactorsTell(a);
      b := n as real;
      WholeIsCents(n);
      TimesCommutes(a, b);
      TimesCommutes(Print2(a), b);
    } else if !WholeCents(d) {
      var n := LargeFactorsTell(d);
      b := SomeGrossIsLarge(a, d, n);
      PrintKeepsCents(a);
    } else {
      var n := LargeFactorsTell(t);
      b := SomeNetIsLarge(a, d, n);
      PrintKeepsCents(a);
      PrintKeepsCents(d);
    }
  }

  /** Some price makes the gross amount large. */
  lemma SomeGrossIsLarge(a: real, d: real, n: nat) returns (b: real)
    requires a > 0.0 && WholeCents(a)
    ensures b >= 0.0 && WholeCents(b) && RoundHalfUp2(Times(a, b)) >= n as real
  {
    var k := WholeCentsAreInts(a);
    b := (100 * n) as real;
    WholeIsCents(100 * n);
    LargeGross(k, n);
  }

  lemma LargeGross(k: int, n: nat)
    requires k >= 1
    ensures RoundHalfUp2(Times(k as real / 100.0, (100 * n) as real)) == (k * n) as real >= n as real
  {
    assert Times(k as real / 100.0, (100 * n) as real) == (k * n) as real;
    WholeIsCents(k * n);
    PrintKeepsCents((k * n) as real);
    assert k * n >= n;
  }

  /** Some price makes what a discount under 100 percent leaves large. */
  lemma SomeNetIsLarge(a: real, d: real, n: nat) returns (b: real)
    requires a > 0.0 && WholeCents(a) && 0.0 <= d < 100.0 && WholeCents(d)
    ensures b >= 0.0 && WholeCents(b)
    ensures var gross := RoundHalfUp2(Times(a, b)); gross - RoundHalfUp2(Percent(gross, d)) >= n as real
  {
    var k := WholeCentsAreInts(a);
    var j := WholeCentsAreInts(d);
    b := (100 * (10000 * n)) as real;
    WholeIsCents(100 * (10000 * n));
    LargeGross(k, 10000 * n);
    LargeNet(j, k * n);
    assert k * (10000 * n) == 10000 * (k * n);
    assert k * n >= n;
  }

  lemma LargeNet(j: int, m: nat)
    requires 0 <= j < 10000
    ensures var gross := (10000 * m) as real; gross - RoundHalfUp2(Percent(gross, j as real / 100.0)) >= m as real
  {
    var gross := (10000 * m) as real;
    assert Percent(gross, j as real / 100.0) == (m * j) as real;
    WholeIsCents(m * j);
    PrintKeepsCents((m * j) as real);
    assert m * j <= m * 9999;
  }

  /** At which quantities, discounts and taxes a line re-prices alike at every price in cents. */
  lemma QuantityRepricesIff(l: LineInput)
    requires ParseLine(l).Some?
    ensures var line := ParseLine(l).value;
            (forall p: real :: p >= 0.0 && WholeCents(p) ==> Reprices([l.(unitPrice := Number(p))]))
            <==> Kept(line.quantity, line.discount, line.tax)
  {
    var line := ParseLine(l).value;
    forall p: real | p >= 0.0 ensures ParseLine(l.(unitPrice := Number(p))) == Some(line.(price := p)) {
    }
    ParsedLineIsAccepted(l);
    FieldsAreInRange(line);
    hide ParseLine, Reprices, Print2, WholeCents, Accepted, Kept, SameAmounts, AmountsOf;
    forall p: real | p >= 0.0 && WholeCents(p)
      ensures Reprices([l.(unitPrice := Number(p))])
         <==> AmountsOf(Times(Print2(line.quantity), p), Print2(line.discount), Print2(line.tax))
              == AmountsOf(Times(line.quantity, p), line.discount, line.tax)
    {
      RepricesIffSameAmounts(l.(unitPrice := Number(p)));
      PrintKeepsCents(p);
      SameIffAmounts(line.(price := p));
    }
    if Kept(line.quantity, line.discount, line.tax) {
      forall p: real | p >= 0.0 && WholeCents(p) ensures Reprices([l.(unitPrice := Number(p))]) {
        KeptStays(line.quantity, p, line.discount, line.tax);
      }
    } else {
      var p := SomeFactorTells(line.quantity, line.discount, line.tax);
      assert !Reprices([l.(unitPrice := Number(p))]);
    }
  }

  /** A third off, sent with three decimals, is another discount once printed. */
  lemma ThirdOffChanges(l: Line)
    requires l.quantity == 1.0 && l.price == 10000.0 && l.discount == 33.333
    ensures Discount(l) == 3333.3 && Discount(Printed(l)) == 3333.0
  {
    assert Times(1.0, 10000.0) == 10000.0;
    PrintKeepsCents(1.0);
    PrintKeepsCents(10000.0);
    assert Print2(33.333) == 33.33;
    assert Percent(10000.0, 33.333) == 3333.3 && Percent(10000.0, 33.33) == 3333.0;
    PrintKeepsCents(3333.3);
    PrintKeepsCents(3333.0);
  }

  lemma SameIffAmounts(l: Line)
    ensures SameAmounts(l, Printed(l))
       <==> AmountsOf(Times(Print2(l.quantity), Print2(l.price)), Print2(l.discount), Print2(l.tax))
            == AmountsOf(Times(l.quantity, l.price), l.discount, l.tax)
  {
    hide RoundHalfUp2, Print2, Times, Percent, AmountsOf, Gross, Discount, Tax;
    AmountsOfLine(l);
    AmountsOfLine(Printed(l));
  }

  lemma FieldsAreInRange(l: Line)
    requires Accepted(l)
    ensures l.quantity >= 0.0 && l.price >= 0.0 && 0.0 <= l.discount <= 100.0 && 0.0 <= l.tax
  {
  }

  /** The same for prices, at every quantity of two decimals. */
  lemma PriceRepricesIff(l: LineInput)
    requires ParseLine(l).Some?
    ensures var line := ParseLine(l).value;
            (forall q: real :: q >= 0.0 && WholeCents(q) ==> Reprices([l.(quantity := Number(q))]))
            <==> Kept(line.price, line.discount, line.tax)
  {
    var line := ParseLine(l).value;
    forall q: real | q >= 0.0 ensures ParseLine(l.(quantity := Number(q))) == Some(line.(quantity := q)) {
    }
    ParsedLineIsAccepted(l);
    FieldsAreInRange(line);
    hide ParseLine, Reprices, Print2, WholeCents, Accepted, Kept, SameAmounts, AmountsOf, Times;
    forall q: real | q >= 0.0 && WholeCents(q)
      ensures Reprices([l.(quantity := Number(q))])
         <==> AmountsOf(Times(Print2(line.price), q), Print2(line.discount), Print2(line.tax))
              == AmountsOf(Times(line.price, q), line.discount, line.tax)
    {
      RepricesIffSameAmounts(l.(quantity := Number(q)));
      PrintKeepsCents(q);
      SameIffAmounts(line.(quantity := q));
      TimesCommutes(q, line.price);
      TimesCommutes(q, Print2(line.price));
    }
    if Kept(line.price, line.discount, line.tax) {
      forall q: real | q >= 0.0 && WholeCents(q) ensures Reprices([l.(quantity := Number(q))]) {
        KeptStays(line.price, q, line.discount, line.tax);
      }
    } else {
      var q := SomeFactorTells(line.price, line.discount, line.tax);
      assert !Reprices([l.(quantity := Number(q))]);
    }
  }

  lemma TimesCommutes(a: real, b: real)
    ensures Times(a, b) == Times(b, a)
  {
  }

  // ---------- a header tax in place of the line taxes ----------

  function WithTaxTotal(t: Totals, tax: Field): (Totals, bool) {
    match tax
    case Number(v) => (t.(taxTotal := Print2(v), grandTotal := Print2(t.subtotal - t.discountTotal + v)), true)
    case _ => (t, false)
  }

  lemma PrintIsNear(v: real)
    ensures WholeCents(Print2(v)) && v - 0.005 <= Print2(v) <= v + 0.005
  {
    RoundingIsNear(v);
    RoundingIsNear(-v);
    var k := WholeCentsAreInts(RoundHalfUp2(-v));
    CentsOfInt(-k);
    assert -(k as real / 100.0) == (-k) as real / 100.0;
  }

  /** A readable header tax replaces the tax and the grand total, each to the cent, and nothing else; an unreadable one nothing. */
  lemma HeaderTaxReplaces(t: Totals, tax: Field)
    ensures var (r, ok) := WithTaxTotal(t, tax);
            && (ok <==> tax.Number?) && (!ok ==> r == t)
            && r.(taxTotal := t.taxTotal, grandTotal := t.grandTotal) == t
            && (ok ==> WholeCents(r.taxTotal) && WholeCents(r.grandTotal)
                       && -0.005 <= r.taxTotal - tax.value <= 0.005
                       && -0.005 <= r.grandTotal - (t.subtotal - t.discountTotal + tax.value) <= 0.005)
  {
    if tax.Number? {
      PrintIsNear(tax.value);
      PrintIsNear(t.subtotal - t.discountTotal + tax.value);
    }
    hide Print2, WholeCents;
  }

  predicate HalfCent(v: real) {
    (v * 100.0 + 0.5).Floor as real == v * 100.0 + 0.5
  }

  /** With a header tax the printed grand total is the printed subtotal minus discount plus tax, except exactly when
      a negative tax ends in half a cent and does not outweigh the net: the tax then rounds down and the total up. */
  lemma HeaderTaxAgreesUnlessHalfCent(t: Totals, v: real)
    requires WholeCents(t.subtotal) && WholeCents(t.discountTotal) && 0.0 <= t.discountTotal <= t.subtotal
    ensures var r := WithTaxTotal(t, Number(v)).0;
            r.grandTotal == r.subtotal - r.discountTotal + r.taxTotal
            <==> !(v < 0.0 && HalfCent(v) && t.subtotal - t.discountTotal + v >= 0.0)
  {
    var s := t.subtotal - t.discountTotal;
    CentsAdd(t.subtotal, t.discountTotal);
    var k := WholeCentsAreInts(s);
    RoundShifted(k, v);
    RoundShifted(-k, -v);
    RoundNegated(v);
    assert s + v == k as real / 100.0 + v && -(s + v) == (-k) as real / 100.0 + -v;
  }

  lemma RoundShifted(k: int, v: real)
    ensures RoundHalfUp2(k as real / 100.0 + v) == k as real / 100.0 + RoundHalfUp2(v)
  {
    var x := v * 100.0 + 0.5;
    assert (k as real / 100.0 + v) * 100.0 + 0.5 == k as real + x;
    assert (k as real + x).Floor == k + x.Floor;
  }

  lemma RoundNegated(v: real)
    ensures RoundHalfUp2(-v) == -RoundHalfUp2(v) <==> !HalfCent(v)
  {
    var x := v * 100.0 + 0.5;
    assert -v * 100.0 + 0.5 == 1.0 - x;
    assert (1.0 - x).Floor == if x == x.Floor as real then 1 - x.Floor else -x.Floor;
  }
}
