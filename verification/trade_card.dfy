/** The card that shows one active trade: its profit/loss label, its
    border and bar colours, its price lines and its progress bar. */
module TradeCard {
  import opened Common
  import opened Numbers
  import opened Schema

  /** The colour class of a profit/loss text. */
  datatype Tone = Neutral | Gain | Loss

  datatype PlLabel = PlLabel(text: string, tone: Tone)

  /** The colour of the card's left border, or of its progress bar. */
  datatype Accent = Plain | Success | Danger

  /** A value with its sign dropped. */
  function Magnitude(d: Decimal): (m: Decimal)
    ensures m.scale == d.scale && m.units >= 0
    ensures Value(m) == if Value(d) < 0.0 then -Value(d) else Value(d)
  {
    ValueBySign(d);
    ValueBySign(Decimal(Abs(d.units), d.scale));
    Decimal(Abs(d.units), d.scale)
  }

  /** `(${trade.profitLossPercentage}%)`, or nothing when the column is null. */
  function PercentSuffix(t: Trade): (s: string)
    ensures t.profitLossPercentage.None? <==> s == ""
  {
    match t.profitLossPercentage
    case Some(p) => "(" + Show(p) + "%)"
    case None => ""
  }

  /** `formatProfitLoss`. A stored profit/loss is a non-empty text, so only a
      null one counts as missing; its `parseFloat` is its value. */
  function CardProfitLoss(t: Trade): (r: PlLabel)
    ensures r.tone == Gain <==> t.profitLoss.Some? && Value(t.profitLoss.value) > 0.0
    ensures r.tone == Loss <==> t.profitLoss.Some? && Value(t.profitLoss.value) < 0.0
    ensures r.tone == Neutral <==> r.text == "$0.00"
    ensures r.tone != Neutral ==>
      && t.profitLoss.Some?
      && r.text == (if r.tone == Gain then "+$" else "-$")
                   + ToFixed(Value(Magnitude(t.profitLoss.value)), 2) + " " + PercentSuffix(t)
  {
    match t.profitLoss
    case None => PlLabel("$0.00", Neutral)
    case Some(d) =>
      var pl := Value(d);
      if pl > 0.0 then PlLabel("+$" + ToFixed(pl, 2) + " " + PercentSuffix(t), Gain)
      else if pl < 0.0 then PlLabel("-$" + ToFixed(-pl, 2) + " " + PercentSuffix(t), Loss)
      else PlLabel("$0.00", Neutral)
  }

  /** A profit/loss stored at the column's scale of 2 is printed digit for
      digit as the database returned it, without its sign. */
  lemma CardShowsStoredAmount(t: Trade)
    requires t.profitLoss.Some? && t.profitLoss.value.scale == 2 && t.profitLoss.value.units != 0
    ensures CardProfitLoss(t).text
         == (if t.profitLoss.value.units > 0 then "+$" else "-$")
            + Show(Magnitude(t.profitLoss.value)) + " " + PercentSuffix(t)
  {
    var d := t.profitLoss.value;
    ValueBySign(d);
    ToFixedShown(Magnitude(d));
  }

  /** Whatever its scale, the printed amount is the magnitude of the
      profit/loss to the nearest cent. */
  lemma CardAmountToTheCent(t: Trade)
    requires CardProfitLoss(t).tone != Neutral
    ensures ParseFloat(ToFixed(Value(Magnitude(t.profitLoss.value)), 2)).Some?
    ensures WithinHalfUnit(ParseFloat(ToFixed(Value(Magnitude(t.profitLoss.value)), 2)).value,
                           Value(Magnitude(t.profitLoss.value)), 2)
  {
    ToFixedClose(Value(Magnitude(t.profitLoss.value)), 2);
  }

  /** `getBorderClass`: plain without a profit/loss, otherwise success for a
      non-negative one and danger for a negative one. */
  function BorderClass(t: Trade): (a: Accent)
    ensures a == Plain <==> t.profitLoss.None?
    ensures a == Success <==> t.profitLoss.Some? && Value(t.profitLoss.value) >= 0.0
  {
    match t.profitLoss
    case None => Plain
    case Some(d) => if Value(d) >= 0.0 then Success else Danger
  }

  /** The progress bar's colour: `parseFloat(null) >= 0` is false, so a
      missing profit/loss paints it as a loss. */
  function BarClass(t: Trade): (a: Accent)
    ensures a != Plain
    ensures a == Success <==> t.profitLoss.Some? && Value(t.profitLoss.value) >= 0.0
  {
    if t.profitLoss.Some? && Value(t.profitLoss.value) >= 0.0 then Success else Danger
  }

  /** The label's colour and the border agree on gains and losses; a zero
      profit/loss is labelled neutrally inside a success border; a missing
      one has a plain border but a danger bar. */
  lemma ToneAndAccents(t: Trade)
    ensures CardProfitLoss(t).tone == Gain ==> BorderClass(t) == Success
    ensures CardProfitLoss(t).tone == Loss ==> BorderClass(t) == Danger && BarClass(t) == Danger
    ensures t.profitLoss.Some? && Value(t.profitLoss.value) == 0.0 ==>
              CardProfitLoss(t).tone == Neutral && BorderClass(t) == Success
    ensures t.profitLoss.Some? ==> BarClass(t) == BorderClass(t)
    ensures t.profitLoss.None? ==> BorderClass(t) == Plain && BarClass(t) == Danger
  {
  }

  /** A price line: `$` and `parseFloat(x).toFixed(2)`, where a null price
      parses as NaN and prints as "NaN". */
  function PriceLine(x: Option<Decimal>): (s: string)
    ensures x.None? ==> s == "$NaN"
    ensures x.Some? && x.value.scale == 2 ==> s == "$" + Show(x.value)
  {
    match x
    case None => "$NaN"
    case Some(d) => ToFixedShown(d); "$" + ToFixed(Value(d), 2)
  }

  /** The four price lines of the card: entry, current (the last known
      price), take profit and stop loss. */
  function PriceLines(t: Trade): (lines: seq<string>)
    ensures |lines| == 4
    ensures lines[1] == PriceLine(Some(LastKnownPrice(t)))
    ensures t.currentPrice.None? ==> lines[1] == lines[0]
  {
    [PriceLine(Some(t.entryPrice)), PriceLine(Some(LastKnownPrice(t))),
     PriceLine(t.takeProfit), PriceLine(t.stopLoss)]
  }

  function AbsReal(x: real): (r: real)
    ensures r >= 0.0 && (r == x || r == -x)
  {
    if x < 0.0 then -x else x
  }

  /** `distance / range * 100`, at most 100. */
  function Ratio(distance: real, range: real): (p: real)
    requires distance >= 0.0 && range > 0.0
    ensures 0.0 <= p <= 100.0
    ensures distance <= range ==> p == distance / range * 100.0
    ensures distance >= range ==> p == 100.0
  {
    var ratio := distance / range * 100.0;
    assert distance <= range ==> distance / range <= 1.0;
    assert distance >= range ==> distance / range >= 1.0;
    if ratio > 100.0 then 100.0 else ratio
  }

  /** `calculateProgress`: how far the current price has come from the stop
      loss, as a percentage of the distance between stop loss and take
      profit, kept within 0..100; 50 when a price is missing or the two
      levels coincide. */
  function CalculateProgress(t: Trade): (p: real)
    ensures 0.0 <= p <= 100.0
    ensures t.currentPrice.None? || t.takeProfit.None? || t.stopLoss.None? ==> p == 50.0
    ensures t.takeProfit.Some? && t.stopLoss.Some? && Value(t.takeProfit.value) == Value(t.stopLoss.value) ==> p == 50.0
  {
    if t.currentPrice.None? || t.takeProfit.None? || t.stopLoss.None? then 50.0
    else
      var current := Value(t.currentPrice.value);
      var takeProfit := Value(t.takeProfit.value);
      var stopLoss := Value(t.stopLoss.value);
      var totalRange := AbsReal(takeProfit - stopLoss);
      if totalRange == 0.0 then 50.0
      else Ratio(AbsReal(current - stopLoss), totalRange)
  }

  /** Between the two levels the bar is exactly proportional; it is empty at
      the stop loss, full at the take profit, and full beyond it. */
  lemma ProgressBetweenLevels(t: Trade)
    requires t.currentPrice.Some? && t.takeProfit.Some? && t.stopLoss.Some?
    requires Value(t.takeProfit.value) != Value(t.stopLoss.value)
    ensures var c := Value(t.currentPrice.value);
            var tp := Value(t.takeProfit.value);
            var sl := Value(t.stopLoss.value);
            && (sl <= c <= tp || tp <= c <= sl ==>
                  CalculateProgress(t) == AbsReal(c - sl) / AbsReal(tp - sl) * 100.0)
            && (c == sl ==> CalculateProgress(t) == 0.0)
            && (AbsReal(c - sl) >= AbsReal(tp - sl) ==> CalculateProgress(t) == 100.0)
  {
    var c := Value(t.currentPrice.value);
    var tp := Value(t.takeProfit.value);
    var sl := Value(t.stopLoss.value);
    assert CalculateProgress(t) == Ratio(AbsReal(c - sl), AbsReal(tp - sl));
  }

  /** The bar reads the same for a Long and a Short trade: the side of the
      position plays no part. */
  lemma ProgressIgnoresPosition(t: Trade, position: string)
    ensures CalculateProgress(t.(position := position)) == CalculateProgress(t)
  {
  }
}
