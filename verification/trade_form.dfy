/** The new/edit trade dialog: its form schema, its default and prefilled
    values, and the request a valid submission makes. */
module TradeForm {
  import opened Common
  import opened Numbers
  import opened Schema

  /** The form's fields; every one is text. */
  datatype FormValues = FormValues(
    symbol: string,
    position: string,
    quantity: string,
    entryPrice: string,
    takeProfit: string,
    stopLoss: string,
    apiUsed: string,
    notes: string)

  /** The checks on one amount field. zod runs both: an empty field is
      reported as missing and as not a positive number. */
  function AmountErrors(value: string, name: string): (errors: seq<string>)
    ensures |errors| == 0 <==> ParsesPositive(value)
  {
    EmptyIsNotPositive(value);
    Check(MinLength(value, 1), name + " is required") +
    Check(ParsesPositive(value), name + " must be a positive number")
  }

  lemma EmptyIsNotPositive(s: string)
    ensures ParsesPositive(s) ==> |s| >= 1
  {
    if |s| == 0 {
      assert TrimStart(s) == s;
      assert ParseUnsigned(s).None?;
    }
  }

  /** `tradeFormSchema`. */
  function ValidateTradeForm(v: FormValues): (r: Checked<FormValues>)
    ensures r.Valid? <==>
      && |v.symbol| >= 1 && |v.position| >= 1 && |v.apiUsed| >= 1
      && ParsesPositive(v.quantity) && ParsesPositive(v.entryPrice)
      && ParsesPositive(v.takeProfit) && ParsesPositive(v.stopLoss)
    ensures r.Valid? ==> r.value == v
  {
    Verdict(
      Check(MinLength(v.symbol, 1), "Symbol is required") +
      Check(MinLength(v.position, 1), "Position is required") +
      AmountErrors(v.quantity, "Quantity") +
      AmountErrors(v.entryPrice, "Entry price") +
      AmountErrors(v.takeProfit, "Take profit") +
      AmountErrors(v.stopLoss, "Stop loss") +
      Check(MinLength(v.apiUsed, 1), "Trading API is required"),
      v)
  }

  /** Notes are free text: they never decide whether the form is valid. */
  lemma NotesNeverReject(v: FormValues, notes: string)
    ensures ValidateTradeForm(v.(notes := notes)).Valid? == ValidateTradeForm(v).Valid?
  {
  }

  /** The values of a fresh dialog. */
  const DefaultForm: FormValues := FormValues("", "Long", "", "", "", "", "Binance", "")

  /** A fresh dialog cannot be submitted as it is. */
  lemma DefaultFormIncomplete()
    ensures ValidateTradeForm(DefaultForm).Invalid?
  {
  }

  /** `x || fallback` on a nullable text. */
  function TextOr(x: Option<string>, fallback: string): (r: string)
    ensures x.Some? && x.value != "" ==> r == x.value
    ensures x.None? || x.value == "" ==> r == fallback
  {
    if x.Some? && x.value != "" then x.value else fallback
  }

  /** The values the dialog resets to when it opens: the trade's own values
      as text when editing, the defaults otherwise. */
  function Prefill(editing: Option<Trade>): (v: FormValues)
    ensures editing.None? ==> v == DefaultForm
    ensures editing.Some? ==>
      && v.symbol == editing.value.symbol && v.position == editing.value.position
      && v.apiUsed == TextOr(editing.value.apiUsed, "Binance")
      && v.notes == TextOr(editing.value.notes, "")
  {
    match editing
    case None => DefaultForm
    case Some(t) =>
      FormValues(t.symbol, t.position, Show(t.quantity), Show(t.entryPrice),
        ShowOrNull(t.takeProfit), ShowOrNull(t.stopLoss), TextOr(t.apiUsed, "Binance"), TextOr(t.notes, ""))
  }

  /** The prefilled amounts read back as the trade's own values. */
  lemma PrefillReadsBack(t: Trade)
    ensures var v := Prefill(Some(t));
      && ParseFloat(v.quantity) == Some(Value(t.quantity))
      && ParseFloat(v.entryPrice) == Some(Value(t.entryPrice))
      && (t.takeProfit.Some? ==> ParseFloat(v.takeProfit) == Some(Value(t.takeProfit.value)))
      && (t.stopLoss.Some? ==> ParseFloat(v.stopLoss) == Some(Value(t.stopLoss.value)))
  {
    ParseShowRoundTrip(t.quantity);
    ParseShowRoundTrip(t.entryPrice);
    if t.takeProfit.Some? { ParseShowRoundTrip(t.takeProfit.value); }
    if t.stopLoss.Some? { ParseShowRoundTrip(t.stopLoss.value); }
  }

  /** The text `String(null)` is not a number. */
  lemma NullIsNotANumber()
    ensures ParseFloat("null") == None
  {
    var s := "null";
    assert TrimStart(s) == s;
    assert DigitRun(s) == 0;
  }

  /** A trade opened for editing can be saved unchanged exactly when its
      symbol and position are not empty, it has a take profit and a stop
      loss, and all four amounts are positive; a trade without a take
      profit or stop loss shows "null" there and must be corrected first. */
  lemma PrefillValidExactly(t: Trade)
    ensures ValidateTradeForm(Prefill(Some(t))).Valid? <==>
      && |t.symbol| >= 1 && |t.position| >= 1
      && t.takeProfit.Some? && t.stopLoss.Some?
      && Value(t.quantity) > 0.0 && Value(t.entryPrice) > 0.0
      && Value(t.takeProfit.value) > 0.0 && Value(t.stopLoss.value) > 0.0
  {
    PrefillReadsBack(t);
    NullIsNotANumber();
    assert |TextOr(t.apiUsed, "Binance")| >= 1;
  }

  /** The request a submission makes. */
  datatype Submission = Post(values: FormValues) | Patch(id: int, values: FormValues)

  /** `onSubmit`: zod runs first; a valid form is sent as an update of the
      trade being edited, or as a new trade, never both. */
  function OnSubmit(v: FormValues, editing: Option<Trade>): (r: Option<Submission>)
    ensures r.Some? <==> ValidateTradeForm(v).Valid?
    ensures r.Some? ==> r.value.values == v
    ensures r.Some? ==> (r.value.Patch? <==> editing.Some?)
    ensures r.Some? && r.value.Patch? ==> r.value.id == editing.value.id
  {
    match ValidateTradeForm(v)
    case Invalid(_) => None
    case Valid(values) =>
      match editing
      case Some(t) => Some(Patch(t.id, values))
      case None => Some(Post(values))
  }
}
