/** The three tables (users, trades, trade_activities) and the insert
    validators the schema derives from them. */
module Schema {
  import opened Common
  import opened Numbers

  datatype User = User(id: int, username: string, password: string, createdAt: int)

  /** The column types of the amounts: prices and profits are
      NUMERIC(10,2), quantities NUMERIC(16,8). */
  const PriceType: NumericType := NumericType(10, 2)
  const QuantityType: NumericType := NumericType(16, 8)

  /** A row of `trades`. */
  datatype Trade = Trade(
    id: int,
    userId: int,
    symbol: string,
    entryPrice: Decimal,
    currentPrice: Option<Decimal>,
    position: string,
    quantity: Decimal,
    takeProfit: Option<Decimal>,
    stopLoss: Option<Decimal>,
    profitLoss: Option<Decimal>,
    profitLossPercentage: Option<Decimal>,
    apiUsed: Option<string>,
    notes: Option<string>,
    isActive: bool,
    createdAt: int,
    updatedAt: int,
    closedAt: Option<int>)

  /** `trade.currentPrice || trade.entryPrice`: a price text is never empty,
      so the current price is used whenever there is one. */
  function LastKnownPrice(t: Trade): Decimal
  {
    t.currentPrice.GetOr(t.entryPrice)
  }

  predicate PriceFits(d: Option<Decimal>)
  {
    d.Some? ==> Fits(d.value, PriceType)
  }

  /** Every value of the row is one its column can hold: integer ids, and
      amounts at their column's scale within its precision. */
  predicate TradeFits(t: Trade)
  {
    && IsInt4(t.id) && IsInt4(t.userId)
    && Fits(t.entryPrice, PriceType) && PriceFits(t.currentPrice) && Fits(t.quantity, QuantityType)
    && PriceFits(t.takeProfit) && PriceFits(t.stopLoss)
    && PriceFits(t.profitLoss) && PriceFits(t.profitLossPercentage)
  }

  /** `trade => trade.isActive`. */
  function IsActive(): Trade -> bool
  {
    (t: Trade) => t.isActive
  }

  /** `trade => !trade.isActive`: stopped trades. */
  function IsClosed(): Trade -> bool
  {
    (t: Trade) => !t.isActive
  }

  /** A row of `trade_activities`; `kind` is the `type` column. The JSON
      `metadata` column is never written and is not modelled. */
  datatype Activity = Activity(
    id: int,
    userId: int,
    tradeId: Option<int>,
    kind: string,
    symbol: string,
    price: Option<Decimal>,
    amount: Option<Decimal>,
    status: Option<string>,
    createdAt: int)

  predicate ActivityFits(a: Activity)
  {
    && IsInt4(a.id) && IsInt4(a.userId) && (a.tradeId.Some? ==> IsInt4(a.tradeId.value))
    && PriceFits(a.price) && (a.amount.Some? ==> Fits(a.amount.value, QuantityType))
  }

  /** The columns of `trades`, as a request body or an ORM `values`/`set`
      object carries them. */
  datatype TradeFields = TradeFields(
    id: Field<int>,
    userId: Field<int>,
    symbol: TextField,
    entryPrice: Field<Decimal>,
    currentPrice: Field<Decimal>,
    position: TextField,
    quantity: Field<Decimal>,
    takeProfit: Field<Decimal>,
    stopLoss: Field<Decimal>,
    profitLoss: Field<Decimal>,
    profitLossPercentage: Field<Decimal>,
    apiUsed: TextField,
    notes: TextField,
    isActive: Field<bool>,
    createdAt: Field<int>,
    updatedAt: Field<int>,
    closedAt: Field<int>)

  /** A body that names no column at all. */
  const NoFields: TradeFields := TradeFields(Absent, Absent, Absent, Absent, Absent, Absent, Absent, Absent,
    Absent, Absent, Absent, Absent, Absent, Absent, Absent, Absent, Absent)

  // ---------------------------------------------------------------------
  // Validators. zod checks every property and reports every failure.

  datatype Checked<T> = Valid(value: T) | Invalid(errors: seq<string>)

  /** zod `.min(n)` on a string: at least `n` characters. */
  predicate MinLength(s: string, n: nat)
  {
    |s| >= n
  }

  /** The message of a check, if it fails. */
  function Check(ok: bool, message: string): (errors: seq<string>)
    ensures |errors| == 0 <==> ok
  {
    if ok then [] else [message]
  }

  /** zod's complaint about a required property: missing, null, or of
      another type. */
  function Presence<T>(f: Field<T>, typeName: string): (errors: seq<string>)
    ensures |errors| == 0 <==> f.Given?
  {
    Check(f.Given?,
      if f.Null? then "Expected " + typeName + ", received null"
      else if f.Unreadable? then "Expected " + typeName
      else "Required")
  }

  /** zod's complaint about an optional property of another type. */
  function Typed<T>(f: Field<T>, typeName: string): (errors: seq<string>)
    ensures |errors| == 0 <==> !f.Unreadable?
  {
    Check(!f.Unreadable?, "Expected " + typeName)
  }

  function Verdict<T>(errors: seq<string>, value: T): (r: Checked<T>)
    ensures r.Valid? <==> |errors| == 0
  {
    if |errors| == 0 then Valid(value) else Invalid(errors)
  }

  /** Registration input; `None` is a missing or non-string property. */
  datatype UserInput = UserInput(username: Option<string>, password: Option<string>)

  datatype NewUser = NewUser(username: string, password: string)

  /** `insertUserSchema`: both properties required, a username of at least
      3 characters and a password of at least 6. */
  function InsertUserSchema(input: UserInput): (r: Checked<NewUser>)
    ensures r.Valid? <==> && input.username.Some? && |input.username.value| >= 3
                          && input.password.Some? && |input.password.value| >= 6
    ensures r.Valid? ==> r.value == NewUser(input.username.value, input.password.value)
  {
    var name := input.username.GetOr("");
    var password := input.password.GetOr("");
    Verdict(
      Check(input.username.Some?, "Required") +
      Check(input.username.None? || MinLength(name, 3), "Username must be at least 3 characters") +
      Check(input.password.Some?, "Required") +
      Check(input.password.None? || MinLength(password, 6), "Password must be at least 6 characters"),
      NewUser(name, password))
  }

  /** Insert input for `trades` as JSON: numeric columns travel as strings.
      `id`, `createdAt`, `updatedAt` and `closedAt` may be sent but the
      schema omits them. */
  datatype TradeInput = TradeInput(
    id: Field<int>,
    userId: Field<int>,
    symbol: Field<string>,
    entryPrice: Field<string>,
    currentPrice: Field<string>,
    position: Field<string>,
    quantity: Field<string>,
    takeProfit: Field<string>,
    stopLoss: Field<string>,
    profitLoss: Field<string>,
    profitLossPercentage: Field<string>,
    apiUsed: Field<string>,
    notes: Field<string>,
    isActive: Field<bool>,
    createdAt: Field<int>,
    updatedAt: Field<int>,
    closedAt: Field<int>)

  /** What the insert schema lets through: the caller-controlled columns. */
  datatype NewTrade = NewTrade(
    userId: int,
    symbol: string,
    entryPrice: string,
    currentPrice: Field<string>,
    position: string,
    quantity: string,
    takeProfit: Field<string>,
    stopLoss: Field<string>,
    profitLoss: Field<string>,
    profitLossPercentage: Field<string>,
    apiUsed: Field<string>,
    notes: Field<string>,
    isActive: Field<bool>)

  function GivenOr<T>(f: Field<T>, default: T): T
  {
    if f.Given? then f.value else default
  }

  /** None of the optional properties has the wrong type. */
  predicate OptionalsTyped(input: TradeInput)
  {
    && !input.currentPrice.Unreadable? && !input.takeProfit.Unreadable? && !input.stopLoss.Unreadable?
    && !input.profitLoss.Unreadable? && !input.profitLossPercentage.Unreadable?
    && !input.apiUsed.Unreadable? && !input.notes.Unreadable?
  }

  /** `insertTradeSchema`, parameterised by the refinement applied to the
      entry price and quantity texts. Columns that are NOT NULL without a
      default are required; `isActive` has a default, so it may be left out
      but not sent as null; the nullable columns are optional. Every
      property sent must have the column's type. */
  function CheckTradeInput(input: TradeInput, amountOk: string -> bool): (r: Checked<NewTrade>)
    ensures r.Valid? <==>
      && input.userId.Given?
      && input.symbol.Given? && |input.symbol.value| >= 1
      && input.entryPrice.Given? && amountOk(input.entryPrice.value)
      && input.position.Given?
      && input.quantity.Given? && amountOk(input.quantity.value)
      && (input.isActive.Absent? || input.isActive.Given?)
      && OptionalsTyped(input)
  {
    Verdict(
      Presence(input.userId, "number") +
      Presence(input.symbol, "string") +
      Check(!input.symbol.Given? || MinLength(input.symbol.value, 1), "Symbol is required") +
      Presence(input.entryPrice, "string") +
      Check(!input.entryPrice.Given? || amountOk(input.entryPrice.value), "Entry price must be positive") +
      Typed(input.currentPrice, "string") +
      Presence(input.position, "string") +
      Presence(input.quantity, "string") +
      Check(!input.quantity.Given? || amountOk(input.quantity.value), "Quantity must be positive") +
      Typed(input.takeProfit, "string") +
      Typed(input.stopLoss, "string") +
      Typed(input.profitLoss, "string") +
      Typed(input.profitLossPercentage, "string") +
      Typed(input.apiUsed, "string") +
      Typed(input.notes, "string") +
      Check(!input.isActive.Null?, "Expected boolean, received null") +
      Typed(input.isActive, "boolean"),
      NewTrade(GivenOr(input.userId, 0), GivenOr(input.symbol, ""), GivenOr(input.entryPrice, ""),
        input.currentPrice, GivenOr(input.position, ""), GivenOr(input.quantity, ""),
        input.takeProfit, input.stopLoss, input.profitLoss, input.profitLossPercentage,
        input.apiUsed, input.notes, input.isActive))
  }

  /** The schema as written: numeric columns are strings to the schema, so
      `.min(0)` asks for a text of at least zero characters. */
  function InsertTradeSchemaAsWritten(input: TradeInput): (r: Checked<NewTrade>)
    ensures r.Valid? <==>
      && input.userId.Given? && input.symbol.Given? && |input.symbol.value| >= 1
      && input.entryPrice.Given? && input.position.Given? && input.quantity.Given?
      && (input.isActive.Absent? || input.isActive.Given?) && OptionalsTyped(input)
  {
    CheckTradeInput(input, s => MinLength(s, 0))
  }

  /** The schema as its messages describe it: the entry price and the
      quantity must be positive numbers. */
  function InsertTradeSchema(input: TradeInput): (r: Checked<NewTrade>)
    ensures r.Valid? <==>
      && input.userId.Given? && input.symbol.Given? && |input.symbol.value| >= 1
      && input.entryPrice.Given? && ParsesPositive(input.entryPrice.value)
      && input.position.Given?
      && input.quantity.Given? && ParsesPositive(input.quantity.value)
      && (input.isActive.Absent? || input.isActive.Given?) && OptionalsTyped(input)
  {
    CheckTradeInput(input, ParsesPositive)
  }

  /** The omitted columns are out of the caller's hands: inputs that differ
      only in `id`, `createdAt`, `updatedAt` and `closedAt` validate alike. */
  lemma InsertTradeIgnoresOmitted(a: TradeInput, b: TradeInput)
    requires a.(id := Absent, createdAt := Absent, updatedAt := Absent, closedAt := Absent)
          == b.(id := Absent, createdAt := Absent, updatedAt := Absent, closedAt := Absent)
    ensures InsertTradeSchema(a) == InsertTradeSchema(b)
    ensures InsertTradeSchemaAsWritten(a) == InsertTradeSchemaAsWritten(b)
  {
    assert a.userId == b.userId && a.symbol == b.symbol && a.entryPrice == b.entryPrice;
  }

  /** An input carrying the given entry price and otherwise well formed. */
  function TradeInputWithPrice(price: string): TradeInput
  {
    TradeInput(Absent, Given(1), Given("BTC/USD"), Given(price), Absent, Given("Long"), Given("1"),
      Absent, Absent, Absent, Absent, Absent, Absent, Absent, Absent, Absent, Absent)
  }

  /** The schema as written lets a zero entry price through although its
      message says the price must be positive; the intended rule refuses it. */
  lemma ZeroEntryPriceSlipsThrough()
    ensures InsertTradeSchemaAsWritten(TradeInputWithPrice("0")).Valid?
    ensures InsertTradeSchema(TradeInputWithPrice("0")).Invalid?
  {
    ZeroReadsAsZero();
  }

  lemma ZeroReadsAsZero()
    ensures ParseFloat("0") == Some(0.0)
  {
    var z := "0";
    assert DigitRun(z) == 1;
    assert z[..1] == "0";
    assert DigitsValue(z[..1]) == 0;
  }

  /** Insert input for `trade_activities` (`id` and `createdAt` omitted). */
  datatype ActivityInput = ActivityInput(
    userId: Field<int>,
    tradeId: Field<int>,
    kind: Field<string>,
    symbol: Field<string>,
    price: Field<string>,
    amount: Field<string>,
    status: Field<string>)

  /** `insertTradeActivitySchema`: `userId`, `type` and `symbol` are required;
      `tradeId`, `price`, `amount` and `status` may be missing or null, but
      not of another type. */
  function InsertActivitySchema(input: ActivityInput): (r: Checked<ActivityInput>)
    ensures r.Valid? <==>
      && input.userId.Given? && input.kind.Given? && input.symbol.Given?
      && !input.tradeId.Unreadable? && !input.price.Unreadable?
      && !input.amount.Unreadable? && !input.status.Unreadable?
    ensures r.Valid? ==> r.value == input
  {
    Verdict(
      Presence(input.userId, "number") +
      Typed(input.tradeId, "number") +
      Presence(input.kind, "string") +
      Presence(input.symbol, "string") +
      Typed(input.price, "string") +
      Typed(input.amount, "string") +
      Typed(input.status, "string"),
      input)
  }
}
