/** The storage layer: the three tables as sequences in insertion order,
    the serial sequences, and the queries and writes the routes use. A
    write either succeeds or fails with the error the database raises. A
    failed write leaves the tables as they were, but a serial value drawn
    before the failure stays drawn. */
module Storage {
  import opened Common
  import opened Numbers
  import opened Schema
  import opened Seqs

  /** The tables and the next value of each `serial` sequence. */
  datatype Store = Store(
    users: seq<User>,
    trades: seq<Trade>,
    activities: seq<Activity>,
    nextUserId: nat,
    nextTradeId: nat,
    nextActivityId: nat)

  /** The database errors the model distinguishes; each makes the ORM throw. */
  datatype DbError =
    | NotNullViolation        // a NOT NULL column would hold null
    | ForeignKeyViolation     // a reference points nowhere, or a referenced id would change
    | UniqueViolation         // a taken username or primary key
    | NothingToSet            // an UPDATE that names no column
    | InvalidValue            // a value its column's type cannot read
    | OutOfRange              // a number its column cannot hold
    | SequenceExhausted       // a serial sequence past the integer range

  /** The outcome of a database call: its value and the store after it, or
      the error and the store after the failed statement. */
  datatype Db<+T> = Ok(value: T, store: Store) | Fail(error: DbError, store: Store)

  const EmptyStore: Store := Store([], [], [], 1, 1, 1)

  predicate UserExists(st: Store, id: int)
  {
    exists i :: 0 <= i < |st.users| && st.users[i].id == id
  }

  predicate TradeExists(st: Store, id: int)
  {
    exists i :: 0 <= i < |st.trades| && st.trades[i].id == id
  }

  predicate ActivityExists(st: Store, id: int)
  {
    exists i :: 0 <= i < |st.activities| && st.activities[i].id == id
  }

  /** Some activity refers to the trade. */
  predicate Referenced(st: Store, tradeId: int)
  {
    exists i :: 0 <= i < |st.activities| && st.activities[i].tradeId == Some(tradeId)
  }

  /** What the table definitions guarantee: primary keys and usernames are
      unique, every value fits its column, every reference points at an
      existing row. Users and activities only ever get serial ids, so
      theirs lie below their sequence; a trade's id may be chosen by the
      client. */
  ghost predicate Consistent(st: Store)
  {
    UsersValid(st) && TradesValid(st) && ActivitiesValid(st)
  }

  /** The users table: unique ids below the sequence, unique usernames. */
  ghost predicate UsersValid(st: Store)
  {
    && (forall i, j :: 0 <= i < j < |st.users| ==> st.users[i].id != st.users[j].id)
    && (forall i, j :: 0 <= i < j < |st.users| ==> st.users[i].username != st.users[j].username)
    && (forall i :: 0 <= i < |st.users| ==> IsInt4(st.users[i].id) && st.users[i].id < st.nextUserId)
  }

  /** The trades table: unique ids, fitting values, existing owners. */
  ghost predicate TradesValid(st: Store)
  {
    && (forall i, j :: 0 <= i < j < |st.trades| ==> st.trades[i].id != st.trades[j].id)
    && (forall i :: 0 <= i < |st.trades| ==> TradeFits(st.trades[i]))
    && (forall i :: 0 <= i < |st.trades| ==> UserExists(st, st.trades[i].userId))
  }

  /** The activities table: unique ids below the sequence, fitting values,
      existing users and trades. */
  ghost predicate ActivitiesValid(st: Store)
  {
    && (forall i, j :: 0 <= i < j < |st.activities| ==> st.activities[i].id != st.activities[j].id)
    && (forall i :: 0 <= i < |st.activities| ==>
          ActivityFits(st.activities[i]) && st.activities[i].id < st.nextActivityId)
    && (forall i :: 0 <= i < |st.activities| ==> UserExists(st, st.activities[i].userId))
    && (forall i :: 0 <= i < |st.activities| && st.activities[i].tradeId.Some? ==>
          TradeExists(st, st.activities[i].tradeId.value))
  }

  lemma EmptyStoreValid()
    ensures Consistent(EmptyStore)
  {
  }

  // ---------------------------------------------------------------------
  // Users

  /** The first row, in table order, whose key is `id`. */
  function FindById<T>(rows: seq<T>, key: T -> int, id: int): (r: Option<T>)
    ensures r.None? <==> forall i :: 0 <= i < |rows| ==> key(rows[i]) != id
    ensures r.Some? ==> r.value in rows && key(r.value) == id
  {
    if |rows| == 0 then None
    else if key(rows[0]) == id then Some(rows[0])
    else
      var r := FindById(rows[1..], key, id);
      assert forall i :: 1 <= i < |rows| ==> rows[i] == rows[1..][i - 1];
      r
  }

  /** `getUser(id)`: the user with that id, if any. */
  function FindUser(st: Store, id: int): (r: Option<User>)
    ensures r.None? <==> !UserExists(st, id)
    ensures r.Some? ==> r.value in st.users && r.value.id == id
  {
    FindById(st.users, (u: User) => u.id, id)
  }

  /** A user other than `except` has the name. */
  predicate UsernameTaken(st: Store, name: string, except: int)
  {
    exists i :: 0 <= i < |st.users| && st.users[i].username == name && st.users[i].id != except
  }

  /** `createUser`: a new row under the next serial id. The serial value is
      drawn before the row is checked, so a refused insert still uses it
      up. */
  function CreateUser(st: Store, u: NewUser, now: int): (r: Db<User>)
    ensures r.Ok? <==>
      && st.nextUserId <= Int4Max && !UserExists(st, st.nextUserId)
      && !UsernameTaken(st, u.username, st.nextUserId)
    ensures st.nextUserId > Int4Max ==> r == Fail(SequenceExhausted, st)
    ensures r.Fail? && st.nextUserId <= Int4Max ==>
      r == Fail(UniqueViolation, st.(nextUserId := st.nextUserId + 1))
    ensures r.Ok? ==> && r.value == User(st.nextUserId, u.username, u.password, now)
                      && r.store == st.(users := st.users + [r.value], nextUserId := st.nextUserId + 1)
  {
    if st.nextUserId > Int4Max then Fail(SequenceExhausted, st)
    else
      var st1 := st.(nextUserId := st.nextUserId + 1);
      if UserExists(st, st.nextUserId) || UsernameTaken(st, u.username, st.nextUserId) then
        Fail(UniqueViolation, st1)
      else
        var user := User(st.nextUserId, u.username, u.password, now);
        Ok(user, st1.(users := st.users + [user]))
  }

  /** `updateUser(id, { username, password? })`: an absent username leaves
      the column alone, a null one is refused, a taken one violates the
      unique constraint; a missing row yields no user. A failed update
      changes nothing. */
  function UpdateUser(st: Store, id: int, username: TextField, password: Option<string>): (r: Db<Option<User>>)
    ensures r.Fail? ==> r.store == st
    ensures username.Absent? && password.None? ==> r == Fail(NothingToSet, st)
    ensures !(username.Absent? && password.None?) ==>
      (r.Ok? <==> !UserExists(st, id) || (!username.Null? && !(username.Given? && UsernameTaken(st, username.value, id))))
    ensures r.Ok? ==> r.value.Some? == UserExists(st, id)
    ensures r.Ok? && r.value.Some? ==>
      && r.value.value.id == id
      && r.value.value.username == (if username.Given? then username.value else FindUser(st, id).value.username)
      && r.value.value.password == (if password.Some? then password.value else FindUser(st, id).value.password)
      && r.value.value.createdAt == FindUser(st, id).value.createdAt
    ensures r.Ok? ==> r.store.trades == st.trades && r.store.activities == st.activities
    ensures r.Ok? ==> |r.store.users| == |st.users|
    ensures r.Ok? && r.value.Some? ==> forall i :: 0 <= i < |st.users| ==>
      r.store.users[i] == if st.users[i].id == id then r.value.value else st.users[i]
  {
    if username.Absent? && password.None? then Fail(NothingToSet, st)
    else if !UserExists(st, id) then Ok(None, st)
    else if username.Null? then Fail(NotNullViolation, st)
    else if username.Given? && UsernameTaken(st, username.value, id) then Fail(UniqueViolation, st)
    else
      var prev := FindUser(st, id).value;
      var updated := prev.(username := GivenOr(username, prev.username), password := password.GetOr(prev.password));
      var users := seq(|st.users|, i requires 0 <= i < |st.users| =>
        if st.users[i].id == id then updated else st.users[i]);
      Ok(Some(updated), st.(users := users))
  }

  // ---------------------------------------------------------------------
  // Trades

  /** `orderBy: [desc(isActive), desc(createdAt)]`: active trades first,
      newest first within each group. */
  function TradeListOrder(): (Trade, Trade) -> bool
  {
    (a: Trade, b: Trade) => (a.isActive && !b.isActive) || (a.isActive == b.isActive && a.createdAt >= b.createdAt)
  }

  lemma TradeListOrderIsPreorder()
    ensures TotalPreorder(TradeListOrder())
  {
  }

  function OwnedBy(u: int): Trade -> bool
  {
    (t: Trade) => t.userId == u
  }

  /** `getTrades(userId)`: the user's trades, active before inactive and
      newest first (ties keep insertion order, which the database leaves
      unspecified). */
  function GetTrades(st: Store, u: int): (r: seq<Trade>)
    ensures forall i :: 0 <= i < |r| ==> r[i].userId == u
    ensures multiset(r) == multiset(Filter(st.trades, OwnedBy(u)))
    ensures Sorted(r, TradeListOrder())
  {
    var mine := Filter(st.trades, OwnedBy(u));
    TradeListOrderIsPreorder();
    SortBySorted(mine, TradeListOrder());
    PermutationKeeps(mine, SortBy(mine, TradeListOrder()), OwnedBy(u));
    SortBy(mine, TradeListOrder())
  }

  /** Exactly the user's trades are listed. */
  lemma GetTradesExactly(st: Store, u: int, t: Trade)
    ensures t in GetTrades(st, u) <==> t in st.trades && t.userId == u
  {
    var mine := Filter(st.trades, OwnedBy(u));
    assert t in GetTrades(st, u) <==> t in multiset(mine);
    if t in st.trades && t.userId == u {
      FilterKeeps(st.trades, OwnedBy(u), t);
    }
    if t in mine {
      assert t in multiset(st.trades);
    }
  }

  /** With unique ids, a trade held by someone else is not in a user's list. */
  lemma OthersTradeNotListed(st: Store, u: int, i: int)
    requires Consistent(st)
    requires 0 <= i < |st.trades| && st.trades[i].userId != u
    ensures forall t :: t in GetTrades(st, u) ==> t.id != st.trades[i].id
  {
    forall t | t in GetTrades(st, u) ensures t.id != st.trades[i].id {
      GetTradesExactly(st, u, t);
    }
  }

  /** `getTradeById(id)`: the row with that id, if any. */
  function GetTradeById(st: Store, id: int): (r: Option<Trade>)
    ensures r.None? <==> !TradeExists(st, id)
    ensures r.Some? ==> r.value in st.trades && r.value.id == id
  {
    FindById(st.trades, (t: Trade) => t.id, id)
  }

  /** With unique ids the row found is the only one with that id. */
  lemma FindTradeUnique(st: Store, id: int, i: int)
    requires Consistent(st)
    requires 0 <= i < |st.trades| && st.trades[i].id == id
    ensures GetTradeById(st, id) == Some(st.trades[i])
  {
    var t := GetTradeById(st, id).value;
    var j :| 0 <= j < |st.trades| && st.trades[j] == t;
    assert i == j;
  }

  /** Every amount sent is text its NUMERIC column can read. */
  predicate AmountsReadable(f: TradeFields)
  {
    && !f.entryPrice.Unreadable? && !f.currentPrice.Unreadable? && !f.quantity.Unreadable?
    && !f.takeProfit.Unreadable? && !f.stopLoss.Unreadable?
    && !f.profitLoss.Unreadable? && !f.profitLossPercentage.Unreadable?
  }

  /** Every value sent can be read as its column's type. Text columns read
      anything. */
  predicate Readable(f: TradeFields)
  {
    && !f.id.Unreadable? && !f.userId.Unreadable? && AmountsReadable(f)
    && !f.isActive.Unreadable? && !f.createdAt.Unreadable?
    && !f.updatedAt.Unreadable? && !f.closedAt.Unreadable?
  }

  predicate IntFits(f: Field<int>)
  {
    f.Given? ==> IsInt4(f.value)
  }

  predicate AmountFits(f: Field<Decimal>, c: NumericType)
  {
    f.Given? ==> FitColumn(f.value, c).Some?
  }

  /** Every amount sent, once rounded to its column's scale, is within the
      column's precision. */
  predicate AmountsInRange(f: TradeFields)
  {
    && AmountFits(f.entryPrice, PriceType) && AmountFits(f.currentPrice, PriceType)
    && AmountFits(f.quantity, QuantityType)
    && AmountFits(f.takeProfit, PriceType) && AmountFits(f.stopLoss, PriceType)
    && AmountFits(f.profitLoss, PriceType) && AmountFits(f.profitLossPercentage, PriceType)
  }

  /** Every number sent is one its column can hold. */
  predicate InRange(f: TradeFields)
  {
    IntFits(f.id) && IntFits(f.userId) && AmountsInRange(f)
  }

  /** The value a NUMERIC column stores for `d`: `d` rounded to the column's
      scale, when that fits. */
  function Stored(d: Decimal, c: NumericType): (v: Decimal)
    ensures FitColumn(d, c).Some? ==> Fits(v, c) && v == RoundToScale(d, c.scale)
    ensures Fits(d, c) ==> v == d
  {
    assert Fits(d, c) ==> FitColumn(d, c) == Some(d) by {
      if Fits(d, c) { FitColumnKeeps(d, c); }
    }
    var v := FitColumn(d, c);
    if v.Some? then v.value else d
  }

  function StoredField(f: Field<Decimal>, c: NumericType): (r: Field<Decimal>)
    ensures r.Given? <==> f.Given?
    ensures !f.Given? ==> r == f
  {
    if f.Given? then Given(Stored(f.value, c)) else f
  }

  predicate FieldFits(f: Field<Decimal>, c: NumericType)
  {
    f.Given? ==> Fits(f.value, c)
  }

  /** The fields with every amount as its column stores it: in range, each
      amount fits its column exactly. */
  function Rounded(f: TradeFields): (r: TradeFields)
    ensures AmountsInRange(f) ==>
      && FieldFits(r.entryPrice, PriceType) && FieldFits(r.currentPrice, PriceType)
      && FieldFits(r.quantity, QuantityType)
      && FieldFits(r.takeProfit, PriceType) && FieldFits(r.stopLoss, PriceType)
      && FieldFits(r.profitLoss, PriceType) && FieldFits(r.profitLossPercentage, PriceType)
  {
    f.(entryPrice := StoredField(f.entryPrice, PriceType),
       currentPrice := StoredField(f.currentPrice, PriceType),
       quantity := StoredField(f.quantity, QuantityType),
       takeProfit := StoredField(f.takeProfit, PriceType),
       stopLoss := StoredField(f.stopLoss, PriceType),
       profitLoss := StoredField(f.profitLoss, PriceType),
       profitLossPercentage := StoredField(f.profitLossPercentage, PriceType))
  }

  /** No NOT NULL column of `trades` is left empty by an insert. Columns
      with a default (`id`, `isActive`, `createdAt`, `updatedAt`) may be
      absent but not null. */
  predicate InsertFits(f: TradeFields)
  {
    && !f.id.Null?
    && f.userId.Given? && f.symbol.Given? && f.entryPrice.Given?
    && f.position.Given? && f.quantity.Given?
    && !f.isActive.Null? && !f.createdAt.Null? && !f.updatedAt.Null?
  }

  function OrNone<T>(f: Field<T>): Option<T>
  {
    if f.Given? then Some(f.value) else None
  }

  /** A NOT NULL column written from `f`: a supplied value is taken, an
      absent one leaves `otherwise` (the default, or the old value). */
  predicate Takes<T(==)>(f: Field<T>, otherwise: T, v: T)
  {
    (f.Given? ==> v == f.value) && (f.Absent? ==> v == otherwise)
  }

  /** A nullable column written from `f`: a supplied value is taken, null
      clears it, an absent one leaves `otherwise`. */
  predicate TakesNullable<T(==)>(f: Field<T>, otherwise: Option<T>, v: Option<T>)
  {
    (f.Given? ==> v == Some(f.value)) && (f.Null? ==> v.None?) && (f.Absent? ==> v == otherwise)
  }

  /** The row an insert creates: given values, column defaults for absent
      ones (`isActive` true, timestamps `now`), null for nullable columns. */
  function InsertRow(id: int, f: TradeFields, now: int): (t: Trade)
    requires InsertFits(f)
    ensures t.id == id
    ensures t.userId == f.userId.value && t.symbol == f.symbol.value && t.position == f.position.value
    ensures t.entryPrice == f.entryPrice.value && t.quantity == f.quantity.value
    ensures TakesNullable(f.currentPrice, None, t.currentPrice)
    ensures TakesNullable(f.takeProfit, None, t.takeProfit) && TakesNullable(f.stopLoss, None, t.stopLoss)
    ensures TakesNullable(f.profitLoss, None, t.profitLoss)
    ensures TakesNullable(f.profitLossPercentage, None, t.profitLossPercentage)
    ensures TakesNullable(f.apiUsed, None, t.apiUsed) && TakesNullable(f.notes, None, t.notes)
    ensures Takes(f.isActive, true, t.isActive)
    ensures Takes(f.createdAt, now, t.createdAt) && Takes(f.updatedAt, now, t.updatedAt)
    ensures TakesNullable(f.closedAt, None, t.closedAt)
  {
    Trade(id, f.userId.value, f.symbol.value, f.entryPrice.value, OrNone(f.currentPrice),
      f.position.value, f.quantity.value, OrNone(f.takeProfit), OrNone(f.stopLoss),
      OrNone(f.profitLoss), OrNone(f.profitLossPercentage), OrNone(f.apiUsed), OrNone(f.notes),
      GivenOr(f.isActive, true), GivenOr(f.createdAt, now), GivenOr(f.updatedAt, now),
      OrNone(f.closedAt))
  }

  /** The id an insert gives the row: the one supplied, else the next
      serial value. */
  function NewTradeId(st: Store, f: TradeFields): int
  {
    if f.id.Given? then f.id.value else st.nextTradeId
  }

  /** The insert gets as far as drawing a serial value: the values were
      read and are in range, and no id was supplied. */
  predicate DrawsTradeId(st: Store, f: TradeFields)
  {
    Readable(f) && InRange(f) && f.id.Absent? && st.nextTradeId <= Int4Max
  }

  /** `createTrade(values)`: inserts one row. Values the column types cannot
      read or hold are refused before anything happens; then the serial
      value is drawn when no id was supplied, and the row is checked
      against the NOT NULL, primary key and foreign key constraints. */
  function CreateTrade(st: Store, f: TradeFields, now: int): (r: Db<Trade>)
    ensures r.Ok? <==>
      && Readable(f) && InRange(f) && (f.id.Absent? ==> st.nextTradeId <= Int4Max)
      && InsertFits(f) && !TradeExists(st, NewTradeId(st, f)) && UserExists(st, f.userId.value)
    ensures !Readable(f) ==> r == Fail(InvalidValue, st)
    ensures Readable(f) && !InRange(f) ==> r == Fail(OutOfRange, st)
    ensures r.Fail? ==>
      r.store == if DrawsTradeId(st, f) then st.(nextTradeId := st.nextTradeId + 1) else st
    ensures r.Ok? ==>
      && r.value == InsertRow(NewTradeId(st, f), Rounded(f), now)
      && TradeFits(r.value)
      && r.store == st.(trades := st.trades + [r.value],
                        nextTradeId := if f.id.Absent? then st.nextTradeId + 1 else st.nextTradeId)
  {
    if !Readable(f) then Fail(InvalidValue, st)
    else if !InRange(f) then Fail(OutOfRange, st)
    else if f.id.Absent? && st.nextTradeId > Int4Max then Fail(SequenceExhausted, st)
    else
      var st1 := if f.id.Absent? then st.(nextTradeId := st.nextTradeId + 1) else st;
      var id := NewTradeId(st, f);
      match RowViolation(st, f, id)
      case Some(e) => Fail(e, st1)
      case None =>
        InsertedRowFits(st, f, now);
        var t := InsertRow(id, Rounded(f), now);
        Ok(t, st1.(trades := st.trades + [t]))
  }

  /** The first constraint a new trade row under `id` breaks, checked as
      PostgreSQL does: NOT NULL, then the primary key, then the owner's
      foreign key. */
  function RowViolation(st: Store, f: TradeFields, id: int): (e: Option<DbError>)
    ensures e.None? <==> InsertFits(f) && !TradeExists(st, id) && UserExists(st, f.userId.value)
    ensures !InsertFits(f) ==> e == Some(NotNullViolation)
  {
    if !InsertFits(f) then Some(NotNullViolation)
    else if TradeExists(st, id) then Some(UniqueViolation)
    else if !UserExists(st, f.userId.value) then Some(ForeignKeyViolation)
    else None
  }

  /** A row built from readable, in-range values with the required columns
      given fits every column type. */
  lemma InsertedRowFits(st: Store, f: TradeFields, now: int)
    requires Readable(f) && InRange(f) && InsertFits(f)
    requires f.id.Absent? ==> st.nextTradeId <= Int4Max
    ensures InsertFits(Rounded(f)) && TradeFits(InsertRow(NewTradeId(st, f), Rounded(f), now))
  {
  }

  /** The NOT NULL columns an update may not clear. */
  predicate PatchFits(f: TradeFields)
  {
    && !f.id.Null? && !f.userId.Null? && !f.symbol.Null? && !f.entryPrice.Null? && !f.position.Null?
    && !f.quantity.Null? && !f.isActive.Null? && !f.createdAt.Null? && !f.updatedAt.Null?
  }

  function PatchNullable<T>(prev: Option<T>, f: Field<T>): Option<T>
  {
    match f
    case Given(v) => Some(v)
    case Null => None
    case _ => prev
  }

  /** `SET` of the supplied columns: every supplied column takes its new
      value, a null clears a nullable column, every other column keeps its
      old one. Nothing stops a patch from changing the id, the owner, the
      active flag or the timestamps. */
  function Patched(t: Trade, f: TradeFields): (r: Trade)
    ensures Takes(f.id, t.id, r.id) && Takes(f.userId, t.userId, r.userId)
    ensures Takes(f.symbol, t.symbol, r.symbol) && Takes(f.position, t.position, r.position)
    ensures Takes(f.entryPrice, t.entryPrice, r.entryPrice) && Takes(f.quantity, t.quantity, r.quantity)
    ensures TakesNullable(f.currentPrice, t.currentPrice, r.currentPrice)
    ensures TakesNullable(f.takeProfit, t.takeProfit, r.takeProfit)
    ensures TakesNullable(f.stopLoss, t.stopLoss, r.stopLoss)
    ensures TakesNullable(f.profitLoss, t.profitLoss, r.profitLoss)
    ensures TakesNullable(f.profitLossPercentage, t.profitLossPercentage, r.profitLossPercentage)
    ensures TakesNullable(f.apiUsed, t.apiUsed, r.apiUsed) && TakesNullable(f.notes, t.notes, r.notes)
    ensures Takes(f.isActive, t.isActive, r.isActive)
    ensures Takes(f.createdAt, t.createdAt, r.createdAt) && Takes(f.updatedAt, t.updatedAt, r.updatedAt)
    ensures TakesNullable(f.closedAt, t.closedAt, r.closedAt)
  {
    Trade(GivenOr(f.id, t.id), GivenOr(f.userId, t.userId), GivenOr(f.symbol, t.symbol),
      GivenOr(f.entryPrice, t.entryPrice), PatchNullable(t.currentPrice, f.currentPrice),
      GivenOr(f.position, t.position), GivenOr(f.quantity, t.quantity),
      PatchNullable(t.takeProfit, f.takeProfit), PatchNullable(t.stopLoss, f.stopLoss),
      PatchNullable(t.profitLoss, f.profitLoss), PatchNullable(t.profitLossPercentage, f.profitLossPercentage),
      PatchNullable(t.apiUsed, f.apiUsed), PatchNullable(t.notes, f.notes),
      GivenOr(f.isActive, t.isActive), GivenOr(f.createdAt, t.createdAt), GivenOr(f.updatedAt, t.updatedAt),
      PatchNullable(t.closedAt, f.closedAt))
  }

  /** Applying the same patch twice changes nothing more. */
  lemma PatchIdempotent(t: Trade, f: TradeFields)
    ensures Patched(Patched(t, f), f) == Patched(t, f)
  {
  }

  /** A patch that names no column leaves the trade as it is. */
  lemma PatchNothing(t: Trade)
    ensures Patched(t, NoFields) == t
  {
  }

  /** A row that fits its columns still fits them after a patch whose
      numbers are in range, once the amounts are stored at scale. */
  lemma PatchedFits(t: Trade, f: TradeFields)
    requires TradeFits(t) && InRange(f)
    ensures TradeFits(Patched(t, Rounded(f)))
  {
  }

  /** Every trade whose id matches is patched, all others are kept. */
  function PatchWhere(trades: seq<Trade>, id: int, f: TradeFields): (r: seq<Trade>)
    ensures |r| == |trades|
    ensures forall i :: 0 <= i < |trades| ==> r[i] == if trades[i].id == id then Patched(trades[i], f) else trades[i]
  {
    seq(|trades|, i requires 0 <= i < |trades| => if trades[i].id == id then Patched(trades[i], f) else trades[i])
  }

  /** The patch gives the trade another id. */
  predicate MovesId(id: int, f: TradeFields)
  {
    f.id.Given? && f.id.value != id
  }

  /** Everything an existing trade's update needs to go through: a column
      to set, values the columns read and hold, no NOT NULL column cleared,
      a new id that is free and that no activity's reference pins, an owner
      that exists. */
  predicate Patchable(st: Store, id: int, f: TradeFields)
  {
    && f != NoFields && Readable(f) && InRange(f) && PatchFits(f)
    && !(MovesId(id, f) && TradeExists(st, f.id.value))
    && (f.userId.Given? ==> UserExists(st, f.userId.value))
    && !(MovesId(id, f) && Referenced(st, id))
  }

  /** `updateTrade(id, values)`: `UPDATE trades SET values WHERE id = ...
      RETURNING *`. An empty `SET` and values the columns cannot read or
      hold are refused outright; constraint errors arise only when a row
      is actually changed; no matching row yields no trade. A failed update
      changes nothing. */
  function UpdateTrade(st: Store, id: int, f: TradeFields): (r: Db<Option<Trade>>)
    ensures r.Fail? ==> r.store == st
    ensures f == NoFields ==> r == Fail(NothingToSet, st)
    ensures (r.Ok? && r.value.None?) <==> f != NoFields && Readable(f) && InRange(f) && !TradeExists(st, id)
    ensures TradeExists(st, id) ==> (r.Ok? <==> Patchable(st, id, f))
    ensures r.Ok? && r.value.Some? ==>
      && TradeExists(st, id)
      && r.value.value == Patched(GetTradeById(st, id).value, Rounded(f))
      && r.value.value in r.store.trades
    ensures r.Ok? ==>
      && r.store == st.(trades := r.store.trades)
      && |r.store.trades| == |st.trades|
      && (forall i :: 0 <= i < |st.trades| ==>
            r.store.trades[i] == if st.trades[i].id == id then Patched(st.trades[i], Rounded(f)) else st.trades[i])
  {
    if f == NoFields then Fail(NothingToSet, st)
    else if !Readable(f) then Fail(InvalidValue, st)
    else if !InRange(f) then Fail(OutOfRange, st)
    else if !TradeExists(st, id) then
      Ok(None, st)
    else if !PatchFits(f) then Fail(NotNullViolation, st)
    else if MovesId(id, f) && TradeExists(st, f.id.value) then Fail(UniqueViolation, st)
    else if f.userId.Given? && !UserExists(st, f.userId.value) then Fail(ForeignKeyViolation, st)
    else if MovesId(id, f) && Referenced(st, id) then Fail(ForeignKeyViolation, st)
    else
      var prev := GetTradeById(st, id).value;
      var trades := PatchWhere(st.trades, id, Rounded(f));
      var j :| 0 <= j < |st.trades| && st.trades[j] == prev;
      assert trades[j] == Patched(prev, Rounded(f));
      Ok(Some(Patched(prev, Rounded(f))), st.(trades := trades))
  }

  /** The fields `closeTrade` sets. */
  function Closing(now: int): TradeFields
  {
    NoFields.(isActive := Given(false), closedAt := Given(now))
  }

  /** `closeTrade(id)`: `SET isActive = false, closedAt = now`. Nothing
      checks that the trade is still active. */
  function CloseTrade(st: Store, id: int, now: int): (r: (Option<Trade>, Store))
    ensures r.0.None? <==> !TradeExists(st, id)
    ensures r.0.Some? ==> r.0.value == GetTradeById(st, id).value.(isActive := false, closedAt := Some(now))
    ensures r.1 == st.(trades := r.1.trades)
    ensures |r.1.trades| == |st.trades|
    ensures forall i :: 0 <= i < |st.trades| ==>
      r.1.trades[i] == if st.trades[i].id == id then st.trades[i].(isActive := false, closedAt := Some(now))
                       else st.trades[i]
  {
    var trades := PatchWhere(st.trades, id, Closing(now));
    if !TradeExists(st, id) then
      assert trades == st.trades;
      (None, st)
    else
      var prev := GetTradeById(st, id).value;
      (Some(Patched(prev, Closing(now))), st.(trades := trades))
  }

  /** Closing changes the active flag and the closing time, and nothing else. */
  lemma CloseTouchesOnlyStatus(st: Store, id: int, now: int, i: int)
    requires 0 <= i < |st.trades| && st.trades[i].id == id
    ensures var t := CloseTrade(st, id, now).1.trades[i];
      && !t.isActive && t.closedAt == Some(now)
      && t.(isActive := st.trades[i].isActive, closedAt := st.trades[i].closedAt) == st.trades[i]
  {
  }

  // ---------------------------------------------------------------------
  // Activities

  function ByUser(u: int): Activity -> bool
  {
    (a: Activity) => a.userId == u
  }

  function NewestFirst(): (Activity, Activity) -> bool
  {
    Descending((a: Activity) => a.createdAt as real)
  }

  /** The default page size of `getTradeActivities`. */
  const DefaultActivityLimit: int := 10

  /** All activities of a user, newest first. */
  function UserActivities(st: Store, u: int): (r: seq<Activity>)
    ensures forall i :: 0 <= i < |r| ==> r[i].userId == u
    ensures multiset(r) == multiset(Filter(st.activities, ByUser(u)))
    ensures Sorted(r, NewestFirst())
  {
    var mine := Filter(st.activities, ByUser(u));
    DescendingIsPreorder((a: Activity) => a.createdAt as real);
    SortBySorted(mine, NewestFirst());
    PermutationKeeps(mine, SortBy(mine, NewestFirst()), ByUser(u));
    SortBy(mine, NewestFirst())
  }

  /** `getTradeActivities(userId, limit)`: the user's activities, newest
      first. The query builder writes a `LIMIT` only for a number that is
      not negative, so NaN (`None`) and a negative limit return every
      activity of the user; a limit beyond the 64-bit range is refused. */
  function GetTradeActivities(st: Store, u: int, limit: Option<int>): (r: Db<seq<Activity>>)
    ensures r.Fail? <==> limit.Some? && limit.value > Int8Max
    ensures r.store == st
    ensures r.Ok? && limit.Some? && limit.value >= 0 ==> |r.value| <= limit.value
    ensures r.Ok? && (limit.None? || limit.value < 0) ==>
      multiset(r.value) == multiset(Filter(st.activities, ByUser(u)))
    ensures r.Ok? ==> forall i :: 0 <= i < |r.value| ==> r.value[i].userId == u
    ensures r.Ok? ==> multiset(r.value) <= multiset(Filter(st.activities, ByUser(u)))
    ensures r.Ok? ==> Sorted(r.value, NewestFirst())
  {
    var all := UserActivities(st, u);
    match limit
    case Some(n) =>
      if n > Int8Max then Fail(OutOfRange, st)
      else if n >= 0 then
        PrefixOfSorted(all, Take(all, n), NewestFirst());
        Ok(Take(all, n), st)
      else Ok(all, st)
    case None => Ok(all, st)
  }

  /** The page holds the newest activities: an activity of the user that is
      left off is no newer than any on the page, and the page is only short
      when the user has fewer activities than the limit. */
  lemma ActivitiesPageIsNewest(st: Store, u: int, limit: nat, a: Activity)
    requires limit <= Int8Max
    requires a in st.activities && a.userId == u
    requires a !in GetTradeActivities(st, u, Some(limit)).value
    ensures forall b :: b in GetTradeActivities(st, u, Some(limit)).value ==> b.createdAt >= a.createdAt
    ensures |GetTradeActivities(st, u, Some(limit)).value| == limit
  {
    var sorted := UserActivities(st, u);
    var mine := Filter(st.activities, ByUser(u));
    FilterKeeps(st.activities, ByUser(u), a);
    assert a in multiset(mine);
    assert a in multiset(sorted);
    var j :| 0 <= j < |sorted| && sorted[j] == a;
    var page := Take(sorted, limit);
    assert GetTradeActivities(st, u, Some(limit)).value == page;
    assert j >= |page|;
    assert page == sorted[..|page|];
    PrefixIsNewer(sorted, |page|, j);
  }

  /** In a newest-first list, the first `n` entries are no older than the
      entry at any later index `j`. */
  lemma PrefixIsNewer(sorted: seq<Activity>, n: nat, j: int)
    requires Sorted(sorted, NewestFirst())
    requires n <= j < |sorted|
    ensures forall b :: b in sorted[..n] ==> b.createdAt >= sorted[j].createdAt
  {
    forall b | b in sorted[..n] ensures b.createdAt >= sorted[j].createdAt {
      var i :| 0 <= i < n && sorted[i] == b;
      assert NewestFirst()(sorted[i], sorted[j]);
    }
  }

  /** The activity's numbers are ones their columns can hold. */
  predicate ActivityInRange(a: Activity)
  {
    && IsInt4(a.userId) && (a.tradeId.Some? ==> IsInt4(a.tradeId.value))
    && (a.price.Some? ==> FitColumn(a.price.value, PriceType).Some?)
    && (a.amount.Some? ==> FitColumn(a.amount.value, QuantityType).Some?)
  }

  function StoredOption(d: Option<Decimal>, c: NumericType): Option<Decimal>
  {
    if d.Some? then Some(Stored(d.value, c)) else None
  }

  /** `createTradeActivity(values)`: appends one row under the next serial
      id, with the amounts stored at their columns' scale. Numbers out of
      range are refused before the serial value is drawn; a taken id, a
      missing user or a missing trade after it. */
  function CreateTradeActivity(st: Store, a: Activity): (r: Db<Activity>)
    ensures r.Ok? <==>
      && ActivityInRange(a) && st.nextActivityId <= Int4Max && !ActivityExists(st, st.nextActivityId)
      && UserExists(st, a.userId) && (a.tradeId.Some? ==> TradeExists(st, a.tradeId.value))
    ensures r.Fail? ==>
      r.store == if ActivityInRange(a) && st.nextActivityId <= Int4Max then st.(nextActivityId := st.nextActivityId + 1) else st
    ensures r.Ok? ==>
      && ActivityFits(r.value)
      && r.value.(price := a.price, amount := a.amount) == a.(id := st.nextActivityId)
      && (ActivityFits(a.(id := st.nextActivityId)) ==> r.value == a.(id := st.nextActivityId))
      && r.store == st.(activities := st.activities + [r.value], nextActivityId := st.nextActivityId + 1)
  {
    if !ActivityInRange(a) then Fail(OutOfRange, st)
    else if st.nextActivityId > Int4Max then Fail(SequenceExhausted, st)
    else
      var st1 := st.(nextActivityId := st.nextActivityId + 1);
      if ActivityExists(st, st.nextActivityId) then Fail(UniqueViolation, st1)
      else if !UserExists(st, a.userId) || (a.tradeId.Some? && !TradeExists(st, a.tradeId.value)) then
        Fail(ForeignKeyViolation, st1)
      else
        var row := a.(id := st.nextActivityId, price := StoredOption(a.price, PriceType),
                      amount := StoredOption(a.amount, QuantityType));
        Ok(row, st1.(activities := st.activities + [row]))
  }

  /** In a consistent store the next serial value of the activities is
      still free. */
  lemma NextActivityIdFree(st: Store)
    requires Consistent(st)
    ensures !ActivityExists(st, st.nextActivityId)
  {
    forall j | 0 <= j < |st.activities| ensures st.activities[j].id != st.nextActivityId {
      assert st.activities[j].id < st.nextActivityId;
    }
  }

  /** An activity whose numbers already fit their columns, naming an
      existing user and trade, is stored exactly as given under the next
      serial id. */
  lemma RecordActivity(st: Store, a: Activity)
    requires ActivityFits(a.(id := 0))
    requires st.nextActivityId <= Int4Max && !ActivityExists(st, st.nextActivityId)
    requires UserExists(st, a.userId) && (a.tradeId.Some? ==> TradeExists(st, a.tradeId.value))
    ensures CreateTradeActivity(st, a) ==
      Ok(a.(id := st.nextActivityId),
         st.(activities := st.activities + [a.(id := st.nextActivityId)], nextActivityId := st.nextActivityId + 1))
  {
    if a.price.Some? {
      FitColumnKeeps(a.price.value, PriceType);
    }
    if a.amount.Some? {
      FitColumnKeeps(a.amount.value, QuantityType);
    }
  }

  // ---------------------------------------------------------------------
  // Every write, successful or not, keeps the store consistent.

  lemma CreateUserKeepsValid(st: Store, u: NewUser, now: int)
    requires Consistent(st)
    ensures Consistent(CreateUser(st, u, now).store)
  {
    var r := CreateUser(st, u, now);
    if r.Ok? {
      AppendUserKeepsConsistent(st, r.value);
    } else {
      CountersKeepConsistent(st, r.store);
    }
  }

  /** A user row under the next serial id, with a username nobody has,
      keeps the store consistent. */
  lemma AppendUserKeepsConsistent(st: Store, user: User)
    requires Consistent(st)
    requires user.id == st.nextUserId && IsInt4(user.id)
    requires !UserExists(st, user.id) && !UsernameTaken(st, user.username, user.id)
    ensures Consistent(st.(users := st.users + [user], nextUserId := st.nextUserId + 1))
  {
    var st' := st.(users := st.users + [user], nextUserId := st.nextUserId + 1);
    AppendUserValid(st, user);
    forall id | UserExists(st, id) ensures UserExists(st', id) {
      var i :| 0 <= i < |st.users| && st.users[i].id == id;
      assert st'.users[i].id == id;
    }
    UsersGrowKeepsReferences(st, st');
  }

  lemma AppendUserValid(st: Store, user: User)
    requires UsersValid(st)
    requires user.id == st.nextUserId && IsInt4(user.id)
    requires !UsernameTaken(st, user.username, user.id)
    ensures UsersValid(st.(users := st.users + [user], nextUserId := st.nextUserId + 1))
  {
    var st' := st.(users := st.users + [user], nextUserId := st.nextUserId + 1);
    var n := |st.users|;
    forall i, j | 0 <= i < j < |st'.users|
      ensures st'.users[i].id != st'.users[j].id && st'.users[i].username != st'.users[j].username
    {
      if j == n {
        assert st'.users[i] == st.users[i] && st'.users[j] == user;
        assert st.users[i].id < st.nextUserId;
      } else {
        assert st'.users[i] == st.users[i] && st'.users[j] == st.users[j];
      }
    }
    forall i | 0 <= i < |st'.users| ensures IsInt4(st'.users[i].id) && st'.users[i].id < st'.nextUserId {
      if i < n {
        assert st'.users[i] == st.users[i];
      }
    }
  }

  /** With the trades and activities unchanged, more users keep every
      reference valid. */
  lemma UsersGrowKeepsReferences(st: Store, st': Store)
    requires TradesValid(st) && ActivitiesValid(st)
    requires st'.trades == st.trades && st'.activities == st.activities
    requires st'.nextActivityId == st.nextActivityId
    requires forall x :: UserExists(st, x) ==> UserExists(st', x)
    ensures TradesValid(st') && ActivitiesValid(st')
  {
    assert forall k :: TradeExists(st', k) == TradeExists(st, k);
  }

  lemma CreateTradeKeepsValid(st: Store, f: TradeFields, now: int)
    requires Consistent(st)
    ensures Consistent(CreateTrade(st, f, now).store)
  {
    var r := CreateTrade(st, f, now);
    if r.Ok? {
      AppendTradeKeepsConsistent(st, r.value, r.store.nextTradeId);
    } else {
      CountersKeepConsistent(st, r.store);
    }
  }

  /** Drawing serial values without adding rows keeps the store
      consistent. */
  lemma CountersKeepConsistent(st: Store, st': Store)
    requires Consistent(st)
    requires st'.users == st.users && st'.trades == st.trades && st'.activities == st.activities
    requires st'.nextUserId >= st.nextUserId && st'.nextActivityId >= st.nextActivityId
    ensures Consistent(st')
  {
    assert forall x :: UserExists(st', x) == UserExists(st, x);
    assert forall x :: TradeExists(st', x) == TradeExists(st, x);
  }

  /** A fitting trade row under a free id, owned by an existing user,
      keeps the store consistent, whatever the trades' counter becomes. */
  lemma AppendTradeKeepsConsistent(st: Store, t: Trade, next: nat)
    requires Consistent(st)
    requires TradeFits(t) && !TradeExists(st, t.id) && UserExists(st, t.userId)
    ensures Consistent(st.(trades := st.trades + [t], nextTradeId := next))
  {
    var st' := st.(trades := st.trades + [t], nextTradeId := next);
    AppendTradeValid(st, t, next);
    forall id | TradeExists(st, id) ensures TradeExists(st', id) {
      var i :| 0 <= i < |st.trades| && st.trades[i].id == id;
      assert st'.trades[i].id == id;
    }
    TradesGrowKeepsActivities(st, st');
  }

  lemma AppendTradeValid(st: Store, t: Trade, next: nat)
    requires TradesValid(st)
    requires TradeFits(t) && !TradeExists(st, t.id) && UserExists(st, t.userId)
    ensures TradesValid(st.(trades := st.trades + [t], nextTradeId := next))
  {
    var st' := st.(trades := st.trades + [t], nextTradeId := next);
    var n := |st.trades|;
    assert forall x :: UserExists(st', x) == UserExists(st, x);
    forall i, j | 0 <= i < j < |st'.trades| ensures st'.trades[i].id != st'.trades[j].id {
      assert st'.trades[i] == st.trades[i];
      if j < n {
        assert st'.trades[j] == st.trades[j];
      }
    }
    forall i | 0 <= i < |st'.trades| ensures TradeFits(st'.trades[i]) && UserExists(st', st'.trades[i].userId) {
      if i < n {
        assert st'.trades[i] == st.trades[i];
      }
    }
  }

  /** With the users and activities unchanged, the activities stay valid
      as long as every trade an activity refers to still exists. */
  lemma TradesGrowKeepsActivities(st: Store, st': Store)
    requires UsersValid(st) && ActivitiesValid(st)
    requires st'.users == st.users && st'.activities == st.activities
    requires st'.nextUserId == st.nextUserId && st'.nextActivityId == st.nextActivityId
    requires forall k :: TradeExists(st, k) && Referenced(st, k) ==> TradeExists(st', k)
    ensures UsersValid(st') && ActivitiesValid(st')
  {
    assert forall x :: UserExists(st', x) == UserExists(st, x);
    forall i | 0 <= i < |st'.activities| && st'.activities[i].tradeId.Some?
      ensures TradeExists(st', st'.activities[i].tradeId.value)
    {
      assert Referenced(st, st.activities[i].tradeId.value);
    }
  }

  /** Rewriting the trades keeps the store consistent when the new rows
      have distinct ids, fit their columns, belong to existing users, and
      still carry every id an activity refers to. */
  lemma RewriteTradesKeepsConsistent(st: Store, st': Store)
    requires Consistent(st)
    requires st' == st.(trades := st'.trades)
    requires forall i, j :: 0 <= i < j < |st'.trades| ==> st'.trades[i].id != st'.trades[j].id
    requires forall i :: 0 <= i < |st'.trades| ==> TradeFits(st'.trades[i]) && UserExists(st, st'.trades[i].userId)
    requires forall k :: TradeExists(st, k) && Referenced(st, k) ==> TradeExists(st', k)
    ensures Consistent(st')
  {
    assert forall x :: UserExists(st', x) == UserExists(st, x);
    assert TradesValid(st');
    TradesGrowKeepsActivities(st, st');
  }

  lemma UpdateTradeKeepsValid(st: Store, id: int, f: TradeFields)
    requires Consistent(st)
    ensures Consistent(UpdateTrade(st, id, f).store)
  {
    var r := UpdateTrade(st, id, f);
    if r.Ok? && TradeExists(st, id) {
      var st' := r.store;
      var g := Rounded(f);
      var newId := GivenOr(f.id, id);
      forall i | 0 <= i < |st.trades|
        ensures TradeFits(st'.trades[i]) && UserExists(st, st'.trades[i].userId)
        ensures st'.trades[i].id == if st.trades[i].id == id then newId else st.trades[i].id
      {
        if st.trades[i].id == id {
          PatchedFits(st.trades[i], f);
        }
      }
      forall i, j | 0 <= i < j < |st'.trades| ensures st'.trades[i].id != st'.trades[j].id {
        if st.trades[i].id == id && MovesId(id, f) {
          assert st.trades[j].id != newId;
        } else if st.trades[j].id == id && MovesId(id, f) {
          assert st.trades[i].id != newId;
        }
      }
      forall k | TradeExists(st, k) && Referenced(st, k) ensures TradeExists(st', k) {
        var i :| 0 <= i < |st.trades| && st.trades[i].id == k;
        assert st'.trades[i].id == k;
      }
      RewriteTradesKeepsConsistent(st, st');
    } else {
      assert r.store == st;
    }
  }

  lemma CloseTradeKeepsValid(st: Store, id: int, now: int)
    requires Consistent(st)
    ensures Consistent(CloseTrade(st, id, now).1)
  {
    ClosingIsRowwise(st, id, now);
    RowwiseRewriteKeepsConsistent(st, CloseTrade(st, id, now).1);
  }

  /** Closing rewrites rows only in their status columns. */
  lemma ClosingIsRowwise(st: Store, id: int, now: int)
    ensures var st' := CloseTrade(st, id, now).1;
      && st' == st.(trades := st'.trades) && |st'.trades| == |st.trades|
      && forall i :: 0 <= i < |st.trades| ==>
           st'.trades[i].(isActive := st.trades[i].isActive, closedAt := st.trades[i].closedAt) == st.trades[i]
  {
  }

  /** Rewriting trade rows one by one, leaving every number, id and owner
      as it was, keeps the store consistent. */
  lemma RowwiseRewriteKeepsConsistent(st: Store, st': Store)
    requires Consistent(st)
    requires st' == st.(trades := st'.trades) && |st'.trades| == |st.trades|
    requires forall i :: 0 <= i < |st.trades| ==>
      st'.trades[i].(isActive := st.trades[i].isActive, closedAt := st.trades[i].closedAt) == st.trades[i]
    ensures Consistent(st')
  {
    forall i | 0 <= i < |st.trades|
      ensures st'.trades[i].id == st.trades[i].id && st'.trades[i].userId == st.trades[i].userId
      ensures TradeFits(st'.trades[i])
    {
      var t := st'.trades[i];
      assert t.(isActive := st.trades[i].isActive, closedAt := st.trades[i].closedAt) == st.trades[i];
    }
    forall k | TradeExists(st, k) ensures TradeExists(st', k) {
      var i :| 0 <= i < |st.trades| && st.trades[i].id == k;
      assert st'.trades[i].id == k;
    }
    RewriteTradesKeepsConsistent(st, st');
  }

  lemma CreateActivityKeepsValid(st: Store, a: Activity)
    requires Consistent(st)
    ensures Consistent(CreateTradeActivity(st, a).store)
  {
    var r := CreateTradeActivity(st, a);
    if r.Ok? {
      assert r.value.id == st.nextActivityId && r.value.userId == a.userId && r.value.tradeId == a.tradeId;
      AppendActivityKeepsConsistent(st, r.value);
    } else {
      CountersKeepConsistent(st, r.store);
    }
  }

  /** A fitting activity row under the next serial id, naming an existing
      user and, if any, an existing trade, keeps the store consistent. */
  lemma AppendActivityKeepsConsistent(st: Store, a: Activity)
    requires Consistent(st)
    requires ActivityFits(a) && a.id == st.nextActivityId
    requires UserExists(st, a.userId) && (a.tradeId.Some? ==> TradeExists(st, a.tradeId.value))
    ensures Consistent(st.(activities := st.activities + [a], nextActivityId := st.nextActivityId + 1))
  {
    var st' := st.(activities := st.activities + [a], nextActivityId := st.nextActivityId + 1);
    assert forall x :: UserExists(st', x) == UserExists(st, x);
    assert UsersValid(st') && TradesValid(st');
    AppendActivityValid(st, a);
  }

  lemma AppendActivityValid(st: Store, a: Activity)
    requires ActivitiesValid(st)
    requires ActivityFits(a) && a.id == st.nextActivityId
    requires UserExists(st, a.userId) && (a.tradeId.Some? ==> TradeExists(st, a.tradeId.value))
    ensures ActivitiesValid(st.(activities := st.activities + [a], nextActivityId := st.nextActivityId + 1))
  {
    var st' := st.(activities := st.activities + [a], nextActivityId := st.nextActivityId + 1);
    var n := |st.activities|;
    assert forall x :: UserExists(st', x) == UserExists(st, x);
    assert forall x :: TradeExists(st', x) == TradeExists(st, x);
    forall i, j | 0 <= i < j < |st'.activities| ensures st'.activities[i].id != st'.activities[j].id {
      assert st'.activities[i] == st.activities[i];
      assert st.activities[i].id < st.nextActivityId;
      if j < n {
        assert st'.activities[j] == st.activities[j];
      }
    }
    forall i | 0 <= i < |st'.activities|
      ensures ActivityFits(st'.activities[i]) && st'.activities[i].id < st'.nextActivityId
      ensures UserExists(st', st'.activities[i].userId)
      ensures st'.activities[i].tradeId.Some? ==> TradeExists(st', st'.activities[i].tradeId.value)
    {
      if i < n {
        assert st'.activities[i] == st.activities[i];
      }
    }
  }

  /** Rewriting users in place, keeping their ids and their usernames
      distinct, keeps the store consistent. */
  lemma RewriteUsersKeepsConsistent(st: Store, st': Store)
    requires Consistent(st)
    requires st'.trades == st.trades && st'.activities == st.activities
    requires st'.nextUserId == st.nextUserId && st'.nextActivityId == st.nextActivityId
    requires |st'.users| == |st.users|
    requires forall i :: 0 <= i < |st.users| ==> st'.users[i].id == st.users[i].id
    requires forall i, j :: 0 <= i < j < |st'.users| ==> st'.users[i].username != st'.users[j].username
    ensures Consistent(st')
  {
    UsersKept(st, st');
    assert forall i, j :: 0 <= i < j < |st'.users| ==> st'.users[i].id != st'.users[j].id by {
      forall i, j | 0 <= i < j < |st'.users| ensures st'.users[i].id != st'.users[j].id {
        assert st.users[i].id != st.users[j].id;
      }
    }
    assert forall i :: 0 <= i < |st'.users| ==> IsInt4(st'.users[i].id) && st'.users[i].id < st'.nextUserId;
    assert UsersValid(st');
    UsersGrowKeepsReferences(st, st');
  }

  lemma UsersKept(st: Store, st': Store)
    requires |st'.users| == |st.users|
    requires forall i :: 0 <= i < |st.users| ==> st'.users[i].id == st.users[i].id
    ensures forall k :: UserExists(st, k) ==> UserExists(st', k)
  {
    forall k | UserExists(st, k) ensures UserExists(st', k) {
      var i :| 0 <= i < |st.users| && st.users[i].id == k;
      assert st'.users[i].id == k;
    }
  }

  lemma UpdateUserKeepsValid(st: Store, id: int, username: TextField, password: Option<string>)
    requires Consistent(st)
    ensures Consistent(UpdateUser(st, id, username, password).store)
  {
    var r := UpdateUser(st, id, username, password);
    if r.Ok? && r.value.Some? {
      var name := r.value.value.username;
      assert username.Given? ==> !UsernameTaken(st, name, id);
      forall i, j | 0 <= i < j < |r.store.users| ensures r.store.users[i].username != r.store.users[j].username {
        if st.users[i].id == id {
          assert st.users[j].id != id;
        } else if st.users[j].id == id {
        }
      }
      RewriteUsersKeepsConsistent(st, r.store);
    } else {
      assert r.store == st;
    }
  }
}
