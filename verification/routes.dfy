/** The REST handlers under `/api`. Each takes the store, the session's user
    id (`None` when nobody is logged in) and the request, and yields the
    response and the store after it. `now` stands for every clock read
    during the request. */
module Routes {
  import opened Common
  import opened Numbers
  import opened Schema
  import opened Storage

  /** A user as the profile route returns it: without the password. */
  datatype PublicUser = PublicUser(id: int, username: string, createdAt: int)

  datatype Body =
    | Message(text: string)
    | TradeJson(trade: Trade)
    | TradeListJson(trades: seq<Trade>)
    | ActivityListJson(activities: seq<Activity>)
    | UserJson(user: PublicUser)
    | Empty                                    // `res.json(undefined)`

  datatype Response = Response(status: int, body: Body)

  datatype Outcome = Outcome(response: Response, store: Store)

  /** The answer of the `isAuthenticated` guard. */
  const Unauthorized: Response := Response(401, Message("Unauthorized"))

  function ServerError(message: string, st: Store): (o: Outcome)
    ensures o.response.status == 500 && o.store == st
  {
    Outcome(Response(500, Message(message)), st)
  }

  /** The activity row a handler records; the store assigns its id. */
  function TradeActivity(u: int, tradeId: int, kind: string, symbol: string, price: Decimal,
                         amount: Decimal, status: string, now: int): Activity
  {
    Activity(0, u, Some(tradeId), kind, symbol, Some(price), Some(amount), Some(status), now)
  }

  // ---------------------------------------------------------------------
  // Request parsing

  /** The trade id in the path: `parseInt` of the text. The query binds it
      as a 32-bit integer, so NaN or a number outside that range makes the
      lookup throw; `None` stands for both. */
  function PathTradeId(path: string): (r: Option<int>)
    ensures r.Some? <==> ParseInt(path).Some? && IsInt4(ParseInt(path).value)
    ensures r.Some? ==> r == ParseInt(path)
  {
    var n := ParseInt(path);
    if n.Some? && IsInt4(n.value) then n else None
  }

  /** A decimal path names the trade with that number, up to the 32-bit
      limit; beyond it the request fails. */
  lemma PathIdReadsDecimal(n: nat)
    ensures PathTradeId(NatToString(n)) == if n <= Int4Max then Some(n) else None
  {
    ParseIntRoundTrip(n);
  }

  /** `parseInt` reads a hexadecimal path too: `/api/trades/0x1f` is trade 31. */
  lemma PathIdReadsHex()
    ensures PathTradeId("0x1f") == Some(31)
  {
    HexRead();
  }

  /** A JSON body carries a timestamp as text, never as a `Date`; the ORM
      calls `toISOString` on it and throws, so a sent timestamp is a value
      its column cannot read. Every other property is passed on as sent. */
  function FromJson(body: TradeFields): (f: TradeFields)
    ensures f.(createdAt := body.createdAt, updatedAt := body.updatedAt, closedAt := body.closedAt) == body
    ensures body.createdAt.Given? ==> f.createdAt.Unreadable?
    ensures body.updatedAt.Given? ==> f.updatedAt.Unreadable?
    ensures body.closedAt.Given? ==> f.closedAt.Unreadable?
    ensures !body.createdAt.Given? && !body.updatedAt.Given? && !body.closedAt.Given? ==> f == body
  {
    body.(createdAt := NoDate(body.createdAt), updatedAt := NoDate(body.updatedAt), closedAt := NoDate(body.closedAt))
  }

  function NoDate(f: Field<int>): Field<int>
  {
    if f.Given? then Unreadable else f
  }

  // ---------------------------------------------------------------------
  // GET /api/trades

  function ListTradesRoute(st: Store, session: Option<int>): (o: Outcome)
    ensures o.store == st
    ensures session.None? <==> o.response == Unauthorized
    ensures session.Some? ==> o.response.status == 200 && o.response.body.TradeListJson?
  {
    match session
    case None => Outcome(Unauthorized, st)
    case Some(u) => Outcome(Response(200, TradeListJson(GetTrades(st, u))), st)
  }

  /** The listing holds exactly the caller's trades, active ones first. */
  lemma ListTradesShowsOwnTrades(st: Store, u: int, t: Trade)
    ensures var listed := ListTradesRoute(st, Some(u)).response.body.trades;
      && (t in listed <==> t in st.trades && t.userId == u)
      && Seqs.Sorted(listed, TradeListOrder())
  {
    GetTradesExactly(st, u, t);
  }

  // ---------------------------------------------------------------------
  // POST /api/trades

  /** The body as stored: the owner, the active flag and the creation time
      are forced, whatever the client sent. */
  function Posted(body: TradeFields, u: int, now: int): (f: TradeFields)
    ensures f.userId == Given(u) && f.isActive == Given(true) && f.createdAt == Given(now)
    ensures f.(userId := body.userId, isActive := body.isActive, createdAt := body.createdAt) == body
  {
    body.(userId := Given(u), isActive := Given(true), createdAt := Given(now))
  }

  /** What a posted body must hold for the insert to go through whatever
      the store: the four required columns, no `updatedAt` (a timestamp
      cannot be sent, and null is refused), no closing time other than
      null, an id (if any) that is a 32-bit integer, and amounts that read
      as numbers within their columns' precision. */
  predicate WellFormedPost(body: TradeFields)
  {
    && body.symbol.Given? && body.entryPrice.Given? && body.position.Given? && body.quantity.Given?
    && body.updatedAt.Absent? && (body.closedAt.Absent? || body.closedAt.Null?)
    && (body.id.Absent? || (body.id.Given? && IsInt4(body.id.value)))
    && AmountsReadable(body) && AmountsInRange(body)
  }

  /** The activity row that records a new trade. */
  function StartedActivity(u: int, t: Trade, now: int): Activity
  {
    TradeActivity(u, t.id, "Trade Started", t.symbol, t.entryPrice, t.quantity, "Completed", now)
  }

  function CreateTradeRoute(st: Store, session: Option<int>, body: TradeFields, now: int): (o: Outcome)
    ensures session.None? <==> o == Outcome(Unauthorized, st)
    ensures o.response.status in {401, 201, 500}
    ensures o.response.status == 500 ==> o.store.users == st.users && o.store.activities == st.activities
    ensures o.response.status == 201 <==>
      && session.Some? && UserExists(st, session.value) && IsInt4(session.value)
      && WellFormedPost(body)
      && (body.id.Absent? ==> st.nextTradeId <= Int4Max) && !TradeExists(st, NewTradeId(st, body))
      && st.nextActivityId <= Int4Max && !ActivityExists(st, st.nextActivityId)
  {
    match session
    case None => Outcome(Unauthorized, st)
    case Some(u) =>
      var f := Posted(FromJson(body), u, now);
      PostedTrade(st, u, body, now);
      match CreateTrade(st, f, now)
      case Fail(_, st1) => ServerError("Failed to create trade", st1)
      case Ok(trade, st1) =>
        assert st1.trades[|st.trades|] == trade;
        StartedRecorded(st, st1, u, trade, now);
        match CreateTradeActivity(st1, StartedActivity(u, trade, now))
        case Fail(_, st2) => ServerError("Failed to create trade", st2)
        case Ok(_, st2) => Outcome(Response(201, TradeJson(trade)), st2)
  }

  /** The insert of a posted trade goes through exactly for a well-formed
      post by an existing caller whose row id is free, and touches neither
      the users nor the activities. */
  lemma PostedTrade(st: Store, u: int, body: TradeFields, now: int)
    ensures var r := CreateTrade(st, Posted(FromJson(body), u, now), now);
      && (r.Ok? <==>
            && UserExists(st, u) && IsInt4(u) && WellFormedPost(body)
            && (body.id.Absent? ==> st.nextTradeId <= Int4Max) && !TradeExists(st, NewTradeId(st, body)))
      && r.store.users == st.users && r.store.activities == st.activities
      && r.store.nextActivityId == st.nextActivityId
  {
    var f := Posted(FromJson(body), u, now);
    PostedChecks(body, u, now);
    assert NewTradeId(st, f) == NewTradeId(st, body);
  }

  /** The column checks of the insert pass on a posted body exactly when
      the caller's id is a 32-bit integer and the post is well formed. */
  lemma PostedChecks(body: TradeFields, u: int, now: int)
    ensures var f := Posted(FromJson(body), u, now);
      && f.id == body.id && f.userId == Given(u)
      && (Readable(f) && InRange(f) && InsertFits(f) <==> IsInt4(u) && WellFormedPost(body))
  {
  }

  /** After the insert, the "Trade Started" activity is recorded exactly
      when the next activity id is still available; the users are kept and
      a refused activity adds no row. */
  lemma StartedRecorded(st: Store, st1: Store, u: int, trade: Trade, now: int)
    requires st1.users == st.users && st1.activities == st.activities
    requires st1.nextActivityId == st.nextActivityId
    requires UserExists(st, u) && IsInt4(u)
    requires TradeFits(trade) && 0 <= |st.trades| < |st1.trades| && st1.trades[|st.trades|] == trade
    ensures var r := CreateTradeActivity(st1, StartedActivity(u, trade, now));
      && (r.Ok? <==> st.nextActivityId <= Int4Max && !ActivityExists(st, st.nextActivityId))
      && r.store.users == st.users
      && (r.Fail? ==> r.store.activities == st.activities)
  {
    assert TradeExists(st1, trade.id);
    assert forall k :: ActivityExists(st1, k) == ActivityExists(st, k);
    FitColumnKeeps(trade.entryPrice, PriceType);
    FitColumnKeeps(trade.quantity, QuantityType);
  }

  /** A created trade belongs to the caller, is active, carries the request
      time, takes the id the body names or else the next serial value, and
      is recorded by exactly one "Trade Started" activity, which from then
      on refers to it. */
  lemma CreatedTradeBelongsToCaller(st: Store, u: int, body: TradeFields, now: int)
    requires CreateTradeRoute(st, Some(u), body, now).response.status == 201
    ensures var o := CreateTradeRoute(st, Some(u), body, now);
      var t := o.response.body.trade;
      && o.response.body.TradeJson?
      && t.userId == u && t.isActive && t.createdAt == now && t.updatedAt == now && t.closedAt.None?
      && t.id == NewTradeId(st, body)
      && t.symbol == body.symbol.value && t.position == body.position.value
      && o.store.trades == st.trades + [t]
      && o.store.users == st.users
      && o.store.nextTradeId == (if body.id.Absent? then st.nextTradeId + 1 else st.nextTradeId)
      && o.store.activities == st.activities +
           [Activity(st.nextActivityId, u, Some(t.id), "Trade Started", t.symbol, Some(t.entryPrice),
                     Some(t.quantity), Some("Completed"), now)]
      && Referenced(o.store, t.id)
  {
    var o := CreateTradeRoute(st, Some(u), body, now);
    var t := o.response.body.trade;
    assert o.store.activities[|st.activities|].tradeId == Some(t.id);
  }

  /** A post that the NOT NULL check refuses has drawn its serial value all
      the same: the answer is 500, no row is added, and the next trade
      posted gets the number after the lost one. */
  lemma GapAfterFailedPost(st: Store, u: int, body: TradeFields, good: TradeFields, now1: int, now2: int)
    requires UserExists(st, u) && IsInt4(u)
    requires st.nextTradeId <= Int4Max
    requires body.id.Absent? && body.position.Absent? && body.updatedAt.Absent? && body.closedAt.Absent?
    requires AmountsReadable(body) && AmountsInRange(body)
    ensures var o := CreateTradeRoute(st, Some(u), body, now1);
      && o.response.status == 500
      && o.store == st.(nextTradeId := st.nextTradeId + 1)
    ensures var o := CreateTradeRoute(st, Some(u), body, now1);
      var o2 := CreateTradeRoute(o.store, Some(u), good, now2);
      o2.response.status == 201 && good.id.Absent? ==>
        o2.response.body.TradeJson? && o2.response.body.trade.id == st.nextTradeId + 1
  {
    FailedPostDrawsId(st, u, body, now1);
    var o := CreateTradeRoute(st, Some(u), body, now1);
    var o2 := CreateTradeRoute(o.store, Some(u), good, now2);
    if o2.response.status == 201 && good.id.Absent? {
      CreatedTradeBelongsToCaller(o.store, u, good, now2);
    }
  }

  lemma FailedPostDrawsId(st: Store, u: int, body: TradeFields, now: int)
    requires IsInt4(u)
    requires st.nextTradeId <= Int4Max
    requires body.id.Absent? && body.position.Absent? && body.updatedAt.Absent? && body.closedAt.Absent?
    requires AmountsReadable(body) && AmountsInRange(body)
    ensures CreateTradeRoute(st, Some(u), body, now) ==
      ServerError("Failed to create trade", st.(nextTradeId := st.nextTradeId + 1))
  {
    var f := Posted(FromJson(body), u, now);
    assert Readable(f) && InRange(f) && f.id.Absent? && !InsertFits(f) by {
      assert f == body.(userId := Given(u), isActive := Given(true), createdAt := Given(now));
    }
    NotNullDrawsId(st, f, now);
  }

  /** A readable row without a value for a NOT NULL column fails only after
      its serial value is drawn. */
  lemma NotNullDrawsId(st: Store, f: TradeFields, now: int)
    requires Readable(f) && InRange(f) && f.id.Absent? && !InsertFits(f)
    requires st.nextTradeId <= Int4Max
    ensures CreateTrade(st, f, now) == Fail(NotNullViolation, st.(nextTradeId := st.nextTradeId + 1))
  {
  }

  /** A trade posted with the id the sequence will hand out next succeeds,
      and then the next trade posted without an id collides with it: the
      answer is 500 and the serial value is spent. */
  lemma ExplicitIdBlocksNextSerial(st: Store, u: int, a: TradeFields, b: TradeFields, now1: int, now2: int)
    requires Consistent(st) && UserExists(st, u)
    requires st.nextTradeId <= Int4Max && st.nextActivityId < Int4Max
    requires WellFormedPost(a) && a.id == Given(st.nextTradeId as int) && !TradeExists(st, st.nextTradeId)
    requires WellFormedPost(b) && b.id.Absent?
    ensures var o1 := CreateTradeRoute(st, Some(u), a, now1);
      var o2 := CreateTradeRoute(o1.store, Some(u), b, now2);
      && o1.response.status == 201
      && o2.response.status == 500
      && o2.store.trades == o1.store.trades
      && o2.store.nextTradeId == st.nextTradeId + 1
  {
    var i :| 0 <= i < |st.users| && st.users[i].id == u;
    assert IsInt4(u);
    NextActivityIdFree(st);
    assert NewTradeId(st, a) == st.nextTradeId;
    CreatedTradeBelongsToCaller(st, u, a, now1);
    var o1 := CreateTradeRoute(st, Some(u), a, now1);
    assert o1.store.trades[|st.trades|].id == st.nextTradeId;
    CollidingPostDrawsId(o1.store, u, b, now2);
  }

  /** A post without an id, when the next serial value is already a trade's
      id, draws that value and fails on the unique key. */
  lemma CollidingPostDrawsId(st: Store, u: int, b: TradeFields, now: int)
    requires IsInt4(u) && st.nextTradeId <= Int4Max && TradeExists(st, st.nextTradeId)
    requires WellFormedPost(b) && b.id.Absent?
    ensures CreateTradeRoute(st, Some(u), b, now) ==
      ServerError("Failed to create trade", st.(nextTradeId := st.nextTradeId + 1))
  {
    var f := Posted(FromJson(b), u, now);
    assert f == b.(userId := Given(u), isActive := Given(true), createdAt := Given(now));
    assert Readable(f) && InRange(f) && DrawsTradeId(st, f) && InsertFits(f);
    assert NewTradeId(st, f) == st.nextTradeId;
  }

  // ---------------------------------------------------------------------
  // PATCH /api/trades/:id

  function UpdateTradeRoute(st: Store, session: Option<int>, path: string, body: TradeFields, now: int): (o: Outcome)
    ensures session.None? <==> o == Outcome(Unauthorized, st)
    ensures session.Some? && PathTradeId(path).None? ==> o.response.status == 500 && o.store == st
    ensures o.response.status == 404 <==>
      session.Some? && PathTradeId(path).Some? && !TradeExists(st, PathTradeId(path).value)
    ensures o.response.status == 403 <==>
      && session.Some? && PathTradeId(path).Some? && TradeExists(st, PathTradeId(path).value)
      && GetTradeById(st, PathTradeId(path).value).value.userId != session.value
    ensures o.response.status in {401, 404, 403, 500, 200}
    ensures o.response.status in {401, 404, 403} ==> o.store == st
    ensures o.response.status == 200 ==> Patchable(st, PathTradeId(path).value, FromJson(body))
  {
    match session
    case None => Outcome(Unauthorized, st)
    case Some(u) =>
      match PathTradeId(path)
      case None => ServerError("Failed to update trade", st)
      case Some(id) =>
        match GetTradeById(st, id)
        case None => Outcome(Response(404, Message("Trade not found")), st)
        case Some(trade) =>
          if trade.userId != u then Outcome(Response(403, Message("Not authorized to update this trade")), st)
          else OwnerUpdate(st, u, id, trade, FromJson(body), now)
  }

  /** The owner's PATCH once the trade is found: the update, then the
      "Trade Modified" activity at the price known before it; a failure of
      either is a 500 that keeps whatever was already written. */
  function OwnerUpdate(st: Store, u: int, id: int, trade: Trade, f: TradeFields, now: int): (o: Outcome)
    ensures o.response.status in {500, 200}
    ensures o.response.status == 200 ==> Patchable(st, id, f)
  {
    match UpdateTrade(st, id, f)
    case Fail(_, st1) => ServerError("Failed to update trade", st1)
    case Ok(updated, st1) =>
      var modified := TradeActivity(u, id, "Trade Modified", trade.symbol, LastKnownPrice(trade),
        trade.quantity, "Updated", now);
      match CreateTradeActivity(st1, modified)
      case Fail(_, st2) => ServerError("Failed to update trade", st2)
      case Ok(_, st2) =>
        Outcome(Response(200, if updated.Some? then TradeJson(updated.value) else Empty), st2)
  }

  /** In a consistent store, an existing trade is the row found under its
      id, its owner exists, its values (the last known price among them)
      fit their columns, and the next activity id is free. */
  lemma TradeValuesFit(st: Store, id: int, i: int)
    requires Consistent(st)
    requires 0 <= i < |st.trades| && st.trades[i].id == id
    ensures GetTradeById(st, id) == Some(st.trades[i])
    ensures UserExists(st, st.trades[i].userId) && TradeFits(st.trades[i])
    ensures Fits(LastKnownPrice(st.trades[i]), PriceType)
    ensures !ActivityExists(st, st.nextActivityId)
  {
    FindTradeUnique(st, id, i);
    NextActivityIdFree(st);
  }

  /** The owner's update answers 200 exactly when the patch goes through
      and keeps the trade's id, and then records one "Trade Modified"
      activity priced at the trade's last known price before the update.
      A refused patch changes nothing; a patch that moves the id is written
      but the activity that names the old id is refused, so the answer is
      500 with the trade changed. */
  lemma UpdateTradeRouteByOwner(st: Store, u: int, path: string, id: int, body: TradeFields, now: int)
    requires Consistent(st)
    requires PathTradeId(path) == Some(id)
    requires TradeExists(st, id) && GetTradeById(st, id).value.userId == u
    requires st.nextActivityId <= Int4Max
    ensures var o := UpdateTradeRoute(st, Some(u), path, body, now);
      var b := FromJson(body);
      var prev := GetTradeById(st, id).value;
      && o.response.status in {200, 500}
      && (o.response.status == 200 <==> Patchable(st, id, b) && !MovesId(id, b))
      && (!Patchable(st, id, b) ==> o.store == st)
      && (Patchable(st, id, b) ==> o.store.trades == UpdateTrade(st, id, b).store.trades)
      && (o.response.status == 200 ==>
            && o.response.body == TradeJson(Patched(prev, Rounded(b)))
            && o.store.activities == st.activities +
                 [Activity(st.nextActivityId, u, Some(id), "Trade Modified", prev.symbol,
                           Some(LastKnownPrice(prev)), Some(prev.quantity), Some("Updated"), now)])
  {
    var i :| 0 <= i < |st.trades| && st.trades[i].id == id;
    TradeValuesFit(st, id, i);
    UpdatesOwnedTrade(st, u, path, id, body, now, i);
  }

  /** The owner's PATCH of an existing trade, with the path's id read. */
  lemma UpdatesOwnedTrade(st: Store, u: int, path: string, id: int, body: TradeFields, now: int, i: int)
    requires PathTradeId(path) == Some(id)
    requires 0 <= i < |st.trades| && st.trades[i].id == id && st.trades[i].userId == u
    requires forall j :: 0 <= j < |st.trades| && j != i ==> st.trades[j].id != id
    requires GetTradeById(st, id) == Some(st.trades[i])
    requires UserExists(st, u) && TradeFits(st.trades[i])
    requires Fits(LastKnownPrice(st.trades[i]), PriceType)
    requires st.nextActivityId <= Int4Max && !ActivityExists(st, st.nextActivityId)
    ensures var o := UpdateTradeRoute(st, Some(u), path, body, now);
      var b := FromJson(body);
      var prev := st.trades[i];
      && o.response.status in {200, 500}
      && (o.response.status == 200 <==> Patchable(st, id, b) && !MovesId(id, b))
      && (!Patchable(st, id, b) ==> o.store == st)
      && (Patchable(st, id, b) ==> o.store.trades == UpdateTrade(st, id, b).store.trades)
      && (o.response.status == 200 ==>
            && o.response.body == TradeJson(Patched(prev, Rounded(b)))
            && o.store.activities == st.activities +
                 [Activity(st.nextActivityId, u, Some(id), "Trade Modified", prev.symbol,
                           Some(LastKnownPrice(prev)), Some(prev.quantity), Some("Updated"), now)])
  {
    assert UpdateTradeRoute(st, Some(u), path, body, now) == OwnerUpdate(st, u, id, st.trades[i], FromJson(body), now);
    OwnerUpdateOfRow(st, u, id, FromJson(body), now, i);
  }

  /** The owner's update, from no more of the store than the row, the
      uniqueness of its id, its owner and a free activity id. */
  lemma OwnerUpdateOfRow(st: Store, u: int, id: int, b: TradeFields, now: int, i: int)
    requires 0 <= i < |st.trades| && st.trades[i].id == id && st.trades[i].userId == u
    requires forall j :: 0 <= j < |st.trades| && j != i ==> st.trades[j].id != id
    requires GetTradeById(st, id) == Some(st.trades[i])
    requires UserExists(st, u) && TradeFits(st.trades[i])
    requires Fits(LastKnownPrice(st.trades[i]), PriceType)
    requires st.nextActivityId <= Int4Max && !ActivityExists(st, st.nextActivityId)
    ensures var prev := st.trades[i];
      var o := OwnerUpdate(st, u, id, prev, b, now);
      && (o.response.status == 200 <==> Patchable(st, id, b) && !MovesId(id, b))
      && (!Patchable(st, id, b) ==> o.store == st)
      && (Patchable(st, id, b) ==> o.store.trades == UpdateTrade(st, id, b).store.trades)
      && (o.response.status == 200 ==>
            && o.response.body == TradeJson(Patched(prev, Rounded(b)))
            && o.store.activities == st.activities +
                 [Activity(st.nextActivityId, u, Some(id), "Trade Modified", prev.symbol,
                           Some(LastKnownPrice(prev)), Some(prev.quantity), Some("Updated"), now)])
  {
    assert TradeExists(st, id);
    if !Patchable(st, id, b) {
      assert UpdateTrade(st, id, b).Fail?;
    } else if MovesId(id, b) {
      OwnerUpdateMovingId(st, u, id, b, now, i);
    } else {
      OwnerUpdateRecorded(st, u, id, b, now, i);
    }
  }

  /** A patch that moves the row to a new id is written, but the activity
      that names the old id then breaks its foreign key: a 500. */
  lemma OwnerUpdateMovingId(st: Store, u: int, id: int, b: TradeFields, now: int, i: int)
    requires 0 <= i < |st.trades| && st.trades[i].id == id
    requires forall j :: 0 <= j < |st.trades| && j != i ==> st.trades[j].id != id
    requires Patchable(st, id, b) && MovesId(id, b)
    ensures var o := OwnerUpdate(st, u, id, st.trades[i], b, now);
      o.response.status == 500 && o.store.trades == UpdateTrade(st, id, b).store.trades
  {
    var prev := st.trades[i];
    MovingIdFreesOldId(st, id, b, i);
    var st1 := UpdateTrade(st, id, b).store;
    var modified := TradeActivity(u, id, "Trade Modified", prev.symbol, LastKnownPrice(prev),
      prev.quantity, "Updated", now);
    assert CreateTradeActivity(st1, modified).Fail?;
  }

  /** After a patch that moves the row to a new id, no row has the old id. */
  lemma MovingIdFreesOldId(st: Store, id: int, b: TradeFields, i: int)
    requires 0 <= i < |st.trades| && st.trades[i].id == id
    requires forall j :: 0 <= j < |st.trades| && j != i ==> st.trades[j].id != id
    requires Patchable(st, id, b) && MovesId(id, b)
    ensures UpdateTrade(st, id, b).Ok? && !TradeExists(UpdateTrade(st, id, b).store, id)
  {
    assert TradeExists(st, id);
    var st1 := UpdateTrade(st, id, b).store;
    forall j | 0 <= j < |st1.trades| ensures st1.trades[j].id != id {
    }
  }

  /** A patch that keeps the id is written and its activity recorded. */
  lemma OwnerUpdateRecorded(st: Store, u: int, id: int, b: TradeFields, now: int, i: int)
    requires 0 <= i < |st.trades| && st.trades[i].id == id && st.trades[i].userId == u
    requires GetTradeById(st, id) == Some(st.trades[i])
    requires UserExists(st, u) && TradeFits(st.trades[i])
    requires Fits(LastKnownPrice(st.trades[i]), PriceType)
    requires st.nextActivityId <= Int4Max && !ActivityExists(st, st.nextActivityId)
    requires Patchable(st, id, b) && !MovesId(id, b)
    ensures var prev := st.trades[i];
      var o := OwnerUpdate(st, u, id, prev, b, now);
      && o.response.status == 200
      && o.store.trades == UpdateTrade(st, id, b).store.trades
      && o.response.body == TradeJson(Patched(prev, Rounded(b)))
      && o.store.activities == st.activities +
           [Activity(st.nextActivityId, u, Some(id), "Trade Modified", prev.symbol,
                     Some(LastKnownPrice(prev)), Some(prev.quantity), Some("Updated"), now)]
  {
    assert TradeExists(st, id);
    var prev := st.trades[i];
    var r := UpdateTrade(st, id, b);
    var st1 := r.store;
    assert st1.users == st.users && st1.activities == st.activities;
    var modified := TradeActivity(u, id, "Trade Modified", prev.symbol, LastKnownPrice(prev),
      prev.quantity, "Updated", now);
    assert st1.trades[i].id == id;
    assert TradeExists(st1, id);
    RecordActivity(st1, modified);
  }

  /** Once an activity refers to a trade, a PATCH by its owner that would
      change the trade's id is refused and changes nothing. Every trade
      created through the API is referred to from the start. */
  lemma IdChangeRefused(st: Store, u: int, path: string, id: int, k: int, now: int)
    requires Consistent(st)
    requires PathTradeId(path) == Some(id)
    requires TradeExists(st, id) && GetTradeById(st, id).value.userId == u
    requires k != id && Referenced(st, id)
    ensures var o := UpdateTradeRoute(st, Some(u), path, NoFields.(id := Given(k)), now);
      o.response.status == 500 && o.store == st
  {
    var body := NoFields.(id := Given(k));
    assert FromJson(body) == body;
    assert !Patchable(st, id, body);
  }

  // ---------------------------------------------------------------------
  // POST /api/trades/:id/stop

  function StopTradeRoute(st: Store, session: Option<int>, path: string, now: int): (o: Outcome)
    ensures session.None? <==> o == Outcome(Unauthorized, st)
    ensures session.Some? && PathTradeId(path).None? ==> o.response.status == 500 && o.store == st
    ensures o.response.status == 404 <==>
      session.Some? && PathTradeId(path).Some? && !TradeExists(st, PathTradeId(path).value)
    ensures o.response.status == 403 <==>
      && session.Some? && PathTradeId(path).Some? && TradeExists(st, PathTradeId(path).value)
      && GetTradeById(st, PathTradeId(path).value).value.userId != session.value
    ensures o.response.status in {401, 404, 403, 500, 200}
    ensures o.response.status in {401, 404, 403} ==> o.store == st
  {
    match session
    case None => Outcome(Unauthorized, st)
    case Some(u) =>
      match PathTradeId(path)
      case None => ServerError("Failed to stop trade", st)
      case Some(id) =>
        match GetTradeById(st, id)
        case None => Outcome(Response(404, Message("Trade not found")), st)
        case Some(trade) =>
          if trade.userId != u then Outcome(Response(403, Message("Not authorized to stop this trade")), st)
          else
            var (stopped, st1) := CloseTrade(st, id, now);
            var closing := TradeActivity(u, id, "Trade Stopped", trade.symbol, LastKnownPrice(trade),
              trade.quantity, "Closed", now);
            match CreateTradeActivity(st1, closing)
            case Fail(_, st2) => ServerError("Failed to stop trade", st2)
            case Ok(_, st2) =>
              Outcome(Response(200, if stopped.Some? then TradeJson(stopped.value) else Empty), st2)
  }

  /** The owner can always stop a trade, whether or not it is still active:
      the trade is closed at `now` and exactly one "Trade Stopped" activity
      is appended. */
  lemma StopTradeRouteByOwner(st: Store, u: int, path: string, id: int, now: int)
    requires Consistent(st)
    requires PathTradeId(path) == Some(id)
    requires TradeExists(st, id) && GetTradeById(st, id).value.userId == u
    requires st.nextActivityId <= Int4Max
    ensures var o := StopTradeRoute(st, Some(u), path, now);
      var prev := GetTradeById(st, id).value;
      && o.response.status == 200
      && o.response.body == TradeJson(prev.(isActive := false, closedAt := Some(now)))
      && o.store.trades == CloseTrade(st, id, now).1.trades
      && o.store.users == st.users
      && o.store.activities == st.activities +
           [Activity(st.nextActivityId, u, Some(id), "Trade Stopped", prev.symbol,
                     Some(LastKnownPrice(prev)), Some(prev.quantity), Some("Closed"), now)]
      && o.store.nextActivityId == st.nextActivityId + 1
  {
    var i :| 0 <= i < |st.trades| && st.trades[i].id == id;
    TradeValuesFit(st, id, i);
    StopsOwnedTrade(st, u, path, id, now, i);
  }

  /** The step of the owner's stop that needs no more of the store than
      the row, its owner and a free activity id. */
  lemma StopsOwnedTrade(st: Store, u: int, path: string, id: int, now: int, i: int)
    requires PathTradeId(path) == Some(id)
    requires 0 <= i < |st.trades| && st.trades[i].id == id && st.trades[i].userId == u
    requires GetTradeById(st, id) == Some(st.trades[i])
    requires UserExists(st, u) && TradeFits(st.trades[i])
    requires Fits(LastKnownPrice(st.trades[i]), PriceType)
    requires st.nextActivityId <= Int4Max && !ActivityExists(st, st.nextActivityId)
    ensures var o := StopTradeRoute(st, Some(u), path, now);
      var prev := st.trades[i];
      && o.response.status == 200
      && o.response.body == TradeJson(prev.(isActive := false, closedAt := Some(now)))
      && o.store.trades == CloseTrade(st, id, now).1.trades
      && o.store.users == st.users
      && o.store.activities == st.activities +
           [Activity(st.nextActivityId, u, Some(id), "Trade Stopped", prev.symbol,
                     Some(LastKnownPrice(prev)), Some(prev.quantity), Some("Closed"), now)]
      && o.store.nextActivityId == st.nextActivityId + 1
  {
    var prev := st.trades[i];
    var st1 := CloseTrade(st, id, now).1;
    assert st1.trades[i].id == id;
    assert TradeExists(st1, id);
    assert st1.users == st.users && st1.activities == st.activities;
    var closing := TradeActivity(u, id, "Trade Stopped", prev.symbol, LastKnownPrice(prev),
      prev.quantity, "Closed", now);
    RecordActivity(st1, closing);
  }

  /** Stopping a trade twice succeeds twice and records two activities. */
  lemma StopTwiceRecordsTwice(st: Store, u: int, path: string, id: int, now1: int, now2: int)
    requires Consistent(st)
    requires PathTradeId(path) == Some(id)
    requires TradeExists(st, id) && GetTradeById(st, id).value.userId == u
    requires st.nextActivityId < Int4Max
    ensures var o1 := StopTradeRoute(st, Some(u), path, now1);
      var o2 := StopTradeRoute(o1.store, Some(u), path, now2);
      && o1.response.status == 200 && o2.response.status == 200
      && |o2.store.activities| == |st.activities| + 2
  {
    var i :| 0 <= i < |st.trades| && st.trades[i].id == id;
    FindTradeUnique(st, id, i);
    StopTradeRouteByOwner(st, u, path, id, now1);
    var o1 := StopTradeRoute(st, Some(u), path, now1);
    StopTradeRouteKeepsConsistent(st, Some(u), path, now1);
    var after := o1.store;
    assert after.trades[i].id == id && after.trades[i].userId == u;
    assert TradeExists(after, id);
    FindTradeUnique(after, id, i);
    assert after.nextActivityId <= Int4Max;
    StopTradeRouteByOwner(after, u, path, id, now2);
  }

  // ---------------------------------------------------------------------
  // GET /api/trade-activities

  /** `req.query.limit ? parseInt(req.query.limit) : 10`; `None` is NaN. */
  function RequestedLimit(query: Option<string>): (r: Option<int>)
    ensures query.None? || query == Some("") ==> r == Some(DefaultActivityLimit)
    ensures forall n: nat :: query == Some(NatToString(n)) ==> r == Some(n)
  {
    if query.None? || query.value == "" then Some(DefaultActivityLimit)
    else
      assert forall n: nat :: NatToString(n) != "" by {
        forall n: nat ensures |NatToString(n)| >= 1 { }
      }
      assert forall n: nat :: ParseInt(NatToString(n)) == Some(n) by {
        forall n: nat ensures ParseInt(NatToString(n)) == Some(n) { ParseIntRoundTrip(n); }
      }
      ParseInt(query.value)
  }

  /** The activity feed. A limit that is not a number or is negative puts
      no `LIMIT` on the query, so the whole history comes back; only a
      limit beyond the 64-bit range makes the database refuse it. */
  function ActivitiesRoute(st: Store, session: Option<int>, limitQuery: Option<string>): (o: Outcome)
    ensures o.store == st
    ensures session.None? <==> o.response == Unauthorized
    ensures session.Some? ==>
      (o.response.status == 200 <==> !(RequestedLimit(limitQuery).Some? && RequestedLimit(limitQuery).value > Int8Max))
    ensures o.response.status == 200 ==>
      && o.response.body.ActivityListJson?
      && (forall i :: 0 <= i < |o.response.body.activities| ==> o.response.body.activities[i].userId == session.value)
      && Seqs.Sorted(o.response.body.activities, NewestFirst())
    ensures o.response.status == 200 && RequestedLimit(limitQuery).Some? && RequestedLimit(limitQuery).value >= 0 ==>
      |o.response.body.activities| <= RequestedLimit(limitQuery).value
    ensures o.response.status == 200 && (RequestedLimit(limitQuery).None? || RequestedLimit(limitQuery).value < 0) ==>
      multiset(o.response.body.activities) == multiset(Seqs.Filter(st.activities, ByUser(session.value)))
  {
    match session
    case None => Outcome(Unauthorized, st)
    case Some(u) =>
      match GetTradeActivities(st, u, RequestedLimit(limitQuery))
      case Fail(_, _) => ServerError("Failed to fetch trade activities", st)
      case Ok(rows, _) => Outcome(Response(200, ActivityListJson(rows)), st)
  }

  /** `?limit=all` is NaN to `parseInt`, and the feed then holds every
      activity of the user instead of a page. */
  lemma UnreadableLimitListsEverything(st: Store, u: int)
    ensures var o := ActivitiesRoute(st, Some(u), Some("all"));
      && o.response.status == 200
      && multiset(o.response.body.activities) == multiset(Seqs.Filter(st.activities, ByUser(u)))
  {
    assert TrimStart("all") == "all" && Unsigned("all") == "all";
    assert !HexPrefixed("all") && DigitRun("all") == 0;
  }

  // ---------------------------------------------------------------------
  // PATCH /api/user/profile

  /** The password column the route writes: the hash of a new password
      when one is given and non-empty (`if (newPassword)`), none otherwise. */
  function HashedPassword(newPassword: Option<string>, hash: string -> string): (p: Option<string>)
    ensures p.Some? <==> newPassword.Some? && newPassword.value != ""
  {
    if newPassword.Some? && newPassword.value != "" then Some(hash(newPassword.value)) else None
  }

  /** The profile update with the password helpers it calls supplied:
      `passwordValid` is the verdict on the current password and `hash`
      the password hash. An empty new password keeps the old one. */
  function ProfileRoute(st: Store, session: Option<int>, username: TextField,
                        newPassword: Option<string>, passwordValid: bool,
                        hash: string -> string): (o: Outcome)
    ensures session.None? ==> o == Outcome(Unauthorized, st)
    ensures session.Some? && !passwordValid ==>
      o == Outcome(Response(401, Message("Current password is incorrect")), st)
    ensures o.response.status in {401, 500, 200}
    ensures o.response.status == 500 ==> o.store == st
    ensures session.Some? && passwordValid ==>
      var u := session.value;
      (o.response.status == 200 <==>
         && UserExists(st, u)
         && !(username.Absent? && HashedPassword(newPassword, hash).None?)
         && !username.Null?
         && !(username.Given? && UsernameTaken(st, username.value, u)))
    ensures o.response.status == 200 ==>
      var u := session.value;
      && UserExists(st, u) && passwordValid
      && FindUser(o.store, u).Some?
      && FindUser(o.store, u).value.username ==
           (if username.Given? then username.value else FindUser(st, u).value.username)
      && FindUser(o.store, u).value.password ==
           (if newPassword.Some? && newPassword.value != "" then hash(newPassword.value)
            else FindUser(st, u).value.password)
      && o.response.body == UserJson(PublicUser(u, FindUser(o.store, u).value.username, FindUser(st, u).value.createdAt))
      && o.store.trades == st.trades && o.store.activities == st.activities
      && |o.store.users| == |st.users|
      && (forall i :: 0 <= i < |st.users| && st.users[i].id != u ==> o.store.users[i] == st.users[i])
  {
    match session
    case None => Outcome(Unauthorized, st)
    case Some(u) =>
      if !passwordValid then Outcome(Response(401, Message("Current password is incorrect")), st)
      else
        var password := HashedPassword(newPassword, hash);
        match UpdateUser(st, u, username, password)
        case Fail(_, _) => ServerError("Failed to update profile", st)
        case Ok(None, _) => ServerError("Failed to update profile", st)
        case Ok(Some(user), st1) =>
          UpdatedUserFound(st, u, username, password);
          Outcome(Response(200, UserJson(PublicUser(user.id, user.username, user.createdAt))), st1)
  }

  /** After a successful user update the row found under the id is the
      updated one: it carries the new or the kept username and password. */
  lemma UpdatedUserFound(st: Store, u: int, username: TextField, password: Option<string>)
    requires UpdateUser(st, u, username, password).Ok?
    requires UpdateUser(st, u, username, password).value.Some?
    ensures FindUser(UpdateUser(st, u, username, password).store, u).Some?
    ensures FindUser(UpdateUser(st, u, username, password).store, u).value.username ==
              (if username.Given? then username.value else FindUser(st, u).value.username)
    ensures FindUser(UpdateUser(st, u, username, password).store, u).value.password ==
              (if password.Some? then password.value else FindUser(st, u).value.password)
  {
    var r := UpdateUser(st, u, username, password);
    RewrittenUserFound(st, r.store, u, r.value.value);
  }

  /** When every row with the id is replaced by `row`, and there was such a
      row, the row found under the id is `row`. */
  lemma RewrittenUserFound(st: Store, st': Store, id: int, row: User)
    requires UserExists(st, id) && row.id == id && |st'.users| == |st.users|
    requires forall i :: 0 <= i < |st.users| ==>
      st'.users[i] == if st.users[i].id == id then row else st.users[i]
    ensures FindUser(st', id) == Some(row)
  {
    var i :| 0 <= i < |st.users| && st.users[i].id == id;
    assert st'.users[i].id == id;
    var found := FindUser(st', id).value;
    var j :| 0 <= j < |st'.users| && st'.users[j] == found;
    assert st.users[j].id == id;
  }

  /** The route as written calls `validateUserPassword`, `hashPassword` and
      `updateUser` on the storage object, which defines none of them; the
      call throws, and every authenticated request ends in the error
      answer. */
  function ProfileRouteAsWritten(st: Store, session: Option<int>): (o: Outcome)
    ensures o.store == st
    ensures o.response.status == (if session.None? then 401 else 500)
  {
    match session
    case None => Outcome(Unauthorized, st)
    case Some(_) => ServerError("Failed to update profile", st)
  }

  /** A user who gives the right password and a fresh username gets the
      update from the intended route but only the error from the route as
      written. */
  lemma ProfileUpdateNeverSucceedsAsWritten()
    ensures var st := EmptyStore.(users := [User(1, "alice", "h", 0)], nextUserId := 2);
      && ProfileRouteAsWritten(st, Some(1)).response.status == 500
      && ProfileRoute(st, Some(1), Given("alice2"), Some(""), true, s => s).response.status == 200
  {
    var st := EmptyStore.(users := [User(1, "alice", "h", 0)], nextUserId := 2);
    assert st.users[0].id == 1;
    assert UserExists(st, 1);
    assert !UsernameTaken(st, "alice2", 1);
  }

  // ---------------------------------------------------------------------
  // Ownership is not fixed: the owner may hand a trade to another user.

  /** A transferring PATCH by the owner succeeds and rewrites the owner of
      the row carrying the trade's id. */
  lemma TransferredRow(st: Store, u: int, v: int, path: string, id: int, now: int, i: int)
    requires Consistent(st) && UserExists(st, v)
    requires PathTradeId(path) == Some(id)
    requires TradeExists(st, id) && GetTradeById(st, id).value.userId == u
    requires st.nextActivityId <= Int4Max
    requires 0 <= i < |st.trades| && st.trades[i].id == id
    ensures var o := UpdateTradeRoute(st, Some(u), path, NoFields.(userId := Given(v)), now);
      && o.response.status == 200
      && 0 <= i < |o.store.trades| && o.store.trades[i].id == id && o.store.trades[i].userId == v
  {
    var body := NoFields.(userId := Given(v));
    assert FromJson(body) == body;
    var j :| 0 <= j < |st.users| && st.users[j].id == v;
    assert IsInt4(st.users[j].id);
    TransferRewritesOwner(st, v, id, i);
    UpdateTradeRouteByOwner(st, u, path, id, body, now);
  }

  /** Naming an existing user as the owner is an update the store takes,
      and it rewrites the owner of the trade's row. */
  lemma TransferRewritesOwner(st: Store, v: int, id: int, i: int)
    requires UserExists(st, v) && IsInt4(v)
    requires 0 <= i < |st.trades| && st.trades[i].id == id
    ensures Patchable(st, id, NoFields.(userId := Given(v)))
    ensures var r := UpdateTrade(st, id, NoFields.(userId := Given(v)));
      && 0 <= i < |r.store.trades| && r.store.trades[i].id == id && r.store.trades[i].userId == v
  {
    var body := NoFields.(userId := Given(v));
    assert body.id.Absent? && !MovesId(id, body);
    assert Patchable(st, id, body);
    var r := UpdateTrade(st, id, body);
    assert r.store.trades[i] == Patched(st.trades[i], Rounded(body));
  }

  /** An owner's PATCH that names another existing user as `userId` moves
      the trade: it leaves the owner's list, and the former owner's next
      PATCH of it is refused. */
  lemma OwnershipCanBeTransferred(st: Store, u: int, v: int, path: string, id: int, now: int)
    requires Consistent(st)
    requires u != v && UserExists(st, v)
    requires PathTradeId(path) == Some(id)
    requires TradeExists(st, id) && GetTradeById(st, id).value.userId == u
    requires st.nextActivityId <= Int4Max
    ensures var body := NoFields.(userId := Given(v));
      var o := UpdateTradeRoute(st, Some(u), path, body, now);
      && o.response.status == 200
      && (forall t :: t in GetTrades(o.store, u) ==> t.id != id)
      && UpdateTradeRoute(o.store, Some(u), path, body, now).response.status == 403
  {
    var body := NoFields.(userId := Given(v));
    var i :| 0 <= i < |st.trades| && st.trades[i].id == id;
    TransferredRow(st, u, v, path, id, now, i);
    UpdateTradeRouteKeepsConsistent(st, Some(u), path, body, now);
    var after := UpdateTradeRoute(st, Some(u), path, body, now).store;
    FindTradeUnique(after, id, i);
    OthersTradeNotListed(after, u, i);
  }

  // ---------------------------------------------------------------------
  // Every route keeps the store consistent.

  lemma CreateTradeRouteKeepsConsistent(st: Store, session: Option<int>, body: TradeFields, now: int)
    requires Consistent(st)
    ensures Consistent(CreateTradeRoute(st, session, body, now).store)
  {
    if session.Some? {
      var f := Posted(FromJson(body), session.value, now);
      CreateTradeKeepsValid(st, f, now);
      var r := CreateTrade(st, f, now);
      if r.Ok? {
        CreateActivityKeepsValid(r.store, StartedActivity(session.value, r.value, now));
      }
    }
  }

  lemma UpdateTradeRouteKeepsConsistent(st: Store, session: Option<int>, path: string, body: TradeFields, now: int)
    requires Consistent(st)
    ensures Consistent(UpdateTradeRoute(st, session, path, body, now).store)
  {
    if session.Some? && PathTradeId(path).Some? {
      var id := PathTradeId(path).value;
      if TradeExists(st, id) && GetTradeById(st, id).value.userId == session.value {
        var trade := GetTradeById(st, id).value;
        UpdateTradeKeepsValid(st, id, FromJson(body));
        var r := UpdateTrade(st, id, FromJson(body));
        if r.Ok? {
          var modified := TradeActivity(session.value, id, "Trade Modified", trade.symbol, LastKnownPrice(trade),
            trade.quantity, "Updated", now);
          CreateActivityKeepsValid(r.store, modified);
        }
      }
    }
  }

  lemma StopTradeRouteKeepsConsistent(st: Store, session: Option<int>, path: string, now: int)
    requires Consistent(st)
    ensures Consistent(StopTradeRoute(st, session, path, now).store)
  {
    if session.Some? && PathTradeId(path).Some? {
      var id := PathTradeId(path).value;
      if TradeExists(st, id) && GetTradeById(st, id).value.userId == session.value {
        var trade := GetTradeById(st, id).value;
        var st1 := CloseTrade(st, id, now).1;
        CloseTradeKeepsValid(st, id, now);
        var closing := TradeActivity(session.value, id, "Trade Stopped", trade.symbol, LastKnownPrice(trade),
          trade.quantity, "Closed", now);
        CreateActivityKeepsValid(st1, closing);
      }
    }
  }

  lemma ProfileRouteKeepsConsistent(st: Store, session: Option<int>, username: TextField,
                                    newPassword: Option<string>, passwordValid: bool, hash: string -> string)
    requires Consistent(st)
    ensures Consistent(ProfileRoute(st, session, username, newPassword, passwordValid, hash).store)
  {
    if session.Some? && passwordValid {
      var r := UpdateUser(st, session.value, username, HashedPassword(newPassword, hash));
      UpdateUserKeepsValid(st, session.value, username, HashedPassword(newPassword, hash));
      var o := ProfileRoute(st, session, username, newPassword, passwordValid, hash);
      if r.Ok? && r.value.Some? {
        assert o.store == r.store;
      } else {
        assert o.store == st;
      }
    }
  }
}
