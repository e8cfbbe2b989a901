/** The trade history page: the activity log and the closed trades, under
    a date range, a search term, an activity type and a sort key. */
module TradeHistory {
  import opened Common
  import opened Numbers
  import opened Schema
  import opened Seqs
  import opened Text
  import opened Storage
  import opened TradeCard

  /** The page's filter state; dates are milliseconds since the epoch at the
      start of the picked day. */
  datatype Filters = Filters(
    fromDate: Option<int>,
    toDate: Option<int>,
    searchTerm: string,
    sortBy: string,
    activityType: string)

  /** `clearFilters`, and the page's initial state. */
  const ClearedFilters: Filters := Filters(None, None, "", "newest", "all")

  /** On or after the from date. */
  function After(from: Option<int>, when: int): bool
  {
    from.None? || when >= from.value
  }

  /** No later than a day after the to date, so that the whole to date is
      included. */
  function Before(to: Option<int>, when: int): bool
  {
    to.None? || when <= to.value + DayMillis
  }

  // ---------------------------------------------------------------------
  // Activities

  /** An activity the page lists under the filters. A null status matches
      no search term. */
  predicate ActivitySelected(a: Activity, f: Filters)
  {
    && After(f.fromDate, a.createdAt)
    && Before(f.toDate, a.createdAt)
    && (f.activityType == "all" || Mentions(a.kind, f.activityType))
    && (f.searchTerm == "" || ActivityMatches(a, f.searchTerm))
  }

  predicate ActivityMatches(a: Activity, term: string)
  {
    Mentions(a.symbol, term) || Mentions(a.kind, term) || (a.status.Some? && Mentions(a.status.value, term))
  }

  /** The comparator each sort key selects for activities: the newest or the
      oldest first, and ties for any other key. */
  function ActivityOrder(key: string): (Activity, Activity) -> bool
  {
    if key == "newest" then NewestFirst()
    else if key == "oldest" then Ascending((a: Activity) => a.createdAt as real)
    else (a: Activity, b: Activity) => true
  }

  lemma ActivityOrderIsPreorder(key: string)
    ensures TotalPreorder(ActivityOrder(key))
  {
    DescendingIsPreorder((a: Activity) => a.createdAt as real);
    AscendingIsPreorder((a: Activity) => a.createdAt as real);
  }

  function FromOk(f: Filters): Activity -> bool
  {
    (a: Activity) => After(f.fromDate, a.createdAt)
  }

  function ToOk(f: Filters): Activity -> bool
  {
    (a: Activity) => Before(f.toDate, a.createdAt)
  }

  function KindOk(f: Filters): Activity -> bool
  {
    (a: Activity) => Mentions(a.kind, f.activityType)
  }

  function SearchOk(f: Filters): Activity -> bool
  {
    (a: Activity) => ActivityMatches(a, f.searchTerm)
  }

  /** The four filters of `filteredActivities`, one after the other. */
  function NarrowedActivities(acts: seq<Activity>, f: Filters): (r: seq<Activity>)
    ensures r == Filter(acts, (a: Activity) => ActivitySelected(a, f))
  {
    var dated := FilterIf(f.fromDate.Some?, acts, FromOk(f));
    var bounded := FilterIf(f.toDate.Some?, dated, ToOk(f));
    var typed := FilterIf(f.activityType != "all", bounded, KindOk(f));
    NarrowedActivitiesSelect(acts, f);
    FilterIf(f.searchTerm != "", typed, SearchOk(f))
  }

  lemma NarrowedActivitiesSelect(acts: seq<Activity>, f: Filters)
    ensures
      var dated := FilterIf(f.fromDate.Some?, acts, FromOk(f));
      var bounded := FilterIf(f.toDate.Some?, dated, ToOk(f));
      var typed := FilterIf(f.activityType != "all", bounded, KindOk(f));
      FilterIf(f.searchTerm != "", typed, SearchOk(f)) == Filter(acts, (a: Activity) => ActivitySelected(a, f))
  {
    var p1 := OnlyIf(f.fromDate.Some?, FromOk(f));
    var p2 := OnlyIf(f.toDate.Some?, ToOk(f));
    var p3 := OnlyIf(f.activityType != "all", KindOk(f));
    var p4 := OnlyIf(f.searchTerm != "", SearchOk(f));
    var bounded := FilterIf(f.toDate.Some?, FilterIf(f.fromDate.Some?, acts, FromOk(f)), ToOk(f));
    DatedAndBounded(acts, f);
    var typed := FilterIf(f.activityType != "all", bounded, KindOk(f));
    FilterIfIsFilter(f.activityType != "all", bounded, KindOk(f));
    FilterFilter(acts, Both(p1, p2), p3);
    assert typed == Filter(acts, Both(Both(p1, p2), p3));
    FilterIfIsFilter(f.searchTerm != "", typed, SearchOk(f));
    FilterFilter(acts, Both(Both(p1, p2), p3), p4);
    forall i | 0 <= i < |acts|
      ensures Both(Both(Both(p1, p2), p3), p4)(acts[i]) == ActivitySelected(acts[i], f)
    {
      ActivityConjunction(f, acts[i]);
    }
    FilterExt(acts, Both(Both(Both(p1, p2), p3), p4), (a: Activity) => ActivitySelected(a, f));
  }

  /** The two date filters together keep what both bounds allow. */
  lemma DatedAndBounded(acts: seq<Activity>, f: Filters)
    ensures FilterIf(f.toDate.Some?, FilterIf(f.fromDate.Some?, acts, FromOk(f)), ToOk(f))
         == Filter(acts, Both(OnlyIf(f.fromDate.Some?, FromOk(f)), OnlyIf(f.toDate.Some?, ToOk(f))))
  {
    var p1 := OnlyIf(f.fromDate.Some?, FromOk(f));
    var p2 := OnlyIf(f.toDate.Some?, ToOk(f));
    var dated := FilterIf(f.fromDate.Some?, acts, FromOk(f));
    FilterIfIsFilter(f.fromDate.Some?, acts, FromOk(f));
    FilterIfIsFilter(f.toDate.Some?, dated, ToOk(f));
    FilterFilter(acts, p1, p2);
  }

  /** Each skipped filter contributes nothing: their conjunction is the
      selection. */
  lemma ActivityConjunction(f: Filters, a: Activity)
    ensures Both(Both(Both(OnlyIf(f.fromDate.Some?, FromOk(f)), OnlyIf(f.toDate.Some?, ToOk(f))),
                      OnlyIf(f.activityType != "all", KindOk(f))),
                 OnlyIf(f.searchTerm != "", SearchOk(f)))(a)
         == ActivitySelected(a, f)
  {
  }

  /** `filteredActivities()`: nothing before the log has loaded; then the
      selected activities, stably sorted by the chosen key. */
  function FilteredActivities(acts: Option<seq<Activity>>, f: Filters): (r: seq<Activity>)
    ensures acts.None? ==> r == []
    ensures acts.Some? ==>
      multiset(r) == multiset(Filter(acts.value, (a: Activity) => ActivitySelected(a, f)))
    ensures Sorted(r, ActivityOrder(f.sortBy))
  {
    match acts
    case None => []
    case Some(all) =>
      ActivityOrderIsPreorder(f.sortBy);
      SortBySorted(NarrowedActivities(all, f), ActivityOrder(f.sortBy));
      SortBy(NarrowedActivities(all, f), ActivityOrder(f.sortBy))
  }

  /** An activity is listed exactly when it was loaded and is selected. */
  lemma ActivityListedExactly(acts: seq<Activity>, f: Filters, a: Activity)
    ensures a in FilteredActivities(Some(acts), f) <==> a in acts && ActivitySelected(a, f)
  {
    assert a in FilteredActivities(Some(acts), f) <==> a in multiset(NarrowedActivities(acts, f));
    InFilter(acts, (a: Activity) => ActivitySelected(a, f), a);
  }

  /** Only the date keys reorder the log: under "profitDesc", "profitAsc" or
      any other key the activities keep the order they arrived in, and under
      a date key activities of the same time do. */
  lemma ActivityTiesKeepOrder(acts: seq<Activity>, f: Filters, y: Activity)
    ensures Filter(FilteredActivities(Some(acts), f), EquivTo(ActivityOrder(f.sortBy), y))
         == Filter(NarrowedActivities(acts, f), EquivTo(ActivityOrder(f.sortBy), y))
    ensures f.sortBy !in {"newest", "oldest"} ==> FilteredActivities(Some(acts), f) == NarrowedActivities(acts, f)
  {
    ActivityOrderIsPreorder(f.sortBy);
    SortByStable(NarrowedActivities(acts, f), ActivityOrder(f.sortBy), y);
    if f.sortBy !in {"newest", "oldest"} {
      SortByAllTied(NarrowedActivities(acts, f), ActivityOrder(f.sortBy));
    }
  }

  /** With the filters cleared, the page shows the log exactly as the
      server sent it: every activity, in the server's newest-first order. */
  lemma ClearedShowsServerPage(st: Store, u: int)
    requires GetTradeActivities(st, u, Some(DefaultActivityLimit)).Ok?
    ensures var page := GetTradeActivities(st, u, Some(DefaultActivityLimit)).value;
            FilteredActivities(Some(page), ClearedFilters) == page
  {
    var page := GetTradeActivities(st, u, Some(DefaultActivityLimit)).value;
    assert NarrowedActivities(page, ClearedFilters) == page;
    SortBySortedIsIdentity(page, NewestFirst());
  }

  /** `getActivityTypeLabel`: the badge of an activity type. */
  function TypeLabel(kind: string): (badge: string)
    ensures Lower(kind) !in {"trade started", "trade modified", "trade stopped"} ==> badge == kind
  {
    var k := Lower(kind);
    if k == "trade started" then "Started"
    else if k == "trade modified" then "Modified"
    else if k == "trade stopped" then "Stopped"
    else kind
  }

  /** The three kinds the server records each get their own badge. */
  lemma RecordedKindsHaveBadges()
    ensures TypeLabel("Trade Started") == "Started"
    ensures TypeLabel("Trade Modified") == "Modified"
    ensures TypeLabel("Trade Stopped") == "Stopped"
  {
    assert Lower("Trade Started") == "trade started";
    assert Lower("Trade Modified") == "trade modified";
    assert Lower("Trade Stopped") == "trade stopped";
  }

  /** The text under "No activities found". */
  function ActivitiesEmptyHint(f: Filters): (hint: string)
    ensures f == ClearedFilters.(sortBy := f.sortBy) <==> hint == "Start trading to see your activity history"
  {
    if f.searchTerm != "" || f.fromDate.Some? || f.toDate.Some? || f.activityType != "all"
    then "Try changing your filters or search term"
    else "Start trading to see your activity history"
  }

  // ---------------------------------------------------------------------
  // Closed trades

  /** `trade.closedAt || trade.createdAt`: when a trade left the list. */
  function ClosedKey(t: Trade): int
  {
    t.closedAt.GetOr(t.createdAt)
  }

  predicate TradeMatches(t: Trade, term: string)
  {
    Mentions(t.symbol, term) || Mentions(t.position, term) || (t.apiUsed.Some? && Mentions(t.apiUsed.value, term))
  }

  /** A trade the Closed Trades tab lists under the filters; the activity
      type does not apply to it. */
  predicate ClosedSelected(t: Trade, f: Filters)
  {
    && !t.isActive
    && After(f.fromDate, ClosedKey(t))
    && Before(f.toDate, ClosedKey(t))
    && (f.searchTerm == "" || TradeMatches(t, f.searchTerm))
  }

  function ClosedOrder(key: string): (Trade, Trade) -> bool
  {
    if key == "newest" then Descending((t: Trade) => ClosedKey(t) as real)
    else if key == "oldest" then Ascending((t: Trade) => ClosedKey(t) as real)
    else if key == "profitDesc" then Descending((t: Trade) => ValueOrZero(t.profitLoss))
    else if key == "profitAsc" then Ascending((t: Trade) => ValueOrZero(t.profitLoss))
    else (a: Trade, b: Trade) => true
  }

  lemma ClosedOrderIsPreorder(key: string)
    ensures TotalPreorder(ClosedOrder(key))
  {
    DescendingIsPreorder((t: Trade) => ClosedKey(t) as real);
    AscendingIsPreorder((t: Trade) => ClosedKey(t) as real);
    DescendingIsPreorder((t: Trade) => ValueOrZero(t.profitLoss));
    AscendingIsPreorder((t: Trade) => ValueOrZero(t.profitLoss));
  }

  function ClosedFromOk(f: Filters): Trade -> bool
  {
    (t: Trade) => After(f.fromDate, ClosedKey(t))
  }

  function ClosedToOk(f: Filters): Trade -> bool
  {
    (t: Trade) => Before(f.toDate, ClosedKey(t))
  }

  function ClosedSearchOk(f: Filters): Trade -> bool
  {
    (t: Trade) => TradeMatches(t, f.searchTerm)
  }

  /** The filters of `filteredClosedTrades`, one after the other. */
  function NarrowedClosed(trades: seq<Trade>, f: Filters): (r: seq<Trade>)
    ensures r == Filter(trades, (t: Trade) => ClosedSelected(t, f))
  {
    var closed := Filter(trades, IsClosed());
    var dated := FilterIf(f.fromDate.Some?, closed, ClosedFromOk(f));
    var bounded := FilterIf(f.toDate.Some?, dated, ClosedToOk(f));
    NarrowedClosedSelect(trades, f);
    FilterIf(f.searchTerm != "", bounded, ClosedSearchOk(f))
  }

  lemma NarrowedClosedSelect(trades: seq<Trade>, f: Filters)
    ensures
      var closed := Filter(trades, IsClosed());
      var dated := FilterIf(f.fromDate.Some?, closed, ClosedFromOk(f));
      var bounded := FilterIf(f.toDate.Some?, dated, ClosedToOk(f));
      FilterIf(f.searchTerm != "", bounded, ClosedSearchOk(f)) == Filter(trades, (t: Trade) => ClosedSelected(t, f))
  {
    var p2 := OnlyIf(f.fromDate.Some?, ClosedFromOk(f));
    var p3 := OnlyIf(f.toDate.Some?, ClosedToOk(f));
    var p4 := OnlyIf(f.searchTerm != "", ClosedSearchOk(f));
    var closed := Filter(trades, IsClosed());
    var dated := FilterIf(f.fromDate.Some?, closed, ClosedFromOk(f));
    FilterIfIsFilter(f.fromDate.Some?, closed, ClosedFromOk(f));
    FilterFilter(trades, IsClosed(), p2);
    assert dated == Filter(trades, Both(IsClosed(), p2));
    var bounded := FilterIf(f.toDate.Some?, dated, ClosedToOk(f));
    FilterIfIsFilter(f.toDate.Some?, dated, ClosedToOk(f));
    FilterFilter(trades, Both(IsClosed(), p2), p3);
    assert bounded == Filter(trades, Both(Both(IsClosed(), p2), p3));
    FilterIfIsFilter(f.searchTerm != "", bounded, ClosedSearchOk(f));
    FilterFilter(trades, Both(Both(IsClosed(), p2), p3), p4);
    forall i | 0 <= i < |trades|
      ensures Both(Both(Both(IsClosed(), p2), p3), p4)(trades[i]) == ClosedSelected(trades[i], f)
    {
      ClosedConjunction(f, trades[i]);
    }
    FilterExt(trades, Both(Both(Both(IsClosed(), p2), p3), p4), (t: Trade) => ClosedSelected(t, f));
  }

  lemma ClosedConjunction(f: Filters, t: Trade)
    ensures Both(Both(Both(IsClosed(), OnlyIf(f.fromDate.Some?, ClosedFromOk(f))),
                      OnlyIf(f.toDate.Some?, ClosedToOk(f))),
                 OnlyIf(f.searchTerm != "", ClosedSearchOk(f)))(t)
         == ClosedSelected(t, f)
  {
  }

  /** `filteredClosedTrades()`: the selected closed trades, stably sorted. */
  function FilteredClosedTrades(trades: Option<seq<Trade>>, f: Filters): (r: seq<Trade>)
    ensures trades.None? ==> r == []
    ensures trades.Some? ==>
      multiset(r) == multiset(Filter(trades.value, (t: Trade) => ClosedSelected(t, f)))
    ensures Sorted(r, ClosedOrder(f.sortBy))
    ensures forall i :: 0 <= i < |r| ==> !r[i].isActive
  {
    match trades
    case None => []
    case Some(all) =>
      var narrowed := NarrowedClosed(all, f);
      ClosedOrderIsPreorder(f.sortBy);
      SortBySorted(narrowed, ClosedOrder(f.sortBy));
      PermutationKeeps(narrowed, SortBy(narrowed, ClosedOrder(f.sortBy)), IsClosed());
      SortBy(narrowed, ClosedOrder(f.sortBy))
  }

  /** A trade is on the Closed Trades tab exactly when it was loaded, is no
      longer active and passes the date range and search. */
  lemma ClosedListedExactly(trades: seq<Trade>, f: Filters, t: Trade)
    ensures t in FilteredClosedTrades(Some(trades), f) <==> t in trades && ClosedSelected(t, f)
  {
    assert t in FilteredClosedTrades(Some(trades), f) <==> t in multiset(NarrowedClosed(trades, f));
    InFilter(trades, (t: Trade) => ClosedSelected(t, f), t);
  }

  /** Closed trades the sort key cannot tell apart keep the server's order;
      under an unknown key that is the whole tab. */
  lemma ClosedTiesKeepOrder(trades: seq<Trade>, f: Filters, y: Trade)
    ensures Filter(FilteredClosedTrades(Some(trades), f), EquivTo(ClosedOrder(f.sortBy), y))
         == Filter(NarrowedClosed(trades, f), EquivTo(ClosedOrder(f.sortBy), y))
    ensures f.sortBy !in {"newest", "oldest", "profitDesc", "profitAsc"} ==>
      FilteredClosedTrades(Some(trades), f) == NarrowedClosed(trades, f)
  {
    ClosedOrderIsPreorder(f.sortBy);
    SortByStable(NarrowedClosed(trades, f), ClosedOrder(f.sortBy), y);
    if f.sortBy !in {"newest", "oldest", "profitDesc", "profitAsc"} {
      SortByAllTied(NarrowedClosed(trades, f), ClosedOrder(f.sortBy));
    }
  }

  /** The activity type chosen for the log has no effect on the Closed
      Trades tab. */
  lemma ClosedIgnoresActivityType(trades: seq<Trade>, f: Filters, kind: string)
    ensures FilteredClosedTrades(Some(trades), f.(activityType := kind)) == FilteredClosedTrades(Some(trades), f)
  {
    var g := f.(activityType := kind);
    assert forall t :: ClosedSelected(t, g) == ClosedSelected(t, f);
    FilterExt(trades, (t: Trade) => ClosedSelected(t, f), (t: Trade) => ClosedSelected(t, g));
    assert NarrowedClosed(trades, g) == NarrowedClosed(trades, f);
    assert ClosedOrder(g.sortBy) == ClosedOrder(f.sortBy);
  }

  /** The text under "No closed trades found". */
  function ClosedEmptyHint(f: Filters): (hint: string)
    ensures f.searchTerm == "" && f.fromDate.None? && f.toDate.None? <==> hint == "Close some trades to see them here"
  {
    if f.searchTerm != "" || f.fromDate.Some? || f.toDate.Some?
    then "Try changing your filters or search term"
    else "Close some trades to see them here"
  }

  // ---------------------------------------------------------------------
  // Cells

  /** The number of decimals `formatPrice` shows: two from one dollar up,
      four below. */
  function PriceDecimals(x: real): nat
  {
    if x >= 1.0 then 2 else 4
  }

  /** `formatPrice` of a number, `None` standing for NaN: a dollar sign, then
      the price with exactly `PriceDecimals` fraction digits, reading back
      within half a unit of the last digit shown. */
  function FormatPrice(price: Option<real>): (text: string)
    ensures price.None? ==> text == "$0.00"
    ensures price.Some? ==> |text| >= 1 && text[0] == '$'
    ensures price.Some? ==> EndsInDecimals(text, PriceDecimals(price.value))
    ensures price.Some? ==>
      && ParseFloat(text[1..]).Some?
      && WithinHalfUnit(ParseFloat(text[1..]).value, price.value, PriceDecimals(price.value))
  {
    match price
    case None => "$0.00"
    case Some(x) =>
      var f := PriceDecimals(x);
      ToFixedClose(x, f);
      ToFixedDecimals(x, f);
      DollarKeepsDecimals(ToFixed(x, f), f);
      "$" + ToFixed(x, f)
  }

  /** Writing a dollar sign in front keeps the fraction digits. */
  lemma DollarKeepsDecimals(s: string, f: nat)
    requires EndsInDecimals(s, f)
    ensures ("$" + s)[1..] == s && EndsInDecimals("$" + s, f)
  {
    var t := "$" + s;
    assert t[|t| - f..] == s[|s| - f..];
  }

  /** A price of a dollar or more stored at scale 2 is shown as stored. */
  lemma PriceCellShowsStored(d: Decimal)
    requires d.scale == 2 && Value(d) >= 1.0
    ensures FormatPrice(ParseFloat(Show(d))) == "$" + Show(d)
  {
    ParseShowRoundTrip(d);
    ToFixedShown(d);
  }

  /** `formatProfitLoss` of a number, `None` standing for NaN: no percentage
      and no trailing space, unlike the card. */
  function HistoryProfitLoss(pl: Option<real>): (r: PlLabel)
    ensures r.tone == Gain <==> pl.Some? && pl.value > 0.0
    ensures r.tone == Loss <==> pl.Some? && pl.value < 0.0
    ensures r.tone == Neutral <==> r.text == "$0.00"
  {
    match pl
    case None => PlLabel("$0.00", Neutral)
    case Some(x) =>
      if x > 0.0 then PlLabel("+$" + ToFixed(AbsReal(x), 2), Gain)
      else if x < 0.0 then PlLabel("-$" + ToFixed(AbsReal(x), 2), Loss)
      else PlLabel("$0.00", Neutral)
  }

  /** The profit/loss cell of a closed trade: `trade.profitLoss || 0`. */
  function ClosedTradeProfitLoss(t: Trade): (r: PlLabel)
    ensures r.tone == CardProfitLoss(t).tone
  {
    HistoryProfitLoss(Some(ValueOrZero(t.profitLoss)))
  }

  /** The history row and the card agree: same colour, and the card's text
      is the row's text followed by a space and the percentage. */
  lemma HistoryAgreesWithCard(t: Trade)
    ensures ClosedTradeProfitLoss(t).tone == CardProfitLoss(t).tone
    ensures CardProfitLoss(t).tone != Neutral ==>
      CardProfitLoss(t).text == ClosedTradeProfitLoss(t).text + " " + PercentSuffix(t)
    ensures CardProfitLoss(t).tone == Neutral ==> CardProfitLoss(t).text == ClosedTradeProfitLoss(t).text
  {
    if t.profitLoss.Some? {
      var d := t.profitLoss.value;
      assert Value(Magnitude(d)) == AbsReal(Value(d));
    }
  }
}
