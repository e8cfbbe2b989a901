/** The dashboard home page: the four stat cards and the paginated list of
    active trades. */
module Home {
  import opened Common
  import opened Numbers
  import opened Schema
  import opened Seqs
  import opened Text

  // ---------------------------------------------------------------------
  // Stat cards

  /** `trade.entryPrice * trade.quantity`: what a trade cost to open. */
  function Cost(): Trade -> real
  {
    (t: Trade) => Value(t.entryPrice) * Value(t.quantity)
  }

  /** `trade.currentPrice * trade.quantity - trade.entryPrice * trade.quantity`;
      `null * q` is 0, so a trade without a current price counts as losing
      its whole cost. */
  function Change(): Trade -> real
  {
    (t: Trade) => ValueOrZero(t.currentPrice) * Value(t.quantity) - Value(t.entryPrice) * Value(t.quantity)
  }

  lemma ChangeOfTrade(t: Trade)
    ensures t.currentPrice.None? ==> Change()(t) == -Cost()(t)
    ensures t.currentPrice.Some? ==>
      Change()(t) == (Value(t.currentPrice.value) - Value(t.entryPrice)) * Value(t.quantity)
  {
  }

  /** A money amount on a card: a fixed text, or a number written by
      `Intl.NumberFormat` as US dollars. */
  datatype Money = Fixed(text: string) | Dollars(amount: real)

  datatype HomeStats = HomeStats(
    balance: Money,
    activeTrades: nat,
    dailyProfit: Money,
    dailyProfitPercentage: string,
    apiStatus: string)

  /** The profit as a percentage of what the active trades cost; 0 when
      they cost nothing. */
  function Percentage(profit: real, initial: real): (p: real)
    ensures initial <= 0.0 ==> p == 0.0
    ensures initial > 0.0 ==> p * initial == profit * 100.0
    ensures initial > 0.0 ==> (p > 0.0 <==> profit > 0.0)
  {
    if initial > 0.0 then
      assert profit / initial * initial == profit;
      assert profit > 0.0 <==> profit / initial > 0.0;
      profit / initial * 100.0
    else 0.0
  }

  /** `${p > 0 ? '↑' : '↓'} ${Math.abs(p).toFixed(2)}%`. */
  function PercentageLabel(p: real): (text: string)
    ensures |text| >= 3 && text[0] == (if p > 0.0 then '↑' else '↓') && text[1] == ' '
    ensures text[|text| - 1] == '%'
  {
    [if p > 0.0 then '↑' else '↓', ' '] + ToFixed(if p < 0.0 then -p else p, 2) + "%"
  }

  /** `change.includes('↑') ? "increase" : "decrease"`. */
  function Increase(change: string): bool
  {
    Contains(change, "↑")
  }

  /** The card shows an increase exactly when the percentage is positive;
      zero is shown as a decrease. */
  lemma IncreaseIffPositive(p: real)
    ensures Increase(PercentageLabel(p)) <==> p > 0.0
  {
    var text := PercentageLabel(p);
    if p > 0.0 {
      assert OccursAt(text, "↑", 0);
    } else {
      var m := if p < 0.0 then -p else p;
      ToFixedChars(m, 2);
      NoUpArrow(ToFixed(m, 2));
      assert text == ['↓', ' '] + ToFixed(m, 2) + "%";
    }
  }

  /** A down arrow, digits and a percent sign hold no up arrow. */
  lemma NoUpArrow(digits: string)
    requires forall i :: 0 <= i < |digits| ==> IsDigit(digits[i]) || digits[i] == '.'
    ensures !Contains(['↓', ' '] + digits + "%", "↑")
  {
    DownLabelChars(digits);
    NotContainsChar(['↓', ' '] + digits + "%", '↑');
  }

  lemma DownLabelChars(digits: string)
    requires forall i :: 0 <= i < |digits| ==> IsDigit(digits[i]) || digits[i] == '.'
    ensures var text := ['↓', ' '] + digits + "%";
            forall i :: 0 <= i < |text| ==> text[i] != '↑'
  {
    var text := ['↓', ' '] + digits + "%";
    forall i | 0 <= i < |text| ensures text[i] != '↑' {
      if 2 <= i < 2 + |digits| {
        assert text[i] == digits[i - 2];
      }
    }
  }

  /** The trades ordered by their last update, newest first. */
  function RecentFirst(): (Trade, Trade) -> bool
  {
    Descending((t: Trade) => t.updatedAt as real)
  }

  /** "Connected" when the most recently updated trade was updated within
      the last day. */
  function ApiStatus(trades: seq<Trade>, now: int): (status: string)
  {
    if |trades| > 0 && SortBy(trades, RecentFirst())[0].updatedAt > now - DayMillis
    then "Connected" else "Disconnected"
  }

  /** The status is "Connected" exactly when some trade was updated within
      the last day. */
  lemma ConnectedIffRecentUpdate(trades: seq<Trade>, now: int)
    ensures ApiStatus(trades, now) == "Connected" <==>
      exists t :: t in trades && t.updatedAt > now - DayMillis
  {
    if |trades| > 0 {
      var sorted := SortBy(trades, RecentFirst());
      DescendingIsPreorder((t: Trade) => t.updatedAt as real);
      SortBySorted(trades, RecentFirst());
      SortedHeadFirst(sorted, RecentFirst());
      assert forall t :: t in trades ==> t in multiset(sorted);
      assert sorted[0] in multiset(trades);
    }
  }

  /** The `stats` memo; `now` is `Date.now()`. Before the trades load, fixed
      placeholders. Once loaded: the number of active trades; a balance that
      is what the active trades cost plus what the closed ones cost; a daily
      profit that sums the changes of the active trades; a percentage card
      that reads as an increase exactly when that profit is a positive share
      of what the active trades cost; and "Connected" exactly when some trade
      was updated within the last day. */
  function Stats(trades: Option<seq<Trade>>, now: int): (r: HomeStats)
    ensures trades.None? ==> r == HomeStats(Fixed("$0.00"), 0, Fixed("$0.00"), "0.0%", "Disconnected")
    ensures trades.Some? ==>
      var active := Filter(trades.value, IsActive());
      && r.activeTrades == |active|
      && r.balance.Dollars?
      && r.balance.amount == Sum(active, Cost()) + Sum(Filter(trades.value, Not(IsActive())), Cost())
      && r.dailyProfit == Dollars(Sum(active, Change()))
      && (Increase(r.dailyProfitPercentage) <==> Percentage(Sum(active, Change()), Sum(active, Cost())) > 0.0)
      && (r.apiStatus == "Connected" <==> exists t :: t in trades.value && t.updatedAt > now - DayMillis)
      && (r.apiStatus == "Connected" || r.apiStatus == "Disconnected")
  {
    match trades
    case None => HomeStats(Fixed("$0.00"), 0, Fixed("$0.00"), "0.0%", "Disconnected")
    case Some(all) =>
      var active := Filter(all, IsActive());
      var totalProfitLoss := Sum(active, Change());
      var totalInitialValue := Sum(active, Cost());
      var p := Percentage(totalProfitLoss, totalInitialValue);
      SumSplit(all, Cost(), IsActive());
      IncreaseIffPositive(p);
      ConnectedIffRecentUpdate(all, now);
      HomeStats(Dollars(Sum(all, Cost())), |active|, Dollars(totalProfitLoss),
        PercentageLabel(p), ApiStatus(all, now))
  }

  /** Loaded but empty is not the same as not loaded: the percentage card
      reads "↓ 0.00%" rather than "0.0%". */
  lemma EmptyListShowsDecrease(now: int)
    ensures Stats(Some([]), now).dailyProfitPercentage == "↓ 0.00%"
    ensures Stats(None, now).dailyProfitPercentage == "0.0%"
  {
    var z := Decimal(RoundHalfUp(0.0, 2), 2);
    assert RoundHalfUp(0.0, 2) == 0;
    assert FractionPart(z) == 0 && WholePart(z) == 0;
    assert PadLeft(NatToString(0), 2) == "00";
    assert ToFixed(0.0, 2) == "0.00";
  }

  // ---------------------------------------------------------------------
  // Pagination of the active trades

  const ItemsPerPage: nat := 3

  /** `paginatedTrades`: the active trades of page `page` (counted from 1). */
  function Paginate(trades: Option<seq<Trade>>, page: int): (r: seq<Trade>)
    ensures trades.None? ==> r == []
    ensures |r| <= ItemsPerPage
    ensures trades.Some? && 1 <= page ==>
      var active := Filter(trades.value, IsActive());
      var start := (page - 1) * ItemsPerPage;
      r == active[Clamp(start, |active|)..Clamp(start + ItemsPerPage, |active|)]
  {
    match trades
    case None => []
    case Some(all) =>
      var startIndex := (page - 1) * ItemsPerPage;
      PageSlice(Filter(all, IsActive()), startIndex);
      Slice(Filter(all, IsActive()), startIndex, startIndex + ItemsPerPage)
  }

  lemma PageSlice(active: seq<Trade>, start: int)
    ensures start >= 0 ==>
      Slice(active, start, start + ItemsPerPage) == active[Clamp(start, |active|)..Clamp(start + ItemsPerPage, |active|)]
  {
    if start >= 0 {
      SliceClamped(active, start, start + ItemsPerPage);
    }
  }

  /** `pageCount`: 1 before the trades load, otherwise
      `Math.ceil(active / 3)`, which is 0 without active trades. */
  function PageCount(trades: Option<seq<Trade>>): (n: nat)
    ensures trades.None? ==> n == 1
    ensures trades.Some? ==>
      var count := |Filter(trades.value, IsActive())|;
      n * ItemsPerPage >= count && (n == 0 || (n - 1) * ItemsPerPage < count)
  {
    match trades
    case None => 1
    case Some(all) => (|Filter(all, IsActive())| + ItemsPerPage - 1) / ItemsPerPage
  }

  /** The pagination controls are shown only with more than one page. */
  predicate ControlsShown(pageCount: nat)
  {
    pageCount > 1
  }

  /** Previous: `Math.max(1, p - 1)`. */
  function PreviousPage(page: int): (p: int)
    ensures p >= 1
    ensures page > 1 ==> p == page - 1
  {
    if page - 1 > 1 then page - 1 else 1
  }

  /** Next: `Math.min(pageCount, p + 1)`. */
  function NextPage(page: int, pageCount: nat): (p: int)
    ensures p <= pageCount
    ensures page < pageCount ==> p == page + 1
  {
    if page + 1 < pageCount then page + 1 else pageCount
  }

  /** From a page within range, the controls stay within range. */
  lemma ControlsStayInRange(page: int, pageCount: nat)
    requires ControlsShown(pageCount) && 1 <= page <= pageCount
    ensures 1 <= PreviousPage(page) <= pageCount
    ensures 1 <= NextPage(page, pageCount) <= pageCount
  {
  }

  /** The active list cut into pages of three: pages 1..k one after the
      other. */
  function Pages(active: seq<Trade>, k: nat): seq<Trade>
  {
    if k == 0 then []
    else Pages(active, k - 1) + Slice(active, (k - 1) * ItemsPerPage, (k - 1) * ItemsPerPage + ItemsPerPage)
  }

  /** Page `k` of the list is what `paginatedTrades` shows on page `k`. */
  lemma PageIsShown(trades: seq<Trade>, k: nat)
    requires k >= 1
    ensures Pages(Filter(trades, IsActive()), k)
         == Pages(Filter(trades, IsActive()), k - 1) + Paginate(Some(trades), k)
  {
  }

  /** The first k pages hold the first 3k active trades. */
  lemma {:induction false} PagesArePrefix(active: seq<Trade>, k: nat)
    ensures Pages(active, k) == active[..Clamp(k * ItemsPerPage, |active|)]
  {
    if k > 0 {
      PagesArePrefix(active, k - 1);
      var start := (k - 1) * ItemsPerPage;
      assert start + ItemsPerPage == k * ItemsPerPage;
      SliceClamped(active, start, start + ItemsPerPage);
      JoinSlices(active, Clamp(start, |active|), Clamp(start + ItemsPerPage, |active|));
    }
  }

  /** Walking through every page shows every active trade once, in order. */
  lemma PagesCoverActiveTrades(trades: seq<Trade>)
    ensures Pages(Filter(trades, IsActive()), PageCount(Some(trades))) == Filter(trades, IsActive())
  {
    var active := Filter(trades, IsActive());
    PagesArePrefix(active, PageCount(Some(trades)));
    assert active[..|active|] == active;
  }
}
