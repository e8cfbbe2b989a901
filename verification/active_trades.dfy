/** The active trades page: the tabs that filter by position, the search
    box, the sort selector and the counts shown on the tabs. */
module ActiveTrades {
  import opened Common
  import opened Numbers
  import opened Schema
  import opened Seqs
  import opened Text

  /** `trade.position.toLowerCase() === filter`; the tab value itself is
      compared as it is. */
  function PositionIs(filter: string): Trade -> bool
  {
    (t: Trade) => Lower(t.position) == filter
  }

  /** The search box matches the symbol or, when there is one, the API. */
  function Matches(term: string): Trade -> bool
  {
    (t: Trade) => Mentions(t.symbol, term) || (t.apiUsed.Some? && Mentions(t.apiUsed.value, term))
  }

  /** The trades the page lists under a tab and a search term. */
  predicate Selected(t: Trade, filter: string, term: string)
  {
    && t.isActive
    && (filter == "all" || Lower(t.position) == filter)
    && Matches(term)(t)
  }

  /** The comparator each sort key selects; an unknown key ties everything. */
  function SortOrder(key: string): (Trade, Trade) -> bool
  {
    if key == "newest" then Descending((t: Trade) => t.createdAt as real)
    else if key == "oldest" then Ascending((t: Trade) => t.createdAt as real)
    else if key == "profitDesc" then Descending((t: Trade) => ValueOrZero(t.profitLoss))
    else if key == "profitAsc" then Ascending((t: Trade) => ValueOrZero(t.profitLoss))
    else (a: Trade, b: Trade) => true
  }

  lemma SortOrderIsPreorder(key: string)
    ensures TotalPreorder(SortOrder(key))
  {
    AscendingIsPreorder((t: Trade) => t.createdAt as real);
    DescendingIsPreorder((t: Trade) => t.createdAt as real);
    AscendingIsPreorder((t: Trade) => ValueOrZero(t.profitLoss));
    DescendingIsPreorder((t: Trade) => ValueOrZero(t.profitLoss));
  }

  /** The three filters one after the other, before sorting. */
  function Narrowed(trades: seq<Trade>, filter: string, term: string): (r: seq<Trade>)
    ensures r == Filter(trades, (t: Trade) => Selected(t, filter, term))
  {
    var active := Filter(trades, IsActive());
    var positioned := if filter != "all" then Filter(active, PositionIs(filter)) else active;
    var searched := if term != "" then Filter(positioned, Matches(term)) else positioned;
    NarrowedIsSelected(trades, filter, term);
    searched
  }

  lemma NarrowedIsSelected(trades: seq<Trade>, filter: string, term: string)
    ensures var active := Filter(trades, IsActive());
            var positioned := if filter != "all" then Filter(active, PositionIs(filter)) else active;
            var searched := if term != "" then Filter(positioned, Matches(term)) else positioned;
            searched == Filter(trades, (t: Trade) => Selected(t, filter, term))
  {
    var active := Filter(trades, IsActive());
    var byPosition := (t: Trade) => t.isActive && (filter == "all" || Lower(t.position) == filter);
    var positioned := if filter != "all" then Filter(active, PositionIs(filter)) else active;
    if filter != "all" {
      FilterFilter(trades, IsActive(), PositionIs(filter));
      FilterExt(trades, Both(IsActive(), PositionIs(filter)), byPosition);
    } else {
      FilterExt(trades, IsActive(), byPosition);
    }
    assert positioned == Filter(trades, byPosition);
    if term != "" {
      FilterFilter(trades, byPosition, Matches(term));
      FilterExt(trades, Both(byPosition, Matches(term)), (t: Trade) => Selected(t, filter, term));
    } else {
      forall x | x in trades ensures Matches(term)(x) {
        MentionsEmpty(x.symbol);
      }
      FilterExt(trades, byPosition, (t: Trade) => Selected(t, filter, term));
    }
  }

  /** `filteredTrades()`: nothing before the trades have loaded; then the
      selected trades, stably sorted by the chosen key. */
  function FilteredTrades(trades: Option<seq<Trade>>, filter: string, term: string, sortBy: string)
    : (r: seq<Trade>)
    ensures trades.None? ==> r == []
    ensures trades.Some? ==>
      multiset(r) == multiset(Filter(trades.value, (t: Trade) => Selected(t, filter, term)))
    ensures Sorted(r, SortOrder(sortBy))
  {
    match trades
    case None => []
    case Some(all) =>
      SortOrderIsPreorder(sortBy);
      SortBySorted(Narrowed(all, filter, term), SortOrder(sortBy));
      SortBy(Narrowed(all, filter, term), SortOrder(sortBy))
  }

  /** A trade is listed exactly when it was loaded and is selected. */
  lemma ListedExactly(trades: seq<Trade>, filter: string, term: string, sortBy: string, t: Trade)
    ensures t in FilteredTrades(Some(trades), filter, term, sortBy)
        <==> t in trades && Selected(t, filter, term)
  {
    var narrowed := Narrowed(trades, filter, term);
    assert t in FilteredTrades(Some(trades), filter, term, sortBy) <==> t in multiset(narrowed);
    InFilter(trades, (t: Trade) => Selected(t, filter, term), t);
  }

  /** Trades the sort key cannot tell apart keep the order the server sent
      them in; under an unknown key that is the whole list. */
  lemma TiesKeepServerOrder(trades: seq<Trade>, filter: string, term: string, sortBy: string, y: Trade)
    ensures Filter(FilteredTrades(Some(trades), filter, term, sortBy), EquivTo(SortOrder(sortBy), y))
         == Filter(Narrowed(trades, filter, term), EquivTo(SortOrder(sortBy), y))
    ensures sortBy !in {"newest", "oldest", "profitDesc", "profitAsc"} ==>
      FilteredTrades(Some(trades), filter, term, sortBy) == Narrowed(trades, filter, term)
  {
    SortOrderIsPreorder(sortBy);
    SortByStable(Narrowed(trades, filter, term), SortOrder(sortBy), y);
    if sortBy !in {"newest", "oldest", "profitDesc", "profitAsc"} {
      SortByAllTied(Narrowed(trades, filter, term), SortOrder(sortBy));
    }
  }

  /** `getTradeCount(type)`: the active trades, or those of one position. */
  function GetTradeCount(trades: Option<seq<Trade>>, kind: string): (n: nat)
    ensures trades.None? ==> n == 0
    ensures trades.Some? ==> n <= |trades.value|
  {
    match trades
    case None => 0
    case Some(all) =>
      if kind == "all" then Count(all, IsActive())
      else Count(all, Both(IsActive(), PositionIs(kind)))
  }

  /** The count on a tab is the length of that tab's list before any search. */
  lemma TabCountIsListLength(trades: Option<seq<Trade>>, kind: string, sortBy: string)
    ensures GetTradeCount(trades, kind) == |FilteredTrades(trades, kind, "", sortBy)|
  {
    if trades.Some? {
      var all := trades.value;
      assert |FilteredTrades(trades, kind, "", sortBy)| == |Narrowed(all, kind, "")|;
      TabSelection(all, kind);
    }
  }

  /** Without a search term, a tab selects what its count counts. */
  lemma TabSelection(all: seq<Trade>, kind: string)
    ensures |Filter(all, (t: Trade) => Selected(t, kind, ""))|
         == (if kind == "all" then Count(all, IsActive()) else Count(all, Both(IsActive(), PositionIs(kind))))
  {
    forall i | 0 <= i < |all| ensures Matches("")(all[i]) {
      MentionsEmpty(all[i].symbol);
    }
    if kind == "all" {
      FilterExt(all, IsActive(), (t: Trade) => Selected(t, kind, ""));
    } else {
      FilterExt(all, Both(IsActive(), PositionIs(kind)), (t: Trade) => Selected(t, kind, ""));
    }
  }

  /** The Long and Short tabs together count no more than the All tab. */
  lemma PositionTabsWithinAll(trades: Option<seq<Trade>>)
    ensures GetTradeCount(trades, "long") + GetTradeCount(trades, "short") <= GetTradeCount(trades, "all")
  {
    if trades.Some? {
      CountDisjoint(trades.value, Both(IsActive(), PositionIs("long")),
        Both(IsActive(), PositionIs("short")), IsActive());
    }
  }
}
