/** The profile page: the password form and its schema, the trading
    statistics, the avatar initials and the trader tier. */
module Profile {
  import opened Common
  import opened Numbers
  import opened Schema
  import opened Seqs
  import opened Text

  // ---------------------------------------------------------------------
  // The password form

  /** The form's values; `None` is a property left undefined. */
  datatype ProfileValues = ProfileValues(
    username: string,
    currentPassword: string,
    newPassword: Option<string>,
    confirmNewPassword: Option<string>)

  /** `!data.newPassword || data.newPassword === data.confirmNewPassword`. */
  predicate PasswordsAgree(v: ProfileValues)
  {
    v.newPassword.None? || v.newPassword.value == "" || v.confirmNewPassword == v.newPassword
  }

  /** `profileSchema` parameterised by the rule for the new password. */
  function CheckProfile(v: ProfileValues, newPasswordOk: string -> bool): (r: Checked<ProfileValues>)
    ensures r.Valid? <==>
      && |v.username| >= 3 && |v.currentPassword| >= 1
      && (v.newPassword.None? || newPasswordOk(v.newPassword.value))
      && PasswordsAgree(v)
    ensures r.Valid? ==> r.value == v
  {
    Verdict(
      Check(MinLength(v.username, 3), "Username must be at least 3 characters") +
      Check(MinLength(v.currentPassword, 1), "Current password is required") +
      Check(v.newPassword.None? || newPasswordOk(v.newPassword.value), "New password must be at least 6 characters") +
      Check(PasswordsAgree(v), "Passwords do not match"),
      v)
  }

  /** The schema as written: `.optional()` admits an undefined new password,
      but the form always holds a string, and an empty string is held to
      `.min(6)`. */
  function ProfileSchemaAsWritten(v: ProfileValues): (r: Checked<ProfileValues>)
    ensures r.Valid? <==>
      && |v.username| >= 3 && |v.currentPassword| >= 1
      && (v.newPassword.None? || |v.newPassword.value| >= 6)
      && PasswordsAgree(v)
  {
    CheckProfile(v, s => MinLength(s, 6))
  }

  /** The schema as the rest of the program reads it: an empty new password
      means "keep the current one", as the refinement and the server's
      `if (newPassword)` both treat it. */
  function ProfileSchema(v: ProfileValues): (r: Checked<ProfileValues>)
    ensures r.Valid? <==>
      && |v.username| >= 3 && |v.currentPassword| >= 1
      && (v.newPassword.None? || v.newPassword.value == "" || |v.newPassword.value| >= 6)
      && PasswordsAgree(v)
  {
    CheckProfile(v, s => s == "" || MinLength(s, 6))
  }

  /** `form.reset(...)` on Edit, Cancel and after a save: the user's name
      and empty passwords. */
  function ResetValues(user: Option<User>): (v: ProfileValues)
    ensures v.newPassword == Some("") && v.confirmNewPassword == Some("") && v.currentPassword == ""
  {
    ProfileValues(if user.Some? then user.value.username else "", "", Some(""), Some(""))
  }

  /** As written, a user who only confirms the current password, leaving the
      new password empty as the form starts, cannot submit; the intended
      schema accepts it. */
  lemma KeepPasswordRejectedAsWritten()
    ensures ProfileSchemaAsWritten(ProfileValues("alice", "secret", Some(""), Some(""))).Invalid?
    ensures ProfileSchema(ProfileValues("alice", "secret", Some(""), Some(""))).Valid?
  {
  }

  /** As written, every valid submission changes the password; with the
      intended schema, a form reset for a user with a long enough name is
      valid once the current password is typed. */
  lemma AsWrittenAlwaysChangesPassword(v: ProfileValues, user: User, current: string)
    ensures ProfileSchemaAsWritten(v).Valid? && v.newPassword.Some? ==> |v.newPassword.value| >= 6
    ensures |user.username| >= 3 && |current| >= 1 ==>
      ProfileSchema(ResetValues(Some(user)).(currentPassword := current)).Valid?
  {
  }

  /** Whatever the as-written schema accepts, the intended one accepts too. */
  lemma IntendedSchemaIsWeaker(v: ProfileValues)
    ensures ProfileSchemaAsWritten(v).Valid? ==> ProfileSchema(v).Valid?
  {
  }

  /** The "Update Password" button: disabled while saving, without a
      current password, or with a new password but no confirmation. */
  predicate SubmitEnabled(v: ProfileValues, isPending: bool)
  {
    && !isPending
    && v.currentPassword != ""
    && !(v.newPassword.Some? && v.newPassword.value != ""
         && (v.confirmNewPassword.None? || v.confirmNewPassword.value == ""))
  }

  /** The button never blocks a form the intended schema accepts. */
  lemma ValidFormCanBeSubmitted(v: ProfileValues)
    requires ProfileSchema(v).Valid?
    ensures SubmitEnabled(v, false)
  {
    assert |v.currentPassword| >= 1;
    if v.newPassword.Some? && v.newPassword.value != "" {
      assert v.confirmNewPassword == v.newPassword;
    }
  }

  // ---------------------------------------------------------------------
  // Trading statistics

  /** When the member joined: the fixed text "April 2025" without trades,
      otherwise the creation time of the first trade. */
  datatype Since = DefaultSince | FirstTrade(when: int)

  datatype Stats = Stats(
    totalTrades: nat,
    activeTrades: nat,
    successRate: real,
    avgProfitPercent: real,
    winningTrades: nat,
    losingTrades: nat,
    memberSince: Since)

  /** A closed trade with a positive profit/loss. */
  function IsWinning(): Trade -> bool
  {
    (t: Trade) => !t.isActive && t.profitLoss.Some? && Value(t.profitLoss.value) > 0.0
  }

  /** The profit percentage one closed trade adds to the total: nothing
      without an exit price. A zero entry price adds nothing either. */
  function ProfitPercent(exitPrice: Trade -> Option<real>): Trade -> real
  {
    (t: Trade) =>
      var entry := Value(t.entryPrice);
      if exitPrice(t).None? || entry == 0.0 then 0.0
      else (exitPrice(t).value - entry) / entry * 100.0
  }

  /** The trades sorted oldest first, as the member-since date reads them. */
  function OldestFirst(): (Trade, Trade) -> bool
  {
    Ascending((t: Trade) => t.createdAt as real)
  }

  /** `part / whole * 100`, or 0 when there is nothing to divide by. */
  function Rate(part: nat, whole: nat): (r: real)
    ensures r >= 0.0
    ensures part <= whole ==> r <= 100.0
    ensures whole == 0 ==> r == 0.0
  {
    if whole > 0 then
      assert part <= whole ==> part as real / whole as real <= 1.0;
      part as real / whole as real * 100.0
    else 0.0
  }

  /** `total / count`, or 0 when there is nothing to divide by. */
  function Average(total: real, count: nat): (r: real)
    ensures count > 0 ==> r * count as real == total
    ensures count == 0 ==> r == 0.0
  {
    if count > 0 then total / count as real else 0.0
  }

  /** Every trade is active or closed, and a winning trade is closed. */
  lemma CountsAddUp(all: seq<Trade>)
    ensures Count(all, IsActive()) + Count(all, IsClosed()) == |all|
    ensures Count(all, IsWinning()) <= Count(all, IsClosed())
  {
    CountSplit(all, IsActive());
    FilterExt(all, Not(IsActive()), IsClosed());
    CountMonotone(all, IsClosed(), IsWinning());
  }

  /** The sum of the closed trades' profit percentages. */
  function TotalProfitPercent(all: seq<Trade>, exitPrice: Trade -> Option<real>): real
  {
    Sum(Filter(all, IsClosed()), ProfitPercent(exitPrice))
  }

  /** The statistics of a non-empty list. */
  function StatsOf(all: seq<Trade>, exitPrice: Trade -> Option<real>): (r: Stats)
    requires |all| > 0
    ensures r.activeTrades == Count(all, IsActive()) && r.winningTrades == Count(all, IsWinning())
    ensures r.activeTrades + r.winningTrades + r.losingTrades == r.totalTrades == |all|
    ensures r.successRate == Rate(Count(all, IsWinning()), Count(all, IsClosed()))
    ensures 0.0 <= r.successRate <= 100.0
    ensures r.avgProfitPercent == Average(TotalProfitPercent(all, exitPrice), Count(all, IsClosed()))
    ensures r.memberSince == FirstTrade(SortBy(all, OldestFirst())[0].createdAt)
  {
    var closed := Count(all, IsClosed());
    var winning := Count(all, IsWinning());
    CountsAddUp(all);
    Stats(|all|, Count(all, IsActive()), Rate(winning, closed),
      Average(TotalProfitPercent(all, exitPrice), closed),
      winning, closed - winning, FirstTrade(SortBy(all, OldestFirst())[0].createdAt))
  }

  /** `tradingStats`; `exitPrice` reads a trade's exit price. */
  function TradingStats(trades: Option<seq<Trade>>, exitPrice: Trade -> Option<real>): (r: Stats)
    ensures trades.None? || trades.value == [] ==> r == Stats(0, 0, 0.0, 0.0, 0, 0, DefaultSince)
    ensures trades.Some? ==> r.totalTrades == |trades.value|
    ensures r.activeTrades + r.winningTrades + r.losingTrades == r.totalTrades
    ensures 0.0 <= r.successRate <= 100.0
    ensures trades.Some? && trades.value != [] ==> r == StatsOf(trades.value, exitPrice)
  {
    if trades.None? || |trades.value| == 0 then Stats(0, 0, 0.0, 0.0, 0, 0, DefaultSince)
    else StatsOf(trades.value, exitPrice)
  }

  function HasGain(): Trade -> bool
  {
    (t: Trade) => t.profitLoss.Some? && Value(t.profitLoss.value) > 0.0
  }

  /** A closed trade without a positive profit/loss. */
  function IsLosing(): Trade -> bool
  {
    (t: Trade) => !t.isActive && !(t.profitLoss.Some? && Value(t.profitLoss.value) > 0.0)
  }

  /** Losing trades are the closed trades without a positive profit/loss:
      break-even trades and trades without a profit/loss count as losses. */
  lemma LosingIsClosedWithoutGain(trades: seq<Trade>, exitPrice: Trade -> Option<real>)
    requires |trades| > 0
    ensures TradingStats(Some(trades), exitPrice).losingTrades == Count(trades, IsLosing())
  {
    CountsAddUp(trades);
    ClosedSplitsByGain(trades);
  }

  lemma ClosedSplitsByGain(trades: seq<Trade>)
    ensures Count(trades, IsWinning()) + Count(trades, IsLosing()) == Count(trades, IsClosed())
  {
    CountSplit(Filter(trades, IsClosed()), HasGain());
    ClosedWithGain(trades);
    ClosedWithoutGain(trades);
  }

  lemma ClosedWithGain(trades: seq<Trade>)
    ensures Count(Filter(trades, IsClosed()), HasGain()) == Count(trades, IsWinning())
  {
    FilterFilter(trades, IsClosed(), HasGain());
    forall i | 0 <= i < |trades| ensures Both(IsClosed(), HasGain())(trades[i]) == IsWinning()(trades[i]) {
    }
    FilterExt(trades, Both(IsClosed(), HasGain()), IsWinning());
  }

  lemma ClosedWithoutGain(trades: seq<Trade>)
    ensures Count(Filter(trades, IsClosed()), Not(HasGain())) == Count(trades, IsLosing())
  {
    FilterFilter(trades, IsClosed(), Not(HasGain()));
    forall i | 0 <= i < |trades| ensures Both(IsClosed(), Not(HasGain()))(trades[i]) == IsLosing()(trades[i]) {
    }
    FilterExt(trades, Both(IsClosed(), Not(HasGain())), IsLosing());
  }

  /** The member-since date is that of the earliest trade. */
  lemma MemberSinceIsEarliest(trades: seq<Trade>, exitPrice: Trade -> Option<real>)
    requires |trades| > 0
    ensures TradingStats(Some(trades), exitPrice).memberSince.FirstTrade?
    ensures forall t :: t in trades ==> TradingStats(Some(trades), exitPrice).memberSince.when <= t.createdAt
    ensures exists t :: t in trades && TradingStats(Some(trades), exitPrice).memberSince.when == t.createdAt
  {
    OldestIsFirst(trades);
  }

  lemma OldestIsFirst(trades: seq<Trade>)
    requires |trades| > 0
    ensures forall t :: t in trades ==> SortBy(trades, OldestFirst())[0].createdAt <= t.createdAt
    ensures SortBy(trades, OldestFirst())[0] in trades
  {
    AscendingIsPreorder((t: Trade) => t.createdAt as real);
    SortByLeastFirst(trades, OldestFirst());
  }


  /** The rows the server returns have no `exitPrice` property. */
  function RowExitPrice(): Trade -> Option<real>
  {
    (t: Trade) => None
  }

  /** The exit price the history table shows for a closed trade,
      `trade.exitPrice || trade.currentPrice || trade.entryPrice`: the last
      known price. */
  function LastKnownExit(): Trade -> Option<real>
  {
    (t: Trade) => Some(Value(LastKnownPrice(t)))
  }

  /** As written, the average profit is 0 whatever the trades did. */
  lemma AvgProfitAlwaysZeroAsWritten(trades: Option<seq<Trade>>)
    ensures TradingStats(trades, RowExitPrice()).avgProfitPercent == 0.0
  {
    if trades.Some? && |trades.value| > 0 {
      var closed := Filter(trades.value, IsClosed());
      SumConstant(closed, ProfitPercent(RowExitPrice()), 0.0);
      CopiesIsProduct(|closed|, 0.0);
      assert TotalProfitPercent(trades.value, RowExitPrice()) == 0.0;
    }
  }

  /** A closed trade without an exit price adds nothing to the total but
      still counts among the closed trades the total is divided by. */
  lemma UnpricedTradeDilutesAverage(trades: seq<Trade>, exitPrice: Trade -> Option<real>, t: Trade)
    requires !t.isActive && exitPrice(t).None?
    ensures TotalProfitPercent([t] + trades, exitPrice) == TotalProfitPercent(trades, exitPrice)
    ensures Count([t] + trades, IsClosed()) == Count(trades, IsClosed()) + 1
  {
    assert ([t] + trades)[1..] == trades;
    assert Filter([t] + trades, IsClosed()) == [t] + Filter(trades, IsClosed());
  }

  /** With the last known price as the exit price, the average is the mean
      of the closed trades' percentages: when every closed trade moved by
      the same percentage, that is the average. */
  lemma AvgProfitIsMeanOfClosed(trades: seq<Trade>, p: real)
    requires Count(trades, IsClosed()) > 0
    requires forall t :: t in trades && !t.isActive ==> ProfitPercent(LastKnownExit())(t) == p
    ensures TradingStats(Some(trades), LastKnownExit()).avgProfitPercent == p
  {
    var n := Count(trades, IsClosed());
    TotalOfEqualPercents(trades, LastKnownExit(), p);
    MeanOfCopies(TotalProfitPercent(trades, LastKnownExit()), n, p);
  }

  lemma TotalOfEqualPercents(trades: seq<Trade>, exitPrice: Trade -> Option<real>, p: real)
    requires forall t :: t in trades && !t.isActive ==> ProfitPercent(exitPrice)(t) == p
    ensures TotalProfitPercent(trades, exitPrice) == Copies(Count(trades, IsClosed()), p)
  {
    var percent := ProfitPercent(exitPrice);
    assert forall t :: t in trades && IsClosed()(t) ==> percent(t) == p by {
      forall t | t in trades && IsClosed()(t) ensures percent(t) == p {
        assert !t.isActive;
      }
    }
    SumFilterConstant(trades, IsClosed(), percent, p);
  }

  /** The average of `n` copies of `p` is `p`. */
  lemma MeanOfCopies(total: real, n: nat, p: real)
    requires n > 0 && total == Copies(n, p)
    ensures Average(total, n) == p
  {
    var avg := Average(total, n);
    CopiesIsProduct(n, p);
    assert (avg - p) * n as real == 0.0;
  }

  /** A closed trade bought at 100 whose last price was 110. */
  function ClosedAtTenPercent(): Trade
  {
    Trade(1, 1, "BTC/USD", Decimal(10000, 2), Some(Decimal(11000, 2)), "Long", Decimal(1, 0),
      None, None, None, None, None, None, false, 0, 0, Some(0))
  }

  /** For that one trade the page shows +0.00% as written, +10.00% as
      intended. */
  lemma TenPercentTradeShowsZero()
    ensures TradingStats(Some([ClosedAtTenPercent()]), RowExitPrice()).avgProfitPercent == 0.0
    ensures TradingStats(Some([ClosedAtTenPercent()]), LastKnownExit()).avgProfitPercent == 10.0
  {
    var t := ClosedAtTenPercent();
    AvgProfitAlwaysZeroAsWritten(Some([t]));
    assert Value(t.entryPrice) == 100.0;
    assert Value(LastKnownPrice(t)) == 110.0;
    assert ProfitPercent(LastKnownExit())(t) == 10.0;
    assert Count([t], IsClosed()) == 1;
    AvgProfitIsMeanOfClosed([t], 10.0);
  }

  /** The success-rate label: one decimal and a percent sign. */
  function SuccessLabel(s: Stats): (text: string)
    ensures |text| >= 1 && text[|text| - 1] == '%'
  {
    ToFixed(s.successRate, 1) + "%"
  }

  /** The average-profit label: a '+' for a non-negative average. */
  function AvgProfitLabel(s: Stats): (text: string)
    ensures s.avgProfitPercent >= 0.0 <==> |text| >= 1 && text[0] == '+'
  {
    var digits := ToFixed(s.avgProfitPercent, 2);
    assert s.avgProfitPercent < 0.0 ==> digits[0] == '-';
    (if s.avgProfitPercent >= 0.0 then "+" else "") + digits + "%"
  }

  // ---------------------------------------------------------------------
  // Avatar and tier

  /** `getUserInitials`: "?" without a user or a name; otherwise the first
      letter of each space-separated word, upper-cased, at most two. */
  function Initials(user: Option<User>): (r: string)
    ensures user.None? || user.value.username == "" ==> r == "?"
    ensures user.Some? && user.value.username != "" ==>
      r == Take(Upper(WordStarts(user.value.username, true)), 2)
    ensures |r| <= 2
  {
    if user.None? || user.value.username == "" then "?"
    else
      HeadsOfSplit(user.value.username);
      Take(Upper(Heads(SplitOnSpace(user.value.username))), 2)
  }

  /** A two-word name gives both first letters. */
  lemma InitialsOfTwoWords(created: int)
    ensures Initials(Some(User(1, "jane doe", "", created))) == "JD"
  {
    WordStartsOfJaneDoe();
    assert Upper("jd") == "JD";
  }

  lemma WordStartsOfJaneDoe()
    ensures WordStarts("jane doe", true) == "jd"
  {
    assert WordStarts("doe", true) == "d";
    assert WordStarts(" doe", false) == "d";
    assert WordStarts("e doe", false) == "d";
    assert WordStarts("ne doe", false) == "d";
    assert WordStarts("ane doe", false) == "d";
  }

  /** A name made of spaces gives no initials at all, not "?". */
  lemma InitialsOfSpaces(created: int)
    ensures Initials(Some(User(1, "  ", "", created))) == ""
  {
    assert WordStarts("  ", true) == "";
  }

  /** The tier shown under the name. */
  function Tier(totalTrades: nat): (title: string)
    ensures totalTrades > 50 <==> title == "Expert Trader"
    ensures totalTrades <= 10 <==> title == "Beginner Trader"
  {
    if totalTrades > 50 then "Expert Trader"
    else if totalTrades > 10 then "Experienced Trader"
    else "Beginner Trader"
  }

  function TierRank(title: string): nat
  {
    if title == "Expert Trader" then 2 else if title == "Experienced Trader" then 1 else 0
  }

  /** More trades never lower the tier. */
  lemma TierMonotone(a: nat, b: nat)
    requires a <= b
    ensures TierRank(Tier(a)) <= TierRank(Tier(b))
  {
  }
}
