# TradeSageHub paper-trading dashboard — a Dafny model

TradeSageHub is a dashboard for paper trading. A signed-in user opens
simulated trades (a symbol, a Long or Short position, a quantity, an entry
price, take-profit and stop-loss levels, the exchange API it is meant
for), edits them, stops them, and reads back their trades, an activity
log and a few statistics. This project models the core of that system in
Dafny:

- **Schema**: the three tables `users`, `trades` and `trade_activities`
  (`schema.dfy`), and the insert validators derived from them.
- **Storage**: the data-access layer over those tables (`storage.dfy`).
  The tables are sequences in insertion order with serial counters. The
  column types are explicit: ids are 32-bit integers, and a `NUMERIC(p,s)`
  amount is rounded to `s` fraction digits and refused beyond `p` digits.
  The database errors the ORM can raise are explicit outcomes: a value its
  column cannot read or hold, a NOT NULL column left empty, a taken
  primary key or username, a dangling or broken foreign key, and an empty
  `SET`. A serial value drawn by a failed insert stays used. A `LIMIT` is
  written only for a limit that is a number of at least 0, so NaN and a
  negative limit list everything; a limit beyond the 64-bit range is
  refused.
- **Routes**: the REST handlers under `/api` (`routes.dfy`). Each one takes
  the store, the session's user id (`None` when not signed in), the
  request and the request time, and returns a status, a body and the
  store after the request.
- **Client pages**: the logic of the client pages that read this data.
  - `active_trades.dfy`: tabs, search and sort of the active trades.
  - `trade_history.dfy`: the filtered, sorted activity log and
    closed-trades list, and their cells.
  - `home.dfy`: the stat cards and the pagination.
  - `profile.dfy`: the password form, the trading statistics, the
    initials and the tier.
  - `trade_form.dfy`: the new/edit trade dialog.
  - `trade_card.dfy`: the trade card.
- **JavaScript built-ins** that the pages lean on: `parseFloat`,
  `parseInt`, `toFixed` and the text form PostgreSQL gives a `NUMERIC`
  (`numbers.dfy`); `toLowerCase`, `includes` and `split` (`text.dfy`);
  stable `sort`, `filter`, `slice` and `reduce` (`seqs.dfy`).

A decimal column is a `Decimal(units, scale)`; its value is
`units / 10^scale`. The server sends it as text with exactly `scale`
fraction digits, and `Numbers.ParseShowRoundTrip` proves that `parseFloat`
reads that text back as the value. The client can therefore be modelled
on exact rational values. Timestamps are integer milliseconds. Sorting is
a stable insertion sort driven by a `le(a, b)` relation, which stands for
`compare(a, b) <= 0`. Stability is stated per equivalence class: the
elements that tie with any `y` keep their relative order.

Where the code does something a reader might not expect, the model
follows the code:

- Updating or closing a trade does not refresh `updatedAt`.
- On the home page, an active trade without a current price changes by
  minus its cost, not by zero.
- The history's "to" bound is inclusive of one day after the picked date.
- A trade's owner can be changed by PATCH, which `Routes.OwnershipCanBeTransferred` shows.
- A request body is passed to the insert and to the `SET` as it is, so it can name the trade's `id`.
- The path id is read by `parseInt`, so "0x1f" names trade 31, and an id beyond the 32-bit range answers 500, not 404.
- A timestamp sent in a JSON body is text, which the ORM cannot write to a timestamp column, so the request answers 500.
- The update and its activity are two separate writes: when the second fails, the first stays.

## Model

| member | source | states |
|---|---|---|
| Schema.InsertUserSchema | shared/schema.ts:19-25 | registration input is accepted exactly when a username of at least 3 characters and a password of at least 6 are both present; the accepted user carries them unchanged |
| Schema.CheckTradeInput | shared/schema.ts:56-65 | zod checks every property: the trade input is accepted exactly when owner, non-empty symbol, entry price, position and quantity are all present, both amount texts pass the amount rule, `isActive` is not null, and every optional property sent has its column's type |
| Schema.InsertTradeSchemaAsWritten | shared/schema.ts:56-65 | as written, the amount rule `.min(0)` is a minimum text length of 0, so any entry price and quantity text is accepted once present |
| Schema.InsertTradeSchema | shared/schema.ts:56-65 | as its messages intend: accepted exactly when, in addition, the entry price and quantity read as positive numbers |
| Schema.InsertTradeIgnoresOmitted | shared/schema.ts:60-65 | inputs differing only in the omitted `id`, `createdAt`, `updatedAt` and `closedAt` get the same verdict from both schemas |
| Schema.ZeroEntryPriceSlipsThrough | shared/schema.ts:58-59 | an entry price of "0" passes the schema as written and fails the intended one |
| Schema.InsertActivitySchema | shared/schema.ts:89-92 | an activity input is accepted exactly when user, type and symbol are present; the optional columns pass through unchanged |
| Storage.EmptyStoreValid | shared/schema.ts:7-12 | the empty database satisfies the integrity constraints: unique primary keys below their serial counters, unique usernames, and references to existing rows |
| Storage.FindUser | server/storage.ts:28-33 | `getUser` finds nothing exactly when no row has the id, and otherwise a stored row with that id |
| Storage.CreateUser | server/storage.ts:42-45 | the serial value is drawn first: with it free and the username not taken the row gets it and is appended, nothing else changed; a taken username fails with the serial value used up |
| Storage.UpdateUser | server/routes.ts:162 | an update naming nothing is refused; a missing user yields nothing; otherwise only that user's row changes, taking the given username and password and keeping the rest |
| Storage.GetTrades | server/storage.ts:47-53 | the listing is a permutation of exactly the user's trades, ordered active first and then newest first |
| Storage.GetTradesExactly | server/storage.ts:47-53 | a trade is listed for a user exactly when it is stored and the user owns it |
| Storage.OthersTradeNotListed | server/storage.ts:49 | with unique ids, nothing in a user's listing carries the id of a trade another user owns |
| Storage.GetTradeById | server/storage.ts:55-60 | lookup by id finds nothing exactly when no row has the id, and otherwise a stored row with that id |
| Storage.FindTradeUnique | server/storage.ts:55-60 | in a consistent store the row found is the one row that carries the id |
| Storage.InsertRow | shared/schema.ts:31-49 | an inserted row takes the id it is given and the values sent, and the column defaults for the rest: active, created and updated now, and null for every nullable column not sent |
| Storage.CreateTrade | server/storage.ts:62-65 | a value its column cannot read or hold fails before anything happens; then the serial value is drawn when no id is given and stays used; the insert succeeds exactly when the NOT NULL columns are given, the id is free and the owner exists, and appends the row with its amounts at their columns' scale |
| Storage.RowViolation | shared/schema.ts:31-49 | a new row breaks no constraint exactly when its NOT NULL columns are given, its id is free and its owner exists; a missing NOT NULL value is reported first |
| Storage.InsertedRowFits | shared/schema.ts:31-49 | a row inserted from readable, in-range values fits every column type |
| Storage.Stored | shared/schema.ts:35-42 | an amount is stored rounded to its column's scale when that fits, and a value the column already holds is stored unchanged |
| Storage.Rounded | shared/schema.ts:35-42 | once every amount sent is in range, each is stored as a value that fits its column exactly |
| Storage.Patched | server/storage.ts:67-74 | `SET` replaces exactly the supplied columns, each of the sixteen: a given value is taken, a null clears a nullable column, an absent column keeps its value; the id and the owner may change too |
| Storage.PatchIdempotent | server/storage.ts:67-74 | applying the same update twice leaves the row as one application does |
| Storage.PatchNothing | server/storage.ts:67-74 | an update naming no column leaves the row as it is |
| Storage.PatchedFits | shared/schema.ts:31-49 | a row that fits its columns still fits them after a patch whose amounts are in range |
| Storage.UpdateTrade | server/storage.ts:67-74 | an empty update is refused; values a column cannot read or hold are refused; a missing id yields no trade and no change; for an existing trade it succeeds exactly when no NOT NULL column is cleared, a new id is free, a new owner exists and no referenced id moves; it then returns the patched row with its amounts at their columns' scale and rewrites only rows with that id; a failure changes nothing |
| Storage.CloseTrade | server/storage.ts:76-83 | closing finds nothing exactly when the id is missing; otherwise it returns the row made inactive and closed at `now`, whether or not it was active, and changes only that row |
| Storage.CloseTouchesOnlyStatus | server/storage.ts:79 | closing changes the active flag and the closing time of the row and nothing else in it |
| Storage.UserActivities | server/storage.ts:85-92 | a permutation of exactly the user's activities, newest first |
| Storage.GetTradeActivities | server/storage.ts:85-92 | refused exactly for a limit beyond the 64-bit range; NaN or a negative limit returns every activity of the user; a limit of at least 0 returns at most that many; always only the user's own, newest first, with the store unchanged |
| Storage.ActivitiesPageIsNewest | server/storage.ts:85-92 | an activity of the user left off the page is no newer than any on it, and the page is then full |
| Storage.CreateTradeActivity | server/storage.ts:94-100 | an activity is recorded exactly when its amounts are in range, the next serial value is available and its user and trade exist; it gets that id, its amounts are stored at their columns' scale, and it is appended; a failure after the draw leaves the serial value used |
| Storage.RecordActivity | server/storage.ts:94-100 | an activity whose values fit, naming an existing user and trade, is stored exactly as given under the next serial id |
| Storage.NextActivityIdFree | shared/schema.ts:71-72 | in a consistent store the next serial value of the activities is not yet an id |
| Storage.CreateUserKeepsValid | server/storage.ts:42-45 | a successful user insert preserves the integrity constraints |
| Storage.CreateTradeKeepsValid | server/storage.ts:62-65 | a successful trade insert preserves the integrity constraints |
| Storage.UpdateTradeKeepsValid | server/storage.ts:67-74 | a successful trade update preserves the integrity constraints, the owner included |
| Storage.CloseTradeKeepsValid | server/storage.ts:76-83 | closing preserves the integrity constraints |
| Storage.CreateActivityKeepsValid | server/storage.ts:94-100 | recording an activity preserves the integrity constraints |
| Storage.UpdateUserKeepsValid | server/routes.ts:162 | a successful user update preserves the integrity constraints, unique usernames included |
| Storage.RewriteTradesKeepsConsistent | shared/schema.ts:31-33 | rewriting trades in place with their ids kept and owners that exist keeps the store consistent |
| Storage.RewriteUsersKeepsConsistent | shared/schema.ts:7-9 | rewriting users in place with their ids kept and usernames distinct keeps the store consistent |
| Routes.ListTradesRoute | server/routes.ts:14-30 | without a session the answer is 401; with one it is 200 with a trade list; the store never changes |
| Routes.ListTradesShowsOwnTrades | server/routes.ts:22-30 | the listing holds exactly the caller's trades, active first and then newest first |
| Routes.PathTradeId | server/routes.ts:64-65 | the path id is what `parseInt` reads, and is accepted exactly when that is a number within the 32-bit range the query binds |
| Routes.PathIdReadsDecimal | server/routes.ts:64-65 | a decimal path names that trade up to 2^31 − 1, and beyond it the lookup fails |
| Routes.PathIdReadsHex | server/routes.ts:64 | the path "0x1f" names trade 31 |
| Routes.FromJson | server/routes.ts:34-39 | a timestamp sent in a JSON body arrives as text that its column cannot take; every other property passes unchanged |
| Routes.Posted | server/routes.ts:34-39 | the stored body is the request body with only the owner, the active flag and the creation time overridden by the server |
| Routes.CreateTradeRoute | server/routes.ts:32-60 | 401 without a session; otherwise 201 exactly when the caller exists, the body is well formed (the required columns given, every value readable and in range), the row's id, given or drawn, is free, and the next activity id is available; a 500 leaves users and activities alone |
| Routes.CreatedTradeBelongsToCaller | server/routes.ts:32-60 | a created trade belongs to the caller, is active, was created now, is appended, and is recorded by exactly one "Trade Started" activity priced at the entry price |
| Routes.PostedTrade | server/routes.ts:34-41 | the insert of a post goes through exactly for a well-formed body from an existing caller whose row id is free, and touches neither users nor activities |
| Routes.StartedRecorded | server/routes.ts:44-53 | after the insert, the "Trade Started" activity is recorded exactly when the next activity id is available; a refused one adds no row |
| Routes.GapAfterFailedPost | server/routes.ts:32-60 | a post missing a NOT NULL column answers 500 and uses up a serial value, so the next trade posted gets the number after it |
| Routes.FailedPostDrawsId | server/routes.ts:41 | such a post is the error answer with the trade serial advanced and nothing else changed |
| Routes.NotNullDrawsId | server/storage.ts:62-65 | a readable insert missing a NOT NULL value fails only after drawing its serial value |
| Routes.ExplicitIdBlocksNextSerial | server/routes.ts:34-41 | a trade posted with the id the sequence gives out next succeeds; the next post without an id then collides: 500, a serial value spent, no row added |
| Routes.CollidingPostDrawsId | server/storage.ts:62-65 | a post without an id whose serial value is already taken answers 500 and spends the value |
| Routes.UpdateTradeRoute | server/routes.ts:62-94 | a path that is not a 32-bit id answers 500 and changes nothing; 404 exactly when the trade is missing; 403 exactly when it belongs to another user; 401, 404 and 403 change nothing; a 200 means the patch was one the store takes |
| Routes.UpdateTradeRouteByOwner | server/routes.ts:75-89 | for the owner, 200 exactly when the store takes the patch and it keeps the id; a refused patch answers 500 and changes nothing; a 200 returns the patched row and records one "Trade Modified" activity at the last known price before the update |
| Routes.OwnerUpdate | server/routes.ts:75-89 | once the owner is checked, the answer is 200 or 500, and 200 only for a patch the store takes |
| Routes.TradeValuesFit | shared/schema.ts:31-49 | in a consistent store an existing trade is the row found under its id, its owner exists, and its values, the last known price included, fit their columns |
| Routes.UpdatesOwnedTrade | server/routes.ts:62-94 | the owner's PATCH, from the row, the uniqueness of its id, its owner and a free activity id alone, with the outcome stated for the owner |
| Routes.OwnerUpdateOfRow | server/routes.ts:75-89 | the same outcome for the update after the ownership check |
| Routes.OwnerUpdateMovingId | server/routes.ts:75-87 | a patch that moves the trade to a free id is written, but the activity naming the old id is refused: 500 with the trade changed |
| Routes.MovingIdFreesOldId | server/storage.ts:67-74 | after such a patch no row carries the old id |
| Routes.OwnerUpdateRecorded | server/routes.ts:75-89 | a patch that keeps the id answers 200 with the patched row, and appends exactly one "Trade Modified" activity |
| Routes.IdChangeRefused | server/routes.ts:75 | once an activity refers to a trade, the owner's PATCH that changes its id answers 500 and changes nothing |
| Routes.StopTradeRoute | server/routes.ts:96-128 | a path that is not a 32-bit id answers 500 and changes nothing; 404 exactly when the trade is missing; 403 exactly when it belongs to another user; those and 401 change nothing |
| Routes.StopTradeRouteByOwner | server/routes.ts:109-123 | the owner can always stop a trade, whether active or not: 200, the trade closed at `now`, and exactly one "Trade Stopped" activity at the last known price |
| Routes.StopsOwnedTrade | server/routes.ts:109-123 | the owner's stop, from the row, its owner and a free activity id alone: 200, the row closed at `now`, and one "Trade Stopped" activity at the last known price |
| Routes.StopTwiceRecordsTwice | server/routes.ts:96-128 | stopping a trade twice succeeds twice and appends two activities, since nothing checks that the trade is still active |
| Routes.RequestedLimit | server/routes.ts:133 | a missing or empty `limit` query means 10; the decimal text of `n` means `n` |
| Routes.ActivitiesRoute | server/routes.ts:131-140 | the store never changes; 401 exactly without a session; with one, 500 exactly for a limit beyond the 64-bit range; a 200 lists only the caller's activities, newest first: at most `limit` of them for a limit of at least 0, and all of them for NaN or a negative limit |
| Routes.UnreadableLimitListsEverything | server/routes.ts:133-134 | `?limit=all` reads as NaN, and the feed then returns every activity of the caller |
| Routes.ProfileRoute | server/routes.ts:143-171 | with the password helpers supplied: 401 without a session or with a wrong current password; 200 exactly when the caller's row exists, the SET is not empty, the username is not null and not taken by another user; a 200 writes the given username and the hash of a non-empty new password (keeping the old values otherwise), answers with the stored row without its password, and leaves every other user, all trades and all activities alone; a 500 changes nothing |
| Routes.UpdatedUserFound | server/routes.ts:152-162 | after a successful user update the row under the id carries the given username and new password, or the kept ones when none was given |
| Routes.ProfileRouteAsWritten | server/routes.ts:149-162 | the handler as written answers 401 without a session and 500 otherwise, and never changes the store |
| Routes.ProfileUpdateNeverSucceedsAsWritten | server/routes.ts:149-162 | a user with the right password and a free username gets 500 from the route as written and 200 from the intended one |
| Routes.TransferredRow | server/routes.ts:75 | an owner's PATCH naming another existing user as `userId` succeeds and rewrites the row's owner |
| Routes.TransferRewritesOwner | server/routes.ts:75 | naming an existing user as owner is a patch the store takes, and it rewrites the owner of the trade's row |
| Routes.OwnershipCanBeTransferred | server/routes.ts:71-75 | after such a PATCH the trade leaves the former owner's list, and the former owner's next PATCH of it is refused with 403 |
| Routes.CreateTradeRouteKeepsConsistent | server/routes.ts:32-60 | creating a trade, whatever the outcome, keeps the store consistent |
| Routes.UpdateTradeRouteKeepsConsistent | server/routes.ts:62-94 | updating a trade, whatever the outcome, keeps the store consistent |
| Routes.StopTradeRouteKeepsConsistent | server/routes.ts:96-128 | stopping a trade, whatever the outcome, keeps the store consistent |
| Routes.ProfileRouteKeepsConsistent | server/routes.ts:143-171 | a profile update, whatever the outcome, keeps the store consistent |
| Numbers.ParseFloat | client/src/components/dashboard/new-trade-dialog.tsx:34 | `parseFloat` gives NaN only when the text, after leading white space, is empty or does not start with a digit |
| Numbers.ParseShowRoundTrip | shared/schema.ts:35-42 | the text of a decimal column reads back under `parseFloat` as exactly the column's value |
| Numbers.ParseInt | server/routes.ts:133 | `parseInt` is NaN exactly when no digit follows the leading white space and sign, the digits being hexadecimal after a "0x" or "0X" prefix |
| Numbers.ParseIntRoundTrip | server/routes.ts:133 | `parseInt` reads the decimal text of `n`, and of `-n`, back as `n` and `-n` |
| Numbers.HexRead | server/routes.ts:64 | "0x1f" reads as 31 and "-0X1F" as −31 |
| Numbers.BareHexPrefixIsNaN | server/routes.ts:133 | "0x" with no hexadecimal digit after it is NaN, not 0 |
| Numbers.ExponentRead | client/src/components/dashboard/new-trade-dialog.tsx:34 | "1e3" reads as 1000 and "25e-1" as 2.5 |
| Numbers.DanglingExponentIgnored | client/src/components/dashboard/new-trade-dialog.tsx:34 | in "7e" the dangling exponent is ignored and the text reads as 7 |
| Numbers.RoundToScale | shared/schema.ts:35-42 | rounding to a scale keeps a value with no more digits exactly; otherwise the result is within half a unit, a tie going away from zero, with the sign kept |
| Numbers.FitColumn | shared/schema.ts:35-42 | a NUMERIC(p,s) column stores the value rounded to `s` digits, and refuses it exactly when the rounded value needs more than `p` digits |
| Numbers.FitColumnKeeps | shared/schema.ts:35-42 | a value the column already holds is stored unchanged |
| Numbers.PriceColumnExamples | shared/schema.ts:35 | NUMERIC(10,2) stores 0.004 as 0.00, 0.005 as 0.01 and −1.245 as −1.25, and refuses a billion |
| Numbers.RoundHalfUp | client/src/components/dashboard/trade-card.tsx:44 | the rounded digit count is the nearest integer to the scaled value, halves rounded up |
| Numbers.ToFixedClose | client/src/components/dashboard/trade-card.tsx:44 | the text `toFixed(f)` writes reads back within half a unit of its last digit |
| Numbers.ToFixedDecimals | client/src/pages/trade-history-page.tsx:161-163 | `toFixed(f)` with `f > 0` writes a point followed by exactly `f` digits |
| Numbers.ToFixedShown | client/src/components/dashboard/trade-card.tsx:121 | `toFixed` at a column's own scale writes exactly the text the database returned for it |
| Numbers.ToFixedChars | client/src/pages/home-page.tsx:78 | `toFixed` of a non-negative number writes only digits and points |
| Seqs.Filter | client/src/pages/active-trades-page.tsx:27 | `filter` keeps only elements satisfying the predicate, never more than it was given, all drawn from the input |
| Seqs.SortBy | client/src/pages/active-trades-page.tsx:45-58 | `sort` returns a permutation of its input |
| Seqs.SortBySorted | client/src/pages/active-trades-page.tsx:45-58 | with a total preorder as comparator the result is sorted |
| Seqs.SortByStable | client/src/pages/active-trades-page.tsx:45-58 | the sort is stable: the elements tying with any `y` keep their relative order |
| Seqs.SortByAllTied | client/src/pages/active-trades-page.tsx:55-56 | a comparator that ties everything leaves the list as it is |
| Seqs.SortBySortedIsIdentity | client/src/pages/trade-history-page.tsx:73-82 | sorting an already sorted list leaves it as it is |
| Seqs.SortByLeastFirst | client/src/pages/profile-page.tsx:124-129 | the first element after sorting is an element of the input that precedes or ties with every other |
| Seqs.Slice | client/src/pages/home-page.tsx:104 | `slice(start, end)` with non-negative bounds is the clamped range of the list |
| Seqs.SliceClamped | client/src/pages/home-page.tsx:104 | `slice` agrees with plain indexing once both bounds are clamped to the length |
| Text.Lower | client/src/pages/active-trades-page.tsx:32 | `toLowerCase` on ASCII letters: same length, no capital left, every other character kept, each capital replaced by its small letter |
| Text.Upper | client/src/pages/profile-page.tsx:156 | `toUpperCase` on ASCII letters: same length, no small letter left, every other character kept, each small letter replaced by its capital |
| Text.LowerForgetsCase | client/src/pages/active-trades-page.tsx:37-42 | lower-casing twice is lower-casing once, and lower-casing the upper-cased text gives the lower-cased text, so a search ignores case |
| Text.Contains | client/src/pages/active-trades-page.tsx:39 | `includes` holds exactly when the term occurs at some index |
| Text.SplitOnSpace | client/src/pages/profile-page.tsx:153 | `split(" ")` yields at least one piece |
| Text.HeadsOfSplit | client/src/pages/profile-page.tsx:152-155 | the first letters of the pieces of `split(" ")` are exactly the characters that start a word |
| ActiveTrades.SortOrderIsPreorder | client/src/pages/active-trades-page.tsx:45-58 | every sort key, the unknown ones included, selects a total preorder |
| ActiveTrades.Narrowed | client/src/pages/active-trades-page.tsx:27-42 | the active, position and search filters applied one after the other select exactly the trades that pass all three |
| ActiveTrades.FilteredTrades | client/src/pages/active-trades-page.tsx:24-59 | nothing before the trades load; then a permutation of the selected trades, sorted by the chosen key |
| ActiveTrades.ListedExactly | client/src/pages/active-trades-page.tsx:24-59 | a trade is listed exactly when it was loaded and is active, of the tab's position and matched by the search |
| ActiveTrades.TiesKeepServerOrder | client/src/pages/active-trades-page.tsx:45-58 | trades the key cannot tell apart keep the server's order; under an unknown key the whole list does |
| ActiveTrades.GetTradeCount | client/src/pages/active-trades-page.tsx:61-71 | no count before the trades load, and never more than were loaded |
| ActiveTrades.TabCountIsListLength | client/src/pages/active-trades-page.tsx:61-71 | the count on a tab is the length of that tab's list when nothing is searched |
| ActiveTrades.TabSelection | client/src/pages/active-trades-page.tsx:64-70 | without a search term a tab selects the active trades, or the active trades of its position |
| ActiveTrades.PositionTabsWithinAll | client/src/pages/active-trades-page.tsx:61-71 | the Long and Short counts together never exceed the All count |
| Home.ChangeOfTrade | client/src/pages/home-page.tsx:57-61 | an active trade changes by (current − entry) × quantity, and by minus its cost when it has no current price |
| Home.Percentage | client/src/pages/home-page.tsx:69-71 | the percentage is 0 when nothing was invested, and otherwise the profit as a share of the investment, of the same sign |
| Home.PercentageLabel | client/src/pages/home-page.tsx:78 | the label starts with an up arrow exactly for a positive percentage, then a space, and ends in a percent sign |
| Home.IncreaseIffPositive | client/src/pages/home-page.tsx:78 | the card reads as an increase exactly when the percentage is positive |
| Home.NoUpArrow | client/src/pages/home-page.tsx:78 | a down-arrow label holds no up arrow anywhere |
| Home.DownLabelChars | client/src/pages/home-page.tsx:78 | no character of a down-arrow label is an up arrow |
| Home.ConnectedIffRecentUpdate | client/src/pages/home-page.tsx:81-87 | the status is "Connected" exactly when some trade was updated within the last day |
| Home.Stats | client/src/pages/home-page.tsx:30-96 | fixed placeholders before the trades load; then the active count, a balance that is the active trades' cost plus the closed trades' cost, the change of the active trades, a percentage card that reads as an increase exactly when that change is a positive share of their cost, and "Connected" exactly when some trade was updated within the last day |
| Home.EmptyListShowsDecrease | client/src/pages/home-page.tsx:31-39 | a loaded but empty list shows "↓ 0.00%", not the "0.0%" shown before loading |
| Home.Paginate | client/src/pages/home-page.tsx:99-105 | nothing before loading; never more than 3 trades; page `p` is the active trades from index 3(p−1), clamped |
| Home.PageCount | client/src/pages/home-page.tsx:107-111 | 1 before loading; otherwise the least number of 3-trade pages holding every active trade |
| Home.PreviousPage | client/src/pages/home-page.tsx:220 | the previous page is never below 1 and is one less from any page above 1 |
| Home.NextPage | client/src/pages/home-page.tsx:238 | the next page never passes the page count and is one more from any page below it |
| Home.ControlsStayInRange | client/src/pages/home-page.tsx:215-241 | from a page in range, both controls lead to a page in range |
| Home.PageIsShown | client/src/pages/home-page.tsx:99-105 | page `k` of the paged list is what the page shows on page `k` |
| Home.PagesArePrefix | client/src/pages/home-page.tsx:99-105 | the first `k` pages together hold the first 3k active trades |
| Home.PagesCoverActiveTrades | client/src/pages/home-page.tsx:99-111 | walking through every page shows every active trade exactly once, in order |
| TradeCard.Magnitude | client/src/components/dashboard/trade-card.tsx:44 | the magnitude has the value's scale and its absolute value |
| TradeCard.PercentSuffix | client/src/components/dashboard/trade-card.tsx:40 | the percentage suffix is empty exactly when the column is null |
| TradeCard.CardProfitLoss | client/src/components/dashboard/trade-card.tsx:36-55 | green exactly for a positive profit/loss, red exactly for a negative one, grey "$0.00" otherwise; a signed amount is the magnitude to two decimals followed by the suffix |
| TradeCard.CardShowsStoredAmount | client/src/components/dashboard/trade-card.tsx:44-49 | a profit/loss stored at scale 2 is printed digit for digit as stored |
| TradeCard.CardAmountToTheCent | client/src/components/dashboard/trade-card.tsx:44-49 | whatever its scale, the printed amount reads back within half a cent of the magnitude |
| TradeCard.BorderClass | client/src/components/dashboard/trade-card.tsx:29-33 | the border is plain exactly without a profit/loss and green exactly for a non-negative one |
| TradeCard.BarClass | client/src/components/dashboard/trade-card.tsx:146 | the bar is never plain, and is green exactly for a non-negative profit/loss |
| TradeCard.ToneAndAccents | client/src/components/dashboard/trade-card.tsx:29-55 | label, border and bar agree on gains and losses; a zero profit/loss has a grey label and a green border; a null one a plain border but a red bar |
| TradeCard.PriceLine | client/src/components/dashboard/trade-card.tsx:121 | a null price prints "$NaN"; a price at scale 2 prints as stored |
| TradeCard.PriceLines | client/src/components/dashboard/trade-card.tsx:121-155 | four price lines; the current one shows the last known price, and without a current price it repeats the entry line |
| TradeCard.CalculateProgress | client/src/components/dashboard/trade-card.tsx:58-73 | the progress lies between 0 and 100, and is 50 when the current price or a level is missing or the two levels coincide |
| TradeCard.ProgressIgnoresPosition | client/src/components/dashboard/trade-card.tsx:58-73 | the progress does not depend on whether the position is Long or Short |
| TradeCard.ProgressBetweenLevels | client/src/components/dashboard/trade-card.tsx:68-72 | between the levels the bar is exactly proportional to the distance from the stop; it is empty at the stop and full at or past the full range |
| TradeForm.AmountErrors | client/src/components/dashboard/new-trade-dialog.tsx:33-48 | an amount field has no error exactly when it reads as a positive number |
| TradeForm.EmptyIsNotPositive | client/src/components/dashboard/new-trade-dialog.tsx:33-48 | a text that reads as positive is not empty, so `.min(1)` adds nothing to the refinement |
| TradeForm.ValidateTradeForm | client/src/components/dashboard/new-trade-dialog.tsx:30-51 | the form is valid exactly when symbol, position and API are non-empty and the four amounts read as positive numbers; the values pass unchanged |
| TradeForm.NotesNeverReject | client/src/components/dashboard/new-trade-dialog.tsx:50 | the notes never decide whether the form is valid |
| TradeForm.DefaultFormIncomplete | client/src/components/dashboard/new-trade-dialog.tsx:71-80 | a fresh dialog cannot be submitted as it is |
| TradeForm.Prefill | client/src/components/dashboard/new-trade-dialog.tsx:84-108 | a new trade gets the defaults; an edited trade its own symbol and position, its API or "Binance", its notes or "" |
| TradeForm.PrefillReadsBack | client/src/components/dashboard/new-trade-dialog.tsx:89-92 | the prefilled amount texts read back as the trade's own values |
| TradeForm.NullIsNotANumber | client/src/components/dashboard/new-trade-dialog.tsx:91-92 | the text of a null level is not a number |
| TradeForm.PrefillValidExactly | client/src/components/dashboard/new-trade-dialog.tsx:84-95 | an edited trade can be saved unchanged exactly when symbol and position are non-empty, both levels are set, and all four amounts are positive |
| TradeForm.OnSubmit | client/src/components/dashboard/new-trade-dialog.tsx:159-165 | a request is made exactly for a valid form; it carries the values, and is an update of the edited trade exactly in edit mode |
| TradeHistory.ActivityOrderIsPreorder | client/src/pages/trade-history-page.tsx:73-82 | every sort key of the log selects a total preorder |
| TradeHistory.NarrowedActivities | client/src/pages/trade-history-page.tsx:37-70 | the four filters applied in turn select exactly the activities that pass all of them |
| TradeHistory.NarrowedActivitiesSelect | client/src/pages/trade-history-page.tsx:39-70 | each filter skipped when its control is empty and applied otherwise, in turn, equals one filter by the conjunction |
| TradeHistory.ActivityConjunction | client/src/pages/trade-history-page.tsx:39-70 | a skipped filter contributes nothing to that conjunction |
| TradeHistory.FilteredActivities | client/src/pages/trade-history-page.tsx:34-83 | nothing before the log loads; then a permutation of the selected activities, sorted by the key |
| TradeHistory.ActivityListedExactly | client/src/pages/trade-history-page.tsx:34-83 | an activity is listed exactly when it was loaded and is within the dates, of the type and matched by the search |
| TradeHistory.ActivityTiesKeepOrder | client/src/pages/trade-history-page.tsx:73-82 | activities the key ties keep their order; under a key other than the two date keys the log keeps its order entirely |
| TradeHistory.ClearedShowsServerPage | client/src/pages/trade-history-page.tsx:148-154 | with the filters cleared the page shows the server's activity page exactly, in its order |
| TradeHistory.TypeLabel | client/src/pages/trade-history-page.tsx:189-200 | any type other than the three recorded kinds is shown as its own badge |
| TradeHistory.RecordedKindsHaveBadges | client/src/pages/trade-history-page.tsx:189-196 | the three kinds the server records get the badges Started, Modified and Stopped |
| TradeHistory.ActivitiesEmptyHint | client/src/pages/trade-history-page.tsx:326-328 | the empty log suggests trading exactly when no filter but the sort is set |
| TradeHistory.ClosedOrderIsPreorder | client/src/pages/trade-history-page.tsx:118-131 | every sort key of the closed list selects a total preorder |
| TradeHistory.NarrowedClosed | client/src/pages/trade-history-page.tsx:89-115 | the filters applied in turn select exactly the closed trades that pass all of them |
| TradeHistory.NarrowedClosedSelect | client/src/pages/trade-history-page.tsx:89-115 | each filter skipped or applied in turn equals one filter by the conjunction |
| TradeHistory.ClosedConjunction | client/src/pages/trade-history-page.tsx:89-115 | a skipped filter contributes nothing to that conjunction |
| TradeHistory.FilteredClosedTrades | client/src/pages/trade-history-page.tsx:86-132 | nothing before the trades load; then a permutation of the selected closed trades, sorted by the key, none of them active |
| TradeHistory.ClosedListedExactly | client/src/pages/trade-history-page.tsx:86-132 | a trade is listed exactly when it was loaded, is closed, and passes the dates and the search |
| TradeHistory.ClosedTiesKeepOrder | client/src/pages/trade-history-page.tsx:118-131 | closed trades the key ties keep their order; under an unknown key the list keeps its order entirely |
| TradeHistory.ClosedIgnoresActivityType | client/src/pages/trade-history-page.tsx:86-132 | the activity type picked for the log has no effect on the closed list |
| TradeHistory.ClosedEmptyHint | client/src/pages/trade-history-page.tsx:405-407 | the empty list suggests closing trades exactly when no search and no dates are set |
| TradeHistory.FormatPrice | client/src/pages/trade-history-page.tsx:156-164 | NaN prints "$0.00"; otherwise a dollar sign, then the price with exactly two decimals from a dollar up and four below, reading back within half a unit of its last digit |
| TradeHistory.PriceCellShowsStored | client/src/pages/trade-history-page.tsx:457 | a price of a dollar or more stored at scale 2 is shown exactly as stored |
| TradeHistory.HistoryProfitLoss | client/src/pages/trade-history-page.tsx:167-187 | green exactly for a positive amount, red exactly for a negative one, grey "$0.00" otherwise |
| TradeHistory.ClosedTradeProfitLoss | client/src/pages/trade-history-page.tsx:443 | the closed row's profit/loss has the colour the trade card gives the same trade |
| TradeHistory.HistoryAgreesWithCard | client/src/pages/trade-history-page.tsx:443 | the row and the card agree: same colour, and the card's text is the row's text, a space and the percentage |
| Profile.CheckProfile | client/src/pages/profile-page.tsx:19-27 | the form is accepted exactly when the username has 3 characters, the current password one, the new password passes its rule, and a given new password is confirmed |
| Profile.ProfileSchemaAsWritten | client/src/pages/profile-page.tsx:19-27 | as written, a new password that is present must have at least 6 characters, even when empty |
| Profile.ProfileSchema | client/src/pages/profile-page.tsx:19-27 | as the rest of the page reads it, an empty new password means no change and is accepted |
| Profile.ResetValues | client/src/pages/profile-page.tsx:160-178 | Edit and Cancel reset the form to empty passwords and the user's name |
| Profile.KeepPasswordRejectedAsWritten | client/src/pages/profile-page.tsx:22 | a user who leaves the new password empty is refused as written and accepted as intended |
| Profile.AsWrittenAlwaysChangesPassword | client/src/pages/profile-page.tsx:22 | as written, every accepted form that carries a new password carries one of at least 6 characters |
| Profile.IntendedSchemaIsWeaker | client/src/pages/profile-page.tsx:19-27 | whatever the schema as written accepts, the intended one accepts too |
| Profile.ValidFormCanBeSubmitted | client/src/pages/profile-page.tsx:476-480 | the submit button never blocks a form the intended schema accepts |
| Profile.Rate | client/src/pages/profile-page.tsx:110 | the success rate is a percentage between 0 and 100, and 0 without closed trades |
| Profile.Average | client/src/pages/profile-page.tsx:121 | the average times the count is the total, and it is 0 without closed trades |
| Profile.CountsAddUp | client/src/pages/profile-page.tsx:102-108 | every trade is active or closed, and a winning trade is closed |
| Profile.StatsOf | client/src/pages/profile-page.tsx:102-145 | for a non-empty list: active and winning counts, active + winning + losing = total, a success rate within 0..100, the average over closed trades, and the first trade's date |
| Profile.TradingStats | client/src/pages/profile-page.tsx:89-146 | zeros and "April 2025" before loading or for no trades; otherwise the statistics of the list |
| Profile.LosingIsClosedWithoutGain | client/src/pages/profile-page.tsx:143 | the losing count is the number of closed trades without a positive profit/loss |
| Profile.ClosedSplitsByGain | client/src/pages/profile-page.tsx:103-108 | the closed trades split into winning and losing ones |
| Profile.ClosedWithGain | client/src/pages/profile-page.tsx:106-108 | the closed trades with a gain are the winning trades |
| Profile.ClosedWithoutGain | client/src/pages/profile-page.tsx:143 | the closed trades without a gain are the losing trades |
| Profile.MemberSinceIsEarliest | client/src/pages/profile-page.tsx:124-135 | the member-since date is the creation time of one of the trades, and no trade is older |
| Profile.OldestIsFirst | client/src/pages/profile-page.tsx:124-129 | after sorting oldest first, the first trade is one of the trades and none is older |
| Profile.AvgProfitAlwaysZeroAsWritten | client/src/pages/profile-page.tsx:113-121 | as written, the rows have no `exitPrice`, so the average profit is 0 whatever the trades did |
| Profile.AvgProfitIsMeanOfClosed | client/src/pages/profile-page.tsx:113-121 | with the last known price as exit price, closed trades that each made `p` percent average to `p` |
| Profile.UnpricedTradeDilutesAverage | client/src/pages/profile-page.tsx:113-121 | a closed trade without an exit price adds nothing to the total profit percentage but still counts in the number it is divided by |
| Profile.TenPercentTradeShowsZero | client/src/pages/profile-page.tsx:116-117 | one trade closed 10% up shows 0% as written and 10% as intended |
| Profile.SuccessLabel | client/src/pages/profile-page.tsx:231 | the success label ends in a percent sign |
| Profile.AvgProfitLabel | client/src/pages/profile-page.tsx:380-381 | the average label starts with '+' exactly for a non-negative average |
| Profile.Initials | client/src/pages/profile-page.tsx:149-158 | "?" without a user or a name; otherwise the first two word starts, with ASCII letters upper-cased |
| Profile.InitialsOfTwoWords | client/src/pages/profile-page.tsx:152-157 | "jane doe" gives "JD" |
| Profile.InitialsOfSpaces | client/src/pages/profile-page.tsx:150-157 | a name made only of spaces gives no initials at all, not "?" |
| Profile.Tier | client/src/pages/profile-page.tsx:207 | "Expert Trader" exactly above 50 trades, "Beginner Trader" exactly at 10 or fewer |
| Profile.TierMonotone | client/src/pages/profile-page.tsx:207 | more trades never lower the tier |

## Left out

- Sessions and passport: the signed-in user is an `Option<int>` argument of every route; registration, login and `getUserByUsername`, which only they use, are not modelled.
- Password checking and hashing are foreign calls: `Routes.ProfileRoute` takes the verdict and a hash function as parameters.
- Clocks: every route takes one `now`, used both for the trade and for its activity; the home page takes `now` for `Date.now()`.
- Concurrency: the two writes of a route (the trade, then its activity) are taken one after the other, with no other request in between. They are not one transaction, and the model keeps that: when the activity fails, the trade's write stays.
- Loading states, toasts, query invalidation, dialogs opening and closing, and all markup other than the texts and classes modelled.
- Currency formatting with `Intl.NumberFormat`: `Home.Stats` keeps the amount behind each money card rather than its text.
- Date formatting and locales: the member-since date is kept as the time of the first trade; "April 2025" is the fixed text shown without trades.
- Daylight-saving time in `setDate(getDate() + 1)`: the history's upper bound adds exactly one day of milliseconds.
- Floating point: every amount is an exact rational number. `toFixed` rounds halves up on that exact value, without binary rounding.
- `parseFloat` of "Infinity" and the limits of a double: "Infinity" reads as a positive number in JavaScript and passes the form's amount rule, but is NaN in the model; "5e-400" reads as 0 in JavaScript and is refused, but is a tiny positive number in the model; "1e400" is Infinity in JavaScript and a large exact number in the model. Exponents, hexadecimal `parseInt` ("0x10" as a limit, "0x5" as a path id) and every white space JavaScript skips, the Unicode space separators included, are modelled.
- `parseInt` of more than 15 significant digits: JavaScript rounds the result to a double, the model keeps it exact. Only limits between 2^53 and the 64-bit bound read differently.
- A repeated query parameter (`?limit=1&limit=2`), which Express turns into an array: the model takes the limit as one optional text.
- `toFixed` of a number of 10^21 or more, which JavaScript writes in exponent form; no column holds such a number.
- The NUMERIC special values: PostgreSQL reads the text "NaN" into a NUMERIC column, and the model has no value for it.
- Text.Lower / Text.Upper: case mapping covers the ASCII letters only, and a string is a sequence of code points. In JavaScript, "élodie" has the initial "É" but the model gives "é"; `"ß".toUpperCase()` is "SS", one character longer; a search for "éth" finds "ÉTH" in JavaScript but not in the model.
- Profile.Initials: `n[0]` and `substring(0, 2)` count UTF-16 units in JavaScript, so a name starting with an emoji gives half a surrogate pair there; the model takes whole code points.
- When a failed insert uses up its serial value: the model draws the value for NOT NULL, primary key and foreign key failures, which PostgreSQL finds while running the insert. It does not draw it for a value that cannot be read or that overflows its column. Those errors arise while the statement's parameters are bound and planned, before `nextval` runs.
- A zero entry price: the profile's profit percentage would divide by zero and give Infinity or NaN. The model counts that trade as 0.
- A null activity status under a search term: JavaScript would throw, while the model treats it as no match. The routes always record a status.
- The JSON `metadata` column of `trade_activities`, which nothing writes.
- The amount cell of the activity log (`parseFloat(amount).toString()`), which uses JavaScript's shortest number printing.
- The activity page the history fetches: the model takes it as a parameter, the server's default page of 10.
- Home.Stats: the balance and daily profit are stated as exact sums, not as their currency text.
- Numbers.ParseFloat: the contract states when the result is NaN. The value is pinned down by lemmas: for the texts the database and the forms produce (`Numbers.ParseShowRoundTrip`, `TradeForm.PrefillReadsBack`), and for exponents (`Numbers.ExponentRead`, `Numbers.DanglingExponentIgnored`).
- Text.SplitOnSpace: the contract only bounds the piece count. The pieces themselves are stated through `Text.HeadsOfSplit`, which is all the initials use.
- Profile.SuccessLabel: the contract states the suffix only. The digits come from `toFixed(1)`, whose properties `Numbers.ToFixedClose` states.
- TradeCard.PriceLine: the text is pinned down only for prices at the column's scale of 2. Other scales are covered by `Numbers.ToFixedClose`.

## Findings

| source | as written | input that shows it | evidently intended | confidence | as-written member | corrected member |
|---|---|---|---|---|---|---|
| shared/schema.ts:58-59 | `.min(0, "... must be positive")` is applied to decimal columns, which the derived schema treats as strings, so it asks for a text of length at least 0 | an insert body with `entryPrice: "0"` is accepted | entry price and quantity must be positive numbers | not executed | Schema.ZeroEntryPriceSlipsThrough | Schema.InsertTradeSchema |
| client/src/pages/profile-page.tsx:22 | `newPassword` is `.min(6).optional()`, while the form's default and reset value is "" | username "alice", current password "secret", new password "" and confirmation "" are refused | an empty new password keeps the old one; line 24, line 479 and server/routes.ts:158 all read it that way | not executed | Profile.KeepPasswordRejectedAsWritten | Profile.ProfileSchema |
| server/routes.ts:149-162 | the profile route calls `storage.validateUserPassword`, `storage.hashPassword` and `storage.updateUser`, none of which server/storage.ts defines, so the call throws and the route answers 500 | user 1 "alice" sends a correct current password and the new username "alice2" | verify the password, hash a new one, update the row, answer 200 without the password | not executed | Routes.ProfileUpdateNeverSucceedsAsWritten | Routes.ProfileRoute |
| client/src/pages/profile-page.tsx:116-117 | the average profit reads `trade.exitPrice`, which is not a column of `trades` (shared/schema.ts:31-49), so every closed trade adds nothing | one trade bought at 100, last priced at 110 and closed: the page shows +0.00% | the exit price is the last known price, as in the history table (trade-history-page.tsx:460) | not executed | Profile.TenPercentTradeShowsZero | Profile.AvgProfitIsMeanOfClosed |
