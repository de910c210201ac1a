# MarketSurveys mechanisms and codebook utilities in Dafny

This project models four pieces of the MarketSurveys multi-agent market simulator and proves properties of them.

- **The double auction (`DoubleAuction`).** Each round, agents submit single-unit bids and asks. The round works in these steps:
  - Bids join the waiting bids and asks join the waiting asks.
  - Both books are sorted: bids by price descending, asks ascending. The sort is stable, so ties keep submission order.
  - While the best bid reaches the best ask, the two heads trade at the midpoint price and leave the books.
  - The new trades are appended to the session's trade log. Their ids continue the log's numbering.
  - The round reports a market summary of its own trades and a private observation for each agent involved.
- **The research round (`ResearchMechanism`).**
  - It counts rounds and stores one map of agent summaries per accepted step.
  - In batched mode, it builds one observation and one reward per agent.
  - In batched mode, on the final round, it returns every stored summary, numbered from 1.
  - `ResearchEnvironment.reset` clears the environment and resets its mechanism.
- **`_indicator_to_file_name`.** It turns an indicator title into a file name in four steps:
  - lower-case the title;
  - replace special characters with `_`;
  - collapse runs of whitespace and underscores;
  - strip `_` from both ends.
- **`_clean_imported_excel_values`.** It classifies a spreadsheet cell:
  - it passes non-text values through;
  - it maps the marker `..` and text holding a letter to a missing value;
  - it reads other text as an integer, then a float, and otherwise keeps it as text.

## Representation

- **Modules.** There is one module per concern:
  - `AuctionTypes`: orders, trades, summaries and observations.
  - `PriceSort`: the stable sort.
  - `Matching`: the matching loop as a function on the sorted book.
  - `MarketSummaries`.
  - `Observations`.
  - `DoubleAuctionMechanism`: the session class.
  - `Research`.
  - `Text`: ASCII character classes, `strip`, `str(int)`.
  - `IndicatorFileName`.
  - `ExcelValues`.
  - `Wrappers`: `Option` and `Result`.
- **The session classes.** `DoubleAuction` and `ResearchMechanism` are classes whose fields the methods update in place.
  - Each round method states the new state as a function of the old one.
  - The methods keep a `Valid()` invariant. For `DoubleAuction`, it says that trade ids equal log positions, every trade is well formed, and each book holds only its own side.
- **Matching.** The loop in `_match_orders` is a `while` loop, `MatchLoop`, proved equal to the function `Matching.Match`. The properties of the round are lemmas about `Match`.
- **Prices and averages** are exact `real` values.
- **Validated actions.** An `AuctionAction` that passed its quantity validator is the subset type `ValidAction` (quantity 1). `NewAuctionAction` is the validator.
- **Research inputs** are a tagged variant:
  - a typed local action;
  - a typed global action;
  - a dict, given by what parsing it yields in each mode;
  - anything else.

  Parse failures and type errors are explicit `StepError` results.
- **The Excel cleaner's numbers.** `int()` and `float()` are modelled by their literal grammars: an optional sign, digits with single underscores between them, and an optional point. A float is the exact decimal value of its literal.
- **The file-name docstring.** Its example gives `db17_20` for `DB17-20`. The code keeps the hyphen, because both patterns exclude `-`, so it produces `db17-20`. The model follows the code: `IndicatorFileName.ToFileNameShape` proves that hyphens survive.

## Model

| member | source | states |
|---|---|---|
| AuctionTypes.NewAuctionAction | market_agents/environments/mechanisms/auction.py:25-29 | An action is accepted exactly when its quantity is 1, and is then kept unchanged. Any other quantity is refused with "Quantity must be 1". |
| PriceSort.Sort | market_agents/environments/mechanisms/auction.py:139-140 | Sorting only reorders: the result is a permutation of the book. |
| PriceSort.SortIsSorted | market_agents/environments/mechanisms/auction.py:139-140 | The sorted book is ordered by price: bids highest first (`reverse=True`), asks lowest first. |
| PriceSort.SortIsStable | market_agents/environments/mechanisms/auction.py:139-140 | Among orders of one price, the sort keeps submission order. Python's sort is stable; with the two lemmas above this fixes the result. |
| PriceSort.InsertPermutes | market_agents/environments/mechanisms/auction.py:139-140 | Inserting one order adds exactly that order to the multiset of the book. |
| PriceSort.InsertSorted | market_agents/environments/mechanisms/auction.py:139-140 | Inserting into a sorted book keeps it sorted. |
| Matching.Match | market_agents/environments/mechanisms/auction.py:142-167 | Matching makes at most as many trades as there are bids, and at most as many as asks. The books left are what follows the matched prefixes. |
| Matching.MatchTrades | market_agents/environments/mechanisms/auction.py:136-160 | Trade i pairs the i-th bid with the i-th ask and has id `first id + i`. Its buyer and seller are those orders' agents. It is well formed: bid price ≥ ask price, price is the midpoint and so lies between them, quantity 1, the session's good. |
| Matching.MatchPairs | market_agents/environments/mechanisms/auction.py:142-164 | Trade i is built from the i-th bid and the i-th ask, and that bid reached that ask. |
| AuctionTypes.PriceBetween | market_agents/environments/mechanisms/auction.py:147 | The midpoint price of a trade whose bid reached its ask lies between the ask and the bid. |
| Matching.CrossingTradeIsWellFormed | market_agents/environments/mechanisms/auction.py:146-158 | A trade between a bid and an ask it reaches is well formed. |
| Matching.MatchLeavesNoCrossingHeads | market_agents/environments/mechanisms/auction.py:142-167 | When matching stops with both books non-empty, the head bid is strictly below the head ask. |
| Matching.MatchConserves | market_agents/environments/mechanisms/auction.py:142-164 | Conservation, as multisets: the bids the trades consumed plus the bids left are the bids that were matched. The same holds for asks. |
| Matching.ConsumedArePrefixes | market_agents/environments/mechanisms/auction.py:143-164 | The orders recorded in the trades are the prefixes of the two books that were popped. |
| Matching.TradeRecordsItsOrders | market_agents/environments/mechanisms/auction.py:149-158 | A trade records enough to rebuild the bid and the ask it consumed. |
| Matching.MatchOnSortedBook | market_agents/environments/mechanisms/auction.py:139-167 | On a sorted book, the books left stay sorted, and every remaining bid is strictly below every remaining ask. |
| Matching.HeadIsBest | market_agents/environments/mechanisms/auction.py:139-144 | The head of a sorted book is the highest bid or the lowest ask. |
| DoubleAuctionMechanism.MatchLoop | market_agents/environments/mechanisms/auction.py:134-169 | The `while` loop over the heads produces exactly the trades and remaining books of `Match`, with ids starting at the given id. |
| DoubleAuctionMechanism.BatchSplits | market_agents/environments/mechanisms/auction.py:122-132 | Every action of a batch lands in exactly one book, and nothing else is added. |
| DoubleAuctionMechanism.RoundKeepsSides | market_agents/environments/mechanisms/auction.py:122-140 | After a round, the bid book holds only bids and the ask book only asks. |
| DoubleAuctionMechanism.RoundLeavesNoCross | market_agents/environments/mechanisms/auction.py:139-167 | After a round, the books are sorted and every waiting bid is below every waiting ask. |
| DoubleAuctionMechanism.RoundConserves | market_agents/environments/mechanisms/auction.py:122-164 | A round conserves orders. The trades number at most the bids, and at most the asks, available. Consumed plus waiting orders equal the orders that were waiting plus the batch. |
| DoubleAuctionMechanism.ExtendKeepsLogValid | market_agents/environments/mechanisms/auction.py:106-160 | Extending the log with a matching numbered from the log's length keeps ids equal to positions 0..n-1. Earlier trades are unchanged. |
| DoubleAuctionMechanism.DoubleAuction.constructor | market_agents/environments/mechanisms/auction.py:92-98 | A new session is at round 0 with an empty log and empty books. |
| DoubleAuctionMechanism.DoubleAuction.Default | market_agents/environments/mechanisms/auction.py:93-98 | The field defaults: 10 rounds of "apple", round 0, everything empty. |
| DoubleAuctionMechanism.DoubleAuction.Step | market_agents/environments/mechanisms/auction.py:102-120 | The round counter grows by one. The log grows by exactly the round's matching, numbered from the old log length. The books become what the matching leaves. The result carries the new trades, their summary, the per-agent observations, `done` iff the round reached the maximum, and the round number. The session invariant is kept. |
| DoubleAuctionMechanism.DoubleAuction.UpdateWaitingOrders | market_agents/environments/mechanisms/auction.py:122-132 | The batch's bids are appended to the waiting bids and its asks to the waiting asks, in batch order. The log and the round do not change. |
| DoubleAuctionMechanism.DoubleAuction.MatchOrders | market_agents/environments/mechanisms/auction.py:134-169 | The new trades and books are `Match` applied to the sorted books, numbered from the log's length. The log does not change. |
| DoubleAuctionMechanism.DoubleAuction.SortWaitingOrders | market_agents/environments/mechanisms/auction.py:139-140 | Both books are replaced by their stable sorts, bids descending and asks ascending. |
| DoubleAuctionMechanism.DoubleAuction.CrossBooks | market_agents/environments/mechanisms/auction.py:142-169 | The books are replaced by what `Match` leaves, and the trades it forms are returned. |
| DoubleAuctionMechanism.DoubleAuction.GetGlobalState | market_agents/environments/mechanisms/auction.py:201-207 | The snapshot reports the round, the log and both books as they are, and changes nothing. |
| DoubleAuctionMechanism.DoubleAuction.Reset | market_agents/environments/mechanisms/auction.py:209-213 | Back to round 0 with an empty log and empty books, whatever the state before. |
| MarketSummaries.CreateMarketSummary | market_agents/environments/mechanisms/auction.py:215-225 | With no trades, every field has its default. Otherwise the count and the volume both equal the number of trades. The average is the sum of the trade prices divided by their number, and it lies within the price range. The price range runs from the lowest to the highest trade price, and both ends are attained. |
| MarketSummaries.MeanBetween | market_agents/environments/mechanisms/auction.py:222 | The mean of values that all lie between two bounds lies between them. |
| MarketSummaries.Min | market_agents/environments/mechanisms/auction.py:224 | `min` returns an element no greater than any element. |
| MarketSummaries.Max | market_agents/environments/mechanisms/auction.py:224 | `max` returns an element no smaller than any element. |
| Observations.CreateObservations | market_agents/environments/mechanisms/auction.py:171-199 | The observed agents are exactly the round's buyers and sellers together with the agents that still have an order waiting. Each observation names its agent and carries the round's summary. |
| Observations.ObservationsExact | market_agents/environments/mechanisms/auction.py:171-199 | An agent is observed iff it bought or sold this round or still has an order waiting. Its observation names it and carries the round's summary. It contains exactly the round's trades it took part in. Its waiting orders are its own bids' actions followed by its own asks' actions. |
| Observations.TradesOfExact | market_agents/environments/mechanisms/auction.py:183 | An agent's trades are exactly the trades where it is buyer or seller. |
| Observations.OrdersOfExact | market_agents/environments/mechanisms/auction.py:184-185 | An agent's waiting orders are exactly the actions of its own orders. |
| Observations.NoEmptyObservation | market_agents/environments/mechanisms/auction.py:175-186 | No observation is empty: every observed agent has a trade or a waiting order in it. |
| Observations.BothPartiesSeeTrade | market_agents/environments/mechanisms/auction.py:175-183 | Each trade appears in the observations of both its buyer and its seller. |
| Research.AsLocal | market_agents/environments/mechanisms/research.py:134-141 | A sequential step accepts a `ResearchAction`, or a dict that parses as one. A dict that fails to parse re-raises the parse error. Anything else is a type error. |
| Research.AsGlobal | market_agents/environments/mechanisms/research.py:172-179 | The same rules for a batched step with `ResearchGlobalAction`. |
| Research.SummariesOf | market_agents/environments/mechanisms/research.py:182-185 | The round's summary map has the action map's key set, and each entry is that agent's summary. |
| Research.BuildLocalObservations | market_agents/environments/mechanisms/research.py:189-201 | Exactly one observation and one reward of 1.0 per agent of the action map, and no others. Each observation carries the agent's own summary and its round note. |
| Research.CollectFinalSummaries | market_agents/environments/mechanisms/research.py:207-212 | Every stored summary is listed in order, with `round_index` running from 1. |
| Research.ResearchMechanism.constructor | market_agents/environments/mechanisms/research.py:117-126 | A new mechanism is at round 0 with no summaries and no last step. |
| Research.ResearchMechanism.Default | market_agents/environments/mechanisms/research.py:118-126 | The field defaults: batched, 3 rounds. |
| Research.ResearchMechanism.Step | market_agents/environments/mechanisms/research.py:128-230 | The round grows by one even when the input is rejected. A rejected input stores nothing and returns the parse or type error. An accepted one appends exactly one summary map and becomes the last step, with `done` iff the round reached the maximum. Sequential mode returns the agent's local step with `reward` 0.0 and `agent_rewards` {agent: 1.0}. Batched mode gives one observation and one reward per agent. It returns `final_all_summaries` iff done, numbered from 1, with the round's notes. |
| Research.ResearchMechanism.GetGlobalState | market_agents/environments/mechanisms/research.py:232-242 | The report gives the round, the maximum, the number of stored summaries and the last step, and changes nothing. |
| Research.ResearchMechanism.Reset | market_agents/environments/mechanisms/research.py:244-251 | Back to round 0 with no summaries and no last step. |
| Research.ResearchEnvironment.constructor | market_agents/environments/mechanisms/research.py:270-287 | A new environment owns a fresh default mechanism and an empty state dict. |
| Research.ResearchEnvironment.Reset | market_agents/environments/mechanisms/research.py:289-295 | The step counter goes to 0, and the state dict and the history are cleared. The mechanism is reset, and a global observation with no observations is returned. |
| Text.Strip | market_agents/codebook/utils/_clean_imported_excel_values.py:15 | The stripped text is no longer than the input and neither starts nor ends with a stripped character. |
| Text.StripIsSlice | market_agents/codebook/utils/_clean_imported_excel_values.py:15 | `strip` removes only a run of stripped characters at each end: the result is a slice of the input. |
| IndicatorFileName.ReplaceSpecial | market_agents/codebook/utils/_indicator_to_file_name.py:21 | Each character other than a word character, whitespace or `-` becomes `_`. Every other character is kept in place, so the length is unchanged. |
| IndicatorFileName.Collapse | market_agents/codebook/utils/_indicator_to_file_name.py:24 | Collapsing runs never lengthens the text, and empties only empty text. |
| IndicatorFileName.CollapseFixed | market_agents/codebook/utils/_indicator_to_file_name.py:24 | Text with no whitespace and no `__` is left unchanged by collapsing, in particular text with no run character. |
| IndicatorFileName.CollapseAppend | market_agents/codebook/utils/_indicator_to_file_name.py:24 | Text that is empty or ends outside a run collapses independently of what follows it. |
| IndicatorFileName.CollapseRun | market_agents/codebook/utils/_indicator_to_file_name.py:24 | A non-empty run of whitespace and underscores at the front becomes exactly one `_`, when the rest is empty or starts outside a run. |
| IndicatorFileName.CollapseRunBetween | market_agents/codebook/utils/_indicator_to_file_name.py:24 | A whole run between two run-free boundaries becomes exactly one `_`, and each side collapses on its own. |
| IndicatorFileName.ToFileNameJoinsWords | market_agents/codebook/utils/_indicator_to_file_name.py:18-27 | Two non-empty words of lower-case letters, digits and hyphens, separated by a non-empty run of whitespace, underscores or special characters, become the two words joined by a single `_`. |
| IndicatorFileName.ToFileName | market_agents/codebook/utils/_indicator_to_file_name.py:3-29 | The file name is no longer than the indicator and neither starts nor ends with `_`. The lemmas below state the characters it may hold, that it keeps the input's letters, digits and hyphens in order, and its idempotence and emptiness. They also state how it joins two words separated by a run. |
| IndicatorFileName.ToFileNameShape | market_agents/codebook/utils/_indicator_to_file_name.py:18-27 | The result has only lower-case letters, digits, `_` and `-`, so no upper case and no whitespace. It never has `__` and never starts or ends with `_`. Its letters, digits and hyphens are those of the lower-cased input, in order, so hyphens survive. |
| IndicatorFileName.FileNameIsFixed | market_agents/codebook/utils/_indicator_to_file_name.py:18-27 | Every file name converts to itself. |
| IndicatorFileName.ToFileNameIdempotent | market_agents/codebook/utils/_indicator_to_file_name.py:18-27 | Converting a result again returns it unchanged. |
| IndicatorFileName.ToFileNameEmpty | market_agents/codebook/utils/_indicator_to_file_name.py:18-27 | The result is empty iff the indicator has no letter, digit or hyphen. |
| IndicatorFileName.CollapseNoDouble | market_agents/codebook/utils/_indicator_to_file_name.py:24 | After collapsing, the text has no two consecutive underscores. |
| IndicatorFileName.CollapseSignificant | market_agents/codebook/utils/_indicator_to_file_name.py:24 | Collapsing keeps every letter, digit and hyphen, in order. |
| ExcelValues.Coerce | market_agents/codebook/utils/_clean_imported_excel_values.py:26-32 | The result is an integer iff `int()` accepts the text, with its value. It is a float iff `int()` refuses and `float()` accepts, with its value. Otherwise it is the text itself. |
| ExcelValues.Clean | market_agents/codebook/utils/_clean_imported_excel_values.py:1-35 | Non-text passes through unchanged. The result is missing iff the text is exactly `..` or its stripped form holds a letter. It raises iff the stripped, letter-free text starts with `.` and is not a float literal with `0` in front. When it is such a literal, the result is that literal's float value. An integer result is the stripped text's integer value, and a text result is the stripped text, which neither `int()` nor `float()` accepts. |
| ExcelValues.IntRoundTrip | market_agents/codebook/utils/_clean_imported_excel_values.py:26-28 | A cell holding `str(n)` cleans to the integer n. |
| ExcelValues.CleanTextIsStable | market_agents/codebook/utils/_clean_imported_excel_values.py:15-35 | Cleaning a text result again gives the same text result. |
| ExcelValues.LonePointIsZero | market_agents/codebook/utils/_clean_imported_excel_values.py:21-24 | A cell whose stripped text is a lone `.` is read as `0.` and becomes the float 0.0. |
| ExcelValues.CleanFloat | market_agents/codebook/utils/_clean_imported_excel_values.py:21-32 | A float result comes from stripped text that is no integer literal. It is 0 for a lone `.`, and otherwise the value of the stripped float literal. |
| ExcelValues.LeadingZeroOnlyFixesLonePoint | market_agents/codebook/utils/_clean_imported_excel_values.py:21-24 | Putting `0` before a text starting with `.` changes whether it is a float only for the lone `.`, and never changes its value. |
| ExcelValues.PointTextRaises | market_agents/codebook/utils/_clean_imported_excel_values.py:21-24 | Letter-free text starting with `.` that is no float literal with `0` in front raises `ValueError` on that literal. |
| ExcelValues.PaddedMarkerRaises | market_agents/codebook/utils/_clean_imported_excel_values.py:11-24 | A marker `..` with surrounding whitespace escapes the marker test and raises `ValueError("0..")`. |
| ExcelValues.SpaceBeforeMarker | market_agents/codebook/utils/_clean_imported_excel_values.py:11-15 | `" .."` is such a padded marker. |
| ExcelValues.ThreePointsRaise | market_agents/codebook/utils/_clean_imported_excel_values.py:21-24 | `"..."` raises `ValueError("0...")`. |
| ExcelValues.CleanIntended | market_agents/codebook/utils/_clean_imported_excel_values.py:11-35 | The corrected cleaner is missing exactly for a stripped marker and for text with a letter. It never raises. |
| ExcelValues.CleanIntendedAgrees | market_agents/codebook/utils/_clean_imported_excel_values.py:11-35 | Wherever the code as written succeeds, the corrected cleaner gives the same value. |

## Left out

- **Randomness.** `AuctionAction.sample` draws random prices, so it is not modelled.
- **Serialisation.** The JSON `serialize_json` methods and the pydantic `dict`/`model_dump` conversions are not modelled. `get_global_state` returns the values themselves, and a research summary is stored as the summary value rather than its dict.
- **Logging.** Logging calls are not modelled. This includes the log line for an action that is neither a Bid nor an Ask. No such action exists in the model, because an order's side is one of the two.
- **IEEE floating point.** Prices, the midpoint, the average and Python's `float()` are exact reals, with no rounding.
- **Pydantic coercion.** Field validation and `parse_obj` are not modelled. A dict input is given by the result of parsing it.
- **Imported types and modules.** `Bid`, `Ask` and `Trade` from the economics models are reduced to the fields the mechanism uses. `EnvironmentHistory` and the environment base classes are not part of this model. The history is a sequence that `Reset` empties.
- **`DoubleAuction.sequential`.** The mechanism never reads it, so it is not modelled.
- **`ResearchEnvironment.get_global_state`.** It merges dicts of the base environment, which is not part of this model.
- **`AuctionMarket`.** It only declares its name, its action and observation spaces, and its mechanism, so it is not modelled beyond `DoubleAuction`.
- DoubleAuctionMechanism.DoubleAuction.Step: the batch is the action dict's values in iteration order, a sequence with one action per agent. Dict ordering itself is not modelled.
- DoubleAuctionMechanism.DoubleAuction.CrossBooks: the loop runs on sequence values (`MatchLoop`) that are then assigned back to the fields. It does not pop the fields one element at a time. The resulting state is the same, but intermediate states and aliasing of the lists are not modelled.
- Observations.ObservationsExact: states which trades an agent sees, not their order. By `TradesOf`'s definition, the order is that of the round's trades.
- IndicatorFileName.ToFileName: defined for ASCII input only. Unicode lower-casing and Unicode `\w` and `\s` are not modelled.
- ExcelValues.Clean: defined for ASCII text only. Unicode whitespace, letters and digits are not modelled.
- ExcelValues.Clean: does not model the limit on digits that `int()` accepts (4300 by default since Python 3.10.7 and 3.11, configurable). Past it, `int()` raises, and the source then returns `float()` of the text. The model returns the integer for every integer literal.
- ExcelValues.Coerce: the same `int()` digit limit is not modelled. An integer literal always yields the integer.

## Findings

| source | as written | input that shows it | evidently intended | confidence | as-written member | corrected member |
|---|---|---|---|---|---|---|
| market_agents/codebook/utils/_clean_imported_excel_values.py:11-24 | The `..` marker test runs before stripping. Stripped text that starts with `.` goes to a `float()` call outside the try. | `" .."` raises `ValueError` on `"0.."`. So does `"..."`, on `"0..."`. | The padded marker is the missing value. Other text starting with `.` that is no number falls through to the int/float/text cascade instead of raising. | medium, not executed | ExcelValues.PaddedMarkerRaises, ExcelValues.ThreePointsRaise | ExcelValues.CleanIntended, ExcelValues.CleanIntendedAgrees |
