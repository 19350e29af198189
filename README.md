# Auction assignment: a Dafny model

This project models the core of a C++ library that solves the assignment
problem by the auction algorithm. Rows bid for columns of a sparse integer
payoff matrix; a bid raises the column's price; epsilon-scaling runs the
auction at shrinking bid increments; a greedy pass fills in when the cycle
budget runs out. A shape lets a payoff row or column stand for several
expanded rows or columns (multiplicities).

The model follows the library's classes, one Dafny module each:

- `Assoc` — `AssocMatrix`: the one-to-one association kept as two mirrored
  `int` arrays (`rowassign`, `colassign`) and a pair count, with `add`, the
  five-case `clear_pair` (with case 5 corrected; the literal case 5 is kept
  beside it as `ClearAsWritten` and appears under Findings), `blockval`, `transpose` and `blank`. A class over
  arrays, proved against the pure `Pairing` value and its functions.
- `Pricing` — `AuctAssoc`: the association plus price and profit arrays, the
  price and profit queries, `hidden_bid`, `group_price_equalize`, `numAssoc`
  and `getrowassign`. `PriceModel` holds the pure state `AuctState` and the
  functions these methods are proved against, with their lemmas.
- `Shape` — `AuctShape`: multiplicities, pointers and maps of both sides, the
  change flag, `computemaps`, `computemult`, `ifcompute`, the setters and the
  bounds-checked getters.
- `Params`, `Metrics` — `AuctParm` and `AuctMetric`: records of fields with
  setters.
- `Payoff` — `AuctPay`: the one-based compressed-row vectors built from
  sparse or dense input, `get_max_by_row`, and the payoff rows they decode to.
- `InternalMatrix` — the payoff as `auctionF` uses it: zero-based rows,
  transposed (`ctransp`) and scaled.
- `SingleBids` / `Cycles` — `auct_cycle_SP1` and `auct_cycle_SP2`;
  `MultiBids` / `MultiCycle` — `auct_cycle_SM`; `Greedy` — `greedy_fill`.
  In each pair the first module holds the pure cycle and its lemmas, the
  second the imperative loops proved equal to it.
- `Engine` — the loops of `auctionF` (epsilon-scaling rounds, the inner and
  outer bidding loops, `hidden_bid`, the time-out exit and the greedy fill) as
  pure functions of the state, and the methods that run them on an
  `AuctAssoc`.
- `Orientation`, `Driver` — `auctionF` itself: the consistency checks, the
  reorientation when there are more expanded rows than columns, the metric,
  and the pass-through `auction`. `AuctionOf` is the pure report, and
  `AuctionMeaning` states what the report promises.
- `Totals` — the template `totalpay` over the original payoff.

Integers are unbounded. Where C++ integer division truncates toward zero,
the model says so (`Driver.Quot`). The doubles of the parameters are
integers here (see "Left out").

## Model

| member | source | states |
|---|---|---|
| Assoc.EmptyConsistent | src/auction/AssocMatrix.cpp:17-25 | a fresh N-by-M association is consistent and every row and column looks up -1 |
| Assoc.PairCountBounds | src/auction/AssocMatrix.h:55 | the pair count of a consistent association is at most the number of rows and of columns |
| Assoc.ClearShape | src/auction/AssocMatrix.cpp:84-111 | corrected: entry by entry, clear_pair unassigns row r, column c and their former partners and leaves every other entry |
| Assoc.ClearCount | src/auction/AssocMatrix.cpp:84-111 | corrected: clear_pair lowers Nnz by exactly the number of pairs it evicts, so Nnz keeps counting the assigned rows and the assigned columns |
| Assoc.ClearCorrect | src/auction/AssocMatrix.cpp:84-111 | corrected: after clear_pair(r, c) neither r nor c is assigned, the count drops by the evicted pairs (0, 1 or 2), every pair not involving r or c survives and the invariant holds |
| Assoc.ClearConsistent | src/auction/AssocMatrix.cpp:84-111 | corrected: clear_pair keeps rowassign and colassign mirror images of each other |
| Assoc.ClearPaired | src/auction/AssocMatrix.cpp:90-93 | case 2 of clear_pair, on a row and column holding each other, removes exactly that pair |
| Assoc.UnpairIsClear | src/auction/AssocMatrix.cpp:84-111 | clear_pair(row(c), c) on a held column c removes just the pair of c |
| Assoc.UnpairConsistent | src/auction/AssocMatrix.cpp:95-98 | the two writes and the decrement that remove one pair keep the association consistent and its dimensions |
| Assoc.UnpairEffect | src/auction/AssocMatrix.cpp:95-98 | removing the pair of a held column frees the column and its row, lowers the count by one and changes nothing else |
| Assoc.ClearByUnpairIsClear | src/auction/AssocMatrix.cpp:84-111 | corrected: the five cases of clear_pair amount to removing row r's pair and then column c's pair |
| Assoc.AddShape | src/auction/AssocMatrix.cpp:44-52 | corrected: entry by entry, add(r, c) makes r hold c and unassigns the former partners of r and c |
| Assoc.AddCount | src/auction/AssocMatrix.cpp:44-52 | corrected: add changes Nnz by one minus the evicted pairs, and Nnz keeps counting the assigned rows and columns |
| Assoc.AddCorrect | src/auction/AssocMatrix.cpp:44-52 | corrected: with valid indices add(r, c) leaves r holding c and c held by r, the invariant intact, the count changed by one minus the evicted pairs and every pair not involving r or c untouched |
| Assoc.AddConsistent | src/auction/AssocMatrix.cpp:44-52 | corrected: add keeps rowassign and colassign mirror images of each other |
| Assoc.AsWrittenAgrees | src/auction/AssocMatrix.cpp:84-111 | the literal clear_pair agrees with the corrected one except in case 5, so add from a row that holds nothing, as every add of the auction is (Cycles.BidRow, MultiCycle.PlaceOne, Greedy.GreedyFill), behaves as written |
| Assoc.AddOutOfRange | src/auction/AssocMatrix.cpp:45-51 | add with a row or column out of range changes nothing |
| Assoc.AddIdempotent | src/auction/AssocMatrix.cpp:44-52 | adding the same pair twice is adding it once |
| Assoc.TransposedConsistent | src/auction/AssocMatrix.cpp:67-75 | transpose keeps the invariant, is an involution, and the row of column r afterwards is the former column of row r |
| Assoc.ValMeaning | src/auction/AssocMatrix.h:110-111 | under the invariant val(r, c) is 1 exactly for the pairs present, plus the query val(-1, -1) |
| Assoc.BlockCountBound | src/auction/AssocMatrix.cpp:56-64 | blockval never exceeds the length of its row range, and is 0 for an empty one |
| Assoc.FullBlockCountsPairs | src/auction/AssocMatrix.cpp:56-64 | the block covering every row and column counts exactly the Nnz pairs of a consistent association |
| Assoc.AddAsWrittenBreaksInverse | src/auction/AssocMatrix.cpp:104-110 | on a 3-by-3 association holding (0,1) and (2,0), add(0,0) as written leaves row 2 claiming column 0 held by row 0, breaking the inverse invariant; the corrected add keeps it |
| Assoc.AddAsWrittenOutOfBounds | src/auction/AssocMatrix.cpp:104-110 | on a 3-by-2 association holding (2,0) and (1,1), add(2,1) as written writes rowassign[2] outside the two-entry array; the corrected add is in range |
| Assoc.AssocMatrix.constructor | src/auction/AssocMatrix.cpp:17-25 | AssocMatrix(N, M) has N rows, M columns, every entry -1 and no pairs |
| Assoc.AssocMatrix.Square | src/auction/AssocMatrix.cpp:7-15 | AssocMatrix(N) is the empty N-by-N association |
| Assoc.AssocMatrix.NAssoc | src/auction/AssocMatrix.h:55 | nassoc() is the pair count, at most the number of rows and of columns |
| Assoc.AssocMatrix.Row | src/auction/AssocMatrix.h:74-75 | row(c) is the row holding c, -1 when c is unassigned or out of range, and that row holds c back |
| Assoc.AssocMatrix.Col | src/auction/AssocMatrix.h:82-83 | col(r) is the column held by r, -1 when r is unassigned or out of range, and that column is held by r |
| Assoc.AssocMatrix.Val | src/auction/AssocMatrix.h:110-111 | val(r, c) is 1 exactly when r holds c (or both are -1), else 0 |
| Assoc.AssocMatrix.GetColumns | src/auction/AssocMatrix.cpp:34-36 | get_columns copies every row's column into the first Nrows cells and leaves the rest |
| Assoc.AssocMatrix.GetRows | src/auction/AssocMatrix.cpp:39-41 | get_rows copies every column's row into the first Ncols cells and leaves the rest |
| Assoc.AssocMatrix.Unassign | src/auction/AssocMatrix.cpp:95-98 | the two writes and the decrement that clear_pair uses to remove one pair, proved against the pure removal |
| Assoc.AssocMatrix.ClearPair | src/auction/AssocMatrix.cpp:84-111 | corrected: clear_pair changes the arrays and the count exactly as the pure clear does, keeping the invariant |
| Assoc.AssocMatrix.Add | src/auction/AssocMatrix.cpp:44-52 | corrected: add returns 0 and installs the pair for valid indices, returns -1 and changes nothing otherwise |
| Assoc.AssocMatrix.BlockVal | src/auction/AssocMatrix.cpp:56-64 | blockval counts the rows of [startrow, endrow) whose col() lies in [startcol, endcol), so an unassigned row (col() = -1) counts when startcol <= -1; 0 for an inverted range |
| Assoc.AssocMatrix.Transpose | src/auction/AssocMatrix.cpp:67-75 | transpose swaps the two arrays and the two dimensions, and the model is the transposed association |
| Assoc.AssocMatrix.Blank | src/auction/AssocMatrix.cpp:77-82 | blank unassigns every row and column and zeroes the count |
| Assoc.SampleAddAsWritten | src/auction/AssocMatrix.cpp:104-110 | add(0,0) as written on the 3-by-3 sample yields rowassign [0, -1, 0], colassign [0, 0, -1] and count 1 |
| Assoc.SampleAdd | src/auction/AssocMatrix.cpp:84-111 | the corrected add(0,0) on the sample yields rowassign [0, -1, -1], colassign [0, -1, -1] and count 1 |
| Pricing.AuctAssoc.constructor | src/auction/AuctAssoc.cpp:16-21 | AuctAssoc(N, M) is the empty N-by-M association with every price and profit 0 |
| Pricing.AuctAssoc.Square | src/auction/AuctAssoc.cpp:9-14 | AuctAssoc(N) is the empty N-by-N association with every price and profit 0 |
| Pricing.AuctAssoc.FromShape | src/auction/AuctAssoc.cpp:23-29 | AuctAssoc(S) brings the shape up to date and is the empty association of its expanded rows and columns, prices and profits 0 |
| Pricing.AuctAssoc.Price | src/auction/AuctAssoc.h:55 | Price(ind) is the price of column ind |
| Pricing.AuctAssoc.Prof | src/auction/AuctAssoc.h:71 | Prof(ind) is the profit of row ind |
| Pricing.AuctAssoc.SetPrice | src/auction/AuctAssoc.h:62-63 | set_Price writes the price of column ind, and a negative index changes nothing |
| Pricing.AuctAssoc.SetProf | src/auction/AuctAssoc.h:78-79 | set_Prof writes the profit of row ind, and a negative index changes nothing |
| Pricing.AuctAssoc.GetPrices | src/auction/AuctAssoc.h:86 | get_prices copies the Ncols prices to the front of the output and leaves the rest |
| Pricing.AuctAssoc.SetPrices | src/auction/AuctAssoc.h:92 | set_prices makes the prices the first Ncols input entries |
| Pricing.AuctAssoc.GetProfits | src/auction/AuctAssoc.h:98 | get_profits copies the Nrows profits to the front of the output and leaves the rest |
| Pricing.AuctAssoc.SetProfits | src/auction/AuctAssoc.h:104 | set_profits makes the profits the first Nrows input entries |
| Pricing.AuctAssoc.IsConsistent | src/auction/AuctAssoc.h:120-121 | is_consistent brings the shape up to date and holds exactly when its expanded row and column counts are this matrix's dimensions |
| Pricing.AuctAssoc.Transpose | src/auction/AuctAssoc.cpp:37-41 | transpose transposes the association and swaps the price and profit arrays |
| Pricing.AuctAssoc.MinPrice | src/auction/AuctAssoc.cpp:43-47 | min_price is a price of some column and no larger than any price |
| Pricing.AuctAssoc.MaxPriceInColRange | src/auction/AuctAssoc.cpp:49-53 | max_price_in_colrange on a non-empty [first, last) is the price of one of its columns and no smaller than any of them; on an empty range it is the price at last, the end std::max_element returns |
| Pricing.AuctAssoc.MinPriceInColRange | src/auction/AuctAssoc.cpp:55-59 | min_price_in_colrange on a non-empty [first, last) is the price of one of its columns and no larger than any of them; on an empty range (a column group of multiplicity 0) it is the price at last, the end std::min_element returns |
| Pricing.AuctAssoc.MaxPriceInRowRange | src/auction/AuctAssoc.cpp:61-69 | max_price_in_rowrange is the largest price of a column held by a row in [first, last), floored at 0 (see PriceModel.RowRangeMaxMeaning) |
| Pricing.AuctAssoc.MinPriceInRowRangeAsWritten | src/auction/AuctAssoc.cpp:71-83 | the loop as written, whose `>` makes it return the largest held price, 0 when none is held |
| Pricing.AuctAssoc.MinPriceInRowRange | src/auction/AuctAssoc.cpp:71-83 | corrected: the smallest price of a column held by a row in [first, last), 0 when none is held (see PriceModel.RowRangeMinMeaning) |
| Pricing.AuctAssoc.GetMinAssoc | src/auction/AuctAssoc.cpp:85-98 | get_minassoc is the smallest price of an assigned column, 0 when nothing is assigned |
| Pricing.AuctAssoc.GetMaxUnass | src/auction/AuctAssoc.cpp:100-111 | get_maxunass is the largest price of an unassigned column, 0 when every column is assigned |
| Pricing.AuctAssoc.GetMinAssocProf | src/auction/AuctAssoc.cpp:113-125 | get_minassoc_prof is the smallest profit of an assigned row, 0 when none is assigned |
| Pricing.AuctAssoc.GetMaxUnassProf | src/auction/AuctAssoc.cpp:127-138 | get_maxunass_prof is the largest profit of an unassigned row, 0 when every row is assigned |
| Pricing.AuctAssoc.Partition | src/auction/AuctAssoc.cpp:153-166 | the first pass of hidden_bid lists the (price, column) pairs of the assigned and of the unassigned columns, with minassoc the smallest assigned price capped at MAXINT and maxunass the largest unassigned price floored at 0 |
| Pricing.AuctAssoc.Reprice | src/auction/AuctAssoc.cpp:187-189 | every unassigned column listed from position i on gets price minassoc |
| Pricing.AuctAssoc.EvictNext | src/auction/AuctAssoc.cpp:181-184 | one eviction round: the k-th cheapest assigned column loses its pair |
| Pricing.AuctAssoc.EvictOutbid | src/auction/AuctAssoc.cpp:180-185 | the eviction loop stops at the first position where the assigned price is not below the unassigned one or at nbids, evicting exactly the columns before it; minassoc ends as the last evicted price |
| Pricing.AuctAssoc.Outbid | src/auction/AuctAssoc.cpp:172-190 | the bidding branch: both lists partially sorted to nbids (assigned ascending, unassigned descending), the order the comment at line 174 intends (see Left out on the calls' argument order), the outbid assigned columns evicted, the rest of the unassigned list repriced |
| Pricing.AuctAssoc.BidOrLower | src/auction/AuctAssoc.cpp:168-195 | with bids to make and minassoc < maxunass the bidding branch runs; otherwise every unassigned column gets price minassoc - 1 |
| Pricing.AuctAssoc.HiddenBid | src/auction/AuctAssoc.cpp:152-196 | hidden_bid changes the association and the prices exactly as the pure hidden bid does (its properties are PriceModel.HiddenBid*) |
| Pricing.AuctAssoc.SetGroupPrices | src/auction/AuctAssoc.cpp:205-208 | every column held by a row in [lo, hi) gets the group price |
| Pricing.AuctAssoc.EqualizeGroups | src/auction/AuctAssoc.cpp:203-209 | the loop over the row groups gives each group's held columns the group's largest held price, group by group |
| Pricing.AuctAssoc.GroupPriceEqualize | src/auction/AuctAssoc.cpp:199-210 | group_price_equalize over the shape's row groups, as the pure Equalize |
| Pricing.AuctAssoc.NumAssoc | src/auction/AuctAssoc.cpp:214-217 | numAssoc counts the pairs in the block of expanded rows of row i and expanded columns of column j, and on an up-to-date shape at most the row's multiplicity |
| Pricing.AuctAssoc.GetRowAssign | src/auction/AuctAssoc.cpp:221-225 | getrowassign gives each expanded row the payoff column of its column through get_colmap, -1 for an unassigned row, a column below M on an up-to-date shape |
| Pricing.AuctAssoc.GetRowAssignId | src/auction/AuctAssoc.cpp:228-232 | getrowassign_id gives each row the expanded column it holds, -1 when unassigned, and each listed column is held by that row |
| PriceModel.TransposedStateInvolution | src/auction/AuctAssoc.cpp:37-41 | transposing the state (association transposed, prices and profits swapped) twice gives it back |
| PriceModel.ExtremesMeaning | src/auction/AuctAssoc.cpp:43-59 | the price extremes are 0 on an empty list and otherwise attained bounds of it |
| PriceModel.RowRangePricesMembers | src/auction/AuctAssoc.cpp:61-69 | the prices max_price_in_rowrange looks at are exactly the prices of the columns held by rows in the range |
| PriceModel.UnassignedMaxMeaning | src/auction/AuctAssoc.cpp:100-111 | get_maxunass bounds every unassigned price, is attained when a column is unassigned, and is 0 when every column is assigned |
| PriceModel.AssignedProfitMinMeaning | src/auction/AuctAssoc.cpp:113-125 | get_minassoc_prof bounds every assigned profit from below, is attained, and is 0 when no row is assigned |
| PriceModel.UnassignedProfitMaxMeaning | src/auction/AuctAssoc.cpp:127-138 | get_maxunass_prof bounds every unassigned profit, is attained, and is 0 when every row is assigned |
| PriceModel.RowRangeMaxMeaning | src/auction/AuctAssoc.cpp:61-69 | max_price_in_rowrange is at least 0, bounds every held price in the range, and is attained unless it is 0 |
| PriceModel.RowRangePricesCongruent | src/auction/AuctAssoc.cpp:61-69 | the row-range maximum reads only the prices of the columns held by rows in the range |
| PriceModel.RowRangeMinMeaning | src/auction/AuctAssoc.cpp:71-83 | corrected min_price_in_rowrange bounds every held price in the range from below, is attained, and is 0 when no row in the range holds a column |
| PriceModel.RowRangeMinAsWrittenReturnsMax | src/auction/AuctAssoc.cpp:71-83 | rows 0 and 1 holding columns priced 5 and 3: the loop as written yields 5, the minimum is 3 |
| PriceModel.SetGroupEffect | src/auction/AuctAssoc.cpp:205-208 | setting a group's price changes exactly the columns held by rows of the group |
| PriceModel.EqualizeEffect | src/auction/AuctAssoc.cpp:199-210 | group_price_equalize gives every column held by a row of group t that group's largest held price (floored at 0) and leaves every other column, in particular every unassigned one, alone |
| PriceModel.ColBidsMembers | src/auction/AuctAssoc.cpp:158-166 | the first pass of hidden_bid lists each assigned (or unassigned) column once with its price, in column order, and nothing else |
| PriceModel.PartialSortPerm | src/auction/AuctAssoc.cpp:175-178 | partial_sort permutes its list |
| PriceModel.PartialSortOrder | src/auction/AuctAssoc.cpp:175-178 | after the intended partial_sort to k the first k entries are in order and come before every later entry |
| PriceModel.PartialSortDistinct | src/auction/AuctAssoc.cpp:175-178 | partial_sort keeps the listed columns distinct |
| PriceModel.WinsFromMeaning | src/auction/AuctAssoc.cpp:180-185 | the eviction loop's count: below it the assigned price is below the unassigned one, at it (when below nbids) it is not |
| PriceModel.EvictAllEffect | src/auction/AuctAssoc.cpp:180-185 | clearing a list of distinct assigned columns one clear_pair at a time unassigns exactly those columns |
| PriceModel.PlanFacts | src/auction/AuctAssoc.cpp:158-178 | the sorted lists are rearrangements of the first pass's lists, nbids is min(Ncols - Nrows, #assigned, #unassigned), minassoc the smallest assigned price capped at MAXINT |
| PriceModel.PlanOrder | src/auction/AuctAssoc.cpp:175-176 | when bidding, the first nbids assigned entries are the cheapest, in ascending order |
| PriceModel.HiddenBidBidding | src/auction/AuctAssoc.cpp:172-189 | when bidding, hidden_bid evicts the first k entries of the ascending assigned list and gives the rest of the descending unassigned list the last evicted price |
| PriceModel.HiddenBidNotBidding | src/auction/AuctAssoc.cpp:191-195 | without bidding, hidden_bid evicts nothing and gives every unassigned column minassoc - 1 |
| PriceModel.HiddenBidFrame | src/auction/AuctAssoc.cpp:152-196 | hidden_bid keeps the association consistent and its dimensions, leaves the profits alone and never changes the price of a column assigned on entry |
| PriceModel.HiddenBidEviction | src/auction/AuctAssoc.cpp:168-185 | hidden_bid evicts k pairs only when bidding, k at most min(Ncols - Nrows, #assigned, #unassigned); the count drops by k; the evicted columns end unassigned and every other column keeps its row |
| PriceModel.HiddenBidEvictsCheapest | src/auction/AuctAssoc.cpp:175-185 | every evicted price is at most the price of any column still assigned afterwards |
| PriceModel.HiddenBidRepricing | src/auction/AuctAssoc.cpp:186-189 | every column unassigned on entry, except the first k of the descending list, gets the new price; those k keep theirs |
| PriceModel.HiddenBidNewPrice | src/auction/AuctAssoc.cpp:180-189 | when bidding, the new price is the last evicted price and bounds every evicted price |
| PriceModel.HiddenBidNoBid | src/auction/AuctAssoc.cpp:191-195 | without bidding the new price is minassoc - 1, every unassigned column gets it, and it is MAXINT - 1 when nothing is assigned |
| PriceModel.PlanSizes | src/auction/AuctAssoc.cpp:158-166 | the assigned list has one entry per pair, the unassigned list one per free column |
| PriceModel.EvictAllKeeps | src/auction/AuctAssoc.cpp:180-185 | evicting distinct assigned columns keeps the association consistent, its dimensions, and lowers the count by their number |
| PriceModel.EvictedRow | src/auction/AuctAssoc.cpp:180-185 | after hidden_bid an evicted column has no row and every other column keeps its row |
| Shape.TallyTotal | src/auction/AuctShape.h:265-270 | when every map entry is a valid index, the multiplicities computemult tallies add up to the map length |
| Shape.ExpandContents | src/auction/AuctShape.h:246-257 | the map computemaps builds holds only valid indices, holds index k exactly max(mult[k], 0) times, and is non-decreasing |
| Shape.ExpandGroups | src/auction/AuctShape.h:250-253 | expanded index i maps to group k exactly when rowptr[k] <= i < rowptr[k+1] |
| Shape.RebuildFromMultSynced | src/auction/AuctShape.h:246-260 | computemaps leaves pointers and map in agreement with the multiplicities |
| Shape.RebuildFromMapSynced | src/auction/AuctShape.h:265-275 | computemult leaves multiplicities and pointers in agreement with a map of valid indices |
| Shape.SyncedSize | src/auction/AuctShape.h:109 | on an up-to-date side the expanded size rowptr[n] is the map length and the total multiplicity |
| Shape.MapsThenMult | src/auction/AuctShape.h:246-275 | computemaps followed by computemult leaves the side as computemaps left it |
| Shape.IfComputeSynced | src/auction/AuctShape.h:280-283 | ifcompute always ends with flag 0 and both sides up to date, leaves a clean shape alone, and tallies the map when flag 2 |
| Shape.UnitMultiplicities | src/auction/AuctShape.h:33-35 | with every multiplicity 1, pointers and map are the identity |
| Shape.TransposedInvolution | src/auction/AuctShape.h:288-295 | transposing twice gives the shape back; rows and columns exchange; nnz and the flag stay |
| Shape.MaxLen | src/auction/AuctShape.h:49-53 | the column count of AuctShape(Vpay) is the length of the longest row, 0 with no rows |
| Shape.FillMaps | src/auction/AuctShape.h:250-253 | one side of computemaps fills the map with the expansion of the multiplicities and the pointers with their prefix sums |
| Shape.FillMults | src/auction/AuctShape.h:267-273 | one side of computemult fills the multiplicities with the tally of the map and the pointers with their prefix sums |
| Shape.NewUnitSide | src/auction/AuctShape.h:28-35 | a new side has multiplicities 1 and identity map and pointers |
| Shape.AuctShape.constructor | src/auction/AuctShape.h:24-36 | AuctShape(nrows, mcols, nnz) has every multiplicity 1, identity maps and pointers, flag 0 |
| Shape.AuctShape.FromPayoff | src/auction/AuctShape.h:46-63 | AuctShape(Vpay) has |Vpay| rows, as many columns as the longest row, nnz 0, every multiplicity 1 |
| Shape.AuctShape.GetRowPtr | src/auction/AuctShape.h:123-124 | get_rowptr is rowptr[i] for i in [0, n] and -1 otherwise |
| Shape.AuctShape.GetColPtr | src/auction/AuctShape.h:132-133 | get_colptr is colptr[i] for i in [0, m] and -1 otherwise |
| Shape.AuctShape.GetRowMult | src/auction/AuctShape.h:140-141 | get_rowmult is rowmult[i] for i in [0, n) and -1 otherwise |
| Shape.AuctShape.GetColMult | src/auction/AuctShape.h:148-149 | get_colmult is colmult[i] for i in [0, m) and -1 otherwise |
| Shape.AuctShape.GetRowMap | src/auction/AuctShape.h:157-158 | get_rowmap is rowmap[i] for i in [0, rowptr[n]) and -1 otherwise |
| Shape.AuctShape.GetColMap | src/auction/AuctShape.h:166-167 | get_colmap is colmap[i] for i in [0, colptr[m]) and -1 otherwise |
| Shape.AuctShape.SetNnz | src/auction/AuctShape.h:174-176 | set_nnz sets the non-zero count and nothing else |
| Shape.AuctShape.SetRowMult | src/auction/AuctShape.h:183-186 | set_rowmult writes one row multiplicity and sets the flag to 1 |
| Shape.AuctShape.SetColMult | src/auction/AuctShape.h:193-196 | set_colmult writes one column multiplicity and sets the flag to 1 |
| Shape.AuctShape.SetRowMap | src/auction/AuctShape.h:203-206 | set_rowmap writes one row map entry and sets the flag to 2 |
| Shape.AuctShape.SetColMap | src/auction/AuctShape.h:213-216 | set_colmap writes one column map entry and sets the flag to 2 |
| Shape.AuctShape.BlankRowMult | src/auction/AuctShape.h:227-231 | blank_rowmult makes every row multiplicity 1 and sets the flag to 1 |
| Shape.AuctShape.BlankColMult | src/auction/AuctShape.h:236-240 | blank_colmult makes every column multiplicity 1 and sets the flag to 1 |
| Shape.AuctShape.ComputeMaps | src/auction/AuctShape.h:246-260 | computemaps rebuilds both maps and pointers from the multiplicities and clears the flag |
| Shape.AuctShape.ComputeMult | src/auction/AuctShape.h:265-275 | computemult rebuilds both multiplicities and pointers from the maps and clears the flag |
| Shape.AuctShape.IfComputeNow | src/auction/AuctShape.h:280-283 | ifcompute recomputes from the side changed last (flag 1 maps, flag 2 multiplicities) and leaves flag 0 |
| Shape.AuctShape.NFullRows | src/auction/AuctShape.h:109 | nfullrows brings the shape up to date and returns the number of expanded rows, the total row multiplicity |
| Shape.AuctShape.NFullCols | src/auction/AuctShape.h:115 | nfullcols brings the shape up to date and returns the number of expanded columns, the total column multiplicity |
| Shape.AuctShape.Transpose | src/auction/AuctShape.h:288-295 | transpose exchanges the row and column fields (arrays swapped, not copied); nnz and the flag stay |
| Params.AuctParm.constructor | src/auction/AuctParm.h:20-30 | the defaults: 1000 cycles, epsilon 1, resolution 1, MAXINT 10^9, starting epsilon 5, factor 5, don't-care 0, scaling and relative epsilon on, messages and debugging off |
| Params.AuctParm.SetMaxCycles | src/auction/AuctParm.h:115 | set_maxcycles sets the cycle budget and nothing else |
| Params.AuctParm.SetEpsilon | src/auction/AuctParm.h:121 | set_epsilon sets the bidding increment and nothing else |
| Params.AuctParm.SetEpsStart | src/auction/AuctParm.h:127 | set_epsstart sets the starting epsilon and nothing else |
| Params.AuctParm.SetEpsFac | src/auction/AuctParm.h:133 | set_epsfac sets the reduction factor and nothing else |
| Params.AuctParm.SetRes | src/auction/AuctParm.h:139 | set_res sets the resolution and nothing else |
| Params.AuctParm.SetDontCare | src/auction/AuctParm.h:145 | set_dontcare sets the don't-care value and nothing else |
| Params.AuctParm.SetMaxInt | src/auction/AuctParm.h:151 | set_MAXINT sets the largest payoff magnitude and nothing else |
| Params.AuctParm.SetMessg | src/auction/AuctParm.h:157 | set_MESSG sets the message flag and nothing else |
| Params.AuctParm.SetDebug | src/auction/AuctParm.h:163 | set_DEBUG sets the debugging flag and nothing else |
| Params.AuctParm.SetEScale | src/auction/AuctParm.h:169-175 | set_EScale sets the scaling flag; switching it off also makes epsilon absolute and the starting epsilon 1 |
| Params.AuctParm.SetEpsRelative | src/auction/AuctParm.h:179 | set_epsrelative sets the relative-epsilon flag and nothing else |
| Metrics.AuctMetric.IsOptimal | src/auction/AuctMetric.h:190 | isoptimal holds exactly when nauction == nmax, and an optimal record with nauction <= ntotal <= nmax is also feasible |
| Metrics.AuctMetric.IsFeasible | src/auction/AuctMetric.h:196 | isfeasible holds exactly when ntotal == nmax |
| Metrics.AuctMetric.constructor | src/auction/AuctMetric.h:20-26 | every count 0 and every flag false, so the record reads optimal and feasible |
| Metrics.AuctMetric.SetNCycles | src/auction/AuctMetric.h:113 | set_ncycles sets the cycle count and nothing else |
| Metrics.AuctMetric.SetNAuctionAssoc | src/auction/AuctMetric.h:119 | set_nauction_assoc sets the auction's association count and nothing else |
| Metrics.AuctMetric.SetNTotalAssoc | src/auction/AuctMetric.h:125 | set_ntotal_assoc sets the total association count and nothing else |
| Metrics.AuctMetric.SetNMaxAssoc | src/auction/AuctMetric.h:131 | set_nmaxassoc sets the largest conceivable count and nothing else |
| Metrics.AuctMetric.SetPayDensity | src/auction/AuctMetric.h:137 | set_paydensity sets the density and nothing else |
| Metrics.AuctMetric.SetTimedOut | src/auction/AuctMetric.h:143 | set_timed_out sets the flag and nothing else |
| Metrics.AuctMetric.SetReoriented | src/auction/AuctMetric.h:149 | set_reoriented sets the flag and nothing else |
| Metrics.AuctMetric.SetSparsified | src/auction/AuctMetric.h:155 | set_sparsified sets the flag and nothing else |
| Metrics.AuctMetric.SetRowMults | src/auction/AuctMetric.h:161 | set_rowmults sets the flag and nothing else |
| Metrics.AuctMetric.SetColMults | src/auction/AuctMetric.h:167 | set_colmults sets the flag and nothing else |
| Metrics.AuctMetric.SetEScaling | src/auction/AuctMetric.h:173 | set_escaling sets the flag and nothing else |
| Payoff.KeptMeaning | src/auction/AuctPay.h:82-88 | the inner loop of the dense constructor keeps exactly the entries that are not don't-care: each with its own column and value, in strictly increasing column order, none left behind |
| Payoff.SparsifyColsBelow | src/auction/AuctPay.h:80-89 | a sparsified dense payoff has its rows' columns below the longest row length, in increasing order |
| Payoff.OnePtrsMonotone | src/auction/AuctPay.h:80-90 | the one-based row pointers the dense constructor pushes start at 1, never decrease and end one past the last entry |
| Payoff.OneColsBelow | src/auction/AuctPay.h:82-85 | every one-based column the dense constructor pushes lies in [1, m] |
| Payoff.EncodeCompressed | src/auction/AuctPay.h:80-101 | the one-based vectors written for sparse rows are well-formed compressed vectors for them |
| Payoff.EncodeDecode | src/auction/AuctPay.h:80-101 | round trip: reading back the one-based vectors written for sparse rows (whatever follows the last entry) gives the rows again |
| Payoff.DecodeColsBelow | src/auction/AuctAlg.cpp:83-84 | the rows read from compressed vectors have their columns in [0, m) |
| Payoff.SparsifyDense | src/auction/AuctPay.h:68-90 | the push_back loops yield the kept values, their one-based columns and the one-based row pointers, with the running count ending at the kept count plus one |
| Payoff.AuctPay.FromSparse | src/auction/AuctPay.h:31-54 | the sparse constructor stores the given vectors as they are, with numrows and the non-zero count from the shape, not sparsified |
| Payoff.AuctPay.FromDense | src/auction/AuctPay.h:65-102 | the dense constructor stores the sparsified one-based vectors, sets the shape's nnz to the kept count plus one, and marks the payoff sparsified |
| Payoff.AuctPay.DenseToSparse | src/auction/AuctPay.h:168 | dense_to_sparse is true exactly for a sparsified payoff: FromDense ensures it and FromSparse ensures the opposite |
| Payoff.AuctPay.IsConsistent | src/auction/AuctPay.h:217-219 | is_consistent holds exactly when the payoff has the shape's row count and nnz; both constructors ensure it for the shape they are built from |
| Payoff.AuctPay.Input | src/auction/AuctAlg.cpp:83-84 | the InMat auctionF builds from the stored vectors has numrows rows, every column below m |
| Payoff.FloorMaxMeaning | src/auction/AuctPay.h:204-209 | a running maximum from 0 is non-negative, bounds every value and is 0 or one of them |
| Payoff.AuctPay.GetMaxByRowAsWritten | src/auction/AuctPay.h:204-209 | the loop as written scans values[rowptr[i] .. rowptr[i+1]) from 0 |
| Payoff.AuctPay.GetMaxByRow | src/auction/AuctPay.h:204-209 | corrected: the scan with the one-based pointers the constructors store, the largest value of row i floored at 0 |
| Payoff.MaxByRowMeaning | src/auction/AuctPay.h:204-209 | on compressed vectors the corrected maximum of row i is non-negative, at least every value stored in row i, and 0 or one of them |
| Payoff.MaxByRowAsWrittenShifted | src/auction/AuctPay.h:204-209 | the dense payoff [[5], [3]] is stored with pointers [1, 2, 3]; as written, row 0's maximum comes out 3, while row 0 holds 5 |
| InternalMatrix.HitsMembers | src/auction/AuctAlg.cpp:231-238 | the entries one row contributes to column c of the transpose are exactly its entries in column c |
| InternalMatrix.HitsAtMostOne | src/auction/AuctAlg.cpp:231-238 | a row with strictly increasing columns contributes at most one entry to a transposed row |
| InternalMatrix.ColumnOfMembers | src/auction/AuctAlg.cpp:229-240 | transposed row c holds exactly the (row, value) pairs of the original entries in column c |
| InternalMatrix.ColumnOfSorted | src/auction/AuctAlg.cpp:229-240 | with strictly increasing columns in every row, each transposed row is strictly increasing in row index |
| InternalMatrix.TransposeRowsMeaning | src/auction/AuctAlg.cpp:197-245 | the transpose of rows with strictly increasing columns below m: its rows have columns below the original row count, strictly increasing, and v sits at (c, r) of the transpose exactly when it sits at (r, c) of the original |
| InternalMatrix.SweptWhole | src/auction/AuctAlg.cpp:220-240 | a row whose columns strictly increase and stay below M is reached whole by ctransp's cursor |
| InternalMatrix.CTranspMeaning | src/auction/AuctAlg.cpp:197-245 | ctransp on any rows: the transpose is sorted with columns below the row count, holds v at (c, r) exactly when the cursor-reached prefix of row r holds it at c, and equals the plain transpose when every row is sorted with columns below M |
| InternalMatrix.CTranspDropsDescent | src/auction/AuctAlg.cpp:229-240 | a row whose columns descend (1 then 0) loses the entries after the descent: column 0 of the transpose is empty |
| InternalMatrix.ScaledShape | src/auction/AuctAlg.cpp:96-99 | mtl::scale keeps every entry's column and multiplies its value by the factor |
| Orientation.Orient | src/auction/AuctAlg.cpp:91-94 | when the problem is reoriented S is transposed (assignment arrays exchanged, prices and profits exchanged); otherwise nothing changes |
| SingleBids.Best2Members | src/auction/AuctAlg.cpp:529-545 | both entries of the top-two list are placeholders or offers of the row |
| SingleBids.Best2Meaning | src/auction/AuctAlg.cpp:534-545 | the insertion walk over offers yields the first offer of largest value and the runner-up among the rest |
| SingleBids.TopTwoMeaning | src/auction/AuctAlg.cpp:529-545 | the scan of a row finds as best offer the first entry of largest payoff minus price above NEGLARGE (none if no value exceeds it), and as runner-up the largest value among the other entries, floored at NEGLARGE |
| SingleBids.RowBidSkips | src/auction/AuctAlg.cpp:528-555 | a row that is assigned at its turn, or has no offer above NEGLARGE, changes nothing |
| SingleBids.RowBidAward | src/auction/AuctAlg.cpp:549-552 | a bidder ends up holding the column of its best offer, evicting its holder; the pair count grows by one exactly when the column was free |
| SingleBids.RowBidPrices | src/auction/AuctAlg.cpp:548-609 | a bid raises the chosen price by best minus runner-up plus epsilon, so by at least epsilon; no other price changes; only SP2 sets the bidder's profit, to runner-up minus epsilon |
| SingleBids.EmptyRowNoBid | src/auction/AuctAlg.cpp:547-549 | an empty row never bids |
| SingleBids.RowBidKeeps | src/auction/AuctAlg.cpp:528-556 | one turn keeps the association consistent, never drops the pair count, and with epsilon >= 0 never lowers a price |
| SingleBids.CycleMonotone | src/auction/AuctAlg.cpp:506-558 | over a cycle the association stays consistent, the pair count never drops, and with epsilon >= 0 no price falls |
| Cycles.ScanTopTwo | src/auction/AuctAlg.cpp:529-545 | the insertion loop over a row's entries computes the top-two list at the current prices |
| Cycles.Award | src/auction/AuctAlg.cpp:551-608 | S.add(rowA, js) and the price (and with SP2 the profit) update |
| Cycles.Outbid | src/auction/AuctAlg.cpp:548-555 | the bid of an unassigned row with an offer changes the state as the pure row bid does |
| Cycles.BidRow | src/auction/AuctAlg.cpp:525-556 | one payoff row's turn changes the state as the pure row bid does |
| Cycles.CycleTurn | src/auction/AuctAlg.cpp:524-557 | row i's turn inside the cycle is step i of the cycle's fold |
| Cycles.CycleRows | src/auction/AuctAlg.cpp:524-557 | every payoff row bids in turn at the current prices, as the pure cycle |
| Cycles.CycleSP1 | src/auction/AuctAlg.cpp:506-558 | auct_cycle_SP1 is the pure cycle with epsilon and -MAXINT, profits untouched |
| Cycles.CycleSP2 | src/auction/AuctAlg.cpp:560-612 | auct_cycle_SP2 is the pure cycle with epsilon and -MAXINT, profits set |
| MultiBids.ShopKeeps | src/auction/AuctAlg.cpp:441-455 | one insertion keeps the shopping list sorted by value, of the same length, free of used columns and in range |
| MultiBids.ShopFrom | src/auction/AuctAlg.cpp:441-455 | every entry after an insertion is the new offer or was already listed |
| MultiBids.ShopGroupKeeps | src/auction/AuctAlg.cpp:425-456 | the offers of one payoff entry keep the list's invariant |
| MultiBids.ShopRowKeeps | src/auction/AuctAlg.cpp:421-457 | the offers of a whole payoff row keep the list's invariant |
| MultiBids.UsedHeld | src/auction/AuctAlg.cpp:401-408 | usedcols lists exactly the columns held by full rows of the group, never -1 |
| MultiBids.FreeRowsMeaning | src/auction/AuctAlg.cpp:401-408 | freerows lists exactly the unassigned full rows of the group, each once, in increasing order |
| MultiBids.ShortlistGood | src/auction/AuctAlg.cpp:417-457 | the shopping list of a payoff row is sorted by value, has |freerows| + 1 entries and holds no used column |
| MultiBids.ShortlistIn | src/auction/AuctAlg.cpp:417-457 | every listed column is a placeholder or a real column |
| MultiBids.ShortlistAvoidsHeld | src/auction/AuctAlg.cpp:446-448 | the shopping list never offers a column held by a full row of the bidding group |
| MultiBids.SaveValMeaning | src/auction/AuctAlg.cpp:475-486 | saveval is at least NEGLARGE, NEGLARGE or at most refval, no entry outside refgroup with a value in (NEGLARGE, refval] beats it, and unless NEGLARGE it is the value of such an entry |
| MultiBids.RefValBelowBids | src/auction/AuctAlg.cpp:459-486 | the reference value is no larger than any listed bid |
| MultiBids.PlaceBidsRise | src/auction/AuctAlg.cpp:490-498 | placing bids at least refval keeps the state sized and the profits, never lowers a price with epsilon >= 0, and leaves each bid's column at least epsilon above its old price |
| MultiBids.SMRowRise | src/auction/AuctAlg.cpp:395-500 | one payoff row's turn keeps what a cycle keeps, and every bid-on column ends at least epsilon above its old price |
| MultiBids.SMRowIdle | src/auction/AuctAlg.cpp:416-465 | a payoff row with no free full row, or with no entries, changes nothing |
| MultiBids.SMStep | src/auction/AuctAlg.cpp:395-501 | a row's turn after a prefix of the cycle keeps what the cycle keeps |
| MultiBids.SMCycleKeeps | src/auction/AuctAlg.cpp:368-502 | over auct_cycle_SM the association stays consistent, profits stay, and with epsilon >= 0 no price falls |
| MultiCycle.GroupRows | src/auction/AuctAlg.cpp:399-408 | the walk over the group's full rows builds usedcols and freerows as specified |
| MultiCycle.ShopSkip | src/auction/AuctAlg.cpp:442-444 | past entries that beat the offer, the walk goes on in the rest of the list |
| MultiCycle.ShopInsert | src/auction/AuctAlg.cpp:441-455 | the insertion walk over the shopping list is the pure insertion |
| MultiCycle.ShopEntry | src/auction/AuctAlg.cpp:422-456 | the offers of one payoff entry, every full column of its group at its current price |
| MultiCycle.BuildShortlist | src/auction/AuctAlg.cpp:417-457 | the shopping list: |freerows| + 1 placeholders, then every entry's offers |
| MultiCycle.ScanGroupMatch | src/auction/AuctAlg.cpp:470-473 | the groupmatch scan over the listed bids after the first |
| MultiCycle.GroupMinPrice | src/auction/AuctAlg.cpp:479-481 | min_price_in_colrange at the current prices over the group's full columns, the price at the group's end when the group is empty |
| MultiCycle.SaveValStep | src/auction/AuctAlg.cpp:478-484 | entry j's part in the search for a reference value |
| MultiCycle.ScanSaveVal | src/auction/AuctAlg.cpp:476-486 | the search for a reference value outside refgroup |
| MultiCycle.PlaceOne | src/auction/AuctAlg.cpp:492-493 | free row r takes the listed column, whose price rises by v - refval + epsilon; a leftover placeholder (column -1) changes nothing, as add and set_Price ignore -1 |
| MultiCycle.PlaceStep | src/auction/AuctAlg.cpp:490-498 | bid k is step k of the fold over the bids |
| MultiCycle.PlaceAll | src/auction/AuctAlg.cpp:490-498 | the bid loop places bid k for free row k |
| MultiCycle.Bids | src/auction/AuctAlg.cpp:459-499 | with a non-empty list: reference value, then the bids |
| MultiCycle.SMTurn | src/auction/AuctAlg.cpp:396-500 | the turn of one payoff row changes the state as the pure row turn does |
| MultiCycle.SMStepTurn | src/auction/AuctAlg.cpp:395-501 | payoff row i's turn is step i of the cycle's fold |
| MultiCycle.CycleSM | src/auction/AuctAlg.cpp:368-502 | auct_cycle_SM is the pure cycle with epsilon and -MAXINT |
| Greedy.FirstFree | src/auction/AuctAlg.cpp:330-336 | the first free full column of the group, -1 when all are held |
| Greedy.PickMeaning | src/auction/AuctAlg.cpp:325-342 | the scan picks, among entries whose group has a free column, the first of largest value above -MAXINT, and that group's first free column; -1 when there is none |
| Greedy.PickFree | src/auction/AuctAlg.cpp:325-343 | the chosen column is free |
| Greedy.FillRowAdds | src/auction/AuctAlg.cpp:324-344 | a row's turn never evicts: it changes nothing or adds exactly one pair for an unassigned row and a free column |
| Greedy.FillMonotone | src/auction/AuctAlg.cpp:321-345 | the pass never removes a pair and stops adding at min(Nf, Mf) pairs |
| Greedy.FillStops | src/auction/AuctAlg.cpp:323 | once min(Nf, Mf) pairs exist the pass changes nothing more |
| Greedy.FindFree | src/auction/AuctAlg.cpp:330-336 | the search loop, which ends early at the first free column, finds the first free column |
| Greedy.ScanPick | src/auction/AuctAlg.cpp:325-342 | the scan of one payoff row computes the pure pick |
| Greedy.FillDone | src/auction/AuctAlg.cpp:323 | where the loop stops, at the last row or with min(Nf, Mf) pairs, the trace holds the whole pass |
| Greedy.FillTurn | src/auction/AuctAlg.cpp:324-344 | full row i's turn is step i of the pass |
| Greedy.GreedyFill | src/auction/AuctAlg.cpp:316-346 | greedy_fill changes the association as the pure pass does |
| Engine.Blanked | src/auction/AuctAlg.cpp:122-159 | S.blank() removes every pair and keeps the dimensions, prices and profits |
| Engine.BidKeeps | src/auction/AuctAlg.cpp:128-132 | a bidding cycle keeps the state well-sized and its dimensions |
| Engine.BidIsSM | src/auction/AuctAlg.cpp:128-129 | with multiplicities the run meets what auct_cycle_SM needs and the bidding step is that cycle |
| Engine.BidIsSP1 | src/auction/AuctAlg.cpp:130-131 | without multiplicities the run meets what auct_cycle_SP1 needs and the bidding step is that cycle |
| Engine.HiddenKeeps | src/auction/AuctAlg.cpp:134-170 | hidden_bid keeps the state well-sized and its dimensions |
| Engine.InnerCounts | src/auction/AuctAlg.cpp:125-126 | the inner loop never counts backwards |
| Engine.EpsFalls | src/auction/AuctAlg.cpp:116-120 | dividing an epsilon above 1 by a factor of at least 2 gives a smaller non-negative epsilon, so the scaling loop ends |
| Engine.InnerMeaning | src/auction/AuctAlg.cpp:125-133 | the inner loop keeps the state ready, ends within the budget, before it only with min(Nf, Mf) pairs, and counts a cycle whenever its guard holds |
| Engine.OuterMeaning | src/auction/AuctAlg.cpp:124-135 | the outer loop keeps the state ready, ends within the budget, and before it only with min(Nf, Mf) pairs |
| Engine.ScalingMeaning | src/auction/AuctAlg.cpp:118-136 | the scaling loop keeps the state ready and ends within the budget |
| Engine.FilledKeeps | src/auction/AuctAlg.cpp:142-181 | the greedy fill keeps every pair and the dimensions, so the pair count never falls |
| Engine.DriveMeaning | src/auction/AuctAlg.cpp:107-189 | the run never exceeds the budget (no cycles when it is not positive), times out exactly when the counter reached it, without a time-out pairs min(Nf, Mf) rows by auction, and the fill only adds pairs up to that target |
| Engine.LastEpsMeaning | src/auction/AuctAlg.cpp:120-121 | the scaling loop leaves the last epsilon it set, in (1, epsstart], or the old one when it sets none |
| Engine.DriveEpsMeaning | src/auction/AuctAlg.cpp:118-157 | the epsilon a run leaves: without a time-out 1 with scaling and epsstart without; with scaling, epsstart above 1 and a positive budget, within [1, epsstart] |
| Engine.DriveIgnoresPairs | src/auction/AuctAlg.cpp:122-159 | every round starts from S.blank(), so two states with the same dimensions, prices and profits run alike (except scaling with no budget, where the fill sees the given pairs) |
| Engine.CloseMeaning | src/auction/AuctAlg.cpp:175-182 | closing a run records the count, times out exactly on a spent budget, and the fill keeps the dimensions and at most min(Nf, Mf) pairs |
| Engine.BidSM | src/auction/AuctAlg.cpp:128-129 | auct_cycle_SM as a bidding step |
| Engine.BidSP1 | src/auction/AuctAlg.cpp:130-131 | auct_cycle_SP1 as a bidding step |
| Engine.BidOnce | src/auction/AuctAlg.cpp:126-132 | one inner-loop cycle: SM with multiplicities, SP1 without |
| Engine.InnerLoop | src/auction/AuctAlg.cpp:125-133 | the inner while loop is the pure inner loop |
| Engine.OuterLoop | src/auction/AuctAlg.cpp:124-171 | the outer while loop, with hidden_bid after each inner loop when scaling, is the pure outer loop |
| Engine.Round | src/auction/AuctAlg.cpp:121-171 | a round sets epsilon, blanks S and runs the outer loop |
| Engine.ScaleLoop | src/auction/AuctAlg.cpp:118-136 | the epsilon-scaling for loop is the pure scaling loop and leaves its last epsilon in the parameters |
| Engine.FillUp | src/auction/AuctAlg.cpp:142-181 | greedy_fill on S is the pure fill |
| Engine.Finish | src/auction/AuctAlg.cpp:140-182 | records the cycle count and the auction's pair count, and on a spent budget flags the time-out and fills |
| Engine.Conclude | src/auction/AuctAlg.cpp:175-189 | records the final pair count, which the transposition back does not change |
| Engine.LastPass | src/auction/AuctAlg.cpp:152-189 | the last pass at its epsilon, then the closing |
| Engine.Solve | src/auction/AuctAlg.cpp:107-189 | auctionF from the epsilon schedule on changes S, the metric and the epsilon as the pure run does |
| Driver.QuotMeaning | src/auction/AuctAlg.cpp:114 | C++ integer division truncates toward zero: remainder smaller than the divisor, sign of the product |
| Driver.StartEps | src/auction/AuctAlg.cpp:113-116 | the starting epsilon is epsstart, or min(N, M) * epsstart / resolution when relative, forced to 1 below 2 or when epsfac is below 2 |
| Driver.SyncedGroups | src/auction/AuctShape.h:246-257 | the pointers of an up-to-date side lie in [0, map length] and never decrease |
| Driver.TransposeRowsBelow | src/auction/AuctAlg.cpp:95 | every column of the transposed payoff is a row index of the original |
| Driver.Current | src/auction/AuctAlg.cpp:47-50 | the shape as nfullrows, nfullcols and ifcompute leave it: clean and up to date on both sides |
| Driver.ReadyAtStart | src/auction/AuctAlg.cpp:83-109 | an accepted problem, oriented, fits every bidding step, with target min(Nf, Mf) |
| Driver.ForwardMeaning | src/auction/AuctAlg.cpp:86-189 | in the caller's orientation: dimensions kept, cycles within the budget, time-out exactly at the budget, without one min(Nf, Mf) pairs by auction, the fill only adds |
| Driver.AuctionVerdicts | src/auction/AuctMetric.h:186-196 | on auctionF's report: a rejected problem is optimal and feasible, a run that did not time out is optimal and feasible, and an optimal run is feasible |
| Driver.AuctionMeaning | src/auction/AuctAlg.cpp:43-191 | a rejected problem leaves S and the default metric; an accepted one reports nmax = min(Nf, Mf), optimal when not timed out, nauction <= ntotal <= nmax, cycles within the budget, and the final epsilon (1 with scaling, epsstart without, when not timed out) |
| Driver.PairsDiscarded | src/auction/AuctAlg.cpp:122-159 | the pairs S holds on entry do not matter to the result or the final epsilon (except scaling with maxcycles <= 0) |
| Driver.SolveBeside | src/auction/AuctAlg.cpp:107-189 | the bidding on the oriented S, recording nmax, the final count and epsilon |
| Driver.Prepare | src/auction/AuctAlg.cpp:83-116 | orient S, build the internal payoff and the run, compute the starting epsilon |
| Driver.OrientedRun | src/auction/AuctAlg.cpp:86-189 | orient S, run, record, orient back: the pure forward run |
| Driver.Bidding | src/auction/AuctAlg.cpp:86-190 | records the reorientation (Nf > Mf) and runs the bidding in the better orientation |
| Driver.Screen | src/auction/AuctAlg.cpp:46-62 | brings the shape up to date and accepts exactly when the payoff and S are consistent with it |
| Driver.Describe | src/auction/AuctAlg.cpp:75-77 | sets the metric's row/column multiplicity, scaling, density and sparsified flags |
| Driver.Accept | src/auction/AuctAlg.cpp:64-190 | for a problem that passed the consistency checks and has at least one full row and column: no scaling for a 1x1 payoff, the metric's description, then the bidding |
| Driver.AuctionF | src/auction/AuctAlg.cpp:43-191 | auctionF's report, S and epsilon are those of the pure AuctionOf, whose properties AuctionMeaning states |
| Driver.Auction | src/auction/AuctAlg.h:90-93 | auction is a pass-through: exactly auctionF's report |
| Driver.Resume | src/auction/AuctAlg.cpp:59-190 | the rest of auctionF on the facts the consistency checks leave |
| Driver.Decide | src/auction/AuctAlg.cpp:59-190 | a rejected problem, or the null-payoff exit when an expanded count is 0, leaves S and the metric alone; otherwise the problem is accepted |
| Totals.MapAt | src/auction/AuctShape.h:157-167 | a bounds-checked map lookup is -1 or an entry of the map |
| Totals.BlankPaysNothing | src/auction/AuctAlg.h:113-122 | a blank association totals 0 |
| Totals.UnassignedPaysNothing | src/auction/AuctAlg.h:116-119 | an unassigned row adds 0, and unassigning row j lowers the total by exactly what j earned |
| Totals.TotalBounds | src/auction/AuctAlg.h:113-122 | with payoffs in [0, top] the total lies in [0, rows * top] |
| Totals.TotalPayOf | src/auction/AuctAlg.h:113-122 | totalpay brings the shape up to date and returns the sum over expanded rows of Val at the row's row and its column's column |
| Totals.SumRows | src/auction/AuctAlg.h:116-120 | the loop sums the payoffs of the expanded rows |

## Left out

- Params.AuctParm: `resolution` and `epsbegin` are doubles in the source and integers here, so payoffs are taken as already integral (resolution 1 in practice).
- Driver.StartEps: the relative starting epsilon `min(N, M) * epsstart / resolution` is computed in double and cast to int in the source; here it is an integer product and a truncating integer quotient, equal only when the double quotient has no fractional part.
- Driver.AuctionF: requires `resolution != 0` when epsilon is relative; the source divides by a zero double and casts the result to int, which is undefined.
- Metrics.AuctMetric.SetPayDensity: the density is a double field in the source; here it is an integer. The source computes it as the integer `NNZ/M*N` anyway, which the model reproduces with truncating division.
- Payoff.AuctPay.FromSparse: the quantisation `values[i] = (int)(vals[i]/res)` is not modelled; the values are stored as given, as with resolution 1 and integer input.
- Payoff.AuctPay.FromSparse: the `exit(-1)` on an nnz that differs from the vector sizes is a precondition; the model also requires `rowpt` to have n + 1 entries, which the source copies without checking.
- Payoff.AuctPay.FromDense: the quantisation `(int)(*vj/res)` is not modelled, and the dense payoff is a matrix of integers rather than of any type T.
- Cycles.CycleSP1: prices and bid values are unbounded integers. The source's 32-bit arithmetic can overflow near the `-MAXINT` placeholder (a price raised by `v - (-MAXINT) + epsilon` when there is no runner-up); the model does not wrap.
- Cycles.CycleSP2: the same unbounded arithmetic for the price and for the profit `second - epsilon`.
- MultiCycle.PlaceOne: for a placeholder left in the shopping list (a row group with more free rows than its payoff row offers full columns), the source evaluates `S.Price(-1)`, an unchecked read of `prices[-1]` (src/auction/AuctAssoc.h:55) and undefined behaviour; the model leaves the state unchanged, which is what `add(r, -1)` and `set_Price(-1, ...)` do with whatever value is read.
- MultiCycle.CycleSM: the same unbounded arithmetic for `price + v - refval + epsilon` when `refval` is `-MAXINT`.
- Pricing.AuctAssoc.HiddenBid: the same unbounded arithmetic for `minassoc - 1` and the `MAXINT` cap.
- PriceModel.PartialSort: the source calls `std::partial_sort(begin, end, begin + nbids)` (src/auction/AuctAssoc.cpp:175-178), with the middle and last arguments swapped; for nbids < size that breaks the call's range requirement, so the C++ standard leaves the result undefined. The model sorts the first nbids entries as the comment at line 174 intends. A full sort, which is what libstdc++ happens to do, meets every property proved here.
- PriceModel.PartialSort: `std::partial_sort` leaves the order of equal prices unspecified; the model picks the earliest entry first, so which of two equally priced columns is evicted or kept may differ from a given library.
- Shape.AuctShape.SetRowMult: the default argument `mlt = 1` is not modelled; callers pass the multiplicity (likewise Shape.AuctShape.SetColMult).
- Driver.OrientedRun: on reorientation the source transposes Sh before the bidding and back after it; the model leaves Sh's arrays in place and reads the shape through `Shape.Transposed`, which gives the same values to the bidding and the same Sh at the end.
- Driver.AuctionF: requires the payoff vectors to be well-formed one-based compressed rows with columns in [1, m]; the source trusts them and reads out of range otherwise.
- Driver.AuctionF: with multiplicities, requires every empty column group of the bidding orientation to end below the expanded column count (`Readable`). `min_price_in_colrange` over an empty group reads the price at its end, which is outside the prices for a trailing empty group; the source reads past the array only when such a group is reached in the groupmatch fallback, so the model also excludes trailing empty groups that no entry uses.
- Driver.AuctionF: the DEBUG and MESSG output, and `checkecs`, which only runs under DEBUG and prints, are not modelled.
- Totals.TotalPayOf: `T` is `int`; the loop test calls `nfullrows()` once, before the loop, where the source calls it on every test. The shape is up to date after the first call and the loop does not change it, so the count is the same.
- The non-template `totalpay` over the internal payoff (src/auction/AuctAlg.cpp:6-40) is not modelled: it tests `col != -1` after adding 1 and calls `std::remove` without `erase`, so it has no behaviour worth stating beyond its defects; the template `totalpay` is modelled instead.
- MTL itself (`mtl::scale`, `fast_copy`, the iterators) is abstracted: the internal payoff is a sequence of zero-based rows of (column, value) entries, transposed by `InternalMatrix.CTransp` (which, like ctransp's cursors, keeps only the ascending in-range prefix of each row) and scaled by `InternalMatrix.Scaled`.
- Destructors and memory management are not modelled; `auction_driverbug.cpp` (console and file I/O, timing) is not part of this model.

## Findings

| source | as written | input that shows it | evidently intended | confidence | as-written member | corrected member |
|---|---|---|---|---|---|---|
| src/auction/AssocMatrix.cpp:104-110 | case 5 of `clear_pair` (row and column both held elsewhere) indexes `rowassign` by rows and `colassign` by columns: it writes `rowassign[in_row]`, `colassign[in_col]`, `rowassign[tmp_row]` and `colassign[tmp_col]` | a 3-by-3 association holding (0,1) and (2,0), then `add(0,0)`: row 2 still claims column 0, now held by row 0; with 3 rows and 2 columns holding (2,0) and (1,1), `add(2,1)` writes `rowassign[2]` past a 2-entry array | clear both partners: `rowassign[in_col]`, `colassign[in_row]`, `rowassign[tmp_col]` and `colassign[tmp_row]` become -1 | high, not executed | Assoc.AddAsWrittenBreaksInverse, Assoc.AddAsWrittenOutOfBounds | Assoc.AddCorrect |
| src/auction/AuctAssoc.cpp:71-83 | `min_price_in_rowrange` keeps a held price when it is greater than the running value, so it returns the maximum | rows 0 and 1 holding columns 0 and 1 priced 5 and 3: the range [0, 2) gives 5 | keep a price when it is smaller: the minimum, 3 | high, not executed | PriceModel.RowRangeMinAsWrittenReturnsMax | PriceModel.RowRangeMinMeaning |
| src/auction/AuctPay.h:204-209 | `get_max_by_row` scans `values[rowptr[i] .. rowptr[i+1])` as if the pointers were zero-based, while the dense constructor stores one-based pointers (lines 68, 81 and 90) and `auctionF` reads the same arrays as a one-based matrix (src/auction/AuctAlg.h:29-30) | the dense payoff [[5], [3]] with don't-care 0 gives values [5, 3] and pointers [1, 2, 3]: row 0's maximum comes out 3 | scan `values[rowptr[i]-1 .. rowptr[i+1]-1)`: row 0's maximum is 5 | medium, not executed | Payoff.MaxByRowAsWrittenShifted | Payoff.MaxByRowMeaning |
