# Gradido blockchain core: a verified model

A Dafny model of four parts of gradido_blockchain_core, with proofs of what they promise.

1. **The chain index.** `TransactionIndex` answers filters - by role of a key, by type, by coin, by number, by
   date - from sets of offsets; `SegmentedChain` cuts a chain into such indices and merges what they find;
   `AddressRegister` knows the type of each key and its newest balance change. The specification is the plain scan
   of the accepted transactions (`Ledger.Scan`) and the plain replay (`Histories`). Every allocation is an oracle
   (`Grants`) and may fail at any point. `Rows` says on values what a chain does with memory to spare, whatever it is
   offered; `RowRuns`, `HalfAdded` and `ChainRuns` speak about whole runs: segment sizes, refusals, retries. `OneMore`
   says what one transaction more changes in the answers, in its own fields and those of the filter.
2. **Decay and fixed-point arithmetic.** The Q64.64 products of both builds, the table generators, the decay by
   a chain of bits and by five-bit windows, its monotonicity, its error within a year and for ever, and the parser
   and printer of amounts.
3. **Key maps.** Two open-addressing tables and a sorted array, which keep the contract the index assumes of
   its own map and answer alike.
4. **The number peek**, against the wire format of Protocol Buffers (Encoding, "Base 128 Varints" and
   "Last One Wins").

`dafny verify dfyconfig.toml` checks everything.

## How to read it

- A class stands for a C structure that is updated in place; its ghost `txs` is the sequence of accepted
  transactions and `pending` a transaction refused half way for want of memory. `Valid()` ties the fields to
  them. `MayFollow` concerns a refusal for want of memory only. In the chain and in the register it is the documented
  rule, the same transaction once more (`include/gradido_blockchain_core/blockchain/chain.h:170-173`,
  `include/gradido_blockchain_core/blockchain/transactions.h:196-200`), or one that is refused for its number; the
  index takes any transaction that suits what has been left behind. While nothing is pending anything may be offered.
- A segment may hold a number the chain has not counted, since the register is asked after the segment
  (`src/blockchain/chain.c:138-151`). What the segments hold (`Chain.Contents`) and what is counted (`Chain.txs`) are
  therefore told apart; counts, pages and newest are stated for what is held.
- The containers of the arnm library are contracts in `Arnm`: a set of offsets that only grows at its upper end,
  a map from keys to dense ids, vectors whose push may fail. `KeyOrder.AsMapKeepsContract` discharges the map's.
- Public keys and community ids are numbers, their bytes read from the most significant one. Hash functions are
  parameters. `hide` statements keep proofs small and assert nothing.

## What was found

- An offset of 2^32 - 1 wraps to an empty entry of the day table, so its day is lost: `DayTable.LastOffsetIsLost`;
  the table is exact for every span if and only if that offset is not used and days never step back
  (`DayTable.ExactForEverySpan`). The add that fills all 2^32 offsets brings the counter of an index to 0, and every
  query then finds nothing (`ChainRuns.FullIndexLooksEmpty`).
- That the segment size changes no answer holds under a condition. Among attempts whose address types the register
  knows, under one size every attempt is answered by its number and type alone if and only if each accepted day fits
  the window it falls in and each number offered until one is accepted lies in the row opened so far or in the segment
  behind it (`RowRuns.AnswersPlainly`). Under all sizes together, for runs accepted below 2^32 - 1, that is so
  if and only if the accepted days never step back and never span 2^32 days, and each number offered until one is
  accepted is neither below the first one offered nor more than one above the largest offered before it
  (`RowRuns.EverySizeAnswersAlike`). Under that condition counts, pages, newest and day spans agree too
  (`ChainRuns.SegmentSizeIsInvisible`, `ChainRuns.DaySpanIsSizeless`).
- A segment's home is the community of its own first transaction. A coin filter finds what the plain scan does if and
  only if no transaction is judged otherwise by its segment's home (`RowScans.FoundIsPlain`);
  `ChainRuns.CoinShowsTheSize` is a case where the size decides.
- First transactions refused for their type leave their segments open, and the row begins with the first of them for
  good. The attempt after them, if its types are known, is taken if and only if it falls into a segment of that row or
  into the one right behind it (`RowRuns.RefusedFirstPinsTheRow`); after a single refused one every size takes it if
  and only if it carries the refused number or the next (`RowRuns.PinnedUnderEverySize`). Open segments may stay empty
  while the next one is in use (`ChainRuns.FirstSegmentStaysEmpty`), so it is not always true that all segments but
  the last are filled: `RowRuns.AllButLastFilled` says exactly when.
- A registration whose address type the register does not know has been taken by its segment when it is refused. While
  the segments hold one run that is this one number longer than what is counted, the number goes to the register alone:
  the same transaction is refused for its type again, and any other one that carries the number is counted if and only
  if its types are known, while the segments keep the first (`HalfAdded.HalfGoesToRegister`, reached by
  `ChainRuns.AnotherIsCounted`). In one community the segments then answer every filter as one scan of what is counted
  if and only if no filter can tell the two apart: the same kind, day, keys and coins
  (`HalfAdded.ReplacedIsSeenUnlessAlike`, which says it for several communities too, with
  `RowScans.LooksLikeIsMeetsAlike`). Correcting the address type alone is such a case (`HalfAdded.TypeIsNotSeen`).
- Before anything is counted such registrations pile up: segments take any number of them, on days that fit, and they
  go on finding them once a known transaction follows and is counted as the first of the chain
  (`HalfAdded.UncountedAreFound`).
- After an add that ran out of memory another transaction under the same number may enter an index that is not empty
  without harm if and only if it bears every mark the refused one has left, and is of the same day unless that day has
  not been noted (`TransactionIndex.Index.AnotherFollows` with `TransactionIndex.Index.Add`).
- The narrow map documents a cap of 2^31 slots; the 32-bit byte count stops it at 2^28 (`NarrowMap.LargestTable`).
- The program that prints the powers drops the sign of a product. The result is the signed product if and only if the
  signs agree or the product is its own negation in 128 bits (`FixedPoint.SignIsDropped`); minus one times one is one
  (`FixedPoint.MinusOneTimesOne`).
- The parser lets the C library take a second sign: behind blanks or another minus a library minus reverses
  the whole part only, so " -1.5" is read as -0.5 (`AmountReading.BlankBeforeMinus`); exactly when this is so is
  `AmountReading.ReadsWhatItSays`. The model carries into the whole part in unbounded integers; a whole part so
  large that a signed word could not hold the carry is refused.
- Where the buffer is too small the printer answers the room it needs, like a length it has written, and it asks
  for the room of all four places (`AmountPrinting.ToString`).

## Model

| member | source | states |
|---|---|---|
| Ledger.DayOfIsFloor | src/blockchain/transactions.c:27-30 | The day of a second is the floor of its quotient by 86400, before the epoch as well |
| Ledger.SatisfiesSays | src/blockchain/transactions.c:262-338 | What a filter asks of a transaction, in the fields of both: the involved role is that of its signers, the keys of its balance entries and the keys its layout holds, sender and recipient, user and account key, or root, GMW and AUF key; days are quotients of seconds by 86400 |
| Ledger.ScanLists | src/blockchain/transactions.c:387-466 | Of ascending numbers the plain scan lists exactly those of the satisfying transactions, ascending |
| Ledger.SpansDaysSays | src/blockchain/transactions.c:347-384 | What a day span holds, in seconds: exactly the numbers confirmed from the day of the first to that of the last, second 0 leaving an end open |
| OneMore.IndexTells | src/blockchain/transactions.c:243-343 | An accepted transaction raises the count of exactly the filters it satisfies by one and is their newest; any other answer changes no count |
| OneMore.InvolvedIsFound | src/blockchain/transactions.c:303-335 | In the involved role an accepted transaction is found for its signers, its balance keys and the keys of its layout, and for no other key |
| OneMore.VerdictSays | src/blockchain/transactions.c:243-260 | When a transaction is refused for its number, its distance, its type or its day, in numbers and seconds |
| OneMore.DaysTell | src/blockchain/transactions.c:347-384 | The span of an index over seconds asked for holds exactly the transactions confirmed on their days |
| Pages.PageIs | src/blockchain/transactions.c:547-588 | A page passes over skip matches from the end it starts at and holds the next ones, so many or what is left |
| DayTable.SpanExact | src/blockchain/transactions.c:347-384 | With days that never step back, the span read off the day table holds exactly the offsets confirmed on the days asked for |
| DayTable.SpanTight | src/blockchain/transactions.c:347-384 | Such a span begins and ends with matching offsets, and there is none exactly when no offset matches |
| DayTable.ExactForEverySpan | src/blockchain/transactions.c:225-241 | The table answers every span exactly if and only if days never step back and the last offset is not used |
| DayTable.LastOffsetIsLost | src/blockchain/transactions.c:225-241 | An offset of 2^32 - 1 is missing from the span of its own day |
| DayTable.StepBackIsSeen | src/blockchain/transactions.c:225-241 | Where days step back some span is answered wrongly |
| DayTable.NoteKeeps | src/blockchain/transactions.c:225-241 | Noting the next offset, or the same one again, keeps the table the largest offset of each day |
| DayTable.NotedOrNot | src/blockchain/transactions.c:225-241 | After an add refused half way its day is either noted in full or not at all |
| DayTable.OtherDayNoted | src/blockchain/transactions.c:225-241 | Once a table that may have noted a refused day has noted another one for the same offset, it describes that exactly when the days are the same or the first was not noted |
| Queries.SpanCardinality | src/blockchain/transactions.c:473-503 | For a query that names no set, the span less the excluded sets counts exactly what matches |
| Queries.SpanPage | src/blockchain/transactions.c:505-528 | For such a query the walk from either end yields the page of the matches it was asked for |
| Queries.MatchesAreScan | src/blockchain/transactions.c:387-466 | A query that describes a filter matches the transactions the plain scan finds, in the same order |
| TransactionIndex.Index.constructor | src/blockchain/transactions.c:57-123 | A new index is valid and holds nothing |
| TransactionIndex.Index.SetsForKey | src/blockchain/transactions.c:176-196 | A key gets its sets, a lagging vector is completed, and no set of any key changes, whether or not memory runs out |
| TransactionIndex.Index.CoinSetForUuid | src/blockchain/transactions.c:200-222 | The same for a foreign coin community |
| TransactionIndex.Index.NoteDay | src/blockchain/transactions.c:225-241 | The day is noted or refused as its distance from the first day says, and the table still describes every earlier offset |
| TransactionIndex.Index.FileAll | src/blockchain/transactions.c:271-338 | After success every set the transaction belongs in, and no other, has gained its offset; after a failure only sets it belongs in have |
| TransactionIndex.Index.RetryFollows | include/gradido_blockchain_core/blockchain/transactions.h:196-200 | The transaction that ran out of memory may always be added again, and any transaction may while none is refused half way |
| TransactionIndex.Index.AnotherFollows | src/blockchain/transactions.c:225-338 | Another transaction under a number refused half way suits what is there exactly when it bears every mark left and is of the same day, or of any where none was noted; where it does not suit, sets and day table are wrong about the run however the add goes on |
| TransactionIndex.Index.Add | src/blockchain/transactions.c:243-343 | Takes the transaction or leaves the accepted ones as they are; the answer is the verdict on number, distance, type and day unless memory ran out; every invariant of the sets is kept, also half way; after running out of memory it takes whatever suits what is there |
| TransactionIndex.Index.RangeOfDays | src/blockchain/transactions.c:347-384 | The span of numbers that is exactly the transactions confirmed on the days touched, or none; while an add is refused half way, exact for the accepted ones, or for them and the refused one |
| TransactionIndex.Index.QueryOfFilter | src/blockchain/transactions.c:387-466 | The query built describes the filter over the accepted transactions; no query means nothing can match. A filter without dates is always answered so |
| TransactionIndex.Index.Count | src/blockchain/transactions.c:530-545 | The length of the plain scan, a half-added transaction not counted |
| TransactionIndex.Index.Listing | src/blockchain/transactions.c:547-588 | The page of the plain scan in either direction, with its count; a page size over the limit is refused |
| TransactionIndex.Index.Newest | src/blockchain/transactions.c:590-609 | The last number the plain scan finds |
| Marks.FaithfulBegins | src/blockchain/transactions.c:271-338 | An add that starts again after a refusal finds the sets faithful, whatever part of it had been entered |
| Marks.FaithfulAdvances | src/blockchain/transactions.c:271-338 | Entering only marks the transaction bears keeps every set faithful to the accepted transactions |
| Marks.FaithfulCompletes | src/blockchain/transactions.c:340-342 | Once all its marks are entered the transaction counts as accepted and every set is faithful to the longer run |
| Marks.DueIsAll | src/blockchain/transactions.c:271-338 | The marks an add enters are all those the transaction bears: signer, balance and other role, type, coin and foreign |
| Marks.OtherIsApart | src/blockchain/transactions.c:326-335 | A key's third set is disjoint from its other two, also while an add is refused half way |
| Marks.KindsPartition | src/blockchain/transactions.c:337-338 | The type sets hold every accepted offset, each in one of them |
| Marks.ForeignIsUnion | src/blockchain/transactions.c:292-301 | The foreign set is the union of the coin sets |
| Marks.SuitsBooks | src/blockchain/transactions.c:271-338 | Sets a refused transaction has left marks in suit another exactly when it bears them all, and sets that keep a mark it does not bear are never faithful to it |
| Histories.HistoryTellsType | src/blockchain/addresses.c:234-249 | The first record at or below a number in a key's history is the last type given at or below it |
| Histories.LastBalanceIsNewest | src/blockchain/addresses.c:265-272 | The last balance change of a replay is the newest number the scan for the balance role finds |
| Histories.NoteReaches | src/blockchain/addresses.c:76-109 | Noting a type adds the next record of the transaction or finds it there, never twice |
| Histories.NoteAgain | src/blockchain/addresses.c:76-109 | Noting again a type a refused attempt had noted changes nothing |
| Histories.LastGivenNext | src/blockchain/addresses.c:183-209 | What one transaction does to the types: a registration gives its address type to user and account key, a deferred transfer 7 to its recipient, a community root 2 to the GMW and then 3 to the AUF key; nothing else changes |
| Histories.HistoryNext | src/blockchain/addresses.c:183-209 | The records it puts in front of each key's list |
| Histories.LastBalanceNext | src/blockchain/addresses.c:211-219 | It becomes the last balance change of exactly the keys of its balance entries |
| Histories.TypedIsInvolved | src/blockchain/addresses.c:183-209 | Every transaction that gives a key a type is found for the key in the involved role |
| OneMore.RegisterTells | src/blockchain/addresses.c:173-272 | What a register that has taken a transaction tells of any key's type and balance, against what it told before |
| OneMore.RegisterVerdictSays | src/blockchain/addresses.c:173-180 | When a register refuses a transaction for its number or its types |
| OneMore.TypedIsFound | src/blockchain/chain.c:265-325 | Where the segments hold what is counted they find, in the involved role, every transaction the register lists as giving the key a type |
| AddressRegister.WalkKept | src/blockchain/addresses.c:76-109 | A record pushed leaves every older walk as it was: links only lead back |
| AddressRegister.Register.EntryForKey | src/blockchain/addresses.c:44-64 | A key gets its entry and no entry changes, whether or not memory runs out |
| AddressRegister.Register.NoteType | src/blockchain/addresses.c:76-109 | The key's records gain the one noted unless it stands at their front already; other keys keep theirs |
| AddressRegister.Register.Add | src/blockchain/addresses.c:173-224 | Every key's records and last balance become those of the replay with one transaction more, or, after a refusal, such that a retry completes them |
| AddressRegister.Register.TypeAt | src/blockchain/addresses.c:234-249 | The last type given at or below the number in a replay, also while an add of a later number is refused |
| AddressRegister.Register.TypeChanges | src/blockchain/addresses.c:251-263 | The numbers of a key's history, newest first, as many as asked for; behind what a refused transaction has noted, while one waits |
| AddressRegister.Register.NewestBalance | src/blockchain/addresses.c:265-272 | The last balance change of the replay, none when there is none, or the refused transaction's own for a key it moves |
| Windows.WindowJoins | src/blockchain/chain.c:199-263 | The windows of consecutive segments, put together, are the run of all transactions up to the last of them |
| Windows.FilledWhen | src/blockchain/chain.c:117-134 | A window is filled to its end exactly when the run begins below that end and reaches it |
| RowScans.MetStep | src/blockchain/chain.c:217-263 | One segment more, from either end, adds what that segment finds with its own home, in walk order |
| RowScans.MetEnds | src/blockchain/chain.c:217-263 | All segments met give all that they find between them, in order or reversed |
| RowScans.FoundIsPlain | src/blockchain/chain.c:199-263 | The segments find what one scan of the run finds exactly when no transaction is judged otherwise by its segment's home, also where they hold others under the same numbers |
| RowScans.LooksLikeIsMeetsAlike | src/blockchain/transactions.c:387-466 | Two transactions under one number meet the same filters exactly when they have the same kind and day, the same keys with a balance moved and with any part in it, and count as carrying the same coins |
| RowScans.FoundIsPlainForAll | src/blockchain/chain.c:199-263 | The segments answer every filter as one scan exactly when each transaction they hold looks like the counted one |
| RowScans.OneCommunityIsPlain | src/blockchain/chain.c:199-263 | Without a coin in the filter, or in one community, a gapless row finds what one scan of it finds |
| RowScans.SpansJoin | src/blockchain/chain.c:276-303 | The outermost of two neighbouring day spans is exact for both runs together |
| SegmentedChain.Chain.constructor | src/blockchain/chain.c:25-58 | A new chain is valid and empty, a size of 0 taken as the default |
| SegmentedChain.Chain.OpenSegment | src/blockchain/chain.c:88-106 | The row gains the segment of the next window, empty, or stays as it is |
| Rows.OpenedAgain | src/blockchain/chain.c:128-134 | A segment opened before memory ran out makes no difference to the next attempt |
| Rows.TakenAgain | src/blockchain/chain.c:136-143 | Nor does a transaction its segment has taken |
| Rows.OfferCounts | src/blockchain/chain.c:108-115 | Whatever is offered, what has been counted is numbered without gaps from 1 or later |
| SegmentedChain.Chain.Add | src/blockchain/chain.c:108-152 | Whatever is offered: with memory the answer and the row it leaves are those of number, row, segment and register, one asked after the other; without, nothing is counted and the next attempt gets the answer this one would have got |
| RowRuns.SegmentHolds | src/blockchain/chain.c:117-134 | When a segment of a regular row holds anything, and when it is filled to its end |
| RowRuns.AllButLastFilled | src/blockchain/chain.c:117-134 | All segments but the last are filled exactly when the first holds something and the run reaches the last, or right before it |
| SegmentedChain.Chain.Count | src/blockchain/chain.c:199-215 | As many as the segments find between them, transactions only a segment took among them |
| SegmentedChain.Chain.Listing | src/blockchain/chain.c:217-263 | The page of what the segments find between them, skip and size running on across segments in either direction, and its full count |
| SegmentedChain.Chain.Newest | src/blockchain/chain.c:265-274 | The last number the segments find between them |
| SegmentedChain.Chain.RangeOfDays | src/blockchain/chain.c:276-303 | The span that is exactly the transactions confirmed on the days touched, across segments that hold one run; while an add is refused half way, for what is held or for that and the refused one |
| RowRuns.OfferToRegular | src/blockchain/chain.c:108-152 | The next number is answered by its reach, its type, its day against the first of its window and its address type; each segment goes on holding its window of one run |
| RowRuns.AnswersPlainly | include/gradido_blockchain_core/blockchain/chain.h:40-48 | With address types known, under one segment size every attempt is answered by number and type alone exactly when the accepted days fit their windows and the numbers before the first acceptance step on segment by segment |
| RowRuns.EverySizeAnswersAlike | include/gradido_blockchain_core/blockchain/chain.h:40-48 | Under all sizes it is exactly when the accepted days never step back and never span 2^32 days, and the numbers before the first acceptance lie between the first one offered and one past the largest |
| ChainRuns.Fill | src/blockchain/chain.c:108-152 | A chain of any size, offered any attempts at all, each tried again until there is room, goes through the rows and answers computed for its size |
| ChainRuns.FillOrderly | src/blockchain/chain.c:108-152 | With accepted days in order, numbers in steps and address types known it ends holding exactly the accepted transactions; when every segment but the last is filled |
| ChainRuns.SegmentSizeIsInvisible | include/gradido_blockchain_core/blockchain/chain.h:40-48 | Offered such attempts two chains of any two sizes, with whatever memory, answer every add, count, page and newest of every filter alike, of a coin filter in one community |
| ChainRuns.DaySpanIsSizeless | include/gradido_blockchain_core/blockchain/chain.h:40-48 | And every day span alike |
| RowRuns.DayStepShowsTheSize | src/blockchain/transactions.c:225-241 | Of any two neighbouring known transactions, under any size, the second is refused for its day only when both share a segment |
| RowRuns.RefusedFirstPinsTheRow | src/blockchain/chain.c:108-152 | After any first transactions refused for their type a known one is taken exactly when it falls into the row they opened or right behind it, under any size; the row begins with the first of them |
| RowRuns.PinnedUnderEverySize | src/blockchain/chain.c:117-126 | Behind one refused transaction every size takes a known one exactly when it carries the refused number or the one behind |
| ChainRuns.FirstSegmentStaysEmpty | src/blockchain/chain.c:117-141 | A run that leaves the first segment empty and the second in use |
| ChainRuns.CommunityStepShowsTheSize | src/blockchain/transactions.c:262-301 | A chain that took two neighbours finds them as by the plain scan exactly when they share a segment or both communities judge the second alike |
| ChainRuns.CoinShowsTheSize | src/blockchain/transactions.c:262-301 | Two transactions without balances in two communities: a coin filter finds the second exactly when it shares the first one's segment |
| HalfAdded.HalfGoesToRegister | src/blockchain/chain.c:136-151 | While the segments hold one number more than is counted, whatever transaction carries it goes to the register alone: counted exactly when its types are known, the segments unchanged |
| HalfAdded.ReplacedIsSeenUnlessAlike | src/blockchain/chain.c:136-151 | After another transaction was counted under that number the segments answer every filter as one scan of what is counted exactly when the two look alike |
| HalfAdded.TypeIsNotSeen | src/blockchain/chain.c:136-151 | A registration corrected in its address type alone looks alike |
| HalfAdded.UncountedStep | src/blockchain/chain.c:136-151 | What is held beyond what is counted grows by one when a segment takes what the register refuses, shrinks by one when the register takes what a segment had, and stays the same otherwise |
| HalfAdded.UncountedAreFound | src/blockchain/chain.c:136-151 | Any number of registrations of unknown address types is kept by the segments before the first transaction is counted, and found ever after |
| HalfAdded.RegularIsFlat | src/blockchain/chain.c:199-263 | What a regular row holds, segment behind segment, is its run |
| ChainRuns.CountTellsUncounted | src/blockchain/chain.c:199-215 | A filter with nothing set counts what is counted and what only the segments hold |
| ChainRuns.AnotherIsCounted | src/blockchain/chain.c:136-151 | A run after which the segments answer for one transaction and chain and register count another |
| ChainRuns.RefusalIsHidden | include/gradido_blockchain_core/blockchain/transactions.h:196-200 | A refused add of an index changes no count, page or newest of any filter |
| ChainRuns.FullIndexLooksEmpty | src/blockchain/transactions.c:340-342 | After 2^32 transactions count, page and newest of an index find nothing |
| ChainRuns.Retry | include/gradido_blockchain_core/blockchain/transactions.h:196-200 | Any transaction offered again until there is room gets the answer it would have got with room at once, and leaves the same row |
| ChainRuns.RetriesAreInvisible | include/gradido_blockchain_core/blockchain/transactions.h:196-200 | Two chains of one size offered the same attempts, whatever they are, with memory failing anywhere in either run, answer adds, counts, pages, newest and day spans alike |
| ChainRuns.LastBalanceAgrees | src/blockchain/chain.c:265-274 | The register's last balance change of a key is that of the counted run, and the newest the segments find for it in the balance role where they hold what is counted |
| KeyOrder.IdsAreByFirstAppearance | benchmarks/src/proto/maps.h:5-7 | An id once answered never changes; it is the key's place among the keys by first appearance |
| KeyOrder.AsMapKeepsContract | benchmarks/src/proto/maps.h:5-7 | Such ids are dense, one more for a new key: the contract the index assumes of its map |
| Probing.WalkEnds | benchmarks/src/proto/map_lp_inline.c:97-114 | In a table with fewer ids than slots every walk meets an empty slot, so every probe loop ends |
| Probing.IdPlaced | benchmarks/src/proto/map_lp_inline.c:66-87 | An id put into the first empty slot of its walk leaves every other id reachable from its home |
| Probing.GrowAt | benchmarks/src/proto/map_lp_inline.c:11-15 | The count at which an insert grows the table is below its capacity whatever the load: some slot stays empty |
| Probing.GrowAtIsMost | benchmarks/src/proto/map_lp_inline.c:11-15 | It is the largest count within the load that leaves a slot empty |
| Probing.GrowsWhen | benchmarks/src/proto/map_lp_inline.c:66-70 | A table doubles, from 8 slots on, exactly while its bytes fit 32 bits |
| Probing.GrownIsFilled | benchmarks/src/proto/map_lp_inline.c:11-15 | At an allowed load a table asked to grow is at most ten times as large as what it holds |
| InlineMap.KeyIsAbsent | benchmarks/src/proto/map_lp_inline.c:117-130 | An empty slot at the end of a walk past other keys means the key is in no slot |
| InlineMap.Map.Find | benchmarks/src/proto/map_lp_inline.c:117-130 | Finds exactly the inserted keys, each under its id |
| InlineMap.Map.Grow | benchmarks/src/proto/map_lp_inline.c:66-87 | Every key stays findable under its id; a refusal changes nothing |
| InlineMap.Map.GetOrInsert | benchmarks/src/proto/map_lp_inline.c:89-115 | The key's id, the next one for a new key; a refusal leaves the keys as they were; with memory, refused exactly when a full table has no larger one or no id is left |
| NarrowMap.KeyIsAbsent | benchmarks/src/proto/map_lp_narrow.c:133-148 | The same for slots that hold a 32-bit hash: colliding hashes of other keys are walked past |
| NarrowMap.Map.Find | benchmarks/src/proto/map_lp_narrow.c:133-148 | Finds exactly the inserted keys, each under its id |
| NarrowMap.Map.Grow | benchmarks/src/proto/map_lp_narrow.c:77-97 | Every key stays findable under its id, from the stored hashes alone |
| NarrowMap.LargestTable | benchmarks/src/proto/map_lp_narrow.c:77-97 | No table is larger than 2^28 slots, and one of that size cannot grow |
| NarrowMap.Map.GetOrInsert | benchmarks/src/proto/map_lp_narrow.c:99-131 | The key's id, the next one for a new key; a refusal leaves the keys as they were; with memory, refused exactly when a full table has no larger one or no id is left |
| SortedMap.Map.LowerBound | benchmarks/src/proto/map_sorted.c:39-56 | Finds the key's entry, or the only place that keeps the entries sorted |
| SortedMap.Map.Find | benchmarks/src/proto/map_sorted.c:85-91 | Finds exactly the inserted keys, each under its id |
| SortedMap.Map.GetOrInsert | benchmarks/src/proto/map_sorted.c:58-83 | The key's id, the next one for a new key, the entries sorted as before; with memory, refused exactly when a new key finds a full array that cannot be doubled |
| MapAgreement.SameLookupsSameIds | benchmarks/src/proto/maps.h:5-18 | Any two maps that answered the same lookups, whatever failed between, gave the same ids |
| MapAgreement.RunInline | benchmarks/src/proto/map_lp_inline.c:89-115 | In a run with memory failing anywhere every answered lookup got its key's place by first appearance |
| MapAgreement.RunNarrow | benchmarks/src/proto/map_lp_narrow.c:99-131 | The same for the narrow table |
| MapAgreement.RunSorted | benchmarks/src/proto/map_sorted.c:58-83 | The same for the sorted array |
| MapAgreement.Agreement | benchmarks/src/proto/maps.h:5-18 | Where the same lookups are answered the three give the same ids and find the same keys; with memory, up to five million keys among any number of lookups, all are answered |
| PeekId.VarintsAgree | src/data/wire/confirmed_transaction.c:127-144 | At most one varint begins at any byte |
| PeekId.PeekVarint | src/data/wire/confirmed_transaction.c:127-144 | Reads the varint that begins here and its 64-bit value, and fails exactly when none begins |
| PeekId.PeekBody | src/data/wire/confirmed_transaction.c:176-196 | Steps over what the wire type says, and fails exactly when no such body begins |
| PeekId.PeekField | src/data/wire/confirmed_transaction.c:162-197 | Reads one well-formed field, and fails exactly when none begins; the position strictly grows |
| PeekId.MessagesAgree | src/data/wire/confirmed_transaction.c:153-201 | A byte string is a run of well-formed fields in one way at most |
| PeekId.PeekId | src/data/wire/confirmed_transaction.c:153-201 | Accepts exactly the runs of well-formed fields, and answers the last number field's value, or 0 |
| PeekId.ToVarintIsRead | src/data/wire/confirmed_transaction.c:127-144 | Every 64-bit number has a varint that reads back as it |
| PeekId.VarintSpells | src/data/wire/confirmed_transaction.c:127-144 | Varints are exactly the bytes that spell a 64-bit number, seven bits in each, the lowest first, and 128 more in all but the last |
| PeekId.ToVarintSpells | src/data/wire/confirmed_transaction.c:127-144 | The shortest varint of a number is such bytes |
| PeekId.FieldOnBytes | src/data/wire/confirmed_transaction.c:162-197 | What a field is on bytes: a tag, and by its lowest three bits a varint, eight bytes, a length and its bytes, or four bytes |
| PeekId.NumberIsPeeked | src/data/wire/confirmed_transaction.c:153-201 | Of a message, the byte 8, the bytes that spell n and a message without a field numbered 1 the answer is n; of a message without one it is 0 |
| FixedPoint.MulPrecise | src/data/unit.c:429-448 | The product of any two Q64.64 numbers, truncated to 2^-64, modulo 2^128 |
| FixedPoint.TimesIsFloor | src/data/unit.c:429-448 | The truncated product is the largest whole number of units not above the product of the two numbers |
| FixedPoint.MulSpecialized | src/data/unit.c:412-427 | The same product whenever the second factor is below 1 |
| FixedPoint.Mul64 | third_party/fp256/src/fp256_mul.c:24-41 | The two words are the whole product, the one sum that can wrap accounted for |
| FixedPoint.MulHigh | helper/precalculate_decay_windows.c:34-58 | The upper word of the product; no intermediate wraps |
| FixedPoint.MulQ64 | helper/precalculate_decay_windows.c:60-91 | On 1 and on every factor below 1 the truncated product, and below 1 again |
| FixedPoint.MulMagnitudes | helper/precalculate_decay_table.c:10-82 | The truncated product of the magnitudes modulo 2^128 |
| FixedPoint.SignIsDropped | helper/precalculate_decay_table.c:10-82 | That is the signed product exactly when the signs agree or the product is its own negation |
| FixedPoint.MinusOneTimesOne | helper/precalculate_decay_table.c:10-82 | An input on which the sign is lost |
| WideProduct.Row | third_party/fp256/src/fp256_mul.c:70-93 | A row adds one word's product to what is there, exactly |
| WideProduct.Mul256 | third_party/fp256/src/fp256_mul.c:44-166 | The exact 512-bit product |
| WideProduct.MulPrecise | src/data/unit.c:452-498 | The same truncated Q64.64 product as the 128-bit build, for all inputs |
| DecayTables.PowersAreSquares | src/data/unit.c:30-47 | Each table entry is the truncated square of the one before |
| DecayTables.WindowsAreChains | src/data/unit.c:49-228 | Each window entry is the truncated chain of the powers its digit selects |
| DecayTables.PrintPowers | helper/precalculate_decay_table.c:94-103 | Repeated squaring reproduces the table of powers, all 32 entries |
| DecayTables.PrintEntry | helper/precalculate_decay_windows.c:120-124 | The nested loop's entry is the window table's |
| DecayTables.PrintWindows | helper/precalculate_decay_windows.c:115-135 | The generator reproduces the window table, all 160 entries |
| Decay.BitChain | src/data/unit.c:556-573 | The loop computes the truncated chain of the set bits' powers; its index stays in the table |
| Decay.WindowChain | src/data/unit.c:611-619 | The loop computes the truncated chain of the window factors |
| Decay.CalculateDecay | src/data/unit.c:506-588 | For durations from 0 on: whole years by shift, the rest by the bit factor, a half rounded up; nothing wraps |
| Decay.CalculateDecayWindowed | src/data/unit.c:590-626 | The same with the windowed factor |
| DecayOrder.NextSecondFrom | src/data/unit.c:565-573 | In the bit chain one second more never gives a larger factor, whatever carries through the bits |
| DecayOrder.NextSecondInWindows | src/data/unit.c:614-619 | Nor in the windowed chain |
| DecayOrder.BitsAreSteady | src/data/unit.c:556-573 | The bit factor starts at 1, never grows within a year and never falls below a half |
| DecayOrder.WindowsAreSteady | src/data/unit.c:611-619 | So does the windowed factor |
| DecayOrder.HalvedIsQuotient | src/data/unit.c:526 | The shift by whole years divides by the power of two |
| DecayOrder.DecayIsMonotone | src/data/unit.c:506-626 | Both decays: longer never leaves more, across years too, nor does a smaller amount, and never more than there was |
| DecayYears.YearHalves | src/data/unit.c:519-527 | A year more leaves what the rest leaves of half the amount, for any factors, amount and duration |
| DecayYears.WholeYearsLeave | src/data/unit.c:519-527 | Exactly k years leave the amount divided by 2^k, up to 63 of them, and nothing beyond |
| DecayYears.YearsFirst | src/data/unit.c:519-527 | Whole years can be taken first and the rest of the duration from what they leave |
| DecayYears.BothHalve | src/data/unit.c:519-527 | All this of both programs |
| DecayError.BitFactorError | src/data/unit.c:556-573 | Less than 24 units of 2^-64 below the exact product of the selected powers, never above |
| DecayError.WindowsFactorError | src/data/unit.c:611-619 | The same bound for the windowed factor |
| DecayError.FactorsAgree | src/data/unit.c:49-53 | The two factors of any part of a year differ by at most 22 units |
| DecayAccuracy.DecaysAgree | src/data/unit.c:49-53 | The two decays differ by at most 11, by at most 1 below 2^59, and not at all after whole years |
| DecayAccuracy.PowerIsNear | src/data/unit.c:29-47 | Each power lacks less than a unit for each of its seconds of the exact power of the first |
| DecayAccuracy.BitsAreNear | src/data/unit.c:556-573 | The bit factor of r seconds is at most r units below the exact power, never above |
| DecayAccuracy.WindowsAreNear | src/data/unit.c:611-619 | So is the windowed factor |
| DecayAccuracy.DecayIsAccurate | src/data/unit.c:532-582 | Within a year, for amounts up to 2^63 / 31556952 (so up to 2^38), less than one smallest unit from the exact decay |
| DecayAccuracy.SplittingIsNearlyExact | src/data/unit.c:506-626 | For such amounts, decaying in two steps within a year differs from one step by at most one smallest unit, in both forms |
| DecayAccuracy.ShareIsRounded | src/data/unit.c:577-582 | An amount times a factor is rounded to the nearest whole, a half up |
| DecayYears.YearIsHalf | src/data/unit.c:509-510 | The power of one second over a year of seconds is a half to within 2^-39, from below and from above |
| DecayYears.AcrossYears | src/data/unit.c:506-626 | Whatever the duration, for such amounts less than two smallest units are missing, and less than one too much, against a half for every year and the exact power of the rest |
| DecayYears.DecayIsAccurateForEver | src/data/unit.c:506-626 | Whatever the duration, less than three smallest units from the exact power of all its seconds |
| Decimals.RoundsHalfUp | src/data/unit.c:295-325 | Four digits and the fifth decide the rounding of a fraction of any length to the nearest ten-thousandth, a half going up |
| Decimals.PaddedSplits | src/data/unit.c:386-397 | The digits filled up to five are those of the whole part and four of the fraction |
| Decimals.OneDigitMore | src/data/unit.c:295-301 | Digits are the characters 48 to 57; one more counts ten times what was and its own value |
| AmountReading.SplitIsExact | src/data/unit.c:270-342 | A text comes apart into well-formed parts in exactly one way or not at all |
| AmountReading.ReadFraction | src/data/unit.c:291-325 | The loops compute the rounded fraction, its carry and where its digits end |
| AmountReading.FromString | src/data/unit.c:270-342 | Accepts exactly the texts of well-formed parts whose whole part is not too large, with their amount |
| AmountReading.ReadsWhatItSays | src/data/unit.c:276-284 | The amount read is the one the text says if and only if the library sees no minus or the fraction rounds to nothing |
| AmountReading.RefusedWhen | src/data/unit.c:327-334 | A text of well-formed parts is refused exactly when its whole part is above 922337203685476, the carry of the fraction counted in (against the sign behind a minus of the library's own) |
| AmountReading.WellFormedSays | src/data/unit.c:270-342 | The parts on characters: blanks, signs, digits and where they may be missing |
| AmountReading.BlankBeforeMinus | src/data/unit.c:276-284 | A text it reads wrongly |
| AmountPrinting.RoundToPrecision | src/data/unit.c:237-260 | The rounding in unsigned words, by a table of powers of ten, is that of the signed amount; refused only above four places or when it does not fit |
| AmountPrinting.RoundIsNearest | src/data/unit.c:237-260 | The rounded amount is the only multiple of 10^(4 - places) at most half of that away, a half going away from zero; there is none exactly when that one does not fit |
| AmountPrinting.Pad | src/data/unit.c:386-392 | The digits move up behind zeros, inside the buffer |
| AmountPrinting.InsertPoint | src/data/unit.c:393-397 | The last four digits move up and the point stands before them, inside the buffer |
| AmountPrinting.ToString | src/data/unit.c:344-405 | Writes the rounded amount and a zero, or asks for room; every write is inside the buffer and the room asked for |
| AmountPrinting.PlacesPrinted | src/data/unit.c:365-405 | Behind sign and whole part stand the point and exactly as many digits as places, the first ones of the fraction, or nothing |
| AmountPrinting.RoomIsOfAllPlaces | src/data/unit.c:366-381 | The room asked for is that of the text with all four places, or of the whole part |
| AmountPrinting.RoundTrip | src/data/unit.c:270-405 | What is printed reads back as the amount rounded if and only if its magnitude is at most 9223372036854769999; at four places it is the amount itself |
| AmountPrinting.ReadAgain | src/data/unit.c:270-405 | Whatever is read can be printed and reads the same again |

## Left out

- The JSON mapping, the wire mappings, the store adapters, signatures, benchmark drivers: not part of this model.
- `grdd_unit_calculate_duration_seconds` and the conversions to and from floating point.
- Releasing and resetting, NULL and not-ready checks, reserves for expected sizes, an initial capacity of the maps,
  old tables handed back, an arena's warning that memory did not come back: they change no answer.
- Chain address queries that hand on to the register unchanged (`src/blockchain/chain.c:307-325`).
- The roaring containers, block pools, key map and vectors of the arnm library, and the C library's `strtoll`:
  modelled by contract. Vectors and sets have no limit of their own.
- Decay.CalculateDecay: durations below 0 go through a 128-bit division that is not part of this model; amounts
  below 0 are excluded by the source's own assertion.
- Decay.CalculateDecayWindowed: the same; it hands durations below 0 to the bit chain.
- TransactionIndex.Index.Add: what an index answers after a transaction that does not suit has taken the number of one
  that ran out of memory; Index.AnotherFollows says that sets or day table are wrong then.
- SegmentedChain.Chain.Add: after running out of memory the code would enter another transaction under the same number,
  which the documented rule does not foresee and MayFollow excludes. While nothing is pending nothing is excluded.
- AddressRegister.Register.Add: the same, and it requires numbers in order once its 32-bit counter has wrapped to 0,
  where the code no longer compares them; the chain above it always does.
- TransactionIndex.Index.Count: filters that name dates are answered exactly for days in order and offsets below
  2^32 - 1, the same for Listing and Newest; DayTable.ExactForEverySpan says why.
- SegmentedChain.Chain.Count: a transaction its segment took and the register refused is counted, as the code does.
- ChainRuns.SegmentSizeIsInvisible: runs with an address type the register does not know when it is next are not
  compared across sizes; HalfAdded says what becomes of them under each.
- RowRuns.EverySizeAnswersAlike: one iff for all sizes is stated for numbers below 2^32 - 1, where one segment can
  hold the whole run; RowRuns.AnswersPlainly, for each size, has no such bound.
- MapAgreement.Agreement: that every lookup is answered is promised up to five million keys, where all three fit their
  32-bit byte counts at every load; each GetOrInsert says exactly where its own limit is.
- AmountReading.FromString: characters outside ASCII, which the C classification functions leave undefined.
- Seconds within a day of the smallest 64-bit number overflow in C and are excluded by the type `Ledger.Seconds`.
