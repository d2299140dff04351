# Verified models of the Polymarket client

Dafny models of the parts of the Polymarket Python client whose behaviour is hardest to see from
one function body, with proofs of what they guarantee over every input and every run.
`dafny verify dfyconfig.toml` checks the whole project.

| area | modules |
|---|---|
| Perps order cancellation with retry | `CancelRetry` |
| Perps session: sequence gaps, bounded queue, requests, event waiters | `SessionState`, `SessionRuns`, `SessionStream`, `PerpsSession` |
| Pagination: cursors, the page walk, offset listings, draining, two-route listings | `Cursors`, `PageWalk`, `OffsetWalk`, `Drain`, `DrainListings`, `Routing`, `KeysetWalk` |
| Arrow type inference over nested rows | `ArrowTypes`, `ArrowAcceptance`, `ArrowSoundness`, `ArrowZones`, `ArrowOrder`, `ArrowColumns`, `Decimals` |
| RFQ acknowledgement matching and quote arithmetic | `RfqAcks`, `RfqQuotes` |
| Position ids and scaled integers as text | `PositionIds`, `ChainlinkScale`, `DigitStrings`, `Numerals` |

How the models are built:

- Code between two awaits is one step. A run is any sequence of steps; the server, the clocks, the
  jitter and the page server are arbitrary functions of the attempt or request number.
- The objects that the client updates in place (`PerpsSession.Session`, `RfqAcks.Session`,
  `PageWalk.PageIterator`) are classes whose methods are proved equal to a step of a specification
  over values; the theorems about runs are lemmas about that specification.
- `CancelRetry.CancelOrdersWithRetry`, `Drain.DrainPaginator` and the loops of the type inference
  are methods with loops. The first two are proved against predicates that talk about the whole
  history of the call, the others against the recursive functions of `ArrowTypes`.
- A cursor is what its text decodes to; a query is its fingerprint. A decimal is a sign, a
  coefficient and an exponent.

Where the code does not do what one might expect, the model keeps the code and states when it does:

- The inference looks at the kinds of numbers, never at their size. The inferred type admits the
  column exactly when every integer fits beside its kinds: any integer beside decimals, up to 2^53
  beside floats, an int64 otherwise (`ArrowSoundness.InferenceIsSound`). 2^63 alone, and 2^53 + 1
  beside a float, are accepted and do not fit (`ArrowSoundness.WideIntegerIsInferredInt64`,
  `ArrowSoundness.WideIntegerIsInferredFloat64`).
- The first datetime along a path of keys and list items decides the zone of the timestamp there
  (`ArrowZones.InferredZone`). So the order of an accepted column's rows is irrelevant exactly when
  no path has one row starting with an aware and another starting with a naive datetime
  (`ArrowOrder.OrderIrrelevantIff`); one aware and one naive datetime show that it can matter
  (`ArrowOrder.MixedDatetimesDependOnOrder`).
- Zeros with large exponents widen a decimal column beyond what its values need; the precision is
  least exactly when a nonzero value is as wide as the widest (`Decimals.PrecisionLeastIff`).
- Ending a Perps session whose queue is full discards one event that `dropped_events` does not
  count; the count stays exact if and only if it was not full (`SessionStream.DroppedCountExact`).
- Reconnect markers are queued but never offered to event waiters (`SessionRuns.WaiterOutcome`).
- A listing that pages by key and resumes by offset needs two different paths: with a shared one
  every continuation is refused (`Routing.KeysetContinuesIffPathsDiffer`).
- A cancellation or confirmation key stands for one RFQ id and quote id exactly when neither holds a
  colon (`RfqAcks.CancelKeyUniqueIff`, `RfqAcks.ConfirmationKeyUniqueIff`); with one, keys collide
  (`RfqAcks.ColonInRfqIdCollides`).
- Decoding a position id does not require the bits that mark the v2 namespace to be zero
  (`PositionIds.DecodedInNamespaceIff`, with an input in `PositionIds.DecodedOutsideNamespace`).

## Model

| member | source | states |
|---|---|---|
| CancelRetry.CancelOrdersWithRetry | src/polymarket/_internal/perps_session.py:730-819 | For any server, clocks and jitter: command k+1 holds, in order, exactly the orders answered in flight in command k; at most max(1, max attempts) commands go out; after each command whose orders are not all settled, and with attempts left, another goes out if and only if no clock reading and no delay reaches the deadline or the expiry; every returned or reported slot is that order's last answer; the missing-result error cannot happen |
| CancelRetry.Attempt | src/polymarket/_internal/perps_session.py:767-812 | One command: either it fails with the first check its answer fails and stores nothing, or its answers are stored and the in-flight orders stay pending |
| CancelRetry.Validate | src/polymarket/_internal/perps_session.py:774-792 | Accepts an answer exactly when it is no id-less lone rejection, has one result per order, and no result carries a foreign id; otherwise names the failing check |
| CancelRetry.AcceptedExactly | src/polymarket/_internal/perps_session.py:774-792 | An accepted answer field by field: its length, its lone rejection and each order or client id |
| CancelRetry.StoreAnswers | src/polymarket/_internal/perps_session.py:802-812 | Overwrites exactly the asked slots and keeps as retryable exactly the in-flight ones, in order |
| CancelRetry.AwaitRetry | src/polymarket/_internal/perps_session.py:754-765 | Goes on if and only if the reading before the sleep, that reading plus the delay, and the reading after it all lie before the deadline and before the expiry in milliseconds; the delay is the draw times 0.1 s doubled per earlier retry, at most 1 s |
| CancelRetry.GivingUpIsOutOfTime | src/polymarket/_internal/perps_session.py:754-765 | A call that returns an order in flight with attempts left was out of time: a clock reading, or the reading before the sleep plus the delay, had reached the deadline or the expiry |
| CancelRetry.RetriesIffTimeLeft | src/polymarket/_internal/perps_session.py:1714-1718 | The test on the remaining seconds is the test on the readings: loop time against the deadline, wall milliseconds against the expiry |
| CancelRetry.BackoffIsBounded | src/polymarket/_internal/ws/backoff.py:7-25 | The backoff is the draw times a bound that doubles from 0.1 s and stays at 1 s |
| CancelRetry.Resolve | src/polymarket/_internal/perps_session.py:814-819 | Fails exactly when a slot has no answer |
| CancelRetry.TerminalNeverResent | src/polymarket/_internal/perps_session.py:803-812 | In every history a position answered with anything but in-flight is never asked for again |
| CancelRetry.NextCommand | src/polymarket/_internal/perps_session.py:769-812 | A position is in the next command exactly when the last one answered it in flight, and positions stay in increasing order |
| CancelRetry.AskedIncreasing | src/polymarket/_internal/perps_session.py:750-812 | Index bookkeeping over shrinking batches: whatever is asked next is in range and strictly increasing |
| CancelRetry.PendingIffStoredInFlight | src/polymarket/_internal/perps_session.py:793-800 | A position is still pending exactly when its stored answer is in flight |
| CancelRetry.FailureReport | src/polymarket/_internal/perps_session.py:793-800 | When a later attempt fails in any way, the reported results hold the last answer of every order and the pending indexes are exactly the in-flight ones, increasing |
| SessionState.StepKeepsValid | src/polymarket/_internal/perps_session.py:235-245 | Every step keeps the queue within capacity, waiters listed once in registration order, and every pending request issued |
| SessionState.RunKeepsValid | src/polymarket/_internal/perps_session.py:1524-1677 | So does every run |
| SessionState.GroupingIsIrrelevant | src/polymarket/_internal/perps_session.py:1524-1539 | However messages are grouped into batches, they act in the order received |
| SessionRuns.RequestOutcome | src/polymarket/_internal/perps_session.py:1469-1570 | Whatever else happens, a pending request ends as the first step that concerns it says: the answer with its id, loss, close, cancellation or unwinding |
| SessionRuns.AnswerOutcome | src/polymarket/_internal/perps_session.py:1541-1570 | A parsed value or rejection stands on its own; an answer that does not parse is a rejection exactly when it acknowledges an error |
| SessionRuns.SettledForever | src/polymarket/_internal/perps_session.py:1541-1574 | A settled request is never completed again |
| SessionRuns.FreshRequestId | src/polymarket/_internal/perps_session.py:1493-1496 | After any run the next id was never issued before, and issuing it disturbs no other request |
| SessionRuns.TeardownDecidesAll | src/polymarket/_internal/perps_session.py:1668-1677 | Loss or close leaves no pending request and no listed waiter undecided |
| SessionRuns.NothingPendingAfterClose | src/polymarket/_internal/perps_session.py:414-427 | Closing is final: whatever happens during and after it, no request is ever pending again |
| SessionRuns.WaiterOutcome | src/polymarket/_internal/perps_session.py:1498-1522 | A waiter ends with the first event emitted since registration that its test matches, unless removed, cancelled or torn down before |
| SessionRuns.DecidedForever | src/polymarket/_internal/perps_session.py:1624-1633 | A waiter is completed at most once |
| SessionStream.PlayIsRun | src/polymarket/_internal/perps_session.py:1524-1539 | Recording what happens to events does not change the session's run |
| SessionStream.GapDetection | src/polymarket/_internal/perps_session.py:1602-1622 | Over every run with reconnects, for every channel but notifications and builderFills: two successive events follow on with no marker between, or exactly one marker naming both stands right before the second; every gap marker is one of these and none names those two channels; the recorded sequences are those of the last events |
| SessionStream.ArrivalsDelivered | src/polymarket/_internal/perps_session.py:1602-1633 | Over every run the emitted stream without its markers is exactly what arrived: channel, sequence and payload intact and in order |
| SessionStream.QueueConservation | src/polymarket/_internal/perps_session.py:1635-1666 | In every run the queue is the newest pushed events in order, the end stands last, what was taken is an ordered selection of what was pushed, and pushed = taken + queued + dropped (+1 if the end evicted one) |
| SessionStream.CountExactBeforeEnd | src/polymarket/_internal/perps_session.py:1635-1652 | Until the end the dropped count is exact |
| SessionStream.DroppedCountExact | src/polymarket/_internal/perps_session.py:1635-1666 | After the end, whatever follows, it is exact if and only if the queue was not full when the session ended |
| SessionStream.EndCanLoseAnEventSilently | src/polymarket/_internal/perps_session.py:1654-1666 | A run reaching that case: 1024 untaken events, then close |
| SessionStream.LosslessConsumer | src/polymarket/_internal/perps_session.py:1602-1666 | With nothing dropped or evicted, the consumer has taken a prefix of the emitted stream, and its gap markers are exact on every channel but notifications and builderFills |
| PerpsSession.Session.PutNowait | src/polymarket/_internal/perps_session.py:1638-1649 | The bounded queue's put: appends, or changes nothing when full |
| PerpsSession.Session.GetNowait | src/polymarket/_internal/perps_session.py:1641-1646 | The queue's get: removes and returns the first item |
| PerpsSession.Session.PushEvent | src/polymarket/_internal/perps_session.py:1635-1652 | Nothing after the end; else appended, evicting and counting the oldest when full; the second loss branch cannot happen |
| PerpsSession.Session.EndStream | src/polymarket/_internal/perps_session.py:1654-1666 | Idempotent; puts the end last, evicting the oldest uncounted when full |
| PerpsSession.Session.Next | src/polymarket/_internal/perps_session.py:433-439 | Waits on an empty queue, delivers the oldest event, or stops the iteration at the sentinel |
| PerpsSession.Session.EmitEvent | src/polymarket/_internal/perps_session.py:1624-1633 | Completes every undecided listed waiter that matches, then queues the event |
| PerpsSession.Session.PushSequenceGapIfNeeded | src/polymarket/_internal/perps_session.py:1602-1622 | Leaves notifications and builderFills alone; on any other channel records the sequence and, when it does not follow on, first emits one marker naming the sequence before and this one |
| PerpsSession.Session.OnFrame | src/polymarket/_internal/perps_session.py:1524-1539 | A parsed frame is one arrival step and keeps the session valid |
| PerpsSession.Session.HandleAnswer | src/polymarket/_internal/perps_session.py:1541-1570 | An answer touches only the request with its id; what decides the outcome when parsing fails |
| PerpsSession.Session.OnMessage | src/polymarket/_internal/perps_session.py:1524-1539 | A nested batch acts as its flattening, processed in order |
| PerpsSession.Session.Resynchronize | src/polymarket/_internal/perps_session.py:1360-1362 | Forgets every sequence, then queues the reconnect marker |
| PerpsSession.Session.RegisterRequest | src/polymarket/_internal/perps_session.py:1477-1481 | Takes the next id and registers the request under it unless closed |
| PerpsSession.Session.CancelRequestFuture | src/polymarket/_internal/perps_session.py:1487-1489 | A timeout or cancelled caller cancels the undecided future of a pending request |
| PerpsSession.Session.UnwindRequest | src/polymarket/_internal/perps_session.py:1490-1491 | Leaving a send drops its id from the pending map |
| PerpsSession.Session.RejectAllPending | src/polymarket/_internal/perps_session.py:1668-1671 | Fails every undecided pending request and empties the map |
| PerpsSession.FailEach | src/polymarket/_internal/perps_session.py:1668-1671 | The order in which they are failed does not matter |
| PerpsSession.Session.CreateEventWaiter | src/polymarket/_internal/perps_session.py:1498-1502 | Lists a new undecided waiter after the others |
| PerpsSession.Session.RemoveEventWaiter | src/polymarket/_internal/perps_session.py:1515-1522 | Unlists it and cancels its future if undecided |
| PerpsSession.Session.CancelEventWaiter | src/polymarket/_internal/perps_session.py:1504-1513 | A timeout or cancelled caller cancels the undecided future of a waiter |
| PerpsSession.Session.RejectEventWaiters | src/polymarket/_internal/perps_session.py:1673-1677 | Fails every undecided listed waiter and clears the list |
| PerpsSession.Session.OnConnectionLost | src/polymarket/_internal/perps_session.py:1576-1578 | Tears down requests and waiters; queue and sequences stay |
| PerpsSession.Session.BeginClose | src/polymarket/_internal/perps_session.py:416-418 | Only the first call goes on, and it marks the session closed |
| PerpsSession.Session.FinishCloseSession | src/polymarket/_internal/perps_session.py:421-423 | Tears down requests and waiters, then ends the stream |
| Cursors.EnvelopesRoundTrip | src/polymarket/_internal/pagination.py:30-319 | Each kind of cursor decodes to exactly what was encoded, the other two decoders refuse it, and a foreign service, path or fingerprint is refused with its own error, in that order |
| Cursors.EncodableIffDecodable | src/polymarket/_internal/pagination.py:30-319 | Encoders and decoders agree on which positions there are: under a route with a path, a position can be encoded if and only if some cursor decodes to it |
| Cursors.EncodeInjective | src/polymarket/_internal/pagination.py:142-164 | Different positions or routes never share a cursor |
| Cursors.OffsetCursorRoundTrip | src/polymarket/_internal/pagination.py:59-101 | The offset decoder inverts the offset encoder |
| Cursors.OtherVersionsAreRefused | src/polymarket/_internal/pagination.py:59-101 | Under its own route a cursor of another version is refused as such by all three decoders |
| Cursors.MalformedIsRefused | src/polymarket/_internal/pagination.py:59-101 | A text that is no object is an invalid cursor to every decoder |
| PageWalk.PageIterator.constructor | src/polymarket/pagination.py:114-134 | A walk starts at its cursor, already counted as requested |
| PageWalk.PageIterator.Empty | src/polymarket/pagination.py:312-325 | A finished listing's paginator starts finished |
| PageWalk.PageIterator.Request | src/polymarket/pagination.py:126-134 | One fetch: its page is yielded, its error ends the walk |
| PageWalk.PageIterator.Next | src/polymarket/pagination.py:75-134 | One resumption of the generator: stop, refuse a missing or repeated cursor, or fetch |
| PageWalk.NoCursorRequestedTwice | src/polymarket/pagination.py:75-134 | Whatever the server answers, requests stay pairwise distinct |
| PageWalk.WholeWalkNeverRepeats | src/polymarket/pagination.py:75-134 | No walk from any start asks for one cursor twice |
| PageWalk.RequestsFollowPages | src/polymarket/pagination.py:126-134 | Each request after the first carries the cursor of the page before it |
| PageWalk.PagesAreAnswers | src/polymarket/pagination.py:75-134 | Against any server: the first request carries the initial cursor, page i answers request i, and the walk ends for exactly one reason: a refused request with its error, a last page, a missing cursor, or one asked for before |
| PageWalk.WalkEnds | src/polymarket/pagination.py:126-134 | A server with finitely many cursors cannot keep a walk going: at most one page per cursor and one more |
| OffsetWalk.LastStartIsLast | src/polymarket/_internal/dispatch.py:79-90 | Where a capped walk must stop: on the page grid, within the cap, with the rows or the cap ending after it |
| OffsetWalk.PageReadsListing | src/polymarket/_internal/pagination.py:104-139 | A page computed from a fixed listing holds that block, continues exactly when full, and is marked exactly when full with the next start past the cap |
| OffsetWalk.PagesDeliver | src/polymarket/_internal/pagination.py:104-139 | The pages together are the listing up to the last accessible page, which is marked incomplete exactly when full |
| OffsetWalk.OffsetWalkIsTheListing | src/polymarket/_internal/dispatch.py:93-136 | From an accessible start the walk ends without an error and is exactly the listing, cut at the cap |
| OffsetWalk.UncappedWalkIsComplete | src/polymarket/_internal/dispatch.py:93-136 | Uncapped, it is the whole listing and unmarked |
| OffsetWalk.LimitRaisedIffStartsPastCap | src/polymarket/_internal/dispatch.py:79-90 | The depth error is raised exactly when the start itself lies past the cap |
| OffsetWalk.OversizedPageIsRefused | src/polymarket/_internal/dispatch.py:79-90 | A start whose page size is above the maximum raises a user error and yields no page |
| OffsetWalk.PlainListingCountsRows | src/polymarket/_internal/request.py:40-45 | Without a fill function, one item per row satisfies what the walk needs |
| Drain.DrainPaginator | src/polymarket/pagination.py:266-287 | For no limit or a positive one: the first `limit` items of the whole walk, truncated exactly when there are more or the last page is marked, and no page is pulled after the one that settles this; zero pulls nothing; negative is refused |
| Drain.TakePage | src/polymarket/pagination.py:279-282 | Takes items up to the limit and says exactly when one did not fit |
| DrainListings.DrainOfListing | src/polymarket/pagination.py:266-287 | Draining a fixed listing from any accessible start, capped or not, gives the first `limit` items up to the last page within the cap, truncated exactly when there are more or that page is full |
| DrainListings.DrainOfWholeListing | src/polymarket/pagination.py:266-287 | Uncapped and from the start: the first `limit` items of the listing, truncated exactly when it holds more |
| Drain.PageOutcome | src/polymarket/pagination.py:278-287 | What each page leads to: the limit is crossed, the walk ends, or the drain goes on |
| Routing.KeysetContinuesVerbatim | src/polymarket/_internal/pagination.py:227-245 | A keyset page continues exactly when the server gave a cursor, which comes back unchanged |
| Routing.OffsetContinues | src/polymarket/_internal/pagination.py:104-139 | An offset page's cursor leads to the next offset at the same size and path |
| Routing.PageStaysOnRoute | src/polymarket/_internal/dispatch.py:275-295 | With different paths, a page's cursor leads back to the endpoint that served it |
| Routing.WalkNeverSwitches | src/polymarket/_internal/dispatch.py:275-295 | With different paths no walk ever changes endpoint, whatever the servers answer |
| Routing.KeysetContinuesIffPathsDiffer | src/polymarket/_internal/dispatch.py:275-295 | The paths must differ: with a shared one every continuation fails |
| Routing.PathlessCursorIsRefused | src/polymarket/_internal/pagination.py:209-224 | A cursor without a path is invalid and reaches neither endpoint |
| KeysetWalk.KeysetWalkReadsChain | src/polymarket/_internal/dispatch.py:185-227 | For any server: request 0 asks for the first page or from the saved cursor, request k+1 with exactly the cursor that reply k gave; each page holds that reply's items; the walk stops at a reply without a cursor and raises only for a refusal, an empty or a repeated cursor |
| KeysetWalk.KeysetWalkIsComplete | src/polymarket/_internal/dispatch.py:185-227 | A chain whose cursors are not empty and never repeat is read to its end: one page a reply, then the walk stops |
| KeysetWalk.ResumedWalkIsOffsetWalk | src/polymarket/_internal/dispatch.py:275-295 | From an offset cursor the walk is the offset listing's own walk, page by page |
| ArrowAcceptance.AcceptanceIff | src/polymarket/frames/_arrow.py:109-221 | A column is accepted if and only if at every path its present values are all dicts, all lists, or scalars of one mappable kind or numbers with no float beside a decimal, and its decimals are finite and fit in 76 digits |
| ArrowAcceptance.InferredTypeIs | src/polymarket/frames/_arrow.py:109-221 | The type of every accepted column at every depth, kind by kind, down to the promoted numbers |
| ArrowAcceptance.DecimalsAcceptedIff | src/polymarket/frames/_arrow.py:230-273 | Decimals, and numbers beside them, are accepted if and only if all are finite and the integer digits of one plus the fractional digits of another never exceed 76 |
| ArrowAcceptance.FieldNamesGrow | src/polymarket/frames/_arrow.py:160-173 | More rows only append new keys |
| ArrowAcceptance.FirstRowComesFirst | src/polymarket/frames/_arrow.py:160-173 | The first row's keys come first, in its own order |
| ArrowSoundness.InferenceIsSound | src/polymarket/frames/_arrow.py:109-221 | An inferred type admits every value of the column at every depth if and only if, along every path, each integer fits beside the kinds it stands with: any beside decimals, up to 2^53 beside floats, an int64 otherwise |
| ArrowSoundness.StructSound | src/polymarket/frames/_arrow.py:160-173 | The same for a column of structs, with missing keys as nulls |
| ArrowSoundness.ListSound | src/polymarket/frames/_arrow.py:119-127 | The same for a column of lists, empty and ragged ones included |
| ArrowSoundness.UnenumedAdmitted | src/polymarket/frames/_arrow.py:181-221 | The same for scalars, with promotion of bools and integers |
| ArrowSoundness.WideIntegerIsInferredInt64 | src/polymarket/frames/_arrow.py:276-310 | A failing input: 2^63 is inferred int64, which does not admit it |
| ArrowSoundness.WideIntegerIsInferredFloat64 | src/polymarket/frames/_arrow.py:191-216 | A failing input: 2^53 + 1 beside a float is inferred float64, which does not admit it |
| ArrowSoundness.FieldNamesExact | src/polymarket/frames/_arrow.py:160-173 | A struct type has one member per key that occurs in some row, and no other |
| ArrowSoundness.SerializeIdempotent | src/polymarket/frames/_arrow.py:338-347 | Serializing twice is serializing once, at every depth, and leaves no enum on top |
| ArrowTypes.ColumnIsShallower | src/polymarket/frames/_arrow.py:160-173 | A struct's column is less deeply nested than the structs: the recursion ends |
| ArrowTypes.ConcatIsShallower | src/polymarket/frames/_arrow.py:119-127 | So are the items of lists |
| ArrowZones.InferredZone | src/polymarket/frames/_arrow.py:109-221 | At every path the inferred type's zone is that of the first row with a datetime there |
| ArrowZones.FirstZoneOfColumn | src/polymarket/frames/_arrow.py:160-173 | The zone of a struct member's column is read off the rows in order |
| ArrowZones.FirstZoneOfItems | src/polymarket/frames/_arrow.py:119-127 | So is the zone of list items |
| ArrowOrder.OrderIndependence | src/polymarket/frames/_arrow.py:109-221 | Columns with the same present values are accepted alike and get the same type up to member order, zones included when their first datetimes match along every path |
| ArrowOrder.OrderIrrelevantIff | src/polymarket/frames/_arrow.py:109-221 | All orders of the rows are accepted alike with the same type, zones included, if and only if the column is refused or, for every two rows and every path, their first datetimes there are both aware or both naive |
| ArrowOrder.SameTypesMatchZones | src/polymarket/frames/_arrow.py:109-221 | Columns of the same values and the same type have matching first datetimes along every path |
| ArrowOrder.UniformColumn | src/polymarket/frames/_arrow.py:276-310 | In particular order is irrelevant to a column of only aware, or only naive, datetimes |
| ArrowOrder.PermutedRows | src/polymarket/frames/_arrow.py:109-173 | A permutation of the rows is accepted alike, with the same type up to member order, zones included when the rows agree |
| ArrowOrder.MixedKindsRefused | src/polymarket/frames/_arrow.py:135-157 | Structs or lists beside anything else are refused whatever comes first |
| ArrowOrder.MixedDatetimesDependOnOrder | src/polymarket/frames/_arrow.py:276-310 | A failing input: one aware and one naive datetime, in either order |
| ArrowColumns.InferColumnType | src/polymarket/frames/_arrow.py:109-132 | The recursive procedure computes the inference of the specification |
| ArrowColumns.InferScalarColumn | src/polymarket/frames/_arrow.py:181-227 | So does the procedure for scalars, from the set of their kinds |
| ArrowColumns.Promote | src/polymarket/frames/_arrow.py:202-211 | The loop collects the decimals, and the bools and integers as decimals, in order |
| ArrowColumns.InferStructType | src/polymarket/frames/_arrow.py:160-173 | The loop over names builds the struct of the inferred columns, or stops at the first refusal |
| ArrowColumns.CollectFieldNames | src/polymarket/frames/_arrow.py:160-173 | The loop collects each key once, in order of first occurrence |
| ArrowColumns.Offenders | src/polymarket/frames/_arrow.py:135-157 | Finds each kind other than the expected one, once |
| ArrowColumns.RequireHomogeneous | src/polymarket/frames/_arrow.py:135-157 | Passes exactly when every value has the expected kind |
| ArrowColumns.FirstRefusalDecides | src/polymarket/frames/_arrow.py:160-173 | The first refused member decides the struct's refusal |
| ArrowColumns.Gather | src/polymarket/frames/_arrow.py:119-127 | Collects the items of all non-empty lists, in order |
| ArrowColumns.InferDecimalType | src/polymarket/frames/_arrow.py:230-253 | The loop finds the widest integer part and scale, or refuses a special value |
| ArrowColumns.BuiltColumnIsUnpromoted | src/polymarket/frames/_arrow.py:313-335 | A built int64 or decimal column holds no promoted value at its top level, each one of the column's width, and denotes the same numbers in the same places; every other value is unchanged |
| Decimals.PrecisionFitsAll | src/polymarket/frames/_arrow.py:230-273 | The chosen precision and scale hold every decimal exactly as an integer below 10^precision |
| Decimals.PrecisionLeastIff | src/polymarket/frames/_arrow.py:230-253 | It is the least such precision if and only if it is 1, no value has integer digits, or a nonzero value is as wide as the widest |
| Decimals.FitsFromDigits | src/polymarket/frames/_arrow.py:256-273 | Integer digits plus scale within the precision make a value fit |
| Decimals.ScaleIsSomeExponent | src/polymarket/frames/_arrow.py:230-253 | The scale is at least every value's negated exponent, and zero or one of them |
| Decimals.ScaleIsLeast | src/polymarket/frames/_arrow.py:230-253 | No smaller scale covers every value |
| Decimals.NonzeroNeedsDigits | src/polymarket/frames/_arrow.py:256-273 | A nonzero value needs that many |
| Decimals.ColumnOfZerosIsWider | src/polymarket/frames/_arrow.py:256-273 | One zero written 0E+5 asks for six digits where one would do |
| RfqAcks.StepKeepsValid | src/polymarket/_internal/rfq.py:516-565 | Every step keeps queues non-empty, in registration order and of their key, and every wait that can still be answered queued |
| RfqAcks.AckCompletesEarliest | src/polymarket/_internal/rfq.py:536-558 | An acknowledgement or error completes exactly the earliest live wait of its key, or nobody |
| RfqAcks.CompletedOnce | src/polymarket/_internal/rfq.py:536-565 | In any interleaving a decided wait keeps its outcome |
| RfqAcks.FirstComeFirstServed | src/polymarket/_internal/rfq.py:546-558 | Over every run no wait is answered while an earlier one of its key still could be |
| RfqAcks.StepAnswersEarliest | src/polymarket/_internal/rfq.py:516-603 | A step answers nobody but an earliest live wait |
| RfqAcks.AckHandsOverItsValue | src/polymarket/_internal/rfq.py:536-544 | The earliest live wait gets the value acknowledged, or the error |
| RfqAcks.AnswersComeFromSteps | src/polymarket/_internal/rfq.py:536-558 | Over every run a wait's answer is what some acknowledgement or error of its own key said |
| RfqAcks.TimedOutIsNeverAnswered | src/polymarket/_internal/rfq.py:599-603 | A wait that timed out stays unanswered whatever comes later |
| RfqAcks.WithdrawnIsNeverAnswered | src/polymarket/_internal/rfq.py:524-534 | So does one that its caller gave up |
| RfqAcks.CancelledIsNeverAnswered | src/polymarket/_internal/rfq.py:546-558 | So does one whose task was cancelled and has finished, begun or not |
| RfqAcks.RejectAllDecidesAll | src/polymarket/_internal/rfq.py:560-565 | Closing decides every wait that could still be answered and changes no decided one |
| RfqAcks.Session.Register | src/polymarket/_internal/rfq.py:516-522 | Appends an undecided wait to its key's queue |
| RfqAcks.Session.RemovePending | src/polymarket/_internal/rfq.py:524-534 | Drops the wait from its queue, and the queue when empty, and cancels it |
| RfqAcks.Session.PopPending | src/polymarket/_internal/rfq.py:546-558 | Drops dead waits and returns the first live one; no empty queue stays |
| RfqAcks.Session.Complete | src/polymarket/_internal/rfq.py:536-544 | The popped wait gets the outcome |
| RfqAcks.Session.RejectAllPending | src/polymarket/_internal/rfq.py:560-565 | Fails every queued undecided wait and empties the map |
| RfqAcks.KindsNeverShareAKey | src/polymarket/_internal/rfq.py:740-749 | Keys of different endpoints never coincide |
| RfqAcks.CancelKeyUniqueIff | src/polymarket/_internal/rfq.py:744-745 | A cancellation key stands for one pair of ids if and only if neither id holds a colon |
| RfqAcks.ConfirmationKeyUniqueIff | src/polymarket/_internal/rfq.py:748-749 | So does a confirmation key |
| RfqAcks.CancelKeyInjective | src/polymarket/_internal/rfq.py:744-745 | Among colon-free RFQ ids, whatever the quote ids, only equal pairs share a cancellation key |
| RfqAcks.ConfirmationKeyInjective | src/polymarket/_internal/rfq.py:748-749 | The same for confirmation keys |
| RfqAcks.ColonInRfqIdCollides | src/polymarket/_internal/rfq.py:744-749 | A failing input: two different pairs that share both keys |
| RfqQuotes.CollateralQuoteNeedsNoTokens | src/polymarket/_internal/rfq.py:707-737 | Filling an order from collateral brings in exactly the size of the token opposite to the requester's, no other, and costs collateral alone |
| RfqQuotes.InventoryQuoteNeedsNoCollateral | src/polymarket/_internal/rfq.py:707-737 | Filling an order from inventory gives away exactly the size of the token that the direction calls for, no other, and never collateral |
| RfqQuotes.SourcesAreEquivalent | src/polymarket/_internal/rfq.py:707-737 | Collateral and inventory orders change the maker's wealth alike, whichever outcome wins |
| RfqQuotes.CostPlusProceeds | src/polymarket/_internal/rfq.py:728-737 | The rounded-up cost of one side and the rounded-down proceeds of the other sum to the size |
| RfqQuotes.RoundingFavoursCounterparty | src/polymarket/_internal/rfq.py:728-737 | Rounding costs the maker less than one base unit and never pays it |
| RfqQuotes.DefaultSizeIsLargestAffordable | src/polymarket/_internal/rfq.py:700-704 | A size is affordable within the notional if and only if it is at most the default size |
| RfqQuotes.DefaultSizeCoversNotional | src/polymarket/_internal/rfq.py:700-704 | The default size is at least the notional |
| RfqQuotes.ShareRequestKeepsItsSize | src/polymarket/_internal/rfq.py:700-704 | A request in shares is quoted its own size |
| PositionIds.ParseExact | src/polymarket/_internal/protocol.py:49-58 | A text is read as n if and only if n is a uint256 and the text writes it: space, optional base prefix in either case, digits, space |
| PositionIds.SpellingsAgree | src/polymarket/_internal/protocol.py:23-58 | Two spellings of one number decode identically and agree on the namespace |
| DigitStrings.NumeralsOrderAsText | src/polymarket/_internal/protocol.py:49-58 | Numerals of equal length order as their texts do |
| PositionIds.DecodeExact | src/polymarket/_internal/protocol.py:32-46 | Decodes exactly when the top byte is a supported module and the low byte 0 or 1; then the number is condition * 256 + outcome |
| PositionIds.DecodeInjective | src/polymarket/_internal/protocol.py:32-46 | Texts with the same decoding denote the same number |
| PositionIds.DecodeRoundTrip | src/polymarket/_internal/protocol.py:32-46 | Every supported condition and outcome is decoded from any spelling of its number |
| PositionIds.IsV2Iff | src/polymarket/_internal/protocol.py:23-29 | In the namespace if and only if bits 40 to 103 are all zero |
| PositionIds.DecodedInNamespaceIff | src/polymarket/_internal/protocol.py:12-46 | A decoded id is in the namespace if and only if sixteen given hex digits of its condition are zero |
| PositionIds.DecodedOutsideNamespace | src/polymarket/_internal/protocol.py:23-46 | An input that decodes and is not in the namespace |
| ChainlinkScale.RescaleExact | src/polymarket/models/rtds_events.py:170-183 | Accepts exactly the signed integer strings, and the decimal times 10^18 is exactly the integer, sign included |
| ChainlinkScale.NoTrailingZero | src/polymarket/models/rtds_events.py:177-183 | At most 18 fractional digits, the last one not zero |
| ChainlinkScale.FewestFractionDigits | src/polymarket/models/rtds_events.py:177-183 | No equal decimal has fewer |
| ChainlinkScale.SameDecimalIffSameInteger | src/polymarket/models/rtds_events.py:170-183 | Two strings give one decimal if and only if they denote one integer |
| ChainlinkScale.SpellingsOfOneInteger | src/polymarket/models/rtds_events.py:171-175 | Leading zeros and a minus before zero do not change the integer |

## Left out

- CancelRetry.CancelOrdersWithRetry: task cancellation inside a command, the validation of the retry options, and building, signing and sending the command; its reply is an arbitrary function of the attempt and the identifiers.
- CancelRetry.AwaitRetry: times are exact reals, not floating point.
- SessionRuns.RequestOutcome: the send lock and the transport inside a request; only registering, answering, cancelling and unwinding are steps.
- PerpsSession.Session.BeginClose: the awaits between it and the teardown (the scheduler and the builder subscription) are any steps of the run; closing the connection and the API afterwards is not modelled.
- PerpsSession.Session.OnConnectionLost: the scheduling of a reconnect, and authentication, are not modelled; a reconnect is its own step.
- PerpsSession.Session.RegisterRequest: taking the id and registering it are one step; building and signing the frame in between are not modelled.
- PageWalk.WalkEnds: only for servers with finitely many cursors; a server that mints new cursors for ever does keep a walk going.
- Drain.DrainPaginator: for walks that settle the drain; with no limit an endless walk never returns.
- OffsetWalk.OffsetWalkIsTheListing: over a listing that does not change during the walk; the initial checks of the page size are the precondition.
- ArrowOrder.OrderIndependence: acceptance and type only; which of several refusals is raised, and its message, may depend on row order.
- ArrowSoundness.InferenceIsSound: up to promotion of bools and integers inside nested values; a float64 column is taken to hold the integers up to 2^53, the range in which every integer is one; pyarrow itself is not part of this model.
- ArrowColumns.BuiltColumnIsUnpromoted: only int64 and decimal columns are coerced; a bool in a float64 column is left to pyarrow.
- RfqQuotes.DefaultSizeIsLargestAffordable: for prices above zero; parsing prices and sizes from text and the 28-digit decimal context are not modelled.
- RfqAcks.StepKeepsValid: the RFQ event queue, message parsing, authentication and the failure that ends the session are not modelled.
- PositionIds.ParseExact: ASCII text; Python's Unicode digits and spaces and its limit on integer text are not modelled.
- ChainlinkScale.RescaleExact: ASCII digits likewise.
- HTTP and WebSocket transport, JSON, base64, hashing and signing.
- Page-number pagination beyond its cursor, frame export, pandas and polars adapters, column overrides and table assembly.
- The async paginators, which run the same algorithm as the modelled ones.
- Client classes, the open and close races of the RFQ session, and pydantic model declarations.
