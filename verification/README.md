# Verified model of the Polymarket client's core

A Dafny 4.11 model of the parts of this Go client whose correctness is not visible
from one function at a time: the rate limiter, the arithmetic that sizes orders,
the ABI and RLP encoders, and EIP-712 hashing. `dafny verify dfyconfig.toml`
checks the whole project. Every lemma switches automatic induction off, so each
proof is the one that is written.

## What is modelled

**The rate limiter** (`sliding_window`, `window_safety`, `window_undo`,
`window_log`, `token_bucket`, `bucket_rate`, `bucket_refund`, `rules`, `limiter`,
`limiter_system`, `limiter_freeze`, `limiter_rate`, `limiter_exact`,
`limiter_overrun`). The sliding window, the token bucket and the limiter are
classes whose methods update their fields as the Go methods do; each method is
tied to a function on the object's contents. `LimiterSystem` is the state machine
of concurrent callers: its moves are the limiter's lock sections, in any order,
together with waking up and giving up. Window theorems speak of the times the
*window* hands out, and bucket theorems of the bucket's, since either may push the
actual send later. Time is a whole number of nanoseconds from Go's zero `Time`;
tokens are reals.

- Safety: over every interleaving, no window's worth of time holds more calls than
  the rule allows (`LimitHoldsPerRule`, `LimitHolds`). The invariant is that the
  records of a slot form a stack with a full window between neighbours.
- Refinement: with a forward clock and no refunds the unordered slot array is a
  plain log, and no schedule that respects arrivals, freezes and the limit sends
  anything earlier (`LogRefined`, `EarliestSchedule`, `Ladder`).
- Refusals: a refusal's deadline, at most five minutes away, is obeyed by every
  later call on its bucket and under its rule (`RefusalObeyed`), and nothing can
  hold the limiter shut longer (`NeverWedged`).
- Undo: `release` is documented as "exactly the effect of a send that never
  happened" (`ratelimit.go:540-542`). For a batch of claims that holds exactly
  when those on one slot are given back newest first (`RestoredExactly`); given
  back otherwise, a record of a cancelled send stays (`OldestFirstLeavesRecord`).
  That is still safe, because `LimitHolds` allows refunds in any order, repeated,
  or too late.
- Rate: a bucket grants at most one burst (or one outsized request) beyond what
  its rate earns, from a request on and in every continuation, exactly when by the
  end of the freeze that request met the bucket would hold no more than that
  (`RateHoldsExactly`); with no freeze it always does. And the bucket is as early
  as can be: from a full bucket, with readings no more than 292 years apart, no
  schedule that pays for its sends is earlier (`EarliestPaidFor`), and for
  requests no larger than a burst none that keeps to the rate bound is
  (`RatePays`).
- Refunds: giving a request up never leaves its signer poorer than not asking, and
  leaves it exactly as rich when the cap took nothing off meanwhile or the bucket
  would have ended full (`GivenUp`). The rate bound is another matter: refunded
  tokens may be spent again at an instant others already have. Over every
  interleaving of the limiter it holds from a call on exactly when what the bucket
  holds by that call's time, and all that is still asleep on it, fit one burst or
  that call (`RateHoldsExactlyPerBucket`); `GivenUpOverruns` is a run where it
  breaks.

**Order sizing** (`amount`, `orders`, `ticks`, `book`). Exact rationals, rounding
modes, the nudge-then-truncate step, the `ByTickSize` table, and the walk that
prices a market order off the book. The comment at
`internal/amount/amount.go:84-86` says the nudge is load-bearing. For a limit
order, a market sell, and a market buy of a nonnegative amount at a price of at
most 1 it never is: the product is already representable, and the quotient is
plainly truncated (`LimitExact`, `MarketSellExact`, `MarketBuyTruncates`). On
nonnegative amounts the nudge changes an answer exactly when the amount lies
within a ten-thousandth of the next representable one (`NudgeMatters`,
`NudgeRecovers`). The model keeps the code; `PaysForItsShares` states, for every
amount and price of either sign, when a market buy's shares cost no more than it
pays, and `BeyondOneOverspends` is an input where they do not. The comments at
`internal/amount/amount.go:116` and `:122` say that rounding goes away from zero;
the code always adds one. The two agree exactly where `UpAwayFromZero` and
`HalfUpAwayFromZero` say, which covers every value that is not negative. A market
order does not refuse a negative amount, and `NegativeBuyUnmirrored` is one where
the difference reaches the share count.

**ABI encoding** (`abi`, `abi_codec`, `relayer`, `multisend`). The generic
head/tail encoder, a decoder written from the Solidity Contract ABI Specification
("Formal Specification of the Encoding"), the hand-rolled `proxy` calldata, which
equals the generic encoding byte for byte, and the unpadded multisend batch with
the contract's walk over it.

**RLP and type-2 transactions** (`rlp`, `transaction`). The encoder, a strict
decoder written from Appendix B of the Ethereum Yellow Paper, and EIP-1559
transactions under the EIP-2718 envelope.

**EIP-712** (`names`, `typed_data`, `type_text`, `struct_hash`, `digests`,
`standard_form`, `digest_types`). The walk over a possibly cyclic type graph,
`encodeType`, `hashStruct` over nested structs and arrays, the domain separator
and the digest. Keccak-256 is an arbitrary function to 32 bytes. Binding is stated
as collision extraction: equal hashes come from equal values, or from a pair of
different inputs that `Clash` names and that do collide. Across two type maps a
digest binds the type string, and the struct definitions exactly as far as the
names in them are free of punctuation (`DigestBindsTypes`, `TypeStringReads`);
with punctuation two different payloads can share one digest
(`MarksConfuseDigests`).

## Model

| member | source | states |
|---|---|---|
| SlidingWindow.ClaimableUnique | ratelimit.go:513-522 | the scan's rule (first free slot, else first among the oldest) names one slot only |
| SlidingWindow.Target | ratelimit.go:513-522 | such a slot exists in every non-empty slot array |
| SlidingWindow.WindowState.constructor | ratelimit.go:500-505 | a limit below one means one slot; every slot starts free |
| SlidingWindow.WindowState.Reserve | ratelimit.go:509-537 | the loop finds the claimable slot; the time waits for clock, displaced send plus window, and freeze; the whole new state |
| SlidingWindow.WindowState.Release | ratelimit.go:543-548 | restores the displaced record only if the slot still carries the claim's serial |
| SlidingWindow.WindowState.Freeze | ratelimit.go:551-555 | a freeze only ever moves later |
| WindowSafety.ReserveInv | ratelimit.go:509-537 | a reservation keeps every slot's records a stack spaced by a full window, with every live grant on it |
| WindowSafety.CancelInv | ratelimit.go:543-548 | so does a refund of any grant: pending, repeated, or after its slot was claimed again |
| WindowSafety.StepInv | ratelimit.go:509-555 | so does every event; width and number of slots never change |
| WindowSafety.ReplayInv | ratelimit.go:500-555 | the invariant holds after every sequence of events |
| WindowSafety.StackSpaced | ratelimit.go:524-529 | two grants on one slot's stack are at least one window apart |
| WindowSafety.LimitHolds | ratelimit.go:509-555 | after any events, at most `Requests` grants not cancelled in any half-open interval of length `Window` |
| WindowUndo.ReverseReleaseRestores | ratelimit.go:539-548 | any batch released in reverse order restores the slots identically, whatever clocks and freezes came between |
| WindowUndo.TopHeld | ratelimit.go:543-548 | after any releases each slot holds the claim predicted by popping only when the released claim is on top |
| WindowUndo.RestoredExactly | ratelimit.go:539-548 | a batch released once each in any order restores the slots if and only if claims on one slot go newest first |
| WindowUndo.OldestFirstLeavesRecord | ratelimit.go:539-548 | two claims on a one-slot window, released oldest first, leave a cancelled send's record |
| WindowUndo.AnyOrderRestores | ratelimit.go:539-548 | claims on distinct slots may be released in any order with the same result |
| WindowUndo.ReplayIssued | ratelimit.go:533-535 | in every reachable window no slot carries a serial not yet handed out |
| WindowLog.LogSorted | ratelimit.go:509-537 | with a forward clock the log of send times never steps back |
| WindowLog.OldestIsRecent | ratelimit.go:513-522 | the slot the scan picks holds the send made `Requests` reservations ago |
| WindowLog.LogRefined | ratelimit.go:509-537 | the slot array hands out exactly the log's times: max(now, frozenTill, log[k - Requests] + Window) |
| WindowLog.EarliestSchedule | ratelimit.go:509-537 | those times form a feasible schedule, and no feasible in-order schedule sends any request earlier |
| WindowLog.Ladder | ratelimit.go:509-537 | simultaneous arrivals at an empty unfrozen window get now + (k / Requests) * Window |
| TokenBucket.BucketState.constructor | ratelimit.go:568-576 | a rate or burst that is not positive becomes one; the bucket starts full |
| TokenBucket.BucketState.Refill | ratelimit.go:578-587 | first reading only sets the clock; later ones earn rate times elapsed, capped at the burst; a clock stepping back changes nothing |
| TokenBucket.NothingEarned | ratelimit.go:578-587 | a first reading only starts the clock, and one no later than the last changes nothing at all |
| TokenBucket.BucketState.Reserve | ratelimit.go:590-602 | the new balance, possibly negative, and the send time: deficit over rate from now, or the freeze |
| TokenBucket.BucketState.Release | ratelimit.go:605-607 | a refund never fills past the burst |
| TokenBucket.BucketState.Adopt | ratelimit.go:619-626 | NaN is ignored, anything else clamped to one burst either side of zero |
| TokenBucket.BucketState.Freeze | ratelimit.go:629-633 | a freeze only ever moves later |
| BucketRate.SendDelay | ratelimit.go:590-602 | but for a freeze, a send goes when the balance it left behind would be back to zero |
| BucketRate.Drained | ratelimit.go:578-602 | from what one spend found to what a later one left, the balance drops by what was asked less at most what was earned |
| BucketRate.NeverBack | ratelimit.go:590-633 | with a forward clock send times never step back, whatever freezes come between |
| BucketRate.UnfrozenThaws | ratelimit.go:590-602 | a request that meets no freeze meets the condition below |
| BucketRate.RateHolds | ratelimit.go:578-633 | costs i..j sum to at most max(Burst, cost_i) + Rate * (when_j - when_i) when, by the end of its freeze, request i's bucket would hold at most max(Burst, cost_i) |
| BucketRate.RateHoldsExactly | ratelimit.go:578-633 | the bound from a request on holds in every continuation, later freezes included, if and only if that request meets that condition |
| BucketRate.StrawBreaks | ratelimit.go:598-600 | where it does not, one more request of a whole number of tokens breaks the bound |
| BucketRate.LastFull | ratelimit.go:578-602 | from a full bucket, every balance is one burst plus what was earned less what was asked since some arrival that found it full |
| BucketRate.ScheduleWithinRate | ratelimit.go:578-633 | where every request meets the condition, the bucket's own schedule respects arrivals, freezes and the rate throughout |
| BucketRate.EarliestPaidFor | ratelimit.go:578-633 | whatever the costs and freezes, the bucket's schedule sends nothing before a bucket full at any earlier arrival would have paid for it; from a full bucket, no schedule that respects arrivals and freezes and does the same sends any request earlier |
| BucketRate.RatePays | ratelimit.go:578-602 | where no request exceeds a burst, a schedule within the rate bound is such a schedule, so none within the bound is earlier either |
| BucketRate.FreezeLandsTogether | ratelimit.go:598-600 | a bucket that does not meet the condition, and four bursts' worth of requests sharing one send time |
| BucketRefund.Behind | ratelimit.go:578-607 | one spend more leaves a bucket behind by all of its cost until the other is capped, and by strictly less ever after |
| BucketRefund.GivenUp | ratelimit.go:605-607 | after a spend and its refund the balance is at least what it would be without the pair and at most the cost above; they are the same if and only if the cap took nothing off the run without the pair, or that run ends full |
| Rules.Match | ratelimit.go:416-437 | the scan returns the first best-ranked applicable rule by (prefix length, names a method), and none exactly when none applies |
| Rules.MatchExists | ratelimit.go:416-437 | some rule is matched whenever any applies |
| Rules.MatchLongest | ratelimit.go:416-437 | the matched rule's prefix starts the path and its method is the request's or none; no fitting rule has a longer prefix, and at equal length none names the method unless it does; none matched means none fits |
| Rules.OrderIrrelevant | ratelimit.go:416-437 | any permutation of a table without repeated (method, prefix) pairs gives the same rule |
| Limiter.RetryAfter | ratelimit.go:377-402 | a deadline is never more than the cap past now, and a short delay in seconds is honoured exactly, with no int64 overflow |
| Limiter.RetryAfterHonours | ratelimit.go:363-410 | the deadline for every response, to the nanosecond: nonnegative seconds, else a date, else the reset since 1970 (wrapping as 64 bits do), each at most 300 seconds away, else none |
| Limiter.RefundUndoesReserve | ratelimit.go:263-323 | reserving and giving up at once restores every window's slots and every balance, up to a serial used and a refill |
| Limiter.StandardLimiter.constructor | ratelimit.go:213-224 | no windows yet, both buckets full |
| Limiter.StandardLimiter.WindowOf | ratelimit.go:439-446 | a window is made on first use and kept after |
| Limiter.StandardLimiter.Reserve | ratelimit.go:267-302 | the first lock section changes the limiter's whole contents as `Reserved` says |
| Limiter.StandardLimiter.Refund | ratelimit.go:309-320 | the second lock section does as `Refunded` says |
| Limiter.StandardLimiter.Observe | ratelimit.go:328-361 | a response does as `Observed` says: count the warning, adopt the balance, freeze on refusal |
| LimiterFreeze.HeardFreezesBucket | ratelimit.go:348-360 | after a 429 that names a deadline, the request's bucket is frozen till the later of that and what it was; after any other response, and for the other bucket, the freeze is what it was |
| LimiterFreeze.HeardFreezesWindow | ratelimit.go:348-360 | so is the matched rule's window, made if need be, its slots untouched; every other window is left alone, whole |
| LimiterFreeze.HeardAdopts | ratelimit.go:332-342 | warnings count; a balance header becomes the nearest balance within one burst, from its reading on, in the request's bucket only; NaN or no header leaves it |
| LimiterFreeze.RefusalObeyed | ratelimit.go:263-361 | however the limiter is used after a refusal, every later call on the refused call's bucket, and every later call under its rule, is held until the deadline named |
| LimiterFreeze.TierServes | ratelimit.go:213-224 | orders and cancellations, by method and path, spend their cost (at least one) from buckets set up full with the tier's own rates and bursts, and nothing else spends |
| LimiterFreeze.BucketsApart | ratelimit.go:450-460 | orders and cancellations never share a bucket |
| LimiterSystem.ArriveInv | ratelimit.go:267-302 | a caller's first section keeps the system invariant: each call stands for its own grant of its window |
| LimiterSystem.GiveUpInv | ratelimit.go:308-321 | so does giving up while asleep |
| LimiterSystem.HearInv | ratelimit.go:328-361 | so does a response |
| LimiterSystem.NextInv | ratelimit.go:263-361 | so does every move |
| LimiterSystem.LimitHoldsPerRule | ratelimit.go:263-361 | over every interleaving, under each rule at most `Requests` calls not abandoned have window times in any one window's length |
| LimiterSystem.NeverWedged | ratelimit.go:363-410 | for any headers and a forward clock, every `frozenTill` is at most the latest reading plus five minutes and no balance exceeds its burst |
| LimiterSystem.AdoptedWithinBurst | ratelimit.go:335-341 | a balance adopted from a header is within one burst of zero, and taken as it is when it already was |
| LimiterRate.StaysAccounted | ratelimit.go:263-361 | over every interleaving without an adopted balance, a bucket holds, with what later calls spent and kept, at most what it held, has earned, and gave back to earlier calls |
| LimiterRate.RateHoldsPerBucket | ratelimit.go:263-361 | over every interleaving and every freeze, between two calls on a bucket those not given up cost at most what the first one's bucket held by its time + Rate * (time between) + what earlier calls were given back meanwhile; the times are those the calls' tickets hold |
| LimiterExact.GivenBackPending | ratelimit.go:303-323 | no more is given back after a call asks than was asleep on its bucket when it did |
| LimiterExact.CoveredHolds | ratelimit.go:263-361 | when what the bucket holds by the call's time, and what is still asleep, fit max(Burst, cost), the rate bound holds from that call on over every interleaving |
| LimiterExact.Spoils | ratelimit.go:263-361 | when they do not, two more calls and the sleepers giving up break it |
| LimiterExact.RateHoldsExactlyPerBucket | ratelimit.go:263-361 | so the rate bound holds from a call on, in every continuation of calls, cancellations, wake-ups and refusals without an adopted balance, if and only if that condition holds when it asks |
| LimiterOverrun.GivenUpOverruns | ratelimit.go:303-323 | a run that does not meet it: a call asleep behind its window gives up, and 13 tokens' worth of calls share one bucket time from a burst of 10 |
| Amount.Round | internal/amount/amount.go:133-157 | the stepwise quotient has at most n decimals and, for x >= 0, is the nearest below, the nearest above, or the nearest with ties upward |
| Amount.RoundsTo | internal/amount/amount.go:133-157 | for x >= 0 each mode lands on the representable value below, above, or nearest with ties upward |
| Amount.UpAwayFromZero | internal/amount/amount.go:122-148 | rounding up goes away from zero, as documented, if and only if the value is not negative or needs no rounding |
| Amount.HalfUpAwayFromZero | internal/amount/amount.go:116-152 | half-up breaks ties away from zero, and lands within half a unit, if and only if the value is not negative or its scaled fraction is above -0.5 |
| Amount.GridFixed | internal/amount/amount.go:135-157 | every rounded value is representable, and truncation leaves exactly the representable values alone |
| Amount.CountPlaces | internal/amount/amount.go:161-168 | the loop counts what `PlacesLeast` is about |
| Amount.PlacesLeast | internal/amount/amount.go:161-168 | the count is the least number of decimals that holds the value, and exceeds the limit exactly when none does |
| Amount.ConvergeOnGrid | internal/amount/amount.go:87-90 | a representable amount is left alone |
| Amount.ConvergeClosed | internal/amount/amount.go:87-96 | for v >= 0, converge(v, L) = floor(ceil(v * 10^(L+4)) / 10^4) / 10^L |
| Amount.NudgeMatters | internal/amount/amount.go:82-96 | converge is plain truncation if and only if the scaled fraction is at most 0.9999 |
| Amount.NudgeRecovers | internal/amount/amount.go:82-96 | an amount where it is not |
| Orders.LimitExact | internal/amount/amount.go:52-60 | for every row of the table a limit order's derived amount is the product itself, and the wire loses nothing |
| Orders.FixedExact | internal/amount/amount.go:98-105 | scaling to six decimals is exact for any amount with at most six |
| Orders.HalfUpStays | internal/amount/amount.go:117-157 | rounding half up never leaves a range whose ends are representable |
| Orders.PriceStays | order.go:370-381 | a price inside [tick, 1 - tick] is still inside once rounded |
| Ticks.TickSpelled | internal/amount/amount.go:28-35 | each row is its tick's: the tick is the number its name spells, prices get as many decimals as the name writes, sizes two, amounts both together |
| Ticks.TickNeeds | internal/amount/amount.go:28-35 | and a tick needs every one of those decimals |
| Ticks.TickSizes | internal/amount/amount.go:28-35 | which six there are |
| Ticks.OrderSigned | order.go:176-195 | a limit order is built exactly when its tick is known, its decimals parse and its price lies in [tick, 1 - tick]; signed shares are the size cut to hundredths, times a million, and signed dollars exactly those times the price rounded half up to the tick's decimals, still in range, for either side |
| Ticks.MarketSigned | order.go:199-218 | a market order is refused only for a buy whose price truncates to zero; signed amounts, times a million, are the amount cut to hundredths and what it comes to at the price cut to the tick's decimals |
| Orders.MarketBuyTruncates | internal/amount/amount.go:68-78 | for every row, amount >= 0 and price at most 1, a market buy asks for the truncated quotient, worth no more than it pays |
| Orders.ConvergeSide | internal/amount/amount.go:82-96 | for every amount of either sign, converge comes out above it, equal to it or below it exactly when stated |
| Orders.PaysForItsShares | internal/amount/amount.go:68-96 | for every amount, price and row, of either sign, with a price that does not truncate to zero: a market buy's shares cost at most what it pays if and only if its quotient does not come out above itself (at a negative price, not below) |
| Orders.BeyondOneOverspends | internal/amount/amount.go:68-96 | 100 dollars at 1.0001 asks for 99.990001 shares, worth more than 100 |
| Orders.NegativeBuyUnmirrored | internal/amount/amount.go:68-96 | buying -0.01 at 1.0001, which is not refused, asks for -0.009998 shares where buying 0.01 asks for 0.009999 |
| Orders.MarketSellExact | internal/amount/amount.go:79-80 | a market sell asks exactly its shares times the truncated price |
| Book.FillsUnique | clob/market.go:694-713 | at most one level is the first to cover the amount |
| Book.Walk | clob/market.go:694-713 | the walk from the best level returns exactly that level, none, or the error of a level it could not read |
| Book.MarketPrice | clob/market.go:681-718 | which level's price is returned, and when an error is, fill-or-kill and empty books included |
| Book.FillsInShares | clob/market.go:694-713 | selling, the level priced is the best with bids there and above for at least the amount, counted in shares alone |
| Book.FillsInDollars | clob/market.go:694-713 | buying, the best with asks there and below for at least the amount, counted in size times price |
| Book.SellDepth | clob/market.go:694-709 | a price that cannot be read does not stop a sale, only a size that cannot |
| Book.BestPriceThatFills | clob/market.go:681-718 | bids at a sale's price or better cover it, and those at any strictly better price do not |
| Book.FillsExactly | clob/market.go:694-713 | for nonnegative levels, one fills if and only if the whole depth reaches the amount |
| Book.NeverMoreThanTheBook | clob/market.go:681-718 | a market buy priced by the walk asks for no more shares than the book shows at that price or better |
| Abi.Uint64 | internal/abi/abi.go:69-75 | the shifting loop writes the 32-byte big-endian word |
| Abi.LengthWordValue | internal/abi/abi.go:69-75 | which reads back as the integer |
| Abi.PackedUintFits | internal/abi/abi.go:80-91 | accepted exactly when 0 <= x < 256^size, and then exactly size bytes that spell x |
| Abi.UintWordFits | internal/abi/dynamic.go:135-149 | accepted exactly when present and 0 <= v < 2^256, and then spells v |
| Abi.Assemble | internal/abi/dynamic.go:100-122 | the two buffers grown in a loop are every head, then every tail |
| Abi.OffsetPointsAtTail | internal/abi/dynamic.go:97-122 | the word in a dynamic argument's head is the exact position of its tail |
| Abi.ByteString | internal/abi/dynamic.go:53-61 | the argument the decoder reads back as these bytes (see `DecodeBytes`) |
| Abi.Tuple | internal/abi/dynamic.go:68-77 | static members are concatenated, otherwise laid out behind an offset |
| Abi.List | internal/abi/dynamic.go:82-86 | length word, then the items laid out |
| Abi.UintArray | internal/abi/dynamic.go:39-49 | fails exactly when some value does not fit, else the list of their words |
| AbiCodec.ArgShape | internal/abi/dynamic.go:33-86 | an argument is dynamic, and as wide, as its type says |
| AbiCodec.WholeWords | internal/abi/dynamic.go:33-122 | every encoding of every nested value is a multiple of 32 bytes |
| AbiCodec.DecodeBytes | internal/abi/dynamic.go:53-61 | an encoded byte string reads back wherever it stands |
| AbiCodec.BytesForm | internal/abi/dynamic.go:53-61 | length word, the bytes, then zeros, fewer than 32, to a whole word |
| AbiCodec.DecodeEncoding | internal/abi/dynamic.go:33-122 | any nested value reads back from wherever its encoding stands |
| AbiCodec.ArgumentsRoundTrip | internal/abi/dynamic.go:88-122 | decoding an encoded argument list gives it back, whatever bytes follow |
| AbiCodec.EncodeWords | internal/abi/abi.go:25-33 | words end to end are the generic encoding of an all-static list |
| Relayer.EncodeElement | relayer/transaction.go:97-116 | a call is encodable exactly when its fields parse and its value fits a word |
| Relayer.DecodesExactly | relayer/transaction.go:97-116 | accepted are exactly calls with a recipient, a value left empty or in [0, 2^256), and data not malformed; the pieces are the call's own operation, target, value or zero, and data or none |
| Relayer.ElementIsTuple | relayer/transaction.go:556-610 | one call laid out by hand is the generic tuple (word, word, word, bytes) |
| Relayer.LayElements | relayer/transaction.go:556-610 | the running uint64 offset gives the generic layout of the elements |
| Relayer.EncodeProxyCalls | relayer/transaction.go:556-610 | for every nonempty list, selector plus the generic encoding of one list of tuples, byte for byte; refused exactly when empty or a call does not encode |
| Multisend.PackMultisend | relayer/transaction.go:381-407 | fails exactly when a call does not encode, else the packed entries in order |
| Multisend.WalkPacked | relayer/transaction.go:377-407 | the walk recovers exactly the packed calls |
| Multisend.PackedWalk | relayer/transaction.go:377-407 | and nothing walks but what packing writes |
| Multisend.EncodeBytesCall | internal/abi/abi.go:56-66 | the hand-written calldata is the generic encoding of one bytes argument |
| Multisend.Aggregate | relayer/transaction.go:355-375 | none refused, one passed through, several delegate-called as one batch, with the exact error conditions |
| Multisend.BatchArrives | relayer/transaction.go:355-407 | decoding the multisend calldata after its selector, and walking the bytes, gives every call in order, each with its own operation, target, value (zero when empty) and data |
| Multisend.ProxyCallsArrive | relayer/transaction.go:556-610 | decoding the proxy calldata after its selector gives a tuple for every call in order: its operation plus one, target, value (zero when empty) and data |
| Rlp.String | internal/rlp/rlp.go:39-44 | the bytes a decoder reads back as this string, whatever follows |
| Rlp.List | internal/rlp/rlp.go:47-53 | the accumulated payload under its list header |
| Rlp.StringForms | internal/rlp/rlp.go:24-44 | the single-byte, short and long string forms in the standard's own numbers |
| Rlp.ListForms | internal/rlp/rlp.go:47-53 | the short and long list forms in the standard's own numbers |
| Rlp.UintForms | internal/rlp/rlp.go:59-67 | an integer is its digits with no leading zero, a missing one is zero, a negative one is refused |
| Rlp.DecodeEncode | internal/rlp/rlp.go:39-82 | any nested item tree is recovered from its encoding followed by any bytes, across all forms |
| Rlp.EncodeDecode | internal/rlp/rlp.go:39-82 | whatever decodes is exactly what the encoder writes for it |
| Rlp.UniquelyDecodable | internal/rlp/rlp.go:39-82 | no encoding is the start of another |
| Transaction.Acceptance | onchain/transaction.go:54-112 | exactly which transactions are encoded |
| Transaction.UnsignedReads | onchain/transaction.go:54-122 | the signed-over bytes are 0x02 and one list that reads back as chain id, nonce, priority fee, max fee, gas, recipient, value (absent is zero), data and an empty access list, in that order, integers without leading zeros |
| Transaction.UnsignedBinds | onchain/transaction.go:54-122 | equal unsigned bytes mean equal chain id, nonce, fees, gas, recipient, value (absent is zero) and data |
| Transaction.SignatureAcceptance | onchain/transaction.go:201-223 | exactly which signatures are carried |
| Transaction.HalfOrder | onchain/transaction.go:235-237 | the bound on s is half the secp256k1 group order, rounded down |
| Transaction.SignatureRebuilt | onchain/transaction.go:192-233 | parity, r and s rebuild the 65-byte signature |
| Transaction.SignedReads | onchain/transaction.go:156-190 | the signed encoding is 0x02 and one list of the same nine, then the parity, r and s of the signature |
| Transaction.SignedBinds | onchain/transaction.go:156-190 | equal broadcasts carry the same transaction and the same signature |
| TypedData.ArraySplits | typeddata.go:245-257 | a type followed by brackets with no other opening one between them splits into that type; what does not end in a bracket or opens none does not split |
| TypedData.ElementStripped | typeddata.go:259-268 | stripping every suffix strips that one, and leaves what is no array alone |
| TypedData.StripArrays | typeddata.go:260-268 | the loop strips exactly so |
| TypedData.CollectTypes | typeddata.go:167-185 | terminates on every type map, cycles included; adds only reachable types and leaves no reference of an added type out |
| TypedData.WalkedReached | typeddata.go:166-185 | so from an empty set it collects exactly the struct types reachable from the root |
| TypedData.TypeSegment | typeddata.go:151-164 | one struct as "Name(type field,...)" |
| TypedData.TypeStringUnique | typeddata.go:121-148 | root segment then the others in order is one text only, whatever the iteration order |
| TypedData.EncodeType | typeddata.go:123-148 | returns that text, and fails exactly when the type is unknown |
| StandardForm.TypeStringForm | typeddata.go:121-164 | that text, character by character: the root's definition then each other reached struct's once, ascending, each a name and in brackets its fields, type before name, between commas |
| TypeText.TypeStringReads | typeddata.go:121-164 | where one side's names are free of punctuation, equal type strings come from one root and one definition of every struct it reaches if and only if the other side's names are too |
| TypeText.MarksConfuse | typeddata.go:151-164 | with a comma inside a name, two different lists of as many fields have one text |
| Names.ListsUnique | typeddata.go:130-134 | a set of names has one ascending listing |
| Names.LessAtFirst | typeddata.go:134 | the order is decided at the first difference, a name before its extensions |
| Names.Sort | typeddata.go:134 | sorting produces it |
| StructHash.HashMessage | typeddata.go:193-216 | the field loop over the encoder computes hashStruct, first error included |
| StructHash.EncodeAny | typeddata.go:221-243 | arrays, nested structs and atoms are encoded as the specification function says |
| StandardForm.HashStructForm | typeddata.go:193-216 | hashStruct is refused exactly when the type is unknown or a field is missing or does not encode, else it hashes the type's hash and then each field's word, in declared order, and nothing else |
| StandardForm.ValueForm | typeddata.go:221-243 | an array is the hash of its elements' words in order, a struct its hashStruct, anything else an atom |
| StandardForm.AtomForm | typeddata.go:318-373 | the word of each atom: addresses behind zeros, flags one or zero, integers below 2^256 as themselves, 32 bytes verbatim, text and bytes hashed; and nothing else encodes |
| StructHash.Encoder.Append | internal/eip712/eip712.go:200-208 | words accumulate in order; the first failure is held |
| StructHash.Encoder.StructHash | internal/eip712/eip712.go:212-217 | the held failure, or the hash of type hash and words |
| StructHash.FlatInjective | internal/eip712/eip712.go:130-147 | concatenated words determine the words |
| StructHash.AtomBinds | typeddata.go:318-373 | an atom's word determines it, or its text or bytes collide with the other's |
| StructHash.ValueBinds | typeddata.go:221-243 | equal words of one type mean equal values in every field and element, or the pair `Clash` names collides |
| StructHash.HashStructBinds | typeddata.go:193-243 | equal hashStruct of two messages under any one type mean equal values in every nested field and element, or the pair `ClashStruct` names collides |
| Digests.TextShape | internal/eip712/eip712.go:242-267 | the domain's type string determines which of its fields are present |
| StandardForm.SeparatorForm | internal/eip712/eip712.go:236-269 | the separator is hashStruct(EIP712Domain) over the fields the domain has, in order, and is refused exactly when its chain id does not fit or its contract is malformed |
| StandardForm.DigestForm | internal/eip712/eip712.go:271-276 | what is signed hashes 0x19, 0x01, the separator and the message's hash, in that order |
| Digests.SeparatorBinds | internal/eip712/eip712.go:237-269 | equal separators mean equal domains, or a named collision |
| Digests.TypeStringBinds | internal/eip712/eip712.go:138-147 | across any two type maps, equal struct hashes mean equal type strings and equal words, or a collision |
| Digests.DigestBinds | typeddata.go:294-310 | equal digests mean equal domain and equal message, or a named collision |
| DigestTypes.StructAgrees | typeddata.go:193-243 | a struct hash depends only on the definitions its type reaches |
| DigestTypes.MessageBinds | typeddata.go:193-243 | across any two type maps, equal struct hashes mean one type string and the same words, one message under the same definitions, and the same definitions exactly as TypeStringReads says; or a named collision |
| DigestTypes.DigestBindsTypes | typeddata.go:294-310 | equal digests mean that and one domain, or a named collision |
| DigestTypes.MarksConfuseDigests | typeddata.go:294-310 | two definitions with punctuation in their names, and different messages, with one digest under every hash and every domain |

## Left out

- HTTP, JSON, cookies, sessions, environment loading, and the `gamma`, `data`, `bridge` and most of the `clob` packages: request plumbing.
- The websocket package: goroutines around a socket library.
- `clob/fees.go`: float64 with a fractional power.
- Wallet derivation, `Create2`, ERC-7739 wrapping, error classification: fixed layouts or single branches.
- Keccak-256, UTF-8 encoding and secp256k1: the first two are function parameters, a signature is 65 given bytes, and a function's selector is four given bytes.
- Text parsing: decimals, hex, addresses, dates, integers in headers and message values start as parsed values or as "malformed"; error texts are abbreviated, and the price a walk returns is the index of its level.
- The clock, sleeping and the choice between a timer and a cancelled context: readings are arguments, later than Go's zero time in the state machine, and waking or giving up may happen at any point of a run.
- Float64 rounding in the token bucket, and the truncation of its delay to whole nanoseconds: balances and bucket times are reals.
- The wrap-around of the 64-bit reservation serial and warning counter: both are unbounded.
- Order fields other than the two amounts (token id, salt, addresses, fees, expiration), which `assemble` copies or rejects one by one.
- `Fill` and `Send` in `onchain/transaction.go`: questions to a node.
- BucketRate.RateHoldsExactly: covers runs without adopted balances and refunds. `LimiterExact.RateHoldsExactlyPerBucket` covers refunds too; across an adopted balance neither states a bound, because it replaces what the bucket knew.
- BucketRate.EarliestPaidFor: its second half covers a bucket that starts full and readings no more than 292 years apart, beyond which Go's time difference saturates.
- WindowLog.LogRefined: covers runs with a clock that does not step back and no refunds; `LimitHolds` has neither restriction.
- AbiCodec.ArgumentsRoundTrip: sizes below 2^64, since a longer length does not fit the word the source writes; likewise for `Rlp.DecodeEncode`, `Transaction.UnsignedBinds`, `Multisend.BatchArrives` and `Multisend.ProxyCallsArrive`.
- Digests.SeparatorBinds: takes the bytes of a string to determine the string, as UTF-8 does; likewise `DigestBinds`, `TypeStringBinds` and `DigestBindsTypes`.
- Names.Sort: `sort.Strings` is modelled by insertion; its result does not depend on the method.
- Rlp.String: sizes of the header's length are those of a Go slice, below 2^64.
