# gift-buyer: the monitoring loop, modelled in Dafny

gift-buyer watches the Telegram star-gift catalogue. It polls it with a change hash. When the catalogue changes it does four things:

- prints a one-time summary of the limited gifts;
- buys the scarce limited gifts that are still in stock, scarcest first, up to 100 purchases each;
- records every gift ID it has seen;
- notifies the operator when a never-seen ID appears.

This project models that decision logic from `bot/bot.go` and proves its properties. The network, the clock and the printing around it are not modelled.

Modules, one per piece of `bot/bot.go`:

- `gifts.dfy` (`Gifts`): the gift record and Go's `int32`/`int64`. It includes the two's-complement wrap-around of `activityCounter++`.
- `sorting.dfy` (`Sorting`): the in-place ascending sort done by `sort.Slice`. Go's sort is not stable, so the contract is "sorted by the key and a permutation of the input". The order of equal keys is left open.
- `autobuy.dfy` (`AutoBuy`): `autoBuyGifts`.
  - The filter `0 < total <= 50000 && remains > 0`.
  - The sort by total.
  - The nested buying loops, with the 100-call cap and a `break` at the first failure.
  - The purchase RPC is an oracle `succeeds: nat -> bool`: the outcome of the k-th purchase call of the run.
  - The method returns the sorted targets and the trace of gift IDs, one entry per call. `Schedule` is the reference for that trace.
- `summary.dfy` (`Summary`): the list that `printLimitedGiftsInfo` prints. It holds the gifts with `total > 0`, sorted by total.
- `format.dfy` (`Format`): `formatGiftUpdateMessage`.
  - The clock reading comes in as a string.
  - `%d` is rendered by `Decimal`, which round-trips with `SignedValue` for every integer, negative ones included (`remains` is an `int32` and only `remains == 0` is filtered out).
  - `MessageOf` is the reference for the body the method builds.
- `monitor.dfy` (`Monitor`): one iteration of the loop in `main`.
  - `Next` is one iteration on values; `Run` is a sequence of iterations.
  - Class `Poller` holds the globals `knownGifts`, `activityCounter`, the `sync.Once` flag (`summaryPrinted`) and `previousHash`.
  - `Poller.Step` is the iteration on that mutable state. It is proved to follow `Next`, and it reports the summary, the purchases and the message it handed to the send call.
  - The catalogue request is an oracle `fetch: Int32 -> FetchOutcome`, called with the stored hash. The outcome of sending the notification is a boolean input.

After a notification the stored hash advances only when the send succeeds, and it is kept when the message body is empty (bot/bot.go:125-139). `FailedSendNotRetried` proves what follows from this: the new IDs are recorded before the send, so when the same catalogue comes back the gift is no longer new. No message is sent, and the hash then advances. A failed notification is never retried.

## Model

| member | source | states |
|---|---|---|
| `Gifts.Wrap64` | bot/bot.go:77 | the result is congruent to the argument modulo 2^64 and equal to it when it fits in an int64 (Go's signed wrap-around) |
| `Gifts.Inc64` | bot/bot.go:77 | `activityCounter++` never yields the old value; it adds one below the maximum and wraps to the minimum at it |
| `Sorting.SortByKey` | bot/bot.go:176-178 | after the in-place sort the array is in non-decreasing key order and is a permutation of the input |
| `AutoBuy.Targets` | bot/bot.go:159-169 | the target list built by the filter loop has no more entries than the catalogue |
| `AutoBuy.TargetsMembers` | bot/bot.go:160-169 | a target is exactly a catalogue gift with `0 < total <= 50000` and `remains > 0` (unlimited, too plentiful and sold-out gifts are excluded) |
| `AutoBuy.TargetsSound` | bot/bot.go:160-169 | every target entry comes from a catalogue gift that passes the filter |
| `AutoBuy.TargetsComplete` | bot/bot.go:160-169 | every catalogue gift that passes the filter appears among the targets |
| `AutoBuy.NoTargetsIff` | bot/bot.go:171-173 | the target list is empty exactly when no catalogue gift passes the filter |
| `AutoBuy.Attempts` | bot/bot.go:184-195 | one target gets at most `cap` purchase calls, and at least one when the cap is positive |
| `AutoBuy.AttemptsCharacterized` | bot/bot.go:184-189 | `n` is a target's call count iff the first `n-1` calls succeed and, when `n` is below the cap of 100, call `n` fails: leading successes plus one, or exactly 100 |
| `AutoBuy.Schedule` | bot/bot.go:181-196 | the purchase trace for an ordered target list holds between one and 100 calls per target |
| `AutoBuy.ScheduleBlock` | bot/bot.go:181-196 | target `i` gets its own block of 1 to 100 calls of its ID, right after the blocks of the targets before it, whatever failed earlier |
| `AutoBuy.ScheduleIds` | bot/bot.go:181-185 | every purchase call is for one of the targets |
| `AutoBuy.CollectTargets` | bot/bot.go:159-169 | the filter loop builds exactly the reference target list, in catalogue order |
| `AutoBuy.BuyTarget` | bot/bot.go:184-195 | the inner loop makes exactly `Attempts` calls for the target and no other: it keeps calling while every call so far succeeded, up to 100 |
| `AutoBuy.BuyEach` | bot/bot.go:181-196 | the outer loop makes exactly the calls of `Schedule` for the given order |
| `AutoBuy.AutoBuyGifts` | bot/bot.go:147-197 | the targets are tried in non-decreasing order of total, each target once; the trace is their schedule; no call is made iff no gift passes the filter |
| `Summary.LimitedInfos` | bot/bot.go:206-216 | the summary list built by the filter loop has no more entries than the catalogue |
| `Summary.LimitedInfosMembers` | bot/bot.go:207-216 | a summary line is exactly (id, remains, total) of a catalogue gift with `total > 0` |
| `Summary.LimitedInfosSound` | bot/bot.go:207-216 | every summary line comes from a catalogue gift with `total > 0` |
| `Summary.LimitedInfosComplete` | bot/bot.go:207-216 | every catalogue gift with `total > 0` has its summary line |
| `Summary.LimitedGiftsInfo` | bot/bot.go:199-222 | the summary lists exactly the finite-supply gifts, each as often as in the filtered list, in non-decreasing order of total |
| `Format.NatDecimal` | bot/bot.go:240-243 | `%d` of a natural number is a non-empty string of digits with no leading zero |
| `Format.NatDecimalRoundTrip` | bot/bot.go:240-243 | reading the digits back yields the number |
| `Format.Decimal` | bot/bot.go:240-243 | `%d` of an integer starts with `-` exactly when it is negative |
| `Format.DecimalRoundTrip` | bot/bot.go:240-243 | reading `%d` of any integer back, sign included, yields the integer |
| `Format.AvailableSound` | bot/bot.go:233-238 | every gift kept by the stock filter is a catalogue gift with stock left |
| `Format.AvailableComplete` | bot/bot.go:233-238 | every catalogue gift with stock left is kept |
| `Format.AvailableEmpty` | bot/bot.go:233-238 | nothing is kept exactly when every gift is sold out |
| `Format.AvailableConcat` | bot/bot.go:233-245 | filtering keeps catalogue order: the filter of a concatenation is the concatenation of the filters |
| `Format.MessageEmpty` | bot/bot.go:247-249 | the body is empty iff every gift has `remains == 0` |
| `Format.MessageFrame` | bot/bot.go:251-262 | a non-empty body starts with the header and ends with the timestamp line |
| `Format.JoinContains` | bot/bot.go:252-258 | the block of every gift written into the body occurs in it |
| `Format.MessageListsInStock` | bot/bot.go:233-258 | the block of every gift with stock left occurs in the body |
| `Format.BlockFields` | bot/bot.go:240-243 | a block contains `Gift <id>`, `Stars: <stars>` and `Available: <remains>/<total>` |
| `Format.MessageNamesInStock` | bot/bot.go:233-258 | for every gift in stock the body contains `Gift <id>`, `Stars: <stars>` and `Available: <remains>/<total>` |
| `Format.SingleGiftExample` | bot/bot.go:229-263 | for one gift (id 7, 50 stars, 3 of 10 left) the body is non-empty and contains `Gift 7` and `3/10` |
| `Format.CollectBlocks` | bot/bot.go:230-245 | the first loop yields one block per gift in stock, in catalogue order |
| `Format.WriteBlocks` | bot/bot.go:252-258 | the writing loop appends every collected block followed by a blank line, in order |
| `Format.FormatGiftUpdateMessage` | bot/bot.go:229-263 | the method builds exactly the reference body `MessageOf` |
| `Monitor.HasNewIffUnseenId` | bot/bot.go:105-113 | `newExist` depends on IDs only: it holds iff some reply ID is not known, so availability changes of known gifts are not new |
| `Monitor.Next` | bot/bot.go:76-143 | one iteration increments the counter; on error, not-modified or another reply it changes nothing else; on a changed catalogue the known set becomes old plus the reply's IDs and the summary flag is set; the hash becomes the reply's hash iff the catalogue changed and (no ID is new, or some gift has stock and the send succeeded) |
| `Monitor.FailedSendNotRetried` | bot/bot.go:105-139 | after a failed send the hash is kept, but the same catalogue then triggers no message and advances the hash |
| `Monitor.RunKnown` | bot/bot.go:105-113 | over a run the known IDs are those known before plus every ID of every changed catalogue; none is removed |
| `Monitor.RunPrinted` | bot/bot.go:95-97 | after a run the summary flag is set iff it was set before or some catalogue changed |
| `Monitor.SummaryAtMostOnce` | bot/bot.go:95-97 | over a run the summary is printed once if some catalogue changes and it was not printed before, otherwise never |
| `Monitor.SummaryAtFirstChange` | bot/bot.go:95-97 | the summary is printed at iteration `k` iff it was not printed before the run and `k` is the first changed catalogue |
| `Monitor.RunCounter` | bot/bot.go:76-77 | after `n` iterations the counter is the old counter plus `n`, wrapped to int64 |
| `Monitor.WatchdogQuiet` | bot/bot.go:36-42 | if at least one and fewer than 2^64 iterations ran between two samples, the watchdog's "unchanged" test does not fire |
| `Monitor.Poller.constructor` | bot/bot.go:20-22 | the loop starts with no known IDs, counter 0 and the summary not printed (the globals), and hash 0 (`previousHash` is set to 0 at bot/bot.go:75) |
| `Monitor.Poller.RecordIds` | bot/bot.go:105-113 | the scan adds every reply ID to `knownGifts`, touches nothing else, and `newExist` says whether some ID was absent before |
| `Monitor.Poller.HandleChanged` | bot/bot.go:94-139 | on a changed catalogue: the summary is produced iff it was not printed before; the purchases are the schedule of the sorted targets; every reply ID is recorded; a message is handed over iff some ID is new and the body is non-empty; the hash advances iff no ID is new or the non-empty message was sent |
| `Monitor.Poller.Step` | bot/bot.go:76-143 | the new state is `Next` of the old; the summary is produced iff it fires and is the sorted finite-supply list; on a changed catalogue the purchases are the schedule of the sorted targets, otherwise none; a message is handed to the send call iff some ID is new and the body is non-empty |

## Left out

- The watchdog goroutine and its one-minute ticker are not modelled (bot/bot.go:27-46). The race between the plain `activityCounter++` and the atomic load is not modelled either. Only the comparison is stated, as `WatchdogFatal`.
- Startup is not modelled: config loading, the `-auth` flag, client creation and resolving the operator peer (bot/bot.go:48-73). These are library calls that end the process on failure.
- The sleeps between polls and between purchases are not modelled (bot/bot.go:76, bot/bot.go:194). They are timing, not logic.
- The clock read `time.Now().Format("15:04:05")` becomes the `timestamp` parameter.
- Logging and the `fmt.Println`/`Printf` output are not modelled. The summary is modelled as the list it prints.
- The RPC calls are inputs. `PaymentsGetStarGifts` is the `fetch` oracle; `SendMessage` is `sendOk`; `SendNewGift` is `succeeds`.
- The purchase trace records only gift IDs. The recipient (`client.Me().Username`), the upgrade flag (always `false`) and the note `"auto-buy"` passed to `SendNewGift` are not recorded. `Target.upgradable` is carried as in the source and never used.
- bot/send.go, bot/watcher.go, config/config.go, auth/auth.go and log/init.go are not part of this model. They wrap the RPC client, a watcher that is never started, env parsing, the auth prompt and logger setup.
- The type assertions to `*telegram.StarGiftObj` are assumed to succeed. A reply of any other type is the `Unexpected` case.
- The `knownGifts` map only ever stores `true`, so the state abstraction uses its key set.
- `soldOutGifts` is kept in `FormatGiftUpdateMessage` as a list that is never filled, as in the source.
- HTML parse mode and emoji are text only. The emoji are written as their code points.
- Sorting.SortByKey: its contract promises only a sorted permutation. The tie order that Go's unstable `sort.Slice` would produce is not modelled. `AutoBuyGifts`, `LimitedGiftsInfo` and `Poller.Step` inherit this.
