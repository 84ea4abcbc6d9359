# Verified model of the Seamless relay

Seamless is a reverse-tunnel relay: clients behind a firewall register a name or a port at the relay, and
the relay's ingress forwards public connections to them. This project models the parts of the relay whose
correctness is not visible from one function body, and proves what they promise over all inputs, all runs
and all interleavings.

The files follow the components of the relay.

| file | component |
|---|---|
| `Calendar.dfy` | the audit log's civil-date function and the certificate check's day-number function, both against a day-by-day count |
| `AuditLog.dfy` | the audit log's writer: rotation at midnight |
| `AuditRuns.dfy`, `AuditDays.dfy` | its runs, with restarts and failures: conservation of events, and what each day's file holds |
| `CertScan.dfy` | the scan for the expiry date of a certificate |
| `TokenBucket.dfy` | the per-tunnel token bucket |
| `RateLimiter.dfy` | the per-address sliding window |
| `WeightedRoundRobin.dfy` | the choice of a load-balanced backend |
| `Health.dfy` | the health checks of backends, by any number of probers |
| `Histogram.dfy` | the concurrent latency histogram |
| `Registry.dfy` | the tunnel registry: handlers, admin, expiry and termination, one step for each lock scope |
| `Expiry.dfy` | whom the expiry task and the termination signal tell, and when |
| `HttpOwnership.dfy`, `TcpOwnership.dfy` | who keeps an HTTP key and a TCP key |
| `PortList.dfy` | the list of ports in use |
| `Caps.dfy` | the caps on tunnels under races |
| `HttpHead.dfy` | the four parsers of an HTTP head and the insertion of forwarding headers |
| `Routing.dfy` | published URLs, and the lookup of a request's tunnel |
| `Frames.dfy` | the control frames, their encoding and the stream they travel on |
| `Cidr.dfy` | address blocks: the deny list and the admin allow list |
| `Arith.dfy`, `Text.dfy`, `Utf8.dfy`, `Wrappers.dfy` | machine words and division facts, string operations, UTF-8, options |

State that the relay updates in place is a class here, with methods proved against a function of the old
state: the bucket, the limiter, the backend list of a tunnel, the log writer and its disk, the frame
stream, the histogram, a prober and the deny list. The concurrent parts, in which no single method owns the
state, are step systems: a run is the list of steps taken, and the theorems hold for every run.

## What turned out not to hold

Some promises fail for some inputs. The model keeps the code as it is; each failure has a lemma that
exhibits or characterises it, and the theorem next to it says exactly when the promise is kept.

- The audit log's date narrows the year to 32 bits. It is right exactly before day 784351576777
  (`Calendar.EpochToYmdExact`).
- A rotation replaces whatever has the dated name. A dated file from before a run is kept exactly if the run
  does not rename the base file to its day (`AuditDays.KeptIffNotRenamed`), and a day's file holds all that
  was renamed to it exactly if that happened once (`AuditDays.CompleteIffRenamedOnce`; a run that loses a line:
  `AuditDays.LostOnReturn`).
- The date of the open file is not kept across a restart of the process, nor after a rename that failed. While
  the clock does not go back, each day's events are in a file of their own exactly if none was written behind
  events of another day (`AuditDays.OneFilePerDay`); that takes a restart or a failing rename
  (`AuditDays.UndisturbedDaysStayApart`), and runs with either show it (`AuditDays.RestartMixesDays`,
  `AuditDays.FailedRenameMixesDays`). What is left in the base file stays in front of the next lines. No event
  is lost by it (`AuditRuns.RotationConserves`).
- The total weight of the healthy backends is a 32-bit sum. From 2^32 on, the last backend is never chosen;
  every backend gets its exact share exactly if the sum fits (`WeightedRoundRobin.ExactShareIff`; two weights
  that fail: `WeightedRoundRobin.TwoHeavyBackends`). This is the arithmetic of a release build; a debug build
  panics instead.
- The tunnel caps are checked under one lock and the entry is inserted under another. Each cap, global or per
  address, holds exactly if no two registrations overlap (`Caps.CapExactIff`); with up to k of them the excess
  is at most k - 1 (`Caps.CapUnderRaces`), and that is reached (`Caps.CapAttained`). A cap per address above the
  global one holds for longer (`Caps.HigherCapExactIff`).
- The expiry task and the termination signal remove an entry that its handler later removes again by key. No HTTP
  handler can lose its key unexpectedly exactly if neither can run (`Registry.OwnershipIff`). If they can, a
  handler keeps its key until it is told exactly if no other handler has yet to remove the same key
  (`HttpOwnership.HttpKeepsKeyIff`, and at the moment of insertion `HttpOwnership.HttpInsertionIff`; a run that
  loses a key: `Registry.StaleRemoval`).
- The age of an entry is cast to an unsigned number. A wall clock that is set back to before an entry was made
  makes the expiry task remove it at once (`Expiry.ExpireIs`); from any state, that or its age is what it takes
  (`Expiry.ToldWithinIff`).
- A TCP handler frees its port before it removes its key. The next handler of the port keeps its key, in every
  configuration until it is told, exactly if no earlier one has yet to remove it
  (`TcpOwnership.TcpKeepsKeyIff`, and at the moment of insertion `TcpOwnership.TcpInsertionIff`; a run that loses a
  key: `TcpOwnership.TcpOwnershipFails`).
- A TCP handler whose reply fails ends without taking its port off the list of ports in use. Only ports in use are
  listed exactly if no reply fails (`PortList.ListedIff`); a port that is listed and not in use is lost to the
  random choice (`PortList.UnusedStaysListed`).
- A backend is reported unhealthy "after 3 consecutive failures". Every added backend starts one more prober
  with its own counters over the same flags. A mark means three failures in a row, and three failures in a row
  mean a mark, each exactly if there is at most one prober (`Health.ThreeInARowIff`; a run:
  `Health.MarkedWithoutTwoInARow`).
- A scrape of the histogram loads the count before the buckets. It can show a bucket above the count by up to
  the number of observations started in between (`Histogram.ScrapeBound`, `Histogram.ScrapeExceedsCount`), and
  never does exactly if none is (`Histogram.CountCoversIff`). It can show a lower bucket above a higher one by up
  to the number of observations under way (`Histogram.OrderBoundAttained`), and never does exactly if none is
  (`Histogram.BucketsInOrderIff`).
- The expiry scan takes the second time-tagged value it meets. A stray tag byte before the validity period
  can make it take the start of that period (`CertScan.StrayTagTakesFirst`); `CertScan.SecondTimeIff` is the
  exact condition.
- The message of the subdomain check allows `[a-z0-9-]`, the check also allows upper case. The lookup
  compares case-sensitively, so a client that writes host names in lower case reaches exactly the
  lower-case names (`Routing.LowerCaseIff`).
- The head of a request is decoded as a whole, with any body bytes that came along. The Host header is found
  exactly if all of them are UTF-8 (`Routing.NamedIff`; a head that fails: `Routing.BinaryBodyHidesHost`).

## Where code and documentation disagree

The model follows the code.

- `denylist.rs` says that a failed reload keeps the existing list; the code replaces it by an empty one.
- `denylist.rs` speaks of IPv4-mapped IPv6 addresses; `to_ipv4` also maps the IPv4-compatible ones.
- `docs/PROTOCOL.md` gives its byte examples as a sketch. The frame model uses the sizes of bincode 1 with
  fixed-width little-endian integers: 4 bytes for a variant, 8 for the length of a string.
- `docs/PROTOCOL.md` says that a reader must close the connection with an error frame when a length is too
  large; `read_frame` only fails.
- bincode's `deserialize` accepts bytes after the value, so a frame may carry padding (`Frames.ReadIff`).

## Assumptions

- `f64` tokens and seconds are real numbers; `Instant` and the wall clock are parameters. Where a theorem
  needs a clock that does not go back, it says so; `Instant::duration_since` returns zero for a later start.
- 64-bit counters do not wrap, except that the round-robin counter does wrap and its fairness is stated
  up to that point. Atomics are sequentially consistent.
- Narrowing casts that the code applies to lengths and years are written out.

## Model

| member | source | states |
|---|---|---|
| Calendar.SuccessorAddsOneDay | crates/seamless-relay/src/acme.rs:486-494 | the day number of the calendar successor of a valid date (month lengths, 4/100/400 rule) is one more |
| Calendar.CivilUndoesJulian | crates/seamless-relay/src/audit.rs:266-280 | for every valid date from 1970 on, the audit log's closed form applied to the certificate check's day number gives the date back |
| Calendar.JulianCountsDays | crates/seamless-relay/src/acme.rs:486-494 | the date reached by counting n days from 1970-01-01 has day number n and is valid |
| Calendar.CivilCountsDays | crates/seamless-relay/src/audit.rs:266-280 | the audit log's closed form on day n is the date reached by counting n days; day n + 1 is its successor; its day number is n |
| Calendar.JulianRespectsOrder | crates/seamless-relay/src/acme.rs:486-494 | earlier valid dates have smaller day numbers |
| Calendar.CivilRespectsOrder | crates/seamless-relay/src/audit.rs:266-280 | days compare as their dates do, in both directions, and different days have different dates |
| Calendar.EpochToYmdExact | crates/seamless-relay/src/audit.rs:266-280 | with the narrowing to a 32-bit year, the result is the counted date, and is undone by the day number, if and only if the day lies before the year 2^31 |
| Calendar.EpochToYmdUndoesJulian | crates/seamless-relay/src/audit.rs:266-280 | every valid date from 1970 with a 32-bit year comes back from 86400 times its day number |
| Calendar.DateOfSecond | crates/seamless-relay/src/audit.rs:266-280 | every second of day n, counted as 24 hours of 60 minutes of 60 seconds, has the date reached by counting n days, before the year 2^31 |
| AuditLog.WriterState.Rotate | crates/seamless-relay/src/audit.rs:207-234 | the base file, if it exists and can be renamed, moves to its dated name and replaces what was there; the handle is closed in any case |
| AuditLog.WriterState.WriteEvent | crates/seamless-relay/src/audit.rs:180-204 | the disk and the open date afterwards are those of the log's step: rotation if the date changed, then opening, then one appended line, or an error that keeps the rotation |
| AuditLog.RotatedPathInjective | crates/seamless-relay/src/audit.rs:215-222 | different dates of four-digit or longer years have different file names |
| AuditLog.DatedNameIs | crates/seamless-relay/src/audit.rs:215-222 | a dated name is the base name, a dot, four digits that read as the year, a dash, two that read as the month, a dash and two that read as the day |
| AuditLog.PaddedIs | crates/seamless-relay/src/audit.rs:215-222 | a padded number has at least the width and reads back, with a minus in front if it is negative, as a narrowed year may be |
| AuditLog.NamesSortAsDates | crates/seamless-relay/src/audit.rs:215-222 | for years of four digits, a date is before another if and only if at the first place where the two names differ its character is smaller |
| AuditRuns.NamesSortAsDays | crates/seamless-relay/src/audit.rs:215-222 | up to the year 9999, one day is before another if and only if its file's name is the smaller one |
| AuditRuns.LogHoldsLedger | crates/seamless-relay/src/audit.rs:172-234 | from any disk, with any clock, any restarts and any failing renames and opens, the files are those of a ledger that files whole days by day number, and all other files are as before |
| AuditRuns.ArchiveOnDisk | crates/seamless-relay/src/audit.rs:207-234 | under the date of a day the disk holds what the ledger archived, or else what was there before |
| AuditRuns.RotationConserves | crates/seamless-relay/src/audit.rs:172-234 | while the clock does not go back and no dated file is from a day of the run, through any restarts and failing renames and opens, the dated files in date order and then the base file are what they were before and then exactly the lines reported as written, in order |
| AuditRuns.AcceptedIsJoined | crates/seamless-relay/src/audit.rs:196-199 | the text a run adds to the disk is the events reported as written, each followed by a line end |
| AuditDays.WroteIffReported | crates/seamless-relay/src/audit.rs:188-203 | in every run, a call reports its line as written if and only if the handle was open on its day or could be opened |
| AuditDays.KeptIffNotRenamed | crates/seamless-relay/src/audit.rs:207-234 | with any clock, restarts and failures, a dated file that was there before is kept, whatever is in it, if and only if the run does not rename the base file to its day |
| AuditDays.CompleteIffRenamedOnce | crates/seamless-relay/src/audit.rs:207-234 | from any disk, with any clock, restarts and failures, a day's file holds everything the base file held when it was renamed to that day if and only if that happened once |
| AuditDays.OneFilePerDay | crates/seamless-relay/src/audit.rs:172-234 | while the clock does not go back, with any restarts and failures and no dated file from a day of the run, all earlier files stay, every new one has the date of a day with lines, and the disk grows by every written line in order; each day's lines are alone in the file of their day, the first after what was left in the base file, if and only if no line was written behind lines of another day |
| AuditDays.UndisturbedDaysStayApart | crates/seamless-relay/src/audit.rs:183-186 | without restarts and failing renames no line is written behind lines of another day, whatever the clock and the opens do |
| AuditDays.LostOnReturn | crates/seamless-relay/src/audit.rs:207-234 | a run with a clock that goes back, after which a day's file is not complete |
| AuditDays.RestartMixesDays | crates/seamless-relay/src/audit.rs:172-178 | a run with a restart between two days, after which the days are not in files of their own |
| AuditDays.FailedRenameMixesDays | crates/seamless-relay/src/audit.rs:223-233 | a run with a failing rename between two days, after which the days are not in files of their own |
| AuditLog.JoinedInjective | crates/seamless-relay/src/audit.rs:196-199 | the contents of a log file determine the sequence of single-line events in it |
| CertScan.ScanTimes | crates/seamless-relay/src/acme.rs:449-461 | the loop stays in bounds, ends, and takes exactly the first two of all values that an uncapped scan would take |
| CertScan.TakenAreValues | crates/seamless-relay/src/acme.rs:449-461 | nothing is taken but bytes after a tag and their length, all within the data |
| CertScan.FirstTimeIff | crates/seamless-relay/src/acme.rs:449-461 | from a position, the scan takes the value at k first if and only if no tag byte lies before it |
| CertScan.SecondTimeIff | crates/seamless-relay/src/acme.rs:449-463 | the scan takes the value at k second if and only if the value at the first tag byte ends at or before k and no tag byte lies between |
| CertScan.ScanPicksSecond | crates/seamless-relay/src/acme.rs:446-463 | after a prefix without tag bytes, two time values and any suffix, the values taken are those two, in order |
| CertScan.StrayTagTakesFirst | crates/seamless-relay/src/acme.rs:449-463 | with a stray tagged value before them, the first of the two is taken for the second |
| CertScan.UtcTimeIff | crates/seamless-relay/src/acme.rs:463-476 | a two-digit year is read with the pivot at 50, and the date comes back if and only if its year is from 1950 to 2049 |
| CertScan.GeneralizedTimeIs | crates/seamless-relay/src/acme.rs:463-476 | a date written with a four-digit year comes back |
| CertScan.DaysUntilExpiry | crates/seamless-relay/src/acme.rs:446-483 | the result is the expiry of the second value found, with no value and unreadable text reported as nothing and slices off the text's boundaries as a panic |
| CertScan.NoExpiry | crates/seamless-relay/src/acme.rs:463-464 | without a second value or with one that is not UTF-8 there is no result, and one of fewer than two bytes panics |
| CertScan.LongEnoughNeverPanics | crates/seamless-relay/src/acme.rs:467-476 | an ASCII value of six or more characters never panics |
| CertScan.SignedIs | crates/seamless-relay/src/acme.rs:467-476 | a number of the date may carry a sign |
| CertScan.ExpiryIsDayCount | crates/seamless-relay/src/acme.rs:446-494 | for a certificate that expires n days after the epoch, in the form that section 4.1.2.5 of RFC 5280 asks for its year, the result is n minus the present day number |
| TokenBucket.DDoSProtection.Check | crates/seamless-relay/src/tunnel.rs:345-368 | decision and new bucket are those of one metered step; disabled and rate-zero checks pass and change nothing |
| TokenBucket.LevelIsTightest | crates/seamless-relay/src/tunnel.rs:355-361 | the level a request finds is the minimum, attained, of what each earlier request and the start leave room for |
| TokenBucket.AcceptedIffRoom | crates/seamless-relay/src/tunnel.rs:345-368 | with rate and burst changing between checks in any way, a request passes if and only if every interval ending at it has room for one more |
| TokenBucket.FixedAcceptedIff | crates/seamless-relay/src/tunnel.rs:345-368 | with fixed rate and burst and a full bucket, request n passes if and only if for every i up to n the requests passed since i and one more fit burst + rps * (t_n - t_i), written out in reals |
| TokenBucket.FixedArrivalCurve | crates/seamless-relay/src/tunnel.rs:345-368 | no interval of requests passes more than burst + rps * its duration |
| TokenBucket.EarlierClockAddsNothing | crates/seamless-relay/src/tunnel.rs:357-359 | a reading of the clock that is not later than the last adds no token |
| TokenBucket.BucketWithinEnvelope | crates/seamless-relay/src/tunnel.rs:345-368 | the bucket's own decisions respect all the bounds |
| TokenBucket.BucketPassesMost | crates/seamless-relay/src/tunnel.rs:345-368 | no policy that respects the bounds has, at any time, let more requests pass: no refusal is avoidable |
| TokenBucket.BlockedCountsRefusals | crates/seamless-relay/src/tunnel.rs:365 | the blocked counter grows by exactly the number of refused requests |
| TokenBucket.BypassLeavesNoTrace | crates/seamless-relay/src/tunnel.rs:346-352 | a run ends in the same bucket as the run without its disabled and rate-zero checks |
| TokenBucket.BypassIff | crates/seamless-relay/src/tunnel.rs:346-352 | a check passes whatever the bucket holds and leaves it alone if and only if protection is off or the rate is zero |
| RateLimiter.RateLimiter.CheckAndRecord | crates/seamless-relay/src/tunnel.rs:200-214 | decision and new queues are those of one step: prune the caller's queue, then push the time if there is room; other queues stay |
| RateLimiter.QueueIsHistory | crates/seamless-relay/src/tunnel.rs:207-212 | for every present and future clock reading, the pruned queue shows the same recent calls as the whole history of passed calls, and never exceeds the limit |
| RateLimiter.AcceptedIff | crates/seamless-relay/src/tunnel.rs:200-214 | in every run, a call passes if and only if the limit is zero or fewer than `max` calls of its address passed within the last window |
| RateLimiter.AcceptedIffFewInside | crates/seamless-relay/src/tunnel.rs:200-214 | the same as a count: a call passes if and only if the limit is zero or fewer than `max` passed calls of its address lie in the interval of the window's length that ends with the present instant |
| RateLimiter.WindowBound | crates/seamless-relay/src/tunnel.rs:200-214 | no half-open interval of the window's length holds more than `max` passed calls of an address |
| RateLimiter.OtherAddressesAreInvisible | crates/seamless-relay/src/tunnel.rs:206 | an address's queue and passed calls are those of the run without all other addresses |
| RateLimiter.DecisionsAreIsolated | crates/seamless-relay/src/tunnel.rs:200-214 | the next decision for an address is the same as in the run without all other addresses |
| RateLimiter.LimiterPassesMost | crates/seamless-relay/src/tunnel.rs:200-214 | no policy that keeps to the limit lets an address pass more often |
| RateLimiter.LimiterWithinLimit | crates/seamless-relay/src/tunnel.rs:200-214 | the limiter keeps to the limit itself |
| WeightedRoundRobin.TunnelEntry.AddBackend | crates/seamless-relay/src/admin.rs:1520-1522 | the list grows by one healthy backend at its end, of weight at least one |
| WeightedRoundRobin.TunnelEntry.SelectBackend | crates/seamless-relay/src/tunnel.rs:417-440 | the loop over the healthy backends ends at the position of the full list that the choice function gives and never reaches the fallback; the counter moves unless there is no healthy backend |
| WeightedRoundRobin.ChoiceIff | crates/seamless-relay/src/tunnel.rs:418-425 | nothing is selected if and only if no backend of the list is healthy, the remainder by zero happens if and only if the sum of their weights is a positive multiple of 2^32, and what is selected is healthy |
| WeightedRoundRobin.LocateIff | crates/seamless-relay/src/tunnel.rs:430-436 | a backend is selected if and only if the slot lies in its own interval of the total weight |
| WeightedRoundRobin.CountIsHits | crates/seamless-relay/src/tunnel.rs:427-436 | the selections of a backend over any n consecutive counters have a closed form |
| WeightedRoundRobin.TightlyFair | crates/seamless-relay/src/tunnel.rs:417-440 | a backend of weight w among total weight W gets c of n consecutive selections with abs(c * W - n * w) <= w * (W - w), from any start |
| WeightedRoundRobin.BoundIsTight | crates/seamless-relay/src/tunnel.rs:417-440 | that bound is attained by every backend on both sides |
| WeightedRoundRobin.OverflowStarvesLast | crates/seamless-relay/src/tunnel.rs:427 | if the sum of weights does not fit 32 bits, no counter selects the last backend |
| WeightedRoundRobin.TwoHeavyBackends | crates/seamless-relay/src/tunnel.rs:427-429 | two weights of 2^31, whose sum wraps to zero, so that no counter selects a backend |
| WeightedRoundRobin.ExactShareIff | crates/seamless-relay/src/tunnel.rs:417-440 | as many selections as the total weight give every backend exactly its weight, if and only if the total fits 32 bits |
| WeightedRoundRobin.ExactChoicesIff | crates/seamless-relay/src/tunnel.rs:417-440 | over the full list: as many selections as the weights of the healthy backends together choose every healthy backend exactly its given weight, at least once, and no other one, if and only if the sum fits 32 bits |
| WeightedRoundRobin.ChoicesAreFair | crates/seamless-relay/src/tunnel.rs:417-440 | the fairness bound over the full list, for every number of selections and from any start |
| Health.Prober.Record | crates/seamless-relay/src/admin.rs:1640-1670 | a probe's effect on the prober's count and on the shared flag |
| Health.RecordsCount | crates/seamless-relay/src/admin.rs:1639-1671 | over every history of probes of many backends, a prober's recorded count of a backend is its failures in a row there, and the flag is that of the backend's own probes |
| Health.UnhealthyIff | crates/seamless-relay/src/admin.rs:1623-1673 | over every run of any number of probers, a backend is unhealthy if and only if some prober has failed three times in a row, the last time after everyone's last success |
| Health.OneProberIff | crates/seamless-relay/src/admin.rs:1623-1673 | with one prober, unhealthy if and only if at least the last three probes failed |
| Health.ThreeInARowIff | crates/seamless-relay/src/admin.rs:1655-1668 | over all runs of k probers, unhealthy implies that the last three probes failed, and the converse, each if and only if k is at most one |
| Health.MarkedWithoutTwoInARow | crates/seamless-relay/src/admin.rs:1520-1525 | with two probers, a run in which no two probes in a row fail and the backend is unhealthy |
| Health.JustifiedStep | crates/seamless-relay/src/admin.rs:1640-1670 | every single write of an interleaved probe keeps the invariant that an unhealthy flag has a prober to blame |
| Health.AlwaysJustified | crates/seamless-relay/src/admin.rs:1640-1670 | so does every interleaving |
| Health.UnhealthyIsJustified | crates/seamless-relay/src/admin.rs:1623-1673 | from a healthy start, whenever the flag is down some prober has at least three consecutive failures |
| Health.RunAlone | crates/seamless-relay/src/admin.rs:1640-1670 | if no two probes overlap, the single writes end in the flag of the recorded run, and each prober in its failures in a row |
| Histogram.Histogram.Observe | crates/seamless-relay/src/metrics.rs:50-60 | an undisturbed observation adds one to the count, its microseconds to the sum and one to every bucket whose bound it does not exceed |
| Histogram.AlwaysAccounted | crates/seamless-relay/src/metrics.rs:50-60 | in every interleaving of single increments, a bucket plus the observations that still owe it is the number of started observations within its bound; count and sum are those of the started observations |
| Histogram.BucketsInOrder | crates/seamless-relay/src/metrics.rs:50-60 | no bucket exceeds the count; a lower bucket exceeds a higher one by at most the observations under way; with none under way the buckets are exact and cumulative |
| Histogram.ObservationAlone | crates/seamless-relay/src/metrics.rs:50-60 | an observation whose increments are not interrupted has in the step system exactly the effect of the method |
| Histogram.MicrosIs | crates/seamless-relay/src/metrics.rs:52-53 | the microseconds of an observation are a million times its seconds, rounded down, and zero for a negative one |
| Histogram.SumIsSeconds | crates/seamless-relay/src/metrics.rs:52-54 | in every state the sum is a million times the seconds observed, up to one for each observation |
| Histogram.ScrapeBound | crates/seamless-relay/src/metrics.rs:64-77 | in a scrape that runs between observations, a bucket exceeds the count by at most the observations started since the count was loaded, a lower bucket a higher one by at most those under way, and every bucket holds all observations within its bound that were finished when the count was loaded |
| Histogram.ScrapeExceedsCount | crates/seamless-relay/src/metrics.rs:66-70 | for every n, a scrape that shows a count of zero and a bucket of n, which attains the bound |
| Histogram.CountCoversIff | crates/seamless-relay/src/metrics.rs:66-70 | no scrape with at most n observations started during it shows a bucket above the count if and only if n is zero |
| Histogram.OrderBoundAttained | crates/seamless-relay/src/metrics.rs:54-58 | for any two buckets and every n, a scrape with n observations under way that shows the lower bucket n above the higher |
| Histogram.BucketsInOrderIff | crates/seamless-relay/src/metrics.rs:54-70 | no scrape with at most n observations under way shows a lower bucket above a higher if and only if n is zero |
| Registry.OwnershipStep | crates/seamless-relay/src/tunnel.rs:1012-1052 | without expiry and termination, every step of every handler and of the admin keeps each HTTP key mapped to the handler that holds it |
| Registry.OwnershipHolds | crates/seamless-relay/src/tunnel.rs:1012-1122 | so in every run, from insertion to its own removal, an HTTP handler's key maps to its own entry, and every HTTP key in the map has such a handler |
| Registry.KeysAreExclusive | crates/seamless-relay/src/tunnel.rs:1012-1027 | no two handlers hold the same key |
| Registry.HttpKeysHaveNoColon | crates/seamless-relay/src/tunnel.rs:846-857 | no accepted or random subdomain has a colon, so none is a TCP key |
| Registry.ValidSubdomainIff | crates/seamless-relay/src/tunnel.rs:846-857 | exactly the labels of letters, digits and inner dashes of up to 63 characters are accepted |
| Registry.TcpKeyIs | crates/seamless-relay/src/tunnel.rs:1241 | a TCP key is `tcp:` and digits that read as the port |
| Registry.ChecksIff | crates/seamless-relay/src/tunnel.rs:746-798 | a handler passes a cap check if and only if there is no cap or the number of entries, of its address or of all, modulo 2^32 is below it |
| Registry.InsertIs | crates/seamless-relay/src/tunnel.rs:1012-1027 | a free name gets an entry with the handler, its address and the time; a taken one stays as it is and the handler ends |
| Registry.StaleRemoval | crates/seamless-relay/src/main.rs:1290-1295 | with expiry or termination, a run in which a serving handler that was never told to leave has lost its entry to another handler's removal |
| Registry.OwnershipIff | crates/seamless-relay/src/main.rs:1260-1347 | serving handlers that were not told to leave keep their keys in every reachable state if and only if neither the expiry task nor the termination signal can run |
| Expiry.ExpireIs | crates/seamless-relay/src/main.rs:1267-1297 | the expiry task removes exactly the entries of the maximum age, or from later than the clock shows, leaves all others as they are, and tells exactly the owners that were not told before |
| Expiry.TerminateIs | crates/seamless-relay/src/main.rs:1336-1342 | the termination signal empties the map and tells exactly the owners that were not told before |
| Registry.ToldOnce | crates/seamless-relay/src/main.rs:1290-1293 | in every run, the sender of an entry is used up when its handler is told, so that none is told twice |
| Expiry.EntriesHold | crates/seamless-relay/src/main.rs:1267-1297 | in every run, each entry was made by a handler of its own that can be told unless it has been |
| Expiry.ToldWithinIff | crates/seamless-relay/src/main.rs:1262-1297 | from every reachable state, while nobody else tells it, the expiry task can tell the owner of an entry if and only if the clock can show a time at which the entry has the maximum age, or one before the entry was made |
| HttpOwnership.HttpKeepsKeyIff | crates/seamless-relay/src/tunnel.rs:1012-1122 | in every configuration and from every reachable state, an HTTP handler has its key in every continuation until it is told, or without expiry and termination even after, if and only if it has it now and no other handler of the same key is inserted, serving or leaving |
| HttpOwnership.HttpInsertionIff | crates/seamless-relay/src/tunnel.rs:1012-1027 | an HTTP handler keeps its key from its insertion on until it is told if and only if at that moment no other handler of the key has yet to remove it |
| TcpOwnership.PortsHold | crates/seamless-relay/src/tunnel.rs:1195-1204 | in every run, a port is held by at most one handler, from binding it to freeing it, and a held port is bound |
| TcpOwnership.BoundIffHeld | crates/seamless-relay/src/tunnel.rs:1195-1216 | in every run, a port is bound if and only if a handler holds it |
| PortList.ListedIff | crates/seamless-relay/src/tunnel.rs:1195-1216 | in every run with at most k failing replies only ports in use are on the list that the random choice avoids, if and only if k is zero |
| PortList.UnusedStaysListed | crates/seamless-relay/src/tunnel.rs:1369-1386 | a listed port that is not in use stays on the list until someone asks for it by number |
| TcpOwnership.TcpKeepsKeyIff | crates/seamless-relay/src/tunnel.rs:1258-1316 | in every configuration and from every reachable state, a serving TCP handler has its key in every continuation while it serves and is not told, or without expiry and termination even after, if and only if it has it now and no handler has freed the port without having removed its key |
| TcpOwnership.TcpInsertionIff | crates/seamless-relay/src/tunnel.rs:1258 | a TCP handler keeps its key from its insertion on in this sense if and only if at that moment no handler has freed the port without having removed its key |
| TcpOwnership.TcpOwnershipFails | crates/seamless-relay/src/tunnel.rs:1313-1316 | a run without expiry and termination in which a TCP handler's entry is removed by the previous handler of its port |
| Caps.CapStep | crates/seamless-relay/src/tunnel.rs:746-798 | no step adds to tunnels and waiting handlers together, except a passed cap check, which sees the cap not reached |
| Caps.CapUnderRaces | crates/seamless-relay/src/tunnel.rs:746-798 | with at most k handlers between check and insertion, tunnels and waiting handlers together never exceed the cap - 1 + k, for the global cap and for the cap of each address |
| Caps.CapAttained | crates/seamless-relay/src/tunnel.rs:746-798 | for the global cap, for the cap of any address, and for every k, a run of at most k overlapping handlers with exactly c - 1 + k tunnels, where c is the cap, or the global cap if it is lower |
| Caps.CapExactIff | crates/seamless-relay/src/tunnel.rs:746-798 | the global cap, and the cap of any address that is not above it, holds in every run with at most k overlapping handlers if and only if k is at most one |
| Caps.HigherCapExactIff | crates/seamless-relay/src/tunnel.rs:746-798 | the cap of an address above the global cap holds in every run with at most k overlapping handlers of the address if and only if the global cap - 1 + k does not exceed it |
| HttpHead.PositionIsFirst | crates/seamless-relay/src/ingress.rs:583 | the position found for a pattern is its first occurrence, and none is found only if there is none |
| HttpHead.HeaderLine | crates/seamless-relay/src/ingress.rs:540-551 | the value of a header is that of the first line with its name, in any case, without the white space around it, if there is any, whatever lines follow |
| HttpHead.ContentLengthIff | crates/seamless-relay/src/ingress.rs:516-526 | an announced length is read as its number if it fits 64 bits, and as absent if and only if it does not |
| HttpHead.RequestLineIs | crates/seamless-relay/src/ingress.rs:528-538 | method and path of a request line come back, whatever follows the line |
| HttpHead.RequestLineDefaults | crates/seamless-relay/src/ingress.rs:528-538 | a line without a space is the method of the root path, and a head that is not UTF-8 has a question mark for its method |
| HttpHead.IsWebsocketUpgrade | crates/seamless-relay/src/ingress.rs:600-621 | the two flags of the loop are: some line upgrades to websocket, and some line, possibly another, upgrades the connection |
| HttpHead.Handshake | crates/seamless-relay/src/ingress.rs:600-621 | a head with a line that upgrades to websocket and a Connection line that holds the word anywhere, in any case and order, is a handshake |
| HttpHead.NoHandshake | crates/seamless-relay/src/ingress.rs:600-621 | a head without an Upgrade line, or without a Connection line, is none |
| HttpHead.OtherProtocol | crates/seamless-relay/src/ingress.rs:610-612 | an Upgrade line for another protocol does not count |
| HttpHead.InjectForwardingHeaders | crates/seamless-relay/src/ingress.rs:581-597 | the output is the head with the three headers after its first line end, or the head itself if it has none |
| HttpHead.InjectionPreservesMeaning | crates/seamless-relay/src/ingress.rs:581-597 | for every head, well formed or not, request line, host, content length and websocket upgrade parse alike before and after the insertion |
| HttpHead.ServerSeesPeer | crates/seamless-relay/src/ingress.rs:588-595 | for every head that decodes and has a line end, the first forwarding headers a server finds are the relay's, with the peer's address and the protocol, except where the very first line is such a header itself |
| HttpHead.BlankLineShifts | crates/seamless-relay/src/ingress.rs:593-595 | every blank line moves by exactly the inserted length, none appears, and what follows stays the same |
| HttpHead.InjectionShiftsBlankLine | crates/seamless-relay/src/ingress.rs:593-595 | the end of the head moves by exactly the inserted length and the body is byte-identical |
| HttpHead.NoLineNoInjection | crates/seamless-relay/src/ingress.rs:584-587 | a head without a line end is passed on as it is and has no blank line |
| Routing.ExtractMeans | crates/seamless-relay/src/ingress.rs:553-557 | a subdomain is extracted if and only if the host before its first colon is that subdomain, a dot and the base domain |
| Routing.ExtractedIsNoTcpKey | crates/seamless-relay/src/ingress.rs:553-557 | no host name yields the key of a TCP tunnel |
| Routing.UrlAuthority | crates/seamless-relay/src/tunnel.rs:974-984 | the authority of the published URL, as section 3.2 of RFC 3986 delimits it, is the host name with the port unless it is the scheme's default |
| Routing.UrlsAreDistinct | crates/seamless-relay/src/tunnel.rs:974-984 | different subdomains have different URLs |
| Routing.UrlNames | crates/seamless-relay/src/tunnel.rs:974-984 | the published URL starts with https if and only if there is an https port, then names the subdomain, a dot and the base domain, and shows the port if and only if it is not the default of the scheme |
| Routing.NamedIff | crates/seamless-relay/src/ingress.rs:540-557 | a request whose first Host line, in any case of its name and with any white space around the value, is a published authority leads back to its subdomain if and only if the base domain has no colon and no line end, does not end the header value in white space, and all bytes read along with the head are UTF-8 |
| Routing.BinaryBodyHidesHost | crates/seamless-relay/src/ingress.rs:541 | a head that names a subdomain, and with one byte of body after it names none |
| Routing.LowerCaseIff | crates/seamless-relay/src/ingress.rs:553-557 | from a host name written in lower case, the subdomain comes back if and only if it and the base domain are in lower case |
| Routing.MixedCaseIsLost | crates/seamless-relay/src/tunnel.rs:850-852 | an accepted subdomain that a lower-case host name does not reach |
| Routing.FindRouteIff | crates/seamless-relay/src/ingress.rs:258-263 | the proxy route found is the first enabled one of the domain, and none is found only if there is none |
| Routing.LookupOrder | crates/seamless-relay/src/ingress.rs:255-363 | a request is proxied if and only if an enabled route has its domain; otherwise it reaches the tunnel its custom domain names, even if a subdomain would match too, and only without a custom domain the tunnel of its subdomain; it reaches no other |
| Routing.EarlyAnswers | crates/seamless-relay/src/ingress.rs:185-252 | a request is bad if and only if it has no host, a health check if and only if it has one and gets one of the two paths, and too large if and only if it is neither and announces more than a limit that is not zero |
| Routing.HealthCheckIff | crates/seamless-relay/src/ingress.rs:202-205 | a request line is a health check exactly for GET and the two paths |
| Routing.TooLargeIff | crates/seamless-relay/src/ingress.rs:233-235 | an announced length is too large if and only if there is a limit, the length exceeds it and fits 64 bits |
| Routing.PublishedNameRoutes | crates/seamless-relay/src/ingress.rs:255-363 | if no proxy route and no custom domain takes the name, a request for a published name reaches the entry registered under its subdomain if there is one, and otherwise none |
| Routing.KeysStayWellFormed | crates/seamless-relay/src/tunnel.rs:846-857 | in every run, every key that an HTTP handler holds has the form of a subdomain |
| Routing.PublishedUrlReachesPublisher | crates/seamless-relay/src/ingress.rs:348-363 | in every run of every configuration, a request for the URL a handler published reaches that handler's own entry if and only if the map still has it, and without expiry and termination always |
| Frames.LittleEndianRoundTrip | docs/PROTOCOL.md:24-27 | fixed-width little-endian integers come back |
| Frames.BigEndianRoundTrip | crates/seamless-common/src/lib.rs:69 | big-endian lengths come back |
| Frames.FrameBytes | docs/PROTOCOL.md:24-27 | the bytes of the frames with a text: variant, fields in order, lengths of eight bytes and codes of two, least significant first |
| Frames.RegisterBytes | crates/seamless-common/src/lib.rs:31-35 | the bytes of a registration: variant, version, a flag and the token, then the kind |
| Frames.KindBytes | crates/seamless-common/src/lib.rs:20-26 | the bytes of a tunnel kind |
| Frames.PingBytes | crates/seamless-common/src/lib.rs:42 | the bytes of a ping, in the frame and on the wire |
| Frames.RoundTrip | crates/seamless-common/src/lib.rs:28-45 | for every frame and tail, decoding the encoding gives back the frame and the tail |
| Frames.Canonical | crates/seamless-common/src/lib.rs:89 | bytes that decode to a frame start with the encoding of that frame |
| Frames.Stream.ReadExact | crates/seamless-common/src/lib.rs:76-82 | the buffer is filled with the next bytes in order, which leave the stream; at the end of the stream the rest is lost |
| Frames.Stream.WriteFrame | crates/seamless-common/src/lib.rs:59-73 | a frame that fits adds its length and body to the stream, any other leaves it unchanged and is reported with its size |
| Frames.WrittenIff | crates/seamless-common/src/lib.rs:63-67 | a frame is written if and only if its encoding has at most 65536 bytes; otherwise its size is reported, at most 2^32 - 1 |
| Frames.Stream.ReadFrame | crates/seamless-common/src/lib.rs:75-90 | the result and the remaining stream are those of the outcome function: a frame, end of stream, too large, cut off or undecodable |
| Frames.ReadFailureIff | crates/seamless-common/src/lib.rs:75-90 | end of stream if and only if fewer than four bytes are left; too large if and only if the length they announce exceeds 65536; cut off if and only if that many bytes do not follow; undecodable if and only if they do and start with no frame |
| Frames.LeftAfterFailure | crates/seamless-common/src/lib.rs:75-90 | a stream that ends within a frame is used up; a length that is too large leaves its body, and a body that is no frame leaves what follows it |
| Frames.FramesRoundTrip | crates/seamless-common/src/lib.rs:59-90 | every list of frames that fit, written and followed by any bytes, is read back and leaves exactly those bytes |
| Frames.FramesInjective | crates/seamless-common/src/lib.rs:59-90 | equal streams are equal lists of frames |
| Frames.ReadIff | crates/seamless-common/src/lib.rs:75-90 | a reader takes a frame and leaves a rest if and only if the stream is a length within the limit, the frame's encoding, padding that the length covers, and the rest |
| Utf8.DecodeEncoded | crates/seamless-relay/src/ingress.rs:541 | decoding undoes the encoding of every text |
| Utf8.DecodedIsEncoding | crates/seamless-relay/src/ingress.rs:541 | only encodings are decoded, so no text has a second form: section 3 of RFC 3629 |
| Cidr.MaskRoundsDown | crates/seamless-relay/src/denylist.rs:122-127 | masking an address with a prefix mask rounds it down to a multiple of the block size |
| Cidr.CoversIff | crates/seamless-relay/src/denylist.rs:73 | the mask test holds if and only if the address lies in the interval of the block |
| Cidr.NestedOrDisjoint | crates/seamless-relay/src/denylist.rs:122-127 | of two blocks with a common address, the longer prefix lies inside the other: section 3.1 of RFC 4632 |
| Cidr.BlockIsBlock | crates/seamless-relay/src/denylist.rs:120-127 | what is parsed is aligned to its size and holds the address it was written with |
| Cidr.ParsedIsBlock | crates/seamless-relay/src/main.rs:727-738 | everything either parser accepts is an aligned block |
| Cidr.ParseFormatted | crates/seamless-relay/src/denylist.rs:117-128 | both parsers read every address and prefix length in the usual notation as the block of that length around it |
| Cidr.FormattedCovers | crates/seamless-relay/src/denylist.rs:67-128 | the block read from four octets and a prefix length covers exactly the addresses that agree with the address of these octets after division by the block size |
| Cidr.LeadingOctetsDecide | crates/seamless-relay/src/denylist.rs:67-128 | for 8, 16, 24 and 32 bits that is equality of the leading octets |
| Cidr.ParseIpv4Iff | crates/seamless-relay/src/denylist.rs:121 | a text is read as an address if and only if it is its four octets in decimal with dots between them |
| Cidr.PrefixIs | crates/seamless-relay/src/denylist.rs:119 | a prefix length is read if and only if it is at most 32, also with a plus sign |
| Cidr.ParsersAgree | crates/seamless-relay/src/main.rs:727-738 | what the admin parser accepts, the deny list parser reads the same on the trimmed text |
| Cidr.ParseDenylistFile | crates/seamless-relay/src/denylist.rs:84-113 | the list is that of the lines that stand for a block, in order; a file that cannot be read gives none |
| Cidr.FileIsItsLines | crates/seamless-relay/src/denylist.rs:84-113 | the list of a file is that of its lines, whether or not the last one is ended |
| Cidr.EveryLineIsRead | crates/seamless-relay/src/denylist.rs:96-101 | a line stands for what its trimmed text is read as: comments and blank lines are no blocks in any case |
| Cidr.IpDenyList.Reload | crates/seamless-relay/src/denylist.rs:53-63 | the list is replaced by that of the file, also if that is empty; a list without a file stays |
| Cidr.IpDenyList.Denied | crates/seamless-relay/src/denylist.rs:67-74 | the search over the list answers whether some entry covers the IPv4 address |
| Cidr.EntriesFromLines | crates/seamless-relay/src/denylist.rs:95-111 | the list holds exactly the blocks that some line stands for |
| Cidr.DeniedIff | crates/seamless-relay/src/denylist.rs:67-111 | an address is denied if and only if it stands for an IPv4 address inside the interval of some line's block |
| Cidr.CarriedAddressDenied | crates/seamless-relay/src/denylist.rs:132-136 | the mapped and the compatible IPv6 form of an IPv4 address are denied if and only if the address is |
| Cidr.OtherAddressesNotDenied | crates/seamless-relay/src/denylist.rs:67-72 | no other IPv6 address is denied, and none is allowed by a list that is not empty |
| Cidr.TestsAgree | crates/seamless-relay/src/main.rs:743-755 | on IPv4 the allow list and the deny list tests agree for every list that is not empty, and disagree on the empty one |

## Left out

- Registry.OwnershipHolds: HTTP handlers without expiry and termination; HttpOwnership.HttpKeepsKeyIff and TcpOwnership.TcpKeepsKeyIff cover the rest.
- Caps.CapUnderRaces: the bound is stated for caps and overlaps whose sum fits the 32-bit count of the code.
- Caps.HigherCapExactIff: stated for runs in which the number of tunnels fits 32 bits, because the global check counts modulo 2^32.
- Routing.PublishedNameRoutes: leaves out what happens to the request at the entry, which may be paused or refuse by its bucket, and requests for the health page or with an oversized body, which are answered before.
- Routing.LowerCaseIff: lower case is that of ASCII; the Unicode part of `to_lowercase` is not modelled.
- AuditRuns.RotationConserves: writes of a line are whole; a line cut off by a full disk and files changed by other programs are not modelled.
- AuditRuns.LogHoldsLedger: days whose year does not fit 32 bits are excluded, because their dates repeat.
- CertScan.DaysUntilExpiry: starts from the decoded bytes; the PEM lines and their base64 are library work.
- Histogram.AlwaysAccounted: the conversion to microseconds does not saturate at 2^64, and NaN is not a real number.
- Frames.Stream.WriteFrame: the underlying write does not fail; reading stops only at the end of the stream.
- Expiry.ExpireIs: the cast is modelled for maximum ages below 2^63 seconds.
- AuditLog.NamesSortAsDates: years of other than four digits do not sort, as their lengths differ.
- TokenBucket.AcceptedIffRoom: rounding of the floating-point level is not modelled.
- Health.UnhealthyIff: the forced check of the admin interface, which writes the flag directly, is not part of the runs.
- The read loop of the ingress, its 64 KiB limit and its timeouts: tokio I/O around the modelled head functions.
- Reserved names, name prefixes and block lists at registration: each only refuses more names.
- Removal of backends and custom domains by the admin, proxy-route editing: no invariant is promised there.
- Seam transport, TLS, ACME orders, Cloudflare, webhooks, GeoIP: foreign libraries and network calls.
- Ring buffers, statistics history, log rendering, configuration merging, client back-off: simple enough to read.
- Byte copying between streams, accept loops and keepalive timers: in the registry they are the event that ends serving.
