# Chunked collective transfers of `rwbw.cpp`, modelled in Dafny

`rwbw.cpp` is an MPI benchmark that reads or writes one large shared file
from a group of ranks. The MPI calls hide a small piece of pure integer
logic, and this project models that logic and proves properties of it:

- **Chunk planner.** MPI passes a transfer's element count as a signed
  32-bit `int`. So each rank splits its buffer into gigabyte (2^30-byte)
  chunks. The count is `size / 2^30`, plus one when the bitmask
  `size & (2^30 - 1)` is non-zero (`Chunks`).
- **Round count.** An `MPI_Allreduce` with `MPI_MAX` turns the per-rank
  chunk counts into one shared round count (`Collectives.AllreduceMax`,
  `Transfer.Plan`).
- **Round loop.** `mpi_write_shared` and `mpi_read_shared` issue one
  transfer per round (`RoundLoop`). Their loops differ only in direction, so
  one model covers both. Each call is a `Request(cursor, length)` into the
  rank's buffer.
- **Offset scan.** `mpi_write_at_all` and `posix_read_shared` run an
  inclusive `MPI_Scan` with `MPI_SUM` over the sizes. They use its result
  directly as the file offset (`Collectives.Scan`, `Offsets`).

The MPI collectives are total functions over a `seq<nat>` of per-rank
values, indexed by rank. A group always has at least one rank. Sizes are
unbounded naturals. The `int` count bound is proved for the chunked
shared-pointer calls (`RoundLoop.RoundsBounded`). The single unchunked
`MPI_File_write_at_all` call has no such bound, and the model only shows
where its count overflows (`Transfer.WriteAtAllCountExceedsInt`). The `size_t`
and `MPI_INT64_T` bounds are stated for the configured run
(`Transfer.ConfiguredRunFits`).

Where the code departs from what its comments and call sites suggest, the
model follows the code:

- A zero-byte buffer needs 0 chunks, not at least one.
- A rank whose data runs out before the shared round count does not issue
  zero-length transfers. It re-issues its last `size`-byte request at the
  same cursor.
- The offset is the inclusive scan itself. The code never subtracts the
  rank's own size.

The last two are listed under Findings. Each has a corrected definition
next to the as-written one.

## Model

| member | source | states |
|---|---|---|
| Chunks.MaskTestIsRemainder | rwbw.cpp:56 | the test `size & (2^30 - 1)` equals `size % 2^30`, so it is non-zero exactly when the size is not a whole number of gigabytes (same test at line 147) |
| Chunks.GigabyteIsPow2 | rwbw.cpp:52 | the constant `1L << 30` is 2^30, the power of two whose low-bit mask the planner tests |
| Chunks.BitAndLowMask | rwbw.cpp:56 | masking any natural with 2^k - 1 keeps exactly its remainder modulo 2^k |
| Chunks.ChunkCountUnique | rwbw.cpp:52-56 | at most one count satisfies the ceiling characterisation, so a round-loop lemma stated for any such count speaks of the local chunk count |
| Chunks.LocalChunkCount | rwbw.cpp:52-56 | the local chunk count is `size / 2^30` plus one for a non-zero remainder. It is the ceiling of size / 2^30: the least n with size <= n * 2^30. It is 0 exactly for a zero-byte buffer and fits `MPI_INT64_T` for every `size_t` size (same code at lines 143-147) |
| Collectives.AllreduceMax | rwbw.cpp:116 | the all-reduced value is at least every rank's contribution and equals one of them, so it is their maximum (same call at line 200) |
| Transfer.Plan | rwbw.cpp:200 | the shared round count is at least every rank's local chunk count and equals some rank's count. The unit is 2^30 bytes, and unit * rounds covers every rank's buffer |
| Collectives.Scan | rwbw.cpp:277-278 | after the inclusive scan, each rank r holds the sum of the sizes of ranks 0..r (same scan at lines 292-293 and 306-307) |
| Collectives.ScanStep | rwbw.cpp:306-307 | consecutive ranks' scan results differ by the later rank's size |
| Collectives.ScanEnds | rwbw.cpp:306-307 | rank 0 receives its own size and the last rank receives the total of all sizes |
| Collectives.ScanMonotone | rwbw.cpp:306-307 | scan results are non-decreasing in rank |
| Collectives.ScanBounds | rwbw.cpp:306-307 | each rank's scan result lies between its own size and the total |
| Collectives.ScanUniform | rwbw.cpp:306-307 | with every rank holding s bytes, rank r receives (r + 1) * s |
| Collectives.SumUniform | rwbw.cpp:335 | with every rank holding s bytes, the total is the rank count times s |
| Collectives.ScanMinusOwn | rwbw.cpp:277-278 | a rank's scan result less its own size is the sum over the ranks before it |
| Offsets.Region | rwbw.cpp:277-280 | as written, rank r's region starts at the sum over ranks 0..r, has the rank's size as length, and starts between its own size and the total (also lines 306-315) |
| Offsets.RegionSkipsFileStart | rwbw.cpp:277-280 | as written, no rank's region contains byte 0 of the file when rank 0 has data |
| Offsets.RegionOverrunsTotal | rwbw.cpp:306-316 | as written, the last rank's region ends its own size past the total, so it reads past the end of a file of the total size |
| Offsets.RegionsOverlapWhenShrinking | rwbw.cpp:277-280 | as written, a rank holding fewer bytes than the rank before it, but not none, shares a byte with that rank's region |
| Offsets.RegionSingleByteExample | rwbw.cpp:306-312 | one rank with one byte seeks to offset 1 of a one-byte file |
| Offsets.ExclusiveRegion | rwbw.cpp:277-280 | corrected: the region starts at the sum over the ranks before r and ends where the as-written region starts |
| Offsets.ExclusiveRegionsTile | rwbw.cpp:277-280 | corrected regions lie end to end. Rank 0 starts at 0, each rank starts where the previous one ends, and the last ends at the total |
| Offsets.ExclusiveRegionsDisjoint | rwbw.cpp:277-280 | corrected regions of distinct ranks share no byte |
| Offsets.ExclusiveRegionsCover | rwbw.cpp:277-280 | every byte below the total lies in some rank's corrected region |
| Offsets.OwnerSearch | rwbw.cpp:277-280 | searching upward from a rank whose corrected region starts at or below a byte finds the rank whose region holds that byte |
| RoundLoop.RoundsFrom | rwbw.cpp:118-126 | the loop issues exactly one request per round |
| RoundLoop.RoundsBounded | rwbw.cpp:118-126 | no request asks for more than 2^30 bytes, which is below the `int` count limit 2^31 - 1, and every request stays inside the part of the buffer that remained (same loop at lines 202-210) |
| RoundLoop.IssueRounds | rwbw.cpp:202-210 | the loop, with remaining size, cursor and round index as in the source, issues the requests of the functional model: one per round, each at most 2^30 bytes and inside the buffer |
| RoundLoop.Gather | rwbw.cpp:118-126 | the bytes a list of requests moves number exactly the sum of their lengths |
| RoundLoop.TilesIndexed | rwbw.cpp:118-126 | tiling requests are non-empty, start at the cursor, each begins where the previous one ends, the last ends `size` bytes on, and their lengths add up to `size` |
| RoundLoop.TilesGather | rwbw.cpp:118-126 | tiling requests move exactly the slice of the buffer they tile |
| RoundLoop.ExactRoundsTile | rwbw.cpp:118-126 | running the rank's own chunk count of rounds yields requests that tile its remaining buffer |
| RoundLoop.ExactRoundsMoveBuffer | rwbw.cpp:118-126 | when the round count is the rank's own chunk count, the requests start at cursor 0 and are contiguous. Their lengths sum to the buffer size, and their slices concatenate to the whole buffer |
| RoundLoop.SettledRoundsRepeat | rwbw.cpp:123-125 | once at most 2^30 bytes remain, every further round repeats the request with the same cursor and the same length |
| RoundLoop.RoundsPrefix | rwbw.cpp:118-126 | the first m rounds of a longer run are the requests of an m-round run |
| RoundLoop.SurplusRoundsRepeatLast | rwbw.cpp:207-209 | rounds beyond the rank's own chunk count repeat its last request, and a rank with no data issues only empty requests at its cursor |
| RoundLoop.SurplusRoundsOverTransfer | rwbw.cpp:123-125 | as written, a rank with data whose loop runs longer than its own chunk count asks for more bytes in total than its buffer holds |
| RoundLoop.SurplusRoundsExample | rwbw.cpp:123-125 | a one-byte buffer run for two rounds requests its byte twice at cursor 0, two bytes in total |
| RoundLoop.ZeroFillRoundsFrom | rwbw.cpp:118-126 | corrected loop: it still issues exactly one request per round |
| RoundLoop.ZeroFillBounded | rwbw.cpp:118-126 | corrected loop: no request exceeds 2^30 bytes or leaves the remaining buffer |
| RoundLoop.ZeroFillEmpty | rwbw.cpp:123-125 | corrected loop with nothing left: every request is empty at the cursor |
| RoundLoop.ZeroFillGatherEmpty | rwbw.cpp:123-125 | corrected loop with nothing left: the requests move no bytes |
| RoundLoop.ZeroFillSplit | rwbw.cpp:118-126 | the corrected loop issues the as-written requests for the rank's own chunk count, then empty requests at the end of its data |
| RoundLoop.ZeroFillSurplusEmpty | rwbw.cpp:123-125 | corrected loop: every round past the rank's own chunk count is an empty request at the end of its data |
| RoundLoop.ZeroFillTotal | rwbw.cpp:118-126 | corrected loop: for any sufficient round count, the lengths sum to exactly `size` |
| RoundLoop.ZeroFillGather | rwbw.cpp:118-126 | corrected loop: for any sufficient round count, the slices concatenate to exactly the buffer |
| RoundLoop.ZeroFillMovesExactly | rwbw.cpp:118-126 | corrected loop, all of the above: empty surplus rounds, total `size`, and exactly the buffer moved |
| Transfer.SharedTransfer | rwbw.cpp:200-210 | every rank issues the same number of calls, the shared round count, whatever its own size |
| Transfer.SharedTransferBounded | rwbw.cpp:202-210 | no call of any rank asks for more than 2^30 bytes, which is below 2^31 - 1, or for bytes outside that rank's buffer |
| Transfer.FullestRankMovesBuffer | rwbw.cpp:200-210 | a rank whose chunk count is the round count moves exactly its buffer, in round order |
| Transfer.ShorterRankRepeats | rwbw.cpp:200-210 | as written, a rank with data but fewer chunks than the round count repeats its last request in each surplus round and over-asks |
| Transfer.ShorterRankExample | rwbw.cpp:200-210 | ranks holding 2^31 bytes and 1 byte run two rounds, and the second rank requests its byte twice at cursor 0 |
| Transfer.ZeroFillTransfer | rwbw.cpp:200-210 | corrected transfer: every rank still issues the shared round count of calls |
| Transfer.ZeroFillTransferMovesBuffer | rwbw.cpp:200-210 | corrected transfer: every rank, whatever its size, moves exactly its buffer within the per-call bound, and its surplus calls are empty |
| Transfer.SizePerCore | rwbw.cpp:335 | `size_per_core` is the floor of total / cores: `size_per_core * cores <= total < size_per_core * cores + cores` |
| Transfer.EqualSplitPlan | rwbw.cpp:335 | with every rank holding `size_per_core`, the round count equals each rank's own chunk count, and the ranks hold `cores * size_per_core <= total` bytes |
| Transfer.EqualSplitMovesBuffer | rwbw.cpp:351 | in the equal split every rank moves exactly its buffer, with no repeated request |
| Transfer.EqualSplitOffsets | rwbw.cpp:335 | with equal sizes s, the inclusive-scan offset of rank r is (r + 1) * s, and the corrected offset is r * s |
| Transfer.ConfiguredRunFits | rwbw.cpp:30 | for 2^36 bytes over any rank count, the round count is at most 64 and every scan region ends below 2^63 |
| Transfer.WriteAtAllCountExceedsInt | rwbw.cpp:280 | in the configured 2^36-byte run with at most 32 ranks, every rank's region length, which line 280 passes whole as the `int` count, exceeds 2^31 - 1 |
| Transfer.SingleRankTwoGigabytes | rwbw.cpp:143-147 | one rank with 2^31 bytes runs two rounds of 2^30 bytes each, at cursors 0 and 2^30 |
| Transfer.FourRankOffsets | rwbw.cpp:306-312 | sizes 0, 500, 1024, 3000 scan to 0, 500, 1524, 4524. The last rank reads 3000 bytes from 4524 in a file of 4524 bytes, where the corrected offset is 1524 |

## Left out

- MPI bootstrap, rank and size queries, barriers, `MPI_Wtime` timing and `sync()` (rwbw.cpp:328-333, 343-356, 365-368). They coordinate processes and read clocks, and their only effect is ordering.
- Bandwidth computation and printing (rwbw.cpp:357-362). It is floating-point reporting.
- The `MPI_Info` hint strings and the info dump (rwbw.cpp:58-107, 149-192). The hints pass verbatim to the MPI library, and the dump is output only.
- File open, close and truncate, and the actual `MPI_File_*_shared`, `MPI_File_write_at_all`, `fopen`, `fseeko`, `fread` and `fwrite` calls, with their error exits (rwbw.cpp:90, 110, 128, 175, 212, 273-282, 295-299, 309-323). These are foreign I/O. A transfer is represented only by its `(cursor, length)` request. The file's contents and the order in which the library serializes ranks on the shared pointer are not modelled.
- `posix_write` (rwbw.cpp:286-300). Its scan result is the same `Scan` and is never used. The rest is per-rank file I/O.
- The `MPI_CHECK` macro (rwbw.cpp:14-27) and buffer allocation (rwbw.cpp:340, 366). Every modelled collective is total, so there is no failure path to model.
- The commented-out functions (rwbw.cpp:215-265). They are dead code.
- Concurrency. The reduction and the scan are pure functions over the ranks' values.
- Transfer direction. Write and read issue the same requests, so `SharedTransfer` models both loops.
- Offsets.Region: line 280 passes the whole `size_t` size to `MPI_File_write_at_all` as its `int` count, and the conversion to `int` is not modelled. The region's length is the full size. `Transfer.WriteAtAllCountExceedsInt` shows that in the configured run with at most 32 ranks this length does not fit the `int` count.
- RoundLoop.IssueRounds: the loop index is a 32-bit `int` in the source and unbounded here. An overflow would need a round count above 2^31 - 1, that is a buffer above about 2^61 bytes. `ConfiguredRunFits` shows the configured run needs at most 64 rounds.
- Collectives.Scan: sums are unbounded naturals. The source sums `size_t` values as `MPI_INT64_T`, which overflows only past 2^63 bytes in total. `ConfiguredRunFits` shows the configured run stays below that.

## Findings

| source | as written | input that shows it | evidently intended | confidence | as-written member | corrected member |
|---|---|---|---|---|---|---|
| rwbw.cpp:277-280 | the inclusive `MPI_Scan` result is used directly as the rank's file offset. The same happens at lines 306-312 | one rank with 1 byte seeks to offset 1 of a 1-byte file and reads past its end. Sizes 0, 500, 1024, 3000 put the last rank at 4524 in a 4524-byte file | subtract the rank's own size, giving the exclusive prefix sum, so the regions tile `[0, total)` | high, not executed | Offsets.RegionOverrunsTotal | Offsets.ExclusiveRegionsTile |
| rwbw.cpp:123-125 | once at most 2^30 bytes remain, every further round transfers the same `size` bytes at the same cursor again | ranks holding 2^31 bytes and 1 byte: the second rank requests its byte twice | move the remainder once, then issue zero-length calls for the surplus rounds | medium, not executed: `main` gives every rank the same size, so surplus rounds never occur there | RoundLoop.SurplusRoundsOverTransfer | RoundLoop.ZeroFillMovesExactly |

`SharedTransfer` and `Region` keep the as-written behaviour, since that is what the program does. `ZeroFillTransfer` and `ExclusiveRegion` are the corrected definitions. The lemmas above prove the intended properties of them: exact coverage of each rank's buffer, and regions that tile the file.
