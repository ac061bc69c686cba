# redis-util in Dafny

A model of the core of tckz/redis-util, a set of Go command-line tools that
bulk-load lines of text into Redis (`set`, `hset`, `hmset`, `zadd`) or dump
keys from it (`get`, `pttl`, `hgetall`).

## What is modelled

The model covers the shared package and the per-line workers of the tools.

**Split reader.** One input file is divided into byte ranges. Each range has
its own reader, and together they deliver every line of the file exactly once:

- `CalcSplitPoint` computes the ranges.
- `ReadRange` is the per-range closure inside `LoadSeeker`.

**Output shards.** Paths and compression:

- `GetCompressionType` maps a configuration name to a compression kind.
- `StartWriters` names the output shards `out000`, `out001`, … plus an extension.
- `DecorateWriter` and `DecorateReader` choose the compressor or decompressor.
- `Cleanups` runs its releases newest-first. A shard therefore flushes its gzip
  writer before its file is closed.

**Results.** `Result` is the per-worker tally. Go passes it by value, but its
error table is a map shared by reference. The model keeps that split:

- `Result` is a datatype.
- Its table is an `ErrorCounts` object that every copy shares.

Two consequences of the Go code carry over:

- `AddError`'s increment of `BadCount` lands on a copy and is lost.
- `Combine` merges into the receiver's own table.

**Tool workers.** For each tool, three pieces:

- A pure per-line function (`SetStep`, `ZaddStep`, …) that says which errors a
  line records, which Redis commands it issues and which output lines it
  produces.
- A method mirroring the loop body (`SetLine`, …), proved equal to it.
- A worker method over all lines (`SetWorker`, …), proved equal to the fold of
  the per-line function.

**Startup.** The startup option checks of `main` and the fold that combines the
workers' results are modelled too.

### Modelling choices

- Files and lines are `string`s, one character per byte.
- Go integers are unbounded `nat`/`int`.
- Everything outside the program is a function-typed parameter:
  - Redis commands are `redis(i, command)` or `get(i, key)`, answered per line
    index `i`;
  - JSON decoding is `decodes(text)` and JSON encoding is `encode(hash)`;
  - float parsing is `parse(text)`;
  - the clock is `now(i)`.

  Because of the line index, answers may differ from line to line.
- A Go `(value, error)` pair is `Reply<T>`, and an `error` alone is `Outcome`.
- Go panics and `log.Fatalf` are modelled as error values:
  - `Err` for `LoadSeeker`;
  - `Aborted` for `OpenShard`;
  - `Fatal` for `StartupCheck`.

### Where the code defeats its evident intent

The field name and the `r.BadCount++` in `AddError` (result.go:10) show that
`BadCount` is meant to count bad lines. It stays zero because `AddError` has a
value receiver, so the increment lands on a copy. The model follows the code:
the workers' contracts state `BadCount == 0`, and `SumBadZero` states that the
combined total is zero too.

## Model

| member | source | states |
|---|---|---|
| Compression.GetCompressionType | compression_type.go:19-32 | the kind is never Unknown; it is gzip exactly for "gzip" and "gz"; the extension is ".gz" exactly for gzip and "" exactly for none |
| Compression.UnknownNamesFallBack | compression_type.go:26-29 | a name outside the four table keys selects no compression |
| Compression.GetCompressionTypeExamples | compression_type.go:19-24 | the four table entries, and case-sensitive fallback for "GZIP" and "bzip2" |
| SplitReading.BlockSize | split_reader.go:57-64 | the block size is size/splitCount raised to the minimum block size (1024 when MinBlockSize is 0); it is at least both and equals one of them |
| SplitReading.SplitPointsShape | split_reader.go:66-81 | for positive count and size the ranges are contiguous, non-empty and cover 0..size-1; there are at most splitCount of them; all but the last span exactly one block; there are fewer than splitCount only when the last one starts within a block of the end |
| SplitReading.SplitPointsBegins | split_reader.go:67-78 | range j begins at offset j * blockSize |
| SplitReading.CalcSplitPoint | split_reader.go:48-82 | the loop returns SplitPoints' ranges; the error is "splitCount must > 0" or "size must > 0" exactly when the count or the size is not positive; otherwise the ranges form a plan of at most splitCount ranges |
| SplitReading.CalcSplitPointOneRange | split_reader_test.go:86-92 | 1 range over 100 bytes is [0,99] |
| SplitReading.CalcSplitPointTwoRanges | split_reader_test.go:93-100 | 2 ranges over 100 bytes are [0,49] and [50,99] |
| SplitReading.CalcSplitPointEightRanges | split_reader_test.go:101-114 | 8 ranges over 100 bytes are 12 bytes wide, and the last one is stretched to byte 99 |
| SplitReading.CalcSplitPointRejects | split_reader_test.go:115-119 | a split count of 0, or a size of 0, gives the corresponding error message |
| SplitReading.CalcSplitPointTinyFile | split_reader_test.go:120-137 | 3 or 5 ranges over 3 bytes give three one-byte ranges |
| SplitReading.CalcSplitPointMinimumBlock | split_reader_test.go:166-172 | with MinBlockSize 0, 512 bytes fit in one default-size block |
| SplitReading.ReadString | split_reader.go:136-141 | the text up to and including the next line feed, or the rest of the file together with EOF when there is none |
| SplitReading.ReadRange | split_reader.go:108-161 | the range reader emits exactly RangeOutput's lines for its range, and its count is their number |
| SplitReading.NoTrailingFragment | split_reader.go:136-138 | text after the last line feed is never delivered |
| SplitReading.PlanCoverage | split_reader.go:143-157 | over any contiguous plan of ranges, the readers' lines, range after range, are exactly the file's lines in order; each line is emitted by the range its start falls in and dropped by the next |
| SplitReading.FileLinesCount | split_reader_test.go:58-68 | a file has as many lines as line feeds |
| SplitReading.SplitCoverage | split_reader.go:99-183 | for every split count and MinBlockSize, the ranges of a non-empty file deliver each of its lines exactly once, and their counts sum to its number of line feeds |
| SplitReading.LoadSeeker | split_reader.go:99-184 | it fails with CalcSplitPoint's message exactly when count or size is not positive; otherwise the lines are all ranges' output and the count is their number; with the true file size, the lines are the file's lines as a multiset and the count is its number of line feeds |
| SplitReading.LoadFile | split_reader.go:85-97 | load with the file's own size: fails exactly for count 0 or an empty file; otherwise it delivers the file's lines as a multiset and counts its line feeds |
| SplitReading.DecorateReader | split_reader.go:35-46 | gunzip exactly for a ".gz" suffix, bunzip2 exactly for ".bz2", and pass-through otherwise |
| SplitReading.DecorateWriter | split_reader.go:23-33 | it fails exactly for an unknown kind; none passes the writer through with a no-op release; gzip wraps the writer and its release closes the gzip writer |
| Text.SplitNCount | cmd/set/main.go:120 | strings.SplitN into n returns min(n, separators + 1) pieces |
| Text.JoinSplitN | cmd/hmset/main.go:107 | the SplitN pieces, joined by the separator, give back the line |
| Text.TrimEOLIsTrim | split_reader.go:152 | TrimRight(s, "\r\n") is a prefix that does not end in CR or LF, and only CR and LF were removed |
| Text.ParseInt64 | cmd/hmset/main.go:127-131 | a successful result lies in the int64 range; an error carries strconv's syntax or range message |
| Text.ScanDigitsValue | cmd/hmset/main.go:127 | the digit loop yields the digits' value when it fits in 64 bits, and a range error otherwise |
| Text.ParseInt64Value | cmd/hmset/main.go:127-131 | parsing succeeds exactly for an optional sign followed by digits whose signed value lies in int64, and then returns that value (negated after '-') |
| Text.ParseInt64RoundTrip | cmd/hmset/main.go:127 | an int64 printed in decimal parses back to itself |
| Text.ZeroPadValue | writer.go:13 | zero-padding a decimal number leaves only digits, and their value is still the number |
| Results.ErrorCounts.Add | result.go:11 | adds n to the entry of k, reading an absent key as zero |
| Results.NewResult | result.go:28-32 | zero counters and a fresh, empty table |
| Results.AddError | result.go:9-12 | the shared table gains one occurrence of the message; the BadCount increment is lost, so nothing else changes |
| Results.Combine | result.go:14-26 | the answer sums both counters and shares the receiver's table; that table becomes the key-wise sum of both tables, also when both results share one table; the other table is unchanged |
| Results.BumpEntry | result.go:11 | one more occurrence of the key and no change for any other key |
| Results.MergeCommutes | result.go:21-23 | combining tables does not depend on the order |
| Results.MergeAssociates | result.go:21-23 | combining is associative, so the order of worker results does not matter |
| Results.MergeEmpty | result.go:28-32 | a new result's empty table is the identity of combining |
| Results.RecordEntry | result.go:11 | after recording messages, each message's entry has grown by its number of occurrences |
| Results.TallyEntry | result.go:11 | a tally counts each message exactly as often as it occurs |
| Results.RecordMerge | result.go:21-23 | recording messages into a table equals merging the table with their tally |
| Results.TallyConcat | result.go:14-26 | the tally of two message runs is the combination of their tallies |
| Cleanup.Reverse | cleanup.go:13-17 | the call order has as many entries as the list |
| Cleanup.ReverseSnoc | cleanup.go:13-17 | the function added last is called first |
| Cleanup.ReverseIndex | cleanup.go:13-17 | call k is the function registered k places from the end |
| Cleanup.ReverseMultiset | cleanup.go:13-17 | every registered function is called exactly as often as registered |
| Cleanup.ReverseReverse | cleanup.go:13-17 | reversing the call order gives the registration order back |
| Cleanup.ReverseCons | cleanup.go:13-17 | the function registered first is called last |
| Cleanup.Cleanups.Add | cleanup.go:9-11 | appends the function after those registered before |
| Cleanup.Cleanups.Do | cleanup.go:13-17 | the calls are the registered functions newest-first, and the list is left as it was |
| Cleanup.CleanupNone | cleanup_test.go:9-16 | an empty list calls nothing |
| Cleanup.CleanupOne | cleanup_test.go:18-29 | one function is called once |
| Cleanup.CleanupThree | cleanup_test.go:31-55 | three functions are called call3, call2, call1 |
| Cleanup.CleanupTwice | cleanup.go:13-17 | running the list twice repeats every call, since Do does not clear it |
| FlagStrSlice.StrSlice.Set | flag_str_slice.go:13-16 | appends the value after the earlier ones and never fails; the printed text becomes the old text, ", " and the value, or just the value for the first one |
| FlagStrSlice.StrSlice.String | flag_str_slice.go:9-11 | prints "" for no values; otherwise the text begins with the first value and ends with the last |
| FlagStrSlice.JoinEnds | flag_str_slice.go:9-11 | a join with any separator begins with its first part and ends with its last part |
| FlagStrSlice.JoinAppend | flag_str_slice.go:9-16 | the printed text after one more value is the earlier text, ", " and the new value |
| FlagStrSlice.JoinShort | flag_str_slice.go:9-11 | no values print as "", and one value prints as itself |
| FlagStrSlice.SetTwice | flag_str_slice.go:9-16 | two values print as "h1, h2" |
| Writer.ShardPathShape | writer.go:13-21 | a shard path is the prefix, then at least three decimal digits whose value is the shard index, then the extension |
| Writer.ShardPathsDistinct | writer.go:12-21 | different shard indices give different paths |
| Writer.ShardPathExamples | writer.go:13-21 | shard 7 with gzip is "out-007.gz", and shard 1234 without compression is "out-1234" |
| Writer.OpenShard | writer.go:22-34 | a known kind opens the shard with a fresh list: the file's close, then the decorator's release; an unknown kind runs the close and aborts with DecorateWriter's error |
| Writer.StartWriters | writer.go:10-47 | exactly outSplit shards, shard i at ShardPath(out, i), each with its own cleanup list of the file's close followed by the decorator's release |
| Writer.ReleaseOrder | writer.go:27-39 | a shard releases its decorator first and closes its file last; for gzip, the gzip writer is closed before the file |
| Writer.RunShard | writer.go:36-44 | the shard writes each record followed by a line feed, in order, then releases its list newest-first |
| Writer.FramedCount | writer.go:41-43 | the output has one line feed per record, plus those inside the records |
| Writer.FramedLines | writer.go:41-43 | reading a shard's output back line by line gives its records, when no record holds a line feed or ends in CR |
| Writer.GzipShardReleases | writer.go:27-39 | a gzip shard closes the gzip writer, then the file |
| Workers.DefaultNodes | cmd/get/main.go:44-46 | the node list is never empty, and the given nodes are kept when there are any |
| Workers.RequireFiles | cmd/get/main.go:40-42 | it fails exactly when no file is given |
| Workers.StartupCheck | cmd/get/main.go:40-58 | the tool runs exactly when --version is off, the input check passes, and --in-split, --out-split (when the tool has one) and --worker are at least 1; the first failing check's message is fatal, each check with its own message; a run uses the default nodes |
| Workers.QuotNonNegative | cmd/get/main.go:131 | for a non-negative duration, dividing by a millisecond rounds down |
| Workers.QuotNegative | cmd/get/main.go:131 | for a negative duration, Go's division rounds toward zero, not down |
| Workers.SumBadZero | cmd/get/main.go:100-101 | the printed Bad total is zero, because every worker's BadCount is |
| Workers.Gather | cmd/get/main.go:90-94 | folding Combine over the workers' results sums their lines and bad counts and merges all their tables |
| SetCmd.SetStepSplits | cmd/set/main.go:119-130 | a line without a tab records "Number of tokens != 2" and issues nothing; any other line SETs the tab-free text before the first tab to everything after it; at most one error per line |
| SetCmd.SetFailureRecorded | cmd/set/main.go:126-130 | a failing SET records exactly the server's message |
| SetCmd.SetLine | cmd/set/main.go:113-131 | the loop body records the step's errors in the shared table and issues its commands |
| SetCmd.SetWorker | cmd/set/main.go:104-139 | Lines counts every line; the table is the tally of all lines' errors in order; BadCount is 0; the commands are all lines' commands |
| SetCmd.RandomLineStored | cmd/set/main.go:62-64 | a generated line SETs key prefix+uuid to the uuid |
| SetCmd.SetInput | cmd/set/main.go:39-41 | it fails exactly when there are no files and no random lines |
| HsetCmd.HsetStepChecks | cmd/hset/main.go:115-133 | HSET is issued exactly for a line with a tab whose text after the first tab decodes; missing tab and bad JSON record their messages; the key is tab-free and key+tab+JSON is the line; once HSET is issued, a failure records exactly its message and a success records nothing |
| HsetCmd.HsetLine | cmd/hset/main.go:109-134 | the loop body records the step's errors and issues its commands |
| HsetCmd.HsetWorker | cmd/hset/main.go:100-142 | Lines counts every line; the table is the tally of all errors; BadCount is 0; the commands are all lines' commands |
| HmsetCmd.ThreeFields | cmd/hmset/main.go:106-111 | a line with two tabs or more has three fields: a tab-free key, a tab-free JSON text, and the rest; they rejoin to the line |
| HmsetCmd.ThreeFieldsCount | cmd/hmset/main.go:107-108 | SplitN gives three fields exactly when the line has at least two tabs |
| HmsetCmd.HmsetStepChecks | cmd/hmset/main.go:106-124 | HMSET is issued exactly when there are three fields and the middle one decodes; otherwise "Number of tokens != 3", or "Invalid json" for three fields whose middle one does not decode, is recorded; at most two commands and one error per line |
| HmsetCmd.HmsetExpiry | cmd/hmset/main.go:120-139 | after a failing HMSET nothing more is issued; "-1" issues no PEXPIRE; an unparsable TTL records the parse error although the hash is stored; otherwise PEXPIRE follows with that many milliseconds, the value Text.ParseInt64Value gives, and a PEXPIRE failure records exactly its message while a success records nothing |
| HmsetCmd.HmsetLine | cmd/hmset/main.go:100-140 | the loop body records the step's errors and issues its commands |
| HmsetCmd.HmsetWorker | cmd/hmset/main.go:91-149 | Lines counts every line; the table is the tally of all errors; BadCount is 0; the commands are all lines' commands |
| GetCmd.GetStepOutcome | cmd/get/main.go:119-138 | a key yields one output line exactly when GET and PTTL both succeed, and otherwise the failing command's message; a failing GET skips PTTL |
| GetCmd.GetOutputFields | cmd/get/main.go:134-138 | with tab-free keys and values, an output line splits back into value and milliseconds, or key, value and milliseconds |
| GetCmd.MillisTruncates | cmd/get/main.go:131-132 | the printed TTL is the nanosecond TTL divided by a million, rounded toward zero |
| GetCmd.GetLine | cmd/get/main.go:113-139 | the loop body records the step's errors, issues its commands and sends its output |
| GetCmd.GetWorker | cmd/get/main.go:104-147 | Lines counts every key; the table is the tally of all errors; BadCount is 0; the commands and the output are all keys' in order |
| PttlCmd.PttlStepOutcome | cmd/pttl/main.go:131-146 | a failing PTTL records its message, and a missing key (-2 ms) records "Key does not exist", both without output; otherwise one line "key TAB expiry", where expiry is "-1" for a negative TTL and the expiry instant otherwise |
| PttlCmd.ExpireAtValue | cmd/pttl/main.go:140-144 | the printed expiry is now+TTL in whole milliseconds, rounded down |
| PttlCmd.PttlOutputFields | cmd/pttl/main.go:146 | with a tab-free key, an output line splits back into key and expiry |
| PttlCmd.PttlLine | cmd/pttl/main.go:125-147 | the loop body records the step's errors, issues its command and sends its output |
| PttlCmd.PttlWorker | cmd/pttl/main.go:116-154 | Lines counts every key; the table is the tally of all errors; BadCount is 0; the commands and the output are all keys' in order |
| HgetallCmd.HgetallStepOutcome | cmd/hgetall/main.go:129-149 | a failing HGETALL records its message, and an empty hash records "Key does not exist", both without output; a non-empty hash yields one line: its JSON alone, or after the key and a tab |
| HgetallCmd.HgetallOutputFields | cmd/hgetall/main.go:147 | with a tab-free key, an output line splits at its first tab into the key and the JSON |
| HgetallCmd.HgetallLine | cmd/hgetall/main.go:123-150 | the loop body records the step's errors, issues its command and sends its output |
| HgetallCmd.HgetallWorker | cmd/hgetall/main.go:114-158 | Lines counts every key; the table is the tally of all errors; BadCount is 0; the commands and the output are all keys' in order |
| ZaddCmd.PairsNext | cmd/zadd/main.go:145-155 | each pair either appends its member with the parsed score after the earlier ones, or records the parse error and drops only that pair |
| ZaddCmd.PairsAccount | cmd/zadd/main.go:145-155 | every score/member pair becomes either a member or an error |
| ZaddCmd.PairsInOrder | cmd/zadd/main.go:145-155 | when every score parses there are no errors, and member k is token 2k+2 with the score of token 2k+1 |
| ZaddCmd.PairsFromTokens | cmd/zadd/main.go:145-155 | every member is a member token, with the score its preceding token parses to |
| ZaddCmd.ZaddStepChecks | cmd/zadd/main.go:133-160 | ZADD is skipped exactly when the token count is below 3 or even, and then "Number of tokens = n" is recorded; otherwise one ZADD goes to the key with the parsed pairs, even if none parsed; the errors are exactly the bad scores' messages in order, followed by ZADD's message when it fails |
| ZaddCmd.ZaddKey | cmd/zadd/main.go:133-156 | ZADD's key is the tab-free text before the line's first tab |
| ZaddCmd.AddPairs | cmd/zadd/main.go:144-155 | the inner loop builds exactly Pairs' member list and records Pairs' parse errors in order |
| ZaddCmd.ZaddLine | cmd/zadd/main.go:126-161 | the loop body records the step's errors and issues its command |
| ZaddCmd.ZaddWorker | cmd/zadd/main.go:116-168 | Lines counts every line; the table is the tally of all errors; BadCount is 0; the commands are all lines' commands |
| ZaddCmd.RandomLineAccepted | cmd/zadd/main.go:66-70 | a generated line "key TAB score TAB prefix+member" adds that one member with its parsed score |
| ZaddCmd.ZaddInput | cmd/zadd/main.go:38-46 | with --random the key must be given; otherwise files must be, each with its own message |

## Left out

- Goroutines and channels are not modelled.
  - Workers, file loaders and shard writers run concurrently in the source. The model runs one worker over the lines it receives.
  - Which worker gets which line, and which shard writes which record, is nondeterministic. The model describes one worker's lines and one shard's records.
- `set` has a defect, stated here without a model: its `main` starts `set(...)` but never sends the result on `chResult`, so the collection loop (cmd/set/main.go:85-97) waits forever. SetWorker models the worker's result as if it were returned.
- The `lineCount` total is updated by a goroutine without synchronisation; that race is not modelled.
- Progress logging (`logStep`, the `%100000` messages, elapsed times) and the final summary line are left out: they are output whose format does not affect the data.
- The range reader's `lc%logStep` (split_reader.go:149) panics with a division by zero when `logStep` is 0. That error path is not modelled; every caller passes 100000.
- Files and the OS are not modelled:
  - os.Stat, os.Open, Seek, os.Create;
  - MkdirAll and its error panics;
  - the range reader's panic on a read error other than EOF (split_reader.go:139-141); ReadString reads from a string and cannot fail any other way;
  - Close errors.

  A file is its contents (`string`); a created file is the sink `File(path)`.
- gzip and bzip2 coding are not modelled. DecorateReader and DecorateWriter return which coder they would use. gzip.NewReader's header error is not modelled.
- Redis, JSON, ParseFloat, UUID, rand and the clock become oracle parameters. `json.Marshal`'s panic on failure cannot happen for a map of strings, and is not modelled.
- Random-mode input generation only models the line formats (SetCmd.RandomLine, ZaddCmd.RandomLine). The generator loops, and `%f` float formatting, are not modelled.
- Flag parsing, the --version output and the StrSlice's registration with the flag package are left out. StartupCheck takes the parsed values.
- cmd/scan and cmd/del, and go_redis.go's client construction, are not part of this model.
- StartupCheck: the order of the default-node assignment relative to the other checks is not represented. It has no observable effect.
- Integer widths are unbounded in the model:
  - The counters are `uint64` in Go.
  - `int64` overflow of `now + d` in pttl and of `time.Millisecond * time.Duration(i)` in hmset are not modelled.
  - CalcSplitPoint's `int64` offsets near 2^63 are not modelled.
  - MinBlockSize is a `nat`: negative values are not modelled.
- Text.ParseInt64 accepts an optional sign and decimal digits, the decimal subset of strconv.ParseInt with base 10. Its error message quotes the input. The quoting escapes only the double quote, backslash, tab, CR and LF, not the other non-printable characters strconv.Quote escapes.
- PttlCmd.ExpireAtValue: the printed expiry is proved to round down only when now+TTL is non-negative. Before 1970 Go's division rounds toward zero, which MillisTruncates states for `get`.
- SplitReading.LoadSeeker: the coverage and count properties are stated when the size it is given equals the file's length. A stale size is modelled but not characterised.
