# one-billion-rows, modelled in Dafny

This project models `src/main.rs` of a "one billion row challenge" program. The program reads lines of the form `city;temperature` and reports, for each city, the minimum, maximum and mean temperature, in city order. Four pieces are modelled:

- **The chunked line scanner** `fast_read_lines`. It reads the file in chunks of up to 2,000,000 bytes and splits each chunk on the byte `0x0A`. A line cut by a chunk boundary is carried in a 100-byte overflow buffer and completed from the head of the next chunk.
  - `Scanner.FastReadLines` is imperative. A `LineScanner` class holds `overflow_buffer` as an `array<byte>` together with `use_overflow`, `overflow_len`, `line_count` and `overflow_count`.
  - The scan is proved equal to a chunk-level specification, `Scanner.Run`.
  - `Run` is in turn related to a reference split of the bytes received (`LineSplit.Lines` / `Tail` / `Join`).
  - The results: the lines emitted are always the first lines of the input, in order and unaltered. When the loop ends normally they are all of them. It ends normally exactly when every pending tail fits the buffer and finds its EOL in the next chunk.
- **`HackFloat`**, a temperature held as `(digit: isize, decimal: usize)`. The model covers its hand-written `Ord`, its derived `PartialOrd`, and `from_str`, which cuts the text two characters from the end. `from_str` is modelled with the integer parses it relies on.
- **`parse_line`'s split**: `line.split(";").next_tuple()`, also written inline in both aggregation loops.
- **The per-city aggregation loops** `single_threaded_hacked_floats` and `single_threaded`. Each builds a map from city to `{min, max, mean, len}`, then lists the entries sorted by key.

The `read` calls are given as a sequence of results (`Data(bytes)` or `ReadError`). Once the sequence is used up, every further read returns zero bytes. Lines for the aggregation loops are given as a sequence of strings, and the `f64` parse is a function parameter over `real`. `isize` and `usize` are 64 bits wide.

## Model

| member | source | states |
|---|---|---|
| LineSplit.FirstEol | src/main.rs:220-223 | the index found is an EOL, and no EOL comes before it |
| LineSplit.LinesCons | src/main.rs:232-235 | an EOL after EOL-free bytes `x` ends exactly the line `x`; the split goes on after it |
| LineSplit.TailEolFree | src/main.rs:238-241 | the unterminated tail of any byte string holds no EOL |
| LineSplit.JoinLines | src/main.rs:230-237 | the lines of `s`, each with its EOL restored, followed by the tail, give back `s`; no line holds an EOL |
| LineSplit.LinesJoin | src/main.rs:230-237 | the split is unique: EOL-free lines joined with EOLs, followed by an EOL-free tail, split back into those lines and that tail |
| LineSplit.LinesAppend | src/main.rs:206-248 | cutting the input in two changes nothing: the lines of `a + b` are those of `a`, then those that `a`'s tail followed by `b` completes |
| LineSplit.LinesSnoc | src/main.rs:230-243 | one more byte: an EOL turns the pending tail into a line and empties it, and any other byte extends the tail |
| Scanner.FindEol | src/main.rs:220-223 | found exactly when the chunk holds an EOL, at the first EOL's index |
| Scanner.LineScanner.constructor | src/main.rs:201-205 | starts with no lines, no carry and no overflows, in a fresh 100-byte buffer |
| Scanner.LineScanner.CompleteCarry | src/main.rs:218-228 | with a carry pending and an EOL in the chunk: emits carry + bytes before the first EOL, resumes after that EOL, clears `use_overflow`; without an EOL the state is unchanged |
| Scanner.LineScanner.ScanRest | src/main.rs:230-244 | the lines emitted are exactly the EOL-split lines of `chunk[start..]`, in order; the unterminated tail becomes the carry and counts one overflow; the scan fails exactly when that tail exceeds 100 bytes; the new state is the chunk-level `ScanFrom` of the old one |
| Scanner.LineScanner.CarryTail | src/main.rs:238-243 | at the chunk's last byte, when it is not an EOL: `overflow_count` goes up by one and no line is emitted; the tail becomes the carry exactly when it fits the 100-byte buffer, and is reported too long otherwise |
| Scanner.LineScanner.ProcessChunk | src/main.rs:217-244 | one pass of the loop body computes `ChunkStep` of the state before it |
| Scanner.StoreCarry | src/main.rs:241-242 | the tail lands in the front of the overflow buffer, and the rest of the buffer is untouched |
| Scanner.FastReadLines | src/main.rs:194-251 | computes `Run` of the reads and `line_count` = number of lines. The lines are always a prefix of the split of the bytes received, all of them when it ends on EOF or a read error, which happens exactly when the input fits. At EOF the joined lines are exactly the bytes received |
| Scanner.CarrySplit | src/main.rs:218-228 | a carry completed by a chunk: its first line is the carry + bytes before the chunk's first EOL, and the rest is the split after it |
| Scanner.ChunkStepLines | src/main.rs:217-244 | one chunk goes on exactly when a pending carry finds an EOL and the new tail fits. It then emits the lines of carry + chunk and keeps their tail. A too-long tail stops after the same lines, and a carry without an EOL stops with nothing emitted |
| Scanner.RunFromLines | src/main.rs:206-248 | from a state that emitted the lines of `d` and carries its tail, the run's lines are a prefix of the split of `d` + the bytes received. They are the whole split when the run ends normally, which it does exactly when the rest fits |
| Scanner.RunEmitsPrefix | src/main.rs:206-248 | however the loop ends, no line is invented, altered, duplicated or reordered |
| Scanner.RunLosesNothing | src/main.rs:206-248 | a loop ending on EOF or a read error has emitted every line received; at EOF the lines rebuild the input exactly |
| Scanner.RunCompletesIffFits | src/main.rs:206-248 | the loop ends normally if and only if every tail fits 100 bytes, every carry meets an EOL in the next chunk, and no tail is pending at EOF |
| Scanner.CarryCopyAsWritten | src/main.rs:241-242 | the copy as written succeeds only when the chunk fills the whole 2,000,000-byte buffer; for a shorter chunk it is a length mismatch |
| Scanner.ShortChunkEndingMidLine | src/main.rs:242 | reads `a\nb` then `c\n`: the copy as written fails, while the corrected scan emits `a` and `bc` and ends at EOF |
| HackFloats.Cmp | src/main.rs:38-54 | Equal iff the values are equal; Less/Greater iff the derived `<`/`>` holds |
| HackFloats.CmpAgreesWithDerived | src/main.rs:32-54 | the hand-written `cmp` and the derived `partial_cmp` always agree |
| HackFloats.CmpAntisymmetric | src/main.rs:38-54 | `cmp(b, a)` is the reverse of `cmp(a, b)`, and `a > b` iff `b < a` |
| HackFloats.CmpTotalOrder | src/main.rs:38-54 | `<` is irreflexive and transitive, and any two values are ordered or equal |
| HackFloats.ParseIsize | src/main.rs:62 | succeeds exactly on one or more digits after an optional `+` or `-` whose signed value fits an `isize` (a lone sign is rejected), and then gives that value |
| HackFloats.ParseUsize | src/main.rs:63 | succeeds exactly on one or more digits after an optional `+` whose value fits a `usize` (`-` is never a sign), and then gives that value |
| HackFloats.ParseUsizeOneChar | src/main.rs:63 | one character parses as a `usize` exactly when it is a digit, to that digit's value |
| HackFloats.ParseShowInt | src/main.rs:62 | `parse::<isize>` reads back every `isize` as `Display` writes it |
| HackFloats.FromStr | src/main.rs:59-65 | a result exists exactly when the text is at least two ASCII characters, all but the last two parse as an `isize` and the last is a digit; then `digit` is that `isize` and `decimal` the last digit, below 10 |
| HackFloats.FromStrSkipsSeparator | src/main.rs:60-63 | the character before the last is never looked at |
| HackFloats.FromStrShow | src/main.rs:59-65 | every value with a one-digit `decimal`, written as `digit.decimal`, parses back to itself |
| HackFloats.NotNumericOrder | src/main.rs:38-65 | `-0.5` and `0.5` parse to the same value, and `-1.7` compares above `-1.2` |
| Fields.FirstSeparator | src/main.rs:254 | the position found is a `;`, and no `;` comes before it |
| Fields.SplitFields | src/main.rs:253-254 | a result exists iff the line holds a `;`. Then the line starts with key `;` value, neither holds a `;`, and what follows is nothing or another `;` |
| Fields.SplitFieldsJoin | src/main.rs:254 | `key;value` followed by nothing or by more fields splits back into that key and value |
| Tables.KeyLessIrreflexive | src/main.rs:111 | no key sorts before itself |
| Tables.KeyLessTransitive | src/main.rs:111 | key order is transitive |
| Tables.KeyLessTotal | src/main.rs:111 | any two distinct keys are ordered one way or the other |
| Tables.Insert | src/main.rs:111 | inserting a new key keeps the listing sorted and adds exactly that entry |
| Tables.SortByKey | src/main.rs:110-111 | the result lists every entry of the map once, keys strictly ascending |
| Tables.TabulationUnique | src/main.rs:142-143 | a map has only one sorted listing, so the result does not depend on the order the map yields its entries |
| Tables.ToMapEntry | src/main.rs:110-111 | every pair of a sorted listing is the map's entry for its key |
| Aggregation.ReadHacked | src/main.rs:84-86 | a line reads iff it has a `;`, its temperature is a `HackFloat` and an `f64`, and then to its city, the `HackFloat` and the number; the faults come in source order: a missing `;`, then an invalid `HackFloat`, then an invalid `f64` |
| Aggregation.ReadFloat | src/main.rs:121-122 | a line reads iff it has a `;` and its temperature is an `f64`, and then to its city with that number as both the compared value and the averaged number; a missing `;` comes before an invalid `f64` |
| Aggregation.ReadAll | src/main.rs:83-86 | success iff every line reads, giving each line's reading in order; otherwise the fault is that of the first line that fails |
| Aggregation.ReadAllFailureStays | src/main.rs:83-86 | once a prefix of the lines fails, the whole run fails with the same fault |
| Aggregation.F64Min | src/main.rs:124 | the result is one of the two arguments and no larger than either |
| Aggregation.F64Max | src/main.rs:125 | the result is one of the two arguments and no smaller than either |
| Aggregation.HackLtStrict | src/main.rs:88-91 | the `HackFloat` `<` is a strict order |
| Aggregation.Update | src/main.rs:87-96 | a later sighting adds one to `len`; `min`/`max` become the old one or the new value, whichever is smaller/larger |
| Aggregation.Observe | src/main.rs:87-107 | a first sighting inserts `{v, v, x, 1}`, a later one updates the entry, and every other city is unchanged |
| Aggregation.SummariseCity | src/main.rs:83-108 | after all readings a city has an entry iff it was read. Its `len` counts its readings; its `min` and `max` are values read, and no value read lies below `min` or above `max` |
| Aggregation.MeanStep | src/main.rs:94-95 | the incremental mean update turns the mean of `n` numbers into the mean of `n + 1` |
| Aggregation.SummariseMean | src/main.rs:94-96 | the running mean equals the sum of the city's numbers divided by its `len` |
| Aggregation.ReportedCity | src/main.rs:78-113 | each listed city was read, and its entry holds its count, its least and greatest value and its mean |
| Aggregation.CityReported | src/main.rs:78-113 | every city read appears in the listing |
| Aggregation.HackedUpdate | src/main.rs:87-96 | the update written with `<` for `min` and `>` for `max` is `Update` with the derived `<` |
| Aggregation.SightHacked | src/main.rs:87-107 | the loop body's `get_mut`/`insert` computes `Observe` |
| Aggregation.SightFloat | src/main.rs:123-139 | the loop body's `f64::min`/`f64::max` update or `insert` computes `Observe` |
| Aggregation.AggregateHacked | src/main.rs:78-113 | panics with the first faulty line's fault; otherwise lists the summary of all readings in ascending city order |
| Aggregation.AggregateFloat | src/main.rs:115-145 | panics with the first faulty line's fault; otherwise lists the summary of all readings in ascending city order |

## Left out

- File and console I/O is not modelled: `File::open`, `read_lines`/`BufReader`, `println!`, and the strategy selection in `main`. `read` is replaced by a given sequence of results, and the lines of the aggregation loops by a given sequence of strings.
- `BufRead::lines` stripping `\n` or `\r\n`, and `lines.flatten()` skipping lines that fail to read, are not modelled; the aggregation loops receive the lines already read.
- The rayon functions `multi_process_rayon` and `just_read_file_rayon` exist for concurrency and are not modelled. `just_read_file` only reads and is not modelled either.
- Floating point is idealised. The `f64` parse is a parameter returning a `real`. `f64::min`, `f64::max` and the mean update are computed over reals, with no NaN and no rounding.
- UTF-8 validation (`str::from_utf8(..).unwrap()`) is not modelled: the scanner's lines are byte sequences.
- The scanner does not call `parse_line` on the lines it emits; it collects them instead. A malformed line, which would panic there, is therefore not a stop of the scan.
- `parse_line`'s `f64` parse is not modelled; only its split is (`Fields.SplitFields`).
- `Scanner.FastReadLines` does not model the source's unbounded `while buffer[idx] != EOL` (it would read stale bytes past `n` when a pending carry meets a chunk without EOL). It also does not model the carry block running on a zero-byte read before the `break`. Both stop the model with `PastChunkEnd` instead.
- `Scanner.FastReadLines` does not model the panic of the 100-byte slice as a panic; a tail longer than 100 bytes stops the run with `LineTooLong`.
- `line_count` (`u64`), `overflow_count`, `len` (`u32`) and `new_len as f64` are unbounded here. Wrap-around and overflow panics are not modelled.
- `Aggregation.AggregateHacked` compares with the derived `PartialOrd`, as the source's `<` and `>` do. `Aggregation.HackedUpdate` shows `>` is the converse of `<`.
- `Tables.SortByKey` does not model the sort algorithm behind `sorted_by_key`. It inserts the map's entries one by one, in an order left open, as a `HashMap` yields them. `Tables.TabulationUnique` shows the result does not depend on that order. Rust orders `String`s bytewise on UTF-8, which orders them exactly as code points do, and that is how `Tables.KeyLess` compares.
- No claim is made that the `HackFloat` order is numeric order; `HackFloats.NotNumericOrder` shows it is not for negative values.
- `HackFloat::from_str` on non-ASCII text is modelled as a failure. `split_at` and the `[1..]` cut count bytes, so such text either panics at a cut or puts a non-digit into the integer part.

## Findings

| source | as written | input that shows it | evidently intended | confidence | as-written member | corrected member |
|---|---|---|---|---|---|---|
| src/main.rs:242 | the carry is copied from `&buffer[line_start_ptr..]`, which runs to the end of the whole 2,000,000-byte buffer, into `overflow_len = n - line_start_ptr` bytes; `copy_from_slice` panics whenever `n < 2,000,000` | a first read returning the 3 bytes `a\nb`, then `c\n`: source length 1,999,998, destination length 1 | copy `&buffer[line_start_ptr..n]`, so a short read ending mid-line carries its tail: the lines are `a` and `bc` | high; not executed | Scanner.CarryCopyAsWritten, Scanner.ShortChunkEndingMidLine | Scanner.StoreCarry, used by Scanner.LineScanner.ScanRest; Scanner.RunLosesNothing proves the corrected scan loses no line |
