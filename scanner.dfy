/** The chunked line scanner `fast_read_lines`.

    The file is read chunk by chunk; each chunk is split on EOL.  A chunk that
    ends in the middle of a line leaves that unterminated tail in a 100-byte
    overflow buffer (the carry), and the next chunk completes it with the bytes
    before its first EOL.

    The calls of `read` are given as a sequence of results; once that sequence
    is used up every further `read` returns zero bytes.  Each completed line is
    appended to a sequence where the source hands it to `parse_line`.

    `Run` is the chunk-level specification, stated with `Lines` and `Tail` of
    the bytes read; `FastReadLines` is the byte-by-byte scan, proved to compute
    `Run`; the lemmas at the end say what `Run` guarantees. */
module Scanner {
  import opened LineSplit
  import opened Wrappers

  /** `const buffer_size_bytes: usize = 2_000_000`: the most one `read` returns. */
  const BufferSize: nat := 2_000_000

  /** `let mut overflow_buffer = [0u8; 100]`: the room for a carried tail. */
  const CarryCapacity: nat := 100

  /** What one call of `read` gives back. */
  datatype ReadResult = Data(bytes: seq<byte>) | ReadError

  /** Why the read loop stopped. */
  datatype Stop =
    | EndOfFile     // a read returned zero bytes and nothing was pending
    | ReadFailed    // a read returned an error: `while let Ok(n)` just ends
    | LineTooLong   // a tail longer than the overflow buffer: the source panics
    | PastChunkEnd  // a pending carry met a chunk with no EOL: the source would read stale bytes

  /** The scanner between two chunks: the lines emitted so far, the pending carry
      (empty exactly when `use_overflow` is false) and `overflow_count`. */
  datatype Scan = Scan(lines: seq<Line>, carry: seq<byte>, overflows: nat)

  /** The effect of one chunk. */
  datatype Step = Continue(scan: Scan) | Halt(scan: Scan, stop: Stop)

  /** What a whole run leaves: the lines emitted, `overflow_count`, and why it stopped. */
  datatype Outcome = Outcome(lines: seq<Line>, overflows: nat, stop: Stop)

  /** Scanning `chunk` from `start`: the lines it terminates, then its unterminated
      tail, which becomes the carry if it fits. */
  function ScanFrom(lines: seq<Line>, overflows: nat, chunk: seq<byte>, start: nat): Step
    requires start <= |chunk|
  {
    var rest := chunk[start..];
    var tail := Tail(rest);
    var done := lines + Lines(rest);
    if tail == [] then Continue(Scan(done, [], overflows))
    else if |tail| > CarryCapacity then Halt(Scan(done, tail, overflows + 1), LineTooLong)
    else Continue(Scan(done, tail, overflows + 1))
  }

  /** One pass of the read loop's body over `chunk`: a pending carry is completed
      by the bytes before the first EOL, then the rest of the chunk is scanned. */
  function ChunkStep(s: Scan, chunk: seq<byte>): Step
  {
    if s.carry == [] then ScanFrom(s.lines, s.overflows, chunk, 0)
    else if EOL !in chunk then Halt(s, PastChunkEnd)
    else
      var j := FirstEol(chunk);
      ScanFrom(s.lines + [s.carry + chunk[..j]], s.overflows, chunk, j + 1)
  }

  /** The result of the next `read`: zero bytes once the given results are used up. */
  function NextRead(results: seq<ReadResult>): ReadResult
  {
    if results == [] then Data([]) else results[0]
  }

  /** The read loop from state `s`. */
  function RunFrom(s: Scan, results: seq<ReadResult>): Outcome
    decreases |results|
  {
    match NextRead(results)
    case ReadError => Outcome(s.lines, s.overflows, ReadFailed)
    case Data(chunk) =>
      match ChunkStep(s, chunk)
      case Halt(h, stop) => Outcome(h.lines, h.overflows, stop)
      case Continue(next) =>
        if chunk == [] then Outcome(next.lines, next.overflows, EndOfFile)
        else RunFrom(next, results[1..])
  }

  /** The whole read loop, from no lines and no carry. */
  function Run(results: seq<ReadResult>): Outcome
  {
    RunFrom(Scan([], [], 0), results)
  }

  /** The bytes the loop is given before a read returns zero bytes or an error. */
  function Received(results: seq<ReadResult>): seq<byte>
    decreases |results|
  {
    match NextRead(results)
    case ReadError => []
    case Data(chunk) => if chunk == [] then [] else chunk + Received(results[1..])
  }

  /** The input is within what the scanner handles, given the pending tail `carry`:
      every chunk that follows a carry holds an EOL, every tail left at the end of a
      chunk fits the overflow buffer, and at end of file no tail is pending. */
  ghost predicate FitsFrom(carry: seq<byte>, results: seq<ReadResult>)
    decreases |results|
  {
    match NextRead(results)
    case ReadError => true
    case Data(chunk) =>
      if chunk == [] then carry == []
      else
        && (carry != [] ==> EOL in chunk)
        && |Tail(carry + chunk)| <= CarryCapacity
        && FitsFrom(Tail(carry + chunk), results[1..])
  }

  ghost predicate Fits(results: seq<ReadResult>)
  {
    FitsFrom([], results)
  }

  /** The `while buffer[idx] != EOL` search for the first EOL of a chunk.  The
      source has no bound on `idx`; here the search stops at the end of the chunk
      and reports that no EOL was found. */
  method FindEol(chunk: seq<byte>) returns (idx: nat, found: bool)
    ensures found <==> EOL in chunk
    ensures found ==> idx < |chunk| && chunk[idx] == EOL && EOL !in chunk[..idx]
  {
    idx := 0;
    while idx < |chunk| && chunk[idx] != EOL
      invariant idx <= |chunk|
      invariant EOL !in chunk[..idx]
    {
      assert chunk[..idx + 1] == chunk[..idx] + [chunk[idx]];
      idx := idx + 1;
    }
    found := idx < |chunk|;
    assert !found ==> chunk == chunk[..idx];
  }

  /** The scan of `chunk[start..idx]`: the lines `emitted`, then the pending line
      `chunk[lineStart..idx]`, which holds no EOL. */
  ghost predicate Scanned(chunk: seq<byte>, start: nat, lineStart: nat, idx: nat, emitted: seq<Line>)
  {
    && start <= lineStart <= idx <= |chunk|
    && EolFree(emitted) && EOL !in chunk[lineStart..idx]
    && Join(emitted) + chunk[lineStart..idx] == chunk[start..idx]
  }

  /** The scan invariant kept over one more byte: an EOL ends the pending line,
      any other byte extends it. */
  lemma ScanByte(emitted: seq<Line>, chunk: seq<byte>, start: nat, lineStart: nat, idx: nat)
    requires Scanned(chunk, start, lineStart, idx, emitted) && idx < |chunk|
    ensures chunk[idx] == EOL ==> Scanned(chunk, start, idx + 1, idx + 1, emitted + [chunk[lineStart..idx]])
    ensures chunk[idx] != EOL ==> Scanned(chunk, start, lineStart, idx + 1, emitted)
  {
    assert chunk[start..idx + 1] == chunk[start..idx] + [chunk[idx]];
    assert chunk[lineStart..idx + 1] == chunk[lineStart..idx] + [chunk[idx]];
    if chunk[idx] == EOL {
      JoinSnoc(emitted, chunk[lineStart..idx]);
      assert chunk[idx + 1..idx + 1] == [];
    }
  }

  /** A scan to the end of the chunk: its lines, then its tail. */
  lemma ScannedAll(chunk: seq<byte>, start: nat, lineStart: nat, emitted: seq<Line>)
    requires Scanned(chunk, start, lineStart, |chunk|, emitted)
    ensures EolFree(emitted) && EOL !in chunk[lineStart..]
    ensures Join(emitted) + chunk[lineStart..] == chunk[start..]
  {
    assert chunk[lineStart..|chunk|] == chunk[lineStart..] && chunk[start..|chunk|] == chunk[start..];
  }

  /** `ScanFrom` for a rest of the chunk known to be lines joined, then a tail. */
  lemma ScanFromSplit(lines: seq<Line>, overflows: nat, chunk: seq<byte>, start: nat,
                      emitted: seq<Line>, tail: seq<byte>)
    requires start <= |chunk| && EolFree(emitted) && EOL !in tail
    requires Join(emitted) + tail == chunk[start..]
    ensures Lines(chunk[start..]) == emitted && Tail(chunk[start..]) == tail
    ensures ScanFrom(lines, overflows, chunk, start) ==
      if tail == [] then Continue(Scan(lines + emitted, [], overflows))
      else if |tail| > CarryCapacity then Halt(Scan(lines + emitted, tail, overflows + 1), LineTooLong)
      else Continue(Scan(lines + emitted, tail, overflows + 1))
  {
    SplitIs(chunk[start..], emitted, tail);
  }

  /** The local state of `fast_read_lines`: the 100-byte `overflow_buffer`,
      `use_overflow`, `overflow_len`, `line_count`, `overflow_count`, and the
      lines handed out so far. */
  class LineScanner {
    const overflow: array<byte>
    var useOverflow: bool
    var overflowLen: nat
    var lines: seq<Line>
    var lineCount: nat
    var overflowCount: nat

    ghost predicate Valid()
      reads this
    {
      && overflow.Length == CarryCapacity
      && overflowLen <= CarryCapacity
      && (useOverflow ==> 0 < overflowLen)
      && lineCount == |lines|
    }

    /** The scanner as the chunk-level specification sees it. */
    ghost function State(): Scan
      reads this, overflow
      requires Valid()
    {
      Scan(lines, if useOverflow then overflow[..overflowLen] else [], overflowCount)
    }

    constructor ()
      ensures Valid() && fresh(overflow)
      ensures State() == Scan([], [], 0)
    {
      overflow := new byte[CarryCapacity];
      useOverflow := false;
      overflowLen := 0;
      lines := [];
      lineCount := 0;
      overflowCount := 0;
    }

    /** The `if use_overflow` block: the carry followed by the chunk's bytes before
        its first EOL is one line; scanning resumes after that EOL. */
    method CompleteCarry(chunk: seq<byte>) returns (found: bool, lineStart: nat)
      requires Valid() && useOverflow
      modifies this
      ensures Valid()
      ensures found <==> EOL in chunk
      ensures found ==> && lineStart == FirstEol(chunk) + 1
                        && lines == old(lines) + [old(State()).carry + chunk[..lineStart - 1]]
                        && !useOverflow && overflowCount == old(overflowCount)
      ensures !found ==> State() == old(State())
    {
      var idx;
      idx, found := FindEol(chunk);
      lineStart := 0;
      if found {
        lines := lines + [overflow[..overflowLen] + chunk[..idx]];
        lineCount := lineCount + 1;
        lineStart := idx + 1;
        useOverflow := false;
      }
    }

    /** The `for idx in line_start_ptr..n` loop: every EOL ends a line; at the last
        byte, if it is not an EOL, the unterminated tail is copied into the
        overflow buffer, or the scan fails when it does not fit. */
    method ScanRest(chunk: seq<byte>, start: nat) returns (tooLong: bool)
      requires Valid() && !useOverflow && start <= |chunk|
      modifies this, overflow
      ensures Valid()
      ensures match ScanFrom(old(lines), old(overflowCount), chunk, start)
              case Continue(next) => !tooLong && State() == next
              case Halt(h, _) => tooLong && lines == h.lines && overflowCount == h.overflows
    ensures lines == old(lines) + Lines(chunk[start..])
    ensures tooLong <==> |Tail(chunk[start..])| > CarryCapacity
    ensures !tooLong ==> State().carry == Tail(chunk[start..])
    ensures overflowCount == old(overflowCount) + (if Tail(chunk[start..]) == [] then 0 else 1)
    {
      tooLong := false;
      var n := |chunk|;
      var lineStart: nat := start;
      ghost var done, ov := lines, overflowCount;
      ghost var emitted: seq<Line> := [];
      for idx := start to n
        invariant Valid()
        invariant Scanned(chunk, start, lineStart, idx, emitted)
        invariant lines == done + emitted
        invariant !useOverflow ==> overflowCount == ov
        invariant !useOverflow && idx == n ==> lineStart == n
        invariant useOverflow ==> && idx == n && overflowCount == ov + 1
                                  && overflowLen == n - lineStart
                                  && overflow[..overflowLen] == chunk[lineStart..]
      {
        ScanByte(emitted, chunk, start, lineStart, idx);
        if chunk[idx] == EOL {
          emitted := emitted + [chunk[lineStart..idx]];
          lines := lines + [chunk[lineStart..idx]];
          lineStart := idx + 1;
          lineCount := lineCount + 1;
        }
        if idx == n - 1 && chunk[idx] != EOL {
          tooLong := CarryTail(chunk[lineStart..]);
          if tooLong {
            ScannedAll(chunk, start, lineStart, emitted);
            ScanFromSplit(done, ov, chunk, start, emitted, chunk[lineStart..]);
            return;
          }
        }
      }
      ScannedAll(chunk, start, lineStart, emitted);
      ScanFromSplit(done, ov, chunk, start, emitted, chunk[lineStart..]);
    }

    /** The block at the chunk's last byte when it is not an EOL: the overflow is
        counted, then the tail is kept as the carry, or the scan fails when it is
        longer than the overflow buffer. */
    method CarryTail(tail: seq<byte>) returns (tooLong: bool)
      requires Valid() && !useOverflow && tail != []
      modifies this, overflow
      ensures Valid() && lines == old(lines) && overflowCount == old(overflowCount) + 1
      ensures tooLong <==> |tail| > CarryCapacity
      ensures !tooLong ==> useOverflow && overflowLen == |tail| && overflow[..overflowLen] == tail
    {
      overflowCount := overflowCount + 1;
      if |tail| > CarryCapacity {
        return true;
      }
      tooLong := false;
      useOverflow := true;
      overflowLen := |tail|;
      StoreCarry(overflow, tail);
    }

    /** One pass of the read loop's body; `Some(stop)` where the source panics or
        would read past the chunk. */
    method ProcessChunk(chunk: seq<byte>) returns (halt: Option<Stop>)
      requires Valid()
      modifies this, overflow
      ensures Valid()
      ensures match ChunkStep(old(State()), chunk)
              case Continue(next) => halt == None && State() == next
              case Halt(h, stop) => halt == Some(stop) && lines == h.lines && overflowCount == h.overflows
    {
      var lineStart := 0;
      if useOverflow {
        var found;
        found, lineStart := CompleteCarry(chunk);
        if !found {
          return Some(PastChunkEnd);
        }
      }
      var tooLong := ScanRest(chunk, lineStart);
      halt := if tooLong then Some(LineTooLong) else None;
    }
  }

  /** Copy the unterminated tail into the front of the overflow buffer. */
  method StoreCarry(overflow: array<byte>, tail: seq<byte>)
    requires |tail| <= overflow.Length
    modifies overflow
    ensures overflow[..|tail|] == tail
    ensures overflow[|tail|..] == old(overflow[|tail|..])
  {
    forall k | 0 <= k < |tail| {
      overflow[k] := tail[k];
    }
  }

  /** `fast_read_lines`: returns the lines in the order they are emitted, the final
      `line_count` and `overflow_count`, and why the loop stopped. */
  method FastReadLines(results: seq<ReadResult>)
    returns (lines: seq<Line>, lineCount: nat, overflowCount: nat, stop: Stop)
    ensures Outcome(lines, overflowCount, stop) == Run(results)
    ensures lineCount == |lines|
    ensures lines <= Lines(Received(results))
    ensures stop == EndOfFile || stop == ReadFailed <==> Fits(results)
    ensures stop == EndOfFile || stop == ReadFailed ==> lines == Lines(Received(results))
    ensures stop == EndOfFile ==> Join(lines) == Received(results)
  {
    var scanner := new LineScanner();
    var i := 0;
    while true
      invariant fresh(scanner) && fresh(scanner.overflow)
      invariant scanner.Valid() && i <= |results|
      invariant RunFrom(scanner.State(), results[i..]) == Run(results)
      decreases |results| - i
    {
      var read := if i < |results| then results[i] else Data([]);
      assert NextRead(results[i..]) == read;
      if read.ReadError? {
        stop := ReadFailed;
        break;
      }
      var chunk := read.bytes;
      var halt := scanner.ProcessChunk(chunk);
      if halt.Some? {
        stop := halt.value;
        break;
      }
      if |chunk| == 0 {
        stop := EndOfFile;
        break;
      }
      assert results[i..][1..] == results[i + 1..];
      i := i + 1;
    }
    lines, lineCount, overflowCount := scanner.lines, scanner.lineCount, scanner.overflowCount;
    RunEmitsPrefix(results);
    RunLosesNothing(results);
    RunCompletesIffFits(results);
  }

  /** A carry without EOL completed by a chunk that has one: the first line is the
      carry and the bytes before that EOL, the rest are the lines after it. */
  lemma CarrySplit(carry: seq<byte>, chunk: seq<byte>)
    requires EOL !in carry && EOL in chunk
    ensures Lines(carry + chunk) == [carry + chunk[..FirstEol(chunk)]] + Lines(chunk[FirstEol(chunk) + 1..])
    ensures Tail(carry + chunk) == Tail(chunk[FirstEol(chunk) + 1..])
  {
    var j := FirstEol(chunk);
    assert chunk == chunk[..j] + [EOL] + chunk[j + 1..];
    assert carry + chunk == (carry + chunk[..j]) + [EOL] + chunk[j + 1..];
    LinesCons(carry + chunk[..j], chunk[j + 1..]);
  }

  lemma ConsAssoc(a: seq<Line>, x: Line, b: seq<Line>)
    ensures a + [x] + b == a + ([x] + b)
  {
  }

  /** Scanning from `start` emits the lines of the rest of the chunk and leaves its tail. */
  lemma ScanFromLines(lines: seq<Line>, overflows: nat, chunk: seq<byte>, start: nat)
    requires start <= |chunk|
    ensures ScanFrom(lines, overflows, chunk, start).scan.lines == lines + Lines(chunk[start..])
    ensures ScanFrom(lines, overflows, chunk, start).scan.carry == Tail(chunk[start..])
    ensures ScanFrom(lines, overflows, chunk, start).Halt? <==> |Tail(chunk[start..])| > CarryCapacity
    ensures ScanFrom(lines, overflows, chunk, start).Halt? ==> ScanFrom(lines, overflows, chunk, start).stop == LineTooLong
  {
  }

  /** One chunk in terms of the bytes: with a pending carry, the chunk continues it.
      The step goes on exactly when a pending carry finds an EOL and the new tail
      fits; it then emits the lines that carry and chunk complete and keeps their
      tail as the new carry.  A line too long for the buffer stops the run after
      the same lines; a carry that finds no EOL stops it with nothing emitted. */
  lemma ChunkStepLines(s: Scan, chunk: seq<byte>)
    requires EOL !in s.carry
    ensures ChunkStep(s, chunk).Continue? <==>
              (s.carry != [] ==> EOL in chunk) && |Tail(s.carry + chunk)| <= CarryCapacity
    ensures ChunkStep(s, chunk).Continue? || ChunkStep(s, chunk).stop == LineTooLong ==>
              ChunkStep(s, chunk).scan.lines == s.lines + Lines(s.carry + chunk) &&
              ChunkStep(s, chunk).scan.carry == Tail(s.carry + chunk)
    ensures ChunkStep(s, chunk).Halt? && ChunkStep(s, chunk).stop == LineTooLong ==> chunk != []
    ensures ChunkStep(s, chunk).Halt? && ChunkStep(s, chunk).stop != LineTooLong ==>
              ChunkStep(s, chunk).stop == PastChunkEnd && ChunkStep(s, chunk).scan.lines == s.lines &&
              s.carry != [] && EOL !in chunk
  {
    assert Tail([]) == [];
    if s.carry == [] {
      assert s.carry + chunk == chunk[0..];
    } else if EOL in chunk {
      CarrySplit(s.carry, chunk);
      var j := FirstEol(chunk);
      var line := s.carry + chunk[..j];
      assert ChunkStep(s, chunk) == ScanFrom(s.lines + [line], s.overflows, chunk, j + 1);
      var rest := chunk[j + 1..];
      ScanFromLines(s.lines + [line], s.overflows, chunk, j + 1);
      ConsAssoc(s.lines, line, Lines(rest));
    }
  }

  /** A non-empty chunk read first is the start of everything received. */
  lemma ReceivedCons(results: seq<ReadResult>)
    requires results != [] && results[0].Data? && results[0].bytes != []
    ensures Received(results) == results[0].bytes + Received(results[1..])
  {
  }

  lemma BytesAssoc(a: seq<byte>, b: seq<byte>, c: seq<byte>)
    ensures a + (b + c) == (a + b) + c
  {
  }

  /** `p` is a prefix of `p + q`. */
  lemma PrefixOfAppend(p: seq<Line>, q: seq<Line>)
    ensures p <= p + q
  {
    assert (p + q)[..|p|] == p;
  }

  /** What an outcome claims of all the bytes: its lines come first among theirs,
      are all of them when the run ends normally, which is exactly when `fits`. */
  ghost predicate Agrees(o: Outcome, all: seq<byte>, fits: bool)
  {
    && o.lines <= Lines(all)
    && (o.stop == EndOfFile || o.stop == ReadFailed ==> o.lines == Lines(all))
    && (o.stop == EndOfFile ==> Tail(all) == [])
    && (o.stop == EndOfFile || o.stop == ReadFailed <==> fits)
  }

  /** What the run from `s` claims of the bytes `d` it has seen so far. */
  ghost predicate RunAgrees(s: Scan, d: seq<byte>, results: seq<ReadResult>)
  {
    Agrees(RunFrom(s, results), d + Received(results), FitsFrom(Tail(d), results))
  }

  /** The run agrees at a read that ends it: an error or zero bytes. */
  lemma RunAgreesAtEnd(s: Scan, d: seq<byte>, results: seq<ReadResult>)
    requires s.lines == Lines(d) && s.carry == Tail(d)
    requires NextRead(results).ReadError? || NextRead(results).bytes == []
    ensures RunAgrees(s, d, results)
  {
    TailEolFree(d);
    assert Received(results) == [];
    assert d + Received(results) == d;
    PrefixOfAppend(s.lines, []);
    if NextRead(results).Data? {
      ChunkStepLines(s, []);
      assert s.carry + [] == s.carry;
      assert Lines(s.carry) == [] by { SplitIs(s.carry, [], s.carry); }
      assert s.lines + [] == s.lines;
    }
  }

  /** The run agrees when a non-empty chunk halts it. */
  lemma RunAgreesAtHalt(s: Scan, d: seq<byte>, results: seq<ReadResult>)
    requires s.lines == Lines(d) && s.carry == Tail(d)
    requires results != [] && results[0].Data? && results[0].bytes != []
    requires ChunkStep(s, results[0].bytes).Halt?
    ensures RunAgrees(s, d, results)
  {
    var chunk := results[0].bytes;
    var h := ChunkStep(s, chunk);
    assert RunFrom(s, results) == Outcome(h.scan.lines, h.scan.overflows, h.stop);
    assert h.stop != EndOfFile && h.stop != ReadFailed && !FitsFrom(Tail(d), results) by {
      TailEolFree(d);
      ChunkStepLines(s, chunk);
    }
    HaltedPrefix(s, d, results);
  }

  /** A non-empty chunk that halts the run leaves only first lines of the bytes. */
  lemma HaltedPrefix(s: Scan, d: seq<byte>, results: seq<ReadResult>)
    requires s.lines == Lines(d) && s.carry == Tail(d)
    requires results != [] && results[0].Data? && results[0].bytes != []
    requires ChunkStep(s, results[0].bytes).Halt?
    ensures ChunkStep(s, results[0].bytes).scan.lines <= Lines(d + Received(results))
  {
    var chunk := results[0].bytes;
    var emitted := ChunkStep(s, chunk).scan.lines;
    var all := d + Received(results);
    assert emitted == Lines(d) || emitted == Lines(d + chunk) by {
      TailEolFree(d);
      ChunkStepLines(s, chunk);
      LinesAppend(d, chunk);
    }
    if emitted == Lines(d) {
      LinesAppend(d, Received(results));
      PrefixOfAppend(Lines(d), Lines(Tail(d) + Received(results)));
    } else {
      var more := Received(results[1..]);
      assert all == (d + chunk) + more by {
        ReceivedCons(results);
        BytesAssoc(d, chunk, more);
      }
      LinesAppend(d + chunk, more);
      PrefixOfAppend(Lines(d + chunk), Lines(Tail(d + chunk) + more));
    }
  }

  /** The run agrees when a non-empty chunk lets it go on, if it agrees from there. */
  lemma RunAgreesAtContinue(s: Scan, d: seq<byte>, results: seq<ReadResult>)
    requires s.lines == Lines(d) && s.carry == Tail(d)
    requires results != [] && results[0].Data? && results[0].bytes != []
    requires ChunkStep(s, results[0].bytes).Continue?
    requires RunAgrees(ChunkStep(s, results[0].bytes).scan, d + results[0].bytes, results[1..])
    ensures RunAgrees(s, d, results)
  {
    var chunk := results[0].bytes;
    var next := ChunkStep(s, chunk).scan;
    var more := results[1..];
    assert RunFrom(s, results) == RunFrom(next, more) by {
      RunFromContinue(s, results);
    }
    assert d + Received(results) == (d + chunk) + Received(more) by {
      ReceivedCons(results);
      BytesAssoc(d, chunk, Received(more));
    }
    assert FitsFrom(Tail(d), results) == FitsFrom(Tail(d + chunk), more) by {
      FitsFromContinue(s, d, results);
    }
  }

  /** A chunk the step goes on from leaves the run to the following reads. */
  lemma RunFromContinue(s: Scan, results: seq<ReadResult>)
    requires results != [] && results[0].Data? && results[0].bytes != []
    requires ChunkStep(s, results[0].bytes).Continue?
    ensures RunFrom(s, results) == RunFrom(ChunkStep(s, results[0].bytes).scan, results[1..])
  {
  }

  /** A chunk the step goes on from fits, so what fits after it is what fits now. */
  lemma FitsFromContinue(s: Scan, d: seq<byte>, results: seq<ReadResult>)
    requires s.lines == Lines(d) && s.carry == Tail(d)
    requires results != [] && results[0].Data? && results[0].bytes != []
    requires ChunkStep(s, results[0].bytes).Continue?
    ensures FitsFrom(Tail(d), results) == FitsFrom(Tail(d + results[0].bytes), results[1..])
  {
    var chunk := results[0].bytes;
    TailEolFree(d);
    ChunkStepLines(s, chunk);
    LinesAppend(d, chunk);
  }

  /** The run from a state that has emitted the lines of `d` and carries its tail:
      whatever it emits are the first lines of all the bytes, all of them when it
      ends normally, and it ends normally exactly when the rest fits. */
  lemma {:induction false} RunFromLines(s: Scan, d: seq<byte>, results: seq<ReadResult>)
    requires s.lines == Lines(d) && s.carry == Tail(d)
    ensures RunAgrees(s, d, results)
    decreases |results|
  {
    if NextRead(results).ReadError? || NextRead(results).bytes == [] {
      RunAgreesAtEnd(s, d, results);
    } else if ChunkStep(s, results[0].bytes).Halt? {
      RunAgreesAtHalt(s, d, results);
    } else {
      var chunk := results[0].bytes;
      TailEolFree(d);
      ChunkStepLines(s, chunk);
      LinesAppend(d, chunk);
      RunFromLines(ChunkStep(s, chunk).scan, d + chunk, results[1..]);
      RunAgreesAtContinue(s, d, results);
    }
  }

  lemma EmptySplit()
    ensures Lines([]) == [] && Tail([]) == []
  {
  }

  /** Nothing is made up, altered, duplicated or reordered: however the run ends,
      the lines emitted are the first lines of the bytes received. */
  lemma RunEmitsPrefix(results: seq<ReadResult>)
    ensures Run(results).lines <= Lines(Received(results))
  {
    EmptySplit();
    assert [] + Received(results) == Received(results);
    RunFromLines(Scan([], [], 0), [], results);
    assert RunAgrees(Scan([], [], 0), [], results);
  }

  /** Nothing is lost: when the loop ends normally, the lines emitted are all the
      lines of the bytes received, and at end of file they rebuild those bytes. */
  lemma RunLosesNothing(results: seq<ReadResult>)
    ensures Run(results).stop == EndOfFile || Run(results).stop == ReadFailed ==>
              Run(results).lines == Lines(Received(results))
    ensures Run(results).stop == EndOfFile ==> Join(Run(results).lines) == Received(results)
  {
    EmptySplit();
    assert [] + Received(results) == Received(results);
    RunFromLines(Scan([], [], 0), [], results);
    assert RunAgrees(Scan([], [], 0), [], results);
    JoinLines(Received(results));
  }

  /** The loop ends normally exactly when the input fits what the scanner handles. */
  lemma RunCompletesIffFits(results: seq<ReadResult>)
    ensures Run(results).stop == EndOfFile || Run(results).stop == ReadFailed <==> Fits(results)
  {
    EmptySplit();
    RunFromLines(Scan([], [], 0), [], results);
    assert RunAgrees(Scan([], [], 0), [], results);
  }

  /** The carry copy as the source writes it: the destination is the first
      `n - line_start_ptr` bytes of the 100-byte overflow buffer, and the source
      slice runs from `line_start_ptr` to the end of the whole 2,000,000-byte read
      buffer, not to `n`; `copy_from_slice` panics unless both have one length. */
  datatype CarryCopy = Copied | DestinationTooShort | LengthMismatch

  function CarryCopyAsWritten(n: nat, lineStart: nat): (r: CarryCopy)
    requires lineStart < n <= BufferSize
    ensures r == Copied <==> n == BufferSize && n - lineStart <= CarryCapacity
    ensures r == LengthMismatch <==> n < BufferSize && n - lineStart <= CarryCapacity
  {
    if n - lineStart > CarryCapacity then DestinationTooShort
    else if BufferSize - lineStart != n - lineStart then LengthMismatch
    else Copied
  }

  /** A short chunk that ends inside a line: the copy as written panics, while the
      corrected copy carries `b` into the next chunk and both lines come out whole. */
  lemma ShortChunkEndingMidLine()
    ensures CarryCopyAsWritten(3, 2) == LengthMismatch
    ensures Run([Data([97, 10, 98]), Data([99, 10])]) == Outcome([[97], [98, 99]], 1, EndOfFile)
  {
    var first: seq<byte> := [97, 10, 98];
    var second: seq<byte> := [99, 10];
    assert first == [97] + [EOL] + [98];
    LinesCons([97], [98]);
    assert Lines([98]) == [] && Tail([98]) == [98];
    assert first[0..] == first;
    var s1 := Scan([[97]], [98], 1);
    assert ChunkStep(Scan([], [], 0), first) == Continue(s1);
    assert second[1] == EOL;
    assert FirstEol(second) == 1;
    assert second[..1] == [99] && second[2..] == [];
    assert [98] + second[..1] == [98, 99];
    EmptySplit();
    var s2 := Scan([[97], [98, 99]], [], 1);
    assert ChunkStep(s1, second) == Continue(s2);
    var results := [Data(first), Data(second)];
    assert results[1..][1..] == [];
    assert RunFrom(s2, []) == Outcome(s2.lines, 1, EndOfFile);
    assert RunFrom(s1, results[1..]) == RunFrom(s2, []);
  }
}
