# jc whitespace compaction, modelled in Dafny

jc copies standard input to standard output. On the way it drops the JSON
whitespace (space, tab, line feed, carriage return) that appears outside quoted
strings. It does no validation.

This model covers two parts of jc:

- **`compress`**, in module `Compaction` (`compaction.dfy`). This is the
  byte-level state machine. It carries a quote counter and the last byte seen
  from one chunk to the next.
  - `Compaction.Compacted` is its recursive specification.
  - `Compaction.Compress` is the program's loop, proved equal to that
    specification.
  - `CompactionProperties` (`compaction_properties.dfy`) proves what the
    machine guarantees:
    - which bytes survive;
    - how the counter moves;
    - chunk boundaries do not matter;
    - compacting twice gives the same result as compacting once.
- **The pump goroutine and the flush decision**, in module `Pump`
  (`pump.dfy`), run sequentially.
  - The environment is a script with one `Tick` per loop iteration. A tick
    holds:
    - the shutdown flag as the loop condition sees it;
    - the read's bytes and status;
    - the flag as seen once the read has returned;
    - the write's outcome.
  - `Pump.Session` is the specification of a whole run. `Pump.Pass` (the loop
    body) and `Pump.Run` (the loop, then the flush) are proved against it.
  - The lemmas show four things:
    - over any cut of the input into chunks, the bytes handed to the writer
      are the compaction of everything read;
    - an end-of-input read still has its bytes written;
    - a chunk read after a shutdown request is dropped;
    - a broken pipe, and only a broken pipe, suppresses the flush.

Bytes are integers in `0..255`. The quote counter is an unbounded integer.

## Model

| member | source | states |
|---|---|---|
| Compaction.Step | cmd/jc/main.go:51-66 | One byte's transition, for the first byte of a chunk and for every later one alike. The new last byte is the byte just read. Outside a string, whitespace is dropped and every other byte is copied; a quote sets the counter to 1 and anything else leaves it at 0. Inside a string every byte is copied, and the counter changes only on a quote whose previous byte is not a backslash. |
| Compaction.Compacted | cmd/jc/main.go:29-69 | The output is never longer than the input. An empty chunk gives empty output and returns the state unchanged. For a non-empty chunk the returned last byte is the chunk's final byte. A counter that starts at 0 or 1 ends at 0 or 1. |
| Compaction.Compress | cmd/jc/main.go:29-69 | The program's loop, including its separate handling of the first byte, returns exactly the output and state that `Compacted` specifies. |
| CompactionProperties.KeptPositionsAreTheUndropped | cmd/jc/main.go:51-59 | The kept positions increase strictly and lie inside the input. A position is kept if and only if it is not whitespace met outside a string. |
| CompactionProperties.OutputIsKeptBytes | cmd/jc/main.go:50-67 | The output is the input at the kept positions, in order. So it is an order-preserving subsequence in which every byte inside a string, and every non-whitespace byte, survives unchanged. |
| CompactionProperties.QuoteTransition | cmd/jc/main.go:60-65 | At every position the counter after the byte is given by the counter before it, the byte and the single preceding byte. The preceding byte is the carried `last` at the start of a chunk. Only an unescaped quote inside a string decrements the counter. |
| CompactionProperties.CompactedSplit | cmd/jc/main.go:29-69 | Compressing `a + b` in one call gives the output for `a` followed by the output for `b`, with `b` started from the state `a` returned, and ends in the same state. |
| CompactionProperties.CompactIdempotent | cmd/jc/main.go:29-69 | Compressing the output a second time, from the same starting state (in particular the initial `(0, 0)`), gives the same bytes and the same counter. If the stream ended inside a string, it also gives the same last byte. |
| CompactionProperties.FrontToBackAgrees | cmd/jc/main.go:34-67 | Feeding a chunk one byte at a time from the front gives exactly the specification's result. |
| CompactionProperties.EscapedQuoteExample | cmd/jc/main.go:60-65 | `"a\"b"` is copied unchanged from the initial state, and only its last quote closes the string. |
| CompactionProperties.EscapedBackslashExample | cmd/jc/main.go:60-65 | `"a\\"` is copied unchanged but leaves the string open, because the look-back is a single byte. |
| CompactionProperties.SpacesExample | cmd/jc/main.go:51-59 | In `" " "`, the space inside a string is kept and the space between strings is dropped. |
| Pump.GoesOnExactly | cmd/jc/main.go:146-177 | The loop goes on after an iteration if and only if there is no shutdown request, the read has no error, and there is no broken pipe. An empty read is therefore retried, and a write failing for any other reason does not stop the loop. |
| Pump.LoopAppend | cmd/jc/main.go:146-179 | Once the loop has stopped, later ticks do not matter. While it is still waiting, it continues with the later ticks from the state it has reached. |
| Pump.UninterruptedRun | cmd/jc/main.go:163-177 | Over uninterrupted iterations, the bytes handed to the writer are the compaction of all bytes read, concatenated, however the reads cut them. The carried state is the compaction's state. Failed (non-broken-pipe) writes still advance the state. |
| Pump.StopAt | cmd/jc/main.go:146-179 | The first interrupted iteration ends the loop. The result is the uninterrupted run before it, followed by that iteration's stop from the state of the bytes compacted so far. |
| Pump.NoFlushInLoop | cmd/jc/main.go:144-181 | The pump loop itself never flushes. |
| Pump.FlushUnlessBroken | cmd/jc/main.go:185-190 | The writer is flushed if and only if the pump ended with the pipe intact. When it is flushed, the flush is the last event. |
| Pump.EndOfInputWritesLastChunk | cmd/jc/main.go:146-177 | Bytes that come with end of input are still compressed and written. The run then ends with end of input and a final flush. The handed bytes and the state are the compaction of every byte read, including that last chunk. |
| Pump.ReadErrorWritesNothing | cmd/jc/main.go:149-156 | A read error other than end of input is reported and ends the loop with nothing of that read written. The events are the earlier ones, then the report, then the flush. |
| Pump.ShutdownDropsChunk | cmd/jc/main.go:146-161 | A shutdown request seen at the loop check, or after a read that did not fail, ends the loop. The chunk just read is dropped unwritten, and only the flush follows. |
| Pump.BrokenPipeSuppressesFlush | cmd/jc/main.go:163-190 | A broken-pipe write ends the loop without updating the state. That write is the last event, and no flush happens. |
| Pump.Pass | cmd/jc/main.go:147-177 | The loop body (read, check the flag again, compress, write) returns exactly the iteration that `Body` specifies. |
| Pump.Run | cmd/jc/main.go:144-190 | The loop over the script, then the flush decision, produces exactly the events and the end cause of `Session`. |

## Left out

- Command-line handling: the cobra command, flags, the environment binding, `--version`, usage on positional arguments and the exit status (cmd/jc/main.go:71-108, 195-201). It is library plumbing around the core.
- Signals, the mutex around the shutdown flag, the signal goroutine and the wait group (cmd/jc/main.go:116-139, 180-183). The model runs sequentially. The flag is an input to each iteration, given once for the loop condition and once for the unlocked check after the read (line 159).
- The buffered reader and writer over standard input and output, and the 4096-byte read buffer (cmd/jc/main.go:110-114, 148). Reads are scripted as chunks of any length. Writes are recorded as events, and buffering inside the writer is not modelled.
- The text of the diagnostics written to standard error. The model records only that a read failure is reported, and which writes failed.
- Compaction.Compress: the quote counter is an unbounded integer, so it does not model Go's `int` overflow. Inside a string the counter never leaves 0 or 1, so overflow cannot happen from the program's initial state.
- Pump.Session: a finite script can run out while the pump is still waiting on a read. That end is reported as `Blocked`, with no flush, because the program would still be waiting at that point.
- Pump.Run: after an end-of-input iteration the program's loop condition reads the shutdown flag once more before leaving the loop. That read changes nothing, so the model does not consume a further tick for it.
- Whole-document examples: the example lemmas use short byte strings rather than whole JSON documents, because evaluating the specification on long literals is costly for the verifier. The general lemmas cover every input.
