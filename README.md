# powertail, modelled in Dafny

powertail is a live terminal viewer. It reads a text stream from standard input
and keeps a fixed-height window of the most recent lines on the terminal. It
redraws the window in place as new lines arrive. This project models its core,
`src/main.rs`, which has two halves:

- **The reader** (`pipe_reader`). Each `read_line` chunk becomes a `Cmd`. A chunk
  that does not end in a newline becomes a `Fragment`. Any other chunk becomes a
  `Line` with its trailing newlines removed. A zero-length read ends the loop.
- **The window engine** (`Emitter`). It buffers fragments and joins them with the
  next line. It keeps a bounded FIFO history whose capacity is the window height.
  While the window fills, each line is written below the block. Once the window
  is full, the whole block is cleared and redrawn. On drop, the emitter flushes
  the leftover fragments, then shrinks the block to the `retain` most recent
  lines.

Files and modules:

- `reader.dfy`, module `Reader`: the `Cmd` datatype, and the classification of a
  chunk as a pure function (`Classify`). It also has `read_line` as `NextChunk`
  and the reader loop as the method `PipeReader`. `PipeReader` is proved equal to
  the function `Commands`.
- `terminal.dfy`, module `Terminal`: the terminal as a sequence of rows. `Term`
  is a class whose `WriteLine` appends a row and whose `ClearLastLines(k)` drops
  the bottom `k` rows. `Cut(s, width)` is the row `s[..min(width, |s|)]`.
- `window_spec.dfy`, module `WindowSpec`: the engine as functions on a `View`,
  which holds the history, the pending fragments and the rows. It also holds
  reference definitions of the logical lines of a message stream (`Completed`,
  `Leftover`, `LogicalLines`), and the lemmas.
- `window.dfy`, module `Window`: the class `Emitter`, with the source's fields
  `lines`, `retain`, `fragments` and `term`. It has one method per operation,
  and `Drop` is the explicit method `Close`. Each method is proved to take
  `State()` to the matching `WindowSpec` function of the old state. It also has
  `ConsoleWriter`, which feeds every message to a new emitter and then closes it.
- `pipeline.dfy`, module `Pipeline`: the reader followed by the writer (`Run`).
  It also proves that the logical lines of the reader's messages are the lines
  of the input.

`Classify` strips every trailing newline, as `trim_end_matches` does, rather
than exactly one. `read_line` stops at the first newline, so a chunk from the
reader never holds more than one.

The terminal's width is a parameter of every operation that draws a row, because
`write_line` asks the terminal for its size each time. The history's capacity
`cap` is exactly the configured `lines`, and it must be at least 1.

## Model

| member | source | states |
|---|---|---|
| `Reader.TrimNewlines` | src/main.rs:66 | the result is a prefix of the input that does not end in a newline, and only newlines follow it in the input |
| `Reader.Classify` | src/main.rs:66-72 | a chunk not ending in a newline is sent as `Fragment` with identical text; otherwise it is sent as a `Line` whose text is a strict prefix of the chunk, does not end in a newline, and is followed only by newlines |
| `Reader.NextChunk` | src/main.rs:62 | `read_line` takes a prefix of the rest of the input that is empty exactly when the input is exhausted, and holds no newline before its last character; it is the whole rest, or it ends in a newline (standard input is one finite string whose end is final) |
| `Reader.Commands` | src/main.rs:56-78 | the messages the reader loop sends for the whole input, one per `read_line` chunk in order; it is the definition `PipeReader` is proved to carry out. There is a message exactly when the input is non-empty, and never more messages than characters |
| `Reader.PipeReader` | src/main.rs:56-78 | the loop sends exactly `Commands(input)`: one classified message per chunk, in read order; a zero-length read ends it |
| `Reader.ChunkRestored` | src/main.rs:66-72 | the message of a chunk stands for exactly that chunk: a `Line` gets back precisely one newline |
| `Reader.CommandsRestoreInput` | src/main.rs:60-75 | the messages spell out the input: nothing is lost, added or reordered |
| `Reader.CommandsShape` | src/main.rs:60-75 | no message text holds a newline, no `Fragment` is empty, and only the last message can be a `Fragment`, for standard input whose end is final |
| `Terminal.Cut` | src/main.rs:149 | a row is the prefix of its line of length `min(width, len(line))`, counted in characters |
| `Terminal.ClearLast` | src/main.rs:154 | clearing the last `k` rows leaves a prefix of the rows that is `k` shorter, or empty when there are fewer than `k` |
| `Terminal.Term.WriteLine` | src/main.rs:149 | a written row is added below the existing rows |
| `Terminal.Term.ClearLastLines` | src/main.rs:164 | the bottom `k` rows are removed and the others are kept |
| `WindowSpec.Push` | src/main.rs:148-153 | the history after `write_line` is the last `cap` entries of the old history followed by the new line; it grows by one while below `cap` and stays at `cap` after that |
| `WindowSpec.Write` | src/main.rs:146-160 | `write_line` keeps the history within `cap` and leaves the pending fragments alone |
| `WindowSpec.AddFragment` | src/main.rs:133-135 | `add_fragment`, the definition `Emitter.AddFragment` is proved to carry out: the fragment is appended to the pending buffer, and the history and the screen are unchanged |
| `WindowSpec.AddLine` | src/main.rs:122-131 | `add_line`, the definition `Emitter.AddLine` is proved to carry out: the buffer ends empty and the history gains the pending fragments and the new text joined as one line; with nothing pending, the text itself is the new entry |
| `WindowSpec.Flush` | src/main.rs:137-144 | `flush_fragments`, the definition `Emitter.FlushFragments` is proved to carry out: with nothing pending, nothing changes; otherwise the joined fragments become the newest history entry; the buffer ends empty |
| `WindowSpec.Truncate` | src/main.rs:162-173 | `truncate`, the definition `Emitter.Truncate` is proved to carry out: the history becomes its last `retain` entries, the buffer is untouched, and nothing changes when the history is no longer than `retain` |
| `WindowSpec.Close` | src/main.rs:104-109 | the drop, the definition `Emitter.Close` is proved to carry out: the buffer ends empty and the history is the last `min(cap, retain)` entries of the old history followed by the joined leftover fragments, if any |
| `WindowSpec.Step` | src/main.rs:84-87 | handling one message keeps the history within `cap` |
| `WindowSpec.Feed` | src/main.rs:83-89 | after any stream of messages the history holds at most `cap` lines |
| `WindowSpec.FillKeepsMostRecent` | src/main.rs:148-153 | after any sequence of completed lines, the history equals the last `min(n, cap)` of them in arrival order |
| `WindowSpec.FourLinesInTwoRows` | src/main.rs:148-153 | lines `a`, `b`, `c`, `d` with capacity 2 leave the history `[c, d]` |
| `WindowSpec.WriteKeepsDisplay` | src/main.rs:147-157 | at a constant width, after every `write_line` the rows below the earlier output are exactly the history entries, each cut to the width |
| `WindowSpec.WriteRedrawsFullWindow` | src/main.rs:151-157 | when the history is full, exactly `cap` rows are cleared; the oldest entry is dropped, and the new history is drawn at the current width whatever widths the old rows had |
| `WindowSpec.WriteKeepsShows` | src/main.rs:146-160 | at any sequence of widths, after every `write_line` each history entry has one row at the bottom of the screen, in order, showing a prefix of it |
| `WindowSpec.TruncateKeepsLast` | src/main.rs:162-173 | if the history is longer than `retain`, it becomes its last `retain` entries, its old block is cleared, and those entries are written uncut; otherwise nothing changes |
| `WindowSpec.FlushWritesPending` | src/main.rs:137-144 | with nothing pending, nothing changes; otherwise exactly one line, the fragments joined in order, enters the history; the buffer ends empty and the screen keeps showing the history |
| `WindowSpec.LineJoinsFragments` | src/main.rs:122-131 | fragments followed by a line produce exactly one history entry, which is all pending fragments and the line's text concatenated in order |
| `WindowSpec.FragmentsMakeOneEntry` | src/main.rs:122-135 | fragments `a`, `b` followed by `Line("")` give the single entry `ab` |
| `WindowSpec.StepTracks` | src/main.rs:84-87 | a `Fragment` message only grows the buffer; a `Line` message empties it into one new history entry; both keep the screen showing the history |
| `WindowSpec.FeedTracksLines` | src/main.rs:80-89 | after a message stream, the history is the last `cap` of the completed logical lines, and the fragments after the last line stay pending; the screen keeps showing the history |
| `WindowSpec.SessionShowsRecentLines` | src/main.rs:80-109 | after the stream and the drop, the history is the last `min(cap, retain)` logical lines. The screen below the earlier output shows the last `cap` lines cut to the width when no more than `retain` of them are kept; otherwise it shows exactly the last `retain` lines, uncut |
| `Window.Emitter.constructor` | src/main.rs:113-120 | a new emitter has an empty history and no fragments, capacity `lines` and the given `retain`, and it has not drawn anything |
| `Window.Emitter.AddFragment` | src/main.rs:133-135 | appends exactly one fragment to the buffer; the history and the screen are unchanged |
| `Window.Emitter.AddLine` | src/main.rs:122-131 | takes the pending fragments and writes them and the new text as one line, leaving the buffer empty |
| `Window.Emitter.FlushFragments` | src/main.rs:137-144 | carries out `Flush` on the emitter's state |
| `Window.Emitter.WriteLine` | src/main.rs:146-160 | carries out `Write`: appends one cut row while the history has room; otherwise pops the oldest entry, clears `cap` rows and rewrites every entry cut to the width |
| `Window.Emitter.Truncate` | src/main.rs:162-173 | carries out `Truncate`: clears the block, pops entries down to `retain`, and rewrites the survivors uncut |
| `Window.Emitter.Close` | src/main.rs:104-109 | the drop: flush, then truncate to the emitter's `retain` |
| `Window.ConsoleWriter` | src/main.rs:80-90 | the terminal ends with its earlier rows followed by the last `min(lines, retain)` logical lines of the stream, cut to the width when no more than `retain` of them were kept, otherwise uncut |
| `Pipeline.ReaderLines` | src/main.rs:56-78 | no logical line made from the reader's messages holds a newline, and each followed by a newline they spell out the input (with a final newline added when the input lacks one) |
| `Pipeline.Run` | src/main.rs:29-49 | the program leaves the terminal showing its earlier rows followed by the last `min(lines, retain)` lines of the input |

## Left out

- Threads, the `mpsc` channel, `thread::Builder` and `join` (src/main.rs:32-48) are concurrency plumbing. `Run` runs the reader to the end and then the writer on everything it sent. The channel preserves order and loses nothing, so the writer sees the same messages.
- Command-line parsing with clap (src/main.rs:17-27, 30) is not modelled. `lines` and `retain` are plain parameters; `retain` defaults to `lines` in the source (src/main.rs:39).
- I/O errors are not modelled: read errors, send errors, and terminal write and clear errors. (The size query at src/main.rs:147 cannot fail.) The same goes for their `?` propagation, the `.unwrap()` panic at src/main.rs:87 and the `let _ =` that drops the error in `Drop`. Every operation is modelled as succeeding.
- The `console` crate is a foreign library. `Term` is an abstract list of rows. Real cursor movement, escape codes and the terminal's own scrolling are not modelled, and the width is a parameter rather than a query.
- Window.Emitter.constructor: requires `1 <= lines`. With `-n 0` the source's behaviour depends on how `VecDeque` grows its capacity, which is not part of this model. For `lines >= 1` the capacity is taken to be exactly `lines`, although Rust only promises at least `lines`.
- Reader.NextChunk: standard input is modelled as one finite string with a final end, as for a file or a pipe. Input that reports end of file and then delivers more is not modelled, for example a terminal after Ctrl-D in the middle of a line. There `read_line` at src/main.rs:62 returns an unterminated chunk, and the loop at src/main.rs:60-75 carries on. The "whole rest" clause of `NextChunk` holds only for input whose end is final.
- Reader.CommandsShape: its last clause, that only the last message can be a `Fragment`, holds only for input whose end is final. A run of fragments followed by a line, which such input can produce, is still covered on any message stream by `WindowSpec.LineJoinsFragments` and `WindowSpec.FeedTracksLines`.
- Strings are sequences of characters. The byte slicing at src/main.rs:149 and 156 is modelled as taking a prefix. The source counts the cut in bytes and the model counts it in characters, so the two agree only on ASCII text: for `héllo` at width 3 the source writes `hé` and the model `hél`. The panic when a UTF-8 character straddles the cut is not modelled, and neither is invalid UTF-8 on input.
- The `RefCell` around `fragments` has no behavioural meaning here, so `fragments` is a plain field.
- The drop is modelled as one explicit `Close` call at the end of `ConsoleWriter`.
- WindowSpec.SessionShowsRecentLines, Window.ConsoleWriter and Pipeline.Run use one width for the whole session. For a width that changes between writes, `WindowSpec.WriteKeepsShows` gives the weaker guarantee that each row shows a prefix of its entry.
