/**
 The reader side of the pipeline: standard input is read one `read_line` at a
 time and every chunk is classified as a complete `Line` or an incomplete
 `Fragment` before it is sent, in order, to the window engine.
 */
module Reader {

  /** A message from the reader to the window engine. */
  datatype Cmd = Fragment(text: string) | Line(text: string)

  predicate EndsInNewline(s: string) {
    |s| > 0 && s[|s| - 1] == '\n'
  }

  /** `trim_end_matches('\n')`: drops every trailing newline. */
  function TrimNewlines(s: string): (r: string)
    ensures r <= s
    ensures !EndsInNewline(r)
    ensures forall i :: |r| <= i < |s| ==> s[i] == '\n'
  {
    if EndsInNewline(s) then TrimNewlines(s[..|s| - 1]) else s
  }

  /**
   The classification of one non-empty chunk: a chunk whose trimmed length
   equals its length becomes a `Fragment` carrying it unchanged; otherwise it
   becomes a `Line` carrying the chunk without its trailing newlines.
   */
  function Classify(chunk: string): (c: Cmd)
    ensures !EndsInNewline(chunk) ==> c == Fragment(chunk)
    ensures EndsInNewline(chunk) ==>
      && c.Line?
      && c.text < chunk
      && !EndsInNewline(c.text)
      && forall i :: |c.text| <= i < |chunk| ==> chunk[i] == '\n'
  {
    var trimmed := TrimNewlines(chunk);
    if |trimmed| == |chunk| then Fragment(chunk) else Line(trimmed)
  }

  /**
   What one `read_line` call takes from the rest of the input: everything up to
   and including the first newline, or all of the rest when it holds none.
   The chunk is empty exactly when the input is exhausted.
   */
  function NextChunk(s: string): (chunk: string)
    ensures chunk <= s
    ensures |chunk| == 0 <==> |s| == 0
    ensures forall i :: 0 <= i < |chunk| - 1 ==> chunk[i] != '\n'
    ensures chunk == s || EndsInNewline(chunk)
  {
    if s == [] then []
    else if s[0] == '\n' then ['\n']
    else [s[0]] + NextChunk(s[1..])
  }

  /** The messages the reader sends for the whole input, in read order. */
  function Commands(input: string): (cmds: seq<Cmd>)
    ensures |cmds| <= |input|
    ensures cmds == [] <==> input == []
    decreases |input|
  {
    if input == [] then []
    else
      var chunk := NextChunk(input);
      [Classify(chunk)] + Commands(input[|chunk|..])
  }

  /** One more chunk sent keeps `sent` followed by what is left equal to the whole. */
  lemma SendNext(sent: seq<Cmd>, rest: string, all: seq<Cmd>)
    requires rest != [] && sent + Commands(rest) == all
    ensures (sent + [Classify(NextChunk(rest))]) + Commands(rest[|NextChunk(rest)|..]) == all
  {
    var c := Classify(NextChunk(rest));
    var later := Commands(rest[|NextChunk(rest)|..]);
    assert Commands(rest) == [c] + later;
    assert (sent + [c]) + later == sent + ([c] + later);
  }

  /**
   The reader loop: read a chunk, stop on a zero-length read, otherwise send
   its classification. Sending is appending to `sent`.
   */
  method PipeReader(input: string) returns (sent: seq<Cmd>)
    ensures sent == Commands(input)
  {
    var rest := input;
    sent := [];
    while true
      invariant sent + Commands(rest) == Commands(input)
      decreases |rest|
    {
      var chunk := NextChunk(rest);
      if |chunk| == 0 {
        break;
      }
      SendNext(sent, rest, Commands(input));
      sent := sent + [Classify(chunk)];
      rest := rest[|chunk|..];
    }
  }

  /** The input text a message stands for: a line gets its newline back. */
  function Raw(c: Cmd): string {
    match c
    case Fragment(t) => t
    case Line(t) => t + "\n"
  }

  function Text(cmds: seq<Cmd>): string {
    if cmds == [] then [] else Raw(cmds[0]) + Text(cmds[1..])
  }

  /** A chunk taken by `read_line` is exactly what its message stands for. */
  lemma ChunkRestored(s: string)
    requires s != []
    ensures Raw(Classify(NextChunk(s))) == NextChunk(s)
  {
    var chunk := NextChunk(s);
    if EndsInNewline(chunk) {
      var t := Classify(chunk).text;
      assert chunk[|t|] == '\n';
      assert |t| == |chunk| - 1;
      assert t + "\n" == chunk;
    }
  }

  lemma TextCons(c: Cmd, cmds: seq<Cmd>)
    ensures Text([c] + cmds) == Raw(c) + Text(cmds)
  {
    assert ([c] + cmds)[1..] == cmds;
  }

  lemma PrefixThenRest(s: string, p: string)
    requires p <= s
    ensures p + s[|p|..] == s
  {
    assert p == s[..|p|];
  }

  /** Nothing is lost, added or reordered: the messages spell out the input. */
  lemma {:induction false} CommandsRestoreInput(input: string)
    ensures Text(Commands(input)) == input
    decreases |input|
  {
    if input != [] {
      var chunk := NextChunk(input);
      var rest := input[|chunk|..];
      assert Commands(input) == [Classify(chunk)] + Commands(rest);
      CommandsRestoreInput(rest);
      ChunkRestored(input);
      TextCons(Classify(chunk), Commands(rest));
      PrefixThenRest(input, chunk);
    }
  }

  /** The message of one chunk carries no newline. */
  lemma ClassifiedHasNoNewline(s: string)
    requires s != []
    ensures '\n' !in Classify(NextChunk(s)).text
  {
    var chunk := NextChunk(s);
    var c := Classify(chunk);
    ChunkRestored(s);
    if EndsInNewline(chunk) {
      assert c.text + "\n" == chunk;
      assert forall i :: 0 <= i < |c.text| ==> c.text[i] == chunk[i];
    } else {
      assert c.text == chunk;
    }
  }

  /**
   The messages never carry a newline, a `Fragment` is never empty, and only
   the last message can be a `Fragment` (an unterminated tail of the input).
   */
  lemma {:induction false} CommandsShape(input: string)
    ensures forall k :: 0 <= k < |Commands(input)| ==> '\n' !in Commands(input)[k].text
    ensures forall k :: 0 <= k < |Commands(input)| ==>
              Commands(input)[k].Fragment? ==> Commands(input)[k].text != []
    ensures forall k :: 0 <= k < |Commands(input)| - 1 ==> Commands(input)[k].Line?
    decreases |input|
  {
    if input != [] {
      var chunk := NextChunk(input);
      var rest := input[|chunk|..];
      CommandsShape(rest);
      ClassifiedHasNoNewline(input);
      var c := Classify(chunk);
      if c.Fragment? {
        assert chunk == input;
        assert rest == [];
      }
      assert Commands(input) == [c] + Commands(rest);
    }
  }
}
