/**
 The whole program with its two threads run one after the other: the reader
 turns standard input into messages, the channel hands them over in order, and
 the console writer draws them. The channel keeps the order and loses nothing,
 so running the reader to the end and then the writer on everything it sent
 gives the same terminal as the concurrent program.
 */
module Pipeline {
  import opened Reader
  import opened Terminal
  import opened WindowSpec
  import opened Window

  /** The lines, each followed by a newline. */
  function Terminated(lines: seq<string>): string {
    if lines == [] then [] else lines[0] + "\n" + Terminated(lines[1..])
  }

  lemma TerminatedCons(line: string, lines: seq<string>)
    ensures Terminated([line] + lines) == line + "\n" + Terminated(lines)
  {
    assert ([line] + lines)[1..] == lines;
  }

  /** A `Line` message completes its text as one logical line. */
  lemma LogicalLinesAfterLine(t: string, cmds: seq<Cmd>)
    ensures LogicalLines([Line(t)] + cmds) == [t] + LogicalLines(cmds)
  {
    var all := [Line(t)] + cmds;
    assert all[0] == Line(t) && all[1..] == cmds;
    JoinOne(t);
    assert Completed([], all) == [t] + Completed([], cmds);
    assert Leftover([], all) == Leftover([], cmds);
  }

  /** A lone `Fragment` message is one unterminated logical line. */
  lemma LogicalLinesOfFragment(f: string)
    ensures LogicalLines([Fragment(f)]) == [f]
  {
    var all := [Fragment(f)];
    assert all[0] == Fragment(f) && all[1..] == [];
    assert Completed([], all) == Completed([f], []) == [];
    assert Leftover([], all) == Leftover([f], []) == [f];
    JoinOne(f);
  }

  /**
   `lines` are the lines of `input`: none holds a newline, and each followed by
   a newline they spell out the input, with a final newline added when the
   input lacks one.
   */
  predicate SpellsOut(lines: seq<string>, input: string) {
    && (forall k :: 0 <= k < |lines| ==> '\n' !in lines[k])
    && Terminated(lines) == if input == [] || EndsInNewline(input) then input else input + "\n"
  }

  lemma LineThenLines(t: string, later: seq<string>, rest: string)
    requires '\n' !in t && SpellsOut(later, rest)
    ensures SpellsOut([t] + later, t + "\n" + rest)
  {
    TerminatedCons(t, later);
    assert EndsInNewline(t + "\n");
    if rest != [] {
      assert EndsInNewline(t + "\n" + rest) == EndsInNewline(rest);
      assert t + "\n" + (rest + "\n") == (t + "\n" + rest) + "\n";
    }
    assert forall k :: 1 <= k < |[t] + later| ==> ([t] + later)[k] == later[k - 1];
  }

  lemma LoneFragment(f: string)
    requires f != [] && '\n' !in f
    ensures SpellsOut([f], f)
  {
    TerminatedCons(f, []);
  }

  /** One `read_line`: the message, what it stands for, and what is left. */
  lemma ReadStep(input: string)
    requires input != []
    ensures var chunk := NextChunk(input);
            var c := Classify(chunk);
            && Commands(input) == [c] + Commands(input[|chunk|..])
            && '\n' !in c.text
            && (c.Line? ==> input == c.text + "\n" + input[|chunk|..])
            && (c.Fragment? ==> input == c.text && Commands(input) == [c] && c.text != [])
  {
    var chunk := NextChunk(input);
    var rest := input[|chunk|..];
    Reader.PrefixThenRest(input, chunk);
    Reader.ChunkRestored(input);
    Reader.CommandsShape(input);
    assert Commands(input) == [Classify(chunk)] + Commands(rest);
    assert Commands(input)[0] == Classify(chunk);
  }

  /** The logical lines the reader's messages make are the lines of the input. */
  lemma {:induction false} ReaderLines(input: string)
    ensures SpellsOut(LogicalLines(Commands(input)), input)
    decreases |input|
  {
    if input == [] {
      assert LogicalLines([]) == [];
    } else {
      var chunk := NextChunk(input);
      var rest := input[|chunk|..];
      var c := Classify(chunk);
      ReadStep(input);
      if c.Line? {
        ReaderLines(rest);
        LogicalLinesAfterLine(c.text, Commands(rest));
        LineThenLines(c.text, LogicalLines(Commands(rest)), rest);
      } else {
        LogicalLinesOfFragment(input);
        LoneFragment(input);
      }
    }
  }

  /**
   The program on `input`: the terminal ends up showing, below what it showed
   before, the last `min(lines, retain)` lines of the input, cut to the width
   when no more than `retain` lines were kept, otherwise uncut.
   */
  method Run(input: string, lines: nat, retain: nat, term: Term, width: nat)
    requires 1 <= lines
    modifies term
    ensures var kept := Last(LogicalLines(Commands(input)), lines);
            term.rows == old(term.rows) + (if |kept| > retain then Last(kept, retain) else Render(kept, width))
  {
    var cmds := PipeReader(input);
    ConsoleWriter(lines, retain, cmds, term, width);
  }
}
