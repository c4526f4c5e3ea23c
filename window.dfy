/**
 The window engine as the program runs it: an `Emitter` object that owns the
 pending fragments, the bounded history and the terminal, and updates them in
 place. Every method is proved to carry out the matching function of
 `WindowSpec` on the emitter's `State()`, and to keep the bottom of the terminal
 showing the history.
 */
module Window {
  import opened Reader
  import opened Terminal
  import opened WindowSpec

  class Emitter {
    /** The history; its capacity is `cap`, the configured number of lines. */
    var lines: seq<string>
    const cap: nat
    const retain: nat
    var fragments: seq<string>
    const term: Term
    /** The rows the terminal showed before the emitter wrote anything. */
    ghost const above: seq<string>

    ghost predicate Valid()
      reads this, term
    {
      1 <= cap && |lines| <= cap && Shows(State(), above)
    }

    function State(): View
      reads this, term
    {
      View(lines, fragments, term.rows)
    }

    /** `Emitter::new` with `lines` and `retain` taken from the options. */
    constructor (lines: nat, retain: nat, term: Term)
      requires 1 <= lines
      ensures Valid()
      ensures State() == View([], [], term.rows) && above == term.rows
      ensures cap == lines && this.retain == retain && this.term == term
    {
      this.lines := [];
      this.cap := lines;
      this.retain := retain;
      this.fragments := [];
      this.term := term;
      this.above := term.rows;
    }

    method AddFragment(fragment: string)
      requires Valid()
      modifies this`fragments
      ensures Valid()
      ensures State() == WindowSpec.AddFragment(old(State()), fragment)
      ensures lines == old(lines) && term.rows == old(term.rows)
    {
      fragments := fragments + [fragment];
    }

    method AddLine(newLine: string, width: nat)
      requires Valid()
      modifies this`lines, this`fragments, term
      ensures Valid()
      ensures State() == WindowSpec.AddLine(old(State()), cap, newLine, width)
    {
      var taken := fragments;
      fragments := [];
      var line;
      if taken == [] {
        line := newLine;
        JoinOne(newLine);
        assert taken + [newLine] == [newLine];
      } else {
        line := Join(taken + [newLine]);
      }
      WriteLine(line, width);
    }

    method FlushFragments(width: nat)
      requires Valid()
      modifies this`lines, this`fragments, term
      ensures Valid()
      ensures State() == Flush(old(State()), cap, width)
    {
      var taken := fragments;
      fragments := [];
      if taken != [] {
        WriteLine(Join(taken), width);
      }
    }

    /**
     `write_line` at the terminal's current `width`: append below the block
     while the history has room, otherwise drop the oldest entry, clear the
     `cap` rows of the block and write every entry again.
     */
    method WriteLine(line: string, width: nat)
      requires Valid()
      modifies this`lines, term
      ensures Valid()
      ensures State() == Write(old(State()), cap, line, width)
    {
      ghost var v := State();
      WriteKeepsShows(v, above, cap, line, width);
      if |lines| < cap {
        term.WriteLine(Cut(line, width));
        lines := lines + [line];
      } else {
        lines := lines[1..];
        lines := lines + [line];
        term.ClearLastLines(cap);
        for i := 0 to |lines|
          modifies term
          invariant term.rows == ClearLast(v.rows, cap) + Render(lines[..i], width)
        {
          RenderNext(ClearLast(v.rows, cap), lines, i, width);
          term.WriteLine(Cut(lines[i], width));
        }
        assert lines[..|lines|] == lines;
      }
    }

    /**
     `truncate(retain)`: when the history is longer than `retain`, clear its
     block, drop the oldest entries down to `retain` and write the rest uncut.
     */
    method Truncate(retain: nat)
      requires Valid()
      modifies this`lines, term
      ensures Valid()
      ensures State() == WindowSpec.Truncate(old(State()), retain)
    {
      ghost var v := State();
      TruncateKeepsLast(v, above, retain);
      if |lines| > retain {
        term.ClearLastLines(|lines|);
        while |lines| > retain
          modifies this`lines
          invariant retain <= |lines| <= |v.history|
          invariant lines == v.history[|v.history| - |lines|..]
        {
          lines := lines[1..];
        }
        for i := 0 to |lines|
          modifies term
          invariant term.rows == ClearLast(v.rows, |v.history|) + lines[..i]
        {
          WriteNext(ClearLast(v.rows, |v.history|), lines, i);
          term.WriteLine(lines[i]);
        }
        assert lines[..|lines|] == lines;
      }
    }

    /** Dropping the emitter: flush the fragments, then truncate to `retain`. */
    method Close(width: nat)
      requires Valid()
      modifies this`lines, this`fragments, term
      ensures Valid()
      ensures State() == WindowSpec.Close(old(State()), cap, retain, width)
    {
      FlushFragments(width);
      Truncate(retain);
    }
  }

  /**
   `console_writer`: an emitter receives the messages in order, then is
   dropped. The terminal ends up showing, below what it showed before, the
   last `min(lines, retain)` logical lines of the stream: cut to the width when
   no more than `retain` were kept, otherwise uncut.
   */
  method ConsoleWriter(lines: nat, retain: nat, cmds: seq<Cmd>, term: Term, width: nat)
    requires 1 <= lines
    modifies term
    ensures term.rows == Close(Feed(View([], [], old(term.rows)), lines, cmds, width), lines, retain, width).rows
    ensures var kept := Last(LogicalLines(cmds), lines);
            term.rows == old(term.rows) + (if |kept| > retain then Last(kept, retain) else Render(kept, width))
  {
    var emitter := new Emitter(lines, retain, term);
    ghost var start := emitter.State();
    for k := 0 to |cmds|
      invariant emitter.Valid() && emitter.term == term && emitter.cap == lines && emitter.retain == retain
      invariant Feed(emitter.State(), lines, cmds[k..], width) == Feed(start, lines, cmds, width)
    {
      assert cmds[k..][0] == cmds[k] && cmds[k..][1..] == cmds[k + 1..];
      match cmds[k]
      case Fragment(f) => emitter.AddFragment(f);
      case Line(t) => emitter.AddLine(t, width);
    }
    assert cmds[|cmds|..] == [];
    emitter.Close(width);
    SessionShowsRecentLines(old(term.rows), lines, retain, cmds, width);
  }
}
