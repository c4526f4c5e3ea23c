/**
 The terminal as the window engine sees it: a sequence of rows, the last of
 which is the most recently written. Writing a line adds a row at the bottom;
 clearing the last k lines removes the bottom k rows (all of them when there
 are fewer). Cursor movement and escape sequences are not modelled.
 */
module Terminal {

  /** The row a line occupies on a terminal `width` columns wide. */
  function Cut(s: string, width: nat): (r: string)
    ensures r <= s
    ensures |r| == if width < |s| then width else |s|
  {
    s[..if width < |s| then width else |s|]
  }

  /** The rows left after the bottom `k` rows are cleared. */
  function ClearLast(rows: seq<string>, k: nat): (r: seq<string>)
    ensures r <= rows
    ensures |r| == if k < |rows| then |rows| - k else 0
  {
    rows[..if k < |rows| then |rows| - k else 0]
  }

  class Term {
    var rows: seq<string>

    /** A terminal already showing `shown`, for instance the shell's prompt. */
    constructor (shown: seq<string>)
      ensures rows == shown
    {
      rows := shown;
    }

    method WriteLine(s: string)
      modifies this
      ensures rows == old(rows) + [s]
    {
      rows := rows + [s];
    }

    method ClearLastLines(k: nat)
      modifies this
      ensures rows == ClearLast(old(rows), k)
    {
      rows := ClearLast(rows, k);
    }
  }
}
