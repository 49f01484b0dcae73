/** The text buffer of drivers/text_editor.c: rows, columns and a cursor that amount to a
    string with push and pop. */
module Editor {

  type byte = x: int | 0 <= x < 256

  const COLS: nat := 26
  const WIDTH: nat := 25
  const ROWS: nat := 12
  const SAVE_SIZE: nat := 512
  const NEWLINE: byte := 10
  const RETURN: byte := 13
  const BACKSPACE: byte := 8
  const ESCAPE: byte := 27

  type Line = seq<byte>
  type Text = seq<byte>

  predicate Printable(c: byte) {
    32 <= c < 127
  }

  // ----- documents -----------------------------------------------------------------------

  ghost predicate LineOk(l: Line) {
    |l| <= WIDTH && forall i :: 0 <= i < |l| ==> Printable(l[i])
  }

  /** At most twelve lines of at most 25 printable characters, at least one. */
  ghost predicate DocOk(doc: seq<Line>) {
    0 < |doc| <= ROWS && forall r :: 0 <= r < |doc| ==> LineOk(doc[r])
  }

  /** The document as one string. */
  function TextOf(doc: seq<Line>): Text {
    if doc == [] then []
    else if |doc| == 1 then doc[0]
    else TextOf(doc[..|doc| - 1]) + [NEWLINE] + doc[|doc| - 1]
  }

  function Last(doc: seq<Line>): Line {
    if doc == [] then [] else doc[|doc| - 1]
  }

  function Init(doc: seq<Line>): seq<Line> {
    if doc == [] then [] else doc[..|doc| - 1]
  }

  function Pushed(doc: seq<Line>, c: byte): seq<Line> {
    Init(doc) + [Last(doc) + [c]]
  }

  /** A character goes to the end of the last line if the line has room. */
  function Inserted(doc: seq<Line>, c: byte): seq<Line> {
    if |Last(doc)| < WIDTH then Pushed(doc, c) else doc
  }

  /** A new line starts if a row is left. */
  function Broken(doc: seq<Line>): seq<Line> {
    if |doc| < ROWS then doc + [[]] else doc
  }

  /** The last character goes, be it the break before an empty line. */
  function Erased(doc: seq<Line>): seq<Line> {
    if Last(doc) != [] then Init(doc) + [Last(doc)[..|Last(doc)| - 1]]
    else if |doc| > 1 then Init(doc)
    else doc
  }

  function RowOf(doc: seq<Line>, r: nat): Line {
    if r < |doc| then doc[r] else []
  }

  lemma EmptyDoc()
    ensures DocOk([[]]) && TextOf([[]]) == [] && forall r: nat :: RowOf([[]], r) == []
  {
  }

  lemma TextSplit(doc: seq<Line>)
    requires doc != []
    ensures TextOf(doc) == if |doc| == 1 then Last(doc) else TextOf(Init(doc)) + [NEWLINE] + Last(doc)
  {
  }

  lemma TextOfLast(doc: seq<Line>, l: Line)
    requires doc != []
    ensures TextOf(Init(doc) + [l]) == if |doc| == 1 then l else TextOf(Init(doc)) + [NEWLINE] + l
  {
    var d := Init(doc) + [l];
    assert Init(d) == Init(doc) && Last(d) == l;
    TextSplit(d);
  }

  /** Typing a character appends it, if the line has room. */
  lemma DocRows(doc: seq<Line>)
    requires DocOk(doc)
    ensures 0 < |doc| <= ROWS && forall r :: 0 <= r < |doc| ==> LineOk(doc[r])
  {
  }

  lemma InsertAppends(doc: seq<Line>, c: byte)
    requires DocOk(doc) && Printable(c)
    ensures DocOk(Inserted(doc, c))
    ensures TextOf(Inserted(doc, c)) == if |Last(doc)| < WIDTH then TextOf(doc) + [c] else TextOf(doc)
  {
    TextSplit(doc);
    TextOfLast(doc, Last(doc) + [c]);
    if |Last(doc)| < WIDTH {
      forall r | 0 <= r < |doc|
        ensures LineOk(Pushed(doc, c)[r])
      {
        assert LineOk(doc[r]);
      }
    }
  }

  /** Enter appends a line break, if a row is left. */
  lemma BreakAppends(doc: seq<Line>)
    requires DocOk(doc)
    ensures DocOk(Broken(doc))
    ensures TextOf(Broken(doc)) == if |doc| < ROWS then TextOf(doc) + [NEWLINE] else TextOf(doc)
  {
    if |doc| < ROWS {
      var d: seq<Line> := doc + [[]];
      assert Init(d) == doc && Last(d) == [];
      TextSplit(d);
      assert TextOf(doc) + [NEWLINE] + [] == TextOf(doc) + [NEWLINE];
    }
  }

  lemma ErasedOk(doc: seq<Line>)
    requires DocOk(doc)
    ensures DocOk(Erased(doc))
  {
    assert LineOk(doc[|doc| - 1]);
    forall r | 0 <= r < |Erased(doc)|
      ensures LineOk(Erased(doc)[r])
    {
      assert LineOk(doc[r]);
    }
  }

  /** Backspace drops the last character of the string, if there is one. */
  lemma DropLast(a: Text, b: Text)
    requires b != []
    ensures (a + b)[..|a + b| - 1] == a + b[..|b| - 1]
  {
  }

  lemma EraseDrops(doc: seq<Line>)
    requires DocOk(doc)
    ensures DocOk(Erased(doc))
    ensures TextOf(Erased(doc)) == if TextOf(doc) == [] then [] else TextOf(doc)[..|TextOf(doc)| - 1]
  {
    hide TextOf, DocOk, Init;
    DocRows(doc);
    ErasedOk(doc);
    TextSplit(doc);
    var l := Last(doc);
    if l != [] {
      TextOfLast(doc, l[..|l| - 1]);
      DropLast(TextOf(Init(doc)) + [NEWLINE], l);
    } else if |doc| > 1 {
      DropLast(TextOf(Init(doc)), [NEWLINE]);
      assert TextOf(doc) == TextOf(Init(doc)) + [NEWLINE];
    }
  }

  /** Backspace undoes a keystroke that changed the text. */
  lemma EraseUndoes(doc: seq<Line>, c: byte)
    requires DocOk(doc) && Printable(c)
    ensures |Last(doc)| < WIDTH ==> Erased(Inserted(doc, c)) == doc
    ensures |doc| < ROWS ==> Erased(Broken(doc)) == doc
  {
    hide DocOk;
    DocRows(doc);
    var d, e := Init(doc) + [Last(doc) + [c]], doc + [[]];
    assert Init(d) == Init(doc) && Last(d) == Last(doc) + [c] && Last(d)[..|Last(d)| - 1] == Last(doc);
    assert Init(doc) + [Last(doc)] == doc;
    assert Init(e) == doc && Last(e) == [];
  }

  /** Every document fits the save buffer. */
  lemma {:induction false} TextBound(doc: seq<Line>)
    requires doc != [] && forall r :: 0 <= r < |doc| ==> LineOk(doc[r])
    ensures |TextOf(doc)| <= 26 * |doc| - 1
  {
    TextSplit(doc);
    assert LineOk(doc[|doc| - 1]);
    if |doc| > 1 {
      TextBound(doc[..|doc| - 1]);
    }
  }

  // ----- loading ------------------------------------------------------------------------------

  /** A document being loaded, whether something was cut, and whether loading stopped. */
  datatype Loading = Loading(doc: seq<Line>, truncated: bool, stopped: bool)

  function Fed(s: Loading, c: byte): Loading {
    if s.stopped || c == RETURN then s
    else if c == NEWLINE then
      if |s.doc| >= ROWS then s.(truncated := true, stopped := true) else s.(doc := s.doc + [[]])
    else if !Printable(c) then s
    else if |Last(s.doc)| >= WIDTH then s.(truncated := true)
    else s.(doc := Pushed(s.doc, c))
  }

  function Loaded(b: Text): Loading {
    if b == [] then Loading([[]], false, false) else Fed(Loaded(b[..|b| - 1]), b[|b| - 1])
  }

  /** What of the bytes an editor can hold: printable characters and line breaks. */
  function Kept(b: Text): Text {
    if b == [] then []
    else
      var c := b[|b| - 1];
      Kept(b[..|b| - 1]) + if c == NEWLINE || Printable(c) then [c] else []
  }

  lemma {:induction false} LoadedOk(b: Text)
    ensures DocOk(Loaded(b).doc)
    ensures !Loaded(b).truncated ==> !Loaded(b).stopped && TextOf(Loaded(b).doc) == Kept(b)
  {
    if b == [] {
      assert TextOf([[]]) == [];
    } else {
      var s, c := Loaded(b[..|b| - 1]), b[|b| - 1];
      LoadedOk(b[..|b| - 1]);
      hide Loaded, Kept, TextOf, DocOk;
      LoadedStep(b);
      if Printable(c) {
        InsertAppends(s.doc, c);
      }
      BreakAppends(s.doc);
      assert Kept(b[..|b| - 1]) + [] == Kept(b[..|b| - 1]);
    }
  }

  lemma LoadedStep(b: Text)
    requires b != []
    ensures Loaded(b) == Fed(Loaded(b[..|b| - 1]), b[|b| - 1])
    ensures var c := b[|b| - 1]; Kept(b) == Kept(b[..|b| - 1]) + if c == NEWLINE || Printable(c) then [c] else []
  {
  }

  /** Loading more of one line. */
  lemma {:induction false} LoadLine(b: Text, doc: seq<Line>, l: Line)
    requires Loaded(b) == Loading(doc + [[]], false, false) && LineOk(l)
    ensures Loaded(b + l) == Loading(doc + [l], false, false)
  {
    hide Loaded, Fed, Kept;
    if l == [] {
      assert b + l == b;
    } else {
      var l', c := l[..|l| - 1], l[|l| - 1];
      assert LineOk(l') && Printable(c) && l' + [c] == l;
      LoadLine(b, doc, l');
      assert (b + l)[..|b + l| - 1] == b + l' && (b + l)[|b + l| - 1] == c;
      LoadedStep(b + l);
      FedChar(doc, l', c);
    }
  }

  lemma FedChar(doc: seq<Line>, l: Line, c: byte)
    requires Printable(c) && |l| < WIDTH
    ensures Fed(Loading(doc + [l], false, false), c) == Loading(doc + [l + [c]], false, false)
  {
    var d := doc + [l];
    assert Last(d) == l && Init(d) == doc;
  }

  /** Loading the string of a document gives the document back, with nothing cut. */
  lemma {:induction false} LoadRoundTrip(doc: seq<Line>)
    requires DocOk(doc)
    ensures Loaded(TextOf(doc)) == Loading(doc, false, false)
  {
    hide Loaded, TextOf, Fed, Kept;
    var init: seq<Line>, l := Init(doc), Last(doc);
    assert LineOk(doc[|doc| - 1]);
    TextSplit(doc);
    if |doc| == 1 {
      var nothing: Text, none: seq<Line> := [], [];
      assert none + [[]] == [[]] && nothing + l == l && none + [l] == doc;
      NothingLoaded();
      LoadLine(nothing, none, l);
    } else {
      assert forall r :: 0 <= r < |init| ==> init[r] == doc[r];
      LoadRoundTrip(init);
      var t := TextOf(init) + [NEWLINE];
      LoadedStep(t);
      assert t[..|t| - 1] == TextOf(init);
      FedBreak(init);
      LoadLine(t, init, l);
      assert init + [l] == doc && TextOf(doc) == t + l;
    }
  }

  lemma NothingLoaded()
    ensures Loaded([]) == Loading([[]], false, false)
  {
  }

  lemma FedBreak(doc: seq<Line>)
    requires |doc| < ROWS
    ensures Fed(Loading(doc, false, false), NEWLINE) == Loading(doc + [[]], false, false)
  {
  }

  // ----- the code --------------------------------------------------------------------------------

  class Editor {
    var lines: array2<byte>
    var cursorCol: nat
    var cursorRow: nat
    var truncated: bool
    var dirty: bool

    /** Row r shows l, and nothing behind it. */
    ghost predicate Shows(r: nat, l: Line)
      reads `lines, lines
      requires lines.Length0 == ROWS && lines.Length1 == COLS && r < ROWS
    {
      |l| <= WIDTH && forall c :: 0 <= c < COLS ==> lines[r, c] == if c < |l| then l[c] else 0
    }

    /** The cells are those of the document, the rows below are blank, and the cursor is
        at the document's end. */
    ghost predicate Holds(doc: seq<Line>)
      reads this, lines
    {
      && lines.Length0 == ROWS && lines.Length1 == COLS && DocOk(doc)
      && cursorRow == |doc| - 1 && cursorCol == |Last(doc)|
      && forall r :: 0 <= r < ROWS ==> Shows(r, RowOf(doc, r))
    }

    constructor ()
      ensures Holds([[]]) && !truncated && fresh(lines)
    {
      lines := new byte[ROWS, COLS]((_, _) => 0);
      cursorCol, cursorRow, truncated, dirty := 0, 0, false, false;
      new;
      EmptyDoc();
    }

    /** editor_clear_buffer. */
    method Clear()
      requires lines.Length0 == ROWS && lines.Length1 == COLS
      modifies this, lines
      ensures Holds([[]]) && !truncated && lines == old(lines)
    {
      forall r, c | 0 <= r < ROWS && 0 <= c < COLS {
        lines[r, c] := 0;
      }
      cursorCol, cursorRow, truncated := 0, 0, false;
      EmptyDoc();
    }

    /** A character at the cursor, which moves on. */
    method Put(c: byte, ghost doc: seq<Line>)
      requires Holds(doc) && Printable(c) && |Last(doc)| < WIDTH
      modifies lines, this`cursorCol
      ensures Holds(Pushed(doc, c))
    {
      hide DocOk, TextOf;
      ghost var doc' := Pushed(doc, c);
      DocRows(doc);
      InsertAppends(doc, c);
      lines[cursorRow, cursorCol] := c;
      cursorCol := cursorCol + 1;
      forall r | 0 <= r < ROWS
        ensures Shows(r, RowOf(doc', r))
      {
        assert old(Shows(r, RowOf(doc, r)));
      }
    }

    /** editor_insert_char. */
    method InsertChar(c: byte, ghost doc: seq<Line>)
      requires Holds(doc) && Printable(c)
      modifies lines, this
      ensures Holds(Inserted(doc, c)) && lines == old(lines) && truncated == old(truncated)
    {
      if cursorRow >= ROWS {
        return;
      }
      if cursorCol >= COLS - 1 {
        return;
      }
      Put(c, doc);
      dirty := true;
    }

    method NextRow(ghost doc: seq<Line>)
      requires Holds(doc) && |doc| < ROWS
      modifies this`cursorRow, this`cursorCol
      ensures Holds(doc + [[]])
    {
      BreakAppends(doc);
      ghost var doc': seq<Line> := doc + [[]];
      cursorRow := cursorRow + 1;
      cursorCol := 0;
      forall r | 0 <= r < ROWS
        ensures Shows(r, RowOf(doc', r))
      {
        assert old(Shows(r, RowOf(doc, r)));
      }
    }

    /** editor_newline. */
    method Newline(ghost doc: seq<Line>)
      requires Holds(doc)
      modifies this
      ensures Holds(Broken(doc)) && lines == old(lines) && truncated == old(truncated)
    {
      if cursorRow + 1 >= ROWS {
        return;
      }
      NextRow(doc);
      dirty := true;
    }

    /** The character before the cursor goes. */
    method EraseChar(ghost doc: seq<Line>)
      requires Holds(doc) && cursorCol > 0
      modifies lines, this`cursorCol
      ensures Holds(Erased(doc))
    {
      hide TextOf;
      EraseDrops(doc);
      ghost var doc' := Erased(doc);
      cursorCol := cursorCol - 1;
      lines[cursorRow, cursorCol] := 0;
      forall r | 0 <= r < ROWS
        ensures Shows(r, RowOf(doc', r))
      {
        assert old(Shows(r, RowOf(doc, r)));
      }
    }

    /** The cursor goes to the end of the row above: the first column that holds nothing. */
    method JoinRow(ghost doc: seq<Line>)
      requires Holds(doc) && cursorCol == 0 && cursorRow > 0
      modifies this`cursorCol, this`cursorRow
      ensures Holds(Erased(doc))
    {
      hide TextOf;
      EraseDrops(doc);
      ghost var doc', l := Erased(doc), doc[cursorRow - 1];
      assert LineOk(l) && Shows(cursorRow - 1, RowOf(doc, cursorRow - 1));
      cursorRow := cursorRow - 1;
      cursorCol := 0;
      while cursorCol < COLS - 1 && lines[cursorRow, cursorCol] != 0
        invariant cursorCol <= |l| && cursorRow == old(cursorRow) - 1
      {
        cursorCol := cursorCol + 1;
      }
      forall r | 0 <= r < ROWS
        ensures Shows(r, RowOf(doc', r))
      {
        assert Shows(r, RowOf(doc, r));
      }
    }

    /** editor_backspace. */
    method Backspace(ghost doc: seq<Line>)
      requires Holds(doc)
      modifies this, lines
      ensures Holds(Erased(doc)) && lines == old(lines) && truncated == old(truncated)
    {
      hide TextOf, LineOk;
      if cursorCol > 0 {
        EraseChar(doc);
        dirty := true;
        return;
      }
      if cursorRow > 0 {
        JoinRow(doc);
        dirty := true;
      }
    }

    // ----- loading and saving ---------------------------------------------------------------

    /** editor_load_bytes: the document that the bytes load to, and whether any were cut. */
    method LoadBytes(buffer: seq<byte>)
      requires lines.Length0 == ROWS && lines.Length1 == COLS
      modifies this, lines
      ensures Holds(Loaded(buffer).doc) && truncated == Loaded(buffer).truncated && lines == old(lines)
    {
      hide Loaded, DocOk, TextOf, Kept;
      Clear();
      NothingLoaded();
      var i, stopped := 0, false;
      assert buffer[..0] == [];
      while i < |buffer| && !stopped
        invariant 0 <= i <= |buffer| && lines == old(lines)
        invariant Holds(Loaded(buffer[..i]).doc) && truncated == Loaded(buffer[..i]).truncated
        invariant stopped == Loaded(buffer[..i]).stopped
      {
        assert buffer[..i + 1][..i] == buffer[..i];
        LoadedStep(buffer[..i + 1]);
        stopped := LoadByte(buffer[i], Loaded(buffer[..i]));
        i := i + 1;
      }
      if stopped {
        StoppedStays(buffer, i);
      } else {
        assert buffer[..i] == buffer;
      }
    }

    /** One byte of a load: dropped, a break, or a character; the row limit stops the load. */
    method LoadByte(c: byte, ghost s: Loading) returns (stopped: bool)
      requires Holds(s.doc) && truncated == s.truncated && !s.stopped
      modifies this, lines
      ensures Holds(Fed(s, c).doc) && truncated == Fed(s, c).truncated && stopped == Fed(s, c).stopped && lines == old(lines)
    {
      hide TextOf, LineOk;
      if c == RETURN {
        return false;
      }
      if c == NEWLINE {
        if cursorRow + 1 >= ROWS {
          truncated := true;
          return true;
        }
        NextRow(s.doc);
        return false;
      }
      if c < 32 || c >= 127 {
        return false;
      }
      if cursorCol >= COLS - 1 {
        truncated := true;
        return false;
      }
      Put(c, s.doc);
      return false;
    }

    /** One row copied out, up to its last cell in use. */
    method CopyRow(row: nat, buffer: array<byte>, start: nat, ghost doc: seq<Line>) returns (out: nat)
      requires Holds(doc) && row < |doc| && buffer.Length == SAVE_SIZE && start + WIDTH < SAVE_SIZE
      modifies buffer
      ensures out == start + |doc[row]| && buffer[..out] == old(buffer[..start]) + doc[row]
    {
      ghost var l := doc[row];
      assert Shows(row, RowOf(doc, row)) && LineOk(l);
      var lineEnd := 0;
      for col := 0 to COLS - 1
        invariant lineEnd == if col < |l| then col else |l|
      {
        if lines[row, col] != 0 {
          lineEnd := col + 1;
        }
      }
      out := start;
      var col := 0;
      while col < lineEnd && out < buffer.Length
        invariant 0 <= col <= lineEnd && out == start + col
        invariant buffer[..start] == old(buffer[..start]) && forall k :: 0 <= k < col ==> buffer[start + k] == l[k]
      {
        buffer[out] := lines[row, col];
        out := out + 1;
        col := col + 1;
      }
      assert buffer[..out] == buffer[..start] + buffer[start..out];
      assert buffer[start..out] == l;
    }

    /** The first scan of a save: no row below the cursor is in use. */
    method LastRow(ghost doc: seq<Line>) returns (lastRow: nat)
      requires Holds(doc)
      ensures lastRow == |doc| - 1
    {
      lastRow := 0;
      for row := 0 to ROWS
        invariant lastRow <= cursorRow
      {
        for col := 0 to COLS - 1
          invariant lastRow <= cursorRow
        {
          assert Shows(row, RowOf(doc, row));
          if lines[row, col] != 0 {
            lastRow := row;
          }
        }
      }
      if cursorRow > lastRow {
        lastRow := cursorRow;
      }
    }

    /** editor_build_save_buffer: the buffer receives exactly the document's string. */
    method BuildSaveBuffer(buffer: array<byte>, ghost doc: seq<Line>) returns (out: nat)
      requires Holds(doc) && buffer.Length == SAVE_SIZE
      modifies buffer
      ensures out <= SAVE_SIZE && buffer[..out] == TextOf(doc)
    {
      hide TextOf, DocOk;
      var lastRow := LastRow(doc);
      out := 0;
      var row := 0;
      StartSaving(doc);
      while row <= lastRow && out < buffer.Length
        invariant 0 <= row <= |doc| && out == |Saved(doc, row)| <= 26 * row && buffer[..out] == Saved(doc, row)
      {
        SaveStep(doc, row);
        ghost var before := buffer[..out];
        out := CopyRow(row, buffer, out, doc);
        if row < lastRow && out < buffer.Length {
          ghost var b := buffer[..out];
          buffer[out] := NEWLINE;
          out := out + 1;
          assert buffer[..out] == b + [NEWLINE];
        }
        row := row + 1;
      }
      SavedAll(doc);
    }
  }

  /** The first n lines, each but the very last with its break. */
  function Saved(doc: seq<Line>, n: nat): Text
    requires n <= |doc|
  {
    if n == 0 then []
    else Saved(doc, n - 1) + doc[n - 1] + if n < |doc| then [NEWLINE] else []
  }

  lemma {:induction false} SavedIs(doc: seq<Line>, n: nat)
    requires 0 < n <= |doc|
    ensures Saved(doc, n) == TextOf(doc[..n]) + if n < |doc| then [NEWLINE] else []
  {
    if n > 1 {
      SavedIs(doc, n - 1);
      assert doc[..n][..n - 1] == doc[..n - 1];
    }
    TextSplit(doc[..n]);
  }

  lemma StartSaving(doc: seq<Line>)
    requires DocOk(doc)
    ensures |doc| <= ROWS && Saved(doc, 0) == []
  {
  }

  lemma SaveStep(doc: seq<Line>, n: nat)
    requires n < |doc| && DocOk(doc)
    ensures Saved(doc, n + 1) == Saved(doc, n) + doc[n] + if n + 1 < |doc| then [NEWLINE] else []
    ensures |doc[n]| <= WIDTH
  {
    assert LineOk(doc[n]);
  }

  lemma SavedAll(doc: seq<Line>)
    requires doc != []
    ensures Saved(doc, |doc|) == TextOf(doc)
  {
    SavedIs(doc, |doc|);
    assert doc[..|doc|] == doc;
  }

  /** Once loading has stopped the rest of the bytes do nothing. */
  lemma {:induction false} StoppedStays(b: Text, i: nat)
    requires i <= |b| && Loaded(b[..i]).stopped
    ensures Loaded(b) == Loaded(b[..i])
  {
    if i == |b| {
      assert b[..i] == b;
    } else {
      var b' := b[..|b| - 1];
      assert b'[..i] == b[..i];
      StoppedStays(b', i);
    }
  }

  // ----- runs -----------------------------------------------------------------------------------------

  /** The document after a key. */
  function Keyed(doc: seq<Line>, c: byte): seq<Line> {
    if c == BACKSPACE then Erased(doc)
    else if c == NEWLINE then Broken(doc)
    else if Printable(c) then Inserted(doc, c)
    else doc
  }

  function KeyedAll(doc: seq<Line>, keys: Text): seq<Line> {
    if keys == [] then doc else Keyed(KeyedAll(doc, keys[..|keys| - 1]), keys[|keys| - 1])
  }

  /** text_editor_handle_key with the window open; Escape saves and is not followed here. */
  method HandleKey(e: Editor, c: byte, ghost doc: seq<Line>)
    requires e.Holds(doc)
    modifies e, e.lines
    ensures e.Holds(Keyed(doc, c)) && e.lines == old(e.lines)
  {
    hide TextOf, DocOk, Erased, Broken, Inserted;
    if c == ESCAPE {
      return;
    } else if c == BACKSPACE {
      e.Backspace(doc);
    } else if c == NEWLINE {
      e.Newline(doc);
    } else if c >= 32 && c < 127 {
      e.InsertChar(c, doc);
    }
  }

  /** Loading, any keys, saving, and loading what was saved: the saved bytes are the
      string the keys made, and loading them shows the same rows and the same cursor. */
  method EditSaveLoad(e: Editor, file: Text, keys: Text, buffer: array<byte>) returns (size: nat)
    requires e.lines.Length0 == ROWS && e.lines.Length1 == COLS && buffer.Length == SAVE_SIZE
    modifies e, e.lines, buffer
    ensures var doc := KeyedAll(Loaded(file).doc, keys);
            && size <= SAVE_SIZE && buffer[..size] == TextOf(doc) && e.Holds(doc) && !e.truncated
  {
    hide TextOf, DocOk, Loaded, Keyed;
    e.LoadBytes(file);
    ghost var doc := Loaded(file).doc;
    assert keys[..0] == [];
    for i := 0 to |keys|
      invariant e.Holds(KeyedAll(doc, keys[..i])) && e.lines == old(e.lines)
    {
      assert keys[..i + 1][..i] == keys[..i];
      HandleKey(e, keys[i], KeyedAll(doc, keys[..i]));
    }
    assert keys[..|keys|] == keys;
    doc := KeyedAll(doc, keys);
    size := e.BuildSaveBuffer(buffer, doc);
    LoadRoundTrip(doc);
    e.LoadBytes(buffer[..size]);
  }
}
