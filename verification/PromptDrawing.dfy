/** What the line editor draws: when the row of the cursor shows the prompt and the line being
    edited, and which keys spoil it. */
module PromptDrawing {
  import opened Bytes
  import opened Ascii
  import opened Wrappers
  import opened TtyPixels
  import opened TtyScreen
  import opened LineEditing
  import opened ShellInput

  // What is drawn ------------------------------------------------------------------------------------

  /** tty_set_cursor_position */
  function CursorAt(s: Screen, row: nat, col: nat): Screen {
    s.(row := if row >= TTY_ROWS then TTY_ROWS - 1 else row, col := if col >= TTY_COLS then TTY_COLS - 1 else col)
  }

  function Spaces(n: nat): (r: seq<byte>)
    ensures |r| == n && forall i :: 0 <= i < n ==> r[i] == SPACE
  {
    seq(n, _ => SPACE)
  }

  /** The prompt, the text, and blanks over what is left of a text of `previous` characters. */
  function Redrawn(prompt: seq<byte>, text: Text, previous: nat): seq<byte> {
    prompt + text + Spaces(if previous > |text| then previous - |text| else 0)
  }

  /** refresh_prompt_line */
  function Refreshed(s: Screen, prompt: seq<byte>, text: Text, previous: nat, cursor: nat): (r: Screen)
    requires ValidScreen(s)
    ensures ValidScreen(r)
  {
    CursorAt(TypedAll(CursorAt(s, s.row, 0), Redrawn(prompt, text, previous)), s.row, |prompt| + cursor)
  }

  /** One name a line. */
  function Lines(names: seq<Text>): seq<byte> {
    if names == [] then [] else Lines(names[..|names| - 1]) + names[|names| - 1] + [NEWLINE]
  }

  /** list_matches */
  /** Every name is on a line of its own. */
  lemma {:induction false} LinesConcat(a: seq<Text>, name: Text, b: seq<Text>)
    ensures Lines(a + [name] + b) == Lines(a) + name + [0x0A] + Lines(b)
  {
    if b == [] {
      assert a + [name] + b == a + [name] && (a + [name])[..|a|] == a;
    } else {
      var init, last := b[..|b| - 1], b[|b| - 1];
      var all := a + [name] + b;
      assert all[..|all| - 1] == a + [name] + init && all[|all| - 1] == last;
      LinesConcat(a, name, init);
    }
  }

  function Listed(s: Screen, prompt: seq<byte>, text: Text, names: seq<Text>): (r: Screen)
    requires ValidScreen(s)
    ensures ValidScreen(r)
  {
    TypedAll(TypedAll(s, [NEWLINE] + Lines(names)), prompt + text)
  }

  /** What handle_tab_completion draws. */
  function TabDrawn(s: Screen, prompt: seq<byte>, l: Line, commands: seq<Text>, capacity: nat): (r: Screen)
    requires ValidScreen(s) && l.cursor <= |l.text| < capacity
    ensures ValidScreen(r)
  {
    var names := Matching(commands, l.text);
    if commands == [] then s
    else if l.text == [] then Listed(s, prompt, l.text, names)
    else if TabRings(l, commands) then Typed(s, BELL)
    else
      var added := Completion(l.text, commands, capacity);
      if added == [] && |names| > 1 then Listed(s, prompt, l.text, names) else TypedAll(s, added)
  }

  /** What a key that neither accepts nor interrupts the line draws. */
  function Drawn(s: Screen, prompt: seq<byte>, l: Line, key: byte, history: seq<Text>, commands: seq<Text>,
                 capacity: nat): (r: Screen)
    requires ValidScreen(s) && capacity > 0 && ValidLine(l, history, capacity)
    ensures ValidScreen(r)
  {
    var m := Pressed(l, key, history, commands, capacity);
    if Ignored(l, key) then s
    else if key == TAB then Refreshed(TabDrawn(s, prompt, l, commands, capacity), prompt, m.text, |m.text|, m.cursor)
    else if Refused(l, key, |history|, capacity) then Typed(s, BELL)
    else Refreshed(s, prompt, m.text, |l.text|, m.cursor)
  }

  /** Keys that do nothing at all. */
  predicate Ignored(l: Line, key: byte) {
    key in {NUL, RETURN, CTRL_C, NEWLINE} || (key == HOME_KEY && l.cursor == 0) || (key == END_KEY && l.cursor == |l.text|)
  }

  /** Keys other than Tab that have nothing to act on: the bell is sounded, which puts a character on the
      screen. */
  predicate Refused(l: Line, key: byte, count: nat, capacity: nat) {
    if key == ARROW_UP then l.offset + 1 >= count
    else if key == ARROW_DOWN then l.offset < 0
    else if key == ARROW_LEFT || key == BACKSPACE then l.cursor == 0
    else if key == ARROW_RIGHT || key == DELETE then l.cursor == |l.text|
    else Plain(key) && |l.text| + 1 >= capacity
  }

  /** Which keys print the bell and change nothing else: those with nothing to act on. Home at the start and
      End at the end draw nothing. */
  lemma BellRings(s: Screen, prompt: seq<byte>, l: Line, key: byte, history: seq<Text>, commands: seq<Text>, capacity: nat)
    requires ValidScreen(s) && capacity > 0 && ValidLine(l, history, capacity)
    ensures var bell := Typed(s, 0x07);
      && (l.offset + 1 >= |history| ==> Drawn(s, prompt, l, 0x80, history, commands, capacity) == bell)
      && (l.offset < 0 ==> Drawn(s, prompt, l, 0x81, history, commands, capacity) == bell)
      && (l.cursor == 0 ==> Drawn(s, prompt, l, 0x82, history, commands, capacity) == bell
                            && Drawn(s, prompt, l, 0x08, history, commands, capacity) == bell
                            && Drawn(s, prompt, l, 0x85, history, commands, capacity) == s)
      && (l.cursor == |l.text| ==> Drawn(s, prompt, l, 0x83, history, commands, capacity) == bell
                                   && Drawn(s, prompt, l, 0x84, history, commands, capacity) == bell
                                   && Drawn(s, prompt, l, 0x86, history, commands, capacity) == s)
      && (|l.text| + 1 >= capacity && key !in {0x00, 0x03, 0x08, 0x09, 0x0A, 0x0D} && !(0x80 <= key <= 0x86) ==>
            Drawn(s, prompt, l, key, history, commands, capacity) == bell)
  {
  }

  /** Tab sounds the bell when there is something to complete but it cannot be. */
  predicate TabRings(l: Line, commands: seq<Text>) {
    && commands != [] && l.text != []
    && (SPACE in l.text || l.cursor != |l.text| || Matching(commands, l.text) == [])
  }

  // What is shown ------------------------------------------------------------------------------------

  /** From cell `k` on the screen is blank. */
  /** What Tab draws before the line is refreshed: on an empty line the list of all commands, and the bell behind a
      space, inside the text or where no command begins so. */
  lemma TabDraws(s: Screen, prompt: seq<byte>, l: Line, commands: seq<Text>, capacity: nat)
    requires ValidScreen(s) && l.cursor <= |l.text| < capacity && commands != []
    ensures l.text == [] ==> TabDrawn(s, prompt, l, commands, capacity) == Listed(s, prompt, [], commands)
    ensures l.text != [] && (0x20 in l.text || l.cursor < |l.text| || forall c :: c in commands ==> !(l.text <= c)) ==>
              TabDrawn(s, prompt, l, commands, capacity) == Typed(s, 0x07)
  {
    MatchingNothing(commands);
  }

  lemma {:induction false} MatchingNothing(commands: seq<Text>)
    ensures Matching(commands, []) == commands
  {
    if commands != [] {
      var init, last := commands[..|commands| - 1], commands[|commands| - 1];
      MatchingNothing(init);
      assert [] <= last && commands == init + [last];
    }
  }

  predicate BlankFrom(cells: seq<Cell>, k: nat)
    requires |cells| == CELLS
  {
    forall i :: k <= i < CELLS ==> cells[i].character == SPACE
  }

  /** The cursor's row shows the prompt and the text and nothing else, with room for the cursor behind the
      text; the rows below are blank, and the cursor stands where it is in the text. */
  predicate Shows(s: Screen, prompt: seq<byte>, text: Text, cursor: nat)
    requires ValidScreen(s)
  {
    && |prompt| + |text| < TTY_COLS && cursor <= |text| && s.col == |prompt| + cursor
    && Reads(s.cells, CellIndex(s.row, 0), prompt + text)
    && BlankFrom(s.cells, CellIndex(s.row, 0) + |prompt| + |text|)
  }

  predicate Reads(cells: seq<Cell>, k: nat, text: seq<byte>)
    requires |cells| == CELLS
  {
    k + |text| <= CELLS && forall i :: 0 <= i < |text| ==> cells[k + i].character == text[i]
  }

  predicate AllPrintable(text: seq<byte>) {
    forall i :: 0 <= i < |text| ==> Printable(text[i])
  }

  /** The line, what it may be replaced by and the commands hold no line ends or backspaces. */
  predicate AllPlain(prompt: seq<byte>, l: Line, history: seq<Text>, commands: seq<Text>) {
    && prompt != [] && AllPrintable(prompt) && AllPrintable(l.text)
    && (l.saved.Some? ==> AllPrintable(l.saved.value))
    && (forall k :: 0 <= k < |history| ==> AllPrintable(history[k]))
    && (forall k :: 0 <= k < |commands| ==> AllPrintable(commands[k]))
  }

  // Typing ----------------------------------------------------------------------------------------------

  lemma RowStart(row: nat, col: nat)
    requires row < TTY_ROWS && col < TTY_COLS
    ensures CellIndex(row, col) == CellIndex(row, 0) + col < CELLS
    ensures CellIndex(row, 0) + TTY_COLS <= CELLS
  {
  }

  /** A text that ends before the end of the row is put there, and nothing else changes. */
  lemma {:induction false} TypedInRow(s: Screen, data: seq<byte>)
    requires ValidScreen(s) && AllPrintable(data) && s.col + |data| < TTY_COLS
    ensures var t, k := TypedAll(s, data), CellIndex(s.row, s.col);
      && t.row == s.row && t.col == s.col + |data| && t.color == s.color && k + |data| <= CELLS
      && forall i :: 0 <= i < CELLS ==>
           t.cells[i] == if k <= i < k + |data| then Cell(data[i - k], s.color) else s.cells[i]
  {
    RowStart(s.row, s.col);
    if data != [] {
      var init := data[..|data| - 1];
      TypedInRow(s, init);
      RowStart(s.row, s.col + |init|);
    }
  }

  lemma RedrawnAt(prompt: seq<byte>, text: Text, previous: nat)
    ensures var data, line := Redrawn(prompt, text, previous), prompt + text;
      && |data| == |prompt| + (if previous > |text| then previous else |text|)
      && (forall i :: 0 <= i < |line| ==> data[i] == line[i])
      && (forall i :: |line| <= i < |data| ==> data[i] == SPACE)
    ensures AllPrintable(prompt) && AllPrintable(text) ==> AllPrintable(Redrawn(prompt, text, previous))
  {
  }

  /** What is on the screen when `data`, a line and blanks behind it, was put at `k`. */
  lemma ReadsWhatWasPut(cells: seq<Cell>, after: seq<Cell>, k: nat, data: seq<byte>, line: seq<byte>, color: byte)
    requires |cells| == |after| == CELLS && k + |data| <= CELLS && |line| <= |data|
    requires forall i :: 0 <= i < CELLS ==> after[i] == if k <= i < k + |data| then Cell(data[i - k], color) else cells[i]
    requires forall i :: 0 <= i < |line| ==> data[i] == line[i]
    requires forall i :: |line| <= i < |data| ==> data[i] == SPACE
    requires BlankFrom(cells, k + |data|)
    ensures Reads(after, k, line) && BlankFrom(after, k + |line|)
  {
    forall i | 0 <= i < |line| ensures after[k + i].character == line[i] {
      assert after[k + i] == Cell(data[i], color);
    }
    forall i | k + |line| <= i < CELLS ensures after[i].character == SPACE {
      if i < k + |data| {
        assert after[i] == Cell(data[i - k], color);
      } else {
        assert after[i] == cells[i];
      }
    }
  }

  /** Refreshing the line shows it, wherever the cursor was, as long as there was nothing beyond what is
      redrawn. */
  lemma RefreshShows(s: Screen, prompt: seq<byte>, text: Text, previous: nat, cursor: nat)
    requires ValidScreen(s) && AllPrintable(prompt) && AllPrintable(text) && cursor <= |text|
    requires |prompt| + |text| < TTY_COLS && |prompt| + previous < TTY_COLS
    requires BlankFrom(s.cells, CellIndex(s.row, 0) + |prompt| + (if previous > |text| then previous else |text|))
    ensures Shows(Refreshed(s, prompt, text, previous, cursor), prompt, text, cursor)
  {
    var data, u := Redrawn(prompt, text, previous), CursorAt(s, s.row, 0);
    RedrawnAt(prompt, text, previous);
    RowStart(s.row, 0);
    TypedInRow(u, data);
    ReadsWhatWasPut(u.cells, TypedAll(u, data).cells, CellIndex(s.row, 0), data, prompt + text, s.color);
  }

  predicate Listable(text: seq<byte>) {
    forall i :: 0 <= i < |text| ==> Printable(text[i]) || text[i] == NEWLINE
  }

  /** Behind the cursor nothing is on the screen. */
  predicate FreshScreen(s: Screen)
    requires ValidScreen(s)
  {
    BlankFrom(s.cells, CellIndex(s.row, s.col))
  }

  lemma SettledFresh(s: Screen)
    requires |s.cells| == CELLS && s.row <= TTY_ROWS && s.col < TTY_COLS
    requires BlankFrom(s.cells, CellIndex(s.row, s.col))
    ensures FreshScreen(Settled(s)) && Settled(s).col == s.col
  {
    if s.row == TTY_ROWS {
      ScrolledFresh(s.cells, s.color);
      RowStart(TTY_ROWS - 1, s.col);
    }
  }

  lemma ScrolledFresh(cells: seq<Cell>, color: byte)
    requires |cells| == CELLS
    ensures BlankFrom(ScrolledCells(cells, 1, color), CellIndex(TTY_ROWS - 1, 0))
  {
    assert CellIndex(TTY_ROWS - 1, 0) == CELLS - TTY_COLS;
  }

  lemma TypedFresh(s: Screen, c: byte)
    requires ValidScreen(s) && FreshScreen(s) && (Printable(c) || c == NEWLINE)
    ensures FreshScreen(Typed(s, c))
    ensures c == NEWLINE ==> Typed(s, c).col == 0
  {
    RowStart(s.row, s.col);
    if c == NEWLINE {
      NextRow(s.row, s.col);
      SettledFresh(s.(row := s.row + 1, col := 0));
    } else {
      var written := Stamped(s, s.row, s.col, Cell(c, s.color));
      if s.col + 1 < TTY_COLS {
        SettledFresh(written.(col := s.col + 1));
      } else {
        NextRow(s.row, s.col);
        SettledFresh(written.(row := s.row + 1, col := 0));
      }
    }
  }

  lemma NextRow(row: nat, col: nat)
    requires row < TTY_ROWS && col < TTY_COLS
    ensures CellIndex(row + 1, 0) > CellIndex(row, col)
  {
  }

  lemma {:induction false} AllTypedFresh(s: Screen, data: seq<byte>)
    requires ValidScreen(s) && FreshScreen(s) && Listable(data)
    ensures FreshScreen(TypedAll(s, data))
    ensures data != [] && data[|data| - 1] == NEWLINE ==> TypedAll(s, data).col == 0
  {
    if data != [] {
      AllTypedFresh(s, data[..|data| - 1]);
      TypedFresh(TypedAll(s, data[..|data| - 1]), data[|data| - 1]);
    }
  }

  lemma {:induction false} LinesEnd(names: seq<Text>)
    requires forall k :: 0 <= k < |names| ==> AllPrintable(names[k])
    ensures Listable(Lines(names)) && (names != [] ==> Lines(names)[|Lines(names)| - 1] == NEWLINE)
  {
    if names != [] {
      LinesEnd(names[..|names| - 1]);
    }
  }

  /** After a list of names the prompt and the text are on a row of their own. */
  lemma ListShows(s: Screen, prompt: seq<byte>, text: Text, names: seq<Text>, cursor: nat)
    requires ValidScreen(s) && FreshScreen(s) && AllPrintable(prompt) && AllPrintable(text)
    requires forall k :: 0 <= k < |names| ==> AllPrintable(names[k])
    requires |prompt| + |text| < TTY_COLS && cursor <= |text|
    ensures Shows(Refreshed(Listed(s, prompt, text, names), prompt, text, |text|, cursor), prompt, text, cursor)
  {
    LinesEnd(names);
    var list := [NEWLINE] + Lines(names);
    AllTypedFresh(s, list);
    var u := TypedAll(s, list);
    RowStart(u.row, 0);
    TypedInRow(u, prompt + text);
    RefreshShows(TypedAll(u, prompt + text), prompt, text, |text|, cursor);
  }

  // Which keys keep the line shown ----------------------------------------------------------------------

  /** Keys after which the row does not show the line, though it fits: the bell has put a character where
      nothing takes it away. */
  predicate Spoils(prompt: seq<byte>, l: Line, key: byte, history: seq<Text>, commands: seq<Text>, capacity: nat) {
    if key == TAB then TabRings(l, commands) && l.cursor == |l.text| && |prompt| + |l.text| + 1 < TTY_COLS
    else !Ignored(l, key) && Refused(l, key, |history|, capacity)
  }

  lemma {:induction false} MatchingPrintable(commands: seq<Text>, prefix: Text)
    requires forall k :: 0 <= k < |commands| ==> AllPrintable(commands[k])
    ensures forall k :: 0 <= k < |Matching(commands, prefix)| ==> AllPrintable(Matching(commands, prefix)[k])
  {
    if commands != [] {
      MatchingPrintable(commands[..|commands| - 1], prefix);
    }
  }

  lemma CompletionPrintable(text: Text, commands: seq<Text>, capacity: nat)
    requires |text| < capacity && forall k :: 0 <= k < |commands| ==> AllPrintable(commands[k])
    ensures AllPrintable(Completion(text, commands, capacity))
  {
    MatchingPrintable(commands, text);
  }

  lemma SplicedPrintable(text: Text, added: Text, i: nat, j: nat)
    requires i <= |text| && j <= |text| && AllPrintable(text) && AllPrintable(added)
    ensures AllPrintable(text[..i] + added + text[j..])
  {
  }

  /** What a key makes of a line without line ends and backspaces has none either. */
  lemma PressedPlain(prompt: seq<byte>, l: Line, key: byte, history: seq<Text>, commands: seq<Text>, capacity: nat)
    requires capacity > 0 && ValidLine(l, history, capacity) && AllPlain(prompt, l, history, commands)
    ensures AllPlain(prompt, Pressed(l, key, history, commands, capacity), history, commands)
  {
    if key == BACKSPACE && l.cursor > 0 {
      SplicedPrintable(l.text, [], l.cursor - 1, l.cursor);
      assert l.text[..l.cursor - 1] + [] + l.text[l.cursor..] == l.text[..l.cursor - 1] + l.text[l.cursor..];
    } else if key == DELETE && l.cursor < |l.text| {
      SplicedPrintable(l.text, [], l.cursor, l.cursor + 1);
      assert l.text[..l.cursor] + [] + l.text[l.cursor + 1..] == l.text[..l.cursor] + l.text[l.cursor + 1..];
    } else if key == TAB {
      CompletionPrintable(l.text, commands, capacity);
    } else if Plain(key) {
      SplicedPrintable(l.text, [key], l.cursor, l.cursor);
    } else if key == ARROW_UP || key == ARROW_DOWN {
      RecallPlain(prompt, l, key, history, commands, capacity);
    }
  }

  lemma RecallPlain(prompt: seq<byte>, l: Line, key: byte, history: seq<Text>, commands: seq<Text>, capacity: nat)
    requires capacity > 0 && ValidLine(l, history, capacity) && AllPlain(prompt, l, history, commands)
    requires key == ARROW_UP || key == ARROW_DOWN
    ensures AllPlain(prompt, Pressed(l, key, history, commands, capacity), history, commands)
  {
  }

  /** The bell where the text goes on: the next redrawing takes it away. Behind the text it stays, unless it
      was put in the last column, so that the line is drawn anew on the next row. */
  lemma BellThenRefresh(s: Screen, prompt: seq<byte>, text: Text, cursor: nat)
    requires ValidScreen(s) && Shows(s, prompt, text, cursor) && AllPrintable(prompt) && AllPrintable(text)
    ensures Shows(Refreshed(Typed(s, BELL), prompt, text, |text|, cursor), prompt, text, cursor) <==>
            !(cursor == |text| && |prompt| + |text| + 1 < TTY_COLS)
  {
    var t, k := Typed(s, BELL), CellIndex(s.row, 0);
    RowStart(s.row, s.col);
    if cursor < |text| {
      RefreshShows(t, prompt, text, |text|, cursor);
    } else if s.col + 1 == TTY_COLS {
      TypedFresh(s, BELL);
      RefreshShows(t, prompt, text, |text|, cursor);
    } else {
      TypedInRow(CursorAt(t, t.row, 0), Redrawn(prompt, text, |text|));
      assert Redrawn(prompt, text, |text|) == prompt + text;
      assert t.cells[k + |prompt| + |text|].character == BELL;
    }
  }

  lemma TabShows(s: Screen, prompt: seq<byte>, l: Line, history: seq<Text>, commands: seq<Text>, capacity: nat)
    requires ValidScreen(s) && capacity > 0 && ValidLine(l, history, capacity) && AllPlain(prompt, l, history, commands)
    requires Shows(s, prompt, l.text, l.cursor)
    requires |prompt| + |Tabbed(l, commands, capacity).text| < TTY_COLS
    ensures var m := Tabbed(l, commands, capacity);
      Shows(Refreshed(TabDrawn(s, prompt, l, commands, capacity), prompt, m.text, |m.text|, m.cursor), prompt, m.text, m.cursor)
      <==> !Spoils(prompt, l, TAB, history, commands, capacity)
  {
    var names, added := Matching(commands, l.text), Completion(l.text, commands, capacity);
    MatchingPrintable(commands, l.text);
    CompletionPrintable(l.text, commands, capacity);
    RowStart(s.row, s.col);
    assert l.text + [] == l.text;
    if commands == [] {
      RefreshShows(s, prompt, l.text, |l.text|, l.cursor);
    } else if l.text == [] {
      ListShows(s, prompt, l.text, names, l.cursor);
    } else if TabRings(l, commands) {
      BellThenRefresh(s, prompt, l.text, l.cursor);
    } else if added == [] && |names| > 1 {
      ListShows(s, prompt, l.text, names, l.cursor);
    } else {
      TypedInRow(s, added);
      RefreshShows(TypedAll(s, added), prompt, l.text + added, |l.text + added|, l.cursor);
    }
  }

  /** A key that neither accepts nor interrupts the line leaves it shown if and only if it does not sound the
      bell where that stays, and the new text leaves room in the row. */
  lemma DrawnShows(s: Screen, prompt: seq<byte>, l: Line, key: byte, history: seq<Text>, commands: seq<Text>, capacity: nat)
    requires ValidScreen(s) && capacity > 0 && ValidLine(l, history, capacity) && AllPlain(prompt, l, history, commands)
    requires Shows(s, prompt, l.text, l.cursor)
    ensures var m := Pressed(l, key, history, commands, capacity);
      Shows(Drawn(s, prompt, l, key, history, commands, capacity), prompt, m.text, m.cursor) <==>
      !Spoils(prompt, l, key, history, commands, capacity) && |prompt| + |m.text| < TTY_COLS
  {
    var m := Pressed(l, key, history, commands, capacity);
    PressedPlain(prompt, l, key, history, commands, capacity);
    if |prompt| + |m.text| < TTY_COLS && !Ignored(l, key) {
      if key == TAB {
        TabShows(s, prompt, l, history, commands, capacity);
      } else if !Refused(l, key, |history|, capacity) {
        RefreshShows(s, prompt, m.text, |l.text|, m.cursor);
      } else {
        BellMoves(s);
      }
    }
  }

  /** The arrow to the left on an empty line: the bell's character stands behind the prompt, and the cursor behind
      it. */
  lemma LeftSpoils(s: Screen, prompt: seq<byte>, history: seq<Text>, commands: seq<Text>, capacity: nat)
    requires ValidScreen(s) && capacity > 0 && Shows(s, prompt, [], 0) && |prompt| + 1 < TTY_COLS
    ensures var r := Drawn(s, prompt, EMPTY, ARROW_LEFT, history, commands, capacity);
      && Pressed(EMPTY, ARROW_LEFT, history, commands, capacity) == EMPTY
      && r.cells[CellIndex(s.row, |prompt|)].character == BELL && r.row == s.row && r.col == |prompt| + 1
  {
  }

  lemma BellMoves(s: Screen)
    requires ValidScreen(s)
    ensures Typed(s, BELL).col == if s.col + 1 < TTY_COLS then s.col + 1 else 0
  {
  }

  /** The screen after keys from an empty line on. */
  function DrawnAll(s: Screen, prompt: seq<byte>, l: Line, keys: seq<byte>, history: seq<Text>, commands: seq<Text>,
                    capacity: nat): (r: Screen)
    requires ValidScreen(s) && capacity > 0 && ValidLine(l, history, capacity)
    ensures ValidScreen(r)
  {
    if keys == [] then s
    else
      var init := keys[..|keys| - 1];
      Drawn(DrawnAll(s, prompt, l, init, history, commands, capacity), prompt,
            PressAll(l, init, history, commands, capacity), keys[|keys| - 1], history, commands, capacity)
  }

  /** Key number `n` does not spoil the row, and the text fits it afterwards. */
  predicate KeepsShown(prompt: seq<byte>, l: Line, keys: seq<byte>, n: nat, history: seq<Text>, commands: seq<Text>,
                       capacity: nat)
    requires capacity > 0 && ValidLine(l, history, capacity) && n < |keys|
  {
    && !Spoils(prompt, PressAll(l, keys[..n], history, commands, capacity), keys[n], history, commands, capacity)
    && |prompt| + |PressAll(l, keys[..n + 1], history, commands, capacity).text| < TTY_COLS
  }

  predicate NoneSpoils(prompt: seq<byte>, l: Line, keys: seq<byte>, history: seq<Text>, commands: seq<Text>, capacity: nat)
    requires capacity > 0 && ValidLine(l, history, capacity)
  {
    forall n :: 0 <= n < |keys| ==> KeepsShown(prompt, l, keys, n, history, commands, capacity)
  }

  lemma NoneSpoilsBefore(prompt: seq<byte>, l: Line, keys: seq<byte>, history: seq<Text>, commands: seq<Text>, capacity: nat)
    requires capacity > 0 && ValidLine(l, history, capacity) && keys != []
    requires NoneSpoils(prompt, l, keys, history, commands, capacity)
    ensures NoneSpoils(prompt, l, keys[..|keys| - 1], history, commands, capacity)
  {
    var init := keys[..|keys| - 1];
    forall n | 0 <= n < |init| ensures KeepsShown(prompt, l, init, n, history, commands, capacity) {
      assert KeepsShown(prompt, l, keys, n, history, commands, capacity);
      assert init[..n] == keys[..n] && init[..n + 1] == keys[..n + 1];
    }
  }

  /** As long as no key spoils it, the row shows the line after any keys. */
  lemma {:induction false} KeysShow(s: Screen, prompt: seq<byte>, l: Line, keys: seq<byte>, history: seq<Text>,
                                    commands: seq<Text>, capacity: nat)
    requires ValidScreen(s) && capacity > 0 && ValidLine(l, history, capacity) && AllPlain(prompt, l, history, commands)
    requires Shows(s, prompt, l.text, l.cursor) && NoneSpoils(prompt, l, keys, history, commands, capacity)
    ensures var m := PressAll(l, keys, history, commands, capacity);
      && AllPlain(prompt, m, history, commands)
      && Shows(DrawnAll(s, prompt, l, keys, history, commands, capacity), prompt, m.text, m.cursor)
  {
    if keys != [] {
      var n := |keys| - 1;
      var init, key := keys[..n], keys[n];
      NoneSpoilsBefore(prompt, l, keys, history, commands, capacity);
      KeysShow(s, prompt, l, init, history, commands, capacity);
      var m, u := PressAll(l, init, history, commands, capacity), DrawnAll(s, prompt, l, init, history, commands, capacity);
      PressedPlain(prompt, m, key, history, commands, capacity);
      assert KeepsShown(prompt, l, keys, n, history, commands, capacity) && keys[..n + 1] == keys;
      DrawnShows(u, prompt, m, key, history, commands, capacity);
    }
  }

  // The terminal -------------------------------------------------------------------------------------------

  lemma {:induction false} TypedConcat(s: Screen, a: seq<byte>, b: seq<byte>)
    requires ValidScreen(s)
    ensures TypedAll(s, a + b) == TypedAll(TypedAll(s, a), b)
  {
    if b == [] {
      assert a + b == a;
    } else {
      assert (a + b)[..|a + b| - 1] == a + b[..|b| - 1];
      TypedConcat(s, a, b[..|b| - 1]);
    }
  }

  /** refresh_prompt_line */
  method RefreshPromptLine(tty: Tty, prompt: seq<byte>, text: Text, previous: nat, cursor: nat)
    requires tty.Valid()
    modifies tty, tty.cells, tty.framebuffer, tty.vga
    ensures tty.Valid() && tty.State() == Refreshed(old(tty.State()), prompt, text, previous, cursor)
  {
    var row := tty.cursorRow;
    tty.SetCursorPosition(row, 0);
    ghost var s := tty.State();
    RedrawPrompt(tty, prompt, text);
    var blanks := if previous > |text| then previous - |text| else 0;
    TypeSpaces(tty, blanks);
    TypedConcat(s, prompt + text, Spaces(blanks));
    tty.SetCursorPosition(row, |prompt| + cursor);
  }

  /** The loop of refresh_prompt_line. */
  method TypeSpaces(tty: Tty, n: nat)
    requires tty.Valid()
    modifies tty, tty.cells, tty.framebuffer, tty.vga
    ensures tty.Valid() && tty.State() == TypedAll(old(tty.State()), Spaces(n))
  {
    var i := 0;
    while i < n
      invariant 0 <= i <= n && tty.Valid() && tty.State() == TypedAll(old(tty.State()), Spaces(i))
    {
      SpacesMore(i);
      tty.Putc(SPACE);
      i := i + 1;
    }
  }

  lemma SpacesMore(n: nat)
    ensures Spaces(n + 1)[..n] == Spaces(n)
  {
  }

  /** redraw_prompt_with_buffer */
  method RedrawPrompt(tty: Tty, prompt: seq<byte>, text: Text)
    requires tty.Valid()
    modifies tty, tty.cells, tty.framebuffer, tty.vga
    ensures tty.Valid() && tty.State() == TypedAll(old(tty.State()), prompt + text)
  {
    TypedConcat(tty.State(), prompt, text);
    tty.Write(prompt);
    tty.Write(text);
  }

  /** list_matches */
  method ListMatches(tty: Tty, prompt: seq<byte>, text: Text, commands: seq<Text>)
    requires tty.Valid()
    modifies tty, tty.cells, tty.framebuffer, tty.vga
    ensures tty.Valid() && tty.State() == Listed(old(tty.State()), prompt, text, Matching(commands, text))
  {
    ghost var s := tty.State();
    tty.Putc(NEWLINE);
    var i := 0;
    OneTyped(s, NEWLINE);
    assert [NEWLINE] + Lines([]) == [NEWLINE];
    while i < |commands|
      invariant 0 <= i <= |commands| && tty.Valid()
      invariant tty.State() == TypedAll(s, [NEWLINE] + Lines(Matching(commands[..i], text)))
    {
      ListOne(tty, text, commands, i, s);
      i := i + 1;
    }
    assert commands[..i] == commands;
    RedrawPrompt(tty, prompt, text);
  }

  /** The body of list_matches's loop. */
  method ListOne(tty: Tty, text: Text, commands: seq<Text>, i: nat, ghost s: Screen)
    requires tty.Valid() && i < |commands| && ValidScreen(s)
    requires tty.State() == TypedAll(s, [NEWLINE] + Lines(Matching(commands[..i], text)))
    modifies tty, tty.cells, tty.framebuffer, tty.vga
    ensures tty.Valid() && tty.State() == TypedAll(s, [NEWLINE] + Lines(Matching(commands[..i + 1], text)))
  {
    assert commands[..i + 1][..i] == commands[..i];
    ghost var names := Matching(commands[..i], text);
    if text <= commands[i] {
      ListMore(s, names, commands[i]);
      tty.Write(commands[i]);
      tty.Putc(NEWLINE);
    } else {
      assert names + [] == names;
    }
  }

  lemma ListMore(s: Screen, names: seq<Text>, name: Text)
    requires ValidScreen(s)
    ensures TypedAll(s, [NEWLINE] + Lines(names + [name])) ==
            Typed(TypedAll(TypedAll(s, [NEWLINE] + Lines(names)), name), NEWLINE)
  {
    var a := [NEWLINE] + Lines(names);
    assert (names + [name])[..|names|] == names;
    assert [NEWLINE] + Lines(names + [name]) == (a + name) + [NEWLINE];
    TypedConcat(s, a, name);
    TypedConcat(s, a + name, [NEWLINE]);
    OneTyped(TypedAll(s, a + name), NEWLINE);
  }

  lemma OneTyped(s: Screen, c: byte)
    requires ValidScreen(s)
    ensures TypedAll(s, [c]) == Typed(s, c)
  {
    assert [c][..0] == [];
  }

  /** What handle_tab_completion draws, given what it appended. */
  method DrawTab(tty: Tty, prompt: seq<byte>, l: Line, added: Text, commands: seq<Text>, ghost capacity: nat)
    requires tty.Valid() && l.cursor <= |l.text| < capacity
    requires l.cursor == |l.text| ==> added == Completion(l.text, commands, capacity)
    modifies tty, tty.cells, tty.framebuffer, tty.vga
    ensures tty.Valid() && tty.State() == TabDrawn(old(tty.State()), prompt, l, commands, capacity)
  {
    if commands == [] {
      return;
    }
    if l.text == [] {
      ListMatches(tty, prompt, l.text, commands);
    } else if TabRings(l, commands) {
      tty.Putc(BELL);
    } else if added == [] && |Matching(commands, l.text)| > 1 {
      ListMatches(tty, prompt, l.text, commands);
    } else {
      tty.Write(added);
    }
  }

  /** The drawing of one round of read_line's loop, given the text and the cursor after the key. */
  method DrawKey(tty: Tty, prompt: seq<byte>, l: Line, text: Text, cursor: nat, key: byte, count: nat, commands: seq<Text>,
                 capacity: nat, ghost history: seq<Text>)
    requires tty.Valid() && capacity > 0 && ValidLine(l, history, capacity) && count == |history|
    requires text == Pressed(l, key, history, commands, capacity).text
    requires cursor == Pressed(l, key, history, commands, capacity).cursor
    modifies tty, tty.cells, tty.framebuffer, tty.vga
    ensures tty.Valid() && tty.State() == Drawn(old(tty.State()), prompt, l, key, history, commands, capacity)
  {
    if Ignored(l, key) {
      return;
    }
    if key == TAB {
      DrawTab(tty, prompt, l, text[|l.text|..], commands, capacity);
      RefreshPromptLine(tty, prompt, text, |text|, cursor);
    } else if Refused(l, key, count, capacity) {
      tty.Putc(BELL);
    } else {
      RefreshPromptLine(tty, prompt, text, |l.text|, cursor);
    }
  }

  /** The line's memory is not the terminal's. */
  ghost predicate Separate(editor: Editor, tty: Tty) {
    && editor.buffer != tty.framebuffer && editor.buffer != tty.vga && (editor.buffer as object) != tty.cells
    && (editor.history.entries as object) != tty.cells
    && (editor.history.entries as object) != tty.framebuffer && (editor.history.entries as object) != tty.vga
  }

  /** One round of read_line's loop with all that it draws. */
  method PressDrawn(editor: Editor, tty: Tty, prompt: seq<byte>, key: byte)
    requires editor.Valid() && tty.Valid() && Separate(editor, tty) && key !in {CTRL_C, NEWLINE}
    modifies editor, editor.buffer, tty, tty.cells, tty.framebuffer, tty.vga
    ensures editor.Valid() && tty.Valid() && editor.history.Recent() == old(editor.history.Recent())
    ensures editor.State() ==
            Pressed(old(editor.State()), key, editor.history.Recent(), editor.commands, editor.buffer.Length)
    ensures tty.State() ==
            Drawn(old(tty.State()), prompt, old(editor.State()), key, editor.history.Recent(), editor.commands,
                  editor.buffer.Length)
  {
    var l := Line(editor.buffer[..editor.len], editor.cursor, editor.historyOffset,
                  if editor.savedValid then Some(editor.saved) else None);
    ghost var history := editor.history.Recent();
    editor.Press(key);
    DrawKey(tty, prompt, l, editor.buffer[..editor.len], editor.cursor, key, editor.history.count, editor.commands,
            editor.buffer.Length, history);
  }

  /** If the row showed the line before, then it shows it afterwards exactly if the key does not spoil it and
      the text fits. */
  method PressShown(editor: Editor, tty: Tty, prompt: seq<byte>, key: byte)
    requires editor.Valid() && tty.Valid() && Separate(editor, tty) && key !in {CTRL_C, NEWLINE}
    requires AllPlain(prompt, editor.State(), editor.history.Recent(), editor.commands)
    requires Shows(tty.State(), prompt, editor.State().text, editor.State().cursor)
    modifies editor, editor.buffer, tty, tty.cells, tty.framebuffer, tty.vga
    ensures editor.Valid() && tty.Valid()
    ensures AllPlain(prompt, editor.State(), editor.history.Recent(), editor.commands)
    ensures Shows(tty.State(), prompt, editor.State().text, editor.State().cursor) <==>
            !Spoils(prompt, old(editor.State()), key, editor.history.Recent(), editor.commands, editor.buffer.Length)
            && |prompt| + |editor.State().text| < TTY_COLS
  {
    ghost var s, l, history := tty.State(), editor.State(), editor.history.Recent();
    PressDrawn(editor, tty, prompt, key);
    DrawnShows(s, prompt, l, key, history, editor.commands, editor.buffer.Length);
    PressedPlain(prompt, l, key, history, editor.commands, editor.buffer.Length);
  }

  /** At the start of a row with nothing behind it, the prompt shows the empty line. */
  lemma PromptShows(s: Screen, prompt: seq<byte>)
    requires ValidScreen(s) && FreshScreen(s) && s.col == 0 && AllPrintable(prompt) && |prompt| < TTY_COLS
    ensures Shows(TypedAll(s, prompt), prompt, [], 0)
  {
    RowStart(s.row, 0);
    TypedInRow(s, prompt);
    assert prompt + [] == prompt;
    ReadsWhatWasPut(s.cells, TypedAll(s, prompt).cells, CellIndex(s.row, 0), prompt, prompt, s.color);
  }

  const INTERRUPTED: seq<byte> := [0x5E, 0x43, NEWLINE]  // what Ctrl-C prints

  /** The screen after read_line on the keys that arrive. */
  function ReadLineDrawn(s: Screen, prompt: seq<byte>, keys: seq<byte>, history: seq<Text>, commands: seq<Text>,
                         capacity: nat): Screen
    requires ValidScreen(s) && capacity > 0
  {
    var n := KeysBeforeEnd(keys);
    var d := DrawnAll(s, prompt, EMPTY, keys[..n], history, commands, capacity);
    if n == |keys| then d else if keys[n] == CTRL_C then TypedAll(d, INTERRUPTED) else Typed(d, NEWLINE)
  }

  /** read_line's loop with all that it draws. */
  method EditKeys(editor: Editor, tty: Tty, prompt: seq<byte>, keys: seq<byte>)
    requires editor.Valid() && tty.Valid() && Separate(editor, tty) && forall k :: 0 <= k < |keys| ==> !Ends(keys[k])
    modifies editor, editor.buffer, tty, tty.cells, tty.framebuffer, tty.vga
    ensures editor.Valid() && tty.Valid() && editor.history.Recent() == old(editor.history.Recent())
    ensures editor.State() ==
            PressAll(old(editor.State()), keys, editor.history.Recent(), editor.commands, editor.buffer.Length)
    ensures tty.State() ==
            DrawnAll(old(tty.State()), prompt, old(editor.State()), keys, editor.history.Recent(), editor.commands,
                     editor.buffer.Length)
  {
    ghost var s, l, history, capacity := tty.State(), editor.State(), editor.history.Recent(), editor.buffer.Length;
    var k := 0;
    assert keys[..0] == [];
    while k < |keys|
      invariant 0 <= k <= |keys| && editor.Valid() && tty.Valid() && editor.history.Recent() == history
      invariant editor.State() == PressAll(l, keys[..k], history, editor.commands, capacity)
      invariant tty.State() == DrawnAll(s, prompt, l, keys[..k], history, editor.commands, capacity)
    {
      assert keys[..k + 1][..k] == keys[..k];
      PressDrawn(editor, tty, prompt, keys[k]);
      k := k + 1;
    }
    assert keys[..k] == keys;
  }

  /** read_line with all that it draws. */
  method ReadLineShown(buffer: array<byte>, keys: seq<byte>, history: History, commands: seq<Text>, tty: Tty, prompt: seq<byte>)
    returns (outcome: Outcome)
    requires 0 < buffer.Length <= INPUT_BUFFER_SIZE && history.Valid() && Apart(buffer, history) && tty.Valid()
    requires buffer != tty.framebuffer && buffer != tty.vga && (buffer as object) != tty.cells
    requires (history.entries as object) != tty.cells
    requires (history.entries as object) != tty.framebuffer && (history.entries as object) != tty.vga
    modifies buffer, tty, tty.cells, tty.framebuffer, tty.vga
    ensures tty.Valid() && ValidLine(EMPTY, history.Recent(), buffer.Length)
    ensures tty.State() == ReadLineDrawn(old(tty.State()), prompt, keys, history.Recent(), commands, buffer.Length)
    ensures var n := KeysBeforeEnd(keys);
      outcome == if n == |keys| then Waiting
                 else if keys[n] == CTRL_C then Interrupt
                 else Accept(PressAll(EMPTY, keys[..n], history.Recent(), commands, buffer.Length).text)
  {
    var editor := new Editor(buffer, history, commands);
    var n := KeysBeforeEnd(keys);
    EditKeys(editor, tty, prompt, keys[..n]);
    if n == |keys| {
      return Waiting;
    }
    outcome := EndLine(editor, tty, keys[n]);
  }

  /** The keys that end the line. */
  method EndLine(editor: Editor, tty: Tty, key: byte) returns (outcome: Outcome)
    requires editor.Valid() && tty.Valid() && Separate(editor, tty) && Ends(key)
    modifies editor.buffer, tty, tty.cells, tty.framebuffer, tty.vga
    ensures tty.Valid()
    ensures tty.State() == if key == CTRL_C then TypedAll(old(tty.State()), INTERRUPTED) else Typed(old(tty.State()), NEWLINE)
    ensures outcome == if key == CTRL_C then Interrupt else Accept(old(editor.State()).text)
    ensures editor.buffer[if key == CTRL_C then 0 else editor.len] == NUL
  {
    if key == CTRL_C {
      tty.Write(INTERRUPTED);
      editor.buffer[0] := NUL;
      return Interrupt;
    }
    tty.Putc(NEWLINE);
    var line := editor.buffer[..editor.len];
    editor.buffer[editor.len] := NUL;
    return Accept(line);
  }
}
