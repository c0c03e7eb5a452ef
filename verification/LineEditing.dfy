/** The shell's line editor as a function of the keys pressed: a text with a cursor, recall of
    earlier lines, and completion of command names. */
module LineEditing {
  import opened Bytes
  import opened Ascii
  import opened Wrappers

  const INPUT_BUFFER_SIZE: nat := 128
  const HISTORY_SIZE: nat := 16

  const CTRL_C: byte := 0x03
  const ARROW_UP: byte := 0x80
  const ARROW_DOWN: byte := 0x81
  const ARROW_LEFT: byte := 0x82
  const ARROW_RIGHT: byte := 0x83
  const DELETE: byte := 0x84
  const HOME_KEY: byte := 0x85
  const END_KEY: byte := 0x86

  type Text = seq<byte>

  // The line being edited; `offset` is the history entry shown, or -1, and `saved` the line
  // typed before history was entered.
  datatype Line = Line(text: Text, cursor: nat, offset: int, saved: Option<Text>)

  const EMPTY: Line := Line([], 0, -1, None)

  /** Holds after every key: the cursor is in the text, the text fits, and a line is saved
      exactly while a history entry is shown. */
  predicate ValidLine(l: Line, history: seq<Text>, capacity: nat) {
    && l.cursor <= |l.text| < capacity
    && -1 <= l.offset < |history|
    && (l.saved.Some? <==> l.offset >= 0)
    && (l.saved.Some? ==> |l.saved.value| < capacity)
  }

  function Truncated(t: Text, n: nat): (r: Text)
    ensures |r| <= n && |r| <= |t|
  {
    if |t| <= n then t else t[..n]
  }

  /** replace_buffer_with_text */
  function Recalled(l: Line, t: Text, capacity: nat): Line
    requires capacity > 0
  {
    var r := Truncated(t, capacity - 1);
    l.(text := r, cursor := |r|)
  }

  /** Every edit leaves history. */
  function Edited(text: Text, cursor: nat): Line {
    Line(text, cursor, -1, None)
  }

  function Up(l: Line, history: seq<Text>, capacity: nat): (r: Line)
    requires capacity > 0 && ValidLine(l, history, capacity)
    ensures ValidLine(r, history, capacity)
  {
    if l.offset + 1 >= |history| then l
    else
      Recalled(l.(offset := l.offset + 1, saved := if l.offset == -1 then Some(l.text) else l.saved),
               history[l.offset + 1], capacity)
  }

  function Down(l: Line, history: seq<Text>, capacity: nat): (r: Line)
    requires capacity > 0 && ValidLine(l, history, capacity)
    ensures ValidLine(r, history, capacity)
  {
    if l.offset < 0 then l
    else if l.offset > 0 then Recalled(l.(offset := l.offset - 1), history[l.offset - 1], capacity)
    else Recalled(l.(offset := -1, saved := None), l.saved.value, capacity)
  }

  function Backspaced(l: Line): Line
    requires l.cursor <= |l.text|
  {
    if l.cursor == 0 then l else Edited(l.text[..l.cursor - 1] + l.text[l.cursor..], l.cursor - 1)
  }

  function Deleted(l: Line): Line
    requires l.cursor <= |l.text|
  {
    if l.cursor == |l.text| then l else Edited(l.text[..l.cursor] + l.text[l.cursor + 1..], l.cursor)
  }

  function Inserted(l: Line, c: byte, capacity: nat): Line
    requires l.cursor <= |l.text|
  {
    if |l.text| + 1 >= capacity then l else Edited(l.text[..l.cursor] + [c] + l.text[l.cursor..], l.cursor + 1)
  }

  function Tabbed(l: Line, commands: seq<Text>, capacity: nat): (r: Line)
    requires l.cursor <= |l.text| < capacity
    ensures l.cursor <= |r.text| < capacity && r.cursor == l.cursor
    ensures l.text <= r.text
  {
    var added := if l.cursor == |l.text| then Completion(l.text, commands, capacity) else [];
    Edited(l.text + added, l.cursor)
  }

  /** One key that neither accepts nor interrupts the line. */
  function Pressed(l: Line, key: byte, history: seq<Text>, commands: seq<Text>, capacity: nat): (r: Line)
    requires capacity > 0 && ValidLine(l, history, capacity)
    ensures ValidLine(r, history, capacity)
  {
    if key == NUL || key == RETURN || key == CTRL_C || key == NEWLINE then l
    else if key == ARROW_UP then Up(l, history, capacity)
    else if key == ARROW_DOWN then Down(l, history, capacity)
    else if key == ARROW_LEFT then (if l.cursor > 0 then l.(cursor := l.cursor - 1) else l)
    else if key == ARROW_RIGHT then (if l.cursor < |l.text| then l.(cursor := l.cursor + 1) else l)
    else if key == DELETE then Deleted(l)
    else if key == HOME_KEY then l.(cursor := 0)
    else if key == END_KEY then l.(cursor := |l.text|)
    else if key == BACKSPACE then Backspaced(l)
    else if key == TAB then Tabbed(l, commands, capacity)
    else Inserted(l, key, capacity)
  }

  /** What the keys that only move do: the text and the place in the history stay. */
  lemma KeysMove(l: Line, history: seq<Text>, commands: seq<Text>, capacity: nat)
    requires capacity > 0 && ValidLine(l, history, capacity)
    ensures Pressed(l, 0x82, history, commands, capacity) == l.(cursor := if l.cursor == 0 then 0 else l.cursor - 1)
    ensures Pressed(l, 0x83, history, commands, capacity) ==
            l.(cursor := if l.cursor == |l.text| then |l.text| else l.cursor + 1)
    ensures Pressed(l, 0x85, history, commands, capacity) == l.(cursor := 0)
    ensures Pressed(l, 0x86, history, commands, capacity) == l.(cursor := |l.text|)
  {
  }

  /** The keys that move, repeated: left and right take each other back, and enough of either do what Home and
      End do. */
  lemma {:induction false} StepsReachEnds(l: Line, k: nat, history: seq<Text>, commands: seq<Text>, capacity: nat)
    requires capacity > 0 && ValidLine(l, history, capacity)
    ensures PressAll(l, Repeat(0x82, k), history, commands, capacity) ==
            l.(cursor := if k < l.cursor then l.cursor - k else 0)
    ensures PressAll(l, Repeat(0x83, k), history, commands, capacity) ==
            l.(cursor := if l.cursor + k < |l.text| then l.cursor + k else |l.text|)
  {
    if k > 0 {
      RepeatMore(0x82, k);
      RepeatMore(0x83, k);
      StepsReachEnds(l, k - 1, history, commands, capacity);
    }
  }

  /** What the keys that change the text do with it, byte by byte; each leaves the history. */
  lemma KeysEdit(l: Line, key: byte, history: seq<Text>, commands: seq<Text>, capacity: nat)
    requires capacity > 0 && ValidLine(l, history, capacity)
    ensures var r := Pressed(l, 0x08, history, commands, capacity);
      if l.cursor == 0 then r == l
      else
        && |r.text| == |l.text| - 1 && r.cursor == l.cursor - 1 && r.offset == -1 && r.saved == None
        && forall i :: 0 <= i < |r.text| ==> r.text[i] == if i < l.cursor - 1 then l.text[i] else l.text[i + 1]
    ensures var r := Pressed(l, 0x84, history, commands, capacity);
      if l.cursor == |l.text| then r == l
      else
        && |r.text| == |l.text| - 1 && r.cursor == l.cursor && r.offset == -1 && r.saved == None
        && forall i :: 0 <= i < |r.text| ==> r.text[i] == if i < l.cursor then l.text[i] else l.text[i + 1]
    ensures key !in {0x00, 0x03, 0x08, 0x09, 0x0A, 0x0D} && !(0x80 <= key <= 0x86) ==>
              var r := Pressed(l, key, history, commands, capacity);
              if |l.text| + 1 >= capacity then r == l
              else
                && |r.text| == |l.text| + 1 && r.cursor == l.cursor + 1 && r.offset == -1 && r.saved == None
                && forall i :: 0 <= i < |r.text| ==>
                     r.text[i] == if i < l.cursor then l.text[i] else if i == l.cursor then key else l.text[i - 1]
  {
  }

  // Editing laws -----------------------------------------------------------------------------------

  /** What is inserted, the next backspace takes out again. */
  lemma BackspaceUndoesInsert(l: Line, c: byte, capacity: nat)
    requires l.cursor <= |l.text| && |l.text| + 1 < capacity
    ensures Backspaced(Inserted(l, c, capacity)) == Edited(l.text, l.cursor)
  {
    var m := Inserted(l, c, capacity);
    assert m.text[..m.cursor - 1] == l.text[..l.cursor] && m.text[m.cursor..] == l.text[l.cursor..];
    assert l.text[..l.cursor] + l.text[l.cursor..] == l.text;
  }

  /** Deleting is stepping right and then backspacing. */
  lemma DeleteIsRightBackspace(l: Line)
    requires l.cursor < |l.text|
    ensures Deleted(l) == Backspaced(l.(cursor := l.cursor + 1))
  {
  }

  predicate Plain(c: byte) {
    c !in {NUL, CTRL_C, BACKSPACE, TAB, NEWLINE, RETURN,
           ARROW_UP, ARROW_DOWN, ARROW_LEFT, ARROW_RIGHT, DELETE, HOME_KEY, END_KEY}
  }

  function PressAll(l: Line, keys: seq<byte>, history: seq<Text>, commands: seq<Text>, capacity: nat): (r: Line)
    requires capacity > 0 && ValidLine(l, history, capacity)
    ensures ValidLine(r, history, capacity)
  {
    if keys == [] then l
    else Pressed(PressAll(l, keys[..|keys| - 1], history, commands, capacity), keys[|keys| - 1], history, commands, capacity)
  }

  /** Typing a text anywhere in the line splices it in at the cursor, as long as it fits. */
  lemma {:induction false} TypingSplices(l: Line, typed: seq<byte>, history: seq<Text>, commands: seq<Text>, capacity: nat)
    requires capacity > 0 && ValidLine(l, history, capacity) && |l.text| + |typed| < capacity && typed != []
    requires forall k :: 0 <= k < |typed| ==> Plain(typed[k])
    ensures PressAll(l, typed, history, commands, capacity) ==
            Edited(l.text[..l.cursor] + typed + l.text[l.cursor..], l.cursor + |typed|)
  {
    var init, c := typed[..|typed| - 1], typed[|typed| - 1];
    var m := PressAll(l, init, history, commands, capacity);
    assert Plain(c);
    if init == [] {
      assert typed == [c];
      assert m == l;
    } else {
      TypingSplices(l, init, history, commands, capacity);
      SplicedMore(l.text[..l.cursor], init, c, l.text[l.cursor..]);
      assert init + [c] == typed;
    }
  }

  lemma SplicedMore(a: Text, typed: Text, c: byte, b: Text)
    ensures var text, at := a + typed + b, |a| + |typed|;
      text[..at] + [c] + text[at..] == a + (typed + [c]) + b
  {
    assert (a + typed + b)[..|a| + |typed|] == a + typed && (a + typed + b)[|a| + |typed|..] == b;
  }

  function Repeat(key: byte, k: nat): seq<byte> {
    seq(k, _ => key)
  }

  lemma RepeatMore(key: byte, k: nat)
    requires k > 0
    ensures Repeat(key, k)[..k - 1] == Repeat(key, k - 1) && Repeat(key, k)[k - 1] == key
  {
  }

  /** `k` times up shows the k-th newest entry and keeps the typed line. */
  lemma {:induction false} Ups(l: Line, k: nat, history: seq<Text>, commands: seq<Text>, capacity: nat)
    requires capacity > 0 && ValidLine(l, history, capacity) && l.offset == -1 && 0 < k <= |history|
    ensures var t := Truncated(history[k - 1], capacity - 1);
      PressAll(l, Repeat(ARROW_UP, k), history, commands, capacity) == Line(t, |t|, k - 1, Some(l.text))
  {
    RepeatMore(ARROW_UP, k);
    if k == 1 {
      assert PressAll(l, Repeat(ARROW_UP, 0), history, commands, capacity) == l;
    } else {
      Ups(l, k - 1, history, commands, capacity);
    }
  }

  lemma {:induction false} Downs(l: Line, k: nat, history: seq<Text>, commands: seq<Text>, capacity: nat)
    requires capacity > 0 && ValidLine(l, history, capacity) && k <= l.offset
    ensures var r := PressAll(l, Repeat(ARROW_DOWN, k), history, commands, capacity);
      && r.offset == l.offset - k && r.saved == l.saved
      && (k > 0 ==> r.text == Truncated(history[l.offset - k], capacity - 1) && r.cursor == |r.text|)
  {
    if k > 0 {
      RepeatMore(ARROW_DOWN, k);
      Downs(l, k - 1, history, commands, capacity);
    }
  }

  /** From a line that is being typed, k times up and k times down restore it, with the cursor
      at its end. */
  lemma UpsAndDowns(l: Line, k: nat, history: seq<Text>, commands: seq<Text>, capacity: nat)
    requires capacity > 0 && ValidLine(l, history, capacity) && l.offset == -1 && 0 < k <= |history|
    ensures PressAll(PressAll(l, Repeat(ARROW_UP, k), history, commands, capacity), Repeat(ARROW_DOWN, k),
                     history, commands, capacity) == Line(l.text, |l.text|, -1, None)
  {
    Ups(l, k, history, commands, capacity);
    var m := PressAll(l, Repeat(ARROW_UP, k), history, commands, capacity);
    Downs(m, k - 1, history, commands, capacity);
    RepeatMore(ARROW_DOWN, k);
  }

  // Completion -----------------------------------------------------------------------------------------

  function Matching(commands: seq<Text>, prefix: Text): (r: seq<Text>)
    ensures forall k :: 0 <= k < |r| ==> prefix <= r[k] && r[k] in commands
    ensures forall c :: c in commands && prefix <= c ==> c in r
  {
    if commands == [] then []
    else Matching(commands[..|commands| - 1], prefix)
         + (if prefix <= commands[|commands| - 1] then [commands[|commands| - 1]] else [])
  }

  /** common_prefix_len */
  function CommonLength(a: Text, b: Text): (n: nat)
    ensures n <= |a| && n <= |b| && a[..n] == b[..n]
    ensures n < |a| && n < |b| ==> a[n] != b[n]
  {
    if a != [] && b != [] && a[0] == b[0] then 1 + CommonLength(a[1..], b[1..]) else 0
  }

  /** The length that all names share with the first. */
  function SharedLength(names: seq<Text>): (n: nat)
    requires names != []
    ensures n <= |names[0]|
  {
    if |names| == 1 then |names[0]|
    else
      var n, m := SharedLength(names[..|names| - 1]), CommonLength(names[0], names[|names| - 1]);
      if m < n then m else n
  }

  lemma {:induction false} CommonAtLeast(a: Text, b: Text, p: Text)
    requires p <= a && p <= b
    ensures |p| <= CommonLength(a, b)
  {
    if p != [] {
      CommonAtLeast(a[1..], b[1..], p[1..]);
    }
  }

  /** It is the longest common prefix of all of them. */
  lemma {:induction false} SharedIsLongest(names: seq<Text>, p: Text)
    requires names != []
    ensures forall k :: 0 <= k < |names| ==> names[0][..SharedLength(names)] <= names[k]
    ensures (forall k :: 0 <= k < |names| ==> p <= names[k]) ==> |p| <= SharedLength(names)
  {
    if |names| > 1 {
      var init, last := names[..|names| - 1], names[|names| - 1];
      SharedIsLongest(init, p);
      var n := SharedLength(names);
      forall k | 0 <= k < |names| ensures names[0][..n] <= names[k] {
        if k < |init| {
          assert init[0][..SharedLength(init)] <= init[k];
        }
      }
      if forall k :: 0 <= k < |names| ==> p <= names[k] {
        assert forall k :: 0 <= k < |init| ==> init[k] == names[k];
        CommonAtLeast(names[0], last, p);
      }
    }
  }

  /** The letters that all matching names have after `text`, as far as they fit. */
  function Extension(text: Text, names: seq<Text>, capacity: nat): (e: Text)
    requires names != [] && |text| < capacity
    ensures |text| + |e| < capacity
  {
    var n := SharedLength(names);
    if n > |text| then Truncated(names[0][|text|..n], capacity - 1 - |text|) else []
  }

  /** What the Tab key appends when the cursor is at the end. */
  function Completion(text: Text, commands: seq<Text>, capacity: nat): (added: Text)
    requires |text| < capacity
    ensures |text| + |added| < capacity
  {
    var names := Matching(commands, text);
    if text == [] || SPACE in text || names == [] then []
    else
      var e := Extension(text, names, capacity);
      if |names| == 1 && |text| + |e| == |names[0]| && |names[0]| + 1 < capacity then e + [SPACE] else e
  }

  lemma ExtensionOf(text: Text, names: seq<Text>, capacity: nat)
    requires names != [] && |text| < capacity && text <= names[0] && |text| <= SharedLength(names)
    ensures var r, n := text + Extension(text, names, capacity), SharedLength(names);
      && r <= names[0] && |r| == (if n < capacity then n else capacity - 1)
  {
    var n, e := SharedLength(names), Extension(text, names, capacity);
    if n > |text| {
      var rest := names[0][|text|..n];
      assert e == rest[..|e|];
      assert names[0][..|text| + |e|] == names[0][..|text|] + names[0][|text|..n][..|e|];
    }
  }

  /** The completed text is a prefix of every command that matched, or, for a single match, the
      whole command and a space; and no longer text that fits is a prefix of all of them. */
  lemma CompletionIsShared(text: Text, commands: seq<Text>, capacity: nat, p: Text)
    requires |text| < capacity && text != [] && SPACE !in text && Matching(commands, text) != []
    ensures var names, r := Matching(commands, text), text + Completion(text, commands, capacity);
      && ((|names| == 1 && r == names[0] + [SPACE]) || forall k :: 0 <= k < |names| ==> r <= names[k])
      && ((forall k :: 0 <= k < |names| ==> p <= names[k]) && |p| < capacity ==> |p| <= |r|)
  {
    var names := Matching(commands, text);
    var e := Extension(text, names, capacity);
    ExtensionIsShared(text, names, capacity, p);
    if |names| == 1 && |text| + |e| == |names[0]| && |names[0]| + 1 < capacity {
      assert Completion(text, commands, capacity) == e + [SPACE];
      WholeName(text, e, names[0]);
    } else {
      assert Completion(text, commands, capacity) == e;
    }
  }

  /** Nothing is completed on an empty line, behind a space, or where no command begins so; a single match that
      fits is completed, and a space put behind it. */
  lemma CompletedWhen(text: Text, commands: seq<Text>, capacity: nat)
    requires |text| < capacity
    ensures text == [] || 0x20 in text || (forall c :: c in commands ==> !(text <= c)) ==>
              Completion(text, commands, capacity) == []
    ensures var names := Matching(commands, text);
      text != [] && 0x20 !in text && |names| == 1 && |names[0]| + 1 < capacity ==>
        text + Completion(text, commands, capacity) == names[0] + [0x20]
  {
    var names := Matching(commands, text);
    if |names| == 1 && |names[0]| + 1 < capacity && text != [] && SPACE !in text {
      OneExtension(text, names[0], capacity);
      assert names == [names[0]];
    }
  }

  lemma OneExtension(text: Text, name: Text, capacity: nat)
    requires text <= name && |name| + 1 < capacity
    ensures Extension(text, [name], capacity) == name[|text|..]
    ensures text + (name[|text|..] + [0x20]) == name + [0x20]
  {
    assert text + name[|text|..] == name;
  }

  lemma WholeName(text: Text, e: Text, name: Text)
    requires text + e <= name && |text| + |e| == |name|
    ensures text + (e + [SPACE]) == name + [SPACE]
  {
    assert text + e == name;
  }

  lemma ExtensionIsShared(text: Text, names: seq<Text>, capacity: nat, p: Text)
    requires names != [] && |text| < capacity && forall k :: 0 <= k < |names| ==> text <= names[k]
    ensures var r := text + Extension(text, names, capacity);
      && (forall k :: 0 <= k < |names| ==> r <= names[k])
      && ((forall k :: 0 <= k < |names| ==> p <= names[k]) && |p| < capacity ==> |p| <= |r|)
  {
    SharedIsLongest(names, p);
    SharedIsLongest(names, text);
    ExtensionOf(text, names, capacity);
    var r := text + Extension(text, names, capacity);
    forall k | 0 <= k < |names| ensures r <= names[k] {
      PrefixThrough(r, names[0], SharedLength(names), names[k]);
    }
  }

  lemma PrefixThrough(r: Text, a: Text, n: nat, b: Text)
    requires n <= |a| && r <= a && |r| <= n && a[..n] <= b
    ensures r <= b
  {
    assert r == a[..n][..|r|];
  }

  /** Tab does not move the cursor past what it appends: pressed again at once, it does nothing
      more than leave history. */
  lemma SecondTabDoesNothing(l: Line, commands: seq<Text>, capacity: nat)
    requires l.cursor == |l.text| < capacity && Completion(l.text, commands, capacity) != []
    ensures var r := Tabbed(l, commands, capacity);
      r.cursor < |r.text| && Tabbed(r, commands, capacity) == r
  {
    var r := Tabbed(l, commands, capacity);
    assert r.text + [] == r.text;
  }
}
