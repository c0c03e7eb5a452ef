/** The shell's input: a ring of earlier lines, and the buffer that read_line edits. */
module ShellInput {
  import opened Wrappers
  import opened Bytes
  import opened Ascii
  import opened LineEditing
  import opened MemoryMove

  // History ---------------------------------------------------------------------------------------

  predicate HasContent(line: Text) {
    exists k :: 0 <= k < |line| && line[k] != SPACE && line[k] != TAB
  }

  /** history_add on the list of lines, newest first. */
  function Remembered(recent: seq<Text>, line: Text): (r: seq<Text>)
    requires |recent| <= HISTORY_SIZE
    ensures |r| <= HISTORY_SIZE
  {
    var entry := Truncated(line, INPUT_BUFFER_SIZE - 1);
    if !HasContent(entry) then recent
    else [entry] + (if |recent| < HISTORY_SIZE then recent else recent[..HISTORY_SIZE - 1])
  }

  /** Which lines are remembered: those that have a byte other than a space or a tab among their first 127; these
      are kept, with at most fifteen older lines behind. */
  lemma RememberedMeans(recent: seq<Text>, line: Text)
    requires |recent| <= 16
    ensures var entry := if |line| <= 127 then line else line[..127];
      if forall k :: 0 <= k < |line| && k < 127 ==> line[k] == 0x20 || line[k] == 0x09 then
        Remembered(recent, line) == recent
      else
        Remembered(recent, line) == [entry] + (if |recent| <= 15 then recent else recent[..15])
  {
    var entry := Truncated(line, INPUT_BUFFER_SIZE - 1);
    assert entry == if |line| <= 127 then line else line[..127];
    if k :| 0 <= k < |line| && k < 127 && line[k] != 0x20 && line[k] != 0x09 {
      assert entry[k] == line[k];
    }
    assert forall k :: 0 <= k < |entry| ==> entry[k] == line[k];
  }

  class History {
    const entries: array<Text>
    var head: nat
    var count: nat

    predicate Valid()
      reads this
    {
      entries.Length == HISTORY_SIZE && head < HISTORY_SIZE && count <= HISTORY_SIZE
    }

    /** The remembered lines, newest first. */
    ghost function Recent(): (r: seq<Text>)
      requires Valid()
      reads this, entries
      ensures |r| == count
    {
      seq(count, k requires 0 <= k < count reads this, entries requires Valid() => entries[Slot(head, k)])
    }

    constructor ()
      ensures Valid() && Recent() == [] && fresh(entries)
    {
      entries := new Text[HISTORY_SIZE](_ => []);
      head, count := 0, 0;
    }

    /** history_add */
    method Add(line: Text)
      requires Valid()
      modifies this, entries
      ensures Valid() && Recent() == Remembered(old(Recent()), line)
      ensures Recent() == old(Recent()) <== forall k :: 0 <= k < |line| && k < 127 ==> line[k] == 0x20 || line[k] == 0x09
      ensures (exists k :: 0 <= k < |line| && k < 127 && line[k] != 0x20 && line[k] != 0x09) ==>
                && Recent() != [] && Recent()[0] == (if |line| <= 127 then line else line[..127])
                && Recent()[1..] == old(Recent())[..|Recent()| - 1]
                && |Recent()| == (if |old(Recent())| < 16 then |old(Recent())| + 1 else 16)
    {
      RememberedMeans(Recent(), line);
      var entry := Truncated(line, INPUT_BUFFER_SIZE - 1);
      var k := 0;
      while k < |entry| && (entry[k] == SPACE || entry[k] == TAB)
        invariant 0 <= k <= |entry|
        invariant forall j :: 0 <= j < k ==> entry[j] == SPACE || entry[j] == TAB
      {
        k := k + 1;
      }
      if k == |entry| {
        return;
      }
      Store(entry);
    }

    /** The end of history_add: the oldest entry gives way if the ring is full. */
    method Store(entry: Text)
      requires Valid()
      modifies this, entries
      ensures Valid()
      ensures Recent() == [entry] + (if old(count) < HISTORY_SIZE then old(Recent()) else old(Recent())[..HISTORY_SIZE - 1])
    {
      ghost var before := entries[..];
      ghost var oldHead := head;
      entries[head] := entry;
      head := (head + 1) % HISTORY_SIZE;
      if count < HISTORY_SIZE {
        count := count + 1;
      }
      ghost var kept := if old(count) < HISTORY_SIZE then old(Recent()) else old(Recent())[..HISTORY_SIZE - 1];
      forall k | 0 <= k < count ensures Recent()[k] == ([entry] + kept)[k] {
        NextSlot(oldHead, k);
        assert k > 0 ==> entries[Slot(oldHead, k - 1)] == before[Slot(oldHead, k - 1)];
      }
      assert Recent() == [entry] + kept;
    }

    /** history_get */
    method Get(offset: nat) returns (entry: Option<Text>)
      requires Valid()
      ensures entry == if offset < count then Some(Recent()[offset]) else None
    {
      if offset >= count {
        return None;
      }
      return Some(entries[Slot(head, offset)]);
    }
  }

  /** The slot of the `offset`-th newest entry. */
  function Slot(head: nat, offset: nat): (i: nat)
    requires head < HISTORY_SIZE && offset < HISTORY_SIZE
    ensures i < HISTORY_SIZE
  {
    (head + HISTORY_SIZE - 1 - offset) % HISTORY_SIZE
  }

  /** When the head moves on, every entry is one step older. */
  lemma NextSlot(head: nat, k: nat)
    requires head < HISTORY_SIZE && k < HISTORY_SIZE
    ensures Slot((head + 1) % HISTORY_SIZE, k) == if k == 0 then head else Slot(head, k - 1)
    ensures k > 0 ==> Slot(head, k - 1) != head
  {
  }

  function RememberAll(recent: seq<Text>, lines: seq<Text>): (r: seq<Text>)
    requires |recent| <= HISTORY_SIZE
    ensures |r| <= HISTORY_SIZE
  {
    if lines == [] then recent else Remembered(RememberAll(recent, lines[..|lines| - 1]), lines[|lines| - 1])
  }

  function Accepted(lines: seq<Text>): seq<Text> {
    if lines == [] then []
    else
      var entry := Truncated(lines[|lines| - 1], INPUT_BUFFER_SIZE - 1);
      (if HasContent(entry) then [entry] else []) + Accepted(lines[..|lines| - 1])
  }

  /** After any number of lines the ring holds the newest sixteen that were not blank, newest
      first. */
  lemma {:induction false} NewestSixteen(lines: seq<Text>)
    ensures RememberAll([], lines) ==
            if |Accepted(lines)| <= HISTORY_SIZE then Accepted(lines) else Accepted(lines)[..HISTORY_SIZE]
  {
    if lines != [] {
      NewestSixteen(lines[..|lines| - 1]);
    }
  }

  // The editor --------------------------------------------------------------------------------------

  /** The line buffer is not the ring's memory. */
  ghost predicate Apart(buffer: array<byte>, history: History) {
    (history.entries as object) != buffer
  }

  lemma CutAt(s: seq<byte>, len: nat, at: nat)
    requires at < len < |s|
    ensures Moved(s, at, at + 1, len - at)[..len - 1] == s[..len][..at] + s[..len][at + 1..]
  {
  }

  class Editor {
    const buffer: array<byte>
    const history: History
    const commands: seq<Text>
    var len: nat
    var cursor: nat
    var historyOffset: int
    var saved: Text
    var savedValid: bool

    ghost function State(): Line
      requires len <= buffer.Length
      reads this, buffer
    {
      Line(buffer[..len], cursor, historyOffset, if savedValid then Some(saved) else None)
    }

    ghost predicate Ready()
      reads this, history
    {
      0 < buffer.Length <= INPUT_BUFFER_SIZE && len < buffer.Length && history.Valid() && Apart(buffer, history)
    }

    /** Holds between keys. */
    ghost predicate Valid()
      reads this, buffer, history, history.entries
    {
      Ready() && ValidLine(State(), history.Recent(), buffer.Length)
    }

    constructor (buffer: array<byte>, history: History, commands: seq<Text>)
      requires 0 < buffer.Length <= INPUT_BUFFER_SIZE && history.Valid() && Apart(buffer, history)
      ensures Valid() && State() == EMPTY
      ensures this.buffer == buffer && this.history == history && this.commands == commands
    {
      this.buffer, this.history, this.commands := buffer, history, commands;
      len, cursor, historyOffset, saved, savedValid := 0, 0, -1, [], false;
    }

    /** replace_buffer_with_text */
    method Replace(text: Text)
      requires Ready()
      modifies this`len, this`cursor, buffer
      ensures Ready() && State() == Recalled(old(State()), text, buffer.Length)
    {
      var shown := Truncated(text, buffer.Length - 1);
      forall i | 0 <= i < |shown| {
        buffer[i] := shown[i];
      }
      len := |shown|;
      buffer[len] := NUL;
      cursor := len;
      assert buffer[..len] == shown;
    }

    method LeaveHistory()
      modifies this`historyOffset, this`savedValid
      ensures historyOffset == -1 && !savedValid
    {
      historyOffset := -1;
      savedValid := false;
    }

    method PressUp()
      requires Valid()
      modifies this, buffer
      ensures Valid() && State() == Up(old(State()), history.Recent(), buffer.Length)
    {
      if historyOffset + 1 >= history.count {
        return;
      }
      if historyOffset == -1 && !savedValid {
        saved := buffer[..len];
        savedValid := true;
      }
      historyOffset := historyOffset + 1;
      var entry := history.Get(historyOffset);
      if entry.Some? {
        Replace(entry.value);
      }
    }

    method PressDown()
      requires Valid()
      modifies this, buffer
      ensures Valid() && State() == Down(old(State()), history.Recent(), buffer.Length)
    {
      if historyOffset < 0 {
        return;
      }
      historyOffset := historyOffset - 1;
      if historyOffset >= 0 {
        var entry := history.Get(historyOffset);
        if entry.Some? {
          Replace(entry.value);
          return;
        }
      }
      Replace(saved);
      savedValid := false;
    }

    method PressDelete()
      requires Valid()
      modifies this, buffer
      ensures Valid() && State() == Deleted(old(State()))
    {
      if cursor < len {
        CloseGap(cursor);
        LeaveHistory();
      }
    }

    /** The buffer side of the Delete key. */
    method CloseGap(at: nat)
      requires Ready() && at < len
      modifies this`len, buffer
      ensures Ready() && len == old(len) - 1
      ensures buffer[..len] == old(buffer[..len])[..at] + old(buffer[..len])[at + 1..]
    {
      CutAt(buffer[..], len, at);
      ghost var s := buffer[..];
      MemMove(buffer, at, at + 1, len - at);
      ghost var t := buffer[..];
      len := len - 1;
      buffer[len] := NUL;
      assert buffer[..len] == t[..len];
      assert s[..len + 1] == old(buffer[..len]);
    }

    /** The buffer side of Backspace; the terminator moves along. */
    method RubOut()
      requires Ready() && 0 < cursor <= len
      modifies this`len, this`cursor, buffer
      ensures Ready() && len == old(len) - 1 && cursor == old(cursor) - 1
      ensures buffer[..len] == old(buffer[..len])[..cursor] + old(buffer[..len])[cursor + 1..]
    {
      CutAt(buffer[..], len, cursor - 1);
      ghost var s := buffer[..];
      MemMove(buffer, cursor - 1, cursor, len - cursor + 1);
      cursor := cursor - 1;
      len := len - 1;
      assert s[..len + 1] == old(buffer[..len]);
    }

    method PressBackspace()
      requires Valid()
      modifies this, buffer
      ensures Valid() && State() == Backspaced(old(State()))
    {
      if cursor > 0 {
        RubOut();
        LeaveHistory();
      }
    }

    method Insert(c: byte)
      requires Valid()
      modifies this, buffer
      ensures Valid() && State() == Inserted(old(State()), c, buffer.Length)
    {
      if len + 1 >= buffer.Length {
        return;
      }
      ghost var before := buffer[..];
      MemMove(buffer, cursor + 1, cursor, len - cursor + 1);
      buffer[cursor] := c;
      InsertedBytes(before, buffer[..], cursor, len, c);
      cursor := cursor + 1;
      len := len + 1;
      LeaveHistory();
    }

    /** The Tab key. */
    method PressTab()
      requires Valid()
      modifies this, buffer
      ensures Valid() && State() == Tabbed(old(State()), commands, buffer.Length)
    {
      LeaveHistory();
      if cursor == len {
        Complete();
      } else {
        assert buffer[..len] + [] == buffer[..len];
      }
    }

    /** handle_tab_completion with the cursor at the end of the text. */
    method Complete()
      requires Ready()
      modifies this`len, buffer
      ensures Ready() && buffer[..len] == old(buffer[..len]) + Completion(old(buffer[..len]), commands, buffer.Length)
    {
      var text := buffer[..len];
      assert text + [] == text;
      if len != 0 && SPACE !in text {
        var names, shared := FindMatches(text);
        if names != [] {
          CompleteWith(names, shared);
        }
      }
    }

    method CompleteWith(names: seq<Text>, shared: nat)
      requires Ready() && len > 0 && SPACE !in buffer[..len]
      requires names == Matching(commands, buffer[..len]) && names != [] && shared == SharedLength(names)
      modifies this`len, buffer
      ensures Ready() && buffer[..len] == old(buffer[..len]) + Completion(old(buffer[..len]), commands, buffer.Length)
    {
      ghost var text := buffer[..len];
      var extension := if shared > len then Truncated(names[0][len..shared], buffer.Length - 1 - len) else [];
      var single := |names| == 1 && len + |extension| == |names[0]| && len + |extension| + 1 < buffer.Length;
      CompletionCases(text, commands, buffer.Length, names, shared, extension, single);
      Append(extension, single);
    }

    /** The shared letters, and a space behind a single complete match. */
    method Append(extension: Text, single: bool)
      requires Ready() && len + |extension| < buffer.Length && (single ==> len + |extension| + 1 < buffer.Length)
      modifies this`len, buffer
      ensures Ready()
      ensures buffer[..len] == old(buffer[..len]) + extension + (if single then [SPACE] else [])
    {
      Extend(extension);
      if single {
        Extend([SPACE]);
      }
    }

    /** The matching commands and the length that they share. */
    method FindMatches(prefix: Text) returns (names: seq<Text>, shared: nat)
      ensures names == Matching(commands, prefix)
      ensures names != [] ==> shared == SharedLength(names)
    {
      names, shared := [], 0;
      var i := 0;
      while i < |commands|
        invariant 0 <= i <= |commands| && Matched(commands[..i], prefix, names, shared)
      {
        var name := commands[i];
        MatchedMore(commands, i, prefix, names, shared);
        if prefix <= name {
          if names == [] {
            shared := |name|;
          } else {
            var common := CommonLength(names[0], name);
            if common < shared {
              shared := common;
            }
          }
          names := names + [name];
        }
        i := i + 1;
      }
      assert commands[..i] == commands;
    }

    method Extend(added: Text)
      requires Ready() && len + |added| < buffer.Length
      modifies this`len, buffer
      ensures Ready() && buffer[..len] == old(buffer[..len]) + added
    {
      ghost var text := buffer[..len];
      forall i | 0 <= i < |added| {
        buffer[len + i] := added[i];
      }
      len := len + |added|;
      buffer[len] := NUL;
      assert buffer[..len] == text + added;
    }

    /** One round of read_line's loop for a key that does not end it. */
    method Press(key: byte)
      requires Valid() && key !in {CTRL_C, NEWLINE}
      modifies this, buffer
      ensures Valid() && State() == Pressed(old(State()), key, history.Recent(), commands, buffer.Length)
    {
      if key == NUL || key == RETURN {
      } else if key == ARROW_UP {
        PressUp();
      } else if key == ARROW_DOWN {
        PressDown();
      } else if key == ARROW_LEFT {
        if cursor > 0 {
          cursor := cursor - 1;
        }
      } else if key == ARROW_RIGHT {
        if cursor < len {
          cursor := cursor + 1;
        }
      } else if key == DELETE {
        PressDelete();
      } else if key == HOME_KEY {
        if cursor > 0 {
          cursor := 0;
        }
      } else if key == END_KEY {
        if cursor < len {
          cursor := len;
        }
      } else if key == BACKSPACE {
        PressBackspace();
      } else if key == TAB {
        PressTab();
      } else {
        Insert(key);
      }
    }
  }

  predicate Matched(commands: seq<Text>, prefix: Text, names: seq<Text>, shared: nat) {
    names == Matching(commands, prefix) && (names != [] ==> shared == SharedLength(names))
  }

  lemma MatchedMore(commands: seq<Text>, i: nat, prefix: Text, names: seq<Text>, shared: nat)
    requires i < |commands| && Matched(commands[..i], prefix, names, shared)
    ensures !(prefix <= commands[i]) ==> Matched(commands[..i + 1], prefix, names, shared)
    ensures prefix <= commands[i] ==>
              Matched(commands[..i + 1], prefix, names + [commands[i]],
                      if names == [] then |commands[i]|
                      else if CommonLength(names[0], commands[i]) < shared then CommonLength(names[0], commands[i])
                      else shared)
  {
    assert commands[..i + 1][..i] == commands[..i];
    assert (names + [commands[i]])[..|names|] == names;
  }

  lemma CompletionCases(text: Text, commands: seq<Text>, capacity: nat, names: seq<Text>, shared: nat, e: Text, single: bool)
    requires |text| < capacity && text != [] && SPACE !in text && names == Matching(commands, text) && names != []
    requires shared == SharedLength(names)
    requires e == if shared > |text| then Truncated(names[0][|text|..shared], capacity - 1 - |text|) else []
    requires single == (|names| == 1 && |text| + |e| == |names[0]| && |text| + |e| + 1 < capacity)
    ensures text + Completion(text, commands, capacity) == text + e + (if single then [SPACE] else [])
  {
    assert e == Extension(text, names, capacity);
    Associate(text, e, if single then [SPACE] else []);
    assert e + [] == e;
  }

  lemma Associate(a: Text, b: Text, c: Text)
    ensures a + b + c == a + (b + c)
  {
  }

  datatype Outcome = Accept(line: Text) | Interrupt | Waiting

  predicate Ends(key: byte) {
    key == CTRL_C || key == NEWLINE
  }

  /** The number of keys up to the first that ends the line. */
  function KeysBeforeEnd(keys: seq<byte>): (n: nat)
    ensures n <= |keys| && (n < |keys| ==> Ends(keys[n]))
    ensures forall k :: 0 <= k < n ==> !Ends(keys[k])
  {
    if keys == [] || Ends(keys[0]) then 0
    else
      var n := KeysBeforeEnd(keys[1..]);
      assert forall k :: 0 < k < n + 1 ==> keys[k] == keys[1..][k - 1];
      n + 1
  }

  /** The bytes from the cursor on, moved up by one, and the new one before them. */
  lemma InsertedBytes(before: seq<byte>, after: seq<byte>, cursor: nat, len: nat, c: byte)
    requires cursor <= len && len + 1 < |before|
    requires after == Moved(before, cursor + 1, cursor, len - cursor + 1)[cursor := c]
    ensures after[..len + 1] == before[..len][..cursor] + [c] + before[..len][cursor..]
  {
  }

  /** read_line on the keys that arrive: the line accepted is what the keys before the first
      newline make of an empty line; Ctrl-C discards it; without either, it waits for more. */
  method ReadLine(buffer: array<byte>, keys: seq<byte>, history: History, commands: seq<Text>) returns (outcome: Outcome)
    requires 0 < buffer.Length <= INPUT_BUFFER_SIZE && history.Valid() && Apart(buffer, history)
    modifies buffer
    ensures var n := KeysBeforeEnd(keys);
      && ValidLine(EMPTY, history.Recent(), buffer.Length)
      && var line := PressAll(EMPTY, keys[..n], history.Recent(), commands, buffer.Length).text;
      outcome == if n == |keys| then Waiting else if keys[n] == CTRL_C then Interrupt else Accept(line)
    ensures outcome.Waiting? <==> forall k :: 0 <= k < |keys| ==> keys[k] != 0x03 && keys[k] != 0x0A
    ensures outcome.Interrupt? ==> exists n :: 0 <= n < |keys| && keys[n] == 0x03 && 0x0A !in keys[..n]
    ensures outcome.Accept? ==> exists n :: 0 <= n < |keys| && keys[n] == 0x0A && 0x03 !in keys[..n]
    ensures outcome.Accept? ==>
              |outcome.line| < buffer.Length && buffer[..|outcome.line|] == outcome.line && buffer[|outcome.line|] == NUL
    ensures outcome.Interrupt? ==> buffer[0] == NUL
  {
    var editor := new Editor(buffer, history, commands);
    var k := 0;
    ghost var recent := history.Recent();
    assert keys[..0] == [];
    while k < |keys| && !Ends(keys[k])
      invariant 0 <= k <= |keys| && editor.Valid() && forall j :: 0 <= j < k ==> !Ends(keys[j])
      invariant editor.buffer == buffer && editor.history == history && editor.commands == commands
      invariant history.Valid() && history.Recent() == recent
      invariant editor.State() == PressAll(EMPTY, keys[..k], recent, commands, buffer.Length)
    {
      assert keys[..k + 1][..k] == keys[..k];
      editor.Press(keys[k]);
      k := k + 1;
    }
    FirstEnd(keys, k);
    if k == |keys| {
      return Waiting;
    }
    if keys[k] == CTRL_C {
      buffer[0] := NUL;
      return Interrupt;
    }
    var len := editor.len;
    var line := buffer[..len];
    buffer[len] := NUL;
    assert buffer[..len] == line;
    return Accept(line);
  }

  lemma {:induction false} FirstEnd(keys: seq<byte>, k: nat)
    requires k <= |keys| && (forall j :: 0 <= j < k ==> !Ends(keys[j])) && (k < |keys| ==> Ends(keys[k]))
    ensures KeysBeforeEnd(keys) == k
  {
    if k > 0 {
      FirstEnd(keys[1..], k - 1);
    }
  }
}
