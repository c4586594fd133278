/** The history line editor of 14. shell/ccsh.c: a state machine over keystrokes. */
module LineEditor {
  import opened Framing

  /** What the bytes read stand for; escape sequences other than the two arrows do nothing. */
  datatype Key = Enter | Backspace | Interrupt | Up | Down | OtherEscape(second: char, third: char) | Typed(c: char)

  /** The line under the prompt, the line set aside when history was entered, and the history
      position; the position past the last item is the line being written. */
  datatype State = State(line: string, draft: string, hpos: nat)

  datatype Outcome = Entered(line: string) | Editing(state: State)

  /** load_hist_into: an item without its line end. */
  function Item(raw: string): string {
    if raw != "" && raw[|raw| - 1] == '\n' then raw[..|raw| - 1] else raw
  }

  function Start(history: seq<string>): State {
    State("", "", |history|)
  }

  predicate Valid(history: seq<string>, st: State) {
    st.hpos <= |history|
  }

  /** One key that does not end the line. */
  function Edit(history: seq<string>, st: State, key: Key): (r: State)
    requires Valid(history, st)
    ensures Valid(history, r)
  {
    var hc := |history|;
    match key
    case Backspace => if st.line != "" then st.(line := st.line[..|st.line| - 1]) else st
    case Interrupt => State("", "", hc)
    case Up =>
      if st.hpos > 0 then
        State(Item(history[st.hpos - 1]), if st.hpos == hc then st.line else st.draft, st.hpos - 1)
      else st
    case Down =>
      if st.hpos < hc then
        var p := st.hpos + 1;
        State(if p == hc then st.draft else Item(history[p]), st.draft, p)
      else st
    case Typed(c) => st.(line := st.line + [c])
    case _ => st
  }

  /** A line that has reached the size of the buffer ends with whatever key comes next. */
  function Step(history: seq<string>, size: nat, st: State, key: Key): Outcome
    requires Valid(history, st)
  {
    if key.Enter? || |st.line| >= size then Entered(st.line) else Editing(Edit(history, st, key))
  }

  function Run(history: seq<string>, size: nat, st: State, keys: seq<Key>): (r: Outcome)
    requires Valid(history, st)
    ensures r.Editing? ==> Valid(history, r.state)
    decreases keys
  {
    if keys == [] then Editing(st)
    else match Step(history, size, st, keys[0])
      case Entered(line) => Entered(line)
      case Editing(next) => Run(history, size, next, keys[1..])
  }

  // ----- the draft survives history -----

  /** The run goes on through all these keys and is inside the history after each of them. */
  predicate StaysInHistory(history: seq<string>, size: nat, st: State, keys: seq<Key>)
    requires Valid(history, st)
    decreases keys
  {
    && st.hpos < |history|
    && (keys != [] ==>
      match Step(history, size, st, keys[0])
      case Entered(_) => false
      case Editing(next) => StaysInHistory(history, size, next, keys[1..]))
  }

  lemma {:induction false} DraftKept(history: seq<string>, size: nat, st: State, keys: seq<Key>)
    requires Valid(history, st) && StaysInHistory(history, size, st, keys)
    ensures var r := Run(history, size, st, keys);
      r.Editing? && r.state.draft == st.draft && r.state.hpos < |history|
    decreases keys
  {
    if keys != [] {
      var next := Step(history, size, st, keys[0]).state;
      DraftKept(history, size, next, keys[1..]);
      assert next.draft == st.draft;
    }
  }

  lemma {:induction false} RunAppend(history: seq<string>, size: nat, st: State, s: seq<Key>, t: seq<Key>)
    requires Valid(history, st)
    ensures Run(history, size, st, s + t) ==
      match Run(history, size, st, s)
      case Entered(line) => Entered(line)
      case Editing(next) => Run(history, size, next, t)
    decreases s
  {
    if s == [] {
      assert s + t == t;
    } else {
      assert (s + t)[1..] == s[1..] + t;
      if !Step(history, size, st, s[0]).Entered? {
        RunAppend(history, size, Step(history, size, st, s[0]).state, s[1..], t);
      }
    }
  }

  /** Leave the line with UP, do anything at all that stays inside the history, edits included,
      and come back with DOWN: the line is the one left, letter for letter. */
  lemma DraftComesBack(history: seq<string>, size: nat, st: State, keys: seq<Key>)
    requires history != [] && st.hpos == |history| && |st.line| < size
    requires StaysInHistory(history, size, Edit(history, st, Up), keys)
    ensures var inside := Run(history, size, st, [Up] + keys);
      && inside.Editing?
      && (|inside.state.line| < size && inside.state.hpos == |history| - 1 ==>
          Run(history, size, st, [Up] + keys + [Down]) == Editing(State(st.line, st.line, |history|)))
  {
    var first := Edit(history, st, Up);
    assert ([Up] + keys)[1..] == keys;
    DraftKept(history, size, first, keys);
    RunAppend(history, size, st, [Up] + keys, [Down]);
    var inside := Run(history, size, st, [Up] + keys).state;
    assert [Down][1..] == [];
    if |inside.line| < size {
      assert Run(history, size, inside, [Down]) == Run(history, size, Edit(history, inside, Down), []);
    }
  }

  // ----- k times up, k times down -----

  /** Items that fit the buffer, as the 1023 characters of one fgets do. */
  predicate Fits(history: seq<string>, size: nat) {
    forall i :: 0 <= i < |history| ==> |Item(history[i])| < size
  }

  /** The line shown at position p while the draft is d. */
  function Shown(history: seq<string>, d: string, p: nat): string
    requires p <= |history|
  {
    if p == |history| then d else Item(history[p])
  }

  /** The key leads from each state of the path to the next. */
  ghost predicate Leads(history: seq<string>, size: nat, key: Key, path: seq<State>) {
    && (forall i :: 0 <= i < |path| ==> Valid(history, path[i]))
    && (forall i :: 0 < i < |path| ==> Step(history, size, path[i - 1], key) == Editing(path[i]))
  }

  lemma {:induction false} Walk(history: seq<string>, size: nat, key: Key, path: seq<State>)
    requires path != [] && Leads(history, size, key, path)
    ensures Run(history, size, path[0], Repeat(key, |path| - 1)) == Editing(path[|path| - 1])
    decreases path
  {
    var k := |path| - 1;
    if k > 0 {
      var rest := path[1..];
      assert Leads(history, size, key, rest) by {
        assert forall i :: 0 <= i < |rest| ==> rest[i] == path[i + 1];
      }
      Walk(history, size, key, rest);
      assert Repeat(key, k)[1..] == Repeat(key, k - 1);
      assert Step(history, size, path[0], key) == Editing(path[1]);
    }
  }

  /** Along one path with one key and on along another with another key. */
  lemma {:induction false} WalkBack(history: seq<string>, size: nat, k: Key, l: Key, there: seq<State>, back: seq<State>)
    requires there != [] && back != [] && there[|there| - 1] == back[0]
    requires Leads(history, size, k, there) && Leads(history, size, l, back)
    ensures Run(history, size, there[0], Repeat(k, |there| - 1)) == Editing(back[0])
    ensures Run(history, size, there[0], Repeat(k, |there| - 1) + Repeat(l, |back| - 1)) == Editing(back[|back| - 1])
  {
    Walk(history, size, k, there);
    Walk(history, size, l, back);
    RunAppend(history, size, there[0], Repeat(k, |there| - 1), Repeat(l, |back| - 1));
  }

  lemma StepsUp(history: seq<string>, size: nat, d: string, p: nat, draft: string)
    requires 0 < p <= |history| && |d| < size && Fits(history, size)
    requires p < |history| ==> draft == d
    ensures Step(history, size, State(Shown(history, d, p), draft, p), Up)
         == Editing(State(Shown(history, d, p - 1), d, p - 1))
  {}

  lemma StepsDown(history: seq<string>, size: nat, d: string, p: nat)
    requires p < |history| && |d| < size && Fits(history, size)
    ensures Step(history, size, State(Shown(history, d, p), d, p), Down)
         == Editing(State(Shown(history, d, p + 1), d, p + 1))
  {}

  /** At position p inside or past the history, with draft d. */
  function At(history: seq<string>, d: string, p: nat): State
    requires p <= |history|
  {
    State(Shown(history, d, p), d, p)
  }

  lemma {:induction false} UpPath(history: seq<string>, size: nat, d: string, p: nat, k: nat) returns (path: seq<State>)
    requires k <= p < |history| && |d| < size && Fits(history, size)
    ensures |path| == k + 1 && path[0] == At(history, d, p) && path[k] == At(history, d, p - k)
    ensures Leads(history, size, Up, path)
    decreases k
  {
    path := [At(history, d, p)];
    if k > 0 {
      StepsUp(history, size, d, p, d);
      var rest := UpPath(history, size, d, p - 1, k - 1);
      path := path + rest;
    }
  }

  lemma {:induction false} DownPath(history: seq<string>, size: nat, d: string, p: nat, k: nat) returns (path: seq<State>)
    requires p + k <= |history| && |d| < size && Fits(history, size)
    ensures |path| == k + 1 && path[0] == At(history, d, p) && path[k] == At(history, d, p + k)
    ensures Leads(history, size, Down, path)
    decreases k
  {
    path := [At(history, d, p)];
    if k > 0 {
      StepsDown(history, size, d, p);
      var rest := DownPath(history, size, d, p + 1, k - 1);
      path := path + rest;
    }
  }

  /** k times UP and k times DOWN shows the line again, for any k up to the length of the
      history; on the way each position shows its item. */
  lemma UpDownIsIdentity(history: seq<string>, size: nat, st: State, k: nat)
    requires st.hpos == |history| && 0 < k <= |history| && |st.line| < size && Fits(history, size)
    ensures Run(history, size, st, Repeat(Up, k)) == Editing(State(Item(history[|history| - k]), st.line, |history| - k))
    ensures Run(history, size, st, Repeat(Up, k) + Repeat(Down, k)) == Editing(st.(draft := st.line))
  {
    var hc, d := |history|, st.line;
    StepsUp(history, size, d, hc, st.draft);
    var up := UpPath(history, size, d, hc - 1, k - 1);
    var down := DownPath(history, size, d, hc - k, k);
    WalkBack(history, size, Up, Down, [st] + up, down);
  }

  // ----- bytes -----

  const ESC: char := 27 as char
  const DEL: char := 127 as char
  const CTRL_C: char := 3 as char

  /** The key at the start of the bytes, and the bytes it takes; an escape sequence that the end of
      the input cuts short takes them all and, with no byte to follow, comes to nothing. */
  function KeyAt(bytes: string): (r: (Key, nat))
    requires bytes != ""
    ensures 0 < r.1 <= |bytes|
  {
    var c := bytes[0];
    if c == '\n' then (Enter, 1)
    else if c == DEL then (Backspace, 1)
    else if c == CTRL_C then (Interrupt, 1)
    else if c != ESC then (Typed(c), 1)
    else if |bytes| < 3 then (OtherEscape(c, c), |bytes|)
    else if bytes[1] == '[' && bytes[2] == 'A' then (Up, 3)
    else if bytes[1] == '[' && bytes[2] == 'B' then (Down, 3)
    else (OtherEscape(bytes[1], bytes[2]), 3)
  }

  function Keys(bytes: string): seq<Key>
    decreases |bytes|
  {
    if bytes == "" then []
    else
      var (key, n) := KeyAt(bytes);
      [key] + Keys(bytes[n..])
  }

  /** _fgets on these bytes: the line, or none at the end of the input, and the bytes unread. */
  function ReadBytes(history: seq<string>, size: nat, st: State, bytes: string): (Option<string>, string)
    requires Valid(history, st)
    decreases |bytes|
  {
    if bytes == "" then (None, "")
    else if bytes[0] == '\n' || |st.line| >= size then (Some(st.line), bytes[1..])
    else
      var (key, n) := KeyAt(bytes);
      ReadBytes(history, size, Edit(history, st, key), bytes[n..])
  }

  function LineOf(o: Outcome): Option<string> {
    match o
    case Entered(line) => Some(line)
    case Editing(_) => None
  }

  /** Whatever the bytes, reading them is running the keys they stand for. */
  lemma {:induction false} BytesRunKeys(history: seq<string>, size: nat, st: State, bytes: string)
    requires Valid(history, st)
    ensures ReadBytes(history, size, st, bytes).0 == LineOf(Run(history, size, st, Keys(bytes)))
    decreases |bytes|
  {
    if bytes != "" {
      var (key, n) := KeyAt(bytes);
      var keys := Keys(bytes[n..]);
      assert ([key] + keys)[1..] == keys;
      if bytes[0] != '\n' && |st.line| < size {
        BytesRunKeys(history, size, Edit(history, st, key), bytes[n..]);
      }
    }
  }

  /** The bytes a terminal sends for a key. */
  function BytesOf(key: Key): (bytes: string)
    ensures bytes != ""
  {
    match key
    case Enter => "\n"
    case Backspace => [DEL]
    case Interrupt => [CTRL_C]
    case Up => [ESC, '[', 'A']
    case Down => [ESC, '[', 'B']
    case OtherEscape(second, third) => [ESC, second, third]
    case Typed(c) => [c]
  }

  predicate IsKey(key: Key) {
    match key
    case OtherEscape(second, third) => second != '[' || (third != 'A' && third != 'B')
    case Typed(c) => c != '\n' && c != DEL && c != CTRL_C && c != ESC
    case _ => true
  }

  lemma KeyReadsBack(key: Key, rest: string)
    requires IsKey(key)
    ensures KeyAt(BytesOf(key) + rest) == (key, |BytesOf(key)|)
  {}

  /** Keys that end no line, their bytes, a line end, and more: the line is the one edited, and
      exactly what follows the line end is left to read. */
  lemma {:induction false} EnterEndsLine(history: seq<string>, size: nat, st: State, keys: seq<Key>, more: string)
    requires Valid(history, st) && (forall k :: k in keys ==> IsKey(k)) && Run(history, size, st, keys).Editing?
    ensures ReadBytes(history, size, st, FlatMap(BytesOf, keys) + ("\n" + more))
         == (Some(Run(history, size, st, keys).state.line), more)
    decreases keys
  {
    var tail := "\n" + more;
    if keys == [] {
      assert FlatMap(BytesOf, keys) + tail == tail && tail[1..] == more;
    } else {
      var key, bytes := keys[0], BytesOf(keys[0]);
      var rest := FlatMap(BytesOf, keys[1..]) + tail;
      assert key in keys;
      Associates(bytes, FlatMap(BytesOf, keys[1..]), tail);
      KeyReadsBack(key, rest);
      assert (bytes + rest)[|bytes|..] == rest;
      EnterEndsLine(history, size, Edit(history, st, key), keys[1..], more);
    }
  }

  // ----- what each byte does -----

  /** Characters that are no line end, no backspace (127), no interrupt (3) and no escape (27). */
  predicate IsPlain(c: char) {
    c != '\n' && c as int != 127 && c as int != 3 && c as int != 27
  }

  lemma FirstByte(c: char, rest: string)
    ensures ([c] + rest)[1..] == rest
  {}

  /** With room left, a plain character goes to the end of the line. */
  lemma {:induction false} TypedAppends(history: seq<string>, size: nat, st: State, c: char, rest: string)
    requires Valid(history, st) && |st.line| < size && IsPlain(c)
    ensures ReadBytes(history, size, st, [c] + rest)
         == ReadBytes(history, size, State(st.line + [c], st.draft, st.hpos), rest)
  {
    FirstByte(c, rest);
  }

  /** A line end enters the line, and so does any byte once the buffer is full. */
  lemma {:induction false} ByteEnters(history: seq<string>, size: nat, st: State, c: char, rest: string)
    requires Valid(history, st) && (c == '\n' || |st.line| >= size)
    ensures ReadBytes(history, size, st, [c] + rest) == (Some(st.line), rest)
  {
    FirstByte(c, rest);
  }

  lemma {:induction false} TextAppends(history: seq<string>, size: nat, st: State, text: string, rest: string)
    requires Valid(history, st) && |st.line| + |text| <= size && forall i :: 0 <= i < |text| ==> IsPlain(text[i])
    ensures ReadBytes(history, size, st, text + rest)
         == ReadBytes(history, size, State(st.line + text, st.draft, st.hpos), rest)
    decreases text
  {
    if text == "" {
      assert text + rest == rest && st.line + text == st.line;
    } else {
      var c, next := text[0], State(st.line + [text[0]], st.draft, st.hpos);
      assert text + rest == [c] + (text[1..] + rest);
      TypedAppends(history, size, st, c, text[1..] + rest);
      TextAppends(history, size, next, text[1..], rest);
      assert st.line + [c] + text[1..] == st.line + text;
    }
  }

  /** Text typed at a fresh prompt and entered is read as it was typed. */
  lemma {:induction false} TypedLineReads(history: seq<string>, size: nat, text: string, more: string)
    requires |text| <= size && forall i :: 0 <= i < |text| ==> IsPlain(text[i])
    ensures ReadBytes(history, size, Start(history), text + ("\n" + more)) == (Some(text), more)
  {
    var st := Start(history);
    TextAppends(history, size, st, text, "\n" + more);
    assert st.line + text == text;
    ByteEnters(history, size, State(text, st.draft, st.hpos), '\n', more);
  }

  /** Longer text is entered at the size of the buffer, and the byte after it is lost. */
  lemma {:induction false} LongLineCut(history: seq<string>, size: nat, text: string, more: string)
    requires |text| > size && forall i :: 0 <= i < |text| ==> IsPlain(text[i])
    ensures ReadBytes(history, size, Start(history), text + more) == (Some(text[..size]), text[size + 1..] + more)
  {
    var st, front, rest := Start(history), text[..size], text[size + 1..] + more;
    assert text + more == front + ([text[size]] + rest);
    TextAppends(history, size, st, front, [text[size]] + rest);
    assert st.line + front == front;
    ByteEnters(history, size, State(front, st.draft, st.hpos), text[size], rest);
  }

  /** Backspace takes back the character before it, and does nothing on an empty line. */
  lemma {:induction false} BackspaceUndoes(history: seq<string>, size: nat, st: State, c: char, rest: string)
    requires Valid(history, st) && |st.line| + 1 < size && IsPlain(c)
    ensures ReadBytes(history, size, st, [c] + ([127 as char] + rest)) == ReadBytes(history, size, st, rest)
    ensures st.line == "" ==> ReadBytes(history, size, st, [127 as char] + rest) == ReadBytes(history, size, st, rest)
  {
    var typed := State(st.line + [c], st.draft, st.hpos);
    TypedAppends(history, size, st, c, [127 as char] + rest);
    FirstByte(127 as char, rest);
    assert (st.line + [c])[..|st.line|] == st.line;
    assert Edit(history, typed, Backspace) == st;
  }

  /** An interrupt forgets the line, the draft and the place in the history. */
  lemma {:induction false} InterruptForgets(history: seq<string>, size: nat, st: State, rest: string)
    requires Valid(history, st) && |st.line| < size
    ensures ReadBytes(history, size, st, [3 as char] + rest)
         == ReadBytes(history, size, State("", "", |history|), rest)
  {
    FirstByte(3 as char, rest);
  }

  /** The item is this text with its line end, or without when it had none. */
  predicate ItemOf(item: string, text: string) {
    item == text + "\n" || (item == text && (text == "" || text[|text| - 1] != '\n'))
  }

  lemma ItemIs(item: string, text: string)
    requires ItemOf(item, text)
    ensures Item(item) == text
  {
    assert (text + "\n")[..|text|] == text;
  }

  lemma ArrowKey(third: char, rest: string)
    requires third == 'A' || third == 'B'
    ensures var bytes := [27 as char, '[', third] + rest;
      KeyAt(bytes) == (if third == 'A' then Up else Down, 3) && bytes[3..] == rest
  {}

  /** UP shows the item before, and on leaving the line under work sets it aside; at the oldest item
      it does nothing. */
  lemma {:induction false} UpShows(history: seq<string>, size: nat, st: State, text: string, rest: string)
    requires Valid(history, st) && |st.line| < size
    requires st.hpos > 0 ==> ItemOf(history[st.hpos - 1], text)
    ensures ReadBytes(history, size, st, [27 as char, '[', 'A'] + rest) ==
      if st.hpos == 0 then ReadBytes(history, size, st, rest)
      else if st.hpos == |history| then ReadBytes(history, size, State(text, st.line, st.hpos - 1), rest)
      else ReadBytes(history, size, State(text, st.draft, st.hpos - 1), rest)
  {
    ArrowKey('A', rest);
    if st.hpos > 0 {
      ItemIs(history[st.hpos - 1], text);
    }
  }

  /** DOWN shows the item after, or past the newest one the line set aside; there it does nothing. */
  lemma {:induction false} DownShows(history: seq<string>, size: nat, st: State, text: string, rest: string)
    requires Valid(history, st) && |st.line| < size
    requires st.hpos + 1 < |history| ==> ItemOf(history[st.hpos + 1], text)
    ensures ReadBytes(history, size, st, [27 as char, '[', 'B'] + rest) ==
      if st.hpos == |history| then ReadBytes(history, size, st, rest)
      else if st.hpos + 1 == |history| then ReadBytes(history, size, State(st.draft, st.draft, |history|), rest)
      else ReadBytes(history, size, State(text, st.draft, st.hpos + 1), rest)
  {
    ArrowKey('B', rest);
    if st.hpos + 1 < |history| {
      ItemIs(history[st.hpos + 1], text);
    }
  }

  /** Every other escape sequence does nothing. */
  lemma {:induction false} OthersIgnored(history: seq<string>, size: nat, st: State, second: char, third: char, rest: string)
    requires Valid(history, st) && |st.line| < size && (second != '[' || (third != 'A' && third != 'B'))
    ensures ReadBytes(history, size, st, [27 as char, second, third] + rest) == ReadBytes(history, size, st, rest)
  {
    var bytes := [27 as char, second, third] + rest;
    assert bytes[3..] == rest;
    assert KeyAt(bytes) == (OtherEscape(second, third), 3);
  }

  // ----- the code -----

  class Editor {
    const history: seq<string>
    const size: nat
    var buf: string    // the first len characters of the buffer
    var draft: string  // the first draft_len characters of the draft
    var hpos: nat

    ghost predicate Sound()
      reads this
    {
      Valid(history, View())
    }

    ghost function View(): State
      reads this
    {
      State(buf, draft, hpos)
    }

    constructor (history: seq<string>, size: nat)
      ensures Sound() && View() == Start(history)
      ensures this.history == history && this.size == size
    {
      this.history := history;
      this.size := size;
      buf, draft, hpos := "", "", |history|;
    }

    /** The body of the loop for a key that does not end the line. */
    method Press(key: Key)
      requires Sound()
      modifies this
      ensures Sound() && View() == Edit(history, old(View()), key)
    {
      var hc := |history|;
      match key {
        case Backspace =>
          if |buf| > 0 {
            buf := buf[..|buf| - 1];
          }
        case Interrupt =>
          buf, draft, hpos := "", "", hc;
        case Up =>
          if hpos > 0 {
            if hpos == hc {
              draft := buf;
            }
            hpos := hpos - 1;
            buf := Item(history[hpos]);
          }
        case Down =>
          if hpos < hc {
            hpos := hpos + 1;
            if hpos == hc {
              buf := draft;
            } else {
              buf := Item(history[hpos]);
            }
          }
        case Typed(c) =>
          buf := buf + [c];
        case _ =>
      }
    }

    /** _fgets on these bytes, with the bytes it leaves unread. */
    method ReadLine(bytes: string) returns (line: Option<string>, rest: string)
      requires Sound()
      modifies this
      ensures Sound()
      ensures (line, rest) == ReadBytes(history, size, old(View()), bytes)
    {
      rest := bytes;
      while rest != ""
        invariant Sound()
        invariant ReadBytes(history, size, View(), rest) == ReadBytes(history, size, old(View()), bytes)
        decreases |rest|
      {
        if rest[0] == '\n' || |buf| >= size {
          return Some(buf), rest[1..];
        }
        var (key, n) := KeyAt(rest);
        Press(key);
        rest := rest[n..];
      }
      line := None;
    }
  }
}
