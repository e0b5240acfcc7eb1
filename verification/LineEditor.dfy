/** The two line editors, `dw_uart_gets` and `generic_uart_gets`: what they return, and what the terminal shows. */
module LineEditor {
  import opened CTypes
  import opened Uart

  predicate Erases(c: byte) { c == BACKSPACE || c == DEL }

  predicate Ends(c: byte) { c == CR || c == LF }

  /** What one key makes of the line typed so far. */
  function Feed(text: seq<byte>, c: byte): seq<byte> {
    if Ends(c) then text
    else if Erases(c) then if text == [] then [] else text[..|text| - 1]
    else text + [c]
  }

  /** The line after a number of keys. */
  function Typed(text: seq<byte>, keys: seq<byte>): seq<byte>
    decreases |keys|
  {
    if keys == [] then text else Typed(Feed(text, keys[0]), keys[1..])
  }

  /** How an editing session ends: with the line, and the number of keys it took; `finished` is false while the
      editor would wait for more keys. */
  datatype Session = Session(text: seq<byte>, used: nat, finished: bool)

  function Edit(input: seq<byte>, text: seq<byte>, capacity: nat): (r: Session)
    requires |text| <= capacity
    ensures r.used <= |input| && |r.text| <= capacity
  {
    if |text| == capacity then Session(text, 0, true)
    else if input == [] then Session(text, 0, false)
    else if Ends(input[0]) then Session(text, 1, true)
    else
      var r := Edit(input[1..], Feed(text, input[0]), capacity);
      r.(used := r.used + 1)
  }

  /** The two drivers, which differ in how they echo the end of a line. */
  datatype Driver = Dw | Generic

  function KeyEcho(c: byte, text: seq<byte>, driver: Driver): seq<byte> {
    if Erases(c) then if text == [] then [] else [BACKSPACE, SPACE, BACKSPACE]
    else if Ends(c) then WireByte(if driver.Dw? then c else CR) + WireByte(LF)
    else [c]
  }

  function Echo(keys: seq<byte>, text: seq<byte>, driver: Driver): seq<byte>
    decreases |keys|
  {
    if keys == [] then [] else KeyEcho(keys[0], text, driver) + Echo(keys[1..], Feed(text, keys[0]), driver)
  }

  // ------------------------------------------------------------------ the terminal

  /** One line of a terminal: its cells and the cursor. */
  datatype Line = Line(cells: seq<byte>, cursor: nat)

  type Screen = l: Line | l.cursor <= |l.cells| witness Line([], 0)

  predicate Printable(c: byte) { SPACE <= c < DEL }

  /** Printable keys and backspaces only. */
  predicate AllShown(keys: seq<byte>) {
    forall k :: 0 <= k < |keys| ==> 32 <= keys[k] < 127 || keys[k] == 8 || keys[k] == 127
  }

  /** What a terminal does with a byte: backspace moves the cursor left, a printable byte fills the cell under it.
      Other bytes are left to the terminal and not modelled. */
  function Display(screen: Screen, c: byte): Screen {
    if c == BACKSPACE && screen.cursor > 0 then screen.(cursor := screen.cursor - 1)
    else if Printable(c) then Line(Overwrite(screen.cells, screen.cursor, c), screen.cursor + 1)
    else screen
  }

  function Overwrite(cells: seq<byte>, at: nat, c: byte): (r: seq<byte>)
    requires at <= |cells|
    ensures |r| == Max(|cells|, at + 1) && r[..at] == cells[..at] && r[at] == c
    ensures forall k :: at < k < |cells| ==> r[k] == cells[k]
  {
    if at < |cells| then cells[at := c] else cells + [c]
  }

  function DisplayAll(screen: Screen, bytes: seq<byte>): Screen
    decreases |bytes|
  {
    if bytes == [] then screen else DisplayAll(Display(screen, bytes[0]), bytes[1..])
  }

  /** The screen shows the text, the cursor stands behind it, and everything from there on is blank. */
  predicate Shows(screen: Screen, text: seq<byte>) {
    && screen.cursor == |text| && screen.cells[..|text|] == text
    && forall k :: |text| <= k < |screen.cells| ==> screen.cells[k] == SPACE
  }

  lemma {:induction false} DisplaySplits(screen: Screen, a: seq<byte>, b: seq<byte>)
    ensures DisplayAll(screen, a + b) == DisplayAll(DisplayAll(screen, a), b)
    decreases |a|
  {
    if a == [] {
      assert a + b == b;
    } else {
      DisplaySplits(Display(screen, a[0]), a[1..], b);
      assert (a + b)[1..] == a[1..] + b;
    }
  }

  lemma DisplayOne(screen: Screen, c: byte)
    ensures DisplayAll(screen, [c]) == Display(screen, c)
  {
    assert [c][1..] == [];
  }

  lemma DisplayThree(screen: Screen, a: byte, b: byte, c: byte)
    ensures DisplayAll(screen, [a, b, c]) == Display(Display(Display(screen, a), b), c)
  {
    assert [a, b, c] == [a] + ([b] + [c]);
    DisplaySplits(screen, [a], [b] + [c]);
    DisplayOne(screen, a);
    DisplaySplits(Display(screen, a), [b], [c]);
    DisplayOne(Display(screen, a), b);
    DisplayOne(Display(Display(screen, a), b), c);
  }

  /** The echo of one key turns a screen that shows the line into one that shows the line after the key. */
  lemma KeyShown(screen: Screen, text: seq<byte>, c: byte, driver: Driver)
    requires Shows(screen, text) && (Printable(c) || Erases(c))
    ensures Shows(DisplayAll(screen, KeyEcho(c, text, driver)), Feed(text, c))
  {
    if Erases(c) && text != [] {
      DisplayThree(screen, BACKSPACE, SPACE, BACKSPACE);
      assert text[..|text| - 1] == screen.cells[..|text|][..|text| - 1] == screen.cells[..|text| - 1];
    } else if !Erases(c) {
      DisplayOne(screen, c);
    }
  }

  /** Before the line ends the terminal shows exactly the line typed so far, after any printable keys and
      backspaces and with either driver. */
  lemma {:induction false} ScreenShowsLine(screen: Screen, text: seq<byte>, keys: seq<byte>, driver: Driver)
    requires Shows(screen, text)
    requires AllShown(keys)
    ensures Shows(DisplayAll(screen, Echo(keys, text, driver)), Typed(text, keys))
    decreases |keys|
  {
    if keys != [] {
      var echo := KeyEcho(keys[0], text, driver);
      KeyShown(screen, text, keys[0], driver);
      var next, line := DisplayAll(screen, echo), Feed(text, keys[0]);
      ScreenShowsLine(next, line, keys[1..], driver);
      DisplaySplits(screen, echo, Echo(keys[1..], line, driver));
    }
  }

  // ------------------------------------------------------------------ the keys

  /** What a key does to the line, by its code: 8 and 127 take the last character away, 10 and 13 end the line and
      leave it alone, every other key is added to it. */
  lemma KeysMean(text: seq<byte>, c: byte)
    ensures Ends(c) <==> c == 10 || c == 13
    ensures c == 8 || c == 127 ==> Feed(text, c) == if text == [] then [] else text[..|text| - 1]
    ensures c == 10 || c == 13 ==> Feed(text, c) == text
    ensures c != 8 && c != 127 && c != 10 && c != 13 ==> Feed(text, c) == text + [c]
  {
  }

  /** What a key sends to the terminal: 8, a space and 8 for a character taken away; a line end as CR, LF, and in
      `dw_uart_gets` behind its own echo; any other key itself. CR goes before every LF on the way. */
  lemma EchoMeans(text: seq<byte>, c: byte)
    ensures c == 8 || c == 127 ==> forall d :: KeyEcho(c, text, d) == if text == [] then [] else [8, 32, 8]
    ensures c == 13 ==> KeyEcho(c, text, Dw) == [13, 13, 10] && KeyEcho(c, text, Generic) == [13, 13, 10]
    ensures c == 10 ==> KeyEcho(c, text, Dw) == [13, 10, 13, 10] && KeyEcho(c, text, Generic) == [13, 13, 10]
    ensures c != 8 && c != 127 && c != 10 && c != 13 ==> forall d :: KeyEcho(c, text, d) == [c]
  {
  }

  /** A printable key followed by backspace or DEL leaves the line as it was. */
  lemma ErasedAtOnce(text: seq<byte>, c: byte, erase: byte, rest: seq<byte>)
    requires 32 <= c < 127 && (erase == 8 || erase == 127)
    ensures Typed(text, [c, erase] + rest) == Typed(text, rest)
  {
    var keys := [c, erase] + rest;
    assert keys[1..][1..] == rest && (text + [c])[..|text|] == text;
  }

  /** DEL in place of backspace, anywhere among the keys. */
  function WithoutDel(keys: seq<byte>): seq<byte> {
    seq(|keys|, i requires 0 <= i < |keys| => if keys[i] == 127 then 8 else keys[i])
  }

  /** DEL and backspace are the same key to both editors: in the line, the keys taken and the echo. */
  lemma {:induction false} DelIsBackspace(input: seq<byte>, text: seq<byte>, capacity: nat)
    requires |text| <= capacity
    ensures Edit(WithoutDel(input), text, capacity) == Edit(input, text, capacity)
    decreases |input|
  {
    if |text| < capacity && input != [] && !Ends(input[0]) {
      assert WithoutDel(input)[1..] == WithoutDel(input[1..]);
      DelIsBackspace(input[1..], Feed(text, input[0]), capacity);
    }
  }

  lemma {:induction false} DelEchoesAsBackspace(keys: seq<byte>, text: seq<byte>, driver: Driver)
    ensures Echo(WithoutDel(keys), text, driver) == Echo(keys, text, driver)
    ensures Typed(text, WithoutDel(keys)) == Typed(text, keys)
    decreases |keys|
  {
    if keys != [] {
      assert WithoutDel(keys)[1..] == WithoutDel(keys[1..]);
      DelEchoesAsBackspace(keys[1..], Feed(text, keys[0]), driver);
    }
  }

  /** The keys `a`, `b`, DEL, CR make the line `a`, with either driver. */
  method ErasesWithDel() returns (dw: seq<byte>, generic: seq<byte>)
    ensures dw == generic == Ascii("a")
  {
    OneErased();
    assert Ascii("a") == [97];
    var dwLeft, genericLeft, dwSent, genericSent;
    dw, generic, dwLeft, genericLeft, dwSent, genericSent := GetsAgree([97, 98, 127, 13], 128);
  }

  lemma OneErased()
    ensures Edit([97, 98, 127, 13], [], 127) == Session([97], 4, true)
  {
    var keys := [97] + ([98] + ([127] + [13]));
    assert keys == [97, 98, 127, 13];
    FirstKey(97, [98] + ([127] + [13]), [], 127);
    LastTwoErase();
  }

  lemma LastTwoErase()
    ensures Edit([98] + ([127] + [13]), Feed([], 97), 127) == Session([97], 3, true)
  {
    assert Feed([], 97) == [97] && Feed([97], 98) == [97, 98] && Feed([97, 98], 127) == [97];
    FirstKey(98, [127] + [13], [97], 127);
    FirstKey(127, [13], [97, 98], 127);
  }

  lemma FirstKey(c: byte, rest: seq<byte>, text: seq<byte>, capacity: nat)
    requires |text| < capacity && c != 10 && c != 13
    ensures var next := Edit(rest, Feed(text, c), capacity);
      Edit([c] + rest, text, capacity) == next.(used := next.used + 1)
  {
    assert ([c] + rest)[1..] == rest;
  }

  // ------------------------------------------------------------------ a session in progress

  /** The progress of a session that has consumed `input` down to `left`, and sent `sent` so far. */
  ghost predicate Underway(input: seq<byte>, left: seq<byte>, text: seq<byte>, sent: seq<byte>, capacity: nat,
                           driver: Driver)
  {
    && |text| <= capacity
    && var whole, rest := Edit(input, [], capacity), Edit(left, text, capacity);
    && rest.finished && rest.text == whole.text
    && |left| <= |input| && left == input[|input| - |left|..]
    && |input| - |left| + rest.used == whole.used
    && sent + Echo(left[..rest.used], text, driver) == Echo(input[..whole.used], [], driver)
  }

  /** The session is over: the line, the keys left and the bytes sent are what they should be. */
  ghost predicate Over(input: seq<byte>, left: seq<byte>, text: seq<byte>, sent: seq<byte>, capacity: nat,
                       driver: Driver)
  {
    var whole := Edit(input, [], capacity);
    text == whole.text && left == input[whole.used..] && sent == Echo(input[..whole.used], [], driver)
  }

  /** As long as only printable keys and backspaces were typed, a terminal that was sent `sent` shows the line. */
  ghost predicate OnScreen(input: seq<byte>, left: seq<byte>, text: seq<byte>, sent: seq<byte>) {
    && |left| <= |input| && left == input[|input| - |left|..]
    && (AllShown(input[..|input| - |left|]) ==> Shows(DisplayAll(Line([], 0), sent), text))
  }

  lemma Starts(input: seq<byte>, capacity: nat, driver: Driver)
    requires Edit(input, [], capacity).finished
    ensures Underway(input, input, [], [], capacity, driver)
    ensures OnScreen(input, input, [], [])
  {
    assert input[0..] == input;
    var echo := Echo(input[..Edit(input, [], capacity).used], [], driver);
    assert [] + echo == echo;
  }

  lemma MiddleKey(input: seq<byte>, left: seq<byte>, text: seq<byte>, sent: seq<byte>, capacity: nat, driver: Driver)
    requires Underway(input, left, text, sent, capacity, driver) && |text| < capacity && left != [] && !Ends(left[0])
    ensures Underway(input, left[1..], Feed(text, left[0]), sent + KeyEcho(left[0], text, driver), capacity, driver)
  {
    var next, line := Edit(left[1..], Feed(text, left[0]), capacity), Feed(text, left[0]);
    assert Edit(left, text, capacity) == next.(used := next.used + 1);
    EchoFirst(left, next.used, text, driver);
    Associates(sent, KeyEcho(left[0], text, driver), Echo(left[1..][..next.used], line, driver));
  }

  lemma EchoFirst(left: seq<byte>, n: nat, text: seq<byte>, driver: Driver)
    requires n < |left|
    ensures Echo(left[..n + 1], text, driver) ==
      KeyEcho(left[0], text, driver) + Echo(left[1..][..n], Feed(text, left[0]), driver)
  {
    assert left[..n + 1][1..] == left[1..][..n];
  }

  lemma LastKey(input: seq<byte>, left: seq<byte>, text: seq<byte>, sent: seq<byte>, capacity: nat, driver: Driver)
    requires Underway(input, left, text, sent, capacity, driver) && |text| < capacity && left != [] && Ends(left[0])
    ensures Over(input, left[1..], text, sent + KeyEcho(left[0], text, driver), capacity, driver)
  {
    var keys := left[..1];
    assert keys[0] == left[0] && keys[1..] == [];
    assert Echo(keys, text, driver) == KeyEcho(left[0], text, driver) + [];
  }

  /** One key: the session goes on, or ends as it should. */
  lemma OneKey(input: seq<byte>, left: seq<byte>, text: seq<byte>, sent: seq<byte>, capacity: nat, driver: Driver)
    requires Underway(input, left, text, sent, capacity, driver) && |text| < capacity
    ensures left != []
    ensures var sent' := sent + KeyEcho(left[0], text, driver);
      if Ends(left[0]) then Over(input, left[1..], text, sent', capacity, driver)
      else Underway(input, left[1..], Feed(text, left[0]), sent', capacity, driver)
  {
    assert left != [];
    if Ends(left[0]) {
      LastKey(input, left, text, sent, capacity, driver);
    } else {
      MiddleKey(input, left, text, sent, capacity, driver);
    }
  }

  /** The line is full. */
  lemma Full(input: seq<byte>, left: seq<byte>, text: seq<byte>, sent: seq<byte>, capacity: nat, driver: Driver)
    requires Underway(input, left, text, sent, capacity, driver) && |text| == capacity
    ensures Over(input, left, text, sent, capacity, driver)
  {
    assert left[..0] == [];
    assert sent + [] == sent;
  }

  /** The screen follows the line through one more key. */
  lemma StaysOnScreen(input: seq<byte>, left: seq<byte>, text: seq<byte>, sent: seq<byte>, driver: Driver)
    requires OnScreen(input, left, text, sent) && left != []
    ensures OnScreen(input, left[1..], Feed(text, left[0]), sent + KeyEcho(left[0], text, driver))
  {
    var n := |input| - |left|;
    assert input[..n + 1] == input[..n] + [left[0]];
    if AllShown(input[..n + 1]) {
      assert input[..n + 1][n] == left[0];
      assert AllShown(input[..n]) by { assert forall k :: 0 <= k < n ==> input[..n][k] == input[..n + 1][k]; }
      KeyShown(DisplayAll(Line([], 0), sent), text, left[0], driver);
      DisplaySplits(Line([], 0), sent, KeyEcho(left[0], text, driver));
    }
  }

  /** A session on its way: all keys, those that are left, the line and what has been sent. */
  datatype Progress = Progress(input: seq<byte>, left: seq<byte>, text: seq<byte>, sent: seq<byte>)

  ghost predicate Running(g: Progress, capacity: nat, driver: Driver) {
    Underway(g.input, g.left, g.text, g.sent, capacity, driver) && OnScreen(g.input, g.left, g.text, g.sent)
  }

  ghost predicate Ended(g: Progress, capacity: nat, driver: Driver) {
    Over(g.input, g.left, g.text, g.sent, capacity, driver) && OnScreen(g.input, g.left, g.text, g.sent)
  }

  /** The session as it stands in the console and the buffer; `before` had been sent when it began. */
  ghost predicate Stands(con: Console, buffer: array<byte>, i: nat, before: seq<byte>, g: Progress)
    requires i <= buffer.Length
    reads con, buffer
  {
    con.input == g.left && buffer[..i] == g.text && con.output == before + g.sent
  }

  lemma NextKey(g: Progress, capacity: nat, driver: Driver) returns (g': Progress)
    requires Running(g, capacity, driver) && |g.text| < capacity
    ensures g.left != [] && g'.left == g.left[1..] && g'.sent == g.sent + KeyEcho(g.left[0], g.text, driver)
    ensures g'.text == Feed(g.text, g.left[0]) && g'.input == g.input
    ensures if Ends(g.left[0]) then Ended(g', capacity, driver) else Running(g', capacity, driver)
  {
    OneKey(g.input, g.left, g.text, g.sent, capacity, driver);
    StaysOnScreen(g.input, g.left, g.text, g.sent, driver);
    g' := Progress(g.input, g.left[1..], Feed(g.text, g.left[0]), g.sent + KeyEcho(g.left[0], g.text, driver));
  }

  // ------------------------------------------------------------------ the two drivers

  /** The string `"\b \b"`. */
  const ERASE: CString := Terminated([BACKSPACE, SPACE, BACKSPACE])

  lemma EraseOnWire()
    ensures Wire(Body(ERASE)) == [BACKSPACE, SPACE, BACKSPACE]
  {
    WirePlain([BACKSPACE, SPACE, BACKSPACE]);
  }

  method PutNul(buffer: array<byte>, i: nat)
    requires i < buffer.Length
    modifies buffer
    ensures buffer[i] == NUL && buffer[..i] == old(buffer[..i])
    ensures forall k :: i < k < buffer.Length ==> buffer[k] == old(buffer[k])
  {
    buffer[i] := NUL;
  }

  /** One turn of the loop of `dw_uart_gets`: backspace first, then the echo, then the test for the end. */
  method DwKey(con: Console, buffer: array<byte>, at: nat) returns (i: nat, done: bool)
    requires at < buffer.Length && con.input != []
    modifies con, buffer
    ensures var c := old(con.input)[0];
      && con.input == old(con.input)[1..] && done == Ends(c)
      && con.output == old(con.output) + KeyEcho(c, old(buffer[..at]), Dw)
      && i <= at + 1 && buffer[..i] == Feed(old(buffer[..at]), c)
      && (done ==> i == at && buffer[i] == NUL)
    ensures forall k :: at < k < buffer.Length ==> buffer[k] == old(buffer[k])
  {
    i, done := at, false;
    var c := con.GetChar();
    if c == BACKSPACE || c == DEL {
      if i > 0 {
        i := i - 1;
        con.Puts(ERASE);
        EraseOnWire();
      }
      return;
    }
    con.PutChar(c);
    if c == CR || c == LF {
      buffer[i] := NUL;
      con.PutChar(LF);
      done := true;
      return;
    }
    buffer[i] := c;
    i := i + 1;
  }

  /** The same turn, as a step of the session. */
  method DwTurn(con: Console, buffer: array<byte>, at: nat, size: nat, ghost before: seq<byte>, ghost g: Progress)
    returns (i: nat, done: bool, ghost g': Progress)
    requires at < size - 1 < buffer.Length && Stands(con, buffer, at, before, g) && Running(g, size - 1, Dw)
    modifies con, buffer
    ensures i < size && |g'.left| < |g.left| && Stands(con, buffer, i, before, g')
    ensures if done then Ended(g', size - 1, Dw) && buffer[i] == NUL else Running(g', size - 1, Dw)
    ensures g'.input == g.input
    ensures forall k :: size <= k < buffer.Length ==> buffer[k] == old(buffer[k])
  {
    g' := NextKey(g, size - 1, Dw);
    Associates(before, g.sent, KeyEcho(g.left[0], g.text, Dw));
    i, done := DwKey(con, buffer, at);
  }

  /** `dw_uart_gets`. */
  method DwGets(con: Console, buffer: array<byte>, size: nat) returns (i: nat)
    requires 1 <= size <= buffer.Length && Edit(con.input, [], size - 1).finished
    modifies con, buffer
    ensures var whole := Edit(old(con.input), [], size - 1);
      && i == |whole.text| < size && buffer[..i] == whole.text && buffer[i] == NUL
      && con.input == old(con.input)[whole.used..]
      && con.output == old(con.output) + Echo(old(con.input)[..whole.used], [], Dw)
    ensures forall k :: size <= k < buffer.Length ==> buffer[k] == old(buffer[k])
  {
    Starts(con.input, size - 1, Dw);
    ghost var g;
    i, g := DwLoop(con, buffer, size, Progress(con.input, con.input, [], []));
  }

  /** Its loop, and the terminator. */
  method DwLoop(con: Console, buffer: array<byte>, size: nat, ghost start: Progress)
    returns (i: nat, ghost g: Progress)
    requires 1 <= size <= buffer.Length && Running(start, size - 1, Dw)
    requires start.left == con.input && start.text == start.sent == []
    modifies con, buffer
    ensures i < size && buffer[i] == NUL && g.input == start.input
    ensures Ended(g, size - 1, Dw) && Stands(con, buffer, i, old(con.output), g)
    ensures forall k :: size <= k < buffer.Length ==> buffer[k] == old(buffer[k])
  {
    ghost var before := con.output;
    i, g := 0, start;
    while i < size - 1
      invariant i <= size - 1 && g.input == start.input
      invariant Running(g, size - 1, Dw) && Stands(con, buffer, i, before, g)
      invariant forall k :: size <= k < buffer.Length ==> buffer[k] == old(buffer[k])
      decreases |g.left|
    {
      var done;
      i, done, g := DwTurn(con, buffer, i, size, before, g);
      if done {
        return;
      }
    }
    Full(g.input, g.left, g.text, g.sent, size - 1, Dw);
    PutNul(buffer, i);
  }

  /** One turn of the loop of `generic_uart_gets`: the test for the end first, then backspace, then the echo. */
  method GenericKey(con: Console, buffer: array<byte>, at: nat) returns (i: nat, done: bool)
    requires at < buffer.Length && con.input != []
    modifies con, buffer
    ensures var c := old(con.input)[0];
      && con.input == old(con.input)[1..] && done == Ends(c)
      && con.output == old(con.output) + KeyEcho(c, old(buffer[..at]), Generic)
      && i <= at + 1 && buffer[..i] == Feed(old(buffer[..at]), c)
      && (done ==> i == at)
    ensures forall k :: at < k < buffer.Length ==> buffer[k] == old(buffer[k])
  {
    i, done := at, false;
    var c := con.GetChar();
    if c == CR || c == LF {
      con.PutChar(CR);
      con.PutChar(LF);
      done := true;
      return;
    }
    if c == BACKSPACE || c == DEL {
      if i > 0 {
        i := i - 1;
        con.PutChar(BACKSPACE);
        con.PutChar(SPACE);
        con.PutChar(BACKSPACE);
      }
      return;
    }
    con.PutChar(c);
    buffer[i] := c;
    i := i + 1;
  }

  /** The same turn, as a step of the session. */
  method GenericTurn(con: Console, buffer: array<byte>, at: nat, size: nat, ghost before: seq<byte>, ghost g: Progress)
    returns (i: nat, done: bool, ghost g': Progress)
    requires at < size - 1 < buffer.Length && Stands(con, buffer, at, before, g) && Running(g, size - 1, Generic)
    modifies con, buffer
    ensures i < size && |g'.left| < |g.left| && Stands(con, buffer, i, before, g')
    ensures if done then Ended(g', size - 1, Generic) else Running(g', size - 1, Generic)
    ensures g'.input == g.input
    ensures forall k :: size <= k < buffer.Length ==> buffer[k] == old(buffer[k])
  {
    g' := NextKey(g, size - 1, Generic);
    Associates(before, g.sent, KeyEcho(g.left[0], g.text, Generic));
    i, done := GenericKey(con, buffer, at);
  }

  /** `generic_uart_gets`. */
  method GenericGets(con: Console, buffer: array<byte>, size: nat) returns (i: nat)
    requires 1 <= size <= buffer.Length && Edit(con.input, [], size - 1).finished
    modifies con, buffer
    ensures var whole := Edit(old(con.input), [], size - 1);
      && i == |whole.text| < size && buffer[..i] == whole.text && buffer[i] == NUL
      && con.input == old(con.input)[whole.used..]
      && con.output == old(con.output) + Echo(old(con.input)[..whole.used], [], Generic)
    ensures forall k :: size <= k < buffer.Length ==> buffer[k] == old(buffer[k])
  {
    Starts(con.input, size - 1, Generic);
    ghost var g;
    i, g := GenericLoop(con, buffer, size, Progress(con.input, con.input, [], []));
  }

  /** Its loop, and the terminator. */
  method GenericLoop(con: Console, buffer: array<byte>, size: nat, ghost start: Progress)
    returns (i: nat, ghost g: Progress)
    requires 1 <= size <= buffer.Length && Running(start, size - 1, Generic)
    requires start.left == con.input && start.text == start.sent == []
    modifies con, buffer
    ensures i < size && buffer[i] == NUL && g.input == start.input
    ensures Ended(g, size - 1, Generic) && Stands(con, buffer, i, old(con.output), g)
    ensures forall k :: size <= k < buffer.Length ==> buffer[k] == old(buffer[k])
  {
    ghost var before := con.output;
    i, g := 0, start;
    while i < size - 1
      invariant i <= size - 1 && g.input == start.input
      invariant Running(g, size - 1, Generic) && Stands(con, buffer, i, before, g)
      invariant forall k :: size <= k < buffer.Length ==> buffer[k] == old(buffer[k])
      decreases |g.left|
    {
      var done;
      i, done, g := GenericTurn(con, buffer, i, size, before, g);
      if done {
        PutNul(buffer, i);
        return;
      }
    }
    Full(g.input, g.left, g.text, g.sent, size - 1, Generic);
    PutNul(buffer, i);
  }

  /** Runs both editors on the same keys: they return the same line and leave the same keys unread, and they
      send the same bytes exactly when no line feed was among the keys they took. */
  method GetsAgree(input: seq<byte>, size: nat)
    returns (dw: seq<byte>, generic: seq<byte>, dwLeft: seq<byte>, genericLeft: seq<byte>,
             dwSent: seq<byte>, genericSent: seq<byte>)
    requires size >= 1 && Edit(input, [], size - 1).finished
    ensures var used := Edit(input, [], size - 1).used;
      && dw == generic == Edit(input, [], size - 1).text && dwLeft == genericLeft == input[used..]
      && (dwSent == genericSent <==> LF !in input[..used])
  {
    ghost var keys := input[..Edit(input, [], size - 1).used];
    var buffer := new byte[size];
    var first := new Console(input);
    var i := DwGets(first, buffer, size);
    dw, dwLeft, dwSent := buffer[..i], first.input, first.output;
    var second := new Console(input);
    i := GenericGets(second, buffer, size);
    generic, genericLeft, genericSent := buffer[..i], second.input, second.output;
    EchoesAgree(keys, []);
  }

  function LineFeeds(keys: seq<byte>): nat {
    if keys == [] then 0 else (if keys[0] == LF then 1 else 0) + LineFeeds(keys[1..])
  }

  lemma {:induction false} EchoesAgree(keys: seq<byte>, text: seq<byte>)
    ensures |Echo(keys, text, Dw)| == |Echo(keys, text, Generic)| + LineFeeds(keys)
    ensures LF in keys <==> LineFeeds(keys) > 0
    ensures Echo(keys, text, Dw) == Echo(keys, text, Generic) <==> LF !in keys
    decreases |keys|
  {
    if keys != [] {
      EchoesAgree(keys[1..], Feed(text, keys[0]));
      assert keys == [keys[0]] + keys[1..];
      assert keys[0] != LF ==> KeyEcho(keys[0], text, Dw) == KeyEcho(keys[0], text, Generic);
      assert keys[0] == LF ==> |KeyEcho(keys[0], text, Dw)| == |KeyEcho(keys[0], text, Generic)| + 1;
    }
  }

  /** The returned line is the fold of the keys before the one that ended it, and never outgrows the buffer. */
  lemma {:induction false} EditIsFold(input: seq<byte>, text: seq<byte>, capacity: nat)
    requires |text| <= capacity
    ensures var r := Edit(input, text, capacity);
      && r.text == Typed(text, input[..r.used])
      && |r.text| <= capacity
      && (r.finished <==> |r.text| == capacity || (r.used > 0 && Ends(input[r.used - 1])))
      && forall k :: 0 <= k < r.used - 1 ==> !Ends(input[k])
    decreases |input|
  {
    if |text| < capacity && input != [] {
      var r := Edit(input, text, capacity);
      assert input[..r.used][0] == input[0] && input[..r.used][1..] == input[1..][..r.used - 1];
      if Ends(input[0]) {
        assert Typed(text, input[..1]) == Typed(text, input[..1][1..]);
      } else {
        EditIsFold(input[1..], Feed(text, input[0]), capacity);
        assert forall k :: 1 <= k < r.used ==> input[k] == input[1..][k - 1];
      }
    } else {
      assert input[..0] == [];
    }
  }
}
