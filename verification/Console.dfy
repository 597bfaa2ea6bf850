/** The scrolling boot console of scripts/apple_dcp.c and the unbounded list of rows it shows the end of. */
module Console {
  import opened Words
  import opened Sequences

  const ROWS := 256
  const COLS := 128

  /** One row of the character grid. */
  type Row = seq<char>

  function Blank(): Row { seq(COLS, i => '\0') }

  // ---- the unbounded console ----

  /** Every row there ever was; the last one is being written. */
  datatype Screen = Screen(lines: seq<Row>, col: nat, stage: nat, panic: bool)

  predicate Panics(ln: string) { Contains(ln, "panic(") || Contains(ln, "Panicked") }

  /** The boot stage a log line testifies to. */
  function Class(ln: string): (c: nat)
    ensures c <= 5
  {
    if Contains(ln, "hello from launchd") || Contains(ln, "ignition sequence complete") then 5
    else if Contains(ln, "launchd") || Contains(ln, "ignition") || Contains(ln, "BSD root") then 4
    else if Contains(ln, "RTBuddy") || Contains(ln, "AppleARM") || Contains(ln, "IOService") then 3
    else if Contains(ln, "apfs") || Contains(ln, "mountroot") || Contains(ln, "rootfs") || Contains(ln, "md0") then 2
    else if Contains(ln, "virtBase") || Contains(ln, "Darwin") || Contains(ln, "xnu") || Contains(ln, "SPTM") then 1
    else 0
  }

  /** A row as a C string. */
  function Text(row: Row): string { Until(row, '\0') }

  function Max(a: nat, b: nat): nat { if a < b then b else a }

  function NewLine(s: Screen): Screen
    requires s.lines != []
  {
    var ln := Text(s.lines[|s.lines| - 1]);
    Screen(s.lines + [Blank()], 0, Max(s.stage, Class(ln)), s.panic || Panics(ln))
  }

  predicate Printable(b: byte) { 0x20 <= b < 0x7f }

  predicate WellFormed(s: Screen) {
    s.lines != [] && s.col < COLS && forall i :: 0 <= i < |s.lines| ==> |s.lines[i]| == COLS
  }

  function PutChar(s: Screen, c: char): Screen
    requires WellFormed(s) && s.col < COLS - 1
  {
    var n := |s.lines| - 1;
    s.(lines := s.lines[n := s.lines[n][s.col := c]], col := s.col + 1)
  }

  function FeedByte(s: Screen, b: byte): (r: Screen)
    requires WellFormed(s)
    ensures WellFormed(r)
  {
    if b == 0x0A then NewLine(s)
    else if b == 0x0D then s.(col := 0)
    else if b == 0x09 then
      var col := (s.col + 8) / 8 * 8;
      if col >= COLS - 1 then NewLine(s) else s.(col := col)
    else if Printable(b) then PutChar(if s.col >= COLS - 1 then NewLine(s) else s, b as char)
    else s
  }

  function Feed(s: Screen, bytes: seq<byte>): (r: Screen)
    requires WellFormed(s)
    ensures WellFormed(r)
    decreases |bytes|
  {
    if bytes == [] then s else Feed(FeedByte(s, bytes[0]), bytes[1..])
  }

  function Initial(): Screen { Screen([Blank()], 0, 0, false) }

  // ---- properties of the unbounded console ----

  /** How the stream is cut into calls does not matter. */
  lemma {:induction false} FeedAppend(s: Screen, a: seq<byte>, b: seq<byte>)
    requires WellFormed(s)
    ensures Feed(s, a + b) == Feed(Feed(s, a), b)
    decreases |a|
  {
    hide FeedByte;
    if a == [] {
      assert a + b == b;
    } else {
      assert (a + b)[1..] == a[1..] + b;
      FeedAppend(FeedByte(s, a[0]), a[1..], b);
    }
  }

  /** A tab moves to the next multiple of eight, or to a new row from column
      120 on; a carriage return rewrites the same row. */
  lemma ControlBytes(s: Screen)
    requires WellFormed(s)
    ensures var t := FeedByte(s, 0x09);
      if s.col < 120 then t.lines == s.lines && t.col % 8 == 0 && s.col < t.col <= s.col + 8
      else |t.lines| == |s.lines| + 1 && t.col == 0
    ensures var t := FeedByte(s, 0x0D); t.lines == s.lines && t.col == 0
  {
    hide Class, Panics, Text;
  }

  function HighestClass(rows: seq<Row>): nat {
    if rows == [] then 0 else Max(HighestClass(rows[..|rows| - 1]), Class(Text(rows[|rows| - 1])))
  }

  predicate AnyPanic(rows: seq<Row>) {
    exists i :: 0 <= i < |rows| && Panics(Text(rows[i]))
  }

  /** The stage is the highest class and the panic flag the disjunction over
      the completed rows; the last column stays NUL. */
  predicate Tracked(s: Screen)
    requires WellFormed(s)
  {
    var done := s.lines[..|s.lines| - 1];
    && s.stage == HighestClass(done) && s.panic == AnyPanic(done)
    && forall i :: 0 <= i < |s.lines| ==> s.lines[i][COLS - 1] == '\0'
  }

  lemma NewLineTracked(s: Screen)
    requires WellFormed(s) && Tracked(s)
    ensures WellFormed(NewLine(s)) && Tracked(NewLine(s)) && NewLine(s).stage >= s.stage
  {
    hide Class, Panics, Text;
    var n := |s.lines| - 1;
    var t := NewLine(s);
    assert t.lines[..n + 1] == s.lines;
    assert s.lines == s.lines[..n] + [s.lines[n]];
  }

  lemma FeedByteTracked(s: Screen, b: byte)
    requires WellFormed(s) && Tracked(s)
    ensures Tracked(FeedByte(s, b)) && s.stage <= FeedByte(s, b).stage <= 5
  {
    hide NewLine, HighestClass, AnyPanic;
    HighestClassBound(s.lines[..|s.lines| - 1]);
    NewLineTracked(s);
    var t := NewLine(s);
    HighestClassBound(t.lines[..|t.lines| - 1]);
    if Printable(b) {
      var u := if s.col >= COLS - 1 then t else s;
      assert u.col < COLS - 1 by { NewLineStart(s); }
      var r := PutChar(u, b as char);
      assert r.lines[..|r.lines| - 1] == u.lines[..|u.lines| - 1];
    }
  }

  lemma NewLineStart(s: Screen)
    requires s.lines != []
    ensures NewLine(s).col == 0
  {
  }

  lemma {:induction false} HighestClassBound(rows: seq<Row>)
    ensures HighestClass(rows) <= 5
  {
    hide Class, Text;
    if rows != [] {
      HighestClassBound(rows[..|rows| - 1]);
    }
  }

  /** The rows that are complete. */
  function Done(s: Screen): seq<Row>
    requires s.lines != []
  {
    s.lines[..|s.lines| - 1]
  }

  /** t came later than s: complete rows stay as they are, stage and panic flag never fall. */
  predicate Later(s: Screen, t: Screen)
    requires s.lines != [] && t.lines != []
  {
    Done(s) <= Done(t) && s.stage <= t.stage && (s.panic ==> t.panic)
  }

  lemma FeedByteLater(s: Screen, b: byte)
    requires WellFormed(s)
    ensures Later(s, FeedByte(s, b))
  {
    hide Class, Panics, Text;
    assert Done(NewLine(s)) == s.lines;
  }

  /** For every byte stream: the tracked facts hold, and nothing complete is taken back. */
  lemma {:induction false} FeedTracked(s: Screen, bytes: seq<byte>)
    requires WellFormed(s) && Tracked(s)
    ensures Tracked(Feed(s, bytes)) && Later(s, Feed(s, bytes))
    decreases |bytes|
  {
    hide FeedByte, Tracked;
    if bytes != [] {
      FeedByteTracked(s, bytes[0]);
      FeedByteLater(s, bytes[0]);
      FeedTracked(FeedByte(s, bytes[0]), bytes[1..]);
    }
  }

  lemma InitialTracked()
    ensures WellFormed(Initial()) && Tracked(Initial())
  {
    assert Initial().lines[..0] == [];
  }

  /** Every byte stream from the empty console: at each moment the stage is the highest class and the panic flag the
      disjunction over the complete rows, column 127 is NUL, and what was complete earlier still is. */
  lemma EveryStream(bytes: seq<byte>, more: seq<byte>)
    ensures WellFormed(Initial())
    ensures var s, t := Feed(Initial(), bytes), Feed(Initial(), bytes + more);
      Tracked(s) && Tracked(t) && Later(s, t)
  {
    hide Tracked;
    InitialTracked();
    FeedTracked(Initial(), bytes);
    FeedTracked(Feed(Initial(), bytes), more);
    FeedAppend(Initial(), bytes, more);
  }

  // ---- plain text ----

  /** A segment cut into pieces of 127 characters; the empty segment is one empty piece. */
  function Cut(segment: seq<byte>): (r: seq<seq<byte>>)
    ensures r != []
  {
    if |segment| <= COLS - 1 then [segment] else [segment[..COLS - 1]] + Cut(segment[COLS - 1..])
  }

  /** The text split at its newlines, each part cut. */
  function Layout(text: seq<byte>): (r: seq<seq<byte>>)
    ensures r != []
    decreases |text|
  {
    var part := Until(text, 0x0A);
    if |part| == |text| then Cut(text) else Cut(part) + Layout(text[|part| + 1..])
  }

  function Fill(piece: seq<byte>): Row {
    seq(COLS, j => if 0 <= j < |piece| then piece[j] as char else '\0')
  }

  function FillAll(pieces: seq<seq<byte>>): (r: seq<Row>)
    ensures |r| == |pieces| && forall i :: 0 <= i < |pieces| ==> r[i] == Fill(pieces[i])
  {
    seq(|pieces|, i requires 0 <= i < |pieces| => Fill(pieces[i]))
  }

  /** The screen shows `piece` on its last row, after the rows `above`. */
  predicate Showing(s: Screen, above: seq<Row>, piece: seq<byte>) {
    WellFormed(s) && |piece| < COLS && s.lines == above + [Fill(piece)] && s.col == |piece|
  }

  lemma PutExtends(s: Screen, above: seq<Row>, piece: seq<byte>, b: byte)
    requires Showing(s, above, piece) && Printable(b) && |piece| < COLS - 1
    ensures Showing(FeedByte(s, b), above, piece + [b])
  {
    assert Fill(piece)[|piece| := b as char] == Fill(piece + [b]);
  }

  lemma NewLineShows(s: Screen, above: seq<Row>, piece: seq<byte>)
    requires Showing(s, above, piece)
    ensures Showing(NewLine(s), above + [Fill(piece)], [])
  {
    assert Fill([]) == Blank();
  }

  lemma {:induction false} FeedPiece(s: Screen, above: seq<Row>, piece: seq<byte>, more: seq<byte>)
    requires Showing(s, above, piece) && |piece| + |more| <= COLS - 1
    requires forall i :: 0 <= i < |more| ==> Printable(more[i])
    ensures Showing(Feed(s, more), above, piece + more)
    decreases |more|
  {
    hide FeedByte, Showing, Fill;
    assert WellFormed(s) by { ShowingWellFormed(s, above, piece); }
    if more == [] {
      assert piece + more == piece;
    } else {
      PutExtends(s, above, piece, more[0]);
      FeedPiece(FeedByte(s, more[0]), above, piece + [more[0]], more[1..]);
      assert piece + [more[0]] + more[1..] == piece + more;
    }
  }

  lemma ShowingWellFormed(s: Screen, above: seq<Row>, piece: seq<byte>)
    requires Showing(s, above, piece)
    ensures WellFormed(s) && s.lines == above + [Fill(piece)]
  {
  }

  /** A printable byte on a full row goes to a fresh one. */
  lemma FullRowWraps(s: Screen, above: seq<Row>, piece: seq<byte>, more: seq<byte>)
    requires Showing(s, above, piece) && |piece| == COLS - 1 && more != [] && Printable(more[0])
    ensures WellFormed(NewLine(s)) && Feed(s, more) == Feed(NewLine(s), more)
  {
  }

  lemma {:induction false} FeedSegment(s: Screen, above: seq<Row>, segment: seq<byte>)
    returns (last: seq<byte>)
    requires Showing(s, above, []) && forall i :: 0 <= i < |segment| ==> Printable(segment[i])
    ensures var pieces := Cut(segment);
      last == pieces[|pieces| - 1] && Showing(Feed(s, segment), above + FillAll(pieces[..|pieces| - 1]), last)
    decreases |segment|
  {
    hide Showing, Feed, Fill, NewLine;
    ShowingWellFormed(s, above, []);
    if |segment| <= COLS - 1 {
      FeedPiece(s, above, [], segment);
      last := segment;
      assert [] + segment == segment && above + FillAll(Cut(segment)[..0]) == above;
    } else {
      var first, more := segment[..COLS - 1], segment[COLS - 1..];
      assert segment == first + more && [] + first == first;
      FeedAppend(s, first, more);
      FeedPiece(s, above, [], first);
      var t := Feed(s, first);
      FullRowWraps(t, above, first, more);
      NewLineShows(t, above, first);
      last := FeedSegment(NewLine(t), above + [Fill(first)], more);
      SplitFirst(first, Cut(more), above);
    }
  }

  lemma SplitFirst(first: seq<byte>, pieces: seq<seq<byte>>, above: seq<Row>)
    requires pieces != []
    ensures var all := [first] + pieces;
      above + [Fill(first)] + FillAll(pieces[..|pieces| - 1]) == above + FillAll(all[..|all| - 1])
  {
    var all := [first] + pieces;
    assert all[..|all| - 1] == [first] + pieces[..|pieces| - 1];
    assert FillAll([first] + pieces[..|pieces| - 1]) == [Fill(first)] + FillAll(pieces[..|pieces| - 1]);
  }

  predicate PlainText(text: seq<byte>) {
    forall i :: 0 <= i < |text| ==> text[i] == 0x0A || Printable(text[i])
  }

  /** Feeding one line of the text leaves its pieces on the screen, the last one still open. */
  lemma FeedLine(s: Screen, above: seq<Row>, part: seq<byte>) returns (above': seq<Row>, last: seq<byte>)
    requires Showing(s, above, []) && forall i :: 0 <= i < |part| ==> Printable(part[i])
    ensures WellFormed(s) && Showing(Feed(s, part), above', last) && above' + [Fill(last)] == above + FillAll(Cut(part))
  {
    hide Showing, Feed, Fill, Cut;
    ShowingWellFormed(s, above, []);
    last := FeedSegment(s, above, part);
    var pieces := Cut(part);
    above' := above + FillAll(pieces[..|pieces| - 1]);
    assert pieces == pieces[..|pieces| - 1] + [last];
  }

  /** Printable text with newlines appears split at the newlines and cut after every 127 characters. */
  lemma {:induction false} FeedText(s: Screen, above: seq<Row>, text: seq<byte>)
    requires Showing(s, above, []) && PlainText(text)
    ensures WellFormed(s) && Feed(s, text).lines == above + FillAll(Layout(text))
    decreases |text|
  {
    hide Showing, Feed, Fill, NewLine, Cut, FillAll, Layout, Until;
    ShowingWellFormed(s, above, []);
    var part := Until(text, 0x0A);
    assert forall i :: 0 <= i < |part| ==> part[i] == text[i];
    var above', last := FeedLine(s, above, part);
    var t := Feed(s, part);
    ShowingWellFormed(t, above', last);
    if |part| == |text| {
      assert part == text;
      LayoutLines(part, []);
    } else {
      var rest := text[|part| + 1..];
      assert text == part + ([0x0A] + rest) == part + [0x0A] + rest;
      LayoutLines(part, rest);
      FeedAppend(s, part, [0x0A] + rest);
      NewLineShows(t, above', last);
      FeedNewLine(t, rest);
      FeedText(NewLine(t), above' + [Fill(last)], rest);
      FillAllAppend(above, Cut(part), Layout(rest));
    }
  }

  lemma FillAllAppend(above: seq<Row>, a: seq<seq<byte>>, b: seq<seq<byte>>)
    ensures above + FillAll(a) + FillAll(b) == above + FillAll(a + b)
  {
  }

  lemma FeedNewLine(s: Screen, rest: seq<byte>)
    requires WellFormed(s)
    ensures WellFormed(NewLine(s)) && Feed(s, [0x0A] + rest) == Feed(NewLine(s), rest)
  {
    assert ([0x0A] + rest)[1..] == rest;
  }

  /** From the empty console. */
  lemma ConsoleShowsText(text: seq<byte>)
    requires PlainText(text)
    ensures WellFormed(Initial()) && Feed(Initial(), text).lines == FillAll(Layout(text))
  {
    assert Fill([]) == Blank();
    assert Showing(Initial(), [], []);
    FeedText(Initial(), [], text);
    assert [] + FillAll(Layout(text)) == FillAll(Layout(text));
  }

  // ---- the bounded console ----

  class DcpConsole {
    const cons: array2<char>
    var row: nat
    var col: nat
    var bootStage: nat
    var bootPanic: bool
    /** Every row there ever was. */
    ghost var lines: seq<Row>

    ghost function Abs(): Screen
      reads this
    {
      Screen(lines, col, bootStage, bootPanic)
    }

    /** Grid rows 0..row are the last min(|lines|, 256) rows. */
    ghost predicate Valid()
      reads this, cons
    {
      && cons.Length0 == ROWS && cons.Length1 == COLS
      && WellFormed(Abs())
      && row == (if |lines| < ROWS then |lines| else ROWS) - 1
      && forall i, j :: 0 <= i <= row && 0 <= j < COLS ==> cons[i, j] == lines[|lines| - 1 - row + i][j]
    }

    constructor ()
      ensures Valid() && Abs() == Initial() && fresh(cons)
    {
      cons := new char[ROWS, COLS]((i, j) => '\0');
      row, col, bootStage, bootPanic := 0, 0, 0, false;
      lines := [Blank()];
    }

    function CurrentRow(): (r: Row)
      requires Valid()
      reads this, cons
      ensures r == lines[|lines| - 1]
    {
      var r := seq(COLS, j requires Valid() && 0 <= j < COLS reads this, cons => cons[row, j]);
      assert r == lines[|lines| - 1];
      r
    }

    method BootCheckStage(ln: string)
      modifies this`bootStage, this`bootPanic
      ensures bootPanic == (old(bootPanic) || Panics(ln))
      ensures old(bootStage) <= 5 ==> bootStage == Max(old(bootStage), Class(ln))
    {
      hide Contains;
      if Contains(ln, "panic(") || Contains(ln, "Panicked") { bootPanic := true; }
      if Contains(ln, "hello from launchd") || Contains(ln, "ignition sequence complete") {
        bootStage := 5;
      } else if Contains(ln, "launchd") || Contains(ln, "ignition") || Contains(ln, "BSD root") {
        if bootStage < 4 { bootStage := 4; }
      } else if Contains(ln, "RTBuddy") || Contains(ln, "AppleARM") || Contains(ln, "IOService") {
        if bootStage < 3 { bootStage := 3; }
      } else if Contains(ln, "apfs") || Contains(ln, "mountroot") || Contains(ln, "rootfs") || Contains(ln, "md0") {
        if bootStage < 2 { bootStage := 2; }
      } else if Contains(ln, "virtBase") || Contains(ln, "Darwin") || Contains(ln, "xnu") || Contains(ln, "SPTM") {
        if bootStage < 1 { bootStage := 1; }
      }
    }

    /** memmove of rows 1.. onto rows 0.. */
    method ShiftUp()
      requires cons.Length0 == ROWS && cons.Length1 == COLS
      modifies cons
      ensures forall i, j :: 0 <= i < ROWS - 1 && 0 <= j < COLS ==> cons[i, j] == old(cons[i + 1, j])
    {
      forall i, j | 0 <= i < ROWS - 1 && 0 <= j < COLS {
        cons[i, j] := cons[i + 1, j];
      }
    }

    /** memset of the current row */
    method ClearRow()
      requires cons.Length0 == ROWS && cons.Length1 == COLS && row < ROWS
      modifies cons
      ensures forall i, j :: 0 <= i < ROWS && 0 <= j < COLS ==> cons[i, j] == if i == row then '\0' else old(cons[i, j])
    {
      forall j | 0 <= j < COLS {
        cons[row, j] := '\0';
      }
    }

    /** The next row, scrolling when there is none, cleared. */
    method NextRow()
      requires cons.Length0 == ROWS && cons.Length1 == COLS && row < ROWS
      modifies cons, this`row
      ensures row == if old(row) + 1 < ROWS then old(row) + 1 else ROWS - 1
      ensures forall j :: 0 <= j < COLS ==> cons[row, j] == '\0'
      ensures forall i, j :: 0 <= i < row && 0 <= j < COLS ==>
        cons[i, j] == if old(row) + 1 < ROWS then old(cons[i, j]) else old(cons[i + 1, j])
    {
      row := row + 1;
      if row >= ROWS {
        ShiftUp();
        row := ROWS - 1;
      }
      ClearRow();
    }

    method ConsNewline()
      requires Valid() && bootStage <= 5
      modifies this, cons
      ensures Valid() && bootStage <= 5 && Abs() == NewLine(old(Abs()))
    {
      hide Class, Panics, Text, Contains, Until;
      BootCheckStage(Text(CurrentRow()));
      col := 0;
      NextRow();
      lines := lines + [Blank()];
    }

    method ConsoleFeed(buf: seq<byte>)
      requires Valid() && bootStage <= 5
      modifies this, cons
      ensures Valid() && bootStage <= 5 && Abs() == Feed(old(Abs()), buf)
    {
      hide NewLine;
      ghost var s := Abs();
      assert buf[..0] == [];
      for k := 0 to |buf|
        invariant Valid() && bootStage <= 5 && Abs() == Feed(s, buf[..k])
      {
        assert buf[..k + 1] == buf[..k] + [buf[k]];
        FeedAppend(s, buf[..k], [buf[k]]);
        ConsoleFeedByte(buf[k]);
      }
      assert buf[..|buf|] == buf;
    }

    method ConsoleFeedByte(b: byte)
      requires Valid() && bootStage <= 5
      modifies this, cons
      ensures Valid() && bootStage <= 5 && Abs() == FeedByte(old(Abs()), b)
    {
      hide NewLine, Contains, Until;
      if b == 0x0A {
        ConsNewline();
      } else if b == 0x0D {
        col := 0;
      } else if b == 0x09 {
        var next := (col + 8) / 8 * 8;
        if next >= COLS - 1 {
          ConsNewline();
        } else {
          col := next;
        }
      } else if 0x20 <= b < 0x7f {
        if col >= COLS - 1 {
          NewLineStart(Abs());
          ConsNewline();
        }
        StoreChar(b as char);
      }
    }

    /** cons[cons_row][cons_col++] = c */
    method StoreChar(c: char)
      requires Valid() && col < COLS - 1
      modifies this, cons
      ensures Valid() && bootStage == old(bootStage) && Abs() == PutChar(old(Abs()), c)
    {
      cons[row, col] := c;
      lines := lines[|lines| - 1 := lines[|lines| - 1][col := c]];
      col := col + 1;
    }
  }

  /** A stream as it arrives, in pieces. */
  function Flat(chunks: seq<seq<byte>>): seq<byte> {
    if chunks == [] then [] else Flat(chunks[..|chunks| - 1]) + chunks[|chunks| - 1]
  }

  /** A new console fed any pieces shows the end of the unbounded console fed the whole stream. */
  method ShowStream(chunks: seq<seq<byte>>) returns (c: DcpConsole)
    ensures fresh(c) && c.Valid() && WellFormed(Initial()) && c.Abs() == Feed(Initial(), Flat(chunks))
    ensures Tracked(c.Abs())
    ensures var lines := Feed(Initial(), Flat(chunks)).lines; var shown := if |lines| < 256 then |lines| else 256;
      && c.cons.Length0 == 256 && c.cons.Length1 == 128 && c.row == shown - 1 && c.col <= 127
      && forall i, j :: 0 <= i < shown && 0 <= j < 128 ==> c.cons[i, j] == lines[|lines| - shown + i][j]
  {
    hide Tracked, Feed;
    InitialTracked();
    c := new DcpConsole();
    assert chunks[..0] == [];
    assert Feed(Initial(), []) == Initial() by { NothingFed(); }
    for i := 0 to |chunks|
      invariant fresh(c) && fresh(c.cons) && c.Valid() && c.bootStage <= 5
      invariant c.Abs() == Feed(Initial(), Flat(chunks[..i]))
    {
      assert chunks[..i + 1][..i] == chunks[..i];
      FeedAppend(Initial(), Flat(chunks[..i]), chunks[i]);
      c.ConsoleFeed(chunks[i]);
    }
    assert chunks[..|chunks|] == chunks;
    FeedTracked(Initial(), Flat(chunks));
  }

  lemma NothingFed()
    ensures WellFormed(Initial()) && Feed(Initial(), []) == Initial()
  {
  }

  // ---- in plain terms ----

  /** What a log line says about the boot, level by level. */
  predicate Says(ln: string, level: nat) {
    match level
    case 5 => Contains(ln, "hello from launchd") || Contains(ln, "ignition sequence complete")
    case 4 => Contains(ln, "launchd") || Contains(ln, "ignition") || Contains(ln, "BSD root")
    case 3 => Contains(ln, "RTBuddy") || Contains(ln, "AppleARM") || Contains(ln, "IOService")
    case 2 => Contains(ln, "apfs") || Contains(ln, "mountroot") || Contains(ln, "rootfs") || Contains(ln, "md0")
    case 1 => Contains(ln, "virtBase") || Contains(ln, "Darwin") || Contains(ln, "xnu") || Contains(ln, "SPTM")
    case _ => false
  }

  /** A line counts for a level when it says so, or says a higher one. */
  lemma ClassByWords(ln: string)
    ensures Class(ln) >= 5 <==> Says(ln, 5)
    ensures Class(ln) >= 4 <==> Says(ln, 5) || Says(ln, 4)
    ensures Class(ln) >= 3 <==> Says(ln, 5) || Says(ln, 4) || Says(ln, 3)
    ensures Class(ln) >= 2 <==> Says(ln, 5) || Says(ln, 4) || Says(ln, 3) || Says(ln, 2)
    ensures Class(ln) >= 1 <==> Says(ln, 5) || Says(ln, 4) || Says(ln, 3) || Says(ln, 2) || Says(ln, 1)
    ensures Panics(ln) <==> Contains(ln, "panic(") || Contains(ln, "Panicked")
  {
    hide Contains;
  }

  predicate SaysPanic(ln: string) { Contains(ln, "panic(") || Contains(ln, "Panicked") }

  ghost predicate SaysAtLeast(ln: string, level: nat) { exists l :: level <= l <= 5 && Says(ln, l) }

  lemma ClassAtLeast(ln: string, level: nat)
    requires 1 <= level <= 5
    ensures Class(ln) >= level <==> SaysAtLeast(ln, level)
  {
    hide Says, Class, Panics;
    ClassByWords(ln);
  }

  ghost predicate SomeSays(rows: seq<Row>, level: nat) {
    exists i :: 0 <= i < |rows| && SaysAtLeast(Until(rows[i], '\0'), level)
  }

  lemma {:induction false} HighestByWords(rows: seq<Row>, level: nat)
    requires 1 <= level <= 5
    ensures HighestClass(rows) >= level <==> SomeSays(rows, level)
    decreases |rows|
  {
    hide Class, SaysAtLeast, Until;
    if rows != [] {
      var n := |rows| - 1;
      HighestByWords(rows[..n], level);
      ClassAtLeast(Text(rows[n]), level);
      assert forall i :: 0 <= i < n ==> rows[..n][i] == rows[i];
    }
  }

  /** For every byte stream: the stage has reached a level exactly when some complete row says that level or a
      higher one, and a panic was seen exactly when some complete row says so. */
  lemma StageByWords(bytes: seq<byte>, level: nat)
    requires 1 <= level <= 5
    ensures WellFormed(Initial())
    ensures var s := Feed(Initial(), bytes);
      && (s.stage >= level <==> SomeSays(Done(s), level))
      && (s.panic <==> exists i :: 0 <= i < |Done(s)| && SaysPanic(Until(Done(s)[i], '\0')))
  {
    hide Contains, Until, HighestClass, SomeSays, Feed;
    EveryStream(bytes, []);
    HighestByWords(Done(Feed(Initial(), bytes)), level);
  }

  /** What each byte does. */
  lemma EachByte(s: Screen, b: byte)
    requires WellFormed(s)
    ensures b !in {0x09, 0x0A, 0x0D} && !(0x20 <= b <= 0x7E) ==> FeedByte(s, b) == s
    ensures b == 0x0A ==> FeedByte(s, b) == NewLine(s)
    ensures 0x20 <= b <= 0x7E && s.col < 127 ==>
      var t := FeedByte(s, b); var n := |s.lines| - 1;
      && t.col == s.col + 1 && t.stage == s.stage && t.panic == s.panic && |t.lines| == n + 1
      && t.lines[..n] == s.lines[..n] && t.lines[n] == s.lines[n][s.col := b as char]
    ensures 0x20 <= b <= 0x7E && s.col == 127 ==> FeedByte(s, b) == FeedByte(NewLine(s), b)
  {
    hide Class, Panics, Text;
  }

  /** A new row is 128 NULs behind the old ones. */
  lemma NewRow(s: Screen)
    requires WellFormed(s)
    ensures var t := NewLine(s);
      && t.col == 0 && |t.lines| == |s.lines| + 1 && t.lines[..|s.lines|] == s.lines
      && |t.lines[|s.lines|]| == 128 && forall j :: 0 <= j < 128 ==> t.lines[|s.lines|][j] == '\0'
  {
  }

  /** Cutting leaves full pieces of 127 bytes and a rest, which together are what was cut. */
  lemma {:induction false} CutPieces(segment: seq<byte>)
    ensures var r := Cut(segment);
      && Flat(r) == segment && (forall i :: 0 <= i < |r| - 1 ==> |r[i]| == 127)
      && |r[|r| - 1]| <= 127 && (segment != [] ==> r[|r| - 1] != [])
  {
    if |segment| > 127 {
      var first, more := segment[..127], segment[127..];
      CutPieces(more);
      FlatFirst(first, Cut(more));
    } else {
      assert [segment][..0] == [];
      assert Flat([segment]) == [] + segment;
    }
  }

  lemma {:induction false} FlatFirst(first: seq<byte>, pieces: seq<seq<byte>>)
    ensures Flat([first] + pieces) == first + Flat(pieces)
    decreases |pieces|
  {
    var all := [first] + pieces;
    if pieces == [] {
      assert all == [first] && all[..0] == [];
    } else {
      FlatFirst(first, pieces[..|pieces| - 1]);
      assert all[..|all| - 1] == [first] + pieces[..|pieces| - 1];
    }
  }

  /** A text is laid out line by line. */
  lemma LayoutLines(line: seq<byte>, rest: seq<byte>)
    requires 0x0A !in line
    ensures Layout(line) == Cut(line) && Layout(line + [0x0A] + rest) == Cut(line) + Layout(rest)
  {
    hide Cut;
    UntilUnique(line, 0x0A, line);
    var t := line + [0x0A] + rest;
    UntilUnique(t, 0x0A, line);
    assert t[|line| + 1..] == rest;
  }
}
