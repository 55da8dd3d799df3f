/**
 * The pad controller's display and input logic: the 8x8 grid that shows
 * the machine's position, the SysEx message that lights it, the colour
 * packets for the machine state, the per-status update step, and the
 * decoding of button presses into position-change requests.
 */
module Launchpad {
  import opened Common
  import opened Jog

  /** Side of the pad grid. */
  const GridSize: int := 8

  /** The SysEx header every message to the pad starts with. */
  const SysExHeader: seq<byte> := [0xF0, 0x00, 0x20, 0x29, 0x02, 0x10]

  /** The byte that ends a SysEx message. */
  const SysExEnd: byte := 0xF7

  /** SysEx command: set the colour of LEDs. */
  const SetLedCommand: byte := 0x0A

  /** SysEx command: make an LED pulse in a colour. */
  const PulseLedCommand: byte := 0x28

  /** The LED the state colour packets address. */
  const StateLed: byte := 0x0A

  /** Grid colours: the cursor cell, the rest of the cursor's row, every other cell. */
  const CursorColor: byte := 5
  const RowColor: byte := 13
  const OffColor: byte := 127

  /** An 8x8 grid of colours, rows first. */
  predicate IsMatrix(m: seq<seq<byte>>) {
    |m| == GridSize && forall r | 0 <= r < GridSize :: |m[r]| == GridSize
  }

  /** The pad at a grid cell: rows count up from 11..18 in steps of ten. */
  function PadNote(row: int, column: int): (note: byte)
    requires 0 <= row < GridSize && 0 <= column < GridSize
    ensures 11 <= note <= 88 && note / 10 == row + 1 && note % 10 == column + 1
  {
    (row + 1) * 10 + 1 + column
  }

  /**
   * The colour of a cell for a cursor at column `currentX` of row
   * `currentY`. No clamping: coordinates off the grid light nothing.
   */
  function CellColor(row: int, column: int, currentX: int, currentY: int): (color: byte)
    ensures color == CursorColor <==> row == currentY && column == currentX
    ensures color == RowColor <==> row == currentY && column != currentX
    ensures color == OffColor <==> row != currentY
  {
    if currentY == row then (if currentX == column then CursorColor else RowColor) else OffColor
  }

  /** The whole grid for a cursor position. */
  function GridOf(currentX: int, currentY: int): (m: seq<seq<byte>>)
    ensures IsMatrix(m)
  {
    seq(GridSize, r => seq(GridSize, c => CellColor(r, c, currentX, currentY)))
  }

  /** The cursor is shown exactly when the position lies on the grid, and then only at that cell. */
  lemma CursorShownIffOnGrid(currentX: int, currentY: int)
    ensures (exists r, c | 0 <= r < GridSize && 0 <= c < GridSize :: GridOf(currentX, currentY)[r][c] == CursorColor)
            <==> 0 <= currentX < GridSize && 0 <= currentY < GridSize
    ensures forall r, c | 0 <= r < GridSize && 0 <= c < GridSize ::
              GridOf(currentX, currentY)[r][c] == CursorColor ==> r == currentY && c == currentX
  {
    if 0 <= currentX < GridSize && 0 <= currentY < GridSize {
      assert GridOf(currentX, currentY)[currentY][currentX] == CursorColor;
    }
  }

  /**
   * The cursor's row is highlighted exactly when `currentY` lies on the
   * grid; otherwise every cell is off.
   */
  lemma RowShownIffOnGrid(currentX: int, currentY: int)
    ensures (exists r, c | 0 <= r < GridSize && 0 <= c < GridSize :: GridOf(currentX, currentY)[r][c] == RowColor)
            <==> 0 <= currentY < GridSize
    ensures !(0 <= currentY < GridSize) ==>
              forall r, c | 0 <= r < GridSize && 0 <= c < GridSize :: GridOf(currentX, currentY)[r][c] == OffColor
  {
    if 0 <= currentY < GridSize {
      var c := if currentX == 0 then 1 else 0;
      assert GridOf(currentX, currentY)[currentY][c] == RowColor;
    }
  }

  /**
   * `setPosition`'s grid: an 8x8 matrix filled cell by cell, row by row.
   */
  method BuildGrid(currentX: int, currentY: int) returns (matrix: array2<byte>)
    ensures fresh(matrix)
    ensures matrix.Length0 == GridSize && matrix.Length1 == GridSize
    ensures forall r, c | 0 <= r < GridSize && 0 <= c < GridSize :: matrix[r, c] == CellColor(r, c, currentX, currentY)
  {
    matrix := new byte[GridSize, GridSize];
    for row := 0 to GridSize
      invariant forall r, c | 0 <= r < row && 0 <= c < GridSize :: matrix[r, c] == CellColor(r, c, currentX, currentY)
    {
      for column := 0 to GridSize
        invariant forall r, c | 0 <= r < row && 0 <= c < GridSize :: matrix[r, c] == CellColor(r, c, currentX, currentY)
        invariant forall c | 0 <= c < column :: matrix[row, c] == CellColor(row, c, currentX, currentY)
      {
        matrix[row, column] := OffColor;
        if currentY == row {
          matrix[row, column] := RowColor;
          if currentX == column {
            matrix[row, column] := CursorColor;
          }
        }
      }
    }
  }

  /** The contents of an 8x8 array as a matrix value. */
  function Cells(matrix: array2<byte>): (m: seq<seq<byte>>)
    requires matrix.Length0 == GridSize && matrix.Length1 == GridSize
    reads matrix
    ensures IsMatrix(m)
  {
    seq(GridSize, r requires 0 <= r < GridSize reads matrix =>
      seq(GridSize, c requires 0 <= c < GridSize reads matrix => matrix[r, c]))
  }

  /** The start of the grid message: header and the set-LED command. */
  const GridPrefix: seq<byte> := SysExHeader + [SetLedCommand]

  /** Byte `i` of the pad/colour pairs: even bytes name a pad, odd ones give its colour. */
  function PairByte(m: seq<seq<byte>>, i: int): byte
    requires IsMatrix(m) && 0 <= i < 2 * GridSize * GridSize
  {
    var row, column := i / 16, (i % 16) / 2;
    if i % 2 == 0 then PadNote(row, column) else m[row][column]
  }

  /** The 64 pad/colour pairs, rows first. */
  function PadPairs(m: seq<seq<byte>>): (pairs: seq<byte>)
    requires IsMatrix(m)
    ensures |pairs| == 128
  {
    seq(128, i requires 0 <= i < 128 => PairByte(m, i))
  }

  /** The SysEx message that lights the whole grid. */
  function GridMessage(m: seq<seq<byte>>): (msg: seq<byte>)
    requires IsMatrix(m)
    ensures |msg| == 136
  {
    GridPrefix + PadPairs(m) + [SysExEnd]
  }

  /** The pair for cell (row, column) sits at bytes 16*row + 2*column and the one after. */
  lemma PairAt(m: seq<seq<byte>>, row: int, column: int)
    requires IsMatrix(m) && 0 <= row < GridSize && 0 <= column < GridSize
    ensures PairByte(m, 16 * row + 2 * column) == PadNote(row, column)
    ensures PairByte(m, 16 * row + 2 * column + 1) == m[row][column]
  {
    var i := 16 * row + 2 * column;
    assert i / 16 == row && (i % 16) / 2 == column && i % 2 == 0;
    assert (i + 1) / 16 == row && ((i + 1) % 16) / 2 == column && (i + 1) % 2 == 1;
  }

  /** The layout of a grid message: prefix, a pad number before every colour, end byte. */
  predicate HasGridLayout(msg: seq<byte>) {
    && |msg| == 136 && msg[..7] == GridPrefix && msg[135] == SysExEnd
    && forall r, c | 0 <= r < GridSize && 0 <= c < GridSize :: msg[7 + 16 * r + 2 * c] == PadNote(r, c)
  }

  /** The colour bytes of a grid message, as a matrix. */
  function ColorsOf(msg: seq<byte>): (m: seq<seq<byte>>)
    requires |msg| == 136
    ensures IsMatrix(m)
    ensures forall r, c | 0 <= r < GridSize && 0 <= c < GridSize :: m[r][c] == msg[8 + 16 * r + 2 * c]
  {
    seq(GridSize, r requires 0 <= r < GridSize =>
      seq(GridSize, c requires 0 <= c < GridSize => msg[8 + 16 * r + 2 * c]))
  }

  /**
   * Reads a grid message back: the matrix it lights, if it has the layout
   * of one.
   */
  function DecodeGrid(msg: seq<byte>): (m: Option<seq<seq<byte>>>)
    ensures m.Some? ==> IsMatrix(m.value)
  {
    if HasGridLayout(msg) then Some(ColorsOf(msg)) else None
  }

  /** Where the pad numbers and colours sit in a grid message. */
  lemma GridMessageAt(m: seq<seq<byte>>, r: int, c: int)
    requires IsMatrix(m) && 0 <= r < GridSize && 0 <= c < GridSize
    ensures GridMessage(m)[7 + 16 * r + 2 * c] == PadNote(r, c)
    ensures GridMessage(m)[8 + 16 * r + 2 * c] == m[r][c]
  {
    PairAt(m, r, c);
    var msg := GridMessage(m);
    assert msg[7 + 16 * r + 2 * c] == PadPairs(m)[16 * r + 2 * c];
    assert msg[8 + 16 * r + 2 * c] == PadPairs(m)[16 * r + 2 * c + 1];
  }

  /** Every grid message reads back as the matrix it was built from. */
  lemma GridMessageRoundTrip(m: seq<seq<byte>>)
    requires IsMatrix(m)
    ensures DecodeGrid(GridMessage(m)) == Some(m)
  {
    var msg := GridMessage(m);
    assert msg[..7] == GridPrefix;
    assert msg[135] == SysExEnd;
    forall r, c | 0 <= r < GridSize && 0 <= c < GridSize
      ensures msg[7 + 16 * r + 2 * c] == PadNote(r, c) && ColorsOf(msg)[r][c] == m[r][c]
    {
      GridMessageAt(m, r, c);
    }
    assert HasGridLayout(msg);
    var d := ColorsOf(msg);
    forall r | 0 <= r < GridSize ensures d[r] == m[r] {
    }
    assert d == m;
  }

  /** A message that reads back as a matrix is that matrix's grid message. */
  lemma DecodeGridSound(msg: seq<byte>)
    requires DecodeGrid(msg).Some?
    ensures GridMessage(DecodeGrid(msg).value) == msg
  {
    var m := DecodeGrid(msg).value;
    var g := GridMessage(m);
    forall i | 7 <= i < 135 ensures g[i] == msg[i] {
      GridByteAt(msg, i);
    }
    assert g[..7] == msg[..7];
  }

  /** Pair byte `k` belongs to cell (k / 16, (k % 16) / 2): the pad number when `k` is even, the colour when odd. */
  lemma PairIndex(k: int)
    requires 0 <= k < 2 * GridSize * GridSize
    ensures 0 <= k / 16 < GridSize && 0 <= (k % 16) / 2 < GridSize
    ensures k == 16 * (k / 16) + 2 * ((k % 16) / 2) + k % 2
  {
  }

  /** Byte `i` of the pairs in a message with the grid layout is rebuilt from its colours. */
  lemma GridByteAt(msg: seq<byte>, i: int)
    requires HasGridLayout(msg) && 7 <= i < 135
    ensures GridMessage(ColorsOf(msg))[i] == msg[i]
  {
    var m := ColorsOf(msg);
    var k := i - 7;
    var r, c := k / 16, (k % 16) / 2;
    PairIndex(k);
    PairAt(m, r, c);
    assert GridMessage(m)[i] == PadPairs(m)[k];
    if k % 2 == 0 {
      assert msg[7 + 16 * r + 2 * c] == PadNote(r, c);
    } else {
      assert m[r][c] == msg[8 + 16 * r + 2 * c];
    }
  }

  /**
   * `setRowColor`: the prefix, then a pad/colour pair per cell row by row,
   * then the end byte, appended to a buffer one byte at a time. Sending the
   * message is not modelled.
   */
  method RowColorMessage(matrix: array2<byte>) returns (msg: seq<byte>)
    requires matrix.Length0 == GridSize && matrix.Length1 == GridSize
    ensures msg == GridMessage(Cells(matrix))
  {
    ghost var m := Cells(matrix);
    var buffer: seq<byte> := GridPrefix;
    for row := 0 to GridSize
      invariant |buffer| == 7 + 16 * row && buffer[..7] == GridPrefix
      invariant forall i | 0 <= i < 16 * row :: buffer[7 + i] == PairByte(m, i)
    {
      var firstIndex := (row + 1) * 10 + 1;
      for column := 0 to GridSize
        invariant |buffer| == 7 + 16 * row + 2 * column && buffer[..7] == GridPrefix
        invariant forall i | 0 <= i < 16 * row + 2 * column :: buffer[7 + i] == PairByte(m, i)
      {
        PairAt(m, row, column);
        var pad: byte := firstIndex + column;
        buffer := buffer + [pad, matrix[row, column]];
      }
    }
    msg := buffer + [SysExEnd];
    assert buffer[7..] == PadPairs(m);
    assert buffer == buffer[..7] + buffer[7..];
  }

  /** `setPosition` for an already-rounded position: build the grid and the message that shows it. */
  method SetPosition(currentX: int, currentY: int) returns (msg: seq<byte>)
    ensures msg == GridMessage(GridOf(currentX, currentY))
  {
    var matrix := BuildGrid(currentX, currentY);
    msg := RowColorMessage(matrix);
    assert Cells(matrix) == GridOf(currentX, currentY) by {
      forall r | 0 <= r < GridSize ensures Cells(matrix)[r] == GridOf(currentX, currentY)[r] {
      }
    }
  }

  /** The colour and the pulse colour of a machine state the pad knows. */
  function StateColors(state: string): (colors: Option<(byte, byte)>)
    ensures colors.Some? <==> state == "Idle" || state == "Run"
    ensures colors.Some? ==> (colors.value.0 != colors.value.1 <==> state == "Run")
  {
    if state == "Idle" then Some((96, 96))
    else if state == "Run" then Some((75, 76))
    else None
  }

  /** A one-LED SysEx packet: header, command, the state LED, the colour, end byte. */
  function LedPacket(command: byte, color: byte): seq<byte> {
    SysExHeader + [command, StateLed, color, SysExEnd]
  }

  /**
   * `setState`: the colour packet, then a pulse packet when the pulse
   * colour differs; an unknown state is an error and builds nothing.
   */
  function SetStatePackets(state: string): (packets: Option<seq<seq<byte>>>)
    ensures packets.Some? <==> state == "Idle" || state == "Run"
    ensures packets.Some? ==>
              && |packets.value| >= 1
              && packets.value[0] == LedPacket(SetLedCommand, StateColors(state).value.0)
    ensures packets.Some? ==>
              && (|packets.value| == 2 <==> StateColors(state).value.0 != StateColors(state).value.1)
              && (|packets.value| == 2 ==> packets.value[1] == LedPacket(PulseLedCommand, StateColors(state).value.1))
    ensures packets.Some? ==> |packets.value| <= 2
  {
    match StateColors(state)
    case None => None
    case Some((color, pulseColor)) =>
      if color != pulseColor then Some([LedPacket(SetLedCommand, color), LedPacket(PulseLedCommand, pulseColor)])
      else Some([LedPacket(SetLedCommand, color)])
  }

  /** Idle lights the state LED in colour 96 with a single packet. */
  lemma IdlePackets()
    ensures SetStatePackets("Idle") == Some([[0xF0, 0x00, 0x20, 0x29, 0x02, 0x10, 0x0A, 0x0A, 0x60, 0xF7]])
  {
    assert StateColors("Idle") == Some((96, 96));
    assert LedPacket(SetLedCommand, 96) == [0xF0, 0x00, 0x20, 0x29, 0x02, 0x10, 0x0A, 0x0A, 0x60, 0xF7];
  }

  /** Run lights the state LED in colour 75, then makes it pulse in colour 76. */
  lemma RunPackets()
    ensures SetStatePackets("Run") == Some([[0xF0, 0x00, 0x20, 0x29, 0x02, 0x10, 0x0A, 0x0A, 0x4B, 0xF7],
                                            [0xF0, 0x00, 0x20, 0x29, 0x02, 0x10, 0x28, 0x0A, 0x4C, 0xF7]])
  {
    assert "Run" != "Idle" by { assert |"Run"| != |"Idle"|; }
    assert StateColors("Run") == Some((75, 76));
    assert LedPacket(SetLedCommand, 75) == [0xF0, 0x00, 0x20, 0x29, 0x02, 0x10, 0x0A, 0x0A, 0x4B, 0xF7];
    assert LedPacket(PulseLedCommand, 76) == [0xF0, 0x00, 0x20, 0x29, 0x02, 0x10, 0x28, 0x0A, 0x4C, 0xF7];
  }

  /**
   * The packets one status sends, given the state shown so far: the state
   * packets when the state changed (none for an unknown state), then always
   * the grid for the position.
   */
  function StatusPackets(shown: string, state: string, currentX: int, currentY: int): (packets: seq<seq<byte>>)
    ensures 1 <= |packets| <= 3
    ensures packets[|packets| - 1] == GridMessage(GridOf(currentX, currentY))
    ensures |packets| > 1 ==>
              shown != state && SetStatePackets(state).Some? && packets[..|packets| - 1] == SetStatePackets(state).value
  {
    var statePackets :=
      if shown != state && SetStatePackets(state).Some? then SetStatePackets(state).value else [];
    statePackets + [GridMessage(GridOf(currentX, currentY))]
  }

  /** A status in the state already shown only redraws the grid. */
  lemma SameStateOnlyRedraws(state: string, currentX: int, currentY: int)
    ensures StatusPackets(state, state, currentX, currentY) == [GridMessage(GridOf(currentX, currentY))]
  {
  }

  /**
   * A status in a new, known state recolours the state LED first and ends
   * with the grid; a new unknown state only redraws the grid.
   */
  lemma NewStateRecolours(shown: string, state: string, currentX: int, currentY: int)
    requires shown != state
    ensures var packets := StatusPackets(shown, state, currentX, currentY);
      && |packets| >= 1
      && packets[|packets| - 1] == GridMessage(GridOf(currentX, currentY))
      && (StateColors(state).Some? ==> |packets| >= 2 && packets[0] == LedPacket(SetLedCommand, StateColors(state).value.0))
      && (StateColors(state).None? ==> |packets| == 1)
  {
  }

  /** The pad's view of the machine: the state its LED shows. */
  class Pad {
    var currentState: string

    constructor ()
      ensures currentState == ""
    {
      currentState := "";
    }

    /**
     * `statusUpdate` for one status, its position already rounded to grid
     * cells: the packets sent, in order. The shown state becomes the
     * status's state even when the state was unknown.
     */
    method StatusUpdate(state: string, currentX: int, currentY: int) returns (packets: seq<seq<byte>>)
      modifies this
      ensures packets == StatusPackets(old(currentState), state, currentX, currentY)
      ensures currentState == state
    {
      packets := [];
      if currentState != state {
        var statePackets := SetStatePackets(state);
        if statePackets.Some? {
          packets := statePackets.value;
        }
        currentState := state;
      }
      var grid := SetPosition(currentX, currentY);
      packets := packets + [grid];
    }
  }

  /** MIDI status bytes the pad sends: control change and note on. */
  const ControlChange: byte := 0xB0
  const NoteOn: byte := 0x90

  /** Controller numbers of the four arrow buttons. */
  const ArrowUp: byte := 0x5B
  const ArrowDown: byte := 0x5C
  const ArrowLeft: byte := 0x5D
  const ArrowRight: byte := 0x5E

  /** A packet the decoder can read without an index panic. */
  predicate Readable(data: seq<byte>) {
    |data| >= 1 && (data[0] == ControlChange || data[0] == NoteOn ==> |data| >= 3)
  }

  /** The step an arrow button asks for; any other controller asks for none. */
  function ArrowStep(controller: byte): (step: (int, int))
    ensures -1 <= step.0 <= 1 && -1 <= step.1 <= 1 && (step.0 == 0 || step.1 == 0)
    ensures step != (0, 0) <==>
              controller == ArrowUp || controller == ArrowDown || controller == ArrowLeft || controller == ArrowRight
  {
    if controller == ArrowUp then (0, 1)
    else if controller == ArrowDown then (0, -1)
    else if controller == ArrowLeft then (-1, 0)
    else if controller == ArrowRight then (1, 0)
    else (0, 0)
  }

  /** Go's `b - 1` on a byte: wraps from 0 to 255. */
  function ByteDecrement(b: int): (d: byte)
    requires 0 <= b < 256
    ensures (d + 1) % 256 == b
  {
    (b + 255) % 256
  }

  /**
   * `onMessage`: a control change whose value is not 127 asks for a
   * relative step (all zero for a controller other than the arrows); a note on with non-zero velocity asks for the
   * absolute cell of the pad pressed, counted from the pad's row and column
   * digits minus one in byte arithmetic. Out-of-range pads are only
   * logged, and their request is still produced. Anything else asks for
   * nothing.
   */
  function OnMessage(data: seq<byte>): (r: Option<PositionChangeRequest>)
    requires Readable(data)
    ensures r.Some? <==> (data[0] == ControlChange && data[2] != 127) || (data[0] == NoteOn && data[2] > 0)
    ensures r.Some? ==> r.value.Z == 0 && (r.value.Relative <==> data[0] == ControlChange)
    ensures r.Some? && r.value.Relative ==> (r.value.X, r.value.Y) == ArrowStep(data[1])
    ensures r.Some? && !r.value.Relative ==>
              0 <= r.value.X < 256 && (r.value.X + 1) % 256 == data[1] % 10 &&
              0 <= r.value.Y < 256 && (r.value.Y + 1) % 256 == data[1] / 10
  {
    if data[0] == ControlChange then
      if data[2] == 127 then None
      else
        var step := ArrowStep(data[1]);
        Some(PositionChangeRequest(step.0, step.1, 0, true))
    else if data[0] == NoteOn && data[2] > 0 then
      var row, column := data[1] / 10, data[1] % 10;
      Some(PositionChangeRequest(ByteDecrement(column), ByteDecrement(row), 0, false))
    else None
  }

  /** Pressing the pad of a grid cell asks to move to that cell. */
  lemma PadPressRoundTrip(row: int, column: int, velocity: byte)
    requires 0 <= row < GridSize && 0 <= column < GridSize && velocity > 0
    ensures OnMessage([NoteOn, PadNote(row, column), velocity])
            == Some(PositionChangeRequest(column, row, 0, false))
  {
    var note := PadNote(row, column);
    assert ByteDecrement(note % 10) == column;
    assert ByteDecrement(note / 10) == row;
  }

  /** The arrow buttons step one cell up, down, left or right; a control change whose value is 127 asks for nothing. */
  lemma ArrowPresses(value: byte)
    requires value != 127
    ensures OnMessage([ControlChange, ArrowUp, value]) == Some(PositionChangeRequest(0, 1, 0, true))
    ensures OnMessage([ControlChange, ArrowDown, value]) == Some(PositionChangeRequest(0, -1, 0, true))
    ensures OnMessage([ControlChange, ArrowLeft, value]) == Some(PositionChangeRequest(-1, 0, 0, true))
    ensures OnMessage([ControlChange, ArrowRight, value]) == Some(PositionChangeRequest(1, 0, 0, true))
    ensures OnMessage([ControlChange, ArrowUp, 127]) == None
  {
  }

  /** A control change from any controller other than the arrows asks for an all-zero relative move. */
  lemma OtherControllerStandsStill(controller: byte, value: byte)
    requires controller != ArrowUp && controller != ArrowDown && controller != ArrowLeft && controller != ArrowRight
    requires value != 127
    ensures OnMessage([ControlChange, controller, value]) == Some(PositionChangeRequest(0, 0, 0, true))
  {
    assert ArrowStep(controller) == (0, 0);
  }

  /**
   * Note 10 (row digit 1, column digit 0) is off the grid, yet the decoder
   * asks for column 255, which the main loop turns into a move to
   * X = 25500.
   */
  lemma OffGridPadStillRequested()
    ensures OnMessage([NoteOn, 10, 127]) == Some(PositionChangeRequest(255, 0, 0, false))
    ensures !(0 <= OnMessage([NoteOn, 10, 127]).value.X < GridSize)
  {
  }

  /** A pad on the grid: row and column digits both in 1..8. */
  predicate OnGrid(note: byte) {
    1 <= note / 10 <= GridSize && 1 <= note % 10 <= GridSize
  }

  /**
   * The decoder with the range check enforced: a note on outside the grid
   * is dropped instead of being sent. Otherwise it is `OnMessage`.
   */
  function OnMessageChecked(data: seq<byte>): (r: Option<PositionChangeRequest>)
    requires Readable(data)
    ensures r.Some? && !r.value.Relative ==> 0 <= r.value.X < GridSize && 0 <= r.value.Y < GridSize
    ensures r.Some? ==> r == OnMessage(data)
    ensures data[0] != NoteOn || OnGrid(data[1]) ==> r == OnMessage(data)
  {
    if data[0] == NoteOn && !OnGrid(data[1]) then None
    else OnMessage(data)
  }

  /** Every pad of the grid passes the check, so the checked decoder still answers every pad. */
  lemma PadsAreOnGrid(row: int, column: int, velocity: byte)
    requires 0 <= row < GridSize && 0 <= column < GridSize && velocity > 0
    ensures OnMessageChecked([NoteOn, PadNote(row, column), velocity])
            == Some(PositionChangeRequest(column, row, 0, false))
  {
    PadPressRoundTrip(row, column, velocity);
  }

  /** The checked decoder drops note 10. */
  lemma OffGridPadDropped()
    ensures OnMessageChecked([NoteOn, 10, 127]) == None
  {
  }
}
