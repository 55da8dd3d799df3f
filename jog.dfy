/**
 * Position-change requests and the jog commands the main loop formats
 * from them: `G91 X<dx>.000 Y<dy>.000\r` for a relative move and
 * `G90 X<x>.000 Y<y>.000\r` for an absolute one, both scaled by 100.
 */
module Jog {
  import opened Common
  import opened GoStrings
  import opened Decimal

  /** A request to move: a step (relative) or a grid cell (absolute). Z is carried but unused. */
  datatype PositionChangeRequest = PositionChangeRequest(X: int, Y: int, Z: int, Relative: bool)

  /** Machine units per grid cell or arrow step. */
  const Scale: int := 100

  /** The motion-mode word: G91 for relative moves, G90 for absolute ones. */
  function ModeWord(relative: bool): string {
    if relative then "G91" else "G90"
  }

  /** One axis word: its letter, the scaled value, and three zero decimals. */
  function AxisWord(letter: char, value: int): string {
    [letter] + IntToString(value) + ".000"
  }

  /**
   * The command sent for a request: the mode word, then the X and Y words
   * separated by spaces, then a carriage return.
   */
  function FormatJog(req: PositionChangeRequest): (command: string)
    ensures |command| >= 16 && command[|command| - 1] == '\r'
  {
    ModeWord(req.Relative) + " " + AxisWord('X', Scale * req.X) + " "
      + AxisWord('Y', Scale * req.Y) + "\r"
  }

  /** What a jog command says: its mode and the two scaled coordinates. */
  datatype JogMove = JogMove(relative: bool, x: int, y: int)

  /** Reads an axis word `<letter><integer><suffix>`. */
  function ParseAxis(word: string, letter: char, suffix: string): Option<int> {
    if |word| >= 1 + |suffix| && word[0] == letter && word[|word| - |suffix|..] == suffix
    then ParseInt(word[1..|word| - |suffix|])
    else None
  }

  /** Reads a jog command back: the inverse of `FormatJog` on its image. */
  function ParseJog(command: string): Option<JogMove> {
    ParseJogWords(Split(command, ' '))
  }

  /** Reads the space-separated words of a jog command: a mode word and two axis words. */
  function ParseJogWords(words: seq<string>): Option<JogMove> {
    if |words| != 3 || (words[0] != "G90" && words[0] != "G91") then None
    else
      var x := ParseAxis(words[1], 'X', ".000");
      var y := ParseAxis(words[2], 'Y', ".000\r");
      if x.None? || y.None? then None
      else Some(JogMove(words[0] == "G91", x.value, y.value))
  }

  lemma AxisWordParses(letter: char, value: int, suffix: string)
    requires letter != ' ' && ' ' !in suffix
    ensures ' ' !in [letter] + IntToString(value) + suffix
    ensures ParseAxis([letter] + IntToString(value) + suffix, letter, suffix) == Some(value)
  {
    var d := IntToString(value);
    var w := [letter] + d + suffix;
    assert w[|w| - |suffix|..] == suffix;
    assert w[1..|w| - |suffix|] == d;
    IntRoundTrip(value);
    assert ' ' !in d by {
      forall i | 0 <= i < |d| ensures d[i] != ' ' {
        assert IsDigit(d[i]) || d[i] == '-';
      }
    }
  }

  /** A jog command splits on spaces into its mode word and its two axis words. */
  lemma FormatJogWords(req: PositionChangeRequest)
    ensures Split(FormatJog(req), ' ')
            == [ModeWord(req.Relative), AxisWord('X', Scale * req.X),
                ['Y'] + IntToString(Scale * req.Y) + ".000\r"]
  {
    var mode := ModeWord(req.Relative);
    var xw := AxisWord('X', Scale * req.X);
    var yw := ['Y'] + IntToString(Scale * req.Y) + ".000\r";
    AxisWordParses('X', Scale * req.X, ".000");
    AxisWordParses('Y', Scale * req.Y, ".000\r");
    FormatJogJoined(req);
    assert ' ' !in mode;
    assert forall k | 0 <= k < 3 :: ' ' !in [mode, xw, yw][k];
    SplitJoin([mode, xw, yw], ' ');
  }

  /** A jog command is its three words joined by spaces. */
  lemma FormatJogJoined(req: PositionChangeRequest)
    ensures FormatJog(req)
            == Join([ModeWord(req.Relative), AxisWord('X', Scale * req.X),
                     ['Y'] + IntToString(Scale * req.Y) + ".000\r"], ' ')
  {
    var mode := ModeWord(req.Relative);
    var xw := AxisWord('X', Scale * req.X);
    var yw := ['Y'] + IntToString(Scale * req.Y) + ".000\r";
    JoinTriple(mode, xw, yw, ' ');
    assert AxisWord('Y', Scale * req.Y) + "\r" == yw;
  }

  /**
   * Formatting a request and reading the command back gives its mode and
   * its coordinates times 100: the command carries exactly X, Y and the
   * relative flag of the request.
   */
  lemma FormatJogRoundTrip(req: PositionChangeRequest)
    ensures ParseJog(FormatJog(req)) == Some(JogMove(req.Relative, Scale * req.X, Scale * req.Y))
  {
    FormatJogWords(req);
    FormattedWordsParse(req);
  }

  lemma FormattedWordsParse(req: PositionChangeRequest)
    ensures ParseJogWords([ModeWord(req.Relative), AxisWord('X', Scale * req.X),
                           ['Y'] + IntToString(Scale * req.Y) + ".000\r"])
            == Some(JogMove(req.Relative, Scale * req.X, Scale * req.Y))
  {
    AxisWordParses('X', Scale * req.X, ".000");
    AxisWordParses('Y', Scale * req.Y, ".000\r");
    assert ModeWord(req.Relative) == "G91" <==> req.Relative;
  }

  /** One step right and one step down, relative: `G91 X100.000 Y-100.000` and a carriage return. */
  lemma RelativeJogExample(req: PositionChangeRequest)
    requires req == PositionChangeRequest(1, -1, 0, true)
    ensures FormatJog(req) == "G91 X100.000 Y-100.000\r"
  {
    HundredWords();
    assert Scale * req.X == 100 && Scale * req.Y == -100;
  }

  lemma HundredWords()
    ensures AxisWord('X', 100) == "X100.000" && AxisWord('Y', -100) == "Y-100.000"
  {
    HundredDigits();
    assert IntToString(-100) == "-" + NatToString(100);
  }

  lemma HundredDigits()
    ensures IntToString(100) == "100" && NatToString(100) == "100"
  {
    assert NatToString(100) == NatToString(10) + [DigitChar(0)];
  }
}
