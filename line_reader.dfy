/**
 * The serial reader (`SerialConnection.reader`): raw reads of at most 80
 * bytes are appended to a 1024-byte buffer, and after each read the
 * bytes before the first CR LF, if there is one, are handed on as a line.
 */
module LineReader {
  import opened Common

  /** Capacity of the reader's ring buffer. */
  const RingCapacity: nat := 1024

  /** Size of the buffer each serial read fills at most. */
  const ReadQuantum: nat := 80

  const CR: byte := 13
  const LF: byte := 10

  /** The line delimiter CR LF starts at index `i` of `s`. */
  predicate DelimiterAt(s: seq<byte>, i: int) {
    0 <= i && i + 1 < |s| && s[i] == CR && s[i + 1] == LF
  }

  /**
   * Go's `bytes.Index(s[from..], "\r\n")`, counted from the start of `s`:
   * the index of the first CR LF at or after `from`, or -1 when there is none.
   */
  function IndexCRLF(s: seq<byte>, from: nat): (i: int)
    requires from <= |s|
    ensures -1 <= i
    ensures i == -1 <==> forall j | from <= j < |s| :: !DelimiterAt(s, j)
    ensures i >= 0 ==> from <= i && DelimiterAt(s, i) && forall j | from <= j < i :: !DelimiterAt(s, j)
    decreases |s| - from
  {
    if from + 1 >= |s| then -1
    else if DelimiterAt(s, from) then from
    else IndexCRLF(s, from + 1)
  }

  /**
   * One scan of the buffered bytes: the line before the first CR LF and
   * what stays buffered after it, or no line and everything kept.
   */
  function Scan(buffered: seq<byte>): (r: (Option<seq<byte>>, seq<byte>))
    ensures r.0.None? ==> r.1 == buffered
    ensures r.0.Some? ==> buffered == r.0.value + [CR, LF] + r.1
  {
    var i := IndexCRLF(buffered, 0);
    if i == -1 then (None, buffered)
    else
      assert buffered == buffered[..i] + [CR, LF] + buffered[i + 2..];
      (Some(buffered[..i]), buffered[i + 2..])
  }

  /**
   * A scan finds a line exactly when the bytes hold a CR LF, and the line
   * it finds is cut at the first one: no CR LF ends inside it.
   */
  lemma ScanFindsFirst(buffered: seq<byte>)
    ensures Scan(buffered).0.None? <==> forall j | 0 <= j < |buffered| :: !DelimiterAt(buffered, j)
    ensures Scan(buffered).0.Some? ==>
      forall j | 0 <= j < |Scan(buffered).0.value| :: !DelimiterAt(Scan(buffered).0.value + [CR], j)
  {
    var i := IndexCRLF(buffered, 0);
    if i != -1 {
      var line := buffered[..i];
      forall j | 0 <= j < |line| ensures !DelimiterAt(line + [CR], j) {
        assert !DelimiterAt(buffered, j);
        assert (line + [CR])[j] == buffered[j];
        assert (line + [CR])[j + 1] == buffered[j + 1];
      }
    }
  }

  /** The outcome of one serial read: the bytes it returned and whether it failed. */
  datatype Read = Read(data: seq<byte>, failed: bool)

  /**
   * The reads in `history`, starting from `buffered`, never overflow the
   * ring buffer and never return more than the read quantum. Reading stops after a failed read.
   */
  ghost predicate Fits(buffered: seq<byte>, history: seq<Read>)
    decreases |history|
  {
    history == [] ||
    (|history[0].data| <= ReadQuantum && |buffered| + |history[0].data| <= RingCapacity &&
     (history[0].failed || Fits(Scan(buffered + history[0].data).1, history[1..])))
  }

  /**
   * The lines the reader emits for a run of history starting from `buffered`,
   * and what it has buffered at the end. A failed read is still appended
   * and scanned; then the reader stops. At most one line is emitted per read.
   */
  ghost function Feed(buffered: seq<byte>, history: seq<Read>): (r: (seq<seq<byte>>, seq<byte>))
    requires Fits(buffered, history)
    ensures |r.0| <= ReadsPerformed(history)
    decreases |history|
  {
    if history == [] then ([], buffered)
    else
      var (line, rest) := Scan(buffered + history[0].data);
      var emitted := LinesOf(line);
      if history[0].failed then (emitted, rest)
      else
        var (more, final) := Feed(rest, history[1..]);
        (emitted + more, final)
  }

  /** The line a scan found, as a list of zero or one lines. */
  function LinesOf(line: Option<seq<byte>>): (lines: seq<seq<byte>>)
    ensures |lines| <= 1
    ensures line.Some? <==> |lines| == 1
  {
    if line.Some? then [line.value] else []
  }

  /** The bytes the reads deliver, up to and including the first failed one. */
  function Delivered(history: seq<Read>): seq<byte>
    decreases |history|
  {
    if history == [] then []
    else if history[0].failed then history[0].data
    else history[0].data + Delivered(history[1..])
  }

  /** Each line followed by its CR LF, all concatenated. */
  function Terminated(lines: seq<seq<byte>>): seq<byte>
    decreases |lines|
  {
    if lines == [] then [] else lines[0] + [CR, LF] + Terminated(lines[1..])
  }

  /** How many reads the reader performs before it stops. */
  function ReadsPerformed(history: seq<Read>): nat
    decreases |history|
  {
    if history == [] then 0 else if history[0].failed then 1 else 1 + ReadsPerformed(history[1..])
  }

  lemma TerminatedAppend(a: seq<seq<byte>>, b: seq<seq<byte>>)
    ensures Terminated(a + b) == Terminated(a) + Terminated(b)
    decreases |a|
  {
    if a != [] {
      assert (a + b)[1..] == a[1..] + b;
      TerminatedAppend(a[1..], b);
    } else {
      assert a + b == b;
    }
  }

  /** A scan loses nothing: the line found, its CR LF and the rest make up the input. */
  lemma ScanPreservesStream(all: seq<byte>)
    ensures Terminated(LinesOf(Scan(all).0)) + Scan(all).1 == all
  {
    var (line, rest) := Scan(all);
    if line.Some? {
      assert Terminated([line.value]) == line.value + [CR, LF] + Terminated([]);
    }
  }

  lemma ConcatAssoc<T>(a: seq<T>, b: seq<T>, c: seq<T>)
    ensures a + (b + c) == a + b + c
  {
  }

  /** One step of `Feed`: the line the first read completes, then the rest of the run. */
  lemma FeedUnfold(buffered: seq<byte>, history: seq<Read>)
    requires Fits(buffered, history) && history != []
    ensures var (line, rest) := Scan(buffered + history[0].data);
      history[0].failed ==> Feed(buffered, history) == (LinesOf(line), rest)
    ensures var (line, rest) := Scan(buffered + history[0].data);
      !history[0].failed ==>
        && Fits(rest, history[1..])
        && Feed(buffered, history) == (LinesOf(line) + Feed(rest, history[1..]).0, Feed(rest, history[1..]).1)
  {
  }

  /**
   * No byte is lost, duplicated or reordered: the emitted lines, each with
   * its CR LF, followed by what is still buffered, are exactly the bytes
   * buffered at the start followed by the bytes delivered.
   */
  lemma {:induction false} FeedPreservesStream(buffered: seq<byte>, history: seq<Read>)
    requires Fits(buffered, history)
    ensures Terminated(Feed(buffered, history).0) + Feed(buffered, history).1
            == buffered + Delivered(history)
    decreases |history|
  {
    if history == [] {
      assert buffered + Delivered(history) == buffered;
    } else {
      var all := buffered + history[0].data;
      var rest := Scan(all).1;
      var emitted := LinesOf(Scan(all).0);
      ScanPreservesStream(all);
      FeedUnfold(buffered, history);
      if !history[0].failed {
        FeedPreservesStream(rest, history[1..]);
        StreamStep(emitted, Feed(rest, history[1..]).0, Feed(rest, history[1..]).1,
          buffered, history[0].data, rest, Delivered(history[1..]));
      }
    }
  }

  /** Gluing one scan's output to the output of the rest of the run. */
  lemma StreamStep(emitted: seq<seq<byte>>, more: seq<seq<byte>>, final: seq<byte>,
                   buffered: seq<byte>, data: seq<byte>, rest: seq<byte>, later: seq<byte>)
    requires Terminated(emitted) + rest == buffered + data
    requires Terminated(more) + final == rest + later
    ensures Terminated(emitted + more) + final == buffered + (data + later)
  {
    TerminatedAppend(emitted, more);
    calc {
      Terminated(emitted + more) + final;
      Terminated(emitted) + (Terminated(more) + final);
      Terminated(emitted) + (rest + later);
      (Terminated(emitted) + rest) + later;
      (buffered + data) + later;
    }
  }

  class SerialReader {
    /** The bytes read but not yet handed on as a line. */
    var ring: seq<byte>

    constructor ()
      ensures ring == []
    {
      ring := [];
    }

    /**
     * One iteration of the read loop: append the bytes read, then hand on
     * the line before the first CR LF and drop it with its delimiter.
     * `shutdown` reports that the read failed and the loop ends.
     */
    method ReadOnce(read: Read) returns (line: Option<seq<byte>>, shutdown: bool)
      requires |read.data| <= ReadQuantum
      requires |ring| + |read.data| <= RingCapacity
      modifies this
      ensures shutdown == read.failed
      ensures (line, ring) == Scan(old(ring) + read.data)
      ensures |ring| <= RingCapacity
    {
      shutdown := read.failed;
      ring := ring + read.data;
      var i := IndexCRLF(ring, 0);
      if i == -1 {
        line := None;
        return;
      }
      line := Some(ring[..i]);
      ring := ring[i + 2..];
    }

    /**
     * The read loop over the reads that occur, until one fails. Emits the
     * lines `Feed` describes, so no byte is lost or reordered.
     */
    method Run(history: seq<Read>) returns (lines: seq<seq<byte>>)
      requires Fits(ring, history)
      modifies this
      ensures (lines, ring) == Feed(old(ring), history)
      ensures Terminated(lines) + ring == old(ring) + Delivered(history)
      ensures |lines| <= ReadsPerformed(history)
    {
      FeedPreservesStream(ring, history);
      lines := [];
      assert history[0..] == history;
      assert [] + Feed(ring, history).0 == Feed(ring, history).0;
      var k := 0;
      var shutdown := false;
      while !shutdown && k < |history|
        invariant 0 <= k <= |history|
        invariant !shutdown ==> Fits(ring, history[k..])
        invariant !shutdown ==> Feed(old(ring), history) == (lines + Feed(ring, history[k..]).0, Feed(ring, history[k..]).1)
        invariant shutdown ==> (lines, ring) == Feed(old(ring), history)
        decreases |history| - k, !shutdown
      {
        ghost var before, linesBefore := ring, lines;
        assert history[k..][0] == history[k] && history[k..][1..] == history[k + 1..];
        var line;
        line, shutdown := ReadOnce(history[k]);
        ghost var emitted := LinesOf(line);
        if line.Some? {
          lines := lines + [line.value];
        }
        assert lines == linesBefore + emitted;
        FeedUnfold(before, history[k..]);
        if !shutdown {
          ConcatAssoc(linesBefore, emitted, Feed(ring, history[k + 1..]).0);
        }
        k := k + 1;
      }
      if !shutdown {
        assert history[k..] == [];
        assert lines + [] == lines;
      }
    }
  }

  /** The bytes of a line of ASCII text that holds no carriage return. */
  lemma AsciiLineHasNoCR(s: string)
    requires forall i | 0 <= i < |s| :: s[i] as int < 128 && s[i] != '\r'
    ensures forall j | 0 <= j < |AsciiBytes(s)| :: AsciiBytes(s)[j] != CR
  {
    forall j | 0 <= j < |AsciiBytes(s)| ensures AsciiBytes(s)[j] != CR {
      assert AsciiBytes(s)[j] == s[j] as int;
    }
  }

  /** `ok` then `<Idle|MPos:1,2,3>`, each with CR LF and read separately, give both lines and leave nothing buffered. */
  lemma TwoReadsExample(ok: seq<byte>, status: seq<byte>)
    requires ok == AsciiBytes("ok") && status == AsciiBytes("<Idle|MPos:1,2,3>")
    ensures Fits([], [Read(ok + [CR, LF], false), Read(status + [CR, LF], false)])
    ensures Feed([], [Read(ok + [CR, LF], false), Read(status + [CR, LF], false)]) == ([ok, status], [])
  {
    AsciiLineHasNoCR("ok");
    AsciiLineHasNoCR("<Idle|MPos:1,2,3>");
    TwoReads(ok, status);
  }

  /** Two CR-free lines, each read separately with its CR LF, are both emitted and nothing stays buffered. */
  lemma TwoReads(first: seq<byte>, second: seq<byte>)
    requires forall j | 0 <= j < |first| :: first[j] != CR
    requires forall j | 0 <= j < |second| :: second[j] != CR
    requires |first| + 2 <= ReadQuantum && |second| + 2 <= ReadQuantum
    ensures Fits([], [Read(first + [CR, LF], false), Read(second + [CR, LF], false)])
    ensures Feed([], [Read(first + [CR, LF], false), Read(second + [CR, LF], false)]) == ([first, second], [])
  {
    var r1, r2 := Read(first + [CR, LF], false), Read(second + [CR, LF], false);
    ScanOneLine(first, []);
    ScanOneLine(second, []);
    assert [] + r1.data == first + [CR, LF] + [];
    assert [] + r2.data == second + [CR, LF] + [];
    assert [r1, r2][1..] == [r2];
    assert [r2][1..] == [];
    assert Scan([] + r2.data) == (Some(second), []);
    assert Fits([], [r2]);
    assert Feed([], []) == ([], []);
    assert [second] + [] == [second];
    assert Feed([], [r2]) == ([second], []);
    assert Scan([] + r1.data) == (Some(first), []);
    assert [first] + [second] == [first, second];
  }

  /**
   * Both lines arriving in one read: only the first is emitted, and the
   * second stays buffered, delimiter included, until the next read.
   */
  lemma OneReadExample(ok: seq<byte>, status: seq<byte>)
    requires ok == AsciiBytes("ok") && status == AsciiBytes("<Idle|MPos:1,2,3>")
    ensures Fits([], [Read(ok + [CR, LF] + status + [CR, LF], false)])
    ensures Feed([], [Read(ok + [CR, LF] + status + [CR, LF], false)]) == ([ok], status + [CR, LF])
  {
    AsciiLineHasNoCR("ok");
    OneRead(ok, status);
  }

  /** Two lines in one read: the first CR-free line is emitted and the second stays buffered. */
  lemma OneRead(first: seq<byte>, second: seq<byte>)
    requires forall j | 0 <= j < |first| :: first[j] != CR
    requires |first| + |second| + 4 <= ReadQuantum
    ensures Fits([], [Read(first + [CR, LF] + second + [CR, LF], false)])
    ensures Feed([], [Read(first + [CR, LF] + second + [CR, LF], false)]) == ([first], second + [CR, LF])
  {
    var r := Read(first + [CR, LF] + second + [CR, LF], false);
    ScanOneLine(first, second + [CR, LF]);
    assert [] + r.data == first + [CR, LF] + (second + [CR, LF]);
    assert [r][1..] == [];
    assert Scan([] + r.data) == (Some(first), second + [CR, LF]);
    assert Feed(second + [CR, LF], []) == ([], second + [CR, LF]);
    assert [first] + [] == [first];
  }

  /** A line free of CR, then CR LF, then anything, scans to that line and the rest. */
  lemma ScanOneLine(line: seq<byte>, rest: seq<byte>)
    requires forall j | 0 <= j < |line| :: line[j] != CR
    ensures Scan(line + [CR, LF] + rest) == (Some(line), rest)
  {
    var b := line + [CR, LF] + rest;
    assert DelimiterAt(b, |line|);
    assert forall j | 0 <= j < |line| :: !DelimiterAt(b, j) by {
      forall j | 0 <= j < |line| ensures !DelimiterAt(b, j) { assert b[j] == line[j]; }
    }
    assert b[..|line|] == line;
    assert b[|line| + 2..] == rest;
  }
}
