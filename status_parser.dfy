/**
 * Parsing of the firmware's status report `<State|MPos:x,y,z|...>`
 * (`removeMarkers` and `ParseStatus`). The three machine coordinates are
 * kept as the text the firmware sent; turning them into numbers is
 * floating point and not part of this model.
 */
module StatusParser {
  import opened Common
  import opened GoStrings

  /**
   * The machine position of a status: `Zero` when no `MPos` field was seen
   * (Go's zero value), otherwise the three comma-separated texts of the last
   * `MPos` field.
   */
  datatype Position = Zero | MPos(x: string, y: string, z: string)

  datatype GrblStatus = GrblStatus(state: string, position: Position)

  datatype StatusError = MalformedStatus

  /** The line with its start and end marker removed. */
  function RemoveMarkers(s: string): (inner: string)
    requires |s| >= 2
    ensures |inner| == |s| - 2
    ensures s == [s[0]] + inner + [s[|s| - 1]]
  {
    s[1..|s| - 1]
  }

  /** A status body framed by the two markers. */
  function Framed(body: string): string {
    "<" + body + ">"
  }

  lemma RemoveFramed(body: string)
    ensures RemoveMarkers(Framed(body)) == body
  {
  }

  /** The key of a `Key:value` component: everything before the first ':'. */
  function Key(component: string): (key: string)
    ensures ':' !in key && key <= component
    ensures ':' in component ==> key + ":" <= component
  {
    var parts := Split(component, ':');
    SplitSpec(component, ':');
    assert |parts| >= 2 ==> parts[0] + ":" <= component by {
      if |parts| >= 2 {
        assert parts == [parts[0]] + parts[1..];
        JoinCons(parts[0], parts[1..], ':');
      }
    }
    parts[0]
  }

  /**
   * A component the source can process without an index panic: one keyed
   * `MPos` must have a value after the ':' with at least three comma pieces.
   */
  predicate FieldParsable(component: string) {
    var kv := Split(component, ':');
    kv[0] == "MPos" ==> |kv| >= 2 && |Split(kv[1], ',')| >= 3
  }

  /** The effect of one non-state component on the position being built. */
  function ApplyField(component: string, pos: Position): (r: Position)
    requires FieldParsable(component)
    ensures Key(component) != "MPos" ==> r == pos
    ensures Key(component) == "MPos" ==> r.MPos?
  {
    var kv := Split(component, ':');
    if kv[0] == "MPos" then
      var values := Split(kv[1], ',');
      MPos(values[0], values[1], values[2])
    else
      pos
  }

  /** Every component in the list can be processed. */
  predicate AllParsable(fields: seq<string>) {
    fields == [] || (FieldParsable(fields[0]) && AllParsable(fields[1..]))
  }

  lemma {:induction false} AllParsableConcat(a: seq<string>, b: seq<string>)
    requires AllParsable(a) && AllParsable(b)
    ensures AllParsable(a + b)
    decreases |a|
  {
    if a != [] {
      assert (a + b)[1..] == a[1..] + b;
      AllParsableConcat(a[1..], b);
    } else {
      assert a + b == b;
    }
  }

  /** The components after the state, applied left to right. */
  function ScanFields(fields: seq<string>, pos: Position): (r: Position)
    requires AllParsable(fields)
    ensures r == pos || r.MPos?
    decreases |fields|
  {
    if fields == [] then pos else ScanFields(fields[1..], ApplyField(fields[0], pos))
  }

  /** Scanning two lists in a row is scanning their concatenation. */
  lemma {:induction false} ScanFieldsConcat(a: seq<string>, b: seq<string>, pos: Position)
    requires AllParsable(a) && AllParsable(b)
    ensures AllParsable(a + b)
    ensures ScanFields(a + b, pos) == ScanFields(b, ScanFields(a, pos))
    decreases |a|
  {
    AllParsableConcat(a, b);
    if a != [] {
      assert (a + b)[1..] == a[1..] + b;
      ScanFieldsConcat(a[1..], b, ApplyField(a[0], pos));
    } else {
      assert a + b == b;
    }
  }

  /** Components none of which is keyed `MPos` leave the position as it was. */
  lemma {:induction false} ScanFieldsSkipsOthers(fields: seq<string>, pos: Position)
    requires forall k | 0 <= k < |fields| :: Key(fields[k]) != "MPos"
    ensures AllParsable(fields)
    ensures ScanFields(fields, pos) == pos
    decreases |fields|
  {
    if fields != [] {
      assert Key(fields[0]) != "MPos";
      assert forall k | 0 <= k < |fields[1..]| :: Key(fields[1..][k]) != "MPos" by {
        forall k | 0 <= k < |fields[1..]| ensures Key(fields[1..][k]) != "MPos" {
          assert fields[1..][k] == fields[k + 1];
        }
      }
      ScanFieldsSkipsOthers(fields[1..], pos);
    }
  }

  /**
   * A status line the source parses without panicking: it has both
   * markers' worth of characters, and every component after the state can
   * be processed.
   */
  predicate StatusParsable(raw: string) {
    |raw| >= 2 && AllParsable(Split(RemoveMarkers(raw), '|')[1..])
  }

  /**
   * Parses one status line. It fails exactly when the text between the
   * markers has no '|'; otherwise the state is the text before the first
   * '|', kept verbatim, and the position comes from the `MPos` fields.
   */
  function ParseStatus(raw: string): (r: Result<GrblStatus, StatusError>)
    requires StatusParsable(raw)
    ensures r.Failure? <==> '|' !in RemoveMarkers(raw)
    ensures r.Success? ==>
              '|' !in r.value.state && r.value.state + "|" <= RemoveMarkers(raw)
  {
    var components := Split(RemoveMarkers(raw), '|');
    SplitSpec(RemoveMarkers(raw), '|');
    assert |components| >= 2 ==> components[0] + "|" <= RemoveMarkers(raw) by {
      if |components| >= 2 {
        assert components == [components[0]] + components[1..];
        JoinCons(components[0], components[1..], '|');
      }
    }
    ParseComponents(components)
  }

  /**
   * The loop over the split components: fewer than two is malformed;
   * otherwise the first is the state and the rest build the position.
   */
  function ParseComponents(components: seq<string>): (r: Result<GrblStatus, StatusError>)
    requires |components| >= 1 && AllParsable(components[1..])
    ensures r.Failure? <==> |components| < 2
    ensures r.Success? ==> r.value.state == components[0]
  {
    if |components| < 2 then Failure(MalformedStatus)
    else Success(GrblStatus(components[0], ScanFields(components[1..], Zero)))
  }
}

/** What the parser promises about whole status lines. */
module StatusParserProperties {
  import opened Common
  import opened GoStrings
  import opened StatusParser

  predicate NoneOf(s: string, a: char, b: char, c: char) {
    a !in s && b !in s && c !in s
  }

  /** A component with no '|' whose key is not `MPos`: one the parser skips. */
  predicate Ignorable(field: string) {
    '|' !in field && Key(field) != "MPos"
  }

  /** Components none of which contains the '|' separator. */
  predicate PipeFree(parts: seq<string>) {
    forall k | 0 <= k < |parts| :: '|' !in parts[k]
  }

  /** The `MPos:x,y,z` component for three coordinate texts. */
  function MPosField(x: string, y: string, z: string): string {
    "MPos:" + MPosValue(x, y, z)
  }

  /** The value of an `MPos` component: the three coordinates separated by ','. */
  function MPosValue(x: string, y: string, z: string): string {
    x + "," + y + "," + z
  }

  /** The value `x,y,z` splits on ',' into the three coordinates and holds no ':' or '|'. */
  lemma MPosValueSplits(x: string, y: string, z: string)
    requires NoneOf(x, '|', ':', ',') && NoneOf(y, '|', ':', ',') && NoneOf(z, '|', ':', ',')
    ensures Split(MPosValue(x, y, z), ',') == [x, y, z]
    ensures ':' !in MPosValue(x, y, z) && '|' !in MPosValue(x, y, z)
  {
    var parts := [x, y, z];
    JoinTriple(x, y, z, ',');
    assert MPosValue(x, y, z) == Join(parts, ',');
    assert forall k | 0 <= k < |parts| :: ',' !in parts[k];
    SplitJoin(parts, ',');
    MPosValueFree(x, y, z);
  }

  lemma MPosValueFree(x: string, y: string, z: string)
    requires NoneOf(x, '|', ':', ',') && NoneOf(y, '|', ':', ',') && NoneOf(z, '|', ':', ',')
    ensures ':' !in MPosValue(x, y, z) && '|' !in MPosValue(x, y, z)
  {
    assert MPosValue(x, y, z) == x + [','] + y + [','] + z;
  }

  /** `MPos:v` splits on ':' into the key and `v`. */
  lemma KeyedSplits(v: string)
    requires ':' !in v
    ensures Split("MPos:" + v, ':') == ["MPos", v]
  {
    JoinPair("MPos", v, ':');
    assert "MPos:" + v == "MPos" + [':'] + v;
    SplitJoin(["MPos", v], ':');
  }

  lemma MPosFieldParses(x: string, y: string, z: string)
    requires NoneOf(x, '|', ':', ',') && NoneOf(y, '|', ':', ',') && NoneOf(z, '|', ':', ',')
    ensures '|' !in MPosField(x, y, z)
    ensures Key(MPosField(x, y, z)) == "MPos"
    ensures FieldParsable(MPosField(x, y, z))
    ensures ApplyField(MPosField(x, y, z), Zero) == MPos(x, y, z)
  {
    var v := MPosValue(x, y, z);
    MPosValueSplits(x, y, z);
    KeyedSplits(v);
    assert '|' !in "MPos:";
    var kv := Split(MPosField(x, y, z), ':');
    assert kv[0] == "MPos" && kv[1] == v;
  }

  /** A framed line whose components are `parts` parses as those components do. */
  lemma ParseJoined(parts: seq<string>)
    requires |parts| >= 1
    requires PipeFree(parts)
    requires AllParsable(parts[1..])
    ensures StatusParsable(Framed(Join(parts, '|')))
    ensures ParseStatus(Framed(Join(parts, '|'))) == ParseComponents(parts)
  {
    SplitJoin(parts, '|');
    RemoveFramed(Join(parts, '|'));
  }

  /** The components of `<S|MPos:x,y,z|F1|...|Fn>`. */
  function MPosLine(state: string, x: string, y: string, z: string, extras: seq<string>): seq<string> {
    [state, MPosField(x, y, z)] + extras
  }

  /**
   * A line `<S|MPos:x,y,z|F1|...|Fn>` parses to state S at position
   * (x, y, z), whatever other fields F1..Fn follow, as long as none of
   * them is keyed `MPos`.
   */
  lemma ParseMPosStatus(state: string, x: string, y: string, z: string, extras: seq<string>)
    requires '|' !in state
    requires NoneOf(x, '|', ':', ',') && NoneOf(y, '|', ':', ',') && NoneOf(z, '|', ':', ',')
    requires forall k | 0 <= k < |extras| :: Ignorable(extras[k])
    ensures StatusParsable(Framed(Join(MPosLine(state, x, y, z, extras), '|')))
    ensures ParseStatus(Framed(Join(MPosLine(state, x, y, z, extras), '|')))
            == Success(GrblStatus(state, MPos(x, y, z)))
  {
    var mpos := MPosField(x, y, z);
    MPosFieldParses(x, y, z);
    var parts := MPosLine(state, x, y, z, extras);
    forall k | 0 <= k < |parts| ensures '|' !in parts[k] {
      if k >= 2 {
        assert parts[k] == extras[k - 2];
        assert Ignorable(extras[k - 2]);
      }
    }
    assert parts[1..] == [mpos] + extras;
    ScanFieldsSkipsOthers(extras, MPos(x, y, z));
    ScanFieldsConcat([mpos], extras, Zero);
    ParseJoined(parts);
  }

  /** `parts` with `field` inserted at index `k`. */
  function InsertAt(parts: seq<string>, k: nat, field: string): seq<string>
    requires k <= |parts|
  {
    parts[..k] + [field] + parts[k..]
  }

  /**
   * In a status that has a state and at least one field, inserting another
   * field that is not keyed `MPos` anywhere after the state does not change
   * what it parses to.
   */
  lemma ExtraFieldIgnored(parts: seq<string>, k: nat, field: string)
    requires 1 <= k <= |parts| && |parts| >= 2
    requires AllParsable(parts[1..])
    requires Key(field) != "MPos"
    ensures AllParsable(InsertAt(parts, k, field)[1..])
    ensures ParseComponents(InsertAt(parts, k, field)) == ParseComponents(parts)
  {
    var more := InsertAt(parts, k, field);
    var a, b := parts[1..k], parts[k..];
    InsertAfterState(parts, k, field);
    AllParsableSplit(a, b);
    ScanSkipsInserted(a, b, field);
    assert ScanFields(more[1..], Zero) == ScanFields(parts[1..], Zero);
  }

  /** Inserting after the state keeps the state and splits the fields around the new one. */
  lemma InsertAfterState(parts: seq<string>, k: nat, field: string)
    requires 1 <= k <= |parts|
    ensures InsertAt(parts, k, field)[0] == parts[0]
    ensures parts[1..] == parts[1..k] + parts[k..]
    ensures InsertAt(parts, k, field)[1..] == parts[1..k] + ([field] + parts[k..])
  {
    var more := InsertAt(parts, k, field);
    assert more[1..] == parts[1..k] + [field] + parts[k..];
  }

  /** The same, for the framed line: the extra field changes nothing. */
  lemma ExtraFieldIgnoredInLine(parts: seq<string>, k: nat, field: string)
    requires 1 <= k <= |parts| && |parts| >= 2
    requires PipeFree(parts)
    requires AllParsable(parts[1..])
    requires Ignorable(field)
    ensures StatusParsable(Framed(Join(parts, '|')))
    ensures StatusParsable(Framed(Join(InsertAt(parts, k, field), '|')))
    ensures ParseStatus(Framed(Join(InsertAt(parts, k, field), '|')))
            == ParseStatus(Framed(Join(parts, '|')))
  {
    ExtraFieldIgnored(parts, k, field);
    InsertPipeFree(parts, k, field);
    ParseJoined(parts);
    ParseJoined(InsertAt(parts, k, field));
  }

  lemma InsertPipeFree(parts: seq<string>, k: nat, field: string)
    requires k <= |parts| && PipeFree(parts) && '|' !in field
    ensures PipeFree(InsertAt(parts, k, field))
  {
    var more := InsertAt(parts, k, field);
    forall j | 0 <= j < |more| ensures '|' !in more[j] {
      if j < k { assert more[j] == parts[j]; }
      else if j > k { assert more[j] == parts[j - 1]; }
    }
  }

  lemma ScanSkipsInserted(a: seq<string>, b: seq<string>, field: string)
    requires AllParsable(a) && AllParsable(b) && Key(field) != "MPos"
    ensures AllParsable(a + b) && AllParsable(a + ([field] + b))
    ensures ScanFields(a + ([field] + b), Zero) == ScanFields(a + b, Zero)
  {
    ScanFieldsSkipsOthers([field], ScanFields(a, Zero));
    ScanFieldsConcat([field], b, ScanFields(a, Zero));
    ScanFieldsConcat(a, [field] + b, Zero);
    ScanFieldsConcat(a, b, Zero);
  }

  lemma {:induction false} AllParsableSplit(a: seq<string>, b: seq<string>)
    requires AllParsable(a + b)
    ensures AllParsable(a) && AllParsable(b)
    decreases |a|
  {
    if a == [] {
      assert a + b == b;
    } else {
      assert (a + b)[1..] == a[1..] + b;
      AllParsableSplit(a[1..], b);
    }
  }

  /** `removeMarkers("<blub>")` is `"blub"`. */
  lemma RemoveMarkersExample()
    ensures RemoveMarkers("<blub>") == "blub"
  {
  }

  /** `<Idle` has no '|' between its markers and is rejected. */
  lemma MalformedExample(line: string)
    requires line == "<Idle"
    ensures StatusParsable(line)
    ensures ParseStatus(line) == Failure(MalformedStatus)
  {
    assert RemoveMarkers(line) == "Idl";
  }

  /** A `Key:a,b` field whose key is not `MPos`, such as `FS:0,0` or `WCO:0.000,0.000,0.000`, is skipped. */
  lemma OtherFieldIgnorable(key: string, value: string)
    requires ':' !in key && '|' !in key && ':' !in value && '|' !in value && key != "MPos"
    ensures Ignorable(key + ":" + value)
  {
    JoinPair(key, value, ':');
    assert key + ":" + value == key + [':'] + value;
    SplitJoin([key, value], ':');
  }

  /**
   * The status line `<Idle|MPos:0.400,0.000,0.333|FS:0,0>` parses to Idle
   * at (0.400, 0.000, 0.333), whatever the value of its `FS` field.
   */
  lemma StatusWithFsExample(state: string, x: string, y: string, z: string, fs: string)
    requires state == "Idle" && x == "0.400" && y == "0.000" && z == "0.333"
    requires ':' !in fs && '|' !in fs
    ensures StatusParsable(Framed(Join([state, MPosField(x, y, z), "FS:" + fs], '|')))
    ensures ParseStatus(Framed(Join([state, MPosField(x, y, z), "FS:" + fs], '|')))
            == Success(GrblStatus(state, MPos(x, y, z)))
  {
    OtherFieldIgnorable("FS", fs);
    assert "FS:" + fs == "FS" + ":" + fs;
    assert NoneOf(x, '|', ':', ',') && NoneOf(y, '|', ':', ',') && NoneOf(z, '|', ':', ',');
    StatusWithOneExtra(state, x, y, z, "FS:" + fs);
  }

  /** A status line with one skipped field after the position parses to the state and the position. */
  lemma StatusWithOneExtra(state: string, x: string, y: string, z: string, field: string)
    requires '|' !in state
    requires NoneOf(x, '|', ':', ',') && NoneOf(y, '|', ':', ',') && NoneOf(z, '|', ':', ',')
    requires Ignorable(field)
    ensures StatusParsable(Framed(Join([state, MPosField(x, y, z), field], '|')))
    ensures ParseStatus(Framed(Join([state, MPosField(x, y, z), field], '|')))
            == Success(GrblStatus(state, MPos(x, y, z)))
  {
    ParseMPosStatus(state, x, y, z, [field]);
    assert MPosLine(state, x, y, z, [field]) == [state, MPosField(x, y, z), field];
  }

  /** `FS:<fs>` and `WCO:<wco>` are both skipped. */
  lemma ExtrasIgnorable(fs: string, wco: string)
    requires ':' !in fs && '|' !in fs && ':' !in wco && '|' !in wco
    ensures forall k | 0 <= k < 2 :: Ignorable(["FS:" + fs, "WCO:" + wco][k])
  {
    OtherFieldIgnorable("FS", fs);
    assert "FS:" + fs == "FS" + ":" + fs;
    OtherFieldIgnorable("WCO", wco);
    assert "WCO:" + wco == "WCO" + ":" + wco;
  }

  /**
   * A status line shaped like `<Idle|MPos:0.000,0.000,0.000|FS:0,0|WCO:0.000,0.000,0.000>`
   * parses to the machine position: the `FS` and `WCO` fields after it,
   * whatever their values, neither replace the position nor the state.
   */
  lemma StatusWithWcoExample(state: string, x: string, y: string, z: string, fs: string, wco: string)
    requires state == "Idle"
    requires NoneOf(x, '|', ':', ',') && NoneOf(y, '|', ':', ',') && NoneOf(z, '|', ':', ',')
    requires ':' !in fs && '|' !in fs && ':' !in wco && '|' !in wco
    ensures StatusParsable(Framed(Join([state, MPosField(x, y, z), "FS:" + fs, "WCO:" + wco], '|')))
    ensures ParseStatus(Framed(Join([state, MPosField(x, y, z), "FS:" + fs, "WCO:" + wco], '|')))
            == Success(GrblStatus(state, MPos(x, y, z)))
  {
    var extras := ["FS:" + fs, "WCO:" + wco];
    ExtrasIgnorable(fs, wco);
    ParseMPosStatus(state, x, y, z, extras);
    assert MPosLine(state, x, y, z, extras) == [state, MPosField(x, y, z), "FS:" + fs, "WCO:" + wco];
  }
}
