/**
 * parse_failure_file: a failure file has one line per failure,
 * "SAT,<node id>,<start s>,<end s>", "GS,<node id>,<start s>,<end s>" or
 * "ISL,<sat1>,<sat2>,<start s>,<end s>".  The table maps each of the three
 * device kinds to its failures: SAT and GS by node id, ISL by the pair of
 * satellites, each to its failure window in integer nanoseconds.  Lines with
 * any other device tag are skipped; a later line for the same device and key
 * replaces an earlier one.
 */
module FailureFile {
  import opened Outcomes
  import opened PyText

  const NS_PER_S: real := 1000000000.0

  datatype Device = SAT | ISL | GS

  /** A failure-table key: a node id, or the (sat1, sat2) pair of an ISL. */
  datatype Key = Node(id: int) | Link(sat1: int, sat2: int)

  /** (failure start, failure end) in ns. */
  datatype Window = Window(startNs: int, endNs: int)

  type FailureTable = map<Device, map<Key, Window>>

  /** What a line raises: a wrong number of fields to unpack, or a field `int(...)`/`float(...)` rejects. */
  datatype FailureError = WrongFieldCount | NotAnInteger | NotAFloat

  /** What one line contributes. */
  datatype Entry = Failure(device: Device, key: Key, window: Window) | Ignored

  /** `int(x)` on a float: the integer part, truncated toward zero. */
  function TruncToInt(r: real): int
  {
    if r >= 0.0 then r.Floor else -((-r).Floor)
  }

  /** The truncation drops less than one and never changes the sign. */
  lemma TruncToIntBounds(r: real)
    ensures r >= 0.0 ==> 0.0 <= r - (TruncToInt(r) as real) < 1.0
    ensures r < 0.0 ==> 0.0 <= (TruncToInt(r) as real) - r < 1.0
  {
  }

  /** A whole number is kept as it is. */
  lemma TruncToIntWhole(i: int)
    ensures TruncToInt(i as real) == i
  {
    if i < 0 {
      assert (-(i as real)).Floor == -i;
    }
  }

  /** `int(float(s) * 1_000_000_000)`: a time in seconds as integer ns. */
  function SecondsToNs(s: string): Option<int>
  {
    match ParseFloat(s)
    case None => None
    case Some(v) => Some(TruncToInt(v * NS_PER_S))
  }

  /** The window of a line's last two fields; the start is converted first. */
  function ParseWindow(start: string, end: string): Result<Window, FailureError>
  {
    match (SecondsToNs(start), SecondsToNs(end))
    case (Some(s), Some(e)) => Ok(Window(s, e))
    case _ => Err(NotAFloat)
  }

  /** The device tag of a line: its first comma-separated field after stripping. */
  function Tag(line: string): string
  {
    Split(Strip(line), ',')[0]
  }

  /** The key of each device kind: node ids for satellites and ground stations, satellite pairs for ISLs. */
  predicate KeyFitsDevice(e: Entry)
  {
    e.Failure? ==> (e.device == ISL <==> e.key.Link?)
  }

  /**
   * One line.  The window is computed before the key, as Python evaluates
   * the right-hand side of the assignment first.
   */
  function ParseLine(line: string): (r: Result<Entry, FailureError>)
    ensures r == Ok(Ignored) <==> Tag(line) != "SAT" && Tag(line) != "GS" && Tag(line) != "ISL"
    ensures r.Ok? ==> KeyFitsDevice(r.value)
    ensures r.Ok? && r.value.Failure? ==> (r.value.device == SAT <==> Tag(line) == "SAT")
    ensures r.Ok? && r.value.Failure? ==> (r.value.device == GS <==> Tag(line) == "GS")
  {
    var parts := Split(Strip(line), ',');
    var device := parts[0];
    if device == "SAT" || device == "GS" then
      if |parts| != 4 then Err(WrongFieldCount)
      else match ParseWindow(parts[2], parts[3])
        case Err(e) => Err(e)
        case Ok(w) =>
          match ParseInt(parts[1])
          case None => Err(NotAnInteger)
          case Some(nodeId) => Ok(Failure(if device == "SAT" then SAT else GS, Node(nodeId), w))
    else if device == "ISL" then
      if |parts| != 5 then Err(WrongFieldCount)
      else match ParseWindow(parts[3], parts[4])
        case Err(e) => Err(e)
        case Ok(w) =>
          match (ParseInt(parts[1]), ParseInt(parts[2]))
          case (Some(sat1), Some(sat2)) => Ok(Failure(ISL, Link(sat1, sat2), w))
          case _ => Err(NotAnInteger)
    else Ok(Ignored)
  }

  /** A satellite or ground station line gives its node id and times in ns: the fields as `int(...)` and `float(...)` read them. */
  lemma NodeLineFields(line: string)
    requires Tag(line) == "SAT" || Tag(line) == "GS"
    requires ParseLine(line).Ok?
    ensures var parts := Split(Strip(line), ',');
            var e := ParseLine(line).value;
            && |parts| == 4 && e.Failure? && e.key.Node?
            && ParseInt(parts[1]) == Some(e.key.id)
            && SecondsToNs(parts[2]) == Some(e.window.startNs)
            && SecondsToNs(parts[3]) == Some(e.window.endNs)
  {
  }

  /** An ISL line gives its satellite pair and times in ns. */
  lemma IslLineFields(line: string)
    requires Tag(line) == "ISL"
    requires ParseLine(line).Ok?
    ensures var parts := Split(Strip(line), ',');
            var e := ParseLine(line).value;
            && |parts| == 5 && e.Failure? && e.device == ISL && e.key.Link?
            && ParseInt(parts[1]) == Some(e.key.sat1) && ParseInt(parts[2]) == Some(e.key.sat2)
            && SecondsToNs(parts[3]) == Some(e.window.startNs)
            && SecondsToNs(parts[4]) == Some(e.window.endNs)
  {
  }

  // ---------------------------------------------------------------- the table

  /** `{'SAT': {}, 'ISL': {}, 'GS': {}}`. */
  const EMPTY_TABLE: FailureTable := map[SAT := map[], ISL := map[], GS := map[]]

  /** The table after one entry: a failure sets its key's window, an ignored line changes nothing. */
  function Apply(table: FailureTable, e: Entry): FailureTable
    requires SAT in table && ISL in table && GS in table
  {
    if e.Failure? then
      assert e.device == SAT || e.device == ISL || e.device == GS;
      table[e.device := table[e.device][e.key := e.window]]
    else table
  }

  /** The table after the entries in order; it always has the three device kinds. */
  function TableOf(entries: seq<Entry>): (t: FailureTable)
    ensures SAT in t && ISL in t && GS in t
    decreases |entries|
  {
    if |entries| == 0 then EMPTY_TABLE
    else Apply(TableOf(entries[..|entries| - 1]), entries[|entries| - 1])
  }

  /** What each line gives, in order. */
  function Parsed(lines: seq<string>): (r: seq<Result<Entry, FailureError>>)
    ensures |r| == |lines| && forall k :: 0 <= k < |lines| ==> r[k] == ParseLine(lines[k])
  {
    seq(|lines|, k requires 0 <= k < |lines| => ParseLine(lines[k]))
  }

  /** The entries of the lines, or the error of the first line that raises. */
  function Collect(results: seq<Result<Entry, FailureError>>): Result<seq<Entry>, FailureError>
    decreases |results|
  {
    if |results| == 0 then Ok([])
    else match Collect(results[..|results| - 1])
      case Err(e) => Err(e)
      case Ok(entries) =>
        match results[|results| - 1]
        case Err(e) => Err(e)
        case Ok(entry) => Ok(entries + [entry])
  }

  /** What parse_failure_file returns or raises. */
  function FailureTableOf(lines: seq<string>): Result<FailureTable, FailureError>
  {
    match Collect(Parsed(lines))
    case Err(e) => Err(e)
    case Ok(entries) => Ok(TableOf(entries))
  }

  /** The line loop, updating the table in place. */
  method ParseFailureFile(lines: seq<string>) returns (r: Result<FailureTable, FailureError>)
    ensures r == FailureTableOf(lines)
  {
    var failureTable := EMPTY_TABLE;
    ghost var entries: seq<Entry> := [];
    ghost var parsed := Parsed(lines);
    for i := 0 to |lines|
      invariant Collect(parsed[..i]) == Ok(entries) && failureTable == TableOf(entries)
    {
      assert parsed[..i + 1][..i] == parsed[..i];
      var entry := ParseLine(lines[i]);
      assert parsed[i] == entry;
      if entry.Err? {
        ErrorSticks(parsed, i + 1);
        return Err(entry.error);
      }
      if entry.value.Failure? {
        var e := entry.value;
        failureTable := failureTable[e.device := failureTable[e.device][e.key := e.window]];
      }
      assert (entries + [entry.value])[..|entries|] == entries;
      entries := entries + [entry.value];
    }
    assert parsed[..|lines|] == parsed;
    return Ok(failureTable);
  }

  /** Once a line raises, the whole file raises the same error. */
  lemma {:induction false} ErrorSticks(results: seq<Result<Entry, FailureError>>, k: nat)
    requires k <= |results| && Collect(results[..k]).Err?
    ensures Collect(results) == Collect(results[..k])
    decreases |results| - k
  {
    if k < |results| {
      assert results[..k + 1][..k] == results[..k];
      ErrorSticks(results, k + 1);
    } else {
      assert results[..k] == results;
    }
  }

  // ---------------------------------------------------------------- properties

  /** The entries are collected exactly when no line raises, one per line; otherwise the first error is raised. */
  lemma {:induction false} CollectEach(results: seq<Result<Entry, FailureError>>)
    ensures Collect(results).Ok? <==> forall k :: 0 <= k < |results| ==> results[k].Ok?
    ensures Collect(results).Ok? ==>
              |Collect(results).value| == |results|
              && forall k :: 0 <= k < |results| ==> Collect(results).value[k] == results[k].value
    ensures Collect(results).Err? ==>
              exists k :: 0 <= k < |results| && results[k] == Err(Collect(results).error)
                          && forall j :: 0 <= j < k ==> results[j].Ok?
    decreases |results|
  {
    if |results| > 0 {
      var pre := results[..|results| - 1];
      CollectEach(pre);
      assert forall k :: 0 <= k < |pre| ==> pre[k] == results[k];
      match Collect(pre)
      case Err(e) =>
        var k :| 0 <= k < |pre| && pre[k] == Err(e) && forall j :: 0 <= j < k ==> pre[j].Ok?;
        assert results[k] == Err(e);
      case Ok(es) =>
    }
  }

  /** The file reads exactly when every line does, to one entry per line; otherwise the first bad line's error is raised. */
  lemma ReadEachLine(lines: seq<string>)
    ensures FailureTableOf(lines).Ok? <==> forall k :: 0 <= k < |lines| ==> ParseLine(lines[k]).Ok?
    ensures FailureTableOf(lines).Ok? ==>
              var entries := Collect(Parsed(lines)).value;
              && |entries| == |lines| && FailureTableOf(lines).value == TableOf(entries)
              && forall k :: 0 <= k < |lines| ==> entries[k] == ParseLine(lines[k]).value
    ensures FailureTableOf(lines).Err? ==>
              exists k :: 0 <= k < |lines| && ParseLine(lines[k]) == Err(FailureTableOf(lines).error)
                          && forall j :: 0 <= j < k ==> ParseLine(lines[j]).Ok?
  {
    CollectEach(Parsed(lines));
  }

  predicate Matches(e: Entry, d: Device, key: Key)
  {
    e.Failure? && e.device == d && e.key == key
  }

  /**
   * A key is in a device's table exactly when some entry names it, and then
   * it holds the window of the last entry that does.
   */
  lemma {:induction false} LastEntryWins(entries: seq<Entry>, d: Device, key: Key)
    ensures key in TableOf(entries)[d] <==> exists k :: 0 <= k < |entries| && Matches(entries[k], d, key)
    ensures key in TableOf(entries)[d] ==>
              exists k :: 0 <= k < |entries| && Matches(entries[k], d, key) && TableOf(entries)[d][key] == entries[k].window
                          && forall j :: k < j < |entries| ==> !Matches(entries[j], d, key)
    decreases |entries|
  {
    if |entries| > 0 {
      var pre := entries[..|entries| - 1];
      var last := entries[|entries| - 1];
      LastEntryWins(pre, d, key);
      ApplyOne(TableOf(pre), last, d, key);
      assert forall k :: 0 <= k < |pre| ==> pre[k] == entries[k];
      if Matches(last, d, key) {
        assert Matches(entries[|entries| - 1], d, key);
      } else if key in TableOf(pre)[d] {
        var k :| 0 <= k < |pre| && Matches(pre[k], d, key) && TableOf(pre)[d][key] == pre[k].window
                 && forall j :: k < j < |pre| ==> !Matches(pre[j], d, key);
        assert Matches(entries[k], d, key) && TableOf(entries)[d][key] == entries[k].window;
      }
    }
  }

  /** One entry sets the window of the key it matches and leaves every other key of every device as it was. */
  lemma ApplyOne(t: FailureTable, e: Entry, d: Device, key: Key)
    requires SAT in t && ISL in t && GS in t && d in t
    ensures d in Apply(t, e)
    ensures key in Apply(t, e)[d] <==> Matches(e, d, key) || key in t[d]
    ensures Matches(e, d, key) ==> Apply(t, e)[d][key] == e.window
    ensures !Matches(e, d, key) && key in t[d] ==> Apply(t, e)[d][key] == t[d][key]
  {
  }

  /** Entries whose keys fit their devices give SAT and GS tables keyed by node id and an ISL table keyed by satellite pair. */
  lemma {:induction false} TableKeysFit(entries: seq<Entry>)
    requires forall k :: 0 <= k < |entries| ==> KeyFitsDevice(entries[k])
    ensures forall key :: key in TableOf(entries)[SAT] ==> key.Node?
    ensures forall key :: key in TableOf(entries)[GS] ==> key.Node?
    ensures forall key :: key in TableOf(entries)[ISL] ==> key.Link?
    decreases |entries|
  {
    if |entries| > 0 {
      var pre := entries[..|entries| - 1];
      assert forall k :: 0 <= k < |pre| ==> pre[k] == entries[k];
      TableKeysFit(pre);
    }
  }

  /** A table read from a file always has the three device kinds, each keyed as its kind demands. */
  lemma ReadTableShape(lines: seq<string>)
    requires FailureTableOf(lines).Ok?
    ensures var t := FailureTableOf(lines).value;
            && SAT in t && ISL in t && GS in t
            && (forall key :: key in t[SAT] ==> key.Node?)
            && (forall key :: key in t[GS] ==> key.Node?)
            && (forall key :: key in t[ISL] ==> key.Link?)
  {
    ReadEachLine(lines);
    TableKeysFit(Collect(Parsed(lines)).value);
  }

  /**
   * The window a line gives ends up in the table unless a later line sets
   * the same device and key.
   */
  lemma LaterLinesWin(lines: seq<string>, k: nat, d: Device, key: Key, w: Window)
    requires FailureTableOf(lines).Ok? && k < |lines|
    requires ParseLine(lines[k]) == Ok(Failure(d, key, w))
    requires forall j :: k < j < |lines| ==> !(ParseLine(lines[j]).Ok? && Matches(ParseLine(lines[j]).value, d, key))
    ensures key in FailureTableOf(lines).value[d] && FailureTableOf(lines).value[d][key] == w
  {
    ReadEachLine(lines);
    var entries := Collect(Parsed(lines)).value;
    assert Matches(entries[k], d, key);
    LastEntryWins(entries, d, key);
    assert forall j :: k < j < |entries| ==> !Matches(entries[j], d, key);
    var k2 :| 0 <= k2 < |entries| && Matches(entries[k2], d, key) && TableOf(entries)[d][key] == entries[k2].window
              && forall j :: k2 < j < |entries| ==> !Matches(entries[j], d, key);
    assert k2 == k;
  }

  /** A line with any other device tag leaves the table of the file as it was. */
  lemma IgnoredLineNoEffect(lines: seq<string>, line: string)
    requires Tag(line) != "SAT" && Tag(line) != "GS" && Tag(line) != "ISL"
    ensures FailureTableOf(lines + [line]) == FailureTableOf(lines)
  {
    var longer := Parsed(lines + [line]);
    assert longer[..|lines|] == Parsed(lines) by {
      assert forall k :: 0 <= k < |lines| ==> (lines + [line])[k] == lines[k];
    }
    assert longer[|lines|] == Ok(Ignored) by {
      assert (lines + [line])[|lines|] == line;
    }
    var entries := Collect(Parsed(lines));
    if entries.Ok? {
      assert (entries.value + [Ignored])[..|entries.value|] == entries.value;
    }
  }
}
