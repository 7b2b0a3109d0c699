/**
 * The ZIP-to-MHA assignment loader: a text of `<zip> <mha-id>` lines becomes the
 * set of MHA ids and a map from ZIP code to MHA id.
 */
module MhaAssignments {
  import opened Results
  import opened TextSplit

  /** One assignment line: a ZIP code and the Military Housing Area it belongs to. */
  datatype Record = Record(zip: string, mha: string)

  /** What the loader builds: every MHA id seen, and the ZIP-to-MHA index. */
  datatype Assignments = Assignments(regions: set<string>, zips: map<string, string>)

  /** A line whose first or second space-separated field is missing or empty. */
  datatype LoadError = InvalidRecord(line: string)

  /** Reads one line: its first two fields when split on single spaces, both of
      which must be non-empty; any further fields are ignored. */
  function ParseRecord(line: string): (r: Result<Record, LoadError>)
    ensures r.Ok? ==> r.value.zip != "" && r.value.mha != ""
    ensures r.Ok? ==> ' ' !in r.value.zip && ' ' !in r.value.mha
    ensures r.Err? ==> r.error == InvalidRecord(line)
  {
    var fields := SplitOn(line, ' ');
    if fields[0] == "" || |fields| < 2 || fields[1] == "" then Err(InvalidRecord(line))
    else Ok(Record(fields[0], fields[1]))
  }

  /** `line` starts with `rec.zip`, one space and `rec.mha`, both non-empty and
      free of spaces, followed either by the end of the line or by another space. */
  predicate IsRecordLine(line: string, rec: Record) {
    var n := |rec.zip| + 1 + |rec.mha|;
    && rec.zip != "" && rec.mha != ""
    && ' ' !in rec.zip && ' ' !in rec.mha
    && n <= |line| && line[..n] == rec.zip + [' '] + rec.mha
    && (n == |line| || line[n] == ' ')
  }

  /** A parsed record really is the head of its line. */
  lemma ParseRecordSound(line: string)
    requires ParseRecord(line).Ok?
    ensures IsRecordLine(line, ParseRecord(line).value)
  {
    var f := SplitOn(line, ' ');
    JoinSplitOn(line, ' ');
    var z, m := f[0], f[1];
    var n := |z| + 1 + |m|;
    assert Join(f, ' ') == z + [' '] + Join(f[1..], ' ');
    if |f| == 2 {
      assert line == z + [' '] + m;
    } else {
      assert Join(f[1..], ' ') == m + [' '] + Join(f[2..], ' ');
      assert line == (z + [' '] + m) + ([' '] + Join(f[2..], ' '));
      assert line[n] == ' ';
    }
    assert line[..n] == z + [' '] + m;
  }

  /** The fields of a line that ends right after a record. */
  lemma RecordOnlyFields(line: string, rec: Record)
    requires IsRecordLine(line, rec) && |line| == |rec.zip| + 1 + |rec.mha|
    ensures SplitOn(line, ' ') == [rec.zip, rec.mha]
  {
    var parts := [rec.zip, rec.mha];
    assert parts[1..] == [rec.mha];
    assert Join(parts, ' ') == rec.zip + [' '] + rec.mha;
    assert line == line[..|line|];
    SplitOnJoin(parts, ' ');
  }

  /** The fields of a line that continues after a record with a space and `rest`. */
  lemma RecordThenMoreFields(line: string, rec: Record, rest: string)
    requires IsRecordLine(line, rec)
    requires line == rec.zip + [' '] + rec.mha + [' '] + rest
    ensures SplitOn(line, ' ') == [rec.zip, rec.mha] + SplitOn(rest, ' ')
  {
    var more := SplitOn(rest, ' ');
    var parts := [rec.zip, rec.mha] + more;
    JoinSplitOn(rest, ' ');
    assert parts[1..] == [rec.mha] + more;
    assert ([rec.mha] + more)[1..] == more;
    assert Join([rec.mha] + more, ' ') == rec.mha + [' '] + rest;
    assert Join(parts, ' ') == rec.zip + [' '] + (rec.mha + [' '] + rest);
    assert Join(parts, ' ') == line;
    assert forall i :: 2 <= i < |parts| ==> parts[i] == more[i - 2];
    SplitOnJoin(parts, ' ');
  }

  /** A line that starts with a record is parsed as exactly that record. */
  lemma ParseRecordComplete(line: string, rec: Record)
    requires IsRecordLine(line, rec)
    ensures ParseRecord(line) == Ok(rec)
  {
    var n := |rec.zip| + 1 + |rec.mha|;
    if n == |line| {
      RecordOnlyFields(line, rec);
    } else {
      var rest := line[n + 1..];
      assert line == line[..n] + [' '] + rest;
      RecordThenMoreFields(line, rec, rest);
    }
  }

  /** The loop of the loader over the remaining lines: every line must parse, and
      each record adds its MHA id to the set and (re)binds its ZIP code. */
  function LoadLines(lines: seq<string>, acc: Assignments): (r: Result<Assignments, LoadError>)
    ensures r.Ok? ==> acc.regions <= r.value.regions && acc.zips.Keys <= r.value.zips.Keys
    ensures r.Ok? && |lines| > 0 ==> r.value.regions != {} && r.value.zips.Keys != {}
    ensures r.Err? ==> r.error.line in lines && ParseRecord(r.error.line).Err?
    decreases |lines|
  {
    if |lines| == 0 then Ok(acc)
    else
      var rec :- ParseRecord(lines[0]);
      var next := Assignments(acc.regions + {rec.mha}, acc.zips[rec.zip := rec.mha]);
      assert rec.zip in next.zips.Keys;
      LoadLines(lines[1..], next)
  }

  /** The loader: splits the text into lines and reads them all, starting empty. */
  function LoadAssignments(text: string): (r: Result<Assignments, LoadError>)
    ensures r.Ok? ==> r.value.regions != {} && r.value.zips.Keys != {}
    ensures r.Err? ==> r.error.line in SplitLines(text) && ParseRecord(r.error.line).Err?
  {
    LoadLines(SplitLines(text), Assignments({}, map[]))
  }

  // ---------------------------------------------------------------------------
  // Specification vocabulary, stated over the lines directly.

  ghost predicate AllValid(lines: seq<string>) {
    forall i :: 0 <= i < |lines| ==> ParseRecord(lines[i]).Ok?
  }

  /** `k` is the first line that does not parse. */
  ghost predicate FirstInvalid(lines: seq<string>, k: int) {
    && 0 <= k < |lines|
    && ParseRecord(lines[k]).Err?
    && forall j :: 0 <= j < k ==> ParseRecord(lines[j]).Ok?
  }

  /** The ZIP codes of all lines that parse. */
  ghost function ZipsOf(lines: seq<string>): set<string> {
    set i | 0 <= i < |lines| && ParseRecord(lines[i]).Ok? :: ParseRecord(lines[i]).value.zip
  }

  /** The MHA ids of all lines that parse. */
  ghost function MhasOf(lines: seq<string>): set<string> {
    set i | 0 <= i < |lines| && ParseRecord(lines[i]).Ok? :: ParseRecord(lines[i]).value.mha
  }

  /** Line `i` parses and no later line that parses names the same ZIP code. */
  ghost predicate LastFor(lines: seq<string>, i: int) {
    && 0 <= i < |lines|
    && ParseRecord(lines[i]).Ok?
    && forall j :: i < j < |lines| && ParseRecord(lines[j]).Ok? ==>
         ParseRecord(lines[j]).value.zip != ParseRecord(lines[i]).value.zip
  }

  lemma ZipsOfCons(lines: seq<string>)
    requires |lines| > 0 && ParseRecord(lines[0]).Ok?
    ensures ZipsOf(lines) == {ParseRecord(lines[0]).value.zip} + ZipsOf(lines[1..])
    ensures MhasOf(lines) == {ParseRecord(lines[0]).value.mha} + MhasOf(lines[1..])
  {
    var tail := lines[1..];
    forall x | x in ZipsOf(lines)
      ensures x in {ParseRecord(lines[0]).value.zip} + ZipsOf(tail)
    {
      var i :| 0 <= i < |lines| && ParseRecord(lines[i]).Ok? && ParseRecord(lines[i]).value.zip == x;
      if i > 0 {
        assert tail[i - 1] == lines[i];
      }
    }
    forall x | x in ZipsOf(tail)
      ensures x in ZipsOf(lines)
    {
      var i :| 0 <= i < |tail| && ParseRecord(tail[i]).Ok? && ParseRecord(tail[i]).value.zip == x;
      assert lines[i + 1] == tail[i];
    }
    forall x | x in MhasOf(lines)
      ensures x in {ParseRecord(lines[0]).value.mha} + MhasOf(tail)
    {
      var i :| 0 <= i < |lines| && ParseRecord(lines[i]).Ok? && ParseRecord(lines[i]).value.mha == x;
      if i > 0 {
        assert tail[i - 1] == lines[i];
      }
    }
    forall x | x in MhasOf(tail)
      ensures x in MhasOf(lines)
    {
      var i :| 0 <= i < |tail| && ParseRecord(tail[i]).Ok? && ParseRecord(tail[i]).value.mha == x;
      assert lines[i + 1] == tail[i];
    }
  }

  /** The loop succeeds exactly when every line parses; otherwise it reports the
      first line that does not. */
  lemma {:induction false} LoadLinesOutcome(lines: seq<string>, acc: Assignments)
    ensures LoadLines(lines, acc).Ok? <==> AllValid(lines)
    ensures LoadLines(lines, acc).Err? ==>
      exists k :: FirstInvalid(lines, k) && LoadLines(lines, acc).error == InvalidRecord(lines[k])
    decreases |lines|
  {
    if |lines| > 0 {
      var r := ParseRecord(lines[0]);
      if r.Err? {
        assert FirstInvalid(lines, 0);
      } else {
        var acc' := Assignments(acc.regions + {r.value.mha}, acc.zips[r.value.zip := r.value.mha]);
        var tail := lines[1..];
        LoadLinesOutcome(tail, acc');
        assert forall i :: 0 < i < |lines| ==> lines[i] == tail[i - 1];
        if LoadLines(tail, acc').Err? {
          var k :| FirstInvalid(tail, k) && LoadLines(tail, acc').error == InvalidRecord(tail[k]);
          assert FirstInvalid(lines, k + 1);
        } else {
          assert AllValid(lines);
        }
      }
    }
  }

  /** What a successful loop builds on top of its starting point: the keys and MHA
      ids of all lines are added, the last line for each ZIP code decides its MHA,
      and ZIP codes no line names keep their old binding. */
  lemma {:induction false} LoadLinesContents(lines: seq<string>, acc: Assignments)
    requires LoadLines(lines, acc).Ok?
    ensures LoadLines(lines, acc).value.zips.Keys == acc.zips.Keys + ZipsOf(lines)
    ensures LoadLines(lines, acc).value.regions == acc.regions + MhasOf(lines)
    ensures forall z :: z in acc.zips && z !in ZipsOf(lines) ==>
      LoadLines(lines, acc).value.zips[z] == acc.zips[z]
    ensures forall i :: LastFor(lines, i) ==>
      LoadLines(lines, acc).value.zips[ParseRecord(lines[i]).value.zip] == ParseRecord(lines[i]).value.mha
    decreases |lines|
  {
    if |lines| > 0 {
      var r := ParseRecord(lines[0]).value;
      var acc' := Assignments(acc.regions + {r.mha}, acc.zips[r.zip := r.mha]);
      var tail := lines[1..];
      LoadLinesContents(tail, acc');
      ZipsOfCons(lines);
      var a := LoadLines(lines, acc).value;
      assert a == LoadLines(tail, acc').value;
      forall i | LastFor(lines, i)
        ensures a.zips[ParseRecord(lines[i]).value.zip] == ParseRecord(lines[i]).value.mha
      {
        if i > 0 {
          assert lines[i] == tail[i - 1];
          forall j | i - 1 < j < |tail| && ParseRecord(tail[j]).Ok?
            ensures ParseRecord(tail[j]).value.zip != ParseRecord(tail[i - 1]).value.zip
          {
            assert tail[j] == lines[j + 1];
          }
          assert LastFor(tail, i - 1);
        }
      }
    }
  }

  /** A successful loop never binds a ZIP code to an MHA id missing from the set,
      provided its starting point did not. */
  lemma {:induction false} LoadLinesValuesInRegions(lines: seq<string>, acc: Assignments)
    requires LoadLines(lines, acc).Ok?
    requires acc.zips.Values <= acc.regions
    ensures LoadLines(lines, acc).value.zips.Values <= LoadLines(lines, acc).value.regions
    ensures |LoadLines(lines, acc).value.regions| <= |acc.regions| + |lines|
    decreases |lines|
  {
    if |lines| > 0 {
      var r := ParseRecord(lines[0]).value;
      var acc' := Assignments(acc.regions + {r.mha}, acc.zips[r.zip := r.mha]);
      forall v | v in acc'.zips.Values
        ensures v in acc'.regions
      {
        var k :| k in acc'.zips && acc'.zips[k] == v;
        if k != r.zip {
          assert acc.zips[k] == v;
        }
      }
      LoadLinesValuesInRegions(lines[1..], acc');
    }
  }

  // ---------------------------------------------------------------------------
  // Properties of the loader on a whole text.

  /** Loading succeeds exactly when every line has a non-empty ZIP code and a
      non-empty MHA id; a failure names the first line that does not. */
  lemma LoadSucceedsIff(text: string)
    ensures LoadAssignments(text).Ok? <==> AllValid(SplitLines(text))
    ensures LoadAssignments(text).Err? ==>
      exists k :: FirstInvalid(SplitLines(text), k) && LoadAssignments(text).error == InvalidRecord(SplitLines(text)[k])
  {
    LoadLinesOutcome(SplitLines(text), Assignments({}, map[]));
  }

  /** An empty line anywhere, such as the one after a final line feed, makes the
      whole load fail. */
  lemma EmptyLineRejected(text: string, i: int)
    requires 0 <= i < |SplitLines(text)| && SplitLines(text)[i] == ""
    ensures LoadAssignments(text).Err?
  {
    LoadSucceedsIff(text);
    assert ParseRecord(SplitLines(text)[i]).Err?;
  }

  /** A text ending in a line feed always fails to load, on an empty last line. */
  lemma TrailingLineFeedRejected(text: string)
    requires |text| > 0 && text[|text| - 1] == '\n'
    ensures SplitLines(text)[|SplitLines(text)| - 1] == ""
    ensures LoadAssignments(text).Err?
  {
    EndsWithSeparator(text, '\n');
    EmptyLineRejected(text, |SplitLines(text)| - 1);
  }

  /** On success the index has one key per distinct ZIP code of the text, the set
      holds exactly the MHA ids of the text, every indexed MHA id is in the set, and
      there are no more MHA ids or ZIP codes than lines. */
  lemma LoadContents(text: string)
    requires LoadAssignments(text).Ok?
    ensures LoadAssignments(text).value.zips.Keys == ZipsOf(SplitLines(text))
    ensures LoadAssignments(text).value.regions == MhasOf(SplitLines(text))
    ensures LoadAssignments(text).value.zips.Values <= LoadAssignments(text).value.regions
    ensures |LoadAssignments(text).value.regions| <= |SplitLines(text)|
  {
    var empty := Assignments({}, map[]);
    LoadLinesContents(SplitLines(text), empty);
    LoadLinesValuesInRegions(SplitLines(text), empty);
  }

  /** On success, a ZIP code named on several lines maps to the MHA id of the last. */
  lemma LoadLastWins(text: string, i: int)
    requires LoadAssignments(text).Ok?
    requires LastFor(SplitLines(text), i)
    ensures var rec := ParseRecord(SplitLines(text)[i]).value;
      rec.zip in LoadAssignments(text).value.zips && LoadAssignments(text).value.zips[rec.zip] == rec.mha
  {
    var lines := SplitLines(text);
    var empty := Assignments({}, map[]);
    assert LoadAssignments(text) == LoadLines(lines, empty);
    LoadLinesContents(lines, empty);
  }
}
