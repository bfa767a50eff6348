/** The `'end'` handlers of the two bulk-query streams: the joined text is
    split into lines, each line into fields, and every line is `set` into a
    `Map` keyed by its first field. The second map then loses the header key
    and the empty key. */
module Ingest {
  import opened Wrappers
  import opened JsText
  import opened JsMaps

  /** A row of the legacy object: `{Id: row[0], CreatedById: row[1]}`. */
  datatype LegacyRecord = LegacyRecord(id: string, createdById: Option<string>)

  /** A row of the new object: `{Id: row[0], ULTEST__Orig_Id__c: row[1]}`. */
  datatype MigratedRecord = MigratedRecord(id: string, origId: Option<string>)

  /** `row[i]`: `undefined` past the end of the array. */
  function Field(row: seq<string>, i: nat): (f: Option<string>)
    ensures f.Some? <==> i < |row|
    ensures f.Some? ==> f.value == row[i]
  {
    if i < |row| then Some(row[i]) else None
  }

  /** `content.split('\n')`. */
  function Lines(content: string): seq<string>
  {
    Split(content, '\n')
  }

  /** `frow.split(',')`. */
  function Row(line: string): seq<string>
  {
    Split(line, ',')
  }

  /** The key a line is stored under: its field 0, which always exists. */
  function Key(line: string): string
  {
    Row(line)[0]
  }

  /** The key of every line, in line order. */
  function LineKeys(content: string): (ks: seq<string>)
    ensures |ks| == |Lines(content)|
  {
    var lines := Lines(content);
    seq(|lines|, i requires 0 <= i < |lines| => Key(lines[i]))
  }

  /** The header key the second map drops: `"Id"` with its quotes. */
  const HeaderKey: string := "\"Id\""

  function LegacyEntry(line: string): (string, LegacyRecord)
  {
    var row := Row(line);
    (row[0], LegacyRecord(row[0], Field(row, 1)))
  }

  function MigratedEntry(line: string): (string, MigratedRecord)
  {
    var row := Row(line);
    (row[0], MigratedRecord(row[0], Field(row, 1)))
  }

  /** What the first handler sets, one entry per line in line order. */
  function LegacyEntries(content: string): seq<(string, LegacyRecord)>
  {
    var lines := Lines(content);
    seq(|lines|, i requires 0 <= i < |lines| => LegacyEntry(lines[i]))
  }

  /** What the second handler sets, one entry per line in line order. */
  function MigratedEntries(content: string): seq<(string, MigratedRecord)>
  {
    var lines := Lines(content);
    seq(|lines|, i requires 0 <= i < |lines| => MigratedEntry(lines[i]))
  }

  /** `MapACCL` once the first stream has ended. */
  function LegacyTable(content: string): OMap<LegacyRecord>
  {
    PutAll(Empty(), LegacyEntries(content))
  }

  /** `MapCG` before the two deletions. */
  function MigratedSet(content: string): OMap<MigratedRecord>
  {
    PutAll(Empty(), MigratedEntries(content))
  }

  /** `MapCG` once the second stream has ended. */
  function MigratedTable(content: string): OMap<MigratedRecord>
  {
    MigratedSet(content).Remove(HeaderKey).Remove("")
  }

  /** The first `'end'` handler's loop over the lines. */
  method LoadLegacy(content: string, target: JsMap<LegacyRecord>)
    requires target.Valid()
    modifies target
    ensures target.Valid()
    ensures target.View() == PutAll(old(target.View()), LegacyEntries(content))
  {
    var lines := Split(content, '\n');
    ghost var es := LegacyEntries(content);
    for i := 0 to |lines|
      invariant target.Valid()
      invariant target.View() == PutAll(old(target.View()), es[..i])
    {
      var row := Split(lines[i], ',');
      var data := LegacyRecord(row[0], Field(row, 1));
      target.Set(row[0], data);
      assert es[..i + 1][..i] == es[..i];
    }
    assert es[..|lines|] == es;
  }

  /** The second `'end'` handler: the loop over the lines, then
      `MapCG.delete('"Id"')` and `MapCG.delete('')`. */
  method LoadMigrated(content: string, target: JsMap<MigratedRecord>)
    requires target.Valid()
    modifies target
    ensures target.Valid()
    ensures target.View() == PutAll(old(target.View()), MigratedEntries(content)).Remove(HeaderKey).Remove("")
  {
    var lines := Split(content, '\n');
    ghost var es := MigratedEntries(content);
    for i := 0 to |lines|
      invariant target.Valid()
      invariant target.View() == PutAll(old(target.View()), es[..i])
    {
      var row := Split(lines[i], ',');
      var data := MigratedRecord(row[0], Field(row, 1));
      target.Set(row[0], data);
      assert es[..i + 1][..i] == es[..i];
    }
    assert es[..|lines|] == es;
    target.Delete(HeaderKey);
    target.Delete("");
  }

  /** The entries are keyed by the line keys, in line order. */
  lemma EntryKeys(content: string)
    ensures |LegacyEntries(content)| == |MigratedEntries(content)| == |Lines(content)|
    ensures forall i :: 0 <= i < |Lines(content)| ==>
              LegacyEntries(content)[i].0 == Key(Lines(content)[i]) &&
              MigratedEntries(content)[i].0 == Key(Lines(content)[i])
    ensures KeysOf(LegacyEntries(content)) == LineKeys(content)
    ensures KeysOf(MigratedEntries(content)) == LineKeys(content)
  {
  }

  /** Every key of the first map is field 0 of some line, and field 0 of
      every line is a key; each record's `Id` is its key. */
  lemma LegacyTableKeys(content: string)
    ensures LegacyTable(content).Valid()
    ensures forall k :: k in LegacyTable(content).vals <==> k in LineKeys(content)
    ensures forall k :: k in LegacyTable(content).vals ==> LegacyTable(content).vals[k].id == k
  {
    var es := LegacyEntries(content);
    EntryKeys(content);
    PutAllKeys(es);
    forall k | k in LegacyTable(content).vals
      ensures LegacyTable(content).vals[k].id == k
    {
      PutAllValueFrom(es, k);
    }
  }

  /** The value stored for a key comes from the last line with that key. */
  lemma LegacyTableLastWins(content: string, i: nat)
    requires i < |Lines(content)|
    requires forall j :: i < j < |Lines(content)| ==> Key(Lines(content)[j]) != Key(Lines(content)[i])
    ensures var line := Lines(content)[i];
            && Key(line) in LegacyTable(content).vals
            && LegacyTable(content).vals[Key(line)] == LegacyRecord(Key(line), Field(Row(line), 1))
  {
    EntryKeys(content);
    PutAllLastWins(LegacyEntries(content), i);
  }

  /** The first map iterates its keys in the order of their first line. */
  lemma LegacyTableOrder(content: string)
    ensures InsertionOrdered(LegacyTable(content).keys, LineKeys(content))
  {
    EntryKeys(content);
    PutAllOrder(LegacyEntries(content));
  }

  /** The first map is never pruned: a header line leaves the key `"Id"` in it,
      and an empty content or a trailing newline leaves the empty key. */
  lemma LegacyKeepsSentinels(content: string)
    ensures HeaderKey in LineKeys(content) ==> HeaderKey in LegacyTable(content).vals
    ensures (content == [] || Last(content) == '\n') ==> "" in LegacyTable(content).vals
  {
    LegacyTableKeys(content);
    if content == [] {
      assert Lines(content) == [""];
      assert LineKeys(content)[0] == Key("") == "";
    } else if Last(content) == '\n' {
      var n := |content| - 1;
      assert content == content[..n] + ['\n'];
      SplitSnocSep(content[..n], '\n');
      var lines := Lines(content);
      assert Last(lines) == "";
      assert LineKeys(content)[|lines| - 1] == Key("") == "";
    }
  }

  lemma MigratedSetKeys(content: string)
    ensures MigratedSet(content).Valid()
    ensures forall k :: k in MigratedSet(content).vals <==> k in LineKeys(content)
    ensures forall k :: k in MigratedSet(content).vals ==> MigratedSet(content).vals[k].id == k
  {
    var es := MigratedEntries(content);
    EntryKeys(content);
    PutAllKeys(es);
    forall k | k in MigratedSet(content).vals
      ensures MigratedSet(content).vals[k].id == k
    {
      PutAllValueFrom(es, k);
    }
  }

  /** The second map holds exactly the line keys other than `"Id"` and the
      empty key; each record's `Id` is its key. */
  lemma MigratedTableKeys(content: string)
    ensures MigratedTable(content).Valid()
    ensures forall k :: k in MigratedTable(content).vals <==> k in LineKeys(content) && k != HeaderKey && k != ""
    ensures forall k :: k in MigratedTable(content).vals ==> MigratedTable(content).vals[k].id == k
  {
    MigratedSetKeys(content);
    var t := MigratedSet(content);
    assert MigratedTable(content).vals == t.vals - {HeaderKey} - {""};
  }

  /** The two deletions take out the sentinel keys and nothing else: every
      other entry keeps its value. */
  lemma MigratedSentinelsGone(content: string)
    ensures HeaderKey !in MigratedTable(content).vals && "" !in MigratedTable(content).vals
    ensures forall k :: k != HeaderKey && k != "" ==>
              (k in MigratedTable(content).vals <==> k in MigratedSet(content).vals) &&
              (k in MigratedTable(content).vals ==> MigratedTable(content).vals[k] == MigratedSet(content).vals[k])
  {
  }

  /** The value stored for a non-sentinel key comes from the last line with
      that key. */
  lemma MigratedTableLastWins(content: string, i: nat)
    requires i < |Lines(content)|
    requires Key(Lines(content)[i]) != HeaderKey && Key(Lines(content)[i]) != ""
    requires forall j :: i < j < |Lines(content)| ==> Key(Lines(content)[j]) != Key(Lines(content)[i])
    ensures var line := Lines(content)[i];
            && Key(line) in MigratedTable(content).vals
            && MigratedTable(content).vals[Key(line)] == MigratedRecord(Key(line), Field(Row(line), 1))
  {
    EntryKeys(content);
    PutAllLastWins(MigratedEntries(content), i);
  }

  /** The deletions leave the second map in first-insertion order. */
  lemma MigratedTableOrder(content: string)
    ensures InsertionOrdered(MigratedTable(content).keys, LineKeys(content))
  {
    var t := MigratedSet(content);
    EntryKeys(content);
    PutAllOrder(MigratedEntries(content));
    RemoveOrdered(t, HeaderKey, LineKeys(content));
    RemoveOrdered(t.Remove(HeaderKey), "", LineKeys(content));
  }

  /** Neither a field separator nor a line separator. */
  predicate Clean(s: string)
  {
    ',' !in s && '\n' !in s
  }

  /** Every field of every line is free of both separators. */
  lemma FieldsClean(content: string, i: nat, j: nat)
    requires i < |Lines(content)| && j < |Row(Lines(content)[i])|
    ensures Clean(Row(Lines(content)[i])[j])
  {
    var lines := Split(content, '\n');
    var line := lines[i];
    SplitPiecesFrom(content, '\n');
    SplitPiecesFrom(line, ',');
    assert PieceOf(line, content, '\n');
    assert PieceOf(Split(line, ',')[j], line, ',');
  }

  /** Keys and `CreatedById` values of the first map are free of both
      separators. */
  lemma LegacyValuesClean(content: string)
    ensures forall k :: k in LegacyTable(content).vals ==> Clean(k)
    ensures forall k :: k in LegacyTable(content).vals && LegacyTable(content).vals[k].createdById.Some? ==>
              Clean(LegacyTable(content).vals[k].createdById.value)
  {
    var es := LegacyEntries(content);
    var t := LegacyTable(content);
    forall k | k in t.vals
      ensures Clean(k) && (t.vals[k].createdById.Some? ==> Clean(t.vals[k].createdById.value))
    {
      PutAllValueFrom(es, k);
      var i :| 0 <= i < |es| && es[i] == (k, t.vals[k]);
      FieldsClean(content, i, 0);
      if t.vals[k].createdById.Some? {
        FieldsClean(content, i, 1);
      }
    }
  }

  /** Ids in the second map are free of both separators. */
  lemma MigratedIdsClean(content: string)
    ensures forall k :: k in MigratedTable(content).vals ==> Clean(MigratedTable(content).vals[k].id)
  {
    var es := MigratedEntries(content);
    var t := MigratedSet(content);
    forall k | k in MigratedTable(content).vals
      ensures Clean(MigratedTable(content).vals[k].id)
    {
      assert t.vals[k] == MigratedTable(content).vals[k];
      PutAllValueFrom(es, k);
      var i :| 0 <= i < |es| && es[i] == (k, t.vals[k]);
      FieldsClean(content, i, 0);
    }
  }

  /** A stream holding a header line, a data line, a line whose two quoted
      fields are empty, and a trailing newline. */
  const SentinelSample: string := "\"Id\",\"CreatedById\"\n\"001\",,\"005\"\n\"\",\"\",\n"
  const SampleHeader: string := "\"Id\",\"CreatedById\""
  const SampleData: string := "\"001\",,\"005\""
  const SampleQuoted: string := "\"\",\"\","

  lemma SampleText()
    ensures SentinelSample == SampleHeader + ['\n'] + (SampleData + ['\n'] + (SampleQuoted + ['\n'] + ""))
  {
  }

  lemma SampleLastLines()
    ensures Split(SampleQuoted + ['\n'] + "", '\n') == [SampleQuoted, ""]
  {
    SplitPrefix(SampleQuoted, "", '\n');
  }

  lemma SampleDataLines(rest: string)
    requires Split(rest, '\n') == [SampleQuoted, ""]
    ensures Split(SampleData + ['\n'] + rest, '\n') == [SampleData, SampleQuoted, ""]
  {
    SplitPrefix(SampleData, rest, '\n');
  }

  lemma SampleHeaderLines(rest: string)
    requires Split(rest, '\n') == [SampleData, SampleQuoted, ""]
    ensures Split(SampleHeader + ['\n'] + rest, '\n') == [SampleHeader, SampleData, SampleQuoted, ""]
  {
    SplitPrefix(SampleHeader, rest, '\n');
  }

  lemma SampleLines(content: string)
    requires content == SentinelSample
    ensures Lines(content) == [SampleHeader, SampleData, SampleQuoted, ""]
  {
    var r2 := SampleQuoted + ['\n'] + "";
    var r1 := SampleData + ['\n'] + r2;
    SampleText();
    SampleLastLines();
    SampleDataLines(r2);
    SampleHeaderLines(r1);
  }

  lemma SampleHeaderText()
    ensures SampleHeader == HeaderKey + [','] + "\"CreatedById\""
  {
  }

  lemma SampleHeaderRow(line: string)
    requires line == SampleHeader
    ensures Row(line) == [HeaderKey, "\"CreatedById\""]
  {
    var f1 := "\"CreatedById\"";
    SampleHeaderText();
    SplitNoSep(f1, ',');
    SplitPrefix(HeaderKey, f1, ',');
  }

  lemma SampleDataText()
    ensures SampleData == "\"001\"" + [','] + ("" + [','] + "\"005\"")
  {
  }

  lemma SampleDataRow(line: string)
    requires line == SampleData
    ensures Row(line) == ["\"001\"", "", "\"005\""]
  {
    var f0, f2 := "\"001\"", "\"005\"";
    SampleDataText();
    SplitNoSep(f2, ',');
    SplitPrefix("", f2, ',');
    SplitPrefix(f0, "" + [','] + f2, ',');
  }

  lemma SampleQuotedText()
    ensures SampleQuoted == "\"\"" + [','] + ("\"\"" + [','] + "")
  {
  }

  lemma SampleQuotedRow(line: string)
    requires line == SampleQuoted
    ensures Row(line) == ["\"\"", "\"\"", ""]
  {
    var q := "\"\"";
    SampleQuotedText();
    SplitPrefix(q, "", ',');
    SplitPrefix(q, q + [','] + "", ',');
  }

  lemma EmptyRow(line: string)
    requires line == ""
    ensures Row(line) == [""]
  {
  }

  /** The four line keys of the sample. */
  const SampleKeys: seq<string> := [HeaderKey, "\"001\"", "\"\"", ""]

  lemma SampleRows(content: string)
    requires content == SentinelSample
    ensures |Lines(content)| == 4
    ensures Row(Lines(content)[0]) == [HeaderKey, "\"CreatedById\""]
    ensures Row(Lines(content)[1]) == ["\"001\"", "", "\"005\""]
    ensures Row(Lines(content)[2]) == ["\"\"", "\"\"", ""]
    ensures Row(Lines(content)[3]) == [""]
  {
    var lines := Lines(content);
    SampleLines(content);
    SampleHeaderRow(lines[0]);
    SampleDataRow(lines[1]);
    SampleQuotedRow(lines[2]);
    EmptyRow(lines[3]);
  }

  lemma SampleLineKeys(content: string)
    requires content == SentinelSample
    ensures LineKeys(content) == SampleKeys
  {
    SampleRows(content);
    LineKeysOfFour(content);
  }

  lemma LineKeysOfFour(content: string)
    requires |Lines(content)| == 4
    requires Row(Lines(content)[0])[0] == HeaderKey && Row(Lines(content)[1])[0] == "\"001\""
    requires Row(Lines(content)[2])[0] == "\"\"" && Row(Lines(content)[3])[0] == ""
    ensures LineKeys(content) == SampleKeys
  {
  }

  lemma SampleKeysDistinct()
    ensures Distinct(SampleKeys)
  {
    var ks := SampleKeys;
    assert |ks[0]| == 4 && |ks[1]| == 5 && |ks[2]| == 2 && |ks[3]| == 0;
  }

  /** The second map, before the deletions, built from the sample. */
  const SampleSetValues: seq<MigratedRecord> := [
    MigratedRecord(HeaderKey, Some("\"CreatedById\"")),
    MigratedRecord("\"001\"", Some("")),
    MigratedRecord("\"\"", Some("\"\"")),
    MigratedRecord("", None)]

  lemma SampleMigratedSet(content: string)
    requires content == SentinelSample
    ensures MigratedSet(content).keys == SampleKeys
    ensures MigratedSet(content).Valid()
    ensures MigratedSet(content).Values() == SampleSetValues
  {
    SampleRows(content);
    SampleLineKeys(content);
    MigratedSetOfFour(content);
  }

  lemma MigratedSetOfFour(content: string)
    requires |Lines(content)| == 4
    requires Row(Lines(content)[0]) == [HeaderKey, "\"CreatedById\""]
    requires Row(Lines(content)[1]) == ["\"001\"", "", "\"005\""]
    requires Row(Lines(content)[2]) == ["\"\"", "\"\"", ""]
    requires Row(Lines(content)[3]) == [""]
    requires LineKeys(content) == SampleKeys
    ensures MigratedSet(content).keys == SampleKeys
    ensures MigratedSet(content).Valid()
    ensures MigratedSet(content).Values() == SampleSetValues
  {
    var es := MigratedEntries(content);
    SampleKeysDistinct();
    EntryKeys(content);
    PutAllDistinct(es);
    var t := MigratedSet(content);
    assert t.Values() == [t.vals[es[0].0], t.vals[es[1].0], t.vals[es[2].0], t.vals[es[3].0]];
  }

  /** On the sample, the second map keeps two records: the header and the
      empty last line are dropped, but the line whose field 0 is two quote
      characters is kept, because only `"Id"` and the empty key are deleted.
      The first map keeps all four keys. */
  lemma SentinelSampleTables(content: string)
    requires content == SentinelSample
    ensures MigratedTable(content).keys == ["\"001\"", "\"\""]
    ensures MigratedTable(content).Values() ==
              [MigratedRecord("\"001\"", Some("")), MigratedRecord("\"\"", Some("\"\""))]
    ensures LegacyTable(content).keys == SampleKeys
  {
    SampleMigratedSet(content);
    SampleDeletions(MigratedSet(content));
    SampleLineKeys(content);
    LegacyKeysOfSample(content);
  }

  lemma SampleDeletions(t: OMap<MigratedRecord>)
    requires t.Valid() && t.keys == SampleKeys && t.Values() == SampleSetValues
    ensures t.Remove(HeaderKey).Remove("").keys == ["\"001\"", "\"\""]
    ensures t.Remove(HeaderKey).Remove("").Values() ==
              [MigratedRecord("\"001\"", Some("")), MigratedRecord("\"\"", Some("\"\""))]
  {
    DropEnds(t);
    assert SampleKeys[1..3] == ["\"001\"", "\"\""];
  }

  /** Deleting the first and then the last of four keys leaves the middle two. */
  lemma DropEnds<V>(t: OMap<V>)
    requires t.Valid() && |t.keys| == 4
    ensures t.Remove(t.keys[0]).Remove(t.keys[3]).keys == t.keys[1..3]
    ensures t.Remove(t.keys[0]).Remove(t.keys[3]).Values() == t.Values()[1..3]
  {
    var t1 := t.Remove(t.keys[0]);
    DropFirst(t);
    assert t1.keys[2] == t.keys[3];
    DropLast(t1);
    assert t1.keys[..2] == t.keys[1..3];
    assert t1.Values()[..2] == t.Values()[1..3];
  }

  lemma DropFirst<V>(t: OMap<V>)
    requires t.Valid() && |t.keys| > 0
    ensures t.Remove(t.keys[0]).Valid()
    ensures t.Remove(t.keys[0]).keys == t.keys[1..]
    ensures t.Remove(t.keys[0]).Values() == t.Values()[1..]
  {
    RemovePresent(t, 0);
    assert t.keys[..0] + t.keys[1..] == t.keys[1..];
    assert t.Values()[..0] + t.Values()[1..] == t.Values()[1..];
  }

  lemma DropLast<V>(t: OMap<V>)
    requires t.Valid() && |t.keys| > 0
    ensures t.Remove(Last(t.keys)).keys == t.keys[..|t.keys| - 1]
    ensures t.Remove(Last(t.keys)).Values() == t.Values()[..|t.keys| - 1]
  {
    var n := |t.keys| - 1;
    RemovePresent(t, n);
    assert t.keys[..n] + t.keys[n + 1..] == t.keys[..n];
    assert t.Values()[..n] + t.Values()[n + 1..] == t.Values()[..n];
  }

  lemma LegacyKeysOfSample(content: string)
    requires LineKeys(content) == SampleKeys
    ensures LegacyTable(content).keys == SampleKeys
  {
    SampleKeysDistinct();
    EntryKeys(content);
    PutAllDistinctKeys(LegacyEntries(content));
  }
}
