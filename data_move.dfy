/** The request pipeline of the `data move` command: validate the object
    name, build the two bulk queries, reassemble and parse both result
    streams, join them and produce the text of the output file. */
module DataMove {
  import opened Wrappers
  import opened JsText
  import opened JsMaps
  import opened Chunks
  import opened Translation
  import opened Ingest
  import opened Reconcile

  /** What a run ends with: the listing printed before `exit(1)`, or the two
      queries issued and the file written. */
  datatype Outcome =
    | Unsupported(listing: string)
    | Written(legacyQuery: string, newQuery: string, fileName: string, text: string)

  /** The query for the legacy object. */
  function LegacyQuery(legacy: string): string
  {
    "select Id,CreatedById from " + legacy
  }

  /** The query for the new object, restricted to migrated records. */
  function NewQuery(name: string): string
  {
    "select Id,Origin_Id__c from " + name + " where Origin_Id__c !=null"
  }

  /** The whole pipeline on the text of the two result streams. */
  function Move(name: string, legacyContent: string, newContent: string): Outcome
  {
    match Translate(name)
    case None => Unsupported(Listing(Table().keys))
    case Some(legacy) =>
      Written(LegacyQuery(legacy), NewQuery(name), name + ".csv",
              OutputText(JoinRows(LegacyTable(legacyContent), MigratedTable(newContent))))
  }

  /** The name check of `run()`: `has`, the listing loop, then `get`. */
  method CheckName(name: string) returns (legacy: Option<string>, message: string)
    ensures legacy == Translate(name)
    ensures legacy.None? ==> message == Listing(Table().keys)
  {
    var table := new JsMap<string>.FromEntries(TableEntries);
    TableContents();
    message := "";
    if !table.Has(name) {
      message := SupportedListing(table);
      legacy := None;
    } else {
      legacy := table.Get(name);
    }
  }

  /** The two streams of `run()`, from the chunks read to the file text. */
  method Transfer(legacyChunks: seq<string>, newChunks: seq<string>) returns (text: string)
    ensures text == OutputText(JoinRows(LegacyTable(Concat(legacyChunks)), MigratedTable(Concat(newChunks))))
  {
    var legacyContent := ReadAll(legacyChunks);
    var mapAccl := new JsMap<LegacyRecord>();
    LoadLegacy(legacyContent, mapAccl);
    ghost var accl := mapAccl.View();
    assert accl == LegacyTable(Concat(legacyChunks));

    var newContent := ReadAll(newChunks);
    var mapCg := new JsMap<MigratedRecord>();
    LoadMigrated(newContent, mapCg);
    assert mapCg.View() == MigratedTable(Concat(newChunks));
    MigratedTableKeys(newContent);

    var fchunks := BuildRows(mapCg, mapAccl);
    text := OutputText(fchunks);
  }

  /** One stream: every chunk its `'readable'` handler reads, then the joined text. */
  method ReadAll(incoming: seq<string>) returns (content: string)
    ensures content == Concat(incoming)
  {
    var chunks := new ChunkList();
    chunks.Drain(incoming);
    assert chunks.chunks == incoming;
    content := chunks.Content();
  }

  /** `run()` with the two streams given as the chunks they deliver. */
  method Run(name: string, legacyChunks: seq<string>, newChunks: seq<string>) returns (r: Outcome)
    ensures r == Move(name, Concat(legacyChunks), Concat(newChunks))
  {
    var legacy, message := CheckName(name);
    if legacy.None? {
      return Unsupported(message);
    }
    var acclQuery := LegacyQuery(legacy.value);
    var cgQuery := NewQuery(name);
    var text := Transfer(legacyChunks, newChunks);
    r := Written(acclQuery, cgQuery, name + ".csv", text);
  }

  /** An unsupported name issues no query: the run ends with the listing of
      every supported name in table order, one per line. */
  lemma UnsupportedName(name: string, legacyContent: string, newContent: string)
    requires name !in SupportedNames
    ensures Move(name, legacyContent, newContent).Unsupported?
    ensures Split(Move(name, legacyContent, newContent).listing, '\n') == SupportedNames + [""]
  {
    SupportedListingLines();
  }

  /** A supported name issues the legacy query on the object the table maps
      it to, and the new-object query on the name itself. */
  lemma SupportedName(i: nat, legacyContent: string, newContent: string)
    requires i < |TableEntries|
    ensures var r := Move(TableEntries[i].0, legacyContent, newContent);
            && r.Written?
            && r.legacyQuery == "select Id,CreatedById from " + TableEntries[i].1
            && r.newQuery == "select Id,Origin_Id__c from " + TableEntries[i].0 + " where Origin_Id__c !=null"
            && r.fileName == TableEntries[i].0 + ".csv"
  {
    TableContents();
  }

  /** The output file holds the header and then one line per entry of the
      new-object map, in its iteration order: the entry's id, a comma, and the
      `CreatedById` of the legacy record its origin id names, or `undefined`. */
  lemma WrittenText(name: string, legacyContent: string, newContent: string)
    requires name in SupportedNames
    ensures var r := Move(name, legacyContent, newContent);
            var cg := MigratedTable(newContent);
            var accl := LegacyTable(legacyContent);
            var lines := Lines(r.text);
            && r.Written?
            && |lines| == 1 + (if cg.keys == [] then 1 else |cg.keys|)
            && lines[0] == OutputHeader
            && (cg.keys == [] ==> r.text == OutputHeader + "\n")
            && (cg.keys != [] ==> r.text != [] && Last(r.text) != '\n')
            && forall i :: 0 <= i < |cg.keys| ==>
                 Row(lines[i + 1]) == [cg.keys[i], Render(MatchedCreatedBy(accl, cg.vals[cg.keys[i]].origId))]
  {
    var cg := MigratedTable(newContent);
    var rows := JoinRows(LegacyTable(legacyContent), cg);
    RowsReadBack(legacyContent, newContent);
    OutputLines(rows);
    if rows != [] {
      TextEnd(legacyContent, newContent);
    }
  }

  /** Every row of the join holds no newline and reads back as its key and
      its rendered match. */
  lemma RowsReadBack(legacyContent: string, newContent: string)
    ensures var cg := MigratedTable(newContent);
            var accl := LegacyTable(legacyContent);
            var rows := JoinRows(accl, cg);
            forall i :: 0 <= i < |rows| ==>
              '\n' !in rows[i] &&
              Row(rows[i]) == [cg.keys[i], Render(MatchedCreatedBy(accl, cg.vals[cg.keys[i]].origId))]
  {
    var cg := MigratedTable(newContent);
    var rows := JoinRows(LegacyTable(legacyContent), cg);
    forall i | 0 <= i < |rows|
      ensures '\n' !in rows[i]
      ensures Row(rows[i]) == [cg.keys[i], Render(MatchedCreatedBy(LegacyTable(legacyContent), cg.vals[cg.keys[i]].origId))]
    {
      RowOfEntry(legacyContent, newContent, i);
    }
  }

  /** With at least one record, the file does not end in a newline. */
  lemma TextEnd(legacyContent: string, newContent: string)
    requires MigratedTable(newContent).keys != []
    ensures var text := OutputText(JoinRows(LegacyTable(legacyContent), MigratedTable(newContent)));
            text != [] && Last(text) != '\n'
  {
    MigratedTableKeys(newContent);
    RowsReadBack(legacyContent, newContent);
    LastRowNonEmpty(LegacyTable(legacyContent), MigratedTable(newContent));
    OutputNoTrailingNewline(JoinRows(LegacyTable(legacyContent), MigratedTable(newContent)));
  }

  /** Row `i` of the join reads back as the `i`-th key of the new-object map
      and its rendered match. */
  lemma RowOfEntry(legacyContent: string, newContent: string, i: nat)
    requires i < |MigratedTable(newContent).keys|
    ensures var cg := MigratedTable(newContent);
            var accl := LegacyTable(legacyContent);
            var row := JoinRows(accl, cg)[i];
            && '\n' !in row
            && Row(row) == [cg.keys[i], Render(MatchedCreatedBy(accl, cg.vals[cg.keys[i]].origId))]
  {
    var cg := MigratedTable(newContent);
    var accl := LegacyTable(legacyContent);
    var rec := cg.Values()[i];
    MigratedTableKeys(newContent);
    MigratedIdsClean(newContent);
    assert cg.keys[i] in cg.vals;
    assert rec.id == cg.keys[i];
    RenderedClean(legacyContent, rec.origId);
    JoinRowFields(accl, rec);
    assert JoinRows(accl, cg)[i] == rec.id + [','] + Render(MatchedCreatedBy(accl, rec.origId));
  }
}
