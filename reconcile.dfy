/** The join of the two maps and the text written to the output file: one
    row per entry of the new-object map, in its iteration order, carrying the
    `CreatedById` of the legacy record its origin id points at. */
module Reconcile {
  import opened Wrappers
  import opened JsText
  import opened JsMaps
  import opened Ingest

  /** `MapACCL.get(f.ULTEST__Orig_Id__c)?.CreatedById`: `undefined` when the
      record has no origin id, when no legacy record has that id, or when the
      legacy record has no second field. */
  function MatchedCreatedBy(accl: OMap<LegacyRecord>, orig: Option<string>): Option<string>
  {
    match orig
    case None => None
    case Some(o) => if o in accl.vals then accl.vals[o].createdById else None
  }

  /** JavaScript's string conversion in `+`: `undefined` becomes the text
      `undefined`. */
  function Render(v: Option<string>): string
  {
    match v
    case Some(s) => s
    case None => "undefined"
  }

  /** `f.Id + ',' + MapACCL.get(f.ULTEST__Orig_Id__c)?.CreatedById`. */
  function JoinRow(accl: OMap<LegacyRecord>, rec: MigratedRecord): string
  {
    rec.id + "," + Render(MatchedCreatedBy(accl, rec.origId))
  }

  /** One row per value of the new-object map, in iteration order. */
  function JoinRows(accl: OMap<LegacyRecord>, cg: OMap<MigratedRecord>): (rows: seq<string>)
    requires cg.Valid()
    ensures |rows| == |cg.keys|
  {
    var vs := cg.Values();
    seq(|vs|, i requires 0 <= i < |vs| => JoinRow(accl, vs[i]))
  }

  /** Every row holds at least the comma between its two columns. */
  lemma LastRowNonEmpty(accl: OMap<LegacyRecord>, cg: OMap<MigratedRecord>)
    requires cg.Valid() && cg.keys != []
    ensures Last(JoinRows(accl, cg)) != ""
  {
    var rows := JoinRows(accl, cg);
    var n := |rows| - 1;
    var rec := cg.Values()[n];
    assert rows[n] == rec.id + [','] + Render(MatchedCreatedBy(accl, rec.origId));
    assert rows[n][|rec.id|] == ',';
  }

  /** The keys `"Id"` and `""` that the legacy map keeps change no row whose
      origin id is neither of them: the row is the one the pruned legacy map
      would give. */
  lemma LegacySentinelsHarmless(accl: OMap<LegacyRecord>, rec: MigratedRecord)
    requires rec.origId != Some(HeaderKey) && rec.origId != Some("")
    ensures JoinRow(accl, rec) == JoinRow(accl.Remove(HeaderKey).Remove(""), rec)
  {
    var pruned := accl.Remove(HeaderKey).Remove("");
    assert pruned.vals == accl.vals - {HeaderKey} - {""};
    if rec.origId.Some? {
      var o := rec.origId.value;
      assert o != HeaderKey && o != "";
      assert (o in pruned.vals) == (o in accl.vals);
    }
  }

  /** An origin id equal to `"Id"` does reach the legacy header line: the row
      then carries the header's second field, where the pruned legacy map
      would give `undefined`. */
  lemma HeaderReachedByOrigin(accl: OMap<LegacyRecord>, id: string, second: string)
    requires HeaderKey in accl.vals && accl.vals[HeaderKey].createdById == Some(second)
    ensures JoinRow(accl, MigratedRecord(id, Some(HeaderKey))) == id + "," + second
    ensures JoinRow(accl.Remove(HeaderKey).Remove(""), MigratedRecord(id, Some(HeaderKey))) == id + ",undefined"
  {
    var pruned := accl.Remove(HeaderKey).Remove("");
    assert pruned.vals == accl.vals - {HeaderKey} - {""};
    assert HeaderKey !in pruned.vals;
  }

  /** The fixed header line of the output file. */
  const OutputHeader: string := "\"Id\",\"CreatedById\""

  /** `'"Id","CreatedById"\n' + fchunks.join('\n')`. */
  function OutputText(rows: seq<string>): string
  {
    OutputHeader + "\n" + Join(rows, '\n')
  }

  /** The loop `for (const f of MapCG.values()) fchunks.push(...)`. */
  method BuildRows(cg: JsMap<MigratedRecord>, accl: JsMap<LegacyRecord>) returns (fchunks: seq<string>)
    requires cg.Valid()
    ensures fchunks == JoinRows(accl.View(), cg.View())
  {
    ghost var spec := JoinRows(accl.View(), cg.View());
    ghost var vs := cg.View().Values();
    fchunks := [];
    var keys := cg.keys;
    for i := 0 to |keys|
      invariant fchunks == spec[..i]
    {
      var f := cg.vals[keys[i]];
      assert f == vs[i];
      var found := if f.origId.Some? then accl.Get(f.origId.value) else None;
      var createdBy := if found.Some? then found.value.createdById else None;
      fchunks := fchunks + [f.id + "," + Render(createdBy)];
    }
    assert spec[..|keys|] == spec;
  }

  /** Unmatched policy: a record whose origin id is missing, unknown, or
      points at a legacy record without a `CreatedById` still gives a row,
      whose second column is the text `undefined`; a match gives its
      `CreatedById`. */
  lemma JoinRowPolicy(accl: OMap<LegacyRecord>, rec: MigratedRecord)
    ensures (rec.origId.None? || rec.origId.value !in accl.vals || accl.vals[rec.origId.value].createdById.None?)
              ==> JoinRow(accl, rec) == rec.id + ",undefined"
    ensures (rec.origId.Some? && rec.origId.value in accl.vals && accl.vals[rec.origId.value].createdById.Some?)
              ==> JoinRow(accl, rec) == rec.id + "," + accl.vals[rec.origId.value].createdById.value
  {
  }

  /** Read back with `split(',')`, a row gives the record's id and the
      rendered `CreatedById`, when neither holds a comma. */
  lemma JoinRowFields(accl: OMap<LegacyRecord>, rec: MigratedRecord)
    requires ',' !in rec.id && ',' !in Render(MatchedCreatedBy(accl, rec.origId))
    ensures Row(JoinRow(accl, rec)) == [rec.id, Render(MatchedCreatedBy(accl, rec.origId))]
  {
    var second := Render(MatchedCreatedBy(accl, rec.origId));
    assert JoinRow(accl, rec) == rec.id + [','] + second;
    SplitPrefix(rec.id, second, ',');
    SplitNoSep(second, ',');
  }

  /** The second column of a row never holds a separator when the legacy
      map was parsed from text. */
  lemma RenderedClean(legacyContent: string, orig: Option<string>)
    ensures Clean(Render(MatchedCreatedBy(LegacyTable(legacyContent), orig)))
  {
    LegacyValuesClean(legacyContent);
    var m := MatchedCreatedBy(LegacyTable(legacyContent), orig);
    if m.None? {
      assert Render(m) == "undefined";
    }
  }

  lemma HeaderHasNoNewline()
    ensures '\n' !in OutputHeader
  {
  }

  /** Read back line by line, the output gives the header and then exactly
      the rows; with no rows it is the header and one newline, so the second
      line is empty. */
  lemma {:induction false} OutputLines(rows: seq<string>)
    requires forall i :: 0 <= i < |rows| ==> '\n' !in rows[i]
    ensures Lines(OutputText(rows)) == [OutputHeader] + (if rows == [] then [""] else rows)
    ensures rows == [] ==> OutputText(rows) == OutputHeader + "\n"
  {
    HeaderHasNoNewline();
    assert OutputText(rows) == OutputHeader + ['\n'] + Join(rows, '\n');
    SplitPrefix(OutputHeader, Join(rows, '\n'), '\n');
    if rows != [] {
      SplitJoin(rows, '\n');
    }
  }

  /** The output has no trailing newline when its last row is not empty. */
  lemma OutputNoTrailingNewline(rows: seq<string>)
    requires forall i :: 0 <= i < |rows| ==> '\n' !in rows[i]
    requires rows != [] && Last(rows) != ""
    ensures OutputText(rows) != [] && Last(OutputText(rows)) != '\n'
  {
    var out := OutputText(rows);
    OutputLines(rows);
    assert Last(Lines(out)) == Last(rows);
    SplitTrailingSep(out, '\n');
  }
}
