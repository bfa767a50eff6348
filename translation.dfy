/** The fixed translation table that maps each of the seven new object names
    the command accepts to its legacy object name, and the listing printed
    for a name the table does not hold. */
module Translation {
  import opened Wrappers
  import opened JsText
  import opened JsMaps

  /** The constructor entries of `MapCGACCL`, in the order written. */
  const TableEntries: seq<(string, string)> := [
    ("ULTEST__DataTest2__c", "ULTEST__DataTest__c"),
    ("cgcloud__Fund__c", "ACCL__Fund__c"),
    ("cgcloud__Payment__c", "ACCL__Payment__c"),
    ("cgcloud__Promotion__c", "ACCL__Promotion__c"),
    ("cgcloud__Tactic__c", "ACCL__Tactic__c"),
    ("CGT_StandardReport__c", "TPM_StandardReport__c"),
    ("CGT_UserCustomerProduct__c", "TPM_UserCustomerProduct__c")
  ]

  /** `new Map(entries)`. */
  function Table(): OMap<string>
  {
    PutAll(Empty(), TableEntries)
  }

  /** The new names the table supports, in table order. */
  const SupportedNames: seq<string> := [
    "ULTEST__DataTest2__c", "cgcloud__Fund__c", "cgcloud__Payment__c",
    "cgcloud__Promotion__c", "cgcloud__Tactic__c", "CGT_StandardReport__c",
    "CGT_UserCustomerProduct__c"
  ]

  /** The table iterates its seven names in the order written, each mapped to
      the legacy name written beside it. */
  lemma TableContents()
    ensures Table().Valid()
    ensures Table().keys == SupportedNames
    ensures forall i :: 0 <= i < |TableEntries| ==>
              TableEntries[i].0 in Table().vals && Table().vals[TableEntries[i].0] == TableEntries[i].1
  {
    TableKeys();
    SupportedDistinct();
    PutAllDistinct(TableEntries);
  }

  lemma TableKeys()
    ensures KeysOf(TableEntries) == SupportedNames
  {
  }

  lemma SupportedDistinct()
    ensures Distinct(SupportedNames)
  {
    var ns := SupportedNames;
    forall i, j | 0 <= i < j < |ns| ensures ns[i] != ns[j] {
      assert |ns[i]| != |ns[j]| || ns[i][1] != ns[j][1] || ns[i][9] != ns[j][9];
    }
  }

  /** `has(name)` then `get(name)`: the legacy name, or `None` for an
      unsupported name. */
  function Translate(name: string): (legacy: Option<string>)
    ensures legacy.Some? <==> name in SupportedNames
    ensures forall i :: 0 <= i < |TableEntries| && TableEntries[i].0 == name ==> legacy == Some(TableEntries[i].1)
  {
    TableContents();
    if name in Table().vals then Some(Table().vals[name]) else None
  }

  /** The message built for an unsupported name: each name followed by a
      newline. */
  function Listing(names: seq<string>): string
  {
    if names == [] then "" else Listing(names[..|names| - 1]) + Last(names) + "\n"
  }

  /** The loop `for (const f of MapCGACCL.keys()) message += f + '\n'`. */
  method SupportedListing(table: JsMap<string>) returns (message: string)
    ensures message == Listing(table.keys)
  {
    message := "";
    var keys := table.keys;
    for i := 0 to |keys|
      invariant message == Listing(keys[..i])
    {
      assert keys[..i + 1][..i] == keys[..i];
      message := message + keys[i] + "\n";
    }
    assert keys[..|keys|] == keys;
  }

  /** Read back line by line, the listing gives every name in order, followed
      by the empty piece after the final newline. */
  lemma {:induction false} ListingLines(names: seq<string>)
    requires forall i :: 0 <= i < |names| ==> '\n' !in names[i]
    ensures Split(Listing(names), '\n') == names + [""]
    decreases |names|
  {
    if names != [] {
      var n := |names| - 1;
      var prefix := names[..n];
      ListingLines(prefix);
      var p := Split(Listing(prefix), '\n');
      assert p == prefix + [""];
      SplitSnocText(Listing(prefix), names[n], '\n');
      assert p[..|p| - 1] == prefix && Last(p) == "";
      assert Last(p) + names[n] == names[n];
      assert Split(Listing(prefix) + names[n], '\n') == prefix + [names[n]];
      SplitSnocSep(Listing(prefix) + names[n], '\n');
      assert Listing(names) == Listing(prefix) + names[n] + ['\n'];
      assert names == prefix + [names[n]];
    }
  }

  /** The listing of the supported names, read back line by line. */
  lemma SupportedListingLines()
    ensures Split(Listing(Table().keys), '\n') == SupportedNames + [""]
  {
    TableContents();
    SupportedNoNewline();
    ListingLines(SupportedNames);
  }

  lemma SupportedNoNewline()
    ensures forall i :: 0 <= i < |SupportedNames| ==> '\n' !in SupportedNames[i]
  {
  }
}
