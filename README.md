# data move — a Dafny model

The `data move` command of the plugin writes no records. It pairs the
records of a new Salesforce object with the legacy records they were copied
from, and writes a two-column CSV: each new record's id and the
`CreatedById` of its legacy original. The new name is one of seven
(cgcloud, CGT, or the test object `ULTEST__DataTest2__c`). Each maps to a
legacy name (ACCL, TPM, or `ULTEST__DataTest__c`). Here is what it does:

1. It looks the new name up in a fixed seven-entry translation table. An
   unknown name makes it print the list of supported names and exit.
2. It issues two bulk queries, one on the legacy object and one on the new
   object.
3. It collects the chunks each result stream delivers and joins them into one
   text. It splits that text into lines and each line into fields at commas.
   Each line is stored in a JavaScript `Map`, keyed by its first field.
4. The new-object map then loses two keys: the header key `"Id"` (the quotes
   are part of the key) and the empty key.
5. For every record of the new-object map, in iteration order, it writes one
   line. The line holds the record's id, a comma, and the `CreatedById` of the
   legacy record that the record's origin id names.
6. These lines follow a fixed header in `<name>.csv`.

The model covers the pure pipeline of that command:

- **`JsText`** defines JavaScript's `split` and `join` on a single-character
  separator. It proves that they are inverses, that the piece count is the
  separator count plus one, and how a trailing separator behaves.
- **`JsMaps`** models a `Map` with string keys. The value `OMap` is its
  iteration order plus its contents, and the class `JsMap` is the mutable
  object the command updates.
  - `set` appends a new key at the end, and overwriting a key keeps its
    position.
  - `delete` removes the key from the order.
  - `new Map(entries)` is `PutAll(Empty(), entries)`.
- **`Chunks`** covers the `'readable'` loop, which pushes every chunk, and
  `chunks.join('')`.
- **`Translation`** covers the table, the lookup, and the supported-name
  listing loop.
- **`Ingest`** covers the two `'end'` handlers, as loops over lines that `set`
  into a `JsMap`, followed by the two deletions.
- **`Reconcile`** covers the loop over `MapCG.values()` that builds the output
  rows, and the output text.
- **`DataMove`** covers the queries, the file name, and the whole run. `Move`
  is the pipeline as a function. `Run` is the method built from the loops
  above, and it is proved equal to `Move`.

Two behaviours of the code are worth knowing. The model follows the code in
both.

- **Only two keys are deleted from the new-object map, and only from that
  map.**
  - The legacy map keeps its header line under the key `"Id"`. It also keeps
    the empty key that a trailing newline produces (`LegacyKeepsSentinels`).
    These keys change a row only when its origin id is `"Id"` or the
    empty string. Any other origin id gives the row that a pruned legacy map
    would give (`LegacySentinelsHarmless`). An origin id `"Id"` does reach the
    header line: the row then carries the header's second field instead of
    `undefined` (`HeaderReachedByOrigin`).
  - In the new-object map, a line whose first field is `""` (two quote
    characters) is a different key from the empty key, so it survives.
  - On the stream `"Id","CreatedById"⏎"001",,"005"⏎"","",⏎` (⏎ is a newline),
    the new-object map keeps two records, `"001"` and `""`, not one
    (`SentinelSampleTables`).
- **A value that is missing is rendered as the text `undefined`.** This
  happens when a line has no second field, when an origin id names no legacy
  record, or when the named legacy record has no `CreatedById`. The row is
  written in every case (`JoinRowPolicy`).

A missing JavaScript value (`undefined`) is `None` of the `Option` type in
`Wrappers`.

## Model

| member | source | states |
|---|---|---|
| JsText.JoinSplit | src/commands/data/move.ts:120-121 | splitting at a separator and joining the pieces with it gives back the original text |
| JsText.SplitJoin | src/commands/data/move.ts:174 | joining a non-empty list of separator-free parts and splitting the result gives back exactly those parts |
| JsText.SplitCount | src/commands/data/move.ts:120 | `split` gives one more piece than the text has separators, so the empty text gives one empty line |
| JsText.SplitPiecesFrom | src/commands/data/move.ts:120-121 | every piece is made of characters of the text and holds no separator |
| JsText.SplitTrailingSep | src/commands/data/move.ts:120 | a text ending in the separator has an empty last piece |
| JsMaps.PutAllKeys | src/commands/data/move.ts:73-83 | after a run of `set`s, a key is present exactly when some entry had it |
| JsMaps.PutAllLastWins | src/commands/data/move.ts:123 | the value stored for a key is the one from its last `set` |
| JsMaps.PutAllValueFrom | src/commands/data/move.ts:123 | every stored pair is one of the entries that were `set` |
| JsMaps.PutAllDistinct | src/commands/data/move.ts:73-83 | with no repeated keys, the map iterates the keys in entry order and maps each one to its entry's value |
| JsMaps.PutAllOrder | src/commands/data/move.ts:120-124 | iteration order is the order of first insertion: of two keys, the one first set earlier comes earlier |
| JsMaps.RemovePresent | src/commands/data/move.ts:153-154 | deleting a present key takes exactly its position out of `keys()` and `values()`, and every other key keeps its value |
| JsMaps.RemoveAbsent | src/commands/data/move.ts:153-154 | deleting an absent key changes nothing |
| JsMaps.RemoveOrdered | src/commands/data/move.ts:153-154 | deleting a key keeps the remaining keys in first-insertion order |
| JsMaps.JsMap.constructor | src/commands/data/move.ts:85-86 | a new map is empty |
| JsMaps.JsMap.FromEntries | src/commands/data/move.ts:73-83 | a map built from entries is the result of setting them in order |
| JsMaps.JsMap.Has | src/commands/data/move.ts:89 | `has` holds exactly for the keys in the iteration order |
| JsMaps.JsMap.Set | src/commands/data/move.ts:123 | on a well-formed map, `set` changes it into its `Put` and keeps it well formed |
| JsMaps.JsMap.Delete | src/commands/data/move.ts:153 | on a well-formed map, `delete` changes it into its `Remove` and keeps it well formed |
| Chunks.ConcatRechunk | src/commands/data/move.ts:118 | the joined content does not depend on where the stream cut its chunks |
| Chunks.ConcatChars | src/commands/data/move.ts:118 | one character per chunk, or a single chunk, joins to the text itself |
| Chunks.ChunkList.Drain | src/commands/data/move.ts:109-115 | the `'readable'` loop appends every chunk read, in order, after those already collected |
| DataMove.ReadAll | src/commands/data/move.ts:107-118 | collecting a stream's chunks and joining them gives their concatenation |
| Translation.TableContents | src/commands/data/move.ts:73-83 | the table iterates the seven names in the order written and maps each one to the legacy name written beside it |
| Translation.Translate | src/commands/data/move.ts:89-98 | a name has a legacy name exactly when it is one of the seven, and it is the one the table gives |
| Translation.SupportedListing | src/commands/data/move.ts:92-93 | the loop builds the listing of the table's keys, in order, each followed by a newline |
| Translation.ListingLines | src/commands/data/move.ts:93 | read back line by line, the listing gives every name in order and then an empty line |
| Translation.SupportedListingLines | src/commands/data/move.ts:89-94 | the message for an unsupported name lists the seven supported names in table order |
| Ingest.Field | src/commands/data/move.ts:122 | `row[i]` is defined exactly when the row has more than `i` fields, and is then the `i`-th field |
| Ingest.LoadLegacy | src/commands/data/move.ts:117-124 | the first handler sets one record per line, keyed by field 0, holding fields 0 and 1 |
| Ingest.LoadMigrated | src/commands/data/move.ts:144-154 | the second handler sets one record per line, then deletes `"Id"` and the empty key |
| Ingest.LegacyTableKeys | src/commands/data/move.ts:120-124 | the legacy map's keys are exactly the first fields of the lines, and each record's id is its key |
| Ingest.LegacyTableLastWins | src/commands/data/move.ts:120-124 | a key's record comes from the last line that has that first field |
| Ingest.LegacyTableOrder | src/commands/data/move.ts:120-124 | the legacy map iterates its keys in the order of their first line |
| Ingest.LegacyKeepsSentinels | src/commands/data/move.ts:117-126 | the legacy map is never pruned: a header line leaves `"Id"`, and an empty text or trailing newline leaves the empty key |
| Ingest.MigratedTableKeys | src/commands/data/move.ts:147-154 | the new-object map's keys are exactly the lines' first fields other than `"Id"` and the empty key, and each record's id is its key |
| Ingest.MigratedSentinelsGone | src/commands/data/move.ts:153-154 | the deletions remove `"Id"` and the empty key, and every other entry keeps its value |
| Ingest.MigratedTableLastWins | src/commands/data/move.ts:147-154 | a kept key's record comes from the last line that has that first field |
| Ingest.MigratedTableOrder | src/commands/data/move.ts:147-154 | after the deletions the new-object map is still in first-line order |
| Ingest.LegacyValuesClean | src/commands/data/move.ts:120-122 | keys and `CreatedById` values parsed from text hold no comma or newline |
| Ingest.MigratedIdsClean | src/commands/data/move.ts:147-149 | ids parsed from text hold no comma or newline |
| Ingest.SentinelSampleTables | src/commands/data/move.ts:144-154 | on the sample stream the new-object map keeps `"001"` and `""` with their origin ids, and the legacy map keeps all four keys |
| Reconcile.JoinRows | src/commands/data/move.ts:169-173 | there is one row per entry of the new-object map |
| Reconcile.BuildRows | src/commands/data/move.ts:169-173 | the loop over `values()` builds one row per record, in iteration order: its id, a comma, the matched `CreatedById` |
| Reconcile.JoinRowPolicy | src/commands/data/move.ts:171 | a missing origin id, an unknown one, or a match without `CreatedById` gives `<id>,undefined`, and a match gives `<id>,<CreatedById>` |
| Reconcile.JoinRowFields | src/commands/data/move.ts:171 | a row read back with `split(',')` gives the id and the rendered `CreatedById` |
| Reconcile.RenderedClean | src/commands/data/move.ts:171 | the second column never holds a comma or newline when the legacy map was parsed from text |
| Reconcile.OutputLines | src/commands/data/move.ts:174 | the file read back line by line is the header and then exactly the rows; with no rows it is the header and one newline |
| Reconcile.OutputNoTrailingNewline | src/commands/data/move.ts:174 | the file does not end in a newline when its last row is not empty |
| DataMove.CheckName | src/commands/data/move.ts:89-98 | the name check gives the table's legacy name, or for an unknown name the listing of supported names |
| DataMove.Transfer | src/commands/data/move.ts:106-174 | the two streams, the two maps and the join give the output text of the reference pipeline |
| DataMove.Run | src/commands/data/move.ts:89-174 | a run on the streamed chunks ends exactly as the reference pipeline `Move` does on their concatenations |
| DataMove.UnsupportedName | src/commands/data/move.ts:89-97 | an unsupported name issues no query and prints every supported name in table order, one per line |
| DataMove.SupportedName | src/commands/data/move.ts:98-174 | a supported name queries `Id,CreatedById` of its legacy object and `Id,Origin_Id__c` of itself where the origin is not null, and writes `<name>.csv` |
| DataMove.WrittenText | src/commands/data/move.ts:169-174 | the file has the header, then one line per new-object record in iteration order, holding its id and its rendered match; with no records the second line is empty, and with records the file does not end in a newline |
| DataMove.RowOfEntry | src/commands/data/move.ts:171 | the `i`-th row holds no newline and reads back as the `i`-th key and its rendered match |
| DataMove.RowsReadBack | src/commands/data/move.ts:169-173 | every row holds no newline and reads back as its key and its rendered match |
| DataMove.TextEnd | src/commands/data/move.ts:174 | with at least one new-object record the file does not end in a newline |
| Reconcile.LastRowNonEmpty | src/commands/data/move.ts:171 | every row holds at least the comma between its columns, so the last row is not empty |
| Reconcile.LegacySentinelsHarmless | src/commands/data/move.ts:117-171 | the kept `"Id"` and `""` keys of the legacy map change no row whose origin id is neither of them |
| Reconcile.HeaderReachedByOrigin | src/commands/data/move.ts:117-171 | an origin id `"Id"` matches the legacy header line and gives its second field, where the pruned map would give `undefined` |
| JsText.Split | src/commands/data/move.ts:120-121 | `split` on a one-character separator as JavaScript defines it: at least one piece, the empty text giving one empty piece (pieces and their count stated by `SplitCount`, `JoinSplit`) |
| JsText.Join | src/commands/data/move.ts:174 | `join` as JavaScript defines it: the empty list gives the empty text, and the parts are separated by the separator (its inverse is `SplitJoin`) |
| JsMaps.OMap.Put | src/commands/data/move.ts:123 | `set`: a new key goes last, an old key keeps its place and takes the new value; well-formedness is kept |
| JsMaps.OMap.Remove | src/commands/data/move.ts:153-154 | `delete`: the key leaves the order and the contents; well-formedness is kept |
| JsMaps.OMap.Values | src/commands/data/move.ts:170 | `values()`: one value per key, in iteration order |
| JsMaps.Empty | src/commands/data/move.ts:85-86 | `new Map()`: a well-formed map with no keys |
| JsMaps.PutAll | src/commands/data/move.ts:73-83 | a run of `set`s in entry order, keeping the map well formed |
| JsMaps.JsMap.Get | src/commands/data/move.ts:98 | `get` gives a value exactly for a present key, and then the stored one; `undefined` otherwise |
| Chunks.Concat | src/commands/data/move.ts:118 | `chunks.join('')`: the chunks one after another |
| Translation.Table | src/commands/data/move.ts:73-83 | `new Map(entries)` of the seven pairs written (contents stated by `TableContents`) |
| Translation.Listing | src/commands/data/move.ts:93 | each name followed by a newline, in order (read back by `ListingLines`) |
| Ingest.LineKeys | src/commands/data/move.ts:120-123 | field 0 of every line, one per line |
| Ingest.LegacyEntries | src/commands/data/move.ts:120-123 | one `set` per line: key field 0, record of fields 0 and 1 |
| Ingest.MigratedEntries | src/commands/data/move.ts:147-150 | one `set` per line: key field 0, record of fields 0 and 1 |
| Ingest.LegacyTable | src/commands/data/move.ts:117-126 | `MapACCL` once the first stream has ended (stated by `LegacyTableKeys`, `LegacyTableLastWins`, `LegacyTableOrder`) |
| Ingest.MigratedSet | src/commands/data/move.ts:147-152 | `MapCG` before the two deletions (keys stated by `MigratedSetKeys`) |
| Ingest.MigratedTable | src/commands/data/move.ts:144-158 | `MapCG` once the second stream has ended (stated by `MigratedTableKeys`, `MigratedSentinelsGone`, `MigratedTableLastWins`, `MigratedTableOrder`) |
| Reconcile.MatchedCreatedBy | src/commands/data/move.ts:171 | `MapACCL.get(orig)?.CreatedById`: `undefined` for a missing origin id, an unknown one, or a legacy record without a second field (stated by `JoinRowPolicy`) |
| Reconcile.Render | src/commands/data/move.ts:171 | string concatenation renders `undefined` as the text `undefined` |
| Reconcile.JoinRow | src/commands/data/move.ts:171 | `f.Id + ',' + <match>` (stated by `JoinRowPolicy`, `JoinRowFields`) |
| Reconcile.OutputText | src/commands/data/move.ts:174 | the header, a newline, then the rows joined by newlines (read back by `OutputLines`) |
| DataMove.LegacyQuery | src/commands/data/move.ts:100 | the legacy query text (stated by `SupportedName`) |
| DataMove.NewQuery | src/commands/data/move.ts:128 | the new-object query text (stated by `SupportedName`) |
| DataMove.Move | src/commands/data/move.ts:89-174 | the whole run as a function: the listing for an unknown name, otherwise the two queries, the file name and the file text (stated by `UnsupportedName`, `SupportedName`, `WrittenText`) |
| Ingest.Lines | src/commands/data/move.ts:120 | `content.split('\n')` (pieces stated by `SplitCount`, `SplitTrailingSep`, `JoinSplit`) |
| Ingest.Row | src/commands/data/move.ts:121 | `frow.split(',')` (fields read back by `JoinRowFields`, kept clean by `FieldsClean`) |
| Ingest.Key | src/commands/data/move.ts:123 | `row[0]`, the key each line is `set` under; it always exists because `split` gives at least one piece |
| Ingest.LegacyEntry | src/commands/data/move.ts:122-123 | the key `row[0]` and the record `{Id: row[0], CreatedById: row[1]}` of one line |
| Ingest.MigratedEntry | src/commands/data/move.ts:149-150 | the key `row[0]` and the record `{Id: row[0], ULTEST__Orig_Id__c: row[1]}` of one line |
| Chunks.ChunkList.constructor | src/commands/data/move.ts:107 | a new chunk array is empty |
| Chunks.ChunkList.Content | src/commands/data/move.ts:118 | the `'end'` handler's `chunks.join('')` of the chunks collected (stated by `ReadAll`, `ConcatRechunk`) |
| Ingest.MigratedSetKeys | src/commands/data/move.ts:147-151 | before the deletions, the new-object map's keys are exactly the lines' first fields, and each record's id is its key |

## Left out

- The org connection (API version 58.0, line 50) and the flag parsing (lines 38–49) are left out. The `--name` value is a parameter.
- The bulk query API, the poll timeout of 300000 ms (line 102) and the log lines are left out. A query is modelled by the query text it is issued with and by the chunks its result stream delivers.
- The stream events and the asynchrony are left out. Each stream's `'readable'` calls together are modelled as one drain of all its chunks in order, and `'end'` as running after the last chunk.
- The two streams run concurrently in the code. The model processes them one after the other. This is equivalent, because each handler touches only its own chunk list and map.
- The wait loop with `sleep(5000)` (lines 160–166) is left out. The model starts the join once both handlers have run. It does not model a stream that never ends.
- `writeFileSync` is left out: the model gives the file name and the text to be written. `this.exit(1)` is modelled as the `Unsupported` outcome, which carries the message printed before it.
- Chunks are modelled as strings. The code never passes a stream encoding, so a chunk may be a `Buffer`. The model does not capture a multi-byte character split between two chunks.
- The commented-out insert and delete code (lines 52–68) and the fixed `path` the command returns (lines 178–180) are left out. Neither affects the output.
- CSV quoting is not interpreted, because the code does not interpret it either: a quoted field that contains a comma is split at that comma, as in the code.
