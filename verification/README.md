# Verified model of the taco catalog storage engine

This project models the part of a small database that stores rows as bytes: the record layout and codec
(`Schema`), the in-memory record files with their iterators, the catalog cache above them, and the tokenizer of the
file from which the catalog is initialized. It also models the blank-padded `CHAR` comparisons. All files are given
to Dafny together (`dafny verify dfyconfig.toml`).

- `base.dfy`: 16-bit signed offsets with their wrap-around, `TYPEALIGN`, `AddWithCheck`, bytes, bits and 16-bit cells;
  `align_template.dfy`: the alignment template as written; `digits.dfy`: by-value data as bytes.
- `codec.dfy`: what a well-formed payload is (`Encodes`, over the unbounded integers), and the writer with every
  conversion it performs (`Write16`). `codec_write.dfy` connects the two, `codec_read.dfy` shows that the reader
  recovers the writer's offsets and values, `records.dfy` holds the consequences, the limits of the promises, and
  records in slots.
- `layout.dfy`: the layout compiler as a function of the columns, when its tables are usable, and the codec theorems
  for rows in field order. `layout_laws.dfy`: that no room is wasted. `schema.dfy`: the class `Schema` with its loops and
  buffer, proved to compute all this.
- `roundtrip.dfy`: which schemas keep every row. `stray_nulls.dfy`: NULLs where the schema does not allow them.
- `slotfile.dfy`: the slotted file as a map from record id to bytes, and iteration under updates.
- `initcat.dfy`: the initialization rewrite of the systable `Table`.
- `oid.dfy`: id allocation over all interleavings of any number of threads.
- `entries.dfy`: the catalog as lists of entries, referential integrity, table descriptions, whole runs. `asked.dfy`: the
  rows that a call of `AddTable` or `AddIndex` asks for, in terms of its arguments alone.
  `entrycodec.dfy`: the catalog structs as records. `catalog.dfy`: the catalog cache as a state machine over files.
  `record_limits.dfy`: which entries, tables and indexes there is room for. `agreement.dfy`: what was added is found
  again, and when it is not. `seed.dfy`: a smallest catalog, opened, and the findings happening in it.
- `tokenizer.dfy`, `initfile.dfy`: tokens and lines of the init file. `startup.dfy`: from the init file to the cache
  invariant. `written_init.dfy`: init files written from a catalog.
- `charorder.dfy`: `CHAR` values as an order. `char_column.dfy`: `CHAR` values in a record.

Storage is modelled on bytes. Each `.dfy` file that follows a loop or an updating object of the source has methods
or a class of the same shape, and functions that specify them. The class `Schema` is proved to compute the functions
of `layout.dfy` and `codec.dfy`; the class `CatCache` uses those functions directly. A few definitions are stated
behind a key (`Base.Key`), which only keeps the solver from unfolding them where they are not needed.

Conventions: `ASSERT` is modelled as compiled out. `LOG(kError)` and `LOG(kFatal)` are result values. Bytes are
little-endian. A vector is a sequence held in a field. Where an access would leave the payload or a length would be
negative the writer's result is `Corrupt`.

What the code does differently from its own words, or where a promise ends, with the exact condition:

- include/catalog/Schema.h:277-279 promises -1 when the buffer would exceed the maximum offset. From an empty buffer
  this holds for values of at most 32761 bytes and fails for longer ones (`DetectsOverflowUpTo`); behind a non-empty
  buffer it fails always (`HonoursLimitOnlyWithoutPrefix`).
- From 16384 variable-length fields on the size of the end array wraps before it is checked (`LayoutUsable`). No row of
  such a schema is ever written (`WrapNeverWrites`). The layout of as many plain strings is computed, and every row is
  then refused as too long (`ManyStrings`).
- Every row that fits comes back from its payload if and only if there are fewer than 16384 variable-length fields and
  `BitsFit` holds, or no row fits at all (`AllComeBackExactly`, for every schema with a layout). `BitsFit` says that the
  null bits are distinct and lie in front of the end array, where the byte that pads the bitmap counts as room
  (`NullBitsSound`). It can fail only if a nullable variable-length field comes
  behind a non-nullable one: three columns are enough for two fields to share a bit (`TwoSharingLoses`), and a nullable
  string behind 16 others has its bit in the end array (`StringsThenNullableComeBack`). The comment at
  src/catalog/Schema.cpp:190-194 lists the bits of fixed fields first; the code puts the variable-length ones first.
- NULL in a non-nullable field is rejected if and only if the field is of fixed length (`RowRejectedExactly`). In one of
  variable length it sets the top bit of the byte in front of the bitmap, and a fixed field that ends there with that
  bit clear does not read back as stored; the NULL itself reads back as the empty string, all other fields as stored
  (`StrayNullDamages`, `DamagedRow`). If the bitmap is at the very front the writer leaves the payload.
- With more than 32767 columns `AddTable` does not look up the types; it takes an id and then throws, so the id is lost,
  exactly if the arguments are not refused (`AddTable`, `WideTakesId`, `WideCallTakesId`, `WideCallHappens`).
- `AddTable` does not look at type parameters. A table that it added is found by `FindTableDesc`, then or after any later
  operations, if and only if no column has a `CHAR` length above 32767; otherwise the layout of its descriptor fails for
  ever (`LengthsKnownEverAfter`, `AddTableThenFind`, `LongCharAdded`, `LongCharHappens`).
- `AddIndex` does not refuse a negative column number; it reads outside the column table exactly if the key columns
  before it are good (`AddIndex`, `OneNegativeKey`). In the same way it uses a null row for a function id that does not
  exist (`OneUnknownFunction`). It accepts an index without key columns, and for exactly these `FindIndexDesc` uses a null
  key schema, then and after any later operations (`AddIndexThenFind`, `NoKeyIndexAdded`, `NoKeyIndexHappens`).
- A second section of a table in the init file goes to a file that the map does not know (`SecondSectionUnmapped`).
- The table id 0 stands for no table, but a section may have it: the section behind it then gets no file of its own and
  is not in the map; its records go to the file of the first (`ZeroTakesNext`).
- A `data` line in front of any `table` line, a `table` line without columns, and no other line make the reader of the
  init file use a null schema (`NullSchemaExactly`, `DataWithoutTable`, `TableWithoutColumns`). An unknown type on a
  `table` line makes it use a null type, and a `CHAR` length above 32767 raises an error that `next` does not catch
  (`SchemaAcceptedExactly`).
- `string_equal_ci` ignores more than case for strings with a NUL before their last byte (`IgnoresOnlyCaseExactly`).

## Model

| member | source | states |
|---|---|---|
| AlignTemplate.TemplateIsTypeAlign | include/base/tdb_base.h:310-314 | the 64-bit detour of the alignment template is rounding up followed by 16-bit wrap-around |
| Base.AddWithCheckExact | include/base/tdb_base.h:337-346 | for non-negative operands the check is exact and the sum does not wrap |
| Base.CellBytes | src/catalog/Schema.cpp:403-450 | an entry of the end array is stored with its low byte first |
| CodecWrite.WriteFits | src/catalog/Schema.cpp:356-459 | behind any prefix, a row that fits is written as its well-formed payload with its unbounded length |
| CodecWrite.WriteExact | src/catalog/Schema.cpp:356-459 | from an empty buffer, with values of at most 32761 bytes, -1 exactly when the unbounded length exceeds 32767, else the payload |
| CodecRead.NullRead | src/catalog/Schema.cpp:463-474 | the null bit read for a field says exactly whether the row has NULL there |
| CodecRead.ScanRefines | src/catalog/Schema.cpp:305-324 | scanning null bits and lengths of nullable fixed fields gives the writer's running offset |
| CodecRead.ReadRangeRefines | src/catalog/Schema.cpp:257-331 | the reader's offset and length of every non-null field are the place and length the writer used |
| CodecRead.ReadFieldExact | src/catalog/Schema.cpp:476-496 | reading a field of a payload gives its datum as stored, whatever lies behind the payload |
| CodecRead.RoundTrip | src/catalog/Schema.cpp:352-506 | every field of a payload with stale bytes behind it reads back, in storage order |
| Digits.LowBytesRead | include/base/datum.h:583-596 | the bytes of a by-value datum read back as the datum modulo 256 to its length |
| Digits.LowByteAt | include/base/datum.h:583-596 | byte k of a by-value datum is its digit k to the base 256 |
| Digits.BitPlace | src/catalog/Schema.cpp:397-400 | null bit i has the weight 2 to the i modulo 8 in byte i / 8 of the bitmap |
| Records.PayloadUnique | src/catalog/Schema.cpp:366-459 | rows that store the same bytes have the same payload, padding included |
| Records.ReencodeExact | src/catalog/Schema.cpp:352-506 | decoding a payload and writing the row again reproduces it byte for byte |
| Records.FixedReplacementLocal | src/catalog/Schema.cpp:377-394 | changing one non-nullable fixed field keeps the length and all bytes outside that field |
| Records.RegionsDisjoint | src/catalog/Schema.cpp:372-450 | non-null fields occupy disjoint ranges in storage order |
| Records.RegionPlaced | src/catalog/Schema.cpp:372-459 | each lies inside the payload, clear of bitmap and end array, at a multiple of its alignment |
| Records.SharedBitLosesField | src/catalog/Schema.cpp:397-400 | if a NULL shares its bit with a non-null field, that field is read as NULL |
| Records.OverflowMissed | src/catalog/Schema.cpp:412-459 | with values of 32761 and 32762 bytes the writer returns length 0 |
| Records.DetectsOverflowUpTo | src/catalog/Schema.cpp:412-459 | overflow is detected for all rows with values up to a bound if and only if the bound is at most 32761 |
| Records.HonoursLimitOnlyWithoutPrefix | src/catalog/Schema.cpp:359-366 | -1 exactly when prefix and payload exceed 32767 together holds if and only if the prefix is empty |
| StrayNulls.RowRejectedExactly | src/catalog/Schema.cpp:377-384 | a row is rejected for its NULLs if and only if one is in a non-nullable fixed-length field |
| StrayNulls.StrayNullDamages | src/catalog/Schema.cpp:397-409 | with NULLs in non-nullable variable-length fields the row is written, and what every field reads back as: such a NULL as the empty string, a fixed field that ends at the bitmap with its top bit clear as another value, all others as stored; with nothing in front of the bitmap the writer leaves the payload |
| StrayNulls.DamagedRow | src/catalog/Schema.cpp:397-409 | the byte 0 next to a NULL string reads back as 128 |
| Layout.OrderIsStablePermutation | src/catalog/Schema.cpp:94-219 | the reorder index is a permutation that keeps id order inside each class of fields |
| Layout.ShapeOfLayout | src/catalog/Schema.cpp:94-235 | a computed layout has fields in their regions, aligned and without overlap |
| Layout.LayoutUsable | src/catalog/Schema.cpp:227-233 | a computed layout is sound if and only if there are fewer than 16384 variable-length fields |
| Layout.LayoutExact | src/catalog/Schema.cpp:156-235 | then the layout is computed if and only if the unbounded offsets fit into 16 bits |
| LayoutLaws.LayoutTight | src/catalog/Schema.cpp:85-236 | no room is wasted: each non-nullable fixed field begins at the first aligned place behind those before it, then come the bitmap of the least size, the end array at the next even place and the data, or, if there is nothing else, the next multiple of 8; and which null bit each field has |
| Layout.NullBitsSound | src/catalog/Schema.cpp:195-225 | null bits are distinct and in front of the end array if and only if BitsFit; the prefix condition suffices |
| Layout.WriteRowFits | src/catalog/Schema.cpp:352-460 | a row in field order that fits is written as its payload |
| Layout.WriteRowExact | src/catalog/Schema.cpp:352-460 | exact overflow detection for a row in field order |
| Layout.RowRoundTrip | src/catalog/Schema.cpp:352-506 | dissembling a slot that starts with the payload of a row gives back the row, NULLs included |
| RoundTrips.AllComeBackExactly | src/catalog/Schema.cpp:195-225 | for every schema with a layout: every row that it accepts and that fits comes back from its payload if and only if there are fewer than 16384 variable-length fields and BitsFit holds, or no row fits |
| RoundTrips.BitInEndsLoses | src/catalog/Schema.cpp:397-409 | a null bit in the end array loses a row: an empty string reads as NULL, or a NULL changes the length of an earlier field |
| RoundTrips.StringsThenNullableComeBack | src/catalog/Schema.cpp:202-205 | n strings and a nullable one have a layout except for n = 16382, and keep all rows that fit if and only if n is below 16, or from 16379 to 16381, where no row fits |
| RoundTrips.TwoSharingLoses | src/catalog/Schema.cpp:202-216 | with a string, a nullable string and a nullable byte, an empty string next to a NULL byte is lost |
| RoundTrips.ManyStrings | src/catalog/Schema.cpp:227-233 | the layout of n strings is computed for every n; from 16384 on every row is refused as too long |
| RoundTrips.WrapNeverWrites | src/catalog/Schema.cpp:356-459 | with 16384 or more variable-length fields no row is ever written, whatever the other fields; if the data region begins in front of the payload every row is refused as too long |
| Schemas.LayoutAgain | src/catalog/Schema.cpp:85-236 | a second computation, from what the first has left in the field table, ends alike and with the same tables |
| Schemas.Schema.constructor | src/catalog/Schema.cpp:32-52 | the declared types, parameters, nullability and names are stored |
| Schemas.Schema.MeasureFields | src/catalog/Schema.cpp:100-166 | the first loop: types, offsets of fixed fields, counters, head of the reorder index; each field has the length, alignment and passing of its type, a CHAR that of its parameter |
| Schemas.Schema.AssignOrder | src/catalog/Schema.cpp:195-219 | the second loop: rest of the reorder index and all null bits |
| Schemas.Schema.ComputeLayout | src/catalog/Schema.cpp:85-236 | succeeds exactly when no length function raises and no offset overflows; then all tables are those of the layout function, and each field has length -1, its type parameter or its type's length, as its type is |
| Schemas.Schema.WritePayloadToBuffer | src/catalog/Schema.cpp:352-460 | returns what the 16-bit writer function returns and appends its payload to the aligned old contents |
| Schemas.Schema.GetOffsetAndLength | src/catalog/Schema.cpp:248-332 | computes the reader's range of the field at its storage position |
| Schemas.Schema.GetField | src/catalog/Schema.cpp:476-496 | reads the field at its storage position |
| Schemas.Schema.DissemblePayload | src/catalog/Schema.cpp:498-506 | returns the row of the payload in field order |
| Schemas.WriteAndDissemble | src/catalog/Schema.cpp:352-506 | on the object: a row that fits is written to an empty buffer and dissembled from it as stored |
| CharColumn.CharTyped | src/catalog/Schema.cpp:136-141 | a CHAR field takes the strings of its parameter's length and no others |
| CharColumn.CharThroughRecord | src/utils/typsupp/char.cpp:18-103 | a string put into a CHAR column next to any other values is accepted exactly if it fits, and the written record gives it back without its trailing blanks |
| Records.PayloadReads | src/catalog/Schema.cpp:352-506 | a payload with anything behind it reads as the stored row, and is that row's payload |
| Records.RewriteExact | src/catalog/Schema.cpp:352-506 | writing the row read from a slot gives the front of the slot, whatever stale bytes follow |
| Records.ReplaceFixed | src/catalog/Schema.cpp:377-394 | fixed-field replacement is local, for rows in field order |
| SlotFile.AppendRefines | src/catalog/VolatileCatCache.cpp:78-95 | appending adds one binding under a fresh id to the map of live records |
| SlotFile.PaddedExactly | src/catalog/VolatileCatCache.cpp:78-95 | a new slot holds the record and fewer than eight zeros, up to a multiple of eight |
| SlotFile.UpdateRefines | src/catalog/VolatileCatCache.cpp:158-185 | updating replaces a record in place or moves it to a fresh id; no other record changes |
| SlotFile.IterationComplete | src/catalog/VolatileCatCache.cpp:98-134 | under any interleaved updates and appends an iteration returns the records live at its creation, once, in order, unchanged |
| SlotFile.ValidIdsExact | src/catalog/VolatileCatCache.cpp:125-131 | the ids it is compared with are exactly the valid slots in increasing order |
| SlotFile.ExhaustedStays | src/catalog/VolatileCatCache.cpp:116-134 | an iterator that returned false returns false again |
| SlotFile.InmemFile.AppendRecord | src/catalog/VolatileCatCache.cpp:71-96 | the new slot id, or failure at 65534 records; the file becomes the appended one |
| SlotFile.CatFileIterator.NextCatEntry | src/catalog/VolatileCatCache.cpp:116-134 | moves to the next valid slot or behind the end |
| SlotFile.CatFileIterator.GetCurrentCatEntry | src/catalog/VolatileCatCache.cpp:136-146 | returns the bytes of the current live slot |
| SlotFile.CatFileIterator.UpdateCurrentCatEntry | src/catalog/VolatileCatCache.cpp:158-185 | replaces the current record and returns the id it now has |
| InitCatalog.RewriteRecord | src/catalog/CatCacheBase_private.inc:204-215 | writing a record back with its file id succeeds, overwrites in place and changes only the four bytes of the id |
| InitCatalog.FinishInitCatalog | src/catalog/CatCacheBase_private.inc:157-216 | the loop completes if and only if all live records are pending; each is visited once, in order, and rewritten in place; otherwise it stops at the first that is not |
| InitCatalog.RewriteComplete | src/catalog/CatCacheBase_private.inc:147-217 | afterwards the same records are live, each reads as its row with the mapped file id, and none is pending |
| OidAllocation.AllocationSafe | src/catalog/CatCacheBase_private.inc:866-885 | over all schedules the ids are consecutive from 20000, at most MaxOid, and the counter never wraps; refusal means exhaustion |
| OidAllocation.FailureMeansProgress | src/catalog/CatCacheBase_private.inc:874-884 | a failed swap means another thread won since the load; failures of a thread are bounded by the wins of the others |
| OidAllocation.GivesUpExactly | src/catalog/CatCacheBase_private.inc:876-878 | a thread gives up exactly if it saw the counter behind the last id |
| Tokenizer.Reader.FindNextToken | src/catalog/InitDataFileReader.cpp:148-229 | both paths return the token of one recursive definition and the next position, or nothing and the old position |
| Tokenizer.QuotedExactly | src/catalog/InitDataFileReader.cpp:159-213 | what is accepted at a quote is exactly a properly closed quoted form of the returned text, at most 4096 characters if escaped |
| Tokenizer.SliceIsText | src/catalog/InitDataFileReader.cpp:175-177 | without an escape the text is the slice between the quotes |
| Tokenizer.QuotedReadsBack | src/catalog/InitDataFileReader.cpp:159-213 | a quoted token is read back if and only if it needs no escape or has at most 4096 characters |
| Tokenizer.LineRoundTrip | src/catalog/InitDataFileReader.cpp:148-229 | tokens written on a line, joined by single blanks, are read back in order |
| InitFile.InitDataFileReader.ReadData | src/catalog/InitDataFileReader.cpp:47-85 | a data line stores the row whose value i is what the input function of column i makes of token i; it is an error if the number of tokens is wrong, one is not accepted or the row is too long |
| InitFile.InitDataFileReader.ReadTypes | src/catalog/InitDataFileReader.cpp:94-116 | a table line gives its columns exactly if its tokens are pairs of numbers of 32 and 64 bits, pair i for column i |
| InitFile.InitDataFileReader.Next | src/catalog/InitDataFileReader.cpp:20-141 | one line per call, end of file and errors are final, and the line is taken in as its tokens say; null schemas, null types and raised lengths do not return |
| InitFile.LineExactly | src/catalog/InitDataFileReader.cpp:20-141 | what every line means, by its tokens: a data line its row, a table line its id and columns, all others are errors |
| InitFile.InputsExactly | src/catalog/InitDataFileReader.cpp:58-66 | the row of a data line has the values of its tokens, in order, and none is NULL |
| InitFile.SchemaColsExactly | src/catalog/InitDataFileReader.cpp:118-134 | the columns of the reader's schema have the lengths and alignments of their types and are not nullable |
| InitFile.SchemaAcceptedExactly | src/catalog/Schema.cpp:85-236 | the schema of a table line can be used if and only if it has columns, all of known types, and no length function raises |
| InitFile.NullSchemaExactly | src/catalog/InitDataFileReader.cpp:47-134 | a null schema is used exactly by a data line while there is no schema, and by a table line without columns |
| InitFile.DataWithoutTable | src/catalog/InitDataFileReader.cpp:47-85 | every written data line in front of all table lines uses a null schema |
| InitFile.TableWithoutColumns | src/catalog/InitDataFileReader.cpp:86-134 | a written table line without columns uses a null schema, one with an unknown type a null type |
| InitFile.DataLineReadsBack | src/catalog/InitDataFileReader.cpp:47-85 | a data line written from tokens stores the row with the value of token i in column i |
| InitFile.TableLineReadsBack | src/catalog/InitDataFileReader.cpp:86-134 | a table line written from tokens is taken in exactly as their numbers say, if its schema can be used |
| Startup.LoadInitFile | src/catalog/CatCacheBase_private.inc:85-139 | the loop over the reader computes the loader function on the lines of the file, errors included |
| Startup.SectionsLoaded | src/catalog/CatCacheBase_private.inc:95-136 | nonempty sections of different tables give one file each, with the records in order, and the map takes each table to its file |
| Startup.SecondSectionUnmapped | src/catalog/CatCacheBase_private.inc:117-124 | a second section of a table makes a file that is not in the map |
| Startup.StopsAt | src/catalog/CatCacheBase_private.inc:132-135 | loading stops at a bad line and at one that does not return, behind any sections |
| Startup.EmptySection | src/catalog/CatCacheBase_private.inc:104-113 | a section without records is a fatal error if another one follows, and nothing at the end of the file |
| Startup.TooManyRecords | src/catalog/CatCacheBase_private.inc:117-131 | a section with more than 65534 records does not fit into a file |
| Startup.ZeroTakesNext | src/catalog/CatCacheBase_private.inc:104-124 | the section behind one with table id 0 goes to the same file and is not in the map |
| Startup.FinishInit | src/catalog/CatCacheBase_private.inc:143-231 | afterwards the files hold the catalog with the file ids of all tables, and the file id of Table is returned |
| Startup.InitializeFromInitData | src/catalog/CatCacheBase_private.inc:364-385 | from an init file that holds a catalog with integrity: load, rewrite and minimal cache establish the cache invariant over that catalog |
| WrittenInit.TextReadsBack | src/catalog/InitDataFileReader.cpp:30-43 | a file written from lines is read as those lines |
| WrittenInit.EntriesWrittenRead | src/catalog/InitDataFileReader.cpp:47-134 | lines written from the entries of a systable are read as its columns and as records that hold the entries |
| WrittenInit.WrittenIsInitData | src/catalog/InitDataFileReader.cpp:20-141 | a file written from a catalog is read as sections that hold the catalog |
| WrittenInit.InitializeFromWritten | src/catalog/CatCacheBase_private.inc:364-385 | starting up from a file written from a catalog establishes the cache invariant over that catalog |
| CharOrder.RemoveTrailingSpace | src/utils/typsupp/char.cpp:11-16 | returns the prefix that ends in no blank and is followed by blanks only |
| CharOrder.CharToVarchar | src/utils/typsupp/char.cpp:76-103 | the conversion drops the trailing blanks and keeps the first bytes up to the limit, if there is one |
| CharOrder.CharIn | src/utils/typsupp/char.cpp:18-44 | succeeds exactly if the trimmed string fits; the value has full length and the same trimmed string |
| CharOrder.InThenVarchar | src/utils/typsupp/char.cpp:18-103 | input and conversion to VARCHAR drop the trailing blanks only, or keep the prefix up to the limit; without a limit input of the result gives the same value again |
| CharOrder.CompareCiIsOrder | include/utils/string_utils.h:17-29 | string_compare_ci is the lexicographic order of the lower-cased strings, blind behind the first NUL except for length |
| CharOrder.EqualCiIsCompare | include/utils/string_utils.h:31-37 | string_equal_ci is string_compare_ci being 0 |
| CharOrder.IgnoresOnlyCaseExactly | include/utils/string_utils.h:31-37 | equality modulo case against every string holds if and only if there is no NUL before the last byte |
| CharOrder.Trichotomy | src/utils/typsupp/char.cpp:105-171 | NULL in, NULL out; otherwise exactly one of less, equal and greater, and less-or-equal is their union |
| CharOrder.StrictWeakOrder | src/utils/typsupp/char.cpp:139-154 | less-than is irreflexive and transitive, and equal values are interchangeable, for both forms |
| CharOrder.LessExactly | src/utils/typsupp/char.cpp:139-154 | less-than is the dictionary order of the bytes without trailing blanks: a proper prefix or a smaller byte at the first difference; in lower case for the case-insensitive form, as far as there are no NULs |
| CharOrder.LowerExactly | include/utils/string_utils.h:17-37 | two bytes are the same in lower case exactly if they are equal or the two cases of a letter |
| CharOrder.Classes | src/utils/typsupp/char.cpp:105-120 | equality is equality modulo trailing blanks, and modulo case for NUL-free strings in the case-insensitive form |
| CharOrder.PaddingInvisible | src/utils/typsupp/char.cpp:18-44 | a padded value compares with everything exactly as the string it was made of |
| Entries.AddTableKeepsIntegrity | src/catalog/CatCacheBase_private.inc:643-683 | a new table with 1 to 32767 columns of existing types keeps referential integrity and touches no older id |
| Entries.DescriptionUnique | src/catalog/TableDesc.cpp:11-34 | under integrity the catalog describes a table in one way only |
| Entries.AddTableDescribed | src/catalog/CatCacheBase_private.inc:648-683 | the description of a new table is exactly the arguments, in order |
| Entries.AddIndexKeepsIntegrity | src/catalog/CatCacheBase_private.inc:828-863 | a new index whose keys come from the table's description keeps integrity, types and nullability included |
| Entries.AddIndexDescribed | src/catalog/CatCacheBase_private.inc:828-863 | the key schema of a new index is exactly that of the columns asked for; it has none exactly if none were asked for |
| Entries.IndexDescribedEverAfter | src/catalog/CatCacheBase_private.inc:472-545 | after AddIndex and any later operations the key schema is that of the table columns asked for, it has none exactly if none were asked for, and the table is still described as it was |
| Entries.RunKeepsIntegrity | src/catalog/CatCacheBase_private.inc:580-864 | integrity holds after every run of additions, and nothing about an older id ever changes |
| Entries.DescribedEverAfter | src/catalog/CatCacheBase_private.inc:648-683 | after AddTable and any later operations the rows describe the table by the arguments of the call and nothing else |
| EntryCodec.SystablesUsable | src/catalog/systables/Table.inc:1-7 | the layout of every modelled systable can be computed and used |
| EntryCodec.CreateStored | include/base/datum.h:364-435 | reading back the stored datum vector of a catalog struct gives the struct |
| EntryCodec.FieldsInOrder | src/catalog/systables/Table.inc:1-7 | which field of each struct is stored in which column |
| EntryCodec.EncodeExact | src/catalog/CatCacheBase_private.inc:1173-1178 | an entry with a name of at most 32761 bytes is refused exactly if its payload exceeds 32767 bytes, else written as its payload |
| Catalog.CreateDeclared | src/catalog/TableDesc.cpp:11-27 | column rows in any order are scattered to the vectors by column id |
| Catalog.CatCache.GetOrCreateCachedEntry | src/catalog/CatCacheBase_private.inc:916-929 | returns the entry that the record holds, cached or not, and keeps the cache coherent |
| Catalog.CatCache.ScanForFirst | src/catalog/CatCacheBase_private.inc:1114-1152 | returns the entry of the first matching record |
| Catalog.CatCache.ScanForAll | src/catalog/CatCacheBase_private.inc:1118-1154 | returns the matching entries in order, stopping at the expected number |
| Catalog.CatCache.FindByOid | include/catalog/CatCacheBase.h:276-285 | through cache and descriptor, what an uncached first-match scan finds |
| Catalog.CatCache.FindTableDesc | src/catalog/CatCacheBase_private.inc:405-468 | the cached or newly built descriptor is the described one; missing exactly if there is no table; never a count mismatch under integrity |
| Catalog.CatCache.LoadMinCache | src/catalog/CatCacheBase_private.inc:251-290 | one scan that stops at the third wanted record establishes the cache invariant |
| Catalog.SortedKeys | src/catalog/CatCacheBase_private.inc:508-531 | key columns sorted by number make the key schema of the index |
| Catalog.CatCache.FindIndexDesc | src/catalog/CatCacheBase_private.inc:472-545 | the cached or newly built descriptor with the key schema and its layout; missing exactly if there is no index, a null key schema exactly if it has no key columns, a layout error exactly if a length is not known; never a count mismatch under integrity |
| Catalog.CatCache.InsertCatalogEntries | src/catalog/CatCacheBase_private.inc:1157-1184 | succeeds exactly if every record fits and there are slots; then the files hold the old entries and the new ones |
| Catalog.CatCache.AllocateOid | src/catalog/CatCacheBase_private.inc:866-885 | without interference the next id, or InvalidOid without any change when there is none |
| Catalog.CatCache.AddTable | src/catalog/CatCacheBase_private.inc:580-686 | an ordinary error exactly for the refused arguments, with files and counter unchanged; an id lost, and nothing else changed, exactly for more than 32767 columns; success exactly if all rows fit, and then the row of the table and one for each column are added as the arguments say, parameter 0, nullable, no array and the name col_ and the number where nothing is given; always with the invariant |
| Catalog.RefusesExactly | src/catalog/CatCacheBase_private.inc:589-667 | the refused arguments: no file, no or more than 65535 columns, a vector of another size modulo 65536, an unknown type (with at most 32767 columns), a used-up counter |
| Catalog.WideTakesId | src/catalog/CatCacheBase_private.inc:589-667 | with more than 32767 columns what is refused are vectors of another size, a missing file and a used-up counter, and nothing else |
| Catalog.WideCallTakesId | src/catalog/CatCacheBase_private.inc:589-667 | a call with 32768 types, known or not, and vectors of the same size takes an id |
| Catalog.CatCache.AddIndex | src/catalog/CatCacheBase_private.inc:688-864 | refusal, the read outside the columns, the use of a null function row, and success each exactly under their conditions; success adds the row of the index, by default named after the table and all its columns, and one for each key column with its type, parameter, nullability and the two functions asked for or else those of the type; it keeps the invariant |
| Catalog.IndexAcceptedExactly | src/catalog/CatCacheBase_private.inc:716-735 | what is left of index types and files: an index in memory without a file or a B-tree with one, on at most 32767 columns |
| Catalog.CheckKeysExactly | src/catalog/CatCacheBase_private.inc:748-817 | the key loop passes exactly if all key columns are columns of the table with comparison functions for their types, with the functions asked for or else those of the type, and otherwise ends as the first one that is not says |
| Catalog.OneNegativeKey | src/catalog/CatCacheBase_private.inc:749-756 | one key column -1 is not refused, the number behind the last column is |
| Catalog.OneUnknownFunction | src/catalog/CatCacheBase_private.inc:787-812 | a function id without a row, asked for on a column of the table, makes the loop use a null row |
| Catalog.InitializedTables | src/catalog/CatCacheBase_private.inc:147-217 | the file a completed initialization rewrite leaves is a file of Table entries with the mapped file ids |
| RecordLimits.FitsExactly | src/catalog/CatCacheBase_private.inc:1173-1178 | an entry can be stored if and only if its name is short enough: 32746 bytes in Table, 32734 in Type and Column, 32742 in Index |
| RecordLimits.TableInsertableExactly | src/catalog/CatCacheBase_private.inc:643-683 | the rows of a new table can be appended if and only if there are slots for them and the names are short enough |
| RecordLimits.IndexInsertableExactly | src/catalog/CatCacheBase_private.inc:828-863 | the same for the rows of a new index |
| Agreement.LengthsKnownEverAfter | src/utils/typsupp/char.cpp:61-74 | after AddTable and any later operations the column lengths of the table are known if and only if no parameter in the arguments is too large for its type |
| Agreement.FindAddedTable | src/catalog/CatCacheBase_private.inc:405-468 | after AddTable and any later operations FindTableDesc gives exactly the arguments if no parameter is too large, and the layout error otherwise |
| Agreement.AddTableThenFind | src/catalog/CatCacheBase_private.inc:405-686 | AddTable and then FindTableDesc: added exactly if not refused and there is room; then found exactly if no parameter is too large, with the columns asked for, defaults for what is not given, stored as their types say |
| Agreement.LongCharAdded | src/catalog/CatCacheBase_private.inc:580-686 | a table with one CHAR column of 40000 bytes is not refused, is added exactly if there is room, and is then not found |
| Agreement.KeyLengthsKnownEverAfter | src/catalog/CatCacheBase_private.inc:472-545 | the key columns of an index on a table that can be described have known lengths, then and after any later operations |
| Agreement.FindAddedIndex | src/catalog/CatCacheBase_private.inc:472-545 | after AddIndex and any later operations FindIndexDesc gives exactly the columns asked for, and uses a null key schema exactly if none were |
| Agreement.AddIndexThenFind | src/catalog/CatCacheBase_private.inc:472-864 | AddIndex and then FindIndexDesc: every outcome exactly under its condition, added exactly if there is room, with the rows asked for, and found as asked for |
| Agreement.NoKeyIndexAdded | src/catalog/CatCacheBase_private.inc:688-864 | an index without key columns is not refused, is added exactly if there is room, and finding it then uses a null key schema |
| Seed.Open | src/catalog/CatCacheBase_private.inc:251-296 | the files of a catalog that describes its own systables and the bootstrap descriptors give a cache that satisfies the invariant |
| Seed.LongCharHappens | src/utils/typsupp/char.cpp:61-74 | in that catalog the table with the long CHAR column is added and not found |
| Seed.NoKeyIndexHappens | src/catalog/CatCacheBase_private.inc:472-864 | in that catalog the index without key columns is added, and finding it uses a null key schema |
| Seed.WideCallHappens | src/catalog/CatCacheBase_private.inc:648-667 | in that catalog a call with 32768 columns takes an id and throws |

## Left out

- Schemas.Schema.WritePayloadToBuffer: the contents of the buffer after a failure, because callers discard them.
- Schemas.Schema.constructor: an empty type list, for which the source makes one field and `Create` refuses.
- Schemas.Schema.ComputeLayout: length functions other than `CHAR_typlen`, because the type table has no other.
- SlotFile.InmemFile.AppendRecord: raw pointers into the byte vector and their invalidation by growth.
- Tokenizer.Reader.FindNextToken: the returned view is a copy; in the source it may point into a static buffer that the next call overwrites.
- InitFile.InitDataFileReader.Next: the parser of decimal numbers and the input functions of the types are parameters, and an input function that throws is not modelled; the value of the table id after an error is not stated.
- InitFile.InitDataFileReader.ReadData: the input functions of the types are parameters.
- InitFile.InitDataFileReader.ReadTypes: the parser of decimal numbers is a parameter.
- InitCatalog.FinishInitCatalog: the file id of `Table` is looked up and handed on in `FinishInit`; the meta page itself is not part of this model.
- Startup.InitializeFromInitData: `CreateDBMeta`, the bootstrap catalog and `CheckIndexes`; the file id of `Table` is passed on directly instead of through the meta page.
- Catalog.CatCache.AddTable: it stops with `LongName` for a name above 32761 bytes, where the source goes on with an overflow check that no longer holds; the state after a fatal error is not stated.
- Catalog.CatCache.AddIndex: what the systables of operators and functions hold is a parameter; the state after `OutOfBounds`, where the source reads outside the column table, and after `NullFunction`, where it uses a null row, is that before the call; names as in `AddTable`.
- Catalog.CatCache.LoadMinCache: the caching of the type entries at the end, which only warms the cache; reading the file id of `Table` from the meta page, and its magic number.
- Catalog.CatCache.GetOrCreateCachedEntry: the branch without a buffer (CatCacheBase_private.inc:930-944), which no modelled caller takes.
- Catalog.CatCache.FindIndexDesc: `std::sort` is modelled by what it yields for distinct numbers.
- Catalog.CatCache.FindTableDesc: the sort of the column rows, because the scatter by column id does not depend on their order.
- Catalog.CatCache.FindByOid: searches by name and by several columns follow the same scan.
- Catalog.CatCache.constructor: files of the catalog hold live records only, as the init file loader and the rewrite leave them.
- The other systables (functions, operators): the same code with other columns.
- Index scans: the source only reports that they are not available yet.
- Memory ownership of datums, alignment of raw addresses and pointer stability of the hash maps.
- Memory order of the counter beyond atomic steps; all other operations are modelled without interference.
- Persistent catalog files, buffer management and logging.
- Numbers, floating point, and operators other than the `CHAR` comparisons.
- `strncasecmp` and `memcmp` are modelled by their definitions in the C standard library, on bytes of the C locale.
