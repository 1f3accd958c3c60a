# ip2geo, modelled and proved

ip2geo answers "which record covers this address" from a compact database file.
The file stores sorted range boundaries; the reader builds direct-index tables
over them and searches those. This project models the reader, the validation of
both file formats, the conversion of the older format into the newer one, the
range enumeration and the CSV importer, and proves that they all agree with one
plain meaning:

* the answer for a key is the id of the **last boundary whose start is at or
  below the key**, found by linear scan (`Boundaries.Last`, `Databases.Answer`);
* the addresses of `::/96`, `::ffff:0:0/96`, `2001::/32` and `2002::/16` are
  looked up under the IPv4 address they embed (sections 2.5.5.1 and 2.5.5.2 of
  RFC 4291, section 4 of RFC 4380, section 2 of RFC 3056).

How the pieces fit:

1. `ParseGEO2` accepts a byte sequence exactly when it meets the reader
   requirements (`Geo2Files.WellFormed`), and a well-formed file gives a database
   that is `Valid()` and has `ValidRecords()` (`Opening.WellFormedIsValid`).
   `ParseGEO1` accepts exactly the encodings of well-formed GEO1 databases, and
   the conversion establishes the same two predicates
   (`OpeningGeo1.TranscodeGEO1`).
2. From `Valid()` the index builders establish the jump tables, and from those
   the searches return `Last` (`Readers.Reader.Index4`, `Index6`).
3. `LookupRange` and `Ranges` are described by the same map: `Ranges.Covered` is
   the list the enumeration delivers, and three theorems relate it to lookups.
4. The CSV importer accepts a run of rows exactly when `CsvRuns.Accepted` holds of
   the whole run, and hands the build exactly the pieces of the stored rows.

Addresses are naturals below 2^32 and 2^128, also split into 64-bit halves where
the code works on halves. Fixed-width integers are subset types of the naturals;
every place where the code wraps, truncates or packs bits does so explicitly
here. Classes (`Reader`, `Geo2`, `Cursor`, `CsvReader`, `Builder`, `Consumer`)
and in-place loops follow the source's own form; each is proved against a
specification function and the results are about those functions.

| file | source |
|---|---|
| `words`, `ids` | loads, stores and record ids of `internal/format` |
| `boundaries`, `tables4`, `tables6`, `bitmaps` | boundary tables and the theory of the jump tables |
| `addresses`, `clipping`, `ranges` | alias prefixes, range clipping, enumeration |
| `databases`, `reader`, `details` | the database, its index, searches, ranges and record decoding |
| `packing`, `entries`, `names` | records, extension entries and names written field by field, and what decoding reads back |
| `xlayout`, `geo2dir`, `geo2records`, `geo2tables`, `geo2`, `opening` | GEO2 validation |
| `geo2format`, `geo2write` | the GEO2 file of a database, and that it opens as that database |
| `geo1format`, `geo1parse`, `renumber`, `transcode`, `geo1tables`, `opening1` | GEO1 parsing and conversion |
| `csvscan`, `csvrecords`, `csvrows`, `csvruns`, `csvreader` | the CSV importer |

Where the code and `docs/FORMAT.md` differ, the model follows the code: rule 1
lists the profiles 0, 1 and 2, while the header table and the parser also allow
3 (ASN).

## Model

| member | source | states |
|---|---|---|
| Words.LoadsRead | internal/format/format.go:262-264 | each load is the number of its bytes: little-endian with the low byte first, big-endian with the high byte first |
| Words.Loads64 | docs/FORMAT.md:30-34 | the same for 64-bit loads |
| Words.BigOrder | reader.go:395-398 | numbers of equally many bytes are ordered as their bytes are, the first that differs deciding |
| Boundaries.Last | docs/FORMAT.md:140-142 | the reference meaning of a lookup: the index of the last start at or below the key, -1 when there is none; nothing after it is at or below the key |
| Boundaries.Starts4Meaning | docs/FORMAT.md:142-144 | every boundary lies in exactly one bucket, and its absolute start is the base of that bucket plus its u16 value |
| Boundaries.Starts6Meaning | docs/FORMAT.md:159-163 | the low half of a 128-bit start is the one its exception entry gives, and 0 when it has none |
| Boundaries.TopHalvesSorted | docs/FORMAT.md:161-163 | strictly ascending 128-bit starts force non-decreasing top halves |
| Tables4.SubBucketCut | reader.go:317-333 | where the scan of a top-16 bucket stops is the first boundary at or above the base of the top-20 sub-bucket, over the whole table |
| Readers.Reader.BuildIndex4 | reader.go:317-333 | after the build every entry g of the top-20 table is the number of boundaries below g * 4096 |
| Tables4.WindowCompare | reader.go:189-206 | inside one window comparing the low 16 bits orders keys and starts as comparing whole addresses does |
| Tables4.WindowOfKey | reader.go:189-206 | every boundary before the key's window is at or below it, every one after is above it, and inside the low halves decide |
| Readers.Reader.Index4 | ranges.go:106-120 | the windowed binary search returns `Last` over the absolute starts, for every valid table and every u32 key |
| Readers.Reader.Search4 | reader.go:189-206 | the IPv4 answer is the id of the last boundary at or below the key, 0 when there is none |
| Tables6.V6SlotMeaning | reader.go:391-393 | the slot is the k bits after the top 16, below 2^k, for every k up to 16 |
| Tables6.SlotMonotone | reader.go:391-393 | global slot numbers never decrease as top halves grow, across and inside buckets of different sizes |
| Tables6.L2Bits | reader.go:381-389 | the least k <= 16 with count <= 8 * 2^k, else 16, and 4 * 2^k <= 4 + count |
| Readers.Reader.BuildDir | reader.go:344-361 | the bucket entries tile the slots in order, there are at most 2^16 + n/4 of them, and each packed offset and k fits 32 bits |
| Tables6.AddBucket | reader.go:353-358 | packing an offset and k into one entry unpacks losslessly and keeps the tiling |
| Tables6.SlotCut | reader.go:362-376 | where a bucket's scan stops at slot s is the first start of global slot offset + s or a later one |
| Readers.Reader.FillBucket | reader.go:362-376 | filling one bucket writes for each of its slots the number of starts in all earlier slots, keeps the earlier buckets right, and ends where the next bucket begins |
| Readers.Reader.BuildIndex6 | reader.go:337-377 | after the build every level-2 entry is the number of starts in earlier slots, with no flag set yet |
| Bitmaps.Mark | reader.go:301-306 | setting bit e of the bitmap marks e and no other boundary |
| Tables6.MarkOne | reader.go:301-306 | after j exceptions the bitmap holds exactly those j boundaries, in 64-bit words |
| Readers.Reader.BuildIndex | reader.go:298-312 | the two jump tables, the bitmap of exceptions and the flag of every slot that holds one, together, on fresh tables; every table entry fits 32 bits, flag included, and every bitmap word 64 |
| Tables6.WindowOfKey | reader.go:217-232 | all starts outside the key's slot are strictly on their side of the key's top half, also in empty buckets and the last slot |
| Readers.Reader.V6ExcLo | reader.go:252-264 | the binary search finds the low half of a boundary that has an exception |
| Readers.Reader.V6StepBack | reader.go:244-249 | stepping back over a run of equal top halves ends at `Last` over the 128-bit starts |
| Readers.Reader.Index6 | ranges.go:146-165 | two levels, flag and step-back together return `Last` over the 128-bit starts for every key |
| Readers.Reader.Search6 | reader.go:217-240 | the IPv6 answer is the id of the last boundary at or below the 128-bit key, 0 when there is none |
| Addresses.AliasesAreEmbedded | ranges.go:97-104 | the four blocks the range code carves out are exactly the addresses a lookup sends to the IPv4 table |
| Readers.Reader.Find | details.go:92-107 | the answer by address kind: IPv4 and the four aliases from the IPv4 table, other IPv6 from the IPv6 table, the zero address never |
| Readers.Reader.FormsAgree | docs/FORMAT.md:178-185 | an IPv4 address and each of its IPv6 forms have the same answer and the same looked-up range |
| Readers.Reader.Lookup | reader.go:129-155 | found exactly when the answer is not 0, and then the record it names, in the reader's language; empty for an ASN database |
| Readers.Reader.LookupDetails | details.go:65-75 | found exactly when the answer is not 0, and then the details of the record it names in the reader's language, else nothing |
| Readers.Reader.FillDetails | details.go:151-224 | the record and extension fields with names in the reader's language, or for an ASN database the AS alone, each read in bounds |
| Readers.Reader.AnswerIsRecord | docs/FORMAT.md:203-204 | every answer but 0 is the index of a stored record |
| Details.RowIds | reader.go:266-293 | every string id decode reads from a checked row is in range, the u16 ones too when their check was skipped |
| Packing.RecordRead | docs/FORMAT.md:126-130 | decoding a row written field by field gives each field of the profile back and every other field empty |
| Packing.AsnRead | docs/FORMAT.md:131 | an ASN row reads as its number and its organization |
| Entries.ExtraRead | docs/FORMAT.md:231-244 | every field of an entry written block by block reads back into its own field when its field set is present, and is empty when it is not |
| Entries.EmptyDetails | details.go:65-75 | without an answer, and without a value, every field is empty |
| Names.KindsNamed | docs/FORMAT.md:259-268 | an extra language stores the country name, the region name from the region profile on, the city name for the city profile, and each other name with its field set, in that order |
| Names.NamesRead | details.go:109-121 | each name written for a language is read into its own field, with the primary name where it has none, and nothing else changes |
| Details.NameInside | details.go:130-139 | every name offset localize reads lies in the entry, on a checked name slot |
| Readers.Reader.SetLanguage | details.go:41-63 | succeeds exactly for "" and the listed languages, sets the name offset of every kind, and changes nothing when it fails |
| Readers.Reader.Localize | details.go:130-139 | the name in the reader's language when the entry has one, else the primary name |
| Readers.Reader.NoNames | details.go:109-121 | without extension entries, or in the primary language, localizing changes nothing |
| Addresses.Dec128 | ranges.go:285-290 | the borrow computes the address before a non-zero one |
| Addresses.Inc128 | ranges.go:293-298 | the carry computes the address after one below the last |
| Clipping.ClipMeaning | ranges.go:71-92 | clipping around a key gives the largest interval in the range that holds the key and meets no block, the same for each of its addresses |
| Clipping.ClipHalves | ranges.go:79-91 | the loop on 64-bit halves computes that clipping at the four aliases, and no decrement underflows |
| Readers.Reader.Start4 | ranges.go:125-142 | with any hint, the absolute start of a boundary |
| Readers.Reader.Start6 | ranges.go:169-175 | bitmap and binary search give the absolute 128-bit start of a boundary |
| Readers.Reader.Range4 | ranges.go:55-69 | the boundary range of the key and its id |
| Readers.Reader.Range6 | ranges.go:71-92 | the boundary range of the key cut at the aliases, and its id |
| Ranges.ClippedRangeMeaning | ranges.go:13-22 | a looked-up range holds its key, has one boundary and no alias throughout, is returned for each of its addresses and cannot be extended |
| Ranges.RangesPartition | ranges.go:13-22 | two looked-up ranges that share an address are the same range |
| Readers.Reader.LookupRange | ranges.go:23-45 | the range of the table the address belongs to, found exactly when its answer is not 0; the empty range for the zero address |
| Readers.Reader.LookupRangeMeaning | ranges.go:13-22 | every address of a looked-up range has the asked address's answer, is in the same table and gets the same range |
| Clipping.PartsExact | ranges.go:252-269 | the pieces of a range are exactly its addresses outside the blocks |
| Clipping.PartsOrdered | ranges.go:252-269 | the pieces are non-empty, ascending and maximal |
| Clipping.PartIsClip | ranges.go:252-269 | the piece that holds a key is the range clipped around that key |
| Ranges.YieldUnaliased | ranges.go:252-269 | the loop hands the consumer exactly those pieces, each with the details of the boundary's record, stopping when it stops |
| Readers.Reader.NextStart4 | ranges.go:182-188 | the streaming cursor gives the absolute start of each boundary from any earlier bucket |
| Readers.Reader.NextStart6 | ranges.go:216-225 | the merge pointer gives the absolute 128-bit start of each boundary |
| Readers.Reader.Ranges4 | ranges.go:177-209 | delivers the covered IPv4 ranges, each with the details LookupDetails gives for its record, until the consumer stops |
| Readers.Reader.Ranges6 | ranges.go:211-247 | delivers the covered IPv6 ranges outside the aliases, each with the details of its record, until the consumer stops |
| Readers.Reader.Ranges | ranges.go:47-53 | delivers the IPv4 list, then the IPv6 list, with details, until the consumer stops |
| Ranges.DeliverPrefix | ranges.go:47-53 | a consumer that stops has a prefix of the list, up to the first item it refused; one that never stops has the whole list |
| Readers.Reader.EnumerationExact | ranges.go:41-52 | the enumeration is ascending and disjoint, and an address is in it with an id exactly when a lookup gives that id and it is not an alias |
| Readers.Reader.EnumeratedAreLookups | ranges.go:41-52 | each enumerated range is the one LookupRange returns for any of its addresses, with the same answer |
| Ids.IDWidth | internal/format/format.go:108-120 | the least width from 1 to 4 whose ids reach n - 1 |
| Ids.AppendReadBack | internal/format/format.go:272-300 | appending an id that fits the width appends it to the ids read back and changes none before it |
| Ids.IdRead | internal/format/format.go:272-284 | a record id is the number of its bytes, the low one first |
| Geo2Directory.ParseHeader | internal/format/format.go:158-184 | the error classes: bad magic exactly without the magic, unsupported version exactly for a complete header of another version |
| Geo2Directory.HeaderExact | internal/format/format.go:147-184 | a header is accepted exactly when its 32 bytes are what AppendTo writes for a valid header, and that header is the result |
| Geo2Directory.EntryExact | internal/format/format.go:186-211 | an entry is read exactly from the 24 bytes AppendTo writes for it |
| Geo2Directory.CheckDirectory | geo2.go:155-190 | accepts exactly the well-placed directories with every required section once, and records where each section is |
| Geo2Directory.SectionsDisjoint | docs/FORMAT.md:195-198 | accepted sections lie in the input, aligned, after the directory, and no two overlap |
| Geo2Files.Geo2.CheckLengths | geo2.go:194-229 | accepts exactly the section lengths of rule 3 and derives the counts |
| Geo2Files.CountsBounded | geo2.go:194-229 | in a file up to 2^31 bytes the IPv4 boundaries are fewer than 2^31 and the IPv6 ones few enough for 31-bit indexes and 27-bit offsets |
| Geo2Files.Geo2.CheckChecksums | geo2.go:89-95 | accepts exactly when every directory entry's checksum is that of its bytes |
| Geo2Records.CheckStrings | geo2.go:231-265 | accepts exactly the string indexes of rule 5 with the META ids in range |
| Geo2Records.CheckRow | geo2.go:279-311 | accepts exactly the rows whose string ids are all in range, although u16 ids are not read when there are more than 65535 strings |
| Geo2Records.CheckRecords | geo2.go:267-330 | accepts exactly the record tables and ids of rules 5, 6 and 13: zero record 0, strings and ids in range, minimal width |
| Geo2Tables.CheckIPv4 | geo2.go:499-524 | accepts exactly the tables whose index runs from 0 to nV4 without falling and whose absolute starts strictly ascend |
| Geo2Tables.BucketsAscend | docs/FORMAT.md:146-149 | order inside every bucket is order of the absolute starts |
| Geo2Tables.CheckExceptions | geo2.go:529-543 | accepts exactly strictly ascending, in-range exceptions with non-zero low halves |
| Geo2Tables.CheckIPv6 | geo2.go:529-562 | accepts exactly the tables with such exceptions whose reconstructed 128-bit starts strictly ascend |
| XLayouts.KindsMeaning | internal/format/format.go:443-463 | the name kinds of a layout are exactly those its profile and fields store, each once, ascending |
| XLayouts.NewXLayout | internal/format/format.go:433-464 | builds the one layout of a profile, field set and language count |
| XLayouts.XLayout.NameOff | internal/format/format.go:469-476 | the slot of a kind the layout stores, else -1 |
| XLayouts.Tiling | internal/format/format.go:417-431 | the field blocks and all name slots are pairwise disjoint and cover [0, width) exactly |
| Entries.SingleFields | docs/FORMAT.md:246-250 | which profiles allow each field set alone, by its bit |
| Entries.FieldsBySingles | internal/format/format.go:401-415 | a profile allows exactly the known field sets each of which it allows alone, so allowed sets are closed under subset and union |
| Geo2Files.Geo2.EntryBytes | geo2.go:378-387 | the u64 size of XRECORDS is the exact product: for inputs up to 2^31 bytes it cannot wrap |
| Geo2Files.Geo2.CheckShape | geo2.go:336-385 | accepts exactly the extension sections of rules 9 and 10 with a LANGS count and XRECORDS length that fit the layout; the refusal is an unsupported version exactly for an otherwise sound unknown field set |
| Geo2Files.Geo2.CheckExtensions | geo2.go:336-398 | accepts exactly the extension sections of rules 9 to 12, and keeps their layout; unsupported version exactly for an unknown field set |
| Geo2Records.CheckXRecords | geo2.go:433-494 | accepts exactly entries whose entry 0 is zero and whose string ids and flag bits are all allowed |
| Geo2Records.OnlyLowBits | geo2.go:487-491 | for the flag masks in use, no bit outside the mask is set exactly when the byte is at most the mask |
| Entries.BlockRules | geo2.go:433-494 | which string ids and flag bits each block is checked for, by offset |
| Entries.CountryRules | geo2.go:433-494 | the same for the block of the registered and represented countries |
| Geo2Records.CheckLangs | geo2.go:400-422 | accepts exactly lists of distinct non-empty languages in range that start with the META language |
| Geo2Records.LayoutFits | geo2.go:384-388 | every block and name slot of a layout lies in its entry |
| Geo2Files.CheckContents | geo2.go:89-113 | rules 4 to 8 together, in the order they are checked |
| Geo2Files.ParseGEO2 | geo2.go:78-117 | accepts exactly the well-formed files; otherwise bad magic exactly without the magic, unsupported version exactly for another version or for an unknown field set in a file that passes every earlier check, else corrupt |
| Geo2Write.MetaIds | docs/FORMAT.md:200-202 | of an accepted file the four META string ids, at their offsets, are strings, and the reserved bytes zero |
| Geo2Format.SectionWritten | docs/FORMAT.md:30-70 | in a written file each directory entry and each section is read back as written |
| Geo2Format.DirectoryWritten | docs/FORMAT.md:61-68 | writing any sections with the required ids gives an accepted directory that lists exactly those |
| Geo2Format.SectionsWritten | docs/FORMAT.md:61-68 | and each section is found with the contents written |
| Geo2Write.MetaRead | internal/format/format.go:213-260 | META is read back from the 64 bytes AppendTo writes |
| Geo2Write.StringsRead | docs/FORMAT.md:109-116 | an index of string starts over their concatenation is valid and gives every string back |
| Geo2Write.DatabaseWritten | docs/FORMAT.md:28-70 | the file of any valid database is well formed, with checksums, and is the file of that database |
| Geo2Write.Reopen | open.go:236-248 | opening the file of a database gives a reader of exactly that database, in any of its languages |
| Opening.HeapStrings | geo2.go:621-633 | string i of the table is its piece of the blob, for all of them |
| Opening.WellFormedIsValid | format.go:45-49 | the database of a well-formed file satisfies everything lookups, ranges and details rely on, so no later index needs a check |
| Opening.MakeReader | geo2.go:567-619 | the reader of an accepted file holds that file's tables and languages, indexed |
| Opening.ReadLangs | geo2.go:588-595 | the languages are the strings LANGS lists, else the META language when it is not empty |
| Opening.DatabaseUnique | geo2.go:567-619 | a file makes one database: what the reader holds is determined by the bytes |
| Opening.OpenGEO2 | open.go:236-248 | succeeds exactly for a well-formed file that has the language asked for, else with the class of what failed; the reader answers from that file and speaks that language, the primary one for "" |
| Geo1Parse.Cursor.Take | geo1.go:176-184 | takes count times width bytes exactly when that many are left; the product never wraps |
| Geo1Parse.ParseStrings | geo1.go:49-68 | reads the string table exactly, or reports that it is cut short |
| Geo1Parse.ParseTable | geo1.go:91-122 | reads one start and id table exactly, or reports that it is cut short |
| Geo1Parse.CheckStarts6 | geo1.go:123-129 | accepts exactly strictly ascending 128-bit starts, each the big-endian number of its bytes |
| Geo1Parse.CheckRecordIDs | geo1.go:204-211 | accepts exactly id tables below the record count |
| Geo1Parse.CheckHeader | geo1.go:143-163 | accepts exactly the GEO1 headers, with bad magic exactly without the magic and unsupported version exactly for a complete header of another version |
| Geo1Format.StartsRead | docs/FORMAT.md:311-319 | an IPv4 start is the number of its 4 bytes, low first; an IPv6 start that of its 16 bytes, high first |
| Geo1Format.StartsAscend | geo1.go:123-129 | IPv6 starts ascend exactly when their 16-byte pieces do, as bytes |
| Geo1Format.ReadEncoded | docs/FORMAT.md:303-325 | reading the encoding of any well-formed GEO1 database gives it back |
| Geo1Format.WriteRead | docs/FORMAT.md:303-325 | encoding what was read from a body gives the body back, with no byte left over |
| Geo1Parse.EncodingIsRead | docs/FORMAT.md:303-325 | an input encodes at most one well-formed database: the one read from it |
| Geo1Parse.ParseGEO1 | geo1.go:42-138 | accepts exactly the encodings of well-formed databases and returns the database encoded |
| Renumber.Assign | geo1.go:243-252 | numbers exactly the used strings of a field that had no number: numbers stay distinct and dense, and no string is renumbered |
| Renumber.RenumberStrings | geo1.go:243-271 | fails exactly when the used strings outnumber their u16 or u24 ids; else the used strings map one to one onto 1 to next - 1, those of u16 fields below 2^16 |
| Transcode.BuildStrings | geo1.go:272-292 | the string of each new id is the GEO1 string it was given to, string 0 empty |
| Transcode.MapStrReads | geo1.go:293-298 | a renumbered id reads as the GEO1 one did, 0 and ids past the table as "", and fits its field |
| Transcode.PackRecords | geo1.go:300-319 | each packed row holds the renumbered and truncated fields of its GEO1 row, row 0 all zero |
| Transcode.RowLoads | geo1.go:300-319 | every field of a packed row loads back, so no store overwrites another |
| Transcode.PackedAreValid | geo1.go:300-319 | the packed records pass the GEO2 record checks |
| Transcode.RecordsKept | geo1.go:235-319 | decoding a converted record gives what its GEO1 row says, accuracy cut to 16 bits |
| Transcode.FlatRecordRead | docs/FORMAT.md:313-317 | each field of a GEO1 record reads as its own word in the documented order: strings by id, 0 and ids past the table as "", the accuracy cut to 16 bits |
| Geo1Tables.NarrowIds | geo1.go:321-344 | the ids read back at the minimal width are the 32-bit ids |
| Geo1Tables.SplitStarts4 | geo1.go:331-349 | the bucket index and u16 starts are valid and stand for the flat starts |
| Geo1Tables.SplitStarts6 | geo1.go:351-371 | the top halves and exceptions are valid and stand for the flat starts, exceptions exactly the non-zero low halves |
| OpeningGeo1.TranscodeGEO1 | geo1.go:235-384 | fails exactly when the strings do not fit; else the reader's database is valid and keeps every lookup of the GEO1 database |
| OpeningGeo1.ConvertedKeeps | geo1.go:235-384 | tables that stand for the same starts, ids and records give the same answers |
| OpeningGeo1.LookupsKept | docs/FORMAT.md:303-307 | for every address, the converted database's answer and record are the flat GEO1 tables' |
| OpeningGeo1.OpenGEO1 | geo1.go:28-40 | succeeds exactly on encodings of databases whose strings fit, for no language, else with the class of what failed; the reader keeps the lookups of the one database encoded and speaks its primary language |
| OpeningGeo1.LookupGEO1 | docs/FORMAT.md:303-307 | opening any convertible GEO1 file and looking any address up finds it exactly when the flat tables cover it, with the record they give |
| CsvScan.ReadRendered | csvdb/scan.go:70-116 | splitting any rendered row gives its fields back, whichever of them are quoted |
| CsvScan.AcceptedIsRendered | csvdb/scan.go:70-116 | an accepted line is the rendering of the fields it is split into |
| CsvScan.SplitExact | csvdb/scan.go:70-116 | a line is accepted exactly when it is the rendering of some row |
| CsvScan.RenderBytes | csvdb/scan.go:20-23 | the separator is a comma, the quote a double quote, and a quote inside quotes is doubled |
| CsvScan.SlicesKept | csvdb/scan.go:74-100 | fields already in the row do not change when bytes after them do |
| CsvScan.SplitQuoted | csvdb/scan.go:74-100 | unquotes a field in place with the write index below the read index, leaving all bytes before and after it |
| CsvScan.SplitLine | csvdb/scan.go:70-116 | the slices of the rewritten line are the fields of the line as it was, with the right error otherwise |
| CsvScan.ParseUint128 | csvdb/scan.go:135-155 | succeeds exactly on 1 to 39 digits with a value below 2^128, and then hi * 2^64 + lo is that value |
| CsvScan.ParseUint32 | csvdb/scan.go:119-132 | succeeds exactly on 1 to 10 digits with a value below 2^32, and then gives that value |
| CsvScan.NumeralFits | csvdb/scan.go:119-155 | the numeral of every number below 2^128 is accepted by these rules, with that value |
| CsvRecords.UvarintPrefixFree | csvdb/reader.go:115-119 | no length prefix is a proper prefix of another |
| CsvRecords.KeyInjective | csvdb/reader.go:115-119 | rows with the same key have the same text in every key column |
| CsvRecords.SameKeySameRecord | csvdb/reader.go:41-67 | decoding depends on the key columns only, for every layout and profile |
| CsvRecords.CountryRow | csvdb/reader.go:183-200 | a country build stores the texts of the three country columns and nothing else |
| CsvRecords.RegionRow | csvdb/reader.go:195-204 | a region build stores the text of the region column too |
| CsvRecords.CityRow | csvdb/reader.go:195-227 | a city build stores region, city and coordinates, and the postal code when kept; a row fails exactly when one coordinate is missing or does not parse |
| CsvRecords.AsnRow | csvdb/reader.go:187-194 | an ASN build stores the AS number and organization; a row fails exactly when the number is no numeral below 2^32 |
| CsvReaders.CsvReader.MakeKey | csvdb/reader.go:115-119 | the loop builds that key |
| CsvReaders.CsvReader.Fill | csvdb/reader.go:183-228 | succeeds exactly when the row describes a record, and leaves exactly that record, whatever was there before |
| CsvReaders.CsvReader.IdOf | csvdb/reader.go:115-127 | the id is the one decoding this row afresh would give, on a cache hit too, and fails exactly when that decoding would |
| CsvReaders.CsvReader.ParseAddr | csvdb/reader.go:157-180 | the address of a field in text or number form, by file kind |
| CsvReaders.CsvReader.Bounds | csvdb/reader.go:140-154 | succeeds exactly for two addresses of one family in order |
| CsvRuns.NumberAddr | csvdb/reader.go:166-179 | the numeral of a number is that address: IPv6 in an IPv6 file, else IPv4, and none above the IPv4 range |
| CsvRuns.NoDataMeaning | csvdb/reader.go:109-137 | a row is without data exactly when its country, or its AS number in an ASN layout, is the layout's mark |
| CsvRows.PiecesConserve | csvdb/reader.go:258-287 | the pieces of a row hold exactly its addresses outside `::/96`, `2001::/32` and `2002::/16`, the mapped block as IPv4, all with the row's id |
| CsvRows.PiecesInOrder | csvdb/reader.go:258-287 | the pieces are non-empty and ascending, at most one of them IPv4 |
| CsvRows.UnreadEmitsNothing | csvdb/reader.go:247-254 | unread holds exactly for the rows that have no pieces |
| CsvReaders.CsvReader.CutAlias | csvdb/reader.go:270-280 | at an alias block: the piece before it, and the mapped part as IPv4, refused exactly when it is not above the last IPv4 range |
| CsvReaders.CsvReader.Split | csvdb/reader.go:262-286 | the loop over the blocks emits exactly the pieces of the range, and only its IPv4 piece can be refused |
| CsvReaders.CsvReader.Add | csvdb/reader.go:258-287 | the same for both families |
| CsvReaders.CsvReader.AddRange | csvdb/reader.go:298-311 | appends the range exactly when it starts above the family's last one, else leaves the build as it was; the builder never refuses it |
| CsvReaders.Builder.AddRange | internal/build/build.go:316-334 | refuses exactly pairs of two families or out of order, after unmapping |
| CsvReaders.CsvReader.Row | csvdb/reader.go:90-129 | a row is accepted exactly when the run ending with it is, and then the build holds the pieces of all stored rows of the run |
| CsvReaders.CsvReader.ReadSource | csvdb/csvdb.go:268-302 | a source is read to its end exactly when every line splits, there is a row, and the run of its rows is accepted |
| CsvReaders.TrimExact | csvdb/scan.go:56-60 | one CR at the end of a line is dropped, and nothing else |
| CsvRuns.AcceptedPrefixes | csvdb/reader.go:90-129 | every prefix of an accepted run is accepted, so a refused run stays refused |
| CsvRuns.LatestDecides | csvdb/reader.go:99-107 | comparing a row with the latest row of its family is comparing it with all of them |
| CsvRuns.SixInOrder | csvdb/reader.go:298-311 | IPv6 pieces of ascending rows ascend by themselves: their order check never fails |
| CsvRows.RunConserves | csvdb/reader.go:258-287 | over a whole run, an address is in the build with an id exactly when some stored row covers it and has that id |
| CsvRuns.AcceptedStores | csvdb/reader.go:90-129 | the build of an accepted run is ascending and disjoint in both families, and holds an address with an id exactly when a row gives it |
| CsvRuns.OneRow | csvdb/reader.go:90-129 | no two rows of an accepted run cover the same stored address |

## Left out

- Opening files, memory mapping, cleanup of mappings and `KeepAlive`: system calls and runtime behaviour.
- The CRC-32C value: the checksum is a function parameter; the model states which bytes it is compared over.
- Floating point: `latDiv`, `strconv.ParseFloat` and the coordinate ranges. Stored coordinates are 32-bit words, and the CSV coordinate parser is a function parameter with its bound.
- `netip.ParseAddr`: a function parameter that never gives the zero address.
- `internal/build` beyond `AddRange`: interning is one function from decoded records to ids; merging, rounding and encoding are not modelled.
- Reading lines (`bufio`, gzip), the header line, the choice of the IP2Location layout from the first row, and error messages; a line ends at LF, and one CR before it is dropped.
- `Metadata`, build times and META texts copied to callers; the META string ids are checked as the code checks them.
- `mmdb`, the command line, benchmarks, scripts, and allocation or speed claims.
- The shared string blob: strings are values, so the aliasing of one heap copy, and that appending to it never moves it, are not captured.
- UTF-8 decoding: a string is its bytes.
- Ranges.Consumer: whether a consumer wants more is a function of the ranges and record ids it has; the details it also gets are functions of those ids.
- Readers.Reader.Search4: calls the index search, whose loop the source repeats in `search4` and `index4`; the same holds of Search6.
- Readers.Reader.BuildIndex: `BuildDir` and `FillBucket`, like `CutAt`, `CheckMeta`, `CheckTables`, `ReadLangs`, `SplitQuoted`, `CopyDown`, `IdOf`, `MakeKey`, `Split` and `CutAlias`, are each part of one source function. The words of the exception bitmap are naturals and the stores and masks are stated on their bits.
- Transcode.PackRecords: rows and tables are appended in order and not stored at computed offsets of a preallocated buffer; `RowLoads` is what shows that the stores of one row do not overlap.
- OpeningGeo1.TranscodeGEO1: stated for inputs of at most 2^31 bytes, the largest that opening accepts.
