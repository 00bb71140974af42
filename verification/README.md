# Epyx world records: D64 geometry, BAM queries and the high-score store in Dafny

This project models the parts of the Epyx world-records tool whose code is available, and proves properties about them:

- **D64 geometry and BAM queries** (`d64.dfy`, module `D64`). This covers the 1541 track geometry (`trackRange`), the bounds-checked lookup in the 36 x 24 block-availability grid (`bamTrackSectorUse`), and the sum of the per-track free counters (`sectorsFree`). It also covers the `trackCount`/`createdGet` accessors and the constructors of the file descriptor (`sD64File`) and chain entry (`sD64Chain`). The disk is a class that holds the BAM grid and counters as arrays. Its invariant is `1 <= trackCount <= 35`.
- **Word helpers** (`words.dfy`, module `Words`). These are `readWord`, `readLEWord` and `writeLEWord` on a byte buffer, assuming a little-endian host.
- **Record text** (`record_text.dfy`, module `RecordText`). This covers `ltrim`/`rtrim`, the fixed-width name field `getName`, and the per-game score clean-up `getScore`.
- **Record ordering** (`record_order.dfy`, module `RecordOrder`). This covers `sRecord::operator<`, which is chosen per event by the direction table of the known games, and the sort that `getByGame` applies.
- **Record store** (`records.dfy`, module `Records`). This is `cRecords` as a class. The class holds the JSON document as nested ordered objects (module `JsonObject` in `json_object.dfy`) and the `mHasChanged` flag. It has the de-duplicating `add`, `getByName` and `getByGame`, the per-game import loop, and the Winter Games cartridge remap.
- **Filters** (`record_filters.dfy`, module `RecordFilters`). These are the name and date filters of `dumpRecordsForEvent`, and the load-address and printable-name tests that `findRecordsDisk` uses to recognise a saved high-score table.

A JSON object here is a sequence of key/value entries with strictly ascending keys. Keys compare with `std::string`'s byte order, which is the order of the `std::map` inside the JSON library. So iterating the store visits games and events in key order, as the source does.

The trim helpers compare a signed `char`, widened to `int`, with an unsigned pad byte. The model keeps this. A pad byte of 0x80 or more never matches anything, and every pad the source uses is below 0x80.

The disk geometry functions follow the code, not a table of valid tracks. `trackRange` returns 21 for track 0 and 17 for every track past 30. It has no error case.

## Model

| member | source | states |
|---|---|---|
| `Words.ReadWord` | stdafx.hpp:24-27 | the word at an address is `b[at] + 256 * b[at+1]` on a little-endian host |
| `Words.ReadLEWord` | stdafx.hpp:30-33 | gives the same value as `readWord` for the same buffer; it is a pure read |
| `Words.WriteLEWord` | stdafx.hpp:35-38 | writes the low byte then the high byte at the address; every other byte is unchanged; reading back gives the value |
| `Words.WriteThenRead` | stdafx.hpp:30-38 | writing a word and then reading it at the same address gives the word |
| `Words.WordOfBytes` | stdafx.hpp:30-38 | splitting a word into its two bytes and joining them gives the word back |
| `Words.BytesOfWord` | stdafx.hpp:30-38 | joining two bytes into a word and splitting it gives the bytes back |
| `Words.WriteBackWhatWasRead` | stdafx.hpp:30-38 | writing back the word just read leaves the buffer unchanged |
| `Words.ReadIsLocal` | stdafx.hpp:24-33 | a read depends only on the two bytes at the address |
| `D64.TrackRange` | d64.hpp:147-149 | 21 sectors for tracks up to 17, 19 for 18..24, 18 for 25..30, 17 for 31 and higher |
| `D64.TrackRangeMonotone` | d64.hpp:147-149 | sector counts never grow with the track number and always lie in 17..21 |
| `D64.TrackRangeFitsBamRow` | d64.hpp:147-149 | every sector count is below 24, the width of a BAM row |
| `D64.SectorsOverZone` | d64.hpp:147-149 | over a run of tracks with the same sector count k, the running total grows by k per track |
| `D64.StandardDiskSectors` | d64.hpp:147-149 | tracks 1..35 hold 683 sectors in all |
| `D64.BamGuardAdmitsPhantomSector` | d64.hpp:118-120 | on every valid track the guard accepts the sector numbered like the sector count, which is not on the disk |
| `D64.BamGuardStaysInGrid` | d64.hpp:118-122 | every pair the guard accepts on an image of up to 35 tracks indexes inside `mBamTracks[36][24]` |
| `D64.FreeSumIgnoresIndexZero` | d64.hpp:137-143 | the free-sector total does not depend on the counter of index 0 |
| `D64.FreeSumUpdate` | d64.hpp:137-143 | changing one counter changes the total by the same amount when that track is counted, and not at all otherwise |
| `D64.FreeSumWithinGeometry` | d64.hpp:137-149 | when no track claims more free sectors than it has, the total is at most the sector count of the counted tracks |
| `D64.D64File.constructor` | d64.hpp:60-68 | a new descriptor has an intact chain, start 0/0, zero blocks, an empty name, empty content and an empty chain list |
| `D64.D64Chain.constructor` | d64.hpp:41-45 | stores exactly the given track, sector and owning file |
| `D64.Disk.Loaded` | d64.hpp:77-88 | a disk holds a 36 x 24 grid, 36 counters and a track count in 1..35, with no file created yet |
| `D64.Disk.TrackCount` | d64.hpp:151-153 | the track count always lies in 1..35 |
| `D64.Disk.CreatedGet` | d64.hpp:155-157 | reports exactly whether a file was created on the disk; reads the state and changes nothing |
| `D64.Disk.BamTrackSectorUse` | d64.hpp:118-123 | false when the track is 0, past the track count, or the sector is past the sector count; otherwise exactly the grid cell; changes nothing |
| `D64.Disk.BamSectorOnDiskUse` | d64.hpp:118-123 | the lookup with the corrected guard: true only for sectors that exist on the disk, and then exactly the grid cell |
| `D64.Disk.SectorsFree` | d64.hpp:137-143 | the sum of the counters of tracks 1..trackCount, at most 255 per track; changes nothing |
| `RecordText.SignedChar` | records.cpp:32-34 | a character widened from a signed `char` lies in -128..127 and has the same byte value |
| `RecordText.IsPadMeaning` | records.cpp:31-42 | below 0x80 the pad test is byte equality; from 0x80 up it never holds |
| `RecordText.LTrim` | records.cpp:31-36 | the result is a suffix of the input; everything dropped is pad; the result does not start with pad |
| `RecordText.RTrim` | records.cpp:37-42 | the result is a prefix of the input; everything dropped is pad; the result does not end with pad |
| `RecordText.TrimIdempotent` | records.cpp:31-42 | trimming twice gives the same result as trimming once |
| `RecordText.TrimKeepsUnpadded` | records.cpp:31-42 | a string that does not start (or end) with pad comes back unchanged |
| `RecordText.TrimEmptyIffAllPad` | records.cpp:31-42 | the trimmed string is empty exactly when every character is pad |
| `RecordText.Replace` | records.cpp:102-105 | keeps the length and changes exactly the bytes equal to the replaced one |
| `RecordText.FilterKeep` | records.cpp:74-78 | the result keeps only allowed characters; it is never longer than the input; a string of allowed characters comes back unchanged |
| `RecordText.FilterKeepOne` | records.cpp:74-78 | one character survives the filter exactly when it is allowed |
| `RecordText.FilterKeepAppend` | records.cpp:87-91 | the filter of a concatenation is the concatenation of the filters, so exactly the allowed bytes survive, in their order |
| `RecordText.GetName` | records.cpp:51-56 | ten bytes, read from the event number's offset for California Games and from offset 0 otherwise |
| `RecordText.PlainScore` | records.cpp:61-66 | events without special handling get their first seven score bytes unchanged |
| `RecordText.SumoScore` | records.cpp:106-107 | World Games Sumo gets eight score bytes unchanged |
| `RecordText.CaberScore` | records.cpp:102-105 | World Games Caber: seven bytes, with 0xD6 shown as `'` and 0xD5 as `"`, and nothing else changed |
| `RecordText.MetreScore` | records.cpp:112-131 | Summer Games pole vault and Summer Games II triple and high jump: seven bytes, with 0xB8 shown as `m` |
| `RecordText.CaliforniaCleanup` | records.cpp:72-92 | never longer than the field; every character is `.` or in 0x20..0x5F (0x20..0x3F for events 4 and 5); no leading `0` for the other events |
| `RecordText.GetScore` | records.cpp:61-134 | eight characters for World Games Sumo, seven for every other event outside California Games; for California Games at most ten, every character `.` or in 0x20..0x5F, only 0x20..0x3F for events 4 and 5, and no leading `0` for the other events |
| `JsonObject.LexLessIrreflexive` | records.cpp:142 | no string is smaller than itself |
| `JsonObject.LexLessAsymmetric` | records.cpp:142-147 | two strings are never each smaller than the other |
| `JsonObject.LexLessTransitive` | records.cpp:142-147 | the string order is transitive |
| `JsonObject.LexLessTotal` | records.cpp:142-147 | of two different strings, one is smaller |
| `JsonObject.Get` | records.cpp:187 | a lookup finds a value exactly when the key is present |
| `JsonObject.Put` | records.cpp:188 | assigning under a key leaves the object's keys as before plus that key |
| `JsonObject.PutSorted` | records.cpp:187-188 | assigning under a key keeps the keys strictly ascending and adds exactly that key |
| `JsonObject.GetPutSame` | records.cpp:207-208 | after an assignment, the key finds the assigned value |
| `JsonObject.GetPutOther` | records.cpp:207-208 | after an assignment, every other key finds what it found before |
| `JsonObject.PutExistingInPlace` | records.cpp:207-220 | reassigning a present key replaces its value where it stands |
| `RecordOrder.LessIrreflexive` | records.cpp:139-156 | no record is smaller than itself, whatever its event's direction |
| `RecordOrder.LessAsymmetric` | records.cpp:139-156 | for events sharing a direction, two records are never each smaller than the other |
| `RecordOrder.LessTransitive` | records.cpp:139-150 | for events sharing a direction, the order is transitive (ascending for 0, descending for 1) |
| `RecordOrder.Less` | records.cpp:139-156 | a record is smaller than another only when their scores differ |
| `RecordOrder.LessNegTransitive` | records.cpp:139-156 | for events sharing a direction, "not smaller" is transitive, as a strict weak order requires |
| `RecordOrder.LessEquivalence` | records.cpp:139-156 | records that neither precede nor follow each other have equal scores, unless the direction is neither 0 nor 1 |
| `RecordOrder.Insert` | records.cpp:393-395 | inserting adds exactly the one record to the list's records and no other |
| `RecordOrder.InsertPlacement` | records.cpp:393-395 | the record goes just before the first record that is not smaller than it: every record before it is smaller, so records that compare equal keep their order |
| `RecordOrder.PlacedAtCons` | records.cpp:393-395 | behind a first record smaller than x, x is placed one position further on |
| `RecordOrder.SortRecords` | records.cpp:392-396 | the sorted list is a permutation of the input |
| `RecordOrder.InsertSorted` | records.cpp:393-395 | inserting into a best-first list of one direction keeps it best-first |
| `RecordOrder.SortRecordsSorted` | records.cpp:392-396 | a list of one direction comes out best-first: no record is smaller than one before it |
| `RecordOrder.SortRecordsUnordered` | records.cpp:151-155 | records of an event whose direction is neither 0 nor 1 come out in the order given |
| `Records.PlayerName` | records.cpp:181 | the stored name is the ten name bytes with the whole trailing run of spaces cut off and then the run of NULs before it: a prefix, only spaces and NULs cut, no trailing NUL left, and the byte before the space run is not a space (`RightTrimmed`) |
| `Records.PlayerScore` | records.cpp:182 | the stored score is the score text with the whole leading run of spaces cut off and then the run of NULs after it: a suffix, only spaces and NULs cut, no leading NUL left, and the byte after the space run is not a space (`LeftTrimmed`) |
| `RecordText.RTrimSpacesThenNuls` | records.cpp:181 | `rtrim(rtrim(field, 0x20), 0)` satisfies `RightTrimmed`: the field is the result, then NULs, then a maximal run of trailing spaces |
| `RecordText.TwoRightCuts` | records.cpp:181 | a trailing cut of spaces as RTrim states it, followed by a trailing cut of NULs, cuts the whole space run and then the NULs before it |
| `RecordText.LTrimSpacesThenNuls` | records.cpp:182 | `ltrim(ltrim(field, 0x20), 0)` satisfies `LeftTrimmed`: the field is a maximal run of leading spaces, then NULs, then the result |
| `RecordText.TwoLeftCuts` | records.cpp:182 | a leading cut of spaces as LTrim states it, followed by a leading cut of NULs, cuts the whole space run and then the NULs after it |
| `RecordText.RightTrimmedUnique` | records.cpp:181 | a field has exactly one right-trimmed result, so the stored name is fully determined by the ten name bytes |
| `RecordText.LeftTrimmedUnique` | records.cpp:182 | a field has exactly one left-trimmed result, so the stored score is fully determined by the score text |
| `RecordText.AllSpacesTrimToEmpty` | records.cpp:181-185 | a field of nothing but spaces trims to the empty string, which add then refuses |
| `Records.Appended` | records.cpp:203-220 | storing a record adds its game to the store's games and its event to that game's events, and no other key |
| `Records.AppendedWellFormed` | records.cpp:203-222 | storing a record keeps every object's keys strictly ascending |
| `Records.AppendedTarget` | records.cpp:207-220 | the target event's list gains exactly the new record at its end |
| `Records.AppendedOthers` | records.cpp:207-220 | every other list of every game is unchanged |
| `Records.AppendedGrows` | records.cpp:203-222 | no list loses or reorders records |
| `Records.AppendedHasRecord` | records.cpp:191-201 | after storing, the game holds the record's name with its score, so adding it again is refused |
| `Records.NamedAppend` | records.cpp:353-374 | the name query over two concatenated lists is the concatenation of the two queries |
| `Records.NamedMembership` | records.cpp:366-368 | a record is found by name exactly when it is in the list and has that name |
| `Records.EventsFlatMembership` | records.cpp:360-363 | a record is in a game's traversal exactly when one of its events lists it |
| `Records.AllRecordsMembership` | records.cpp:357-371 | a record is in the store's traversal exactly when some event of some game lists it |
| `Records.AllRecordsGames` | records.cpp:357-371 | a record is in the traversal exactly when the flattened events of some game hold it |
| `Records.AllRecordsFrom` | records.cpp:357-371 | every record of the traversal comes from a game of the store, and the lemma names that game |
| `Records.AllRecordsHas` | records.cpp:357-371 | every record of every game appears in the traversal |
| `Records.ArrangedPermutes` | records.cpp:392-396 | the list handed out for an event is a permutation of the event's records |
| `Records.ByEventHasKey` | records.cpp:398-399 | every event whose handed-out list starts with event id k makes k a key of the result |
| `Records.ByEventEntry` | records.cpp:384-400 | each key's list is the handed-out list of the first event that starts with that id; later events do not overwrite it |
| `Records.ArrangedSorted` | records.cpp:392-396 | a list whose records share one direction is handed out best-first and as a permutation |
| `Records.PutEmptyWellFormed` | records.cpp:384 | the empty entry created for an absent game keeps the store well formed, and that game has no events |
| `Records.RecordStore.constructor` | records.cpp:161-167 | the store starts from the loaded document, unchanged |
| `Records.RecordStore.FindRecord` | records.cpp:191-201 | true exactly when some event of the game holds a record with this name and this score |
| `Records.RecordStore.Add` | records.cpp:180-223 | refuses, with nothing changed, an empty trimmed name or score or a name and score already in the game; otherwise appends exactly the new record to the event named by the map id, sets the changed flag, and returns true |
| `Records.RecordStore.GetByName` | records.cpp:353-374 | exactly the records with that name, game by game and event by event in key order, each list in order |
| `Records.RecordStore.NamedInEvents` | records.cpp:360-370 | the records with that name in a game's events, event by event |
| `Records.RecordStore.NamedInList` | records.cpp:363-369 | the records with that name in one list, in order |
| `Records.RecordStore.GetByGame` | records.cpp:379-403 | gives an absent game an empty entry and leaves the rest of the store and the changed flag alone; returns the event-id map |
| `Records.RecordStore.GroupByEvent` | records.cpp:384-400 | the event-id map that sorting each event's records and emplacing them produces |
| `Records.RecordStore.ImportGame` | records.cpp:240-265 | importing every event of a game keeps the store well formed, never removes or reorders a record, and never clears the changed flag |
| `Records.CartEventIdPermutes` | records.cpp:245-263 | the Winter Games remap 2 to 4, 3 to 2, 4 to 3 is a permutation of 0..n-1 for n of at least 5, and is undone by its inverse; other games keep their ids |
| `Records.CartEventIdInjective` | records.cpp:245-263 | two ids never map to the same event |
| `Records.CartEventId` | records.cpp:245-263 | the inverse remap gives the id back; ids other than Winter Games 2..4 are kept |
| `Records.MappedEvent` | records.cpp:241-265 | a disk import keeps the id; a cartridge import's id is undone by the inverse remap |
| `RecordFilters.UpperChar` | records.cpp:421 | lower-case letters become upper case; every other byte is unchanged |
| `RecordFilters.Upper` | records.cpp:421 | the upper-cased string has the same length, converted byte by byte |
| `RecordFilters.ShownMembership` | records.cpp:419-436 | a record is listed exactly when it passes the name test and the date test |
| `RecordFilters.ShownUnfiltered` | records.cpp:419-436 | with no name and no date, every record is listed in order |
| `RecordFilters.NameMatchIgnoresCase` | records.cpp:420-423 | names that differ only in case pass or fail the name test together |
| `RecordFilters.DumpSelection` | records.cpp:408-442 | the records whose lines are written, in order, are exactly those that pass both tests |
| `RecordFilters.LoadsHighScoresBytes` | records.cpp:319-323 | the load-address test holds exactly when byte 2 is 0 and byte 3 is 0x0E or 0x0B |
| `RecordFilters.IsPrint` | records.cpp:330 | a byte is printable exactly when it lies in 0x20..0x7E |
| `RecordFilters.NamePrintable` | records.cpp:327-336 | true exactly when all ten name bytes are printable |
| `RecordFilters.RecordSector` | records.cpp:319-337 | a sector is taken exactly when its load address is 0x0E00 or 0x0B00 and the following record's ten name bytes are printable |

## Findings

| source | as written | input that shows it | evidently intended | confidence | as-written member | corrected member |
|---|---|---|---|---|---|---|
| d64.hpp:119 | `pSector > trackRange(pTrack)` rejects only sectors past the sector count | track 1, sector 21: track 1 has sectors 0..20, but the guard passes and `mBamTracks[1][21]` is read | `pSector >= trackRange(pTrack)`, the bound the sector scan at records.cpp:317 uses | medium; not executed | `D64.BamGuardAdmitsPhantomSector` | `D64.Disk.BamSectorOnDiskUse` |

The extra column is still inside the 24-wide grid (`D64.BamGuardStaysInGrid`). So the slip reads a cell that no real sector owns, and on an image of at most 35 tracks it never reads outside the array. `D64.Disk.BamTrackSectorUse` keeps the guard as written.

## Left out

- The cD64 members whose code is not available are not part of this model. These are its constructor and destructor, `bamClear`, `bamCreate`, `bamLoadFromBuffer`, `bamSaveToBuffer`, `bamSectorMark`, `bamTrackSectorFree`, `bamSectorFree`, `bamTest`, the directory functions, `fileLoad`, `fileGet`, `fileSave`, `directoryGet`, `diskTest`, `diskWrite`, `sectorPtr` and `disklabelGet`. Without their code there is no BAM byte layout, allocation order or chain walking to model.
- The fields that only those members use are not modelled: `mBamRealTracks`, `mBuffer`, `mRead`, `mReady`, `mLastOperationFailed`, `mCrossLinked`, `mFiles` and `mFilename`.
- `D64.Disk.Loaded` stands in for a loaded image. It takes the grid, the counters and the track count as parameters, because the loading code is not available. The bound `trackCount <= 35` is an assumption about that code.
- `D64.D64File.constructor` leaves the file type unconstrained, because the source's constructor never initialises `mFileType`.
- Host file I/O (`cResource`) is not modelled: `FileRead`, `FileSave`, `FileReadStr`, `directoryList` and `getcwd`.
- JSON parsing and saving in the `cRecords` constructor and destructor are not modelled. The constructor takes the parsed document, and `hasChanged` records whether it would be saved.
- Console output is not modelled: the lines printed by `add` and `operator<`, and the text lines that `dumpRecordsForEvent`, `dumpRecordsAll` and `dumpRecordsByGame` build. `DumpSelection` gives the records whose lines are written.
- The wall clock and the date formatting (`localtime`, `put_time`) are not modelled. The date of a new record is the `now` parameter.
- The global settings `gParameters` are not modelled. The listing filter is an explicit `DumpFilter` value.
- `KnownGameByID` and the `mKnownGames` table are not available. The game record is passed in, and the direction table is a map from game id to known game.
- The numeric values of the game ids are not available. Games are a datatype with the five games the code names and a catch-all.
- The file handling of `importCartRecords` and `importRecordsDisk` is not modelled: the cartridge header check, the byte offsets 0xBC630 and 0x100, the disk label match and the `mFileSize > 2` skip. Only their per-game loop of `add` calls is modelled, as `ImportGame`.
- `findRecordsDisk`'s walk over every track and sector is not modelled, because it reads through `sectorPtr`. Its per-sector test is modelled as `RecordSector`.
- The layout of `sRecordRaw` is not available. A raw record is the byte run from its name field and the byte run from its score field, as far as the buffer goes. Reading past the end is excluded by a precondition.
- `std::isprint` is fixed to the C locale (0x20..0x7E). `str_to_upper` is not available and is modelled as ASCII upper-casing.
- The host byte order of the word helpers is fixed to little-endian.
- `std::sort` is modelled by a stable insertion sort: records that compare equal keep their input order, as the insertion sort that common standard libraries use for short lists does. `std::sort` itself leaves that order open.
- `RecordOrder.SortRecordsSorted`: best-first order is proved only for lists whose records share one sort direction. Without that, `operator<` is not a strict weak ordering, and `std::sort` promises nothing.
- `Records.RecordStore.ImportGame`: states only that no list loses or reorders records and that the changed flag stays set. It does not state which records are added.
- `Records.RecordStore.ImportGame`: dates every record of one import with the same `now`. The source reads the clock again inside each `add` call.
- `Records.RecordStore.ImportGame`: adds to the store it is called on. The source's import loops call `add` on the global store `gRecords`, which is the same object only when the importer is that store.
- `Records.RecordStore.ImportGame`: requires every event's mapped id to be a valid event index, including events that `add` would refuse before indexing.
- `Records.RecordStore.GetByGame`: the empty entry it gives an absent game stands for the JSON `null` that the source's `operator[]` inserts. The two differ only in the saved file.
