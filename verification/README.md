# DoorKing reconciliation, modelled in Dafny

This project models the reconciliation core of the DoorKing sync tool. The tool reads three
spreadsheet tabs and turns them into the access-control entries of a DoorKing gate system.
The tabs are:

- **Deleted entry codes.** Retired codes that may never be assigned again.
- **Entry codes.** Each row is a code, its type (PERMANENT, LIMITED or DELIVERY), and either an
  address (a resident code), a vendor name (a vendor code) or a notes name (a legacy resident code).
- **Directory.** One row per household: address, `#NNN` directory number, display name,
  `AAA-NNNNNNN` phone number and up to four device numbers.

The model follows the Java classes one module each:

| module | file | models |
|---|---|---|
| `Wrappers` | `wrappers.dfy` | `Option` and `Result`, with failure propagation through `:-` |
| `Decimal` | `decimal.dfy` | `Integer.parseInt` on 32-bit values, `%0Nd` zero padding, 32-bit wrap-around |
| `Cells` | `cells.dfy` | loosely typed spreadsheet cells (`Option<string>`; `None` is a null cell), `row.get`, and the error type shared by every check of the source |
| `Text` | `text.dfy` | Guava's comma `Joiner`, and the split that reads a joined line back |
| `DeletedCodes` | `deleted_codes.dfy` | `DeletedEntryCodeAdapter.adapt` |
| `EntryCodes` | `entry_code.dfy` | `EntryCode` and `EntryCodeType`: `valueOf`, the case-insensitive type parse, `equals`, `hashCode`, `toString` |
| `Entries` | `entry.dfy` | `Entry`: its invariant, the `Builder` setters, clears and `build`, `getHeaders`, the 13-column `toString` and a parser that reads it back |
| `CodeBook` | `code_book.dfy` | `EntryCodeAdapter.adapt` and `EntryCodes.lookupAndRemoveResidentCode` |
| `Reconciler` | `reconciler.dfy` | `EntryAdapter`: `readSecurityLevelMapping`, `getDirectoryNumber`, `splitPhoneNumber`, `addDeviceNumberFromColumn`, `getResidentEntry`, `getVendorEntry`, `getLegacyResidentEntry`, `adapt` |
| `ReconcilerProperties` | `reconciler_properties.dfy` | the properties of the reconciler, per row and for the whole list |

Every failure in the source is an unchecked exception that ends the run. The model returns a
`Result` whose error names the check that failed:

- `MissingCell`: `row.get` past the end of a row.
- `NullCell`: a null cell dereferenced.
- `MalformedInteger`: `parseInt` rejected the text.
- `TooManyDevices` and `InconsistentEntryCode`: the two invariants of `Entry`.
- One error for each `checkState` of the adapters.
- `ShortPhoneNumber`: `charAt(3)` on phone text shorter than four characters, which throws an index exception before the `checkState` of `splitPhoneNumber` is reached.

Java's hash maps are modelled as sequences:

- The resident set-multimap is a duplicate-free sequence of (address, code) assignments.
- The vendor and legacy maps are association lists with unique names.

The contracts promise nothing about the order in which the source iterates these maps. Where
the source picks an arbitrary element, the model picks the first, and the contracts promise
only "some code of that type at that address".

Behaviour of the code worth noting:

- Codes are any 32-bit integer that `parseInt` accepts, including signs and any number of
  digits. They are not limited to four digits.
- A code-sheet row with exactly four cells passes the "fewer than four cells" skip. The read
  of its type column then fails with `MissingCell(4)`.
- The type names in the security-level configuration are read case-sensitively (`valueOf`
  without `toUpperCase`). When two mappings name the same type, the later one wins.
- The entry count is per directory row, not per address. When two directory rows share an
  address, the first row drains every PERMANENT and LIMITED code there. The second row gets
  a primary entry with no code.

## Model

| member | source | states |
|---|---|---|
| Decimal.ZeroPad | src/main/doorking/Entry.java:112-114 | `%0Nd` is at least `N` characters long, all digits exactly when the value is non-negative, with a minus sign only in front |
| Decimal.ParseInt | src/main/doorking/DeletedEntryCodeAdapter.java:41 | `Integer.parseInt` accepts only non-empty text and yields only 32-bit values. A plain digit string is accepted exactly when its value is at most 2^31-1, and then reads as that value |
| Decimal.ParseIntShape | src/main/doorking/DeletedEntryCodeAdapter.java:41 | `parseInt` rejects every text that is not an optional `-` or `+` followed by one or more digits, such as `12a` or a lone sign |
| Decimal.ParseZeroPad | src/main/doorking/Entry.java:112-114 | `parseInt` reads back the zero-padded rendering of any 32-bit value as that value |
| Decimal.ParseDigits | src/main/doorking/DeletedEntryCodeAdapter.java:41 | `parseInt` reads the decimal digits of any non-negative 32-bit value back as that value |
| Decimal.ParsePaddedDigits | src/main/doorking/DeletedEntryCodeAdapter.java:41 | leading zeros do not change what `parseInt` reads |
| Decimal.ParseSign | src/main/doorking/DeletedEntryCodeAdapter.java:41 | a `+` before digits reads as the digits alone; a `-` negates their value, and the text is rejected when the result falls below -2^31 |
| Decimal.ParseNegativePaddedDigits | src/main/doorking/DeletedEntryCodeAdapter.java:41 | a minus sign followed by zeros and digits reads as the negated value, down to -2^31 |
| Cells.GetCell | src/main/doorking/EntryAdapter.java:78 | `row.get(c)` fails with `MissingCell(c)` exactly when the row has no column `c`; otherwise it yields that cell |
| Cells.ParseIntCell | src/main/doorking/EntryCodeAdapter.java:112 | reading a cell as an integer succeeds exactly when the cell is present and `parseInt` accepts its text; the result is a 32-bit value, and every rejection is `MalformedInteger` of that cell |
| Text.SplitJoin | src/main/doorking/Entry.java:121 | splitting a comma-joined line at its commas gives back the joined parts, provided no part holds a comma |
| DeletedCodes.Codes | src/main/doorking/DeletedEntryCodeAdapter.java:40-41 | the column-0 codes are readable exactly when every row's code parses; then there is one code per row, in row order |
| DeletedCodes.Collect | src/main/doorking/DeletedEntryCodeAdapter.java:39-44 | the loop over the rows; no contract of its own, its behaviour is stated by DeletedCodes.CollectSpec |
| DeletedCodes.Adapt | src/main/doorking/DeletedEntryCodeAdapter.java:38-46 | `adapt`; no contract of its own, its behaviour is stated by DeletedCodes.AdaptSpec, DeletedCodes.DuplicateFails and DeletedCodes.EmptySheet |
| DeletedCodes.CollectSpec | src/main/doorking/DeletedEntryCodeAdapter.java:39-44 | the loop succeeds exactly when every row's code parses and no code repeats or is already in the set; it then adds exactly those codes |
| DeletedCodes.AdaptSpec | src/main/doorking/DeletedEntryCodeAdapter.java:38-46 | `adapt` succeeds exactly when every code parses and the codes are pairwise distinct; the set is then exactly the rows' codes, and its size equals the number of rows |
| DeletedCodes.DuplicateFails | src/main/doorking/DeletedEntryCodeAdapter.java:42-43 | two rows with the same code make `adapt` fail |
| DeletedCodes.EmptySheet | src/main/doorking/DeletedEntryCodeAdapter.java:39-45 | an empty sheet gives the empty set |
| EntryCodes.ValueOf | src/main/doorking/EntryCode.java:26-30 | `valueOf` accepts exactly the three names PERMANENT, LIMITED and DELIVERY, case-sensitively; the accepted type's name is the text read |
| EntryCodes.ValueOfName | src/main/doorking/EntryCode.java:26-30 | every type's name reads back as that type |
| EntryCodes.ParseType | src/main/doorking/EntryCodeAdapter.java:116-118 | the type column parses exactly when its upper-cased text is one of the three names, and yields the type of that name |
| EntryCodes.ParseTypeIgnoresCase | src/main/doorking/EntryCodeAdapter.java:116-118 | any spelling of a type name that mixes upper and lower case parses to that type |
| EntryCodes.ParseLowerCaseName | src/main/doorking/EntryCodeAdapter.java:116-118 | the lower-case spelling of each type name parses to that type |
| EntryCodes.Equals | src/main/doorking/EntryCode.java:45-52 | `equals`; no contract of its own, EntryCodes.EqualsIsIdentity states that it holds exactly for equal codes |
| EntryCodes.EqualsIsIdentity | src/main/doorking/EntryCode.java:45-52 | two codes are `equals` exactly when both the number and the type are equal |
| EntryCodes.HashCode | src/main/doorking/EntryCode.java:41-43 | `Objects.hash(code, type)` is a 32-bit value congruent, modulo 2^32, to 961 + 31·code + hash(type) |
| EntryCodes.HashCodeRespectsEquals | src/main/doorking/EntryCode.java:41-52 | equal codes have equal hash codes |
| EntryCodes.Describe | src/main/doorking/EntryCode.java:54-57 | `toString`; no contract of its own, EntryCodes.DescribeRoundTrip states that the text reads back as the same code |
| EntryCodes.DescribeRoundTrip | src/main/doorking/EntryCode.java:54-57 | `toString` (the code zero-padded to 4 digits, a space, the type name) reads back as the same code |
| Entries.NewBuilder | src/main/doorking/Entry.java:124-141 | a fresh builder has no name, area code, phone, directory number, entry code, security level or notes, no devices, and is neither hidden nor vendor |
| Entries.SetDisplayName | src/main/doorking/Entry.java:143-146 | sets the display name and changes no other field |
| Entries.MarkHidden | src/main/doorking/Entry.java:152-155 | sets the hidden flag and changes no other field |
| Entries.SetAreaCode | src/main/doorking/Entry.java:157-160 | sets the area code and changes no other field |
| Entries.ClearAreaCode | src/main/doorking/Entry.java:162-165 | removes the area code and changes no other field |
| Entries.SetPhoneNumber | src/main/doorking/Entry.java:167-170 | sets the phone number and changes no other field |
| Entries.ClearPhoneNumber | src/main/doorking/Entry.java:172-175 | removes the phone number and changes no other field |
| Entries.ClearDirectoryNumber | src/main/doorking/Entry.java:177-180 | removes the directory number and changes no other field |
| Entries.SetDirectoryNumber | src/main/doorking/Entry.java:182-185 | sets the directory number and changes no other field |
| Entries.SetEntryCode | src/main/doorking/Entry.java:187-190 | sets the entry code and changes no other field |
| Entries.SetSecurityLevel | src/main/doorking/Entry.java:192-195 | sets the security level and changes no other field |
| Entries.AddDeviceNumber | src/main/doorking/Entry.java:197-200 | appends one device number, keeps the earlier ones in order, and changes no other field |
| Entries.ClearDeviceNumber | src/main/doorking/Entry.java:202-205 | removes every device number and changes no other field |
| Entries.SetNotes | src/main/doorking/Entry.java:207-210 | sets the notes and changes no other field |
| Entries.MarkVendor | src/main/doorking/Entry.java:212-215 | sets the vendor flag and changes no other field |
| Entries.LastWriteWins | src/main/doorking/Entry.java:157-205 | a second set of a field overrides the first; a clear undoes any earlier set or add of its field |
| Entries.Build | src/main/doorking/Entry.java:217-222 | `build` succeeds exactly when there are at most four device numbers and the entry code and security level are both present or both absent. More devices fail with `TooManyDevices`; otherwise the failure is `InconsistentEntryCode` (the constructor check, Entry.java:57). The entry built satisfies the invariant and carries every field of the builder |
| Entries.Headers | src/main/doorking/Entry.java:96-102 | `getHeaders`; no contract of its own, Entries.HeaderColumns states its 13 column names |
| Entries.HeaderColumns | src/main/doorking/Entry.java:96-102 | the header line splits into exactly the 13 fixed column names |
| Entries.Fields | src/main/doorking/Entry.java:105-122 | `toString` has 13 columns. Area code, directory number, entry code and security level are empty exactly when absent. Non-negative directory numbers, entry codes and security levels are written as digits, at least 3, 4 and 2 of them |
| Entries.ParsePadded | src/main/doorking/Entry.java:112-114 | a zero-padded optional number, or the empty column of an absent one, reads back as the same optional value |
| Entries.DeviceColumns | src/main/doorking/Entry.java:115-120 | the four device columns (8th, 11th, 12th and 13th) read back as the entry's device numbers, in order |
| Entries.ToLine | src/main/doorking/Entry.java:105-122 | `toString`; no contract of its own, Entries.Fields states its columns and Entries.LineRoundTrip that the line reads back as the entry |
| Entries.FieldsRoundTrip | src/main/doorking/Entry.java:105-122 | the 13 columns of an entry read back as the same entry when its present text fields and devices are non-empty and its numbers are 32-bit (`Lossless`); commas in fields do not matter here |
| Entries.LineRoundTrip | src/main/doorking/Entry.java:105-122 | a serialisable entry's comma-joined line reads back as the same entry |
| CodeBook.Put | src/main/doorking/EntryCodeAdapter.java:137 | inserting into the resident set-multimap adds exactly the new assignment and keeps the map free of repeats |
| CodeBook.PutIdempotent | src/main/doorking/EntryCodeAdapter.java:137 | inserting the same (code, type) at the same address twice is the same as inserting it once |
| CodeBook.LookupAndRemove | src/main/doorking/EntryCodeAdapter.java:61-74 | finds a code exactly when some code of that type is at the address. It then returns one such code and removes exactly that assignment, so that type's count there drops by one. Otherwise it returns nothing and changes nothing |
| CodeBook.LookupAndRemoveCounts | src/main/doorking/EntryCodeAdapter.java:61-74 | a lookup changes the count of no other address or type, and the code numbers left plus the one returned are the code numbers before |
| CodeBook.LookupAndRemoveKeeps | src/main/doorking/EntryCodeAdapter.java:61-74 | a lookup only removes, and it keeps every assignment of another address or type |
| CodeBook.LookupAndRemoveNoRepeats | src/main/doorking/EntryCodeAdapter.java:61-74 | a lookup keeps the resident map free of repeats |
| CodeBook.Removed | src/main/doorking/EntryCodeAdapter.java:61-74 | what one lookup leaves holds one code fewer of that type at that address, or none when there was none |
| CodeBook.Repeat | src/main/doorking/EntryCodeAdapter.java:61-74 | `n` lookups of one type at one address lower its count by `n`, until none remain |
| CodeBook.Drain | src/main/doorking/EntryAdapter.java:133-146 | repeating the lookup until it finds nothing takes as many codes as the address has of that type, each of that type, and leaves none |
| CodeBook.DrainCounts | src/main/doorking/EntryAdapter.java:133-146 | draining leaves every other address and type alone, and the code numbers drained plus those left are the code numbers before |
| CodeBook.DrainOthers | src/main/doorking/EntryAdapter.java:133-146 | draining one address and type leaves the count of every other address or type unchanged |
| CodeBook.DrainNumbers | src/main/doorking/EntryAdapter.java:133-146 | the code numbers drained plus those left are the code numbers before |
| CodeBook.DrainKeeps | src/main/doorking/EntryAdapter.java:133-146 | draining only removes, keeps every assignment of another address or type, and keeps the map free of repeats |
| CodeBook.DrainFrom | src/main/doorking/EntryAdapter.java:133-146 | every drained code was assigned to that address |
| CodeBook.Classify | src/main/doorking/EntryCodeAdapter.java:107-138 | Rows under four cells are skipped, and a code on the deleted list fails. A placed code is the row's parsed code, not deleted, with the type parsed from column 4. A filled street makes a resident code keyed by (street, house number). Otherwise a filled name makes a vendor code under that name, and otherwise the notes column names a legacy code. A row of four or more cells is accepted exactly when its code parses and is not deleted, its type cell exists and parses, and a row with neither name nor street reaches the notes column |
| CodeBook.Store | src/main/doorking/EntryCodeAdapter.java:120-138 | a second vendor code for a vendor name, or a second legacy code for a notes name, fails. Otherwise the book gains exactly what the row places and loses nothing |
| CodeBook.BadRowFails | src/main/doorking/EntryCodeAdapter.java:107-118 | one row that cannot be read makes the whole sheet fail |
| CodeBook.DeletedCodeFails | src/main/doorking/EntryCodeAdapter.java:112-115 | a code on the deleted list makes `adapt` fail |
| CodeBook.UnknownTypeFails | src/main/doorking/EntryCodeAdapter.java:116-118 | a type that is none of the three names, in any case, makes `adapt` fail |
| CodeBook.ClaimedNameFails | src/main/doorking/EntryCodeAdapter.java:121-134 | a later row for an already mapped vendor or legacy name makes `adapt` fail |
| CodeBook.DuplicateNameFails | src/main/doorking/EntryCodeAdapter.java:121-134 | two vendor rows with the same name, or two legacy rows with the same notes, make `adapt` fail |
| CodeBook.ShortRowsSkipped | src/main/doorking/EntryCodeAdapter.java:108-110 | dropping the rows with fewer than four cells changes no outcome |
| CodeBook.AdaptFrom | src/main/doorking/EntryCodeAdapter.java:107-139 | the loop over the rows; no contract of its own, its behaviour is stated by CodeBook.AdaptFromNeedsDistinctClaims, CodeBook.AdaptFromAccepts and CodeBook.AdaptFromSorts |
| CodeBook.AdaptFromNeedsDistinctClaims | src/main/doorking/EntryCodeAdapter.java:107-139 | when the loop succeeds, every row classifies, no two rows claim the same vendor or legacy name, and no row claims a name the book already maps |
| CodeBook.AdaptFromAccepts | src/main/doorking/EntryCodeAdapter.java:107-139 | when every row classifies, no two rows claim the same name and no row claims a name the book already maps, the loop succeeds |
| CodeBook.AdaptFromSorts | src/main/doorking/EntryCodeAdapter.java:107-139 | on success the loop keeps everything the book held, stores every row's code in the group that row selects, adds nothing that does not come from a row, and keeps the groups' invariants |
| CodeBook.AdaptSorts | src/main/doorking/EntryCodeAdapter.java:103-141 | on success the three groups hold exactly the sheet's codes, sorted by row. Resident codes do not repeat, and vendor and legacy names are unique |
| CodeBook.AdaptSucceeds | src/main/doorking/EntryCodeAdapter.java:103-141 | `adapt` succeeds exactly when every row classifies and no two rows claim the same vendor or legacy name |
| CodeBook.Adapt | src/main/doorking/EntryCodeAdapter.java:103-141 | `adapt`; no contract of its own, its behaviour is stated by CodeBook.AdaptSucceeds and CodeBook.AdaptSorts |
| Reconciler.ReadSecurityLevels | src/main/doorking/EntryAdapter.java:199-206 | reading the mappings succeeds exactly when every mapping names a type, case-sensitively |
| Reconciler.ReadSecurityLevelsTypes | src/main/doorking/EntryAdapter.java:199-206 | a type has a level exactly when some mapping names it |
| Reconciler.ReadSecurityLevelsLastWins | src/main/doorking/EntryAdapter.java:199-206 | a type's level is that of the last mapping naming it |
| Reconciler.LevelFor | src/main/doorking/EntryAdapter.java:106 | reading a type's level succeeds exactly when the type has one, and yields it |
| Reconciler.DirectoryNumber | src/main/doorking/EntryAdapter.java:185-189 | the directory cell reads exactly when it starts with `#` and the rest parses; it yields the number after the `#` |
| Reconciler.DirectoryNumberRoundTrip | src/main/doorking/EntryAdapter.java:185-189 | `#` followed by a zero-padded 32-bit number reads back as that number |
| Reconciler.SplitPhone | src/main/doorking/EntryAdapter.java:191-197 | the phone cell splits exactly when it has a `-` at index 3. The parts are the first three characters and the text after the `-`, which rejoin to the cell. Text under four characters fails with `ShortPhoneNumber`, and any other character at index 3 with `MalformedPhoneNumber` |
| Reconciler.SplitPhoneRoundTrip | src/main/doorking/EntryAdapter.java:191-197 | a three-character prefix, `-` and a number split back into that prefix and number |
| Reconciler.DeviceFromColumn | src/main/doorking/EntryAdapter.java:150-157 | a column contributes at most one device number: its text, exactly when the row reaches the column and the cell is present and non-empty |
| Reconciler.DeviceNumbers | src/main/doorking/EntryAdapter.java:90-93 | a row yields at most four device numbers |
| Reconciler.DevicesFromFilled | src/main/doorking/EntryAdapter.java:150-157 | the device columns from a given column on yield exactly their present, non-empty cells, in column order |
| Reconciler.DeviceNumbersAreFilledCells | src/main/doorking/EntryAdapter.java:90-93 | a row's device numbers are exactly the present, non-empty cells of columns 6 to 9, in column order |
| Reconciler.ParseRow | src/main/doorking/EntryAdapter.java:78-100 | A row reads exactly when it reaches the phone column and both its directory number and its phone number parse. It then yields the row's address, the notes "house street", the name, the directory number, the devices, and the phone prefix and number |
| Reconciler.AddDevices | src/main/doorking/EntryAdapter.java:90-93 | adding the devices appends them after the builder's devices, in order, and changes no other field |
| Reconciler.RowBuilder | src/main/doorking/EntryAdapter.java:80-100 | The row's builder holds the name, the notes, the directory number, the devices and the phone number. It holds the prefix as area code only when the prefix differs from the local one. It is not hidden, not vendor, and has no code |
| Reconciler.Primary | src/main/doorking/EntryAdapter.java:102-111 | The primary entry is built exactly when the first code's type has a level. It carries the row's fields, plus the first PERMANENT code and its level when one was found, and neither when none was |
| Reconciler.Take | src/main/doorking/EntryAdapter.java:102-146 | the first lookup finds a PERMANENT code exactly when the address has one. The further loops take the rest of the PERMANENT codes and all LIMITED codes there, each of its own type |
| Reconciler.TakeNeedsLevels | src/main/doorking/EntryAdapter.java:102-146 | every code taken has a level exactly when PERMANENT has one if a PERMANENT code is at the address, and LIMITED has one if a LIMITED code is |
| Reconciler.TakeCounts | src/main/doorking/EntryAdapter.java:102-146 | after a row's lookups the address has no PERMANENT or LIMITED code left; every other count is unchanged |
| Reconciler.TakeNumbers | src/main/doorking/EntryAdapter.java:102-146 | the code numbers taken plus those left are the code numbers before |
| Reconciler.TakeKeeps | src/main/doorking/EntryAdapter.java:102-146 | the lookups only remove, keep every code of another address and every DELIVERY code, and keep the map free of repeats |
| Reconciler.TakeFrom | src/main/doorking/EntryAdapter.java:102-146 | every code taken was assigned to the row's address |
| Reconciler.Expansion | src/main/doorking/EntryAdapter.java:119-128 | one hidden entry; no contract of its own, Reconciler.ReusedBuilderIsExpansion states that the source's cleared and refilled builder builds it, and Reconciler.ExpansionsAt and ReconcilerProperties.RowExpansions state its fields |
| Reconciler.ReusedBuilderIsExpansion | src/main/doorking/EntryAdapter.java:119-128 | clearing and refilling the row's builder builds the same entry as a fresh hidden expansion, whatever the builder held before |
| Reconciler.Expansions | src/main/doorking/EntryAdapter.java:115-146 | the hidden entries are built exactly when every code's type has a level, one entry per code |
| Reconciler.ExpansionsAt | src/main/doorking/EntryAdapter.java:115-146 | the `i`-th hidden entry holds the `i`-th code and its level, with name suffix `first + i` |
| Reconciler.VendorEntry | src/main/doorking/EntryAdapter.java:159-171 | a vendor entry is built exactly when its type has a level: visible, marked vendor, carrying only the name, the code and the level |
| Reconciler.LegacyEntry | src/main/doorking/EntryAdapter.java:173-183 | a legacy code that is not PERMANENT fails with `InvalidLegacyCodeType`. Otherwise the entry is hidden, named after the notes, noted "Legacy entry", and carries the code and the PERMANENT level |
| Reconciler.VendorEntries | src/main/doorking/EntryAdapter.java:58-59 | the vendor entries are built exactly when every vendor entry is, one per vendor code, in order |
| Reconciler.LegacyEntries | src/main/doorking/EntryAdapter.java:61-62 | the legacy entries are built exactly when every legacy entry is, one per legacy code, in order |
| Reconciler.ResidentEntries | src/main/doorking/EntryAdapter.java:76-148 | `getResidentEntry`; no contract of its own, its behaviour is stated by ReconcilerProperties.RowSucceeds, RowSteps, RowPrimary, RowSize and RowExpansions |
| Reconciler.RowsEntries | src/main/doorking/EntryAdapter.java:53 | the loop over the directory rows; no contract of its own, its behaviour is stated by ReconcilerProperties.RowsConsume, RowsVisible and RowsValid |
| Reconciler.Adapt | src/main/doorking/EntryAdapter.java:49-64 | `adapt`; no contract of its own, its behaviour is stated by the ReconcilerProperties lemmas, from AdaptSucceeds to AdaptValid |
| ReconcilerProperties.RowSteps | src/main/doorking/EntryAdapter.java:76-148 | a row's entries are its primary entry, then the PERMANENT expansions numbered from 2, then the LIMITED expansions continuing the numbering; what is left is what the row's lookups leave |
| ReconcilerProperties.RowNeedsLevels | src/main/doorking/EntryAdapter.java:76-148 | a row that succeeds parses, and has a level for each type of code found at its address |
| ReconcilerProperties.RowReadable | src/main/doorking/EntryAdapter.java:76-148 | a row that parses, with a level for each type of code found at its address, succeeds |
| ReconcilerProperties.RowSucceeds | src/main/doorking/EntryAdapter.java:76-148 | a row succeeds exactly when it parses and a level exists for each type of code found at its address |
| ReconcilerProperties.RowPrimary | src/main/doorking/EntryAdapter.java:78-111 | A row's first entry is visible, not vendor, and valid. It carries the row's name, the notes "house street", the directory number, the device cells and the split phone number, with the area code only off the local prefix. It has an entry code exactly when a PERMANENT code was at the address, and then that code's level |
| ReconcilerProperties.RowSize | src/main/doorking/EntryAdapter.java:102-147 | a row with `p` PERMANENT and `l` LIMITED codes at its address yields max(p, 1) + l entries |
| ReconcilerProperties.RowExpansions | src/main/doorking/EntryAdapter.java:113-146 | Every entry after the first is hidden and named "name k", with k counting up from 2 across both loops. It has no devices, directory number, area code or phone. Its notes end in " permanent" for the first p-1 and in " limited" after that, and it carries a code of that type with its level |
| ReconcilerProperties.RowCodes | src/main/doorking/EntryAdapter.java:102-146 | the codes a row's entries carry are exactly the codes its lookups took |
| ReconcilerProperties.RowHidden | src/main/doorking/EntryAdapter.java:113-146 | every entry after the first is hidden, not vendor, and valid |
| ReconcilerProperties.RowValid | src/main/doorking/EntryAdapter.java:110-147 | every entry of a row satisfies the entry invariant and none is a vendor entry |
| ReconcilerProperties.RowVisible | src/main/doorking/EntryAdapter.java:76-148 | of a row's entries only the first is visible, and it carries the row's name and notes |
| ReconcilerProperties.RowLeaves | src/main/doorking/EntryAdapter.java:102-146 | the code numbers left plus those on the row's entries are the code numbers before. The row only removes, keeps every code of another address and every DELIVERY code, and keeps the map free of repeats |
| ReconcilerProperties.RowCounts | src/main/doorking/EntryAdapter.java:102-146 | after a row its address has no PERMANENT or LIMITED code left; every other count is unchanged |
| ReconcilerProperties.RowsConsume | src/main/doorking/EntryAdapter.java:53 | Across the rows, the code numbers left plus those emitted are the code numbers before. The rows only remove codes, every code removed was PERMANENT or LIMITED at some row's address, and the map stays free of repeats |
| ReconcilerProperties.RowsVisible | src/main/doorking/EntryAdapter.java:53 | the rows' entries hold exactly one visible entry per row, in row order, each with its row's name and notes |
| ReconcilerProperties.RowsValid | src/main/doorking/EntryAdapter.java:53 | every entry made from the rows is valid and not a vendor entry |
| ReconcilerProperties.AdaptSteps | src/main/doorking/EntryAdapter.java:49-64 | On success the levels were read and every row succeeded. No resident code was left, and the list is the rows' entries, then the vendor entries, then the legacy entries |
| ReconcilerProperties.AdaptSplit | src/main/doorking/EntryAdapter.java:49-64 | on success the list is the rows' entries followed by one entry per vendor and legacy code |
| ReconcilerProperties.AdaptResidentSection | src/main/doorking/EntryAdapter.java:52-53 | the list begins with the rows' entries: at least one per row, none a vendor entry, all valid, and exactly one visible entry per row |
| ReconcilerProperties.AdaptRowOrder | src/main/doorking/EntryAdapter.java:53 | the visible entries of the rows' part follow the rows in order, each with its row's name and notes |
| ReconcilerProperties.AdaptVendorSection | src/main/doorking/EntryAdapter.java:58-59 | after the rows' entries come the vendor entries, one per vendor code in the book's order, each visible and marked vendor with the code and its level |
| ReconcilerProperties.AdaptLegacySection | src/main/doorking/EntryAdapter.java:61-62 | the list ends with the legacy entries, one per legacy code in the book's order, each PERMANENT, hidden, noted "Legacy entry" |
| ReconcilerProperties.AdaptConsumesResidents | src/main/doorking/EntryAdapter.java:55-56 | on success every resident code was PERMANENT or LIMITED and its address is that of some directory row |
| ReconcilerProperties.DeliveryResidentFails | src/main/doorking/EntryAdapter.java:55-56 | a resident DELIVERY code always makes `adapt` fail, since no lookup takes it |
| ReconcilerProperties.UnlistedResidentFails | src/main/doorking/EntryAdapter.java:55-56 | a resident code at an address no directory row has makes `adapt` fail |
| ReconcilerProperties.UnknownMappingFails | src/main/doorking/EntryAdapter.java:201-203 | a security-level mapping with an unknown type name makes `adapt` fail |
| ReconcilerProperties.AdaptSucceeds | src/main/doorking/EntryAdapter.java:49-64 | `adapt` succeeds exactly when the level mappings read, every directory row succeeds, the rows leave no resident code, every vendor code's type has a level, and every legacy code is PERMANENT with a PERMANENT level |
| ReconcilerProperties.AdaptConservesCodes | src/main/doorking/EntryAdapter.java:49-64 | the codes on the list are exactly the book's resident, vendor and legacy codes, each once |
| ReconcilerProperties.AdaptValid | src/main/doorking/EntryAdapter.java:49-64 | every entry on the list has entry code and security level both set or both absent, and at most four devices |

## Left out

- Spreadsheet retrieval (OAuth, the Sheets API, stdin), reading the configuration file, writing the CSV file and logging: all I/O. The tabs and the configuration are parameters of the model.
- The wiring in `Sync.java`. It calls `EntryCodeAdapter` with one argument, while the constructor takes two; the model passes the deleted codes explicitly.
- `Objects.hash` address keys: the key is the (street, house number) pair of cells, compared structurally. Two addresses whose hashes collide are distinct in the model, while the source would mix them up.
- Hash-map iteration order. The resident map, the vendor map and the legacy map are sequences in insertion order. Contracts about the whole list speak of the book's order and of counts, not of a Java iteration order.
- CodeBook.LookupAndRemove: returns the first matching code where the source returns the last one in hash-set iteration order. The contracts promise only some code of the requested type at the address.
- Decimal.ParseInt: reads ASCII digits only. Java's `parseInt` also accepts other Unicode decimal digits.
- EntryCodes.ToUpper: upper-cases ASCII letters plus the two non-ASCII characters that upper-case into letters of the type names (dotless i, long s), as the root locale does. Other locales are not modelled.
- Entries.LineRoundTrip: holds only for `Serializable` entries. No field may hold a comma, because the source writes commas inside a field unescaped. Present text fields and device numbers must be non-empty, because the source writes an empty text like a null one. Directory numbers, entry codes and security levels must fit in an `int`.
- Entries.FieldsRoundTrip: holds only for `Lossless` entries, for the same reasons about empty texts and 32-bit numbers.
- Reconciler.Expansion: the hidden-entry suffix is an unbounded natural; the source's `int` counter would wrap after 2^31 entries for one address.
- A `ClassCastException` on a cell that is not a string: cells are modelled as optional strings only.
- `Entry.hashCode`, and the `hashCode`, `equals` and `toString` of the code book class `EntryCodeAdapter.EntryCodes`: equality of entries and books is datatype equality, and the rest only serves hashing and diagnostics.
- EntryCodes.HashCode: the enum's identity hash is a parameter, since Java leaves it to the runtime.
- Reconciler.SplitPhone: strings are sequences of Unicode code points, while Java's `charAt` and `substring` index UTF-16 units. A phone cell with a character outside the Basic Multilingual Plane among its first four positions splits differently in the source.
- Reconciler.SplitPhoneRoundTrip: holds for three code points of prefix; in the source the prefix is three UTF-16 units.
