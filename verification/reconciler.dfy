/**
 * The reconciler: walks the directory sheet row by row, drains the resident
 * codes of each row's address into entries, then adds the vendor and legacy
 * entries.
 */
module Reconciler {
  import opened Wrappers
  import opened Cells
  import opened Decimal
  import opened EntryCodes
  import opened Entries
  import opened CodeBook

  /** One `security_level_mapping` of the configuration. */
  datatype LevelMapping = LevelMapping(entryCodeType: string, securityLevel: int)

  /** The part of the configuration the reconciler reads. */
  datatype Config = Config(localPhonePrefix: string, securityLevelMappings: seq<LevelMapping>)

  type Levels = map<EntryCodeType, int>

  /** `ms[i]` names type `t`. */
  predicate MappingNames(ms: seq<LevelMapping>, i: int, t: EntryCodeType)
    requires 0 <= i < |ms|
  {
    ValueOf(ms[i].entryCodeType) == Some(t)
  }

  /**
   * `readSecurityLevelMapping`: the mappings in order, each type name read with
   * the case-sensitive `valueOf`; a later mapping for a type replaces an earlier one.
   */
  function ReadSecurityLevels(ms: seq<LevelMapping>): (r: Result<Levels, Error>)
    ensures r.Success? <==> forall i :: 0 <= i < |ms| ==> ValueOf(ms[i].entryCodeType).Some?
    decreases |ms|
  {
    if |ms| == 0 then Success(map[])
    else
      var levels :- ReadSecurityLevels(ms[..|ms| - 1]);
      var last := ms[|ms| - 1];
      match ValueOf(last.entryCodeType)
      case None => Failure(UnknownCodeType(last.entryCodeType))
      case Some(t) => Success(levels[t := last.securityLevel])
  }

  /** Reading the mappings is reading all but the last, then adding the last. */
  lemma ReadSecurityLevelsStep(ms: seq<LevelMapping>)
    requires 0 < |ms| && ReadSecurityLevels(ms).Success?
    ensures ReadSecurityLevels(ms[..|ms| - 1]).Success?
    ensures ValueOf(ms[|ms| - 1].entryCodeType).Some?
    ensures ReadSecurityLevels(ms).value
      == ReadSecurityLevels(ms[..|ms| - 1]).value[ValueOf(ms[|ms| - 1].entryCodeType).value := ms[|ms| - 1].securityLevel]
  {
  }

  /** The table holds exactly the types some mapping names. */
  lemma {:induction false} ReadSecurityLevelsTypes(ms: seq<LevelMapping>, t: EntryCodeType)
    requires ReadSecurityLevels(ms).Success?
    ensures t in ReadSecurityLevels(ms).value <==> exists i :: 0 <= i < |ms| && MappingNames(ms, i, t)
    decreases |ms|
  {
    if |ms| > 0 {
      var n := |ms| - 1;
      var init := ms[..n];
      ReadSecurityLevelsStep(ms);
      ReadSecurityLevelsTypes(init, t);
      if MappingNames(ms, n, t) {
      } else if t in ReadSecurityLevels(ms).value {
        var i :| 0 <= i < n && MappingNames(init, i, t);
        assert init[i] == ms[i];
        assert MappingNames(ms, i, t);
      } else if exists i :: 0 <= i < |ms| && MappingNames(ms, i, t) {
        var i :| 0 <= i < |ms| && MappingNames(ms, i, t);
        assert init[i] == ms[i];
        assert MappingNames(init, i, t);
      }
    }
  }

  /** `ms[i]` is the last mapping naming `t`. */
  predicate LastNaming(ms: seq<LevelMapping>, i: int, t: EntryCodeType) {
    0 <= i < |ms| && MappingNames(ms, i, t) && forall j :: i < j < |ms| ==> !MappingNames(ms, j, t)
  }

  /** Each type's level is that of the last mapping naming it. */
  lemma {:induction false} ReadSecurityLevelsLastWins(ms: seq<LevelMapping>, t: EntryCodeType)
    requires ReadSecurityLevels(ms).Success?
    requires t in ReadSecurityLevels(ms).value
    ensures exists i :: LastNaming(ms, i, t) && ReadSecurityLevels(ms).value[t] == ms[i].securityLevel
    decreases |ms|
  {
    var n := |ms| - 1;
    var init := ms[..n];
    ReadSecurityLevelsStep(ms);
    if MappingNames(ms, n, t) {
      assert LastNaming(ms, n, t);
    } else {
      ReadSecurityLevelsLastWins(init, t);
      var i :| LastNaming(init, i, t) && ReadSecurityLevels(init).value[t] == init[i].securityLevel;
      assert init[i] == ms[i];
      forall j | i < j < |ms|
        ensures !MappingNames(ms, j, t)
      {
        if j < n {
          assert init[j] == ms[j];
          assert !MappingNames(init, j, t);
        }
      }
      assert LastNaming(ms, i, t);
    }
  }

  /** `securityLevelMap.get(type)` unboxed into an `int`: a missing level throws. */
  function LevelFor(levels: Levels, t: EntryCodeType): (r: Result<int, Error>)
    ensures r.Success? <==> t in levels
    ensures r.Success? ==> r.value == levels[t]
  {
    if t in levels then Success(levels[t]) else Failure(MissingSecurityLevel(Name(t)))
  }

  // Reading one directory row

  const COLUMN_STREET: nat := 0
  const COLUMN_HOUSE_NUMBER: nat := 1
  const COLUMN_DIRECTORY_NUMBER: nat := 3
  const COLUMN_DISPLAY_NAME: nat := 4
  const COLUMN_PHONE_NUMBER: nat := 5
  const COLUMN_DEVICE_NUMBER: nat := 6
  const COLUMN_DEVICE_NUMBER4: nat := 9

  /** `getDirectoryNumber`: "#" followed by an `int`. */
  function DirectoryNumber(c: Cell): (r: Result<int, Error>)
    ensures r.Success? <==> c.Some? && 0 < |c.value| && c.value[0] == '#' && ParseInt(c.value[1..]).Some?
    ensures r.Success? ==> r.value == ParseInt(c.value[1..]).value
  {
    var text :- RequireText(c, COLUMN_DIRECTORY_NUMBER);
    if |text| == 0 || text[0] != '#' then Failure(MalformedDirectoryNumber(text))
    else ParseIntCell(Some(text[1..]))
  }

  /** A directory number written as "#" and zero-padded digits reads back as itself. */
  lemma DirectoryNumberRoundTrip(n: int, width: nat)
    requires IsInt32(n)
    ensures DirectoryNumber(Some("#" + ZeroPad(n, width))) == Success(n)
  {
    ParseZeroPad(n, width);
    assert ("#" + ZeroPad(n, width))[1..] == ZeroPad(n, width);
  }

  /** `splitPhoneNumber`: the character at index 3 must be '-'; the prefix is before it, the number after. */
  function SplitPhone(c: Cell): (r: Result<(string, string), Error>)
    ensures r.Success? <==> c.Some? && |c.value| >= 4 && c.value[3] == '-'
    ensures r.Success? ==> |r.value.0| == 3 && r.value.0 + "-" + r.value.1 == c.value
    ensures c.Some? && |c.value| < 4 ==> r == Failure(ShortPhoneNumber(c.value))
    ensures c.Some? && |c.value| >= 4 && c.value[3] != '-' ==> r == Failure(MalformedPhoneNumber(c.value))
  {
    var text :- RequireText(c, COLUMN_PHONE_NUMBER);
    if |text| < 4 then Failure(ShortPhoneNumber(text))
    else if text[3] != '-' then Failure(MalformedPhoneNumber(text))
    else
      assert text == text[..3] + "-" + text[4..];
      Success((text[..3], text[4..]))
  }

  /** Any three-character prefix joined to a number by '-' splits back into the two. */
  lemma SplitPhoneRoundTrip(prefix: string, number: string)
    requires |prefix| == 3
    ensures SplitPhone(Some(prefix + "-" + number)) == Success((prefix, number))
  {
    var text := prefix + "-" + number;
    assert text[..3] == prefix && text[4..] == number;
  }

  /** The non-empty cells of a sequence of cells, in order. */
  function Filled(cells: seq<Cell>): (r: seq<string>)
    ensures |r| <= |cells|
    ensures forall i :: 0 <= i < |r| ==> r[i] != ""
    decreases |cells|
  {
    if |cells| == 0 then []
    else (if IsFilled(cells[0]) then [cells[0].value] else []) + Filled(cells[1..])
  }

  /** `addDeviceNumberFromColumn` for one column: the cell if the row reaches it and it is non-empty. */
  function DeviceFromColumn(row: Row, column: nat): (r: seq<string>)
    ensures |r| <= 1
    ensures |r| == 1 <==> column < |row| && row[column].Some? && row[column].value != ""
    ensures |r| == 1 ==> r[0] == row[column].value
  {
    if column < |row| && IsFilled(row[column]) then [row[column].value] else []
  }

  /** The device columns from `column` to the last, cut off where the row ends. */
  function DeviceCells(row: Row, column: nat): seq<Cell> {
    if column > COLUMN_DEVICE_NUMBER4 || |row| <= column then []
    else if |row| <= COLUMN_DEVICE_NUMBER4 then row[column..]
    else row[column..COLUMN_DEVICE_NUMBER4 + 1]
  }

  /** The `addDeviceNumberFromColumn` calls of `getResidentEntry`, from `column` on. */
  function DevicesFrom(row: Row, column: nat): (r: seq<string>)
    ensures |r| + column <= COLUMN_DEVICE_NUMBER4 + 1 || r == []
    decreases COLUMN_DEVICE_NUMBER4 + 1 - column
  {
    if column > COLUMN_DEVICE_NUMBER4 then []
    else DeviceFromColumn(row, column) + DevicesFrom(row, column + 1)
  }

  /** The device numbers of a row. */
  function DeviceNumbers(row: Row): (r: seq<string>)
    ensures |r| <= MAX_DEVICE_NUMBERS
  {
    DevicesFrom(row, COLUMN_DEVICE_NUMBER)
  }

  lemma {:induction false} DevicesFromFilled(row: Row, column: nat)
    ensures DevicesFrom(row, column) == Filled(DeviceCells(row, column))
    decreases COLUMN_DEVICE_NUMBER4 + 1 - column
  {
    if column <= COLUMN_DEVICE_NUMBER4 {
      DevicesFromFilled(row, column + 1);
      if column < |row| {
        assert DeviceCells(row, column)[1..] == DeviceCells(row, column + 1);
      }
    }
  }

  /** A row's device numbers are its non-empty cells in columns 6 to 9, in column order. */
  lemma DeviceNumbersAreFilledCells(row: Row)
    ensures DeviceNumbers(row) == Filled(DeviceCells(row, COLUMN_DEVICE_NUMBER))
    ensures forall i :: 0 <= i < |DeviceNumbers(row)| ==> DeviceNumbers(row)[i] != ""
  {
    DevicesFromFilled(row, COLUMN_DEVICE_NUMBER);
  }

  /** What `getResidentEntry` reads from its row before any code is looked up. */
  datatype ParsedRow = ParsedRow(
    key: AddressKey,
    notes: string,
    name: Cell,
    directoryNumber: int,
    devices: seq<string>,
    prefix: string,
    number: string)

  /** The address key of a directory row, compared with the code sheet's keys. */
  function RowKey(row: Row): AddressKey
    requires |row| >= 2
  {
    AddressKey(row[COLUMN_STREET], row[COLUMN_HOUSE_NUMBER])
  }

  /** The notes of a row's entries: house number, a space, street. */
  function RowNotes(row: Row): string
    requires |row| >= 2
  {
    CellText(row[COLUMN_HOUSE_NUMBER]) + " " + CellText(row[COLUMN_STREET])
  }

  /** `getResidentEntry` reading the row's cells, in the order it reads them. */
  function ParseRow(row: Row): (r: Result<ParsedRow, Error>)
    ensures r.Success? <==> |row| > COLUMN_PHONE_NUMBER && DirectoryNumber(row[3]).Success? && SplitPhone(row[5]).Success?
    ensures r.Success? ==>
      && r.value.key == RowKey(row)
      && r.value.notes == RowNotes(row)
      && r.value.name == row[COLUMN_DISPLAY_NAME]
      && Success(r.value.directoryNumber) == DirectoryNumber(row[COLUMN_DIRECTORY_NUMBER])
      && r.value.devices == DeviceNumbers(row)
      && Success((r.value.prefix, r.value.number)) == SplitPhone(row[COLUMN_PHONE_NUMBER])
  {
    var street :- GetCell(row, COLUMN_STREET);
    var house :- GetCell(row, COLUMN_HOUSE_NUMBER);
    var name :- GetCell(row, COLUMN_DISPLAY_NAME);
    var dirCell := row[COLUMN_DIRECTORY_NUMBER];
    var dir :- DirectoryNumber(dirCell);
    var phoneCell :- GetCell(row, COLUMN_PHONE_NUMBER);
    var phone :- SplitPhone(phoneCell);
    Success(ParsedRow(AddressKey(street, house), CellText(house) + " " + CellText(street), name, dir,
                      DeviceNumbers(row), phone.0, phone.1))
  }

  // Building the row's entries

  function AddDevices(b: Builder, devices: seq<string>): (b': Builder)
    ensures b'.deviceNumbers == b.deviceNumbers + devices
    ensures SameExcept(b, b', DeviceNumbersField)
    decreases |devices|
  {
    if |devices| == 0 then b
    else
      var b' := AddDevices(AddDeviceNumber(b, devices[0]), devices[1..]);
      assert b.deviceNumbers + devices == b.deviceNumbers + [devices[0]] + devices[1..];
      b'
  }

  /** The builder of a row's primary entry before its code is set. */
  function RowBuilder(p: ParsedRow, localPrefix: string): (b: Builder)
    ensures b.displayName == p.name && b.notes == Some(p.notes)
    ensures b.directoryNumber == Some(p.directoryNumber) && b.deviceNumbers == p.devices
    ensures b.phoneNumber == Some(p.number) && b.areaCode == (if p.prefix == localPrefix then None else Some(p.prefix))
    ensures !b.hidden && !b.vendor && b.entryCode.None? && b.securityLevel.None?
  {
    var b := SetNotes(NewBuilder(), p.notes);
    var b := SetDisplayName(b, p.name);
    var b := SetDirectoryNumber(b, p.directoryNumber);
    var b := AddDevices(b, p.devices);
    var b := if p.prefix != localPrefix then SetAreaCode(b, p.prefix) else b;
    SetPhoneNumber(b, p.number)
  }

  /** Sets the entry code and its type's security level, when a code was found. */
  function WithCode(b: Builder, found: Option<EntryCode>, levels: Levels): Result<Builder, Error> {
    match found
    case None => Success(b)
    case Some(c) =>
      var level :- LevelFor(levels, c.codeType);
      Success(SetSecurityLevel(SetEntryCode(b, c.code), level))
  }

  /** `getResidentEntry` building the row's visible entry, with the first PERMANENT code if any. */
  function Primary(p: ParsedRow, localPrefix: string, first: Option<EntryCode>, levels: Levels): (r: Result<Entry, Error>)
    requires |p.devices| <= MAX_DEVICE_NUMBERS
    ensures r.Success? <==> (first.Some? ==> first.value.codeType in levels)
    ensures r.Success? ==> r.value == Entry(p.name, false, if p.prefix == localPrefix then None else Some(p.prefix),
      Some(p.number), Some(p.directoryNumber), if first.Some? then Some(first.value.code) else None,
      if first.Some? then Some(levels[first.value.codeType]) else None, p.devices, Some(p.notes), false)
  {
    var b :- WithCode(RowBuilder(p, localPrefix), first, levels);
    Build(b)
  }

  /** The codes `getResidentEntry` takes out of the resident map for one address. */
  datatype Taken = Taken(first: Option<EntryCode>, permanent: seq<EntryCode>, limited: seq<EntryCode>, left: Residents)

  /**
   * The lookups of `getResidentEntry`: the first PERMANENT code, every further
   * PERMANENT code, then every LIMITED code at the address.
   */
  function Take(rs: Residents, key: AddressKey): (r: Taken)
    ensures r.first.Some? <==> Count(rs, key, PERMANENT) > 0
    ensures r.first.Some? ==> r.first.value.codeType == PERMANENT
    ensures |r.permanent| == if r.first.Some? then Count(rs, key, PERMANENT) - 1 else 0
    ensures |r.limited| == Count(rs, key, LIMITED)
    ensures forall i :: 0 <= i < |r.permanent| ==> r.permanent[i].codeType == PERMANENT
    ensures forall i :: 0 <= i < |r.limited| ==> r.limited[i].codeType == LIMITED
  {
    var (first, rs1) := LookupAndRemove(rs, key, PERMANENT);
    var (permanent, rs2) := Drain(rs1, key, PERMANENT);
    LookupAndRemoveCounts(rs, key, PERMANENT, key, LIMITED);
    DrainCounts(rs1, key, PERMANENT, key, LIMITED);
    var (limited, rs3) := Drain(rs2, key, LIMITED);
    Taken(first, permanent, limited, rs3)
  }

  /** The levels every taken code needs: PERMANENT's when the address has one, LIMITED's when it has one. */
  lemma TakeNeedsLevels(rs: Residents, key: AddressKey, levels: Levels)
    ensures (Count(rs, key, PERMANENT) > 0 ==> PERMANENT in levels) <==>
      (Take(rs, key).first.Some? ==> Take(rs, key).first.value.codeType in levels)
    ensures (Count(rs, key, PERMANENT) > 0 ==> PERMANENT in levels) ==>
      forall i :: 0 <= i < |Take(rs, key).permanent| ==> Take(rs, key).permanent[i].codeType in levels
    ensures (forall i :: 0 <= i < |Take(rs, key).limited| ==> Take(rs, key).limited[i].codeType in levels) <==>
      (Count(rs, key, LIMITED) > 0 ==> LIMITED in levels)
  {
    if |Take(rs, key).limited| > 0 {
      assert Take(rs, key).limited[0].codeType == LIMITED;
    }
  }

  /** All the codes taken, in the order their entries are made. */
  function TakenCodes(t: Taken): seq<EntryCode> {
    (if t.first.Some? then [t.first.value] else []) + t.permanent + t.limited
  }

  /** The lookups take every PERMANENT and LIMITED code of the address and leave every other count alone. */
  lemma TakeCounts(rs: Residents, key: AddressKey, k: AddressKey, t: EntryCodeType)
    ensures Count(Take(rs, key).left, k, t) == if k == key && t != DELIVERY then 0 else Count(rs, k, t)
  {
    var (first, rs1) := LookupAndRemove(rs, key, PERMANENT);
    var (permanent, rs2) := Drain(rs1, key, PERMANENT);
    LookupAndRemoveCounts(rs, key, PERMANENT, k, t);
    DrainCounts(rs1, key, PERMANENT, k, t);
    DrainCounts(rs2, key, LIMITED, k, t);
  }

  /** The codes taken and the codes left make up the map's codes. */
  lemma TakeNumbers(rs: Residents, key: AddressKey)
    ensures Numbers(rs) == Numbers(Take(rs, key).left) + CodeNumbers(TakenCodes(Take(rs, key)))
  {
    var lookup := LookupAndRemove(rs, key, PERMANENT);
    var drained := Drain(lookup.1, key, PERMANENT);
    var limited := Drain(drained.1, key, LIMITED);
    var firsts := if lookup.0.Some? then [lookup.0.value] else [];
    LookupAndRemoveCounts(rs, key, PERMANENT, key, PERMANENT);
    assert Numbers(rs) == Numbers(lookup.1) + CodeNumbers(firsts) by {
      assert CodeNumbers(firsts) == if lookup.0.Some? then multiset{lookup.0.value.code} else multiset{};
    }
    DrainCounts(lookup.1, key, PERMANENT, key, PERMANENT);
    DrainCounts(drained.1, key, LIMITED, key, PERMANENT);
    Telescope(Numbers(rs), Numbers(lookup.1), Numbers(drained.1), Numbers(limited.1), firsts, drained.0, limited.0);
  }

  lemma Telescope(n0: multiset<int>, n1: multiset<int>, n2: multiset<int>, n3: multiset<int>,
                  a: seq<EntryCode>, b: seq<EntryCode>, c: seq<EntryCode>)
    requires n0 == n1 + CodeNumbers(a) && n1 == n2 + CodeNumbers(b) && n2 == n3 + CodeNumbers(c)
    ensures n0 == n3 + CodeNumbers(a + b + c)
  {
    CodeNumbersConcat(a + b, c);
    CodeNumbersConcat(a, b);
  }

  /** The lookups only remove, keep every other assignment, and keep the map free of repeats. */
  lemma TakeKeeps(rs: Residents, key: AddressKey)
    ensures forall a :: a in Take(rs, key).left ==> a in rs
    ensures forall a :: a in rs && (a.key != key || a.code.codeType == DELIVERY) ==> a in Take(rs, key).left
    ensures NoRepeats(rs) ==> NoRepeats(Take(rs, key).left)
  {
    var (first, rs1) := LookupAndRemove(rs, key, PERMANENT);
    var (permanent, rs2) := Drain(rs1, key, PERMANENT);
    LookupAndRemoveKeeps(rs, key, PERMANENT);
    DrainKeeps(rs1, key, PERMANENT);
    DrainKeeps(rs2, key, LIMITED);
    if NoRepeats(rs) {
      LookupAndRemoveNoRepeats(rs, key, PERMANENT);
    }
  }

  /** Every one of `codes` is assigned to `key` in `rs`. */
  predicate AllFrom(rs: Residents, key: AddressKey, codes: seq<EntryCode>) {
    forall i :: 0 <= i < |codes| ==> Assignment(key, codes[i]) in rs
  }

  lemma AllFromWider(rs: Residents, rs': Residents, key: AddressKey, codes: seq<EntryCode>)
    requires AllFrom(rs', key, codes)
    requires forall a :: a in rs' ==> a in rs
    ensures AllFrom(rs, key, codes)
  {
    forall i | 0 <= i < |codes|
      ensures Assignment(key, codes[i]) in rs
    {
      assert Assignment(key, codes[i]) in rs';
    }
  }

  lemma AllFromConcat(rs: Residents, key: AddressKey, a: seq<EntryCode>, b: seq<EntryCode>, c: seq<EntryCode>)
    requires AllFrom(rs, key, a) && AllFrom(rs, key, b) && AllFrom(rs, key, c)
    ensures AllFrom(rs, key, a + b + c)
  {
    var all := a + b + c;
    forall i | 0 <= i < |all|
      ensures Assignment(key, all[i]) in rs
    {
      if i < |a| {
        assert all[i] == a[i];
      } else if i < |a| + |b| {
        assert all[i] == b[i - |a|];
      } else {
        assert all[i] == c[i - |a| - |b|];
      }
    }
  }

  /** Every code taken was assigned to the address. */
  lemma TakeFrom(rs: Residents, key: AddressKey)
    ensures forall i :: 0 <= i < |TakenCodes(Take(rs, key))| ==> Assignment(key, TakenCodes(Take(rs, key))[i]) in rs
  {
    var lookup := LookupAndRemove(rs, key, PERMANENT);
    var rs1 := lookup.1;
    var drained := Drain(rs1, key, PERMANENT);
    var rs2 := drained.1;
    var firsts := if lookup.0.Some? then [lookup.0.value] else [];
    assert AllFrom(rs, key, firsts);
    LookupAndRemoveKeeps(rs, key, PERMANENT);
    DrainKeeps(rs1, key, PERMANENT);
    DrainFrom(rs1, key, PERMANENT);
    DrainFrom(rs2, key, LIMITED);
    AllFromWider(rs, rs1, key, drained.0);
    AllFromWider(rs1, rs2, key, Drain(rs2, key, LIMITED).0);
    AllFromWider(rs, rs1, key, Drain(rs2, key, LIMITED).0);
    AllFromConcat(rs, key, firsts, drained.0, Drain(rs2, key, LIMITED).0);
    assert TakenCodes(Take(rs, key)) == firsts + drained.0 + Drain(rs2, key, LIMITED).0;
  }

  /** A hidden entry for one more code at a row's address. */
  function Expansion(name: Cell, suffix: nat, notes: string, c: EntryCode, level: int): Entry {
    Entry(Some(CellText(name) + " " + Digits(suffix)), true, None, None, None,
          Some(c.code), Some(level), [], Some(notes), false)
  }

  /**
   * The source builds every hidden entry by clearing and refilling the row's
   * builder; whatever that builder held, the result is the fresh `Expansion`.
   */
  lemma ReusedBuilderIsExpansion(b: Builder, name: Cell, suffix: nat, notes: string, c: EntryCode, level: int)
    requires !b.vendor
    ensures var b' := ClearPhoneNumber(ClearAreaCode(ClearDirectoryNumber(ClearDeviceNumber(b))));
      var b' := SetDisplayName(b', Some(CellText(name) + " " + Digits(suffix)));
      var b' := SetSecurityLevel(SetEntryCode(b', c.code), level);
      Build(MarkHidden(SetNotes(b', notes))) == Success(Expansion(name, suffix, notes, c, level))
  {
  }

  /** One hidden entry per code, suffixes counting up from `first`. */
  function Expansions(name: Cell, notes: string, codes: seq<EntryCode>, first: nat, levels: Levels): (r: Result<seq<Entry>, Error>)
    ensures r.Success? <==> forall i :: 0 <= i < |codes| ==> codes[i].codeType in levels
    ensures r.Success? ==> |r.value| == |codes|
    decreases |codes|
  {
    if |codes| == 0 then Success([])
    else
      var level :- LevelFor(levels, codes[0].codeType);
      var rest :- Expansions(name, notes, codes[1..], first + 1, levels);
      Success([Expansion(name, first, notes, codes[0], level)] + rest)
  }

  /** The `i`th hidden entry holds the `i`th code, with suffix `first + i` and its type's level. */
  lemma {:induction false} ExpansionsAt(name: Cell, notes: string, codes: seq<EntryCode>, first: nat, levels: Levels, i: nat)
    requires Expansions(name, notes, codes, first, levels).Success? && i < |codes|
    ensures Expansions(name, notes, codes, first, levels).value[i] ==
      Expansion(name, first + i, notes, codes[i], levels[codes[i].codeType])
    decreases |codes|
  {
    if i > 0 {
      ExpansionsAt(name, notes, codes[1..], first + 1, levels, i - 1);
    }
  }

  const PERMANENT_NOTE: string := " permanent"
  const LIMITED_NOTE: string := " limited"

  /**
   * `getResidentEntry`: the primary entry with the first PERMANENT code at the
   * address, then a hidden entry for each further PERMANENT code, then one
   * for each LIMITED code; returns the entries and the remaining resident codes.
   */
  function ResidentEntries(row: Row, localPrefix: string, levels: Levels, rs: Residents): Result<(seq<Entry>, Residents), Error> {
    var p :- ParseRow(row);
    var taken := Take(rs, p.key);
    var primary :- Primary(p, localPrefix, taken.first, levels);
    var morePermanent :- Expansions(p.name, p.notes + PERMANENT_NOTE, taken.permanent, 2, levels);
    var moreLimited :- Expansions(p.name, p.notes + LIMITED_NOTE, taken.limited, 2 + |taken.permanent|, levels);
    Success(([primary] + morePermanent + moreLimited, taken.left))
  }

  /** `rows.forEach(row -> result.addAll(getResidentEntry(row, ...)))`. */
  function RowsEntries(rows: seq<Row>, localPrefix: string, levels: Levels, rs: Residents): Result<(seq<Entry>, Residents), Error>
    decreases |rows|
  {
    if |rows| == 0 then Success(([], rs))
    else
      var here :- ResidentEntries(rows[0], localPrefix, levels, rs);
      var rest :- RowsEntries(rows[1..], localPrefix, levels, here.1);
      Success((here.0 + rest.0, rest.1))
  }

  /** `getVendorEntry`: a visible vendor entry carrying only the name, the code and its level. */
  function VendorEntry(n: Named<string>, levels: Levels): (r: Result<Entry, Error>)
    ensures r.Success? <==> n.code.codeType in levels
    ensures r.Success? ==> r.value == Entry(Some(n.name), false, None, None, None, Some(n.code.code),
                                           Some(levels[n.code.codeType]), [], None, true)
  {
    var level :- LevelFor(levels, n.code.codeType);
    var b := SetDisplayName(NewBuilder(), Some(n.name));
    var b := SetSecurityLevel(SetEntryCode(b, n.code.code), level);
    Build(MarkVendor(b))
  }

  /** `getLegacyResidentEntry`: a hidden "Legacy entry"; only PERMANENT codes are accepted. */
  function LegacyEntry(n: Named<Cell>, levels: Levels): (r: Result<Entry, Error>)
    ensures r.Success? <==> n.code.codeType == PERMANENT && PERMANENT in levels
    ensures n.code.codeType != PERMANENT ==> r == Failure(InvalidLegacyCodeType(n.name))
    ensures r.Success? ==> r.value == Entry(n.name, true, None, None, None, Some(n.code.code),
                                           Some(levels[PERMANENT]), [], Some(LEGACY_NOTES), false)
  {
    if n.code.codeType != PERMANENT then Failure(InvalidLegacyCodeType(n.name))
    else
      var b := SetNotes(SetDisplayName(NewBuilder(), n.name), LEGACY_NOTES);
      var level :- LevelFor(levels, n.code.codeType);
      var b := SetSecurityLevel(SetEntryCode(b, n.code.code), level);
      Build(MarkHidden(b))
  }

  const LEGACY_NOTES: string := "Legacy entry"

  function VendorEntries(vendors: seq<Named<string>>, levels: Levels): (r: Result<seq<Entry>, Error>)
    ensures r.Success? <==> forall i :: 0 <= i < |vendors| ==> VendorEntry(vendors[i], levels).Success?
    ensures r.Success? ==> |r.value| == |vendors|
    ensures r.Success? ==> forall i :: 0 <= i < |vendors| ==> VendorEntry(vendors[i], levels) == Success(r.value[i])
    decreases |vendors|
  {
    if |vendors| == 0 then Success([])
    else
      var e :- VendorEntry(vendors[0], levels);
      var rest :- VendorEntries(vendors[1..], levels);
      assert forall i :: 1 <= i < |vendors| ==> vendors[i] == vendors[1..][i - 1];
      Success([e] + rest)
  }

  function LegacyEntries(legacy: seq<Named<Cell>>, levels: Levels): (r: Result<seq<Entry>, Error>)
    ensures r.Success? <==> forall i :: 0 <= i < |legacy| ==> LegacyEntry(legacy[i], levels).Success?
    ensures r.Success? ==> |r.value| == |legacy|
    ensures r.Success? ==> forall i :: 0 <= i < |legacy| ==> LegacyEntry(legacy[i], levels) == Success(r.value[i])
    decreases |legacy|
  {
    if |legacy| == 0 then Success([])
    else
      var e :- LegacyEntry(legacy[0], levels);
      var rest :- LegacyEntries(legacy[1..], levels);
      assert forall i :: 1 <= i < |legacy| ==> legacy[i] == legacy[1..][i - 1];
      Success([e] + rest)
  }

  /**
   * `EntryAdapter.adapt`: the rows' entries in row order, then, once every
   * resident code has been consumed, the vendor entries, then the legacy entries.
   */
  function Adapt(config: Config, rows: seq<Row>, book: Book): Result<seq<Entry>, Error> {
    var levels :- ReadSecurityLevels(config.securityLevelMappings);
    var resident :- RowsEntries(rows, config.localPhonePrefix, levels, book.residents);
    if |resident.1| > 0 then Failure(UnconsumedResidentCodes(|resident.1|))
    else
      var vendor :- VendorEntries(book.vendors, levels);
      var legacy :- LegacyEntries(book.legacy, levels);
      Success(resident.0 + vendor + legacy)
  }
}
