/**
 * A DoorKing entry: one line of the CSV file imported into Account Manager,
 * its builder, and its fixed 13-column serialisation.
 */
module Entries {
  import opened Wrappers
  import opened Cells
  import opened Decimal
  import Text

  /** `build` refuses more device numbers than this. */
  const MAX_DEVICE_NUMBERS: nat := 4

  /** An immutable entry; `None` is a field left null. */
  datatype Entry = Entry(
    displayName: Option<string>,
    hidden: bool,
    areaCode: Option<string>,
    phoneNumber: Option<string>,
    directoryNumber: Option<int>,
    entryCode: Option<int>,
    securityLevel: Option<int>,
    deviceNumbers: seq<string>,
    notes: Option<string>,
    vendor: bool)

  /** What every built entry satisfies: code and level come together, at most four devices. */
  predicate Valid(e: Entry) {
    && (e.entryCode.Some? <==> e.securityLevel.Some?)
    && |e.deviceNumbers| <= MAX_DEVICE_NUMBERS
  }

  /** The mutable builder's state, as a value; every setter returns the next state. */
  datatype Builder = Builder(
    displayName: Option<string>,
    hidden: bool,
    areaCode: Option<string>,
    phoneNumber: Option<string>,
    directoryNumber: Option<int>,
    entryCode: Option<int>,
    securityLevel: Option<int>,
    deviceNumbers: seq<string>,
    notes: Option<string>,
    vendor: bool)

  /** The builder's fields, to say which one a setter changes. */
  datatype Field =
    | DisplayNameField | HiddenField | AreaCodeField | PhoneNumberField | DirectoryNumberField
    | EntryCodeField | SecurityLevelField | DeviceNumbersField | NotesField | VendorField

  /** `b` and `b'` agree on every field except possibly `f`. */
  predicate SameExcept(b: Builder, b': Builder, f: Field) {
    && (f == DisplayNameField || b'.displayName == b.displayName)
    && (f == HiddenField || b'.hidden == b.hidden)
    && (f == AreaCodeField || b'.areaCode == b.areaCode)
    && (f == PhoneNumberField || b'.phoneNumber == b.phoneNumber)
    && (f == DirectoryNumberField || b'.directoryNumber == b.directoryNumber)
    && (f == EntryCodeField || b'.entryCode == b.entryCode)
    && (f == SecurityLevelField || b'.securityLevel == b.securityLevel)
    && (f == DeviceNumbersField || b'.deviceNumbers == b.deviceNumbers)
    && (f == NotesField || b'.notes == b.notes)
    && (f == VendorField || b'.vendor == b.vendor)
  }

  /** `Entry.newBuilder()`: nothing set, no device numbers, neither hidden nor vendor. */
  function NewBuilder(): (b: Builder)
    ensures b.displayName.None? && b.areaCode.None? && b.phoneNumber.None? && b.notes.None?
    ensures b.directoryNumber.None? && b.entryCode.None? && b.securityLevel.None?
    ensures b.deviceNumbers == [] && !b.hidden && !b.vendor
  {
    Builder(None, false, None, None, None, None, None, [], None, false)
  }

  function SetDisplayName(b: Builder, name: Option<string>): (b': Builder)
    ensures b'.displayName == name && SameExcept(b, b', DisplayNameField)
  {
    b.(displayName := name)
  }

  function MarkHidden(b: Builder): (b': Builder)
    ensures b'.hidden && SameExcept(b, b', HiddenField)
  {
    b.(hidden := true)
  }

  function SetAreaCode(b: Builder, areaCode: string): (b': Builder)
    ensures b'.areaCode == Some(areaCode) && SameExcept(b, b', AreaCodeField)
  {
    b.(areaCode := Some(areaCode))
  }

  function ClearAreaCode(b: Builder): (b': Builder)
    ensures b'.areaCode.None? && SameExcept(b, b', AreaCodeField)
  {
    b.(areaCode := None)
  }

  function SetPhoneNumber(b: Builder, phoneNumber: string): (b': Builder)
    ensures b'.phoneNumber == Some(phoneNumber) && SameExcept(b, b', PhoneNumberField)
  {
    b.(phoneNumber := Some(phoneNumber))
  }

  function ClearPhoneNumber(b: Builder): (b': Builder)
    ensures b'.phoneNumber.None? && SameExcept(b, b', PhoneNumberField)
  {
    b.(phoneNumber := None)
  }

  function SetDirectoryNumber(b: Builder, directoryNumber: int): (b': Builder)
    ensures b'.directoryNumber == Some(directoryNumber) && SameExcept(b, b', DirectoryNumberField)
  {
    b.(directoryNumber := Some(directoryNumber))
  }

  function ClearDirectoryNumber(b: Builder): (b': Builder)
    ensures b'.directoryNumber.None? && SameExcept(b, b', DirectoryNumberField)
  {
    b.(directoryNumber := None)
  }

  function SetEntryCode(b: Builder, entryCode: int): (b': Builder)
    ensures b'.entryCode == Some(entryCode) && SameExcept(b, b', EntryCodeField)
  {
    b.(entryCode := Some(entryCode))
  }

  function SetSecurityLevel(b: Builder, securityLevel: int): (b': Builder)
    ensures b'.securityLevel == Some(securityLevel) && SameExcept(b, b', SecurityLevelField)
  {
    b.(securityLevel := Some(securityLevel))
  }

  function AddDeviceNumber(b: Builder, deviceNumber: string): (b': Builder)
    ensures |b'.deviceNumbers| == |b.deviceNumbers| + 1
    ensures b'.deviceNumbers[..|b.deviceNumbers|] == b.deviceNumbers
    ensures b'.deviceNumbers[|b.deviceNumbers|] == deviceNumber
    ensures SameExcept(b, b', DeviceNumbersField)
  {
    b.(deviceNumbers := b.deviceNumbers + [deviceNumber])
  }

  function ClearDeviceNumber(b: Builder): (b': Builder)
    ensures b'.deviceNumbers == [] && SameExcept(b, b', DeviceNumbersField)
  {
    b.(deviceNumbers := [])
  }

  function SetNotes(b: Builder, notes: string): (b': Builder)
    ensures b'.notes == Some(notes) && SameExcept(b, b', NotesField)
  {
    b.(notes := Some(notes))
  }

  function MarkVendor(b: Builder): (b': Builder)
    ensures b'.vendor && SameExcept(b, b', VendorField)
  {
    b.(vendor := true)
  }

  /** A later set of the same field overrides an earlier one, and a clear undoes a set. */
  lemma LastWriteWins(b: Builder, x: string, y: string, m: int, n: int)
    ensures SetAreaCode(SetAreaCode(b, x), y) == SetAreaCode(b, y)
    ensures ClearAreaCode(SetAreaCode(b, x)) == ClearAreaCode(b)
    ensures ClearPhoneNumber(SetPhoneNumber(b, x)) == ClearPhoneNumber(b)
    ensures ClearDirectoryNumber(SetDirectoryNumber(b, m)) == ClearDirectoryNumber(b)
    ensures SetEntryCode(SetEntryCode(b, m), n) == SetEntryCode(b, n)
    ensures ClearDeviceNumber(AddDeviceNumber(b, x)) == ClearDeviceNumber(b)
  {
  }

  /** The builder's state is copied into the entry unchanged. */
  predicate Carries(b: Builder, e: Entry) {
    && e.displayName == b.displayName
    && e.hidden == b.hidden
    && e.areaCode == b.areaCode
    && e.phoneNumber == b.phoneNumber
    && e.directoryNumber == b.directoryNumber
    && e.entryCode == b.entryCode
    && e.securityLevel == b.securityLevel
    && e.deviceNumbers == b.deviceNumbers
    && e.notes == b.notes
    && e.vendor == b.vendor
  }

  /**
   * `Builder.build`: refuses five or more device numbers, then the entry
   * constructor refuses an entry code without a security level or the reverse.
   */
  function Build(b: Builder): (r: Result<Entry, Error>)
    ensures r.Success? <==> |b.deviceNumbers| <= MAX_DEVICE_NUMBERS && (b.entryCode.Some? <==> b.securityLevel.Some?)
    ensures |b.deviceNumbers| > MAX_DEVICE_NUMBERS ==> r == Failure(TooManyDevices(|b.deviceNumbers|))
    ensures |b.deviceNumbers| <= MAX_DEVICE_NUMBERS && r.Failure? ==> r.error == InconsistentEntryCode
    ensures r.Success? ==> Valid(r.value) && Carries(b, r.value)
  {
    if |b.deviceNumbers| >= 5 then Failure(TooManyDevices(|b.deviceNumbers|))
    else if b.entryCode.None? != b.securityLevel.None? then Failure(InconsistentEntryCode)
    else Success(Entry(b.displayName, b.hidden, b.areaCode, b.phoneNumber, b.directoryNumber,
                       b.entryCode, b.securityLevel, b.deviceNumbers, b.notes, b.vendor))
  }

  // Serialisation

  /** The column names written above the entries, in column order. */
  const HEADERS: seq<string> := ["Resident", "H", "AAC", "PHONE", "DIR", "ENT", "SL",
                                 "DEVICE#", "NOTES", "VENDOR", "DEVICE2", "DEVICE3", "DEVICE4"]

  /** `Entry.getHeaders()`. */
  function Headers(): string {
    Text.Join(HEADERS)
  }

  /** The header line splits into exactly the 13 column names. */
  lemma HeaderColumns()
    ensures Text.Split(Headers()) == HEADERS
    ensures |Text.Split(Headers())| == 13
  {
    assert Text.NoCommas(HEADERS) by {
      forall i | 0 <= i < |HEADERS| ensures ',' !in HEADERS[i] {
      }
    }
    Text.SplitJoin(HEADERS);
  }

  function OrEmpty(s: Option<string>): string {
    match s
    case Some(v) => v
    case None => ""
  }

  function PaddedOrEmpty(n: Option<int>, width: nat): string {
    match n
    case Some(v) => ZeroPad(v, width)
    case None => ""
  }

  function Flag(b: bool): string {
    if b then "Y" else "N"
  }

  function DeviceField(devices: seq<string>, i: nat): string {
    if i < |devices| then devices[i] else ""
  }

  /** The 13 column values of `Entry.toString()`, before they are joined. */
  function Fields(e: Entry): (f: seq<string>)
    ensures |f| == |HEADERS|
    ensures f[2] == "" <==> e.areaCode.None?
    ensures f[4] == "" <==> e.directoryNumber.None?
    ensures f[5] == "" <==> e.entryCode.None?
    ensures f[6] == "" <==> e.securityLevel.None?
    ensures e.directoryNumber.Some? && e.directoryNumber.value >= 0 ==> AllDigits(f[4]) && |f[4]| >= 3
    ensures e.entryCode.Some? && e.entryCode.value >= 0 ==> AllDigits(f[5]) && |f[5]| >= 4
    ensures e.securityLevel.Some? && e.securityLevel.value >= 0 ==> AllDigits(f[6]) && |f[6]| >= 2
  {
    [ OrEmpty(e.displayName),
      Flag(e.hidden),
      match e.areaCode { case Some(a) => "1" + a case None => "" },
      OrEmpty(e.phoneNumber),
      PaddedOrEmpty(e.directoryNumber, 3),
      PaddedOrEmpty(e.entryCode, 4),
      PaddedOrEmpty(e.securityLevel, 2),
      DeviceField(e.deviceNumbers, 0),
      OrEmpty(e.notes),
      Flag(e.vendor),
      DeviceField(e.deviceNumbers, 1),
      DeviceField(e.deviceNumbers, 2),
      DeviceField(e.deviceNumbers, 3) ]
  }

  /** `Entry.toString()`: the line written to the CSV file. */
  function ToLine(e: Entry): string {
    Text.Join(Fields(e))
  }

  // Reading a line back, the inverse the round-trip lemma below is stated against.

  function OptionalText(s: string): Option<string> {
    if s == "" then None else Some(s)
  }

  function ParseFlag(s: string): Option<bool> {
    if s == "Y" then Some(true) else if s == "N" then Some(false) else None
  }

  function ParseOptionalInt(s: string): Option<Option<int>> {
    if s == "" then Some(None)
    else
      var n :- ParseInt(s);
      Some(Some(n))
  }

  function ParseAreaCode(s: string): Option<Option<string>> {
    if s == "" then Some(None)
    else if s[0] == '1' then Some(Some(s[1..]))
    else None
  }

  /** The device numbers in the four device columns, up to the first empty one. */
  function LeadingDevices(cols: seq<string>): seq<string>
    decreases |cols|
  {
    if |cols| == 0 || cols[0] == "" then [] else [cols[0]] + LeadingDevices(cols[1..])
  }

  /** Reads the 13 column values of one line back into an entry. */
  function FromFields(f: seq<string>): Option<Entry>
    requires |f| == |HEADERS|
  {
    var hidden :- ParseFlag(f[1]);
    var areaCode :- ParseAreaCode(f[2]);
    var directoryNumber :- ParseOptionalInt(f[4]);
    var entryCode :- ParseOptionalInt(f[5]);
    var securityLevel :- ParseOptionalInt(f[6]);
    var vendor :- ParseFlag(f[9]);
    Some(Entry(OptionalText(f[0]), hidden, areaCode, OptionalText(f[3]), directoryNumber,
               entryCode, securityLevel, LeadingDevices([f[7], f[10], f[11], f[12]]),
               OptionalText(f[8]), vendor))
  }

  /** Reads one CSV line back into an entry. */
  function ParseLine(line: string): Option<Entry> {
    var f := Text.Split(line);
    if |f| != |HEADERS| then None else FromFields(f)
  }

  /**
   * What the 13 columns carry unambiguously: present text fields non-empty
   * (an empty one is written like an absent one), and numbers in Java's `int`
   * range.
   */
  predicate Lossless(e: Entry) {
    && Valid(e)
    && (e.displayName.Some? ==> e.displayName.value != "")
    && (e.phoneNumber.Some? ==> e.phoneNumber.value != "")
    && (e.notes.Some? ==> e.notes.value != "")
    && (forall i :: 0 <= i < |e.deviceNumbers| ==> e.deviceNumbers[i] != "")
    && (e.directoryNumber.Some? ==> IsInt32(e.directoryNumber.value))
    && (e.entryCode.Some? ==> IsInt32(e.entryCode.value))
    && (e.securityLevel.Some? ==> IsInt32(e.securityLevel.value))
  }

  /** What a line can carry unambiguously: the columns, and no comma in any of them, since the joiner does not escape. */
  predicate Serializable(e: Entry) {
    Lossless(e) && Text.NoCommas(Fields(e))
  }

  lemma ParsePadded(n: Option<int>, width: nat)
    requires n.Some? ==> IsInt32(n.value)
    ensures ParseOptionalInt(PaddedOrEmpty(n, width)) == Some(n)
  {
    if n.Some? {
      ParseZeroPad(n.value, width);
    }
  }

  function Blanks(k: nat): (s: seq<string>)
    ensures |s| == k && forall i :: 0 <= i < k ==> s[i] == ""
  {
    seq(k, _ => "")
  }

  lemma {:induction false} LeadingDevicesBeforeBlanks(devices: seq<string>, k: nat)
    requires forall i :: 0 <= i < |devices| ==> devices[i] != ""
    ensures LeadingDevices(devices + Blanks(k)) == devices
    decreases |devices|
  {
    if |devices| == 0 {
      assert devices + Blanks(k) == Blanks(k);
    } else {
      assert (devices + Blanks(k))[1..] == devices[1..] + Blanks(k);
      LeadingDevicesBeforeBlanks(devices[1..], k);
    }
  }

  lemma DeviceColumns(devices: seq<string>)
    requires |devices| <= MAX_DEVICE_NUMBERS
    requires forall i :: 0 <= i < |devices| ==> devices[i] != ""
    ensures LeadingDevices([DeviceField(devices, 0), DeviceField(devices, 1),
                            DeviceField(devices, 2), DeviceField(devices, 3)]) == devices
  {
    var cols := [DeviceField(devices, 0), DeviceField(devices, 1), DeviceField(devices, 2), DeviceField(devices, 3)];
    assert cols == devices + Blanks(4 - |devices|);
    LeadingDevicesBeforeBlanks(devices, 4 - |devices|);
  }

  /** The 13 column values of a serialisable entry read back as that entry. */
  lemma FieldsRoundTrip(e: Entry)
    requires Lossless(e)
    ensures FromFields(Fields(e)) == Some(e)
  {
    var f := Fields(e);
    assert ParseFlag(f[1]) == Some(e.hidden);
    assert ParseFlag(f[9]) == Some(e.vendor);
    assert ParseAreaCode(f[2]) == Some(e.areaCode) by {
      if e.areaCode.Some? {
        assert f[2][1..] == e.areaCode.value;
      }
    }
    ParsePadded(e.directoryNumber, 3);
    ParsePadded(e.entryCode, 4);
    ParsePadded(e.securityLevel, 2);
    DeviceColumns(e.deviceNumbers);
    assert [f[7], f[10], f[11], f[12]] == [DeviceField(e.deviceNumbers, 0), DeviceField(e.deviceNumbers, 1),
                                          DeviceField(e.deviceNumbers, 2), DeviceField(e.deviceNumbers, 3)];
    assert OptionalText(f[0]) == e.displayName;
    assert OptionalText(f[3]) == e.phoneNumber;
    assert OptionalText(f[8]) == e.notes;
    FromParsedFields(f, e);
  }

  /** Column values each of which reads back as the matching field make up the entry. */
  lemma FromParsedFields(f: seq<string>, e: Entry)
    requires |f| == |HEADERS|
    requires ParseFlag(f[1]) == Some(e.hidden) && ParseFlag(f[9]) == Some(e.vendor)
    requires ParseAreaCode(f[2]) == Some(e.areaCode)
    requires ParseOptionalInt(f[4]) == Some(e.directoryNumber)
    requires ParseOptionalInt(f[5]) == Some(e.entryCode)
    requires ParseOptionalInt(f[6]) == Some(e.securityLevel)
    requires OptionalText(f[0]) == e.displayName && OptionalText(f[3]) == e.phoneNumber
    requires OptionalText(f[8]) == e.notes
    requires LeadingDevices([f[7], f[10], f[11], f[12]]) == e.deviceNumbers
    ensures FromFields(f) == Some(e)
  {
  }

  /** A serialised entry reads back as the same entry: the line loses nothing. */
  lemma LineRoundTrip(e: Entry)
    requires Serializable(e)
    ensures ParseLine(ToLine(e)) == Some(e)
  {
    Text.SplitJoin(Fields(e));
    FieldsRoundTrip(e);
  }
}
