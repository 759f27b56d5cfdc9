/**
 * What the reconciler promises about its output: the shape of each row's
 * entries, that every resident code ends up in exactly one entry, and the
 * layout of the whole list.
 */
module ReconcilerProperties {
  import opened Wrappers
  import opened Cells
  import opened Decimal
  import opened EntryCodes
  import opened Entries
  import opened CodeBook
  import opened Reconciler

  /** The entry code numbers the entries carry, with multiplicity. */
  function EmittedCodes(es: seq<Entry>): multiset<int>
    decreases |es|
  {
    if |es| == 0 then multiset{}
    else (if es[0].entryCode.Some? then multiset{es[0].entryCode.value} else multiset{}) + EmittedCodes(es[1..])
  }

  lemma {:induction false} EmittedConcat(a: seq<Entry>, b: seq<Entry>)
    ensures EmittedCodes(a + b) == EmittedCodes(a) + EmittedCodes(b)
    decreases |a|
  {
    if |a| == 0 {
      assert a + b == b;
    } else {
      assert (a + b)[1..] == a[1..] + b;
      EmittedConcat(a[1..], b);
    }
  }

  /** The entries that are not hidden, in order. */
  function Visible(es: seq<Entry>): seq<Entry>
    decreases |es|
  {
    if |es| == 0 then [] else (if es[0].hidden then [] else [es[0]]) + Visible(es[1..])
  }

  lemma {:induction false} VisibleConcat(a: seq<Entry>, b: seq<Entry>)
    ensures Visible(a + b) == Visible(a) + Visible(b)
    decreases |a|
  {
    if |a| == 0 {
      assert a + b == b;
    } else {
      assert (a + b)[1..] == a[1..] + b;
      VisibleConcat(a[1..], b);
    }
  }

  lemma {:induction false} NoneVisible(es: seq<Entry>, k: nat)
    requires k <= |es|
    requires forall i :: k <= i < |es| ==> es[i].hidden
    ensures Visible(es[k..]) == []
    decreases |es| - k
  {
    if k < |es| {
      NoneVisible(es, k + 1);
      assert es[k..][1..] == es[k + 1..];
    }
  }

  /** Every entry satisfies the entry invariant and none is a vendor entry. */
  predicate ResidentLike(es: seq<Entry>) {
    forall i :: 0 <= i < |es| ==> Valid(es[i]) && !es[i].vendor
  }

  lemma ResidentLikeConcat(a: seq<Entry>, b: seq<Entry>)
    requires ResidentLike(a) && ResidentLike(b)
    ensures ResidentLike(a + b)
  {
    forall i | 0 <= i < |a + b|
      ensures Valid((a + b)[i]) && !(a + b)[i].vendor
    {
      if i >= |a| {
        assert (a + b)[i] == b[i - |a|];
      }
    }
  }

  // One row

  /** The row's entries, once the row has been read. */
  function RowOut(row: Row, localPrefix: string, levels: Levels, rs: Residents): seq<Entry>
    requires ResidentEntries(row, localPrefix, levels, rs).Success?
  {
    ResidentEntries(row, localPrefix, levels, rs).value.0
  }

  /** The resident codes left once the row has been read. */
  function RowLeft(row: Row, localPrefix: string, levels: Levels, rs: Residents): Residents
    requires ResidentEntries(row, localPrefix, levels, rs).Success?
  {
    ResidentEntries(row, localPrefix, levels, rs).value.1
  }

  /** The kind a row's `i`th hidden entry names in its notes, given `p` PERMANENT codes at the address. */
  function Kind(i: nat, p: nat): string {
    if i < p then PERMANENT_NOTE else LIMITED_NOTE
  }

  /** The pieces a row's entries are made of, once the row has been read. */
  lemma RowSteps(row: Row, localPrefix: string, levels: Levels, rs: Residents)
    requires ResidentEntries(row, localPrefix, levels, rs).Success?
    ensures ParseRow(row).Success? && |row| > COLUMN_PHONE_NUMBER
    ensures var p := ParseRow(row).value;
      var taken := Take(rs, p.key);
      && p.key == RowKey(row)
      && Primary(p, localPrefix, taken.first, levels).Success?
      && Expansions(p.name, p.notes + PERMANENT_NOTE, taken.permanent, 2, levels).Success?
      && Expansions(p.name, p.notes + LIMITED_NOTE, taken.limited, 2 + |taken.permanent|, levels).Success?
      && RowOut(row, localPrefix, levels, rs) ==
         [Primary(p, localPrefix, taken.first, levels).value]
         + Expansions(p.name, p.notes + PERMANENT_NOTE, taken.permanent, 2, levels).value
         + Expansions(p.name, p.notes + LIMITED_NOTE, taken.limited, 2 + |taken.permanent|, levels).value
      && RowLeft(row, localPrefix, levels, rs) == taken.left
  {
    var p := ParseRow(row).value;
    var taken := Take(rs, p.key);
    assert Primary(p, localPrefix, taken.first, levels).Success?;
    assert Expansions(p.name, p.notes + PERMANENT_NOTE, taken.permanent, 2, levels).Success?;
    assert Expansions(p.name, p.notes + LIMITED_NOTE, taken.limited, 2 + |taken.permanent|, levels).Success?;
  }

  /** A row's lookups need a level for each type of code found at its address. */
  lemma RowNeedsLevels(row: Row, localPrefix: string, levels: Levels, rs: Residents)
    requires ResidentEntries(row, localPrefix, levels, rs).Success?
    ensures ParseRow(row).Success?
    ensures Count(rs, RowKey(row), PERMANENT) > 0 ==> PERMANENT in levels
    ensures Count(rs, RowKey(row), LIMITED) > 0 ==> LIMITED in levels
  {
    RowSteps(row, localPrefix, levels, rs);
    TakeNeedsLevels(rs, RowKey(row), levels);
  }

  /** A well-formed row whose codes all have levels is read without error. */
  lemma RowReadable(row: Row, localPrefix: string, levels: Levels, rs: Residents)
    requires ParseRow(row).Success?
    requires Count(rs, RowKey(row), PERMANENT) > 0 ==> PERMANENT in levels
    requires Count(rs, RowKey(row), LIMITED) > 0 ==> LIMITED in levels
    ensures ResidentEntries(row, localPrefix, levels, rs).Success?
  {
    var p := ParseRow(row).value;
    var taken := Take(rs, p.key);
    TakeNeedsLevels(rs, p.key, levels);
    assert Primary(p, localPrefix, taken.first, levels).Success?;
    assert Expansions(p.name, p.notes + PERMANENT_NOTE, taken.permanent, 2, levels).Success?;
    assert Expansions(p.name, p.notes + LIMITED_NOTE, taken.limited, 2 + |taken.permanent|, levels).Success?;
  }

  /**
   * A row is read without error exactly when its cells are well formed and
   * the configuration gives a level for each type of code found at its address.
   */
  lemma RowSucceeds(row: Row, localPrefix: string, levels: Levels, rs: Residents)
    ensures ResidentEntries(row, localPrefix, levels, rs).Success? <==>
      && ParseRow(row).Success?
      && (Count(rs, RowKey(row), PERMANENT) > 0 ==> PERMANENT in levels)
      && (Count(rs, RowKey(row), LIMITED) > 0 ==> LIMITED in levels)
  {
    if ResidentEntries(row, localPrefix, levels, rs).Success? {
      RowNeedsLevels(row, localPrefix, levels, rs);
    } else if ParseRow(row).Success? && (Count(rs, RowKey(row), PERMANENT) > 0 ==> PERMANENT in levels) {
      if Count(rs, RowKey(row), LIMITED) > 0 ==> LIMITED in levels {
        RowReadable(row, localPrefix, levels, rs);
      }
    }
  }

  /**
   * The first entry of a row is its visible primary entry: the row's name,
   * directory number, devices, phone number split at the '-' with the area
   * code kept only when it is not the local prefix, the address as notes, and
   * the address's first PERMANENT code when there is one.
   */
  lemma RowPrimary(row: Row, localPrefix: string, levels: Levels, rs: Residents)
    requires ResidentEntries(row, localPrefix, levels, rs).Success?
    ensures |row| > COLUMN_PHONE_NUMBER && |RowOut(row, localPrefix, levels, rs)| > 0
    ensures var e := RowOut(row, localPrefix, levels, rs)[0];
      var phone := SplitPhone(row[COLUMN_PHONE_NUMBER]);
      && !e.hidden && !e.vendor && Valid(e)
      && e.displayName == row[COLUMN_DISPLAY_NAME]
      && e.notes == Some(RowNotes(row))
      && e.directoryNumber.Some? && DirectoryNumber(row[COLUMN_DIRECTORY_NUMBER]) == Success(e.directoryNumber.value)
      && e.deviceNumbers == DeviceNumbers(row)
      && phone.Success? && e.phoneNumber == Some(phone.value.1)
      && e.areaCode == (if phone.value.0 == localPrefix then None else Some(phone.value.0))
      && (e.entryCode.Some? <==> Count(rs, RowKey(row), PERMANENT) > 0)
      && (e.entryCode.Some? ==> e.securityLevel == Some(levels[PERMANENT]) &&
                                 Assignment(RowKey(row), EntryCode(e.entryCode.value, PERMANENT)) in rs)
  {
    RowSteps(row, localPrefix, levels, rs);
    var p := ParseRow(row).value;
    var taken := Take(rs, p.key);
    assert RowOut(row, localPrefix, levels, rs)[0] == Primary(p, localPrefix, taken.first, levels).value;
    TakeFrom(rs, p.key);
    if taken.first.Some? {
      assert TakenCodes(taken)[0] == taken.first.value;
    }
  }

  /** The type of code a row's `i`th entry holds, given `p` PERMANENT codes at the address. */
  function KindType(i: nat, p: nat): EntryCodeType {
    if i < p then PERMANENT else LIMITED
  }

  /**
   * `e` is the `i`th entry of a row named `name` with notes `notes`, where the
   * address has `p` PERMANENT codes: a hidden entry holding a code of the
   * type `KindType(i, p)`, with that type's level.
   */
  predicate HiddenEntry(name: Cell, notes: string, levels: Levels, p: nat, i: nat, e: Entry) {
    && e.entryCode.Some?
    && KindType(i, p) in levels
    && e == Expansion(name, i + 1, notes + Kind(i, p), EntryCode(e.entryCode.value, KindType(i, p)), levels[KindType(i, p)])
  }

  /** Every entry of `es` after the first is the hidden entry `HiddenEntry` describes for its position. */
  predicate HiddenAfterFirst(name: Cell, notes: string, levels: Levels, p: nat, es: seq<Entry>) {
    forall i :: 1 <= i < |es| ==> HiddenEntry(name, notes, levels, p, i, es[i])
  }

  /** A row makes one entry per PERMANENT code at its address (at least one), plus one per LIMITED code. */
  lemma RowSize(row: Row, localPrefix: string, levels: Levels, rs: Residents)
    requires ResidentEntries(row, localPrefix, levels, rs).Success?
    ensures |row| > COLUMN_PHONE_NUMBER
    ensures var p := Count(rs, RowKey(row), PERMANENT);
      |RowOut(row, localPrefix, levels, rs)| == (if p > 0 then p else 1) + Count(rs, RowKey(row), LIMITED)
  {
    RowSteps(row, localPrefix, levels, rs);
    var taken := Take(rs, RowKey(row));
    assert Count(rs, RowKey(row), PERMANENT) == if taken.first.Some? then 1 + |taken.permanent| else 0;
  }

  /**
   * After the primary entry come the hidden entries, one for each further
   * PERMANENT code and then one for each LIMITED code at the address; they are
   * named after the row with suffixes counting up from 2, carry no phone,
   * directory or device numbers, and their notes say which kind of code they hold.
   */
  lemma RowExpansions(row: Row, localPrefix: string, levels: Levels, rs: Residents)
    requires ResidentEntries(row, localPrefix, levels, rs).Success?
    ensures |row| > COLUMN_PHONE_NUMBER
    ensures HiddenAfterFirst(row[COLUMN_DISPLAY_NAME], RowNotes(row), levels, Count(rs, RowKey(row), PERMANENT),
                             RowOut(row, localPrefix, levels, rs))
  {
    RowSteps(row, localPrefix, levels, rs);
    var p := ParseRow(row).value;
    var taken := Take(rs, p.key);
    var P := Count(rs, p.key, PERMANENT);
    var es := RowOut(row, localPrefix, levels, rs);
    assert HiddenAfterFirst(p.name, p.notes, levels, P, es) by {
      assert P == if taken.first.Some? then 1 + |taken.permanent| else 0;
      RowPieces(p.name, p.notes, taken, levels, Primary(p, localPrefix, taken.first, levels).value, P);
    }
  }

  /** The hidden entries that follow a row's primary entry, from the codes taken for it. */
  lemma RowPieces(name: Cell, notes: string, taken: Taken, levels: Levels, primary: Entry, p: nat)
    requires p == if taken.first.Some? then 1 + |taken.permanent| else 0
    requires taken.first.None? ==> |taken.permanent| == 0
    requires forall j :: 0 <= j < |taken.permanent| ==> taken.permanent[j].codeType == PERMANENT
    requires forall j :: 0 <= j < |taken.limited| ==> taken.limited[j].codeType == LIMITED
    requires Expansions(name, notes + PERMANENT_NOTE, taken.permanent, 2, levels).Success?
    requires Expansions(name, notes + LIMITED_NOTE, taken.limited, 2 + |taken.permanent|, levels).Success?
    ensures var es := [primary] + Expansions(name, notes + PERMANENT_NOTE, taken.permanent, 2, levels).value
                                + Expansions(name, notes + LIMITED_NOTE, taken.limited, 2 + |taken.permanent|, levels).value;
      && |es| == 1 + |taken.permanent| + |taken.limited|
      && HiddenAfterFirst(name, notes, levels, p, es)
  {
    var es := [primary] + Expansions(name, notes + PERMANENT_NOTE, taken.permanent, 2, levels).value
                        + Expansions(name, notes + LIMITED_NOTE, taken.limited, 2 + |taken.permanent|, levels).value;
    forall i | 1 <= i < |es|
      ensures HiddenEntry(name, notes, levels, p, i, es[i])
    {
      ExpansionAt(name, notes, taken, levels, primary, p, i);
    }
  }

  lemma HiddenEntryOf(name: Cell, notes: string, levels: Levels, p: nat, i: nat, c: EntryCode)
    requires c.codeType == KindType(i, p) && c.codeType in levels
    ensures HiddenEntry(name, notes, levels, p, i, Expansion(name, i + 1, notes + Kind(i, p), c, levels[c.codeType]))
  {
  }

  /** One hidden entry of a row, from the codes taken for it. */
  lemma ExpansionAt(name: Cell, notes: string, taken: Taken, levels: Levels, primary: Entry, p: nat, i: nat)
    requires p == if taken.first.Some? then 1 + |taken.permanent| else 0
    requires taken.first.None? ==> |taken.permanent| == 0
    requires forall j :: 0 <= j < |taken.permanent| ==> taken.permanent[j].codeType == PERMANENT
    requires forall j :: 0 <= j < |taken.limited| ==> taken.limited[j].codeType == LIMITED
    requires Expansions(name, notes + PERMANENT_NOTE, taken.permanent, 2, levels).Success?
    requires Expansions(name, notes + LIMITED_NOTE, taken.limited, 2 + |taken.permanent|, levels).Success?
    requires 1 <= i < 1 + |taken.permanent| + |taken.limited|
    ensures HiddenEntry(name, notes, levels, p, i,
      ([primary] + Expansions(name, notes + PERMANENT_NOTE, taken.permanent, 2, levels).value
                 + Expansions(name, notes + LIMITED_NOTE, taken.limited, 2 + |taken.permanent|, levels).value)[i])
  {
    var x1 := Expansions(name, notes + PERMANENT_NOTE, taken.permanent, 2, levels).value;
    var x2 := Expansions(name, notes + LIMITED_NOTE, taken.limited, 2 + |taken.permanent|, levels).value;
    var es := [primary] + x1 + x2;
    if i - 1 < |x1| {
      assert es[i] == x1[i - 1];
      ExpansionHidden(name, notes, taken.permanent, 2, levels, p, i, i - 1, PERMANENT, PERMANENT_NOTE);
    } else {
      assert es[i] == x2[i - 1 - |x1|];
      ExpansionHidden(name, notes, taken.limited, 2 + |taken.permanent|, levels, p, i, i - 1 - |x1|, LIMITED, LIMITED_NOTE);
    }
  }

  /** The `k`th hidden entry made for codes of type `t`, sitting at position `i` of its row. */
  lemma ExpansionHidden(name: Cell, notes: string, codes: seq<EntryCode>, first: nat, levels: Levels,
                        p: nat, i: nat, k: nat, t: EntryCodeType, kind: string)
    requires Expansions(name, notes + kind, codes, first, levels).Success? && k < |codes|
    requires codes[k].codeType == t && KindType(i, p) == t && Kind(i, p) == kind && first + k == i + 1
    ensures HiddenEntry(name, notes, levels, p, i, Expansions(name, notes + kind, codes, first, levels).value[k])
  {
    ExpansionsAt(name, notes + kind, codes, first, levels, k);
    HiddenEntryOf(name, notes, levels, p, i, codes[k]);
  }

  /** The codes a row's entries carry are exactly the codes taken for its address. */
  lemma RowCodes(row: Row, localPrefix: string, levels: Levels, rs: Residents)
    requires ResidentEntries(row, localPrefix, levels, rs).Success?
    ensures |row| > COLUMN_PHONE_NUMBER
    ensures EmittedCodes(RowOut(row, localPrefix, levels, rs)) == CodeNumbers(TakenCodes(Take(rs, RowKey(row))))
  {
    RowSteps(row, localPrefix, levels, rs);
    var p := ParseRow(row).value;
    var taken := Take(rs, p.key);
    var primary := Primary(p, localPrefix, taken.first, levels).value;
    var x1 := Expansions(p.name, p.notes + PERMANENT_NOTE, taken.permanent, 2, levels).value;
    var x2 := Expansions(p.name, p.notes + LIMITED_NOTE, taken.limited, 2 + |taken.permanent|, levels).value;
    ExpansionCodes(p.name, p.notes + PERMANENT_NOTE, taken.permanent, 2, levels);
    ExpansionCodes(p.name, p.notes + LIMITED_NOTE, taken.limited, 2 + |taken.permanent|, levels);
    EmittedConcat([primary] + x1, x2);
    EmittedConcat([primary], x1);
    var firsts := if taken.first.Some? then [taken.first.value] else [];
    assert EmittedCodes([primary]) == CodeNumbers(firsts);
    CodeNumbersConcat(firsts + taken.permanent, taken.limited);
    CodeNumbersConcat(firsts, taken.permanent);
  }

  /** The hidden entries carry exactly the codes they were made for. */
  lemma {:induction false} ExpansionCodes(name: Cell, notes: string, codes: seq<EntryCode>, first: nat, levels: Levels)
    requires Expansions(name, notes, codes, first, levels).Success?
    ensures EmittedCodes(Expansions(name, notes, codes, first, levels).value) == CodeNumbers(codes)
    decreases |codes|
  {
    if |codes| > 0 {
      ExpansionCodes(name, notes, codes[1..], first + 1, levels);
      var es := Expansions(name, notes, codes, first, levels).value;
      assert es[1..] == Expansions(name, notes, codes[1..], first + 1, levels).value;
      assert es[0].entryCode == Some(codes[0].code);
    }
  }

  /** A row's entries after the first are hidden, not vendor entries, and satisfy the entry invariant. */
  lemma RowHidden(row: Row, localPrefix: string, levels: Levels, rs: Residents)
    requires ResidentEntries(row, localPrefix, levels, rs).Success?
    ensures forall i :: 1 <= i < |RowOut(row, localPrefix, levels, rs)| ==>
      RowOut(row, localPrefix, levels, rs)[i].hidden && !RowOut(row, localPrefix, levels, rs)[i].vendor &&
      Valid(RowOut(row, localPrefix, levels, rs)[i])
  {
    RowExpansions(row, localPrefix, levels, rs);
    var es := RowOut(row, localPrefix, levels, rs);
    forall i | 1 <= i < |es|
      ensures es[i].hidden && !es[i].vendor && Valid(es[i])
    {
      assert HiddenEntry(row[COLUMN_DISPLAY_NAME], RowNotes(row), levels, Count(rs, RowKey(row), PERMANENT), i, es[i]);
    }
  }

  /** Every entry a row makes satisfies the entry invariant, and none is a vendor entry. */
  lemma RowValid(row: Row, localPrefix: string, levels: Levels, rs: Residents)
    requires ResidentEntries(row, localPrefix, levels, rs).Success?
    ensures ResidentLike(RowOut(row, localPrefix, levels, rs))
  {
    RowHidden(row, localPrefix, levels, rs);
    RowPrimary(row, localPrefix, levels, rs);
    var es := RowOut(row, localPrefix, levels, rs);
    FirstThenHidden(es);
  }

  lemma FirstThenHidden(es: seq<Entry>)
    requires |es| > 0 && Valid(es[0]) && !es[0].vendor
    requires forall i :: 1 <= i < |es| ==> es[i].hidden && !es[i].vendor && Valid(es[i])
    ensures ResidentLike(es)
  {
  }

  lemma VisibleFirstOnly(es: seq<Entry>)
    requires |es| > 0 && !es[0].hidden
    requires forall i :: 1 <= i < |es| ==> es[i].hidden
    ensures Visible(es) == [es[0]]
  {
    NoneVisible(es, 1);
  }

  /**
   * A row yields exactly one visible entry, its first, named after the row
   * with the address as notes.
   */
  lemma RowVisible(row: Row, localPrefix: string, levels: Levels, rs: Residents)
    requires ResidentEntries(row, localPrefix, levels, rs).Success?
    ensures |row| > COLUMN_PHONE_NUMBER && |RowOut(row, localPrefix, levels, rs)| > 0
    ensures Visible(RowOut(row, localPrefix, levels, rs)) == [RowOut(row, localPrefix, levels, rs)[0]]
    ensures RowOut(row, localPrefix, levels, rs)[0].displayName == row[COLUMN_DISPLAY_NAME]
    ensures RowOut(row, localPrefix, levels, rs)[0].notes == Some(RowNotes(row))
  {
    RowHidden(row, localPrefix, levels, rs);
    RowPrimary(row, localPrefix, levels, rs);
    VisibleFirstOnly(RowOut(row, localPrefix, levels, rs));
  }

  /** The codes left after a row are those of the map minus the address's PERMANENT and LIMITED codes. */
  lemma RowLeaves(row: Row, localPrefix: string, levels: Levels, rs: Residents)
    requires ResidentEntries(row, localPrefix, levels, rs).Success?
    ensures |row| > COLUMN_PHONE_NUMBER
    ensures Numbers(rs) == Numbers(RowLeft(row, localPrefix, levels, rs)) + EmittedCodes(RowOut(row, localPrefix, levels, rs))
    ensures forall a :: a in RowLeft(row, localPrefix, levels, rs) ==> a in rs
    ensures forall a :: a in rs && (a.key != RowKey(row) || a.code.codeType == DELIVERY) ==> a in RowLeft(row, localPrefix, levels, rs)
    ensures NoRepeats(rs) ==> NoRepeats(RowLeft(row, localPrefix, levels, rs))
  {
    RowSteps(row, localPrefix, levels, rs);
    RowCodes(row, localPrefix, levels, rs);
    TakeNumbers(rs, RowKey(row));
    TakeKeeps(rs, RowKey(row));
  }

  /** A row leaves none of its address's PERMANENT or LIMITED codes and every other count as it was. */
  lemma RowCounts(row: Row, localPrefix: string, levels: Levels, rs: Residents, k: AddressKey, t: EntryCodeType)
    requires ResidentEntries(row, localPrefix, levels, rs).Success?
    ensures |row| > COLUMN_PHONE_NUMBER
    ensures Count(RowLeft(row, localPrefix, levels, rs), k, t) == if k == RowKey(row) && t != DELIVERY then 0 else Count(rs, k, t)
  {
    RowSteps(row, localPrefix, levels, rs);
    TakeCounts(rs, RowKey(row), k, t);
  }

  // All rows

  function RowsOut(rows: seq<Row>, localPrefix: string, levels: Levels, rs: Residents): seq<Entry>
    requires RowsEntries(rows, localPrefix, levels, rs).Success?
  {
    RowsEntries(rows, localPrefix, levels, rs).value.0
  }

  function RowsLeft(rows: seq<Row>, localPrefix: string, levels: Levels, rs: Residents): Residents
    requires RowsEntries(rows, localPrefix, levels, rs).Success?
  {
    RowsEntries(rows, localPrefix, levels, rs).value.1
  }

  /** Some row of the sheet has the address `key`. */
  predicate Listed(rows: seq<Row>, key: AddressKey) {
    exists j :: 0 <= j < |rows| && |rows[j]| >= 2 && RowKey(rows[j]) == key
  }

  /** What reading some rows does to the resident map, given the codes `left` and the entries `es`. */
  predicate Consumed(rows: seq<Row>, rs: Residents, left: Residents, es: seq<Entry>) {
    && Numbers(rs) == Numbers(left) + EmittedCodes(es)
    && (forall a :: a in left ==> a in rs)
    && (forall a :: a in rs && a !in left ==> a.code.codeType != DELIVERY && Listed(rows, a.key))
    && (NoRepeats(rs) ==> NoRepeats(left))
  }

  lemma ConsumedStep(rows: seq<Row>, rs: Residents, mid: Residents, left: Residents, first: seq<Entry>, rest: seq<Entry>)
    requires |rows| > 0 && |rows[0]| >= 2
    requires Numbers(rs) == Numbers(mid) + EmittedCodes(first)
    requires forall a :: a in mid ==> a in rs
    requires forall a :: a in rs && (a.key != RowKey(rows[0]) || a.code.codeType == DELIVERY) ==> a in mid
    requires NoRepeats(rs) ==> NoRepeats(mid)
    requires Consumed(rows[1..], mid, left, rest)
    ensures Consumed(rows, rs, left, first + rest)
  {
    assert Numbers(rs) == Numbers(left) + EmittedCodes(first + rest) by {
      EmittedConcat(first, rest);
    }
    assert forall a :: a in rs && a !in left ==> a.code.codeType != DELIVERY && Listed(rows, a.key) by {
      forall a | a in rs && a !in left
        ensures a.code.codeType != DELIVERY && Listed(rows, a.key)
      {
        if a in mid {
          ListedTail(rows, a.key);
        } else {
          assert |rows[0]| >= 2 && RowKey(rows[0]) == a.key;
        }
      }
    }
  }

  lemma ListedTail(rows: seq<Row>, key: AddressKey)
    requires |rows| > 0 && Listed(rows[1..], key)
    ensures Listed(rows, key)
  {
    var j :| 0 <= j < |rows[1..]| && |rows[1..][j]| >= 2 && RowKey(rows[1..][j]) == key;
    assert rows[1..][j] == rows[j + 1];
  }

  /**
   * Reading the rows takes out of the resident map exactly the codes the
   * entries carry; what is left is part of the map, and every code taken
   * was a PERMANENT or LIMITED code of some row's address.
   */
  lemma {:induction false} RowsConsume(rows: seq<Row>, localPrefix: string, levels: Levels, rs: Residents)
    requires RowsEntries(rows, localPrefix, levels, rs).Success?
    ensures Consumed(rows, rs, RowsLeft(rows, localPrefix, levels, rs), RowsOut(rows, localPrefix, levels, rs))
    decreases |rows|
  {
    if |rows| == 0 {
      assert RowsOut(rows, localPrefix, levels, rs) == [];
    } else {
      var here := ResidentEntries(rows[0], localPrefix, levels, rs).value;
      RowLeaves(rows[0], localPrefix, levels, rs);
      RowsConsume(rows[1..], localPrefix, levels, here.1);
      var rest := RowsEntries(rows[1..], localPrefix, levels, here.1).value;
      assert RowsOut(rows, localPrefix, levels, rs) == here.0 + rest.0;
      assert RowsLeft(rows, localPrefix, levels, rs) == rest.1;
      ConsumedStep(rows, rs, here.1, rest.1, here.0, rest.0);
    }
  }

  /** Every row yields exactly one visible entry, in row order: its primary entry. */
  lemma {:induction false} RowsVisible(rows: seq<Row>, localPrefix: string, levels: Levels, rs: Residents)
    requires RowsEntries(rows, localPrefix, levels, rs).Success?
    ensures |Visible(RowsOut(rows, localPrefix, levels, rs))| == |rows|
    ensures forall j :: 0 <= j < |rows| ==>
      && |rows[j]| > COLUMN_PHONE_NUMBER
      && Visible(RowsOut(rows, localPrefix, levels, rs))[j].displayName == rows[j][COLUMN_DISPLAY_NAME]
      && Visible(RowsOut(rows, localPrefix, levels, rs))[j].notes == Some(RowNotes(rows[j]))
    decreases |rows|
  {
    if |rows| > 0 {
      var here := ResidentEntries(rows[0], localPrefix, levels, rs).value;
      RowVisible(rows[0], localPrefix, levels, rs);
      RowsVisible(rows[1..], localPrefix, levels, here.1);
      var rest := RowsEntries(rows[1..], localPrefix, levels, here.1).value;
      assert RowsOut(rows, localPrefix, levels, rs) == here.0 + rest.0;
      VisibleConcat(here.0, rest.0);
      var vs := Visible(RowsOut(rows, localPrefix, levels, rs));
      var tail := Visible(rest.0);
      assert vs == [here.0[0]] + tail;
      forall j | 0 <= j < |rows|
        ensures && |rows[j]| > COLUMN_PHONE_NUMBER
                && vs[j].displayName == rows[j][COLUMN_DISPLAY_NAME]
                && vs[j].notes == Some(RowNotes(rows[j]))
      {
        if j > 0 {
          assert vs[j] == tail[j - 1];
          assert rows[j] == rows[1..][j - 1];
        }
      }
    }
  }

  /** Every entry the rows yield satisfies the entry invariant and none is a vendor entry. */
  lemma {:induction false} RowsValid(rows: seq<Row>, localPrefix: string, levels: Levels, rs: Residents)
    requires RowsEntries(rows, localPrefix, levels, rs).Success?
    ensures ResidentLike(RowsOut(rows, localPrefix, levels, rs))
    decreases |rows|
  {
    if |rows| > 0 {
      var here := ResidentEntries(rows[0], localPrefix, levels, rs).value;
      RowValid(rows[0], localPrefix, levels, rs);
      RowsValid(rows[1..], localPrefix, levels, here.1);
      var rest := RowsEntries(rows[1..], localPrefix, levels, here.1).value;
      assert RowsOut(rows, localPrefix, levels, rs) == here.0 + rest.0;
      ResidentLikeConcat(here.0, rest.0);
    }
  }

  // The whole list

  /** The levels the configuration's mappings give, once they have been read. */
  function LevelsOf(config: Config): Levels
    requires ReadSecurityLevels(config.securityLevelMappings).Success?
  {
    ReadSecurityLevels(config.securityLevelMappings).value
  }

  /** The entry list, once it has been made. */
  function Out(config: Config, rows: seq<Row>, book: Book): seq<Entry>
    requires Reconciler.Adapt(config, rows, book).Success?
  {
    Reconciler.Adapt(config, rows, book).value
  }

  /** The pieces the entry list is made of. */
  lemma AdaptSteps(config: Config, rows: seq<Row>, book: Book)
    requires Reconciler.Adapt(config, rows, book).Success?
    ensures ReadSecurityLevels(config.securityLevelMappings).Success?
    ensures var levels := LevelsOf(config);
      && RowsEntries(rows, config.localPhonePrefix, levels, book.residents).Success?
      && RowsLeft(rows, config.localPhonePrefix, levels, book.residents) == []
      && VendorEntries(book.vendors, levels).Success?
      && LegacyEntries(book.legacy, levels).Success?
      && Out(config, rows, book) == RowsOut(rows, config.localPhonePrefix, levels, book.residents)
           + VendorEntries(book.vendors, levels).value + LegacyEntries(book.legacy, levels).value
  {
  }

  /** The number of entries made from the directory rows. */
  function ResidentSize(out: seq<Entry>, book: Book): nat {
    if |out| >= |book.vendors| + |book.legacy| then |out| - |book.vendors| - |book.legacy| else 0
  }

  lemma {:induction false} VisibleShorter(es: seq<Entry>)
    ensures |Visible(es)| <= |es|
    decreases |es|
  {
    if |es| > 0 {
      VisibleShorter(es[1..]);
    }
  }

  /** The rows' part of a list made of the rows' entries followed by other entries. */
  lemma ResidentPart(rows: seq<Row>, lp: string, levels: Levels, rs: seq<Assignment>, out: seq<Entry>, others: seq<Entry>)
    requires RowsEntries(rows, lp, levels, rs).Success?
    requires out == RowsOut(rows, lp, levels, rs) + others
    ensures var n := |out| - |others|;
      && n >= |rows|
      && ResidentLike(out[..n])
      && |Visible(out[..n])| == |rows|
      && forall j :: 0 <= j < |rows| ==>
           && |rows[j]| > COLUMN_PHONE_NUMBER
           && Visible(out[..n])[j].displayName == rows[j][COLUMN_DISPLAY_NAME]
           && Visible(out[..n])[j].notes == Some(RowNotes(rows[j]))
  {
    var es := RowsOut(rows, lp, levels, rs);
    assert out[..|es|] == es;
    RowsValid(rows, lp, levels, rs);
    RowsVisible(rows, lp, levels, rs);
    VisibleShorter(es);
  }

  /** The entries made from the directory rows, at the head of the list. */
  function ResidentSection(config: Config, rows: seq<Row>, book: Book): seq<Entry>
    requires Reconciler.Adapt(config, rows, book).Success?
  {
    var out := Out(config, rows, book);
    out[..ResidentSize(out, book)]
  }

  /** How the list splits into the rows' part and the book's part. */
  lemma AdaptSplit(config: Config, rows: seq<Row>, book: Book)
    requires Reconciler.Adapt(config, rows, book).Success?
    ensures ReadSecurityLevels(config.securityLevelMappings).Success?
    ensures RowsEntries(rows, config.localPhonePrefix, LevelsOf(config), book.residents).Success?
    ensures Out(config, rows, book) == RowsOut(rows, config.localPhonePrefix, LevelsOf(config), book.residents)
      + (VendorEntries(book.vendors, LevelsOf(config)).value + LegacyEntries(book.legacy, LevelsOf(config)).value)
    ensures |VendorEntries(book.vendors, LevelsOf(config)).value + LegacyEntries(book.legacy, LevelsOf(config)).value|
      == |book.vendors| + |book.legacy|
    ensures ResidentSize(Out(config, rows, book), book)
      == |RowsOut(rows, config.localPhonePrefix, LevelsOf(config), book.residents)|
  {
    AdaptSteps(config, rows, book);
    var levels := LevelsOf(config);
    var es := RowsOut(rows, config.localPhonePrefix, levels, book.residents);
    var vs := VendorEntries(book.vendors, levels).value;
    var ls := LegacyEntries(book.legacy, levels).value;
    SplitLength(Out(config, rows, book), es, vs, ls, book);
  }

  lemma SplitLength(out: seq<Entry>, es: seq<Entry>, vs: seq<Entry>, ls: seq<Entry>, book: Book)
    requires out == es + vs + ls
    requires |vs| == |book.vendors| && |ls| == |book.legacy|
    ensures out == es + (vs + ls)
    ensures ResidentSize(out, book) == |es|
  {
  }

  /**
   * The list starts with the rows' entries: at least one per row, none of
   * them a vendor entry, and exactly one visible entry per row.
   */
  lemma AdaptResidentSection(config: Config, rows: seq<Row>, book: Book)
    requires Reconciler.Adapt(config, rows, book).Success?
    ensures |Out(config, rows, book)| == |ResidentSection(config, rows, book)| + |book.vendors| + |book.legacy|
    ensures |ResidentSection(config, rows, book)| >= |rows|
    ensures ResidentLike(ResidentSection(config, rows, book))
    ensures |Visible(ResidentSection(config, rows, book))| == |rows|
  {
    var out := Out(config, rows, book);
    var section := ResidentSection(config, rows, book);
    assert |out| == |section| + |book.vendors| + |book.legacy| && |section| >= |rows|
      && ResidentLike(section) && |Visible(section)| == |rows| by {
      AdaptSplit(config, rows, book);
      var levels := LevelsOf(config);
      ResidentPart(rows, config.localPhonePrefix, levels, book.residents, out,
                   VendorEntries(book.vendors, levels).value + LegacyEntries(book.legacy, levels).value);
    }
  }

  /** The visible entries of the rows' part are the rows' primary entries, in row order. */
  lemma AdaptRowOrder(config: Config, rows: seq<Row>, book: Book)
    requires Reconciler.Adapt(config, rows, book).Success?
    ensures |Visible(ResidentSection(config, rows, book))| == |rows|
    ensures forall j :: 0 <= j < |rows| ==>
      && |rows[j]| > COLUMN_PHONE_NUMBER
      && Visible(ResidentSection(config, rows, book))[j].displayName == rows[j][COLUMN_DISPLAY_NAME]
      && Visible(ResidentSection(config, rows, book))[j].notes == Some(RowNotes(rows[j]))
  {
    AdaptSplit(config, rows, book);
    var levels := LevelsOf(config);
    ResidentPart(rows, config.localPhonePrefix, levels, book.residents, Out(config, rows, book),
                 VendorEntries(book.vendors, levels).value + LegacyEntries(book.legacy, levels).value);
  }

  /** The vendor part of a list made of some entries, the vendor entries and some more. */
  lemma VendorPart(vendors: seq<Named<string>>, levels: Levels, out: seq<Entry>, before: seq<Entry>, after: seq<Entry>)
    requires VendorEntries(vendors, levels).Success?
    requires out == before + VendorEntries(vendors, levels).value + after
    ensures |out| == |before| + |vendors| + |after|
    ensures forall i :: 0 <= i < |vendors| ==>
      && vendors[i].code.codeType in levels
      && out[|before| + i] == Entry(Some(vendors[i].name), false, None, None, None, Some(vendors[i].code.code),
                                    Some(levels[vendors[i].code.codeType]), [], None, true)
  {
    var vs := VendorEntries(vendors, levels).value;
    forall i | 0 <= i < |vendors|
      ensures && vendors[i].code.codeType in levels
              && out[|before| + i] == Entry(Some(vendors[i].name), false, None, None, None, Some(vendors[i].code.code),
                                            Some(levels[vendors[i].code.codeType]), [], None, true)
    {
      assert out[|before| + i] == vs[i];
      assert VendorEntry(vendors[i], levels) == Success(vs[i]);
    }
  }

  /** After the rows' entries come the vendor entries, one per vendor code in the book's order. */
  lemma AdaptVendorSection(config: Config, rows: seq<Row>, book: Book)
    requires Reconciler.Adapt(config, rows, book).Success?
    ensures ReadSecurityLevels(config.securityLevelMappings).Success?
    ensures var out := Out(config, rows, book);
      var n := ResidentSize(out, book);
      && |out| == n + |book.vendors| + |book.legacy|
      && forall i :: 0 <= i < |book.vendors| ==>
           && book.vendors[i].code.codeType in LevelsOf(config)
           && out[n + i] == Entry(Some(book.vendors[i].name), false, None, None, None, Some(book.vendors[i].code.code),
                                  Some(LevelsOf(config)[book.vendors[i].code.codeType]), [], None, true)
  {
    AdaptSteps(config, rows, book);
    var levels := LevelsOf(config);
    var es := RowsOut(rows, config.localPhonePrefix, levels, book.residents);
    var ls := LegacyEntries(book.legacy, levels).value;
    VendorPart(book.vendors, levels, Out(config, rows, book), es, ls);
  }

  /** The legacy part of a list made of some entries followed by the legacy entries. */
  lemma LegacyPart(legacy: seq<Named<Cell>>, levels: Levels, out: seq<Entry>, before: seq<Entry>)
    requires LegacyEntries(legacy, levels).Success?
    requires out == before + LegacyEntries(legacy, levels).value
    ensures |out| == |before| + |legacy|
    ensures forall i :: 0 <= i < |legacy| ==>
      && legacy[i].code.codeType == PERMANENT
      && PERMANENT in levels
      && out[|before| + i] == Entry(legacy[i].name, true, None, None, None, Some(legacy[i].code.code),
                                    Some(levels[PERMANENT]), [], Some(LEGACY_NOTES), false)
  {
    var ls := LegacyEntries(legacy, levels).value;
    forall i | 0 <= i < |legacy|
      ensures && legacy[i].code.codeType == PERMANENT
              && PERMANENT in levels
              && out[|before| + i] == Entry(legacy[i].name, true, None, None, None, Some(legacy[i].code.code),
                                            Some(levels[PERMANENT]), [], Some(LEGACY_NOTES), false)
    {
      assert LegacyEntry(legacy[i], levels) == Success(ls[i]);
      assert out[|before| + i] == ls[i];
    }
  }

  /** The list ends with the legacy entries, one per legacy code in the book's order, all of them PERMANENT. */
  lemma AdaptLegacySection(config: Config, rows: seq<Row>, book: Book)
    requires Reconciler.Adapt(config, rows, book).Success?
    ensures ReadSecurityLevels(config.securityLevelMappings).Success?
    ensures var out := Out(config, rows, book);
      var n := ResidentSize(out, book) + |book.vendors|;
      && |out| == n + |book.legacy|
      && forall i :: 0 <= i < |book.legacy| ==>
           && book.legacy[i].code.codeType == PERMANENT
           && PERMANENT in LevelsOf(config)
           && out[n + i] == Entry(book.legacy[i].name, true, None, None, None, Some(book.legacy[i].code.code),
                                  Some(LevelsOf(config)[PERMANENT]), [], Some(LEGACY_NOTES), false)
  {
    AdaptSteps(config, rows, book);
    var levels := LevelsOf(config);
    var es := RowsOut(rows, config.localPhonePrefix, levels, book.residents);
    var vs := VendorEntries(book.vendors, levels).value;
    LegacyPart(book.legacy, levels, Out(config, rows, book), es + vs);
  }

  /**
   * Once the list has been made, every resident code was consumed by some
   * row: it is PERMANENT or LIMITED and its address is that of a row.
   */
  lemma AdaptConsumesResidents(config: Config, rows: seq<Row>, book: Book, a: Assignment)
    requires Reconciler.Adapt(config, rows, book).Success?
    requires a in book.residents
    ensures a.code.codeType != DELIVERY
    ensures Listed(rows, a.key)
  {
    AdaptSteps(config, rows, book);
    RowsConsume(rows, config.localPhonePrefix, LevelsOf(config), book.residents);
  }

  /** A DELIVERY code at a resident address is never consumed, so the reconciliation fails. */
  lemma DeliveryResidentFails(config: Config, rows: seq<Row>, book: Book, a: Assignment)
    requires a in book.residents && a.code.codeType == DELIVERY
    ensures Reconciler.Adapt(config, rows, book).Failure?
  {
    if Reconciler.Adapt(config, rows, book).Success? {
      AdaptConsumesResidents(config, rows, book, a);
    }
  }

  /** A resident code whose address no row has is never consumed, so the reconciliation fails. */
  lemma UnlistedResidentFails(config: Config, rows: seq<Row>, book: Book, a: Assignment)
    requires a in book.residents && !Listed(rows, a.key)
    ensures Reconciler.Adapt(config, rows, book).Failure?
  {
    if Reconciler.Adapt(config, rows, book).Success? {
      AdaptConsumesResidents(config, rows, book, a);
    }
  }

  /** A mapping naming no entry code type makes the reconciliation fail before any row is read. */
  lemma UnknownMappingFails(config: Config, rows: seq<Row>, book: Book, i: nat)
    requires i < |config.securityLevelMappings|
    requires ValueOf(config.securityLevelMappings[i].entryCodeType).None?
    ensures Reconciler.Adapt(config, rows, book).Failure?
  {
  }

  /** Every vendor code has a mapped security level. */
  predicate VendorsMapped(vendors: seq<Named<string>>, levels: Levels) {
    forall i :: 0 <= i < |vendors| ==> vendors[i].code.codeType in levels
  }

  /** Every legacy code is a PERMANENT code, and PERMANENT is mapped. */
  predicate LegacyMapped(legacy: seq<Named<Cell>>, levels: Levels) {
    forall i :: 0 <= i < |legacy| ==> legacy[i].code.codeType == PERMANENT && PERMANENT in levels
  }

  /**
   * `adapt` succeeds exactly when the level mappings read, every row is
   * accepted, the rows consume every resident code, every vendor code has a
   * mapped level and every legacy code is a mapped PERMANENT code.
   */
  lemma AdaptSucceeds(config: Config, rows: seq<Row>, book: Book)
    ensures Reconciler.Adapt(config, rows, book).Success? <==>
      && ReadSecurityLevels(config.securityLevelMappings).Success?
      && RowsEntries(rows, config.localPhonePrefix, LevelsOf(config), book.residents).Success?
      && RowsLeft(rows, config.localPhonePrefix, LevelsOf(config), book.residents) == []
      && VendorsMapped(book.vendors, LevelsOf(config))
      && LegacyMapped(book.legacy, LevelsOf(config))
  {
  }

  /** The code numbers of the vendor or legacy map, with multiplicity. */
  function NamedNumbers<K>(list: seq<Named<K>>): multiset<int>
    decreases |list|
  {
    if |list| == 0 then multiset{} else multiset{list[0].code.code} + NamedNumbers(list[1..])
  }

  lemma {:induction false} VendorCodes(vendors: seq<Named<string>>, levels: Levels)
    requires VendorEntries(vendors, levels).Success?
    ensures EmittedCodes(VendorEntries(vendors, levels).value) == NamedNumbers(vendors)
    decreases |vendors|
  {
    if |vendors| > 0 {
      VendorCodes(vendors[1..], levels);
      var es := VendorEntries(vendors, levels).value;
      assert es[1..] == VendorEntries(vendors[1..], levels).value;
      assert es[0].entryCode == Some(vendors[0].code.code);
    }
  }

  lemma {:induction false} LegacyCodes(legacy: seq<Named<Cell>>, levels: Levels)
    requires LegacyEntries(legacy, levels).Success?
    ensures EmittedCodes(LegacyEntries(legacy, levels).value) == NamedNumbers(legacy)
    decreases |legacy|
  {
    if |legacy| > 0 {
      LegacyCodes(legacy[1..], levels);
      var es := LegacyEntries(legacy, levels).value;
      assert es[1..] == LegacyEntries(legacy[1..], levels).value;
      assert es[0].entryCode == Some(legacy[0].code.code);
    }
  }

  /**
   * Every code of the book ends up in exactly one entry: the entry codes of
   * the list are the resident, vendor and legacy codes, with multiplicity.
   */
  lemma AdaptConservesCodes(config: Config, rows: seq<Row>, book: Book)
    requires Reconciler.Adapt(config, rows, book).Success?
    ensures EmittedCodes(Out(config, rows, book)) ==
      Numbers(book.residents) + NamedNumbers(book.vendors) + NamedNumbers(book.legacy)
  {
    AdaptSteps(config, rows, book);
    var levels := LevelsOf(config);
    var lp := config.localPhonePrefix;
    var es := RowsOut(rows, lp, levels, book.residents);
    var vs := VendorEntries(book.vendors, levels).value;
    var ls := LegacyEntries(book.legacy, levels).value;
    RowsConsume(rows, lp, levels, book.residents);
    assert Numbers(RowsLeft(rows, lp, levels, book.residents)) == multiset{};
    VendorCodes(book.vendors, levels);
    LegacyCodes(book.legacy, levels);
    EmittedConcat(es + vs, ls);
    EmittedConcat(es, vs);
  }

  /** Every vendor entry satisfies the entry invariant. */
  lemma VendorEntriesValid(vendors: seq<Named<string>>, levels: Levels)
    requires VendorEntries(vendors, levels).Success?
    ensures forall i :: 0 <= i < |VendorEntries(vendors, levels).value| ==> Valid(VendorEntries(vendors, levels).value[i])
  {
    var vs := VendorEntries(vendors, levels).value;
    forall i | 0 <= i < |vs|
      ensures Valid(vs[i])
    {
      assert VendorEntry(vendors[i], levels) == Success(vs[i]);
    }
  }

  /** Every legacy entry satisfies the entry invariant. */
  lemma LegacyEntriesValid(legacy: seq<Named<Cell>>, levels: Levels)
    requires LegacyEntries(legacy, levels).Success?
    ensures forall i :: 0 <= i < |LegacyEntries(legacy, levels).value| ==> Valid(LegacyEntries(legacy, levels).value[i])
  {
    var ls := LegacyEntries(legacy, levels).value;
    forall i | 0 <= i < |ls|
      ensures Valid(ls[i])
    {
      assert LegacyEntry(legacy[i], levels) == Success(ls[i]);
    }
  }

  /** Every entry of the list satisfies the entry invariant. */
  lemma AdaptValid(config: Config, rows: seq<Row>, book: Book)
    requires Reconciler.Adapt(config, rows, book).Success?
    ensures forall i :: 0 <= i < |Out(config, rows, book)| ==> Valid(Out(config, rows, book)[i])
  {
    AdaptSteps(config, rows, book);
    var levels := LevelsOf(config);
    var es := RowsOut(rows, config.localPhonePrefix, levels, book.residents);
    var vs := VendorEntries(book.vendors, levels).value;
    var ls := LegacyEntries(book.legacy, levels).value;
    var out := Out(config, rows, book);
    assert out == es + vs + ls;
    RowsValid(rows, config.localPhonePrefix, levels, book.residents);
    VendorEntriesValid(book.vendors, levels);
    LegacyEntriesValid(book.legacy, levels);
    forall i | 0 <= i < |out|
      ensures Valid(out[i])
    {
      if i < |es| {
        assert out[i] == es[i];
      } else if i < |es| + |vs| {
        assert out[i] == vs[i - |es|];
      } else {
        assert out[i] == ls[i - |es| - |vs|];
      }
    }
  }
}
