/**
 * The entry-code sheet, sorted into resident codes (by address), vendor codes
 * (by vendor name) and legacy resident codes (by the notes column), and the
 * draining lookup the reconciler uses on the resident codes.
 */
module CodeBook {
  import opened Wrappers
  import opened Cells
  import opened EntryCodes

  /** The address a code belongs to: the raw street and house-number cells, compared as written. */
  datatype AddressKey = AddressKey(street: Cell, houseNumber: Cell)

  /** One entry of the resident set-multimap. */
  datatype Assignment = Assignment(key: AddressKey, code: EntryCode)

  /** The resident set-multimap, in insertion order; it never holds the same assignment twice. */
  type Residents = seq<Assignment>

  /** One entry of the vendor or legacy map. */
  datatype Named<K> = Named(name: K, code: EntryCode)

  /** `EntryCodes`: the three groups of codes built from the code sheet. */
  datatype Book = Book(residents: Residents, vendors: seq<Named<string>>, legacy: seq<Named<Cell>>)

  const EmptyBook: Book := Book([], [], [])

  predicate NoRepeats(rs: Residents) {
    forall i, j :: 0 <= i < j < |rs| ==> rs[i] != rs[j]
  }

  /** The names a vendor or legacy list maps, as a set. */
  function Names<K>(list: seq<Named<K>>): set<K> {
    set i | 0 <= i < |list| :: list[i].name
  }

  predicate UniqueNames<K(==)>(list: seq<Named<K>>) {
    forall i, j :: 0 <= i < j < |list| ==> list[i].name != list[j].name
  }

  /** What the set-multimap invariants of the three groups require. */
  predicate WellFormed(book: Book) {
    NoRepeats(book.residents) && UniqueNames(book.vendors) && UniqueNames(book.legacy)
  }

  /** `residentCodes.put(key, code)`: set insertion, so adding an assignment twice changes nothing. */
  function Put(rs: Residents, a: Assignment): (r: Residents)
    ensures forall x :: x in r <==> x in rs || x == a
    ensures a in rs ==> r == rs
    ensures NoRepeats(rs) ==> NoRepeats(r)
  {
    if a in rs then rs else rs + [a]
  }

  /** Inserting the same (code, type) at the same address twice is the same as inserting it once. */
  lemma PutIdempotent(rs: Residents, a: Assignment)
    ensures Put(Put(rs, a), a) == Put(rs, a)
  {
  }

  predicate Matches(a: Assignment, key: AddressKey, t: EntryCodeType) {
    a.key == key && a.code.codeType == t
  }

  /** How many codes of type `t` the resident map holds at `key`. */
  function Count(rs: Residents, key: AddressKey, t: EntryCodeType): (n: nat)
    ensures n > 0 <==> exists i :: 0 <= i < |rs| && Matches(rs[i], key, t)
    ensures n <= |rs|
    decreases |rs|
  {
    if |rs| == 0 then 0
    else
      assert forall i :: 1 <= i < |rs| ==> rs[i] == rs[1..][i - 1];
      (if Matches(rs[0], key, t) then 1 else 0) + Count(rs[1..], key, t)
  }

  /** The code numbers held by the resident map. */
  function Numbers(rs: Residents): multiset<int>
    decreases |rs|
  {
    if |rs| == 0 then multiset{} else multiset{rs[0].code.code} + Numbers(rs[1..])
  }

  function CodeNumbers(codes: seq<EntryCode>): multiset<int>
    decreases |codes|
  {
    if |codes| == 0 then multiset{} else multiset{codes[0].code} + CodeNumbers(codes[1..])
  }

  lemma {:induction false} CodeNumbersConcat(a: seq<EntryCode>, b: seq<EntryCode>)
    ensures CodeNumbers(a + b) == CodeNumbers(a) + CodeNumbers(b)
    decreases |a|
  {
    if |a| == 0 {
      assert a + b == b;
    } else {
      assert (a + b)[1..] == a[1..] + b;
      CodeNumbersConcat(a[1..], b);
    }
  }

  lemma {:induction false} CountConcat(a: Residents, b: Residents, key: AddressKey, t: EntryCodeType)
    ensures Count(a + b, key, t) == Count(a, key, t) + Count(b, key, t)
    ensures Numbers(a + b) == Numbers(a) + Numbers(b)
    decreases |a|
  {
    if |a| > 0 {
      assert (a + b)[1..] == a[1..] + b;
      CountConcat(a[1..], b, key, t);
    } else {
      assert a + b == b;
    }
  }

  /** Removing the assignment at index `i` takes one from its own count and from nothing else. */
  lemma RemoveAt(rs: Residents, i: nat, key: AddressKey, t: EntryCodeType)
    requires i < |rs|
    ensures Count(rs[..i] + rs[i + 1..], key, t) == Count(rs, key, t) - (if Matches(rs[i], key, t) then 1 else 0)
    ensures Numbers(rs) == Numbers(rs[..i] + rs[i + 1..]) + multiset{rs[i].code.code}
  {
    assert rs == rs[..i] + ([rs[i]] + rs[i + 1..]);
    CountConcat(rs[..i], [rs[i]] + rs[i + 1..], key, t);
    CountConcat([rs[i]], rs[i + 1..], key, t);
    CountConcat(rs[..i], rs[i + 1..], key, t);
    assert ([rs[i]] + rs[i + 1..])[1..] == rs[i + 1..];
    assert [rs[i]][1..] == [];
  }

  /** The index of the first assignment of type `t` at `key`, or `|rs|` when there is none. */
  function FirstMatch(rs: Residents, key: AddressKey, t: EntryCodeType): (i: nat)
    ensures i <= |rs|
    ensures i < |rs| ==> Matches(rs[i], key, t)
    ensures forall j :: 0 <= j < i ==> !Matches(rs[j], key, t)
    decreases |rs|
  {
    if |rs| == 0 then 0
    else if Matches(rs[0], key, t) then 0
    else 1 + FirstMatch(rs[1..], key, t)
  }

  /**
   * `lookupAndRemoveResidentCode(key, type)`: when the address holds a code of
   * that type, returns one of them and removes exactly that assignment;
   * otherwise returns nothing and changes nothing. Which of several such
   * codes is taken is not promised.
   */
  function LookupAndRemove(rs: Residents, key: AddressKey, t: EntryCodeType): (r: (Option<EntryCode>, Residents))
    ensures r.0.Some? <==> Count(rs, key, t) > 0
    ensures r.0.None? ==> r.1 == rs
    ensures r.0.Some? ==> r.0.value.codeType == t && Assignment(key, r.0.value) in rs
    ensures r.0.Some? ==> multiset(r.1) + multiset{Assignment(key, r.0.value)} == multiset(rs)
    ensures Count(r.1, key, t) == if Count(rs, key, t) > 0 then Count(rs, key, t) - 1 else 0
  {
    var i := FirstMatch(rs, key, t);
    if i == |rs| then (None, rs)
    else
      RemoveAt(rs, i, key, t);
      assert rs == rs[..i] + [rs[i]] + rs[i + 1..];
      (Some(rs[i].code), rs[..i] + rs[i + 1..])
  }

  /** A lookup leaves the counts of every other address and type alone. */
  lemma LookupAndRemoveCounts(rs: Residents, key: AddressKey, t: EntryCodeType, k: AddressKey, t': EntryCodeType)
    ensures var r := LookupAndRemove(rs, key, t);
      && (k != key || t' != t ==> Count(r.1, k, t') == Count(rs, k, t'))
      && (r.0.Some? ==> Numbers(rs) == Numbers(r.1) + multiset{r.0.value.code})
  {
    var i := FirstMatch(rs, key, t);
    if i < |rs| {
      RemoveAt(rs, i, k, t');
    }
  }

  /** A lookup only ever removes, and removes nothing of another address or type. */
  lemma LookupAndRemoveKeeps(rs: Residents, key: AddressKey, t: EntryCodeType)
    ensures var r := LookupAndRemove(rs, key, t);
      && (forall a :: a in r.1 ==> a in rs)
      && (forall a :: a in rs && !Matches(a, key, t) ==> a in r.1)
  {
    var i := FirstMatch(rs, key, t);
    if i < |rs| {
      var rest := rs[..i] + rs[i + 1..];
      assert LookupAndRemove(rs, key, t).1 == rest;
      forall a | a in rs && !Matches(a, key, t) ensures a in rest {
        var j :| 0 <= j < |rs| && rs[j] == a;
        if j < i {
          assert rest[j] == a;
        } else {
          assert rest[j - 1] == a;
        }
      }
    }
  }

  /** A lookup keeps the resident map free of repeats. */
  lemma LookupAndRemoveNoRepeats(rs: Residents, key: AddressKey, t: EntryCodeType)
    requires NoRepeats(rs)
    ensures NoRepeats(LookupAndRemove(rs, key, t).1)
  {
    var i := FirstMatch(rs, key, t);
    if i < |rs| {
      var rest := rs[..i] + rs[i + 1..];
      assert LookupAndRemove(rs, key, t).1 == rest;
      forall p, q | 0 <= p < q < |rest| ensures rest[p] != rest[q] {
        var p' := if p < i then p else p + 1;
        var q' := if q < i then q else q + 1;
        assert rest[p] == rs[p'] && rest[q] == rs[q'];
      }
    }
  }

  /**
   * Repeated `lookupAndRemoveResidentCode(key, type)` until it returns nothing:
   * every code of that type at the address, each removed once.
   */
  function Drain(rs: Residents, key: AddressKey, t: EntryCodeType): (r: (seq<EntryCode>, Residents))
    ensures |r.0| == Count(rs, key, t)
    ensures forall i :: 0 <= i < |r.0| ==> r.0[i].codeType == t
    ensures Count(r.1, key, t) == 0
    decreases Count(rs, key, t)
  {
    var (found, rs') := LookupAndRemove(rs, key, t);
    match found
    case None => ([], rs)
    case Some(c) =>
      var (more, rs'') := Drain(rs', key, t);
      ([c] + more, rs'')
  }

  /** Draining one type at one address leaves the counts of every other address and type alone. */
  lemma {:induction false} DrainCounts(rs: Residents, key: AddressKey, t: EntryCodeType, k: AddressKey, t': EntryCodeType)
    ensures var r := Drain(rs, key, t);
      && (k != key || t' != t ==> Count(r.1, k, t') == Count(rs, k, t'))
      && Numbers(rs) == Numbers(r.1) + CodeNumbers(r.0)
  {
    if k != key || t' != t {
      DrainOthers(rs, key, t, k, t');
    }
    DrainNumbers(rs, key, t);
  }

  lemma {:induction false} DrainOthers(rs: Residents, key: AddressKey, t: EntryCodeType, k: AddressKey, t': EntryCodeType)
    requires k != key || t' != t
    ensures Count(Drain(rs, key, t).1, k, t') == Count(rs, k, t')
    decreases Count(rs, key, t)
  {
    var (found, rs') := LookupAndRemove(rs, key, t);
    LookupAndRemoveCounts(rs, key, t, k, t');
    if found.Some? {
      DrainOthers(rs', key, t, k, t');
      assert Drain(rs, key, t).1 == Drain(rs', key, t).1;
    }
  }

  lemma {:induction false} DrainNumbers(rs: Residents, key: AddressKey, t: EntryCodeType)
    ensures Numbers(rs) == Numbers(Drain(rs, key, t).1) + CodeNumbers(Drain(rs, key, t).0)
    decreases Count(rs, key, t)
  {
    var (found, rs') := LookupAndRemove(rs, key, t);
    LookupAndRemoveCounts(rs, key, t, key, t);
    if found.Some? {
      DrainNumbers(rs', key, t);
      var more := Drain(rs', key, t).0;
      var last := Drain(rs', key, t).1;
      assert Drain(rs, key, t) == ([found.value] + more, last);
      assert CodeNumbers([found.value] + more) == multiset{found.value.code} + CodeNumbers(more) by {
        assert ([found.value] + more)[1..] == more;
      }
      MultisetShift(Numbers(rs), Numbers(rs'), Numbers(last), found.value.code, CodeNumbers(more));
    }
  }

  lemma MultisetShift(a: multiset<int>, b: multiset<int>, c: multiset<int>, x: int, d: multiset<int>)
    requires a == b + multiset{x} && b == c + d
    ensures a == c + (multiset{x} + d)
  {
  }

  /** Draining only ever removes, and removes nothing of another address or type. */
  lemma {:induction false} DrainKeeps(rs: Residents, key: AddressKey, t: EntryCodeType)
    ensures var r := Drain(rs, key, t);
      && (forall a :: a in r.1 ==> a in rs)
      && (forall a :: a in rs && !Matches(a, key, t) ==> a in r.1)
      && (NoRepeats(rs) ==> NoRepeats(r.1))
    decreases Count(rs, key, t)
  {
    var (found, rs') := LookupAndRemove(rs, key, t);
    LookupAndRemoveKeeps(rs, key, t);
    if NoRepeats(rs) {
      LookupAndRemoveNoRepeats(rs, key, t);
    }
    if found.Some? {
      DrainKeeps(rs', key, t);
    }
  }

  /** Every drained code was assigned to the drained address. */
  lemma {:induction false} DrainFrom(rs: Residents, key: AddressKey, t: EntryCodeType)
    ensures forall i :: 0 <= i < |Drain(rs, key, t).0| ==> Assignment(key, Drain(rs, key, t).0[i]) in rs
    decreases Count(rs, key, t)
  {
    var (found, rs') := LookupAndRemove(rs, key, t);
    if found.Some? {
      DrainFrom(rs', key, t);
      LookupAndRemoveKeeps(rs, key, t);
      var more := Drain(rs', key, t).0;
      var all := Drain(rs, key, t).0;
      assert all == [found.value] + more;
      assert Assignment(key, all[0]) in rs;
      forall i | 1 <= i < |all|
        ensures Assignment(key, all[i]) in rs
      {
        assert all[i] == more[i - 1];
        assert Assignment(key, more[i - 1]) in rs';
        assert rs' == LookupAndRemove(rs, key, t).1;
      }
    }
  }

  /** The resident map after one lookup: one code of type `t` at `key` fewer, when there was one. */
  function Removed(rs: Residents, key: AddressKey, t: EntryCodeType): (rest: Residents)
    ensures Count(rest, key, t) == if Count(rs, key, t) > 0 then Count(rs, key, t) - 1 else 0
  {
    LookupAndRemove(rs, key, t).1
  }

  /**
   * The resident map after `n` lookups of type `t` at `key`: each lookup takes
   * one code of that type away, until none is left.
   */
  function Repeat(rs: Residents, key: AddressKey, t: EntryCodeType, n: nat): (r: Residents)
    ensures Count(r, key, t) == if n <= Count(rs, key, t) then Count(rs, key, t) - n else 0
    decreases n
  {
    if n == 0 then rs else Repeat(Removed(rs, key, t), key, t, n - 1)
  }

  // Reading the code sheet

  /** Where one row of the code sheet puts its code. */
  datatype Placement =
    | Skipped
    | Resident(assignment: Assignment)
    | Vendor(vendor: Named<string>)
    | Legacy(legacy: Named<Cell>)

  const COLUMN_STREET: nat := 0
  const COLUMN_HOUSE_NUMBER: nat := 1
  const COLUMN_NAME: nat := 2
  const COLUMN_ENTRY_CODE: nat := 3
  const COLUMN_ENTRY_CODE_TYPE: nat := 4
  const COLUMN_NOTES: nat := 5

  /** `(String) cell` followed by a dereference: a null cell throws. */
  function RequireText(c: Cell, column: nat): Result<string, Error> {
    match c
    case Some(text) => Success(text)
    case None => Failure(NullCell(column))
  }

  function RequireType(text: string): Result<EntryCodeType, Error> {
    match ParseType(text)
    case Some(t) => Success(t)
    case None => Failure(UnknownCodeType(ToUpper(text)))
  }

  /** The code and type a row of at least four cells carries. */
  function RowCode(row: Row, deleted: set<int>): Result<EntryCode, Error>
    requires |row| >= 4
  {
    var code :- ParseIntCell(row[COLUMN_ENTRY_CODE]);
    if code in deleted then Failure(DeletedCodeReused(code))
    else
      var typeCell :- GetCell(row, COLUMN_ENTRY_CODE_TYPE);
      var typeText :- RequireText(typeCell, COLUMN_ENTRY_CODE_TYPE);
      var t :- RequireType(typeText);
      Success(EntryCode(code, t))
  }

  /** One iteration of the loop of `EntryCodeAdapter.adapt`, before the code is stored. */
  function Classify(row: Row, deleted: set<int>): (r: Result<Placement, Error>)
    ensures |row| < 4 ==> r == Success(Skipped)
    ensures |row| >= 4 && ParseIntCell(row[3]).Success? && ParseIntCell(row[3]).value in deleted ==>
      r == Failure(DeletedCodeReused(ParseIntCell(row[3]).value))
    ensures r.Success? && !r.value.Skipped? ==>
      (|row| >= 5 && row[4].Some? &&
       var c := PlacedCode(r.value);
       Success(c.code) == ParseIntCell(row[3]) && c.code !in deleted && ParseType(row[4].value) == Some(c.codeType))
    ensures r.Success? ==> (r.value.Resident? <==> |row| >= 4 && IsFilled(row[0]))
    ensures r.Success? && r.value.Resident? ==> r.value.assignment.key == AddressKey(row[0], row[1])
    ensures r.Success? ==> (r.value.Vendor? <==> |row| >= 4 && !IsFilled(row[0]) && IsFilled(row[2]))
    ensures r.Success? && r.value.Vendor? ==> r.value.vendor.name == row[2].value
    ensures r.Success? ==> (r.value.Legacy? <==> |row| >= 4 && !IsFilled(row[0]) && !IsFilled(row[2]))
    ensures r.Success? && r.value.Legacy? ==> |row| >= 6 && r.value.legacy.name == row[5]
    ensures |row| >= 4 ==>
      (r.Success? <==>
        && ParseIntCell(row[3]).Success? && ParseIntCell(row[3]).value !in deleted
        && |row| >= 5 && row[4].Some? && ParseType(row[4].value).Some?
        && (!IsFilled(row[0]) && !IsFilled(row[2]) ==> |row| >= 6))
  {
    if |row| < 4 then Success(Skipped)  // no code on this row
    else
      var code :- RowCode(row, deleted);
      var street := row[COLUMN_STREET];
      if !IsFilled(street) then
        var name := row[COLUMN_NAME];
        if !IsFilled(name) then
          var notes :- GetCell(row, COLUMN_NOTES);
          Success(Legacy(Named(notes, code)))
        else
          Success(Vendor(Named(name.value, code)))
      else
        Success(Resident(Assignment(AddressKey(street, row[COLUMN_HOUSE_NUMBER]), code)))
  }

  function PlacedCode(p: Placement): EntryCode
    requires !p.Skipped?
  {
    match p
    case Resident(a) => a.code
    case Vendor(n) => n.code
    case Legacy(n) => n.code
  }

  /** The name a vendor or legacy placement claims; two claims of one name are fatal. */
  datatype Claim = VendorName(vendor: string) | LegacyName(legacy: Cell)

  function ClaimOf(p: Placement): Option<Claim> {
    match p
    case Vendor(n) => Some(VendorName(n.name))
    case Legacy(n) => Some(LegacyName(n.name))
    case _ => None
  }

  predicate Claimed(book: Book, c: Claim) {
    match c
    case VendorName(name) => name in Names(book.vendors)
    case LegacyName(name) => name in Names(book.legacy)
  }

  /** The store half of one loop iteration: the `put` into the group the row belongs to. */
  function Store(book: Book, p: Placement): (r: Result<Book, Error>)
    ensures r.Failure? <==> ClaimOf(p).Some? && Claimed(book, ClaimOf(p).value)
    ensures r.Success? ==> Holds(r.value, p) && Includes(book, r.value)
    ensures r.Success? ==> Within(r.value, book, p)
    ensures r.Success? && WellFormed(book) ==> WellFormed(r.value)
  {
    match p
    case Skipped => Success(book)
    case Resident(a) => Success(book.(residents := Put(book.residents, a)))
    case Vendor(n) =>
      if n.name in Names(book.vendors) then Failure(DuplicateVendorCode(n.name))
      else Success(book.(vendors := book.vendors + [n]))
    case Legacy(n) =>
      if n.name in Names(book.legacy) then Failure(DuplicateLegacyCode(n.name))
      else Success(book.(legacy := book.legacy + [n]))
  }

  /** The book holds what the placement stores. */
  predicate Holds(book: Book, p: Placement) {
    match p
    case Skipped => true
    case Resident(a) => a in book.residents
    case Vendor(n) => n in book.vendors
    case Legacy(n) => n in book.legacy
  }

  /** Everything `book` holds, `book'` still holds. */
  predicate Includes(book: Book, book': Book) {
    && (forall a :: a in book.residents ==> a in book'.residents)
    && (forall n :: n in book.vendors ==> n in book'.vendors)
    && (forall n :: n in book.legacy ==> n in book'.legacy)
  }

  /** `book'` holds nothing beyond `book` and what `p` stores. */
  predicate Within(book': Book, book: Book, p: Placement) {
    && (forall a :: a in book'.residents ==> a in book.residents || p == Resident(a))
    && (forall n :: n in book'.vendors ==> n in book.vendors || p == Vendor(n))
    && (forall n :: n in book'.legacy ==> n in book.legacy || p == Legacy(n))
  }

  /** The loop of `EntryCodeAdapter.adapt` over the remaining rows. */
  function AdaptFrom(book: Book, rows: seq<Row>, deleted: set<int>): Result<Book, Error>
    decreases |rows|
  {
    if |rows| == 0 then Success(book)
    else
      var p :- Classify(rows[0], deleted);
      var book' :- Store(book, p);
      AdaptFrom(book', rows[1..], deleted)
  }

  /** `EntryCodeAdapter.adapt`, with the deleted codes the adapter is constructed with. */
  function Adapt(rows: seq<Row>, deleted: set<int>): Result<Book, Error> {
    AdaptFrom(EmptyBook, rows, deleted)
  }

  // Properties of reading the code sheet

  /** A row that cannot be read makes the whole sheet fail, whatever precedes or follows it. */
  lemma {:induction false} BadRowFails(book: Book, rows: seq<Row>, deleted: set<int>, i: nat)
    requires i < |rows| && Classify(rows[i], deleted).Failure?
    ensures AdaptFrom(book, rows, deleted).Failure?
    decreases |rows|
  {
    if i > 0 {
      var p := Classify(rows[0], deleted);
      if p.Success? && Store(book, p.value).Success? {
        assert rows[1..][i - 1] == rows[i];
        BadRowFails(Store(book, p.value).value, rows[1..], deleted, i - 1);
      }
    }
  }

  /** A code on the deleted list makes `adapt` fail. */
  lemma DeletedCodeFails(rows: seq<Row>, deleted: set<int>, i: nat)
    requires i < |rows| && |rows[i]| >= 4
    requires ParseIntCell(rows[i][3]).Success? && ParseIntCell(rows[i][3]).value in deleted
    ensures Adapt(rows, deleted).Failure?
  {
    BadRowFails(EmptyBook, rows, deleted, i);
  }

  /** An unknown type name makes `adapt` fail. */
  lemma UnknownTypeFails(rows: seq<Row>, deleted: set<int>, i: nat)
    requires i < |rows| && |rows[i]| >= 5
    requires ParseIntCell(rows[i][3]).Success? && rows[i][4].Some? && ParseType(rows[i][4].value).None?
    ensures Adapt(rows, deleted).Failure?
  {
    assert Classify(rows[i], deleted).Failure?;
    BadRowFails(EmptyBook, rows, deleted, i);
  }

  lemma ClaimPersists(book: Book, p: Placement, c: Claim)
    requires Store(book, p).Success? && Claimed(book, c)
    ensures Claimed(Store(book, p).value, c)
  {
    var book' := Store(book, p).value;
    match c
    case VendorName(name) =>
      var i :| 0 <= i < |book.vendors| && book.vendors[i].name == name;
      assert book.vendors[i] in book'.vendors;
      var j :| 0 <= j < |book'.vendors| && book'.vendors[j] == book.vendors[i];
    case LegacyName(name) =>
      var i :| 0 <= i < |book.legacy| && book.legacy[i].name == name;
      assert book.legacy[i] in book'.legacy;
      var j :| 0 <= j < |book'.legacy| && book'.legacy[j] == book.legacy[i];
  }

  lemma {:induction false} ClaimedNameFails(book: Book, rows: seq<Row>, deleted: set<int>, j: nat, c: Claim)
    requires j < |rows| && Claimed(book, c)
    requires Classify(rows[j], deleted).Success? && ClaimOf(Classify(rows[j], deleted).value) == Some(c)
    ensures AdaptFrom(book, rows, deleted).Failure?
    decreases |rows|
  {
    var p := Classify(rows[0], deleted);
    if j > 0 && p.Success? && Store(book, p.value).Success? {
      ClaimPersists(book, p.value, c);
      assert rows[1..][j - 1] == rows[j];
      ClaimedNameFails(Store(book, p.value).value, rows[1..], deleted, j - 1, c);
    }
  }

  /**
   * Two vendor rows with the same name, or two legacy rows with the same
   * notes, make `adapt` fail: each name maps to one code only.
   */
  lemma {:induction false} DuplicateNameFails(book: Book, rows: seq<Row>, deleted: set<int>, i: nat, j: nat, c: Claim)
    requires i < j < |rows|
    requires Classify(rows[i], deleted).Success? && ClaimOf(Classify(rows[i], deleted).value) == Some(c)
    requires Classify(rows[j], deleted).Success? && ClaimOf(Classify(rows[j], deleted).value) == Some(c)
    ensures AdaptFrom(book, rows, deleted).Failure?
    decreases |rows|
  {
    assert rows[1..][j - 1] == rows[j];
    if Classify(rows[0], deleted).Success? && Store(book, Classify(rows[0], deleted).value).Success? {
      var p := Classify(rows[0], deleted).value;
      var book' := Store(book, p).value;
      if i == 0 {
        StoreClaims(book, p);
        ClaimedNameFails(book', rows[1..], deleted, j - 1, c);
      } else {
        assert rows[1..][i - 1] == rows[i];
        DuplicateNameFails(book', rows[1..], deleted, i - 1, j - 1, c);
      }
    }
  }

  /** Every row of the sheet can be read. */
  predicate Readable(rows: seq<Row>, deleted: set<int>) {
    forall i :: 0 <= i < |rows| ==> Classify(rows[i], deleted).Success?
  }

  /** No two rows claim the same vendor name or the same legacy notes. */
  predicate DistinctClaims(rows: seq<Row>, deleted: set<int>) {
    forall i, j ::
      (0 <= i < j < |rows| && Classify(rows[i], deleted).Success? && Classify(rows[j], deleted).Success? &&
       ClaimOf(Classify(rows[i], deleted).value).Some?) ==>
      ClaimOf(Classify(rows[i], deleted).value) != ClaimOf(Classify(rows[j], deleted).value)
  }

  /** No row claims a name the book has already mapped. */
  predicate Unclaimed(book: Book, rows: seq<Row>, deleted: set<int>) {
    forall i :: 0 <= i < |rows| && Classify(rows[i], deleted).Success? && ClaimOf(Classify(rows[i], deleted).value).Some? ==>
      !Claimed(book, ClaimOf(Classify(rows[i], deleted).value).value)
  }

  /** The loop fails on an unreadable row, on a repeated claim and on a name the book already maps. */
  lemma AdaptFromNeedsDistinctClaims(book: Book, rows: seq<Row>, deleted: set<int>)
    requires AdaptFrom(book, rows, deleted).Success?
    ensures Readable(rows, deleted) && DistinctClaims(rows, deleted) && Unclaimed(book, rows, deleted)
  {
    forall i | 0 <= i < |rows|
      ensures Classify(rows[i], deleted).Success?
    {
      if Classify(rows[i], deleted).Failure? {
        BadRowFails(book, rows, deleted, i);
      }
    }
    forall i, j | 0 <= i < j < |rows| && Classify(rows[i], deleted).Success? && Classify(rows[j], deleted).Success? &&
        ClaimOf(Classify(rows[i], deleted).value).Some?
      ensures ClaimOf(Classify(rows[i], deleted).value) != ClaimOf(Classify(rows[j], deleted).value)
    {
      var c := ClaimOf(Classify(rows[i], deleted).value).value;
      if ClaimOf(Classify(rows[j], deleted).value) == Some(c) {
        DuplicateNameFails(book, rows, deleted, i, j, c);
      }
    }
    forall i | 0 <= i < |rows| && Classify(rows[i], deleted).Success? && ClaimOf(Classify(rows[i], deleted).value).Some?
      ensures !Claimed(book, ClaimOf(Classify(rows[i], deleted).value).value)
    {
      var c := ClaimOf(Classify(rows[i], deleted).value).value;
      if Claimed(book, c) {
        ClaimedNameFails(book, rows, deleted, i, c);
      }
    }
  }

  /** Storing `p` maps the name `p` claims. */
  lemma StoreClaims(book: Book, p: Placement)
    requires Store(book, p).Success?
    ensures ClaimOf(p).Some? ==> Claimed(Store(book, p).value, ClaimOf(p).value)
  {
    var book' := Store(book, p).value;
    assert Holds(book', p);
    match p
    case Vendor(n) =>
      var k :| 0 <= k < |book'.vendors| && book'.vendors[k] == n;
    case Legacy(n) =>
      var k :| 0 <= k < |book'.legacy| && book'.legacy[k] == n;
    case _ =>
  }

  /** A name mapped after storing `p` was mapped before or is the name `p` claims. */
  lemma ClaimedAfterStore(book: Book, p: Placement, c: Claim)
    requires Store(book, p).Success?
    ensures Claimed(Store(book, p).value, c) ==> Claimed(book, c) || ClaimOf(p) == Some(c)
  {
    var book' := Store(book, p).value;
    if Claimed(book', c) {
      match c
      case VendorName(name) =>
        var k :| 0 <= k < |book'.vendors| && book'.vendors[k].name == name;
        if book'.vendors[k] in book.vendors {
          var m :| 0 <= m < |book.vendors| && book.vendors[m] == book'.vendors[k];
        }
      case LegacyName(name) =>
        var k :| 0 <= k < |book'.legacy| && book'.legacy[k].name == name;
        if book'.legacy[k] in book.legacy {
          var m :| 0 <= m < |book.legacy| && book.legacy[m] == book'.legacy[k];
        }
    }
  }

  /** Readable rows whose claims are distinct and new to the book are all stored. */
  lemma {:induction false} AdaptFromAccepts(book: Book, rows: seq<Row>, deleted: set<int>)
    requires Readable(rows, deleted) && DistinctClaims(rows, deleted) && Unclaimed(book, rows, deleted)
    ensures AdaptFrom(book, rows, deleted).Success?
    decreases |rows|
  {
    if |rows| > 0 {
      var p := Classify(rows[0], deleted).value;
      assert Store(book, p).Success? by {
        if ClaimOf(p).Some? {
          assert !Claimed(book, ClaimOf(p).value);
        }
      }
      var book' := Store(book, p).value;
      var tail := rows[1..];
      assert Readable(tail, deleted) by {
        forall i | 0 <= i < |tail| ensures Classify(tail[i], deleted).Success? {
          assert tail[i] == rows[i + 1];
        }
      }
      assert DistinctClaims(tail, deleted) by {
        forall i, j | 0 <= i < j < |tail| && Classify(tail[i], deleted).Success? && Classify(tail[j], deleted).Success? &&
            ClaimOf(Classify(tail[i], deleted).value).Some?
          ensures ClaimOf(Classify(tail[i], deleted).value) != ClaimOf(Classify(tail[j], deleted).value)
        {
          assert tail[i] == rows[i + 1] && tail[j] == rows[j + 1];
        }
      }
      assert Unclaimed(book', tail, deleted) by {
        forall i | 0 <= i < |tail| && Classify(tail[i], deleted).Success? && ClaimOf(Classify(tail[i], deleted).value).Some?
          ensures !Claimed(book', ClaimOf(Classify(tail[i], deleted).value).value)
        {
          assert tail[i] == rows[i + 1];
          var c := ClaimOf(Classify(tail[i], deleted).value).value;
          ClaimedAfterStore(book, p, c);
        }
      }
      AdaptFromAccepts(book', tail, deleted);
    }
  }

  /**
   * `adapt` succeeds exactly when every row can be read and no two rows claim
   * the same vendor name or the same legacy notes.
   */
  lemma AdaptSucceeds(rows: seq<Row>, deleted: set<int>)
    ensures Adapt(rows, deleted).Success? <==> Readable(rows, deleted) && DistinctClaims(rows, deleted)
  {
    if Adapt(rows, deleted).Success? {
      AdaptFromNeedsDistinctClaims(EmptyBook, rows, deleted);
    } else if Readable(rows, deleted) && DistinctClaims(rows, deleted) {
      AdaptFromAccepts(EmptyBook, rows, deleted);
    }
  }

  /** The rows with a code column. */
  function LongRows(rows: seq<Row>): (r: seq<Row>)
    ensures forall i :: 0 <= i < |r| ==> |r[i]| >= 4
    ensures |r| <= |rows|
    decreases |rows|
  {
    if |rows| == 0 then []
    else if |rows[0]| < 4 then LongRows(rows[1..])
    else [rows[0]] + LongRows(rows[1..])
  }

  /** Rows with fewer than four cells contribute nothing: dropping them changes no outcome. */
  lemma {:induction false} ShortRowsSkipped(book: Book, rows: seq<Row>, deleted: set<int>)
    ensures AdaptFrom(book, rows, deleted) == AdaptFrom(book, LongRows(rows), deleted)
    decreases |rows|
  {
    if |rows| > 0 {
      var p := Classify(rows[0], deleted);
      if p.Success? && Store(book, p.value).Success? {
        ShortRowsSkipped(Store(book, p.value).value, rows[1..], deleted);
      }
      if |rows[0]| >= 4 {
        assert ([rows[0]] + LongRows(rows[1..]))[1..] == LongRows(rows[1..]);
      }
    }
  }

  /** Row `i` of the sheet classifies as `p`. */
  predicate Placed(rows: seq<Row>, deleted: set<int>, p: Placement) {
    exists i :: 0 <= i < |rows| && Classify(rows[i], deleted) == Success(p)
  }

  lemma PlacedTail(rows: seq<Row>, deleted: set<int>, p: Placement)
    requires 0 < |rows| && Placed(rows[1..], deleted, p)
    ensures Placed(rows, deleted, p)
  {
    var i :| 0 <= i < |rows[1..]| && Classify(rows[1..][i], deleted) == Success(p);
    assert rows[i + 1] == rows[1..][i];
  }

  /** Every row's code was stored, in the group its row belongs to. */
  predicate HoldsAll(book: Book, rows: seq<Row>, deleted: set<int>) {
    forall i :: 0 <= i < |rows| ==> Classify(rows[i], deleted).Success? && Holds(book, Classify(rows[i], deleted).value)
  }

  /** Everything `book'` holds was in `book` already or comes from some row. */
  predicate FromRows(book': Book, book: Book, rows: seq<Row>, deleted: set<int>) {
    && (forall a :: a in book'.residents ==> a in book.residents || Placed(rows, deleted, Resident(a)))
    && (forall n :: n in book'.vendors ==> n in book.vendors || Placed(rows, deleted, Vendor(n)))
    && (forall n :: n in book'.legacy ==> n in book.legacy || Placed(rows, deleted, Legacy(n)))
  }

  lemma HoldsPersists(book: Book, book': Book, p: Placement)
    requires Holds(book, p) && Includes(book, book')
    ensures Holds(book', p)
  {
  }

  /**
   * On success the book is exactly the sorted rows: every row's code sits in
   * the group its street, name and notes columns select, nothing else is in
   * the book, resident codes do not repeat and vendor and legacy names are unique.
   */
  lemma {:induction false} AdaptFromSorts(book: Book, rows: seq<Row>, deleted: set<int>)
    requires AdaptFrom(book, rows, deleted).Success?
    ensures var book' := AdaptFrom(book, rows, deleted).value;
      && Includes(book, book')
      && HoldsAll(book', rows, deleted)
      && FromRows(book', book, rows, deleted)
      && (WellFormed(book) ==> WellFormed(book'))
    decreases |rows|
  {
    if |rows| > 0 {
      var p := Classify(rows[0], deleted).value;
      var b1 := Store(book, p).value;
      AdaptFromSorts(b1, rows[1..], deleted);
      var book' := AdaptFrom(book, rows, deleted).value;
      assert book' == AdaptFrom(b1, rows[1..], deleted).value;
      HoldsPersists(b1, book', p);
      forall i | 0 <= i < |rows|
        ensures Classify(rows[i], deleted).Success? && Holds(book', Classify(rows[i], deleted).value)
      {
        if i > 0 {
          assert rows[1..][i - 1] == rows[i];
        }
      }
      assert Placed(rows, deleted, p) by {
        assert Classify(rows[0], deleted) == Success(p);
      }
      forall a | a in book'.residents && a !in book.residents
        ensures Placed(rows, deleted, Resident(a))
      {
        if a !in b1.residents {
          PlacedTail(rows, deleted, Resident(a));
        }
      }
      forall n | n in book'.vendors && n !in book.vendors
        ensures Placed(rows, deleted, Vendor(n))
      {
        if n !in b1.vendors {
          PlacedTail(rows, deleted, Vendor(n));
        }
      }
      forall n | n in book'.legacy && n !in book.legacy
        ensures Placed(rows, deleted, Legacy(n))
      {
        if n !in b1.legacy {
          PlacedTail(rows, deleted, Legacy(n));
        }
      }
    }
  }

  /** `adapt` applied to a whole sheet: the three groups are exactly the sheet's rows, sorted. */
  lemma AdaptSorts(rows: seq<Row>, deleted: set<int>)
    requires Adapt(rows, deleted).Success?
    ensures var book := Adapt(rows, deleted).value;
      && WellFormed(book)
      && HoldsAll(book, rows, deleted)
      && (forall a :: a in book.residents ==> Placed(rows, deleted, Resident(a)))
      && (forall n :: n in book.vendors ==> Placed(rows, deleted, Vendor(n)))
      && (forall n :: n in book.legacy ==> Placed(rows, deleted, Legacy(n)))
  {
    AdaptFromSorts(EmptyBook, rows, deleted);
  }
}
