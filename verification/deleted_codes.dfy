/** The "deleted entry codes" sheet: retired codes, which may never be assigned again. */
module DeletedCodes {
  import opened Wrappers
  import opened Cells

  /** The code in column 0 of a row of the deleted-codes sheet. */
  function RowCode(row: Row): Result<int, Error> {
    var cell :- GetCell(row, 0);
    ParseIntCell(cell)
  }

  /** The column-0 code of every row, in row order; `None` when some row has no readable code. */
  function Codes(rows: seq<Row>): (r: Option<seq<int>>)
    ensures r.Some? <==> forall i :: 0 <= i < |rows| ==> RowCode(rows[i]).Success?
    ensures r.Some? ==> |r.value| == |rows|
    ensures r.Some? ==> forall i :: 0 <= i < |rows| ==> RowCode(rows[i]) == Success(r.value[i])
    decreases |rows|
  {
    if |rows| == 0 then Some([])
    else if RowCode(rows[0]).Failure? then None
    else
      var rest :- Codes(rows[1..]);
      assert forall i :: 1 <= i < |rows| ==> rows[i] == rows[1..][i - 1];
      Some([RowCode(rows[0]).value] + rest)
  }

  predicate Distinct(s: seq<int>) {
    forall i, j :: 0 <= i < j < |s| ==> s[i] != s[j]
  }

  /** The codes are pairwise distinct and none of them is in `seen`. */
  predicate Fresh(codes: seq<int>, seen: set<int>) {
    Distinct(codes) && forall i :: 0 <= i < |codes| ==> codes[i] !in seen
  }

  function SetOf(codes: seq<int>): (s: set<int>)
    ensures forall c :: c in s <==> c in codes
  {
    set c | c in codes
  }

  lemma FreshCons(codes: seq<int>, seen: set<int>)
    requires 0 < |codes|
    ensures Fresh(codes, seen) <==> codes[0] !in seen && Fresh(codes[1..], seen + {codes[0]})
  {
    if codes[0] !in seen && Fresh(codes[1..], seen + {codes[0]}) {
      forall i, j | 0 <= i < j < |codes| ensures codes[i] != codes[j] {
        assert codes[j] == codes[1..][j - 1];
        if i > 0 {
          assert codes[i] == codes[1..][i - 1];
        }
      }
    }
  }

  lemma {:induction false} FreshCardinality(codes: seq<int>, seen: set<int>)
    requires Fresh(codes, seen)
    ensures |seen + SetOf(codes)| == |seen| + |codes|
    decreases |codes|
  {
    if |codes| > 0 {
      FreshCons(codes, seen);
      FreshCardinality(codes[1..], seen + {codes[0]});
      assert seen + SetOf(codes) == (seen + {codes[0]}) + SetOf(codes[1..]);
    }
  }

  /** The loop of `adapt`: adds each row's code to `seen`, failing on the first repeat. */
  function Collect(rows: seq<Row>, seen: set<int>): Result<set<int>, Error>
    decreases |rows|
  {
    if |rows| == 0 then Success(seen)
    else
      var code :- RowCode(rows[0]);
      if code in seen then Failure(DuplicateDeletedCode(code))
      else Collect(rows[1..], seen + {code})
  }

  /** `DeletedEntryCodeAdapter.adapt`. */
  function Adapt(rows: seq<Row>): Result<set<int>, Error> {
    Collect(rows, {})
  }

  lemma {:induction false} CollectSpec(rows: seq<Row>, seen: set<int>)
    ensures Collect(rows, seen).Success? <==> Codes(rows).Some? && Fresh(Codes(rows).value, seen)
    ensures Collect(rows, seen).Success? ==> Collect(rows, seen).value == seen + SetOf(Codes(rows).value)
    decreases |rows|
  {
    if |rows| > 0 && RowCode(rows[0]).Success? {
      var code := RowCode(rows[0]).value;
      CollectSpec(rows[1..], seen + {code});
      if Codes(rows).Some? {
        var cs := Codes(rows).value;
        assert cs[1..] == Codes(rows[1..]).value;
        FreshCons(cs, seen);
        assert seen + SetOf(cs) == (seen + {code}) + SetOf(cs[1..]);
      } else {
        assert !(forall i :: 0 <= i < |rows[1..]| ==> RowCode(rows[1..][i]).Success?) by {
          var i :| 0 <= i < |rows| && RowCode(rows[i]).Failure?;
          assert rows[1..][i - 1] == rows[i];
        }
      }
    }
  }

  /**
   * `adapt` succeeds exactly when every row holds a readable code and no code
   * repeats; the result is then the set of those codes, one per row.
   */
  lemma AdaptSpec(rows: seq<Row>)
    ensures Adapt(rows).Success? <==> Codes(rows).Some? && Distinct(Codes(rows).value)
    ensures Adapt(rows).Success? ==>
      (forall c :: c in Adapt(rows).value <==> exists i :: 0 <= i < |rows| && RowCode(rows[i]) == Success(c)) &&
      |Adapt(rows).value| == |rows|
  {
    CollectSpec(rows, {});
    if Adapt(rows).Success? {
      var cs := Codes(rows).value;
      assert Adapt(rows).value == SetOf(cs) by {
        assert {} + SetOf(cs) == SetOf(cs);
      }
      assert |SetOf(cs)| == |rows| by {
        FreshCardinality(cs, {});
        assert {} + SetOf(cs) == SetOf(cs);
      }
      CodesMembers(rows);
    }
  }

  /** The set of the rows' codes holds exactly the codes some row carries. */
  lemma CodesMembers(rows: seq<Row>)
    requires Codes(rows).Some?
    ensures forall c :: c in SetOf(Codes(rows).value) <==> exists i :: 0 <= i < |rows| && RowCode(rows[i]) == Success(c)
  {
    var cs := Codes(rows).value;
    forall c | c in SetOf(cs)
      ensures exists i :: 0 <= i < |rows| && RowCode(rows[i]) == Success(c)
    {
      var i :| 0 <= i < |cs| && cs[i] == c;
    }
  }

  /** Two rows carrying the same code make `adapt` fail. */
  lemma DuplicateFails(rows: seq<Row>, i: nat, j: nat, code: int)
    requires i < j < |rows|
    requires RowCode(rows[i]) == Success(code) && RowCode(rows[j]) == Success(code)
    ensures Adapt(rows).Failure?
  {
    AdaptSpec(rows);
  }

  /** No rows, no deleted codes. */
  lemma EmptySheet()
    ensures Adapt([]) == Success({})
  {
  }
}
