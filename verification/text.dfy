/**
 * Comma-joined lines, as Guava's `Joiner.on(',')` writes them, and the
 * splitting that reads them back.
 */
module Text {

  /** The position of the first `ch` in `s`. */
  function IndexOf(s: string, ch: char): (i: nat)
    requires ch in s
    ensures i < |s| && s[i] == ch && ch !in s[..i]
  {
    if s[0] == ch then 0 else 1 + IndexOf(s[1..], ch)
  }

  /** `Joiner.on(',').join(parts)`: no escaping, a comma inside a part is written as is. */
  function Join(parts: seq<string>): string {
    if |parts| == 0 then ""
    else if |parts| == 1 then parts[0]
    else parts[0] + "," + Join(parts[1..])
  }

  /** The fields of a comma-separated line: the text between consecutive commas. */
  function Split(line: string): (fields: seq<string>)
    ensures 0 < |fields|
    decreases |line|
  {
    if ',' !in line then [line]
    else
      var i := IndexOf(line, ',');
      [line[..i]] + Split(line[i + 1..])
  }

  predicate NoCommas(parts: seq<string>) {
    forall i :: 0 <= i < |parts| ==> ',' !in parts[i]
  }

  lemma IndexOfAfterPrefix(p: string, rest: string, ch: char)
    requires ch !in p
    ensures ch in p + [ch] + rest && IndexOf(p + [ch] + rest, ch) == |p|
  {
    var s := p + [ch] + rest;
    assert s[|p|] == ch;
    assert s[..|p|] == p;
  }

  /** Splitting a joined line gives back its parts, provided no part holds a comma. */
  lemma {:induction false} SplitJoin(parts: seq<string>)
    requires 0 < |parts| && NoCommas(parts)
    ensures Split(Join(parts)) == parts
    decreases |parts|
  {
    if |parts| > 1 {
      var rest := Join(parts[1..]);
      var line := parts[0] + "," + rest;
      assert line == parts[0] + [','] + rest;
      IndexOfAfterPrefix(parts[0], rest, ',');
      assert line[..|parts[0]|] == parts[0];
      assert line[|parts[0]| + 1..] == rest;
      SplitJoin(parts[1..]);
    }
  }
}
