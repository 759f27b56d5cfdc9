/** An entry code and its type, as assigned on the code sheet. */
module EntryCodes {
  import opened Wrappers
  import opened Decimal
  import Text

  /** The closed set of code types. */
  datatype EntryCodeType = PERMANENT | LIMITED | DELIVERY

  /** `EntryCodeType.name()`. */
  function Name(t: EntryCodeType): string {
    match t
    case PERMANENT => "PERMANENT"
    case LIMITED => "LIMITED"
    case DELIVERY => "DELIVERY"
  }

  /** `EntryCodeType.valueOf(text)`: exact, case-sensitive match of a constant's name. */
  function ValueOf(text: string): (r: Option<EntryCodeType>)
    ensures r.Some? <==> text in {"PERMANENT", "LIMITED", "DELIVERY"}
    ensures r.Some? ==> Name(r.value) == text
  {
    if text == "PERMANENT" then Some(PERMANENT)
    else if text == "LIMITED" then Some(LIMITED)
    else if text == "DELIVERY" then Some(DELIVERY)
    else None
  }

  /** `valueOf` reads back every constant's name. */
  lemma ValueOfName(t: EntryCodeType)
    ensures ValueOf(Name(t)) == Some(t)
  {
  }

  /**
   * `Character.toUpperCase` restricted to what matters for matching type
   * names: ASCII letters, plus the two non-ASCII letters whose upper case is an
   * ASCII letter (dotless i and long s). Every other character is kept; its Java
   * upper case is not an ASCII letter either, so no type name can match it.
   */
  function UpperChar(ch: char): char {
    if 'a' <= ch <= 'z' then (ch as int - 32) as char
    else if ch == '\U{0131}' then 'I'
    else if ch == '\U{017F}' then 'S'
    else ch
  }

  function ToUpper(s: string): (u: string)
    ensures |u| == |s|
    ensures forall i :: 0 <= i < |s| ==> u[i] == UpperChar(s[i])
  {
    seq(|s|, i requires 0 <= i < |s| => UpperChar(s[i]))
  }

  function LowerChar(ch: char): char {
    if 'A' <= ch <= 'Z' then (ch as int + 32) as char else ch
  }

  function ToLower(s: string): (l: string)
    ensures |l| == |s|
    ensures forall i :: 0 <= i < |s| ==> l[i] == LowerChar(s[i])
  {
    seq(|s|, i requires 0 <= i < |s| => LowerChar(s[i]))
  }

  /** `EntryCodeType.valueOf(text.toUpperCase())`, how the code sheet's type column is read. */
  function ParseType(text: string): (r: Option<EntryCodeType>)
    ensures r.Some? <==> ToUpper(text) in {"PERMANENT", "LIMITED", "DELIVERY"}
    ensures r.Some? ==> ToUpper(text) == Name(r.value)
  {
    ValueOf(ToUpper(text))
  }

  /** The type column is case-insensitive: every casing of a type's name reads as that type. */
  lemma ParseTypeIgnoresCase(t: EntryCodeType, text: string)
    requires |text| == |Name(t)|
    requires forall i :: 0 <= i < |text| ==> text[i] == Name(t)[i] || text[i] == LowerChar(Name(t)[i])
    ensures ParseType(text) == Some(t)
  {
    var u := ToUpper(text);
    assert u == Name(t) by {
      forall i | 0 <= i < |text|
        ensures u[i] == Name(t)[i]
      {
        assert 'A' <= Name(t)[i] <= 'Z';
      }
    }
  }

  /** In particular the all-lower-case spelling of a type name reads as that type. */
  lemma ParseLowerCaseName(t: EntryCodeType)
    ensures ParseType(ToLower(Name(t))) == Some(t)
  {
    ParseTypeIgnoresCase(t, ToLower(Name(t)));
  }

  datatype EntryCode = EntryCode(code: int, codeType: EntryCodeType)

  /** `EntryCode.equals`: same code and same type. */
  predicate Equals(a: EntryCode, b: EntryCode) {
    a.code == b.code && a.codeType == b.codeType
  }

  /** Equality by (code, type) is exactly value equality of the model's codes. */
  lemma EqualsIsIdentity(a: EntryCode, b: EntryCode)
    ensures Equals(a, b) <==> a == b
  {
  }

  /**
   * `EntryCode.hashCode`, `Objects.hash(code, type)` in 32-bit arithmetic.
   * An enum constant's hash is its identity hash, unknown here, so it is a parameter.
   */
  function HashCode(c: EntryCode, typeHash: EntryCodeType -> int): (h: int)
    ensures IsInt32(h)
    ensures (h - (961 + 31 * c.code + typeHash(c.codeType))) % 0x1_0000_0000 == 0
  {
    Wrap32(31 * (31 * 1 + c.code) + typeHash(c.codeType))
  }

  /** Equal codes hash alike, whatever the enum constants' hashes are. */
  lemma HashCodeRespectsEquals(a: EntryCode, b: EntryCode, typeHash: EntryCodeType -> int)
    requires Equals(a, b)
    ensures HashCode(a, typeHash) == HashCode(b, typeHash)
  {
  }

  /** `EntryCode.toString`: the code padded to four digits, a space, the type name. */
  function Describe(c: EntryCode): string {
    ZeroPad(c.code, 4) + " " + Name(c.codeType)
  }

  /** Reads a description back: the text before the first space is the code, the rest the type name. */
  function ParseDescription(s: string): Option<EntryCode> {
    if ' ' !in s then None
    else
      var i := Text.IndexOf(s, ' ');
      var code :- ParseInt(s[..i]);
      var t :- ValueOf(s[i + 1..]);
      Some(EntryCode(code, t))
  }

  /** A description splits at its first space, so any space-free code text reads back. */
  lemma ParseJoined(p: string, name: string)
    requires ' ' !in p
    requires ParseInt(p).Some? && ValueOf(name).Some?
    ensures ParseDescription(p + " " + name) == Some(EntryCode(ParseInt(p).value, ValueOf(name).value))
  {
    var s := p + " " + name;
    assert s == p + [' '] + name;
    Text.IndexOfAfterPrefix(p, name, ' ');
    assert s[..|p|] == p;
    assert s[|p| + 1..] == name;
  }

  /** `Describe` loses nothing: every code of Java `int` range is recovered from its description. */
  lemma DescribeRoundTrip(c: EntryCode)
    requires IsInt32(c.code)
    ensures ParseDescription(Describe(c)) == Some(c)
  {
    var p := ZeroPad(c.code, 4);
    assert ' ' !in p;
    ParseZeroPad(c.code, 4);
    ValueOfName(c.codeType);
    ParseJoined(p, Name(c.codeType));
  }
}
