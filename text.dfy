/**
 * Text helpers: decimal rendering of a non-negative int (Java's `"" + i`), StringJoiner's
 * joining with a separator, and the splitting back into fields that inverts it.
 */
module Text {

  function Digit(d: nat): (c: char)
    requires d < 10
    ensures '0' <= c <= '9'
  {
    "0123456789"[d]
  }

  function DigitValue(c: char): nat
    requires '0' <= c <= '9'
  {
    (c as int - '0' as int) as nat
  }

  /** The decimal digits of `n`, most significant first, with no leading zeros. */
  function NatToString(n: nat): (s: string)
    ensures |s| >= 1
    ensures forall i :: 0 <= i < |s| ==> '0' <= s[i] <= '9'
  {
    if n < 10 then [Digit(n)] else NatToString(n / 10) + [Digit(n % 10)]
  }

  /** Reads a string of decimal digits back as a number. */
  function ParseNat(s: string): nat
    requires forall i :: 0 <= i < |s| ==> '0' <= s[i] <= '9'
  {
    if |s| == 0 then 0 else 10 * ParseNat(s[..|s| - 1]) + DigitValue(s[|s| - 1])
  }

  lemma {:induction false} ParseNatToString(n: nat)
    ensures ParseNat(NatToString(n)) == n
  {
    var s := NatToString(n);
    var d := if n < 10 then n else n % 10;
    assert DigitValue(Digit(d)) == d;
    if n >= 10 {
      ParseNatToString(n / 10);
      assert s[..|s| - 1] == NatToString(n / 10);
    }
  }

  /** Different numbers are rendered differently. */
  lemma NatToStringInjective(a: nat, b: nat)
    requires NatToString(a) == NatToString(b)
    ensures a == b
  {
    ParseNatToString(a);
    ParseNatToString(b);
  }

  /** StringJoiner: `parts` separated by `sep`, the empty string when there are none. */
  function Join(parts: seq<string>, sep: char): string {
    if |parts| == 0 then ""
    else if |parts| == 1 then parts[0]
    else Join(parts[..|parts| - 1], sep) + [sep] + parts[|parts| - 1]
  }

  /** Splits `s` at every occurrence of `sep`; a string without `sep` is one field. */
  function Fields(s: string, sep: char): (r: seq<string>)
    ensures |r| >= 1
  {
    if |s| == 0 then [""]
    else if s[0] == sep then [""] + Fields(s[1..], sep)
    else var rest := Fields(s[1..], sep); [[s[0]] + rest[0]] + rest[1..]
  }

  lemma {:induction false} FieldsWithout(s: string, sep: char)
    requires sep !in s
    ensures Fields(s, sep) == [s]
  {
    if |s| > 0 {
      FieldsWithout(s[1..], sep);
      assert [s[0]] + s[1..] == s;
    }
  }

  lemma FieldsCons(c: char, s: string, sep: char)
    ensures Fields([c] + s, sep) ==
      if c == sep then [""] + Fields(s, sep)
      else [[c] + Fields(s, sep)[0]] + Fields(s, sep)[1..]
  {
    assert ([c] + s)[1..] == s;
  }

  lemma ExtendFirst(c: char, front: seq<string>, back: seq<string>)
    requires |front| >= 1
    ensures [[c] + (front + back)[0]] + (front + back)[1..] == ([[c] + front[0]] + front[1..]) + back
  {
    assert (front + back)[1..] == front[1..] + back;
  }

  lemma {:induction false} FieldsConcat(a: string, b: string, sep: char)
    ensures Fields(a + [sep] + b, sep) == Fields(a, sep) + Fields(b, sep)
  {
    if |a| == 0 {
      assert a + [sep] + b == [sep] + b;
      FieldsCons(sep, b, sep);
    } else {
      var c, a' := a[0], a[1..];
      var t := a' + [sep] + b;
      var front, back := Fields(a', sep), Fields(b, sep);
      calc {
        Fields(a + [sep] + b, sep);
        { assert a + [sep] + b == [c] + t; }
        Fields([c] + t, sep);
        { FieldsCons(c, t, sep); FieldsConcat(a', b, sep); }
        if c == sep then [""] + (front + back)
        else [[c] + (front + back)[0]] + (front + back)[1..];
        { if c != sep { ExtendFirst(c, front, back); } }
        (if c == sep then [""] + front else [[c] + front[0]] + front[1..]) + back;
        { assert a == [c] + a'; FieldsCons(c, a', sep); }
        Fields(a, sep) + back;
      }
    }
  }

  /** Splitting a joined line returns the parts, provided none of them contains the separator. */
  lemma {:induction false} FieldsOfJoin(parts: seq<string>, sep: char)
    requires |parts| >= 1
    requires forall i :: 0 <= i < |parts| ==> sep !in parts[i]
    ensures Fields(Join(parts, sep), sep) == parts
  {
    if |parts| == 1 {
      FieldsWithout(parts[0], sep);
    } else {
      var init := parts[..|parts| - 1];
      FieldsOfJoin(init, sep);
      FieldsConcat(Join(init, sep), parts[|parts| - 1], sep);
      FieldsWithout(parts[|parts| - 1], sep);
      assert init + [parts[|parts| - 1]] == parts;
    }
  }

  /** `fields` without its trailing empty strings. */
  function DropTrailingEmpty(fields: seq<string>): (r: seq<string>)
    ensures |r| <= |fields| && r == fields[..|r|]
    ensures |r| > 0 ==> r[|r| - 1] != ""
    ensures forall i :: |r| <= i < |fields| ==> fields[i] == ""
  {
    if |fields| == 0 || fields[|fields| - 1] != "" then fields
    else DropTrailingEmpty(fields[..|fields| - 1])
  }

  /**
   * Java's `String.split` with a one-character separator that is no regex metacharacter:
   * the whole string when the separator does not occur, otherwise the fields with the
   * trailing empty ones removed (so a line made only of separators splits into nothing).
   */
  function JavaSplit(s: string, sep: char): seq<string> {
    if sep !in s then [s] else DropTrailingEmpty(Fields(s, sep))
  }

  /** A line written as the join of its fields splits back into them, in Java's sense too. */
  lemma JavaSplitOfJoin(parts: seq<string>, sep: char)
    requires |parts| >= 1 && parts[|parts| - 1] != ""
    requires forall i :: 0 <= i < |parts| ==> sep !in parts[i]
    ensures JavaSplit(Join(parts, sep), sep) == parts
  {
    FieldsOfJoin(parts, sep);
    if sep !in Join(parts, sep) {
      FieldsWithout(Join(parts, sep), sep);
    }
  }
}

