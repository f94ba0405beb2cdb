/** Java string behaviour the k-mer tools rely on: String.split on one
    separator character, String.trim, toUpperCase, the comma join of the
    matrix header, and the number formats read by Integer.parseInt and
    Double.parseDouble. */
module Text {

  datatype Option<T> = None | Some(value: T)

  // ---------------------------------------------------------------- case

  /** toUpperCase on one character (ASCII letters). */
  function UpperChar(c: char): (r: char) {
    if 'a' <= c <= 'z' then (c as int - 32) as char else c
  }

  function Upper(s: string): (r: string) {
    seq(|s|, i requires 0 <= i < |s| => UpperChar(s[i]))
  }

  predicate StartsWith(s: string, c: char) {
    |s| > 0 && s[0] == c
  }

  // ---------------------------------------------------------------- split

  /** Every piece between separators, empty pieces included. */
  function SplitAll(s: string, sep: char): (r: seq<string>)
    ensures |r| >= 1
  {
    if s == [] then [[]]
    else
      var rest := SplitAll(s[1..], sep);
      if s[0] == sep then [[]] + rest else [[s[0]] + rest[0]] + rest[1..]
  }

  function DropTrailingEmpty(parts: seq<string>): (r: seq<string>) {
    if parts == [] || parts[|parts| - 1] != [] then parts
    else DropTrailingEmpty(parts[..|parts| - 1])
  }

  /** Java's s.split(sep): trailing empty pieces are dropped, except that an
      input with no separator at all (the empty string included) gives
      itself. So "" gives [""] and a line of separators only gives []. */
  function Split(s: string, sep: char): (r: seq<string>) {
    if sep !in s then [s] else DropTrailingEmpty(SplitAll(s, sep))
  }

  /** True when s.split(sep)[0] throws. */
  predicate NoFields(s: string, sep: char) {
    Split(s, sep) == []
  }

  lemma {:induction false} SplitAllNoSep(s: string, sep: char)
    requires sep !in s
    ensures SplitAll(s, sep) == [s]
  {
    if s != [] {
      SplitAllNoSep(s[1..], sep);
      assert [s[0]] + s[1..] == s;
    }
  }

  lemma {:induction false} SplitAllAppend(x: string, sep: char, y: string)
    ensures SplitAll(x + [sep] + y, sep) == SplitAll(x, sep) + SplitAll(y, sep)
  {
    if x == [] {
      assert x + [sep] + y == [sep] + y;
      assert ([sep] + y)[1..] == y;
    } else {
      assert (x + [sep] + y)[1..] == x[1..] + [sep] + y;
      SplitAllAppend(x[1..], sep, y);
    }
  }

  lemma {:induction false} DropTrailingEmptyKeepsFirst(parts: seq<string>)
    requires |parts| >= 1 && parts[0] != []
    ensures |DropTrailingEmpty(parts)| >= 1 && DropTrailingEmpty(parts)[0] == parts[0]
  {
    if parts[|parts| - 1] == [] {
      DropTrailingEmptyKeepsFirst(parts[..|parts| - 1]);
    }
  }

  /** The characters before the first separator (all of s when there is none). */
  function FirstField(s: string, sep: char): (r: string)
    ensures sep !in r
  {
    if s == [] || s[0] == sep then [] else [s[0]] + FirstField(s[1..], sep)
  }

  lemma {:induction false} SplitAllFirst(s: string, sep: char)
    ensures SplitAll(s, sep)[0] == FirstField(s, sep)
  {
    if s != [] {
      SplitAllFirst(s[1..], sep);
    }
  }

  /** For a string not starting with the separator, s.split(sep)[0] is
      its first field. */
  lemma SplitFirst(s: string, sep: char)
    requires !StartsWith(s, sep)
    ensures |Split(s, sep)| >= 1 && Split(s, sep)[0] == FirstField(s, sep)
  {
    SplitAllFirst(s, sep);
    if sep in s {
      DropTrailingEmptyKeepsFirst(SplitAll(s, sep));
    } else {
      SplitAllNoSep(s, sep);
    }
  }

  /** Two separator-free fields joined by the separator split back into
      exactly those fields, as long as the second is non-empty. */
  lemma SplitTwoFields(a: string, sep: char, b: string)
    requires sep !in a && sep !in b && b != []
    ensures Split(a + [sep] + b, sep) == [a, b]
  {
    SplitAllAppend(a, sep, b);
    SplitAllNoSep(a, sep);
    SplitAllNoSep(b, sep);
    assert (a + [sep] + b)[|a|] == sep;
  }

  // ---------------------------------------------------------------- join

  /** The string built by `s = s + sep + part` for every part in turn. */
  function Prefixed(parts: seq<string>, sep: char): (r: string)
    ensures |r| >= |parts|
  {
    if parts == [] then []
    else Prefixed(parts[..|parts| - 1], sep) + [sep] + parts[|parts| - 1]
  }

  /** The parts joined by sep: `Prefixed` without its leading separator. */
  function Join(parts: seq<string>, sep: char): (r: string)
    requires |parts| >= 1
  {
    Prefixed(parts, sep)[1..]
  }

  lemma {:induction false} SplitAllPrefixed(parts: seq<string>, sep: char)
    requires forall i :: 0 <= i < |parts| ==> sep !in parts[i]
    ensures SplitAll(Prefixed(parts, sep), sep) == [[]] + parts
  {
    if parts != [] {
      var init, last := parts[..|parts| - 1], parts[|parts| - 1];
      SplitAllPrefixed(init, sep);
      SplitAllAppend(Prefixed(init, sep), sep, last);
      SplitAllNoSep(last, sep);
      assert [[]] + init + [last] == [[]] + parts;
    }
  }

  /** The header of a presence matrix splits back into its names. */
  lemma SplitJoin(parts: seq<string>, sep: char)
    requires |parts| >= 1
    requires forall i :: 0 <= i < |parts| ==> sep !in parts[i] && parts[i] != []
    ensures Split(Join(parts, sep), sep) == parts
  {
    var p := Prefixed(parts, sep);
    assert p[0] == sep by {
      if |parts| > 1 {
        PrefixedStart(parts[..|parts| - 1], sep);
      }
    }
    SplitAllPrefixed(parts, sep);
    var j := Join(parts, sep);
    assert p == [] + [sep] + j;
    SplitAllAppend([], sep, j);
    assert [[]] + SplitAll(j, sep) == [[]] + parts;
    assert SplitAll(j, sep) == ([[]] + SplitAll(j, sep))[1..];
    if sep !in j {
      SplitAllNoSep(j, sep);
    }
  }

  lemma {:induction false} PrefixedStart(parts: seq<string>, sep: char)
    requires |parts| >= 1
    ensures Prefixed(parts, sep)[0] == sep
  {
    if |parts| > 1 {
      PrefixedStart(parts[..|parts| - 1], sep);
    }
  }

  // ---------------------------------------------------------------- trim

  predicate IsBlank(c: char) {
    c <= ' '
  }

  function TrimStart(s: string): (r: string)
    ensures r == [] || !IsBlank(r[0])
    ensures |r| <= |s|
  {
    if s != [] && IsBlank(s[0]) then TrimStart(s[1..]) else s
  }

  function TrimEnd(s: string): (r: string)
    ensures r == [] || !IsBlank(r[|r| - 1])
    ensures |r| <= |s| && r == s[..|r|]
  {
    if s != [] && IsBlank(s[|s| - 1]) then TrimEnd(s[..|s| - 1]) else s
  }

  /** String.trim(): blanks (every character up to the space) are removed
      from both ends. */
  function Trim(s: string): (r: string)
    ensures r == [] || (!IsBlank(r[0]) && !IsBlank(r[|r| - 1]))
  {
    var t := TrimStart(s);
    var r := TrimEnd(t);
    assert r != [] ==> r[0] == t[0];
    r
  }

  // ---------------------------------------------------------------- numbers

  predicate IsDigit(c: char) {
    '0' <= c <= '9'
  }

  predicate AllDigits(s: string) {
    s == [] || (AllDigits(s[..|s| - 1]) && IsDigit(s[|s| - 1]))
  }

  function DigitsValue(s: string): (r: nat)
    requires AllDigits(s)
  {
    if s == [] then 0
    else 10 * DigitsValue(s[..|s| - 1]) + (s[|s| - 1] as int - '0' as int)
  }

  const MinInt: int := -0x8000_0000
  const MaxInt: int := 0x7fff_ffff

  /** Integer.parseInt on ASCII input: an optional sign, at least one digit,
      and a value that fits in 32 bits; None where Java throws
      NumberFormatException. */
  function ParseInt(s: string): (r: Option<int>)
    ensures r.Some? ==> MinInt <= r.value <= MaxInt
  {
    var negative := StartsWith(s, '-');
    var digits := if StartsWith(s, '-') || StartsWith(s, '+') then s[1..] else s;
    if digits == [] || !AllDigits(digits) then None
    else
      var n: int := DigitsValue(digits);
      var v := if negative then -n else n;
      if MinInt <= v <= MaxInt then Some(v) else None
  }

  function Pow10(n: nat): (r: nat)
    ensures r >= 1
  {
    if n == 0 then 1 else 10 * Pow10(n - 1)
  }

  /** The decimal value of digits "i.f" (either part may be empty). */
  function DecimalValue(intPart: string, fracPart: string): (r: real)
    requires AllDigits(intPart) && AllDigits(fracPart)
  {
    DigitsValue(intPart) as real + DigitsValue(fracPart) as real / Pow10(|fracPart|) as real
  }

  /** Double.parseDouble on plain decimals, after trimming: an optional
      sign, digits with at most one point, and at least one digit. */
  function ParseDecimal(s: string): (r: Option<real>) {
    var t := Trim(s);
    var negative := StartsWith(t, '-');
    var body := if StartsWith(t, '-') || StartsWith(t, '+') then t[1..] else t;
    var point := IndexOf(body, '.');
    var intPart := body[..point];
    var fracPart := if point < |body| then body[point + 1..] else [];
    if |intPart| + |fracPart| == 0 || !AllDigits(intPart) || !AllDigits(fracPart) then None
    else
      var v := DecimalValue(intPart, fracPart);
      Some(if negative then -v else v)
  }

  /** The position of the first c in s, or |s| when there is none. */
  function IndexOf(s: string, c: char): (r: nat)
    ensures r <= |s|
  {
    if s == [] || s[0] == c then 0 else 1 + IndexOf(s[1..], c)
  }
}
