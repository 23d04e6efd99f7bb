/**
 * The handful of java.lang.String / BufferedReader operations the readers
 * and writers rely on, written out so that their edge cases are explicit:
 * `startsWith`, `contains`, `replace` of one character, `trim`, `split`
 * on a one-character separator (with Java's removal of trailing empty
 * fields), `String.join`, `Integer.parseInt`, `Integer.toString` and the
 * line splitting of `BufferedReader.readLine`.
 */
module Text {
  import opened Wrappers

  /** The byte-order mark the readers strip from the start of a line. */
  const Bom: char := '\U{FEFF}'

  const MinInt: int := -0x8000_0000
  const MaxInt: int := 0x7fff_ffff

  predicate StartsWith(s: string, prefix: string) {
    |prefix| <= |s| && s[..|prefix|] == prefix
  }

  /** `s.contains(sub)`: `sub` occurs at some offset of `s`. */
  predicate Contains(s: string, sub: string)
    decreases |s|
  {
    |sub| <= |s| && (StartsWith(s, sub) || (|s| > 0 && Contains(s[1..], sub)))
  }

  lemma {:induction false} ContainsAt(s: string, sub: string, i: nat)
    requires i + |sub| <= |s| && s[i..i + |sub|] == sub
    ensures Contains(s, sub)
    decreases i
  {
    if i > 0 {
      assert s[1..][i - 1..i - 1 + |sub|] == s[i..i + |sub|];
      ContainsAt(s[1..], sub, i - 1);
    } else {
      assert s[..|sub|] == sub;
    }
  }

  /** `sub` starts at no offset of `s`, so `s.contains(sub)` is false. */
  lemma {:induction false} NotContains(s: string, sub: string)
    requires forall i :: 0 <= i <= |s| ==> !StartsWith(s[i..], sub)
    ensures !Contains(s, sub)
    decreases |s|
  {
    assert s[0..] == s;
    if |sub| <= |s| && |s| > 0 {
      forall i | 0 <= i <= |s| - 1 ensures !StartsWith(s[1..][i..], sub) {
        assert s[1..][i..] == s[i + 1..];
      }
      NotContains(s[1..], sub);
    }
  }

  /** `s.replace("c", "")`: every occurrence of `c` removed, the rest kept in order. */
  function RemoveChar(s: string, c: char): (r: string)
    ensures c !in r
    ensures |r| <= |s|
    ensures c !in s ==> r == s
    ensures forall x :: x != c ==> multiset(r)[x] == multiset(s)[x]
    decreases |s|
  {
    if |s| == 0 then ""
    else
      var rest := RemoveChar(s[1..], c);
      assert s == [s[0]] + s[1..];
      if s[0] == c then rest else [s[0]] + rest
  }

  /** The characters `String.trim` removes: every code point up to U+0020. */
  predicate IsTrimmed(c: char) {
    c <= ' '
  }

  /** `trim`'s scan from the front: the characters up to U+0020 at the start dropped. */
  function TrimStart(s: string): string
    decreases |s|
  {
    if |s| > 0 && IsTrimmed(s[0]) then TrimStart(s[1..]) else s
  }

  /** `trim`'s scan from the back: the characters up to U+0020 at the end dropped. */
  function TrimEnd(s: string): string
    decreases |s|
  {
    if |s| > 0 && IsTrimmed(s[|s| - 1]) then TrimEnd(s[..|s| - 1]) else s
  }

  /** The front scan keeps a suffix of `s` that starts with a kept character, and drops only trimmed ones. */
  lemma {:induction false} TrimStartSuffix(s: string)
    ensures var r := TrimStart(s);
      && |r| <= |s| && r == s[|s| - |r|..]
      && (r == "" || !IsTrimmed(r[0]))
      && (forall i :: 0 <= i < |s| - |r| ==> IsTrimmed(s[i]))
    decreases |s|
  {
    if |s| > 0 && IsTrimmed(s[0]) {
      TrimStartSuffix(s[1..]);
      var r := TrimStart(s[1..]);
      assert s[1..][|s| - 1 - |r|..] == s[|s| - |r|..];
      forall i | 0 <= i < |s| - |r| ensures IsTrimmed(s[i]) {
        if i > 0 {
          assert s[i] == s[1..][i - 1];
        }
      }
    }
  }

  /** The back scan keeps a prefix of `s` that ends with a kept character, and drops only trimmed ones. */
  lemma {:induction false} TrimEndPrefix(s: string)
    ensures var r := TrimEnd(s);
      && |r| <= |s| && r == s[..|r|]
      && (r == "" || !IsTrimmed(r[|r| - 1]))
      && (forall i :: |r| <= i < |s| ==> IsTrimmed(s[i]))
    decreases |s|
  {
    if |s| > 0 && IsTrimmed(s[|s| - 1]) {
      TrimEndPrefix(s[..|s| - 1]);
      var r := TrimEnd(s[..|s| - 1]);
      assert s[..|s| - 1][..|r|] == s[..|r|];
      forall i | |r| <= i < |s| ensures IsTrimmed(s[i]) {
        if i < |s| - 1 {
          assert s[i] == s[..|s| - 1][i];
        }
      }
    }
  }

  /** `s.trim()`. */
  function Trim(s: string): string {
    TrimEnd(TrimStart(s))
  }

  /** `s.trim().isEmpty()`: every character of `s` is one `trim` removes (see `BlankIff`). */
  predicate IsBlank(s: string) {
    forall i :: 0 <= i < |s| ==> IsTrimmed(s[i])
  }

  /** A line is blank exactly when `trim` leaves nothing of it. */
  lemma BlankIff(s: string)
    ensures IsBlank(s) <==> Trim(s) == ""
  {
    var t := TrimStart(s);
    TrimStartSuffix(s);
    TrimEndPrefix(t);
    if Trim(s) != "" {
      var r := TrimEnd(t);
      assert r[0] == t[0] == s[|s| - |t|];
    }
  }

  /** The readers' BOM handling: `if (line.startsWith("\uFEFF")) line = line.substring(1)`. */
  function StripBom(s: string): string {
    if |s| > 0 && s[0] == Bom then s[1..] else s
  }

  /**
   * All fields of `s` between occurrences of `sep`, empty ones included:
   * the split before Java drops trailing empty strings.
   */
  function Fields(s: string, sep: char): (r: seq<string>)
    ensures |r| >= 1
    ensures forall i :: 0 <= i < |r| ==> sep !in r[i]
    decreases |s|
  {
    if |s| == 0 then [""]
    else
      var rest := Fields(s[1..], sep);
      if s[0] == sep then [""] + rest
      else [[s[0]] + rest[0]] + rest[1..]
  }

  function DropTrailingEmpty(xs: seq<string>): (r: seq<string>)
    ensures r <= xs
    ensures r == [] || r[|r| - 1] != ""
    ensures forall i :: |r| <= i < |xs| ==> xs[i] == ""
    decreases |xs|
  {
    if |xs| > 0 && xs[|xs| - 1] == "" then DropTrailingEmpty(xs[..|xs| - 1]) else xs
  }

  /**
   * `s.split(sep)` for a separator that is one literal character: when the
   * separator does not occur the result is `[s]` (so `"".split(",")` is
   * `[""]`); otherwise the fields with trailing empty ones removed.
   */
  function JavaSplit(s: string, sep: char): (r: seq<string>)
    ensures forall i :: 0 <= i < |r| ==> sep !in r[i]
    ensures sep !in s ==> r == [s]
    ensures sep in s && |r| > 0 ==> r[|r| - 1] != ""
  {
    if sep !in s then [s] else DropTrailingEmpty(Fields(s, sep))
  }

  /** `String.join(sep, parts)`. */
  function Join(parts: seq<string>, sep: char): string
    decreases |parts|
  {
    if |parts| == 0 then ""
    else if |parts| == 1 then parts[0]
    else parts[0] + [sep] + Join(parts[1..], sep)
  }

  lemma {:induction false} FieldsNoSep(a: string, sep: char)
    requires sep !in a
    ensures Fields(a, sep) == [a]
    decreases |a|
  {
    if |a| > 0 {
      FieldsNoSep(a[1..], sep);
      assert [a[0]] + a[1..] == a;
    }
  }

  lemma {:induction false} FieldsAppend(a: string, b: string, sep: char)
    requires sep !in a
    ensures Fields(a + [sep] + b, sep) == [a] + Fields(b, sep)
    decreases |a|
  {
    var s := a + [sep] + b;
    if |a| == 0 {
      assert s[1..] == b;
    } else {
      assert s[1..] == a[1..] + [sep] + b;
      FieldsAppend(a[1..], b, sep);
      assert [a[0]] + a[1..] == a;
    }
  }

  /** Splitting the join of separator-free parts gives the parts back (all fields kept). */
  lemma {:induction false} FieldsOfJoin(parts: seq<string>, sep: char)
    requires |parts| >= 1
    requires forall i :: 0 <= i < |parts| ==> sep !in parts[i]
    ensures Fields(Join(parts, sep), sep) == parts
    decreases |parts|
  {
    if |parts| == 1 {
      FieldsNoSep(parts[0], sep);
    } else {
      FieldsOfJoin(parts[1..], sep);
      FieldsAppend(parts[0], Join(parts[1..], sep), sep);
      assert [parts[0]] + parts[1..] == parts;
    }
  }

  /** Joining the fields of a string gives the string back. */
  lemma {:induction false} JoinOfFields(s: string, sep: char)
    ensures Join(Fields(s, sep), sep) == s
    decreases |s|
  {
    if |s| > 0 {
      JoinOfFields(s[1..], sep);
      var rest := Fields(s[1..], sep);
      if s[0] == sep {
        assert Join([""] + rest, sep) == "" + [sep] + Join(rest, sep) by {
          assert ([""] + rest)[1..] == rest;
        }
        assert s == [s[0]] + s[1..];
      } else {
        var f := [[s[0]] + rest[0]] + rest[1..];
        if |rest| == 1 {
          assert Join(f, sep) == [s[0]] + rest[0];
          assert Join(rest, sep) == rest[0];
        } else {
          assert f[1..] == rest[1..];
          assert Join(rest, sep) == rest[0] + [sep] + Join(rest[1..], sep);
        }
        assert s == [s[0]] + s[1..];
      }
    }
  }

  /** The separator occurs in a join of at least two parts. */
  lemma SepInJoin(parts: seq<string>, sep: char)
    requires |parts| >= 2
    ensures sep in Join(parts, sep)
  {
    assert Join(parts, sep)[|parts[0]|] == sep;
  }

  /**
   * `String.join` followed by Java's `split` is the identity on non-empty
   * lists of separator-free parts whose last part is non-empty (or that
   * have a single part): only trailing empty fields are lost.
   */
  lemma SplitOfJoin(parts: seq<string>, sep: char)
    requires |parts| >= 1
    requires forall i :: 0 <= i < |parts| ==> sep !in parts[i]
    requires |parts| == 1 || parts[|parts| - 1] != ""
    ensures JavaSplit(Join(parts, sep), sep) == parts
  {
    if |parts| == 1 {
      assert Join(parts, sep) == parts[0];
    } else {
      SepInJoin(parts, sep);
      FieldsOfJoin(parts, sep);
    }
  }

  /** Split of a trailing empty field: "a,b,".split(",") is ["a", "b"]. */
  lemma TrailingEmptyDropped()
    ensures JavaSplit("a,b,", ',') == ["a", "b"]
  {
    var s := "a,b,";
    assert s == "a" + [','] + ("b" + [','] + "");
    FieldsAppend("a", "b" + [','] + "", ',');
    FieldsAppend("b", "", ',');
    assert Fields(s, ',') == ["a", "b", ""];
    assert s[1] == ',';
  }

  // ---------------------------------------------------------------------
  // BufferedReader.readLine

  predicate IsLineBreak(c: char) {
    c == '\n' || c == '\r'
  }

  predicate NoLineBreak(s: string) {
    forall i :: 0 <= i < |s| ==> !IsLineBreak(s[i])
  }

  function LineEnd(s: string): (i: nat)
    ensures i <= |s|
    ensures i < |s| ==> IsLineBreak(s[i])
    ensures NoLineBreak(s[..i])
    decreases |s|
  {
    if |s| == 0 || IsLineBreak(s[0]) then 0 else 1 + LineEnd(s[1..])
  }

  /**
   * The lines `BufferedReader.readLine` returns for a text: a line ends at
   * "\n", "\r" or "\r\n"; a final line without terminator is returned; a
   * terminator at the very end does not start another line.
   */
  function ReadLines(text: string): (r: seq<string>)
    ensures forall k :: 0 <= k < |r| ==> NoLineBreak(r[k])
    decreases |text|
  {
    if |text| == 0 then []
    else
      var i := LineEnd(text);
      if i == |text| then [text]
      else
        var next := if text[i] == '\r' && i + 1 < |text| && text[i + 1] == '\n' then i + 2 else i + 1;
        [text[..i]] + ReadLines(text[next..])
  }

  lemma {:induction false} LineEndOf(line: string, rest: string)
    requires NoLineBreak(line)
    ensures LineEnd(line + "\n" + rest) == |line|
    decreases |line|
  {
    var s := line + "\n" + rest;
    if |line| > 0 {
      assert s[1..] == line[1..] + "\n" + rest;
      LineEndOf(line[1..], rest);
    }
  }

  /** A line written with a "\n" terminator is read back as that line. */
  lemma ReadLinesCons(line: string, rest: string)
    requires NoLineBreak(line)
    ensures ReadLines(line + "\n" + rest) == [line] + ReadLines(rest)
  {
    var s := line + "\n" + rest;
    LineEndOf(line, rest);
    assert s[..|line|] == line;
    assert s[|line| + 1..] == rest;
  }

  // ---------------------------------------------------------------------
  // Integer.parseInt and Integer.toString

  predicate IsDigit(c: char) {
    '0' <= c <= '9'
  }

  predicate AllDigits(s: string) {
    forall i :: 0 <= i < |s| ==> IsDigit(s[i])
  }

  function DigitValue(c: char): nat
    requires IsDigit(c)
  {
    c as int - '0' as int
  }

  /** The value of a string of decimal digits, most significant first. */
  function DigitsValue(ds: string): nat
    requires AllDigits(ds)
    decreases |ds|
  {
    if |ds| == 0 then 0 else DigitsValue(ds[..|ds| - 1]) * 10 + DigitValue(ds[|ds| - 1])
  }

  predicate InRun(n: int, zero: int) {
    zero <= n < zero + 10
  }

  /**
   * The zero of the run of ten decimal digits (Unicode category Nd) that holds
   * `c`, among the 37 runs of the Basic Multilingual Plane as of Unicode 15:
   * ASCII, Arabic-Indic, Devanagari, ..., fullwidth. `Character.digit(c, 10)`,
   * which `Integer.parseInt` reads each char with, gives a char of a run its
   * distance from the run's zero. A digit outside the plane is two Java chars,
   * neither of them a digit.
   */
  function DecimalZero(c: char): (z: Option<int>)
    ensures z.Some? ==> InRun(c as int, z.value)
  {
    var n := c as int;
    if InRun(n, 0x0030) then Some(0x0030)
    else if InRun(n, 0x0660) then Some(0x0660)
    else if InRun(n, 0x06F0) then Some(0x06F0)
    else if InRun(n, 0x07C0) then Some(0x07C0)
    else if InRun(n, 0x0966) then Some(0x0966)
    else if InRun(n, 0x09E6) then Some(0x09E6)
    else if InRun(n, 0x0A66) then Some(0x0A66)
    else if InRun(n, 0x0AE6) then Some(0x0AE6)
    else if InRun(n, 0x0B66) then Some(0x0B66)
    else if InRun(n, 0x0BE6) then Some(0x0BE6)
    else if InRun(n, 0x0C66) then Some(0x0C66)
    else if InRun(n, 0x0CE6) then Some(0x0CE6)
    else if InRun(n, 0x0D66) then Some(0x0D66)
    else if InRun(n, 0x0DE6) then Some(0x0DE6)
    else if InRun(n, 0x0E50) then Some(0x0E50)
    else if InRun(n, 0x0ED0) then Some(0x0ED0)
    else if InRun(n, 0x0F20) then Some(0x0F20)
    else if InRun(n, 0x1040) then Some(0x1040)
    else if InRun(n, 0x1090) then Some(0x1090)
    else if InRun(n, 0x17E0) then Some(0x17E0)
    else if InRun(n, 0x1810) then Some(0x1810)
    else if InRun(n, 0x1946) then Some(0x1946)
    else if InRun(n, 0x19D0) then Some(0x19D0)
    else if InRun(n, 0x1A80) then Some(0x1A80)
    else if InRun(n, 0x1A90) then Some(0x1A90)
    else if InRun(n, 0x1B50) then Some(0x1B50)
    else if InRun(n, 0x1BB0) then Some(0x1BB0)
    else if InRun(n, 0x1C40) then Some(0x1C40)
    else if InRun(n, 0x1C50) then Some(0x1C50)
    else if InRun(n, 0xA620) then Some(0xA620)
    else if InRun(n, 0xA8D0) then Some(0xA8D0)
    else if InRun(n, 0xA900) then Some(0xA900)
    else if InRun(n, 0xA9D0) then Some(0xA9D0)
    else if InRun(n, 0xA9F0) then Some(0xA9F0)
    else if InRun(n, 0xAA50) then Some(0xAA50)
    else if InRun(n, 0xABF0) then Some(0xABF0)
    else if InRun(n, 0xFF10) then Some(0xFF10)
    else None
  }

  /** `Character.digit(c, 10) != -1`. */
  predicate IsDecimal(c: char) {
    DecimalZero(c).Some?
  }

  predicate AllDecimals(s: string) {
    forall i :: 0 <= i < |s| ==> IsDecimal(s[i])
  }

  /** `Character.digit(c, 10)` of a decimal digit. */
  function DecimalValue(c: char): (d: nat)
    requires IsDecimal(c)
    ensures d < 10
  {
    c as int - DecimalZero(c).value
  }

  /** The value of a string of decimal digits of any script, most significant first. */
  function DecimalsValue(ds: string): nat
    requires AllDecimals(ds)
    decreases |ds|
  {
    if |ds| == 0 then 0 else DecimalsValue(ds[..|ds| - 1]) * 10 + DecimalValue(ds[|ds| - 1])
  }

  /** The ASCII digits are decimal digits with their usual values. */
  lemma {:induction false} AsciiDigitsAreDecimals(ds: string)
    requires AllDigits(ds)
    ensures AllDecimals(ds) && DecimalsValue(ds) == DigitsValue(ds)
    decreases |ds|
  {
    forall i | 0 <= i < |ds| ensures IsDecimal(ds[i]) && DecimalValue(ds[i]) == DigitValue(ds[i]) {
      assert DecimalZero(ds[i]) == Some(0x0030);
    }
    if |ds| > 0 {
      var front := ds[..|ds| - 1];
      assert AllDigits(front);
      AsciiDigitsAreDecimals(front);
    }
  }

  /**
   * `Integer.parseInt(s)`: an optional '+' or '-' followed by at least one
   * decimal digit, with a value in the 32-bit range; anything else is the
   * NumberFormatException case, `None`. No whitespace is accepted.
   */
  function ParseInt(s: string): (r: Option<int>)
    ensures r.Some? ==> MinInt <= r.value <= MaxInt
  {
    if |s| == 0 then None
    else
      var body := if s[0] == '-' || s[0] == '+' then s[1..] else s;
      if |body| == 0 || !AllDecimals(body) then None
      else
        var n: int := DecimalsValue(body);
        var v := if s[0] == '-' then -n else n;
        if MinInt <= v <= MaxInt then Some(v) else None
  }

  function DigitChar(d: nat): (c: char)
    requires d < 10
    ensures IsDigit(c) && DigitValue(c) == d
  {
    ('0' as int + d) as char
  }

  /** The decimal digits of `n`, most significant first, without leading zeros. */
  function NatToString(n: nat): (r: string)
    ensures |r| >= 1 && AllDigits(r) && DigitsValue(r) == n
    ensures r[0] == '0' ==> n == 0
    decreases n
  {
    if n < 10 then [DigitChar(n)]
    else
      var prefix := NatToString(n / 10);
      var r := prefix + [DigitChar(n % 10)];
      assert r[..|r| - 1] == prefix;
      r
  }

  /** `Integer.toString(i)`, as string concatenation with an int produces it. */
  function IntToString(i: int): (r: string)
    ensures |r| >= 1
    ensures i >= 0 ==> AllDigits(r) && DigitsValue(r) == i
    ensures i < 0 ==> r[0] == '-' && AllDigits(r[1..]) && DigitsValue(r[1..]) == -i
  {
    if i < 0 then "-" + NatToString(-i) else NatToString(i)
  }

  /** `Integer.parseInt` reads back what `Integer.toString` writes, for every 32-bit value. */
  lemma ParseIntOfIntToString(i: int)
    requires MinInt <= i <= MaxInt
    ensures ParseInt(IntToString(i)) == Some(i)
  {
    var s := IntToString(i);
    if i < 0 {
      assert s[1..] == NatToString(-i);
      AsciiDigitsAreDecimals(s[1..]);
    } else {
      assert IsDigit(s[0]);
      AsciiDigitsAreDecimals(s);
      assert IsDecimal(s[0]);
    }
  }

  /** Fullwidth digits read as their ASCII counterparts: "１２０" is 120. */
  lemma FullwidthTime()
    ensures ParseInt("\U{FF11}\U{FF12}\U{FF10}") == Some(120)
  {
    var s := "\U{FF11}\U{FF12}\U{FF10}";
    assert DecimalValue(s[0]) == 1 && DecimalValue(s[1]) == 2 && DecimalValue(s[2]) == 0;
    assert DecimalsValue(s[..1]) == 1 by {
      assert s[..1][..0] == [];
    }
    assert DecimalsValue(s[..2]) == 12 by {
      assert s[..2][..1] == s[..1];
    }
    assert DecimalsValue(s) == 120 by {
      assert s[..3] == s;
    }
  }
}
