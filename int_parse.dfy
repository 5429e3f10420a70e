/** Python's `int(s)` on a string, as `index` (app.py) applies it to the
    requested keyword count: surrounding whitespace, an optional sign, then
    decimal digits with single underscores allowed between them. A string it
    rejects (where Python raises `ValueError`) parses to `None`; the limit
    recent Python versions put on the number of digits is not modelled. */
module IntParse {
  import opened Wrappers
  import opened Text

  /** The value of a decimal digit: ASCII, Arabic-Indic (U+0660-U+0669) or
      Extended Arabic-Indic, the Persian digits (U+06F0-U+06F9). */
  function DigitValue(c: char): (r: Option<nat>)
    ensures r.Some? ==> r.value < 10
    ensures r.Some? ==> !IsSpace(c) && c != '_' && c != '+' && c != '-'
  {
    var n := c as int;
    if '0' <= c <= '9' then Some(n - '0' as int)
    else if 0x0660 <= n <= 0x0669 then Some(n - 0x0660)
    else if 0x06F0 <= n <= 0x06F9 then Some(n - 0x06F0)
    else None
  }

  predicate IsDigit(c: char) {
    DigitValue(c).Some?
  }

  /** The unsigned part of `int(s)`: one or more digits, where an underscore
      may stand only between two digits; `None` for anything else. */
  function ParseDigits(d: string): (r: Option<nat>)
    ensures r.Some? ==> d != [] && IsDigit(d[0]) && IsDigit(d[|d| - 1])
    ensures r.Some? ==> forall i :: 0 <= i < |d| ==> IsDigit(d[i]) || d[i] == '_'
  {
    if d == [] || !IsDigit(d[|d| - 1]) then None
    else
      var v := DigitValue(d[|d| - 1]).value;
      var init := d[..|d| - 1];
      if init == [] then Some(v)
      else
        var digits := if init[|init| - 1] == '_' then init[..|init| - 1] else init;
        match ParseDigits(digits)
        case Some(u) =>
          assert forall i :: 0 <= i < |digits| ==> d[i] == digits[i];
          Some(u * 10 + v)
        case None => None
  }

  /** The whitespace `int()` skips around the number. CPython first maps
      every non-ASCII whitespace character to a space and then skips only
      the ASCII whitespace of C's `isspace` (space, tab, line feed, vertical
      tab, form feed, carriage return). The separators U+001C-U+001F, which
      `str.isspace` accepts, are therefore not skipped. */
  predicate IsIntSpace(c: char) {
    IsSpace(c) && !(0x1C <= c as int <= 0x1F)
  }

  /** What remains of `s` once `int()` has skipped the whitespace around it. */
  function IntStrip(s: string): string {
    TrimEnd(TrimStart(s, IsIntSpace), IsIntSpace)
  }

  /** `int(s)`: `Some` of the value it returns, `None` where it raises. */
  function ParseInt(s: string): Option<int> {
    ParseSigned(IntStrip(s))
  }

  /** An optional sign, then the digits. */
  function ParseSigned(t: string): Option<int> {
    if t != [] && (t[0] == '+' || t[0] == '-') then
      match ParseDigits(t[1..])
      case Some(u) => Some(if t[0] == '-' then -(u as int) else u)
      case None => None
    else
      match ParseDigits(t)
      case Some(u) => Some(u)
      case None => None
  }

  function AsciiDigit(v: nat): (c: char)
    requires v < 10
    ensures DigitValue(c) == Some(v)
  {
    ('0' as int + v) as char
  }

  /** `str(n)` for a natural number. */
  function ShowNat(n: nat): (r: string)
    ensures r != [] && IsDigit(r[0]) && IsDigit(r[|r| - 1])
  {
    if n < 10 then [AsciiDigit(n)] else ShowNat(n / 10) + [AsciiDigit(n % 10)]
  }

  /** `str(i)` for an integer. */
  function ShowInt(i: int): string {
    if i < 0 then "-" + ShowNat(-i) else ShowNat(i)
  }

  lemma {:induction false} ParseShowNat(n: nat)
    ensures ParseDigits(ShowNat(n)) == Some(n)
  {
    if n >= 10 {
      ParseShowNat(n / 10);
      var d := ShowNat(n);
      assert d[..|d| - 1] == ShowNat(n / 10);
    }
  }

  /** A sign followed by a number Python prints has no whitespace to skip. */
  lemma StripSigned(d: string)
    requires d != [] && !IsIntSpace(d[|d| - 1])
    ensures IntStrip("-" + d) == "-" + d
  {
    var s := "-" + d;
    assert s[|s| - 1] == d[|d| - 1];
  }

  /** A minus sign before well-formed digits negates their value. */
  lemma ParseNegative(d: string, n: nat)
    requires ParseDigits(d) == Some(n)
    ensures ParseInt("-" + d) == Some(-(n as int))
  {
    var t := "-" + d;
    assert t != [] && t[0] == '-';
    assert t[1..] == d;
    assert ParseDigits(t[1..]) == Some(n);
    assert ParseSigned(t) == Some(-(n as int));
    StripSigned(d);
  }

  /** `int(str(i)) == i`: the parser reads back every integer Python prints. */
  lemma ParseShowInt(i: int)
    ensures ParseInt(ShowInt(i)) == Some(i)
  {
    if i < 0 {
      ParseShowNat(-i);
      ParseNegative(ShowNat(-i), -i);
    } else {
      var d := ShowNat(i);
      ParseShowNat(i);
      StripUnsigned(d);
      assert !(d[0] == '+' || d[0] == '-');
    }
  }

  /** A number Python prints without a sign has no whitespace to skip. */
  lemma StripUnsigned(d: string)
    requires d != [] && IsDigit(d[0]) && IsDigit(d[|d| - 1])
    ensures IntStrip(d) == d
  {
    assert TrimStart(d, IsIntSpace) == d;
  }

  /** A blank count (an empty form field) is rejected. */
  lemma ParseBlank(s: string)
    requires AllSpace(s)
    ensures ParseInt(s) == None
  {
    TrimStartKeeps(s, IsIntSpace, IsSpace);
    TrimEndKeeps(TrimStart(s, IsIntSpace), IsIntSpace, IsSpace);
    var t := IntStrip(s);
    if t != [] {
      assert IsSpace(t[0]) && IsSpace(t[|t| - 1]);
    }
  }

  /** An information separator (U+001C-U+001F) counts as whitespace for
      `str.strip()` but not for `int()`: `int("\x1c7")` raises. */
  lemma SeparatorBeforeDigit()
    ensures Strip("\U{1C}7") == "7"
    ensures ParseInt("\U{1C}7") == None
    ensures ParseInt(" 7\n") == Some(7)
  {
    var s := "\U{1C}7";
    assert TrimStart(s, IsIntSpace) == s;
    assert TrimEnd(s, IsIntSpace) == s;
    assert TrimStart(s, IsSpace) == s[1..] == "7";
    var t := " 7\n";
    assert TrimStart(t, IsIntSpace) == t[1..];
    assert TrimEnd(t[1..], IsIntSpace) == "7";
    assert ParseDigits("7") == Some(7);
  }
}
