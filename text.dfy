/**
 * The pieces of Python's `str` and `int` behaviour that the coordinator relies on:
 * prefix/suffix/substring tests, `split("_")` and `"_".join(...)`, `replace`, and
 * `int(value)` on a string, which either yields an integer or raises `ValueError`
 * (modelled as `None`).
 */
module Text {
  import opened Wrappers

  /** `s.startswith(prefix)` */
  predicate StartsWith(s: string, prefix: string) {
    |prefix| <= |s| && s[..|prefix|] == prefix
  }

  /** `s.endswith(suffix)` */
  predicate EndsWith(s: string, suffix: string) {
    |suffix| <= |s| && s[|s| - |suffix|..] == suffix
  }

  predicate OccursAt(s: string, p: string, i: int) {
    0 <= i && i + |p| <= |s| && s[i..i + |p|] == p
  }

  /** `p in s` for two strings: `p` is a substring of `s`. */
  predicate Contains(s: string, p: string) {
    exists i | 0 <= i <= |s| - |p| :: OccursAt(s, p, i)
  }

  lemma ContainsTransitive(s: string, q: string, p: string)
    requires Contains(s, q) && Contains(q, p)
    ensures Contains(s, p)
  {
    var i :| 0 <= i <= |s| - |q| && OccursAt(s, q, i);
    var j :| 0 <= j <= |q| - |p| && OccursAt(q, p, j);
    assert q == s[i..i + |q|];
    forall k | 0 <= k < |p|
      ensures s[i + j..i + j + |p|][k] == p[k]
    {
      assert p[k] == q[j + k] == s[i + j + k];
    }
    assert s[i + j..i + j + |p|] == p;
    assert OccursAt(s, p, i + j);
  }

  lemma ContainsParts(a: string, b: string)
    ensures Contains(a + b, a) && Contains(a + b, b)
  {
    assert OccursAt(a + b, a, 0);
    assert OccursAt(a + b, b, |a|);
  }

  /**
   * `s.split(sep)` for a one-character separator: never empty, and the pieces
   * never contain the separator.
   */
  function Split(s: string, sep: char): (parts: seq<string>)
    ensures |parts| >= 1
    ensures forall i | 0 <= i < |parts| :: sep !in parts[i]
  {
    if s == [] then [""]
    else
      var rest := Split(s[1..], sep);
      if s[0] == sep then [""] + rest
      else [[s[0]] + rest[0]] + rest[1..]
  }

  /** `sep.join(parts)` for a one-character separator. */
  function Join(sep: char, parts: seq<string>): string
    requires |parts| >= 1
  {
    if |parts| == 1 then parts[0] else parts[0] + [sep] + Join(sep, parts[1..])
  }

  /** Joining the pieces of a split gives the original string back. */
  lemma {:induction false} JoinSplit(s: string, sep: char)
    ensures Join(sep, Split(s, sep)) == s
  {
    if s != [] {
      var rest := Split(s[1..], sep);
      JoinSplit(s[1..], sep);
      if s[0] != sep {
        if |rest| == 1 {
          assert Split(s, sep) == [[s[0]] + rest[0]];
        } else {
          assert Split(s, sep)[1..] == rest[1..];
        }
      } else {
        assert Split(s, sep)[1..] == rest;
      }
    }
  }

  lemma {:induction false} SplitNoSeparator(x: string, sep: char)
    requires sep !in x
    ensures Split(x, sep) == [x]
  {
    if x != [] {
      SplitNoSeparator(x[1..], sep);
      assert [x[0]] + x[1..] == x;
    }
  }

  lemma {:induction false} SplitAtSeparator(x: string, y: string, sep: char)
    requires sep !in x
    ensures Split(x + [sep] + y, sep) == [x] + Split(y, sep)
  {
    if x == [] {
      assert x + [sep] + y == [sep] + y;
      assert ([sep] + y)[1..] == y;
    } else {
      SplitAtSeparator(x[1..], y, sep);
      assert (x + [sep] + y)[1..] == x[1..] + [sep] + y;
      assert [x[0]] + x[1..] == x;
    }
  }

  /** Splitting a join of separator-free pieces gives the pieces back. */
  lemma {:induction false} SplitJoin(parts: seq<string>, sep: char)
    requires |parts| >= 1
    requires forall i | 0 <= i < |parts| :: sep !in parts[i]
    ensures Split(Join(sep, parts), sep) == parts
  {
    if |parts| == 1 {
      SplitNoSeparator(parts[0], sep);
    } else {
      SplitJoin(parts[1..], sep);
      SplitAtSeparator(parts[0], Join(sep, parts[1..]), sep);
      assert [parts[0]] + parts[1..] == parts;
    }
  }

  /**
   * `s.split(sep, 1)` for a one-character separator: `None` when the separator
   * does not occur (Python returns the one piece `[s]`), otherwise the text
   * before its first occurrence and everything after it.
   */
  function SplitOnce(s: string, sep: char): (r: Option<(string, string)>)
    ensures r.None? <==> sep !in s
    ensures r.Some? ==> sep !in r.value.0 && s == r.value.0 + [sep] + r.value.1
  {
    if s == [] then None
    else if s[0] == sep then Some(([], s[1..]))
    else
      match SplitOnce(s[1..], sep)
      case None => None
      case Some((head, tail)) => Some(([s[0]] + head, tail))
  }

  /** The first occurrence is the only split point with no separator before it. */
  lemma {:induction false} SplitOnceUnique(a: string, b: string, sep: char)
    requires sep !in a
    ensures SplitOnce(a + [sep] + b, sep) == Some((a, b))
  {
    var s := a + [sep] + b;
    if a == [] {
      assert s == [sep] + b && s[1..] == b;
    } else {
      SplitOnceUnique(a[1..], b, sep);
      assert s[0] == a[0] != sep;
      assert s[1..] == a[1..] + [sep] + b;
      assert [a[0]] + a[1..] == a;
    }
  }

  /** `s.replace(from, to)` for single characters. */
  function ReplaceChar(s: string, from: char, to: char): string {
    if s == [] then []
    else [if s[0] == from then to else s[0]] + ReplaceChar(s[1..], from, to)
  }

  /** Replacing a character is splitting on it and joining with the replacement. */
  lemma {:induction false} ReplaceCharIsSplitJoin(s: string, from: char, to: char)
    ensures ReplaceChar(s, from, to) == Join(to, Split(s, from))
  {
    if s != [] {
      ReplaceCharIsSplitJoin(s[1..], from, to);
      var rest := Split(s[1..], from);
      if s[0] == from {
        assert Split(s, from)[1..] == rest;
      } else if |rest| == 1 {
        assert Split(s, from) == [[s[0]] + rest[0]];
      } else {
        assert Split(s, from)[1..] == rest[1..];
      }
    }
  }

  // ---------------------------------------------------------------------
  // int(value) on a string

  predicate IsDigit(c: char) {
    '0' <= c <= '9'
  }

  /**
   * The whitespace `int()` skips around an ASCII string: tab, line feed,
   * vertical tab, form feed, carriage return and space. The separators 28-31,
   * which `str.isspace()` also accepts, are not skipped.
   */
  predicate IsSpace(c: char) {
    9 <= c as int <= 13 || c == ' '
  }

  function TrimLeft(s: string): string {
    if |s| > 0 && IsSpace(s[0]) then TrimLeft(s[1..]) else s
  }

  function TrimRight(s: string): string {
    if |s| > 0 && IsSpace(s[|s| - 1]) then TrimRight(s[..|s| - 1]) else s
  }

  /** `TrimLeft` keeps a suffix of `s`, and everything it cuts off is whitespace. */
  lemma {:induction false} TrimLeftSuffix(s: string)
    ensures var r := TrimLeft(s);
      && |r| <= |s| && r == s[|s| - |r|..]
      && forall i | 0 <= i < |s| - |r| :: IsSpace(s[i])
  {
    if |s| > 0 && IsSpace(s[0]) {
      TrimLeftSuffix(s[1..]);
      var r := TrimLeft(s);
      forall i | 1 <= i < |s| - |r|
        ensures IsSpace(s[i])
      {
        assert s[i] == s[1..][i - 1];
      }
    }
  }

  /** `TrimRight` keeps a prefix of `s`, and everything it cuts off is whitespace. */
  lemma {:induction false} TrimRightPrefix(s: string)
    ensures var r := TrimRight(s);
      && |r| <= |s| && r == s[..|r|]
      && forall i | |r| <= i < |s| :: IsSpace(s[i])
  {
    if |s| > 0 && IsSpace(s[|s| - 1]) {
      TrimRightPrefix(s[..|s| - 1]);
      var r := TrimRight(s);
      forall i | |r| <= i < |s| - 1
        ensures IsSpace(s[i])
      {
        assert s[i] == s[..|s| - 1][i];
      }
    }
  }

  /** Decimal digits, with single underscores allowed between two digits. */
  predicate IsDigitRun(s: string) {
    && |s| > 0
    && IsDigit(s[0])
    && forall i | 0 <= i < |s| :: IsDigit(s[i]) || (s[i] == '_' && i + 1 < |s| && IsDigit(s[i + 1]))
  }

  function DigitValue(c: char): nat
    requires IsDigit(c)
  {
    c as int - '0' as int
  }

  /** The value of a run of digits, skipping the underscores. */
  function DigitsValue(s: string): nat {
    if s == [] then 0
    else
      var c := s[|s| - 1];
      if IsDigit(c) then DigitsValue(s[..|s| - 1]) * 10 + DigitValue(c)
      else DigitsValue(s[..|s| - 1])
  }

  /** Trimming both ends keeps a middle slice of `s`; every character outside it is whitespace. */
  lemma ParseIntShape(s: string)
    ensures var l := TrimLeft(s); var t := TrimRight(l); var k := |s| - |l|;
      && 0 <= k && k + |t| <= |s| && t == s[k..k + |t|]
      && forall i | 0 <= i < |s| && (i < k || k + |t| <= i) :: IsSpace(s[i])
  {
    TrimLeftSuffix(s);
    var l := TrimLeft(s);
    TrimRightPrefix(l);
    var t := TrimRight(l);
    var k := |s| - |l|;
    forall i | k + |t| <= i < |s|
      ensures IsSpace(s[i])
    {
      assert s[i] == l[i - k];
    }
  }

  /**
   * Python's `int(s)` for an ASCII string: optional whitespace, an optional
   * sign, then decimal digits with single underscores between them. `None`
   * where Python raises `ValueError`.
   */
  function ParseInt(s: string): Option<int> {
    var t := TrimRight(TrimLeft(s));
    if |t| > 0 && (t[0] == '+' || t[0] == '-') then
      if IsDigitRun(t[1..]) then
        var magnitude: int := DigitsValue(t[1..]);
        Some(if t[0] == '-' then -magnitude else magnitude)
      else None
    else if IsDigitRun(t) then Some(DigitsValue(t))
    else None
  }

  /**
   * What `int()` accepts: text made only of whitespace, signs, digits and
   * underscores, with at least one digit. Anything else, a control character
   * or a decimal point included, is a `ValueError`.
   */
  lemma ParseIntAccepts(s: string)
    requires ParseInt(s).Some?
    ensures exists i | 0 <= i < |s| :: IsDigit(s[i])
    ensures forall i | 0 <= i < |s| ::
      IsDigit(s[i]) || IsSpace(s[i]) || s[i] == '_' || s[i] == '+' || s[i] == '-'
  {
    ParseIntShape(s);
    var l := TrimLeft(s);
    var t := TrimRight(l);
    var k := |s| - |l|;
    var off := if |t| > 0 && (t[0] == '+' || t[0] == '-') then 1 else 0;
    var body := t[off..];
    assert IsDigitRun(body);
    assert s[k + off] == body[0];
    forall i | k <= i < k + |t|
      ensures IsDigit(s[i]) || s[i] == '_' || s[i] == '+' || s[i] == '-'
    {
      assert s[i] == t[i - k];
      if i - k >= off {
        assert t[i - k] == body[i - k - off];
      }
    }
  }

  /** The separators 28-31 are not skipped: a number preceded by one is a `ValueError`. */
  lemma SeparatorNotSkipped(c: char, s: string)
    requires 28 <= c as int <= 31
    ensures ParseInt([c] + s).None?
  {
    if ParseInt([c] + s).Some? {
      ParseIntAccepts([c] + s);
      assert false;
    }
  }

  function DigitChar(d: nat): char
    requires d < 10
  {
    ('0' as int + d) as char
  }

  /** `str(n)` for a natural number. */
  function NatToString(n: nat): string {
    if n < 10 then [DigitChar(n)] else NatToString(n / 10) + [DigitChar(n % 10)]
  }

  /** `str(n)` for an integer: how a JSON number reaches the coordinator as text. */
  function IntToString(n: int): string {
    if n < 0 then "-" + NatToString(-n) else NatToString(n)
  }

  lemma {:induction false} NatToStringDigits(n: nat)
    ensures |NatToString(n)| > 0
    ensures forall i | 0 <= i < |NatToString(n)| :: IsDigit(NatToString(n)[i])
    ensures DigitsValue(NatToString(n)) == n
  {
    if n >= 10 {
      NatToStringDigits(n / 10);
      var s := NatToString(n);
      assert s[..|s| - 1] == NatToString(n / 10);
    }
  }

  /** Parsing the decimal text of an integer gives the integer back. */
  lemma ParseIntToString(n: int)
    ensures ParseInt(IntToString(n)) == Some(n)
  {
    var d := NatToString(if n < 0 then -n else n);
    NatToStringDigits(if n < 0 then -n else n);
    var s := IntToString(n);
    assert TrimLeft(s) == s;
    assert TrimRight(s) == s;
    if n < 0 {
      assert s[1..] == d;
    }
  }
}
