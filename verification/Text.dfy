/** Strings as sequences of characters: comparison, affixes, splitting and decimal numerals. */
module Text {

  datatype Option<+T> = None | Some(value: T)

  /** Code-point order, which for UTF-8 is also byte order. */
  predicate LexLeq(a: string, b: string) {
    if a == [] then true
    else if b == [] then false
    else if a[0] == b[0] then LexLeq(a[1..], b[1..])
    else a[0] < b[0]
  }

  lemma {:induction false} LexTotal(a: string, b: string)
    ensures LexLeq(a, b) || LexLeq(b, a)
  {
    if a != [] && b != [] && a[0] == b[0] { LexTotal(a[1..], b[1..]); }
  }

  lemma {:induction false} LexTransitive(a: string, b: string, c: string)
    requires LexLeq(a, b) && LexLeq(b, c)
    ensures LexLeq(a, c)
  {
    if a != [] && b != [] && c != [] && a[0] == b[0] == c[0] { LexTransitive(a[1..], b[1..], c[1..]); }
  }

  lemma {:induction false} LexAntisymmetric(a: string, b: string)
    requires LexLeq(a, b) && LexLeq(b, a)
    ensures a == b
  {
    if a != [] && b != [] {
      LexAntisymmetric(a[1..], b[1..]);
      assert a == [a[0]] + a[1..] && b == [b[0]] + b[1..];
    }
  }

  /** What the order is: a prefix comes first, else the smaller character at the first difference. */
  lemma {:induction false} LexLeqMeans(a: string, b: string)
    ensures LexLeq(a, b)
            <==> a <= b || exists i: nat :: i < |a| && i < |b| && a[..i] == b[..i] && a[i] < b[i]
  {
    hide LexLeq;
    LexLeqStep(a, b);
    if a != [] && b != [] && a[0] == b[0] {
      LexLeqMeans(a[1..], b[1..]);
      SmallerAfter(a, b);
      assert a == [a[0]] + a[1..] && b == [b[0]] + b[1..];
      assert a[1..] <= b[1..] <==> a <= b;
    } else if a != [] && b != [] {
      assert a[..0] == b[..0];
      assert a[0] != b[0];
      assert forall i: nat :: 0 < i < |a| && i < |b| && a[..i] == b[..i] ==> a[..i][0] == b[..i][0];
    }
  }

  lemma LexLeqStep(a: string, b: string)
    ensures a == [] ==> LexLeq(a, b)
    ensures a != [] && b == [] ==> !LexLeq(a, b)
    ensures a != [] && b != [] ==>
              (LexLeq(a, b) <==> if a[0] == b[0] then LexLeq(a[1..], b[1..]) else a[0] < b[0])
  {
  }

  lemma SmallerAfter(a: string, b: string)
    requires a != [] && b != [] && a[0] == b[0]
    ensures (exists i: nat :: i < |a| && i < |b| && a[..i] == b[..i] && a[i] < b[i])
            <==> exists i: nat :: i < |a[1..]| && i < |b[1..]| && a[1..][..i] == b[1..][..i] && a[1..][i] < b[1..][i]
  {
    if i: nat :| i < |a| && i < |b| && a[..i] == b[..i] && a[i] < b[i] {
      assert a[1..][..i - 1] == a[..i][1..] && b[1..][..i - 1] == b[..i][1..];
      assert a[1..][i - 1] < b[1..][i - 1];
    }
    if i: nat :| i < |a[1..]| && i < |b[1..]| && a[1..][..i] == b[1..][..i] && a[1..][i] < b[1..][i] {
      assert a[..i + 1] == [a[0]] + a[1..][..i] && b[..i + 1] == [b[0]] + b[1..][..i];
      assert a[i + 1] < b[i + 1];
    }
  }

  predicate EndsWith(s: string, suffix: string) {
    |suffix| <= |s| && s[|s| - |suffix|..] == suffix
  }

  predicate StartsWith(s: string, prefix: string) {
    prefix <= s
  }

  predicate IsDigit(c: char) { '0' <= c <= '9' }

  predicate IsHexDigit(c: char) { IsDigit(c) || 'a' <= c <= 'f' || 'A' <= c <= 'F' }

  predicate IsAlphanumeric(c: char) { IsDigit(c) || 'a' <= c <= 'z' || 'A' <= c <= 'Z' }

  predicate AllDigits(s: string) { forall i :: 0 <= i < |s| ==> IsDigit(s[i]) }

  function Digit(n: nat): (c: char)
    requires n < 10
    ensures IsDigit(c) && c as int - '0' as int == n
  {
    ('0' as int + n) as char
  }

  /** Decimal numeral without leading zeros. */
  function Decimal(n: nat): (s: string)
    ensures s != [] && AllDigits(s)
  {
    if n < 10 then [Digit(n)] else Decimal(n / 10) + [Digit(n % 10)]
  }

  function DigitsValue(s: string): nat
    requires AllDigits(s)
  {
    if s == [] then 0 else 10 * DigitsValue(s[..|s| - 1]) + (s[|s| - 1] as int - '0' as int)
  }

  lemma {:induction false} DecimalValue(n: nat)
    ensures DigitsValue(Decimal(n)) == n
  {
    if n >= 10 {
      DecimalValue(n / 10);
      var s := Decimal(n);
      assert s[..|s| - 1] == Decimal(n / 10);
    }
  }

  function Zeros(n: nat): (s: string)
    ensures |s| == n && AllDigits(s)
  {
    if n == 0 then [] else ['0'] + Zeros(n - 1)
  }

  lemma {:induction false} LeadingZeros(n: nat, s: string)
    requires AllDigits(s)
    ensures AllDigits(Zeros(n) + s)
    ensures DigitsValue(Zeros(n) + s) == DigitsValue(s)
    decreases |s|, n
  {
    var z := Zeros(n) + s;
    if s == [] {
      if n > 0 {
        ZerosSnoc(n - 1);
        assert z[..|z| - 1] == Zeros(n - 1) + [];
        LeadingZeros(n - 1, s);
      }
    } else {
      assert z[..|z| - 1] == Zeros(n) + s[..|s| - 1];
      LeadingZeros(n, s[..|s| - 1]);
    }
  }

  lemma {:induction false} ZerosSnoc(n: nat)
    ensures Zeros(n + 1) == Zeros(n) + ['0']
  {
    if n > 0 { ZerosSnoc(n - 1); }
  }

  function PadLeft(d: string, width: nat): (s: string)
    requires AllDigits(d)
    ensures AllDigits(s) && |s| >= width && |s| >= |d|
  {
    if |d| < width then Zeros(width - |d|) + d else d
  }

  lemma PadLeftValue(d: string, width: nat)
    requires AllDigits(d)
    ensures DigitsValue(PadLeft(d, width)) == DigitsValue(d)
  {
    hide DigitsValue, Zeros;
    if |d| < width { LeadingZeros(width - |d|, d); }
  }

  /** `{:0width}` formatting. */
  function Padded(n: nat, width: nat): (s: string)
    ensures AllDigits(s) && |s| >= width
  {
    PadLeft(Decimal(n), width)
  }

  lemma PaddedValue(n: nat, width: nat)
    ensures DigitsValue(Padded(n, width)) == n
  {
    DecimalValue(n);
    PadLeftValue(Decimal(n), width);
  }

  function HexDigit(n: nat): (c: char)
    requires n < 16
    ensures IsHexDigit(c) && IsAlphanumeric(c)
  {
    if n < 10 then Digit(n) else ('a' as int + (n - 10)) as char
  }

  /** The low `width` hex digits of `n`, zero-padded. */
  function HexPadded(n: nat, width: nat): (s: string)
    ensures |s| == width
    ensures forall i :: 0 <= i < |s| ==> IsHexDigit(s[i]) && IsAlphanumeric(s[i])
  {
    if width == 0 then [] else HexPadded(n / 16, width - 1) + [HexDigit(n % 16)]
  }

  /** Splits at the last `sep`. */
  function RSplitOnce(s: string, sep: char): Option<(string, string)> {
    if s == [] then None
    else if s[|s| - 1] == sep then Some((s[..|s| - 1], []))
    else
      match RSplitOnce(s[..|s| - 1], sep)
      case None => None
      case Some((a, b)) => Some((a, b + [s[|s| - 1]]))
  }

  lemma {:induction false} RSplitOnceAt(a: string, sep: char, b: string)
    requires sep !in b
    ensures RSplitOnce(a + [sep] + b, sep) == Some((a, b))
  {
    var s := a + [sep] + b;
    if b == [] {
      assert s[..|s| - 1] == a;
    } else {
      var b' := b[..|b| - 1];
      assert s[..|s| - 1] == a + [sep] + b';
      RSplitOnceAt(a, sep, b');
      assert b == b' + [b[|b| - 1]];
    }
  }

  /** Splits at the first occurrence of a non-empty pattern. */
  function SplitOnce(s: string, pat: string): Option<(string, string)>
    requires pat != []
  {
    if s == [] then None
    else if pat <= s then Some(([], s[|pat|..]))
    else
      match SplitOnce(s[1..], pat)
      case None => None
      case Some((a, b)) => Some(([s[0]] + a, b))
  }

  /** `pat` stands in `s` at position `i`. */
  predicate Occurs(s: string, pat: string, i: nat) { i + |pat| <= |s| && s[i..i + |pat|] == pat }

  /** The cut is at the first occurrence, and fails only when there is none. */
  lemma {:induction false} SplitOnceMeans(s: string, pat: string)
    requires pat != []
    ensures match SplitOnce(s, pat)
            case Some((a, b)) =>
              s == a + pat + b && Occurs(s, pat, |a|) && forall i: nat :: i < |a| ==> !Occurs(s, pat, i)
            case None => forall i: nat :: !Occurs(s, pat, i)
  {
    if s == [] || pat <= s {
    } else {
      SplitOnceMeans(s[1..], pat);
      assert s == [s[0]] + s[1..];
      assert !Occurs(s, pat, 0);
      forall i: nat | 0 < i
        ensures Occurs(s, pat, i) <==> Occurs(s[1..], pat, i - 1)
      {
        if i + |pat| <= |s| { assert s[i..i + |pat|] == s[1..][i - 1..i - 1 + |pat|]; }
      }
      match SplitOnce(s[1..], pat)
      case Some((a, b)) =>
        assert Occurs(s, pat, |a| + 1);
        forall i: nat | i < |a| + 1
          ensures !Occurs(s, pat, i)
        {
          assert i > 0 ==> !Occurs(s[1..], pat, i - 1);
        }
      case None =>
        forall i: nat
          ensures !Occurs(s, pat, i)
        {
          assert i > 0 ==> !Occurs(s[1..], pat, i - 1);
        }
    }
  }

  /** The pieces of `s` between separators; there is always at least one. */
  function Fields(s: string, sep: char): (r: seq<string>)
    ensures |r| >= 1
    ensures forall i :: 0 <= i < |r| ==> sep !in r[i]
  {
    if s == [] then [[]]
    else
      var rest := Fields(s[1..], sep);
      if s[0] == sep then [[]] + rest else [[s[0]] + rest[0]] + rest[1..]
  }

  lemma {:induction false} FieldsOfOne(a: string, sep: char)
    requires sep !in a
    ensures Fields(a, sep) == [a]
  {
    if a != [] {
      FieldsOfOne(a[1..], sep);
      assert a[0] in a && a == [a[0]] + a[1..];
    }
  }

  lemma {:induction false} FieldsCut(a: string, sep: char, rest: string)
    requires sep !in a
    ensures Fields(a + [sep] + rest, sep) == [a] + Fields(rest, sep)
  {
    var s := a + [sep] + rest;
    if a == [] {
      assert s[1..] == rest;
    } else {
      assert s[1..] == a[1..] + [sep] + rest;
      FieldsCut(a[1..], sep, rest);
      assert a[0] in a && a == [a[0]] + a[1..];
      assert Fields(s[1..], sep)[0] == a[1..] && Fields(s[1..], sep)[1..] == Fields(rest, sep);
    }
  }

  lemma {:induction false} FieldsAppend(a: string, sep: char, b: string)
    ensures Fields(a + [sep] + b, sep) == Fields(a, sep) + Fields(b, sep)
  {
    var s := a + [sep] + b;
    if a == [] {
      assert s[1..] == b;
    } else {
      assert s[1..] == a[1..] + [sep] + b;
      FieldsAppend(a[1..], sep, b);
    }
  }

  /** Keeps the characters that satisfy `keep`. */
  function Select(s: string, keep: char -> bool): (r: string)
    ensures |r| <= |s|
    ensures forall i :: 0 <= i < |r| ==> keep(r[i])
  {
    if s == [] then []
    else if keep(s[0]) then [s[0]] + Select(s[1..], keep)
    else Select(s[1..], keep)
  }

  lemma {:induction false} SelectAppend(a: string, b: string, keep: char -> bool)
    ensures Select(a + b, keep) == Select(a, keep) + Select(b, keep)
  {
    if a == [] {
      assert a + b == b;
    } else {
      var ab := a + b;
      assert ab[0] == a[0] && ab[1..] == a[1..] + b;
      SelectAppend(a[1..], b, keep);
    }
  }

  lemma {:induction false} SelectAll(s: string, keep: char -> bool)
    requires forall i :: 0 <= i < |s| ==> keep(s[i])
    ensures Select(s, keep) == s
  {
    if s != [] { SelectAll(s[1..], keep); }
  }

  /** `s.replace(from, to)` for single characters. */
  function ReplaceChar(s: string, from: char, to: char): (r: string)
    ensures |r| == |s|
    ensures forall i :: 0 <= i < |s| ==> r[i] == if s[i] == from then to else s[i]
  {
    seq(|s|, i requires 0 <= i < |s| => if s[i] == from then to else s[i])
  }

  /** Unicode White_Space. */
  predicate IsWhitespace(c: char) {
    var n := c as int;
    || 0x09 <= n <= 0x0D || n == 0x20 || n == 0x85 || n == 0xA0 || n == 0x1680
    || 0x2000 <= n <= 0x200A || n == 0x2028 || n == 0x2029 || n == 0x202F || n == 0x205F || n == 0x3000
  }

  predicate Blank(s: string) { forall i :: 0 <= i < |s| ==> IsWhitespace(s[i]) }

  function TrimEnd(s: string): (r: string)
    ensures r <= s
  {
    if s != [] && IsWhitespace(s[|s| - 1]) then TrimEnd(s[..|s| - 1]) else s
  }

  /** What is trimmed is whitespace, and what is left does not end in any. */
  lemma {:induction false} TrimEndMeans(s: string)
    ensures Blank(s[|TrimEnd(s)|..])
    ensures TrimEnd(s) == [] || !IsWhitespace(TrimEnd(s)[|TrimEnd(s)| - 1])
  {
    hide IsWhitespace;
    if s != [] && IsWhitespace(s[|s| - 1]) {
      TrimEndMeans(s[..|s| - 1]);
      var n := |TrimEnd(s)|;
      forall i | n <= i < |s|
        ensures IsWhitespace(s[i])
      {
        if i < |s| - 1 { assert s[..|s| - 1][n..][i - n] == s[i]; }
      }
    }
  }

  function TrimStart(s: string): string {
    if s != [] && IsWhitespace(s[0]) then TrimStart(s[1..]) else s
  }

  function Trim(s: string): string { TrimEnd(TrimStart(s)) }

  function Utf8Width(c: char): nat {
    var n := c as int;
    if n < 0x80 then 1 else if n < 0x800 then 2 else if n < 0x1_0000 then 3 else 4
  }

  /** Length of the UTF-8 encoding, which is what `str::len` measures. */
  function ByteLen(s: string): nat {
    if s == [] then 0 else Utf8Width(s[0]) + ByteLen(s[1..])
  }

  /** Lengths of parts add up, and a character takes one to four bytes by its code point. */
  lemma {:induction false} ByteLenMeans(a: string, b: string, c: char)
    ensures ByteLen(a + b) == ByteLen(a) + ByteLen(b) && ByteLen("") == 0
    ensures ByteLen([c]) == if c <= '\U{7F}' then 1 else if c <= '\U{7FF}' then 2 else if c <= '\U{FFFF}' then 3 else 4
  {
    if a == [] {
      assert a + b == b;
    } else {
      assert (a + b)[0] == a[0] && (a + b)[1..] == a[1..] + b;
      ByteLenMeans(a[1..], b, c);
    }
    assert [c][1..] == [];
  }
}
