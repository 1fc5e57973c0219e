/** The string operations the data files are built from: Python's
    `str.strip()`, `split('\t')`, `'\t'.join(...)`, and the numeric texts of
    depth values (`str(int)`, `str(float(k) / 100.)`, and the integer
    hundredths `int(float(s) * 100)` read back from a depth field). */
module Text {
  import opened Wrappers

  const Tab: char := '\t'

  /** Python 3 `str.isspace()`: exactly the characters `str.strip()` removes. */
  predicate IsSpace(c: char) {
    || ('\t' <= c <= '\r')
    || ('\U{1c}' <= c <= '\U{1f}')
    || c == ' ' || c == '\U{85}' || c == '\U{a0}' || c == '\U{1680}'
    || ('\U{2000}' <= c <= '\U{200a}')
    || c == '\U{2028}' || c == '\U{2029}' || c == '\U{202f}' || c == '\U{205f}' || c == '\U{3000}'
  }

  /** Leading whitespace removed. */
  function TrimStart(s: string): (r: string)
    ensures |r| <= |s|
  {
    if s != [] && IsSpace(s[0]) then TrimStart(s[1..]) else s
  }

  /** Trailing whitespace removed. */
  function TrimEnd(s: string): (r: string)
    ensures |r| <= |s|
  {
    if s != [] && IsSpace(s[|s| - 1]) then TrimEnd(s[..|s| - 1]) else s
  }

  /** `TrimStart` removes a prefix made of whitespace and nothing more. */
  lemma {:induction false} TrimStartSpec(s: string)
    ensures |TrimStart(s)| <= |s| && TrimStart(s) == s[|s| - |TrimStart(s)|..]
    ensures TrimStart(s) == [] || !IsSpace(TrimStart(s)[0])
    ensures forall i :: 0 <= i < |s| - |TrimStart(s)| ==> IsSpace(s[i])
  {
    if s != [] && IsSpace(s[0]) {
      TrimStartSpec(s[1..]);
    }
  }

  /** `TrimEnd` removes a suffix made of whitespace and nothing more. */
  lemma {:induction false} TrimEndSpec(s: string)
    ensures |TrimEnd(s)| <= |s| && TrimEnd(s) == s[..|TrimEnd(s)|]
    ensures TrimEnd(s) == [] || !IsSpace(TrimEnd(s)[|TrimEnd(s)| - 1])
    ensures forall i :: |TrimEnd(s)| <= i < |s| ==> IsSpace(s[i])
  {
    if s != [] && IsSpace(s[|s| - 1]) {
      TrimEndSpec(s[..|s| - 1]);
    }
  }

  /** How many leading whitespace characters `s.strip()` removes. */
  function LeadingSpace(s: string): nat {
    |s| - |TrimStart(s)|
  }

  /** `s.strip()`. */
  function Strip(s: string): string {
    TrimEnd(TrimStart(s))
  }

  /** `s.strip()` is the infix of `s` that neither starts nor ends with
      whitespace, obtained by removing whitespace only. */
  lemma StripSpec(s: string)
    ensures var r := Strip(s);
            && (r == [] || (!IsSpace(r[0]) && !IsSpace(r[|r| - 1])))
            && LeadingSpace(s) + |r| <= |s| && r == s[LeadingSpace(s)..LeadingSpace(s) + |r|]
            && (forall j :: 0 <= j < LeadingSpace(s) ==> IsSpace(s[j]))
            && (forall j :: LeadingSpace(s) + |r| <= j < |s| ==> IsSpace(s[j]))
  {
    var t := TrimStart(s);
    TrimStartSpec(s);
    TrimEndSpec(t);
    var r := TrimEnd(t);
    assert r == s[|s| - |t|..|s| - |t| + |r|];
    if r != [] {
      assert r[0] == t[0];
    }
  }

  /** A text that neither starts nor ends with whitespace is its own strip. */
  lemma StripUnchanged(s: string)
    requires s == [] || (!IsSpace(s[0]) && !IsSpace(s[|s| - 1]))
    ensures Strip(s) == s
  {
  }

  /** Stripping is idempotent. */
  lemma StripIdempotent(s: string)
    ensures Strip(Strip(s)) == Strip(s)
  {
    StripSpec(s);
    StripUnchanged(Strip(s));
  }

  /** `s.split(sep)`: the pieces between separators, always at least one. */
  function Split(s: string, sep: char): (r: seq<string>)
    ensures |r| >= 1
    ensures forall k :: 0 <= k < |r| ==> sep !in r[k]
    ensures |r| == 1 <==> sep !in s
  {
    if s == [] then [[]]
    else
      var rest := Split(s[1..], sep);
      if s[0] == sep then [[]] + rest else [[s[0]] + rest[0]] + rest[1..]
  }

  /** `sep.join(parts)`. */
  function Join(parts: seq<string>, sep: char): string {
    if |parts| == 0 then []
    else if |parts| == 1 then parts[0]
    else parts[0] + [sep] + Join(parts[1..], sep)
  }

  lemma JoinCons(p: string, parts: seq<string>, sep: char)
    requires |parts| >= 1
    ensures Join([p] + parts, sep) == p + [sep] + Join(parts, sep)
  {
    assert ([p] + parts)[1..] == parts;
  }

  /** A character put in front of the first piece lands in front of the join. */
  lemma JoinExtendFirst(c: char, parts: seq<string>, sep: char)
    requires |parts| >= 1
    ensures Join([[c] + parts[0]] + parts[1..], sep) == [c] + Join(parts, sep)
  {
    var tail := parts[1..];
    if |parts| == 1 {
      assert [[c] + parts[0]] + tail == [[c] + parts[0]];
    } else {
      JoinCons([c] + parts[0], tail, sep);
      assert parts == [parts[0]] + tail;
      JoinCons(parts[0], tail, sep);
      var j := Join(tail, sep);
      assert [c] + parts[0] + [sep] + j == [c] + (parts[0] + [sep] + j);
    }
  }

  /** Joining the pieces of a split gives back the text. */
  lemma {:induction false} JoinSplit(s: string, sep: char)
    ensures Join(Split(s, sep), sep) == s
  {
    if s != [] {
      var rest := Split(s[1..], sep);
      JoinSplit(s[1..], sep);
      if s[0] == sep {
        JoinCons([], rest, sep);
        assert [] + [sep] + s[1..] == s;
      } else {
        JoinExtendFirst(s[0], rest, sep);
        assert [s[0]] + s[1..] == s;
      }
    }
  }

  /** A character other than the separator joins the first piece. */
  lemma SplitCons(c: char, u: string, sep: char)
    requires c != sep
    ensures Split([c] + u, sep) == [[c] + Split(u, sep)[0]] + Split(u, sep)[1..]
  {
    assert ([c] + u)[1..] == u;
  }

  /** Splitting `a + t` where `a` holds no separator extends the first piece. */
  lemma {:induction false} SplitPrefix(a: string, t: string, sep: char)
    requires sep !in a
    ensures Split(a + t, sep) == [a + Split(t, sep)[0]] + Split(t, sep)[1..]
  {
    var st := Split(t, sep);
    if a == [] {
      assert a + t == t;
      assert [] + st[0] == st[0];
    } else {
      var u := a[1..] + t;
      assert Split(a + t, sep) == [[a[0]] + Split(u, sep)[0]] + Split(u, sep)[1..] by {
        assert a + t == [a[0]] + u;
        SplitCons(a[0], u, sep);
      }
      SplitPrefix(a[1..], t, sep);
      assert [a[0]] + (a[1..] + st[0]) == a + st[0] by {
        var h, rest := [a[0]], a[1..];
        assert a == h + rest;
        assert h + (rest + st[0]) == (h + rest) + st[0];
      }
    }
  }

  /** A leading separator starts a new, empty first piece. */
  lemma SplitSeparator(u: string, sep: char)
    ensures Split([sep] + u, sep) == [[]] + Split(u, sep)
  {
    assert ([sep] + u)[1..] == u;
  }

  /** Splitting a join of separator-free pieces gives back the pieces. */
  lemma {:induction false} SplitJoin(parts: seq<string>, sep: char)
    requires |parts| >= 1
    requires forall k :: 0 <= k < |parts| ==> sep !in parts[k]
    ensures Split(Join(parts, sep), sep) == parts
  {
    if |parts| == 1 {
      SplitPrefix(parts[0], [], sep);
      assert parts[0] + [] == parts[0];
    } else {
      var tail := parts[1..];
      var u := Join(tail, sep);
      SplitJoin(tail, sep);
      SplitSeparator(u, sep);
      var t := [sep] + u;
      assert Split(t, sep) == [[]] + tail;
      SplitPrefix(parts[0], t, sep);
      assert Join(parts, sep) == parts[0] + t;
      calc {
        Split(Join(parts, sep), sep);
        [parts[0] + []] + tail;
        { assert parts[0] + [] == parts[0]; }
        [parts[0]] + tail;
      }
    }
  }
  // ----- numeric texts -----

  predicate IsDigit(c: char) { '0' <= c <= '9' }

  predicate AllDigits(s: string) { forall i :: 0 <= i < |s| ==> IsDigit(s[i]) }

  function DigitChar(d: nat): (c: char)
    requires d < 10
    ensures IsDigit(c) && DigitValue(c) == d
  {
    ('0' as int + d) as char
  }

  /** The value of a decimal digit (0 for any other character). */
  function DigitValue(c: char): (d: nat)
    ensures d < 10
  {
    if IsDigit(c) then c as int - '0' as int else 0
  }

  /** The value of a run of decimal digits. */
  function DigitsValue(s: string): nat {
    if s == [] then 0 else 10 * DigitsValue(s[..|s| - 1]) + DigitValue(s[|s| - 1])
  }

  /** `str(n)` for a natural number. */
  function NatText(n: nat): (r: string)
    ensures r != [] && AllDigits(r)
  {
    if n < 10 then [DigitChar(n)] else NatText(n / 10) + [DigitChar(n % 10)]
  }

  /** `str(i)` for an integer; also `'%.0f' % x` for an integral value `x`. */
  function IntText(i: int): (r: string)
    ensures r != [] && (r[0] == '-' || IsDigit(r[0])) && IsDigit(r[|r| - 1])
  {
    if i < 0 then "-" + NatText(-i) else NatText(i)
  }

  /** `str(float(k) / 100.)`: `k` hundredths written the way Python writes that
      float, one or two decimals with trailing zeros dropped ("0.0", "0.1", "1.25"). */
  function HundredthsText(k: nat): (r: string)
    ensures r != [] && IsDigit(r[0]) && IsDigit(r[|r| - 1])
  {
    NatText(k / 100) + "." + Decimals(k % 100)
  }

  /** The hundredths the first two decimals of a fraction contribute. */
  function FractionHundredths(b: string): nat {
    (if |b| >= 1 then 10 * DigitValue(b[0]) else 0) + (if |b| >= 2 then DigitValue(b[1]) else 0)
  }

  /** The decimals `HundredthsText` writes for a remainder below 100. */
  function Decimals(r: nat): (d: string)
    requires r < 100
    ensures d != [] && AllDigits(d) && FractionHundredths(d) == r
  {
    if r % 10 == 0 then [DigitChar(r / 10)] else [DigitChar(r / 10), DigitChar(r % 10)]
  }

  /* `int(float(s) * 100)` in exact decimal arithmetic, read left to right
     from position `i` of `s`: optional whitespace, an optional sign, digits
     with at most one '.' and at least one digit in all, optional whitespace.
     The value is in hundredths, truncated toward zero; `None` is where
     Python's `float()` raises `ValueError`. */

  /** Leading whitespace. */
  function ScanLeading(s: string, i: nat): Option<int>
    requires i <= |s|
    decreases |s| - i, 4
  {
    if i < |s| && IsSpace(s[i]) then ScanLeading(s, i + 1) else ScanSign(s, i)
  }

  /** An optional sign; a minus negates the magnitude. */
  function ScanSign(s: string, i: nat): Option<int>
    requires i <= |s|
    decreases |s| - i, 3
  {
    if i < |s| && (s[i] == '-' || s[i] == '+') then
      match ScanWhole(s, i + 1, 0, 0)
      case Some(m) => Some(if s[i] == '-' then -m else m)
      case None => None
    else ScanWhole(s, i, 0, 0)
  }

  /** The integer digits read so far have value `whole`, and there are `n` of them. */
  function ScanWhole(s: string, i: nat, whole: nat, n: nat): Option<int>
    requires i <= |s|
    decreases |s| - i, 2
  {
    if i < |s| && IsDigit(s[i]) then ScanWhole(s, i + 1, 10 * whole + DigitValue(s[i]), n + 1)
    else if i < |s| && s[i] == '.' then ScanFraction(s, i + 1, whole, n, 0, 0)
    else ScanTrailing(s, i, n > 0, 100 * whole)
  }

  /** After the '.': `m` decimals read so far, worth `hundredths`; decimals
      past the second are truncated away. */
  function ScanFraction(s: string, i: nat, whole: nat, n: nat, m: nat, hundredths: nat): Option<int>
    requires i <= |s|
    decreases |s| - i, 2
  {
    if i < |s| && IsDigit(s[i]) then
      ScanFraction(s, i + 1, whole, n, m + 1, hundredths + DecimalWeight(m, s[i]))
    else ScanTrailing(s, i, n + m > 0, 100 * whole + hundredths)
  }

  /** What the `m`-th decimal (counting from 0) adds, in hundredths. */
  function DecimalWeight(m: nat, c: char): nat {
    if m == 0 then 10 * DigitValue(c) else if m == 1 then DigitValue(c) else 0
  }

  /** Trailing whitespace, then the end of the text. */
  function ScanTrailing(s: string, i: nat, ok: bool, value: int): Option<int>
    requires i <= |s|
    decreases |s| - i, 1
  {
    if i == |s| then (if ok then Some(value) else None)
    else if IsSpace(s[i]) then ScanTrailing(s, i + 1, ok, value)
    else None
  }

  /** `int(float(s) * 100)`, the depth in hundredths. */
  function ParseDepth(s: string): Option<int> {
    ScanLeading(s, 0)
  }

  lemma {:induction false} NatTextValue(n: nat)
    ensures DigitsValue(NatText(n)) == n
  {
    if n >= 10 {
      NatTextValue(n / 10);
      var s := NatText(n);
      assert s[..|s| - 1] == NatText(n / 10);
    }
  }

  lemma DigitsValueStep(d: string, j: nat)
    requires j < |d|
    ensures DigitsValue(d[..j + 1]) == 10 * DigitsValue(d[..j]) + DigitValue(d[j])
  {
    assert d[..j + 1][..j] == d[..j];
  }

  /** The integer digits `d` of `p + d + q` are read as their value. */
  lemma {:induction false} ScanWholeDigits(p: string, d: string, q: string, j: nat)
    requires AllDigits(d) && j <= |d|
    decreases |d| - j
    ensures ScanWhole(p + d + q, |p| + j, DigitsValue(d[..j]), j) ==
            ScanWhole(p + d + q, |p| + |d|, DigitsValue(d), |d|)
  {
    if j < |d| {
      var s := p + d + q;
      assert s[|p| + j] == d[j];
      DigitsValueStep(d, j);
      ScanWholeDigits(p, d, q, j + 1);
      assert d[..|d|] == d;
    } else {
      assert d[..j] == d;
    }
  }

  lemma FractionStep(d: string, j: nat)
    requires j < |d|
    ensures FractionHundredths(d[..j + 1]) == FractionHundredths(d[..j]) + DecimalWeight(j, d[j])
  {
    var a, b := d[..j], d[..j + 1];
    assert forall k :: 0 <= k < j ==> a[k] == b[k] == d[k];
  }

  /** The decimals `d` of `p + d + q` are read as their first two digits. */
  lemma {:induction false} ScanFractionDigits(p: string, d: string, q: string, whole: nat, n: nat, j: nat)
    requires AllDigits(d) && j <= |d|
    decreases |d| - j
    ensures ScanFraction(p + d + q, |p| + j, whole, n, j, FractionHundredths(d[..j])) ==
            ScanFraction(p + d + q, |p| + |d|, whole, n, |d|, FractionHundredths(d))
  {
    if j < |d| {
      var s := p + d + q;
      assert s[|p| + j] == d[j];
      FractionStep(d, j);
      ScanFractionDigits(p, d, q, whole, n, j + 1);
    } else {
      assert d[..j] == d;
    }
  }

  /** Digits after position `|p|` to the end of the text read as their value. */
  lemma ScanDigitsToEnd(p: string, d: string)
    requires d != [] && AllDigits(d)
    ensures ScanWhole(p + d, |p|, 0, 0) == Some(100 * DigitsValue(d))
  {
    ScanWholeDigits(p, d, [], 0);
    assert d[..0] == [];
    assert p + d + [] == p + d;
  }

  /** A minus sign and digits read as the negated value. */
  lemma ParseNegative(d: string)
    requires d != [] && AllDigits(d)
    ensures ParseDepth("-" + d) == Some(-100 * DigitsValue(d))
  {
    ScanDigitsToEnd("-", d);
  }

  /** A text that starts with a digit has no leading whitespace or sign. */
  lemma ScanFromDigit(s: string)
    requires s != [] && IsDigit(s[0])
    ensures ParseDepth(s) == ScanWhole(s, 0, 0, 0)
  {
    assert !IsSpace(s[0]);
    assert ScanLeading(s, 0) == ScanSign(s, 0);
  }

  /** Digits read as their value. */
  lemma ParseNonNegative(d: string)
    requires d != [] && AllDigits(d)
    ensures ParseDepth(d) == Some(100 * DigitsValue(d))
  {
    ScanFromDigit(d);
    ScanDigitsToEnd([], d);
    assert [] + d == d;
  }

  /** Every integer text reads back as that many hundred hundredths:
      the depths written by `set_depths` and `change_depth` round-trip. */
  lemma ParseIntText(i: int)
    ensures ParseDepth(IntText(i)) == Some(100 * i)
  {
    if i < 0 {
      NatTextValue(-i);
      ParseNegative(NatText(-i));
    } else {
      NatTextValue(i);
      ParseNonNegative(NatText(i));
    }
  }

  /** The depths `fake_depth` writes read back exactly, under exact arithmetic. */
  lemma ParseHundredthsText(k: nat)
    ensures ParseDepth(HundredthsText(k)) == Some(k)
  {
    var whole, decimals := NatText(k / 100), Decimals(k % 100);
    var s := HundredthsText(k);
    ScanFromDigit(s);
    var p := whole + ".";
    assert s == whole + (['.'] + decimals) && s == p + decimals + [];
    NatTextValue(k / 100);
    ScanWholeDigits([], whole, ['.'] + decimals, 0);
    assert [] + whole + (['.'] + decimals) == s && whole[..0] == [];
    assert s[|whole|] == '.';
    ScanFractionDigits(p, decimals, [], DigitsValue(whole), |whole|, 0);
    assert decimals[..0] == [];
    assert 100 * (k / 100) + k % 100 == k;
  }
}
