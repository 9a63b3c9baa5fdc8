/**
 * The Python string primitives the extraction routine relies on:
 * `str.strip()` with no argument, `"\n".join(...)` and `str(int)`.
 * Strings are sequences of Unicode scalar values, as Python's `str` is.
 */
module Text {

  /** The characters for which Python's `str.isspace()` holds, which are the
      characters `str.strip()` removes when called without an argument. */
  predicate IsSpace(c: char) {
    ('\t' <= c <= '\r') || ('\U{1C}' <= c <= '\U{1F}') || c == ' '
    || c == '\U{85}' || c == '\U{A0}' || c == '\U{1680}'
    || ('\U{2000}' <= c <= '\U{200A}') || c == '\U{2028}' || c == '\U{2029}'
    || c == '\U{202F}' || c == '\U{205F}' || c == '\U{3000}'
  }

  predicate AllSpace(s: string) {
    forall k :: 0 <= k < |s| ==> IsSpace(s[k])
  }

  /** `s.lstrip()`. */
  function TrimStart(s: string): string {
    if s != [] && IsSpace(s[0]) then TrimStart(s[1..]) else s
  }

  /** `s.lstrip()` is the suffix of `s` left once its leading whitespace is
      gone. */
  lemma {:induction false} TrimStartSpec(s: string)
    ensures var r := TrimStart(s);
      |r| <= |s| && r == s[|s| - |r|..] && AllSpace(s[..|s| - |r|]) && (r == [] || !IsSpace(r[0]))
  {
    if s != [] && IsSpace(s[0]) {
      TrimStartSpec(s[1..]);
      var r := TrimStart(s);
      var m := |s| - |r|;
      assert s[1..][..m - 1] == s[1..m];
      forall k | 0 <= k < m ensures IsSpace(s[..m][k]) {
        if k > 0 { assert s[..m][k] == s[1..][..m - 1][k - 1]; }
      }
    }
  }

  /** `s.rstrip()`. */
  function TrimEnd(s: string): string {
    if s != [] && IsSpace(s[|s| - 1]) then TrimEnd(s[..|s| - 1]) else s
  }

  /** `s.rstrip()` is the prefix of `s` left once its trailing whitespace is
      gone. */
  lemma {:induction false} TrimEndSpec(s: string)
    ensures var r := TrimEnd(s);
      |r| <= |s| && r == s[..|r|] && AllSpace(s[|r|..]) && (r == [] || !IsSpace(r[|r| - 1]))
  {
    if s != [] && IsSpace(s[|s| - 1]) {
      var n := |s| - 1;
      TrimEndSpec(s[..n]);
      var r := TrimEnd(s);
      assert s[..n][..|r|] == s[..|r|];
      forall k | |r| <= k < |s| ensures IsSpace(s[k]) {
        if k < n { assert s[..n][|r|..][k - |r|] == s[k]; }
      }
    }
  }

  /** `s.strip()`. */
  function Strip(s: string): string {
    TrimEnd(TrimStart(s))
  }

  /** `s.strip()` is empty exactly when `s` is all whitespace; otherwise it
      neither starts nor ends with whitespace. */
  lemma StripSpec(s: string)
    ensures var r := Strip(s);
      |r| <= |s| && (r == [] <==> AllSpace(s)) && (r != [] ==> !IsSpace(r[0]) && !IsSpace(r[|r| - 1]))
  {
    var t := TrimStart(s);
    var m := |s| - |t|;
    var r := TrimEnd(t);
    TrimStartSpec(s);
    TrimEndSpec(t);
    assert s == s[..m] + t;
    assert t != [] ==> t[0] == s[m];
    assert r != [] ==> r[0] == t[0];
    if r == [] {
      assert t[|r|..] == t;
      assert t == [];
      assert s[..m] == s;
    }
  }

  /** Text that is not all whitespace strips to text ending in a
      non-whitespace character. */
  lemma StripLast(s: string)
    requires !AllSpace(s)
    ensures Strip(s) != [] && !IsSpace(Strip(s)[|Strip(s)| - 1])
  {
    StripSpec(s);
  }

  /** `Strip(s)` is the slice of `s` between a whitespace prefix and a
      whitespace suffix. */
  lemma StripIsSlice(s: string) returns (i: nat, j: nat)
    ensures i <= j <= |s| && Strip(s) == s[i..j]
    ensures AllSpace(s[..i]) && AllSpace(s[j..])
  {
    var t := TrimStart(s);
    TrimStartSpec(s);
    TrimEndSpec(t);
    i := |s| - |t|;
    j := i + |TrimEnd(t)|;
    assert s[i..] == t;
    assert s[j..] == t[|TrimEnd(t)|..];
  }

  lemma {:induction false} TrimStartAt(s: string, i: nat)
    requires i <= |s| && AllSpace(s[..i])
    requires i < |s| ==> !IsSpace(s[i])
    ensures TrimStart(s) == s[i..]
  {
    if i > 0 {
      assert s[..i][0] == s[0];
      assert s[1..][..i - 1] == s[1..i];
      assert forall k :: 0 <= k < i - 1 ==> s[1..i][k] == s[..i][k + 1];
      TrimStartAt(s[1..], i - 1);
      assert s[1..][i - 1..] == s[i..];
    }
  }

  lemma {:induction false} TrimEndAt(s: string, j: nat)
    requires j <= |s| && AllSpace(s[j..])
    requires 0 < j ==> !IsSpace(s[j - 1])
    ensures TrimEnd(s) == s[..j]
  {
    if j < |s| {
      var n := |s| - 1;
      assert s[j..][n - j] == s[n];
      assert forall k :: 0 <= k < n - j ==> s[..n][j..][k] == s[j..][k];
      TrimEndAt(s[..n], j);
      assert s[..n][..j] == s[..j];
    }
  }

  /** Any cut of `s` into whitespace, a core that neither starts nor ends with
      whitespace, and whitespace, has `Strip(s)` as its core: the slice
      characterises `strip()` completely. */
  lemma StripUnique(s: string, i: nat, j: nat)
    requires i <= j <= |s|
    requires AllSpace(s[..i]) && AllSpace(s[j..])
    requires i < j ==> !IsSpace(s[i]) && !IsSpace(s[j - 1])
    ensures Strip(s) == s[i..j]
  {
    if i < j {
      TrimStartAt(s, i);
      var t := s[i..];
      assert t[j - i..] == s[j..];
      TrimEndAt(t, j - i);
      assert t[..j - i] == s[i..j];
    } else {
      forall k | 0 <= k < |s| ensures IsSpace(s[k]) {
        if k < i { assert s[..i][k] == s[k]; } else { assert s[j..][k - j] == s[k]; }
      }
      StripSpec(s);
    }
  }

  /** Stripping twice changes nothing. */
  lemma StripIdempotent(s: string)
    ensures Strip(Strip(s)) == Strip(s)
  {
    var r := Strip(s);
    StripSpec(s);
    StripUnique(r, 0, |r|);
    assert r[..0] == [] && r[|r|..] == [] && r[0..|r|] == r;
  }

  /** `"\n".join(lines)`. */
  function JoinLines(lines: seq<string>): string {
    if |lines| == 0 then ""
    else if |lines| == 1 then lines[0]
    else lines[0] + "\n" + JoinLines(lines[1..])
  }

  /** The joined text begins with the first line and ends with the last. */
  lemma {:induction false} JoinLinesEnds(lines: seq<string>)
    requires lines != []
    ensures var r := JoinLines(lines);
      |lines[0]| <= |r| && r[..|lines[0]|] == lines[0]
      && |Last(lines)| <= |r| && r[|r| - |Last(lines)|..] == Last(lines)
  {
    if |lines| > 1 {
      var rest := lines[1..];
      JoinLinesEnds(rest);
      assert Last(rest) == Last(lines);
      var t := JoinLines(rest);
      assert JoinLines(lines) == lines[0] + "\n" + t;
    }
  }

  /** The joined text opens with the opening of the first line and closes
      with the last character of the last line. */
  lemma JoinedEnds(lines: seq<string>)
    requires lines != [] && |lines[0]| >= 2 && Last(lines) != []
    ensures var text := JoinLines(lines);
      |text| >= 2 && text[..2] == lines[0][..2]
      && text[|text| - 1] == Last(lines)[|Last(lines)| - 1]
  {
    var text, first, last := JoinLines(lines), lines[0], Last(lines);
    JoinLinesEnds(lines);
    assert text[..2] == text[..|first|][..2];
    assert text[|text| - 1] == text[|text| - |last|..][|last| - 1];
  }

  function Last<T>(s: seq<T>): T
    requires s != []
  {
    s[|s| - 1]
  }

  /** Joining two non-empty runs of lines puts exactly one newline between them. */
  lemma {:induction false} JoinLinesAppend(a: seq<string>, b: seq<string>)
    requires a != [] && b != []
    ensures JoinLines(a + b) == JoinLines(a) + "\n" + JoinLines(b)
  {
    if |a| == 1 {
      assert (a + b)[1..] == b;
    } else {
      assert (a + b)[1..] == a[1..] + b;
      JoinLinesAppend(a[1..], b);
    }
  }

  /** `s.split("\n")`: the pieces between newlines, always at least one. */
  function SplitLines(s: string): (r: seq<string>)
    ensures |r| >= 1
  {
    if s == [] then [""]
    else
      var rest := SplitLines(s[1..]);
      if s[0] == '\n' then [""] + rest else [[s[0]] + rest[0]] + rest[1..]
  }

  predicate NoNewline(s: string) {
    '\n' !in s
  }

  lemma {:induction false} SplitLinesPrefix(a: string, b: string)
    requires '\n' !in a
    ensures SplitLines(a + "\n" + b) == [a] + SplitLines(b)
  {
    if a == [] {
      assert (a + "\n" + b)[1..] == b;
    } else {
      assert (a + "\n" + b)[1..] == a[1..] + "\n" + b;
      SplitLinesPrefix(a[1..], b);
      assert [a[0]] + a[1..] == a;
    }
  }

  lemma {:induction false} SplitLinesSingle(a: string)
    requires '\n' !in a
    ensures SplitLines(a) == [a]
  {
    if a != [] {
      SplitLinesSingle(a[1..]);
      assert [a[0]] + a[1..] == a;
    }
  }

  /** Splitting undoes joining whenever no line holds a newline of its own. */
  lemma {:induction false} SplitJoinLines(lines: seq<string>)
    requires lines != []
    requires forall k :: 0 <= k < |lines| ==> NoNewline(lines[k])
    ensures SplitLines(JoinLines(lines)) == lines
  {
    if |lines| == 1 {
      SplitLinesSingle(lines[0]);
    } else {
      var rest := lines[1..];
      assert forall k :: 0 <= k < |rest| ==> rest[k] == lines[k + 1];
      SplitJoinLines(rest);
      var tail := JoinLines(rest);
      assert JoinLines(lines) == lines[0] + "\n" + tail;
      assert NoNewline(lines[0]);
      SplitLinesPrefix(lines[0], tail);
      assert [lines[0]] + rest == lines;
    }
  }

  predicate IsDigit(c: char) {
    '0' <= c <= '9'
  }

  function DigitChar(d: nat): (c: char)
    requires d < 10
    ensures IsDigit(c) && DigitValue(c) == d
  {
    (48 + d) as char
  }

  function DigitValue(c: char): nat
    requires IsDigit(c)
  {
    (c as int) - 48
  }

  /** `str(n)` for a non-negative integer. */
  function NatToDecimal(n: nat): string {
    if n < 10 then [DigitChar(n)] else NatToDecimal(n / 10) + [DigitChar(n % 10)]
  }

  /** `str(n)` is a non-empty run of decimal digits with no leading zero. */
  lemma {:induction false} NatToDecimalDigits(n: nat)
    ensures var r := NatToDecimal(n);
      r != [] && (forall k :: 0 <= k < |r| ==> IsDigit(r[k])) && (r[0] == '0' ==> n == 0)
  {
    if n >= 10 {
      NatToDecimalDigits(n / 10);
      var r, h := NatToDecimal(n), NatToDecimal(n / 10);
      assert r == h + [DigitChar(n % 10)];
      assert r[0] == h[0];
      forall k | 0 <= k < |r| ensures IsDigit(r[k]) {
        if k < |h| { assert r[k] == h[k]; }
      }
    }
  }

  /** `str(i)`: a minus sign before the digits of a negative number. */
  function IntToDecimal(i: int): string {
    if i < 0 then "-" + NatToDecimal(-i) else NatToDecimal(i)
  }

  /** `str(i)` is non-empty, holds neither a newline nor a comma, and starts
      with a minus sign exactly when `i` is negative. */
  lemma IntToDecimalShape(i: int)
    ensures var r := IntToDecimal(i);
      r != [] && NoNewline(r) && ',' !in r && (r[0] == '-' <==> i < 0)
  {
    var n: nat := if i < 0 then -i else i;
    NatToDecimalDigits(n);
    var d := NatToDecimal(n);
    var r := IntToDecimal(i);
    assert r == if i < 0 then "-" + d else d;
    forall k | 0 <= k < |r| ensures r[k] != '\n' && r[k] != ',' {
      if i < 0 && k > 0 { assert r[k] == d[k - 1]; }
    }
  }

  /** The value of a string of decimal digits, as `int(s)` reads it. */
  function ParseNat(s: string): nat
    requires forall k :: 0 <= k < |s| ==> IsDigit(s[k])
  {
    if s == [] then 0 else ParseNat(s[..|s| - 1]) * 10 + DigitValue(s[|s| - 1])
  }

  /** The value of a decimal integer with an optional leading minus sign. */
  function ParseInt(s: string): int
    requires s != [] && (s[0] == '-' || IsDigit(s[0]))
    requires forall k :: 1 <= k < |s| ==> IsDigit(s[k])
  {
    if s[0] == '-' then -(ParseNat(s[1..]) as int) else ParseNat(s)
  }

  lemma {:induction false} ParseNatToDecimal(n: nat)
    ensures forall k :: 0 <= k < |NatToDecimal(n)| ==> IsDigit(NatToDecimal(n)[k])
    ensures ParseNat(NatToDecimal(n)) == n
  {
    NatToDecimalDigits(n);
    if n >= 10 {
      var r := NatToDecimal(n);
      assert r[..|r| - 1] == NatToDecimal(n / 10);
      ParseNatToDecimal(n / 10);
    }
  }

  /** Reading `str(i)` back gives `i`. */
  lemma ParseIntToDecimal(i: int)
    ensures IntToDecimal(i) != [] && (IntToDecimal(i)[0] == '-' || IsDigit(IntToDecimal(i)[0]))
    ensures forall k :: 1 <= k < |IntToDecimal(i)| ==> IsDigit(IntToDecimal(i)[k])
    ensures ParseInt(IntToDecimal(i)) == i
  {
    var n: nat := if i < 0 then -i else i;
    ParseNatToDecimal(n);
    NatToDecimalDigits(n);
    var d, r := NatToDecimal(n), IntToDecimal(i);
    if i < 0 {
      assert r == "-" + d && r[1..] == d;
      forall k | 1 <= k < |r| ensures IsDigit(r[k]) {
        assert r[k] == d[k - 1];
      }
    } else {
      assert r == d;
    }
  }

  /** Distinct integers have distinct decimal forms. */
  lemma IntToDecimalInjective(i: int, j: int)
    requires IntToDecimal(i) == IntToDecimal(j)
    ensures i == j
  {
    ParseIntToDecimal(i);
    ParseIntToDecimal(j);
  }
}
