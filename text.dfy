/**
 * C-string and CString helpers that the POP3 engine relies on: substring
 * search (`CString::Find`, `strstr`), ASCII case mapping (`MakeUpper`,
 * `strnicmp`), white-space trimming (`TrimLeft`/`TrimRight`), `atoi` and the
 * decimal rendering of `%d`.
 */
module Text {

  datatype Option<T> = None | Some(value: T)

  const CRLF: string := "\r\n"

  /** No carriage return is directly followed by a line feed. */
  predicate NoLineBreak(s: string)
  {
    forall i :: 0 <= i < |s| - 1 ==> !(s[i] == '\r' && s[i + 1] == '\n')
  }

  /** The character at `i`, or NUL past either end: what reading a C string
      one position at a time yields. */
  function CharAt(s: string, i: int): char
  {
    if 0 <= i < |s| then s[i] else '\0'
  }

  /** `isspace` in the C locale: the space, and tab, line feed, vertical
      tab, form feed and carriage return (codes 9 to 13). */
  predicate IsSpace(c: char)
  {
    c == ' ' || '\t' <= c <= '\r'
  }

  /** The two separators the STAT and LIST scans look for. */
  predicate IsBlank(c: char)
  {
    c == ' ' || c == '\t'
  }

  predicate IsDigit(c: char)
  {
    '0' <= c <= '9'
  }

  function ToUpper(c: char): char
  {
    if 'a' <= c <= 'z' then (c as int - 32) as char else c
  }

  function ToLower(c: char): char
  {
    if 'A' <= c <= 'Z' then (c as int + 32) as char else c
  }

  /** `CString::MakeUpper` over ASCII (`UpperChars`). */
  function Upper(s: string): (r: string)
    ensures |r| == |s|
  {
    if s == [] then [] else [ToUpper(s[0])] + Upper(s[1..])
  }

  /** Each character is mapped on its own. */
  lemma {:induction false} UpperChars(s: string)
    ensures forall i :: 0 <= i < |s| ==> Upper(s)[i] == ToUpper(s[i])
  {
    if s != [] {
      UpperChars(s[1..]);
      forall i | 1 <= i < |s| ensures Upper(s)[i] == ToUpper(s[i]) {
        assert Upper(s)[i] == Upper(s[1..])[i - 1];
      }
    }
  }

  lemma UpperAppend(a: string, b: string)
    ensures Upper(a + b) == Upper(a) + Upper(b)
  {
    UpperChars(a + b);
    UpperChars(a);
    UpperChars(b);
    forall i | 0 <= i < |a + b| ensures Upper(a + b)[i] == (Upper(a) + Upper(b))[i] {
      if i < |a| { assert (a + b)[i] == a[i]; } else { assert (a + b)[i] == b[i - |a|]; }
    }
  }

  // ---------------------------------------------------------------------
  // Substring search

  /** `p` occurs in `s` starting at index `i`. */
  predicate OccursAt(s: string, p: string, i: int)
  {
    0 <= i && i + |p| <= |s| && s[i..i + |p|] == p
  }

  predicate Contains(s: string, p: string)
  {
    exists i :: 0 <= i <= |s| - |p| && OccursAt(s, p, i)
  }

  lemma OccursInTail(s: string, p: string, j: int)
    requires |s| > 0 && 0 <= j
    ensures OccursAt(s[1..], p, j) <==> OccursAt(s, p, j + 1)
  {
    if j + |p| <= |s[1..]| {
      assert s[1..][j..j + |p|] == s[j + 1..j + 1 + |p|];
    }
  }

  /** `CString::Find` and `strstr`: the index of the first occurrence of
      `p` in `s`, or -1 when there is none (`FindFirst`). */
  function Find(s: string, p: string): (r: int)
    decreases |s|
    ensures r == -1 || 0 <= r <= |s| - |p|
  {
    if |s| < |p| then -1
    else if s[..|p|] == p then 0
    else
      var k := Find(s[1..], p);
      if k < 0 then -1 else k + 1
  }

  lemma {:induction false} FindFirst(s: string, p: string)
    ensures var r := Find(s, p);
      (r >= 0 ==> OccursAt(s, p, r) && forall j :: 0 <= j < r ==> !OccursAt(s, p, j)) &&
      (r < 0 <==> !Contains(s, p))
    decreases |s|
  {
    var r := Find(s, p);
    if |s| < |p| {
    } else if s[..|p|] == p {
      assert OccursAt(s, p, 0);
    } else {
      assert !OccursAt(s, p, 0);
      var k := Find(s[1..], p);
      FindFirst(s[1..], p);
      if Contains(s, p) {
        var i :| 0 <= i <= |s| - |p| && OccursAt(s, p, i);
        OccursInTail(s, p, i - 1);
        assert OccursAt(s[1..], p, i - 1);
      }
      if k >= 0 {
        OccursInTail(s, p, k);
        forall j | 1 <= j < r ensures !OccursAt(s, p, j) {
          OccursInTail(s, p, j - 1);
        }
      }
    }
  }

  /** Searching for a one-character string finds the first position of that
      character. */
  lemma FindChar(s: string, c: char)
    ensures var r := Find(s, [c]);
      (r >= 0 ==> r < |s| && s[r] == c && forall j :: 0 <= j < r ==> s[j] != c) &&
      (r < 0 ==> c !in s)
  {
    var r := Find(s, [c]);
    FindFirst(s, [c]);
    if r >= 0 {
      assert s[r] == s[r..r + 1][0];
      forall j | 0 <= j < r ensures s[j] != c {
        assert !OccursAt(s, [c], j);
        assert s[j..j + 1] == [s[j]];
      }
    } else {
      forall j | 0 <= j < |s| ensures s[j] != c {
        assert !OccursAt(s, [c], j);
        assert s[j..j + 1] == [s[j]];
      }
    }
  }

  /** An occurrence inside a prefix is an occurrence in the whole string. */
  lemma ContainsPrefix(s: string, n: nat, p: string)
    requires n <= |s| && Contains(s[..n], p)
    ensures Contains(s, p)
  {
    var i :| 0 <= i <= n - |p| && OccursAt(s[..n], p, i);
    assert s[..n][i..i + |p|] == s[i..i + |p|];
    assert OccursAt(s, p, i);
  }

  /** An occurrence inside a suffix is an occurrence in the whole string. */
  lemma ContainsSuffix(s: string, k: nat, p: string)
    requires k <= |s| && Contains(s[k..], p)
    ensures Contains(s, p)
  {
    var i :| 0 <= i <= |s| - k - |p| && OccursAt(s[k..], p, i);
    assert s[k..][i..i + |p|] == s[k + i..k + i + |p|];
    assert OccursAt(s, p, k + i);
  }

  lemma NoLineBreakIffNoCRLF(s: string)
    ensures NoLineBreak(s) <==> !Contains(s, CRLF)
  {
    if !NoLineBreak(s) {
      var i :| 0 <= i < |s| - 1 && s[i] == '\r' && s[i + 1] == '\n';
      assert s[i..i + 2] == CRLF;
      assert OccursAt(s, CRLF, i);
    }
    if Contains(s, CRLF) {
      var i :| 0 <= i <= |s| - 2 && OccursAt(s, CRLF, i);
      assert s[i] == s[i..i + 2][0] && s[i + 1] == s[i..i + 2][1];
    }
  }

  /** Searching a suffix finds the first occurrence at or after its start. */
  lemma FindInSuffix(s: string, k: nat, p: string)
    requires k <= |s|
    ensures var r := Find(s[k..], p);
      (r >= 0 ==> OccursAt(s, p, k + r) && forall j :: k <= j < k + r ==> !OccursAt(s, p, j)) &&
      (r < 0 ==> forall j :: k <= j ==> !OccursAt(s, p, j))
  {
    var r := Find(s[k..], p);
    FindFirst(s[k..], p);
    forall j | k <= j ensures OccursAt(s[k..], p, j - k) <==> OccursAt(s, p, j) {
      if j + |p| <= |s| { assert s[k..][j - k..j - k + |p|] == s[j..j + |p|]; }
    }
  }

  // ---------------------------------------------------------------------
  // CString::TrimLeft / TrimRight

  /** `CString::TrimLeft`: drop leading white space (`TrimLeftSuffix`,
      `TrimLeftSpec`, `TrimLeftEdge`). */
  function TrimLeft(s: string): (r: string)
    ensures |r| <= |s|
  {
    if |s| > 0 && IsSpace(s[0]) then TrimLeft(s[1..]) else s
  }

  /** The result is a suffix of `s`. */
  lemma {:induction false} TrimLeftSuffix(s: string)
    ensures TrimLeft(s) == s[|s| - |TrimLeft(s)|..]
  {
    if |s| > 0 && IsSpace(s[0]) {
      TrimLeftSuffix(s[1..]);
      assert s[1..][|s| - 1 - |TrimLeft(s)|..] == s[|s| - |TrimLeft(s)|..];
    }
  }

  /** Only white space is dropped from the front. */
  lemma {:induction false} TrimLeftSpec(s: string)
    ensures forall i :: 0 <= i < |s| - |TrimLeft(s)| ==> IsSpace(s[i])
  {
    if |s| > 0 && IsSpace(s[0]) {
      TrimLeftSpec(s[1..]);
      forall i | 1 <= i < |s| - |TrimLeft(s)| ensures IsSpace(s[i]) {
        assert s[i] == s[1..][i - 1];
      }
    }
  }

  /** The result does not start with white space. */
  lemma {:induction false} TrimLeftEdge(s: string)
    ensures var r := TrimLeft(s); |r| > 0 ==> !IsSpace(r[0])
  {
    if |s| > 0 && IsSpace(s[0]) {
      TrimLeftEdge(s[1..]);
    }
  }

  /** `CString::TrimRight`: drop trailing white space (`TrimRightPrefix`,
      `TrimRightSpec`, `TrimRightEdge`). */
  function TrimRight(s: string): (r: string)
    ensures |r| <= |s|
  {
    if |s| > 0 && IsSpace(s[|s| - 1]) then TrimRight(s[..|s| - 1]) else s
  }

  /** The result is a prefix of `s`. */
  lemma {:induction false} TrimRightPrefix(s: string)
    ensures TrimRight(s) == s[..|TrimRight(s)|]
  {
    if |s| > 0 && IsSpace(s[|s| - 1]) {
      TrimRightPrefix(s[..|s| - 1]);
      assert s[..|s| - 1][..|TrimRight(s)|] == s[..|TrimRight(s)|];
    }
  }

  /** Only white space is dropped from the back. */
  lemma {:induction false} TrimRightSpec(s: string)
    ensures forall i :: |TrimRight(s)| <= i < |s| ==> IsSpace(s[i])
  {
    if |s| > 0 && IsSpace(s[|s| - 1]) {
      TrimRightSpec(s[..|s| - 1]);
      forall i | |TrimRight(s)| <= i < |s| - 1 ensures IsSpace(s[i]) {
        assert s[i] == s[..|s| - 1][i];
      }
    }
  }

  /** The result does not end with white space. */
  lemma {:induction false} TrimRightEdge(s: string)
    ensures var r := TrimRight(s); |r| > 0 ==> !IsSpace(r[|r| - 1])
  {
    if |s| > 0 && IsSpace(s[|s| - 1]) {
      TrimRightEdge(s[..|s| - 1]);
    }
  }

  /** TrimLeft followed by TrimRight: an infix of `s`, characterised by
      `TrimSpec`, `TrimEdges` and `TrimDropsSpace`. */
  function Trim(s: string): (r: string)
    ensures |r| <= |s|
  {
    TrimRight(TrimLeft(s))
  }

  /** The trimmed text is the infix of `s` that follows the leading white
      space. */
  lemma TrimSpec(s: string)
    ensures var r := Trim(s);
      var i := |s| - |TrimLeft(s)|;
      0 <= i <= |s| - |r| && r == s[i..i + |r|]
  {
    var l := TrimLeft(s);
    var r := TrimRight(l);
    TrimLeftSuffix(s);
    TrimRightPrefix(l);
    assert r == s[|s| - |l|..|s| - |l| + |r|];
  }

  /** The trimmed text neither starts nor ends with white space. */
  lemma TrimEdges(s: string)
    ensures var r := Trim(s);
      |r| > 0 ==> !IsSpace(r[0]) && !IsSpace(r[|r| - 1])
  {
    var l := TrimLeft(s);
    var r := TrimRight(l);
    TrimLeftEdge(s);
    TrimRightEdge(l);
    TrimRightPrefix(l);
    if |r| > 0 {
      assert r[0] == l[0];
    }
  }

  /** Trimming drops nothing but white space on either side. */
  lemma TrimDropsSpace(s: string)
    ensures var i := |s| - |TrimLeft(s)|;
      (forall j :: 0 <= j < i ==> IsSpace(s[j])) &&
      (forall j :: i + |Trim(s)| <= j < |s| ==> IsSpace(s[j]))
  {
    var l := TrimLeft(s);
    var i := |s| - |l|;
    TrimLeftSpec(s);
    TrimLeftSuffix(s);
    TrimRightSpec(l);
    forall j | i + |Trim(s)| <= j < |s| ensures IsSpace(s[j]) {
      assert s[j] == l[j - i];
    }
  }

  // ---------------------------------------------------------------------
  // strnicmp(s, "+OK", 3) == 0 and strncmp(s, "+OK", 3) == 0

  /** The positive status token, compared without regard to case. */
  predicate IsPositiveReply(s: string)
  {
    |s| >= 3 && s[0] == '+' && ToUpper(s[1]) == 'O' && ToUpper(s[2]) == 'K'
  }

  /** The positive status token, compared exactly. */
  predicate IsExactPositiveReply(s: string)
  {
    |s| >= 3 && s[..3] == "+OK"
  }

  // ---------------------------------------------------------------------
  // atoi and %d

  /** The longest prefix of `s` made of decimal digits. */
  function DigitRun(s: string): (r: string)
    ensures |r| <= |s| && r == s[..|r|]
    ensures forall i :: 0 <= i < |r| ==> IsDigit(r[i])
    ensures |r| < |s| ==> !IsDigit(s[|r|])
  {
    if |s| > 0 && IsDigit(s[0]) then [s[0]] + DigitRun(s[1..]) else []
  }

  /** The value of a string of decimal digits, most significant first. */
  function DigitsValue(d: string): nat
    requires forall i :: 0 <= i < |d| ==> IsDigit(d[i])
  {
    if d == [] then 0
    else
      assert IsDigit(d[|d| - 1]);
      DigitsValue(d[..|d| - 1]) * 10 + (d[|d| - 1] as int - '0' as int)
  }

  /** `atoi`: skip white space, an optional sign, then the digits that follow.
      The width of C's `int` is not modelled. */
  function Atoi(s: string): int
  {
    var t := TrimLeft(s);
    if |t| > 0 && t[0] == '-' then -(DigitsValue(DigitRun(t[1..])) as int)
    else if |t| > 0 && t[0] == '+' then DigitsValue(DigitRun(t[1..]))
    else DigitsValue(DigitRun(t))
  }

  function DigitChar(d: nat): (c: char)
    requires d < 10
    ensures IsDigit(c) && c as int - '0' as int == d
  {
    ('0' as int + d) as char
  }

  /** `%u`: the decimal rendering of a natural number. */
  function Decimal(n: nat): (r: string)
    ensures |r| > 0
    ensures forall i :: 0 <= i < |r| ==> IsDigit(r[i])
    ensures DigitsValue(r) == n
  {
    if n < 10 then [DigitChar(n)]
    else
      var r := Decimal(n / 10) + [DigitChar(n % 10)];
      assert r[..|r| - 1] == Decimal(n / 10);
      r
  }

  /** `%d`: the decimal rendering of an integer. */
  function IntToString(n: int): (r: string)
    ensures |r| > 0 && !IsSpace(r[0])
  {
    if n < 0 then "-" + Decimal(-n) else Decimal(n)
  }

  lemma DigitRunOf(d: string, rest: string)
    requires forall i :: 0 <= i < |d| ==> IsDigit(d[i])
    requires rest == [] || !IsDigit(rest[0])
    ensures DigitRun(d + rest) == d
  {
    if d != [] {
      assert (d + rest)[1..] == d[1..] + rest;
      DigitRunOf(d[1..], rest);
    }
  }

  lemma TrimLeftNoSpace(s: string)
    requires |s| > 0 && !IsSpace(s[0])
    ensures TrimLeft(s) == s
  {
  }

  lemma AtoiUnsigned(s: string)
    requires TrimLeft(s) == s && |s| > 0 && IsDigit(s[0])
    ensures Atoi(s) == DigitsValue(DigitRun(s))
  {
  }

  lemma AtoiMinus(s: string)
    requires TrimLeft(s) == s && |s| > 0 && s[0] == '-'
    ensures Atoi(s) == -(DigitsValue(DigitRun(s[1..])) as int)
  {
  }

  /** `atoi` of a run of digits followed by a non-digit is the run's value. */
  lemma AtoiDigits(d: string, rest: string)
    requires |d| > 0 && forall i :: 0 <= i < |d| ==> IsDigit(d[i])
    requires rest == [] || !IsDigit(rest[0])
    ensures Atoi(d + rest) == DigitsValue(d)
  {
    DigitRunOf(d, rest);
    TrimLeftNoSpace(d + rest);
    AtoiUnsigned(d + rest);
  }

  lemma SignSplit(d: string, rest: string)
    ensures var s := "-" + d + rest; |s| > 0 && s[0] == '-' && s[1..] == d + rest
  {
    var s := "-" + d + rest;
    assert s[1..] == d + rest;
  }

  /** `atoi` of a minus sign and a run of digits is the negated value. */
  lemma AtoiNegative(d: string, rest: string)
    requires forall i :: 0 <= i < |d| ==> IsDigit(d[i])
    requires rest == [] || !IsDigit(rest[0])
    ensures Atoi("-" + d + rest) == -(DigitsValue(d) as int)
  {
    var s := "-" + d + rest;
    SignSplit(d, rest);
    TrimLeftNoSpace(s);
    AtoiMinus(s);
    DigitRunOf(d, rest);
  }

  /** `atoi` reads back what `%d` wrote, whatever follows the number as long
      as it is not another digit. */
  lemma AtoiIntToString(n: int, rest: string)
    requires rest == [] || !IsDigit(rest[0])
    ensures Atoi(IntToString(n) + rest) == n
  {
    if n < 0 {
      AtoiNegative(Decimal(-n), rest);
    } else {
      AtoiDigits(Decimal(n), rest);
    }
  }

  lemma {:induction false} TrimLeftSkips(w: string, s: string)
    requires forall i :: 0 <= i < |w| ==> IsSpace(w[i])
    ensures TrimLeft(w + s) == TrimLeft(s)
  {
    if w != [] {
      var ws := w + s;
      assert ws[0] == w[0] && IsSpace(w[0]);
      assert TrimLeft(ws) == TrimLeft(ws[1..]);
      assert ws[1..] == w[1..] + s;
      TrimLeftSkips(w[1..], s);
    } else {
      assert w + s == s;
    }
  }

  /** Leading white space does not change what `atoi` reads. */
  lemma AtoiSkipsSpace(w: string, s: string)
    requires forall i :: 0 <= i < |w| ==> IsSpace(w[i])
    ensures Atoi(w + s) == Atoi(s)
  {
    TrimLeftSkips(w, s);
  }
}
