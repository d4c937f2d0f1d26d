/**
 * Header-field lookup of a mail message: the search for the `n`-th line
 * that starts with a given field name, and the clean-up of the field body
 * (unfolding of continuation lines as in section 3.1.1 of RFC 822, tabs to
 * spaces, trimming).
 */
module Fields {
  import opened Text

  /** What `GetHeaderItem` searches the upper-cased header for: a line break,
      the upper-cased field name and a colon. */
  function FieldPattern(name: string): (p: string)
    ensures |p| == |name| + 3
  {
    CRLF + Upper(name) + ":"
  }

  // ---------------------------------------------------------------------
  // The n-th match

  /** Index of the `n`-th (from 0) occurrence of `p` in `s` at or after
      `from`, each search resuming after the end of the previous match; -1
      when there are fewer than `n + 1` (`NthFindMatch`, `NthFindFound`). */
  function NthFind(s: string, p: string, from: nat, n: nat): (r: int)
    requires from <= |s|
    decreases n
    ensures r == -1 || from <= r <= |s| - |p|
  {
    var k := Find(s[from..], p);
    if k < 0 then -1
    else if n == 0 then from + k
    else NthFind(s, p, from + k + |p|, n - 1)
  }

  /** What `NthFind` returns is a match of `p`. */
  lemma {:induction false} NthFindMatch(s: string, p: string, from: nat, n: nat)
    requires from <= |s|
    ensures NthFind(s, p, from, n) >= 0 ==> OccursAt(s, p, NthFind(s, p, from, n))
    decreases n
  {
    var k := Find(s[from..], p);
    FindInSuffix(s, from, p);
    if k >= 0 && n > 0 {
      NthFindMatch(s, p, from + k + |p|, n - 1);
    }
  }

  /** Number of successive non-overlapping matches of `p` in `s` at or
      after `from`. */
  function CountMatches(s: string, p: string, from: nat): nat
    requires |p| > 0 && from <= |s|
    decreases |s| - from
  {
    var k := Find(s[from..], p);
    if k < 0 then 0 else 1 + CountMatches(s, p, from + k + |p|)
  }

  /** The `n`-th match exists exactly when there are more than `n` matches. */
  lemma {:induction false} NthFindFound(s: string, p: string, from: nat, n: nat)
    requires |p| > 0 && from <= |s|
    ensures NthFind(s, p, from, n) >= 0 <==> n < CountMatches(s, p, from)
    decreases n
  {
    var k := Find(s[from..], p);
    if k >= 0 && n > 0 {
      NthFindFound(s, p, from + k + |p|, n - 1);
    }
  }

  /** The next match is found by searching from the end of the previous one. */
  lemma {:induction false} NthFindNext(s: string, p: string, from: nat, i: nat)
    requires from <= |s| && NthFind(s, p, from, i) >= 0
    ensures var b := NthFind(s, p, from, i) + |p|;
      b <= |s| &&
      NthFind(s, p, from, i + 1) == NthFind(s, p, b, 0)
    decreases i
  {
    var k := Find(s[from..], p);
    var next := from + k + |p|;
    if i > 0 {
      assert NthFind(s, p, from, i) == NthFind(s, p, next, i - 1);
      assert NthFind(s, p, from, i + 1) == NthFind(s, p, next, i);
      NthFindNext(s, p, next, i - 1);
    } else {
      assert NthFind(s, p, from, 1) == NthFind(s, p, next, 0);
    }
  }

  /** Once a match is missing, every later one is missing too. */
  lemma {:induction false} NthFindMissing(s: string, p: string, from: nat, i: nat, j: nat)
    requires from <= |s| && i <= j && NthFind(s, p, from, i) < 0
    ensures NthFind(s, p, from, j) == -1
    decreases i
  {
    var k := Find(s[from..], p);
    if k >= 0 && i > 0 {
      var next := from + k + |p|;
      assert NthFind(s, p, from, i) == NthFind(s, p, next, i - 1);
      assert NthFind(s, p, from, j) == NthFind(s, p, next, j - 1);
      NthFindMissing(s, p, next, i - 1, j - 1);
    }
  }

  // ---------------------------------------------------------------------
  // The search loop of GetHeaderItem

  /** `CString::Right`: the last `count` characters, all of `s` when `count`
      exceeds its length, none when `count` is not positive. */
  function Right(s: string, count: int): (r: string)
    ensures |r| == if count <= 0 then 0 else if count >= |s| then |s| else count
  {
    if count <= 0 then [] else if count >= |s| then s else s[|s| - count..]
  }

  /** The result of `k` more rounds of the search loop in `GetHeaderItem`,
      from the state where the last match was at `nFind` in `rest` and at
      `findStart` in the whole header: cut `rest` after the match, search
      the cut text, give up with -1 on a miss (`RescanIsNthFind`). */
  function Rescan(rest: string, find: string, findLength: int, nFind: int, findStart: int, k: nat): int
    decreases k
  {
    if k == 0 then findStart
    else
      var rest' := Right(rest, |rest| - nFind - findLength);
      var next := Find(rest', find);
      if next == -1 then -1
      else Rescan(rest', find, findLength, next, findStart + next + findLength, k - 1)
  }

  /** One round of the loop, with the cut text and the search result named. */
  lemma RescanStep(rest: string, find: string, findLength: int, nFind: int, findStart: int, k: nat,
                   rest': string, next: int)
    requires k > 0 && rest' == Right(rest, |rest| - nFind - findLength) && next == Find(rest', find)
    ensures Rescan(rest, find, findLength, nFind, findStart, k) ==
      if next == -1 then -1 else Rescan(rest', find, findLength, next, findStart + next + findLength, k - 1)
  {
  }

  /** A round whose search fails ends the loop with -1. */
  lemma RescanStop(rest: string, find: string, findLength: int, nFind: int, findStart: int, k: nat,
                   rest': string, next: int)
    requires k > 0 && rest' == Right(rest, |rest| - nFind - findLength) && next == Find(rest', find)
    requires next == -1
    ensures Rescan(rest, find, findLength, nFind, findStart, k) == -1
  {
    RescanStep(rest, find, findLength, nFind, findStart, k, rest', next);
  }

  /** A round whose search succeeds continues from the new match. */
  lemma RescanGoOn(rest: string, find: string, findLength: int, nFind: int, findStart: int, k: nat,
                   rest': string, next: int, findStart': int, target: int)
    requires k > 0 && rest' == Right(rest, |rest| - nFind - findLength) && next == Find(rest', find)
    requires next != -1 && findStart' == findStart + next + findLength
    requires Rescan(rest', find, findLength, next, findStart', k - 1) == target
    ensures Rescan(rest, find, findLength, nFind, findStart, k) == target
  {
    RescanStep(rest, find, findLength, nFind, findStart, k, rest', next);
  }

  /** Cutting `rest`, a suffix of `whole`, after a match of `find` gives the
      suffix of `whole` after that match. */
  lemma CutAfterMatch(whole: string, find: string, findLength: int, findStart: int, nFind: int, rest: string)
    requires findLength == |find| && 0 <= nFind <= findStart && findStart + findLength <= |whole|
    requires rest == whole[findStart - nFind..]
    ensures Right(rest, |rest| - nFind - findLength) == whole[findStart + findLength..]
  {
    var count := |rest| - nFind - findLength;
    assert 0 <= count <= |rest| && |rest| - count == nFind + findLength;
    assert |Right(rest, count)| == count;
    assert rest[nFind + findLength..] == whole[findStart + findLength..];
  }

  /** Without any match in `whole`, the cut after the failed first search
      (at `nFind == -1`) has none either. */
  lemma CutWithoutMatch(whole: string, find: string, findLength: int, nFind: int)
    requires findLength == |find| > 0 && nFind == -1 && Find(whole, find) < 0
    ensures Find(Right(whole, |whole| - nFind - findLength), find) == -1
  {
    var rest := Right(whole, |whole| - nFind - findLength);
    assert rest == whole[|whole| - |rest|..];
    FindFirst(whole, find);
    FindFirst(rest, find);
    if Contains(rest, find) {
      ContainsSuffix(whole, |whole| - |rest|, find);
    }
  }

  /** After a match at `findStart`, one more round of the loop finds the
      next match, or gives up when there is none. */
  lemma RescanAfterMatch(whole: string, find: string, findLength: int, i: nat, findStart: int,
                         nFind: int, rest: string, rest': string, next: int)
    requires findLength == |find| > 0
    requires findStart == NthFind(whole, find, 0, i) && findStart >= 0
    requires 0 <= nFind <= findStart && rest == whole[findStart - nFind..]
    requires rest' == Right(rest, |rest| - nFind - findLength) && next == Find(rest', find)
    ensures next == -1 ==> NthFind(whole, find, 0, i + 1) == -1
    ensures next != -1 ==> (NthFind(whole, find, 0, i + 1) == findStart + next + findLength &&
      0 <= next <= findStart + next + findLength &&
      rest' == whole[findStart + next + findLength - next..])
  {
    NthFindNext(whole, find, 0, i);
    CutAfterMatch(whole, find, findLength, findStart, nFind, rest);
    assert findStart + next + findLength - next == findStart + findLength;
  }

  /** The search loop finds the `n`-th match: after `i` rounds, with the
      `i`-th match at `findStart`, `k` more rounds give the `i + k`-th. */
  lemma {:induction false} RescanIsNthFind(whole: string, find: string, findLength: int, i: nat, findStart: int,
                                           nFind: int, rest: string, k: nat)
    requires findLength == |find| > 0
    requires findStart == NthFind(whole, find, 0, i)
    requires findStart >= 0 ==> 0 <= nFind <= findStart && rest == whole[findStart - nFind..]
    requires findStart < 0 ==> i == 0 && nFind == -1 && rest == whole
    ensures Rescan(rest, find, findLength, nFind, findStart, k) == NthFind(whole, find, 0, i + k)
    decreases k, 1
  {
    if k > 0 {
      if findStart >= 0 {
        RescanAfterFound(whole, find, findLength, i, findStart, nFind, rest, k);
      } else {
        RescanNoneFound(whole, find, findLength, nFind, rest, k);
      }
    }
  }

  /** `RescanIsNthFind` when the `i`-th match exists. */
  lemma {:induction false} RescanAfterFound(whole: string, find: string, findLength: int, i: nat, findStart: int,
                                            nFind: int, rest: string, k: nat)
    requires findLength == |find| > 0 && k > 0
    requires findStart == NthFind(whole, find, 0, i) && findStart >= 0
    requires 0 <= nFind <= findStart && rest == whole[findStart - nFind..]
    ensures Rescan(rest, find, findLength, nFind, findStart, k) == NthFind(whole, find, 0, i + k)
    decreases k, 0
  {
    var rest' := Right(rest, |rest| - nFind - findLength);
    var next := Find(rest', find);
    RescanAfterMatch(whole, find, findLength, i, findStart, nFind, rest, rest', next);
    if next == -1 {
      NthFindMissing(whole, find, 0, i + 1, i + k);
      RescanStop(rest, find, findLength, nFind, findStart, k, rest', next);
    } else {
      RescanNextFound(whole, find, findLength, i, findStart, nFind, rest, k, rest', next);
    }
  }

  /** `RescanAfterFound` when the round finds the next match. */
  lemma {:induction false} RescanNextFound(whole: string, find: string, findLength: int, i: nat, findStart: int,
                                           nFind: int, rest: string, k: nat, rest': string, next: int)
    requires findLength == |find| > 0 && k > 0
    requires rest' == Right(rest, |rest| - nFind - findLength) && next == Find(rest', find) && next != -1
    requires NthFind(whole, find, 0, i + 1) == findStart + next + findLength
    requires 0 <= next <= findStart + next + findLength && rest' == whole[findStart + next + findLength - next..]
    ensures Rescan(rest, find, findLength, nFind, findStart, k) == NthFind(whole, find, 0, i + k)
    decreases k - 1, 2
  {
    var findStart', i', k' := findStart + next + findLength, i + 1, k - 1;
    RescanIsNthFind(whole, find, findLength, i', findStart', next, rest', k');
    assert i' + k' == i + k;
    RescanGoOn(rest, find, findLength, nFind, findStart, k, rest', next, findStart', NthFind(whole, find, 0, i + k));
  }

  /** `RescanIsNthFind` when there is no match at all. */
  lemma RescanNoneFound(whole: string, find: string, findLength: int, nFind: int, rest: string, k: nat)
    requires findLength == |find| > 0 && k > 0
    requires NthFind(whole, find, 0, 0) < 0 && nFind == -1 && rest == whole
    ensures Rescan(rest, find, findLength, nFind, NthFind(whole, find, 0, 0), k) == NthFind(whole, find, 0, k)
  {
    var rest' := Right(rest, |rest| - nFind - findLength);
    var next := Find(rest', find);
    RescanStep(rest, find, findLength, nFind, NthFind(whole, find, 0, 0), k, rest', next);
    NthFindMissing(whole, find, 0, 0, k);
    CutWithoutMatch(whole, find, findLength, nFind);
  }

  // ---------------------------------------------------------------------
  // The field body

  /** Where a field body captured from index `i` stops: at NUL or the end
      of the text, or at a line break not followed by a space or a tab (a
      line break followed by one of them folds the field onto the next line). */
  predicate IsFieldEnd(h: string, i: int)
  {
    CharAt(h, i) == '\0' ||
    (CharAt(h, i) == '\r' && CharAt(h, i + 1) == '\n' && CharAt(h, i + 2) != ' ' && CharAt(h, i + 2) != '\t')
  }

  /** The first field end at or after `i` (`FieldEndIsFirst`). */
  function FieldEnd(h: string, i: int): (e: int)
    requires 0 <= i <= |h|
    decreases |h| - i
    ensures i <= e <= |h|
  {
    if IsFieldEnd(h, i) then i else FieldEnd(h, i + 1)
  }

  /** `FieldEnd` is the first field end at or after `start`. */
  lemma {:induction false} FieldEndIsFirst(h: string, start: int, e: int)
    requires 0 <= start <= e <= |h| && IsFieldEnd(h, e)
    requires forall j :: start <= j < e ==> !IsFieldEnd(h, j)
    ensures FieldEnd(h, start) == e
    decreases e - start
  {
    if start < e {
      FieldEndIsFirst(h, start + 1, e);
    }
  }

  /** Repeatedly delete the first CR-LF until none is left
      (`RemoveLineBreaksClean`). */
  function RemoveLineBreaks(s: string): (r: string)
    decreases |s|
    ensures |r| <= |s|
  {
    var k := Find(s, CRLF);
    if k < 0 then s else RemoveLineBreaks(s[..k] + s[k + 2..])
  }

  /** No line break is left. */
  lemma {:induction false} RemoveLineBreaksClean(s: string)
    ensures NoLineBreak(RemoveLineBreaks(s))
    decreases |s|
  {
    var k := Find(s, CRLF);
    if k < 0 {
      FindFirst(s, CRLF);
      NoLineBreakIffNoCRLF(s);
    } else {
      RemoveLineBreaksClean(s[..k] + s[k + 2..]);
    }
  }

  /** Every tab becomes one space (`TabsToSpacesChars`). */
  function TabsToSpaces(s: string): (r: string)
    ensures |r| == |s|
  {
    if s == [] then [] else [if s[0] == '\t' then ' ' else s[0]] + TabsToSpaces(s[1..])
  }

  /** Tabs become spaces and every other character stays. */
  lemma {:induction false} TabsToSpacesChars(s: string)
    ensures forall i :: 0 <= i < |s| ==>
      TabsToSpaces(s)[i] == (if s[i] == '\t' then ' ' else s[i])
  {
    if s != [] {
      TabsToSpacesChars(s[1..]);
      forall i | 1 <= i < |s| ensures TabsToSpaces(s)[i] == (if s[i] == '\t' then ' ' else s[i]) {
        assert TabsToSpaces(s)[i] == TabsToSpaces(s[1..])[i - 1];
      }
    }
  }

  /** No tab is left, and no line break is created. */
  lemma TabsToSpacesClean(s: string)
    ensures '\t' !in TabsToSpaces(s)
    ensures NoLineBreak(s) ==> NoLineBreak(TabsToSpaces(s))
  {
    TabsToSpacesChars(s);
  }

  /** The value of the field whose body starts at `start` in `h`. */
  function FieldValue(h: string, start: int): string
    requires 0 <= start <= |h|
  {
    Trim(TabsToSpaces(RemoveLineBreaks(h[start..FieldEnd(h, start)])))
  }

  /** `GetHeaderItem(name, n)`: the unfolded, tab-free, trimmed body of the
      `n`-th (from 0) field called `name` (any case) that starts a line of
      `header`, or "" when the header has fewer such fields. The header is
      searched with a line break in front so that its first line counts as a
      line start. */
  function HeaderItem(header: string, name: string, n: nat): string
  {
    var h := CRLF + header;
    ItemAt(h, NthFind(Upper(h), FieldPattern(name), 0, n), |name|)
  }

  /** The value of the field whose pattern match is at `pos` (`nameLength`
      being the length of the field name), or "" when there was no match. */
  function ItemAt(h: string, pos: int, nameLength: nat): string
    requires pos < 0 || pos + 3 + nameLength <= |h|
  {
    if pos < 0 then "" else FieldValue(h, pos + 3 + nameLength)
  }

  /** A single line without tabs and without white space at either end. */
  predicate CleanValue(v: string)
  {
    NoLineBreak(v) && '\t' !in v && (|v| > 0 ==> !IsSpace(v[0]) && !IsSpace(v[|v| - 1]))
  }

  /** A trimmed infix of a tab-free string without line breaks has neither. */
  lemma TrimKeeps(t: string)
    requires NoLineBreak(t) && '\t' !in t
    ensures NoLineBreak(Trim(t)) && '\t' !in Trim(t)
  {
    var v := Trim(t);
    var i := |t| - |TrimLeft(t)|;
    TrimSpec(t);
    forall j | 0 <= j < |v| - 1 ensures !(v[j] == '\r' && v[j + 1] == '\n') {
      assert v[j] == t[i + j] && v[j + 1] == t[i + j + 1];
    }
    forall j | 0 <= j < |v| ensures v[j] != '\t' {
      assert v[j] == t[i + j];
    }
  }

  /** Every field value is clean. */
  lemma FieldValueClean(h: string, start: int)
    requires 0 <= start <= |h|
    ensures CleanValue(FieldValue(h, start))
  {
    var y := RemoveLineBreaks(h[start..FieldEnd(h, start)]);
    RemoveLineBreaksClean(h[start..FieldEnd(h, start)]);
    TabsToSpacesClean(y);
    TrimKeeps(TabsToSpaces(y));
    TrimEdges(TabsToSpaces(y));
  }

  lemma ItemAtFound(h: string, pos: int, nameLength: nat)
    requires 0 <= pos && pos + 3 + nameLength <= |h|
    ensures ItemAt(h, pos, nameLength) == FieldValue(h, pos + 3 + nameLength)
  {
  }

  lemma FoundClean(h: string, pos: int, nameLength: nat)
    requires 0 <= pos && pos + 3 + nameLength <= |h|
    ensures CleanValue(ItemAt(h, pos, nameLength))
  {
    FieldValueClean(h, pos + 3 + nameLength);
    ItemAtFound(h, pos, nameLength);
  }

  lemma ItemAtClean(h: string, pos: int, nameLength: nat)
    requires pos < 0 || pos + 3 + nameLength <= |h|
    ensures CleanValue(ItemAt(h, pos, nameLength))
  {
    if pos >= 0 {
      FoundClean(h, pos, nameLength);
    }
  }

  /** Replacing the character at `i` by a space, the way `ReplaceTabs`
      splices it. */
  lemma SpliceSpace(f: string, i: int)
    requires 0 <= i < |f|
    ensures f[..i] + " " + Right(f, |f| - i - 1) == f[i := ' ']
  {
  }
}
