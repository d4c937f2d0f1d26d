/**
 * The scans that `CPop3Connection` runs over a response buffer once
 * `ReadResponse` has succeeded: skipping the status line, reading the
 * numbers of a STAT reply, the sizes of a LIST reply and the unique ids of
 * a UIDL reply. Each works on the raw buffer that `Reader.Raw` describes,
 * and each is related to the server response it reads back.
 */
module Replies {
  import opened Text
  import opened Reader

  /** The terminator of a multi-line response: a line holding one dot. */
  const MultiLineEnd: string := "\r\n.\r\n"

  // ---------------------------------------------------------------------
  // GetFirstCharInResponse

  /** The first line feed or NUL at or after `i` (or the end). */
  function LineStop(s: string, i: nat): (j: nat)
    requires i <= |s|
    decreases |s| - i
    ensures i <= j <= |s|
  {
    if i == |s| || s[i] == '\n' || s[i] == '\0' then i else LineStop(s, i + 1)
  }

  /** `GetFirstCharInResponse`: the index just after the first line feed,
      or of the NUL that ends the text before any line feed. */
  function FirstChar(s: string): (k: nat)
    ensures k <= |s|
  {
    var j := LineStop(s, 0);
    if CharAt(s, j) != '\0' then j + 1 else j
  }

  /** No line feed and no NUL. */
  predicate OneLine(s: string)
  {
    forall i :: 0 <= i < |s| ==> s[i] != '\n' && s[i] != '\0'
  }

  lemma {:induction false} LineStopAt(s: string, i: nat, j: nat)
    requires i <= j < |s| && (s[j] == '\n' || s[j] == '\0')
    requires forall m :: i <= m < j ==> s[m] != '\n' && s[m] != '\0'
    ensures LineStop(s, i) == j
    decreases j - i
  {
    if i < j {
      LineStopAt(s, i + 1, j);
    }
  }

  /** The status line of a response buffer is skipped: the scan starts
      after its line feed, or at the NUL that ends it. */
  lemma FirstCharSkipsStatus(status: string, c: char, tail: string)
    requires OneLine(status) && (c == '\r' || c == '\0')
    ensures FirstChar(status + [c] + "\n" + tail) == if c == '\r' then |status| + 2 else |status|
  {
    var s := status + [c] + "\n" + tail;
    forall m | 0 <= m < |status| ensures s[m] != '\n' && s[m] != '\0' {
      assert s[m] == status[m];
    }
    assert s[|status|] == c && s[|status| + 1] == '\n';
    if c == '\r' {
      LineStopAt(s, 0, |status| + 1);
    } else {
      LineStopAt(s, 0, |status|);
    }
  }

  // ---------------------------------------------------------------------
  // RETR and TOP

  /** The message `ReadReturnResponse` hands over: the C string of the
      buffer from the first character after the status line. */
  function MessageText(raw: string): string
  {
    var t := CStr(raw);
    var k := FirstChar(raw);
    if k <= |t| then t[k..] else []
  }

  lemma {:induction false} LineStopInText(s: string, i: nat)
    requires i <= |CStr(s)|
    ensures LineStop(s, i) <= |CStr(s)|
    decreases |s| - i
  {
    var t := CStr(s);
    if i < |t| {
      assert s[i] == t[i];
      if s[i] != '\n' && s[i] != '\0' {
        LineStopInText(s, i + 1);
      }
    }
  }

  /** The first character after the status line lies within the C string
      of a buffer, so the message is that string's tail. */
  lemma MessageTextIsTail(raw: string)
    ensures FirstChar(raw) <= |CStr(raw)| + 1
    ensures |CStr(raw)| < |raw| ==>
      FirstChar(raw) <= |CStr(raw)| && MessageText(raw) == CStr(raw)[FirstChar(raw)..]
  {
    var t := CStr(raw);
    LineStopInText(raw, 0);
    var j := LineStop(raw, 0);
    if j < |t| {
      assert raw[j] == t[j];
    }
  }

  /** RETR and TOP read back the text between the status line and the
      final line break. */
  lemma MessageRoundTrip(status: string, msg: string)
    requires OneLine(status) && NoNul(msg)
    ensures var got := status + CRLF + msg + MultiLineEnd;
      |got| >= |MultiLineEnd| && MessageText(Raw(got, MultiLineEnd)) == msg &&
      CStr(Raw(got, MultiLineEnd)) == status + CRLF + msg
  {
    var got := status + CRLF + msg + MultiLineEnd;
    var raw := Raw(got, MultiLineEnd);
    var head := status + CRLF + msg;
    assert raw == head + ['\0'] + "\n.\r\n\0";
    assert NoNul(head) by {
      forall m | 0 <= m < |head| ensures head[m] != '\0' {
        if m < |status| {
          assert head[m] == status[m];
        } else if m >= |status| + 2 {
          assert head[m] == msg[m - |status| - 2];
        }
      }
    }
    assert raw[..|head|] == head;
    CStrStops(raw, |head|);
    assert raw == status + ['\r'] + "\n" + (msg + ['\0'] + "\n.\r\n\0");
    FirstCharSkipsStatus(status, '\r', msg + ['\0'] + "\n.\r\n\0");
    assert CStr(raw)[|status| + 2..] == msg;
  }

  // ---------------------------------------------------------------------
  // The text of numbers

  /** A character `%d` can write. */
  predicate NumberChar(c: char)
  {
    IsDigit(c) || c == '-'
  }

  lemma IntToStringChars(n: int)
    ensures forall i :: 0 <= i < |IntToString(n)| ==> NumberChar(IntToString(n)[i])
  {
    if n < 0 {
      var r := IntToString(n);
      forall i | 0 <= i < |r| ensures NumberChar(r[i]) {
        if i > 0 {
          assert r[i] == Decimal(-n)[i - 1];
        }
      }
    }
  }

  /** `atoi` at a blank that precedes a number reads that number. */
  lemma AtoiAfterBlank(b: char, n: int, rest: string)
    requires IsBlank(b) && (rest == [] || !IsDigit(rest[0]))
    ensures Atoi([b] + IntToString(n) + rest) == n
  {
    assert [b] + IntToString(n) + rest == [b] + (IntToString(n) + rest);
    AtoiSkipsSpace([b], IntToString(n) + rest);
    AtoiIntToString(n, rest);
  }

  // ---------------------------------------------------------------------
  // STAT

  /** What the STAT scan found: the mail count and the total size, each
      only when its blank was reached. */
  datatype StatFields = StatFields(mails: Option<int>, total: Option<int>)

  /** The number of spaces and tabs in `s`. */
  function Blanks(s: string): nat
  {
    if s == [] then 0 else (if IsBlank(s[0]) then 1 else 0) + Blanks(s[1..])
  }

  /** The scan of `ReadStatResponse` from index `i`: at the first blank
      `atoi` gives the mail count, at the second the total size, and the
      scan ends there; the end of the text ends it early. */
  function StatScan(s: string, i: nat, mails: Option<int>): (r: StatFields)
    requires i <= |s|
    decreases |s| - i
  {
    if i == |s| then StatFields(mails, None)
    else if IsBlank(s[i]) then
      if mails.None? then StatScan(s, i + 1, Some(Atoi(s[i..])))
      else StatFields(mails, Some(Atoi(s[i..])))
    else StatScan(s, i + 1, mails)
  }

  /** The STAT scan of a reply, from its first character. */
  function Stat(reply: string): StatFields
  {
    StatScan(reply, 0, None)
  }

  lemma BlanksFrom(s: string, i: nat)
    requires i < |s|
    ensures Blanks(s[i..]) == (if IsBlank(s[i]) then 1 else 0) + Blanks(s[i + 1..])
  {
    assert s[i..][1..] == s[i + 1..];
  }

  /** The scan finds the count exactly when the reply has a blank, and
      the size (and so succeeds) exactly when it has two. */
  lemma {:induction false} StatScanFinds(s: string, i: nat, mails: Option<int>)
    requires i <= |s|
    ensures var r := StatScan(s, i, mails);
      (r.mails.Some? <==> mails.Some? || Blanks(s[i..]) >= 1) &&
      (r.total.Some? <==> Blanks(s[i..]) + (if mails.Some? then 1 else 0) >= 2) &&
      (mails.Some? ==> r.mails == mails)
    decreases |s| - i
  {
    if i < |s| {
      BlanksFrom(s, i);
      if IsBlank(s[i]) {
        if mails.None? {
          StatScanFinds(s, i + 1, Some(Atoi(s[i..])));
        }
      } else {
        StatScanFinds(s, i + 1, mails);
      }
    }
  }

  /** Characters without blanks are passed over. */
  lemma {:induction false} StatSkip(s: string, i: nat, j: nat, mails: Option<int>)
    requires i <= j <= |s| && forall m :: i <= m < j ==> !IsBlank(s[m])
    ensures StatScan(s, i, mails) == StatScan(s, j, mails)
    decreases j - i
  {
    if i < j {
      StatSkip(s, i + 1, j, mails);
    }
  }

  /** The first blank and the number after it: the count is taken and
      the scan goes on after the number. */
  lemma StatCount(s: string, i: nat, n: int, rest: string, e: nat)
    requires rest == [] || !IsDigit(rest[0])
    requires i <= |s| && s[i..] == [' '] + IntToString(n) + rest
    requires e == i + 1 + |IntToString(n)|
    ensures e <= |s| && StatScan(s, i, None) == StatScan(s, e, Some(n))
  {
    var a := IntToString(n);
    assert s[i] == s[i..][0] == ' ';
    AtoiAfterBlank(' ', n, rest);
    IntToStringChars(n);
    forall k | i + 1 <= k < e ensures !IsBlank(s[k]) {
      assert s[k] == s[i..][k - i] == a[k - i - 1];
    }
    StatSkip(s, i + 1, e, Some(n));
  }

  /** The second blank and the number after it: the size is taken. */
  lemma StatSize(s: string, i: nat, n: int, m: int, rest: string)
    requires rest == [] || !IsDigit(rest[0])
    requires i <= |s| && s[i..] == [' '] + IntToString(m) + rest
    ensures StatScan(s, i, Some(n)) == StatFields(Some(n), Some(m))
  {
    assert s[i] == s[i..][0] == ' ';
    AtoiAfterBlank(' ', m, rest);
  }

  /** STAT reads back the two numbers of a "+OK count size" reply. */
  lemma StatRoundTrip(n: int, m: int, tail: string)
    requires tail == [] || !IsDigit(tail[0])
    ensures Stat("+OK " + IntToString(n) + " " + IntToString(m) + tail) == StatFields(Some(n), Some(m))
  {
    var a, b := IntToString(n), IntToString(m);
    var s := "+OK " + a + " " + b + tail;
    StatSkip(s, 0, 3, None);
    var u := " " + b + tail;
    StatPieces(a, b, tail);
    var e := 4 + |a|;
    StatCount(s, 3, n, u, e);
    StatSize(s, e, n, m, tail);
  }

  /** Where the two numbers of a "+OK a b" reply sit. */
  lemma StatPieces(a: string, b: string, tail: string)
    ensures var s := "+OK " + a + " " + b + tail;
      s[3..] == [' '] + a + (" " + b + tail) && 4 + |a| <= |s| && s[4 + |a|..] == [' '] + b + tail
  {
    var s := "+OK " + a + " " + b + tail;
    assert s == "+OK" + ([' '] + a + (" " + b + tail));
    DropKnown(s, 0, "+OK", [' '] + a + (" " + b + tail));
    DropKnown(s, 3, [' '] + a, " " + b + tail);
  }

  // ---------------------------------------------------------------------
  // Multi-line responses

  /** The lines of a multi-line response, each ended by CR-LF. */
  function Body(lines: seq<string>): string
  {
    if lines == [] then [] else lines[0] + CRLF + Body(lines[1..])
  }

  /** A multi-line response as the server sends it: the status line, the
      data lines and the line holding one dot. */
  function MultiLine(status: string, lines: seq<string>): string
  {
    status + CRLF + Body(lines) + ".\r\n"
  }

  /** The buffer after `ReadResponse` read `lines` and stripped the
      terminator: the CR of the last line became a NUL, and a NUL follows
      the dot line. */
  function RawTail(lines: seq<string>): string
  {
    if lines == [] then ".\r\n\0"
    else lines[0] + [if |lines| == 1 then '\0' else '\r'] + "\n" + RawTail(lines[1..])
  }

  lemma BodyLength(lines: seq<string>)
    ensures lines != [] ==> |Body(lines) + ".\r\n"| >= 5
  {
  }

  /** Writing into the tail of `p + q` writes into `q`. */
  lemma UpdateInTail(p: string, q: string, k: nat, c: char)
    requires k < |q|
    ensures (p + q)[|p| + k := c] == p + q[k := c]
  {
  }

  lemma {:induction false} RawTailOf(lines: seq<string>)
    requires lines != []
    ensures var z := Body(lines) + ".\r\n";
      |z| >= 5 && z[|z| - 5 := '\0'] + ['\0'] == RawTail(lines)
  {
    var z := Body(lines) + ".\r\n";
    if |lines| == 1 {
      assert lines[1..] == [];
      assert z == lines[0] + "\r\n.\r\n";
      LastLineRaw(lines[0]);
    } else {
      var z' := Body(lines[1..]) + ".\r\n";
      RawTailOf(lines[1..]);
      var head := lines[0] + CRLF;
      assert z == head + z';
      UpdateInTail(head, z', |z'| - 5, '\0');
      assert RawTail(lines) == head + RawTail(lines[1..]);
      assert z[|z| - 5 := '\0'] + ['\0'] == head + (z'[|z'| - 5 := '\0'] + ['\0']);
    }
  }

  /** The last data line: its CR becomes the NUL and a NUL follows the dot
      line. */
  lemma LastLineRaw(line: string)
    ensures var z := line + "\r\n.\r\n";
      z[|z| - 5 := '\0'] + ['\0'] == line + ['\0'] + "\n" + ".\r\n\0"
  {
  }

  /** The buffer a multi-line response leaves. */
  lemma RawMultiLine(status: string, lines: seq<string>)
    ensures var got := MultiLine(status, lines);
      |got| >= |MultiLineEnd| &&
      Raw(got, MultiLineEnd) == status + [if lines == [] then '\0' else '\r'] + "\n" + RawTail(lines)
  {
    var got := MultiLine(status, lines);
    if lines == [] {
      assert got == status + "\r\n.\r\n";
      assert Raw(got, MultiLineEnd) == status + ['\0'] + "\n" + ".\r\n\0";
    } else {
      var z := Body(lines) + ".\r\n";
      RawTailOf(lines);
      assert got == (status + CRLF) + z;
      UpdateInTail(status + CRLF, z, |z| - 5, '\0');
      assert got[|got| - 5 := '\0'] == (status + CRLF) + z[|z| - 5 := '\0'];
    }
  }

  /** The data lines of a LIST or UIDL response: the message number, from
      `k` on, a space and the item. */
  function Numbered(k: nat, items: seq<string>): (lines: seq<string>)
    ensures |lines| == |items|
    decreases |items|
  {
    if items == [] then [] else [Decimal(k) + " " + items[0]] + Numbered(k + 1, items[1..])
  }

  // ---------------------------------------------------------------------
  // LIST

  /** The scan of `ReadListResponse` from index `i`: until a dot (or the
      end of the buffer), one `atoi` value for every space or tab. */
  function ListScan(raw: string, i: nat): seq<int>
    decreases |raw| - i
  {
    if i >= |raw| || raw[i] == '.' then []
    else (if IsBlank(raw[i]) then [Atoi(raw[i..])] else []) + ListScan(raw, i + 1)
  }

  /** The sizes of a LIST response buffer. */
  function ListSizes(raw: string): seq<int>
  {
    ListScan(raw, FirstChar(raw))
  }

  /** Characters that are neither blanks nor dots are passed over. */
  lemma {:induction false} ListSkip(raw: string, i: nat, j: nat)
    requires i <= j <= |raw| && forall m :: i <= m < j ==> raw[m] != '.' && !IsBlank(raw[m])
    ensures ListScan(raw, i) == ListScan(raw, j)
    decreases j - i
  {
    if i < j {
      ListSkip(raw, i + 1, j);
    }
  }

  /** Neither a blank nor a dot. */
  predicate Plain(t: string)
  {
    forall m :: 0 <= m < |t| ==> t[m] != '.' && !IsBlank(t[m])
  }

  /** A plain text at `i`, ending at `e`, is passed over. */
  lemma ListSkipText(raw: string, i: nat, t: string, q: string, e: nat)
    requires Plain(t) && e == i + |t| && e + |q| == |raw| && raw[i..] == t + q
    ensures ListScan(raw, i) == ListScan(raw, e)
  {
    forall m | i <= m < e ensures raw[m] != '.' && !IsBlank(raw[m]) {
      assert raw[m] == raw[i..][m - i] == t[m - i];
    }
    ListSkip(raw, i, e);
  }

  lemma NumberPlain(x: int, c: char)
    requires c == '\r' || c == '\0'
    ensures Plain(IntToString(x) + [c] + "\n")
  {
    IntToStringChars(x);
  }

  /** The size texts of a LIST response. */
  function SizeTexts(sizes: seq<int>): (t: seq<string>)
    ensures |t| == |sizes|
  {
    if sizes == [] then [] else [IntToString(sizes[0])] + SizeTexts(sizes[1..])
  }

  /** A blank before a number: the number is collected. */
  lemma ListAtBlank(raw: string, i: nat, x: int, rest: string)
    requires i < |raw| && raw[i..] == [' '] + IntToString(x) + rest
    requires rest == [] || !IsDigit(rest[0])
    ensures ListScan(raw, i) == [x] + ListScan(raw, i + 1)
  {
    assert raw[i] == raw[i..][0] == ' ';
    AtoiAfterBlank(' ', x, rest);
  }

  /** Dropping a known prefix of a suffix. */
  lemma DropKnown(s: string, i: nat, a: string, r: string)
    requires i <= |s| && s[i..] == a + r
    ensures i + |a| <= |s| && s[i + |a|..] == r
  {
    assert s[i + |a|..] == s[i..][|a|..];
  }

  /** A blank, a size, `c` and a line feed: the size is collected. */
  lemma ListSizeField(raw: string, i: nat, x: int, c: char, q: string, j: nat)
    requires c == '\r' || c == '\0'
    requires i <= |raw| && raw[i..] == [' '] + IntToString(x) + [c] + "\n" + q
    requires j == i + 1 + |IntToString(x)| + 2
    ensures ListScan(raw, i) == [x] + ListScan(raw, j)
  {
    var t := IntToString(x) + [c] + "\n";
    SizeFieldPieces(raw, i, x, c, q, j);
    ListAtBlank(raw, i, x, [c] + "\n" + q);
    NumberPlain(x, c);
    ListSkipText(raw, i + 1, t, q, j);
  }

  /** The regroupings of a size field that `ListSizeField` needs. */
  lemma SizeFieldPieces(raw: string, i: nat, x: int, c: char, q: string, j: nat)
    requires i <= |raw| && raw[i..] == [' '] + IntToString(x) + [c] + "\n" + q
    requires j == i + 1 + |IntToString(x)| + 2
    ensures raw[i..] == [' '] + IntToString(x) + ([c] + "\n" + q)
    ensures i < |raw| && raw[i + 1..] == (IntToString(x) + [c] + "\n") + q
    ensures j + |q| == |raw|
  {
    assert raw[i..] == [' '] + IntToString(x) + ([c] + "\n" + q);
    DropKnown(raw, i, [' '], (IntToString(x) + [c] + "\n") + q);
  }

  /** One line "k size" followed by `c` and a line feed yields its size. */
  lemma ListLine(raw: string, i: nat, k: nat, x: int, c: char, q: string, j: nat)
    requires c == '\r' || c == '\0'
    requires i <= |raw| && raw[i..] == Decimal(k) + " " + IntToString(x) + [c] + "\n" + q
    requires j == i + |Decimal(k)| + 1 + |IntToString(x)| + 2
    ensures ListScan(raw, i) == [x] + ListScan(raw, j)
  {
    var a := Decimal(k);
    var u := [' '] + IntToString(x) + [c] + "\n" + q;
    LinePieces(raw, i, k, x, c, q);
    var i1 := i + |a|;
    ListSkipText(raw, i, a, u, i1);
    ListSizeField(raw, i1, x, c, q, j);
  }

  /** The regroupings of a LIST line that `ListLine` needs. */
  lemma LinePieces(raw: string, i: nat, k: nat, x: int, c: char, q: string)
    requires i <= |raw| && raw[i..] == Decimal(k) + " " + IntToString(x) + [c] + "\n" + q
    ensures raw[i..] == Decimal(k) + ([' '] + IntToString(x) + [c] + "\n" + q)
    ensures i + |Decimal(k)| <= |raw| && raw[i + |Decimal(k)|..] == [' '] + IntToString(x) + [c] + "\n" + q
    ensures i + |Decimal(k)| + |[' '] + IntToString(x) + [c] + "\n" + q| == |raw|
  {
    var u := [' '] + IntToString(x) + [c] + "\n" + q;
    RegroupFront(Decimal(k), " ", IntToString(x), [c], "\n", q);
    DropKnown(raw, i, Decimal(k), u);
  }

  /** A concatenation of six parts with the first split off. */
  lemma RegroupFront<T>(a: seq<T>, b: seq<T>, n: seq<T>, c: seq<T>, d: seq<T>, q: seq<T>)
    ensures a + b + n + c + d + q == a + (b + n + c + d + q)
  {
  }

  lemma {:induction false} ListScanTail(p: string, k: nat, sizes: seq<int>)
    ensures ListScan(p + RawTail(Numbered(k, SizeTexts(sizes))), |p|) == sizes
    decreases |sizes|
  {
    var lines := Numbered(k, SizeTexts(sizes));
    var raw := p + RawTail(lines);
    if sizes == [] {
      assert raw[|p|] == '.';
    } else {
      NumberedHead(k, SizeTexts(sizes));
      var c := if |lines| == 1 then '\0' else '\r';
      var line := Decimal(k) + " " + IntToString(sizes[0]) + [c] + "\n";
      var rest := RawTail(Numbered(k + 1, SizeTexts(sizes[1..])));
      assert RawTail(lines) == line + rest;
      var p' := p + line;
      assert raw == p' + rest;
      assert raw[|p|..] == line + rest;
      var j := |p'|;
      ListLine(raw, |p|, k, sizes[0], c, rest, j);
      ListScanTail(p', k + 1, sizes[1..]);
      ghost var x, xs := sizes[0], sizes[1..];
      assert ListScan(raw, j) == xs;
      assert ListScan(raw, |p|) == [x] + xs;
      assert sizes == [x] + xs;
    }
  }

  /** After the status line the scan reaches the data lines. */
  lemma ListStart(status: string, c: char, tail: string)
    requires OneLine(status) && (c == '\r' || c == '\0')
    ensures var raw := status + [c] + "\n" + tail;
      ListSizes(raw) == ListScan(raw, |status| + 2)
  {
    var raw := status + [c] + "\n" + tail;
    FirstCharSkipsStatus(status, c, tail);
    if c == '\0' {
      assert raw[|status|] == '\0' && raw[|status| + 1] == '\n';
      ListSkipsEmptyLine(raw, |status|);
    }
  }

  /** The NUL that replaced a CR and the line feed after it add nothing to
      the LIST scan. */
  lemma ListSkipsEmptyLine(raw: string, i: nat)
    requires i + 1 < |raw| && raw[i] == '\0' && raw[i + 1] == '\n'
    ensures ListScan(raw, i) == ListScan(raw, i + 2)
  {
    ListSkip(raw, i, i + 2);
  }

  /** LIST reads back the sizes of a response "k size" per line, numbered
      from 1, whatever the status line says. */
  lemma ListRoundTrip(status: string, sizes: seq<int>)
    requires OneLine(status)
    ensures var got := MultiLine(status, Numbered(1, SizeTexts(sizes)));
      |got| >= |MultiLineEnd| && ListSizes(Raw(got, MultiLineEnd)) == sizes
  {
    var lines := Numbered(1, SizeTexts(sizes));
    RawMultiLine(status, lines);
    var c := if lines == [] then '\0' else '\r';
    ListScanTail(status + [c] + "\n", 1, sizes);
    ListStart(status, c, RawTail(lines));
  }

  // ---------------------------------------------------------------------
  // UIDL

  /** The first index at or after `i` that is not white space. */
  function SkipSpace(s: string, i: nat): (j: nat)
    requires i <= |s|
    ensures i <= j <= |s|
    decreases |s| - i
  {
    if i == |s| || !IsSpace(s[i]) then i else SkipSpace(s, i + 1)
  }

  /** The first index at or after `i` that is white space. */
  function SkipWord(s: string, i: nat): (j: nat)
    requires i <= |s|
    ensures i <= j <= |s|
    decreases |s| - i
  {
    if i == |s| || IsSpace(s[i]) then i else SkipWord(s, i + 1)
  }

  /** The second white-space separated word of a line, when it has two:
      what `sscanf(line, "%s %s", msg, id)` stores in `id`. */
  function SecondWord(line: string): Option<string>
  {
    var c := SkipSpace(line, SkipWord(line, SkipSpace(line, 0)));
    if c == |line| then None else Some(line[c..SkipWord(line, c)])
  }

  /** The id buffer after that `sscanf`: the second word, or the buffer's
      old contents `sid` when the line has fewer than two words. */
  function ScanId(line: string, sid: string): string
  {
    match SecondWord(line)
    case Some(id) => id
    case None => sid
  }

  /** A word `%s` reads whole: non-empty, without white space or NUL. */
  predicate IsWord(w: string)
  {
    |w| > 0 && forall m :: 0 <= m < |w| ==> !IsSpace(w[m]) && w[m] != '\0'
  }

  /** A word without a dot. */
  predicate NoDot(w: string)
  {
    forall m :: 0 <= m < |w| ==> w[m] != '.'
  }

  /** The first line feed or dot at or after `i` (or the end): the inner
      UIDL loop as written, which stops at a dot where `LineStop`, the scan
      of `GetFirstCharInResponse`, stops at a NUL. */
  function LineOrDot(raw: string, i: nat): (j: nat)
    requires i <= |raw|
    ensures i <= j <= |raw|
    decreases |raw| - i
  {
    if i == |raw| || raw[i] == '\n' || raw[i] == '.' then i else LineOrDot(raw, i + 1)
  }

  /** The first line feed at or after `i` (or the end). */
  function NextLineFeed(raw: string, i: nat): (j: nat)
    requires i <= |raw|
    ensures i <= j <= |raw|
    decreases |raw| - i
  {
    if i == |raw| || raw[i] == '\n' then i else NextLineFeed(raw, i + 1)
  }

  /** `ReadUIDLResponse` as written, from index `i` with `sid` in the id
      buffer: a line ends at a line feed or at a dot; at a dot the scan goes
      on after it without adding anything; otherwise the line is cut at the
      line feed and the id buffer, as `sscanf` leaves it, is added. */
  function UidlScan(raw: string, i: nat, sid: string): seq<string>
    decreases |raw| - i
  {
    if i >= |raw| || raw[i] == '.' then []
    else
      var j := LineOrDot(raw, i);
      if j == |raw| then []
      else if raw[j] == '.' then UidlScan(raw, j + 1, sid)
      else
        var id := ScanId(CStr(raw[i..j]), sid);
        [id] + UidlScan(raw, j + 1, id)
  }

  /** The UIDL scan as intended: a line ends only at its line feed, and a
      line without two words adds nothing. */
  function UidlIds(raw: string, i: nat): seq<string>
    decreases |raw| - i
  {
    if i >= |raw| || raw[i] == '.' then []
    else
      var j := NextLineFeed(raw, i);
      if j == |raw| then []
      else
        match SecondWord(CStr(raw[i..j]))
        case Some(id) => [id] + UidlIds(raw, j + 1)
        case None => UidlIds(raw, j + 1)
  }

  /** The unique ids of a UIDL response buffer. */
  function UidlList(raw: string): seq<string>
  {
    UidlIds(raw, FirstChar(raw))
  }

  lemma {:induction false} SkipSpaceAt(s: string, i: nat, j: nat)
    requires i <= j <= |s| && forall m :: i <= m < j ==> IsSpace(s[m])
    requires j == |s| || !IsSpace(s[j])
    ensures SkipSpace(s, i) == j
    decreases j - i
  {
    if i < j {
      SkipSpaceAt(s, i + 1, j);
    }
  }

  lemma {:induction false} SkipWordAt(s: string, i: nat, j: nat)
    requires i <= j <= |s| && forall m :: i <= m < j ==> !IsSpace(s[m])
    requires j == |s| || IsSpace(s[j])
    ensures SkipWord(s, i) == j
    decreases j - i
  {
    if i < j {
      SkipWordAt(s, i + 1, j);
    }
  }

  /** A number, a space, a word and trailing white space: the word is the
      second word. */
  lemma SecondWordOf(d: string, id: string, t: string)
    requires IsWord(d) && IsWord(id) && forall m :: 0 <= m < |t| ==> IsSpace(t[m])
    ensures SecondWord(d + " " + id + t) == Some(id)
  {
    var s := d + " " + id + t;
    var e := |d| + 1 + |id|;
    forall m | 0 <= m < |d| ensures !IsSpace(s[m]) {
      assert s[m] == d[m];
    }
    forall m | |d| + 1 <= m < e ensures !IsSpace(s[m]) {
      assert s[m] == id[m - |d| - 1];
    }
    assert e < |s| ==> s[e] == t[0];
    SkipSpaceAt(s, 0, 0);
    SkipWordAt(s, 0, |d|);
    SkipSpaceAt(s, |d|, |d| + 1);
    SkipWordAt(s, |d| + 1, e);
    assert s[|d| + 1..e] == id;
  }

  /** `Decimal` writes a word. */
  lemma DecimalIsWord(k: nat)
    ensures IsWord(Decimal(k)) && NoDot(Decimal(k))
  {
  }

  /** The C string of a data line, cut at the line feed. */
  lemma CStrOfLine(d: string, id: string, c: char)
    requires IsWord(d) && IsWord(id) && (c == '\r' || c == '\0')
    ensures CStr(d + " " + id + [c]) == if c == '\r' then d + " " + id + [c] else d + " " + id
  {
    var w := d + " " + id;
    var s := w + [c];
    forall m | 0 <= m < |w| ensures w[m] != '\0' {
      if m < |d| {
        assert w[m] == d[m];
      } else if m > |d| {
        assert w[m] == id[m - |d| - 1];
      }
    }
    if c == '\r' {
      assert NoNul(s);
      CStrNoNul(s);
    } else {
      assert s[..|w|] == w;
      CStrStops(s, |w|);
    }
  }

  /** No line feed in the first `n` characters after `i`. */
  lemma NoLineFeedIn(raw: string, i: nat, line: string, q: string)
    requires i <= |raw| && raw[i..] == line + q
    requires forall m :: 0 <= m < |line| ==> line[m] != '\n'
    ensures forall m :: i <= m < i + |line| ==> raw[m] != '\n'
  {
    forall m | i <= m < i + |line| ensures raw[m] != '\n' {
      assert raw[m] == raw[i..][m - i] == line[m - i];
    }
  }

  lemma {:induction false} NextLineFeedAt(raw: string, i: nat, j: nat)
    requires i <= j <= |raw| && (j == |raw| || raw[j] == '\n')
    requires forall m :: i <= m < j ==> raw[m] != '\n'
    ensures NextLineFeed(raw, i) == j
    decreases j - i
  {
    if i < j {
      NextLineFeedAt(raw, i + 1, j);
    }
  }

  lemma {:induction false} LineOrDotAt(raw: string, i: nat, j: nat)
    requires i <= j < |raw| && raw[j] == '\n'
    requires forall m :: i <= m < j ==> raw[m] != '\n' && raw[m] != '.'
    ensures LineOrDot(raw, i) == j
    decreases j - i
  {
    if i < j {
      LineOrDotAt(raw, i + 1, j);
    }
  }

  /** What both UIDL scans see of a data line "k id": where it ends and
      the id `sscanf` reads from it. */
  lemma UidlLineFacts(raw: string, i: nat, k: nat, id: string, c: char, q: string, e: nat)
    requires IsWord(id) && (c == '\r' || c == '\0')
    requires i <= |raw| && raw[i..] == Decimal(k) + " " + id + [c] + "\n" + q
    requires e == i + |Decimal(k)| + 1 + |id| + 1
    ensures e < |raw| && raw[i] != '.' && raw[e] == '\n'
    ensures NextLineFeed(raw, i) == e
    ensures NoDot(id) ==> LineOrDot(raw, i) == e
    ensures SecondWord(CStr(raw[i..e])) == Some(id)
  {
    var d := Decimal(k);
    var line := d + " " + id + [c];
    DecimalIsWord(k);
    assert raw[i..] == line + ("\n" + q);
    forall m | 0 <= m < |line| ensures line[m] != '\n' && (NoDot(id) ==> line[m] != '.') {
      if m < |d| {
        assert line[m] == d[m];
      } else if |d| < m < |line| - 1 {
        assert line[m] == id[m - |d| - 1];
      }
    }
    NoLineFeedIn(raw, i, line, "\n" + q);
    DropKnown(raw, i, line, "\n" + q);
    assert raw[e] == raw[e..][0] == '\n';
    assert raw[i] == raw[i..][0] == d[0];
    NextLineFeedAt(raw, i, e);
    if NoDot(id) {
      forall m | i <= m < e ensures raw[m] != '.' {
        assert raw[m] == raw[i..][m - i] == line[m - i];
      }
      LineOrDotAt(raw, i, e);
    }
    assert raw[i..e] == raw[i..][..|line|] == line;
    CStrOfLine(d, id, c);
    SecondWordOf(d, id, if c == '\r' then "\r" else "");
    assert (if c == '\r' then d + " " + id + [c] else d + " " + id) == d + " " + id + (if c == '\r' then "\r" else "");
  }

  /** The ids of a UIDL response, each a word. */
  predicate AllWords(ids: seq<string>)
  {
    forall m :: 0 <= m < |ids| ==> IsWord(ids[m])
  }

  /** A data line "k id" adds its id to the corrected scan. */
  lemma UidlLine(raw: string, i: nat, k: nat, id: string, c: char, q: string, j: nat)
    requires IsWord(id) && (c == '\r' || c == '\0')
    requires i <= |raw| && raw[i..] == Decimal(k) + " " + id + [c] + "\n" + q
    requires j == i + |Decimal(k)| + 1 + |id| + 2
    ensures UidlIds(raw, i) == [id] + UidlIds(raw, j)
  {
    var e := j - 1;
    UidlLineFacts(raw, i, k, id, c, q, e);
    UidlIdsWord(raw, i, e, id);
  }

  /** The ids one line gives the corrected scan: its second word, if any. */
  function LineIds(line: string): seq<string>
  {
    match SecondWord(CStr(line))
    case Some(id) => [id]
    case None => []
  }

  /** One line of the corrected UIDL scan. */
  lemma UidlIdsStep(raw: string, i: nat, e: nat)
    requires i <= e < |raw| && e == NextLineFeed(raw, i) && raw[i] != '.'
    ensures UidlIds(raw, i) == LineIds(raw[i..e]) + UidlIds(raw, e + 1)
  {
    var line := raw[i..e];
    match SecondWord(CStr(line))
    case Some(id) =>
      assert LineIds(line) == [id];
      UidlIdsWord(raw, i, e, id);
    case None =>
      assert LineIds(line) == [];
      UidlIdsBlank(raw, i, e);
  }

  /** A line without a second word adds nothing to the corrected scan. */
  lemma UidlIdsBlank(raw: string, i: nat, e: nat)
    requires i <= e < |raw| && e == NextLineFeed(raw, i) && raw[i] != '.'
    requires SecondWord(CStr(raw[i..e])).None?
    ensures UidlIds(raw, i) == UidlIds(raw, e + 1)
  {
  }

  /** A line whose second word is `id` adds it to the corrected scan. */
  lemma UidlIdsWord(raw: string, i: nat, e: nat, id: string)
    requires i <= e < |raw| && e == NextLineFeed(raw, i) && raw[i] != '.'
    requires SecondWord(CStr(raw[i..e])) == Some(id)
    ensures UidlIds(raw, i) == [id] + UidlIds(raw, e + 1)
  {
    ghost var line := CStr(raw[i..e]);
    assert SecondWord(line) == Some(id);
  }

  lemma NumberedHead(k: nat, items: seq<string>)
    requires items != []
    ensures var lines := Numbered(k, items);
      lines[0] == Decimal(k) + " " + items[0] && lines[1..] == Numbered(k + 1, items[1..])
  {
  }

  lemma {:induction false} UidlIdsTail(p: string, k: nat, ids: seq<string>)
    requires AllWords(ids)
    ensures UidlIds(p + RawTail(Numbered(k, ids)), |p|) == ids
    decreases |ids|
  {
    var lines := Numbered(k, ids);
    var raw := p + RawTail(lines);
    if ids == [] {
      assert raw[|p|] == '.';
    } else {
      NumberedHead(k, ids);
      var id := ids[0];
      var c := if |lines| == 1 then '\0' else '\r';
      var line := Decimal(k) + " " + id + [c] + "\n";
      var rest := RawTail(Numbered(k + 1, ids[1..]));
      assert RawTail(lines) == line + rest;
      var p' := p + line;
      assert raw == p' + rest;
      assert raw[|p|..] == line + rest;
      var j := |p'|;
      UidlLine(raw, |p|, k, id, c, rest, j);
      UidlIdsTail(p', k + 1, ids[1..]);
      ghost var xs := ids[1..];
      assert UidlIds(raw, j) == xs;
      assert ids == [id] + xs;
    }
  }

  /** After the status line the corrected scan reaches the data lines. */
  lemma UidlStart(status: string, c: char, tail: string)
    requires OneLine(status) && (c == '\r' || c == '\0')
    ensures var raw := status + [c] + "\n" + tail;
      UidlList(raw) == UidlIds(raw, |status| + 2)
  {
    var raw := status + [c] + "\n" + tail;
    FirstCharSkipsStatus(status, c, tail);
    if c == '\0' {
      assert raw[|status|] == '\0' && raw[|status| + 1] == '\n';
      UidlSkipsEmptyLine(raw, |status|);
    }
  }

  /** A line holding only the NUL that replaced its CR adds nothing to the
      corrected scan. */
  lemma UidlSkipsEmptyLine(raw: string, i: nat)
    requires i + 1 < |raw| && raw[i] == '\0' && raw[i + 1] == '\n'
    ensures UidlIds(raw, i) == UidlIds(raw, i + 2)
  {
    NextLineFeedAt(raw, i, i + 1);
    assert raw[i..i + 1] == "\0";
    assert CStr(raw[i..i + 1]) == [];
    assert SecondWord([]).None?;
    UidlIdsBlank(raw, i, i + 1);
  }

  /** The corrected UIDL scan reads back the ids of a response "k id" per
      line, numbered from 1, whatever the status line says. */
  lemma UidlRoundTrip(status: string, ids: seq<string>)
    requires OneLine(status) && AllWords(ids)
    ensures var got := MultiLine(status, Numbered(1, ids));
      |got| >= |MultiLineEnd| && UidlList(Raw(got, MultiLineEnd)) == ids
  {
    var lines := Numbered(1, ids);
    RawMultiLine(status, lines);
    var c := if lines == [] then '\0' else '\r';
    UidlIdsTail(status + [c] + "\n", 1, ids);
    UidlStart(status, c, RawTail(lines));
  }

  // The UIDL scan as written

  /** A data line "k id" whose id has no dot adds its id to the scan as
      written, and leaves it in the id buffer. */
  lemma UidlScanLine(raw: string, i: nat, k: nat, id: string, c: char, q: string, j: nat, sid: string)
    requires IsWord(id) && NoDot(id) && (c == '\r' || c == '\0')
    requires i <= |raw| && raw[i..] == Decimal(k) + " " + id + [c] + "\n" + q
    requires j == i + |Decimal(k)| + 1 + |id| + 2
    ensures UidlScan(raw, i, sid) == [id] + UidlScan(raw, j, id)
  {
    var e := j - 1;
    UidlLineFacts(raw, i, k, id, c, q, e);
    UidlScanWord(raw, i, e, id, sid);
  }

  /** A line that ends at a line feed and whose second word is `id` adds it
      to the scan as written. */
  lemma UidlScanWord(raw: string, i: nat, e: nat, id: string, sid: string)
    requires i <= e < |raw| && e == LineOrDot(raw, i) && raw[e] == '\n' && raw[i] != '.'
    requires SecondWord(CStr(raw[i..e])) == Some(id)
    ensures UidlScan(raw, i, sid) == [id] + UidlScan(raw, e + 1, id)
  {
  }

  /** The ids of a UIDL response, none holding a dot. */
  predicate NoDots(ids: seq<string>)
  {
    forall m :: 0 <= m < |ids| ==> NoDot(ids[m])
  }

  lemma {:induction false} UidlScanTail(p: string, k: nat, ids: seq<string>, sid: string)
    requires AllWords(ids) && NoDots(ids)
    ensures UidlScan(p + RawTail(Numbered(k, ids)), |p|, sid) == ids
    decreases |ids|
  {
    var lines := Numbered(k, ids);
    var raw := p + RawTail(lines);
    if ids == [] {
      assert raw[|p|] == '.';
    } else {
      NumberedHead(k, ids);
      var id := ids[0];
      var c := if |lines| == 1 then '\0' else '\r';
      var line := Decimal(k) + " " + id + [c] + "\n";
      var rest := RawTail(Numbered(k + 1, ids[1..]));
      assert RawTail(lines) == line + rest;
      var p' := p + line;
      assert raw == p' + rest;
      assert raw[|p|..] == line + rest;
      var j := |p'|;
      UidlScanLine(raw, |p|, k, id, c, rest, j, sid);
      UidlScanTail(p', k + 1, ids[1..], id);
      ghost var xs := ids[1..];
      assert UidlScan(raw, j, id) == xs;
      assert ids == [id] + xs;
    }
  }

  /** For a mailbox that is not empty and ids without dots, the scan as
      written agrees with the corrected one. */
  lemma UidlAsWrittenAgrees(status: string, ids: seq<string>, sid: string)
    requires OneLine(status) && AllWords(ids) && NoDots(ids) && ids != []
    ensures var got := MultiLine(status, Numbered(1, ids));
      |got| >= |MultiLineEnd| &&
      var raw := Raw(got, MultiLineEnd);
      UidlScan(raw, FirstChar(raw), sid) == ids == UidlList(raw)
  {
    var lines := Numbered(1, ids);
    RawMultiLine(status, lines);
    UidlRoundTrip(status, ids);
    FirstCharSkipsStatus(status, '\r', RawTail(lines));
    UidlScanTail(status + "\r" + "\n", 1, ids, sid);
  }

  /** The UIDL response of an empty mailbox: as written, the scan treats
      the stripped status line end as a line without an id and adds the id
      buffer's stale contents `sid`; the corrected scan adds nothing. */
  lemma UidlEmptyMailbox(status: string, sid: string)
    requires OneLine(status)
    ensures var got := MultiLine(status, []);
      |got| >= |MultiLineEnd| &&
      var raw := Raw(got, MultiLineEnd);
      UidlScan(raw, FirstChar(raw), sid) == [sid] && UidlList(raw) == []
  {
    RawMultiLine(status, []);
    var raw := status + "\0" + "\n" + RawTail([]);
    UidlStart(status, '\0', RawTail([]));
    FirstCharSkipsStatus(status, '\0', RawTail([]));
    var i := |status|;
    assert raw[i] == '\0' && raw[i + 1] == '\n' && raw[i + 2] == '.';
    LineOrDotAt(raw, i, i + 1);
    assert raw[i..i + 1] == "\0";
    assert CStr(raw[i..i + 1]) == [];
  }

  /** The buffer a UIDL response with the one id "a.b" leaves. */
  const DottedRaw: string := "+OK\r\n1 a.b\0\n.\r\n\0"

  lemma DottedResponse()
    ensures var got := MultiLine("+OK", ["1 a.b"]);
      |got| >= |MultiLineEnd| && Raw(got, MultiLineEnd) == DottedRaw
  {
    RawMultiLine("+OK", ["1 a.b"]);
    assert RawTail(["1 a.b"]) == "1 a.b" + ['\0'] + "\n" + ".\r\n\0";
  }

  /** As written, the scan stops the line "1 a.b" at the dot, then reads
      "b" as a line of one word and adds the stale id buffer. */
  lemma DottedScan(sid: string)
    ensures FirstChar(DottedRaw) == 5 && UidlScan(DottedRaw, 5, sid) == [sid]
  {
    var raw := DottedRaw;
    FirstCharSkipsStatus("+OK", '\r', "1 a.b\0\n.\r\n\0");
    assert raw == "+OK" + ['\r'] + "\n" + "1 a.b\0\n.\r\n\0";
    assert raw[8] == '.' && raw[11] == '\n' && raw[12] == '.';
    assert LineOrDot(raw, 5) == 8;
    assert LineOrDot(raw, 9) == 11;
    assert raw[9..11] == "b\0";
    assert CStr(raw[9..11]) == "b";
    assert SecondWord("b") == None;
  }

  /** A unique id holding a dot, as RFC 1939 allows: the scan as written
      loses it, the corrected scan reads it back. */
  lemma UidlDotInId(sid: string)
    ensures var got := MultiLine("+OK", ["1 a.b"]);
      |got| >= |MultiLineEnd| &&
      var raw := Raw(got, MultiLineEnd);
      UidlScan(raw, FirstChar(raw), sid) == [sid] && UidlList(raw) == ["a.b"]
  {
    DottedIdRead();
    DottedResponse();
    DottedScan(sid);
  }

  /** The corrected scan reads "a.b" back. */
  lemma DottedIdRead()
    ensures var got := MultiLine("+OK", ["1 a.b"]);
      |got| >= |MultiLineEnd| && UidlList(Raw(got, MultiLineEnd)) == ["a.b"]
  {
    var ids := ["a.b"];
    assert Decimal(1) == [DigitChar(1)] == "1";
    assert ids[1..] == [];
    assert Numbered(1, ids) == [Decimal(1) + " " + "a.b"] + Numbered(2, []);
    assert Decimal(1) + " " + "a.b" == "1 a.b";
    assert Numbered(1, ids) == ["1 a.b"];
    assert IsWord("a.b");
    UidlRoundTrip("+OK", ids);
  }
}
