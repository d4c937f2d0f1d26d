/**
 * One retrieved mail message (`CPop3Message`): the raw text that RETR or
 * TOP delivered, its header and body, and the header fields it carries.
 */
module Message {
  import opened Text
  import opened Fields

  /** The blank line that ends the header. */
  const Separator: string := "\r\n\r\n"

  // ---------------------------------------------------------------------
  // Header and body

  /** `GetHeader`: the text before the first blank line, or all of it when
      there is none. */
  function Header(text: string): (h: string)
    ensures |h| <= |text| && h == text[..|h|]
    ensures forall j :: 0 <= j < |h| ==> !OccursAt(text, Separator, j)
    ensures h == text || OccursAt(text, Separator, |h|)
    ensures h == text <==> !Contains(text, Separator)
  {
    var k := Find(text, Separator);
    FindFirst(text, Separator);
    if k >= 0 then text[..k] else text
  }

  /** `GetRawBody`: the text strictly after the first blank line, or nothing
      (a NULL pointer) when there is no blank line. */
  function RawBody(text: string): (b: Option<string>)
    ensures b.None? <==> !Contains(text, Separator)
    ensures b.Some? ==> text == Header(text) + Separator + b.value
  {
    var k := Find(text, Separator);
    FindFirst(text, Separator);
    if k >= 0 then
      assert text == text[..k] + text[k..k + 4] + text[k + 4..];
      Some(text[k + 4..])
    else None
  }

  /** `GetBody`: the raw body, or the empty string when there is none. */
  function Body(text: string): (b: string)
    ensures Contains(text, Separator) ==> text == Header(text) + Separator + b
    ensures !Contains(text, Separator) ==> b == "" && Header(text) == text
  {
    match RawBody(text)
    case Some(body) => body
    case None => ""
  }

  // ---------------------------------------------------------------------
  // Header fields

  /** A match of the field pattern leaves room for the pattern. */
  lemma MatchInHeader(header: string, name: string, n: nat)
    ensures var pos := NthFind(Upper(CRLF + header), FieldPattern(name), 0, n);
      pos < 0 || pos + 3 + |name| <= |CRLF + header|
  {
  }

  /** A field value is a single line without tabs or surrounding white
      space. */
  lemma HeaderItemClean(header: string, name: string, n: nat)
    ensures CleanValue(HeaderItem(header, name, n))
  {
    MatchInHeader(header, name, n);
    ItemAtClean(CRLF + header, NthFind(Upper(CRLF + header), FieldPattern(name), 0, n), |name|);
  }

  /** Asking for an occurrence beyond the last one gives the empty string. */
  lemma HeaderItemMissing(header: string, name: string, n: nat)
    requires n >= CountMatches(Upper(CRLF + header), FieldPattern(name), 0)
    ensures HeaderItem(header, name, n) == ""
  {
    NthFindFound(Upper(CRLF + header), FieldPattern(name), 0, n);
  }

  /** `GetReplyTo`: the first non-empty of the Reply-To, From, Sender and
      Return-Path fields. */
  function ReplyTo(text: string): (r: string)
    ensures var h := Header(text);
      r in {HeaderItem(h, "Reply-To", 0), HeaderItem(h, "From", 0), HeaderItem(h, "Sender", 0), HeaderItem(h, "Return-Path", 0)}
    ensures var h := Header(text);
      HeaderItem(h, "Reply-To", 0) != "" ==> r == HeaderItem(h, "Reply-To", 0)
    ensures var h := Header(text);
      HeaderItem(h, "Reply-To", 0) == "" && HeaderItem(h, "From", 0) != "" ==> r == HeaderItem(h, "From", 0)
    ensures var h := Header(text);
      HeaderItem(h, "Reply-To", 0) == "" && HeaderItem(h, "From", 0) == "" && HeaderItem(h, "Sender", 0) != "" ==>
        r == HeaderItem(h, "Sender", 0)
    ensures var h := Header(text);
      HeaderItem(h, "Reply-To", 0) == "" && HeaderItem(h, "From", 0) == "" && HeaderItem(h, "Sender", 0) == "" ==>
        r == HeaderItem(h, "Return-Path", 0)
    ensures var h := Header(text);
      r == "" <==> (HeaderItem(h, "Reply-To", 0) == "" && HeaderItem(h, "From", 0) == "" &&
                    HeaderItem(h, "Sender", 0) == "" && HeaderItem(h, "Return-Path", 0) == "")
  {
    var h := Header(text);
    var replyTo := HeaderItem(h, "Reply-To", 0);
    if replyTo != "" then replyTo
    else
      var from := HeaderItem(h, "From", 0);
      if from != "" then from
      else
        var sender := HeaderItem(h, "Sender", 0);
        if sender != "" then sender else HeaderItem(h, "Return-Path", 0)
  }

  // ---------------------------------------------------------------------
  // The message object

  class Pop3Message {
    /** The raw message text: header, blank line, body. */
    var text: string

    constructor ()
      ensures text == ""
    {
      text := "";
    }

    /** `GetHeaderItem`, step by step as the source does it. */
    method GetHeaderItem(name: string, nItem: nat) returns (field: string)
      ensures field == HeaderItem(Header(text), name, nItem)
    {
      var header := CRLF + Header(text);
      var find := FieldPattern(name);
      var findStart := SearchField(Upper(header), find, nItem);
      MatchInHeader(Header(text), name, nItem);
      if findStart != -1 {
        ItemAtFound(header, findStart, |name|);
        field := ExtractField(header, findStart + 3 + |name|);
      } else {
        field := "";
      }
      assert field == ItemAt(header, findStart, |name|);
    }
  }

  /** The loop of `GetHeaderItem` that skips to the `nItem`-th match of the
      field pattern, cutting the upper-cased header after each match; -1
      as soon as a match is missing. */
  method SearchField(upHeader: string, find: string, nItem: nat) returns (findStart: int)
    requires |find| > 0
    ensures findStart == NthFind(upHeader, find, 0, nItem)
  {
    var rest := upHeader;
    var findLength := |find|;
    findStart := Find(rest, find);
    var nFind := findStart;
    RescanIsNthFind(upHeader, find, findLength, 0, findStart, nFind, rest, nItem);
    var i := 0;
    while i < nItem
      invariant 0 <= i <= nItem
      invariant Rescan(rest, find, findLength, nFind, findStart, nItem - i) == NthFind(upHeader, find, 0, nItem)
    {
      ghost var restBefore, nBefore := rest, nFind;
      rest := Right(rest, |rest| - nFind - findLength);
      nFind := Find(rest, find);
      RescanStep(restBefore, find, findLength, nBefore, findStart, nItem - i, rest, nFind);
      if nFind == -1 {
        return -1;
      }
      findStart := findStart + nFind + findLength;
      i := i + 1;
    }
  }

  /** The part of `GetHeaderItem` that cuts out the field body starting at
      `start` and cleans it up. */
  method ExtractField(header: string, start: int) returns (field: string)
    requires 0 <= start <= |header|
    ensures field == FieldValue(header, start)
  {
    var end := ScanFieldEnd(header, start);
    field := header[start..end];
    field := DeleteLineBreaks(field);
    field := ReplaceTabs(field);
    field := Trim(field);
  }

  /** The do-while scan for the end of the field body. */
  method ScanFieldEnd(h: string, start: int) returns (i: int)
    requires 0 <= start <= |h|
    ensures i == FieldEnd(h, start)
  {
    var foundEnd := false;
    i := start;
    while !foundEnd
      invariant start <= i <= |h|
      invariant forall j :: start <= j < i ==> !IsFieldEnd(h, j)
      invariant foundEnd ==> IsFieldEnd(h, i)
      decreases |h| - i, if foundEnd then 0 else 1
    {
      var c1 := CharAt(h, i);
      var c2 := CharAt(h, i + 1);
      var c3 := CharAt(h, i + 2);
      if c1 == '\0' || (c1 == '\r' && c2 == '\n' && c3 != ' ' && c3 != '\t') {
        foundEnd := true;
      } else {
        i := i + 1;
      }
    }
    FieldEndIsFirst(h, start, i);
  }

  /** The loop that removes embedded CR-LF pairs one at a time. */
  method DeleteLineBreaks(s: string) returns (field: string)
    ensures field == RemoveLineBreaks(s)
  {
    field := s;
    var eol := Find(field, CRLF);
    while eol != -1
      invariant eol == Find(field, CRLF)
      invariant RemoveLineBreaks(field) == RemoveLineBreaks(s)
      decreases |field|
    {
      field := field[..eol] + Right(field, |field| - eol - 2);
      eol := Find(field, CRLF);
    }
  }

  /** The loop that turns embedded tabs into spaces one at a time. */
  method ReplaceTabs(s: string) returns (field: string)
    ensures field == TabsToSpaces(s)
  {
    field := s;
    var tab := Find(field, "\t");
    while tab != -1
      invariant tab == Find(field, "\t")
      invariant |field| == |s|
      invariant forall j :: 0 <= j < |s| ==> field[j] == s[j] || (s[j] == '\t' && field[j] == ' ')
      decreases if tab < 0 then 0 else |field| - tab + 1
    {
      FindChar(field, '\t');
      SpliceSpace(field, tab);
      field := field[..tab] + " " + Right(field, |field| - tab - 1);
      FindChar(field, '\t');
      tab := Find(field, "\t");
    }
    FindChar(field, '\t');
    TabsToSpacesChars(s);
    assert field == TabsToSpaces(s);
  }
}
