/**
 A reader for the header blocks that src/client/multipart.rs prints: the field
 name, the file name, and exactly which names it gets back.
 */
module MultipartFields {
  import opened Wrappers
  import opened Octets
  import opened Sequences
  import opened MultipartText
  import opened Multipart

  /** `extended`: the name came as `name*=`; its text is still percent-encoded. */
  datatype Field = Field(extended: bool, text: Bytes, fileName: Option<Bytes>)

  const START := Ascii("Content-Disposition: form-data; ")
  const EXTENDED := Ascii("name*=utf-8''")
  const PLAIN := Ascii("name=\"")
  const FILENAME := Ascii("; filename=\"")

  /** The name parameter: whether it is extended, its text, and what follows. */
  function ReadName(s: Bytes): Option<(bool, Bytes, Bytes)> {
    if EXTENDED <= s then
      var (text, rest) := ReadToken(s[|EXTENDED|..]);
      Some((true, text, rest))
    else if PLAIN <= s then
      match ReadQuoted(s[|PLAIN|..])
      case None => None
      case Some((text, rest)) => Some((false, text, rest))
    else None
  }

  /** The file name, if there is one, and what follows. */
  function ReadFileName(s: Bytes): Option<(Option<Bytes>, Bytes)> {
    if FILENAME <= s then
      match ReadQuoted(s[|FILENAME|..])
      case None => None
      case Some((f, rest)) => Some((Some(f), rest))
    else Some((None, s))
  }

  /** Both parameters, and what follows. */
  function ReadParameters(s: Bytes): Option<(Field, Bytes)> {
    match ReadName(s)
    case None => None
    case Some((extended, text, rest)) =>
      match ReadFileName(rest)
      case None => None
      case Some((f, lines)) => Some((Field(extended, text, f), lines))
  }

  /** The first line of a header block, and the lines that follow. */
  function ReadDisposition(s: Bytes): Option<(Field, Bytes)> {
    if START <= s then ReadParameters(s[|START|..]) else None
  }

  /** What the block says of the part. */
  function FieldOf(enc: Encoding, p: Part): Field {
    Field(Extended(enc, p), Text(enc, p), p.fileName)
  }

  /** The names that are not damaged by what the encoding leaves alone. */
  predicate NameSurvives(enc: Encoding, p: Part) {
    match enc
    case AttrChar => true
    case PathSegment => if p.owned then SEMICOLON !in p.name else BACKSLASH !in p.name
    case NoOp => BACKSLASH !in p.name && QUOTE !in p.name
  }

  /** What can follow a parameter: another one, another line, or nothing. */
  predicate EndsParameter(rest: Bytes) {
    rest != [] ==> rest[0] == SEMICOLON || rest[0] == CR
  }

  lemma SurvivesIs(enc: Encoding, p: Part)
    ensures NameSurvives(enc, p) <==>
            if Extended(enc, p) then SEMICOLON !in Text(enc, p)
            else BACKSLASH !in Text(enc, p) && QUOTE !in Text(enc, p)
  {
    TextHolds(enc, p.name, SEMICOLON);
    TextHolds(enc, p.name, BACKSLASH);
    TextHolds(enc, p.name, QUOTE);
  }

  lemma NameParameterIs(enc: Encoding, p: Part, rest: Bytes)
    ensures var s := NameParameter(enc, p) + rest;
            if Extended(enc, p) then EXTENDED <= s && s[|EXTENDED|..] == Text(enc, p) + rest
            else !(EXTENDED <= s) && PLAIN <= s && s[|PLAIN|..] == Text(enc, p) + [QUOTE] + rest
  {
    var text := Text(enc, p);
    if Extended(enc, p) {
      Associate(EXTENDED, text, rest);
      Prefixed(EXTENDED, text + rest);
    } else {
      Associate(PLAIN, text, [QUOTE]);
      Associate(PLAIN, text + [QUOTE], rest);
      Prefixed(PLAIN, text + [QUOTE] + rest);
      DifferAt(PLAIN, text + [QUOTE] + rest, EXTENDED, 4);
    }
  }

  lemma Prefixed(a: Bytes, b: Bytes)
    ensures a <= a + b && (a + b)[|a|..] == b
  {
  }

  lemma DifferAt(a: Bytes, b: Bytes, c: Bytes, i: nat)
    requires i < |a| && i < |c| && a[i] != c[i]
    ensures !(c <= a + b)
  {
  }

  /** The name is read back, up to the end of its parameter, exactly when it survives. */
  lemma NameReadsBackIff(enc: Encoding, p: Part, rest: Bytes)
    requires EndsParameter(rest)
    ensures ReadName(NameParameter(enc, p) + rest) == Some((Extended(enc, p), Text(enc, p), rest)) <==>
            NameSurvives(enc, p)
  {
    NameParameterIs(enc, p, rest);
    SurvivesIs(enc, p);
    if Extended(enc, p) {
      NameReadsBack(enc, p.name);
      TokenReadsBackIff(Text(enc, p), rest);
    } else {
      QuotedReadsBackIff(Text(enc, p), rest);
    }
  }

  /** The file name is always read back. */
  lemma FileNameParameterReadsBack(p: Part, lines: Bytes)
    requires lines != [] ==> lines[0] == CR
    ensures ReadFileName(FileNameParameter(p) + lines) == Some((p.fileName, lines))
    ensures EndsParameter(FileNameParameter(p) + lines)
  {
    assert FILENAME[0] == SEMICOLON;
    if p.fileName.Some? {
      var raw := LegalFileName(p.fileName.value);
      FourReplacesAreOnePass(p.fileName.value);
      FileNameParameterIs(p, lines);
      Prefixed(FILENAME, raw + [QUOTE] + lines);
      FileNameReadsBack(p.fileName.value, lines);
    } else {
      assert FileNameParameter(p) + lines == lines;
    }
  }

  /** What a parameter with a quoted value begins with: its first byte does not come again, and a bare quote ends it. */
  ghost predicate StartsParameter(start: Bytes) {
    && |start| >= 2 && start[|start| - 1] == QUOTE && start[|start| - 2] != BACKSLASH
    && forall i :: 0 < i < |start| ==> start[i] != start[0]
  }

  /** A parameter does not begin again inside itself. */
  lemma ParameterStartsOnce(start: Bytes, f: Bytes, lines: Bytes, k: nat)
    requires StartsParameter(start)
    requires var s := start + (Escape(f) + [QUOTE] + lines); 0 < k <= |s| && start <= s[k..]
    ensures k > |Escape(f)|
  {
    var e, n := Escape(f), |start|;
    var tail := e + [QUOTE] + lines;
    Within(start, tail, start, k, 0);
    if n <= k <= |e| {
      Within(start, tail, start, k, n - 1);
      Within(start, tail, start, k, n - 2);
      QuotesAreEscaped(f, k - 1);
    }
  }

  /** The byte at place `i` of a text that begins at `k` in a longer one. */
  lemma Within(a: Bytes, b: Bytes, c: Bytes, k: nat, i: nat)
    requires k <= |a + b| && c <= (a + b)[k..] && i < |c|
    ensures k + i < |a + b| && c[i] == if k + i < |a| then a[k + i] else b[k + i - |a|]
  {
    assert c[i] == (a + b)[k..][i] == (a + b)[k + i];
  }

  /** Read from a later point, behind another start of the parameter, it does not give the same. */
  lemma LaterParameterDiffers(start: Bytes, f: Bytes, lines: Bytes, later: Bytes)
    requires StartsParameter(start) && start <= later
    requires var s := start + (Escape(f) + [QUOTE] + lines); |later| < |s| && later == s[|s| - |later|..]
    ensures ReadQuoted(later[|start|..]) != Some((f, lines))
  {
    ParameterStartsOnce(start, f, lines, |start + (Escape(f) + [QUOTE] + lines)| - |later|);
    if ReadQuoted(later[|start|..]).Some? {
      ReadQuotedIs(later[|start|..]);
    }
  }

  lemma FileNameStartsParameter()
    ensures StartsParameter(FILENAME)
  {
  }

  lemma FileNameParameterIs(p: Part, lines: Bytes)
    requires p.fileName.Some?
    ensures FileNameParameter(p) + lines == FILENAME + (Escape(p.fileName.value) + [QUOTE] + lines)
  {
    FourReplacesAreOnePass(p.fileName.value);
    var e := Escape(p.fileName.value);
    Associate(FILENAME, e, [QUOTE]);
    Associate(FILENAME, e + [QUOTE], lines);
  }

  lemma ReadFileNameIs(s: Bytes, f: Bytes, lines: Bytes)
    requires ReadFileName(s) == Some((Some(f), lines))
    ensures FILENAME <= s && ReadQuoted(s[|FILENAME|..]) == Some((f, lines))
  {
  }

  /** Read from a later point, the parameter does not give the same file name and end at the same place. */
  lemma LaterReadDiffers(p: Part, lines: Bytes, later: Bytes)
    requires var s := FileNameParameter(p) + lines; |later| < |s| && later == s[|s| - |later|..]
    ensures ReadFileName(later) != Some((p.fileName, lines))
  {
    if ReadFileName(later) == Some((p.fileName, lines)) {
      if p.fileName.Some? {
        ReadFileNameIs(later, p.fileName.value, lines);
        FileNameParameterIs(p, lines);
        FileNameStartsParameter();
        LaterParameterDiffers(FILENAME, p.fileName.value, lines, later);
      }
    }
  }

  /** The rest of a header block, behind the disposition line. */
  function OtherLines(p: Part): Bytes {
    MimeLine(p) + HeaderLines(p.headers)
  }

  lemma {:induction false} HeaderLinesStart(headers: seq<(Bytes, Bytes)>)
    ensures HeaderLines(headers) != [] ==> HeaderLines(headers)[0] == CR
  {
    if headers == [] {
    } else {
      HeaderLinesStart(headers[..|headers| - 1]);
    }
  }

  lemma Regrouped(a: Bytes, n: Bytes, f: Bytes, m: Bytes, h: Bytes)
    ensures a + n + f + m + h == a + (n + (f + (m + h)))
  {
  }

  lemma BlockIs(enc: Encoding, p: Part)
    ensures var tail := NameParameter(enc, p) + (FileNameParameter(p) + OtherLines(p));
            && EncodeHeaders(enc, p) == START + tail && START <= EncodeHeaders(enc, p)
            && EncodeHeaders(enc, p)[|START|..] == tail
    ensures OtherLines(p) != [] ==> OtherLines(p)[0] == CR
  {
    HeaderLinesStart(p.headers);
    Regrouped(START, NameParameter(enc, p), FileNameParameter(p), MimeLine(p), HeaderLines(p.headers));
  }

  /** An extended name that is read as it was printed ends where it should. */
  lemma ExtendedMisreadShows(text: Bytes, rest: Bytes)
    requires ReadToken(text + rest).0 == text
    ensures ReadToken(text + rest) == (text, rest)
  {
    ReadTokenIs(text + rest);
    Prefixed(text, rest);
    Prefixed(text, ReadToken(text + rest).1);
  }

  /** What is left behind a name that reads as it was printed although it does not survive. */
  lemma MisreadNameGoesOn(enc: Encoding, p: Part, rest: Bytes)
    requires !NameSurvives(enc, p) && EndsParameter(rest)
    requires var r := ReadName(NameParameter(enc, p) + rest);
             r.Some? && r.value.0 == Extended(enc, p) && r.value.1 == Text(enc, p)
    ensures var later := ReadName(NameParameter(enc, p) + rest).value.2;
            |later| < |rest| && later == rest[|rest| - |later|..]
  {
    NameReadsBackIff(enc, p, rest);
    NameParameterIs(enc, p, rest);
    if Extended(enc, p) {
      ExtendedMisreadShows(Text(enc, p), rest);
    } else {
      SurvivesIs(enc, p);
      MisreadGoesOn(Text(enc, p), rest);
    }
  }

  lemma ParametersReadBackIff(enc: Encoding, p: Part, lines: Bytes)
    requires lines != [] ==> lines[0] == CR
    ensures NameSurvives(enc, p) <==>
            ReadParameters(NameParameter(enc, p) + (FileNameParameter(p) + lines)) == Some((FieldOf(enc, p), lines))
  {
    var rest := FileNameParameter(p) + lines;
    FileNameParameterReadsBack(p, lines);
    NameReadsBackIff(enc, p, rest);
    var r := ReadName(NameParameter(enc, p) + rest);
    if !NameSurvives(enc, p) && r.Some? && r.value.0 == Extended(enc, p) && r.value.1 == Text(enc, p) {
      MisreadNameGoesOn(enc, p, rest);
      LaterReadDiffers(p, lines, r.value.2);
    }
  }

  /** A printed block gives back the field name and the file name, and ends where the line does, exactly when the
      name survives: always with the AttrChar set, and otherwise unless it has a character that is special to the
      reader and not encoded. */
  lemma DispositionReadsBackIff(enc: Encoding, p: Part)
    ensures ReadDisposition(EncodeHeaders(enc, p)) == Some((FieldOf(enc, p), OtherLines(p))) <==> NameSurvives(enc, p)
  {
    BlockIs(enc, p);
    ParametersReadBackIff(enc, p, OtherLines(p));
  }

  // ----- The other lines -----

  /** A header name and its value. */
  type Header = (Bytes, Bytes)

  const COLON: Byte := 58
  const SEPARATOR: Bytes := [58, 32]

  /** A line cut at its first colon with a space behind it. */
  function ReadLine(line: Bytes): Option<Header> {
    match Find(line, SEPARATOR)
    case None => None
    case Some(i) =>
      FindIsFirst(line, SEPARATOR);
      Some((line[..i], line[i + 2..]))
  }

  /** Where the line at the start of the text ends. */
  function LineEnd(s: Bytes): (n: nat)
    ensures n <= |s|
  {
    match Find(s, CRLF)
    case None => |s|
    case Some(i) => FindIsFirst(s, CRLF); i
  }

  /** Lines that each come behind a line end. */
  function ReadLines(s: Bytes): Option<seq<Header>>
    decreases |s|
  {
    if s == [] then Some([])
    else if !(CRLF <= s) then None
    else
      var n := LineEnd(s[2..]);
      match ReadLine(s[2..][..n])
      case None => None
      case Some(h) =>
        match ReadLines(s[2..][n..])
        case None => None
        case Some(more) => Some([h] + more)
  }

  /** The headers of a part behind its disposition, as the reader should see them. */
  function OtherHeaders(p: Part): seq<Header> {
    (if p.mime.Some? then [(Ascii("Content-Type"), p.mime.value)] else []) + p.headers
  }

  /** A header name has no colon in it; its type sees to that. */
  predicate NamesHaveNoColon(p: Part) {
    forall i :: 0 <= i < |p.headers| ==> COLON !in p.headers[i].0
  }

  lemma SeparatorIs(s: Bytes, i: nat)
    ensures Occurs(s, SEPARATOR, i) <==> i + 2 <= |s| && s[i] == COLON && s[i + 1] == 32
  {
    if i + 2 <= |s| {
      assert s[i..i + 2] == [s[i], s[i + 1]];
    }
  }

  lemma LineReadsBack(h: Header)
    requires COLON !in h.0
    ensures ReadLine(h.0 + SEPARATOR + h.1) == Some(h)
  {
    var line := h.0 + SEPARATOR + h.1;
    forall i: nat | i < |h.0| ensures !Occurs(line, SEPARATOR, i) && !Occurs(h.0, SEPARATOR, i) {
      SeparatorIs(line, i);
      SeparatorIs(h.0, i);
      assert line[i] == h.0[i] && h.0[i] in h.0;
    }
    forall i: nat ensures !Occurs(h.0, SEPARATOR, i) { SeparatorIs(h.0, i); }
    FindAfter(h.0, SEPARATOR, h.1);
    assert line[..|h.0|] == h.0 && line[|h.0| + 2..] == h.1;
  }

  lemma BreakIs(s: Bytes, i: nat)
    ensures Occurs(s, CRLF, i) <==> i + 2 <= |s| && s[i] == CR && s[i + 1] == LF
  {
    if i + 2 <= |s| {
      assert s[i..i + 2] == [s[i], s[i + 1]];
    }
  }

  lemma LineEndIs(line: Bytes, rest: Bytes)
    requires NoBreak(line) && (rest != [] ==> CRLF <= rest)
    ensures LineEnd(line + rest) == |line|
  {
    var s := line + rest;
    forall i: nat ensures i < |line| ==> !Occurs(s, CRLF, i) { BreakIs(s, i); }
    BreakIs(s, |line|);
    FindIsFirst(s, CRLF);
    if rest != [] {
      assert Occurs(s, CRLF, |line|);
    } else {
      forall i: nat ensures !Occurs(s, CRLF, i) { BreakIs(s, i); }
    }
  }

  lemma OneHeaderLine(h: Header)
    ensures HeaderLines([h]) == CRLF + HeaderLine(h) + HeaderLines([])
  {
    assert [h][..0] == [];
    assert [] + (CRLF + HeaderLine(h)) == CRLF + HeaderLine(h) + [];
  }

  /** The printed lines, first line first. */
  lemma {:induction false} HeaderLinesAhead(h: Header, hs: seq<Header>)
    ensures HeaderLines([h] + hs) == CRLF + HeaderLine(h) + HeaderLines(hs)
  {
    if hs == [] {
      assert [h] + hs == [h];
      OneHeaderLine(h);
    } else {
      var before := hs[..|hs| - 1];
      HeaderLinesAhead(h, before);
      assert ([h] + hs)[..|hs|] == [h] + before;
      Associate(CRLF + HeaderLine(h), HeaderLines(before), CRLF + HeaderLine(hs[|hs| - 1]));
    }
  }

  lemma HeaderLineIs(h: Header)
    ensures HeaderLine(h) == h.0 + SEPARATOR + h.1
  {
    assert Ascii(": ") == SEPARATOR;
  }

  lemma Cut(line: Bytes, tail: Bytes)
    ensures var s := CRLF + line + tail;
            CRLF <= s && s[2..] == line + tail && s[2..][..|line|] == line && s[2..][|line|..] == tail
  {
  }

  lemma FirstLineIsRead(h: Header, tail: Bytes)
    requires COLON !in h.0 && NoBreak(HeaderLine(h)) && (tail != [] ==> CRLF <= tail) && ReadLines(tail).Some?
    ensures ReadLines(CRLF + HeaderLine(h) + tail) == Some([h] + ReadLines(tail).value)
  {
    Cut(HeaderLine(h), tail);
    LineEndIs(HeaderLine(h), tail);
    HeaderLineIs(h);
    LineReadsBack(h);
  }

  lemma {:induction false} LinesReadBack(hs: seq<Header>)
    requires forall i :: 0 <= i < |hs| ==> COLON !in hs[i].0 && NoBreak(hs[i].0) && NoBreak(hs[i].1)
    ensures ReadLines(HeaderLines(hs)) == Some(hs)
  {
    if hs == [] {
    } else {
      LinesReadBack(hs[1..]);
      LinesBegin(hs[1..]);
      FirstLineIsRead(hs[0], HeaderLines(hs[1..]));
      HeaderLinesAhead(hs[0], hs[1..]);
      assert hs == [hs[0]] + hs[1..];
    }
  }

  lemma LinesBegin(hs: seq<Header>)
    ensures HeaderLines(hs) != [] ==> CRLF <= HeaderLines(hs)
  {
    if hs != [] {
      HeaderLinesAhead(hs[0], hs[1..]);
      assert hs == [hs[0]] + hs[1..];
    }
  }

  lemma ReadLineIs(line: Bytes)
    requires ReadLine(line).Some?
    ensures var h := ReadLine(line).value; line == h.0 + SEPARATOR + h.1
  {
    FindIsFirst(line, SEPARATOR);
    var i := Find(line, SEPARATOR).value;
    assert line == line[..i] + line[i..i + 2] + line[i + 2..];
  }

  lemma CutBack(s: Bytes, n: nat)
    requires CRLF <= s && n <= |s[2..]|
    ensures CRLF + s[2..][..n] + s[2..][n..] == s
  {
  }

  /** What is read, printed again, is the text: two texts are not read as the same headers. */
  lemma {:induction false} LinesPrintBack(s: Bytes)
    requires ReadLines(s).Some?
    ensures HeaderLines(ReadLines(s).value) == s
    decreases |s|
  {
    if s == [] {
    } else {
      var n := LineEnd(s[2..]);
      var line, tail := s[2..][..n], s[2..][n..];
      LinesPrintBack(tail);
      PrintFirstLine(line, tail);
      CutBack(s, n);
    }
  }

  lemma PrintFirstLine(line: Bytes, tail: Bytes)
    requires ReadLine(line).Some? && ReadLines(tail).Some?
    ensures HeaderLines([ReadLine(line).value] + ReadLines(tail).value)
            == CRLF + line + HeaderLines(ReadLines(tail).value)
  {
    ReadLineIs(line);
    HeaderLineIs(ReadLine(line).value);
    HeaderLinesAhead(ReadLine(line).value, ReadLines(tail).value);
  }

  /** The lines behind the disposition are the printed headers, Content-Type first. */
  lemma OtherLinesAre(p: Part)
    ensures OtherLines(p) == HeaderLines(OtherHeaders(p))
  {
    if p.mime.Some? {
      HeaderLinesAhead((Ascii("Content-Type"), p.mime.value), p.headers);
      assert Ascii("Content-Type: ") == Ascii("Content-Type") + Ascii(": ");
      Associate(Ascii("Content-Type"), Ascii(": "), p.mime.value);
    } else {
      assert OtherHeaders(p) == p.headers && OtherLines(p) == HeaderLines(p.headers);
    }
  }

  lemma ContentTypeIsClean()
    ensures COLON !in Ascii("Content-Type") && NoBreak(Ascii("Content-Type"))
  {
    var name := Ascii("Content-Type");
    forall i | 0 <= i < |name| ensures name[i] != COLON {}
  }

  lemma OtherHeadersAreClean(p: Part)
    requires WellFormed(p) && NamesHaveNoColon(p)
    ensures var hs := OtherHeaders(p);
            forall i :: 0 <= i < |hs| ==> COLON !in hs[i].0 && NoBreak(hs[i].0) && NoBreak(hs[i].1)
  {
    ContentTypeIsClean();
    var hs := OtherHeaders(p);
    var n := if p.mime.Some? then 1 else 0;
    forall i | n <= i < |hs| ensures hs[i] == p.headers[i - n] {}
  }

  /** The headers of every part are read back, in order, and from no other text. */
  lemma HeadersReadBackIff(p: Part, lines: Bytes)
    requires WellFormed(p) && NamesHaveNoColon(p)
    ensures ReadLines(lines) == Some(OtherHeaders(p)) <==> lines == OtherLines(p)
  {
    OtherLinesAre(p);
    OtherHeadersAreClean(p);
    LinesReadBack(OtherHeaders(p));
    if ReadLines(lines) == Some(OtherHeaders(p)) {
      LinesPrintBack(lines);
    }
  }

  // ----- Whole forms -----

  /** All that a reader gets of a field: its name and file name, its other headers in order, and its value. */
  datatype Entry = Entry(field: Field, headers: seq<Header>, value: Bytes)

  function ReadEntry(q: Section): Option<Entry> {
    match ReadDisposition(q.0)
    case None => None
    case Some((field, lines)) =>
      match ReadLines(lines)
      case None => None
      case Some(headers) => Some(Entry(field, headers, q.1))
  }

  function ReadEntries(qs: seq<Section>): (r: Option<seq<Entry>>)
    ensures r.Some? ==> |r.value| == |qs|
    ensures r.Some? <==> forall i :: 0 <= i < |qs| ==> ReadEntry(qs[i]).Some?
    ensures r.Some? ==> forall i :: 0 <= i < |qs| ==> ReadEntry(qs[i]) == Some(r.value[i])
  {
    if qs == [] then Some([])
    else
      match (ReadEntry(qs[0]), ReadEntries(qs[1..]))
      case (Some(e), Some(es)) => Some([e] + es)
      case _ => None
  }

  /** A body read as a form. */
  function ReadForm(boundary: Bytes, s: Bytes): Option<seq<Entry>> {
    match Read(boundary, s)
    case None => None
    case Some(qs) => ReadEntries(qs)
  }

  function EntryOf(enc: Encoding, p: Part): Entry {
    Entry(FieldOf(enc, p), OtherHeaders(p), p.value)
  }

  function EntriesOf(enc: Encoding, parts: seq<Part>): (es: seq<Entry>)
    ensures |es| == |parts| && forall i :: 0 <= i < |parts| ==> es[i] == EntryOf(enc, parts[i])
  {
    if parts == [] then [] else [EntryOf(enc, parts[0])] + EntriesOf(enc, parts[1..])
  }

  /** In a block the raw name stands behind these many bytes. */
  lemma RawNameStandsAt(p: Part, i: nat)
    requires Occurs(p.name, BLANK, i)
    ensures Occurs(EncodeHeaders(NoOp, p), BLANK, |START| + |PLAIN| + i)
  {
    var block := EncodeHeaders(NoOp, p);
    var rest := FileNameParameter(p) + OtherLines(p);
    BlockIs(NoOp, p);
    NameParameterIs(NoOp, p, rest);
    OccursInLonger(p.name, [QUOTE], BLANK, i);
    OccursInLonger(p.name + [QUOTE], rest, BLANK, i);
    OccursBehind(NameParameter(NoOp, p) + rest, |PLAIN|, BLANK, i);
    OccursBehind(block, |START|, BLANK, |PLAIN| + i);
  }

  lemma OccursBehind(s: Bytes, n: nat, pat: Bytes, i: nat)
    requires n <= |s| && Occurs(s[n..], pat, i)
    ensures Occurs(s, pat, n + i)
  {
    assert s[n..][i..i + |pat|] == s[n + i..n + i + |pat|];
  }

  /** What a block is read as has no longer a name than there is text for one. */
  lemma NameFits(block: Bytes)
    requires ReadDisposition(block).Some? && !ReadDisposition(block).value.0.extended
    ensures |START| + |PLAIN| + |ReadDisposition(block).value.0.text| < |block|
  {
    ReadQuotedIs(block[|START|..][|PLAIN|..]);
  }

  /** A misread section does not pass for the field that was printed. */
  lemma MisreadShows(enc: Encoding, p: Part, q: Section)
    requires WellFormed(p) && Misread(SectionOf(enc, p), q)
    ensures ReadEntry(q) != Some(EntryOf(enc, p))
  {
    BlockIsClean(enc, p);
    if ReadEntry(q).Some? && !ReadEntry(q).value.field.extended {
      NameFits(q.0);
      if enc.NoOp? && Contains(p.name, BLANK) {
        var i: nat :| Occurs(p.name, BLANK, i);
        RawNameStandsAt(p, i);
      }
    }
  }

  ghost predicate Printable(boundary: Bytes, enc: Encoding, p: Part) {
    && NameSurvives(enc, p)
    && !Contains(p.value, Delimiter(boundary))
    && !(enc.NoOp? && Contains(p.name, BLANK))
  }

  /** A whole form, printed and read, gives back its fields in order, each with its name, file name, other headers and
      value, exactly when every name survives, no value holds the delimiter and no raw name holds a blank line. */
  lemma {:induction false} FieldsReadBackIff(boundary: Bytes, enc: Encoding, parts: seq<Part>)
    requires NoCr(boundary) && forall i :: 0 <= i < |parts| ==> WellFormed(parts[i]) && NamesHaveNoColon(parts[i])
    ensures ReadForm(boundary, Print(boundary, Sections(enc, parts))) == Some(EntriesOf(enc, parts)) <==>
            forall i :: 0 <= i < |parts| ==> Printable(boundary, enc, parts[i])
  {
    var ps, es := Sections(enc, parts), EntriesOf(enc, parts);
    FormReadsBackIff(boundary, enc, parts);
    EachEntryReadsBackIff(enc, parts);
    EntriesReadBackIff(ps, es);
    if ReadForm(boundary, Print(boundary, ps)) == Some(es) {
      FieldsComeFromSections(boundary, enc, parts);
    }
  }

  lemma EntriesReadBackIff(ps: seq<Section>, es: seq<Entry>)
    requires |ps| == |es|
    ensures ReadEntries(ps) == Some(es) <==> forall i :: 0 <= i < |ps| ==> ReadEntry(ps[i]) == Some(es[i])
  {
    var r := ReadEntries(ps);
    if forall i :: 0 <= i < |ps| ==> ReadEntry(ps[i]) == Some(es[i]) {
      assert r.Some? && forall i :: 0 <= i < |ps| ==> r.value[i] == es[i];
      assert r.value == es;
    }
  }

  lemma EachEntryReadsBackIff(enc: Encoding, parts: seq<Part>)
    requires forall i :: 0 <= i < |parts| ==> WellFormed(parts[i]) && NamesHaveNoColon(parts[i])
    ensures var ps, es := Sections(enc, parts), EntriesOf(enc, parts);
            forall i :: 0 <= i < |parts| ==> (ReadEntry(ps[i]) == Some(es[i]) <==> NameSurvives(enc, parts[i]))
  {
    var ps, es := Sections(enc, parts), EntriesOf(enc, parts);
    forall i | 0 <= i < |parts| ensures ReadEntry(ps[i]) == Some(es[i]) <==> NameSurvives(enc, parts[i]) {
      EntryReadsBackIff(enc, parts[i]);
    }
  }

  lemma EntryReadsBackIff(enc: Encoding, p: Part)
    requires WellFormed(p) && NamesHaveNoColon(p)
    ensures ReadEntry(SectionOf(enc, p)) == Some(EntryOf(enc, p)) <==> NameSurvives(enc, p)
  {
    DispositionReadsBackIff(enc, p);
    var r := ReadDisposition(EncodeHeaders(enc, p));
    if r.Some? {
      HeadersReadBackIff(p, r.value.1);
    }
  }

  /** The right fields are read only from the right sections. */
  lemma FieldsComeFromSections(boundary: Bytes, enc: Encoding, parts: seq<Part>)
    requires NoCr(boundary) && forall i :: 0 <= i < |parts| ==> WellFormed(parts[i])
    requires ReadForm(boundary, Print(boundary, Sections(enc, parts))) == Some(EntriesOf(enc, parts))
    ensures Read(boundary, Print(boundary, Sections(enc, parts))) == Some(Sections(enc, parts))
  {
    var ps, es := Sections(enc, parts), EntriesOf(enc, parts);
    var r := Read(boundary, Print(boundary, ps));
    forall i | 0 <= i < |parts| ensures EndsClean(ps[i].0) { BlockIsClean(enc, parts[i]); }
    forall i | 0 <= i < |ps| ensures !Misread(ps[i], r.value[i]) {
      if Misread(ps[i], r.value[i]) {
        MisreadShows(enc, parts[i], r.value[i]);
      }
    }
    SectionsReadOrMisread(boundary, ps);
  }

  function Decoded(enc: Encoding, text: Bytes): Bytes {
    if enc.NoOp? then text else PercentDecode(text)
  }

  /** And the text of a name that is read back decodes to the name. */
  lemma NamesDecode(boundary: Bytes, enc: Encoding, parts: seq<Part>, i: nat)
    requires NoCr(boundary) && i < |parts|
    requires forall j :: 0 <= j < |parts| ==> WellFormed(parts[j]) && NamesHaveNoColon(parts[j])
    requires forall j :: 0 <= j < |parts| ==> Printable(boundary, enc, parts[j])
    ensures var r := ReadForm(boundary, Print(boundary, Sections(enc, parts)));
            && r.Some? && |r.value| == |parts|
            && Decoded(enc, r.value[i].field.text) == parts[i].name
            && r.value[i].field.fileName == parts[i].fileName && r.value[i].value == parts[i].value
  {
    FieldsReadBackIff(boundary, enc, parts);
    if !enc.NoOp? {
      NameReadsBack(enc, parts[i].name);
    }
  }

  /** In terms of the name alone: under the default set every name without backslash and semicolon is read back,
      whichever form its parameter takes, and every other name is lost in one of the two forms. */
  lemma PlainNamesSurvive(p: Part)
    ensures (forall owned :: ReadDisposition(EncodeHeaders(PathSegment, p.(owned := owned)))
                             == Some((FieldOf(PathSegment, p.(owned := owned)), OtherLines(p)))) <==>
            BACKSLASH !in p.name && SEMICOLON !in p.name
  {
    DispositionReadsBackIff(PathSegment, p.(owned := true));
    DispositionReadsBackIff(PathSegment, p.(owned := false));
    assert forall owned :: OtherLines(p.(owned := owned)) == OtherLines(p);
  }

  /** With the default set a backslash is printed as it is, and a reader that knows the escapes of the file name
      drops it. */
  lemma BackslashIsLost(value: Bytes)
    ensures var p := Part([65, BACKSLASH, 66], false, None, None, [], value, None);
            ReadDisposition(EncodeHeaders(PathSegment, p)) != Some((FieldOf(PathSegment, p), OtherLines(p)))
  {
    var p := Part([65, BACKSLASH, 66], false, None, None, [], value, None);
    assert p.name[1] == BACKSLASH;
    DispositionReadsBackIff(PathSegment, p);
  }

  /** And a semicolon ends an extended name early. */
  lemma SemicolonEndsName(value: Bytes)
    ensures var p := Part([65, SEMICOLON, 32], true, None, None, [], value, None);
            ReadDisposition(EncodeHeaders(PathSegment, p)) != Some((FieldOf(PathSegment, p), OtherLines(p)))
  {
    var p := Part([65, SEMICOLON, 32], true, None, None, [], value, None);
    assert p.name[1] == SEMICOLON;
    DispositionReadsBackIff(PathSegment, p);
  }
}
