/**
 The multipart/form-data printer of src/client/multipart.rs, a reader for what
 it prints, and the length that it announces.
 */
module Multipart {
  import opened Wrappers
  import opened Octets
  import opened Sequences
  import opened MultipartText

  // ----- A reader of multipart bodies (section 5.1.1 of RFC 2046) -----

  /** A header block and the value under it. */
  type Section = (Bytes, Bytes)

  /** A line end, two dashes and the boundary. */
  function Delimiter(boundary: Bytes): Bytes {
    [13, 10, 45, 45] + boundary
  }

  /** The sections from just behind an opening boundary line. */
  function ReadSections(boundary: Bytes, s: Bytes): Option<seq<Section>>
    decreases |s|
  {
    match Find(s, BLANK)
    case None => None
    case Some(h) =>
      FindIsFirst(s, BLANK);
      var body := s[h + 4..];
      match Find(body, Delimiter(boundary))
      case None => None
      case Some(v) =>
        FindIsFirst(body, Delimiter(boundary));
        var after := body[v + |Delimiter(boundary)|..];
        if after == [45, 45, 13, 10] then Some([(s[..h], body[..v])])
        else if [13, 10] <= after then
          match ReadSections(boundary, after[2..])
          case None => None
          case Some(more) => Some([(s[..h], body[..v])] + more)
        else None
  }

  function Read(boundary: Bytes, s: Bytes): Option<seq<Section>> {
    if s == [] then Some([])
    else if [45, 45] + boundary + [13, 10] <= s then ReadSections(boundary, s[|boundary| + 4..])
    else None
  }

  // ----- The printer, from header blocks and values -----

  function Marker(boundary: Bytes): Bytes {
    [DASH, DASH] + boundary
  }

  const LAST: Bytes := [45, 45, 13, 10]

  /** `part_stream`: boundary line, headers, blank line, value, line end. */
  function PrintSection(boundary: Bytes, p: Section): Bytes {
    Marker(boundary) + CRLF + p.0 + BLANK + p.1 + CRLF
  }

  function PrintSections(boundary: Bytes, ps: seq<Section>): Bytes {
    if ps == [] then Marker(boundary) + LAST else PrintSection(boundary, ps[0]) + PrintSections(boundary, ps[1..])
  }

  /** `into_stream`. */
  function Print(boundary: Bytes, ps: seq<Section>): Bytes {
    if ps == [] then [] else PrintSections(boundary, ps)
  }

  /** The same text, from behind the first boundary line, as the reader takes it apart. */
  function Body(boundary: Bytes, ps: seq<Section>): Bytes
    requires ps != []
  {
    ps[0].0 + BLANK + (ps[0].1 + Delimiter(boundary) + if |ps| == 1 then LAST else CRLF + Body(boundary, ps[1..]))
  }

  lemma Regroup(m: Bytes, h: Bytes, v: Bytes, tail: Bytes)
    ensures (m + CRLF + h + BLANK + v + CRLF) + (m + tail) == m + CRLF + (h + BLANK + (v + (CRLF + m) + tail))
  {
  }

  lemma {:induction false} PrintIsBody(boundary: Bytes, ps: seq<Section>)
    requires ps != []
    ensures PrintSections(boundary, ps) == Marker(boundary) + CRLF + Body(boundary, ps)
  {
    var m := Marker(boundary);
    if |ps| == 1 {
      assert PrintSections(boundary, ps[1..]) == m + LAST;
      Regroup(m, ps[0].0, ps[0].1, LAST);
    } else {
      PrintIsBody(boundary, ps[1..]);
      var rest := Body(boundary, ps[1..]);
      assert m + CRLF + rest == m + (CRLF + rest);
      Regroup(m, ps[0].0, ps[0].1, CRLF + rest);
    }
  }

  predicate NoCr(b: Bytes) {
    CR !in b
  }

  lemma DelimiterHasOneCr(boundary: Bytes, k: nat)
    requires NoCr(boundary) && 0 < k < |Delimiter(boundary)|
    ensures Delimiter(boundary)[k] != CR
  {
    var d := Delimiter(boundary);
    assert k == 1 ==> d[k] == LF;
    assert k == 2 || k == 3 ==> d[k] == DASH;
    assert k > 3 ==> d[k] == boundary[k - 4];
  }

  /** The delimiter has no proper border, so two occurrences of it never overlap. */
  lemma DelimiterHasNoBorder(boundary: Bytes, s: Bytes, i: nat, j: nat)
    requires NoCr(boundary) && i < j && Occurs(s, Delimiter(boundary), i) && Occurs(s, Delimiter(boundary), j)
    ensures i + |Delimiter(boundary)| <= j
  {
    var d := Delimiter(boundary);
    forall m | i < m < i + |d| ensures s[m] != CR {
      assert s[m] == s[i..i + |d|][m - i];
      DelimiterHasOneCr(boundary, m - i);
    }
    assert s[j] == s[j..j + |d|][0] == CR;
  }

  lemma ValueIsFound(boundary: Bytes, value: Bytes, rest: Bytes)
    requires NoCr(boundary)
    ensures var d := Delimiter(boundary);
            && (Find(value + d + rest, d) == Some(|value|) <==> !Contains(value, d))
            && (Contains(value, d) ==> Find(value + d + rest, d).Some? && Find(value + d + rest, d).value < |value|)
  {
    var d := Delimiter(boundary);
    var s := value + d + rest;
    forall i: nat | i < |value| && i + |d| > |value| ensures !Occurs(s, d, i) {
      if i + |d| <= |s| {
        DelimiterHasOneCr(boundary, |value| - i);
        assert s[i..i + |d|][|value| - i] == s[|value|] == CR;
      }
    }
    FindAfter(value, d, rest);
  }

  /** A header block that does not end in a line end is found whole unless it has a blank line in it. */
  lemma BlockIsFound(block: Bytes, rest: Bytes)
    requires EndsClean(block)
    ensures Find(block + BLANK + rest, BLANK) == Some(|block|) <==> !Contains(block, BLANK)
    ensures Contains(block, BLANK) ==>
              Find(block + BLANK + rest, BLANK).Some? && Find(block + BLANK + rest, BLANK).value < |block|
  {
    var s := block + BLANK + rest;
    forall i: nat | i < |block| && i + 4 > |block| ensures !Occurs(s, BLANK, i) {
      BlankIs(s, i);
      assert s[|block|] == CR && s[|block| + 1] == LF;
    }
    FindAfter(block, BLANK, rest);
  }

  ghost predicate Readable(boundary: Bytes, p: Section) {
    !Contains(p.0, BLANK) && !Contains(p.1, Delimiter(boundary))
  }

  /** One section is read whole, and the rest of the text left over, exactly when it is readable. */
  lemma SectionReads(boundary: Bytes, p: Section, rest: Bytes)
    requires NoCr(boundary) && EndsClean(p.0)
    ensures var d := Delimiter(boundary);
            var s := p.0 + BLANK + (p.1 + d + rest);
            var h := Find(s, BLANK);
            && h.Some? && h.value <= |p.0| && h.value + 4 <= |s| && s[..h.value] <= p.0
            && (Readable(boundary, p) ==> h.value == |p.0| && s[..h.value] == p.0 && s[h.value + 4..] == p.1 + d + rest
                                          && Find(p.1 + d + rest, d) == Some(|p.1|))
            && (!Readable(boundary, p) ==> h.value < |p.0| || (s[h.value + 4..] == p.1 + d + rest
                                           && Find(p.1 + d + rest, d).Some? && Find(p.1 + d + rest, d).value < |p.1|))
  {
    var d := Delimiter(boundary);
    var s := p.0 + BLANK + (p.1 + d + rest);
    BlockIsFound(p.0, p.1 + d + rest);
    ValueIsFound(boundary, p.1, rest);
    FindIsFirst(s, BLANK);
    assert s[|p.0| + 4..] == p.1 + d + rest;
  }

  /** What the reader makes of a section and the text behind it. */
  lemma ReadOneSection(boundary: Bytes, p: Section, rest: Bytes)
    requires NoCr(boundary) && EndsClean(p.0)
    ensures var r := ReadSections(boundary, p.0 + BLANK + (p.1 + Delimiter(boundary) + rest));
            && (!Readable(boundary, p) && r.Some? ==> r.value != [] && r.value[0] != p)
            && (Readable(boundary, p) && rest == LAST ==> r == Some([p]))
            && (Readable(boundary, p) && rest != LAST && CRLF <= rest ==>
                  var more := ReadSections(boundary, rest[2..]);
                  r == if more.Some? then Some([p] + more.value) else None)
  {
    var d := Delimiter(boundary);
    var s := p.0 + BLANK + (p.1 + d + rest);
    SectionReads(boundary, p, rest);
    var h := Find(s, BLANK).value;
    var body := s[h + 4..];
    FindIsFirst(body, d);
    if Readable(boundary, p) {
      assert body[|p.1| + |d|..] == rest && body[..|p.1|] == p.1;
    }
  }

  /** How a section is misread: its block is cut off at a blank line in it, or its value at a delimiter. */
  ghost predicate Misread(p: Section, q: Section) {
    || (Contains(p.0, BLANK) && forall i: nat :: Occurs(p.0, BLANK, i) ==> |q.0| <= i)
    || (q.0 == p.0 && |q.1| < |p.1|)
  }

  lemma OccursInLonger(a: Bytes, b: Bytes, pat: Bytes, i: nat)
    requires Occurs(a, pat, i)
    ensures Occurs(a + b, pat, i)
  {
    assert (a + b)[i..i + |pat|] == a[i..i + |pat|];
  }

  /** The block that is read ends at the first blank line, wherever that is. */
  lemma BlockEndsEarly(block: Bytes, rest: Bytes)
    requires EndsClean(block)
    ensures var h := Find(block + BLANK + rest, BLANK);
            && h.Some? && (forall i: nat :: Occurs(block, BLANK, i) ==> h.value <= i)
            && (!Contains(block, BLANK) ==> h.value == |block|)
  {
    BlockIsFound(block, rest);
    forall i: nat | Occurs(block, BLANK, i)
      ensures Find(block + BLANK + rest, BLANK).Some? && Find(block + BLANK + rest, BLANK).value <= i
    {
      OccursInLonger(block, BLANK, BLANK, i);
      OccursInLonger(block + BLANK, rest, BLANK, i);
      FindNotLater(block + BLANK + rest, BLANK, i);
    }
  }

  lemma UnreadableIsMisread(boundary: Bytes, p: Section, rest: Bytes)
    requires NoCr(boundary) && EndsClean(p.0) && !Readable(boundary, p)
    requires ReadSections(boundary, p.0 + BLANK + (p.1 + Delimiter(boundary) + rest)).Some?
    ensures var r := ReadSections(boundary, p.0 + BLANK + (p.1 + Delimiter(boundary) + rest)).value;
            r != [] && Misread(p, r[0])
  {
    var d := Delimiter(boundary);
    var s := p.0 + BLANK + (p.1 + d + rest);
    SectionReads(boundary, p, rest);
    BlockEndsEarly(p.0, p.1 + d + rest);
    var h := Find(s, BLANK).value;
    FindIsFirst(s[h + 4..], d);
  }

  /** A list of sections is refused, read as it was, or misread at some place. */
  ghost predicate ReadOrMisread(r: Option<seq<Section>>, ps: seq<Section>) {
    r.None? || r == Some(ps) || exists i :: 0 <= i < |ps| && i < |r.value| && Misread(ps[i], r.value[i])
  }

  lemma OneMoreRead(p: Section, r: Option<seq<Section>>, ps: seq<Section>)
    requires ReadOrMisread(r, ps)
    ensures ReadOrMisread(if r.Some? then Some([p] + r.value) else None, [p] + ps)
  {
    if r.Some? && r != Some(ps) {
      var i :| 0 <= i < |ps| && i < |r.value| && Misread(ps[i], r.value[i]);
      assert Misread(([p] + ps)[i + 1], ([p] + r.value)[i + 1]);
    }
  }

  lemma {:induction false} BodyReadOrMisread(boundary: Bytes, ps: seq<Section>)
    requires ps != [] && NoCr(boundary) && forall i :: 0 <= i < |ps| ==> EndsClean(ps[i].0)
    ensures ReadOrMisread(ReadSections(boundary, Body(boundary, ps)), ps)
  {
    var p := ps[0];
    var rest := if |ps| == 1 then LAST else CRLF + Body(boundary, ps[1..]);
    ReadOneSection(boundary, p, rest);
    if !Readable(boundary, p) {
      if ReadSections(boundary, Body(boundary, ps)).Some? {
        UnreadableIsMisread(boundary, p, rest);
      }
    } else if |ps| == 1 {
      assert ps == [p];
    } else {
      var tail := ps[1..];
      assert rest[2..] == Body(boundary, tail) && rest[0] == CR;
      BodyReadOrMisread(boundary, tail);
      OneMoreRead(p, ReadSections(boundary, Body(boundary, tail)), tail);
      assert ps == [p] + tail;
    }
  }

  /** Reading gives the sections back exactly when every one of them is readable. */
  lemma {:induction false} BodyReadsBackIff(boundary: Bytes, ps: seq<Section>)
    requires ps != [] && NoCr(boundary) && forall i :: 0 <= i < |ps| ==> EndsClean(ps[i].0)
    ensures ReadSections(boundary, Body(boundary, ps)) == Some(ps) <==>
            forall i :: 0 <= i < |ps| ==> Readable(boundary, ps[i])
  {
    var p := ps[0];
    var rest := if |ps| == 1 then LAST else CRLF + Body(boundary, ps[1..]);
    ReadOneSection(boundary, p, rest);
    if |ps| == 1 {
      assert ps == [p];
    } else {
      var tail := ps[1..];
      assert rest[2..] == Body(boundary, tail) && rest[0] == CR;
      BodyReadsBackIff(boundary, tail);
      var more := ReadSections(boundary, Body(boundary, tail));
      assert ps == [p] + tail;
      assert more.Some? && [p] + more.value == ps ==> more.value == ([p] + more.value)[1..];
      assert forall i :: 1 <= i < |ps| ==> ps[i] == tail[i - 1];
      assert forall i :: 0 <= i < |tail| ==> tail[i] == ps[i + 1];
    }
  }

  lemma SectionsReadBackIff(boundary: Bytes, ps: seq<Section>)
    requires NoCr(boundary) && forall i :: 0 <= i < |ps| ==> EndsClean(ps[i].0)
    ensures Read(boundary, Print(boundary, ps)) == Some(ps) <==> forall i :: 0 <= i < |ps| ==> Readable(boundary, ps[i])
  {
    if ps != [] {
      PrintIsBody(boundary, ps);
      var open := Marker(boundary) + CRLF;
      assert Print(boundary, ps)[|open|..] == Body(boundary, ps);
      BodyReadsBackIff(boundary, ps);
    }
  }

  lemma SectionsReadOrMisread(boundary: Bytes, ps: seq<Section>)
    requires NoCr(boundary) && forall i :: 0 <= i < |ps| ==> EndsClean(ps[i].0)
    ensures ReadOrMisread(Read(boundary, Print(boundary, ps)), ps)
  {
    if ps != [] {
      PrintIsBody(boundary, ps);
      var open := Marker(boundary) + CRLF;
      assert Print(boundary, ps)[|open|..] == Body(boundary, ps);
      BodyReadOrMisread(boundary, ps);
    }
  }

  // ----- Forms -----

  /** `owned`: the percent encoder had to build a new string; it decides the form of the name parameter.
      `declared`: the length announced for the value, if any. */
  datatype Part = Part(
    name: Bytes,
    owned: bool,
    fileName: Option<Bytes>,
    mime: Option<Bytes>,
    headers: seq<(Bytes, Bytes)>,
    value: Bytes,
    declared: Option<nat>)

  predicate Extended(enc: Encoding, p: Part) {
    p.owned && !enc.NoOp?
  }

  function Text(enc: Encoding, p: Part): Bytes {
    if enc.NoOp? then p.name else PercentEncode(enc, p.name)
  }

  function NameParameter(enc: Encoding, p: Part): Bytes {
    if Extended(enc, p) then Ascii("name*=utf-8''") + Text(enc, p) else Ascii("name=\"") + Text(enc, p) + [QUOTE]
  }

  function FileNameParameter(p: Part): Bytes {
    if p.fileName.Some? then Ascii("; filename=\"") + LegalFileName(p.fileName.value) + [QUOTE] else []
  }

  function HeaderLine(h: (Bytes, Bytes)): (line: Bytes)
    ensures line != [] && (NoBreak(h.0) && NoBreak(h.1) ==> NoBreak(line))
  {
    h.0 + Ascii(": ") + h.1
  }

  function HeaderLines(headers: seq<(Bytes, Bytes)>): Bytes {
    if headers == [] then []
    else HeaderLines(headers[..|headers| - 1]) + (CRLF + HeaderLine(headers[|headers| - 1]))
  }

  function Disposition(enc: Encoding, p: Part): Bytes {
    Ascii("Content-Disposition: form-data; ") + NameParameter(enc, p) + FileNameParameter(p)
  }

  function MimeLine(p: Part): Bytes {
    if p.mime.Some? then CRLF + (Ascii("Content-Type: ") + p.mime.value) else []
  }

  /** `encode_headers`. */
  function EncodeHeaders(enc: Encoding, p: Part): Bytes {
    Disposition(enc, p) + MimeLine(p) + HeaderLines(p.headers)
  }

  /** MIME strings and header names and values hold no line breaks; their types see to that. */
  predicate WellFormed(p: Part) {
    && (p.mime.Some? ==> NoBreak(p.mime.value))
    && forall i :: 0 <= i < |p.headers| ==> NoBreak(p.headers[i].0) && NoBreak(p.headers[i].1)
  }

  lemma FileNameParameterIsClean(p: Part)
    ensures var z := FileNameParameter(p);
            NoPair(z) && (z != [] ==> z[0] != CR && z[0] != LF && z[|z| - 1] == QUOTE)
  {
    if p.fileName.Some? {
      var f := p.fileName.value;
      FourReplacesAreOnePass(f);
      EscapedHasNoPair(f);
      var start, e := Ascii("; filename=\""), Escape(f);
      var z := start + e + [QUOTE];
      assert FileNameParameter(p) == z;
      forall i | 0 <= i < |z| - 1 ensures !(z[i] == CR && z[i + 1] == LF) {
        assert i < |start| ==> z[i] == start[i];
        assert |start| <= i < |start| + |e| ==> z[i] == e[i - |start|];
        assert |start| <= i < |start| + |e| - 1 ==> z[i + 1] == e[i + 1 - |start|];
      }
      assert z[0] == start[0];
    }
  }

  /** Text, something in the middle, and a file name parameter: only the middle can hold a blank line. */
  lemma AroundTheName(start: Bytes, m: Bytes, z: Bytes)
    requires NoBreak(start) && NoPair(z) && (z != [] ==> z[0] != CR && z[0] != LF && z[|z| - 1] == QUOTE)
    requires z == [] ==> m != [] && m[|m| - 1] != LF
    ensures EndsClean(start + m + z)
    ensures Contains(start + m + z, BLANK) <==> Contains(m, BLANK)
  {
    BlankOnlyInMiddle(start, m, z);
  }

  lemma NameParameterIsClean(enc: Encoding, p: Part)
    ensures var m := NameParameter(enc, p);
            && m != [] && m[|m| - 1] != LF
            && (Contains(m, BLANK) <==> enc.NoOp? && Contains(p.name, BLANK))
  {
    var m := NameParameter(enc, p);
    if enc.NoOp? {
      BlankOnlyInMiddle(Ascii("name=\""), p.name, [QUOTE]);
    } else {
      NameReadsBack(enc, p.name);
      assert NoBreak(m);
      NoPairNoBlank(m);
    }
  }

  /** The disposition line has a blank line in it only if it has a raw name with one. */
  lemma DispositionIsClean(enc: Encoding, p: Part)
    ensures EndsClean(Disposition(enc, p))
    ensures Contains(Disposition(enc, p), BLANK) <==> enc.NoOp? && Contains(p.name, BLANK)
  {
    FileNameParameterIsClean(p);
    NameParameterIsClean(enc, p);
    AroundTheName(Ascii("Content-Disposition: form-data; "), NameParameter(enc, p), FileNameParameter(p));
  }

  lemma {:induction false} HeaderLinesAreClean(b: Bytes, headers: seq<(Bytes, Bytes)>)
    requires EndsClean(b) && forall i :: 0 <= i < |headers| ==> NoBreak(headers[i].0) && NoBreak(headers[i].1)
    ensures EndsClean(b + HeaderLines(headers))
    ensures Contains(b + HeaderLines(headers), BLANK) <==> Contains(b, BLANK)
  {
    if headers == [] {
      assert b + [] == b;
    } else {
      var line := HeaderLine(headers[|headers| - 1]);
      var before := HeaderLines(headers[..|headers| - 1]);
      HeaderLinesAreClean(b, headers[..|headers| - 1]);
      AddLine(b + before, line);
      assert b + (before + (CRLF + line)) == b + before + CRLF + line;
    }
  }

  lemma MimeLineIsClean(b: Bytes, p: Part)
    requires WellFormed(p) && EndsClean(b)
    ensures EndsClean(b + MimeLine(p)) && (Contains(b + MimeLine(p), BLANK) <==> Contains(b, BLANK))
  {
    if p.mime.Some? {
      var line := Ascii("Content-Type: ") + p.mime.value;
      AddLine(b, line);
      Associate(b, CRLF, line);
    } else {
      assert b + [] == b;
    }
  }

  /** A header block never ends in a line end, and has a blank line in it exactly when a raw name has. */
  lemma BlockIsClean(enc: Encoding, p: Part)
    requires WellFormed(p)
    ensures EndsClean(EncodeHeaders(enc, p))
    ensures Contains(EncodeHeaders(enc, p), BLANK) <==> enc.NoOp? && Contains(p.name, BLANK)
  {
    DispositionIsClean(enc, p);
    MimeLineIsClean(Disposition(enc, p), p);
    HeaderLinesAreClean(Disposition(enc, p) + MimeLine(p), p.headers);
  }

  function SectionOf(enc: Encoding, p: Part): Section {
    (EncodeHeaders(enc, p), p.value)
  }

  function Each(f: Part -> Section, parts: seq<Part>): (ps: seq<Section>)
    ensures |ps| == |parts| && forall i :: 0 <= i < |parts| ==> ps[i] == f(parts[i])
  {
    if parts == [] then [] else [f(parts[0])] + Each(f, parts[1..])
  }

  function Sections(enc: Encoding, parts: seq<Part>): seq<Section> {
    Each(p => SectionOf(enc, p), parts)
  }

  /** Every form is read back, part by part, exactly when no value holds the delimiter and, without
      percent encoding, no name holds a blank line. */
  lemma {:induction false} FormReadsBackIff(boundary: Bytes, enc: Encoding, parts: seq<Part>)
    requires NoCr(boundary) && forall i :: 0 <= i < |parts| ==> WellFormed(parts[i])
    ensures Read(boundary, Print(boundary, Sections(enc, parts))) == Some(Sections(enc, parts)) <==>
            forall i :: 0 <= i < |parts| ==>
              !Contains(parts[i].value, Delimiter(boundary)) && !(enc.NoOp? && Contains(parts[i].name, BLANK))
  {
    var ps := Sections(enc, parts);
    forall i | 0 <= i < |parts|
      ensures EndsClean(ps[i].0)
      ensures Readable(boundary, ps[i]) <==>
              !Contains(parts[i].value, Delimiter(boundary)) && !(enc.NoOp? && Contains(parts[i].name, BLANK))
    {
      BlockIsClean(enc, parts[i]);
    }
    SectionsReadBackIff(boundary, ps);
  }

  /** Without percent encoding a name can end the header block early, and the form is not read back. */
  lemma RawNameMayBreakAForm(boundary: Bytes, owned: bool, value: Bytes)
    requires NoCr(boundary)
    ensures var parts := [Part(BLANK, owned, None, None, [], value, None)];
            Read(boundary, Print(boundary, Sections(NoOp, parts))) != Some(Sections(NoOp, parts))
  {
    assert Occurs(BLANK, BLANK, 0);
    FormReadsBackIff(boundary, NoOp, [Part(BLANK, owned, None, None, [], value, None)]);
  }

  // ----- The boundary -----

  function HexDigits(n: nat, width: nat): Bytes {
    if width == 0 then [] else HexDigits(n / 16, width - 1) + [if n % 16 < 10 then 48 + n % 16 else 87 + n % 16]
  }

  /** `gen_boundary`, given the four random numbers. */
  function GenBoundary(a: nat, b: nat, c: nat, d: nat): Bytes {
    HexDigits(a, 16) + [DASH] + HexDigits(b, 16) + [DASH] + HexDigits(c, 16) + [DASH] + HexDigits(d, 16)
  }

  lemma {:induction false} HexDigitsShape(n: nat, width: nat)
    ensures |HexDigits(n, width)| == width && NoCr(HexDigits(n, width))
  {
    if width == 0 {
    } else {
      HexDigitsShape(n / 16, width - 1);
    }
  }

  /** The number that hexadecimal digits stand for. */
  function HexValue(s: Bytes): int {
    if s == [] then 0
    else
      var b: int := s[|s| - 1];
      HexValue(s[..|s| - 1]) * 16 + if b <= 57 then b - 48 else b - 87
  }

  function Power16(width: nat): nat {
    if width == 0 then 1 else 16 * Power16(width - 1)
  }

  lemma {:induction false} HexDigitsReadBack(n: nat, width: nat)
    requires n < Power16(width)
    ensures HexValue(HexDigits(n, width)) == n
  {
    if width == 0 {
    } else {
      HexDigitsReadBack(n / 16, width - 1);
      var s := HexDigits(n, width);
      assert s[..|s| - 1] == HexDigits(n / 16, width - 1);
    }
  }

  /** The boundary is the four numbers, each in sixteen hexadecimal digits, with dashes between them: different
      numbers give different boundaries. */
  lemma BoundaryReadsBack(a: nat, b: nat, c: nat, d: nat)
    requires a < Power16(16) && b < Power16(16) && c < Power16(16) && d < Power16(16)
    ensures var s := GenBoundary(a, b, c, d);
            && |s| == 67 && s[16] == s[33] == s[50] == DASH
            && HexValue(s[..16]) == a && HexValue(s[17..33]) == b && HexValue(s[34..50]) == c && HexValue(s[51..]) == d
  {
    DigitsAre(a, 16);
    DigitsAre(b, 16);
    DigitsAre(c, 16);
    DigitsAre(d, 16);
    FourPieces(HexDigits(a, 16), HexDigits(b, 16), HexDigits(c, 16), HexDigits(d, 16));
  }

  lemma DigitsAre(n: nat, width: nat)
    requires n < Power16(width)
    ensures |HexDigits(n, width)| == width && HexValue(HexDigits(n, width)) == n
  {
    HexDigitsShape(n, width);
    HexDigitsReadBack(n, width);
  }

  lemma FourPieces(a: Bytes, b: Bytes, c: Bytes, d: Bytes)
    requires |a| == |b| == |c| == |d| == 16
    ensures var s := a + [DASH] + b + [DASH] + c + [DASH] + d;
            && |s| == 67 && s[16] == s[33] == s[50] == DASH
            && s[..16] == a && s[17..33] == b && s[34..50] == c && s[51..] == d
  {
  }

  /** A generated boundary has 67 bytes and no CR, so it suits the reader whatever the random numbers are. */
  lemma BoundaryShape(a: nat, b: nat, c: nat, d: nat)
    ensures |GenBoundary(a, b, c, d)| == 67 && NoCr(GenBoundary(a, b, c, d))
  {
    HexDigitsShape(a, 16);
    HexDigitsShape(b, 16);
    HexDigitsShape(c, 16);
    HexDigitsShape(d, 16);
  }

  // ----- The announced length -----

  lemma {:induction false} PrintAppend(boundary: Bytes, ps: seq<Section>, p: Section)
    ensures |PrintSections(boundary, ps + [p])| == |PrintSections(boundary, ps)| + |PrintSection(boundary, p)|
  {
    if ps == [] {
      assert ps + [p] == [p] && [p][1..] == [];
    } else {
      PrintAppend(boundary, ps[1..], p);
      assert (ps + [p])[1..] == ps[1..] + [p];
    }
  }

  /** Unsigned 64-bit arithmetic. */
  function Wrap(n: nat): nat {
    n % 0x1_0000_0000_0000_0000
  }

  lemma WrapIs(n: nat, q: nat, r: nat)
    requires r < 0x1_0000_0000_0000_0000 && n == q * 0x1_0000_0000_0000_0000 + r
    ensures Wrap(n) == r
  {
    assert n / 0x1_0000_0000_0000_0000 == q;
  }

  lemma WrapAdd(a: nat, b: nat)
    ensures Wrap(Wrap(a) + b) == Wrap(a + b)
  {
    var x := Wrap(a) + b;
    WrapIs(a + b, a / 0x1_0000_0000_0000_0000 + x / 0x1_0000_0000_0000_0000, Wrap(x));
  }

  /** A declared length is that of the value. */
  ghost predicate Honest(p: Part) {
    p.declared.Some? ==> p.declared.value == |p.value|
  }

  /** What one part adds to the length: two dashes, the boundary, a line end, the headers, a blank line, the value,
      a line end. */
  function PartSize(boundary: Bytes, header: Bytes, declared: nat): nat {
    2 + |boundary| + 2 + |header| + 4 + declared + 2
  }

  lemma {:induction false} OneMore(boundary: Bytes, f: Part -> Section, parts: seq<Part>, i: nat)
    requires i < |parts|
    ensures |PrintSections(boundary, Each(f, parts[..i + 1]))|
            == |PrintSections(boundary, Each(f, parts[..i]))| + PartSize(boundary, f(parts[i]).0, |f(parts[i]).1|)
  {
    var ps, p := Each(f, parts[..i]), f(parts[i]);
    assert Each(f, parts[..i + 1]) == ps + [p];
    PrintAppend(boundary, ps, p);
    assert |PrintSection(boundary, p)| == PartSize(boundary, p.0, |p.1|);
  }

  /** The closing line. */
  function EndSize(boundary: Bytes): nat {
    2 + |boundary| + 4
  }

  /** If the parts are honest, the length counted is that of the first `i` of them as printed, in 64-bit arithmetic. */
  ghost predicate Counted(boundary: Bytes, f: Part -> Section, parts: seq<Part>, i: nat, length: nat)
    requires i <= |parts|
  {
    (forall j :: 0 <= j < |parts| ==> Honest(parts[j])) ==>
      Wrap(length + EndSize(boundary)) == Wrap(|PrintSections(boundary, Each(f, parts[..i]))|)
  }

  lemma WrapBoth(length: nat, step: nat, end: nat, printed: nat)
    requires Wrap(length + end) == Wrap(printed)
    ensures Wrap(Wrap(length + step) + end) == Wrap(printed + step)
  {
    WrapAdd(length + step, end);
    WrapAdd(length + end, step);
    WrapAdd(printed, step);
  }

  lemma CountOneMore(boundary: Bytes, f: Part -> Section, parts: seq<Part>, i: nat, length: nat)
    requires i < |parts| && Counted(boundary, f, parts, i, length)
    requires parts[i].declared.Some? && f(parts[i]).1 == parts[i].value
    ensures Counted(boundary, f, parts, i + 1,
                    Wrap(length + PartSize(boundary, f(parts[i]).0, parts[i].declared.value)))
  {
    if forall j :: 0 <= j < |parts| ==> Honest(parts[j]) {
      OneMore(boundary, f, parts, i);
      WrapBoth(length, PartSize(boundary, f(parts[i]).0, parts[i].declared.value), EndSize(boundary),
               |PrintSections(boundary, Each(f, parts[..i]))|);
    }
  }

  /** The total, with the closing line if there is a part at all. */
  function Total(boundary: Bytes, parts: seq<Part>, length: nat): nat {
    if parts == [] then 0 else Wrap(length + EndSize(boundary))
  }

  lemma CountedAll(boundary: Bytes, f: Part -> Section, parts: seq<Part>, length: nat)
    requires Counted(boundary, f, parts, |parts|, length) && forall j :: 0 <= j < |parts| ==> Honest(parts[j])
    ensures Total(boundary, parts, length) == Wrap(|Print(boundary, Each(f, parts))|)
  {
    assert parts[..|parts|] == parts;
  }

  /** The loop of `compute_length`; `f` gives each part its header block and value. */
  method AddUp(boundary: Bytes, f: Part -> Section, parts: seq<Part>) returns (r: Option<nat>)
    requires forall i :: 0 <= i < |parts| ==> f(parts[i]).1 == parts[i].value
    ensures r.Some? <==> forall i :: 0 <= i < |parts| ==> parts[i].declared.Some?
    ensures r.Some? && (forall i :: 0 <= i < |parts| ==> Honest(parts[i])) ==>
              r.value == Wrap(|Print(boundary, Each(f, parts))|)
  {
    var length: nat := 0;
    for i := 0 to |parts|
      invariant forall j :: 0 <= j < i ==> parts[j].declared.Some?
      invariant i == 0 ==> length == 0
      invariant Counted(boundary, f, parts, i, length)
    {
      if parts[i].declared.None? {
        return None;
      }
      CountOneMore(boundary, f, parts, i, length);
      length := Wrap(length + PartSize(boundary, f(parts[i]).0, parts[i].declared.value));
    }
    if forall i :: 0 <= i < |parts| ==> Honest(parts[i]) {
      CountedAll(boundary, f, parts, length);
    }
    if parts != [] {
      length := Wrap(length + EndSize(boundary));
    }
    r := Some(length);
  }

  /** `compute_length`, in wrapping 64-bit arithmetic: it answers exactly when every part has a declared length,
      and with honest parts the answer is the number of bytes printed, reduced to 64 bits. */
  method ComputeLength(boundary: Bytes, enc: Encoding, parts: seq<Part>) returns (r: Option<nat>)
    ensures r.Some? <==> forall i :: 0 <= i < |parts| ==> parts[i].declared.Some?
    ensures r.Some? && (forall i :: 0 <= i < |parts| ==> Honest(parts[i])) ==>
              r.value == Wrap(|Print(boundary, Sections(enc, parts))|)
  {
    r := AddUp(boundary, p => SectionOf(enc, p), parts);
  }
}
