/**
 Searching byte strings, and the two escapings that src/client/multipart.rs
 applies to names and file names, with the readers that undo them.
 */
module MultipartText {
  import opened Wrappers
  import opened Octets
  import opened Sequences

  const CR: Byte := 13
  const LF: Byte := 10
  const QUOTE: Byte := 34
  const PERCENT: Byte := 37
  const DASH: Byte := 45
  const SEMICOLON: Byte := 59
  const BACKSLASH: Byte := 92
  const CRLF: Bytes := [13, 10]
  const BLANK: Bytes := [13, 10, 13, 10]

  /** ASCII text as bytes. */
  function Ascii(s: string): (b: Bytes)
    requires forall i :: 0 <= i < |s| ==> 32 <= s[i] as int < 127
    ensures |b| == |s| && NoBreak(b)
  {
    seq(|s|, i requires 0 <= i < |s| => s[i] as int)
  }

  // ----- Searching -----

  ghost predicate Occurs(s: Bytes, pat: Bytes, i: nat) {
    i + |pat| <= |s| && s[i..i + |pat|] == pat
  }

  ghost predicate Contains(s: Bytes, pat: Bytes) {
    exists i: nat :: Occurs(s, pat, i)
  }

  /** Where the pattern first occurs. */
  function Find(s: Bytes, pat: Bytes): Option<nat> {
    if pat <= s then Some(0)
    else if s == [] then None
    else
      match Find(s[1..], pat)
      case None => None
      case Some(i) => Some(i + 1)
  }

  lemma OccursInTail(s: Bytes, pat: Bytes, i: nat)
    requires s != []
    ensures Occurs(s, pat, i + 1) <==> Occurs(s[1..], pat, i)
  {
    if i + |pat| <= |s[1..]| {
      assert s[1..][i..i + |pat|] == s[i + 1..i + 1 + |pat|];
    }
  }

  lemma {:induction false} FindOccurs(s: Bytes, pat: Bytes)
    ensures Find(s, pat).Some? ==> Occurs(s, pat, Find(s, pat).value)
  {
    if pat <= s {
    } else if s == [] {
    } else {
      FindOccurs(s[1..], pat);
      if Find(s[1..], pat).Some? {
        OccursInTail(s, pat, Find(s[1..], pat).value);
      }
    }
  }

  lemma {:induction false} FindNotLater(s: Bytes, pat: Bytes, i: nat)
    requires Occurs(s, pat, i)
    ensures Find(s, pat).Some? && Find(s, pat).value <= i
  {
    if i == 0 {
      assert pat <= s;
    } else if pat <= s {
    } else {
      OccursInTail(s, pat, i - 1);
      FindNotLater(s[1..], pat, i - 1);
    }
  }

  lemma FindIsFirst(s: Bytes, pat: Bytes)
    ensures Find(s, pat).None? <==> !Contains(s, pat)
    ensures Find(s, pat).Some? ==> Occurs(s, pat, Find(s, pat).value)
                                   && forall i: nat :: i < Find(s, pat).value ==> !Occurs(s, pat, i)
  {
    FindOccurs(s, pat);
    forall i: nat | Occurs(s, pat, i) ensures Find(s, pat).Some? && Find(s, pat).value <= i {
      FindNotLater(s, pat, i);
    }
  }

  /** Text before a separator is found whole exactly when it does not contain the separator,
      provided no occurrence can begin in the text and end beyond it. */
  lemma FindAfter(text: Bytes, pat: Bytes, rest: Bytes)
    requires pat != []
    requires forall i: nat :: i < |text| && i + |pat| > |text| ==> !Occurs(text + pat + rest, pat, i)
    ensures Find(text + pat + rest, pat) == Some(|text|) <==> !Contains(text, pat)
    ensures Contains(text, pat) ==> Find(text + pat + rest, pat).Some? && Find(text + pat + rest, pat).value < |text|
  {
    var s := text + pat + rest;
    FindIsFirst(s, pat);
    assert s[|text|..|text| + |pat|] == pat;
    assert Occurs(s, pat, |text|);
    forall i: nat | i + |pat| <= |text| ensures Occurs(s, pat, i) <==> Occurs(text, pat, i) {
      assert s[i..i + |pat|] == text[i..i + |pat|];
    }
    if Contains(text, pat) {
      var i: nat :| Occurs(text, pat, i);
      assert Occurs(s, pat, i);
    } else {
      forall i: nat | i < |text| ensures !Occurs(s, pat, i) {
        assert i + |pat| <= |text| ==> !Occurs(text, pat, i);
      }
    }
  }

  // ----- Line breaks -----

  predicate NoBreak(b: Bytes) {
    forall i :: 0 <= i < |b| ==> b[i] != CR && b[i] != LF
  }

  /** No CR is followed by an LF. */
  predicate NoPair(b: Bytes) {
    forall i :: 0 <= i < |b| - 1 ==> !(b[i] == CR && b[i + 1] == LF)
  }

  predicate EndsClean(b: Bytes) {
    |b| >= 2 ==> !(b[|b| - 2] == CR && b[|b| - 1] == LF)
  }

  lemma BlankIs(s: Bytes, i: nat)
    ensures Occurs(s, BLANK, i) <==> i + 4 <= |s| && s[i] == CR && s[i + 1] == LF && s[i + 2] == CR && s[i + 3] == LF
  {
    if i + 4 <= |s| {
      var t := s[i..i + 4];
      assert t == [s[i], s[i + 1], s[i + 2], s[i + 3]];
    }
  }

  lemma NoPairNoBlank(b: Bytes)
    requires NoPair(b)
    ensures !Contains(b, BLANK)
  {
    forall i: nat ensures !Occurs(b, BLANK, i) { BlankIs(b, i); }
  }

  /** Between text without breaks and text that does not begin with one, only the middle can hold a blank line. */
  lemma BlankOnlyInMiddle(a: Bytes, m: Bytes, z: Bytes)
    requires NoBreak(a) && NoPair(z) && (z != [] ==> z[0] != CR && z[0] != LF)
    ensures Contains(a + m + z, BLANK) <==> Contains(m, BLANK)
  {
    var s := a + m + z;
    if Contains(m, BLANK) {
      var i: nat :| Occurs(m, BLANK, i);
      BlankIs(m, i);
      BlankIs(s, |a| + i);
      assert Occurs(s, BLANK, |a| + i);
    }
    if Contains(s, BLANK) {
      var i: nat :| Occurs(s, BLANK, i);
      BlankIs(s, i);
      assert i >= |a|;
      assert i + 4 <= |a + m|;
      BlankIs(m, i - |a|);
      assert Occurs(m, BLANK, i - |a|);
    }
  }

  /** Adding a line keeps a block free of blank lines. */
  lemma AddLine(b: Bytes, line: Bytes)
    requires EndsClean(b) && line != [] && NoBreak(line)
    ensures Contains(b + CRLF + line, BLANK) <==> Contains(b, BLANK)
    ensures EndsClean(b + CRLF + line)
  {
    var s := b + CRLF + line;
    if Contains(b, BLANK) {
      var i: nat :| Occurs(b, BLANK, i);
      BlankIs(b, i);
      BlankIs(s, i);
      assert Occurs(s, BLANK, i);
    }
    if Contains(s, BLANK) {
      var i: nat :| Occurs(s, BLANK, i);
      BlankIs(s, i);
      assert i + 4 <= |b|;
      BlankIs(b, i);
      assert Occurs(b, BLANK, i);
    }
  }

  // ----- File names -----

  /** `str::replace` of one character. */
  function Replace(s: Bytes, b: Byte, with: Bytes): Bytes {
    if s == [] then [] else (if s[0] == b then with else [s[0]]) + Replace(s[1..], b, with)
  }

  lemma {:induction false} ReplaceConcat(s: Bytes, t: Bytes, b: Byte, with: Bytes)
    ensures Replace(s + t, b, with) == Replace(s, b, with) + Replace(t, b, with)
  {
    if s == [] {
      assert s + t == t;
    } else {
      ReplaceConcat(s[1..], t, b, with);
      assert (s + t)[1..] == s[1..] + t;
      var head := if s[0] == b then with else [s[0]];
      Associate(head, Replace(s[1..], b, with), Replace(t, b, with));
    }
  }

  /** The four replaces of `encode_headers`, one after the other. */
  function LegalFileName(f: Bytes): Bytes {
    var f1 := Replace(f, BACKSLASH, [BACKSLASH, BACKSLASH]);
    var f2 := Replace(f1, QUOTE, [BACKSLASH, QUOTE]);
    var f3 := Replace(f2, CR, [BACKSLASH, CR]);
    Replace(f3, LF, [BACKSLASH, LF])
  }

  predicate Special(b: Byte) {
    b == BACKSLASH || b == QUOTE || b == CR || b == LF
  }

  function EscapeByte(b: Byte): Bytes {
    if Special(b) then [BACKSLASH, b] else [b]
  }

  /** A backslash before each special character, in one pass. */
  function Escape(f: Bytes): Bytes {
    if f == [] then [] else EscapeByte(f[0]) + Escape(f[1..])
  }

  lemma LegalFileNameConcat(s: Bytes, t: Bytes)
    ensures LegalFileName(s + t) == LegalFileName(s) + LegalFileName(t)
  {
    ReplaceConcat(s, t, BACKSLASH, [BACKSLASH, BACKSLASH]);
    var s1, t1 := Replace(s, BACKSLASH, [BACKSLASH, BACKSLASH]), Replace(t, BACKSLASH, [BACKSLASH, BACKSLASH]);
    ReplaceConcat(s1, t1, QUOTE, [BACKSLASH, QUOTE]);
    var s2, t2 := Replace(s1, QUOTE, [BACKSLASH, QUOTE]), Replace(t1, QUOTE, [BACKSLASH, QUOTE]);
    ReplaceConcat(s2, t2, CR, [BACKSLASH, CR]);
    ReplaceConcat(Replace(s2, CR, [BACKSLASH, CR]), Replace(t2, CR, [BACKSLASH, CR]), LF, [BACKSLASH, LF]);
  }

  lemma ReplaceTwo(a: Byte, c: Byte, b: Byte, with: Bytes)
    ensures Replace([a], b, with) == if a == b then with else [a]
    ensures a != b && c != b ==> Replace([a, c], b, with) == [a, c]
  {
    assert Replace([a], b, with) == (if a == b then with else [a]) + Replace([], b, with);
    assert [a, c][1..] == [c];
    assert Replace([c], b, with) == (if c == b then with else [c]) + Replace([], b, with);
  }

  lemma LegalFileNameByte(b: Byte)
    ensures LegalFileName([b]) == EscapeByte(b)
  {
    ReplaceTwo(b, b, BACKSLASH, [BACKSLASH, BACKSLASH]);
    ReplaceTwo(b, b, QUOTE, [BACKSLASH, QUOTE]);
    ReplaceTwo(b, b, CR, [BACKSLASH, CR]);
    ReplaceTwo(b, b, LF, [BACKSLASH, LF]);
    ReplaceTwo(BACKSLASH, b, QUOTE, [BACKSLASH, QUOTE]);
    ReplaceTwo(BACKSLASH, b, CR, [BACKSLASH, CR]);
    ReplaceTwo(BACKSLASH, b, LF, [BACKSLASH, LF]);
  }

  /** The four replaces do not disturb each other: they are one pass of escaping. */
  lemma {:induction false} FourReplacesAreOnePass(f: Bytes)
    ensures LegalFileName(f) == Escape(f)
  {
    if f == [] {
    } else {
      LegalFileNameConcat([f[0]], f[1..]);
      assert [f[0]] + f[1..] == f;
      LegalFileNameByte(f[0]);
      FourReplacesAreOnePass(f[1..]);
    }
  }

  /** A quoted string read up to its first unescaped quote: what it says, and what follows it. */
  function ReadQuoted(s: Bytes): Option<(Bytes, Bytes)> {
    if s == [] then None
    else if s[0] == QUOTE then Some(([], s[1..]))
    else if s[0] == BACKSLASH && |s| == 1 then None
    else
      var n := if s[0] == BACKSLASH then 2 else 1;
      match ReadQuoted(s[n..])
      case None => None
      case Some((text, rest)) => Some(([s[n - 1]] + text, rest))
  }

  /** Every file name is read back as it was, and the reader stops exactly at the closing quote. */
  lemma {:induction false} FileNameReadsBack(f: Bytes, rest: Bytes)
    ensures ReadQuoted(LegalFileName(f) + [QUOTE] + rest) == Some((f, rest))
  {
    FourReplacesAreOnePass(f);
    EscapedReadsBack(f, rest);
  }

  lemma {:induction false} EscapedReadsBack(f: Bytes, rest: Bytes)
    ensures ReadQuoted(Escape(f) + [QUOTE] + rest) == Some((f, rest))
  {
    var s := Escape(f) + [QUOTE] + rest;
    if f == [] {
      assert s[1..] == rest;
    } else {
      EscapedReadsBack(f[1..], rest);
      var n := |EscapeByte(f[0])|;
      assert s[n..] == Escape(f[1..]) + [QUOTE] + rest;
      assert f == [f[0]] + f[1..];
    }
  }

  /** What the reader returns was in the text, in order; nothing was skipped only if no backslash was met. */
  lemma {:induction false} ReadQuotedIs(s: Bytes)
    requires ReadQuoted(s).Some?
    ensures var (text, rest) := ReadQuoted(s).value;
            && |text| + 1 + |rest| <= |s| && rest == s[|s| - |rest|..]
            && (|text| + 1 + |rest| == |s| ==> BACKSLASH !in text && QUOTE !in text)
  {
    if s[0] == QUOTE {
    } else {
      ReadQuotedIs(s[if s[0] == BACKSLASH then 2 else 1..]);
    }
  }

  lemma {:induction false} PlainReadsBack(text: Bytes, rest: Bytes)
    requires BACKSLASH !in text && QUOTE !in text
    ensures ReadQuoted(text + [QUOTE] + rest) == Some((text, rest))
  {
    var s := text + [QUOTE] + rest;
    if text == [] {
      assert s[1..] == rest;
    } else {
      assert s[1..] == text[1..] + [QUOTE] + rest && text == [text[0]] + text[1..];
      PlainReadsBack(text[1..], rest);
    }
  }

  /** Text that is quoted but not escaped reads back exactly when it has nothing to escape. */
  lemma QuotedReadsBackIff(text: Bytes, rest: Bytes)
    ensures ReadQuoted(text + [QUOTE] + rest) == Some((text, rest)) <==> BACKSLASH !in text && QUOTE !in text
  {
    var s := text + [QUOTE] + rest;
    if BACKSLASH !in text && QUOTE !in text {
      PlainReadsBack(text, rest);
    } else if ReadQuoted(s).Some? {
      ReadQuotedIs(s);
    }
  }

  /** If it has, and the reader still returns it, then the reader has gone past its closing quote. */
  lemma MisreadGoesOn(text: Bytes, rest: Bytes)
    requires BACKSLASH in text || QUOTE in text
    requires ReadQuoted(text + [QUOTE] + rest).Some? && ReadQuoted(text + [QUOTE] + rest).value.0 == text
    ensures var later := ReadQuoted(text + [QUOTE] + rest).value.1;
            |later| < |rest| && later == rest[|rest| - |later|..]
  {
    ReadQuotedIs(text + [QUOTE] + rest);
  }

  /** In an escaped name every quote has a backslash before it. */
  lemma {:induction false} QuotesAreEscaped(f: Bytes, i: nat)
    requires i < |Escape(f)| && Escape(f)[i] == QUOTE
    ensures i > 0 && Escape(f)[i - 1] == BACKSLASH
  {
    var n := |EscapeByte(f[0])|;
    if i < n {
    } else {
      QuotesAreEscaped(f[1..], i - n);
    }
  }

  /** Unquoted text, read up to a semicolon or the end of the line, and what follows it. */
  function ReadToken(s: Bytes): (Bytes, Bytes) {
    if s == [] || s[0] == SEMICOLON || s[0] == CR then ([], s)
    else
      var (text, rest) := ReadToken(s[1..]);
      ([s[0]] + text, rest)
  }

  lemma {:induction false} ReadTokenIs(s: Bytes)
    ensures s == ReadToken(s).0 + ReadToken(s).1
  {
    if s == [] || s[0] == SEMICOLON || s[0] == CR {
    } else {
      ReadTokenIs(s[1..]);
    }
  }

  lemma {:induction false} TokenReadsBackIff(text: Bytes, rest: Bytes)
    requires CR !in text && (rest != [] ==> rest[0] == SEMICOLON || rest[0] == CR)
    ensures ReadToken(text + rest) == (text, rest) <==> SEMICOLON !in text
  {
    if text == [] {
      assert text + rest == rest;
    } else if text[0] != SEMICOLON {
      assert (text + rest)[1..] == text[1..] + rest && text == [text[0]] + text[1..];
      TokenReadsBackIff(text[1..], rest);
      assert ([text[0]] + ReadToken(text[1..] + rest).0)[1..] == ReadToken(text[1..] + rest).0;
    }
  }

  /** An escaped name has no line break in it. */
  lemma {:induction false} EscapedHasNoPair(f: Bytes)
    ensures NoPair(Escape(f)) && (f != [] ==> Escape(f) != [] && Escape(f)[0] != LF)
  {
    if f == [] {
    } else {
      EscapedHasNoPair(f[1..]);
    }
  }

  // ----- Field names -----

  datatype Encoding = PathSegment | AttrChar | NoOp

  predicate IsAlphanumeric(b: Byte) {
    48 <= b <= 57 || 65 <= b <= 90 || 97 <= b <= 122
  }

  /** The percent-encode sets; bytes outside ASCII are always encoded. */
  predicate Encodes(enc: Encoding, b: Byte) {
    match enc
    case PathSegment => b < 32 || b >= 127 || b in {32, 34, 35, 37, 47, 60, 62, 63, 96, 123, 125}
    case AttrChar => !IsAlphanumeric(b) && b !in {33, 35, 36, 38, 43, 45, 46, 94, 95, 96, 124, 126}
    case NoOp => false
  }

  function Hex(n: nat): Byte
    requires n < 16
  {
    if n < 10 then 48 + n else 55 + n
  }

  function UnHex(b: Byte): Option<nat> {
    if 48 <= b <= 57 then Some(b - 48) else if 65 <= b <= 70 then Some(b - 55) else None
  }

  function PercentByte(enc: Encoding, b: Byte): Bytes {
    if Encodes(enc, b) then [PERCENT, Hex(b / 16), Hex(b % 16)] else [b]
  }

  function PercentEncode(enc: Encoding, s: Bytes): Bytes {
    if s == [] then [] else PercentByte(enc, s[0]) + PercentEncode(enc, s[1..])
  }

  function PercentDecode(s: Bytes): Bytes {
    if s == [] then []
    else if s[0] == PERCENT && |s| >= 3 && UnHex(s[1]).Some? && UnHex(s[2]).Some? then
      [UnHex(s[1]).value * 16 + UnHex(s[2]).value] + PercentDecode(s[3..])
    else [s[0]] + PercentDecode(s[1..])
  }

  /** Quotes, semicolons and backslashes show up in an encoded name exactly when they are in the name and
      not encoded. */
  lemma {:induction false} TextHolds(enc: Encoding, s: Bytes, b: Byte)
    requires b == QUOTE || b == SEMICOLON || b == BACKSLASH
    ensures b in PercentEncode(enc, s) <==> b in s && !Encodes(enc, b)
  {
    if s == [] {
    } else {
      TextHolds(enc, s[1..], b);
      assert s == [s[0]] + s[1..];
      assert b in PercentByte(enc, s[0]) <==> b == s[0] && !Encodes(enc, b);
    }
  }

  /** The bytes that an encoding prints as they are: visible ASCII but for a few under the path-segment set, and the
      attr-char of section 3.2.1 of RFC 8187. */
  predicate Plain(enc: Encoding, b: Byte) {
    match enc
    case PathSegment => 33 <= b <= 126 && b !in Ascii("\"#%/<>?`{}")
    case AttrChar => IsAlphanumeric(b) || b in Ascii("!#$&+-.^_`|~")
    case NoOp => true
  }

  lemma EncodesIff(enc: Encoding, b: Byte)
    ensures Encodes(enc, b) <==> !Plain(enc, b)
  {
    assert Ascii("\"#%/<>?`{}") == [34, 35, 37, 47, 60, 62, 63, 96, 123, 125];
    assert Ascii("!#$&+-.^_`|~") == [33, 35, 36, 38, 43, 45, 46, 94, 95, 96, 124, 126];
  }

  /** Encoded text has only plain bytes and percent signs in it, and a name that is all plain is printed as it is. */
  lemma {:induction false} EncodedIsPlain(enc: Encoding, s: Bytes)
    ensures forall b :: b in PercentEncode(enc, s) ==> Plain(enc, b) || b == PERCENT
    ensures PercentEncode(enc, s) == s <==> forall i :: 0 <= i < |s| ==> Plain(enc, s[i])
    ensures |PercentEncode(enc, s)| >= |s|
  {
    if s == [] {
    } else {
      EncodedIsPlain(enc, s[1..]);
      EncodesIff(enc, s[0]);
      var head, tail := PercentByte(enc, s[0]), PercentEncode(enc, s[1..]);
      HexIsPlain(enc, s[0] / 16);
      HexIsPlain(enc, s[0] % 16);
      assert s == [s[0]] + s[1..];
      if head + tail == s {
        assert |head| == 1 && tail == (head + tail)[1..] == s[1..];
      }
    }
  }

  lemma HexIsPlain(enc: Encoding, n: nat)
    requires n < 16
    ensures Plain(enc, Hex(n))
  {
    EncodesIff(enc, Hex(n));
  }

  lemma HexReadsBack(n: nat)
    requires n < 16
    ensures UnHex(Hex(n)) == Some(n) && Hex(n) != CR && Hex(n) != LF && Hex(n) != QUOTE
  {
  }

  lemma PercentByteReadsBack(enc: Encoding, b: Byte, tail: Bytes)
    requires !enc.NoOp?
    ensures PercentDecode(PercentByte(enc, b) + tail) == [b] + PercentDecode(tail)
    ensures NoBreak(PercentByte(enc, b)) && QUOTE !in PercentByte(enc, b)
  {
    var head := PercentByte(enc, b);
    assert (head + tail)[|head|..] == tail;
    HexReadsBack(b / 16);
    HexReadsBack(b % 16);
  }

  /** An encoded name has no line break or quote in it, and decodes to the name. */
  lemma {:induction false} NameReadsBack(enc: Encoding, s: Bytes)
    requires !enc.NoOp?
    ensures PercentDecode(PercentEncode(enc, s)) == s
    ensures NoBreak(PercentEncode(enc, s)) && QUOTE !in PercentEncode(enc, s)
  {
    if s == [] {
    } else {
      NameReadsBack(enc, s[1..]);
      PercentByteReadsBack(enc, s[0], PercentEncode(enc, s[1..]));
      assert s == [s[0]] + s[1..];
    }
  }
}
