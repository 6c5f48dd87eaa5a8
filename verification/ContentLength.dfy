/** The Content-Length parser of src/core/headers.rs, with its 64-bit arithmetic. */
module ContentLength {
  import opened Wrappers
  import opened Octets

  const LIMIT: nat := 0x1_0000_0000_0000_0000
  const COMMA: Byte := 44

  predicate IsDigit(b: Byte) {
    48 <= b <= 57
  }

  predicate AllDigits(s: Bytes) {
    forall i :: 0 <= i < |s| ==> 48 <= s[i] <= 57
  }

  /** The number that a string of digits stands for, of whatever size. */
  function Decimal(s: Bytes): nat
    requires AllDigits(s)
  {
    if s == [] then 0 else Decimal(s[..|s| - 1]) * 10 + (s[|s| - 1] - 48)
  }

  lemma {:induction false} DecimalGrows(s: Bytes, i: nat)
    requires AllDigits(s) && i <= |s|
    ensures Decimal(s[..i]) <= Decimal(s)
    decreases |s|
  {
    if i == |s| {
      assert s[..i] == s;
    } else {
      assert s[..|s| - 1][..i] == s[..i];
      DecimalGrows(s[..|s| - 1], i);
    }
  }

  predicate IsNumber(s: Bytes) {
    s != [] && AllDigits(s) && Decimal(s) < LIMIT
  }

  /** `from_digits`: the checks on each step refuse exactly the strings whose value does not fit. */
  method FromDigits(s: Bytes) returns (r: Option<nat>)
    ensures r == if IsNumber(s) then Some(Decimal(s)) else None
  {
    var result := 0;
    if s == [] {
      return None;
    }
    for i := 0 to |s|
      invariant AllDigits(s[..i]) && result == Decimal(s[..i]) && result < LIMIT
    {
      if !IsDigit(s[i]) {
        return None;
      }
      assert s[..i + 1][..i] == s[..i];
      var product := result * 10;
      if product >= LIMIT || product + (s[i] - 48) >= LIMIT {
        if AllDigits(s) {
          DecimalGrows(s, i + 1);
        }
        return None;
      }
      result := product + (s[i] - 48);
    }
    assert s[..|s|] == s;
    r := Some(result);
  }

  // ----- Header lines -----

  /** The bytes that a header value may have to be read as text. */
  predicate IsText(line: Bytes) {
    forall i :: 0 <= i < |line| ==> 32 <= line[i] < 127 || line[i] == 9
  }

  predicate IsSpace(b: Byte) {
    b == 32 || b == 9
  }

  function Split(line: Bytes): (items: seq<Bytes>)
    ensures items != []
  {
    if line == [] then [[]]
    else
      var rest := Split(line[1..]);
      if line[0] == COMMA then [[]] + rest else [[line[0]] + rest[0]] + rest[1..]
  }

  function Join(items: seq<Bytes>): Bytes
    requires items != []
  {
    if |items| == 1 then items[0] else items[0] + [COMMA] + Join(items[1..])
  }

  /** Splitting loses nothing and cuts at every comma. */
  lemma {:induction false} SplitThenJoin(line: Bytes)
    ensures Join(Split(line)) == line
    ensures forall i :: 0 <= i < |Split(line)| ==> COMMA !in Split(line)[i]
  {
    if line == [] {
    } else {
      SplitThenJoin(line[1..]);
      var rest := Split(line[1..]);
      if line[0] == COMMA {
        assert ([[]] + rest)[1..] == rest;
      } else {
        var all := [[line[0]] + rest[0]] + rest[1..];
        assert all[1..] == rest[1..];
        assert Join(all) == [line[0]] + Join(rest);
      }
      assert line == [line[0]] + line[1..];
    }
  }

  function TrimStart(s: Bytes): Bytes {
    if s != [] && IsSpace(s[0]) then TrimStart(s[1..]) else s
  }

  function Trim(s: Bytes): Bytes
    decreases |s|
  {
    if s != [] && IsSpace(s[|s| - 1]) then Trim(s[..|s| - 1]) else TrimStart(s)
  }

  predicate AllSpace(s: Bytes) {
    forall i :: 0 <= i < |s| ==> s[i] == 32 || s[i] == 9
  }

  lemma {:induction false} TrimStartIs(s: Bytes) returns (before: Bytes)
    ensures s == before + TrimStart(s) && AllSpace(before)
    ensures TrimStart(s) != [] ==> TrimStart(s)[0] != 32 && TrimStart(s)[0] != 9
  {
    if s == [] || !IsSpace(s[0]) {
      before := [];
    } else {
      before := TrimStartIs(s[1..]);
      before := [s[0]] + before;
    }
  }

  /** Trimming takes off the spaces at both ends, all of them and nothing else. */
  lemma {:induction false} TrimTakesSpaces(s: Bytes) returns (before: Bytes, after: Bytes)
    ensures s == before + Trim(s) + after && AllSpace(before) && AllSpace(after)
    ensures Trim(s) != [] ==> var first, last := Trim(s)[0], Trim(s)[|Trim(s)| - 1];
                              first != 32 && first != 9 && last != 32 && last != 9
    decreases |s|
  {
    if s != [] && IsSpace(s[|s| - 1]) {
      before, after := TrimTakesSpaces(s[..|s| - 1]);
      assert s == s[..|s| - 1] + [s[|s| - 1]];
      after := after + [s[|s| - 1]];
    } else {
      before := TrimStartIs(s);
      after := [];
    }
  }

  /** Every item of every line is a number, and the number is `n`. */
  ghost predicate Agree(lines: seq<Bytes>, n: nat) {
    && lines != []
    && forall i :: 0 <= i < |lines| ==> LineAgrees(lines[i], n)
  }

  ghost predicate LineAgrees(line: Bytes, n: nat) {
    && (forall i :: 0 <= i < |line| ==> 32 <= line[i] <= 126 || line[i] == 9)
    && ItemsAgree(Split(line), n)
  }

  /** A number as it is written. */
  function Digits(n: nat): (s: Bytes)
    ensures s != [] && AllDigits(s) && Decimal(s) == n
  {
    if n < 10 then [48 + n] else
      var rest := Digits(n / 10);
      assert (rest + [48 + n % 10])[..|rest|] == rest;
      rest + [48 + n % 10]
  }

  /** Every length that fits is read from a line on which it is written. */
  lemma WrittenLengthIsRead(n: nat)
    requires n < LIMIT
    ensures Agree([Digits(n)], n)
  {
    var s := Digits(n);
    NoCommaNoSplit(s);
    assert s[0] >= 48 && s[|s| - 1] >= 48 && Trim(s) == s;
  }

  lemma {:induction false} NoCommaNoSplit(s: Bytes)
    requires COMMA !in s
    ensures Split(s) == [s]
  {
    if s == [] {
    } else {
      NoCommaNoSplit(s[1..]);
      assert s == [s[0]] + s[1..];
    }
  }

  ghost predicate ItemsAgree(items: seq<Bytes>, n: nat) {
    forall j :: 0 <= j < |items| ==> IsNumber(Trim(items[j])) && Decimal(Trim(items[j])) == n
  }

  lemma AgreeOnItem(lines: seq<Bytes>, n: nat, i: nat, j: nat)
    requires i < |lines| && j < |Split(lines[i])|
    ensures var item := Trim(Split(lines[i])[j]); Agree(lines, n) ==> IsNumber(item) && Decimal(item) == n
  {
    if Agree(lines, n) {
      assert LineAgrees(lines[i], n);
    }
  }

  /** `content_length_parse_all_values`: a length is found exactly when all items agree on it. */
  method ParseAll(lines: seq<Bytes>) returns (r: Option<nat>)
    ensures forall n: nat :: r == Some(n) <==> Agree(lines, n)
  {
    r := None;
    for i := 0 to |lines|
      invariant r.None? <==> i == 0
      invariant r.Some? ==> Agree(lines[..i], r.value)
    {
      var line := lines[i];
      if !IsText(line) {
        assert forall n: nat :: !LineAgrees(lines[i], n);
        return None;
      }
      var items := Split(line);
      for j := 0 to |items|
        invariant r.None? <==> i == 0 && j == 0
        invariant r.Some? ==> ItemsAgree(items[..j], r.value) && (i > 0 ==> Agree(lines[..i], r.value))
      {
        var n := FromDigits(Trim(items[j]));
        if r.None? {
          r := n;
        }
        if n.None? || r != n {
          forall m: nat ensures !Agree(lines, m) {
            AgreeOnItem(lines, m, i, j);
            AgreeOnItem(lines, m, 0, 0);
            if i > 0 {
              AgreeOnItem(lines[..i], r.value, 0, 0);
            } else if j > 0 {
              assert items[..j][0] == items[0];
            }
          }
          return None;
        }
      }
      assert items[..|items|] == items;
      assert LineAgrees(lines[i], r.value);
      assert lines[..i + 1] == lines[..i] + [line];
    }
    assert lines[..|lines|] == lines;
    if r.Some? {
      forall n: nat ensures r == Some(n) <==> Agree(lines, n) {
        AgreeOnItem(lines, n, 0, 0);
        AgreeOnItem(lines, r.value, 0, 0);
      }
    }
  }
}
