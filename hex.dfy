/** hex.ParseDump: reads the bytes back out of a textual dump, either `hex.Dump`
    output (lines ending in '|') or a Wireshark hex pane. The input is trimmed and
    split into lines as `bufio.Scanner` does; each non-blank line contributes the hex
    digits of its fixed column range, decoded as `hex.DecodeString` does.

    Characters stand for the bytes of the Go string, so the column offsets are
    character offsets; the dumps are ASCII. */
module Hex {
  import opened Bytes
  import opened Wrappers
  import opened Errors

  // ------------------------------------------------------------ strings

  /** The ASCII white space `strings.TrimSpace` removes. */
  predicate IsSpace(c: char)
  {
    c == ' ' || c == '\t' || c == '\n' || c == '\r' || c == 11 as char || c == 12 as char
  }

  function TrimLeft(s: string): (r: string)
    ensures |r| <= |s| && r == s[|s| - |r|..]
    ensures r != [] ==> !IsSpace(r[0])
    ensures forall i :: 0 <= i < |s| - |r| ==> IsSpace(s[i])
  {
    if s != [] && IsSpace(s[0]) then TrimLeft(s[1..]) else s
  }

  function TrimRight(s: string): (r: string)
    ensures |r| <= |s| && r == s[..|r|]
    ensures r != [] ==> !IsSpace(r[|r| - 1])
    ensures forall i :: |r| <= i < |s| ==> IsSpace(s[i])
  {
    if s != [] && IsSpace(s[|s| - 1]) then TrimRight(s[..|s| - 1]) else s
  }

  /** strings.TrimSpace: the input without leading and trailing white space. */
  function TrimSpace(s: string): (r: string)
  {
    TrimRight(TrimLeft(s))
  }

  /** strings.Join(strings.Split(s, " "), ""): every ' ' removed. */
  function RemoveSpaces(s: string): (r: string)
    ensures |r| <= |s|
    ensures forall i :: 0 <= i < |r| ==> r[i] != ' '
    ensures ' ' !in s ==> r == s
    ensures ' ' in s ==> |r| < |s|
  {
    if s == [] then []
    else if s[0] == ' ' then RemoveSpaces(s[1..])
    else [s[0]] + RemoveSpaces(s[1..])
  }

  /** Removing spaces works piecewise: the rest of `a` stays in front of the rest of
      `b`. With the ensures above (a lone space shrinks to nothing, a space-free string
      stays), RemoveSpaces drops every space and keeps every other character, in order. */
  lemma {:induction false} RemoveSpacesAppend(a: string, b: string)
    ensures RemoveSpaces(a + b) == RemoveSpaces(a) + RemoveSpaces(b)
  {
    if a != [] {
      assert (a + b)[0] == a[0] && (a + b)[1..] == a[1..] + b;
      RemoveSpacesAppend(a[1..], b);
    } else {
      assert a + b == b;
    }
  }

  /** The position of the first '\n', or |s| when there is none. */
  function NewlineAt(s: string): (i: nat)
    ensures i <= |s|
    ensures forall j :: 0 <= j < i ==> s[j] != '\n'
    ensures i < |s| ==> s[i] == '\n'
  {
    if s == [] || s[0] == '\n' then 0 else 1 + NewlineAt(s[1..])
  }

  function DropCR(s: string): string
  {
    if s != [] && s[|s| - 1] == '\r' then s[..|s| - 1] else s
  }

  /** The tokens of `bufio.ScanLines` over the whole input: each ends at a '\n' (not
      included, nor a '\r' just before it), and a final piece without a '\n' is a
      token of its own. */
  function Lines(s: string): (ls: seq<string>)
    ensures forall i :: 0 <= i < |ls| ==> '\n' !in ls[i]
    decreases |s|
  {
    if s == [] then []
    else
      var i := NewlineAt(s);
      if i == |s| then [DropCR(s)]
      else [DropCR(s[..i])] + Lines(s[i + 1..])
  }

  /** strings.Join(lines, "\n"). */
  function JoinLines(ls: seq<string>): string
  {
    if ls == [] then []
    else if |ls| == 1 then ls[0]
    else ls[0] + ['\n'] + JoinLines(ls[1..])
  }

  lemma JoinLinesCons(head: string, ls: seq<string>)
    requires ls != []
    ensures JoinLines([head] + ls) == head + ['\n'] + JoinLines(ls)
  {
    assert ([head] + ls)[1..] == ls;
  }

  /** For an input without '\r' that does not end in '\n' (as a trimmed dump does),
      the lines joined by '\n' give back the input: every character lands in exactly
      one line, in input order. */
  lemma {:induction false} LinesJoin(s: string)
    requires NoCR(s)
    requires s == [] || s[|s| - 1] != '\n'
    ensures JoinLines(Lines(s)) == s
    decreases |s|
  {
    if s == [] {
      assert Lines(s) == [];
    } else if NewlineAt(s) == |s| {
      LinesWhole(s);
    } else {
      var i := NewlineAt(s);
      var rest := s[i + 1..];
      LinesSplit(s, i);
      RestAfterNewline(s, i);
      SplitAtNewline(s, i);
      LinesJoin(rest);
      LinesNonEmpty(rest);
      JoinLinesCons(s[..i], Lines(rest));
    }
  }

  /** No carriage return in `s`. */
  predicate NoCR(s: string)
  {
    forall k :: 0 <= k < |s| ==> s[k] != '\r'
  }

  /** A line without a '\n' is a single line. */
  lemma LinesWhole(s: string)
    requires NoCR(s) && s != [] && NewlineAt(s) == |s|
    ensures Lines(s) == [s]
  {
  }

  /** Lines of a non-empty input are never empty. */
  lemma LinesNonEmpty(s: string)
    requires s != []
    ensures Lines(s) != []
  {
  }

  /** One step of `Lines`: the first line, then the lines after its '\n'. */
  lemma LinesUnfold(s: string, i: nat)
    requires s != [] && i == NewlineAt(s) < |s|
    ensures Lines(s) == [DropCR(s[..i])] + Lines(s[i + 1..])
  {
  }

  /** Without a '\r' there is nothing for `DropCR` to drop. */
  lemma DropCRKeeps(h: string)
    requires NoCR(h)
    ensures DropCR(h) == h
  {
    if h != [] {
      assert h[|h| - 1] != '\r';
    }
  }

  /** The first line of an input without '\r' is the text before its '\n'. */
  lemma LinesSplit(s: string, i: nat)
    requires NoCR(s) && s != [] && i == NewlineAt(s) < |s|
    ensures Lines(s) == [s[..i]] + Lines(s[i + 1..])
  {
    LinesUnfold(s, i);
    assert NoCR(s[..i]) by {
      forall k | 0 <= k < i ensures s[..i][k] != '\r' { assert s[..i][k] == s[k]; }
    }
    DropCRKeeps(s[..i]);
  }

  /** What follows the first '\n' is again a non-empty input without '\r' that does
      not end in '\n'. */
  lemma RestAfterNewline(s: string, i: nat)
    requires NoCR(s) && i < |s| && s[i] == '\n' && s[|s| - 1] != '\n'
    ensures var rest := s[i + 1..]; rest != [] && NoCR(rest) && rest[|rest| - 1] != '\n'
  {
    var rest := s[i + 1..];
    assert |rest| == |s| - i - 1 > 0;
    assert rest[|rest| - 1] == s[|s| - 1];
    forall k | 0 <= k < |rest| ensures rest[k] != '\r' { assert rest[k] == s[i + 1 + k]; }
  }

  /** An input is the text before position `i`, the '\n' there, and what follows. */
  lemma SplitAtNewline(s: string, i: nat)
    requires i < |s| && s[i] == '\n'
    ensures s == s[..i] + ['\n'] + s[i + 1..]
  {
    assert s == s[..i] + s[i..];
    assert s[i..] == ['\n'] + s[i + 1..];
  }

  // ------------------------------------------------------------ hex digits

  predicate IsHexDigit(c: char)
  {
    '0' <= c <= '9' || 'a' <= c <= 'f' || 'A' <= c <= 'F'
  }

  function HexVal(c: char): (v: nat)
    requires IsHexDigit(c)
    ensures v < 16
  {
    if '0' <= c <= '9' then c as int - '0' as int
    else if 'a' <= c <= 'f' then c as int - 'a' as int + 10
    else c as int - 'A' as int + 10
  }

  /** The lower-case digit `hex.EncodeToString` writes for a nibble. */
  function HexDigit(n: nat): (c: char)
    requires n < 16
    ensures IsHexDigit(c) && HexVal(c) == n
  {
    if n < 10 then ('0' as int + n) as char else ('a' as int + n - 10) as char
  }

  /** hex.DecodeString: pairs of digits, high nibble first. A bad character is
      reported before an odd length, since the pair loop runs first and the last
      lone character is checked before the length is. */
  function DecodeHex(t: string): (r: Result<Bytes, Error>)
    ensures r.Ok? ==> |t| == 2 * |r.value|
  {
    if t == [] then Ok([])
    else if |t| == 1 then
      if IsHexDigit(t[0]) then Err(OddHexLength) else Err(InvalidHexByte(t[0]))
    else if !IsHexDigit(t[0]) then Err(InvalidHexByte(t[0]))
    else if !IsHexDigit(t[1]) then Err(InvalidHexByte(t[1]))
    else match DecodeHex(t[2..])
      case Err(e) => Err(e)
      case Ok(rest) => Ok([16 * HexVal(t[0]) + HexVal(t[1])] + rest)
  }

  /** hex.EncodeToString: two lower-case digits per byte. */
  function EncodeHex(b: Bytes): (t: string)
    ensures |t| == 2 * |b|
  {
    if b == [] then [] else [HexDigit(b[0] / 16), HexDigit(b[0] % 16)] + EncodeHex(b[1..])
  }

  /** Decoding the digits of a byte string gives the bytes back. */
  lemma {:induction false} DecodeEncodeHex(b: Bytes)
    ensures DecodeHex(EncodeHex(b)) == Ok(b)
  {
    if b != [] {
      var t := EncodeHex(b);
      assert t[2..] == EncodeHex(b[1..]);
      DecodeEncodeHex(b[1..]);
      assert 16 * HexVal(t[0]) + HexVal(t[1]) == 16 * (b[0] / 16) + b[0] % 16 == b[0];
      assert [b[0]] + b[1..] == b;
    }
  }

  /** A string of even length made of hex digits always decodes, and an odd length
      or a non-digit always fails. */
  lemma {:induction false} DecodeHexSucceedsWhen(t: string)
    ensures DecodeHex(t).Ok? <==> |t| % 2 == 0 && forall i :: 0 <= i < |t| ==> IsHexDigit(t[i])
  {
    if |t| >= 2 {
      DecodeHexSucceedsWhen(t[2..]);
      assert forall i :: 2 <= i < |t| ==> t[i] == t[2..][i - 2];
    }
  }

  // ------------------------------------------------------------ dumps

  /** A line of `hex.Dump` output ends with the '|' closing its character column. */
  predicate IsGoDumpLine(line: string)
  {
    line != [] && line[|line| - 1] == '|'
  }

  /** The trimmed, non-blank line is long enough for the column range ParseDump takes
      from it; shorter lines make the Go slice expression panic. */
  predicate LongEnough(line: string)
  {
    if IsGoDumpLine(line) then |line| >= 60 else |line| >= 54
  }

  /** The hex digits of one trimmed, non-blank line: columns 8 to 60 of a `hex.Dump`
      line, columns 7 to 54 of a Wireshark line, trimmed and without spaces. The
      column choice is carried by the body; the ensures records only that no space
      is left. */
  function HexColumns(line: string): (t: string)
    requires LongEnough(line)
    ensures forall i :: 0 <= i < |t| ==> t[i] != ' '
  {
    if IsGoDumpLine(line) then RemoveSpaces(TrimSpace(line[8..60]))
    else RemoveSpaces(TrimSpace(line[7..54]))
  }

  /** A line ParseDump can slice: blank, or long enough once trimmed. */
  predicate LineOk(line: string)
  {
    TrimSpace(line) != [] ==> LongEnough(TrimSpace(line))
  }

  predicate LinesOk(lines: seq<string>)
  {
    forall i :: 0 <= i < |lines| ==> LineOk(lines[i])
  }

  /** The input ParseDump handles without panicking. */
  predicate WellFormedDump(s: string)
  {
    LinesOk(Lines(TrimSpace(s)))
  }

  /** A non-blank line whose digits do not decode. */
  predicate LineFails(line: string)
  {
    var t := TrimSpace(line);
    t != [] && LongEnough(t) && DecodeHex(HexColumns(t)).Err?
  }

  /** The bytes the scanner loop collects from `lines`: blank lines are skipped, each
      other line's digits are decoded and appended, and the first decode error ends
      the whole call. */
  function ParseLines(lines: seq<string>): (r: Result<Bytes, Error>)
    requires LinesOk(lines)
  {
    if lines == [] then Ok([])
    else
      var line := TrimSpace(lines[0]);
      if line == [] then ParseLines(lines[1..])
      else match DecodeHex(HexColumns(line))
        case Err(e) => Err(e)
        case Ok(b) =>
          match ParseLines(lines[1..])
          case Err(e) => Err(e)
          case Ok(rest) => Ok(b + rest)
  }

  lemma LinesOkAppend(a: seq<string>, b: seq<string>)
    requires LinesOk(a) && LinesOk(b)
    ensures LinesOk(a + b)
  {
    forall i | 0 <= i < |a + b| ensures LineOk((a + b)[i]) {
      if i < |a| {
        assert (a + b)[i] == a[i];
      } else {
        assert (a + b)[i] == b[i - |a|];
      }
    }
  }

  /** The dump of two pieces is the dump of the first followed by that of the second;
      an error in the first piece wins. */
  lemma {:induction false} ParseLinesAppend(a: seq<string>, b: seq<string>)
    requires LinesOk(a) && LinesOk(b)
    ensures LinesOk(a + b)
    ensures ParseLines(a).Err? ==> ParseLines(a + b) == ParseLines(a)
    ensures ParseLines(a).Ok? ==> ParseLines(a + b) == Then(ParseLines(a).value, ParseLines(b))
  {
    LinesOkAppend(a, b);
    if a == [] {
      assert a + b == b;
      ThenNil(ParseLines(b));
    } else {
      var c := a + b;
      assert c[0] == a[0];
      assert c[1..] == a[1..] + b;
      ParseLinesAppend(a[1..], b);
      var line := TrimSpace(a[0]);
      if line != [] {
        var d := DecodeHex(HexColumns(line));
        if d.Ok? && ParseLines(a[1..]).Ok? {
          ThenAssoc(d.value, ParseLines(a[1..]).value, ParseLines(b));
        }
      }
    }
  }

  /** A blank line contributes nothing. */
  lemma BlankLineIgnored(line: string, rest: seq<string>)
    requires TrimSpace(line) == [] && LinesOk(rest)
    ensures LinesOk([line] + rest)
    ensures ParseLines([line] + rest) == ParseLines(rest)
  {
    assert ([line] + rest)[1..] == rest;
  }

  /** The call fails exactly when some non-blank line's digits do not decode. */
  lemma {:induction false} ParseLinesFailsWhen(lines: seq<string>)
    requires LinesOk(lines)
    ensures ParseLines(lines).Err? <==> exists i :: 0 <= i < |lines| && LineFails(lines[i])
  {
    if lines != [] {
      var tail := lines[1..];
      assert LinesOk(tail);
      ParseLinesFailsWhen(tail);
      ParseLinesHead(lines);
      if ParseLines(tail).Err? {
        var i :| 0 <= i < |tail| && LineFails(tail[i]);
        assert LineFails(lines[i + 1]);
      }
      if exists i :: 0 <= i < |lines| && LineFails(lines[i]) {
        var i :| 0 <= i < |lines| && LineFails(lines[i]);
        if i > 0 {
          assert LineFails(tail[i - 1]);
        }
      }
    }
  }

  /** The first line's decode error, or any later one, fails the whole call. */
  lemma ParseLinesHead(lines: seq<string>)
    requires lines != [] && LinesOk(lines)
    ensures ParseLines(lines).Err? <==> LineFails(lines[0]) || ParseLines(lines[1..]).Err?
  {
    assert LineOk(lines[0]);
  }

  /** What the line at `i` contributes, as the ParseDump loop sees it. */
  lemma ParseLinesAt(lines: seq<string>, i: nat)
    requires i < |lines| && LinesOk(lines[i..])
    ensures LinesOk(lines[i + 1..])
    ensures TrimSpace(lines[i]) == [] ==> ParseLines(lines[i..]) == ParseLines(lines[i + 1..])
    ensures TrimSpace(lines[i]) != [] ==> LongEnough(TrimSpace(lines[i]))
    ensures TrimSpace(lines[i]) != [] && DecodeHex(HexColumns(TrimSpace(lines[i]))).Err? ==>
      ParseLines(lines[i..]) == Err(DecodeHex(HexColumns(TrimSpace(lines[i]))).error)
    ensures TrimSpace(lines[i]) != [] && DecodeHex(HexColumns(TrimSpace(lines[i]))).Ok? ==>
      ParseLines(lines[i..]) == Then(DecodeHex(HexColumns(TrimSpace(lines[i]))).value, ParseLines(lines[i + 1..]))
  {
    assert lines[i..][0] == lines[i] && lines[i..][1..] == lines[i + 1..];
    assert LineOk(lines[i..][0]);
    var rest := lines[i + 1..];
    forall j | 0 <= j < |rest| ensures LineOk(rest[j]) {
      assert rest[j] == lines[i..][j + 1];
    }
  }

  /** ParseDump: the scanner loop over the lines of the trimmed input, appending each
      decoded line to the result. */
  method ParseDump(s: string) returns (r: Result<Bytes, Error>)
    requires WellFormedDump(s)
    ensures r == ParseLines(Lines(TrimSpace(s)))
  {
    var lines := Lines(TrimSpace(s));
    var res: Bytes := [];
    var i := 0;
    assert lines[0..] == lines;
    ThenNil(ParseLines(lines));
    while i < |lines|
      invariant 0 <= i <= |lines|
      invariant LinesOk(lines[i..])
      invariant ParseLines(lines) == Then(res, ParseLines(lines[i..]))
      decreases |lines| - i
    {
      ParseLinesAt(lines, i);
      var line := TrimSpace(lines[i]);
      if line == [] {
        i := i + 1;
        continue;
      }
      var b := DecodeHex(HexColumns(line));
      if b.Err? {
        return Err(b.error);
      }
      ThenAssoc(res, b.value, ParseLines(lines[i + 1..]));
      res := res + b.value;
      i := i + 1;
    }
    assert res + [] == res;
    r := Ok(res);
  }
}
