/** The string operations the analyzer borrows from Python's `str`: ASCII case
    mapping (`lower`, `capitalize`), whitespace stripping (`strip`), substring
    search (`in`), splitting on a separator (`split`) and on line boundaries
    (`splitlines`). Characters outside ASCII are left unchanged by the case
    mappings and are never whitespace or line boundaries here. */
module Text {

  // ---------------------------------------------------------------------------
  // Case mapping
  // ---------------------------------------------------------------------------

  predicate IsUpperLetter(c: char) { 'A' <= c <= 'Z' }

  predicate IsLowerLetter(c: char) { 'a' <= c <= 'z' }

  function LowerChar(c: char): char {
    if IsUpperLetter(c) then (c as int + 32) as char else c
  }

  function UpperChar(c: char): char {
    if IsLowerLetter(c) then (c as int - 32) as char else c
  }

  /** `s.lower()`: every character mapped through `LowerChar`, length kept. */
  function Lower(s: string): string {
    seq(|s|, i requires 0 <= i < |s| => LowerChar(s[i]))
  }

  /** A string is lower-case when `lower()` leaves it unchanged. */
  predicate IsLowered(s: string) { Lower(s) == s }

  lemma LowerIdempotent(s: string)
    ensures IsLowered(Lower(s))
  {
    assert Lower(Lower(s)) == Lower(s);
  }

  lemma LowerAppend(a: string, b: string)
    ensures Lower(a + b) == Lower(a) + Lower(b)
  {
  }

  /** `s.capitalize()`: the first character upper-cased, the rest lower-cased. */
  function Capitalize(s: string): (r: string)
    ensures |r| == |s|
    ensures r != [] ==> !IsLowerLetter(r[0])
    ensures r != [] ==> IsLowered(r[1..])
    ensures Lower(r) == Lower(s)
  {
    if s == [] then []
    else
      LowerAppend([UpperChar(s[0])], Lower(s[1..]));
      LowerIdempotent(s[1..]);
      assert s == [s[0]] + s[1..];
      LowerAppend([s[0]], s[1..]);
      assert ([UpperChar(s[0])] + Lower(s[1..]))[1..] == Lower(s[1..]);
      [UpperChar(s[0])] + Lower(s[1..])
  }

  /** On a lower-case string, `lower` undoes `capitalize`: so distinct
      lower-case strings stay distinct once capitalised. */
  lemma CapitalizeInjective(a: string, b: string)
    requires IsLowered(a) && IsLowered(b)
    requires Capitalize(a) == Capitalize(b)
    ensures a == b
  {
    assert Lower(Capitalize(a)) == a;
  }

  // ---------------------------------------------------------------------------
  // Whitespace and `strip`
  // ---------------------------------------------------------------------------

  /** The ASCII characters `str.isspace` accepts: tab, line feed, vertical tab,
      form feed, carriage return, the four information separators and space. */
  predicate IsSpace(c: char) {
    c == ' ' || 9 <= c as int <= 13 || 28 <= c as int <= 31
  }

  predicate AllSpace(s: string) {
    forall i :: 0 <= i < |s| ==> IsSpace(s[i])
  }

  /** Neither end of `s` is whitespace. */
  predicate IsTrimmed(s: string) {
    s == [] || (!IsSpace(s[0]) && !IsSpace(s[|s| - 1]))
  }

  /** `r` is what is left of `s` after removing whitespace only, and only from
      its two ends: `r` occurs in `s` at offset `i`, everything before and after
      that occurrence is whitespace, and `r` itself has no whitespace ends. */
  ghost predicate StrippedAt(s: string, r: string, i: int) {
    && 0 <= i && i + |r| <= |s|
    && s[i..i + |r|] == r
    && AllSpace(s[..i])
    && AllSpace(s[i + |r|..])
    && IsTrimmed(r)
  }

  /** `r` is `s` with its whitespace ends removed. */
  ghost predicate StripsTo(s: string, r: string) {
    exists i :: StrippedAt(s, r, i)
  }

  /** `s` without its leading whitespace. */
  function TrimStart(s: string): string {
    if s != [] && IsSpace(s[0]) then TrimStart(s[1..]) else s
  }

  /** `s` without its trailing whitespace. */
  function TrimEnd(s: string): string {
    if s != [] && IsSpace(s[|s| - 1]) then TrimEnd(s[..|s| - 1]) else s
  }

  /** `s.strip()`. Its meaning is stated by `StripSpec`. */
  function Strip(s: string): string {
    TrimEnd(TrimStart(s))
  }

  lemma {:induction false} TrimStartSpec(s: string)
    ensures var r := TrimStart(s);
      && |r| <= |s| && r == s[|s| - |r|..]
      && AllSpace(s[..|s| - |r|])
      && (r == [] || !IsSpace(r[0]))
  {
    if s != [] && IsSpace(s[0]) {
      TrimStartSpec(s[1..]);
      var r := TrimStart(s);
      assert s[..|s| - |r|] == [s[0]] + s[1..][..|s| - 1 - |r|];
    }
  }

  lemma {:induction false} TrimEndSpec(s: string)
    ensures var r := TrimEnd(s);
      && |r| <= |s| && r == s[..|r|]
      && AllSpace(s[|r|..])
      && (r == [] || !IsSpace(r[|r| - 1]))
  {
    if s != [] && IsSpace(s[|s| - 1]) {
      var t := s[..|s| - 1];
      TrimEndSpec(t);
      var r := TrimEnd(s);
      assert s[|r|..] == t[|r|..] + [s[|s| - 1]];
    }
  }

  /** `strip` removes whitespace, and only whitespace, from the two ends, and
      leaves a string with no whitespace end. */
  lemma StripSpec(s: string)
    ensures StripsTo(s, Strip(s))
  {
    var t := TrimStart(s);
    var r := TrimEnd(t);
    TrimStartSpec(s);
    TrimEndSpec(t);
    var i := |s| - |t|;
    assert r == Strip(s);
    assert s[i..i + |r|] == r;
    assert s[i + |r|..] == t[|r|..];
    assert AllSpace(s[..i]);
    assert AllSpace(s[i + |r|..]);
    assert r != [] ==> r[0] == t[0];
    assert IsTrimmed(r);
    assert StrippedAt(s, r, i);
  }

  /** `strip` adds no character: a character absent from `s` is absent from
      `Strip(s)`. */
  lemma StripKeepsOut(s: string, c: char)
    requires c !in s
    ensures c !in Strip(s)
  {
    StripSpec(s);
    var i :| StrippedAt(s, Strip(s), i);
    var r := Strip(s);
    assert forall m :: 0 <= m < |r| ==> r[m] == s[i + m];
  }

  /** The pieces `strip` removes are exactly the whitespace ends: a string with
      no whitespace at either end is left as it is. */
  lemma StripTrimmed(s: string)
    requires IsTrimmed(s)
    ensures Strip(s) == s
  {
    StripSpec(s);
    var i :| StrippedAt(s, Strip(s), i);
  }

  lemma StripIdempotent(s: string)
    ensures Strip(Strip(s)) == Strip(s)
  {
    StripSpec(s);
    var i :| StrippedAt(s, Strip(s), i);
    StripTrimmed(Strip(s));
  }

  // ---------------------------------------------------------------------------
  // Substring search (`sub in s`)
  // ---------------------------------------------------------------------------

  ghost predicate OccursAt(s: string, sub: string, i: int) {
    0 <= i && i + |sub| <= |s| && s[i..i + |sub|] == sub
  }

  predicate StartsWith(s: string, prefix: string) {
    |prefix| <= |s| && s[..|prefix|] == prefix
  }

  /** `sub in s`: some window of `s` equals `sub`. */
  function Contains(s: string, sub: string): (b: bool)
    ensures b <==> exists i :: OccursAt(s, sub, i)
    decreases |s|
  {
    assert StartsWith(s, sub) ==> OccursAt(s, sub, 0);
    if s == [] then
      StartsWith(s, sub)
    else
      OccursShift(s, sub);
      StartsWith(s, sub) || Contains(s[1..], sub)
  }

  /** An occurrence is either at the front or an occurrence in the tail. */
  lemma OccursShift(s: string, sub: string)
    requires s != []
    ensures (exists i :: OccursAt(s, sub, i))
        <==> (StartsWith(s, sub) || exists j :: OccursAt(s[1..], sub, j))
  {
    if StartsWith(s, sub) {
      assert OccursAt(s, sub, 0);
    }
    if j :| OccursAt(s[1..], sub, j) {
      assert OccursAt(s, sub, j + 1);
    }
    if i :| OccursAt(s, sub, i) {
      if i > 0 {
        assert OccursAt(s[1..], sub, i - 1);
      } else {
        assert s[..|sub|] == s[i..i + |sub|];
      }
    }
  }

  // ---------------------------------------------------------------------------
  // `split` on one separator character
  // ---------------------------------------------------------------------------

  /** Glue the pieces back together with `sep` between neighbours. */
  function Join(pieces: seq<string>, sep: char): string
    requires |pieces| >= 1
  {
    if |pieces| == 1 then pieces[0] else pieces[0] + [sep] + Join(pieces[1..], sep)
  }

  /** `s.split(sep)` for a one-character separator: at least one piece, no piece
      holds the separator, and joining the pieces with it gives `s` back. */
  function Split(s: string, sep: char): (pieces: seq<string>)
    ensures |pieces| >= 1
    ensures forall k :: 0 <= k < |pieces| ==> sep !in pieces[k]
    ensures Join(pieces, sep) == s
    decreases |s|
  {
    if s == [] then [[]]
    else
      var t := Split(s[1..], sep);
      if s[0] == sep then
        assert s == [sep] + s[1..];
        [[]] + t
      else
        var r := [[s[0]] + t[0]] + t[1..];
        assert r[1..] == t[1..];
        assert s == [s[0]] + s[1..];
        r
  }

  /** The other direction of the round trip: separator-free pieces are found
      again by splitting their join. */
  lemma {:induction false} SplitJoin(pieces: seq<string>, sep: char)
    requires |pieces| >= 1
    requires forall k :: 0 <= k < |pieces| ==> sep !in pieces[k]
    ensures Split(Join(pieces, sep), sep) == pieces
    decreases |Join(pieces, sep)|
  {
    var p := pieces[0];
    if |pieces| == 1 {
      SplitFree(p, sep);
    } else if p == [] {
      JoinEmptyHead(pieces, sep);
      SplitJoin(pieces[1..], sep);
      SplitAtSep(Join(pieces[1..], sep), sep);
    } else {
      var tail := [p[1..]] + pieces[1..];
      JoinShift(pieces, sep);
      SplitJoin(tail, sep);
      SplitAtOther(p[0], Join(tail, sep), sep);
      assert [[p[0]] + tail[0]] + tail[1..] == pieces;
    }
  }

  /** An empty first piece leaves just the separator in front of the join. */
  lemma JoinEmptyHead(pieces: seq<string>, sep: char)
    requires |pieces| >= 2 && pieces[0] == []
    requires forall k :: 0 <= k < |pieces| ==> sep !in pieces[k]
    ensures Join(pieces, sep) == [sep] + Join(pieces[1..], sep)
    ensures forall k :: 0 <= k < |pieces[1..]| ==> sep !in pieces[1..][k]
    ensures [[]] + pieces[1..] == pieces
  {
    assert forall k :: 0 <= k < |pieces[1..]| ==> pieces[1..][k] == pieces[k + 1];
  }

  /** Moving the first character of a non-empty first piece out of the join. */
  lemma JoinShift(pieces: seq<string>, sep: char)
    requires |pieces| >= 2 && pieces[0] != []
    requires forall k :: 0 <= k < |pieces| ==> sep !in pieces[k]
    ensures var p := pieces[0];
      var tail := [p[1..]] + pieces[1..];
      && |tail| >= 1
      && (forall k :: 0 <= k < |tail| ==> sep !in tail[k])
      && Join(pieces, sep) == [p[0]] + Join(tail, sep)
      && p[0] != sep
      && [p[0]] + tail[0] == p
      && tail[1..] == pieces[1..]
  {
    var p := pieces[0];
    var tail := [p[1..]] + pieces[1..];
    assert tail[0] == p[1..] && tail[1..] == pieces[1..];
    assert sep !in p[1..];
    assert forall k :: 1 <= k < |tail| ==> tail[k] == pieces[k];
    var rest := Join(pieces[1..], sep);
    assert Join(tail, sep) == p[1..] + [sep] + rest;
    assert Join(pieces, sep) == p + [sep] + rest;
    assert [p[0]] + p[1..] == p;
  }

  /** A leading separator splits off an empty piece. */
  lemma SplitAtSep(rest: string, sep: char)
    ensures Split([sep] + rest, sep) == [[]] + Split(rest, sep)
  {
    assert ([sep] + rest)[1..] == rest;
  }

  /** A leading character other than the separator joins the first piece. */
  lemma SplitAtOther(c: char, rest: string, sep: char)
    requires c != sep
    ensures Split([c] + rest, sep) == [[c] + Split(rest, sep)[0]] + Split(rest, sep)[1..]
  {
    assert ([c] + rest)[1..] == rest;
  }

  lemma {:induction false} SplitFree(s: string, sep: char)
    requires sep !in s
    ensures Split(s, sep) == [s]
    decreases |s|
  {
    if s != [] {
      SplitFree(s[1..], sep);
      assert [s[0]] + s[1..] == s;
    }
  }

  // ---------------------------------------------------------------------------
  // `splitlines`
  // ---------------------------------------------------------------------------

  /** The ASCII line boundaries of `str.splitlines`: line feed, vertical tab,
      form feed, carriage return and the file, group and record separators. */
  predicate IsLineBreak(c: char) {
    10 <= c as int <= 13 || 28 <= c as int <= 30
  }

  predicate HasNoBreak(s: string) {
    forall i :: 0 <= i < |s| ==> !IsLineBreak(s[i])
  }

  /** The index of the first line boundary in `s`, or `|s|` if there is none. */
  function BreakIndex(s: string): (i: nat)
    ensures i <= |s| && HasNoBreak(s[..i])
    ensures i < |s| ==> IsLineBreak(s[i])
  {
    if s == [] || IsLineBreak(s[0]) then 0
    else
      var j := BreakIndex(s[1..]);
      assert s[..j + 1] == [s[0]] + s[1..][..j];
      j + 1
  }

  /** `s.splitlines()`: the text between boundaries, the boundaries themselves
      dropped, "\r\n" read as one boundary, and no empty line after a final
      boundary. */
  function SplitLines(s: string): (lines: seq<string>)
    ensures forall k :: 0 <= k < |lines| ==> HasNoBreak(lines[k])
    decreases |s|
  {
    if s == [] then []
    else
      var i := BreakIndex(s);
      if i == |s| then [s]
      else
        var next := if s[i] == '\r' && i + 1 < |s| && s[i + 1] == '\n' then i + 2 else i + 1;
        [s[..i]] + SplitLines(s[next..])
  }

  /** The lines written one after another, each followed by a line feed. */
  function Terminated(lines: seq<string>): string {
    if lines == [] then [] else lines[0] + "\n" + Terminated(lines[1..])
  }

  lemma {:induction false} BreakIndexAfterLine(line: string, rest: string)
    requires HasNoBreak(line) && rest != [] && IsLineBreak(rest[0])
    ensures BreakIndex(line + rest) == |line|
    decreases |line|
  {
    var s := line + rest;
    if line == [] {
      assert s == rest;
    } else {
      assert s[0] == line[0] && !IsLineBreak(line[0]);
      assert s[1..] == line[1..] + rest;
      BreakIndexAfterLine(line[1..], rest);
      assert BreakIndex(s) == BreakIndex(s[1..]) + 1;
    }
  }

  /** A last line with no boundary after it is still a line. */
  lemma SplitLinesLast(line: string)
    requires HasNoBreak(line) && line != []
    ensures SplitLines(line) == [line]
  {
    BreakIndexNone(line);
  }

  lemma {:induction false} BreakIndexNone(s: string)
    requires HasNoBreak(s)
    ensures BreakIndex(s) == |s|
  {
    if s != [] {
      assert HasNoBreak(s[1..]);
      BreakIndexNone(s[1..]);
    }
  }

  /** A line ended by any boundary character, other than a carriage return
      directly followed by a line feed. */
  lemma SplitLinesAt(line: string, b: char, rest: string)
    requires HasNoBreak(line) && IsLineBreak(b)
    requires !(b == '\r' && rest != [] && rest[0] == '\n')
    ensures SplitLines(line + [b] + rest) == [line] + SplitLines(rest)
  {
    var s := line + [b] + rest;
    var i := |line|;
    assert s == line + ([b] + rest);
    BreakIndexAfterLine(line, [b] + rest);
    assert s[..i] == line && s[i] == b && s[i + 1..] == rest;
    assert i + 1 < |s| ==> s[i + 1] == rest[0];
    SplitLinesSingleBreak(s, i);
  }

  /** Unfolding `splitlines` at a boundary that is not "\r\n". */
  lemma SplitLinesSingleBreak(s: string, i: nat)
    requires i < |s| && BreakIndex(s) == i
    requires !(s[i] == '\r' && i + 1 < |s| && s[i + 1] == '\n')
    ensures SplitLines(s) == [s[..i]] + SplitLines(s[i + 1..])
  {
  }

  /** "\r\n" ends a line as one boundary, not two. */
  lemma SplitLinesCrLf(line: string, rest: string)
    requires HasNoBreak(line)
    ensures SplitLines(line + "\r\n" + rest) == [line] + SplitLines(rest)
  {
    var s := line + "\r\n" + rest;
    assert s == line + ("\r\n" + rest);
    BreakIndexAfterLine(line, "\r\n" + rest);
    assert s[..|line|] == line;
    assert s[|line|] == '\r' && s[|line| + 1] == '\n';
    assert s[|line| + 2..] == rest;
  }

  /** `splitlines` recovers the lines of a text written one per line. */
  lemma {:induction false} SplitLinesTerminated(lines: seq<string>)
    requires forall k :: 0 <= k < |lines| ==> HasNoBreak(lines[k])
    ensures SplitLines(Terminated(lines)) == lines
  {
    if lines != [] {
      var l := lines[0];
      var rest := Terminated(lines[1..]);
      var s := Terminated(lines);
      assert s == l + ("\n" + rest);
      BreakIndexAfterLine(l, "\n" + rest);
      assert s[..|l|] == l;
      assert s[|l| + 1..] == rest;
      SplitLinesTerminated(lines[1..]);
    }
  }
}
