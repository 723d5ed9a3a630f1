/** Strings as Python's `strip`, `splitlines` and `join` see them, for texts whose only
    line break is the newline character. */
module Text {
  import opened Basics

  predicate IsSpace(c: char) {
    c == ' ' || c == '\t' || c == '\n' || c == '\U{1f}' || c == '\U{a0}' || c == '\U{1680}'
    || '\U{2000}' <= c <= '\U{200a}' || c == '\U{202f}' || c == '\U{205f}' || c == '\U{3000}'
  }

  function Strip(s: string): string {
    if s == "" then s
    else if IsSpace(s[0]) then Strip(s[1..])
    else if IsSpace(s[|s| - 1]) then Strip(s[..|s| - 1])
    else s
  }

  /** No whitespace at either end. */
  predicate Stripped(s: string) {
    s == "" || (!IsSpace(s[0]) && !IsSpace(s[|s| - 1]))
  }

  predicate StartsWith(s: string, prefix: string) {
    prefix <= s
  }

  /** The position of the first `c`, or the length. */
  function Find(s: string, c: char): (i: nat)
    ensures i <= |s|
    ensures forall k :: 0 <= k < i ==> s[k] != c
    ensures i < |s| ==> s[i] == c
  {
    if s == "" || s[0] == c then 0 else 1 + Find(s[1..], c)
  }

  /** The lines; a final newline does not open another one. */
  function SplitLines(s: string): seq<string> {
    if s == "" then []
    else
      var i := Find(s, '\n');
      if i == |s| then [s] else [s[..i]] + SplitLines(s[i + 1..])
  }

  function Join(lines: seq<string>): string {
    if lines == [] then ""
    else if |lines| == 1 then lines[0]
    else lines[0] + "\n" + Join(lines[1..])
  }

  predicate OneLine(s: string) {
    '\n' !in s
  }

  // ---------- strip ----------

  lemma {:induction false} StripIsStripped(s: string)
    ensures Stripped(Strip(s)) && |Strip(s)| <= |s|
    ensures OneLine(s) ==> OneLine(Strip(s))
  {
    if s == "" {
    } else if IsSpace(s[0]) {
      StripIsStripped(s[1..]);
    } else if IsSpace(s[|s| - 1]) {
      StripIsStripped(s[..|s| - 1]);
    }
  }

  /** Stripping takes away nothing but whitespace. */
  lemma {:induction false} StripCuts(s: string) returns (left: string, right: string)
    ensures s == left + Strip(s) + right
    ensures forall c :: c in left || c in right ==> IsSpace(c)
  {
    left, right := "", "";
    if s != "" && IsSpace(s[0]) {
      left, right := StripCuts(s[1..]);
      left := [s[0]] + left;
    } else if s != "" && IsSpace(s[|s| - 1]) {
      left, right := StripCuts(s[..|s| - 1]);
      right := right + [s[|s| - 1]];
    }
  }

  lemma {:induction false} StripDropsLast(s: string, c: char)
    requires IsSpace(c)
    ensures Strip(s + [c]) == Strip(s)
  {
    if s == "" {
      assert (s + [c])[1..] == "";
    } else if IsSpace(s[0]) {
      StripDropsLast(s[1..], c);
      assert (s + [c])[1..] == s[1..] + [c];
    } else {
      assert (s + [c])[..|s|] == s;
    }
  }

  lemma StripDropsFirst(c: char, s: string)
    requires IsSpace(c)
    ensures Strip([c] + s) == Strip(s)
  {
    assert ([c] + s)[1..] == s;
  }

  // ---------- lines ----------

  lemma FindIn(a: string, b: string, c: char)
    requires c !in a && b != "" && b[0] == c
    ensures Find(a + b, c) == |a|
  {
    var i := Find(a + b, c);
    assert forall k :: 0 <= k < |a| ==> (a + b)[k] == a[k] && a[k] in a;
    assert (a + b)[|a|] == c;
  }

  lemma SplitFirstLine(line: string, rest: string)
    requires OneLine(line)
    ensures SplitLines(line + "\n" + rest) == [line] + SplitLines(rest)
  {
    var s := line + "\n" + rest;
    assert s == line + ("\n" + rest);
    FindIn(line, "\n" + rest, '\n');
    assert s[..|line|] == line;
    assert s[|line| + 1..] == rest;
  }

  lemma SplitOneLine(line: string)
    requires OneLine(line) && line != ""
    ensures SplitLines(line) == [line]
  {
    var i := Find(line, '\n');
    assert forall k :: 0 <= k < |line| ==> line[k] in line;
  }

  /** A nonempty text is one line, or a line, a newline and a shorter text. */
  lemma CutFirstLine(s: string) returns (line: string, rest: Option<string>)
    ensures OneLine(line)
    ensures match rest
            case None => s == line
            case Some(r) => s == line + "\n" + r && |r| < |s|
  {
    var i := Find(s, '\n');
    line := s[..i];
    if i == |s| {
      rest := None;
    } else {
      rest := Some(s[i + 1..]);
      assert s == s[..i] + [s[i]] + s[i + 1..];
    }
  }

  lemma {:induction false} SplitGivesLines(s: string)
    ensures forall line :: line in SplitLines(s) ==> OneLine(line)
    decreases |s|
  {
    var line, rest := CutFirstLine(s);
    match rest
    case None =>
      if s != "" { SplitOneLine(s); }
    case Some(r) =>
      SplitFirstLine(line, r);
      SplitGivesLines(r);
  }

  /** A text that does not end in a newline is the join of its lines. */
  lemma {:induction false} JoinOfLines(s: string)
    requires s != "" && s[|s| - 1] != '\n'
    ensures SplitLines(s) != [] && Join(SplitLines(s)) == s
    decreases |s|
  {
    var line, rest := CutFirstLine(s);
    match rest
    case None =>
      SplitOneLine(s);
    case Some(r) =>
      assert s[|line|] == '\n';
      assert s[|s| - 1] == r[|r| - 1];
      SplitFirstLine(line, r);
      JoinOfLines(r);
      assert ([line] + SplitLines(r))[1..] == SplitLines(r);
  }

  /** Joining lines and splitting again gives those lines, up to a dropped empty end. */
  lemma {:induction false} LinesOfJoin(lines: seq<string>)
    requires forall line :: line in lines ==> OneLine(line)
    ensures forall line :: line in SplitLines(Join(lines)) ==> line in lines
  {
    if |lines| == 1 {
      if lines[0] != "" {
        SplitOneLine(lines[0]);
      }
    } else if |lines| > 1 {
      assert lines == [lines[0]] + lines[1..];
      LinesOfJoin(lines[1..]);
      SplitFirstLine(lines[0], Join(lines[1..]));
    }
  }

  lemma {:induction false} JoinSnoc(lines: seq<string>, line: string)
    requires lines != []
    ensures Join(lines + [line]) == Join(lines) + "\n" + line
  {
    assert (lines + [line])[1..] == lines[1..] + [line];
    if |lines| > 1 {
      JoinSnoc(lines[1..], line);
    }
  }

  // ---------- documents built from blocks ----------

  /** Every block followed by a newline. */
  function Unlines(blocks: seq<string>): string {
    if blocks == [] then "" else blocks[0] + "\n" + Unlines(blocks[1..])
  }

  /** The lines a block contributes. */
  function BlockLines(block: string): seq<string> {
    if block == "" then [""] else SplitLines(block)
  }

  function Flat(blocks: seq<string>): seq<string> {
    if blocks == [] then [] else BlockLines(blocks[0]) + Flat(blocks[1..])
  }

  predicate IsBlock(block: string) {
    block == "" || block[|block| - 1] != '\n'
  }

  lemma Regroup(a: string, b: string, c: string)
    ensures (a + "\n" + b) + "\n" + c == a + "\n" + (b + "\n" + c)
  {
  }

  lemma SplitWithFirstLine(line: string, r: string, rest: string)
    requires OneLine(line) && SplitLines(r + "\n" + rest) == SplitLines(r) + SplitLines(rest)
    ensures SplitLines((line + "\n" + r) + "\n" + rest) == SplitLines(line + "\n" + r) + SplitLines(rest)
  {
    SplitFirstLine(line, r);
    SplitFirstLine(line, r + "\n" + rest);
    Regroup(line, r, rest);
    Associate([line], SplitLines(r), SplitLines(rest));
  }

  lemma {:induction false} SplitBlock(block: string, rest: string)
    requires IsBlock(block)
    ensures SplitLines(block + "\n" + rest) == BlockLines(block) + SplitLines(rest)
    decreases |block|
  {
    var line, tail := CutFirstLine(block);
    match tail
    case None =>
      SplitFirstLine(block, rest);
      if block != "" { SplitOneLine(block); }
    case Some(r) =>
      assert block[|line|] == '\n';
      assert block[|block| - 1] == r[|r| - 1];
      SplitBlock(r, rest);
      SplitWithFirstLine(line, r, rest);
  }

  lemma {:induction false} SplitBlocks(blocks: seq<string>, rest: string)
    requires forall b :: b in blocks ==> IsBlock(b)
    ensures SplitLines(Unlines(blocks) + rest) == Flat(blocks) + SplitLines(rest)
  {
    if blocks == [] {
      assert "" + rest == rest;
    } else {
      var tail := blocks[1..];
      var more := Unlines(tail) + rest;
      assert Unlines(blocks) + rest == blocks[0] + "\n" + more;
      SplitBlock(blocks[0], more);
      SplitBlocks(tail, rest);
      Associate(BlockLines(blocks[0]), Flat(tail), SplitLines(rest));
    }
  }

  lemma Associate<T>(a: seq<T>, b: seq<T>, c: seq<T>)
    ensures a + (b + c) == (a + b) + c
  {
  }

  lemma FlatCons(first: string, rest: seq<string>)
    ensures Flat([first] + rest) == BlockLines(first) + Flat(rest)
  {
    assert ([first] + rest)[1..] == rest;
  }

  lemma {:induction false} FlatAppend(a: seq<string>, b: seq<string>)
    ensures Flat(a + b) == Flat(a) + Flat(b)
  {
    if a == [] {
      assert a + b == b;
    } else {
      var first, tail := a[0], a[1..];
      assert a == [first] + tail;
      FlatAppend(tail, b);
      FlatCons(first, tail);
      FlatCons(first, tail + b);
      Associate([first], tail, b);
      Associate(BlockLines(first), Flat(tail), Flat(b));
    }
  }

  lemma {:induction false} UnlinesAppend(a: seq<string>, b: seq<string>)
    ensures Unlines(a + b) == Unlines(a) + Unlines(b)
  {
    if a == [] {
      assert a + b == b;
    } else {
      UnlinesAppend(a[1..], b);
      assert (a + b)[1..] == a[1..] + b;
      Associate(a[0] + "\n", Unlines(a[1..]), Unlines(b));
    }
  }
}
