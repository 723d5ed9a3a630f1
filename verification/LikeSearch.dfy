/** Substring search through SQL `LIKE`: the escape of the search token, and what the
    resulting pattern matches. */
module LikeSearch {

  // ---------- escaping ----------

  /** `text.replace(c, by)` for a single character. */
  function Replace(text: string, c: char, replacement: string): string {
    if text == "" then "" else (if text[0] == c then replacement else [text[0]]) + Replace(text[1..], c, replacement)
  }

  /** Backslashes first, then the two wildcards. */
  function EscapeLikeToken(token: string): string {
    Replace(Replace(Replace(token, '\\', "\\\\"), '%', "\\%"), '_', "\\_")
  }

  predicate IsSpecial(c: char) {
    c == '\\' || c == '%' || c == '_'
  }

  /** A backslash before every special character. */
  function Escaped(token: string): string {
    if token == "" then "" else (if IsSpecial(token[0]) then ['\\', token[0]] else [token[0]]) + Escaped(token[1..])
  }

  lemma {:induction false} ReplaceAppend(a: string, b: string, c: char, replacement: string)
    ensures Replace(a + b, c, replacement) == Replace(a, c, replacement) + Replace(b, c, replacement)
  {
    if a == "" {
      assert a + b == b;
    } else {
      assert (a + b)[1..] == a[1..] + b;
      ReplaceAppend(a[1..], b, c, replacement);
    }
  }

  lemma ReplaceOne(d: char, rest: string, c: char, replacement: string)
    ensures Replace([d] + rest, c, replacement) == (if d == c then replacement else [d]) + Replace(rest, c, replacement)
  {
    assert ([d] + rest)[1..] == rest;
  }

  /** The three replacements one after the other do what one pass would: no replacement
      touches what an earlier one has put in. */
  lemma {:induction false} EscapeIsOnePass(token: string)
    ensures EscapeLikeToken(token) == Escaped(token)
  {
    if token != "" {
      var d, rest := token[0], token[1..];
      EscapeIsOnePass(rest);
      assert token == [d] + rest;
      if d == '\\' {
        EscapeBackslashFirst(rest);
      } else if d == '%' {
        EscapePercentFirst(rest);
      } else {
        EscapeOtherFirst(d, rest);
      }
    }
  }

  lemma EscapeBackslashFirst(rest: string)
    ensures EscapeLikeToken(['\\'] + rest) == ['\\', '\\'] + EscapeLikeToken(rest)
  {
    var r1 := Replace(rest, '\\', "\\\\");
    var r2 := Replace(r1, '%', "\\%");
    ReplaceOne('\\', rest, '\\', "\\\\");
    assert "\\\\" + r1 == ['\\'] + (['\\'] + r1);
    ReplaceOne('\\', ['\\'] + r1, '%', "\\%");
    ReplaceOne('\\', r1, '%', "\\%");
    ReplaceOne('\\', ['\\'] + r2, '_', "\\_");
    ReplaceOne('\\', r2, '_', "\\_");
  }

  lemma EscapePercentFirst(rest: string)
    ensures EscapeLikeToken(['%'] + rest) == ['\\', '%'] + EscapeLikeToken(rest)
  {
    var r1 := Replace(rest, '\\', "\\\\");
    var r2 := Replace(r1, '%', "\\%");
    ReplaceOne('%', rest, '\\', "\\\\");
    ReplaceOne('%', r1, '%', "\\%");
    assert "\\%" + r2 == ['\\'] + (['%'] + r2);
    ReplaceOne('\\', ['%'] + r2, '_', "\\_");
    ReplaceOne('%', r2, '_', "\\_");
  }

  lemma EscapeOtherFirst(d: char, rest: string)
    requires d != '\\' && d != '%'
    ensures EscapeLikeToken([d] + rest) == (if d == '_' then ['\\', d] else [d]) + EscapeLikeToken(rest)
  {
    var r1 := Replace(rest, '\\', "\\\\");
    ReplaceOne(d, rest, '\\', "\\\\");
    ReplaceOne(d, r1, '%', "\\%");
    ReplaceOne(d, Replace(r1, '%', "\\%"), '_', "\\_");
  }

  // ---------- matching ----------

  /** SQLite's `LIKE` ignores the case of ASCII letters. */
  function Fold(c: char): char {
    if 'A' <= c <= 'Z' then c - 'A' + 'a' else c
  }

  /** Folding identifies a letter with itself and its other case, and nothing else. */
  lemma FoldedAlike(c: char, d: char)
    ensures Fold(c) == Fold(d) <==>
            || c == d
            || ('A' <= c <= 'Z' && d as int == c as int + 32)
            || ('A' <= d <= 'Z' && c as int == d as int + 32)
  {
  }

  /** `content LIKE pattern ESCAPE '\'`: `%` stands for any text, `_` for any character,
      and a backslash takes the next character literally. A pattern that ends in a
      backslash matches nothing. */
  predicate Like(content: string, pattern: string)
    decreases |pattern|, |content|
  {
    if pattern == "" then content == ""
    else if pattern[0] == '%' then
      Like(content, pattern[1..]) || (content != "" && Like(content[1..], pattern))
    else if pattern[0] == '_' then
      content != "" && Like(content[1..], pattern[1..])
    else if pattern[0] == '\\' then
      |pattern| >= 2 && content != "" && Fold(content[0]) == Fold(pattern[1]) && Like(content[1..], pattern[2..])
    else
      content != "" && Fold(content[0]) == Fold(pattern[0]) && Like(content[1..], pattern[1..])
  }

  predicate SameFolded(a: string, b: string) {
    |a| == |b| && forall i :: 0 <= i < |a| ==> Fold(a[i]) == Fold(b[i])
  }

  /** `token` begins `content`, up to the case of ASCII letters. */
  predicate Begins(token: string, content: string) {
    |token| <= |content| && SameFolded(content[..|token|], token)
  }

  /** `token` occurs somewhere in `content`. */
  predicate OccursIn(token: string, content: string) {
    exists i :: 0 <= i <= |content| && Begins(token, content[i..])
  }

  lemma {:induction false} PercentMatchesAll(content: string)
    ensures Like(content, "%")
  {
    if content != "" {
      PercentMatchesAll(content[1..]);
    }
  }

  /** An escaped token followed by `%` matches what the token begins. */
  lemma {:induction false} EscapedMatchesBeginning(token: string, content: string)
    ensures Like(content, Escaped(token) + "%") <==> Begins(token, content)
  {
    if token == "" {
      assert Escaped(token) + "%" == "%";
      PercentMatchesAll(content);
    } else {
      var rest := Escaped(token[1..]) + "%";
      var pattern := Escaped(token) + "%";
      if IsSpecial(token[0]) {
        assert pattern == ['\\', token[0]] + rest;
        assert pattern[2..] == rest;
      } else {
        assert pattern == [token[0]] + rest;
        assert pattern[1..] == rest;
      }
      if content != "" {
        EscapedMatchesBeginning(token[1..], content[1..]);
        BeginsByFirst(token, content);
      }
    }
  }

  lemma BeginsByFirst(token: string, content: string)
    requires token != "" && content != ""
    ensures Begins(token, content) <==> Fold(content[0]) == Fold(token[0]) && Begins(token[1..], content[1..])
  {
    if Begins(token[1..], content[1..]) && Fold(content[0]) == Fold(token[0]) {
      forall i | 0 <= i < |token| ensures Fold(content[..|token|][i]) == Fold(token[i]) {
        if i > 0 {
          assert content[1..][..|token| - 1][i - 1] == content[i] && token[1..][i - 1] == token[i];
        }
      }
    }
    if Begins(token, content) {
      assert content[..|token|][0] == content[0];
      forall i | 0 <= i < |token| - 1 ensures Fold(content[1..][..|token| - 1][i]) == Fold(token[1..][i]) {
        assert content[..|token|][i + 1] == content[1..][..|token| - 1][i];
      }
    }
  }

  /** A pattern after `%` may match at any later place. */
  lemma {:induction false} PercentMatchesAnywhere(content: string, pattern: string)
    ensures Like(content, "%" + pattern) <==> exists i :: 0 <= i <= |content| && Like(content[i..], pattern)
    decreases |content|
  {
    var all := "%" + pattern;
    assert all[1..] == pattern;
    assert content[0..] == content;
    if content != "" {
      PercentMatchesAnywhere(content[1..], pattern);
      if Like(content[1..], all) {
        var i :| 0 <= i <= |content[1..]| && Like(content[1..][i..], pattern);
        assert content[1..][i..] == content[i + 1..];
      }
      if i :| 0 < i <= |content| && Like(content[i..], pattern) {
        assert content[1..][i - 1..] == content[i..];
      }
    }
  }

  /** The search clause matches exactly the contents in which the token occurs, whatever
      characters the token is made of. */
  lemma SearchIsSubstring(token: string, content: string)
    ensures Like(content, "%" + EscapeLikeToken(token) + "%") <==> OccursIn(token, content)
  {
    EscapeIsOnePass(token);
    var pattern := Escaped(token) + "%";
    assert "%" + EscapeLikeToken(token) + "%" == "%" + pattern;
    PercentMatchesAnywhere(content, pattern);
    forall i | 0 <= i <= |content| ensures Like(content[i..], pattern) <==> Begins(token, content[i..]) {
      EscapedMatchesBeginning(token, content[i..]);
    }
  }
}
