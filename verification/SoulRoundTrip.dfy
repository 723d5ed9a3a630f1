/** Reading, rendering and reading again: SOUL.md settles after one trip. */
module SoulRoundTrip {
  import opened Basics
  import opened Text
  import opened Soul

  // ---------- texts without section headings ----------

  /** No line of the text opens a section. */
  predicate NoHeading(s: string) {
    forall line :: line in SplitLines(s) ==> !StartsSection(line)
  }

  lemma NoHeadingWithoutFirst(c: char, s: string)
    requires IsSpace(c) && NoHeading([c] + s)
    ensures NoHeading(s)
  {
    if s != "" {
      var line, rest := CutFirstLine(s);
      if c == '\n' {
        SplitFirstLine("", s);
        assert [c] + s == "" + "\n" + s;
      } else {
        StripDropsFirst(c, line);
        match rest
        case None =>
          SplitOneLine(s);
          SplitOneLine([c] + s);
          assert [c] + s in SplitLines([c] + s);
        case Some(r) =>
          assert [c] + s == ([c] + line) + "\n" + r;
          SplitFirstLine([c] + line, r);
          SplitFirstLine(line, r);
          assert [c] + line in SplitLines([c] + s);
          assert forall x :: x in SplitLines(s) ==> x == line || x in SplitLines(r);
          assert forall x :: x in SplitLines(r) ==> x in SplitLines([c] + s);
      }
    }
  }

  lemma {:induction false} NoHeadingWithoutLast(s: string, c: char)
    requires IsSpace(c) && NoHeading(s + [c])
    ensures NoHeading(s)
    decreases |s|
  {
    if s != "" {
      var line, rest := CutFirstLine(s);
      match rest
      case None =>
        SplitOneLine(s);
        if c == '\n' {
          SplitFirstLine(s, "");
          assert s + [c] == s + "\n" + "";
          assert s in SplitLines(s + [c]);
        } else {
          SplitOneLine(s + [c]);
          StripDropsLast(s, c);
          assert s + [c] in SplitLines(s + [c]);
        }
      case Some(r) =>
        assert s + [c] == line + "\n" + (r + [c]);
        SplitFirstLine(line, r + [c]);
        SplitFirstLine(line, r);
        assert forall x :: x in SplitLines(r + [c]) ==> x in SplitLines(s + [c]);
        assert line in SplitLines(s + [c]);
        NoHeadingWithoutLast(r, c);
        assert forall x :: x in SplitLines(s) ==> x == line || x in SplitLines(r);
    }
  }

  lemma {:induction false} NoHeadingStripped(s: string)
    requires NoHeading(s)
    ensures NoHeading(Strip(s))
    decreases |s|
  {
    if s == "" {
    } else if IsSpace(s[0]) {
      assert s == [s[0]] + s[1..];
      NoHeadingWithoutFirst(s[0], s[1..]);
      NoHeadingStripped(s[1..]);
    } else if IsSpace(s[|s| - 1]) {
      assert s == s[..|s| - 1] + [s[|s| - 1]];
      NoHeadingWithoutLast(s[..|s| - 1], s[|s| - 1]);
      NoHeadingStripped(s[..|s| - 1]);
    }
  }

  lemma {:induction false} AfterHeadingIsTail(lines: seq<string>, targets: set<string>)
    requires AfterHeading(lines, targets).Some?
    ensures forall x :: x in AfterHeading(lines, targets).value ==> x in lines
  {
    if !IsHeading(lines[0], targets) {
      AfterHeadingIsTail(lines[1..], targets);
    }
  }

  lemma {:induction false} SectionBodyHasNoHeading(lines: seq<string>)
    ensures forall x :: x in SectionBody(lines) ==> x in lines && !StartsSection(x)
  {
    if lines != [] && !StartsSection(lines[0]) {
      SectionBodyHasNoHeading(lines[1..]);
    }
  }

  /** Whatever the text, an extracted section is stripped and opens no further section. */
  lemma SectionIsPlain(content: string, headings: seq<string>)
    ensures Stripped(Section(content, headings)) && NoHeading(Section(content, headings))
  {
    var lines, targets := SplitLines(content), Targets(headings);
    if AfterHeading(lines, targets).Some? {
      var rest := AfterHeading(lines, targets).value;
      AfterHeadingIsTail(lines, targets);
      SectionBodyHasNoHeading(rest);
      SplitGivesLines(content);
      LinesOfJoin(SectionBody(rest));
      assert NoHeading(Join(SectionBody(rest)));
      NoHeadingStripped(Join(SectionBody(rest)));
      StripIsStripped(Join(SectionBody(rest)));
    }
  }

  // ---------- identities that survive ----------

  /** A text that stands on its own as a section. */
  predicate PlainText(s: string) {
    s != "" && Stripped(s) && NoHeading(s)
  }

  predicate PlainLine(s: string) {
    PlainText(s) && OneLine(s)
  }

  predicate PlainValue(s: string) {
    s != "" && Stripped(s) && OneLine(s)
  }

  /** Each field has the form its place in the document asks for. */
  predicate WellFormed(id: Identity) {
    && PlainLine(id.name) && PlainText(id.persona) && PlainText(id.tone) && PlainText(id.responseStyle)
    && DISPLAY_NAME in id.preferences && PlainValue(id.preferences[DISPLAY_NAME])
    && LANGUAGE in id.preferences && PlainValue(id.preferences[LANGUAGE])
  }

  /** The identity with the two preferences the document shows. */
  function Shown(id: Identity): Identity
    requires DISPLAY_NAME in id.preferences && LANGUAGE in id.preferences
  {
    id.(preferences := map[DISPLAY_NAME := id.preferences[DISPLAY_NAME], LANGUAGE := id.preferences[LANGUAGE]])
  }

  lemma {:induction false} FirstLineIsPlain(lines: seq<string>)
    requires forall x :: x in lines ==> OneLine(x) && !StartsSection(x)
    ensures var line := FirstNonemptyLine(lines); line != "" ==> PlainLine(line)
  {
    if lines != [] {
      if Strip(lines[0]) != "" {
        StripIsStripped(lines[0]);
        StripOfStripped(Strip(lines[0]));
        SplitOneLine(Strip(lines[0]));
      } else {
        FirstLineIsPlain(lines[1..]);
      }
    }
  }

  lemma StripOfStripped(s: string)
    requires Stripped(s)
    ensures Strip(s) == s
  {
  }

  lemma PreferenceIsPlain(line: string)
    requires OneLine(line) && Preference(line).Some?
    ensures PlainValue(Preference(line).value.1)
  {
    StripIsStripped(line);
    if StartsWith(Strip(line), "- ") {
      StripIsStripped(Strip(line)[2..]);
    }
    var item := ListItem(line);
    StripIsStripped(item[Find(item, ':') + 1..]);
  }

  lemma {:induction false} PreferencesArePlain(lines: seq<string>)
    requires forall x :: x in lines ==> OneLine(x)
    ensures forall key :: key in Preferences(lines) ==> PlainValue(Preferences(lines)[key])
  {
    if lines != [] {
      PreferencesArePlain(lines[..|lines| - 1]);
      if Preference(lines[|lines| - 1]).Some? {
        PreferenceIsPlain(lines[|lines| - 1]);
      }
    }
  }

  /** Reading any text yields a well-formed identity. */
  lemma ReadIsWellFormed(content: string, defaults: Identity)
    requires WellFormed(defaults)
    ensures WellFormed(Read(content, defaults))
  {
    SectionIsPlain(content, NAME_HEADINGS);
    SectionIsPlain(content, PERSONA_HEADINGS);
    SectionIsPlain(content, TONE_HEADINGS);
    SectionIsPlain(content, STYLE_HEADINGS);
    SplitGivesLines(Section(content, NAME_HEADINGS));
    FirstLineIsPlain(SplitLines(Section(content, NAME_HEADINGS)));
    SplitGivesLines(Section(content, PREFERENCES_HEADINGS));
    PreferencesArePlain(SplitLines(Section(content, PREFERENCES_HEADINGS)));
  }

  // ---------- finding a section again ----------

  /** A heading and the lines of its text. */
  datatype Part = Part(heading: string, body: seq<string>)

  function PartLines(p: Part): seq<string> {
    [p.heading, ""] + p.body + [""]
  }

  function AllLines(parts: seq<Part>): seq<string> {
    if parts == [] then [] else PartLines(parts[0]) + AllLines(parts[1..])
  }

  predicate PlainPart(p: Part) {
    StartsSection(p.heading) && forall x :: x in p.body ==> !StartsSection(x)
  }

  lemma {:induction false} SkipLines(before: seq<string>, lines: seq<string>, targets: set<string>)
    requires forall x :: x in before ==> !IsHeading(x, targets)
    ensures AfterHeading(before + lines, targets) == AfterHeading(lines, targets)
  {
    if before == [] {
      assert before + lines == lines;
    } else {
      assert (before + lines)[1..] == before[1..] + lines;
      SkipLines(before[1..], lines, targets);
    }
  }

  lemma {:induction false} BodyEndsAtHeading(body: seq<string>, rest: seq<string>)
    requires forall x :: x in body ==> !StartsSection(x)
    requires rest != [] && StartsSection(rest[0])
    ensures SectionBody(body + rest) == body
  {
    if body == [] {
      assert body + rest == rest;
    } else {
      assert (body + rest)[1..] == body[1..] + rest;
      BodyEndsAtHeading(body[1..], rest);
    }
  }

  lemma TargetStartsSection(line: string, headings: seq<string>)
    requires IsHeading(line, Targets(headings))
    ensures StartsSection(line)
  {
    var h :| h in headings && Fold(Strip(line)) == Fold("## " + h);
    var s, t := Strip(line), "## " + h;
    assert |Fold(s)| == |Fold(t)|;
    assert t[0] == '#' && t[1] == '#' && t[2] == ' ';
    assert Fold(s)[0] == Fold(t)[0] && Fold(s)[1] == Fold(t)[1] && Fold(s)[2] == Fold(t)[2];
    assert s[0] == '#' && s[1] == '#' && s[2] == ' ';
  }

  lemma BlankIsNoHeading(headings: seq<string>)
    ensures !StartsSection("") && !IsHeading("", Targets(headings))
  {
    if IsHeading("", Targets(headings)) {
      TargetStartsSection("", headings);
      assert false;
    }
  }

  function BodyLines(p: Part): seq<string> {
    [""] + p.body + [""]
  }

  /** Reading from the right heading on. */
  lemma OwnPart(before: seq<string>, p: Part, tail: seq<string>, headings: seq<string>)
    requires PlainPart(p) && IsHeading(p.heading, Targets(headings))
    requires forall x :: x in before ==> !StartsSection(x)
    requires tail != [] && StartsSection(tail[0])
    ensures AfterHeading(before + (PartLines(p) + tail), Targets(headings)) == Some(BodyLines(p) + tail)
    ensures SectionBody(BodyLines(p) + tail) == BodyLines(p)
  {
    var all := PartLines(p) + tail;
    forall x | x in before ensures !IsHeading(x, Targets(headings)) {
      if IsHeading(x, Targets(headings)) {
        TargetStartsSection(x, headings);
      }
    }
    SkipLines(before, all, Targets(headings));
    assert all[0] == p.heading && all[1..] == BodyLines(p) + tail;
    BlankIsNoHeading(headings);
    BodyEndsAtHeading(BodyLines(p), tail);
  }

  /** Reading past another heading. */
  lemma OtherPart(before: seq<string>, p: Part, tail: seq<string>, headings: seq<string>)
    requires PlainPart(p) && !IsHeading(p.heading, Targets(headings))
    requires forall x :: x in before ==> !StartsSection(x)
    ensures AfterHeading(before + (PartLines(p) + tail), Targets(headings)) == AfterHeading(tail, Targets(headings))
  {
    BlankIsNoHeading(headings);
    var skipped := before + PartLines(p);
    forall x | x in skipped ensures !IsHeading(x, Targets(headings)) {
      if IsHeading(x, Targets(headings)) {
        TargetStartsSection(x, headings);
      }
    }
    SkipLines(skipped, tail, Targets(headings));
    Associate(before, PartLines(p), tail);
  }

  /** In a document made of parts, the section under the k-th heading is the k-th body. */
  lemma {:induction false} PartIsFound(before: seq<string>, parts: seq<Part>, rest: seq<string>,
                                       headings: seq<string>, k: nat)
    requires k < |parts| && forall j :: 0 <= j < |parts| ==> PlainPart(parts[j])
    requires forall j :: 0 <= j <= k ==> (IsHeading(parts[j].heading, Targets(headings)) <==> j == k)
    requires forall x :: x in before ==> !StartsSection(x)
    requires rest != [] && StartsSection(rest[0])
    ensures AfterHeading(before + (AllLines(parts) + rest), Targets(headings)).Some?
    ensures SectionBody(AfterHeading(before + (AllLines(parts) + rest), Targets(headings)).value) == BodyLines(parts[k])
    decreases k
  {
    var tail := AllLines(parts[1..]) + rest;
    Associate(PartLines(parts[0]), AllLines(parts[1..]), rest);
    if k == 0 {
      assert tail[0] == if |parts| > 1 then parts[1].heading else rest[0];
      OwnPart(before, parts[0], tail, headings);
    } else {
      OtherPart(before, parts[0], tail, headings);
      PartIsFound([], parts[1..], rest, headings, k - 1);
      assert [] + tail == tail;
    }
  }

  /** A body that joins to a stripped text is read back as that text. */
  lemma BodyIsReadBack(body: seq<string>)
    requires body != [] && Join(body) != "" && Stripped(Join(body))
    ensures Strip(Join([""] + body + [""])) == Join(body)
  {
    var text := Join(body);
    JoinSnoc([""] + body, "");
    assert ([""] + body)[1..] == body;
    assert Join([""] + body) == "" + "\n" + text;
    assert Join([""] + body + [""]) == "" + "\n" + text + "\n" + "";
    StripDropsLast(['\n'] + text, '\n');
    StripDropsFirst('\n', text);
    assert Join([""] + body + [""]) == ['\n'] + text + ['\n'];
  }

  // ---------- the document's five sections ----------

  function Aliases(k: nat): seq<string>
    requires k < 5
  {
    [NAME_HEADINGS, PREFERENCES_HEADINGS, PERSONA_HEADINGS, TONE_HEADINGS, STYLE_HEADINGS][k]
  }

  function PartsOf(f: Fields): seq<Part> {
    [Part("## 名称", [f.name]),
     Part("## 显示偏好", [PreferenceLine(DISPLAY_NAME, f.displayName), PreferenceLine(LANGUAGE, f.language)]),
     Part("## 身份", SplitLines(f.persona)),
     Part("## 语气", SplitLines(f.tone)),
     Part("## 回复风格", SplitLines(f.style))]
  }

  /** The k-th heading, written as the document writes it. */
  function HeadingOf(k: nat): string
    requires k < 5
  {
    ["## 名称", "## 显示偏好", "## 身份", "## 语气", "## 回复风格"][k]
  }

  lemma HeadingIsStripped(k: nat)
    requires k < 5
    ensures Strip(HeadingOf(k)) == HeadingOf(k) && StartsSection(HeadingOf(k))
    ensures HeadingOf(k) == "## " + Aliases(k)[0] && |Aliases(k)[0]| >= 2 && Strip(Aliases(k)[0]) != ""
  {
  }

  lemma OwnHeading(k: nat)
    requires k < 5
    ensures IsHeading(HeadingOf(k), Targets(Aliases(k)))
  {
    HeadingIsStripped(k);
    assert Aliases(k)[0] in Aliases(k);
  }

  /** The first character after the hashes tells the headings apart. */
  lemma OtherHeading(j: nat, k: nat)
    requires j < 5 && k < 5 && IsHeading(HeadingOf(j), Targets(Aliases(k)))
    ensures j == k
  {
    HeadingIsStripped(j);
    var h :| h in Aliases(k) && Fold(HeadingOf(j)) == Fold("## " + h);
    assert h == Aliases(k)[0] || h == Aliases(k)[1];
    assert Fold(HeadingOf(j))[3] == HeadingOf(j)[3];
    assert Fold("## " + h)[3] == Fold(h)[0];
  }

  lemma SectionBlockLines(heading: string, blocks: seq<string>)
    requires OneLine(heading) && heading != "" && forall x :: x in blocks ==> IsBlock(x)
    ensures Flat(SectionBlocks(heading, blocks)) == PartLines(Part(heading, Flat(blocks)))
    ensures forall x :: x in SectionBlocks(heading, blocks) ==> IsBlock(x)
  {
    SplitOneLine(heading);
    FlatAppend([heading, ""], blocks);
    FlatAppend([heading, ""] + blocks, [""]);
    assert Flat([""]) == [""];
    assert Flat([heading, ""]) == BlockLines(heading) + Flat([""]);
  }

  lemma OneBlock(block: string)
    requires block != ""
    ensures Flat([block]) == SplitLines(block)
  {
    assert Flat([block]) == BlockLines(block) + Flat([]);
  }

  lemma TwoLines(a: string, b: string)
    requires a != "" && OneLine(a) && b != "" && OneLine(b)
    ensures Flat([a, b]) == [a, b]
  {
    SplitOneLine(a);
    SplitOneLine(b);
    assert [a, b][1..] == [b];
    assert Flat([b]) == BlockLines(b) + Flat([]);
  }

  predicate ProseLine(s: string) {
    s != "" && OneLine(s) && !StartsSection(s)
  }

  lemma OpeningLines(title: string, introduction: string)
    requires ProseLine(title) && ProseLine(introduction)
    ensures Flat(Opening(title, introduction)) == Opening(title, introduction)
    ensures forall x :: x in Opening(title, introduction) ==> IsBlock(x) && !StartsSection(x)
  {
    SplitOneLine(title);
    SplitOneLine(introduction);
    assert Flat([""]) == [""];
    assert Flat([introduction, ""]) == [introduction] + Flat([""]);
    assert Flat(["", introduction, ""]) == [""] + Flat([introduction, ""]);
    assert Flat([title, "", introduction, ""]) == [title] + Flat(["", introduction, ""]);
  }

  lemma NoHashes(s: string)
    requires |s| >= 2 && !IsSpace(s[0]) && !IsSpace(s[|s| - 1]) && (s[0] != '#' || s[1] != '#')
    ensures !StartsSection(s)
  {
    assert Strip(s) == s;
  }

  lemma TitleIsProse()
    ensures ProseLine(TITLE)
  {
    NoHashes(TITLE);
  }

  lemma IntroductionIsProse()
    ensures ProseLine(INTRODUCTION)
  {
    NoHashes(INTRODUCTION);
  }

  lemma FirstLineOfDocument(first: string, blocks: seq<string>)
    requires OneLine(first)
    ensures SplitLines(Unlines([first] + blocks)) != [] && SplitLines(Unlines([first] + blocks))[0] == first
  {
    assert ([first] + blocks)[1..] == blocks;
    SplitFirstLine(first, Unlines(blocks));
  }

  lemma ClosingHeadingStartsSection()
    ensures OneLine(CLOSING_HEADING) && StartsSection(CLOSING_HEADING)
  {
    assert Strip(CLOSING_HEADING) == CLOSING_HEADING;
  }

  // ---------- reading a rendered document ----------

  /** A key a preference line can carry. */
  predicate PlainKey(key: string) {
    PlainValue(key) && ':' !in key
  }

  lemma ItemReadBack(key: string, value: string)
    requires PlainKey(key) && PlainValue(value)
    ensures KeyAndValue(key + ": " + value) == Some((key, value))
  {
    var item, after := key + ": " + value, [' '] + value;
    assert item == key + (":" + after);
    FindIn(key, ":" + after, ':');
    assert item[..|key|] == key && item[|key| + 1..] == after;
    StripDropsFirst(' ', value);
    StripOfStripped(value);
    StripOfStripped(key);
  }

  lemma ListItemReadBack(item: string)
    requires item != "" && Stripped(item)
    ensures ListItem("- " + item) == item
  {
    var line := "- " + item;
    assert line[0] == '-' && line[|line| - 1] == item[|item| - 1];
    StripOfStripped(line);
    assert line[2..] == item;
    StripOfStripped(item);
  }

  lemma ItemIsPlain(key: string, value: string)
    requires PlainKey(key) && PlainValue(value)
    ensures PlainValue(key + ": " + value)
  {
    var item := key + ": " + value;
    assert item[0] == key[0] && item[|item| - 1] == value[|value| - 1];
  }

  lemma DashedIsPlain(item: string)
    requires PlainValue(item)
    ensures PlainValue("- " + item)
  {
    var line := "- " + item;
    assert line[0] == '-' && line[|line| - 1] == item[|item| - 1];
  }

  lemma PreferenceReadBack(key: string, value: string)
    requires PlainKey(key) && PlainValue(value)
    ensures PlainValue(PreferenceLine(key, value))
    ensures Preference(PreferenceLine(key, value)) == Some((key, value))
  {
    ItemIsPlain(key, value);
    DashedIsPlain(key + ": " + value);
    ListItemReadBack(key + ": " + value);
    ItemReadBack(key, value);
  }

  lemma PreferenceKeys()
    ensures PlainKey(DISPLAY_NAME) && PlainKey(LANGUAGE)
  {
  }

  /** The fields of a document, each fit for its place. */
  predicate FitFields(f: Fields) {
    && PlainLine(f.name) && PlainValue(f.displayName) && PlainValue(f.language)
    && PlainText(f.persona) && PlainText(f.tone) && PlainText(f.style)
  }

  lemma TextBlocks(heading: string, text: string)
    requires OneLine(heading) && heading != "" && PlainText(text)
    ensures Flat(SectionBlocks(heading, [text])) == PartLines(Part(heading, SplitLines(text)))
    ensures forall x :: x in SectionBlocks(heading, [text]) ==> IsBlock(x)
  {
    OneBlock(text);
    SectionBlockLines(heading, [text]);
  }

  lemma TwoBlocks(a: string, b: string)
    requires PlainValue(a) && PlainValue(b)
    ensures forall x :: x in [a, b] ==> IsBlock(x)
  {
  }

  lemma PreferenceBlocks(heading: string, displayName: string, language: string)
    requires OneLine(heading) && heading != "" && PlainValue(displayName) && PlainValue(language)
    ensures var lines := [PreferenceLine(DISPLAY_NAME, displayName), PreferenceLine(LANGUAGE, language)];
            && Flat(SectionBlocks(heading, lines)) == PartLines(Part(heading, lines))
            && forall x :: x in SectionBlocks(heading, lines) ==> IsBlock(x)
  {
    var p1, p2 := PreferenceLine(DISPLAY_NAME, displayName), PreferenceLine(LANGUAGE, language);
    PreferenceKeys();
    PreferenceReadBack(DISPLAY_NAME, displayName);
    PreferenceReadBack(LANGUAGE, language);
    TwoLines(p1, p2);
    TwoBlocks(p1, p2);
    SectionBlockLines(heading, [p1, p2]);
  }

  lemma DocumentLines(f: Fields)
    requires FitFields(f)
    ensures SplitLines(Document(f)) ==
            Opening(TITLE, INTRODUCTION)
            + (AllLines(PartsOf(f)) + SplitLines(Unlines([CLOSING_HEADING] + CLOSING)))
  {
    TitleIsProse();
    IntroductionIsProse();
    OpeningLines(TITLE, INTRODUCTION);
    PlainDocumentLines(Opening(TITLE, INTRODUCTION), f, [CLOSING_HEADING], CLOSING);
  }

  lemma HeadingsAreLines()
    ensures OneLine("## 名称") && OneLine("## 显示偏好") && OneLine("## 身份")
    ensures OneLine("## 语气") && OneLine("## 回复风格")
  {
  }

  lemma PlainDocumentLines(opening: seq<string>, f: Fields, heading: seq<string>, closing: seq<string>)
    requires FitFields(f)
    requires Flat(opening) == opening && forall x :: x in opening ==> IsBlock(x)
    ensures SplitLines(Unlines(opening
              + SectionBlocks("## 名称", [f.name])
              + SectionBlocks("## 显示偏好",
                              [PreferenceLine(DISPLAY_NAME, f.displayName), PreferenceLine(LANGUAGE, f.language)])
              + SectionBlocks("## 身份", [f.persona])
              + SectionBlocks("## 语气", [f.tone])
              + SectionBlocks("## 回复风格", [f.style])
              + heading + closing)) ==
            opening + (AllLines(PartsOf(f)) + SplitLines(Unlines(heading + closing)))
  {
    HeadingsAreLines();
    TextBlocks("## 名称", f.name);
    SplitOneLine(f.name);
    PreferenceBlocks("## 显示偏好", f.displayName, f.language);
    TextBlocks("## 身份", f.persona);
    TextBlocks("## 语气", f.tone);
    TextBlocks("## 回复风格", f.style);
    GatherBlocks(opening, SectionBlocks("## 名称", [f.name]),
                 SectionBlocks("## 显示偏好",
                   [PreferenceLine(DISPLAY_NAME, f.displayName), PreferenceLine(LANGUAGE, f.language)]),
                 SectionBlocks("## 身份", [f.persona]), SectionBlocks("## 语气", [f.tone]),
                 SectionBlocks("## 回复风格", [f.style]),
                 heading, closing);
    GatherParts(PartsOf(f));
  }

  lemma GatherBlocks(o: seq<string>, a: seq<string>, b: seq<string>, c: seq<string>, d: seq<string>, e: seq<string>,
                     h: seq<string>, rest: seq<string>)
    requires forall x :: x in o + a + b + c + d + e ==> IsBlock(x)
    ensures SplitLines(Unlines(o + a + b + c + d + e + h + rest)) ==
            Flat(o) + ((Flat(a) + (Flat(b) + (Flat(c) + (Flat(d) + Flat(e))))) + SplitLines(Unlines(h + rest)))
  {
    var all := o + a + b + c + d + e;
    Associate(all, h, rest);
    UnlinesAppend(all, h + rest);
    SplitBlocks(all, Unlines(h + rest));
    FlatAppend(o + a + b + c + d, e);
    FlatAppend(o + a + b + c, d);
    FlatAppend(o + a + b, c);
    FlatAppend(o + a, b);
    FlatAppend(o, a);
    Regroup6(Flat(o), Flat(a), Flat(b), Flat(c), Flat(d), Flat(e), SplitLines(Unlines(h + rest)));
  }

  lemma Regroup6<T>(o: seq<T>, a: seq<T>, b: seq<T>, c: seq<T>, d: seq<T>, e: seq<T>, r: seq<T>)
    ensures o + a + b + c + d + e + r == o + ((a + (b + (c + (d + e)))) + r)
  {
  }

  lemma GatherParts(parts: seq<Part>)
    requires |parts| == 5
    ensures AllLines(parts) ==
            PartLines(parts[0])
            + (PartLines(parts[1]) + (PartLines(parts[2]) + (PartLines(parts[3]) + PartLines(parts[4]))))
  {
    assert AllLines(parts[5..]) == [];
    assert parts[1..][1..] == parts[2..] && parts[2..][1..] == parts[3..];
    assert parts[3..][1..] == parts[4..] && parts[4..][1..] == parts[5..];
    assert AllLines(parts[4..]) == PartLines(parts[4]);
    assert AllLines(parts[3..]) == PartLines(parts[3]) + AllLines(parts[4..]);
    assert AllLines(parts[2..]) == PartLines(parts[2]) + AllLines(parts[3..]);
    assert AllLines(parts[1..]) == PartLines(parts[1]) + AllLines(parts[2..]);
  }

  lemma PreferenceLineIsNoHeading(key: string, value: string)
    requires PlainValue(value)
    ensures !StartsSection(PreferenceLine(key, value))
  {
    var line := PreferenceLine(key, value);
    assert line[0] == '-' && line[|line| - 1] == value[|value| - 1];
    StripOfStripped(line);
  }

  lemma PartsArePlain(f: Fields)
    requires FitFields(f)
    ensures var parts := PartsOf(f);
            forall j :: 0 <= j < 5 ==> parts[j].heading == HeadingOf(j) && PlainPart(parts[j])
  {
    SplitOneLine(f.name);
    assert f.name in SplitLines(f.name);
    PreferenceLineIsNoHeading(DISPLAY_NAME, f.displayName);
    PreferenceLineIsNoHeading(LANGUAGE, f.language);
    forall j: nat | j < 5 ensures StartsSection(HeadingOf(j)) {
      HeadingIsStripped(j);
    }
  }

  /** The k-th section of a rendered document is the k-th field's text. */
  lemma SectionOfDocument(f: Fields, k: nat)
    requires FitFields(f) && k < 5
    ensures Section(Document(f), Aliases(k)) ==
            Strip(Join(BodyLines(PartsOf(f)[k])))
  {
    var parts := PartsOf(f);
    DocumentLines(f);
    PartsArePlain(f);
    TitleIsProse();
    IntroductionIsProse();
    OpeningLines(TITLE, INTRODUCTION);
    ClosingHeadingStartsSection();
    FirstLineOfDocument(CLOSING_HEADING, CLOSING);
    forall j: nat | j <= k ensures IsHeading(parts[j].heading, Targets(Aliases(k))) <==> j == k {
      if j == k {
        OwnHeading(k);
      } else if IsHeading(HeadingOf(j), Targets(Aliases(k))) {
        OtherHeading(j, k);
      }
    }
    PartIsFound(Opening(TITLE, INTRODUCTION), parts, SplitLines(Unlines([CLOSING_HEADING] + CLOSING)), Aliases(k), k);
  }

  lemma TextIsReadBack(text: string)
    requires PlainText(text)
    ensures Strip(Join([""] + SplitLines(text) + [""])) == text
  {
    JoinOfLines(text);
    BodyIsReadBack(SplitLines(text));
  }

  lemma TwoLinesAreReadBack(a: string, b: string)
    requires a != "" && OneLine(a) && Stripped(a) && b != "" && OneLine(b) && Stripped(b)
    ensures SplitLines(Strip(Join([""] + [a, b] + [""]))) == [a, b]
  {
    var text := a + "\n" + b;
    assert [a, b][1..] == [b];
    assert Join([a, b]) == text;
    assert text[0] == a[0] && text[|text| - 1] == b[|b| - 1];
    BodyIsReadBack([a, b]);
    SplitFirstLine(a, b);
    SplitOneLine(b);
  }

  lemma TwoPreferences(a: string, b: string)
    requires Preference(a).Some? && Preference(b).Some?
    ensures Preferences([a, b]) ==
            map[Preference(a).value.0 := Preference(a).value.1, Preference(b).value.0 := Preference(b).value.1]
  {
    assert [a, b][..1] == [a] && [a][..0] == [];
    assert Preferences([a]) == map[Preference(a).value.0 := Preference(a).value.1];
  }

  lemma PreferencesAreReadBack(displayName: string, language: string)
    requires PlainValue(displayName) && PlainValue(language)
    ensures var p1, p2 := PreferenceLine(DISPLAY_NAME, displayName), PreferenceLine(LANGUAGE, language);
            Preferences(SplitLines(Strip(Join([""] + [p1, p2] + [""])))) ==
            map[DISPLAY_NAME := displayName, LANGUAGE := language]
  {
    PreferenceKeys();
    PreferenceReadBack(DISPLAY_NAME, displayName);
    PreferenceReadBack(LANGUAGE, language);
    var p1, p2 := PreferenceLine(DISPLAY_NAME, displayName), PreferenceLine(LANGUAGE, language);
    TwoLinesAreReadBack(p1, p2);
    TwoPreferences(p1, p2);
  }

  lemma NameIsReadBack(f: Fields)
    requires FitFields(f)
    ensures FirstNonemptyLine(SplitLines(Section(Document(f), NAME_HEADINGS))) == f.name
  {
    SectionOfDocument(f, 0);
    SplitOneLine(f.name);
    TextIsReadBack(f.name);
    StripOfStripped(f.name);
  }

  lemma TextsAreReadBack(f: Fields)
    requires FitFields(f)
    ensures var doc := Document(f);
            && Section(doc, PERSONA_HEADINGS) == f.persona && Section(doc, TONE_HEADINGS) == f.tone
            && Section(doc, STYLE_HEADINGS) == f.style
  {
    SectionOfDocument(f, 2);
    SectionOfDocument(f, 3);
    SectionOfDocument(f, 4);
    TextIsReadBack(f.persona);
    TextIsReadBack(f.tone);
    TextIsReadBack(f.style);
  }

  /** Reading a document gives back the fields it was made of. */
  lemma DocumentIsReadBack(f: Fields, defaults: Identity)
    requires FitFields(f)
    requires defaults.preferences.Keys == {DISPLAY_NAME, LANGUAGE}
    ensures Read(Document(f), defaults) ==
            Identity(f.name, f.persona, f.tone, f.style, map[DISPLAY_NAME := f.displayName, LANGUAGE := f.language])
  {
    NameIsReadBack(f);
    TextsAreReadBack(f);
    SectionOfDocument(f, 1);
    PreferencesAreReadBack(f.displayName, f.language);
    Overridden(defaults.preferences, f.displayName, f.language);
  }

  lemma Overridden(preferences: map<string, string>, displayName: string, language: string)
    requires preferences.Keys == {DISPLAY_NAME, LANGUAGE}
    ensures var shown := map[DISPLAY_NAME := displayName, LANGUAGE := language]; preferences + shown == shown
  {
  }

  /** A well-formed identity survives rendering and reading. */
  lemma RenderedIsReadBack(id: Identity, defaults: Identity)
    requires WellFormed(id) && WellFormed(defaults) && defaults.preferences.Keys == {DISPLAY_NAME, LANGUAGE}
    ensures Read(Render(id, defaults), defaults) == Shown(id)
  {
    var displayName, language := id.preferences[DISPLAY_NAME], id.preferences[LANGUAGE];
    StripOfStripped(displayName);
    StripOfStripped(language);
    StripOfStripped(id.name);
    StripOfStripped(id.persona);
    StripOfStripped(id.tone);
    StripOfStripped(id.responseStyle);
    DocumentIsReadBack(Fields(id.name, displayName, language, id.persona, id.tone, id.responseStyle), defaults);
  }

  /** The field without the whitespace around it, or its default if that leaves nothing. */
  function Given(field: string, default: string): string {
    if Strip(field) == "" then default else Strip(field)
  }

  /** The identity with its gaps filled and only the preferences the document shows. */
  function Filled(id: Identity, defaults: Identity): Identity
    requires DISPLAY_NAME in defaults.preferences
  {
    Identity(
      Given(id.name, defaults.name),
      Given(id.persona, defaults.persona),
      Given(id.tone, defaults.tone),
      Given(id.responseStyle, defaults.responseStyle),
      map[DISPLAY_NAME := Given(if DISPLAY_NAME in id.preferences then id.preferences[DISPLAY_NAME] else "",
                                defaults.preferences[DISPLAY_NAME]),
          LANGUAGE := Given(if LANGUAGE in id.preferences then id.preferences[LANGUAGE] else "", "zh-CN")])
  }

  /** An identity whose gaps, once filled, leave it well-formed is rendered with its gaps
      filled, each with the default of its own field, and read back so. */
  lemma RenderFillsGaps(id: Identity, defaults: Identity)
    requires WellFormed(defaults) && defaults.preferences.Keys == {DISPLAY_NAME, LANGUAGE}
    requires WellFormed(Filled(id, defaults))
    ensures Render(id, defaults) == Render(Filled(id, defaults), defaults)
    ensures Read(Render(id, defaults), defaults) == Filled(id, defaults)
  {
    var filled := Filled(id, defaults);
    StripOfStripped(filled.name);
    StripOfStripped(filled.persona);
    StripOfStripped(filled.tone);
    StripOfStripped(filled.responseStyle);
    StripOfStripped(filled.preferences[DISPLAY_NAME]);
    StripOfStripped(filled.preferences[LANGUAGE]);
    StripOfStripped(defaults.preferences[DISPLAY_NAME]);
    RenderedIsReadBack(filled, defaults);
  }

  /** Exactly the well-formed identities without further preferences survive. */
  lemma RoundTripExactly(id: Identity, defaults: Identity)
    requires WellFormed(defaults) && defaults.preferences.Keys == {DISPLAY_NAME, LANGUAGE}
    ensures Read(Render(id, defaults), defaults) == id <==>
            WellFormed(id) && id.preferences.Keys == {DISPLAY_NAME, LANGUAGE}
  {
    ReadIsWellFormed(Render(id, defaults), defaults);
    if WellFormed(id) {
      RenderedIsReadBack(id, defaults);
      ShownExactly(id);
    }
  }

  lemma ShownExactly(id: Identity)
    requires DISPLAY_NAME in id.preferences && LANGUAGE in id.preferences
    ensures Shown(id) == id <==> id.preferences.Keys == {DISPLAY_NAME, LANGUAGE}
  {
    if id.preferences.Keys == {DISPLAY_NAME, LANGUAGE} {
      assert Shown(id).preferences == id.preferences;
    }
  }

  lemma ProseIsText(s: string)
    requires ProseLine(s) && Stripped(s)
    ensures PlainLine(s) && PlainValue(s)
  {
    SplitOneLine(s);
  }

  lemma DefaultsAreWellFormed()
    ensures WellFormed(DEFAULT_IDENTITY) && DEFAULT_IDENTITY.preferences.Keys == {DISPLAY_NAME, LANGUAGE}
  {
    DefaultName();
    DefaultPersona();
    DefaultTone();
    DefaultStyle();
  }

  lemma DefaultName()
    ensures PlainLine(DEFAULT_IDENTITY.name)
  {
    NoHashes(DEFAULT_IDENTITY.name);
    ProseIsText(DEFAULT_IDENTITY.name);
  }

  lemma DefaultPersona()
    ensures PlainText(DEFAULT_IDENTITY.persona)
  {
    NoHashes(DEFAULT_IDENTITY.persona);
    ProseIsText(DEFAULT_IDENTITY.persona);
  }

  lemma DefaultTone()
    ensures PlainText(DEFAULT_IDENTITY.tone)
  {
    NoHashes(DEFAULT_IDENTITY.tone);
    ProseIsText(DEFAULT_IDENTITY.tone);
  }

  lemma DefaultStyle()
    ensures PlainText(DEFAULT_IDENTITY.responseStyle)
  {
    NoHashes(DEFAULT_IDENTITY.responseStyle);
    ProseIsText(DEFAULT_IDENTITY.responseStyle);
  }

  /** SOUL.md settles: whatever a text holds, its reading shows the same name, texts,
      display name and language after being rendered and read again, and from then on
      nothing changes at all. */
  lemma SoulSettles(content: string)
    ensures WellFormed(Read(content, DEFAULT_IDENTITY))
    ensures var once := Read(content, DEFAULT_IDENTITY);
            var twice := Read(Render(once, DEFAULT_IDENTITY), DEFAULT_IDENTITY);
            && twice == Shown(once)
            && Read(Render(twice, DEFAULT_IDENTITY), DEFAULT_IDENTITY) == twice
  {
    DefaultsAreWellFormed();
    ReadIsWellFormed(content, DEFAULT_IDENTITY);
    var once := Read(content, DEFAULT_IDENTITY);
    RenderedIsReadBack(once, DEFAULT_IDENTITY);
    RenderedIsReadBack(Shown(once), DEFAULT_IDENTITY);
  }
}
