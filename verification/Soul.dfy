/** SOUL.md, the markdown file that holds the buddy's identity: the section reader, the
    printer, and what a trip through both preserves. */
module Soul {
  import opened Basics
  import opened Text

  datatype Identity = Identity(
    name: string,
    persona: string,
    tone: string,
    responseStyle: string,
    preferences: map<string, string>)

  const DISPLAY_NAME := "display_name"
  const LANGUAGE := "language"

  const DEFAULT_IDENTITY := Identity(
    "图图",
    "TooGraph 的全局伙伴。" + "它通过图模板理解请求、选择能力、" + "请求确认并返回结果。",
    "清晰、直接、克制。",
    "默认先给结论，再给必要理由；" + "涉及副作用时说明将要运行的图或 Action。",
    map[LANGUAGE := "zh-CN", DISPLAY_NAME := "TooGraph Buddy"])

  // ---------- sections ----------

  /** Case folding, for the ASCII letters. */
  function Fold(s: string): string {
    seq(|s|, i requires 0 <= i < |s| => if 'A' <= s[i] <= 'Z' then s[i] - 'A' + 'a' else s[i])
  }

  /** The folded heading lines that open the section, in either language. */
  function Targets(headings: seq<string>): set<string> {
    set h | h in headings && Strip(h) != "" :: Fold("## " + h)
  }

  predicate IsHeading(line: string, targets: set<string>) {
    Fold(Strip(line)) in targets
  }

  predicate StartsSection(line: string) {
    StartsWith(Strip(line), "## ")
  }

  /** What follows the first heading line. */
  function AfterHeading(lines: seq<string>, targets: set<string>): Option<seq<string>> {
    if lines == [] then None
    else if IsHeading(lines[0], targets) then Some(lines[1..])
    else AfterHeading(lines[1..], targets)
  }

  /** The lines up to the next section. */
  function SectionBody(lines: seq<string>): seq<string> {
    if lines == [] || StartsSection(lines[0]) then [] else [lines[0]] + SectionBody(lines[1..])
  }

  function Section(content: string, headings: seq<string>): string {
    match AfterHeading(SplitLines(content), Targets(headings))
    case None => ""
    case Some(rest) => Strip(Join(SectionBody(rest)))
  }

  /** The index after the first matching heading line. */
  method FindStart(lines: seq<string>, targets: set<string>) returns (start: Option<nat>)
    ensures start.None? ==> AfterHeading(lines, targets) == None
    ensures start.Some? ==> start.value <= |lines| && AfterHeading(lines, targets) == Some(lines[start.value..])
  {
    for index := 0 to |lines|
      invariant AfterHeading(lines, targets) == AfterHeading(lines[index..], targets)
    {
      assert lines[index..][1..] == lines[index + 1..];
      if IsHeading(lines[index], targets) {
        return Some(index + 1);
      }
    }
    return None;
  }

  lemma OneLineMore(lines: seq<string>, start: nat, index: nat)
    requires start <= index < |lines| && !StartsSection(lines[index])
    ensures lines[start..index] + SectionBody(lines[index..]) ==
            lines[start..index + 1] + SectionBody(lines[index + 1..])
  {
    assert lines[index..][1..] == lines[index + 1..];
    assert lines[start..index] + [lines[index]] == lines[start..index + 1];
    Associate(lines[start..index], [lines[index]], SectionBody(lines[index + 1..]));
  }

  /** The index of the next line that opens a section, or the end. */
  method FindEnd(lines: seq<string>, start: nat) returns (end: nat)
    requires start <= |lines|
    ensures start <= end <= |lines| && SectionBody(lines[start..]) == lines[start..end]
  {
    for index := start to |lines|
      invariant SectionBody(lines[start..]) == lines[start..index] + SectionBody(lines[index..])
    {
      if StartsSection(lines[index]) {
        return index;
      }
      OneLineMore(lines, start, index);
    }
    return |lines|;
  }

  /** Finds the section under the first matching heading. */
  method ExtractSection(content: string, headings: seq<string>) returns (section: string)
    ensures section == Section(content, headings)
  {
    var lines := SplitLines(content);
    var start := FindStart(lines, Targets(headings));
    if start.None? {
      return "";
    }
    var end := FindEnd(lines, start.value);
    return Strip(Join(lines[start.value..end]));
  }

  // ---------- preferences ----------

  /** The key and value around the first colon, if there are both. */
  function KeyAndValue(item: string): Option<(string, string)> {
    var colon := Find(item, ':');
    if colon == |item| then None
    else
      var key, value := Strip(item[..colon]), Strip(item[colon + 1..]);
      if key != "" && value != "" then Some((key, value)) else None
  }

  /** The item a line holds, with or without a list dash. */
  function ListItem(line: string): string {
    if StartsWith(Strip(line), "- ") then Strip(Strip(line)[2..]) else Strip(line)
  }

  function Preference(line: string): Option<(string, string)> {
    KeyAndValue(ListItem(line))
  }

  function WithPreference(before: map<string, string>, line: string): map<string, string> {
    match Preference(line)
    case None => before
    case Some((key, value)) => before[key := value]
  }

  /** Later lines win. */
  function Preferences(lines: seq<string>): map<string, string> {
    if lines == [] then map[] else WithPreference(Preferences(lines[..|lines| - 1]), lines[|lines| - 1])
  }

  lemma PreferencesOneMore(lines: seq<string>, i: nat)
    requires i < |lines|
    ensures Preferences(lines[..i + 1]) == WithPreference(Preferences(lines[..i]), lines[i])
  {
    assert lines[..i + 1][..i] == lines[..i];
  }

  method ParseDisplayPreferences(section: string) returns (preferences: map<string, string>)
    ensures preferences == Preferences(SplitLines(section))
  {
    preferences := map[];
    var lines := SplitLines(section);
    for i := 0 to |lines|
      invariant preferences == Preferences(lines[..i])
    {
      PreferencesOneMore(lines, i);
      match Preference(lines[i])
      case None =>
      case Some((key, value)) => preferences := preferences[key := value];
    }
    assert lines[..|lines|] == lines;
  }

  // ---------- reading ----------

  function FirstNonemptyLine(lines: seq<string>): string {
    if lines == [] then ""
    else if Strip(lines[0]) != "" then Strip(lines[0])
    else FirstNonemptyLine(lines[1..])
  }

  function Or(s: string, default: string): string {
    if s == "" then default else s
  }

  const NAME_HEADINGS := ["名称", "Name"]
  const PREFERENCES_HEADINGS := ["显示偏好", "Display Preferences"]
  const PERSONA_HEADINGS := ["身份", "Persona"]
  const TONE_HEADINGS := ["语气", "Tone"]
  const STYLE_HEADINGS := ["回复风格", "Response Style"]

  /** The identity a text describes, with the gaps filled from `defaults`. */
  function Read(content: string, defaults: Identity): Identity {
    Identity(
      Or(FirstNonemptyLine(SplitLines(Section(content, NAME_HEADINGS))), defaults.name),
      Or(Section(content, PERSONA_HEADINGS), defaults.persona),
      Or(Section(content, TONE_HEADINGS), defaults.tone),
      Or(Section(content, STYLE_HEADINGS), defaults.responseStyle),
      defaults.preferences + Preferences(SplitLines(Section(content, PREFERENCES_HEADINGS))))
  }

  // ---------- what reading a text means ----------

  /** One is the capital of the other, among the ASCII letters. */
  predicate AreCases(c: char, d: char) {
    ('A' <= c <= 'Z' && d as int == c as int + 32) || ('A' <= d <= 'Z' && c as int == d as int + 32)
  }

  predicate SameIgnoringCase(a: string, b: string) {
    |a| == |b| && forall i :: 0 <= i < |a| ==> a[i] == b[i] || AreCases(a[i], b[i])
  }

  /** The line is the section's heading in one of its languages. */
  predicate Heads(line: string, chinese: string, english: string) {
    SameIgnoringCase(Strip(line), "## " + chinese) || SameIgnoringCase(Strip(line), "## " + english)
  }

  /** The section begins after its first heading at `i`, and goes on to the next line `j`
      that opens any section. */
  ghost predicate IsSection(lines: seq<string>, chinese: string, english: string, i: nat, j: nat) {
    && i < j <= |lines| && Heads(lines[i], chinese, english)
    && (forall k :: 0 <= k < i ==> !Heads(lines[k], chinese, english))
    && (forall k :: i < k < j ==> !("## " <= Strip(lines[k])))
    && (j < |lines| ==> "## " <= Strip(lines[j]))
  }

  ghost predicate HasSection(lines: seq<string>, chinese: string, english: string) {
    exists i, j :: IsSection(lines, chinese, english, i, j)
  }

  /** `text` stands in the section, without the whitespace around it; no text, without
      such a section. */
  ghost predicate IsSectionText(content: string, chinese: string, english: string, text: string) {
    var lines := SplitLines(content);
    if HasSection(lines, chinese, english) then
      exists i: nat, j: nat :: IsSection(lines, chinese, english, i, j) && text == Strip(Join(lines[i + 1..j]))
    else
      (forall k :: 0 <= k < |lines| ==> !Heads(lines[k], chinese, english)) && text == ""
  }

  /** `key` and `value` stand around the first colon of `item`. */
  ghost predicate StandAround(item: string, key: string, value: string) {
    exists left, right :: item == left + ":" + right && ':' !in left && key == Strip(left) && value == Strip(right)
  }

  /** The line sets `key` to `value`, perhaps after a list dash. */
  ghost predicate Sets(line: string, key: string, value: string) {
    && key != "" && value != ""
    && StandAround(if "- " <= Strip(line) then Strip(Strip(line)[2..]) else Strip(line), key, value)
  }

  /** Line `k` is the last to set `key`, to `value`. */
  ghost predicate SetsLast(lines: seq<string>, k: nat, key: string, value: string) {
    && k < |lines| && Sets(lines[k], key, value)
    && forall l, other :: k < l < |lines| ==> !Sets(lines[l], key, other)
  }

  ghost predicate SetNowhere(lines: seq<string>, key: string) {
    forall l, other :: 0 <= l < |lines| ==> !Sets(lines[l], key, other)
  }

  /** The preferences the lines set, over the defaults. */
  ghost predicate ArePreferences(lines: seq<string>, defaults: map<string, string>, preferences: map<string, string>) {
    && (forall k: nat, key, value :: SetsLast(lines, k, key, value) ==> key in preferences && preferences[key] == value)
    && (forall key :: SetNowhere(lines, key) ==>
          && (key in preferences <==> key in defaults)
          && (key in preferences ==> preferences[key] == defaults[key]))
  }

  /** The first line that is not blank, without the whitespace around it, if there is one. */
  ghost predicate IsFirstLine(lines: seq<string>, line: string) {
    if exists k :: 0 <= k < |lines| && Strip(lines[k]) != "" then
      exists k :: 0 <= k < |lines| && line == Strip(lines[k]) != "" && forall l :: 0 <= l < k ==> Strip(lines[l]) == ""
    else
      line == ""
  }

  /** `value` is the section's text, or the default when there is none. */
  ghost predicate IsField(content: string, chinese: string, english: string, default: string, value: string) {
    exists text :: IsSectionText(content, chinese, english, text) && value == if text == "" then default else text
  }

  ghost predicate IsName(content: string, default: string, value: string) {
    exists text, line ::
      && IsSectionText(content, "名称", "Name", text) && IsFirstLine(SplitLines(text), line)
      && value == if line == "" then default else line
  }

  ghost predicate AreDisplayPreferences(content: string, defaults: map<string, string>, value: map<string, string>) {
    exists text ::
      IsSectionText(content, "显示偏好", "Display Preferences", text) && ArePreferences(SplitLines(text), defaults, value)
  }

  /** `identity` is what the text describes, each gap filled with its own default. */
  ghost predicate IsReading(content: string, defaults: Identity, identity: Identity) {
    && IsName(content, defaults.name, identity.name)
    && IsField(content, "身份", "Persona", defaults.persona, identity.persona)
    && IsField(content, "语气", "Tone", defaults.tone, identity.tone)
    && IsField(content, "回复风格", "Response Style", defaults.responseStyle, identity.responseStyle)
    && AreDisplayPreferences(content, defaults.preferences, identity.preferences)
  }

  lemma FoldedAlike(a: string, b: string)
    ensures Fold(a) == Fold(b) <==> SameIgnoringCase(a, b)
  {
    if SameIgnoringCase(a, b) {
      assert forall i :: 0 <= i < |a| ==> Fold(a)[i] == Fold(b)[i];
    }
    if Fold(a) == Fold(b) {
      assert |a| == |Fold(a)| && |b| == |Fold(b)|;
      forall i | 0 <= i < |a| ensures a[i] == b[i] || AreCases(a[i], b[i]) {
        assert Fold(a)[i] == Fold(b)[i];
      }
    }
  }

  /** The text begins with something other than whitespace. */
  predicate Begins(s: string) {
    s != "" && !IsSpace(s[0])
  }

  lemma {:induction false} BeginningStays(s: string)
    requires Begins(s)
    ensures Strip(s) != ""
  {
    if IsSpace(s[|s| - 1]) {
      BeginningStays(s[..|s| - 1]);
    }
  }

  lemma HeadsByTargets(line: string, chinese: string, english: string)
    requires Begins(chinese) && Begins(english)
    ensures IsHeading(line, Targets([chinese, english])) <==> Heads(line, chinese, english)
  {
    FoldedAlike(Strip(line), "## " + chinese);
    FoldedAlike(Strip(line), "## " + english);
    BeginningStays(chinese);
    BeginningStays(english);
    assert chinese in [chinese, english] && english in [chinese, english];
  }

  lemma {:induction false} AfterFirstHeading(lines: seq<string>, targets: set<string>) returns (i: nat)
    ensures AfterHeading(lines, targets).None? ==> forall k :: 0 <= k < |lines| ==> !IsHeading(lines[k], targets)
    ensures AfterHeading(lines, targets).Some? ==>
      && i < |lines| && IsHeading(lines[i], targets) && AfterHeading(lines, targets) == Some(lines[i + 1..])
      && forall k :: 0 <= k < i ==> !IsHeading(lines[k], targets)
  {
    i := 0;
    if lines != [] && !IsHeading(lines[0], targets) {
      i := AfterFirstHeading(lines[1..], targets);
      assert forall k :: 0 < k < |lines| ==> lines[k] == lines[1..][k - 1];
      i := i + 1;
    }
  }

  lemma {:induction false} BodyEnd(lines: seq<string>) returns (j: nat)
    ensures j <= |lines| && SectionBody(lines) == lines[..j]
    ensures forall k :: 0 <= k < j ==> !("## " <= Strip(lines[k]))
    ensures j < |lines| ==> "## " <= Strip(lines[j])
  {
    j := 0;
    if lines != [] && !StartsSection(lines[0]) {
      var rest := BodyEnd(lines[1..]);
      j := rest + 1;
      assert lines[..j] == [lines[0]] + lines[1..][..rest];
      assert forall k :: 0 < k < |lines| ==> lines[k] == lines[1..][k - 1];
    }
  }

  /** The section reader finds the section's text. */
  lemma SectionIsText(content: string, chinese: string, english: string)
    requires Begins(chinese) && Begins(english)
    ensures IsSectionText(content, chinese, english, Section(content, [chinese, english]))
  {
    var lines, targets := SplitLines(content), Targets([chinese, english]);
    forall line ensures IsHeading(line, targets) <==> Heads(line, chinese, english) {
      HeadsByTargets(line, chinese, english);
    }
    var i := AfterFirstHeading(lines, targets);
    if AfterHeading(lines, targets).Some? {
      var rest := lines[i + 1..];
      var j := BodyEnd(rest);
      assert rest[..j] == lines[i + 1..i + 1 + j];
      assert forall k :: i < k < |lines| ==> lines[k] == rest[k - i - 1];
      assert IsSection(lines, chinese, english, i, i + 1 + j);
    }
  }

  lemma AroundFirstColon(item: string, left: string, right: string)
    requires item == left + ":" + right && ':' !in left
    ensures Find(item, ':') == |left| < |item| && item[..|left|] == left && item[|left| + 1..] == right
  {
    assert item == left + (":" + right);
    FindIn(left, ":" + right, ':');
  }

  lemma KeyAndValueStandAround(item: string, key: string, value: string)
    ensures KeyAndValue(item) == Some((key, value)) <==> key != "" && value != "" && StandAround(item, key, value)
  {
    if KeyAndValue(item) == Some((key, value)) {
      var colon := Find(item, ':');
      assert item == item[..colon] + ":" + item[colon + 1..];
    } else if StandAround(item, key, value) {
      var left, right :| item == left + ":" + right && ':' !in left && key == Strip(left) && value == Strip(right);
      AroundFirstColon(item, left, right);
    }
  }

  lemma PreferenceIsSet(line: string, key: string, value: string)
    ensures Preference(line) == Some((key, value)) <==> Sets(line, key, value)
  {
    KeyAndValueStandAround(ListItem(line), key, value);
  }

  predicate SetsKey(line: string, key: string) {
    Preference(line).Some? && Preference(line).value.0 == key
  }

  /** No line from `from` on sets the key. */
  predicate Unset(lines: seq<string>, key: string, from: nat) {
    forall l :: from <= l < |lines| ==> !SetsKey(lines[l], key)
  }

  lemma UnsetOneMore(lines: seq<string>, key: string, from: nat)
    requires lines != [] && Unset(lines[..|lines| - 1], key, from) && !SetsKey(lines[|lines| - 1], key)
    ensures Unset(lines, key, from)
  {
    forall l | from <= l < |lines| ensures !SetsKey(lines[l], key) {
      if l < |lines| - 1 {
        assert lines[..|lines| - 1][l] == lines[l];
      }
    }
  }

  lemma {:induction false} PreferencesAreLast(lines: seq<string>, key: string) returns (k: nat)
    ensures key in Preferences(lines) ==>
      && k < |lines| && SetsKey(lines[k], key) && Preference(lines[k]).value.1 == Preferences(lines)[key]
      && Unset(lines, key, k + 1)
    ensures key !in Preferences(lines) ==> Unset(lines, key, 0)
  {
    k := 0;
    if lines != [] {
      var last := |lines| - 1;
      k := PreferencesAreLast(lines[..last], key);
      if SetsKey(lines[last], key) {
        k := last;
      } else {
        UnsetOneMore(lines, key, if key in Preferences(lines[..last]) then k + 1 else 0);
      }
    }
  }

  lemma SetByPreferences(lines: seq<string>, k: nat, key: string, value: string)
    requires SetsLast(lines, k, key, value)
    ensures key in Preferences(lines) && Preferences(lines)[key] == value
  {
    var j := PreferencesAreLast(lines, key);
    PreferenceIsSet(lines[k], key, value);
    assert SetsKey(lines[k], key);
    PreferenceIsSet(lines[j], key, Preferences(lines)[key]);
  }

  lemma NotSetByPreferences(lines: seq<string>, key: string)
    requires SetNowhere(lines, key)
    ensures key !in Preferences(lines)
  {
    var j := PreferencesAreLast(lines, key);
    if key in Preferences(lines) {
      PreferenceIsSet(lines[j], key, Preferences(lines)[key]);
    }
  }

  lemma MergedPreferences(lines: seq<string>, defaults: map<string, string>)
    ensures ArePreferences(lines, defaults, defaults + Preferences(lines))
  {
    forall k: nat, key, value | SetsLast(lines, k, key, value)
      ensures key in Preferences(lines) && Preferences(lines)[key] == value
    {
      SetByPreferences(lines, k, key, value);
    }
    forall key | SetNowhere(lines, key) ensures key !in Preferences(lines) {
      NotSetByPreferences(lines, key);
    }
  }

  lemma {:induction false} FirstLineFound(lines: seq<string>)
    ensures IsFirstLine(lines, FirstNonemptyLine(lines))
  {
    if lines != [] && Strip(lines[0]) == "" {
      FirstLineFound(lines[1..]);
      assert forall k :: 0 < k < |lines| ==> lines[k] == lines[1..][k - 1];
      if exists k :: 0 <= k < |lines| && Strip(lines[k]) != "" {
        var k :| 0 <= k < |lines| && Strip(lines[k]) != "";
        assert Strip(lines[1..][k - 1]) != "";
      }
    }
  }

  lemma HeadingsBegin()
    ensures Begins("身份") && Begins("Persona") && Begins("语气") && Begins("Tone")
    ensures Begins("回复风格") && Begins("Response Style")
  {
  }

  lemma FieldIsRead(content: string, chinese: string, english: string, default: string)
    requires Begins(chinese) && Begins(english)
    ensures IsField(content, chinese, english, default, Or(Section(content, [chinese, english]), default))
  {
    SectionIsText(content, chinese, english);
  }

  lemma NameIsRead(content: string, default: string)
    ensures IsName(content, default, Or(FirstNonemptyLine(SplitLines(Section(content, ["名称", "Name"]))), default))
  {
    SectionIsText(content, "名称", "Name");
    FirstLineFound(SplitLines(Section(content, ["名称", "Name"])));
  }

  lemma PreferencesAreRead(content: string, defaults: map<string, string>)
    ensures AreDisplayPreferences(content, defaults,
              defaults + Preferences(SplitLines(Section(content, ["显示偏好", "Display Preferences"]))))
  {
    SectionIsText(content, "显示偏好", "Display Preferences");
    MergedPreferences(SplitLines(Section(content, ["显示偏好", "Display Preferences"])), defaults);
  }

  /** Reading finds exactly what the text describes. */
  lemma ReadIsReading(content: string, defaults: Identity)
    ensures IsReading(content, defaults, Read(content, defaults))
  {
    NameIsRead(content, defaults.name);
    HeadingsBegin();
    FieldIsRead(content, "身份", "Persona", defaults.persona);
    FieldIsRead(content, "语气", "Tone", defaults.tone);
    FieldIsRead(content, "回复风格", "Response Style", defaults.responseStyle);
    PreferencesAreRead(content, defaults.preferences);
  }

  method ReadBuddyIdentity(content: string) returns (identity: Identity)
    ensures identity == Read(content, DEFAULT_IDENTITY)
    ensures IsReading(content, DEFAULT_IDENTITY, identity)
  {
    ReadIsReading(content, DEFAULT_IDENTITY);
    var preferencesText := ExtractSection(content, PREFERENCES_HEADINGS);
    var preferences := ParseDisplayPreferences(preferencesText);
    var name := ExtractSection(content, NAME_HEADINGS);
    var persona := ExtractSection(content, PERSONA_HEADINGS);
    var tone := ExtractSection(content, TONE_HEADINGS);
    var style := ExtractSection(content, STYLE_HEADINGS);
    identity := Identity(
      Or(FirstNonemptyLine(SplitLines(name)), DEFAULT_IDENTITY.name),
      Or(persona, DEFAULT_IDENTITY.persona),
      Or(tone, DEFAULT_IDENTITY.tone),
      Or(style, DEFAULT_IDENTITY.responseStyle),
      DEFAULT_IDENTITY.preferences + preferences);
  }

  // ---------- rendering ----------

  function PreferenceOf(preferences: map<string, string>, key: string, default: string): string {
    Or(if key in preferences then Strip(preferences[key]) else "", default)
  }

  const TITLE := "# SOUL.md - TooGraph Buddy"
  const INTRODUCTION := "这个文件定义 Buddy 的持久身份、声音和基线行为。"
    + "它始终服从 TooGraph 运行时规则、" + "图校验、能力权限和用户批准。"

  /** The fixed last two sections. */
  const CLOSING_HEADING := "## 核心原则"
  const CLOSING: seq<string> := [
    "",
    "- 通过图运行、可审计 Action、命令、revision 和 run record 提供帮助。",
    "- 清晰直接：使用简洁语言、可靠的不确定性表达和具体下一步。",
    "- 在提问前先主动查找可用信息；当决策需要用户意图或权限时，明确询问。",
    "- 保护用户的本地数据、私有上下文，以及检查和恢复变更的能力。",
    "",
    "## 边界",
    "",
    "- 运行时权限来自 TooGraph 规则、图校验、能力作用域和用户批准。",
    "- 重要写入必须留下可审计的命令、revision 或 run record。",
    "- 如果这个文件发生变化，用户应能检查并恢复旧版本。"]

  function Opening(title: string, introduction: string): seq<string> {
    [title, "", introduction, ""]
  }

  /** A heading, its text, and the blank lines around the text. */
  function SectionBlocks(heading: string, blocks: seq<string>): seq<string> {
    [heading, ""] + blocks + [""]
  }

  function PreferenceLine(key: string, value: string): string {
    "- " + (key + ": " + value)
  }

  /** The six texts a document shows. */
  datatype Fields = Fields(
    name: string,
    displayName: string,
    language: string,
    persona: string,
    tone: string,
    style: string)

  /** The document for an identity without gaps. */
  function Document(f: Fields): string {
    Unlines(Opening(TITLE, INTRODUCTION)
      + SectionBlocks("## 名称", [f.name])
      + SectionBlocks("## 显示偏好",
                      [PreferenceLine(DISPLAY_NAME, f.displayName), PreferenceLine(LANGUAGE, f.language)])
      + SectionBlocks("## 身份", [f.persona])
      + SectionBlocks("## 语气", [f.tone])
      + SectionBlocks("## 回复风格", [f.style])
      + [CLOSING_HEADING] + CLOSING)
  }

  function Render(identity: Identity, defaults: Identity): string
    requires DISPLAY_NAME in defaults.preferences
  {
    Document(Fields(
      Or(Strip(identity.name), defaults.name),
      PreferenceOf(identity.preferences, DISPLAY_NAME, Strip(defaults.preferences[DISPLAY_NAME])),
      PreferenceOf(identity.preferences, LANGUAGE, "zh-CN"),
      Or(Strip(identity.persona), defaults.persona),
      Or(Strip(identity.tone), defaults.tone),
      Or(Strip(identity.responseStyle), defaults.responseStyle)))
  }
}
