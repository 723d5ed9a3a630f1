/** What the reading of SOUL.md settles: which gaps are filled with what, and that a text
    describes one identity only. */
module SoulReading {
  import opened Basics
  import opened Text
  import opened Soul

  // ---------- gaps ----------

  /** No line is the section's heading, or there is nothing but whitespace under the first
      one that is. */
  ghost predicate IsGap(content: string, chinese: string, english: string) {
    var lines := SplitLines(content);
    forall i: nat, j: nat :: IsSection(lines, chinese, english, i, j) ==> Strip(Join(lines[i + 1..j])) == ""
  }

  /** No line of the preference section sets the key. */
  ghost predicate IsPreferenceGap(content: string, key: string) {
    var lines := SplitLines(content);
    forall i: nat, j: nat :: IsSection(lines, "显示偏好", "Display Preferences", i, j) ==>
      SetNowhere(SplitLines(Strip(Join(lines[i + 1..j]))), key)
  }

  lemma GapHasNoText(content: string, chinese: string, english: string, text: string)
    requires IsGap(content, chinese, english) && IsSectionText(content, chinese, english, text)
    ensures text == ""
  {
  }

  lemma NameGap(content: string, defaults: Identity, identity: Identity)
    requires IsReading(content, defaults, identity) && IsGap(content, "名称", "Name")
    ensures identity.name == defaults.name
  {
    var text, line :|
      && IsSectionText(content, "名称", "Name", text) && IsFirstLine(SplitLines(text), line)
      && identity.name == if line == "" then defaults.name else line;
    GapHasNoText(content, "名称", "Name", text);
  }

  lemma FieldGap(content: string, chinese: string, english: string, default: string, value: string)
    requires IsField(content, chinese, english, default, value) && IsGap(content, chinese, english)
    ensures value == default
  {
    var text :| IsSectionText(content, chinese, english, text) && value == if text == "" then default else text;
    GapHasNoText(content, chinese, english, text);
  }

  lemma PreferenceGap(content: string, defaults: map<string, string>, value: map<string, string>, key: string)
    requires AreDisplayPreferences(content, defaults, value) && IsPreferenceGap(content, key)
    ensures key in value <==> key in defaults
    ensures key in defaults ==> value[key] == defaults[key]
  {
    var text :|
      IsSectionText(content, "显示偏好", "Display Preferences", text) && ArePreferences(SplitLines(text), defaults, value);
    assert SetNowhere(SplitLines(text), key);
  }

  /** Every gap is filled with the default of its own field. */
  lemma GapsAreFilled(content: string, defaults: Identity, identity: Identity)
    requires IsReading(content, defaults, identity)
    ensures IsGap(content, "名称", "Name") ==> identity.name == defaults.name
    ensures IsGap(content, "身份", "Persona") ==> identity.persona == defaults.persona
    ensures IsGap(content, "语气", "Tone") ==> identity.tone == defaults.tone
    ensures IsGap(content, "回复风格", "Response Style") ==> identity.responseStyle == defaults.responseStyle
    ensures forall key :: IsPreferenceGap(content, key) ==>
              && (key in identity.preferences <==> key in defaults.preferences)
              && (key in defaults.preferences ==> identity.preferences[key] == defaults.preferences[key])
  {
    if IsGap(content, "名称", "Name") {
      NameGap(content, defaults, identity);
    }
    if IsGap(content, "身份", "Persona") {
      FieldGap(content, "身份", "Persona", defaults.persona, identity.persona);
    }
    if IsGap(content, "语气", "Tone") {
      FieldGap(content, "语气", "Tone", defaults.tone, identity.tone);
    }
    if IsGap(content, "回复风格", "Response Style") {
      FieldGap(content, "回复风格", "Response Style", defaults.responseStyle, identity.responseStyle);
    }
    forall key | IsPreferenceGap(content, key)
      ensures key in identity.preferences <==> key in defaults.preferences
      ensures key in defaults.preferences ==> identity.preferences[key] == defaults.preferences[key]
    {
      PreferenceGap(content, defaults.preferences, identity.preferences, key);
    }
  }

  /** The empty text describes the default identity. */
  lemma EmptySoul(defaults: Identity, identity: Identity)
    requires IsReading("", defaults, identity)
    ensures identity == defaults
  {
    GapsAreFilled("", defaults, identity);
    forall key ensures IsPreferenceGap("", key) {
    }
    assert identity.preferences == defaults.preferences;
  }

  lemma SectionIsUnique(lines: seq<string>, chinese: string, english: string, i: nat, j: nat, i': nat, j': nat)
    requires IsSection(lines, chinese, english, i, j) && IsSection(lines, chinese, english, i', j')
    ensures i == i' && j == j'
  {
  }

  lemma SectionTextIsUnique(content: string, chinese: string, english: string, a: string, b: string)
    requires IsSectionText(content, chinese, english, a) && IsSectionText(content, chinese, english, b)
    ensures a == b
  {
    var lines := SplitLines(content);
    if HasSection(lines, chinese, english) {
      var i: nat, j: nat :| IsSection(lines, chinese, english, i, j) && a == Strip(Join(lines[i + 1..j]));
      var i': nat, j': nat :| IsSection(lines, chinese, english, i', j') && b == Strip(Join(lines[i' + 1..j']));
      SectionIsUnique(lines, chinese, english, i, j, i', j');
    }
  }

  lemma FieldIsUnique(content: string, chinese: string, english: string, default: string, a: string, b: string)
    requires IsField(content, chinese, english, default, a) && IsField(content, chinese, english, default, b)
    ensures a == b
  {
    var text :| IsSectionText(content, chinese, english, text) && a == if text == "" then default else text;
    var text' :| IsSectionText(content, chinese, english, text') && b == if text' == "" then default else text';
    SectionTextIsUnique(content, chinese, english, text, text');
  }

  lemma NameIsUnique(content: string, default: string, a: string, b: string)
    requires IsName(content, default, a) && IsName(content, default, b)
    ensures a == b
  {
    var text, line :|
      && IsSectionText(content, "名称", "Name", text) && IsFirstLine(SplitLines(text), line)
      && a == if line == "" then default else line;
    var text', line' :|
      && IsSectionText(content, "名称", "Name", text') && IsFirstLine(SplitLines(text'), line')
      && b == if line' == "" then default else line';
    SectionTextIsUnique(content, "名称", "Name", text, text');
    FirstLineIsUnique(SplitLines(text), line, line');
  }

  lemma FirstLineIsUnique(lines: seq<string>, a: string, b: string)
    requires IsFirstLine(lines, a) && IsFirstLine(lines, b)
    ensures a == b
  {
    if exists k :: 0 <= k < |lines| && Strip(lines[k]) != "" {
      var k :| 0 <= k < |lines| && a == Strip(lines[k]) != "" && forall l :: 0 <= l < k ==> Strip(lines[l]) == "";
      var l :| 0 <= l < |lines| && b == Strip(lines[l]) != "" && forall m :: 0 <= m < l ==> Strip(lines[m]) == "";
      assert k == l;
    }
  }

  lemma PreferenceIsMerged(lines: seq<string>, defaults: map<string, string>, a: map<string, string>, key: string)
    requires ArePreferences(lines, defaults, a)
    ensures key in a <==> key in defaults + Preferences(lines)
    ensures key in a ==> a[key] == (defaults + Preferences(lines))[key]
  {
    var k := PreferencesAreLast(lines, key);
    if key in Preferences(lines) {
      LastIsSet(lines, k, key);
    } else {
      forall l, other | 0 <= l < |lines| ensures !Sets(lines[l], key, other) {
        PreferenceIsSet(lines[l], key, other);
      }
    }
  }

  lemma LastIsSet(lines: seq<string>, k: nat, key: string)
    requires k < |lines| && SetsKey(lines[k], key) && Unset(lines, key, k + 1)
    ensures SetsLast(lines, k, key, Preference(lines[k]).value.1)
  {
    PreferenceIsSet(lines[k], key, Preference(lines[k]).value.1);
    forall l, other | k < l < |lines| ensures !Sets(lines[l], key, other) {
      PreferenceIsSet(lines[l], key, other);
    }
  }

  lemma PreferencesAreMerged(lines: seq<string>, defaults: map<string, string>, a: map<string, string>)
    requires ArePreferences(lines, defaults, a)
    ensures a == defaults + Preferences(lines)
  {
    forall key
      ensures key in a <==> key in defaults + Preferences(lines)
      ensures key in a ==> a[key] == (defaults + Preferences(lines))[key]
    {
      PreferenceIsMerged(lines, defaults, a, key);
    }
  }

  lemma DisplayPreferencesAreUnique(content: string, defaults: map<string, string>, a: map<string, string>,
                                    b: map<string, string>)
    requires AreDisplayPreferences(content, defaults, a) && AreDisplayPreferences(content, defaults, b)
    ensures a == b
  {
    var text :|
      IsSectionText(content, "显示偏好", "Display Preferences", text) && ArePreferences(SplitLines(text), defaults, a);
    var text' :|
      IsSectionText(content, "显示偏好", "Display Preferences", text') && ArePreferences(SplitLines(text'), defaults, b);
    SectionTextIsUnique(content, "显示偏好", "Display Preferences", text, text');
    PreferencesAreMerged(SplitLines(text), defaults, a);
    PreferencesAreMerged(SplitLines(text), defaults, b);
  }

  /** A text describes one identity only. */
  lemma ReadingIsUnique(content: string, defaults: Identity, a: Identity, b: Identity)
    requires IsReading(content, defaults, a) && IsReading(content, defaults, b)
    ensures a == b
  {
    NameIsUnique(content, defaults.name, a.name, b.name);
    FieldIsUnique(content, "身份", "Persona", defaults.persona, a.persona, b.persona);
    FieldIsUnique(content, "语气", "Tone", defaults.tone, a.tone, b.tone);
    FieldIsUnique(content, "回复风格", "Response Style", defaults.responseStyle, a.responseStyle, b.responseStyle);
    DisplayPreferencesAreUnique(content, defaults.preferences, a.preferences, b.preferences);
  }
}
