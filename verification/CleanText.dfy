/** The event-driven text extractor for policy pages, against the document tree whose
    tokens it is fed. */
module CleanText {
  import opened Basics
  import Text

  /** The tags the extractor treats specially; the HTML parser has lower-cased them. */
  datatype Tag =
    | Address | Article | Blockquote | Br | Div | H1 | H2 | H3 | H4 | H5 | H6 | Li | P | Section
    | Table | Tbody | Td | Tfoot | Th | Thead | Tr | Ul | Ol
    | Button | Footer | Form | Head | Header | Iframe | Nav | Noscript | Script | Select | Style | Svg
    | Area | Base | Col | Embed | Hr | Img | Input | Link | Meta | Param | Source | Track | Wbr
    | Other(name: string)

  predicate IsBlock(t: Tag) {
    t.Address? || t.Article? || t.Blockquote? || t.Br? || t.Div? || t.H1? || t.H2? || t.H3? || t.H4? || t.H5? || t.H6?
    || t.Li? || t.P? || t.Section? || t.Table? || t.Tbody? || t.Td? || t.Tfoot? || t.Th? || t.Thead? || t.Tr?
    || t.Ul? || t.Ol?
  }

  predicate IsSkip(t: Tag) {
    t.Button? || t.Footer? || t.Form? || t.Head? || t.Header? || t.Iframe? || t.Nav? || t.Noscript? || t.Script?
    || t.Select? || t.Style? || t.Svg?
  }

  predicate IsVoid(t: Tag) {
    t.Area? || t.Base? || t.Br? || t.Col? || t.Embed? || t.Hr? || t.Img? || t.Input? || t.Link? || t.Meta? || t.Param?
    || t.Source? || t.Track? || t.Wbr?
  }

  datatype Attribute = Attribute(name: string, value: string)

  const TARGET_IDS := {"UCAP-CONTENT", "UCAP_CONTENT", "UCAP-CONTENT-P", "zoom", "content", "article", "articleContent"}
  const TARGET_CLASS_KEYWORDS := ["pages_content", "trs_editor", "ucap-content", "article-content", "article_content"]

  function Lower(s: string): string {
    seq(|s|, i requires 0 <= i < |s| => if 'A' <= s[i] <= 'Z' then s[i] - 'A' + 'a' else s[i])
  }

  /** The value of the last attribute of that name, or the empty text. */
  function ValueOf(attrs: seq<Attribute>, name: string): string {
    if attrs == [] then ""
    else if Lower(attrs[|attrs| - 1].name) == name then attrs[|attrs| - 1].value
    else ValueOf(attrs[..|attrs| - 1], name)
  }

  predicate Occurs(part: string, whole: string) {
    exists i :: 0 <= i <= |whole| && part <= whole[i..]
  }

  /** The element holds the article. */
  predicate IsTarget(attrs: seq<Attribute>) {
    ValueOf(attrs, "id") in TARGET_IDS
    || exists k | 0 <= k < |TARGET_CLASS_KEYWORDS| :: Occurs(TARGET_CLASS_KEYWORDS[k], Lower(ValueOf(attrs, "class")))
  }

  /** Attribute `k` is the last of that name, in any case. */
  predicate IsLastNamed(attrs: seq<Attribute>, name: string, k: nat) {
    && k < |attrs| && Lower(attrs[k].name) == name
    && forall l :: k < l < |attrs| ==> Lower(attrs[l].name) != name
  }

  /** Of several attributes of one name the last counts; a missing one is empty. */
  lemma {:induction false} ValueOfLast(attrs: seq<Attribute>, name: string)
    ensures forall k: nat :: IsLastNamed(attrs, name, k) ==> ValueOf(attrs, name) == attrs[k].value
    ensures (forall k :: 0 <= k < |attrs| ==> Lower(attrs[k].name) != name) ==> ValueOf(attrs, name) == ""
  {
    if attrs != [] && Lower(attrs[|attrs| - 1].name) != name {
      var init := attrs[..|attrs| - 1];
      ValueOfLast(init, name);
      forall k: nat | IsLastNamed(attrs, name, k) ensures IsLastNamed(init, name, k) && init[k] == attrs[k] {
      }
    }
  }

  // ---------- the machine ----------

  datatype Event =
    | StartTag(tag: Tag, attrs: seq<Attribute>)
    | EndTag(tag: Tag)
    | StartEndTag(tag: Tag, attrs: seq<Attribute>)
    | Data(data: string)

  datatype State = State(
    capture: bool,
    targetDepth: nat,
    skipDepth: nat,
    foundTarget: bool,
    fragments: seq<string>,
    imageCount: nat)

  function Newline(fragments: seq<string>): seq<string> {
    if fragments != [] && fragments[|fragments| - 1] != "\n" then fragments + ["\n"] else fragments
  }

  function NewlineIf(block: bool, fragments: seq<string>): seq<string> {
    if block then Newline(fragments) else fragments
  }

  /** The text without surrounding whitespace, non-breaking spaces being spaces. */
  function Cleaned(data: string): string {
    Text.Strip(seq(|data|, i requires 0 <= i < |data| => if data[i] == '\U{a0}' then ' ' else data[i]))
  }

  function AddText(fragments: seq<string>, data: string): seq<string> {
    if Cleaned(data) == "" then fragments else fragments + [Cleaned(data)]
  }

  function OnStartTag(targetOnly: bool, s: State, tag: Tag, attrs: seq<Attribute>): State {
    if s.skipDepth > 0 then (if IsVoid(tag) then s else s.(skipDepth := s.skipDepth + 1))
    else if IsSkip(tag) then (if IsVoid(tag) then s else s.(skipDepth := 1))
    else
      var counted := if s.capture && tag.Img? then s.(imageCount := s.imageCount + 1) else s;
      if targetOnly && IsTarget(attrs) then
        counted.(capture := true, foundTarget := true, targetDepth := 1, fragments := Newline(s.fragments))
      else
        counted.(targetDepth := if s.capture && s.targetDepth > 0 then s.targetDepth + 1 else s.targetDepth,
                 fragments := NewlineIf(s.capture && IsBlock(tag), s.fragments))
  }

  function OnEndTag(s: State, tag: Tag): State {
    if s.skipDepth > 0 then s.(skipDepth := s.skipDepth - 1)
    else
      var broken := s.(fragments := NewlineIf(s.capture && IsBlock(tag), s.fragments));
      if s.capture && s.targetDepth > 0 then
        broken.(targetDepth := s.targetDepth - 1, capture := s.targetDepth > 1)
      else broken
  }

  function OnStartEndTag(s: State, tag: Tag): State {
    if s.skipDepth > 0 || IsSkip(tag) then s
    else
      s.(imageCount := if s.capture && tag.Img? then s.imageCount + 1 else s.imageCount,
         fragments := NewlineIf(s.capture && IsBlock(tag), s.fragments))
  }

  function OnData(s: State, data: string): State {
    if !s.capture || s.skipDepth > 0 then s else s.(fragments := AddText(s.fragments, data))
  }

  function Step(targetOnly: bool, s: State, e: Event): State {
    match e
    case StartTag(tag, attrs) => OnStartTag(targetOnly, s, tag, attrs)
    case EndTag(tag) => OnEndTag(s, tag)
    case StartEndTag(tag, _) => OnStartEndTag(s, tag)
    case Data(data) => OnData(s, data)
  }

  function Run(targetOnly: bool, s: State, events: seq<Event>): State
    decreases |events|
  {
    if events == [] then s else Run(targetOnly, Step(targetOnly, s, events[0]), events[1..])
  }

  function Initial(targetOnly: bool): State {
    State(!targetOnly, 0, 0, !targetOnly, [], 0)
  }

  class CleanTextParser {
    const targetOnly: bool
    var capture: bool
    var targetDepth: int
    var skipDepth: int
    var foundTarget: bool
    var fragments: seq<string>
    var imageCount: nat

    ghost predicate Valid()
      reads this
    {
      targetDepth >= 0 && skipDepth >= 0
    }

    ghost function View(): State
      reads this
      requires Valid()
    {
      State(capture, targetDepth, skipDepth, foundTarget, fragments, imageCount)
    }

    constructor (targetOnly: bool)
      ensures this.targetOnly == targetOnly && Valid() && View() == Initial(targetOnly)
    {
      this.targetOnly := targetOnly;
      capture := !targetOnly;
      targetDepth := 0;
      skipDepth := 0;
      foundTarget := !targetOnly;
      fragments := [];
      imageCount := 0;
    }

    method BreakLine()
      requires Valid()
      modifies this`fragments
      ensures View() == old(View()).(fragments := Newline(old(fragments)))
    {
      if fragments != [] && fragments[|fragments| - 1] != "\n" {
        fragments := fragments + ["\n"];
      }
    }

    /** Captures from here on. */
    method BeginTarget()
      requires Valid()
      modifies this`capture, this`foundTarget, this`targetDepth, this`fragments
      ensures Valid()
      ensures View() == old(View()).(capture := true, foundTarget := true, targetDepth := 1,
                                     fragments := Newline(old(fragments)))
    {
      capture := true;
      foundTarget := true;
      targetDepth := 1;
      BreakLine();
    }

    /** A start tag that skips nothing. */
    method EnterElement(tag: Tag, attrs: seq<Attribute>)
      requires Valid() && skipDepth == 0 && !IsSkip(tag)
      modifies this
      ensures Valid() && View() == OnStartTag(targetOnly, old(View()), tag, attrs)
    {
      if capture && tag.Img? {
        imageCount := imageCount + 1;
      }
      if targetOnly && IsTarget(attrs) {
        BeginTarget();
        return;
      }
      if capture && targetDepth != 0 {
        targetDepth := targetDepth + 1;
      }
      if capture && IsBlock(tag) {
        BreakLine();
      }
    }

    method HandleStartTag(tag: Tag, attrs: seq<Attribute>)
      requires Valid()
      modifies this
      ensures Valid() && View() == OnStartTag(targetOnly, old(View()), tag, attrs)
    {
      if skipDepth != 0 {
        if !IsVoid(tag) {
          skipDepth := skipDepth + 1;
        }
        return;
      }
      if IsSkip(tag) {
        if !IsVoid(tag) {
          skipDepth := 1;
        }
        return;
      }
      EnterElement(tag, attrs);
    }

    method HandleEndTag(tag: Tag)
      requires Valid()
      modifies this
      ensures Valid() && View() == OnEndTag(old(View()), tag)
    {
      if skipDepth != 0 {
        skipDepth := if skipDepth - 1 > 0 then skipDepth - 1 else 0;
        return;
      }
      if capture && IsBlock(tag) {
        BreakLine();
      }
      LeaveElement();
    }

    /** Counts one element less; capturing stops when the target itself is left. */
    method LeaveElement()
      requires Valid()
      modifies this`capture, this`targetDepth
      ensures Valid()
      ensures View() == if old(capture && targetDepth > 0)
                        then old(View()).(targetDepth := old(targetDepth) - 1, capture := old(targetDepth) > 1)
                        else old(View())
    {
      if capture && targetDepth != 0 {
        targetDepth := targetDepth - 1;
        if targetDepth <= 0 {
          capture := false;
          targetDepth := 0;
        }
      }
    }

    method HandleStartEndTag(tag: Tag, attrs: seq<Attribute>)
      requires Valid()
      modifies this
      ensures Valid() && View() == OnStartEndTag(old(View()), tag)
    {
      if skipDepth != 0 || IsSkip(tag) {
        return;
      }
      if capture && tag.Img? {
        imageCount := imageCount + 1;
      }
      if capture && IsBlock(tag) {
        BreakLine();
      }
    }

    method HandleData(data: string)
      requires Valid()
      modifies this
      ensures Valid() && View() == OnData(old(View()), data)
    {
      if !capture || skipDepth != 0 {
        return;
      }
      var text := Cleaned(data);
      if text != "" {
        fragments := fragments + [text];
      }
    }

    /** Hands a token stream to the handlers. */
    method Feed(events: seq<Event>)
      requires Valid()
      modifies this
      ensures Valid() && View() == Run(targetOnly, old(View()), events)
    {
      for k := 0 to |events|
        invariant Valid() && Run(targetOnly, View(), events[k..]) == Run(targetOnly, old(View()), events)
      {
        assert events[k..][1..] == events[k + 1..];
        match events[k]
        case StartTag(tag, attrs) => HandleStartTag(tag, attrs);
        case EndTag(tag) => HandleEndTag(tag);
        case StartEndTag(tag, attrs) => HandleStartEndTag(tag, attrs);
        case Data(data) => HandleData(data);
      }
    }
  }

  // ---------- documents ----------

  /** A well-nested document: nodes one after the other. A void element is written as a
      start tag alone or closed in itself. */
  datatype Forest =
    | Empty
    | TextNode(data: string, rest: Forest)
    | VoidNode(tag: Tag, attrs: seq<Attribute>, selfClosed: bool, rest: Forest)
    | Element(tag: Tag, attrs: seq<Attribute>, children: Forest, rest: Forest)
  {
    /** Only void elements go without an end tag. */
    predicate WellNested() {
      match this
      case Empty => true
      case TextNode(_, rest) => rest.WellNested()
      case VoidNode(tag, _, selfClosed, rest) => (selfClosed || IsVoid(tag)) && rest.WellNested()
      case Element(tag, _, children, rest) => !IsVoid(tag) && children.WellNested() && rest.WellNested()
    }
  }

  function Tokens(f: Forest): seq<Event> {
    match f
    case Empty => []
    case TextNode(data, rest) => [Data(data)] + Tokens(rest)
    case VoidNode(tag, attrs, selfClosed, rest) =>
      [if selfClosed then StartEndTag(tag, attrs) else StartTag(tag, attrs)] + Tokens(rest)
    case Element(tag, attrs, children, rest) =>
      [StartTag(tag, attrs)] + (Tokens(children) + ([EndTag(tag)] + Tokens(rest)))
  }

  /** What is collected. */
  datatype Output = Output(fragments: seq<string>, images: nat)
  {
    function Break(block: bool): Output {
      this.(fragments := NewlineIf(block, fragments))
    }

    function Seen(tag: Tag): Output {
      if tag.Img? then this.(images := images + 1) else this
    }
  }

  /** The content outside skipped elements, added to `o`. */
  function Content(f: Forest, o: Output): Output
    decreases f
  {
    match f
    case Empty => o
    case TextNode(data, rest) => Content(rest, o.(fragments := AddText(o.fragments, data)))
    case VoidNode(tag, _, _, rest) =>
      Content(rest, if IsSkip(tag) then o else o.Seen(tag).Break(IsBlock(tag)))
    case Element(tag, _, children, rest) =>
      if IsSkip(tag) then Content(rest, o)
      else Content(rest, Content(children, o.Seen(tag).Break(IsBlock(tag))).Break(IsBlock(tag)))
  }

  // ---------- running over a document ----------

  lemma {:induction false} RunAppend(targetOnly: bool, s: State, a: seq<Event>, b: seq<Event>)
    ensures Run(targetOnly, s, a + b) == Run(targetOnly, Run(targetOnly, s, a), b)
    decreases |a|
  {
    if a == [] {
      assert a + b == b;
    } else {
      assert (a + b)[1..] == a[1..] + b;
      RunAppend(targetOnly, Step(targetOnly, s, a[0]), a[1..], b);
    }
  }

  lemma RunOne(targetOnly: bool, s: State, e: Event, rest: seq<Event>)
    ensures Run(targetOnly, s, [e] + rest) == Run(targetOnly, Step(targetOnly, s, e), rest)
  {
    assert ([e] + rest)[1..] == rest;
  }

  /** An element is its start tag, its content, its end tag, and what comes after. */
  lemma RunElement(targetOnly: bool, s: State, f: Forest)
    requires f.Element?
    ensures var inside := Run(targetOnly, OnStartTag(targetOnly, s, f.tag, f.attrs), Tokens(f.children));
            Run(targetOnly, s, Tokens(f)) == Run(targetOnly, OnEndTag(inside, f.tag), Tokens(f.rest))
  {
    var begun := OnStartTag(targetOnly, s, f.tag, f.attrs);
    RunOne(targetOnly, s, StartTag(f.tag, f.attrs), Tokens(f.children) + ([EndTag(f.tag)] + Tokens(f.rest)));
    RunAppend(targetOnly, begun, Tokens(f.children), [EndTag(f.tag)] + Tokens(f.rest));
    RunOne(targetOnly, Run(targetOnly, begun, Tokens(f.children)), EndTag(f.tag), Tokens(f.rest));
  }

  /** Inside a skipped element nothing is captured and the depth comes back. */
  lemma {:induction false} SkippedForest(targetOnly: bool, s: State, f: Forest)
    requires s.skipDepth > 0 && f.WellNested()
    ensures Run(targetOnly, s, Tokens(f)) == s
    decreases f
  {
    match f
    case Empty =>
    case TextNode(data, rest) =>
      RunOne(targetOnly, s, Data(data), Tokens(rest));
      SkippedForest(targetOnly, s, rest);
    case VoidNode(tag, attrs, selfClosed, rest) =>
      RunOne(targetOnly, s, if selfClosed then StartEndTag(tag, attrs) else StartTag(tag, attrs), Tokens(rest));
      SkippedForest(targetOnly, s, rest);
    case Element(tag, attrs, children, rest) =>
      RunElement(targetOnly, s, f);
      SkippedTags(targetOnly, s, tag, attrs);
      SkippedForest(targetOnly, s.(skipDepth := s.skipDepth + 1), children);
      SkippedForest(targetOnly, s, rest);
  }

  lemma SkippedTags(targetOnly: bool, s: State, tag: Tag, attrs: seq<Attribute>)
    requires s.skipDepth > 0 && !IsVoid(tag)
    ensures OnStartTag(targetOnly, s, tag, attrs) == s.(skipDepth := s.skipDepth + 1)
    ensures OnEndTag(s.(skipDepth := s.skipDepth + 1), tag) == s
  {
  }

  lemma SkippedElement(targetOnly: bool, s: State, f: Forest)
    requires s.skipDepth == 0 && f.Element? && IsSkip(f.tag) && f.WellNested()
    ensures Run(targetOnly, s, Tokens(f)) == Run(targetOnly, s, Tokens(f.rest))
  {
    RunElement(targetOnly, s, f);
    SkippedForest(targetOnly, s.(skipDepth := 1), f.children);
  }

  function OutputOf(s: State): Output {
    Output(s.fragments, s.imageCount)
  }

  /** A target that is not inside a skipped element. */
  predicate HasTarget(f: Forest) {
    match f
    case Empty => false
    case TextNode(_, rest) => HasTarget(rest)
    case VoidNode(tag, attrs, selfClosed, rest) => (!selfClosed && IsTarget(attrs)) || HasTarget(rest)
    case Element(tag, attrs, children, rest) =>
      (!IsSkip(tag) && (IsTarget(attrs) || HasTarget(children))) || HasTarget(rest)
  }

  /** How many void elements outside skipped ones are start tags only. */
  function OpenVoids(f: Forest): nat {
    match f
    case Empty => 0
    case TextNode(_, rest) => OpenVoids(rest)
    case VoidNode(_, _, selfClosed, rest) => (if selfClosed then 0 else 1) + OpenVoids(rest)
    case Element(tag, _, children, rest) => (if IsSkip(tag) then 0 else OpenVoids(children)) + OpenVoids(rest)
  }

  /** The state after capturing the content `o`, with `open` more elements counted open. */
  function After(s: State, o: Output, open: nat): State {
    s.(fragments := o.fragments, imageCount := o.images,
       targetDepth := if s.targetDepth > 0 then s.targetDepth + open else 0)
  }

  lemma AfterAfter(s: State, a: Output, i: nat, b: Output, j: nat)
    ensures After(After(s, a, i), b, j) == After(s, b, i + j) && OutputOf(After(s, a, i)) == a
    ensures After(s, a, i).capture == s.capture && After(s, a, i).skipDepth == s.skipDepth
  {
  }

  lemma CapturedVoid(targetOnly: bool, s: State, f: Forest)
    requires s.capture && s.skipDepth == 0 && f.VoidNode? && f.WellNested()
    requires targetOnly ==> !HasTarget(f)
    ensures var e := if f.selfClosed then StartEndTag(f.tag, f.attrs) else StartTag(f.tag, f.attrs);
            Step(targetOnly, s, e) ==
            After(s, if IsSkip(f.tag) then OutputOf(s) else OutputOf(s).Seen(f.tag).Break(IsBlock(f.tag)),
                  if f.selfClosed then 0 else 1)
  {
  }

  /** What the start tag of a captured element does. */
  lemma CapturedStart(targetOnly: bool, s: State, tag: Tag, attrs: seq<Attribute>)
    requires s.capture && s.skipDepth == 0 && !IsSkip(tag) && (targetOnly ==> !IsTarget(attrs))
    ensures OnStartTag(targetOnly, s, tag, attrs) == After(s, OutputOf(s).Seen(tag).Break(IsBlock(tag)), 1)
  {
  }

  /** The end tag takes back the count of its start tag. */
  lemma CapturedEnd(s: State, tag: Tag, o: Output, open: nat)
    requires s.capture && s.skipDepth == 0
    ensures OnEndTag(After(s, o, 1 + open), tag) == After(s, o.Break(IsBlock(tag)), open)
  {
  }

  /** While capturing, the machine collects exactly the content; the count of open
      elements grows by one for every void element without a self-closing slash. */
  lemma {:induction false} CapturedForest(targetOnly: bool, s: State, f: Forest)
    requires s.capture && s.skipDepth == 0 && f.WellNested() && (targetOnly ==> !HasTarget(f))
    ensures Run(targetOnly, s, Tokens(f)) == After(s, Content(f, OutputOf(s)), OpenVoids(f))
    decreases f
  {
    match f
    case Empty =>
    case TextNode(data, rest) =>
      RunOne(targetOnly, s, Data(data), Tokens(rest));
      CapturedForest(targetOnly, OnData(s, data), rest);
    case VoidNode(tag, attrs, selfClosed, rest) =>
      var e := if selfClosed then StartEndTag(tag, attrs) else StartTag(tag, attrs);
      RunOne(targetOnly, s, e, Tokens(rest));
      CapturedVoid(targetOnly, s, f);
      CapturedForest(targetOnly, Step(targetOnly, s, e), rest);
    case Element(tag, attrs, children, rest) =>
      CapturedElement(targetOnly, s, f);
  }

  lemma {:induction false} CapturedElement(targetOnly: bool, s: State, f: Forest)
    requires s.capture && s.skipDepth == 0 && f.Element? && f.WellNested() && (targetOnly ==> !HasTarget(f))
    ensures Run(targetOnly, s, Tokens(f)) == After(s, Content(f, OutputOf(s)), OpenVoids(f))
    decreases f, 1
  {
    if IsSkip(f.tag) {
      SkippedElement(targetOnly, s, f);
      CapturedForest(targetOnly, s, f.rest);
    } else {
      RunElement(targetOnly, s, f);
      CapturedChildren(targetOnly, s, f);
      var closed := Content(f.children, OutputOf(s).Seen(f.tag).Break(IsBlock(f.tag))).Break(IsBlock(f.tag));
      var open := OpenVoids(f.children);
      CapturedForest(targetOnly, After(s, closed, open), f.rest);
      AfterAfter(s, closed, open, Content(f.rest, closed), OpenVoids(f.rest));
    }
  }

  /** From the start tag to the end tag of a captured element. */
  lemma {:induction false} CapturedChildren(targetOnly: bool, s: State, f: Forest)
    requires s.capture && s.skipDepth == 0 && f.Element? && f.WellNested() && (targetOnly ==> !HasTarget(f))
    requires !IsSkip(f.tag)
    ensures var inside := Content(f.children, OutputOf(s).Seen(f.tag).Break(IsBlock(f.tag)));
            OnEndTag(Run(targetOnly, OnStartTag(targetOnly, s, f.tag, f.attrs), Tokens(f.children)), f.tag) ==
            After(s, inside.Break(IsBlock(f.tag)), OpenVoids(f.children))
    decreases f, 0
  {
    CapturedStart(targetOnly, s, f.tag, f.attrs);
    var before := OutputOf(s).Seen(f.tag).Break(IsBlock(f.tag));
    CapturedForest(targetOnly, After(s, before, 1), f.children);
    var inside := Content(f.children, before);
    AfterAfter(s, before, 1, inside, OpenVoids(f.children));
    CapturedEnd(s, f.tag, inside, OpenVoids(f.children));
  }

  /** Without targets, feeding a well-nested document collects its content outside
      skipped elements, and leaves no element skipped. */
  lemma WholeDocument(f: Forest)
    requires f.WellNested()
    ensures var s := Run(false, Initial(false), Tokens(f));
            && OutputOf(s) == Content(f, Output([], 0))
            && s.skipDepth == 0 && s.capture && s.targetDepth == 0
  {
    CapturedForest(false, Initial(false), f);
  }

  // ---------- the text that is collected ----------

  /** The texts outside skipped elements, in order. */
  function Texts(f: Forest): seq<string> {
    match f
    case Empty => []
    case TextNode(data, rest) => AddText([], data) + Texts(rest)
    case VoidNode(_, _, _, rest) => Texts(rest)
    case Element(tag, _, children, rest) => (if IsSkip(tag) then [] else Texts(children)) + Texts(rest)
  }

  /** The fragments that are text, not line breaks. */
  function WithoutBreaks(fragments: seq<string>): seq<string> {
    if fragments == [] then []
    else
      var last := fragments[|fragments| - 1];
      WithoutBreaks(fragments[..|fragments| - 1]) + (if last == "\n" then [] else [last])
  }

  /** No break at the start, none after another. */
  predicate Tidy(fragments: seq<string>) {
    && (fragments != [] ==> fragments[0] != "\n")
    && forall i :: 0 <= i < |fragments| - 1 ==> fragments[i] != "\n" || fragments[i + 1] != "\n"
  }

  /** Cleaning makes plain spaces of non-breaking ones, and then takes away nothing but the
      whitespace at both ends. */
  lemma CleanedMeans(data: string) returns (left: string, right: string)
    ensures |left + Cleaned(data) + right| == |data|
    ensures forall i :: 0 <= i < |data| ==>
              (left + Cleaned(data) + right)[i] == if data[i] == '\U{a0}' then ' ' else data[i]
    ensures forall c :: c in left || c in right ==> Text.IsSpace(c)
    ensures Text.Stripped(Cleaned(data))
  {
    var plain := seq(|data|, i requires 0 <= i < |data| => if data[i] == '\U{a0}' then ' ' else data[i]);
    left, right := Text.StripCuts(plain);
    Text.StripIsStripped(plain);
  }

  lemma CleanedIsText(data: string)
    ensures Cleaned(data) != "\n"
  {
    Text.StripIsStripped(seq(|data|, i requires 0 <= i < |data| => if data[i] == '\U{a0}' then ' ' else data[i]));
  }

  lemma BreakKeepsTexts(fragments: seq<string>, block: bool)
    ensures WithoutBreaks(NewlineIf(block, fragments)) == WithoutBreaks(fragments)
    ensures Tidy(fragments) ==> Tidy(NewlineIf(block, fragments))
  {
    assert (fragments + ["\n"])[..|fragments|] == fragments;
  }

  lemma TextIsAdded(fragments: seq<string>, data: string)
    ensures WithoutBreaks(AddText(fragments, data)) == WithoutBreaks(fragments) + AddText([], data)
    ensures Tidy(fragments) ==> Tidy(AddText(fragments, data))
  {
    CleanedIsText(data);
    assert (fragments + [Cleaned(data)])[..|fragments|] == fragments;
  }

  /** Content holds the texts outside skipped elements, in document order. */
  lemma {:induction false} ContentIsTexts(f: Forest, o: Output)
    ensures WithoutBreaks(Content(f, o).fragments) == WithoutBreaks(o.fragments) + Texts(f)
    decreases f
  {
    match f
    case Empty =>
    case TextNode(data, rest) =>
      TextIsAdded(o.fragments, data);
      ContentIsTexts(rest, o.(fragments := AddText(o.fragments, data)));
      Text.Associate(WithoutBreaks(o.fragments), AddText([], data), Texts(rest));
    case VoidNode(tag, _, _, rest) =>
      BreakKeepsTexts(o.fragments, IsBlock(tag));
      ContentIsTexts(rest, if IsSkip(tag) then o else o.Seen(tag).Break(IsBlock(tag)));
    case Element(tag, _, children, rest) =>
      if IsSkip(tag) {
        ContentIsTexts(rest, o);
      } else {
        var before := o.Seen(tag).Break(IsBlock(tag));
        BreakKeepsTexts(o.fragments, IsBlock(tag));
        ContentIsTexts(children, before);
        var inside := Content(children, before);
        BreakKeepsTexts(inside.fragments, IsBlock(tag));
        ContentIsTexts(rest, inside.Break(IsBlock(tag)));
        Text.Associate(WithoutBreaks(o.fragments), Texts(children), Texts(rest));
      }
  }

  /** No two line breaks come together, and none comes first. */
  lemma {:induction false} ContentIsTidy(f: Forest, o: Output)
    requires Tidy(o.fragments)
    ensures Tidy(Content(f, o).fragments)
    decreases f
  {
    match f
    case Empty =>
    case TextNode(data, rest) =>
      TextIsAdded(o.fragments, data);
      ContentIsTidy(rest, o.(fragments := AddText(o.fragments, data)));
    case VoidNode(tag, _, _, rest) =>
      BreakKeepsTexts(o.fragments, IsBlock(tag));
      ContentIsTidy(rest, if IsSkip(tag) then o else o.Seen(tag).Break(IsBlock(tag)));
    case Element(tag, _, children, rest) =>
      if IsSkip(tag) {
        ContentIsTidy(rest, o);
      } else {
        var before := o.Seen(tag).Break(IsBlock(tag));
        BreakKeepsTexts(o.fragments, IsBlock(tag));
        ContentIsTidy(children, before);
        var inside := Content(children, before);
        BreakKeepsTexts(inside.fragments, IsBlock(tag));
        ContentIsTidy(rest, inside.Break(IsBlock(tag)));
      }
  }

  // ---------- lines and images ----------

  /** A page as a reader meets it: words, and the edges of block elements. */
  datatype Piece = Words(text: string) | Edge

  function EdgeOf(tag: Tag): seq<Piece> {
    if IsBlock(tag) then [Edge] else []
  }

  /** The words and edges outside skipped elements; a block element has an edge at either
      end, a void one a single edge. */
  function Pieces(f: Forest): seq<Piece> {
    match f
    case Empty => []
    case TextNode(data, rest) => (if Cleaned(data) == "" then [] else [Words(Cleaned(data))]) + Pieces(rest)
    case VoidNode(tag, _, _, rest) => (if IsSkip(tag) then [] else EdgeOf(tag)) + Pieces(rest)
    case Element(tag, _, children, rest) =>
      (if IsSkip(tag) then [] else EdgeOf(tag) + Pieces(children) + EdgeOf(tag)) + Pieces(rest)
  }

  function Put(before: seq<string>, p: Piece): seq<string> {
    match p
    case Words(text) => before + [text]
    case Edge => if before == [] || before[|before| - 1] == "\n" then before else before + ["\n"]
  }

  /** Set in lines after `before`: words as they come, and one line break for all edges
      between two of them, none before the first. */
  function SetInLines(pieces: seq<Piece>, before: seq<string>): seq<string>
    decreases |pieces|
  {
    if pieces == [] then before else SetInLines(pieces[1..], Put(before, pieces[0]))
  }

  function Images(f: Forest): nat {
    match f
    case Empty => 0
    case TextNode(_, rest) => Images(rest)
    case VoidNode(tag, _, _, rest) => (if tag.Img? then 1 else 0) + Images(rest)
    case Element(tag, _, children, rest) => (if IsSkip(tag) then 0 else Images(children)) + Images(rest)
  }

  lemma {:induction false} SetAppend(a: seq<Piece>, b: seq<Piece>, before: seq<string>)
    ensures SetInLines(a + b, before) == SetInLines(b, SetInLines(a, before))
    decreases |a|
  {
    if a == [] {
      assert a + b == b;
    } else {
      assert (a + b)[1..] == a[1..] + b;
      SetAppend(a[1..], b, Put(before, a[0]));
    }
  }

  lemma EdgeIsSet(tag: Tag, before: seq<string>)
    ensures SetInLines(EdgeOf(tag), before) == NewlineIf(IsBlock(tag), before)
  {
  }

  lemma WordsAreSet(data: string, before: seq<string>)
    ensures SetInLines(if Cleaned(data) == "" then [] else [Words(Cleaned(data))], before) == AddText(before, data)
  {
  }

  lemma ElementIsSet(edge: seq<Piece>, inside: seq<Piece>, rest: seq<Piece>, before: seq<string>)
    ensures SetInLines((edge + inside + edge) + rest, before) ==
            SetInLines(rest, SetInLines(edge, SetInLines(inside, SetInLines(edge, before))))
  {
    SetAppend(edge + inside + edge, rest, before);
    SetAppend(edge + inside, edge, before);
    SetAppend(edge, inside, before);
  }

  /** Content is the words and edges set in lines. */
  lemma {:induction false} ContentIsSetInLines(f: Forest, o: Output)
    ensures Content(f, o).fragments == SetInLines(Pieces(f), o.fragments)
    decreases f
  {
    match f
    case Empty =>
    case TextNode(data, rest) =>
      WordsAreSet(data, o.fragments);
      SetAppend(if Cleaned(data) == "" then [] else [Words(Cleaned(data))], Pieces(rest), o.fragments);
      ContentIsSetInLines(rest, o.(fragments := AddText(o.fragments, data)));
    case VoidNode(tag, _, _, rest) =>
      EdgeIsSet(tag, o.fragments);
      SetAppend(if IsSkip(tag) then [] else EdgeOf(tag), Pieces(rest), o.fragments);
      ContentIsSetInLines(rest, if IsSkip(tag) then o else o.Seen(tag).Break(IsBlock(tag)));
    case Element(tag, _, children, rest) =>
      if IsSkip(tag) {
        ContentIsSetInLines(rest, o);
        assert [] + Pieces(rest) == Pieces(rest);
      } else {
        var begun := o.Seen(tag).Break(IsBlock(tag));
        ContentIsSetInLines(children, begun);
        var inside := Content(children, begun);
        ContentIsSetInLines(rest, inside.Break(IsBlock(tag)));
        EdgeIsSet(tag, o.fragments);
        EdgeIsSet(tag, inside.fragments);
        ElementIsSet(EdgeOf(tag), Pieces(children), Pieces(rest), o.fragments);
      }
  }

  lemma {:induction false} ContentCountsImages(f: Forest, o: Output)
    requires f.WellNested()
    ensures Content(f, o).images == o.images + Images(f)
    decreases f
  {
    match f
    case Empty =>
    case TextNode(data, rest) => ContentCountsImages(rest, o.(fragments := AddText(o.fragments, data)));
    case VoidNode(tag, _, _, rest) =>
      ContentCountsImages(rest, if IsSkip(tag) then o else o.Seen(tag).Break(IsBlock(tag)));
    case Element(tag, _, children, rest) =>
      if IsSkip(tag) {
        ContentCountsImages(rest, o);
      } else {
        var begun := o.Seen(tag).Break(IsBlock(tag));
        ContentCountsImages(children, begun);
        ContentCountsImages(rest, Content(children, begun).Break(IsBlock(tag)));
      }
  }

  /** Reading a whole page: the fragments are the page set in lines, the text among them are
      the page's texts outside skipped elements, and every image there is counted. */
  lemma PageTexts(f: Forest)
    requires f.WellNested()
    ensures var read := Run(false, Initial(false), Tokens(f));
            && read.fragments == SetInLines(Pieces(f), []) && read.imageCount == Images(f)
            && WithoutBreaks(read.fragments) == Texts(f) && Tidy(read.fragments)
  {
    WholeDocument(f);
    ContentIsTexts(f, Output([], 0));
    ContentIsTidy(f, Output([], 0));
    ContentIsSetInLines(f, Output([], 0));
    ContentCountsImages(f, Output([], 0));
  }
}
