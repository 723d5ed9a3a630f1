/** The text extractor restricted to the article: which documents it captures exactly
    inside their targets, and what it captures otherwise. */
module CleanTargets {
  import opened CleanText
  import Text

  // ---------- only inside targets ----------

  /** Not capturing, and nothing open. */
  predicate Idle(s: State) {
    !s.capture && s.skipDepth == 0 && s.targetDepth == 0
  }

  /** The machine between the nodes of a document: it captures as long as it counts an
      element as open. */
  datatype Live = Live(depth: nat, found: bool, output: Output)
  {
    function Machine(): State {
      State(depth > 0, depth, 0, found, output.fragments, output.images)
    }

    function Enter(tag: Tag, attrs: seq<Attribute>): Live {
      var seen := if depth > 0 then output.Seen(tag) else output;
      if IsTarget(attrs) then Live(1, true, seen.Break(true))
      else if depth > 0 then Live(depth + 1, found, seen.Break(IsBlock(tag)))
      else this
    }

    function Leave(tag: Tag): Live {
      if depth > 0 then Live(depth - 1, found, output.Break(IsBlock(tag))) else this
    }

    function Pass(tag: Tag): Live {
      if depth > 0 && !IsSkip(tag) then this.(output := output.Seen(tag).Break(IsBlock(tag))) else this
    }

    function Read(data: string): Live {
      if depth > 0 then this.(output := output.(fragments := AddText(output.fragments, data))) else this
    }
  }

  /** What reading a document does, by recursion on its tree. */
  function Collect(f: Forest, l: Live): Live
    decreases f
  {
    match f
    case Empty => l
    case TextNode(data, rest) => Collect(rest, l.Read(data))
    case VoidNode(tag, attrs, selfClosed, rest) =>
      Collect(rest, if selfClosed then l.Pass(tag) else l.Enter(tag, attrs))
    case Element(tag, attrs, children, rest) =>
      Collect(rest, if IsSkip(tag) then l else Collect(children, l.Enter(tag, attrs)).Leave(tag))
  }

  lemma EnterRefines(l: Live, tag: Tag, attrs: seq<Attribute>)
    requires !IsSkip(tag)
    ensures OnStartTag(true, l.Machine(), tag, attrs) == l.Enter(tag, attrs).Machine()
  {
  }

  lemma LeaveRefines(l: Live, tag: Tag)
    ensures OnEndTag(l.Machine(), tag) == l.Leave(tag).Machine()
  {
  }

  lemma LeafRefines(l: Live, tag: Tag, data: string)
    ensures OnStartEndTag(l.Machine(), tag) == l.Pass(tag).Machine()
    ensures OnData(l.Machine(), data) == l.Read(data).Machine()
  {
  }

  /** The event machine refines the recursion on every well-nested document, whatever its
      targets hold. */
  lemma {:induction false} RunIsCollect(f: Forest, l: Live)
    requires f.WellNested()
    ensures Run(true, l.Machine(), Tokens(f)) == Collect(f, l).Machine()
    decreases f
  {
    match f
    case Empty =>
    case TextNode(data, rest) =>
      LeafRefines(l, Br, data);
      RunOne(true, l.Machine(), Data(data), Tokens(rest));
      RunIsCollect(rest, l.Read(data));
    case VoidNode(tag, attrs, selfClosed, rest) =>
      RunOne(true, l.Machine(), if selfClosed then StartEndTag(tag, attrs) else StartTag(tag, attrs), Tokens(rest));
      if selfClosed {
        LeafRefines(l, tag, "");
        RunIsCollect(rest, l.Pass(tag));
      } else {
        EnterRefines(l, tag, attrs);
        RunIsCollect(rest, l.Enter(tag, attrs));
      }
    case Element(tag, attrs, children, rest) =>
      if IsSkip(tag) {
        SkippedElement(true, l.Machine(), f);
        RunIsCollect(rest, l);
      } else {
        RunElement(true, l.Machine(), f);
        EnterRefines(l, tag, attrs);
        RunIsCollect(children, l.Enter(tag, attrs));
        LeaveRefines(Collect(children, l.Enter(tag, attrs)), tag);
        RunIsCollect(rest, Collect(children, l.Enter(tag, attrs)).Leave(tag));
      }
  }

  // ---------- when capturing is being inside a target ----------

  /** Whether the machine captures, after each of the events. */
  function Captures(s: State, events: seq<Event>): seq<bool>
    decreases |events|
  {
    if events == [] then []
    else
      var next := Step(true, s, events[0]);
      [next.capture] + Captures(next, events[1..])
  }

  /** Whether the document is inside a target, after each of its tokens; targets inside
      skipped elements do not count. */
  function Inside(f: Forest, inside: bool): seq<bool>
    decreases f
  {
    match f
    case Empty => []
    case TextNode(_, rest) => [inside] + Inside(rest, inside)
    case VoidNode(_, _, _, rest) => [inside] + Inside(rest, inside)
    case Element(tag, attrs, children, rest) =>
      var within := inside || (!IsSkip(tag) && IsTarget(attrs));
      [within] + (if IsSkip(tag) then Always(inside, |Tokens(children)|) else Inside(children, within))
      + ([inside] + Inside(rest, inside))
  }

  function Always(value: bool, count: nat): (values: seq<bool>)
    ensures |values| == count
  {
    seq(count, _ => value)
  }

  /** How many more elements are counted than the `open` ones after a start tag: a target's
      makes the count one. */
  function Counted(attrs: seq<Attribute>, excess: int, open: nat): int {
    if IsTarget(attrs) then 1 - open else excess
  }

  /** Inside a target, below `open` elements including it: how many more elements the
      machine counts than are open, after `f` and when it was `excess` before. A void
      element's start tag adds one, for no end tag takes it back. */
  function Excess(f: Forest, excess: int, open: nat): int
    decreases f
  {
    match f
    case Empty => excess
    case TextNode(_, rest) => Excess(rest, excess, open)
    case VoidNode(_, attrs, selfClosed, rest) =>
      Excess(rest, if selfClosed then excess else Counted(attrs, excess + 1, open), open)
    case Element(tag, attrs, children, rest) =>
      Excess(rest, if IsSkip(tag) then excess else Excess(children, Counted(attrs, excess, open + 1), open + 1), open)
  }

  /** No end tag in `f` brings the count to zero. */
  predicate Held(f: Forest, excess: int, open: nat)
    decreases f
  {
    match f
    case Empty => true
    case TextNode(_, rest) => Held(rest, excess, open)
    case VoidNode(_, attrs, selfClosed, rest) =>
      Held(rest, if selfClosed then excess else Counted(attrs, excess + 1, open), open)
    case Element(tag, attrs, children, rest) =>
      if IsSkip(tag) then Held(rest, excess, open)
      else
        var begun := Counted(attrs, excess, open + 1);
        var ended := Excess(children, begun, open + 1);
        Held(children, begun, open + 1) && open + ended > 0 && Held(rest, ended, open)
  }

  /** In every outermost target the count holds up to its end tag, and comes out there;
      outside targets no void element is a target. */
  predicate Balanced(f: Forest) {
    match f
    case Empty => true
    case TextNode(_, rest) => Balanced(rest)
    case VoidNode(_, attrs, selfClosed, rest) => (selfClosed || !IsTarget(attrs)) && Balanced(rest)
    case Element(tag, attrs, children, rest) =>
      && Balanced(rest)
      && (IsSkip(tag)
          || if IsTarget(attrs) then Held(children, 0, 1) && Excess(children, 0, 1) == 0 else Balanced(children))
  }

  lemma {:induction false} CapturesAppend(s: State, a: seq<Event>, b: seq<Event>)
    ensures |Captures(s, a)| == |a|
    ensures Captures(s, a + b) == Captures(s, a) + Captures(Run(true, s, a), b)
    decreases |a|
  {
    if a == [] {
      assert a + b == b;
    } else {
      assert (a + b)[1..] == a[1..] + b;
      CapturesAppend(Step(true, s, a[0]), a[1..], b);
    }
  }

  lemma CapturesOne(s: State, e: Event, rest: seq<Event>)
    ensures Captures(s, [e] + rest) == [Step(true, s, e).capture] + Captures(Step(true, s, e), rest)
  {
    assert ([e] + rest)[1..] == rest;
  }

  /** The flags over an element, piece by piece. */
  lemma CapturesElement(s: State, f: Forest)
    requires f.Element?
    ensures var begun := OnStartTag(true, s, f.tag, f.attrs);
            var ended := OnEndTag(Run(true, begun, Tokens(f.children)), f.tag);
            && |Captures(begun, Tokens(f.children))| == |Tokens(f.children)|
            && Captures(s, Tokens(f)) ==
               [begun.capture] + Captures(begun, Tokens(f.children))
               + ([ended.capture] + Captures(ended, Tokens(f.rest)))
  {
    var begun := OnStartTag(true, s, f.tag, f.attrs);
    var closing := [EndTag(f.tag)] + Tokens(f.rest);
    CapturesOne(s, StartTag(f.tag, f.attrs), Tokens(f.children) + closing);
    CapturesAppend(begun, Tokens(f.children), closing);
    CapturesOne(Run(true, begun, Tokens(f.children)), EndTag(f.tag), Tokens(f.rest));
    Text.Associate([begun.capture], Captures(begun, Tokens(f.children)),
                   Captures(Run(true, begun, Tokens(f.children)), closing));
  }

  lemma AlwaysPieces(value: bool, m: nat, n: nat)
    ensures [value] + Always(value, n) == Always(value, n + 1)
    ensures [value] + Always(value, m) + ([value] + Always(value, n)) == Always(value, m + n + 2)
  {
  }

  lemma {:induction false} SkippedCaptures(s: State, f: Forest)
    requires s.skipDepth > 0 && f.WellNested()
    ensures Captures(s, Tokens(f)) == Always(s.capture, |Tokens(f)|)
    decreases f
  {
    match f
    case Empty =>
    case TextNode(data, rest) =>
      CapturesOne(s, Data(data), Tokens(rest));
      SkippedCaptures(s, rest);
      AlwaysPieces(s.capture, 0, |Tokens(rest)|);
    case VoidNode(tag, attrs, selfClosed, rest) =>
      CapturesOne(s, if selfClosed then StartEndTag(tag, attrs) else StartTag(tag, attrs), Tokens(rest));
      SkippedCaptures(s, rest);
      AlwaysPieces(s.capture, 0, |Tokens(rest)|);
    case Element(tag, attrs, children, rest) =>
      SkippedElementCaptures(s, f);
  }

  lemma {:induction false} SkippedElementCaptures(s: State, f: Forest)
    requires s.skipDepth > 0 && f.WellNested() && f.Element?
    ensures Captures(s, Tokens(f)) == Always(s.capture, |Tokens(f)|)
    decreases f, 0
  {
    CapturesElement(s, f);
    SkippedTags(true, s, f.tag, f.attrs);
    SkippedForest(true, s.(skipDepth := s.skipDepth + 1), f.children);
    SkippedCaptures(s.(skipDepth := s.skipDepth + 1), f.children);
    SkippedCaptures(s, f.rest);
    AlwaysPieces(s.capture, |Tokens(f.children)|, |Tokens(f.rest)|);
  }

  lemma {:induction false} InsideLength(f: Forest, inside: bool)
    ensures |Inside(f, inside)| == |Tokens(f)|
    decreases f
  {
    match f
    case Empty =>
    case TextNode(_, rest) => InsideLength(rest, inside);
    case VoidNode(_, _, _, rest) => InsideLength(rest, inside);
    case Element(tag, attrs, children, rest) =>
      InsideLength(children, inside || (!IsSkip(tag) && IsTarget(attrs)));
      InsideLength(rest, inside);
  }

  lemma SamePieces<T>(a: T, b: seq<T>, c: T, d: seq<T>, a': T, b': seq<T>, c': T, d': seq<T>)
    requires |b| == |b'|
    ensures [a] + b + ([c] + d) == [a'] + b' + ([c'] + d') <==> a == a' && b == b' && c == c' && d == d'
  {
    var l, r := [a] + b + ([c] + d), [a'] + b' + ([c'] + d');
    if l == r {
      assert l[0] == a && r[0] == a';
      assert l[1..|b| + 1] == b && r[1..|b| + 1] == b';
      assert l[|b| + 1] == c && r[|b| + 1] == c';
      assert l[|b| + 2..] == d && r[|b| + 2..] == d';
    }
  }

  /** The machine captures exactly where the document is inside a target. */
  ghost predicate Agrees(f: Forest, l: Live, inside: bool) {
    Captures(l.Machine(), Tokens(f)) == Inside(f, inside)
  }

  lemma SameHead<T>(a: T, b: seq<T>, a': T, b': seq<T>)
    ensures [a] + b == [a'] + b' <==> a == a' && b == b'
  {
    var l, r := [a] + b, [a'] + b';
    if l == r {
      assert l[0] == a && r[0] == a';
      assert l[1..] == b && r[1..] == b';
    }
  }

  lemma AgreesOnText(f: Forest, l: Live, inside: bool)
    requires f.TextNode?
    ensures Agrees(f, l, inside) <==> (l.depth > 0 <==> inside) && Agrees(f.rest, l.Read(f.data), inside)
  {
    LeafRefines(l, Br, f.data);
    CapturesOne(l.Machine(), Data(f.data), Tokens(f.rest));
    SameHead(l.depth > 0, Captures(l.Read(f.data).Machine(), Tokens(f.rest)), inside, Inside(f.rest, inside));
  }

  lemma AgreesOnVoid(f: Forest, l: Live, inside: bool)
    requires f.WellNested() && f.VoidNode?
    ensures var next := if f.selfClosed then l.Pass(f.tag) else l.Enter(f.tag, f.attrs);
            Agrees(f, l, inside) <==> (next.depth > 0 <==> inside) && Agrees(f.rest, next, inside)
  {
    CapturesOne(l.Machine(), if f.selfClosed then StartEndTag(f.tag, f.attrs) else StartTag(f.tag, f.attrs),
                Tokens(f.rest));
    if f.selfClosed {
      LeafRefines(l, f.tag, "");
    } else {
      EnterRefines(l, f.tag, f.attrs);
    }
    var next := if f.selfClosed then l.Pass(f.tag) else l.Enter(f.tag, f.attrs);
    SameHead(next.depth > 0, Captures(next.Machine(), Tokens(f.rest)), inside, Inside(f.rest, inside));
  }

  lemma AgreesOnSkipped(f: Forest, l: Live, inside: bool)
    requires f.WellNested() && f.Element? && IsSkip(f.tag)
    ensures Agrees(f, l, inside) <==> (l.depth > 0 <==> inside) && Agrees(f.rest, l, inside)
  {
    var s := l.Machine();
    CapturesElement(s, f);
    SkippedForest(true, s.(skipDepth := 1), f.children);
    SkippedCaptures(s.(skipDepth := 1), f.children);
    var n := |Tokens(f.children)|;
    SamePieces(s.capture, Always(s.capture, n), s.capture, Captures(s, Tokens(f.rest)),
               inside, Always(inside, n), inside, Inside(f.rest, inside));
  }

  lemma AgreesOnElement(f: Forest, l: Live, inside: bool)
    requires f.WellNested() && f.Element? && !IsSkip(f.tag)
    ensures var within := inside || IsTarget(f.attrs);
            var begun := l.Enter(f.tag, f.attrs);
            var ended := Collect(f.children, begun).Leave(f.tag);
            Agrees(f, l, inside) <==>
              && (begun.depth > 0 <==> within) && Agrees(f.children, begun, within)
              && (ended.depth > 0 <==> inside) && Agrees(f.rest, ended, inside)
  {
    var within := inside || IsTarget(f.attrs);
    var begun := l.Enter(f.tag, f.attrs);
    CapturesElement(l.Machine(), f);
    EnterRefines(l, f.tag, f.attrs);
    RunIsCollect(f.children, begun);
    LeaveRefines(Collect(f.children, begun), f.tag);
    var ended := Collect(f.children, begun).Leave(f.tag);
    InsideLength(f.children, within);
    SamePieces(begun.depth > 0, Captures(begun.Machine(), Tokens(f.children)), ended.depth > 0,
               Captures(ended.Machine(), Tokens(f.rest)),
               within, Inside(f.children, within), inside, Inside(f.rest, inside));
  }

  /** Inside a target, capturing goes on exactly as long as the count holds. */
  lemma {:induction false} AgreesInside(f: Forest, l: Live, excess: int, open: nat)
    requires f.WellNested() && l.depth == open + excess > 0
    ensures Agrees(f, l, true) <==> Held(f, excess, open)
    ensures Held(f, excess, open) ==> Collect(f, l).depth == open + Excess(f, excess, open) > 0
    decreases f
  {
    match f
    case Empty =>
    case TextNode(data, rest) =>
      AgreesOnText(f, l, true);
      AgreesInside(rest, l.Read(data), excess, open);
    case VoidNode(tag, attrs, selfClosed, rest) =>
      AgreesOnVoid(f, l, true);
      if selfClosed {
        AgreesInside(rest, l.Pass(tag), excess, open);
      } else {
        AgreesInside(rest, l.Enter(tag, attrs), Counted(attrs, excess + 1, open), open);
      }
    case Element(tag, attrs, children, rest) =>
      if IsSkip(tag) {
        AgreesOnSkipped(f, l, true);
        AgreesInside(rest, l, excess, open);
      } else {
        AgreesOnElement(f, l, true);
        var begun := Counted(attrs, excess, open + 1);
        AgreesInside(children, l.Enter(tag, attrs), begun, open + 1);
        var ended := Excess(children, begun, open + 1);
        if Held(children, begun, open + 1) && open + ended > 0 {
          AgreesInside(rest, Collect(children, l.Enter(tag, attrs)).Leave(tag), ended, open);
        }
      }
  }

  lemma {:induction false} AgreesOutside(f: Forest, l: Live)
    requires f.WellNested() && l.depth == 0
    ensures Agrees(f, l, false) <==> Balanced(f)
    ensures Balanced(f) ==> Collect(f, l).depth == 0
    decreases f
  {
    match f
    case Empty =>
    case TextNode(data, rest) =>
      AgreesOnText(f, l, false);
      AgreesOutside(rest, l.Read(data));
    case VoidNode(tag, attrs, selfClosed, rest) =>
      AgreesOnVoid(f, l, false);
      if selfClosed || !IsTarget(attrs) {
        AgreesOutside(rest, l);
      }
    case Element(tag, attrs, children, rest) =>
      if IsSkip(tag) {
        AgreesOnSkipped(f, l, false);
        AgreesOutside(rest, l);
      } else {
        AgreesOnElement(f, l, false);
        var begun := l.Enter(tag, attrs);
        if IsTarget(attrs) {
          AgreesInside(children, begun, 0, 1);
        } else {
          AgreesOutside(children, begun);
        }
        var ended := Collect(children, begun).Leave(tag);
        if ended.depth == 0 {
          AgreesOutside(rest, ended);
        }
      }
  }

  /** Capturing agrees with being inside a target, at every token, exactly on the balanced
      documents. */
  lemma CapturesTargetsExactly(s: State, f: Forest)
    requires Idle(s) && f.WellNested()
    ensures Captures(s, Tokens(f)) == Inside(f, false) <==> Balanced(f)
  {
    AgreesOutside(f, Live(0, s.foundTarget, OutputOf(s)));
  }

  // ---------- which documents are balanced ----------

  /** No target lies in another, and outside skipped elements no void element is one. */
  predicate Unnested(f: Forest) {
    match f
    case Empty => true
    case TextNode(_, rest) => Unnested(rest)
    case VoidNode(_, attrs, selfClosed, rest) => (selfClosed || !IsTarget(attrs)) && Unnested(rest)
    case Element(tag, attrs, children, rest) =>
      Unnested(rest) && (IsSkip(tag) || if IsTarget(attrs) then !HasTarget(children) else Unnested(children))
  }

  /** How many void start tags the targets hold. */
  function OpenVoidsInTargets(f: Forest): nat {
    match f
    case Empty => 0
    case TextNode(_, rest) => OpenVoidsInTargets(rest)
    case VoidNode(_, _, _, rest) => OpenVoidsInTargets(rest)
    case Element(tag, attrs, children, rest) =>
      (if IsSkip(tag) then 0 else if IsTarget(attrs) then OpenVoids(children) else OpenVoidsInTargets(children))
      + OpenVoidsInTargets(rest)
  }

  /** Without nested targets only void start tags count too much. */
  lemma {:induction false} ExcessWithoutTargets(f: Forest, excess: int, open: nat)
    requires !HasTarget(f)
    ensures Excess(f, excess, open) == excess + OpenVoids(f)
    ensures open + excess > 0 ==> Held(f, excess, open)
    decreases f
  {
    match f
    case Empty =>
    case TextNode(_, rest) => ExcessWithoutTargets(rest, excess, open);
    case VoidNode(_, _, selfClosed, rest) =>
      ExcessWithoutTargets(rest, if selfClosed then excess else excess + 1, open);
    case Element(tag, _, children, rest) =>
      if IsSkip(tag) {
        ExcessWithoutTargets(rest, excess, open);
      } else {
        ExcessWithoutTargets(children, excess, open + 1);
        ExcessWithoutTargets(rest, excess + OpenVoids(children), open);
      }
  }

  /** Without void start tags a nested target uses up the count of the elements it lies in. */
  lemma {:induction false} ExcessWithoutVoids(f: Forest, excess: int, open: nat)
    requires OpenVoids(f) == 0
    ensures if HasTarget(f) then open + Excess(f, excess, open) <= 0 else Excess(f, excess, open) == excess
    decreases f
  {
    match f
    case Empty =>
    case TextNode(_, rest) => ExcessWithoutVoids(rest, excess, open);
    case VoidNode(_, _, _, rest) => ExcessWithoutVoids(rest, excess, open);
    case Element(tag, attrs, children, rest) =>
      if IsSkip(tag) {
        ExcessWithoutVoids(rest, excess, open);
      } else {
        var begun := Counted(attrs, excess, open + 1);
        ExcessWithoutVoids(children, begun, open + 1);
        ExcessWithoutVoids(rest, Excess(children, begun, open + 1), open);
      }
  }

  /** When no target lies in another, the balanced documents are those whose targets hold
      no void start tag. */
  lemma {:induction false} UnnestedBalance(f: Forest)
    requires Unnested(f)
    ensures Balanced(f) <==> OpenVoidsInTargets(f) == 0
    decreases f
  {
    match f
    case Empty =>
    case TextNode(_, rest) => UnnestedBalance(rest);
    case VoidNode(_, _, _, rest) => UnnestedBalance(rest);
    case Element(tag, attrs, children, rest) =>
      UnnestedBalance(rest);
      if !IsSkip(tag) && IsTarget(attrs) {
        ExcessWithoutTargets(children, 0, 1);
      } else if !IsSkip(tag) {
        UnnestedBalance(children);
      }
  }

  /** When targets hold no void start tag, as if all were written self-closed, the balanced
      documents are those in which no target lies in another. */
  lemma {:induction false} SelfClosedBalance(f: Forest)
    requires OpenVoidsInTargets(f) == 0
    ensures Balanced(f) <==> Unnested(f)
    decreases f
  {
    match f
    case Empty =>
    case TextNode(_, rest) => SelfClosedBalance(rest);
    case VoidNode(_, _, _, rest) => SelfClosedBalance(rest);
    case Element(tag, attrs, children, rest) =>
      SelfClosedBalance(rest);
      if !IsSkip(tag) && IsTarget(attrs) {
        ExcessWithoutVoids(children, 0, 1);
        if !HasTarget(children) {
          ExcessWithoutTargets(children, 0, 1);
        }
      } else if !IsSkip(tag) {
        SelfClosedBalance(children);
      }
  }

  // ---------- what is extracted ----------

  /** The content of the targets outside skipped elements, each target on a new line. */
  function TargetContent(f: Forest, inside: bool, o: Output): Output
    decreases f
  {
    match f
    case Empty => o
    case TextNode(data, rest) =>
      TargetContent(rest, inside, if inside then o.(fragments := AddText(o.fragments, data)) else o)
    case VoidNode(tag, attrs, selfClosed, rest) =>
      TargetContent(rest, inside, if !inside || IsSkip(tag) then o
                                  else o.Seen(tag).Break(IsBlock(tag) || (!selfClosed && IsTarget(attrs))))
    case Element(tag, attrs, children, rest) =>
      var within := inside || IsTarget(attrs);
      if IsSkip(tag) then TargetContent(rest, inside, o)
      else
        var begun := (if inside then o.Seen(tag) else o).Break(IsTarget(attrs) || (inside && IsBlock(tag)));
        TargetContent(rest, inside, TargetContent(children, within, begun).Break(within && IsBlock(tag)))
  }

  /** The idle state after the targets of `f`. */
  function AfterTargets(s: State, f: Forest): State {
    var o := TargetContent(f, false, OutputOf(s));
    s.(fragments := o.fragments, imageCount := o.images, foundTarget := s.foundTarget || HasTarget(f))
  }

  lemma {:induction false} CollectsInside(f: Forest, l: Live, excess: int, open: nat)
    requires f.WellNested() && l.depth == open + excess > 0 && Held(f, excess, open)
    ensures Collect(f, l).depth == open + Excess(f, excess, open) > 0
    ensures Collect(f, l).found == (l.found || HasTarget(f))
    ensures Collect(f, l).output == TargetContent(f, true, l.output)
    decreases f
  {
    match f
    case Empty =>
    case TextNode(data, rest) =>
      CollectsInside(rest, l.Read(data), excess, open);
    case VoidNode(tag, attrs, selfClosed, rest) =>
      if selfClosed {
        CollectsInside(rest, l.Pass(tag), excess, open);
      } else {
        CollectsInside(rest, l.Enter(tag, attrs), Counted(attrs, excess + 1, open), open);
      }
    case Element(tag, attrs, children, rest) =>
      if IsSkip(tag) {
        CollectsInside(rest, l, excess, open);
      } else {
        var begun := Counted(attrs, excess, open + 1);
        CollectsInside(children, l.Enter(tag, attrs), begun, open + 1);
        var ended := Excess(children, begun, open + 1);
        CollectsInside(rest, Collect(children, l.Enter(tag, attrs)).Leave(tag), ended, open);
      }
  }

  lemma {:induction false} CollectsTargets(f: Forest, l: Live)
    requires f.WellNested() && l.depth == 0 && Balanced(f)
    ensures Collect(f, l) == Live(0, l.found || HasTarget(f), TargetContent(f, false, l.output))
    decreases f
  {
    match f
    case Empty =>
    case TextNode(_, rest) => CollectsTargets(rest, l);
    case VoidNode(_, _, _, rest) => CollectsTargets(rest, l);
    case Element(tag, attrs, children, rest) =>
      if IsSkip(tag) {
        CollectsTargets(rest, l);
      } else {
        var begun := l.Enter(tag, attrs);
        if IsTarget(attrs) {
          CollectsInside(children, begun, 0, 1);
        } else {
          CollectsTargets(children, begun);
        }
        CollectsTargets(rest, Collect(children, begun).Leave(tag));
      }
  }

  /** From a balanced document the extractor collects exactly the content of its targets,
      and has none open at the end. */
  lemma TargetsOnly(s: State, f: Forest)
    requires Idle(s) && f.WellNested() && Balanced(f)
    ensures Run(true, s, Tokens(f)) == AfterTargets(s, f)
  {
    var l := Live(0, s.foundTarget, OutputOf(s));
    RunIsCollect(f, l);
    CollectsTargets(f, l);
  }

  /** Inside a target without nested ones, that is all content. */
  lemma {:induction false} TargetContentIsContent(f: Forest, o: Output)
    requires f.WellNested() && !HasTarget(f)
    ensures TargetContent(f, true, o) == Content(f, o) && TargetContent(f, false, o) == o
    decreases f
  {
    match f
    case Empty =>
    case TextNode(data, rest) =>
      TargetContentIsContent(rest, o.(fragments := AddText(o.fragments, data)));
      TargetContentIsContent(rest, o);
    case VoidNode(tag, _, _, rest) =>
      TargetContentIsContent(rest, if IsSkip(tag) then o else o.Seen(tag).Break(IsBlock(tag)));
      TargetContentIsContent(rest, o);
    case Element(tag, _, children, rest) =>
      TargetContentIsContent(rest, o);
      if !IsSkip(tag) {
        var before := o.Seen(tag).Break(IsBlock(tag));
        TargetContentIsContent(children, before);
        TargetContentIsContent(children, o);
        TargetContentIsContent(rest, Content(children, before).Break(IsBlock(tag)));
      }
  }

  // ---------- a target's capture, from its start tag to its end ----------

  /** A target, wherever it is met: capturing lasts up to its end tag exactly when the
      count holds, and then ends with it exactly when nothing is counted too much. */
  lemma TargetEnds(s: State, f: Forest)
    requires s.skipDepth == 0 && f.Element? && !IsSkip(f.tag) && IsTarget(f.attrs) && f.WellNested()
    ensures var begun := OnStartTag(true, s, f.tag, f.attrs);
            var ended := OnEndTag(Run(true, begun, Tokens(f.children)), f.tag);
            && (Captures(begun, Tokens(f.children)) == Inside(f.children, true) <==> Held(f.children, 0, 1))
            && ended.skipDepth == 0
            && (Held(f.children, 0, 1) ==>
                  && ended.targetDepth == Excess(f.children, 0, 1)
                  && (ended.capture <==> Excess(f.children, 0, 1) != 0)
                  && OutputOf(ended) == TargetContent(f.children, true, OutputOf(begun)).Break(IsBlock(f.tag)))
  {
    var l := Live(1, true, OutputOf(OnStartTag(true, s, f.tag, f.attrs)));
    AgreesInside(f.children, l, 0, 1);
    RunIsCollect(f.children, l);
    if Held(f.children, 0, 1) {
      CollectsInside(f.children, l, 0, 1);
    }
  }

  /** Without nested targets the capture holds, and ends exactly when there is no void
      start tag. */
  lemma PlainTargetEnds(s: State, f: Forest)
    requires s.skipDepth == 0 && f.Element? && !IsSkip(f.tag) && IsTarget(f.attrs) && f.WellNested()
    requires !HasTarget(f.children)
    ensures var begun := OnStartTag(true, s, f.tag, f.attrs);
            var ended := OnEndTag(Run(true, begun, Tokens(f.children)), f.tag);
            && (ended.capture <==> OpenVoids(f.children) > 0)
            && ended.targetDepth == OpenVoids(f.children) && ended.skipDepth == 0 && ended.foundTarget
            && OutputOf(ended) == Content(f.children, OutputOf(begun)).Break(IsBlock(f.tag))
  {
    CapturedForest(true, OnStartTag(true, s, f.tag, f.attrs), f.children);
  }

  /** What follows inside an enclosing element's parent: the element's end tag and the
      nodes after it. */
  datatype Level = Level(closing: Tag, rest: Forest)

  /** The tokens of the enclosing elements' ends, innermost first. */
  function Closings(levels: seq<Level>): seq<Event> {
    if levels == [] then []
    else
      var init, last := levels[..|levels| - 1], levels[|levels| - 1];
      Closings(init) + ([EndTag(last.closing)] + Tokens(last.rest))
  }

  function OpenIn(levels: seq<Level>): nat {
    if levels == [] then 0 else OpenIn(levels[..|levels| - 1]) + OpenVoids(levels[|levels| - 1].rest)
  }

  /** The content of the levels, added to `o`. */
  function Through(levels: seq<Level>, o: Output): Output {
    if levels == [] then o
    else
      var last := levels[|levels| - 1];
      Content(last.rest, Through(levels[..|levels| - 1], o).Break(IsBlock(last.closing)))
  }

  /** The content up to the end tag of level `k`. */
  function UpTo(levels: seq<Level>, k: nat, o: Output): Output
    requires k < |levels|
  {
    Through(levels[..k], o).Break(IsBlock(levels[k].closing))
  }

  predicate PlainLevels(levels: seq<Level>) {
    forall j :: 0 <= j < |levels| ==> levels[j].rest.WellNested() && !HasTarget(levels[j].rest)
  }

  /** A count of `count` elements outlasts the levels: with each of their end tags, more
      has been counted than end tags were met. */
  predicate Outlasts(count: nat, levels: seq<Level>) {
    forall j {:trigger levels[..j]} :: 0 <= j < |levels| ==> count + OpenIn(levels[..j]) > j + 1
  }

  /** The count is used up by the end tag of level `k`, and by none before. */
  predicate EndsWith(count: nat, levels: seq<Level>, k: nat) {
    k < |levels| && Outlasts(count, levels[..k]) && count + OpenIn(levels[..k]) == k + 1
  }

  lemma OutlastsOneMore(count: nat, levels: seq<Level>)
    requires levels != []
    ensures var init := levels[..|levels| - 1];
            Outlasts(count, levels) <==> Outlasts(count, init) && count + OpenIn(init) > |levels|
  {
    var init := levels[..|levels| - 1];
    assert forall j :: 0 <= j <= |init| ==> init[..j] == levels[..j];
    if Outlasts(count, levels) {
      assert levels[..|init|] == init;
    }
  }

  /** A count that does not outlast the levels is used up by one of them. */
  lemma {:induction false} OutlastsOrEnds(count: nat, levels: seq<Level>) returns (k: nat)
    requires count > 0
    ensures Outlasts(count, levels) ==> count + OpenIn(levels) > |levels|
    ensures !Outlasts(count, levels) ==> EndsWith(count, levels, k)
  {
    k := 0;
    if levels != [] {
      var init := levels[..|levels| - 1];
      OutlastsOneMore(count, levels);
      k := OutlastsOrEnds(count, init);
      if Outlasts(count, init) {
        k := |init|;
        assert levels[..k] == init;
      } else {
        assert init[..k] == levels[..k];
      }
    }
  }

  lemma RunLevel(s: State, levels: seq<Level>)
    requires levels != []
    ensures var last := levels[|levels| - 1];
            var before := Run(true, s, Closings(levels[..|levels| - 1]));
            Run(true, s, Closings(levels)) == Run(true, OnEndTag(before, last.closing), Tokens(last.rest))
  {
    var init, last := levels[..|levels| - 1], levels[|levels| - 1];
    RunAppend(true, s, Closings(init), [EndTag(last.closing)] + Tokens(last.rest));
    RunOne(true, Run(true, s, Closings(init)), EndTag(last.closing), Tokens(last.rest));
  }

  /** The state capturing `count` elements deep, with the output `o`. */
  function Capturing(s: State, count: nat, o: Output): State {
    s.(targetDepth := count, fragments := o.fragments, imageCount := o.images)
  }

  lemma {:induction false} CaptureGoesOn(s: State, levels: seq<Level>)
    requires s.capture && s.skipDepth == 0 && s.targetDepth > 0 && PlainLevels(levels)
    requires Outlasts(s.targetDepth, levels)
    ensures s.targetDepth + OpenIn(levels) > |levels|
    ensures Run(true, s, Closings(levels)) ==
            Capturing(s, s.targetDepth + OpenIn(levels) - |levels|, Through(levels, OutputOf(s)))
  {
    if levels != [] {
      var init, last := levels[..|levels| - 1], levels[|levels| - 1];
      OutlastsOneMore(s.targetDepth, levels);
      CaptureGoesOn(s, init);
      RunLevel(s, levels);
      var before := Run(true, s, Closings(init));
      CapturedForest(true, OnEndTag(before, last.closing), last.rest);
    }
  }

  lemma NothingIdle(s: State, f: Forest)
    requires Idle(s) && f.WellNested() && !HasTarget(f)
    ensures Run(true, s, Tokens(f)) == s
  {
    UntargetedIsBalanced(f);
    TargetsOnly(s, f);
    TargetContentIsContent(f, OutputOf(s));
  }

  lemma {:induction false} UntargetedIsBalanced(f: Forest)
    requires !HasTarget(f)
    ensures Balanced(f)
    decreases f
  {
    match f
    case Empty =>
    case TextNode(_, rest) => UntargetedIsBalanced(rest);
    case VoidNode(_, _, _, rest) => UntargetedIsBalanced(rest);
    case Element(tag, _, children, rest) =>
      UntargetedIsBalanced(rest);
      if !IsSkip(tag) {
        UntargetedIsBalanced(children);
      }
  }

  /** Capture ends with the end tag that uses up the count, for all that follows. */
  lemma {:induction false} CaptureEnds(s: State, levels: seq<Level>, k: nat)
    requires s.capture && s.skipDepth == 0 && s.targetDepth > 0 && PlainLevels(levels)
    requires EndsWith(s.targetDepth, levels, k)
    ensures Run(true, s, Closings(levels)) == Capturing(s, 0, UpTo(levels, k, OutputOf(s))).(capture := false)
  {
    var init, last := levels[..|levels| - 1], levels[|levels| - 1];
    RunLevel(s, levels);
    if k == |init| {
      CaptureGoesOn(s, init);
      NothingIdle(OnEndTag(Run(true, s, Closings(init)), last.closing), last.rest);
    } else {
      assert init[..k] == levels[..k];
      CaptureEnds(s, init, k);
      NothingIdle(OnEndTag(Run(true, s, Closings(init)), last.closing), last.rest);
    }
  }

  /** A capture goes on exactly when it outlasts the levels, and otherwise ends with the end
      tag that uses up its count. */
  lemma CaptureMeetsLevels(s: State, levels: seq<Level>)
    requires s.capture && s.skipDepth == 0 && s.targetDepth > 0 && PlainLevels(levels)
    ensures var after := Run(true, s, Closings(levels));
            && (after.capture <==> Outlasts(s.targetDepth, levels))
            && (after.capture ==> OutputOf(after) == Through(levels, OutputOf(s)))
            && (!after.capture ==> exists k: nat ::
                  EndsWith(s.targetDepth, levels, k) && OutputOf(after) == UpTo(levels, k, OutputOf(s)))
  {
    var k := OutlastsOrEnds(s.targetDepth, levels);
    if Outlasts(s.targetDepth, levels) {
      CaptureGoesOn(s, levels);
    } else {
      CaptureEnds(s, levels, k);
    }
  }

  /** The output after a target. */
  function TargetAdds(s: State, f: Forest): Output
    requires f.Element?
  {
    TargetContent(f.children, true, OutputOf(OnStartTag(true, s, f.tag, f.attrs))).Break(IsBlock(f.tag))
  }

  lemma AfterUnendedTarget(s: State, f: Forest)
    requires s.skipDepth == 0 && f.Element? && !IsSkip(f.tag) && IsTarget(f.attrs) && f.WellNested()
    requires Held(f.children, 0, 1) && Excess(f.children, 0, 1) > 0 && !HasTarget(f.rest)
    ensures var unended := Run(true, s, Tokens(f));
            && unended.capture && unended.skipDepth == 0
            && unended.targetDepth == Excess(f.children, 0, 1) + OpenVoids(f.rest)
            && OutputOf(unended) == Content(f.rest, TargetAdds(s, f))
  {
    var ended := OnEndTag(Run(true, OnStartTag(true, s, f.tag, f.attrs), Tokens(f.children)), f.tag);
    TargetEnds(s, f);
    RunElement(true, s, f);
    CapturedForest(true, ended, f.rest);
  }

  /** Where the capture of a target ends that its own end tag did not end. With no target
      to follow, it takes in what follows up to the end tag of the k-th enclosing element,
      where k is the first number of end tags that uses up the void start tags counted too
      much; if there is no such k, it takes in all. */
  lemma UnendedTargetRunsOn(s: State, f: Forest, levels: seq<Level>)
    requires s.skipDepth == 0 && f.Element? && !IsSkip(f.tag) && IsTarget(f.attrs) && f.WellNested()
    requires Held(f.children, 0, 1) && Excess(f.children, 0, 1) > 0
    requires !HasTarget(f.rest) && PlainLevels(levels)
    ensures var o := Content(f.rest, TargetAdds(s, f));
            var count := Excess(f.children, 0, 1) + OpenVoids(f.rest);
            var after := Run(true, s, Tokens(f) + Closings(levels));
            && (after.capture <==> Outlasts(count, levels))
            && (after.capture ==> OutputOf(after) == Through(levels, o))
            && (!after.capture ==> exists k: nat :: EndsWith(count, levels, k) && OutputOf(after) == UpTo(levels, k, o))
  {
    AfterUnendedTarget(s, f);
    RunAppend(true, s, Tokens(f), Closings(levels));
    CaptureMeetsLevels(Run(true, s, Tokens(f)), levels);
  }

  // ---------- three documents ----------

  /** `a<br>` */
  function Broken(a: string): Forest {
    TextNode(a, VoidNode(Br, [], false, Empty))
  }

  /** `<div target>a<br></div>b` */
  function RunsOn(target: seq<Attribute>, a: string, b: string): Forest {
    Element(Div, target, Broken(a), TextNode(b, Empty))
  }

  /** `<div><div target>a<br></div></div>b` */
  function StoppedByParent(target: seq<Attribute>, a: string, b: string): Forest {
    Element(Div, [], Element(Div, target, Broken(a), Empty), TextNode(b, Empty))
  }

  /** `<div target><div target>a<br></div>b</div>c` */
  function Nested(target: seq<Attribute>, a: string, b: string, c: string): Forest {
    Element(Div, target, Element(Div, target, Broken(a), TextNode(b, Empty)), TextNode(c, Empty))
  }

  predicate IsText(data: string) {
    Cleaned(data) == data && data != "" && data != "\n"
  }

  /** `<div id="zoom">` is a target, and `a` a text. */
  lemma ZoomIsTarget()
    ensures IsTarget([Attribute("id", "zoom")]) && !IsTarget([]) && IsText("a")
  {
    assert Lower("id") == "id";
    assert seq(1, i requires 0 <= i < 1 => if "a"[i] == '\U{a0}' then ' ' else "a"[i]) == "a";
  }

  function Start(): Live {
    Live(0, false, Output([], 0))
  }

  function Extracted(f: Forest): seq<string> {
    Run(true, Initial(true), Tokens(f)).fragments
  }

  lemma ExtractedIsCollected(f: Forest)
    requires f.WellNested()
    ensures Extracted(f) == Collect(f, Start()).output.fragments
  {
    RunIsCollect(f, Start());
  }

  function Closed(fragments: seq<string>): Live {
    Live(0, true, Output(fragments, 0))
  }

  function Open(depth: nat, fragments: seq<string>): Live {
    Live(depth, true, Output(fragments, 0))
  }

  lemma BrokenIsRead(depth: nat, a: string)
    requires IsText(a) && depth > 0
    ensures Collect(Broken(a), Open(depth, [])) == Open(depth + 1, [a, "\n"])
    ensures Broken(a).WellNested() && !HasTarget(Broken(a)) && OpenVoids(Broken(a)) == 1
  {
    ZoomIsTarget();
    assert Collect(Broken(a), Open(depth, [])) == Collect(VoidNode(Br, [], false, Empty), Open(depth, [a]));
  }

  lemma TextIsRead(l: Live, data: string)
    requires IsText(data)
    ensures Collect(TextNode(data, Empty), l) ==
            if l.depth == 0 then l else Live(l.depth, l.found, Output(l.output.fragments + [data], l.output.images))
  {
  }

  lemma DivIsRead(attrs: seq<Attribute>, children: Forest, rest: Forest, l: Live)
    ensures Collect(Element(Div, attrs, children, rest), l) ==
            Collect(rest, Collect(children, l.Enter(Div, attrs)).Leave(Div))
  {
  }

  /** The void start tag makes the capture take in what follows the target, which its
      content does not have. */
  lemma BreakRunsOn(target: seq<Attribute>, a: string, b: string)
    requires IsTarget(target) && IsText(a) && IsText(b)
    ensures !Balanced(RunsOn(target, a, b))
    ensures Extracted(RunsOn(target, a, b)) == [a, "\n", b]
    ensures OutputOf(AfterTargets(Initial(true), RunsOn(target, a, b))).fragments == [a, "\n"]
  {
    BrokenIsRead(1, a);
    ExcessWithoutTargets(Broken(a), 0, 1);
    DivIsRead(target, Broken(a), TextNode(b, Empty), Start());
    assert Open(2, [a, "\n"]).Leave(Div) == Open(1, [a, "\n"]);
    TextIsRead(Open(1, [a, "\n"]), b);
    assert [a, "\n"] + [b] == [a, "\n", b];
    ExtractedIsCollected(RunsOn(target, a, b));
    BrokenHasContent(target, a, b);
  }

  lemma BrokenHasContent(target: seq<Attribute>, a: string, b: string)
    requires IsTarget(target) && IsText(a) && IsText(b)
    ensures TargetContent(RunsOn(target, a, b), false, Output([], 0)).fragments == [a, "\n"]
  {
    BrokenIsRead(1, a);
    ExcessWithoutTargets(Broken(a), 0, 1);
    CollectsInside(Broken(a), Open(1, []), 0, 1);
    var o := Output([a, "\n"], 0);
    assert Output([], 0).Break(true) == Output([], 0) && o.Break(true) == o;
    assert TargetContent(TextNode(b, Empty), false, o) == o;
  }

  /** Here the parent's end tag ends it. */
  lemma ParentStops(target: seq<Attribute>, a: string, b: string)
    requires IsTarget(target) && IsText(a) && IsText(b)
    ensures !Balanced(StoppedByParent(target, a, b))
    ensures Extracted(StoppedByParent(target, a, b)) == [a, "\n"]
  {
    ZoomIsTarget();
    BrokenIsRead(1, a);
    ExcessWithoutTargets(Broken(a), 0, 1);
    var inner := Element(Div, target, Broken(a), Empty);
    DivIsRead([], inner, TextNode(b, Empty), Start());
    DivIsRead(target, Broken(a), Empty, Start());
    assert Open(2, [a, "\n"]).Leave(Div) == Open(1, [a, "\n"]);
    assert Open(1, [a, "\n"]).Leave(Div) == Closed([a, "\n"]);
    ExtractedIsCollected(StoppedByParent(target, a, b));
  }

  /** Here the void start tag makes up for the nested target. */
  lemma NestedBalances(target: seq<Attribute>, a: string, b: string, c: string)
    requires IsTarget(target) && IsText(a) && IsText(b) && IsText(c)
    ensures Balanced(Nested(target, a, b, c)) && !Unnested(Nested(target, a, b, c))
    ensures Extracted(Nested(target, a, b, c)) == [a, "\n", b, "\n"]
  {
    BrokenIsRead(1, a);
    var inner := Element(Div, target, Broken(a), TextNode(b, Empty));
    DivIsRead(target, inner, TextNode(c, Empty), Start());
    DivIsRead(target, Broken(a), TextNode(b, Empty), Open(1, []));
    assert Open(2, [a, "\n"]).Leave(Div) == Open(1, [a, "\n"]);
    TextIsRead(Open(1, [a, "\n"]), b);
    assert [a, "\n"] + [b] == [a, "\n", b];
    assert Open(1, [a, "\n", b]).Leave(Div) == Closed([a, "\n", b, "\n"]);
    ExtractedIsCollected(Nested(target, a, b, c));
    NestedCount(target, a, b, c);
  }

  lemma NestedCount(target: seq<Attribute>, a: string, b: string, c: string)
    requires IsTarget(target) && IsText(a)
    ensures Balanced(Nested(target, a, b, c)) && !Unnested(Nested(target, a, b, c))
  {
    BrokenIsRead(1, a);
    ExcessWithoutTargets(Broken(a), -1, 2);
    var inner := Element(Div, target, Broken(a), TextNode(b, Empty));
    assert Excess(TextNode(b, Empty), 0, 1) == 0;
    assert Excess(inner, 0, 1) == 0 && Held(inner, 0, 1);
  }
}
