/** The window of messages shown around an anchor, and scrolling with it through a
    session. */
module MessageWindows {
  import opened Basics
  import Text

  datatype Message = Message(id: string, role: string, content: string, includeInContext: bool)

  datatype View = View(
    messages: seq<Message>,
    bookendStart: seq<Message>,
    bookendEnd: seq<Message>,
    messagesBefore: nat,
    messagesAfter: nat,
    hasMoreBefore: bool,
    hasMoreAfter: bool)

  /** The direction asked for; any other word than the first two means around. */
  datatype Direction = Before | After | Around

  const EMPTY_VIEW := View([], [], [], 0, 0, false, false)

  predicate IsRecallContext(m: Message, roles: set<string>) {
    m.includeInContext && m.role in roles && Text.Strip(m.content) != ""
  }

  /** The messages recall may show, in listing order. */
  function Recallable(listed: seq<Message>, roles: set<string>): seq<Message> {
    if listed == [] then []
    else
      var last := listed[|listed| - 1];
      Recallable(listed[..|listed| - 1], roles) + (if IsRecallContext(last, roles) then [last] else [])
  }

  /** The position of the anchor: the first message without an id to look for, otherwise
      the first message with that id. */
  function AnchorIndex(messages: seq<Message>, anchorId: string): (anchor: Option<nat>)
    ensures anchor.Some? ==> anchor.value < |messages|
  {
    if messages == [] then None
    else if anchorId == "" || messages[0].id == anchorId then Some(0)
    else
      match AnchorIndex(messages[1..], anchorId)
      case None => None
      case Some(i) => Some(i + 1)
  }

  function Min(a: nat, b: nat): (m: nat) {
    if a < b then a else b
  }

  /** Where the window starts, and where it ends. */
  function WindowStart(anchor: nat, window: nat, direction: Direction): (start: nat)
    ensures start <= anchor
  {
    if direction.After? then anchor else if anchor - window > 0 then anchor - window else 0
  }

  function WindowEnd(anchor: nat, window: nat, direction: Direction, total: nat): (end: nat)
    requires anchor < total
    ensures anchor < end <= total
  {
    if direction.Before? then anchor + 1 else Min(total, anchor + window + 1)
  }

  /** `view` shows the messages from `start` up to `end`, and knows what it leaves out. */
  ghost predicate ShowsRange(messages: seq<Message>, anchor: nat, start: nat, end: nat, bookend: nat, view: View)
    requires start <= anchor < end <= |messages|
  {
    && view.messages == messages[start..end]
    && view.messagesBefore == anchor - start && view.messagesAfter == end - anchor - 1
    && view.bookendStart == messages[..Min(bookend, start)]
    && view.bookendEnd == messages[|messages| - Min(bookend, |messages| - end)..]
    && (view.hasMoreBefore <==> start > 0) && (view.hasMoreAfter <==> end < |messages|)
  }

  ghost predicate Shows(messages: seq<Message>, anchor: nat, window: nat, bookend: nat, direction: Direction,
                        view: View)
    requires anchor < |messages|
  {
    ShowsRange(messages, anchor, WindowStart(anchor, window, direction),
               WindowEnd(anchor, window, direction, |messages|), bookend, view)
  }

  /** `view` is the answer for an anchor id: empty if no message has it. */
  ghost predicate Answers(messages: seq<Message>, anchorId: string, window: nat, bookend: nat, direction: Direction,
                          view: View)
  {
    match AnchorIndex(messages, anchorId)
    case None => view == EMPTY_VIEW
    case Some(anchor) => Shows(messages, anchor, window, bookend, direction, view)
  }

  /** What comes before, the window and what comes after make up the whole list, and the
      window holds the anchor where `messagesBefore` says. */
  lemma WindowSplitsMessages(messages: seq<Message>, anchor: nat, window: nat, bookend: nat, direction: Direction,
                             view: View)
    requires anchor < |messages| && Shows(messages, anchor, window, bookend, direction, view)
    ensures var start, end := WindowStart(anchor, window, direction), WindowEnd(anchor, window, direction, |messages|);
            && messages == messages[..start] + view.messages + messages[end..]
            && |view.messages| == view.messagesBefore + 1 + view.messagesAfter
            && view.messages[view.messagesBefore] == messages[anchor]
  {
    var start, end := WindowStart(anchor, window, direction), WindowEnd(anchor, window, direction, |messages|);
    assert view.messages == messages[start..end];
    SplitTwice(messages, start, end, anchor);
  }

  /** The bookends are the two ends of what the window leaves out, so they never overlap
      it, and the flags tell whether anything is left out. */
  lemma BookendsAreLeftOut(messages: seq<Message>, anchor: nat, window: nat, bookend: nat, direction: Direction,
                           view: View)
    requires anchor < |messages| && Shows(messages, anchor, window, bookend, direction, view)
    ensures var before := messages[..WindowStart(anchor, window, direction)];
            var after := messages[WindowEnd(anchor, window, direction, |messages|)..];
            && |view.bookendStart| <= |before| && view.bookendStart == before[..|view.bookendStart|]
            && |view.bookendStart| == (if bookend <= |before| then bookend else |before|)
            && |view.bookendEnd| <= |after| && view.bookendEnd == after[|after| - |view.bookendEnd|..]
            && |view.bookendEnd| == (if bookend <= |after| then bookend else |after|)
            && (view.hasMoreBefore <==> before != []) && (view.hasMoreAfter <==> after != [])
  {
    var start, end := WindowStart(anchor, window, direction), WindowEnd(anchor, window, direction, |messages|);
    TakeOfTake(messages, start, |view.bookendStart|);
    DropOfDrop(messages, end, |messages| - end - |view.bookendEnd|);
  }

  /** How far the window reaches: up to `window` messages to each side the direction names,
      fewer only where the messages end. */
  lemma WindowExtent(messages: seq<Message>, anchor: nat, window: nat, bookend: nat, direction: Direction, view: View)
    requires anchor < |messages| && Shows(messages, anchor, window, bookend, direction, view)
    ensures direction == After ==> view.messagesBefore == 0
    ensures direction != After ==> view.messagesBefore == (if window <= anchor then window else anchor)
    ensures direction == Before ==> view.messagesAfter == 0
    ensures direction != Before ==>
      view.messagesAfter == (if window <= |messages| - 1 - anchor then window else |messages| - 1 - anchor)
  {
  }

  /** The anchor is the first message with the id, or simply the first without an id to
      look for. */
  lemma {:induction false} AnchorIsFirst(messages: seq<Message>, anchorId: string, i: nat)
    ensures AnchorIndex(messages, anchorId) == Some(i) <==>
            && i < |messages|
            && if anchorId == "" then i == 0
               else messages[i].id == anchorId && forall j :: 0 <= j < i ==> messages[j].id != anchorId
  {
    if messages != [] && anchorId != "" && messages[0].id != anchorId && i > 0 {
      AnchorIsFirst(messages[1..], anchorId, i - 1);
      assert forall j :: 0 < j < |messages| ==> messages[j] == messages[1..][j - 1];
    }
  }

  lemma {:induction false} BlankMeansSpaces(s: string)
    ensures Text.Strip(s) == "" <==> forall c :: c in s ==> Text.IsSpace(c)
  {
    var left, right := Text.StripCuts(s);
    Text.StripIsStripped(s);
    if Text.Strip(s) != "" {
      assert Text.Strip(s)[0] in s;
    }
  }

  /** The message is meant for the context, has one of the roles and is not blank. */
  ghost predicate MayBeShown(m: Message, roles: set<string>) {
    m.includeInContext && m.role in roles && exists c :: c in m.content && !Text.IsSpace(c)
  }

  /** `shown` holds, in their order, the messages at `places`, which are all that may be
      shown. */
  ghost predicate ShowsAllowed(listed: seq<Message>, roles: set<string>, shown: seq<Message>, places: seq<nat>) {
    && |places| == |shown|
    && (forall k :: 0 <= k < |places| ==>
          places[k] < |listed| && shown[k] == listed[places[k]] && MayBeShown(shown[k], roles))
    && (forall j, k :: 0 <= j < k < |places| ==> places[j] < places[k])
    && (forall i :: 0 <= i < |listed| && MayBeShown(listed[i], roles) ==> i in places)
  }

  lemma ShownOneMore(init: seq<Message>, last: Message, roles: set<string>, shown: seq<Message>, places: seq<nat>)
    requires ShowsAllowed(init, roles, shown, places)
    ensures if MayBeShown(last, roles) then ShowsAllowed(init + [last], roles, shown + [last], places + [|init|])
            else ShowsAllowed(init + [last], roles, shown, places)
  {
    var listed := init + [last];
    assert forall i :: 0 <= i < |init| ==> listed[i] == init[i];
    assert listed[|init|] == last;
  }

  /** Exactly the messages that may be shown are recallable, in listing order. */
  lemma {:induction false} RecallableInOrder(listed: seq<Message>, roles: set<string>) returns (places: seq<nat>)
    ensures ShowsAllowed(listed, roles, Recallable(listed, roles), places)
  {
    places := [];
    if listed != [] {
      var init, last := listed[..|listed| - 1], listed[|listed| - 1];
      places := RecallableInOrder(init, roles);
      BlankMeansSpaces(last.content);
      assert listed == init + [last];
      ShownOneMore(init, last, roles, Recallable(init, roles), places);
      if MayBeShown(last, roles) {
        places := places + [|init|];
      }
    }
  }

  lemma SplitTwice<T>(s: seq<T>, a: nat, b: nat, i: nat)
    requires a <= i < b <= |s|
    ensures s == s[..a] + s[a..b] + s[b..] && s[a..b][i - a] == s[i]
  {
  }

  lemma TakeOfTake<T>(s: seq<T>, a: nat, b: nat)
    requires b <= a <= |s|
    ensures s[..a][..b] == s[..b]
  {
  }

  lemma DropOfDrop<T>(s: seq<T>, a: nat, b: nat)
    requires a + b <= |s|
    ensures s[a..][b..] == s[a + b..]
  {
  }

  /** Python's `items[-count:]` for a positive count. */
  function Last<T>(items: seq<T>, count: nat): seq<T> {
    if count >= |items| then items else items[|items| - count..]
  }

  /** The loop that looks for the anchor. */
  method FindAnchor(messages: seq<Message>, anchorId: string) returns (anchor: Option<nat>)
    requires messages != []
    ensures anchor == AnchorIndex(messages, anchorId)
  {
    if anchorId == "" {
      return Some(0);
    }
    for index := 0 to |messages|
      invariant AnchorIndex(messages, anchorId) ==
        match AnchorIndex(messages[index..], anchorId) case None => None case Some(i) => Some(index + i)
    {
      if messages[index].id == anchorId {
        return Some(index);
      }
      assert messages[index..][1..] == messages[index + 1..];
    }
    return None;
  }

  lemma StartBookend<T>(s: seq<T>, start: nat, bookend: nat)
    requires start <= |s|
    ensures (if bookend > 0 then s[..start][..Min(bookend, start)] else []) == s[..Min(bookend, start)]
  {
    TakeOfTake(s, start, Min(bookend, start));
  }

  lemma EndBookend<T>(s: seq<T>, end: nat, bookend: nat)
    requires end <= |s|
    ensures (if bookend > 0 then Last(s[end..], bookend) else []) == s[|s| - Min(bookend, |s| - end)..]
  {
    DropOfDrop(s, end, |s| - end - Min(bookend, |s| - end));
  }

  /** Cuts the window and the bookends out of the messages. */
  method CutView(messages: seq<Message>, anchor: nat, start: nat, end: nat, bookend: nat) returns (view: View)
    requires start <= anchor < end <= |messages|
    ensures ShowsRange(messages, anchor, start, end, bookend, view)
  {
    StartBookend(messages, start, bookend);
    EndBookend(messages, end, bookend);
    view := View(
      messages[start..end],
      if bookend > 0 then messages[..start][..Min(bookend, start)] else [],
      if bookend > 0 then Last(messages[end..], bookend) else [],
      anchor - start, end - anchor - 1, start > 0, end < |messages|);
  }

  method ViewAround(messages: seq<Message>, anchor: nat, window: nat, bookend: nat, direction: Direction)
    returns (view: View)
    requires anchor < |messages|
    ensures Shows(messages, anchor, window, bookend, direction, view)
  {
    view := CutView(messages, anchor, WindowStart(anchor, window, direction),
                    WindowEnd(anchor, window, direction, |messages|), bookend);
  }

  method GetAnchoredMessageView(listed: seq<Message>, anchorId: string, window: nat, bookend: nat,
                                roles: set<string>, direction: Direction)
    returns (view: View)
    ensures Answers(Recallable(listed, roles), anchorId, window, bookend, direction, view)
  {
    var messages := Recallable(listed, roles);
    if messages == [] {
      return EMPTY_VIEW;
    }
    var anchor := FindAnchor(messages, anchorId);
    if anchor.None? {
      return EMPTY_VIEW;
    }
    view := ViewAround(messages, anchor.value, window, bookend, direction);
  }

  // ---------- scrolling ----------

  /** Message ids are not empty, and none occurs twice. */
  predicate DistinctIds(messages: seq<Message>) {
    messages == []
    || (messages[0].id != "" && AnchorIndex(messages[1..], messages[0].id).None? && DistinctIds(messages[1..]))
  }

  lemma {:induction false} IdFindsMessage(messages: seq<Message>, i: nat)
    requires DistinctIds(messages) && i < |messages|
    ensures messages[i].id != "" && AnchorIndex(messages, messages[i].id) == Some(i)
  {
    if i > 0 {
      assert messages[1..][i - 1] == messages[i];
      IdFindsMessage(messages[1..], i - 1);
    }
  }

  /** The anchor after `calls` scrolls forward, each from the last message shown. */
  function ScrollAnchor(total: nat, window: nat, calls: nat): (anchor: nat)
    requires total > 0
    ensures anchor < total
  {
    if calls == 0 then 0
    else
      WindowEnd(ScrollAnchor(total, window, calls - 1), window, After, total) - 1
  }

  /** The view shows the messages from `from` to `to`, and knows whether more come after. */
  ghost predicate ShowsPart(messages: seq<Message>, from: nat, to: nat, view: View) {
    from <= to < |messages| && view.messages == messages[from..to + 1] && (view.hasMoreAfter <==> to < |messages| - 1)
  }

  /** What a scroll uses of a forward view. */
  ghost predicate IsForward(messages: seq<Message>, anchorId: string, window: nat, view: View) {
    match AnchorIndex(messages, anchorId)
    case None => view == EMPTY_VIEW
    case Some(i) => ShowsPart(messages, i, WindowEnd(i, window, After, |messages|) - 1, view)
  }

  function LastId(view: View): string {
    if view.messages == [] then "" else view.messages[|view.messages| - 1].id
  }

  function NextAnchor(views: seq<View>): string {
    if views == [] then "" else LastId(views[|views| - 1])
  }

  /** A scroll through the messages: the first call names no anchor, and every further call
      the last message it was shown. */
  ghost predicate IsScroll(messages: seq<Message>, window: nat, views: seq<View>) {
    views == []
    || (var init := views[..|views| - 1];
        IsScroll(messages, window, init) && IsForward(messages, NextAnchor(init), window, views[|views| - 1]))
  }

  /** Every answer to a forward call at the next anchor continues the scroll. */
  lemma AnswerContinuesScroll(messages: seq<Message>, window: nat, bookend: nat, views: seq<View>, view: View)
    requires IsScroll(messages, window, views)
    requires Answers(messages, NextAnchor(views), window, bookend, After, view)
    ensures IsScroll(messages, window, views + [view])
  {
    assert (views + [view])[..|views|] == views;
  }

  /** The last message of a view is the anchor of the next one. */
  lemma ScrollStep(messages: seq<Message>, view: View, from: nat, to: nat)
    requires DistinctIds(messages) && ShowsPart(messages, from, to, view)
    ensures AnchorIndex(messages, LastId(view)) == Some(to)
  {
    IdFindsMessage(messages, to);
  }

  /** The part of the messages that the last view of a scroll shows. */
  lemma {:induction false} LastPart(messages: seq<Message>, window: nat, views: seq<View>)
    requires messages != [] && DistinctIds(messages) && IsScroll(messages, window, views) && views != []
    ensures ShowsPart(messages, ScrollAnchor(|messages|, window, |views| - 1),
                      ScrollAnchor(|messages|, window, |views|), views[|views| - 1])
  {
    var init := views[..|views| - 1];
    if init != [] {
      LastPart(messages, window, init);
      ScrollStep(messages, init[|init| - 1], ScrollAnchor(|messages|, window, |init| - 1),
                 ScrollAnchor(|messages|, window, |init|));
    }
  }

  /** How many scrolls of `window` messages it takes to see all. */
  function CallsNeeded(total: nat, window: nat): nat
    requires window > 0
    decreases total
  {
    if total <= 1 then 0 else 1 + CallsNeeded(if total > window then total - window else 0, window)
  }

  lemma {:induction false} AnchorMovesOn(total: nat, window: nat, calls: nat)
    requires total > 0
    ensures ScrollAnchor(total, window, calls) == Min(calls * window, total - 1)
  {
    if calls > 0 {
      AnchorMovesOn(total, window, calls - 1);
      assert calls * window == (calls - 1) * window + window;
    }
  }

  lemma {:induction false} TimesGrows(a: nat, b: nat, window: nat)
    requires a <= b
    ensures a * window <= b * window
    decreases b
  {
    if a < b {
      TimesGrows(a, b - 1, window);
      assert b * window == (b - 1) * window + window;
    }
  }

  lemma {:induction false} CallsAreCeiling(total: nat, window: nat)
    requires total > 0 && window > 0
    ensures CallsNeeded(total, window) * window >= total - 1
    ensures CallsNeeded(total, window) > 0 ==> (CallsNeeded(total, window) - 1) * window < total - 1
    decreases total
  {
    if total > 1 {
      var calls := CallsNeeded(total, window);
      if total > window {
        CallsAreCeiling(total - window, window);
        assert calls * window == (calls - 1) * window + window;
        if calls > 1 {
          assert (calls - 1) * window == (calls - 2) * window + window;
        }
      } else {
        assert calls == 1;
      }
    }
  }

  lemma AnchorBeforeEnd(total: nat, window: nat, calls: nat)
    requires total > 0 && window > 0
    ensures ScrollAnchor(total, window, calls) < total - 1 <==> calls < CallsNeeded(total, window)
  {
    var needed := CallsNeeded(total, window);
    CallsAreCeiling(total, window);
    AnchorMovesOn(total, window, calls);
    if calls < needed {
      TimesGrows(calls, needed - 1, window);
    } else {
      TimesGrows(needed, calls, window);
    }
  }

  /** With a window of at least one message, a view of a scroll reports that there is more
      exactly before call number `CallsNeeded`, which is ceil((n - 1) / window). */
  lemma ScrollingEndsInTime(messages: seq<Message>, window: nat, views: seq<View>)
    requires messages != [] && DistinctIds(messages) && IsScroll(messages, window, views) && views != [] && window > 0
    ensures views[|views| - 1].hasMoreAfter <==> |views| < CallsNeeded(|messages|, window)
  {
    LastPart(messages, window, views);
    AnchorBeforeEnd(|messages|, window, |views|);
  }

  /** With an empty window a scroll stays at the first message, and reports for ever that
      there is more if there is. */
  lemma EmptyWindowStays(messages: seq<Message>, views: seq<View>)
    requires messages != [] && DistinctIds(messages) && IsScroll(messages, 0, views) && views != []
    ensures views[|views| - 1].messages == messages[..1]
    ensures views[|views| - 1].hasMoreAfter <==> |messages| > 1
  {
    LastPart(messages, 0, views);
    AnchorMovesOn(|messages|, 0, |views| - 1);
    AnchorMovesOn(|messages|, 0, |views|);
  }

  /** What a reader has seen: the first view, and of every further one what comes after the
      message it is anchored at. */
  function Seen(views: seq<View>): seq<Message> {
    if views == [] then []
    else
      var last := views[|views| - 1];
      Seen(views[..|views| - 1]) + (if |views| == 1 || last.messages == [] then last.messages else last.messages[1..])
  }

  lemma TakeMore<T>(s: seq<T>, a: nat, b: nat)
    requires a < b <= |s|
    ensures s[..a + 1] + s[a..b][1..] == s[..b]
  {
  }

  lemma SeenOneMore(messages: seq<Message>, views: seq<View>, from: nat, to: nat)
    requires |views| > 1 && ShowsPart(messages, from, to, views[|views| - 1])
    requires Seen(views[..|views| - 1]) == messages[..from + 1]
    ensures Seen(views) == messages[..to + 1]
  {
    TakeMore(messages, from, to + 1);
  }

  lemma {:induction false} SeenSoFar(messages: seq<Message>, window: nat, views: seq<View>)
    requires messages != [] && DistinctIds(messages) && IsScroll(messages, window, views) && views != []
    ensures Seen(views) == messages[..ScrollAnchor(|messages|, window, |views|) + 1]
  {
    var init := views[..|views| - 1];
    LastPart(messages, window, views);
    if init == [] {
      assert Seen(views) == views[0].messages;
    } else {
      SeenSoFar(messages, window, init);
      SeenOneMore(messages, views, ScrollAnchor(|messages|, window, |init|), ScrollAnchor(|messages|, window, |views|));
    }
  }

  /** A scroll has shown a beginning of the messages, each exactly once and in order, apart
      from the anchors' repetition; and it has shown all exactly when it reports the end. */
  lemma ScrollingShowsAll(messages: seq<Message>, window: nat, views: seq<View>)
    requires messages != [] && DistinctIds(messages) && IsScroll(messages, window, views) && views != []
    ensures Seen(views) <= messages
    ensures Seen(views) == messages <==> !views[|views| - 1].hasMoreAfter
  {
    SeenSoFar(messages, window, views);
    LastPart(messages, window, views);
  }

  lemma EndOfSlice<T>(s: seq<T>, a: nat, b: nat, c: nat)
    requires a <= b <= c <= |s|
    ensures s[a..c][b - a..] == s[b..c]
  {
  }

  /** Scrolling back from the last message of a forward view shows that view again, and
      exactly it when the view was full or began at the first message. */
  lemma BackAndForth(messages: seq<Message>, anchor: nat, window: nat, bookend: nat, forward: View, back: View)
    requires anchor < |messages| && Shows(messages, anchor, window, bookend, After, forward)
    requires Shows(messages, anchor + forward.messagesAfter, window, bookend, Before, back)
    ensures |forward.messages| <= |back.messages|
    ensures forward.messages == back.messages[|back.messages| - |forward.messages|..]
    ensures |back.messages| == |forward.messages| <==> forward.messagesAfter == window || anchor == 0
  {
    var end := anchor + forward.messagesAfter + 1;
    var start := WindowStart(end - 1, window, Before);
    assert forward.messages == messages[anchor..end] && back.messages == messages[start..end];
    EndOfSlice(messages, start, anchor, end);
  }
}
