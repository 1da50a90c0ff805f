/** What a reader sees of a run, against the text the agent produced. */
module StreamSource {
  import opened Positional
  import opened Options
  import opened StreamFilter
  import opened StreamLaws
  import opened StreamRun
  import opened StreamRunLaws

  // ---------- the source's own text ----------

  /** The pieces of each segment joined as they came, less the segment's final newlines. */
  function Source(events: seq<Event>, segment: Text): seq<Seen>
  {
    if events == [] || events[0].Complete? then Bytes(TrimNewlines(segment))
    else if events[0].ToolStart? then
      Bytes(TrimNewlines(segment)) + [Call(events[0].name, events[0].args)] + Source(events[1..], [])
    else if events[0].IsDelta() then Source(events[1..], segment + events[0].text)
    else Source(events[1..], segment)
  }

  /** Every piece before completion has its trailing whitespace in order. */
  ghost predicate AllInOrder(events: seq<Event>)
  {
    events == [] || events[0].Complete? ||
    ((events[0].IsDelta() ==> InOrder(events[0].text)) && AllInOrder(events[1..]))
  }

  lemma TrimJoined(p: Text, t: Text)
    ensures TrimNewlines(p + t) == if All(IsNewline, t) then TrimNewlines(p) else p + TrimNewlines(t)
  {
    TrimmedSolid(p);
    TrimAfter(TrimNewlines(p), FinalNewlines(p), t);
  }

  /** A reordered piece without its final newlines. */
  lemma TrimReordered(t: Text)
    requires !All(IsNewline, t)
    ensures TrimNewlines(Reorder(t)) == Body(t) + Blanks(Tail(t))
  {
    StepSendsSolid(t, []);
    SelectedSatisfy(IsNewline, Tail(t));
    var sent := Body(t) + Blanks(Tail(t));
    assert [] + Body(t) == Body(t);
    TrimUnique(sent, Newlines(Tail(t)));
  }

  lemma FinalRunInTail(t: Text)
    ensures |FinalNewlines(t)| <= |Newlines(Tail(t))|
  {
    var tail, f := Tail(t), FinalNewlines(t);
    var u := tail[..|tail| - |f|];
    assert tail == u + f;
    SelectConcat(IsNewline, u, f);
    SelectAll(IsNewline, f);
  }

  /** Reordering a piece never shortens its final run of newlines. */
  lemma ReorderTrims(t: Text)
    ensures |TrimNewlines(Reorder(t))| <= |TrimNewlines(t)|
  {
    if All(IsNewline, t) {
      NewlinesOnly(t);
    } else {
      TrimReordered(t);
      FinalRunInTail(t);
      ReorderShape(t);
    }
  }

  /** Joined reordered pieces `p` against joined pieces `r`, one piece later. */
  lemma OrderStep(p: Text, r: Text, t: Text)
    requires |p| == |r| && |TrimNewlines(p)| <= |TrimNewlines(r)| && Newlines(p) == Newlines(r)
    ensures |p + Reorder(t)| == |r + t|
    ensures |TrimNewlines(p + Reorder(t))| <= |TrimNewlines(r + t)|
    ensures Newlines(p + Reorder(t)) == Newlines(r + t)
    ensures p + Reorder(t) == r + t <==> p == r && InOrder(t)
  {
    var o := Reorder(t);
    ReorderShape(t);
    ReorderTrims(t);
    ReorderProjects(IsNewline, t);
    ReorderIdentity(t);
    SelectConcat(IsNewline, p, o);
    SelectConcat(IsNewline, r, t);
    TrimJoined(p, o);
    TrimJoined(r, t);
    if All(IsNewline, t) {
      NewlinesOnly(t);
    } else {
      ReorderedContent(t);
    }
    assert (p + o)[..|p|] == p && (p + o)[|p|..] == o;
    assert (r + t)[..|r|] == r && (r + t)[|r|..] == t;
  }

  /** A tool call stands at one place: what is before and after it can be told apart. */
  lemma SegmentsApart(a: Text, b: Text, call: Seen, x: seq<Seen>, y: seq<Seen>)
    requires call.Call?
    ensures Bytes(a) + [call] + x == Bytes(b) + [call] + y <==> a == b && x == y
  {
    var u, v := Bytes(a) + [call] + x, Bytes(b) + [call] + y;
    assert forall i :: 0 <= i < |a| ==> u[i] == Byte(a[i]);
    assert forall i :: 0 <= i < |b| ==> v[i] == Byte(b[i]);
    assert u[|a|] == call && v[|b|] == call;
    if u == v {
      assert |a| == |b|;
      assert u[|a| + 1..] == x && v[|a| + 1..] == y;
    }
  }

  lemma BytesInjective(a: Text, b: Text)
    ensures Bytes(a) == Bytes(b) <==> a == b
  {
    if Bytes(a) == Bytes(b) {
      assert forall i :: 0 <= i < |a| ==> Bytes(a)[i] == Byte(a[i]) && Bytes(b)[i] == Byte(b[i]);
    }
  }

  lemma TrimTells(p: Text, r: Text)
    requires Newlines(p) == Newlines(r)
    ensures TrimNewlines(p) == TrimNewlines(r) <==> p == r
  {
    if TrimNewlines(p) == TrimNewlines(r) {
      SameAfterTrim(p, r);
    }
  }

  /** The reordered reference is never longer than the source, and is the source only in order. */
  lemma {:induction false} OrderExactly(events: seq<Event>, p: Text, r: Text)
    requires |p| == |r| && |TrimNewlines(p)| <= |TrimNewlines(r)| && Newlines(p) == Newlines(r)
    ensures |Batch(events, p, false)| <= |Source(events, r)|
    ensures Batch(events, p, false) == Source(events, r) <==> p == r && AllInOrder(events)
  {
    if events == [] || events[0].Complete? {
      BytesInjective(TrimNewlines(p), TrimNewlines(r));
      TrimTells(p, r);
    } else {
      var e, rest := events[0], events[1..];
      if e.ToolStart? {
        OrderExactly(rest, [], []);
        SegmentsApart(TrimNewlines(p), TrimNewlines(r), Call(e.name, e.args),
                      Batch(rest, [], false), Source(rest, []));
        TrimTells(p, r);
      } else if e.IsDelta() {
        OrderStep(p, r, e.text);
        OrderExactly(rest, p + Reorder(e.text), r + e.text);
      } else {
        OrderExactly(rest, p, r);
      }
    }
  }

  /** For every run: the reader sees each segment's own text up to its final newlines exactly when
      no empty piece drops newlines the segment goes on after, and every piece is in order. */
  lemma SourceExactly(events: seq<Event>)
    ensures Reading(events, []) == Source(events, []) <==>
      !Loses(events, false, false) && AllInOrder(events)
  {
    LossExactly(events);
    OrderExactly(events, [], []);
  }

  lemma BlankIsBehind(a: Text)
    requires a == [97, 10, 32]
    ensures !InOrder(a)
  {
    assert a[0] == 97 && a[1] == 10 && a[2] == 32;
    assert !IsWhitespace(a[0]) && IsWhitespace(a[1]) && IsWhitespace(a[2]);
    assert TrimLen(a) == 1;
  }

  lemma {:induction false} NoEmptyPieceNoLoss(events: seq<Event>, held: bool)
    requires !HasEmptyPiece(events)
    ensures !Loses(events, held, false)
  {
    if events == [] || events[0].Complete? {
    } else {
      var held' := if events[0].ToolStart? then false
        else if !events[0].IsDelta() then held
        else All(IsNewline, events[0].text) || Newlines(Tail(events[0].text)) != [];
      NoEmptyPieceNoLoss(events[1..], held');
    }
  }

  /** "a\n " and then "b": the reader sees "a \nb". */
  lemma BlankMovesInRun(a: Text, b: Text)
    requires a == [97, 10, 32] && b == [98]
    ensures var events := [TextDelta(a), TextDelta(b)];
      !Loses(events, false, false) && Reading(events, []) != Source(events, [])
  {
    var events, rest := [TextDelta(a), TextDelta(b)], [TextDelta(b)];
    SourceExactly(events);
    BlankIsBehind(a);
    assert events[1..] == rest && rest[1..] == [];
    assert !HasEmptyPiece(rest);
    NoEmptyPieceNoLoss(events, false);
  }

  // ---------- ignoring spaces and tabs ----------

  /** The texts between tool calls, as produced and as seen. */
  function SourceSegments(events: seq<Event>, segment: Text): seq<Text>
  {
    if events == [] || events[0].Complete? then [segment]
    else if events[0].ToolStart? then [segment] + SourceSegments(events[1..], [])
    else if events[0].IsDelta() then SourceSegments(events[1..], segment + events[0].text)
    else SourceSegments(events[1..], segment)
  }

  function SeenSegments(seen: seq<Seen>, segment: Text): seq<Text>
  {
    if seen == [] then [segment]
    else
      match seen[0]
      case Byte(b) => SeenSegments(seen[1..], segment + [b])
      case Call(_, _) => [segment] + SeenSegments(seen[1..], [])
      case Fault(_) => SeenSegments(seen[1..], segment)
  }

  /** Ignoring spaces and tabs, `seen` is `source` less newlines at its end. */
  ghost predicate CutShort(seen: Text, source: Text)
  {
    var s, t := Select(NotSpaceOrTab, seen), Select(NotSpaceOrTab, source);
    s <= t && All(IsNewline, t[|s|..])
  }

  lemma {:induction false} SeenBytes(t: Text, rest: seq<Seen>, segment: Text)
    ensures SeenSegments(Bytes(t) + rest, segment) == SeenSegments(rest, segment + t)
    decreases |t|
  {
    var all := Bytes(t) + rest;
    if t == [] {
      assert all == rest && segment + t == segment;
    } else {
      assert all[0] == Byte(t[0]) && all[1..] == Bytes(t[1..]) + rest;
      SeenBytes(t[1..], rest, segment + [t[0]]);
      assert (segment + [t[0]]) + t[1..] == segment + t;
    }
  }

  lemma TrimmedIsCut(p: Text, r: Text)
    requires Select(NotSpaceOrTab, p) == Select(NotSpaceOrTab, r)
    ensures CutShort(TrimNewlines(p), r)
  {
    var s, n := TrimNewlines(p), FinalNewlines(p);
    SelectConcat(NotSpaceOrTab, s, n);
    SelectAll(NotSpaceOrTab, n);
  }

  ghost predicate AllCutShort(seen: seq<Text>, source: seq<Text>)
  {
    |seen| == |source| && forall i :: 0 <= i < |seen| ==> CutShort(seen[i], source[i])
  }

  /** What is seen up to a tool call is one segment. */
  lemma SeenToCall(t: Text, call: Seen, rest: seq<Seen>)
    requires call.Call?
    ensures SeenSegments(Bytes(t) + [call] + rest, []) == [t] + SeenSegments(rest, [])
  {
    var after := [call] + rest;
    assert after[1..] == rest;
    SeenAssociate(Bytes(t), [call], rest);
    SeenBytes(t, after, []);
    assert [] + t == t;
  }

  lemma SeenToEnd(t: Text)
    ensures SeenSegments(Bytes(t), []) == [t]
  {
    SeenBytes(t, [], []);
    assert Bytes(t) + [] == Bytes(t) && [] + t == t;
  }

  lemma {:induction false} BatchIsCut(events: seq<Event>, p: Text, r: Text)
    requires Select(NotSpaceOrTab, p) == Select(NotSpaceOrTab, r)
    ensures AllCutShort(SeenSegments(Batch(events, p, false), []), SourceSegments(events, r))
  {
    TrimmedIsCut(p, r);
    if events == [] || events[0].Complete? {
      SeenToEnd(TrimNewlines(p));
    } else {
      var e, rest := events[0], events[1..];
      if e.ToolStart? {
        BatchIsCut(rest, [], []);
        SeenToCall(TrimNewlines(p), Call(e.name, e.args), Batch(rest, [], false));
      } else if e.IsDelta() {
        SelectConcat(NotSpaceOrTab, p, Reorder(e.text));
        SelectConcat(NotSpaceOrTab, r, e.text);
        ReorderProjects(NotSpaceOrTab, e.text);
        BatchIsCut(rest, p + Reorder(e.text), r + e.text);
      } else {
        BatchIsCut(rest, p, r);
      }
    }
  }

  /** For every run without such a loss, one without empty pieces among them: ignoring spaces and
      tabs, what is seen between tool calls is the source's text there up to newlines at its end. */
  lemma SegmentsAreCutShort(events: seq<Event>)
    requires !Loses(events, false, false)
    ensures AllCutShort(SeenSegments(Reading(events, []), []), SourceSegments(events, []))
  {
    LossExactly(events);
    BatchIsCut(events, [], []);
  }

  // ---------- the kinds of newlines ----------

  /** What is seen, with the kind of text each byte comes as. */
  datatype Kinded =
    | KindedByte(thinking: bool, b: u8)
    | KindedCall(name: string, args: Option<string>)
    | KindedFault(reason: string)

  function KindedBytes(thinking: bool, t: Text): seq<Kinded>
  {
    seq(|t|, i requires 0 <= i < |t| => KindedByte(thinking, t[i]))
  }

  function KindedOf(m: Msg): seq<Kinded>
  {
    match m
    case Txt(t) => KindedBytes(false, t)
    case Think(t) => KindedBytes(true, t)
    case Tool(name, args) => [KindedCall(name, args)]
    case Err(reason) => [KindedFault(reason)]
  }

  function RenderKinds(msgs: seq<Msg>): seq<Kinded>
  {
    if msgs == [] then [] else KindedOf(msgs[0]) + RenderKinds(msgs[1..])
  }

  /** Gives each byte of what is seen the kind of the next ink: its own if it is no newline, that
      of the following text if it is one. */
  function Dress(seen: seq<Seen>, ink: seq<Ink>): seq<Kinded>
  {
    if seen == [] then []
    else
      match seen[0]
      case Byte(b) =>
        var thinking := ink != [] && ink[0].Ink? && ink[0].thinking;
        [KindedByte(thinking, b)] + Dress(seen[1..], if IsNewline(b) || ink == [] then ink else ink[1..])
      case Call(name, args) =>
        [KindedCall(name, args)] + Dress(seen[1..], if ink == [] then ink else ink[1..])
      case Fault(reason) =>
        [KindedFault(reason)] + Dress(seen[1..], ink)
  }

  lemma KindedAssociate(a: seq<Kinded>, b: seq<Kinded>, c: seq<Kinded>)
    ensures (a + b) + c == a + (b + c)
  {}

  /** The ink of solid text starts with its kind, and a newline adds none. */
  lemma InkHead(thinking: bool, t: Text, ink: seq<Ink>)
    requires Solid(t)
    ensures var more := InkOfText(thinking, t) + ink;
      && more != [] && more[0].Ink? && more[0].thinking == thinking
      && (if IsNewline(t[0]) then more else more[1..]) == InkOfText(thinking, t[1..]) + ink
  {
    Selected(NotNewline, t, |t| - 1);
  }

  lemma {:induction false} DressChunk(thinking: bool, t: Text, seen: seq<Seen>, ink: seq<Ink>)
    requires t == [] || Solid(t)
    ensures Dress(Bytes(t) + seen, InkOfText(thinking, t) + ink) == KindedBytes(thinking, t) + Dress(seen, ink)
    decreases |t|
  {
    var all, more := Bytes(t) + seen, InkOfText(thinking, t) + ink;
    if t == [] {
      assert all == seen && more == ink;
      assert KindedBytes(thinking, t) + Dress(seen, ink) == Dress(seen, ink);
    } else {
      var b, rest := t[0], t[1..];
      assert rest != [] ==> rest[|rest| - 1] == t[|t| - 1];
      DressChunk(thinking, rest, seen, ink);
      assert all[0] == Byte(b) && all[1..] == Bytes(rest) + seen;
      InkHead(thinking, t, ink);
      assert KindedBytes(thinking, t) == [KindedByte(thinking, b)] + KindedBytes(thinking, rest);
      KindedAssociate([KindedByte(thinking, b)], KindedBytes(thinking, rest), Dress(seen, ink));
    }
  }

  lemma DressKept(k: Msg, more: seq<Msg>)
    requires k.Txt? || k.Think? ==> Solid(k.data)
    requires RenderKinds(more) == Dress(Render(more), InkOfMessages(more))
    ensures RenderKinds([k] + more) == Dress(Render([k] + more), InkOfMessages([k] + more))
  {
    assert ([k] + more)[1..] == more;
    if k.Txt? || k.Think? {
      DressChunk(k.Think?, k.data, Render(more), InkOfMessages(more));
    } else {
      assert (SeenOf(k) + Render(more))[1..] == Render(more);
      assert k.Tool? ==> (InkOf(k) + InkOfMessages(more))[1..] == InkOfMessages(more);
      assert k.Err? ==> InkOf(k) + InkOfMessages(more) == InkOfMessages(more);
    }
  }

  /** What is kept of a message is nothing, or one message whose text is solid. */
  lemma KeptIsSolid(m: Msg)
    requires Kept(m) != []
    ensures Kept(m) == [Kept(m)[0]]
    ensures Kept(m)[0].Txt? || Kept(m)[0].Think? ==> Solid(Kept(m)[0].data)
  {
    if m.Txt? || m.Think? {
      TrimmedSolid(m.data);
    }
  }

  lemma {:induction false} DressMessages(msgs: seq<Msg>)
    ensures RenderKinds(Delivered(msgs)) == Dress(Render(Delivered(msgs)), InkOfMessages(Delivered(msgs)))
  {
    if msgs == [] {
    } else {
      var m, more := msgs[0], Delivered(msgs[1..]);
      DressMessages(msgs[1..]);
      if Kept(m) == [] {
        assert [] + more == more;
      } else {
        KeptIsSolid(m);
        DressKept(Kept(m)[0], more);
      }
    }
  }

  /** For every run, kinds included: the bytes are the reference's, a byte that is no newline has
      its own kind, and a newline comes as the kind of the text after it. */
  lemma EndToEndKinds(events: seq<Event>)
    ensures RenderKinds(Delivered(Messages(events, []))) == Dress(Batch(events, [], true), InkOfEvents(events))
  {
    DressMessages(Messages(events, []));
    EndToEnd(events);
    InkConserved(events, []);
  }

  // ---------- a receiver that goes away ----------

  lemma LongerAfter(a: seq<Seen>, x: seq<Seen>, y: seq<Seen>)
    requires x <= y
    ensures a + x <= a + y
  {
    assert y == x + y[|x|..];
    SeenAssociate(a, x, y[|x|..]);
  }

  lemma {:induction false} SeenOfPrefix(a: seq<Msg>, b: seq<Msg>)
    ensures Render(Delivered(a)) <= Render(Delivered(a + b))
  {
    if a == [] {
    } else {
      var m, rest := a[0], a[1..];
      SeenOfPrefix(rest, b);
      assert a == [m] + rest;
      assert a + b == [m] + (rest + b);
      DeliveredCons(m, rest);
      DeliveredCons(m, rest + b);
      LongerAfter(Render(Kept(m)), Render(Delivered(rest)), Render(Delivered(rest + b)));
    }
  }

  /** Whenever the receiver goes away, what it saw is a prefix of the reference. */
  lemma SeenWhenCutOff(events: seq<Event>, limit: nat)
    ensures Render(Delivered(UpTo(Messages(events, []), limit))) <= Batch(events, [], true)
  {
    var msgs := Messages(events, []);
    var sent := UpTo(msgs, limit);
    assert msgs == sent + msgs[|sent|..];
    SeenOfPrefix(sent, msgs[|sent|..]);
    EndToEnd(events);
  }
}
