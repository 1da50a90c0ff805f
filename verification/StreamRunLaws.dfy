/** What a reader sees of a whole run: `delta`, `run` and `next` in series, against a reference
    that has no buffer. */
module StreamRunLaws {
  import opened Positional
  import opened Options
  import opened StreamFilter
  import opened StreamLaws
  import opened StreamRun

  /** What the reader sees, byte by byte, with the places of tool calls. */
  datatype Seen = Byte(b: u8) | Call(name: string, args: Option<string>) | Fault(reason: string)

  function Bytes(t: Text): (r: seq<Seen>)
    ensures |r| == |t|
  {
    seq(|t|, i requires 0 <= i < |t| => Byte(t[i]))
  }

  function SeenOf(m: Msg): seq<Seen>
  {
    match m
    case Txt(t) => Bytes(t)
    case Think(t) => Bytes(t)
    case Tool(name, args) => [Call(name, args)]
    case Err(reason) => [Fault(reason)]
  }

  function Render(msgs: seq<Msg>): seq<Seen>
  {
    if msgs == [] then [] else SeenOf(msgs[0]) + Render(msgs[1..])
  }

  /** The reference.  A segment is the text between tool calls; each of its pieces is reordered,
      the pieces are joined, and the segment's final newlines are dropped.  `flush` says that an
      empty piece ends a segment too. */
  function Batch(events: seq<Event>, segment: Text, flush: bool): seq<Seen>
  {
    if events == [] || events[0].Complete? then Bytes(TrimNewlines(segment))
    else if events[0].ToolStart? then
      Bytes(TrimNewlines(segment)) + [Call(events[0].name, events[0].args)] + Batch(events[1..], [], flush)
    else if events[0].IsDelta() then
      if events[0].text == [] && flush then
        Bytes(TrimNewlines(segment)) + Batch(events[1..], [], flush)
      else Batch(events[1..], segment + Reorder(events[0].text), flush)
    else Batch(events[1..], segment, flush)
  }

  function FinalNewlines(t: Text): (n: Text)
    ensures All(IsNewline, n) && t == TrimNewlines(t) + n
  {
    t[TrimLenBy(IsNewline, t)..]
  }

  lemma BytesConcat(s: Text, t: Text)
    ensures Bytes(s + t) == Bytes(s) + Bytes(t)
  {}

  lemma TrimmedSolid(t: Text)
    ensures TrimNewlines(t) == [] || Solid(TrimNewlines(t))
  {}

  /** A newline-free end makes `next` pass the chunk on unchanged. */
  lemma SolidPasses(t: Text)
    requires Solid(t)
    ensures TrimNewlines(t) == t
  {}

  lemma NewlinesVanish(t: Text)
    requires All(IsNewline, t)
    ensures TrimNewlines(t) == []
  {}

  /** What one message adds to what is delivered and seen. */
  lemma DeliveredCons(m: Msg, rest: seq<Msg>)
    ensures Delivered([m] + rest) == Kept(m) + Delivered(rest)
    ensures Render(Delivered([m] + rest)) == Render(Kept(m)) + Render(Delivered(rest))
  {
    assert ([m] + rest)[1..] == rest;
    if Kept(m) == [] {
      assert [] + Delivered(rest) == Delivered(rest);
    } else {
      assert Kept(m) == [Kept(m)[0]] && Kept(m)[1..] == [];
      assert (Kept(m) + Delivered(rest))[1..] == Delivered(rest);
    }
  }

  lemma RenderChunk(e: Event, t: Text)
    requires e.IsDelta()
    ensures Kept(e.Reply(t)) == if TrimNewlines(t) == [] then [] else [e.Reply(TrimNewlines(t))]
    ensures Render(Kept(e.Reply(t))) == Bytes(TrimNewlines(t))
  {
    assert [e.Reply(TrimNewlines(t))][1..] == [];
  }

  /** One non-empty piece: the segment's trimmed text grows by what is sent, its final newlines
      are what is held. */
  lemma SegmentStep(segment: Text, t: Text)
    requires t != []
    ensures var (out, next) := Step(t, FinalNewlines(segment));
      var after := segment + Reorder(t);
      && TrimNewlines(after) == TrimNewlines(segment) + OutText(out)
      && FinalNewlines(after) == next
      && (out.Some? ==> Solid(out.value))
  {
    var s, h := TrimNewlines(segment), FinalNewlines(segment);
    var (out, next) := Step(t, h);
    var o := OutText(out);
    StepConserves(t, h);
    StepHoldsNewlines(t, h);
    if out.Some? {
      StepSendsSolid(t, h);
      assert s + o != [] && (s + o)[|s + o| - 1] == o[|o| - 1];
    } else {
      assert s + o == s;
    }
    Associate(s, h, Reorder(t));
    Associate(s, o, next);
    TrimUnique(s + o, next);
    assert segment + Reorder(t) == (s + o) + next;
  }

  /** What a reader sees of the events, newlines being held. */
  function Reading(events: seq<Event>, held: Text): seq<Seen>
  {
    Render(Delivered(Messages(events, held)))
  }

  /** What one event makes of the messages. */
  function SentFor(e: Event, held: Text): seq<Msg>
  {
    if e.ToolStart? then [Tool(e.name, e.args)]
    else if e.IsDelta() && Step(e.text, held).0.Some? then [e.Reply(Step(e.text, held).0.value)]
    else []
  }

  function HeldAfter(e: Event, held: Text): Text
  {
    if e.IsDelta() then Step(e.text, held).1 else if e.ToolStart? then [] else held
  }

  lemma DeltaMessages(e: Event, rest: seq<Event>, held: Text)
    requires e.IsDelta()
    ensures var (out, next) := Step(e.text, held);
      Messages([e] + rest, held) ==
        if out.Some? then [e.Reply(out.value)] + Messages(rest, next) else Messages(rest, next)
  {
    var events := [e] + rest;
    assert events[0] == e && events[1..] == rest;
    var more := Messages(rest, Step(e.text, held).1);
    assert [] + more == more;
  }

  lemma NothingSeen(x: seq<Seen>)
    ensures Bytes([]) + x == x && TrimNewlines([]) == []
  {}

  lemma MessagesCons(e: Event, rest: seq<Event>, held: Text)
    requires !e.Complete?
    ensures Messages([e] + rest, held) == SentFor(e, held) + Messages(rest, HeldAfter(e, held))
  {
    assert ([e] + rest)[1..] == rest;
    var more := Messages(rest, HeldAfter(e, held));
    assert [] + more == more;
  }

  /** What one non-empty piece adds to what is seen. */
  lemma PieceSeen(e: Event, rest: seq<Event>, held: Text)
    requires e.IsDelta() && e.text != [] && All(IsNewline, held)
    ensures var (out, next) := Step(e.text, held);
      Reading([e] + rest, held) == Bytes(OutText(out)) + Reading(rest, next)
  {
    var (out, next) := Step(e.text, held);
    DeltaMessages(e, rest, held);
    if out.Some? {
      StepSendsSolid(e.text, held);
      SolidPasses(out.value);
      RenderChunk(e, out.value);
      DeliveredCons(e.Reply(out.value), Messages(rest, next));
    } else {
      NothingSeen(Reading(rest, next));
    }
  }

  lemma SeenAssociate(a: seq<Seen>, b: seq<Seen>, c: seq<Seen>)
    ensures a + (b + c) == (a + b) + c
  {}

  /** An empty piece flushes the held newlines to a reader who drops them. */
  lemma EmptyPiece(e: Event, rest: seq<Event>, held: Text)
    requires e.IsDelta() && e.text == [] && All(IsNewline, held)
    ensures Messages([e] + rest, held) == [e.Reply(held)] + Messages(rest, [])
    ensures Delivered(Messages([e] + rest, held)) == Delivered(Messages(rest, []))
  {
    assert ([e] + rest)[1..] == rest;
    assert held + [] + [] == held;
    assert Step(e.text, held) == (Some(held), []);
    NewlinesVanish(held);
    RenderChunk(e, held);
    DeliveredCons(e.Reply(held), Messages(rest, []));
  }

  /** For every run: the reader sees the reference, an empty piece ending its segment. */
  lemma {:induction false} StreamIsBatch(events: seq<Event>, segment: Text)
    ensures Bytes(TrimNewlines(segment)) + Reading(events, FinalNewlines(segment))
      == Batch(events, segment, true)
  {
    var s, held := TrimNewlines(segment), FinalNewlines(segment);
    if events == [] || events[0].Complete? {
      assert Bytes(s) + [] == Bytes(s);
    } else {
      var e, rest := events[0], events[1..];
      assert events == [e] + rest;
      if e.IsDelta() && e.text == [] {
        EmptyPiece(e, rest, held);
        StreamIsBatch(rest, []);
        NothingSeen(Reading(rest, []));
      } else if e.IsDelta() {
        var (out, next) := Step(e.text, held);
        PieceSeen(e, rest, held);
        SegmentStep(segment, e.text);
        StreamIsBatch(rest, segment + Reorder(e.text));
        BytesConcat(s, OutText(out));
        SeenAssociate(Bytes(s), Bytes(OutText(out)), Reading(rest, next));
      } else if e.ToolStart? {
        StreamIsBatch(rest, []);
        NothingSeen(Reading(rest, []));
        DeliveredCons(Tool(e.name, e.args), Messages(rest, []));
        SeenAssociate(Bytes(s), [Call(e.name, e.args)], Reading(rest, []));
      } else {
        StreamIsBatch(rest, segment);
      }
    }
  }

  /** The whole pipeline, from the first event. */
  lemma EndToEnd(events: seq<Event>)
    ensures Reading(events, []) == Batch(events, [], true)
  {
    StreamIsBatch(events, []);
    NothingSeen(Reading(events, []));
  }

  // ---------- the second filter ----------

  /** Whether an empty piece arrives before the run completes. */
  predicate HasEmptyPiece(events: seq<Event>)
  {
    events != [] && !events[0].Complete? &&
    ((events[0].IsDelta() && events[0].text == []) || HasEmptyPiece(events[1..]))
  }

  lemma {:induction false} DeliveredLength(msgs: seq<Msg>)
    ensures |Delivered(msgs)| <= |msgs|
  {
    if msgs == [] {
    } else {
      DeliveredLength(msgs[1..]);
    }
  }

  lemma SameHead(m: Msg, a: seq<Msg>, b: seq<Msg>)
    ensures [m] + a == [m] + b <==> a == b
  {
    assert ([m] + a)[1..] == a && ([m] + b)[1..] == b;
  }

  /** The trimming and skipping of `next` changes nothing exactly when no piece is empty. */
  lemma {:induction false} TrimmingIsIdle(events: seq<Event>, held: Text)
    requires All(IsNewline, held)
    ensures Delivered(Messages(events, held)) == Messages(events, held) <==> !HasEmptyPiece(events)
  {
    if events == [] || events[0].Complete? {
    } else {
      var e, rest := events[0], events[1..];
      if e.IsDelta() {
        var (out, next) := Step(e.text, held);
        var more := Messages(rest, next);
        if e.text == [] {
          assert [e] + rest == events;
          EmptyPiece(e, rest, held);
          DeliveredLength(Messages(rest, []));
        } else {
          StepHoldsNewlines(e.text, held);
          TrimmingIsIdle(rest, next);
          if out.Some? {
            StepSendsSolid(e.text, held);
            SolidPasses(out.value);
            RenderChunk(e, out.value);
            DeliveredCons(e.Reply(out.value), more);
            SameHead(e.Reply(out.value), Delivered(more), more);
          } else {
            assert [] + more == more;
          }
        }
      } else if e.ToolStart? {
        var m := Tool(e.name, e.args);
        TrimmingIsIdle(rest, []);
        DeliveredCons(m, Messages(rest, []));
        SameHead(m, Delivered(Messages(rest, [])), Messages(rest, []));
      } else {
        TrimmingIsIdle(rest, held);
      }
    }
  }

  // ---------- messages that are no text, and where a run is cut ----------

  /** The messages that are no text. */
  function Others(msgs: seq<Msg>): seq<Msg>
  {
    if msgs == [] then []
    else (if msgs[0].Tool? || msgs[0].Err? then [msgs[0]] else []) + Others(msgs[1..])
  }

  /** Reading hands over every tool call and every failure, in order and unchanged. */
  lemma {:induction false} OthersDelivered(msgs: seq<Msg>)
    ensures Others(Delivered(msgs)) == Others(msgs)
  {
    if msgs == [] {
    } else {
      OthersDelivered(msgs[1..]);
      var kept, more := Kept(msgs[0]), Delivered(msgs[1..]);
      if kept == [] {
        assert kept + more == more;
        assert [] + Others(msgs[1..]) == Others(msgs[1..]);
      } else {
        assert (kept + more)[1..] == more;
      }
    }
  }

  predicate Completes(events: seq<Event>)
  {
    exists i :: 0 <= i < |events| && events[i].Complete?
  }

  lemma Inserted<T>(first: T, rest: seq<T>, x: T, after: seq<T>)
    ensures [first] + rest + [x] + after == [first] + (rest + [x] + after)
  {}

  /** Nothing after completion is sent. */
  lemma {:induction false} NothingAfterComplete(before: seq<Event>, after: seq<Event>, held: Text)
    ensures Messages(before + [Complete] + after, held) == Messages(before, held)
  {
    if before == [] {
    } else {
      var e, rest := before[0], before[1..];
      assert before == [e] + rest;
      Inserted(e, rest, Complete, after);
      if !e.Complete? {
        NothingAfterComplete(rest, after, HeldAfter(e, held));
        MessagesCons(e, rest, held);
        MessagesCons(e, rest + [Complete] + after, held);
      }
    }
  }

  lemma SentBefore(first: seq<Msg>, more: seq<Msg>, m: Msg, after: seq<Msg>)
    ensures first + (more + [m] + after) == (first + more) + [m] + after
  {}

  /** A tool call is sent after everything before it, and the run goes on as if it began there:
      nothing held before it comes after it. */
  lemma {:induction false} RestartsAtCall(before: seq<Event>, name: string, args: Option<string>,
                                         after: seq<Event>, held: Text)
    requires !Completes(before)
    ensures Messages(before + [ToolStart(name, args)] + after, held)
      == Messages(before, held) + [Tool(name, args)] + Messages(after, [])
  {
    var call, sent := ToolStart(name, args), Messages(after, []);
    if before == [] {
      MessagesCons(call, after, held);
      assert [] + [call] + after == [call] + after;
      assert [] + [Tool(name, args)] + sent == [Tool(name, args)] + sent;
    } else {
      var e, rest := before[0], before[1..];
      assert !before[0].Complete? && forall i :: 0 <= i < |rest| ==> rest[i] == before[i + 1];
      assert before == [e] + rest;
      var next := HeldAfter(e, held);
      RestartsAtCall(rest, name, args, after, next);
      MessagesCons(e, rest, held);
      Inserted(e, rest, call, after);
      MessagesCons(e, rest + [call] + after, held);
      SentBefore(SentFor(e, held), Messages(rest, next), Tool(name, args), sent);
    }
  }

  // ---------- everything but newlines ----------

  /** A non-newline byte with the kind of text it belongs to, or a tool call. */
  datatype Ink = Ink(thinking: bool, b: u8) | ToolInk(name: string, args: Option<string>)

  function InkOfText(thinking: bool, t: Text): seq<Ink>
  {
    var s := Select(NotNewline, t);
    seq(|s|, i requires 0 <= i < |s| => Ink(thinking, s[i]))
  }

  function InkOf(m: Msg): seq<Ink>
  {
    match m
    case Txt(t) => InkOfText(false, t)
    case Think(t) => InkOfText(true, t)
    case Tool(name, args) => [ToolInk(name, args)]
    case Err(_) => []
  }

  function InkOfMessages(msgs: seq<Msg>): seq<Ink>
  {
    if msgs == [] then [] else InkOf(msgs[0]) + InkOfMessages(msgs[1..])
  }

  function InkOfEvents(events: seq<Event>): seq<Ink>
  {
    if events == [] || events[0].Complete? then []
    else
      (match events[0]
       case TextDelta(t) => InkOfText(false, t)
       case ThinkingDelta(t) => InkOfText(true, t)
       case ToolStart(name, args) => [ToolInk(name, args)]
       case _ => [])
      + InkOfEvents(events[1..])
  }

  lemma InkOfTrimmed(t: Text)
    ensures Select(NotNewline, TrimNewlines(t)) == Select(NotNewline, t)
  {
    SelectConcat(NotNewline, TrimNewlines(t), FinalNewlines(t));
    SelectNone(NotNewline, FinalNewlines(t));
  }

  /** A step sends exactly the piece's non-newline bytes. */
  lemma InkOfStep(t: Text, held: Text)
    requires All(IsNewline, held)
    ensures Select(NotNewline, OutText(Step(t, held).0)) == Select(NotNewline, t)
  {
    var (out, next) := Step(t, held);
    StepConserves(t, held);
    StepHoldsNewlines(t, held);
    SelectConcat(NotNewline, OutText(out), next);
    SelectConcat(NotNewline, held, Reorder(t));
    SelectNone(NotNewline, next);
    SelectNone(NotNewline, held);
    ReorderProjects(NotNewline, t);
    var x := Select(NotNewline, OutText(out));
    assert x + [] == x && [] + Select(NotNewline, t) == Select(NotNewline, t);
  }

  lemma InkCons(m: Msg, rest: seq<Msg>)
    ensures InkOfMessages(Delivered([m] + rest)) == InkOf(m) + InkOfMessages(Delivered(rest))
  {
    DeliveredCons(m, rest);
    var more := Delivered(rest);
    if m.Txt? || m.Think? {
      InkOfTrimmed(m.data);
    }
    if Kept(m) == [] {
      assert [] + more == more;
      assert InkOf(m) == [];
    } else {
      assert (Kept(m) + more)[1..] == more;
    }
  }

  /** For every run: apart from newlines, every byte is delivered once, in order, as the kind of
      text it was produced as, and between the same tool calls. */
  lemma {:induction false} InkConserved(events: seq<Event>, held: Text)
    requires All(IsNewline, held)
    ensures InkOfMessages(Delivered(Messages(events, held))) == InkOfEvents(events)
  {
    if events == [] || events[0].Complete? {
    } else {
      var e, rest := events[0], events[1..];
      if e.IsDelta() {
        var (out, next) := Step(e.text, held);
        InkOfStep(e.text, held);
        StepHoldsNewlines(e.text, held);
        InkConserved(rest, next);
        if out.Some? {
          InkCons(e.Reply(out.value), Messages(rest, next));
        } else {
          assert [] + Messages(rest, next) == Messages(rest, next);
          assert InkOfText(e.ThinkingDelta?, e.text) == [];
        }
      } else if e.ToolStart? {
        InkCons(Tool(e.name, e.args), Messages(rest, []));
        InkConserved(rest, []);
      } else {
        InkConserved(rest, held);
      }
    }
  }

  // ---------- when inner newlines survive ----------

  /** Whether newlines inside a segment are lost: an empty piece arrives while newlines are held
      (`held`), after which (`dropped`) the segment goes on with more than newlines. */
  predicate Loses(events: seq<Event>, held: bool, dropped: bool)
  {
    if events == [] || events[0].Complete? then false
    else if events[0].ToolStart? then Loses(events[1..], false, false)
    else if !events[0].IsDelta() then Loses(events[1..], held, dropped)
    else if events[0].text == [] then Loses(events[1..], false, dropped || held)
    else if All(IsNewline, events[0].text) then Loses(events[1..], true, dropped)
    else dropped || Loses(events[1..], Newlines(Tail(events[0].text)) != [], false)
  }

  lemma TrimAfter(q: Text, n: Text, p: Text)
    requires (q == [] || Solid(q)) && All(IsNewline, n)
    ensures TrimNewlines(q + n + p) ==
      if All(IsNewline, p) then q else q + n + TrimNewlines(p)
  {
    if All(IsNewline, p) {
      assert q + n + p == q + (n + p);
      TrimUnique(q, n + p);
    } else {
      var s, f := TrimNewlines(p), FinalNewlines(p);
      TrimmedSolid(p);
      assert s != [];
      assert q + n + p == (q + n + s) + f;
      assert (q + n + s)[|q + n + s| - 1] == s[|s| - 1];
      TrimUnique(q + n + s, f);
    }
  }

  lemma MoreThanNewlines(p: Text, r: Text)
    ensures All(IsNewline, p + r) <==> All(IsNewline, p) && All(IsNewline, r)
  {
    assert forall i :: 0 <= i < |p| ==> p[i] == (p + r)[i];
    assert forall i :: 0 <= i < |r| ==> r[i] == (p + r)[|p| + i];
  }

  lemma TrimAfterLength(q: Text, n: Text, p: Text)
    requires (q == [] || Solid(q)) && All(IsNewline, n)
    ensures |TrimNewlines(q + n + p)| ==
      |q| + (if All(IsNewline, p) then 0 else |n|) + |TrimNewlines(p)|
  {
    TrimAfter(q, n, p);
    if All(IsNewline, p) {
      NewlinesVanish(p);
    }
  }

  /** Flushing never adds: with `n` newlines already dropped, the flushed form is shorter by them
      once the segment has more than newlines. */
  lemma {:induction false} FlushedIsShorter(events: seq<Event>, q: Text, n: Text, p: Text)
    requires (q == [] || Solid(q)) && All(IsNewline, n)
    ensures |Batch(events, q + n + p, false)| >=
      |q| + (if All(IsNewline, p) then 0 else |n|) + |Batch(events, p, true)|
    decreases events, 0
  {
    TrimAfterLength(q, n, p);
    if events == [] || events[0].Complete? {
    } else {
      var e, rest := events[0], events[1..];
      if e.ToolStart? {
        ShorterFromCall(rest);
      } else if e.IsDelta() && e.text == [] {
        assert Reorder(e.text) == [];
        assert q + n + p + [] == q + n + p;
        ShorterAtEmpty(rest, q, n, p);
      } else if e.IsDelta() {
        Associate(q + n, p, Reorder(e.text));
        MoreThanNewlines(p, Reorder(e.text));
        FlushedIsShorter(rest, q, n, p + Reorder(e.text));
      } else {
        FlushedIsShorter(rest, q, n, p);
      }
    }
  }

  lemma {:induction false} ShorterFromCall(rest: seq<Event>)
    ensures |Batch(rest, [], true)| <= |Batch(rest, [], false)|
    decreases rest, 1
  {
    var none: Text := [];
    assert none + none + none == none;
    FlushedIsShorter(rest, none, none, none);
  }

  lemma {:induction false} ShorterAtEmpty(rest: seq<Event>, q: Text, n: Text, p: Text)
    requires (q == [] || Solid(q)) && All(IsNewline, n)
    ensures |Batch(rest, q + n + p, false)| >=
      |q| + (if All(IsNewline, p) then 0 else |n|) + |TrimNewlines(p)| + |Batch(rest, [], true)|
    decreases rest, 1
  {
    var s, f := TrimNewlines(p), FinalNewlines(p);
    TrimmedSolid(p);
    if All(IsNewline, p) {
      NewlinesVanish(p);
      FlushedIsShorter(rest, q, n + p, []);
      Associate(q, n, p);
      assert q + n + p + [] == q + n + p;
    } else {
      assert (q + n + s)[|q + n + s| - 1] == s[|s| - 1];
      FlushedIsShorter(rest, q + n + s, f, []);
      Associate(q + n, s, f);
      assert q + n + p + [] == q + n + p;
    }
  }

  lemma ReorderedContent(t: Text)
    requires !All(IsNewline, t)
    ensures !All(IsNewline, Reorder(t))
  {
    ReorderProjects(NotNewline, t);
    var i :| 0 <= i < |t| && !IsNewline(t[i]);
    Selected(NotNewline, t, i);
    if All(IsNewline, Reorder(t)) {
      SelectNone(NotNewline, Reorder(t));
    }
  }

  lemma SameAfterPrefix(a: seq<Seen>, x: seq<Seen>, y: seq<Seen>)
    ensures a + x == a + y <==> x == y
  {
    assert (a + x)[|a|..] == x && (a + y)[|a|..] == y;
  }

  lemma SeenSoFar(c: Text, n: Text, p: Text)
    requires (c == [] || Solid(c)) && All(IsNewline, n)
    requires n != [] ==> All(IsNewline, p)
    ensures TrimNewlines(c + n + p) == c + TrimNewlines(p)
    ensures Bytes(c + TrimNewlines(p)) == Bytes(c) + Bytes(TrimNewlines(p))
  {
    TrimAfter(c, n, p);
    if All(IsNewline, p) {
      NewlinesVanish(p);
    }
    BytesConcat(c, TrimNewlines(p));
  }

  /** `c` was seen already, `n` are the newlines dropped behind it, `p` is the text since. */
  lemma {:induction false} LossSoFar(events: seq<Event>, c: Text, n: Text, p: Text)
    requires (c == [] || Solid(c)) && All(IsNewline, n)
    requires n != [] ==> All(IsNewline, p)
    ensures Bytes(c) + Batch(events, p, true) == Batch(events, c + n + p, false) <==>
      !Loses(events, FinalNewlines(p) != [], n != [])
    ensures Loses(events, FinalNewlines(p) != [], n != []) ==>
      |c| + |Batch(events, p, true)| < |Batch(events, c + n + p, false)|
    decreases events, 0
  {
    var s := TrimNewlines(p);
    SeenSoFar(c, n, p);
    if events == [] || events[0].Complete? {
    } else {
      var e, rest := events[0], events[1..];
      if e.ToolStart? {
        LossAtCall(e, rest, c, s);
      } else if !e.IsDelta() {
        LossSoFar(rest, c, n, p);
      } else if e.text == [] {
        LossAtEmpty(rest, c, n, p);
        assert Reorder(e.text) == [];
        assert c + n + p + [] == c + n + p;
        BytesConcat(c, s);
        SeenAssociate(Bytes(c), Bytes(s), Batch(rest, [], true));
      } else {
        Associate(c + n, p, Reorder(e.text));
        LossAfterPiece(e.text, rest, c, n, p);
      }
    }
  }

  lemma {:induction false} LossAfterPiece(t: Text, rest: seq<Event>, c: Text, n: Text, p: Text)
    requires (c == [] || Solid(c)) && All(IsNewline, n) && t != []
    requires n != [] ==> All(IsNewline, p)
    ensures
      (Bytes(c) + Batch(rest, p + Reorder(t), true) == Batch(rest, c + n + (p + Reorder(t)), false))
      <==> !(if All(IsNewline, t) then Loses(rest, true, n != [])
             else n != [] || Loses(rest, Newlines(Tail(t)) != [], false))
    ensures (if All(IsNewline, t) then Loses(rest, true, n != [])
             else n != [] || Loses(rest, Newlines(Tail(t)) != [], false)) ==>
      |c| + |Batch(rest, p + Reorder(t), true)| < |Batch(rest, c + n + (p + Reorder(t)), false)|
    decreases rest, 1
  {
    var after := p + Reorder(t);
    SegmentStep(p, t);
    MoreThanNewlines(p, Reorder(t));
    if All(IsNewline, t) {
      NewlinesOnly(t);
      LossSoFar(rest, c, n, after);
    } else {
      ReorderedContent(t);
      if n == [] {
        LossSoFar(rest, c, n, after);
      } else {
        FlushedIsShorter(rest, c, n, after);
      }
    }
  }

  lemma {:induction false} LossAtCall(e: Event, rest: seq<Event>, c: Text, s: Text)
    requires e.ToolStart?
    ensures (Bytes(c) + (Bytes(s) + [Call(e.name, e.args)] + Batch(rest, [], true))
        == Bytes(c + s) + [Call(e.name, e.args)] + Batch(rest, [], false))
      <==> !Loses(rest, false, false)
    ensures Loses(rest, false, false) ==> |Batch(rest, [], true)| < |Batch(rest, [], false)|
    decreases rest, 1
  {
    var none: Text := [];
    LossSoFar(rest, none, none, none);
    assert none + none + none == none && Bytes(none) + Batch(rest, none, true) == Batch(rest, none, true);
    var a := Bytes(c + s) + [Call(e.name, e.args)];
    BytesConcat(c, s);
    assert Bytes(c) + (Bytes(s) + [Call(e.name, e.args)] + Batch(rest, [], true))
        == a + Batch(rest, [], true);
    SameAfterPrefix(a, Batch(rest, [], true), Batch(rest, [], false));
  }

  lemma Extended(c: Text, s: Text)
    requires (c == [] || Solid(c)) && (s == [] || Solid(s))
    ensures c + s == [] || Solid(c + s)
    ensures s == [] ==> c + s == c
  {
    assert s != [] ==> (c + s)[|c + s| - 1] == s[|s| - 1];
    assert s == [] ==> c + s == c;
  }

  lemma {:induction false} LossAtEmpty(rest: seq<Event>, c: Text, n: Text, p: Text)
    requires (c == [] || Solid(c)) && All(IsNewline, n)
    requires n != [] ==> All(IsNewline, p)
    ensures Bytes(c + TrimNewlines(p)) + Batch(rest, [], true) == Batch(rest, c + n + p, false) <==>
      !Loses(rest, false, n != [] || FinalNewlines(p) != [])
    ensures Loses(rest, false, n != [] || FinalNewlines(p) != []) ==>
      |c| + |TrimNewlines(p)| + |Batch(rest, [], true)| < |Batch(rest, c + n + p, false)|
    decreases rest, 1
  {
    var s, f := TrimNewlines(p), FinalNewlines(p);
    TrimmedSolid(p);
    if n == [] {
      Extended(c, s);
      LossSoFar(rest, c + s, f, []);
      Associate(c, s, f);
      assert c + n + p == c + p && (c + s) + f + [] == (c + s) + f;
    } else {
      NewlinesVanish(p);
      Extended(c, s);
      LossSoFar(rest, c, n + p, []);
      Associate(c, n, p);
      assert c + (n + p) + [] == c + (n + p);
    }
  }

  /** The reader gets every segment's text up to its final newlines, whatever the empty pieces,
      exactly when no empty piece drops newlines that the segment goes on after. */
  lemma LossExactly(events: seq<Event>)
    ensures Reading(events, []) == Batch(events, [], false) <==>
      !Loses(events, false, false)
    ensures Loses(events, false, false) ==> |Reading(events, [])| < |Batch(events, [], false)|
  {
    EndToEnd(events);
    var none: Text := [];
    assert none + none + none == none && Bytes(none) + Batch(events, none, true) == Batch(events, none, true);
    LossSoFar(events, none, none, none);
  }

  /** The smallest loss: "a\n", an empty piece, "b" reads "ab". */
  lemma AnEmptyPieceLoses(a: Text, nothing: Text, b: Text)
    requires a == [97, 10] && nothing == [] && b == [98]
    ensures var events := [TextDelta(a), TextDelta(nothing), TextDelta(b)];
      Reading(events, []) != Batch(events, [], false)
  {
    var events := [TextDelta(a), TextDelta(nothing), TextDelta(b)];
    LossExactly(events);
    assert !IsNewline(a[0]) && IsNewline(a[1]) && !IsNewline(b[0]);
    assert TrimLen(a) == 1;
    Selected(IsNewline, Tail(a), 0);
    assert events[1..][1..] == [TextDelta(b)];
    assert Loses([TextDelta(b)], false, true);
    assert Loses(events[1..], true, false);
  }
}
