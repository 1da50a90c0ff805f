/** The driver `run` and the reader `AgentStream::next` of cersei_rs/src/stream.rs. */
module StreamRun {
  import opened Options
  import opened StreamFilter

  datatype Msg =
    | Txt(data: Text)
    | Think(data: Text)
    | Tool(name: string, args: Option<string>)
    | Err(reason: string)

  /** What the agent produces.  `args` is the tool input already serialised. */
  datatype Event =
    | TextDelta(text: Text)
    | ThinkingDelta(text: Text)
    | ToolStart(name: string, args: Option<string>)
    | Complete
    | Other
  {
    predicate IsDelta() { TextDelta? || ThinkingDelta? }

    function Reply(t: Text): Msg
      requires IsDelta()
    {
      if TextDelta? then Txt(t) else Think(t)
    }
  }

  /** The messages a run sends when every send succeeds. */
  function Messages(events: seq<Event>, held: Text): seq<Msg>
  {
    if events == [] || events[0].Complete? then []
    else if events[0].IsDelta() then
      var (out, next) := Step(events[0].text, held);
      (if out.Some? then [events[0].Reply(out.value)] else []) + Messages(events[1..], next)
    else if events[0].ToolStart? then
      [Tool(events[0].name, events[0].args)] + Messages(events[1..], [])
    else
      Messages(events[1..], held)
  }

  function UpTo(msgs: seq<Msg>, limit: nat): (r: seq<Msg>)
    ensures r <= msgs && |r| == if |msgs| < limit then |msgs| else limit
  {
    if |msgs| <= limit then msgs else msgs[..limit]
  }

  /** The sending half.  The receiver goes away after `limit` messages. */
  class Sender {
    var sent: seq<Msg>
    const limit: nat

    constructor (limit: nat)
      ensures sent == [] && this.limit == limit
    {
      sent := [];
      this.limit := limit;
    }

    method Send(m: Msg) returns (ok: bool)
      modifies this
      ensures ok == (|old(sent)| < limit)
      ensures sent == if ok then old(sent) + [m] else old(sent)
    {
      ok := |sent| < limit;
      if ok {
        sent := sent + [m];
      }
    }
  }

  /** Sending `m` leaves the rest to send; failing to send it leaves what was sent. */
  lemma Resume(sent: seq<Msg>, m: Msg, rest: seq<Msg>)
    ensures sent + ([m] + rest) == (sent + [m]) + rest
    ensures UpTo(sent + ([m] + rest), |sent|) == sent
  {}

  /** Drives the filter over the events until the stream ends, completes or a send fails. */
  method Run(events: seq<Event>, tx: Sender)
    requires |tx.sent| <= tx.limit
    modifies tx
    ensures tx.sent == UpTo(old(tx.sent) + Messages(events, []), tx.limit)
  {
    var buffer := new TextBuffer();
    ghost var all := tx.sent + Messages(events, []);
    var i := 0;
    while i < |events|
      invariant 0 <= i <= |events| && |tx.sent| <= tx.limit
      invariant all == tx.sent + Messages(events[i..], buffer.bytes)
      invariant fresh(buffer)
    {
      var event := events[i];
      ghost var sent := tx.sent;
      assert events[i..][1..] == events[i + 1..];
      i := i + 1;
      match event
      case TextDelta(t) =>
        var out := Delta(t, buffer);
        if out.Some? {
          Resume(sent, Txt(out.value), Messages(events[i..], buffer.bytes));
          var ok := tx.Send(Txt(out.value));
          if !ok { break; }
        }
      case ThinkingDelta(t) =>
        var out := Delta(t, buffer);
        if out.Some? {
          Resume(sent, Think(out.value), Messages(events[i..], buffer.bytes));
          var ok := tx.Send(Think(out.value));
          if !ok { break; }
        }
      case ToolStart(name, args) =>
        buffer.bytes := [];
        Resume(sent, Tool(name, args), Messages(events[i..], []));
        var ok := tx.Send(Tool(name, args));
        if !ok { break; }
      case Complete =>
        buffer.bytes := [];
        break;
      case Other =>
    }
  }

  // ---------- reading ----------

  /** What reading makes of one message: text loses its final newlines, and empty text is not
      handed over. */
  function Kept(m: Msg): seq<Msg>
  {
    match m
    case Txt(t) => if TrimNewlines(t) == [] then [] else [Txt(TrimNewlines(t))]
    case Think(t) => if TrimNewlines(t) == [] then [] else [Think(TrimNewlines(t))]
    case _ => [m]
  }

  /** What successive `next` calls hand over for a queue of messages. */
  function Delivered(msgs: seq<Msg>): seq<Msg>
  {
    if msgs == [] then [] else Kept(msgs[0]) + Delivered(msgs[1..])
  }

  /** Text of carriage returns and line feeds only. */
  ghost predicate Blank(m: Msg)
  {
    (m.Txt? || m.Think?) && forall i :: 0 <= i < |m.data| ==> m.data[i] == 10 || m.data[i] == 13
  }

  ghost predicate TrimmedTo(t: Text, s: Text)
  {
    && s != [] && s <= t && s[|s| - 1] != 10 && s[|s| - 1] != 13
    && forall i :: |s| <= i < |t| ==> t[i] == 10 || t[i] == 13
  }

  /** How a message is handed over: text of the same kind up to its last byte that is no carriage
      return or line feed, anything else unchanged. */
  ghost predicate HandedOverAs(m: Msg, r: Msg)
  {
    match m
    case Txt(t) => r.Txt? && TrimmedTo(t, r.data)
    case Think(t) => r.Think? && TrimmedTo(t, r.data)
    case Tool(name, args) => r == Tool(name, args)
    case Err(reason) => r == Err(reason)
  }

  /** What is left of a queue once blank text at its start is skipped. */
  ghost predicate Skips(msgs: seq<Msg>, rest: seq<Msg>)
  {
    && |rest| <= |msgs| && rest == msgs[|msgs| - |rest|..]
    && forall i :: 0 <= i < |msgs| - |rest| ==> Blank(msgs[i])
  }

  lemma TrimmedText(t: Text)
    ensures var s := TrimNewlines(t);
      if s == [] then forall i :: 0 <= i < |t| ==> t[i] == 10 || t[i] == 13 else TrimmedTo(t, s)
  {}

  lemma SkipOne(msgs: seq<Msg>, rest: seq<Msg>)
    requires Skips(msgs, rest) && rest != [] && Blank(rest[0])
    ensures Skips(msgs, rest[1..])
  {
    assert rest[0] == msgs[|msgs| - |rest|];
  }

  /** Blank text at the start of a queue is skipped, the next message handed over as `m` and the
      rest left. */
  ghost predicate HandsOver(msgs: seq<Msg>, m: Msg, rest: seq<Msg>)
  {
    var k := |msgs| - |rest| - 1;
    && 0 <= k && rest == msgs[k + 1..] && HandedOverAs(msgs[k], m)
    && forall i :: 0 <= i < k ==> Blank(msgs[i])
  }

  lemma TakeOne(msgs: seq<Msg>, rest: seq<Msg>, m: Msg)
    requires Skips(msgs, rest) && rest != [] && HandedOverAs(rest[0], m)
    ensures HandsOver(msgs, m, rest[1..])
  {
    assert rest[0] == msgs[|msgs| - |rest|];
  }

  class AgentStream {
    /** Messages sent and not yet received; the sender is gone when it is empty. */
    var rx: seq<Msg>

    constructor (rx: seq<Msg>)
      ensures this.rx == rx
    {
      this.rx := rx;
    }

    /** The next non-empty event; `Err` stands for the rejected promise. */
    method Next() returns (r: Option<Msg>)
      modifies this
      ensures r.None? ==> Delivered(old(rx)) == [] && rx == []
      ensures r.Some? ==> Delivered(old(rx)) == [r.value] + Delivered(rx)
      ensures r.None? ==> forall i :: 0 <= i < |old(rx)| ==> Blank(old(rx)[i])
      ensures r.Some? ==> HandsOver(old(rx), r.value, rx)
    {
      ghost var all := rx;
      while rx != []
        invariant Delivered(rx) == Delivered(all) && Skips(all, rx)
        decreases |rx|
      {
        var evt := rx[0];
        ghost var queue := rx;
        rx := rx[1..];
        match evt
        case Txt(data) =>
          var trimmed := TrimNewlines(data);
          TrimmedText(data);
          if trimmed == [] {
            SkipOne(all, queue);
            continue;
          }
          TakeOne(all, queue, Txt(trimmed));
          return Some(Txt(trimmed));
        case Think(data) =>
          var trimmed := TrimNewlines(data);
          TrimmedText(data);
          if trimmed == [] {
            SkipOne(all, queue);
            continue;
          }
          TakeOne(all, queue, Think(trimmed));
          return Some(Think(trimmed));
        case Tool(_, _) =>
          TakeOne(all, queue, evt);
          return Some(evt);
        case Err(_) =>
          TakeOne(all, queue, evt);
          return Some(evt);
      }
      r := None;
    }
  }
}
