/** What the filter of cersei_rs/src/stream.rs does to a whole sequence of pieces. */
module StreamLaws {
  import opened Positional
  import opened Options
  import opened StreamFilter

  /** Feeds pieces through the filter: the texts sent, and what is held at the end. */
  function Fold(pieces: seq<Text>, held: Text): (seq<Text>, Text)
  {
    if pieces == [] then ([], held)
    else
      var (out, next) := Step(pieces[0], held);
      var (outs, end) := Fold(pieces[1..], next);
      (if out.Some? then [out.value] + outs else outs, end)
  }

  function Flatten(texts: seq<Text>): Text
  {
    if texts == [] then [] else texts[0] + Flatten(texts[1..])
  }

  function Sent(pieces: seq<Text>, held: Text): Text { Flatten(Fold(pieces, held).0) }
  function Held(pieces: seq<Text>, held: Text): Text { Fold(pieces, held).1 }

  function ReorderAll(texts: seq<Text>): (r: seq<Text>)
    ensures |r| == |texts| && forall i :: 0 <= i < |r| ==> r[i] == Reorder(texts[i])
  {
    seq(|texts|, i requires 0 <= i < |texts| => Reorder(texts[i]))
  }

  ghost predicate NonEmpty(pieces: seq<Text>)
  {
    forall i :: 0 <= i < |pieces| ==> pieces[i] != []
  }

  /** No newline of the trailing whitespace comes before a space or tab. */
  ghost predicate InOrder(t: Text)
  {
    forall i, j :: TrimLen(t) <= i < j < |t| && IsNewline(t[i]) ==> !IsSpaceOrTab(t[j])
  }

  // ---------- one piece ----------

  function OutText(out: Option<Text>): Text { if out.Some? then out.value else [] }

  lemma NewlinesOnly(t: Text)
    requires All(IsNewline, t)
    ensures Body(t) == [] && Blanks(Tail(t)) == [] && Newlines(Tail(t)) == t && Reorder(t) == t
  {
    assert Body(t) == [] && Tail(t) == t;
    SelectNone(IsSpaceOrTab, t);
    SelectAll(IsNewline, t);
    assert [] + [] + t == t;
  }

  /** A step sends or keeps every byte, in the reordered order. */
  lemma StepConserves(t: Text, held: Text)
    ensures OutText(Step(t, held).0) + Step(t, held).1 == held + Reorder(t)
  {
    if t != [] && All(IsNewline, t) {
      NewlinesOnly(t);
      assert [] + (held + t) == held + t;
    } else {
      Associate(held + Body(t), Blanks(Tail(t)), Newlines(Tail(t)));
      Associate(held, Body(t), Blanks(Tail(t)) + Newlines(Tail(t)));
      Associate(Body(t), Blanks(Tail(t)), Newlines(Tail(t)));
    }
  }

  lemma StepHoldsNewlines(t: Text, held: Text)
    requires All(IsNewline, held)
    ensures All(IsNewline, Step(t, held).1)
  {
    SelectedSatisfy(IsNewline, Tail(t));
  }

  lemma {:induction false} Selected(p: u8 -> bool, t: Text, i: nat)
    requires i < |t| && p(t[i])
    ensures Select(p, t) != []
  {
    if i == 0 {
    } else {
      Selected(p, t[1..], i - 1);
    }
  }

  /** What a non-empty piece makes the filter send is non-empty and ends in no newline. */
  lemma StepSendsSolid(t: Text, held: Text)
    requires t != [] && Step(t, held).0.Some?
    ensures var out := Step(t, held).0.value; out != [] && !IsNewline(out[|out| - 1])
  {
    SelectedSatisfy(IsSpaceOrTab, Tail(t));
    var i :| 0 <= i < |t| && !IsNewline(t[i]);
    if Body(t) == [] {
      assert IsSpaceOrTab(t[i]);
      Selected(IsSpaceOrTab, t, i);
      assert Tail(t) == t;
    }
    var out, s := Step(t, held).0.value, Blanks(Tail(t));
    assert s != [] ==> out[|out| - 1] == s[|s| - 1];
    assert s == [] ==> out[|out| - 1] == t[TrimLen(t) - 1];
  }

  // ---------- any sequence of pieces ----------

  lemma Regroup(o: Text, s: Text, e: Text, next: Text, tail: Text, held: Text, r: Text)
    requires o + next == held + r && s + e == next + tail
    ensures (o + s) + e == held + (r + tail)
  {
    assert (o + s) + e == o + (s + e) == o + (next + tail) == (o + next) + tail;
    assert (held + r) + tail == held + (r + tail);
  }

  /** Nothing is lost: what was sent, then what is held, is what was held before and then each
      piece reordered. */
  lemma {:induction false} Conservation(pieces: seq<Text>, held: Text)
    ensures Sent(pieces, held) + Held(pieces, held) == held + Flatten(ReorderAll(pieces))
  {
    if pieces == [] {
      assert ReorderAll(pieces) == [];
    } else {
      var t, rest := pieces[0], pieces[1..];
      var (out, next) := Step(t, held);
      var o, s, e := OutText(out), Sent(rest, next), Held(rest, next);
      StepConserves(t, held);
      Conservation(rest, next);
      assert ReorderAll(pieces) == [Reorder(t)] + ReorderAll(rest);
      assert Sent(pieces, held) == o + s;
      Regroup(o, s, e, next, Flatten(ReorderAll(rest)), held, Reorder(t));
    }
  }

  lemma {:induction false} HoldsNewlines(pieces: seq<Text>, held: Text)
    requires All(IsNewline, held)
    ensures All(IsNewline, Held(pieces, held))
  {
    if pieces == [] {
    } else {
      StepHoldsNewlines(pieces[0], held);
      HoldsNewlines(pieces[1..], Step(pieces[0], held).1);
    }
  }

  ghost predicate Solid(t: Text) { t != [] && !IsNewline(t[|t| - 1]) }

  lemma {:induction false} SendsSolid(pieces: seq<Text>, held: Text)
    requires NonEmpty(pieces)
    ensures forall i :: 0 <= i < |Fold(pieces, held).0| ==> Solid(Fold(pieces, held).0[i])
    ensures Sent(pieces, held) == [] || Solid(Sent(pieces, held))
  {
    if pieces == [] {
    } else {
      var (out, next) := Step(pieces[0], held);
      if out.Some? {
        StepSendsSolid(pieces[0], held);
      }
      SendsSolid(pieces[1..], next);
    }
  }

  /** Splitting off the final newline run. */
  lemma TrimUnique(s: Text, n: Text)
    requires s == [] || Solid(s)
    requires All(IsNewline, n)
    ensures TrimNewlines(s + n) == s
  {
    var t := s + n;
    assert forall i :: |s| <= i < |t| ==> t[i] == n[i - |s|];
    assert s != [] ==> !IsNewline(t[|s| - 1]);
    assert TrimLenBy(IsNewline, t) == |s|;
  }

  /** The stream form equals the batch form: join the reordered pieces, drop the final run of
      newlines. */
  lemma BatchForm(pieces: seq<Text>, held: Text)
    requires NonEmpty(pieces) && All(IsNewline, held)
    ensures Sent(pieces, held) == TrimNewlines(held + Flatten(ReorderAll(pieces)))
  {
    Conservation(pieces, held);
    HoldsNewlines(pieces, held);
    SendsSolid(pieces, held);
    TrimUnique(Sent(pieces, held), Held(pieces, held));
  }

  // ---------- what reordering preserves ----------

  lemma ReorderShape(t: Text)
    ensures |Reorder(t)| == |t| && t == Body(t) + Tail(t)
  {
    WhitespaceLength(Tail(t));
  }

  /** Of whitespace, `p` selects the newlines only or the spaces and tabs only. */
  ghost predicate Separates(p: u8 -> bool)
  {
    || (forall b: u8 :: IsWhitespace(b) ==> p(b) == IsNewline(b))
    || (forall b: u8 :: IsWhitespace(b) ==> p(b) == IsSpaceOrTab(b))
  }

  lemma {:induction false} SelectAgree(p: u8 -> bool, q: u8 -> bool, t: Text)
    requires forall i :: 0 <= i < |t| ==> p(t[i]) == q(t[i])
    ensures Select(p, t) == Select(q, t)
  {
    if t == [] {
    } else {
      SelectAgree(p, q, t[1..]);
    }
  }

  lemma TailProjects(p: u8 -> bool, tail: Text)
    requires Separates(p) && All(IsWhitespace, tail)
    ensures Select(p, Blanks(tail)) + Select(p, Newlines(tail)) == Select(p, tail)
  {
    SelectedSatisfy(IsSpaceOrTab, tail);
    SelectedSatisfy(IsNewline, tail);
    if forall b: u8 :: IsWhitespace(b) ==> p(b) == IsNewline(b) {
      SelectNone(p, Blanks(tail));
      SelectAll(p, Newlines(tail));
      SelectAgree(p, IsNewline, tail);
    } else {
      SelectAll(p, Blanks(tail));
      SelectNone(p, Newlines(tail));
      SelectAgree(p, IsSpaceOrTab, tail);
    }
  }

  lemma SelectParts(p: u8 -> bool, a: Text, b: Text, c: Text)
    ensures Select(p, a + b + c) == Select(p, a) + (Select(p, b) + Select(p, c))
  {
    SelectConcat(p, a + b, c);
    SelectConcat(p, a, b);
    Associate(Select(p, a), Select(p, b), Select(p, c));
  }

  /** Reordering is invisible to a selection that separates. */
  lemma ReorderProjects(p: u8 -> bool, t: Text)
    requires Separates(p)
    ensures Select(p, Reorder(t)) == Select(p, t)
  {
    ReorderShape(t);
    var tail := Tail(t);
    SelectConcat(p, Body(t), tail);
    SelectParts(p, Body(t), Blanks(tail), Newlines(tail));
    TailProjects(p, tail);
  }

  lemma {:induction false} FlattenProjects(p: u8 -> bool, pieces: seq<Text>)
    requires Separates(p)
    ensures Select(p, Flatten(ReorderAll(pieces))) == Select(p, Flatten(pieces))
  {
    if pieces == [] {
      assert ReorderAll(pieces) == [];
    } else {
      var t, rest := pieces[0], pieces[1..];
      ReorderProjects(p, t);
      FlattenProjects(p, rest);
      assert ReorderAll(pieces)[1..] == ReorderAll(rest);
      SelectConcat(p, Reorder(t), Flatten(ReorderAll(rest)));
      SelectConcat(p, t, Flatten(rest));
    }
  }

  /** Sent and held text together keep the order of the input, both when blanks are ignored and
      when newlines are ignored. */
  lemma OrderKept(pieces: seq<Text>)
    ensures var all := Sent(pieces, []) + Held(pieces, []);
      && Select(NotSpaceOrTab, all) == Select(NotSpaceOrTab, Flatten(pieces))
      && Select(NotNewline, all) == Select(NotNewline, Flatten(pieces))
  {
    Conservation(pieces, []);
    FlattenProjects(NotSpaceOrTab, pieces);
    FlattenProjects(NotNewline, pieces);
    assert [] + Flatten(ReorderAll(pieces)) == Flatten(ReorderAll(pieces));
  }

  // ---------- a step byte by byte ----------

  /** `Select` takes each byte or leaves it. */
  lemma SelectOne(p: u8 -> bool, b: u8)
    ensures Select(p, []) == [] && Select(p, [b]) == if p(b) then [b] else []
  {
    assert [b][1..] == [];
  }

  /** Carriage returns and line feeds alone are held. */
  lemma StepOfNewlines(t: Text, held: Text)
    requires t != [] && forall i :: 0 <= i < |t| ==> t[i] == 10 || t[i] == 13
    ensures Step(t, held) == (None, held + t)
  {}

  /** Where a body ends and its trailing whitespace starts. */
  lemma PartsOfText(body: Text, tail: Text)
    requires body != [] ==> body[|body| - 1] !in {9, 10, 13, 32}
    requires forall i :: 0 <= i < |tail| ==> tail[i] in {9, 10, 13, 32}
    ensures var t := body + tail; TrimLen(t) == |body| && Body(t) == body && Tail(t) == tail
  {
    var t := body + tail;
    assert forall i :: 0 <= i < |tail| ==> t[|body| + i] == tail[i];
    assert body != [] ==> t[|body| - 1] == body[|body| - 1];
  }

  /** Anything else is sent behind what is held: up to its last byte that is no tab, line feed,
      carriage return or space, then the tabs and spaces after that; the line feeds and carriage
      returns after it are held. */
  lemma StepOfText(body: Text, tail: Text, held: Text, blank: u8 -> bool, newline: u8 -> bool)
    requires body != [] ==> body[|body| - 1] !in {9, 10, 13, 32}
    requires forall i :: 0 <= i < |tail| ==> tail[i] in {9, 10, 13, 32}
    requires body == [] && tail != [] ==> exists i :: 0 <= i < |tail| && tail[i] in {9, 32}
    requires forall b: u8 :: (blank(b) <==> b == 9 || b == 32) && (newline(b) <==> b == 10 || b == 13)
    ensures Step(body + tail, held) == (Some(held + body + Select(blank, tail)), Select(newline, tail))
  {
    var t := body + tail;
    PartsOfText(body, tail);
    SelectAgree(blank, IsSpaceOrTab, tail);
    SelectAgree(newline, IsNewline, tail);
    if t == [] {
      SolidStep(t, held);
    } else {
      if body == [] {
        var i :| 0 <= i < |tail| && tail[i] in {9, 32};
        assert t[i] == tail[i] && IsSpaceOrTab(t[i]);
      }
      MixedStep(t, held);
      Associate(held, body, Blanks(tail));
    }
  }

  // ---------- when the text is exactly kept ----------

  lemma {:induction false} SortedTail(t: Text)
    requires All(IsWhitespace, t)
    requires forall i, j :: 0 <= i < j < |t| && IsNewline(t[i]) ==> !IsSpaceOrTab(t[j])
    ensures Blanks(t) + Newlines(t) == t
  {
    if t != [] && IsNewline(t[0]) {
      assert forall j :: 0 < j < |t| ==> IsNewline(t[j]);
      SelectNone(IsSpaceOrTab, t);
      SelectAll(IsNewline, t);
    } else if t != [] {
      var rest := t[1..];
      SortedTail(rest);
      Associate([t[0]], Blanks(rest), Newlines(rest));
    }
  }

  lemma TailSorted(t: Text)
    requires Blanks(t) + Newlines(t) == t
    ensures forall i, j :: 0 <= i < j < |t| && IsNewline(t[i]) ==> !IsSpaceOrTab(t[j])
  {
    var b, n := Blanks(t), Newlines(t);
    SelectedSatisfy(IsSpaceOrTab, t);
    SelectedSatisfy(IsNewline, t);
    assert forall k :: 0 <= k < |b| ==> t[k] == b[k];
    assert forall k :: |b| <= k < |t| ==> t[k] == n[k - |b|];
  }

  /** A piece is left as it is exactly when its trailing whitespace is in order. */
  lemma ReorderIdentity(t: Text)
    ensures Reorder(t) == t <==> InOrder(t)
  {
    var n, tail := TrimLen(t), Tail(t);
    ReorderShape(t);
    var moved := Blanks(tail) + Newlines(tail);
    Associate(Body(t), Blanks(tail), Newlines(tail));
    assert Reorder(t)[n..] == moved;
    assert forall i :: n <= i < |t| ==> t[i] == tail[i - n];
    if InOrder(t) {
      SortedTail(tail);
    }
    if moved == tail {
      TailSorted(tail);
    }
  }

  lemma {:induction false} FlattenIdentity(pieces: seq<Text>)
    ensures |Flatten(ReorderAll(pieces))| == |Flatten(pieces)|
    ensures Flatten(ReorderAll(pieces)) == Flatten(pieces) <==>
      forall i :: 0 <= i < |pieces| ==> InOrder(pieces[i])
  {
    if pieces == [] {
      assert ReorderAll(pieces) == [];
    } else {
      var t, rest := pieces[0], pieces[1..];
      var r := Flatten(ReorderAll(rest));
      ReorderIdentity(t);
      ReorderShape(t);
      FlattenIdentity(rest);
      assert ReorderAll(pieces)[1..] == ReorderAll(rest);
      assert Flatten(ReorderAll(pieces)) == Reorder(t) + r;
      assert (Reorder(t) + r)[..|t|] == Reorder(t) && (Reorder(t) + r)[|t|..] == r;
      assert Flatten(pieces)[..|t|] == t && Flatten(pieces)[|t|..] == Flatten(rest);
    }
  }

  lemma SameAfterTrim(a: Text, b: Text)
    requires TrimNewlines(a) == TrimNewlines(b) && Newlines(a) == Newlines(b)
    ensures a == b
  {
    var s := TrimNewlines(a);
    var m, n := a[|s|..], b[|s|..];
    assert a == s + m && b == s + n;
    SelectConcat(IsNewline, s, m);
    SelectConcat(IsNewline, s, n);
    SelectAll(IsNewline, m);
    SelectAll(IsNewline, n);
    assert Newlines(a)[|Newlines(s)|..] == m && Newlines(b)[|Newlines(s)|..] == n;
  }

  /** How the text was cut makes no difference, and what is sent is the whole text less its
      final run of newlines, exactly when no piece has a newline before a blank in its trailing
      whitespace. */
  lemma ChunkingIndependence(pieces: seq<Text>)
    requires NonEmpty(pieces)
    ensures Sent(pieces, []) == TrimNewlines(Flatten(pieces)) <==>
      forall i :: 0 <= i < |pieces| ==> InOrder(pieces[i])
  {
    var before, after := Flatten(pieces), Flatten(ReorderAll(pieces));
    BatchForm(pieces, []);
    assert [] + after == after;
    FlattenIdentity(pieces);
    if TrimNewlines(after) == TrimNewlines(before) {
      FlattenProjects(IsNewline, pieces);
      SameAfterTrim(before, after);
    }
  }

  /** The smallest input whose cutting shows: "\n " sent whole moves the space forward, while
      cut in two it is kept. */
  lemma CuttingShows(nl: Text, sp: Text)
    requires nl == [10] && sp == [32]
    ensures Sent([nl + sp], []) != Sent([nl, sp], []) == nl + sp
  {
    var t := nl + sp;
    assert [nl, sp][1..] == [sp] && [sp][1..] == [] && sp + [] == sp;
    ChunkingIndependence([nl, sp]);
    assert TrimNewlines(t) == t;
    var none: seq<Text> := [];
    assert [t][1..] == none && t + [] == t;
    assert IsNewline(t[0]) && IsSpaceOrTab(t[1]) && TrimLen(t) == 0;
    ChunkingIndependence([t]);
    assert !InOrder([t][0]);
  }
}
