/** The whitespace filter `delta` of cersei_rs/src/stream.rs, one piece of text at a time. */
module StreamFilter {
  import opened Positional
  import opened Options

  /** UTF-8 text; only ASCII whitespace bytes are inspected. */
  type Text = seq<u8>

  predicate IsNewline(b: u8) { b == 10 || b == 13 }
  predicate IsSpaceOrTab(b: u8) { b == 32 || b == 9 }
  predicate IsWhitespace(b: u8) { IsSpaceOrTab(b) || IsNewline(b) }
  predicate NotNewline(b: u8) { !IsNewline(b) }
  predicate NotSpaceOrTab(b: u8) { !IsSpaceOrTab(b) }

  /** The bytes of `t` that satisfy `p`, in order. */
  function Select(p: u8 -> bool, t: Text): Text
  {
    if t == [] then [] else (if p(t[0]) then [t[0]] else []) + Select(p, t[1..])
  }

  function Blanks(t: Text): Text { Select(IsSpaceOrTab, t) }
  function Newlines(t: Text): Text { Select(IsNewline, t) }

  predicate All(p: u8 -> bool, t: Text)
  {
    forall i :: 0 <= i < |t| ==> p(t[i])
  }

  /** Length up to and including the last byte that does not satisfy `p`. */
  function TrimLenBy(p: u8 -> bool, t: Text): (n: nat)
    ensures n <= |t| && forall i :: n <= i < |t| ==> p(t[i])
    ensures n > 0 ==> !p(t[n - 1])
  {
    if t == [] then 0
    else if !p(t[|t| - 1]) then |t|
    else TrimLenBy(p, t[..|t| - 1])
  }

  /** `trim_len`: the length without trailing whitespace. */
  function TrimLen(t: Text): nat { TrimLenBy(IsWhitespace, t) }

  /** `trim_end_matches(['\r', '\n'])`. */
  function TrimNewlines(t: Text): Text { t[..TrimLenBy(IsNewline, t)] }

  function Body(t: Text): Text { t[..TrimLen(t)] }
  function Tail(t: Text): Text { t[TrimLen(t)..] }

  /** What passing a piece of text does to the order of its bytes: within the trailing
      whitespace, spaces and tabs go before newlines. */
  function Reorder(t: Text): Text
  {
    Body(t) + Blanks(Tail(t)) + Newlines(Tail(t))
  }

  /** The filter's step: a piece made of newlines only is held; anything else is sent behind
      the newlines held so far, less the newlines of its own trailing whitespace. */
  function Step(t: Text, held: Text): (Option<Text>, Text)
  {
    if t != [] && All(IsNewline, t) then (None, held + t)
    else (Some(held + Body(t) + Blanks(Tail(t))), Newlines(Tail(t)))
  }

  // ---------- selecting ----------

  lemma Associate(a: Text, b: Text, c: Text)
    ensures (a + b) + c == a + (b + c)
  {}

  lemma {:induction false} SelectConcat(p: u8 -> bool, s: Text, t: Text)
    ensures Select(p, s + t) == Select(p, s) + Select(p, t)
  {
    if s == [] {
      assert s + t == t;
    } else {
      SelectConcat(p, s[1..], t);
      var u := s + t;
      assert u[0] == s[0] && u[1..] == s[1..] + t;
      Associate(if p(s[0]) then [s[0]] else [], Select(p, s[1..]), Select(p, t));
    }
  }

  lemma {:induction false} SelectAll(p: u8 -> bool, t: Text)
    requires All(p, t)
    ensures Select(p, t) == t
  {
    if t == [] {
    } else {
      SelectAll(p, t[1..]);
    }
  }

  lemma {:induction false} SelectNone(p: u8 -> bool, t: Text)
    requires forall i :: 0 <= i < |t| ==> !p(t[i])
    ensures Select(p, t) == []
  {
    if t == [] {
    } else {
      SelectNone(p, t[1..]);
    }
  }

  lemma {:induction false} SelectedSatisfy(p: u8 -> bool, t: Text)
    ensures All(p, Select(p, t))
    ensures |Select(p, t)| <= |t|
  {
    if t == [] {
    } else {
      SelectedSatisfy(p, t[1..]);
    }
  }

  /** Whitespace is blanks and newlines. */
  lemma {:induction false} WhitespaceLength(t: Text)
    requires All(IsWhitespace, t)
    ensures |Blanks(t)| + |Newlines(t)| == |t|
  {
    if t == [] {
    } else {
      WhitespaceLength(t[1..]);
    }
  }

  // ---------- the filter as written ----------

  class TextBuffer {
    var bytes: Text

    constructor ()
      ensures bytes == []
    {
      bytes := [];
    }
  }

  lemma SelectSnoc(p: u8 -> bool, t: Text, len: nat, r: nat)
    requires len <= r < |t|
    ensures Select(p, t[len..r + 1]) == Select(p, t[len..r]) + if p(t[r]) then [t[r]] else []
  {
    assert t[len..r + 1] == t[len..r] + [t[r]];
    SelectConcat(p, t[len..r], [t[r]]);
  }

  /** Compacts the spaces and tabs of `bytes[len..]` in place and moves its newlines to `buf`. */
  method Compact(bytes: array<u8>, len: nat, buf: TextBuffer) returns (w: nat)
    requires len <= bytes.Length && All(IsWhitespace, bytes[len..]) && buf.bytes == []
    modifies bytes, buf
    ensures len <= w <= bytes.Length
    ensures bytes[..w] == old(bytes[..len]) + Blanks(old(bytes[len..]))
    ensures buf.bytes == Newlines(old(bytes[len..]))
  {
    ghost var t := bytes[..];
    ghost var body, blanks := t[..len], [];
    w := len;
    for r := len to bytes.Length
      invariant len <= w <= r
      invariant forall k :: r <= k < |t| ==> bytes[k] == t[k]
      invariant bytes[..w] == body + blanks
      invariant blanks == Blanks(t[len..r]) && buf.bytes == Newlines(t[len..r])
    {
      var b := bytes[r];
      assert b == t[r] && IsWhitespace(b);
      SelectSnoc(IsSpaceOrTab, t, len, r);
      SelectSnoc(IsNewline, t, len, r);
      if IsNewline(b) {
        buf.bytes := buf.bytes + [b];
      } else if IsSpaceOrTab(b) {
        Associate(body, blanks, [b]);
        ghost var kept := bytes[..w];
        bytes[w] := b;
        assert bytes[..w + 1] == kept + [b];
        blanks := blanks + [b];
        w := w + 1;
      }
    }
    assert t[len..bytes.Length] == t[len..];
  }

  lemma SolidStep(t: Text, held: Text)
    requires TrimLen(t) == |t|
    ensures Step(t, held) == (Some(held + t), [])
  {
    assert Tail(t) == [] && held + Body(t) + [] == held + t;
  }

  lemma MixedStep(t: Text, held: Text)
    requires TrimLen(t) > 0 || exists i :: TrimLen(t) <= i < |t| && IsSpaceOrTab(t[i])
    ensures Step(t, held) == (Some(held + (Body(t) + Blanks(Tail(t)))), Newlines(Tail(t)))
  {
    assert held + Body(t) + Blanks(Tail(t)) == held + (Body(t) + Blanks(Tail(t)));
  }

  method Delta(t: Text, buf: TextBuffer) returns (out: Option<Text>)
    modifies buf
    ensures (out, buf.bytes) == Step(t, old(buf.bytes))
  {
    var len := TrimLen(t);
    if len == |t| {
      SolidStep(t, buf.bytes);
      if buf.bytes != [] {
        out := Some(buf.bytes + t);
        buf.bytes := [];
      } else {
        out := Some(t);
        assert [] + t == t;
      }
      return;
    }
    var hasSpaces := exists i :: len <= i < |t| && IsSpaceOrTab(t[i]);
    if len == 0 && !hasSpaces {
      buf.bytes := buf.bytes + t;
      return None;
    }
    MixedStep(t, buf.bytes);
    var oldBuf := buf.bytes;
    buf.bytes := [];
    var bytes := new u8[|t|](i requires 0 <= i < |t| => t[i]);
    assert bytes[..] == t && bytes[..len] == Body(t) && bytes[len..] == Tail(t);
    var w := Compact(bytes, len, buf);
    out := Some(if oldBuf != [] then oldBuf + bytes[..w] else bytes[..w]);
    assert [] + bytes[..w] == bytes[..w];
  }
}
