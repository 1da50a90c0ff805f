/** The lookup of psl/src/_.js on the generated trie. */
module PslLookup {
  import opened Positional
  import opened Options
  import opened PslRules
  import opened PslTrie
  import opened PslCompress

  // ---------- what the walk finds ----------

  /** The fewest labels, at least `e`, that are the path of an exception. */
  function MetException(rules: seq<Rule>, host: Path, e: nat): (r: Option<nat>)
    requires 1 <= e <= |host| + 1
    ensures r.Some? ==> e <= r.value <= |host| && Latest(rules, host[..r.value]) == EXCEPTION
    ensures r.Some? ==> forall d :: e <= d < r.value ==> Latest(rules, host[..d]) != EXCEPTION
    ensures r.None? ==> forall d :: e <= d <= |host| ==> Latest(rules, host[..d]) != EXCEPTION
    decreases |host| + 1 - e
  {
    if e > |host| then None
    else if Latest(rules, host[..e]) == EXCEPTION then Some(e)
    else MetException(rules, host, e + 1)
  }

  /** The most labels, at most `d`, that are the path of a rule; 0 when none are. */
  function LastTyped(rules: seq<Rule>, host: Path, d: nat): (t: nat)
    requires d <= |host|
    ensures t <= d && (t > 0 ==> Latest(rules, host[..t]) != 0)
    ensures forall k :: t < k <= d ==> Latest(rules, host[..k]) == 0
  {
    if d == 0 || Latest(rules, host[..d]) != 0 then d else LastTyped(rules, host, d - 1)
  }

  /** The public suffix the walk down the trie settles on: the shortest exception, else the last
      rule it meets, a wildcard reaching one label on only where the trie ends. */
  ghost function Walked(rules: seq<Rule>, host: Path): Option<nat>
  {
    var exception, last := MetException(rules, host, 1), LastTyped(rules, host, |host|);
    if exception.Some? then Some(exception.value - 1)
    else if last == 0 then None
    else if Latest(rules, host[..last]) == WILDCARD && last < |host| && !Known(rules, host[..last + 1]) then
      Some(last + 1)
    else Some(last)
  }

  /** The labels of the root domain: the suffix and one more, or the whole host. */
  function RootLabels(suffix: Option<nat>, host: Path): nat
  {
    if suffix.None? || suffix.value >= |host| then |host| else suffix.value + 1
  }

  // ---------- the walk as written ----------

  lemma {:induction false} FindSnoc(c: Json, p: Path, l: Label)
    ensures Find(c, p + [l]) ==
      if Find(c, p).Some? && l in Find(c, p).value.Kids() then Some(Find(c, p).value.Kids()[l]) else None
    decreases |p|
  {
    if p == [] {
      assert p + [l] == [l] && [l][1..] == [];
    } else {
      assert (p + [l])[0] == p[0] && (p + [l])[1..] == p[1..] + [l];
      if p[0] in c.Kids() {
        FindSnoc(c.Kids()[p[0]], p[1..], l);
      }
    }
  }

  /** The next node of the walk, and that nothing known has the value 0. */
  lemma NextNode(code: Json, rules: seq<Rule>, host: Path, d: nat)
    requires Generated(code, rules) && d < |host| && Find(code, host[..d]).Some?
    ensures var kids := Find(code, host[..d]).value.Kids();
      && Known(rules, host[..d])
      && (host[d] in kids <==> Known(rules, host[..d + 1]))
      && (host[d] in kids ==>
           && Find(code, host[..d + 1]) == Some(kids[host[d]])
           && kids[host[d]] != Num(0)
           && kids[host[d]].Type() == Latest(rules, host[..d + 1]))
  {
    var p := host[..d + 1];
    assert p == host[..d] + [host[d]] && [] + p == p;
    FindSnoc(code, host[..d], host[d]);
    assert [] + host[..d] == host[..d] && host[..d] in KnownPaths(rules);
    assert Find(code, p).Some? <==> p in KnownPaths(rules);
    assert Find(code, p).Some? ==> Faithful(Find(code, p).value, p, rules);
  }

  lemma {:induction false} UnknownBeyond(rules: seq<Rule>, host: Path, d: nat, k: nat)
    requires d <= k <= |host| && !Known(rules, host[..d])
    ensures !Known(rules, host[..k]) && Latest(rules, host[..k]) == 0
  {
    if Latest(rules, host[..k]) != 0 {
      LatestKnown(rules, host[..k]);
    }
  }

  lemma {:induction false} LastTypedStable(rules: seq<Rule>, host: Path, d: nat, k: nat)
    requires d <= k <= |host|
    requires forall j :: d < j <= k ==> Latest(rules, host[..j]) == 0
    ensures LastTyped(rules, host, k) == LastTyped(rules, host, d)
  {
    if d == k {
    } else {
      LastTypedStable(rules, host, d, k - 1);
    }
  }

  /** No exception among the first `d` labels. */
  ghost predicate Clear(rules: seq<Rule>, host: Path, d: nat)
    requires d <= |host|
  {
    forall j :: 1 <= j <= d ==> Latest(rules, host[..j]) != EXCEPTION
  }

  /** A suffix length as an index into the labels as written. */
  function Position(suffix: Option<nat>, n: nat): (pos: Option<nat>)
    requires suffix.Some? ==> suffix.value <= n
  {
    if suffix.None? then None else Some(n - suffix.value)
  }

  /** The index of the last rule met after `d` labels. */
  function PositionAt(rules: seq<Rule>, host: Path, d: nat): Option<nat>
    requires d <= |host|
  {
    var t := LastTyped(rules, host, d);
    if t == 0 then None else Some(|host| - t)
  }

  lemma WalkGoesOn(rules: seq<Rule>, host: Path, d: nat)
    requires d < |host| && Clear(rules, host, d) && Latest(rules, host[..d + 1]) != EXCEPTION
    ensures Clear(rules, host, d + 1)
    ensures PositionAt(rules, host, d + 1) ==
      if Latest(rules, host[..d + 1]) != 0 then Some(|host| - d - 1) else PositionAt(rules, host, d)
  {
    LastTypedStable(rules, host, d, d);
  }

  /** Nothing more is met past an unknown label. */
  lemma NothingBeyond(rules: seq<Rule>, host: Path, d: nat)
    requires d < |host| && Clear(rules, host, d) && !Known(rules, host[..d + 1])
    ensures MetException(rules, host, 1).None?
    ensures LastTyped(rules, host, |host|) == LastTyped(rules, host, d)
  {
    forall j | d < j <= |host|
      ensures Latest(rules, host[..j]) == 0
    {
      UnknownBeyond(rules, host, d + 1, j);
    }
    LastTypedStable(rules, host, d, |host|);
  }

  /** The walk stops for want of a node. */
  lemma WalkStops(rules: seq<Rule>, host: Path, d: nat)
    requires WellTyped(rules) && d < |host| && Clear(rules, host, d)
    requires Known(rules, host[..d]) && !Known(rules, host[..d + 1])
    ensures Position(Walked(rules, host), |host|) ==
      if Latest(rules, host[..d]) == WILDCARD then Some(|host| - d - 1) else PositionAt(rules, host, d)
  {
    NothingBeyond(rules, host, d);
    var t := LastTyped(rules, host, d);
    if d == 0 {
      LatestIsARule(rules, []);
      assert host[..0] == [];
    } else if Latest(rules, host[..d]) != 0 {
      assert t == d;
    } else if t < d && !Known(rules, host[..t + 1]) {
      UnknownBeyond(rules, host, t + 1, d);
    }
  }

  /** The walk stops at an exception. */
  lemma WalkExcepted(rules: seq<Rule>, host: Path, d: nat)
    requires d < |host| && Clear(rules, host, d) && Latest(rules, host[..d + 1]) == EXCEPTION
    ensures Position(Walked(rules, host), |host|) == Some(|host| - d)
  {}

  /** The walk runs out of labels. */
  lemma WalkCompletes(rules: seq<Rule>, host: Path)
    requires Clear(rules, host, |host|) && Known(rules, host[..|host|])
    ensures Position(Walked(rules, host), |host|) == PositionAt(rules, host, |host|)
  {
    var t := LastTyped(rules, host, |host|);
    if t < |host| && !Known(rules, host[..t + 1]) {
      UnknownBeyond(rules, host, t + 1, |host|);
    }
  }

  lemma Start(code: Json, rules: seq<Rule>, host: Path)
    requires Generated(code, rules) && WellTyped(rules)
    ensures host[..0] == [] && Find(code, []) == Some(code) && Latest(rules, []) == 0
  {
    LatestIsARule(rules, []);
  }

  /** The three shapes of a node, taken apart. */
  method Enter(curr: Json) returns (typ: nat, node: map<Label, Json>)
    ensures typ == curr.Type() && node == curr.Kids()
  {
    match curr
    case Pair(t, kids) => typ, node := t, kids;
    case Num(t) => typ, node := t, map[];
    case Obj(kids) => typ, node := 0, kids;
  }

  /** The loop over the labels, last to first. */
  method Walk(code: Json, parts: seq<Label>, ghost rules: seq<Rule>) returns (pos: Option<nat>)
    requires Generated(code, rules) && WellTyped(rules)
    ensures pos == Position(Walked(rules, Reverse(parts)), |parts|)
  {
    ghost var host, d := Reverse(parts), 0;
    var node, typ := code.Kids(), 0;
    pos := None;
    var i := |parts|;
    Start(code, rules, host);
    while i > 0
      invariant 0 <= i <= |host| == |parts| && d == |host| - i
      invariant Known(rules, host[..d])
      invariant Find(code, host[..d]).Some? && node == Find(code, host[..d]).value.Kids()
      invariant typ == Latest(rules, host[..d]) && Clear(rules, host, d)
      invariant pos == PositionAt(rules, host, d)
    {
      i := i - 1;
      NextNode(code, rules, host, d);
      assert parts[i] == host[d];
      if parts[i] !in node || node[parts[i]] == Num(0) {
        WalkStops(rules, host, d);
        if typ == WILDCARD {
          pos := Some(i);
        }
        return;
      }
      typ, node := Enter(node[parts[i]]);
      if typ == EXCEPTION {
        WalkExcepted(rules, host, d);
        pos := Some(i + 1);
        return;
      }
      WalkGoesOn(rules, host, d);
      if typ != 0 {
        pos := Some(i);
      }
      d := d + 1;
    }
    WalkCompletes(rules, host);
  }

  /** The domain a suffix makes of the labels as written: one label more than the suffix, or all;
      without a suffix, the host as it came. */
  function Domain(parts: seq<Label>, suffix: Option<nat>, host: string): string
  {
    if suffix.None? then host else Join(parts[|parts| - RootLabels(suffix, parts)..])
  }

  /** `end` is the whole or follows a dot in it. */
  ghost predicate IsEnd(whole: string, end: string)
  {
    && |end| <= |whole| && whole[|whole| - |end|..] == end
    && (|end| < |whole| ==> whole[|whole| - |end| - 1] == '.')
  }

  /** `root` is the end of `whole` from some label on, and has one label more than `suffix`, or all
      of them if there are no more. */
  ghost predicate EndsIn(whole: string, root: string, suffix: nat)
  {
    IsEnd(whole, root) && |Split(root)| == if suffix + 1 < |Split(whole)| then suffix + 1 else |Split(whole)|
  }

  lemma JoinedEnd(labels: seq<Label>, k: nat)
    requires k < |labels|
    ensures IsEnd(Join(labels), Join(labels[k..]))
  {
    if k == 0 {
      assert labels[0..] == labels;
    } else {
      assert labels[..k] + labels[k..] == labels;
      JoinConcat(labels[..k], labels[k..]);
    }
  }

  lemma LabelsFrom(whole: string, k: nat)
    requires k < |Split(whole)|
    ensures var root := Join(Split(whole)[k..]); IsEnd(whole, root) && |Split(root)| == |Split(whole)| - k
  {
    var parts := Split(whole);
    var end := parts[k..];
    JoinSplit(whole);
    JoinedEnd(parts, k);
    assert forall i :: 0 <= i < |end| ==> end[i] == parts[k + i];
    SplitJoin(end);
  }

  lemma ReversedPrefix<T>(s: seq<T>, t: seq<T>)
    requires Reverse(s) <= Reverse(t)
    ensures |s| <= |t| && t[|t| - |s|..] == s
  {
    forall i | 0 <= i < |s|
      ensures t[|t| - |s| + i] == s[i]
    {
      assert Reverse(s)[|s| - 1 - i] == Reverse(t)[|s| - 1 - i];
    }
  }

  lemma LabelsAtEnd(whole: string, end: string)
    requires Reverse(Split(end)) <= Reverse(Split(whole))
    ensures IsEnd(whole, end)
  {
    var labels, parts := Split(end), Split(whole);
    ReversedPrefix(labels, parts);
    JoinSplit(end);
    LabelsFrom(whole, |parts| - |labels|);
  }

  lemma EndAtLabels(whole: string, end: string)
    requires IsEnd(whole, end)
    ensures Reverse(Split(end)) <= Reverse(Split(whole))
    ensures end != whole ==> |Split(end)| < |Split(whole)|
  {
    if end != whole {
      var before := whole[..|whole| - |end| - 1];
      assert whole == before + "." + end;
      SplitAtDot(before, end);
      ReverseConcat(Split(before), Split(end));
    }
  }

  /** Labels from the top: those of a host start with those of `end` exactly when the host is `end`
      or ends in a dot and `end`. */
  lemma EndByLabels(whole: string, end: string)
    ensures Reverse(Split(end)) <= Reverse(Split(whole)) <==>
      && |end| <= |whole| && whole[|whole| - |end|..] == end
      && (|end| < |whole| ==> whole[|whole| - |end| - 1] == '.')
    ensures Reverse(Split(end)) < Reverse(Split(whole)) ==> end != whole
    ensures Reverse(Split(end)) <= Reverse(Split(whole)) && end != whole ==>
      Reverse(Split(end)) < Reverse(Split(whole))
  {
    if Reverse(Split(end)) <= Reverse(Split(whole)) {
      LabelsAtEnd(whole, end);
    }
    if IsEnd(whole, end) {
      EndAtLabels(whole, end);
    }
  }

  lemma DomainEndsIn(whole: string, suffix: nat, host: string)
    requires suffix <= |Split(whole)|
    ensures EndsIn(whole, Domain(Split(whole), Some(suffix), host), suffix)
  {
    var parts := Split(whole);
    var k := |parts| - RootLabels(Some(suffix), parts);
    LabelsFrom(whole, k);
    assert Domain(parts, Some(suffix), host) == Join(parts[k..]);
  }

  /** `psl(host)`; `lower` is `toLowerCase`. */
  method RootDomain(code: Json, host: string, lower: string -> string, ghost rules: seq<Rule>)
    returns (root: string)
    requires Generated(code, rules) && WellTyped(rules)
    ensures root == if '.' !in host then host
      else var parts := Split(lower(host)); Domain(parts, Walked(rules, Reverse(parts)), host)
    ensures '.' in host ==> var suffix := Walked(rules, Reverse(Split(lower(host))));
      if suffix.None? then root == host else EndsIn(lower(host), root, suffix.value)
  {
    if '.' !in host {
      return host;
    }
    var parts := Split(lower(host));
    ghost var suffix := Walked(rules, Reverse(parts));
    var pos := Walk(code, parts, rules);
    if pos.Some? {
      var from := if pos.value > 0 then pos.value - 1 else 0;
      assert from == |parts| - RootLabels(suffix, parts);
      root := Join(parts[from..]);
      DomainEndsIn(lower(host), suffix.value, host);
    } else {
      root := host;
    }
  }
}
