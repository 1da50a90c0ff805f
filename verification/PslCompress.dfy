/** The compressed form of psl/gen.js, and the generator as a whole. */
module PslCompress {
  import opened Options
  import opened PslRules
  import opened PslTrie

  /** The three shapes of a node: `type`, `children` and `[type, children]`. */
  datatype Json =
    | Num(n: nat)
    | Obj(kids: map<Label, Json>)
    | Pair(n: nat, kids: map<Label, Json>)
  {
    function Type(): nat { if Obj? then 0 else n }
    function Kids(): map<Label, Json> { if Num? then map[] else kids }

    /** Each shape only where it is the shortest: no children means a number, and a zero type is
        never written. */
    ghost predicate Shaped()
    {
      (Num? || kids != map[]) && (Obj? || n != 0)
    }
  }

  /** The node a path leads to. */
  function Find(c: Json, p: Path): Option<Json>
    decreases |p|
  {
    if p == [] then Some(c)
    else if p[0] in c.Kids() then Find(c.Kids()[p[0]], p[1..])
    else None
  }

  /** A node of the table's type, in its shape; only an empty root is the number 0. */
  ghost predicate Faithful(c: Json, p: Path, rules: seq<Rule>)
  {
    c.Type() == Latest(rules, p) && (c.Shaped() || (p == [] && c == Num(0)))
  }

  /** `c` is the part of the trie below `p`: it has a node just where one is known. */
  ghost predicate Encodes(c: Json, p: Path, known: iset<Path>, rules: seq<Rule>)
  {
    forall q: Path {:trigger Find(c, q)} ::
      && (Find(c, q).Some? <==> p + q in known)
      && (Find(c, q).Some? ==> Faithful(Find(c, q).value, p + q, rules))
  }

  ghost predicate HasChild(known: iset<Path>, p: Path)
  {
    exists l :: p + [l] in known
  }

  /** A node without children has a type, unless it is the root. */
  ghost predicate LeavesTyped(known: iset<Path>, rules: seq<Rule>)
  {
    && Latest(rules, []) == 0
    && forall p: Path {:trigger HasChild(known, p)} ::
      p in known && p != [] && !HasChild(known, p) ==> Latest(rules, p) != 0
  }

  lemma {:induction false} PrefixKnown(known: iset<Path>, p: Path, q: Path)
    requires PrefixClosed(known) && p + q in known
    ensures p in known
    decreases |q|
  {
    if q == [] {
      assert p + q == p;
    } else {
      var init := q[..|q| - 1];
      assert (p + init) + [q[|q| - 1]] == p + q;
      PrefixKnown(known, p, init);
    }
  }

  /** A path below `p` goes through one of the children known there. */
  lemma NextKnown(known: iset<Path>, p: Path, q: Path)
    requires PrefixClosed(known) && p + q in known && q != []
    ensures p + [q[0]] in known
  {
    assert (p + [q[0]]) + q[1..] == p + q;
    PrefixKnown(known, p + [q[0]], q[1..]);
  }

  lemma EncodesFromKids(c: Json, kids: map<Label, Json>, p: Path, known: iset<Path>, rules: seq<Rule>)
    requires PrefixClosed(known) && p in known && Faithful(c, p, rules) && c.Kids() == kids
    requires forall l :: l in kids <==> p + [l] in known
    requires forall l :: l in kids ==> Encodes(kids[l], p + [l], known, rules)
    ensures Encodes(c, p, known, rules)
  {
    forall q: Path
      ensures Find(c, q).Some? <==> p + q in known
      ensures Find(c, q).Some? ==> Faithful(Find(c, q).value, p + q, rules)
    {
      if q == [] {
        assert p + q == p;
      } else {
        var l, rest := q[0], q[1..];
        assert (p + [l]) + rest == p + q;
        if l in kids {
          assert Encodes(kids[l], p + [l], known, rules);
        } else if p + q in known {
          NextKnown(known, p, q);
        }
      }
    }
  }

  ghost function Below(trie: Trie, p: Path): set<Node>
    reads trie
  {
    set m | m in trie.nodes && p <= m.path
  }

  /** Whether `q` leads through a branch at `p` that is not in `rest`. */
  ghost predicate Done(p: Path, q: Path, rest: set<Label>)
  {
    p < q && q[|p|] !in rest
  }

  lemma FaithfulShape(c: Json, typ: nat, children: map<Label, Json>, p: Path, known: iset<Path>,
                      rules: seq<Rule>)
    requires LeavesTyped(known, rules) && p in known && typ == Latest(rules, p)
    requires forall l :: l in children <==> p + [l] in known
    requires c == if children == map[] then Num(typ) else if typ != 0 then Pair(typ, children) else Obj(children)
    ensures Faithful(c, p, rules) && c.Kids() == children
  {
    assert HasChild(known, p) ==> children != map[];
  }

  /** Every node below another is below one of its children. */
  lemma BelowKeys(trie: Trie, known: iset<Path>, node: Node)
    requires trie.Valid(known) && PrefixClosed(known) && node in trie.nodes
    ensures forall m :: m in trie.nodes && node.path < m.path ==> m.path[|node.path|] in node.children
    ensures forall m :: m in trie.nodes && node.path <= m.path ==> m == node || node.path < m.path
    ensures node.path in known && forall l :: l in node.children <==> node.path + [l] in known
  {
    forall m | m in trie.nodes && node.path < m.path
      ensures m.path[|node.path|] in node.children
    {
      var q := m.path[|node.path|..];
      assert node.path + q == m.path;
      NextKnown(known, node.path, q);
    }
  }

  /** The recursion of the generator: builds the compressed form and consumes the `$` marks. */
  method Compress(trie: Trie, node: Node, ghost known: iset<Path>, ghost rules: seq<Rule>)
    returns (c: Json)
    requires trie.Valid(known) && PrefixClosed(known) && node in trie.nodes
    requires LeavesTyped(known, rules)
    requires forall m :: m in trie.nodes && node.path <= m.path ==> m.typ == Latest(rules, m.path)
    modifies trie.nodes`typ
    ensures forall m :: m in trie.nodes ==> m.typ == if node.path <= m.path then 0 else old(m.typ)
    ensures Encodes(c, node.path, known, rules)
    decreases Below(trie, node.path), 2
  {
    var typ := node.typ;
    node.typ := 0;
    var children: map<Label, Json> := map[];
    BelowKeys(trie, known, node);
    if node.children.Keys == {} {
      c := Num(typ);
    } else {
      children := CompressChildren(trie, node, known, rules);
      c := if typ != 0 then Pair(typ, children) else Obj(children);
    }
    FaithfulShape(c, typ, children, node.path, known, rules);
    EncodesFromKids(c, children, node.path, known, rules);
  }

  /** Every key that is not left has its compressed form. */
  ghost predicate Collected(children: map<Label, Json>, keys: set<Label>, rest: set<Label>, p: Path,
                            known: iset<Path>, rules: seq<Rule>)
  {
    && (forall k :: k in rest ==> k in keys)
    && (forall k :: k in children <==> k in keys && k !in rest)
    && forall k :: k in children ==> Encodes(children[k], p + [k], known, rules)
  }

  lemma CollectOne(children: map<Label, Json>, keys: set<Label>, rest: set<Label>, p: Path, k: Label, c: Json,
                   known: iset<Path>, rules: seq<Rule>)
    requires Collected(children, keys, rest, p, known, rules)
    requires k in rest && Encodes(c, p + [k], known, rules)
    ensures Collected(children[k := c], keys, rest - {k}, p, known, rules)
  {}

  /** The loop over the keys. */
  method CompressChildren(trie: Trie, node: Node, ghost known: iset<Path>, ghost rules: seq<Rule>)
    returns (children: map<Label, Json>)
    requires trie.Valid(known) && PrefixClosed(known) && node in trie.nodes
    requires LeavesTyped(known, rules)
    requires forall m :: m in trie.nodes && node.path < m.path ==> m.typ == Latest(rules, m.path)
    modifies trie.nodes`typ
    ensures forall m :: m in trie.nodes ==> m.typ == if node.path < m.path then 0 else old(m.typ)
    ensures children.Keys == node.children.Keys
    ensures forall k :: k in children ==> Encodes(children[k], node.path + [k], known, rules)
    decreases Below(trie, node.path), 1
  {
    children := map[];
    var rest := node.children.Keys;
    BelowKeys(trie, known, node);
    while rest != {}
      invariant Collected(children, node.children.Keys, rest, node.path, known, rules)
      invariant forall m :: m in trie.nodes ==>
        m.typ == if Done(node.path, m.path, rest) then 0 else old(m.typ)
    {
      var k :| k in rest;
      var compressed := CompressChild(trie, node, k, rest, known, rules);
      CollectOne(children, node.children.Keys, rest, node.path, k, compressed, known, rules);
      children := children[k := compressed];
      rest := rest - {k};
    }
  }

  lemma BelowChild(trie: Trie, known: iset<Path>, node: Node, k: Label, rest: set<Label>)
    requires trie.Valid(known) && node in trie.nodes && k in node.children
    ensures node.children[k] in trie.nodes && node.children[k].path == node.path + [k]
    ensures Below(trie, node.path + [k]) < Below(trie, node.path)
    ensures forall q: Path :: Done(node.path, q, rest - {k}) <==>
      Done(node.path, q, rest) || node.path + [k] <= q
    ensures forall q: Path :: k in rest && node.path + [k] <= q ==> node.path < q && !Done(node.path, q, rest)
  {
    var p := node.path;
    forall q: Path
      ensures p + [k] <= q <==> p < q && q[|p|] == k
    {
      if p < q && q[|p|] == k {
        assert q[..|p| + 1] == p + [k];
      }
      if p + [k] <= q {
        assert q[..|p|] == p;
      }
    }
    assert node in Below(trie, p) && node !in Below(trie, p + [k]);
  }

  /** One turn of the loop. */
  method CompressChild(trie: Trie, node: Node, k: Label, ghost rest: set<Label>, ghost known: iset<Path>,
                       ghost rules: seq<Rule>) returns (c: Json)
    requires trie.Valid(known) && PrefixClosed(known) && node in trie.nodes
    requires LeavesTyped(known, rules) && k in rest && k in node.children
    requires forall m :: m in trie.nodes && node.path < m.path && !Done(node.path, m.path, rest) ==>
      m.typ == Latest(rules, m.path)
    modifies trie.nodes`typ
    ensures forall m :: m in trie.nodes ==>
      m.typ == if Done(node.path, m.path, rest - {k}) && !Done(node.path, m.path, rest) then 0 else old(m.typ)
    ensures Encodes(c, node.path + [k], known, rules)
    decreases Below(trie, node.path), 0
  {
    BelowChild(trie, known, node, k, rest);
    c := Compress(trie, node.children[k], known, rules);
  }

  lemma KnownLeavesTyped(rules: seq<Rule>)
    requires WellTyped(rules)
    ensures LeavesTyped(KnownPaths(rules), rules)
  {
    LatestIsARule(rules, []);
    forall p: Path | p in KnownPaths(rules) && p != [] && Latest(rules, p) == 0
      ensures HasChild(KnownPaths(rules), p)
    {
      UntypedGoesOn(rules, p);
      var l :| Known(rules, p + [l]);
      assert p + [l] in KnownPaths(rules);
    }
  }

  /** What the generated file says of a list of rules. */
  ghost predicate Generated(code: Json, rules: seq<Rule>)
  {
    Encodes(code, [], KnownPaths(rules), rules)
  }

  /** One trimmed line of the list. */
  method ReadLine(trie: Trie, line: string, allow: set<string>, isIcann: bool, ghost rules: seq<Rule>)
    returns (still: bool, ghost grown: seq<Rule>)
    requires trie.Holds(rules)
    modifies trie`nodes, trie.nodes
    ensures trie.Holds(grown)
    ensures old(trie.nodes) <= trie.nodes && fresh(trie.nodes - old(trie.nodes))
    ensures (still, grown) == (NextSection(line, isIcann), rules + AcceptedLine(line, allow, isIcann))
  {
    grown := rules;
    assert rules + [] == rules;
    if line == BEGIN_ICANN {
      return true, grown;
    }
    still := isIcann && line != END_ICANN;
    if Skipped(line, allow, still) {
      return still, grown;
    }
    var rule := ParseRule(line);
    trie.Insert(rule, rules);
    grown := rules + [rule];
  }

  /** The loop over the list's trimmed lines. */
  method Build(lines: seq<string>, allow: set<string>) returns (trie: Trie)
    ensures fresh(trie) && fresh(trie.nodes) && trie.Holds(Accepted(lines, allow, false))
  {
    trie := new Trie();
    var isIcann := false;
    ghost var rules: seq<Rule> := [];
    assert lines[0..] == lines;
    for i := 0 to |lines|
      invariant trie.Holds(rules) && fresh(trie) && fresh(trie.nodes)
      invariant rules + Accepted(lines[i..], allow, isIcann) == Accepted(lines, allow, false)
    {
      var line := lines[i];
      assert lines[i..] == [line] + lines[i + 1..];
      AcceptedCons(rules, line, lines[i + 1..], allow, isIcann);
      isIcann, rules := ReadLine(trie, line, allow, isIcann, rules);
    }
    assert rules == Accepted(lines, allow, false);
  }

  /** The generator, from the list to the compressed trie. */
  method Generate(lines: seq<string>, allow: set<string>) returns (code: Json)
    ensures Generated(code, Accepted(lines, allow, false))
  {
    var trie := Build(lines, allow);
    ghost var rules := Accepted(lines, allow, false);
    AcceptedWellTyped(lines, allow, false);
    KnownLeavesTyped(rules);
    KnownPrefixClosed(rules);
    code := Compress(trie, trie.root, KnownPaths(rules), rules);
  }

  function TypeAt(code: Json, p: Path): nat
  {
    if Find(code, p).Some? then Find(code, p).value.Type() else 0
  }

  /** Looking any path up gives the type of the last rule with that path, or none. */
  lemma LookupIsLatest(code: Json, rules: seq<Rule>, p: Path)
    requires Generated(code, rules)
    ensures TypeAt(code, p) == Latest(rules, p)
  {
    assert [] + p == p;
    if Latest(rules, p) != 0 {
      LatestKnown(rules, p);
      assert p in KnownPaths(rules);
    }
  }

  /** Compression loses nothing: lists with one compressed form have the same trie. */
  lemma CompressionIsLossless(code: Json, rules: seq<Rule>, other: seq<Rule>)
    requires Generated(code, rules) && Generated(code, other)
    ensures KnownPaths(rules) == KnownPaths(other)
    ensures forall p: Path :: Latest(rules, p) == Latest(other, p)
  {
    forall p: Path
      ensures p in KnownPaths(rules) <==> p in KnownPaths(other)
      ensures Latest(rules, p) == Latest(other, p)
    {
      assert [] + p == p;
      assert p in KnownPaths(rules) <==> Find(code, p).Some?;
      LookupIsLatest(code, rules, p);
      LookupIsLatest(code, other, p);
    }
  }
}
