/** The reverse trie that psl/gen.js builds: plain objects, updated in place. */
module PslTrie {
  import opened PslRules

  /** A trie object.  `typ` is its `$` property, 0 when there is none; `path` says where in the
      trie it is. */
  class Node {
    var typ: nat
    var children: map<Label, Node>
    ghost const path: Path

    constructor (ghost path: Path)
      ensures typ == 0 && children == map[] && this.path == path
    {
      typ := 0;
      children := map[];
      this.path := path;
    }
  }

  ghost predicate PrefixClosed(known: iset<Path>)
  {
    forall p, l :: p + [l] in known ==> p in known
  }

  ghost function KnownPaths(rules: seq<Rule>): iset<Path>
  {
    iset p: Path | Known(rules, p)
  }

  lemma KnownPrefixClosed(rules: seq<Rule>)
    ensures PrefixClosed(KnownPaths(rules))
  {
    forall p, l | Known(rules, p + [l])
      ensures Known(rules, p)
    {
      var i :| 0 <= i < |rules| && p + [l] <= rules[i].path;
      assert p <= p + [l];
    }
  }

  lemma SnocInjective(p: Path, k: Label, q: Path, l: Label)
    ensures p + [k] == q + [l] <==> p == q && k == l
  {
    assert (p + [k])[..|p|] == p && (q + [l])[..|q|] == q;
    assert (p + [k])[|p|] == k && (q + [l])[|q|] == l;
  }

  /** One more known path: it is one more child of its parent, and has no children yet. */
  lemma Grown(known: iset<Path>, grown: iset<Path>, p: Path, l: Label)
    requires PrefixClosed(known) && p + [l] !in known && grown == known + iset{p + [l]}
    ensures forall q, k :: q + [k] in grown <==> q + [k] in known || (q == p && k == l)
    ensures forall k :: (p + [l]) + [k] !in grown
  {
    forall q, k
      ensures q + [k] in grown <==> q + [k] in known || (q == p && k == l)
    {
      SnocInjective(q, k, p, l);
    }
  }

  /** The known paths while a rule is being inserted. */
  ghost function KnownSoFar(rules: seq<Rule>, p: Path): iset<Path>
  {
    iset q: Path | Known(rules, q) || q <= p
  }

  lemma NothingYet(rules: seq<Rule>, p: Path)
    ensures KnownSoFar(rules, p[..0]) == KnownPaths(rules)
  {}

  lemma {:induction false} LatestKnown(rules: seq<Rule>, p: Path)
    requires Latest(rules, p) != 0
    ensures Known(rules, p)
  {
    var init := rules[..|rules| - 1];
    if rules[|rules| - 1].path == p {
    } else {
      LatestKnown(init, p);
      assert forall i :: 0 <= i < |init| ==> init[i] == rules[i];
    }
  }

  lemma UnknownUntyped(rules: seq<Rule>, p: Path)
    ensures forall q: Path :: q !in KnownSoFar(rules, p) ==> Latest(rules, q) == 0
  {
    forall q: Path | Latest(rules, q) != 0
      ensures q in KnownSoFar(rules, p)
    {
      LatestKnown(rules, q);
    }
  }

  lemma SoFarPrefixClosed(rules: seq<Rule>, p: Path)
    ensures PrefixClosed(KnownSoFar(rules, p))
  {
    KnownPrefixClosed(rules);
    forall q, l | q + [l] in KnownSoFar(rules, p)
      ensures q in KnownSoFar(rules, p)
    {
      assert q <= q + [l];
      assert Known(rules, q + [l]) ==> q + [l] in KnownPaths(rules);
    }
  }

  lemma ExtendKnown(rules: seq<Rule>, p: Path, i: nat)
    requires i < |p|
    ensures p[..i + 1] == p[..i] + [p[i]]
    ensures KnownSoFar(rules, p[..i + 1]) == KnownSoFar(rules, p[..i]) + iset{p[..i] + [p[i]]}
    ensures PrefixClosed(KnownSoFar(rules, p[..i]))
  {
    var far := p[..i + 1];
    forall q: Path | q in KnownSoFar(rules, far)
      ensures q in KnownSoFar(rules, p[..i]) + iset{far}
    {
      if q <= far && |q| <= i {
        assert q == p[..i][..|q|];
        assert q <= p[..i];
      } else if q <= far {
        assert q == far;
      }
    }
    forall q: Path | q in KnownSoFar(rules, p[..i])
      ensures q in KnownSoFar(rules, far)
    {
      assert p[..i] <= far;
    }
    SoFarPrefixClosed(rules, p[..i]);
  }

  lemma InsertedKnown(rules: seq<Rule>, r: Rule)
    ensures KnownSoFar(rules, r.path) == KnownPaths(rules + [r])
  {
    forall p: Path
      ensures Known(rules + [r], p) <==> Known(rules, p) || p <= r.path
    {
      KnownSnoc(rules, r, p);
    }
  }

  class Trie {
    const root: Node
    ghost var nodes: set<Node>

    /** A tree whose nodes are at just the known paths, and are found by descending. */
    ghost predicate Valid(known: iset<Path>)
      reads this, nodes`children
    {
      && root in nodes && root.path == []
      && (forall m, n :: m in nodes && n in nodes && m.path == n.path ==> m == n)
      && (forall n :: n in nodes ==> n.path in known)
      && (forall n, l :: n in nodes ==> (l in n.children <==> n.path + [l] in known))
      && (forall n, l :: n in nodes && l in n.children ==>
           n.children[l] in nodes && n.children[l].path == n.path + [l])
    }

    ghost predicate Typed(rules: seq<Rule>)
      reads this, nodes`typ
    {
      forall n :: n in nodes ==> n.typ == Latest(rules, n.path)
    }

    ghost predicate Holds(rules: seq<Rule>)
      reads this, nodes
    {
      Valid(KnownPaths(rules)) && Typed(rules)
    }

    constructor ()
      ensures Holds([]) && fresh(nodes)
    {
      root := new Node([]);
      new;
      nodes := {root};
    }

    /** `curr[l] = {}`. */
    method Attach(curr: Node, l: Label) returns (child: Node)
      requires curr in nodes
      modifies this`nodes, curr`children
      ensures fresh(child) && child.path == curr.path + [l] && child.typ == 0 && child.children == map[]
      ensures nodes == old(nodes) + {child} && curr.children == old(curr.children)[l := child]
    {
      child := new Node(curr.path + [l]);
      nodes := nodes + {child};
      curr.children := curr.children[l := child];
    }

    /** A fresh child at a path not known before. */
    method AddChild(curr: Node, l: Label, ghost known: iset<Path>, ghost grown: iset<Path>)
      returns (child: Node)
      requires Valid(known) && PrefixClosed(known) && curr in nodes
      requires curr.path + [l] !in known && grown == known + iset{curr.path + [l]}
      modifies this`nodes, curr`children
      ensures Valid(grown)
      ensures child.path == curr.path + [l] && child.typ == 0
      ensures fresh(child) && nodes == old(nodes) + {child}
    {
      Grown(known, grown, curr.path, l);
      child := Attach(curr, l);
    }

    /** `curr[p] = curr[p] || {}`. */
    method Child(curr: Node, l: Label, ghost known: iset<Path>, ghost grown: iset<Path>)
      returns (child: Node)
      requires Valid(known) && PrefixClosed(known) && curr in nodes
      requires grown == known + iset{curr.path + [l]}
      modifies this`nodes, curr`children
      ensures Valid(grown)
      ensures child in nodes && child.path == curr.path + [l]
      ensures old(nodes) <= nodes && fresh(nodes - old(nodes))
      ensures forall n :: n in nodes - old(nodes) ==> n.typ == 0 && n.path !in known
    {
      if l in curr.children {
        child := curr.children[l];
        curr.children := curr.children[l := child];
        assert curr.children == old(curr.children) && grown == known;
      } else {
        child := AddChild(curr, l, known, grown);
      }
    }

    /** Descends from the root along `path`, creating what is missing. */
    method Descend(path: Path, ghost rules: seq<Rule>) returns (curr: Node)
      requires Holds(rules)
      modifies this`nodes, nodes`children
      ensures Valid(KnownSoFar(rules, path)) && Typed(rules)
      ensures curr in nodes && curr.path == path
      ensures old(nodes) <= nodes && fresh(nodes - old(nodes))
    {
      curr := root;
      NothingYet(rules, path);
      for i := 0 to |path|
        invariant Valid(KnownSoFar(rules, path[..i])) && Typed(rules)
        invariant old(nodes) <= nodes && fresh(nodes - old(nodes))
        invariant curr in nodes && curr.path == path[..i]
      {
        ExtendKnown(rules, path, i);
        curr := Child(curr, path[i], KnownSoFar(rules, path[..i]), KnownSoFar(rules, path[..i + 1]));
        UnknownUntyped(rules, path[..i]);
      }
      assert path[..|path|] == path;
    }

    /** One rule: descend, and set the type at the end. */
    method Insert(r: Rule, ghost rules: seq<Rule>)
      requires Holds(rules)
      modifies this`nodes, nodes
      ensures Holds(rules + [r])
      ensures old(nodes) <= nodes && fresh(nodes - old(nodes))
    {
      var curr := Descend(r.path, rules);
      curr.typ := r.typ;
      InsertedKnown(rules, r);
      forall n | n in nodes
        ensures n.typ == Latest(rules + [r], n.path)
      {
        LatestSnoc(rules, r, n.path);
      }
    }
  }
}
