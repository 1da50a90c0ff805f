/** The published public-suffix algorithm, stated on the rules themselves, and when the lookup of
    psl/src/_.js meets it. */
module PslReference {
  import opened Positional
  import opened Options
  import opened PslRules
  import opened PslCompress
  import opened PslLookup

  // ---------- the reference: rules, matching, the prevailing rule ----------

  /** A rule matches a host whose labels end in its own; a wildcard needs one label more. */
  ghost predicate Matches(r: Rule, host: Path)
  {
    r.path <= host && (r.typ == WILDCARD ==> |r.path| < |host|)
  }

  /** How many labels of the host are its public suffix if the rule prevails. */
  function SuffixLength(r: Rule): nat
    requires r.path != []
  {
    if r.typ == WILDCARD then |r.path| + 1
    else if r.typ == EXCEPTION then |r.path| - 1
    else |r.path|
  }

  /** The shortest exception rule among the first labels of the host, from `e` labels on. */
  function FirstException(rules: seq<Rule>, host: Path, e: nat): (r: Option<nat>)
    requires 1 <= e <= |host| + 1
    ensures r.Some? ==> e <= r.value <= |host| && Rule(EXCEPTION, host[..r.value]) in rules
    ensures r.Some? ==> forall d :: e <= d < r.value ==> Rule(EXCEPTION, host[..d]) !in rules
    ensures r.None? ==> forall d :: e <= d <= |host| ==> Rule(EXCEPTION, host[..d]) !in rules
    decreases |host| + 1 - e
  {
    if e > |host| then None
    else if Rule(EXCEPTION, host[..e]) in rules then Some(e)
    else FirstException(rules, host, e + 1)
  }

  /** Whether a normal or wildcard rule makes the first `s` labels a suffix. */
  predicate GivesSuffix(rules: seq<Rule>, host: Path, s: nat)
    requires 1 <= s <= |host|
  {
    Rule(NORMAL, host[..s]) in rules || Rule(WILDCARD, host[..s - 1]) in rules
  }

  /** The longest such suffix of at most `s` labels. */
  function LongestMatch(rules: seq<Rule>, host: Path, s: nat): (m: Option<nat>)
    requires s <= |host|
    ensures m.Some? ==> 1 <= m.value <= s
  {
    if s == 0 then None
    else if GivesSuffix(rules, host, s) then Some(s)
    else LongestMatch(rules, host, s - 1)
  }

  lemma {:induction false} LongestMatchIsLongest(rules: seq<Rule>, host: Path, s: nat)
    requires s <= |host|
    ensures var m := LongestMatch(rules, host, s);
      && (m.Some? ==> GivesSuffix(rules, host, m.value))
      && forall k :: (if m.Some? then m.value else 0) < k <= s ==> !GivesSuffix(rules, host, k)
  {
    if s == 0 {
    } else {
      LongestMatchIsLongest(rules, host, s - 1);
    }
  }

  /** The public suffix by the published algorithm: the shortest matching exception prevails, else
      the longest match.  A host that no rule matches has none. */
  function Reference(rules: seq<Rule>, host: Path): Option<nat>
  {
    var exception := FirstException(rules, host, 1);
    if exception.Some? then Some(exception.value - 1) else LongestMatch(rules, host, |host|)
  }

  /** Every rule of the list that matches bounds the reference: an exception from above, and any
      other from below unless an exception prevails. */
  lemma ReferenceIsLongest(rules: seq<Rule>, host: Path, r: Rule)
    requires WellTyped(rules) && r in rules && Matches(r, host)
    ensures Reference(rules, host).Some?
    ensures r.typ == EXCEPTION ==>
      FirstException(rules, host, 1).Some? && Reference(rules, host).value <= SuffixLength(r)
    ensures FirstException(rules, host, 1).None? ==> SuffixLength(r) <= Reference(rules, host).value
  {
    assert r.path == host[..|r.path|];
    if r.typ != EXCEPTION {
      var s := SuffixLength(r);
      assert r.typ == WILDCARD ==> host[..s - 1] == r.path;
      assert GivesSuffix(rules, host, s);
      LongestMatchIsLongest(rules, host, |host|);
    }
  }

  /** A rule of the list that matches and gives this suffix; an exception if any matches. */
  ghost predicate Prevails(rules: seq<Rule>, host: Path, r: Rule, suffix: nat)
  {
    && r in rules && Matches(r, host) && r.path != [] && suffix == SuffixLength(r)
    && (FirstException(rules, host, 1).Some? ==> r.typ == EXCEPTION)
  }

  /** The reference is the suffix some rule of the list gives. */
  lemma ReferenceIsARule(rules: seq<Rule>, host: Path)
    requires WellTyped(rules) && Reference(rules, host).Some?
    ensures exists r :: Prevails(rules, host, r, Reference(rules, host).value)
  {
    LongestMatchIsLongest(rules, host, |host|);
    var s, first := Reference(rules, host).value, FirstException(rules, host, 1);
    var r := if first.Some? then Rule(EXCEPTION, host[..first.value])
      else if Rule(NORMAL, host[..s]) in rules then Rule(NORMAL, host[..s])
      else Rule(WILDCARD, host[..s - 1]);
    assert Prevails(rules, host, r, s);
  }

  ghost predicate Excepted(rules: seq<Rule>, host: Path)
  {
    exists r :: r in rules && r.typ == 3 && r.path <= host
  }

  /** The suffix a rule gives a host, from how it is typed and spelt. */
  ghost predicate Gives(r: Rule, host: Path, suffix: nat)
  {
    || (r.typ == 1 && r.path <= host && suffix == |r.path|)
    || (r.typ == 2 && r.path < host && suffix == |r.path| + 1)
    || (r.typ == 3 && r.path <= host && suffix == |r.path| - 1)
  }

  /** The reference from the rules as they are typed and spelt: the shortest exception whose labels
      the host ends in, less one label; else the longest of the normal rules whose labels it ends
      in and of the wildcards, with a label more, that it goes on after. */
  lemma ReferenceByRules(rules: seq<Rule>, host: Path)
    requires WellTyped(rules)
    ensures var suffix := Reference(rules, host);
      && (forall r :: r in rules && r.typ == 3 && r.path <= host ==> suffix.Some? && suffix.value <= |r.path| - 1)
      && (!Excepted(rules, host) ==>
           && (forall r :: r in rules && r.typ == 1 && r.path <= host ==> suffix.Some? && |r.path| <= suffix.value)
           && (forall r :: r in rules && r.typ == 2 && r.path < host ==> suffix.Some? && |r.path| + 1 <= suffix.value))
      && (suffix.Some? ==>
           exists r :: r in rules && Gives(r, host, suffix.value) && (Excepted(rules, host) <==> r.typ == 3))
  {
    forall r | r in rules && Matches(r, host)
      ensures Reference(rules, host).Some?
      ensures r.typ == EXCEPTION ==>
        FirstException(rules, host, 1).Some? && Reference(rules, host).value <= SuffixLength(r)
      ensures FirstException(rules, host, 1).None? ==> SuffixLength(r) <= Reference(rules, host).value
    {
      ReferenceIsLongest(rules, host, r);
    }
    if FirstException(rules, host, 1).Some? {
      var e := FirstException(rules, host, 1).value;
      assert Rule(EXCEPTION, host[..e]) in rules && host[..e] <= host;
    }
    if Reference(rules, host).Some? {
      ReferenceIsARule(rules, host);
      var r :| Prevails(rules, host, r, Reference(rules, host).value);
    }
  }

  /** When a rule written as `text` matches a host: the host is the text, or ends in a dot and the
      text, and for a wildcard it must be longer. */
  lemma MatchesByText(r: Rule, text: string, whole: string)
    requires r.path == Reverse(Split(text))
    ensures Matches(r, Reverse(Split(whole))) <==>
      && |text| <= |whole| && whole[|whole| - |text|..] == text
      && (|text| < |whole| ==> whole[|whole| - |text| - 1] == '.')
      && (r.typ == 2 ==> text != whole)
  {
    EndByLabels(whole, text);
  }

  // ---------- how the lookup can miss it ----------

  /** The exception that prevails was replaced by a later rule with its labels, and the host has
      labels beyond it. */
  predicate LostException(rules: seq<Rule>, host: Path)
  {
    var e := FirstException(rules, host, 1);
    e.Some? && e.value < |host| && Latest(rules, host[..e.value]) != EXCEPTION
  }

  /** The last rule met stands for a wildcard that it replaced, and the host has labels beyond the
      one the wildcard covers. */
  predicate LostWildcard(rules: seq<Rule>, host: Path)
  {
    var d := LastTyped(rules, host, |host|);
    d > 0 && d + 1 < |host| && Rule(WILDCARD, host[..d]) in rules && Latest(rules, host[..d]) != WILDCARD
  }

  /** The walk passes a wildcard's path and the trie goes on there without meeting another rule,
      while the host has labels beyond the one the wildcard covers. */
  ghost predicate Detour(rules: seq<Rule>, host: Path)
  {
    var d := LastTyped(rules, host, |host|);
    d > 0 && d + 1 < |host| && Latest(rules, host[..d]) == WILDCARD && Known(rules, host[..d + 1])
  }

  /** The host is itself a wildcard's path and nothing else's, with no rule at the label above and
      no wildcard at the one above that, but with some rule further up. */
  predicate BareWildcard(rules: seq<Rule>, host: Path)
  {
    var n := |host|;
    && n >= 3 && Rule(WILDCARD, host) in rules && Rule(NORMAL, host) !in rules
    && Latest(rules, host[..n - 1]) == 0 && Rule(WILDCARD, host[..n - 2]) !in rules
    && LastTyped(rules, host, n - 2) > 0
  }

  /** No way to miss: with an exception only its loss counts, without one the other three. */
  ghost predicate OnCourse(rules: seq<Rule>, host: Path)
  {
    && !LostException(rules, host)
    && (FirstException(rules, host, 1).None? ==>
         !LostWildcard(rules, host) && !Detour(rules, host) && !BareWildcard(rules, host))
  }

  /** The table against the list. */
  lemma TableEntry(rules: seq<Rule>, p: Path)
    requires WellTyped(rules)
    ensures Latest(rules, p) in {0, NORMAL, WILDCARD, EXCEPTION}
    ensures Latest(rules, p) != 0 ==> Rule(Latest(rules, p), p) in rules && p != []
    ensures Latest(rules, p) == 0 ==> forall t :: Rule(t, p) !in rules
  {
    LatestIsARule(rules, p);
  }

  /** With the shortest exception at `e` labels. */
  lemma ExceptedMeets(rules: seq<Rule>, host: Path, e: nat)
    requires WellTyped(rules) && FirstException(rules, host, 1) == Some(e)
    ensures RootLabels(Walked(rules, host), host) == e <==> !LostException(rules, host)
  {
    forall d | 1 <= d < e
      ensures Latest(rules, host[..d]) != EXCEPTION
    {
      TableEntry(rules, host[..d]);
    }
    TableEntry(rules, host[..e]);
    assert e <= LastTyped(rules, host, |host|);
  }

  /** Past the last rule met, only that rule can give a suffix, as a wildcard. */
  lemma GivenBeyond(rules: seq<Rule>, host: Path, d: nat, s: nat)
    requires WellTyped(rules) && d == LastTyped(rules, host, |host|) && d < s <= |host|
    ensures GivesSuffix(rules, host, s) <==> s == d + 1 && Rule(WILDCARD, host[..d]) in rules
  {
    TableEntry(rules, host[..s]);
    TableEntry(rules, host[..s - 1]);
  }

  lemma LongestIs(rules: seq<Rule>, host: Path, s: nat)
    requires 1 <= s <= |host| && GivesSuffix(rules, host, s)
    requires forall k :: s < k <= |host| ==> !GivesSuffix(rules, host, k)
    ensures LongestMatch(rules, host, |host|) == Some(s)
  {
    LongestMatchIsLongest(rules, host, |host|);
  }

  /** The longest match, unless the host is nothing but a wildcard's path, is at the last rule
      met: one label on if there is a wildcard there. */
  lemma MatchAtLast(rules: seq<Rule>, host: Path, d: nat, wild: bool)
    requires WellTyped(rules) && d == LastTyped(rules, host, |host|)
    requires wild <==> d < |host| && Rule(WILDCARD, host[..d]) in rules
    requires d > 0 && !wild ==> Rule(NORMAL, host[..d]) in rules
    ensures LongestMatch(rules, host, |host|) ==
      if d == 0 then None else Some(if wild then d + 1 else d)
  {
    TableEntry(rules, host[..d]);
    assert d == 0 ==> host[..d] == [];
    forall k | d < k <= |host|
      ensures GivesSuffix(rules, host, k) <==> k == d + 1 && wild
    {
      GivenBeyond(rules, host, d, k);
    }
    if d == 0 {
      LongestMatchIsLongest(rules, host, |host|);
    } else {
      LongestIs(rules, host, if wild then d + 1 else d);
    }
  }

  /** No exception of the list is among the first labels. */
  ghost predicate NoException(rules: seq<Rule>, host: Path)
  {
    FirstException(rules, host, 1).None?
  }

  lemma NoExceptionMet(rules: seq<Rule>, host: Path, d: nat)
    requires WellTyped(rules) && NoException(rules, host) && d <= |host|
    ensures Latest(rules, host[..d]) != EXCEPTION
  {
    TableEntry(rules, host[..d]);
    assert d == 0 ==> host[..d] == [];
  }

  lemma MatchIsNear(rules: seq<Rule>, host: Path, s: nat)
    requires 1 <= s <= |host| <= s + 1 && GivesSuffix(rules, host, s)
    ensures var m := LongestMatch(rules, host, |host|); m.Some? && m.value >= s
  {
    LongestMatchIsLongest(rules, host, |host|);
  }

  /** Some suffix of at most `s` labels is given if and only if a rule is met within them, there
      being no wildcard at the last of them. */
  lemma MatchFurtherUp(rules: seq<Rule>, host: Path, s: nat)
    requires WellTyped(rules) && 1 <= s < |host| && NoException(rules, host)
    requires Rule(WILDCARD, host[..s]) !in rules
    ensures (exists k :: 1 <= k <= s && GivesSuffix(rules, host, k)) <==> LastTyped(rules, host, s) > 0
  {
    var t := LastTyped(rules, host, s);
    TableEntry(rules, host[..t]);
    NoExceptionMet(rules, host, t);
    if t > 0 {
      assert GivesSuffix(rules, host, if Rule(NORMAL, host[..t]) in rules then t else t + 1);
    } else {
      forall k | 1 <= k <= s
        ensures !GivesSuffix(rules, host, k)
      {
        TableEntry(rules, host[..k]);
        TableEntry(rules, host[..k - 1]);
        assert k == 1 ==> host[..k - 1] == [];
      }
    }
  }

  lemma MatchIsFar(rules: seq<Rule>, host: Path)
    requires WellTyped(rules) && |host| >= 3 && NoException(rules, host)
    requires Rule(WILDCARD, host[..|host| - 2]) !in rules
    requires !GivesSuffix(rules, host, |host|) && !GivesSuffix(rules, host, |host| - 1)
    ensures var m := LongestMatch(rules, host, |host|);
      (m.Some? && m.value + 1 < |host|) <==> LastTyped(rules, host, |host| - 2) > 0
  {
    LongestMatchIsLongest(rules, host, |host|);
    MatchFurtherUp(rules, host, |host| - 2);
  }

  /** When the host is nothing but a wildcard's path, a match well below it is what
      `BareWildcard` says. */
  lemma MatchUnderBare(rules: seq<Rule>, host: Path)
    requires WellTyped(rules) && NoException(rules, host)
    requires host != [] && Rule(WILDCARD, host) in rules && Rule(NORMAL, host) !in rules
    ensures var m := LongestMatch(rules, host, |host|);
      (m.Some? && m.value + 1 < |host|) <==> BareWildcard(rules, host)
  {
    var n := |host|;
    assert host[..n] == host;
    if n >= 3 {
      TableEntry(rules, host[..n - 1]);
      NoExceptionMet(rules, host, n - 1);
      if Rule(WILDCARD, host[..n - 1]) in rules {
        MatchIsNear(rules, host, n);
      } else if Rule(NORMAL, host[..n - 1]) in rules || Rule(WILDCARD, host[..n - 2]) in rules {
        MatchIsNear(rules, host, n - 1);
      } else {
        MatchIsFar(rules, host);
      }
    }
  }

  /** Without an exception. */
  lemma UnexceptedMeets(rules: seq<Rule>, host: Path)
    requires WellTyped(rules) && NoException(rules, host)
    ensures RootLabels(Walked(rules, host), host) == RootLabels(LongestMatch(rules, host, |host|), host) <==>
      !LostWildcard(rules, host) && !Detour(rules, host) && !BareWildcard(rules, host)
  {
    var n, d := |host|, LastTyped(rules, host, |host|);
    assert host[..n] == host;
    forall k | 0 <= k <= n
      ensures Latest(rules, host[..k]) != EXCEPTION
    {
      NoExceptionMet(rules, host, k);
    }
    TableEntry(rules, host[..d]);
    TableEntry(rules, host);
    if d == n && n > 0 && Rule(NORMAL, host) !in rules {
      MatchUnderBare(rules, host);
    } else {
      MatchAtLast(rules, host, d, d < n && Rule(WILDCARD, host[..d]) in rules);
    }
  }

  /** For every list and host, the lookup keeps the labels the published algorithm keeps if and
      only if none of the four ways to miss applies. */
  lemma LookupMeetsReference(rules: seq<Rule>, host: Path)
    requires WellTyped(rules)
    ensures RootLabels(Walked(rules, host), host) == RootLabels(Reference(rules, host), host)
      <==> OnCourse(rules, host)
  {
    var first := FirstException(rules, host, 1);
    if first.Some? {
      ExceptedMeets(rules, host, first.value);
    } else {
      UnexceptedMeets(rules, host);
    }
  }

  // ---------- which lists are always right ----------

  ghost predicate Meets(rules: seq<Rule>, host: Path)
  {
    RootLabels(Walked(rules, host), host) == RootLabels(Reference(rules, host), host)
  }

  ghost predicate GoesOnUntyped(rules: seq<Rule>, p: Path)
  {
    exists l :: Known(rules, p + [l]) && Latest(rules, p + [l]) == 0
  }

  /** A rule that makes the lookup miss on some host: an exception or a wildcard that a later rule
      replaces, a wildcard whose path goes on through a label without a rule, or a wildcard whose
      own path is missed.  A shorter exception hides any of these. */
  ghost predicate Misleads(rules: seq<Rule>, r: Rule)
    requires r.path != []
  {
    var p := r.path;
    if r.typ == EXCEPTION then
      Latest(rules, p) != EXCEPTION && FirstException(rules, p, 1) == Some(|p|)
    else
      && r.typ == WILDCARD && NoException(rules, p)
      && (Latest(rules, p) != WILDCARD || GoesOnUntyped(rules, p) || BareWildcard(rules, p))
  }

  ghost predicate Straight(rules: seq<Rule>)
    requires WellTyped(rules)
  {
    forall i :: 0 <= i < |rules| ==> !Misleads(rules, rules[i])
  }

  /** A label longer than the last label of every rule. */
  function Fresh(rules: seq<Rule>): (l: Label)
    requires WellTyped(rules)
    ensures l != []
    ensures forall i :: 0 <= i < |rules| ==> |rules[i].path[|rules[i].path| - 1]| < |l|
  {
    if rules == [] then "a"
    else
      var last := rules[|rules| - 1].path;
      Fresh(rules[..|rules| - 1]) + last[|last| - 1]
  }

  lemma FreshUnused(rules: seq<Rule>, p: Path)
    requires WellTyped(rules)
    ensures Latest(rules, p + [Fresh(rules)]) == 0
  {
    var q := p + [Fresh(rules)];
    assert q[|q| - 1] == Fresh(rules);
    LatestIsARule(rules, q);
  }

  /** The exceptions of a host's first labels are exceptions of the host, and the other way round
      when the labels beyond have no rule. */
  lemma FirstExceptionOf(rules: seq<Rule>, host: Path, d: nat)
    requires WellTyped(rules) && d <= |host|
    ensures NoException(rules, host) ==> NoException(rules, host[..d])
    ensures FirstException(rules, host[..d], 1).Some? ==>
      FirstException(rules, host, 1) == FirstException(rules, host[..d], 1)
    ensures FirstException(rules, host, 1) == Some(d) ==> FirstException(rules, host[..d], 1) == Some(d)
    ensures NoException(rules, host[..d]) && (forall k :: d < k <= |host| ==> Latest(rules, host[..k]) == 0)
      ==> NoException(rules, host)
  {
    var p := host[..d];
    assert forall k :: 0 <= k <= d ==> p[..k] == host[..k];
    forall k | d < k <= |host| && Latest(rules, host[..k]) == 0
      ensures Rule(EXCEPTION, host[..k]) !in rules
    {
      TableEntry(rules, host[..k]);
    }
  }

  /** A host that is missed shows a rule that misleads. */
  lemma MissShowsRule(rules: seq<Rule>, host: Path)
    requires WellTyped(rules) && !Meets(rules, host)
    ensures !Straight(rules)
  {
    LookupMeetsReference(rules, host);
    var first, d := FirstException(rules, host, 1), LastTyped(rules, host, |host|);
    assert host[..|host|] == host;
    var n := if first.Some? then first.value else if BareWildcard(rules, host) then |host| else d;
    FirstExceptionOf(rules, host, n);
    TableEntry(rules, host[..n]);
    if first.None? && Detour(rules, host) {
      assert host[..d] + [host[d]] == host[..d + 1];
      assert GoesOnUntyped(rules, host[..d]);
    }
    var r := Rule(if first.Some? then EXCEPTION else WILDCARD, host[..n]);
    assert r in rules && Misleads(rules, r);
  }

  /** Two labels beyond a wildcard that is the last rule met. */
  lemma MissBeyond(rules: seq<Rule>, host: Path, p: Path, l: Label)
    requires WellTyped(rules) && p != [] && host == p + [l, Fresh(rules)]
    requires Rule(WILDCARD, p) in rules && NoException(rules, p) && Latest(rules, p + [l]) == 0
    ensures LastTyped(rules, host, |host|) == |p| && host[..|p|] == p && host[..|p| + 1] == p + [l]
    ensures NoException(rules, host)
  {
    assert host[..|p|] == p && host[..|p| + 1] == p + [l];
    assert host == (p + [l]) + [Fresh(rules)] && host[..|host|] == host;
    FreshUnused(rules, p + [l]);
    TableEntry(rules, p);
    FirstExceptionOf(rules, host, |p|);
  }

  /** A rule that misleads shows a host that is missed. */
  lemma RuleShowsMiss(rules: seq<Rule>, r: Rule) returns (host: Path)
    requires WellTyped(rules) && r in rules && r.path != [] && Misleads(rules, r)
    ensures !Meets(rules, host)
  {
    var p, f := r.path, Fresh(rules);
    if r.typ == EXCEPTION {
      host := p + [f];
      assert host[..|p|] == p;
      FirstExceptionOf(rules, host, |p|);
    } else if Latest(rules, p) != WILDCARD {
      FreshUnused(rules, p);
      host := p + [f, f];
      MissBeyond(rules, host, p, f);
    } else if GoesOnUntyped(rules, p) {
      var l :| Known(rules, p + [l]) && Latest(rules, p + [l]) == 0;
      host := p + [l, f];
      MissBeyond(rules, host, p, l);
    } else {
      host := p;
    }
    LookupMeetsReference(rules, host);
  }

  /** Every lookup on a list is right exactly when no rule of the list misleads. */
  lemma ListsThatMeet(rules: seq<Rule>)
    requires WellTyped(rules)
    ensures (forall host :: Meets(rules, host)) <==> Straight(rules)
  {
    if Straight(rules) {
      forall host
        ensures Meets(rules, host)
      {
        if !Meets(rules, host) {
          MissShowsRule(rules, host);
        }
      }
    } else {
      var i :| 0 <= i < |rules| && Misleads(rules, rules[i]);
      var host := RuleShowsMiss(rules, rules[i]);
    }
  }

  /** Where no path has two types, nothing is lost to a later rule: a detour and a bare wildcard
      are the only ways to miss. */
  lemma ConflictFreeLosesNothing(rules: seq<Rule>, host: Path)
    requires WellTyped(rules) && ConflictFree(rules)
    ensures !LostException(rules, host) && !LostWildcard(rules, host)
  {
    var e, d := FirstException(rules, host, 1), LastTyped(rules, host, |host|);
    if e.Some? {
      TableIsTheList(rules, Rule(EXCEPTION, host[..e.value]));
    }
    TableIsTheList(rules, Rule(WILDCARD, host[..d]));
  }

  // ---------- from the list to the string ----------

  lemma {:induction false} JoinLonger(labels: seq<Label>, k: nat)
    requires k < |labels|
    ensures k > 0 ==> |Join(labels[k..])| < |Join(labels)|
    decreases k
  {
    if k == 0 {
    } else {
      JoinLonger(labels[1..], k - 1);
      assert labels[1..][k - 1..] == labels[k..];
      assert k == 1 ==> labels[1..] == labels[k..];
    }
  }

  /** Domains of different sizes are different strings. */
  lemma DomainsDiffer(parts: seq<Label>, j: nat, k: nat)
    requires j < k < |parts|
    ensures Join(parts[j..]) != Join(parts[k..])
  {
    JoinLonger(parts[j..], k - j);
    assert parts[j..][k - j..] == parts[k..];
  }

  lemma DomainByLabels(parts: seq<Label>, s: nat, t: nat, host: string)
    requires parts != []
    ensures Domain(parts, Some(s), host) == Domain(parts, Some(t), host)
      <==> RootLabels(Some(s), parts) == RootLabels(Some(t), parts)
  {
    var j, k := |parts| - RootLabels(Some(s), parts), |parts| - RootLabels(Some(t), parts);
    if j < k {
      DomainsDiffer(parts, j, k);
    } else if k < j {
      DomainsDiffer(parts, k, j);
    }
  }

  /** The host is a wildcard's path and matches nothing: it comes back whole, but joined again. */
  ghost predicate OnlyItself(rules: seq<Rule>, host: Path)
  {
    Reference(rules, host).None? && LastTyped(rules, host, |host|) > 0
  }

  lemma WalkedNone(rules: seq<Rule>, host: Path)
    requires WellTyped(rules)
    ensures Walked(rules, host).None? <==> LastTyped(rules, host, |host|) == 0
    ensures LastTyped(rules, host, |host|) == 0 ==> Reference(rules, host).None?
  {
    TableEntry(rules, []);
    forall k | 1 <= k <= |host|
      ensures Latest(rules, host[..k]) == 0 ==> Rule(EXCEPTION, host[..k]) !in rules
    {
      TableEntry(rules, host[..k]);
    }
    if LastTyped(rules, host, |host|) == 0 {
      assert host[..0] == [];
      MatchAtLast(rules, host, 0, false);
    }
  }

  lemma OnlyItselfWhole(rules: seq<Rule>, host: Path)
    requires WellTyped(rules) && OnlyItself(rules, host)
    ensures RootLabels(Walked(rules, host), host) == |host|
  {
    var d := LastTyped(rules, host, |host|);
    TableEntry(rules, host[..d]);
    forall k | 0 <= k <= |host|
      ensures Latest(rules, host[..k]) != EXCEPTION
    {
      NoExceptionMet(rules, host, k);
    }
    LongestMatchIsLongest(rules, host, |host|);
    if d < |host| {
      assert GivesSuffix(rules, host, if Rule(NORMAL, host[..d]) in rules then d else d + 1);
    }
  }

  /** The lookup returns the string the published algorithm gives if and only if it is on course
      and, where a wildcard's own name matches nothing, lower-casing leaves the host alone. */
  lemma DomainMeetsReference(rules: seq<Rule>, host: string, lower: string -> string)
    requires WellTyped(rules)
    ensures var parts := Split(lower(host)); var path := Reverse(parts);
      Domain(parts, Walked(rules, path), host) == Domain(parts, Reference(rules, path), host)
      <==> OnCourse(rules, path) && (OnlyItself(rules, path) ==> lower(host) == host)
  {
    var parts := Split(lower(host));
    var path := Reverse(parts);
    var walked, reference := Walked(rules, path), Reference(rules, path);
    JoinSplit(lower(host));
    LookupMeetsReference(rules, path);
    WalkedNone(rules, path);
    assert parts[0..] == parts;
    if walked.Some? && reference.Some? {
      DomainByLabels(parts, walked.value, reference.value, host);
    } else if walked.Some? {
      OnlyItselfWhole(rules, path);
    }
  }

  /** The same on the string alone: it ends the host with one label more than the reference. */
  lemma EndMeetsReference(rules: seq<Rule>, host: string, lower: string -> string)
    requires WellTyped(rules)
    ensures var path := Reverse(Split(lower(host)));
      var root := Domain(Split(lower(host)), Walked(rules, path), host);
      match Reference(rules, path)
      case Some(suffix) => EndsIn(lower(host), root, suffix) <==> OnCourse(rules, path)
      case None => root == host <==> (OnlyItself(rules, path) ==> lower(host) == host)
  {
    var whole, parts := lower(host), Split(lower(host));
    var path := Reverse(parts);
    var walked, reference := Walked(rules, path), Reference(rules, path);
    LookupMeetsReference(rules, path);
    WalkedNone(rules, path);
    if reference.Some? {
      DomainEndsIn(whole, walked.value, host);
      DomainEndsIn(whole, reference.value, host);
    } else if walked.Some? {
      OnlyItselfWhole(rules, path);
      JoinSplit(whole);
      assert parts[0..] == parts;
    }
  }

  /** Generator and lookup together: the list's lines and a host in, a string out. */
  method LookUpInList(lines: seq<string>, allow: set<string>, host: string, lower: string -> string)
    returns (root: string)
    ensures '.' !in host ==> root == host
    ensures '.' in host ==>
      var rules, parts := Accepted(lines, allow, false), Split(lower(host));
      root == Domain(parts, Reference(rules, Reverse(parts)), host)
      <==> OnCourse(rules, Reverse(parts)) && (OnlyItself(rules, Reverse(parts)) ==> lower(host) == host)
    ensures '.' in host ==>
      var rules, path := Accepted(lines, allow, false), Reverse(Split(lower(host)));
      match Reference(rules, path)
      case Some(suffix) => EndsIn(lower(host), root, suffix) <==> OnCourse(rules, path)
      case None => root == host <==> (OnlyItself(rules, path) ==> lower(host) == host)
  {
    ghost var rules := Accepted(lines, allow, false);
    AcceptedWellTyped(lines, allow, false);
    var code := Generate(lines, allow);
    root := RootDomain(code, host, lower, rules);
    DomainMeetsReference(rules, host, lower);
    EndMeetsReference(rules, host, lower);
  }

  // ---------- the default rule ----------

  /** The published algorithm's last resort: a host that no rule matches has its top label for a
      suffix. */
  function WithDefault(suffix: Option<nat>): Option<nat>
  {
    if suffix.None? then Some(1) else suffix
  }

  /** The default rule adds one way to miss: a host of more than two labels that nothing matches
      comes back whole. */
  lemma DefaultRuleMissed(rules: seq<Rule>, host: Path)
    requires WellTyped(rules)
    ensures RootLabels(Walked(rules, host), host) == RootLabels(WithDefault(Reference(rules, host)), host)
      <==> OnCourse(rules, host) && (Reference(rules, host).None? ==> |host| <= 2)
  {
    LookupMeetsReference(rules, host);
    WalkedNone(rules, host);
    if OnlyItself(rules, host) {
      OnlyItselfWhole(rules, host);
    }
  }

  // ---------- inputs that are missed ----------

  lemma LatestOfTwo(r1: Rule, r2: Rule, q: Path)
    ensures Latest([r1, r2], q) == if q == r2.path then r2.typ else if q == r1.path then r1.typ else 0
  {
    assert [r1, r2] == [r1] + [r2] && [r1] == [] + [r1];
    LatestSnoc([r1], r2, q);
    LatestSnoc([], r1, q);
  }

  /** With rules `*.ck` and `c.b.ck`, the walk for `a.b.ck` leaves the wildcard behind and keeps
      two labels where the algorithm keeps three. */
  lemma DetourShows(ck: Label, a: Label, b: Label, c: Label)
    requires a != c
    ensures var rules, host := [Rule(WILDCARD, [ck]), Rule(NORMAL, [ck, b, c])], [ck, b, a];
      && WellTyped(rules) && Detour(rules, host)
      && RootLabels(Walked(rules, host), host) == 2
      && RootLabels(Reference(rules, host), host) == 3
  {
    var r1, r2, host := Rule(WILDCARD, [ck]), Rule(NORMAL, [ck, b, c]), [ck, b, a];
    assert host[..1] == [ck] && host[..2] == [ck, b] && host[..3] == host;
    assert host[2] != r2.path[2];
    LatestOfTwo(r1, r2, host[..1]);
    LatestOfTwo(r1, r2, host[..2]);
    LatestOfTwo(r1, r2, host[..3]);
    assert [r1, r2][0] == r1 && [r1, r2][1] == r2 && host[..2] <= r2.path;
    LongestIs([r1, r2], host, 2);
  }

  /** With rules `ck` and `*.a.b.ck`, looking up `a.b.ck` itself keeps three labels where the
      algorithm keeps two. */
  lemma BareWildcardShows(ck: Label, a: Label, b: Label)
    ensures var rules, host := [Rule(NORMAL, [ck]), Rule(WILDCARD, [ck, b, a])], [ck, b, a];
      && WellTyped(rules) && BareWildcard(rules, host)
      && RootLabels(Walked(rules, host), host) == 3
      && RootLabels(Reference(rules, host), host) == 2
  {
    var r1, r2, host := Rule(NORMAL, [ck]), Rule(WILDCARD, [ck, b, a]), [ck, b, a];
    assert host[..1] == [ck] && host[..2] == [ck, b] && host[..3] == host;
    LatestOfTwo(r1, r2, host[..1]);
    LatestOfTwo(r1, r2, host[..2]);
    LatestOfTwo(r1, r2, host[..3]);
    assert [r1, r2][0] == r1 && [r1, r2][1] == r2;
    LongestIs([r1, r2], host, 1);
  }

  /** With rules `*.b.ck` and then `b.ck`, the wildcard is lost: `x.a.b.ck` keeps three labels
      where the algorithm keeps four. */
  lemma LostWildcardShows(ck: Label, b: Label, a: Label, x: Label)
    ensures var rules, host := [Rule(WILDCARD, [ck, b]), Rule(NORMAL, [ck, b])], [ck, b, a, x];
      && WellTyped(rules) && LostWildcard(rules, host)
      && RootLabels(Walked(rules, host), host) == 3
      && RootLabels(Reference(rules, host), host) == 4
  {
    var r1, r2, host := Rule(WILDCARD, [ck, b]), Rule(NORMAL, [ck, b]), [ck, b, a, x];
    assert host[..1] == [ck] && host[..2] == [ck, b] && host[..3] == [ck, b, a] && host[..4] == host;
    LatestOfTwo(r1, r2, host[..1]);
    LatestOfTwo(r1, r2, host[..2]);
    LatestOfTwo(r1, r2, host[..3]);
    LatestOfTwo(r1, r2, host[..4]);
    assert [r1, r2][0] == r1 && [r1, r2][1] == r2;
    LongestIs([r1, r2], host, 3);
  }

  /** With rules `!b.ck` and then `*.b.ck`, the exception is lost: `x.a.b.ck` keeps four labels
      where the algorithm keeps two. */
  lemma LostExceptionShows(ck: Label, b: Label, a: Label, x: Label)
    ensures var rules, host := [Rule(EXCEPTION, [ck, b]), Rule(WILDCARD, [ck, b])], [ck, b, a, x];
      && WellTyped(rules) && LostException(rules, host)
      && RootLabels(Walked(rules, host), host) == 4
      && RootLabels(Reference(rules, host), host) == 2
  {
    var r1, r2, host := Rule(EXCEPTION, [ck, b]), Rule(WILDCARD, [ck, b]), [ck, b, a, x];
    assert host[..1] == [ck] && host[..2] == [ck, b] && host[..3] == [ck, b, a] && host[..4] == host;
    LatestOfTwo(r1, r2, host[..1]);
    LatestOfTwo(r1, r2, host[..2]);
    LatestOfTwo(r1, r2, host[..3]);
    LatestOfTwo(r1, r2, host[..4]);
    assert [r1, r2][0] == r1 && [r1, r2][1] == r2;
    assert !Known([r1, r2], host[..3]);
  }
}
