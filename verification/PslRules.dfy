/** Public-suffix rules as psl/gen.js reads them, and the table a list of rules stands for. */
module PslRules {
  import opened Positional

  type Label = string
  /** Labels from the top-level domain down. */
  type Path = seq<Label>

  const NORMAL := 1
  const WILDCARD := 2
  const EXCEPTION := 3

  datatype Rule = Rule(typ: nat, path: Path)

  const BEGIN_ICANN := "// ===BEGIN ICANN DOMAINS==="
  const END_ICANN := "// ===END ICANN DOMAINS==="

  // ---------- text ----------

  /** `s.split(".")`. */
  function Split(s: string): (labels: seq<Label>)
    ensures labels != []
  {
    if s == [] then [""]
    else
      var rest := Split(s[1..]);
      if s[0] == '.' then [""] + rest else [[s[0]] + rest[0]] + rest[1..]
  }

  /** `labels.join(".")`. */
  function Join(labels: seq<Label>): string
  {
    if labels == [] then ""
    else if |labels| == 1 then labels[0]
    else labels[0] + "." + Join(labels[1..])
  }

  lemma JoinGlued(c: char, labels: seq<Label>)
    requires labels != []
    ensures Join([[c] + labels[0]] + labels[1..]) == [c] + Join(labels)
  {
    var glued := [[c] + labels[0]] + labels[1..];
    assert glued[1..] == labels[1..];
    var more := "." + Join(labels[1..]);
    assert ([c] + labels[0]) + more == [c] + (labels[0] + more);
    assert labels[0] + "." + Join(labels[1..]) == labels[0] + more;
    assert glued[0] + "." + Join(labels[1..]) == glued[0] + more;
  }

  lemma {:induction false} JoinSplit(s: string)
    ensures Join(Split(s)) == s
    ensures forall i :: 0 <= i < |Split(s)| ==> '.' !in Split(s)[i]
    ensures '.' in s <==> |Split(s)| > 1
  {
    if s == [] {
    } else {
      var rest := Split(s[1..]);
      JoinSplit(s[1..]);
      assert s == [s[0]] + s[1..];
      if s[0] == '.' {
        assert Split(s)[1..] == rest && "" + "." + Join(rest) == ['.'] + Join(rest);
      } else {
        JoinGlued(s[0], rest);
      }
    }
  }

  /** Joining labels without dots and splitting again is the identity, too. */
  lemma {:induction false} SplitJoin(labels: seq<Label>)
    requires labels != [] && forall i :: 0 <= i < |labels| ==> '.' !in labels[i]
    ensures Split(Join(labels)) == labels
    decreases |labels|, if labels == [] then 0 else |labels[0]|
  {
    var first, rest := labels[0], labels[1..];
    if first == "" {
      if rest == [] {
        assert labels == [""];
      } else {
        SplitJoin(rest);
        var s := Join(labels);
        assert s == "" + "." + Join(rest) == ['.'] + Join(rest);
        assert s[1..] == Join(rest);
        assert labels == [""] + rest;
      }
    } else {
      var shorter := [first[1..]] + rest;
      assert '.' !in first && forall c :: c in first[1..] ==> c in first;
      assert forall i :: 0 < i < |labels| ==> shorter[i] == labels[i];
      SplitJoin(shorter);
      JoinGlued(first[0], shorter);
      assert [first[0]] + first[1..] == first && shorter[1..] == rest;
      assert [[first[0]] + shorter[0]] + shorter[1..] == labels;
      var s := Join(labels);
      assert s == [first[0]] + Join(shorter) && s[1..] == Join(shorter);
      assert first[0] in first;
    }
  }

  lemma Glue(a: string, b: string, c: string)
    ensures a + "." + (b + "." + c) == (a + "." + b) + "." + c
  {}

  lemma {:induction false} JoinConcat(labels: seq<Label>, more: seq<Label>)
    requires labels != [] && more != []
    ensures Join(labels + more) == Join(labels) + "." + Join(more)
  {
    var all, rest := labels + more, labels[1..];
    assert all[0] == labels[0];
    if |labels| == 1 {
      assert all[1..] == more;
    } else {
      assert all[1..] == rest + more;
      JoinConcat(rest, more);
      Glue(labels[0], Join(rest), Join(more));
    }
  }

  lemma SplitAtDot(a: string, b: string)
    ensures Split(a + "." + b) == Split(a) + Split(b)
  {
    JoinSplit(a);
    JoinSplit(b);
    JoinConcat(Split(a), Split(b));
    SplitJoin(Split(a) + Split(b));
  }

  /** The rule an accepted line stands for. */
  function ParseRule(line: string): (r: Rule)
    ensures r.path != [] && NORMAL <= r.typ <= EXCEPTION
  {
    if "!" <= line then Rule(EXCEPTION, Reverse(Split(line[1..])))
    else if "*." <= line then Rule(WILDCARD, Reverse(Split(line[2..])))
    else Rule(NORMAL, Reverse(Split(line)))
  }

  function Mark(typ: nat): string
  {
    if typ == EXCEPTION then "!" else if typ == WILDCARD then "*." else ""
  }

  /** A rule as the list writes it. */
  function Written(r: Rule): string
  {
    Mark(r.typ) + Join(Reverse(r.path))
  }

  lemma WrittenText(typ: nat, text: string)
    ensures Written(Rule(typ, Reverse(Split(text)))) == Mark(typ) + text
  {
    ReverseTwice(Split(text));
    JoinSplit(text);
  }

  /** Nothing of a line is lost in reading it. */
  lemma ParseRuleExact(line: string)
    ensures Written(ParseRule(line)) == line
  {
    if "!" <= line {
      WrittenText(EXCEPTION, line[1..]);
    } else if "*." <= line {
      WrittenText(WILDCARD, line[2..]);
    } else {
      WrittenText(NORMAL, line);
    }
  }

  lemma StartsWith(line: string)
    ensures "!" <= line <==> |line| >= 1 && line[0] == '!'
    ensures "*." <= line <==> |line| >= 2 && line[0] == '*' && line[1] == '.'
    ensures "//" <= line <==> |line| >= 2 && line[0] == '/' && line[1] == '/'
  {}

  lemma ReversedText(text: string)
    ensures Join(Reverse(Reverse(Split(text)))) == text
    ensures forall i :: 0 <= i < |Split(text)| ==> '.' !in Reverse(Split(text))[i]
  {
    ReverseTwice(Split(text));
    JoinSplit(text);
  }

  /** The rule of a line, by its characters: an exception starts with an exclamation mark, a
      wildcard with an asterisk and a dot, and the labels are those of what follows. */
  lemma ParseRuleByChars(line: string)
    ensures var r := ParseRule(line);
      && (r.typ == 3 <==> |line| >= 1 && line[0] == '!')
      && (r.typ == 2 <==> |line| >= 2 && line[0] == '*' && line[1] == '.')
      && (r.typ == 3 || r.typ == 2 || r.typ == 1)
      && Join(Reverse(r.path)) == line[if r.typ == 3 then 1 else if r.typ == 2 then 2 else 0..]
      && forall i :: 0 <= i < |r.path| ==> '.' !in r.path[i]
  {
    StartsWith(line);
    if "!" <= line {
      ReversedText(line[1..]);
    } else if "*." <= line {
      ReversedText(line[2..]);
    } else {
      assert line[0..] == line;
      ReversedText(line);
    }
  }

  predicate Skipped(line: string, allow: set<string>, icann: bool)
  {
    line == "" || "//" <= line || (!icann && line !in allow)
  }

  /** Whether the lines after this one are in the ICANN section. */
  predicate NextSection(line: string, icann: bool)
  {
    line == BEGIN_ICANN || (icann && line != END_ICANN)
  }

  /** The rule of one trimmed line, if it is kept. */
  function AcceptedLine(line: string, allow: set<string>, icann: bool): seq<Rule>
  {
    if line == BEGIN_ICANN || Skipped(line, allow, icann && line != END_ICANN) then [] else [ParseRule(line)]
  }

  /** The rules of a list: those of the ICANN section, and the private ones that are allowed. */
  function Accepted(lines: seq<string>, allow: set<string>, icann: bool): (rules: seq<Rule>)
    ensures |rules| <= |lines|
  {
    if lines == [] then []
    else AcceptedLine(lines[0], allow, icann) + Accepted(lines[1..], allow, NextSection(lines[0], icann))
  }

  lemma AcceptedCons(rules: seq<Rule>, line: string, later: seq<string>, allow: set<string>, icann: bool)
    ensures rules + Accepted([line] + later, allow, icann)
      == (rules + AcceptedLine(line, allow, icann)) + Accepted(later, allow, NextSection(line, icann))
  {
    assert ([line] + later)[1..] == later;
  }

  ghost predicate NoEnd(lines: seq<string>, from: nat, to: nat)
    requires to <= |lines|
  {
    forall k :: from <= k < to ==> lines[k] != END_ICANN
  }

  /** Line `i` comes after a begin marker with no end marker in between. */
  ghost predicate InIcann(lines: seq<string>, i: nat)
    requires i <= |lines|
  {
    exists j :: 0 <= j < i && lines[j] == BEGIN_ICANN && NoEnd(lines, j + 1, i)
  }

  ghost predicate IsRuleLine(line: string)
  {
    line != "" && !("//" <= line)
  }

  function SectionAfter(lines: seq<string>, icann: bool): bool
  {
    if lines == [] then icann else SectionAfter(lines[1..], NextSection(lines[0], icann))
  }

  lemma MarkersApart()
    ensures BEGIN_ICANN != END_ICANN && "//" <= BEGIN_ICANN && "//" <= END_ICANN
  {
    assert BEGIN_ICANN[6] == 'B' && END_ICANN[6] == 'E';
  }

  lemma {:induction false} SectionAfterIs(lines: seq<string>, icann: bool)
    ensures SectionAfter(lines, icann) <==>
      InIcann(lines, |lines|) || (icann && NoEnd(lines, 0, |lines|))
  {
    if lines == [] {
    } else {
      var rest, next := lines[1..], NextSection(lines[0], icann);
      SectionAfterIs(rest, next);
      assert forall k :: 0 <= k < |rest| ==> rest[k] == lines[k + 1];
      MarkersApart();
      if InIcann(rest, |rest|) {
        var j :| 0 <= j < |rest| && rest[j] == BEGIN_ICANN && NoEnd(rest, j + 1, |rest|);
        assert lines[j + 1] == BEGIN_ICANN && NoEnd(lines, j + 2, |lines|);
      }
      if InIcann(lines, |lines|) {
        var j :| 0 <= j < |lines| && lines[j] == BEGIN_ICANN && NoEnd(lines, j + 1, |lines|);
        assert j > 0 ==> rest[j - 1] == BEGIN_ICANN && NoEnd(rest, j, |rest|);
        assert j == 0 ==> NoEnd(rest, 0, |rest|);
      }
      assert NoEnd(rest, 0, |rest|) && lines[0] != END_ICANN ==> NoEnd(lines, 0, |lines|);
      assert NoEnd(rest, 0, |rest|) && lines[0] == BEGIN_ICANN ==> NoEnd(lines, 1, |lines|);
      assert NoEnd(lines, 0, |lines|) ==> NoEnd(rest, 0, |rest|);
    }
  }

  lemma {:induction false} AcceptedAppend(lines: seq<string>, line: string, allow: set<string>, icann: bool)
    ensures Accepted(lines + [line], allow, icann)
      == Accepted(lines, allow, icann) + AcceptedLine(line, allow, SectionAfter(lines, icann))
  {
    var all := lines + [line];
    if lines == [] {
      assert all == [line] && all[1..] == [];
    } else {
      assert all[0] == lines[0] && all[1..] == lines[1..] + [line];
      var next := NextSection(lines[0], icann);
      AcceptedAppend(lines[1..], line, allow, next);
      var first, middle := AcceptedLine(lines[0], allow, icann), Accepted(lines[1..], allow, next);
      var last := AcceptedLine(line, allow, SectionAfter(lines[1..], next));
      assert first + (middle + last) == (first + middle) + last;
    }
  }

  lemma InIcannIs(lines: seq<string>)
    ensures InIcann(lines, |lines|) <==> exists j ::
      && 0 <= j < |lines| && lines[j] == "// ===BEGIN ICANN DOMAINS==="
      && forall k :: j < k < |lines| ==> lines[k] != "// ===END ICANN DOMAINS==="
  {
    if j :| 0 <= j < |lines| && lines[j] == BEGIN_ICANN && forall k :: j < k < |lines| ==> lines[k] != END_ICANN {
      assert NoEnd(lines, j + 1, |lines|);
    }
  }

  /** Which lines become rules, in order: those that are not empty, do not start with two slashes,
      and stand in the ICANN section, after its begin marker with no end marker in between, or are
      allowed. */
  lemma AcceptedExactly(lines: seq<string>, line: string, allow: set<string>)
    ensures var icann := exists j ::
        && 0 <= j < |lines| && lines[j] == "// ===BEGIN ICANN DOMAINS==="
        && forall k :: j < k < |lines| ==> lines[k] != "// ===END ICANN DOMAINS===";
      var comment := |line| >= 2 && line[0] == '/' && line[1] == '/';
      Accepted(lines + [line], allow, false) == Accepted(lines, allow, false) +
        if line != "" && !comment && (icann || line in allow) then [ParseRule(line)] else []
  {
    AcceptedAppend(lines, line, allow, false);
    SectionAfterIs(lines, false);
    InIcannIs(lines);
    StartsWith(line);
  }

  // ---------- the table ----------

  /** The type at a path: that of the last rule with this path, or 0. */
  function Latest(rules: seq<Rule>, p: Path): nat
  {
    if rules == [] then 0
    else if rules[|rules| - 1].path == p then rules[|rules| - 1].typ
    else Latest(rules[..|rules| - 1], p)
  }

  /** Whether a path leads to, or on the way to, a rule. */
  ghost predicate Known(rules: seq<Rule>, p: Path)
  {
    p == [] || exists i :: 0 <= i < |rules| && p <= rules[i].path
  }

  ghost predicate WellTyped(rules: seq<Rule>)
  {
    forall i :: 0 <= i < |rules| ==> rules[i].path != [] && NORMAL <= rules[i].typ <= EXCEPTION
  }

  lemma {:induction false} AcceptedWellTyped(lines: seq<string>, allow: set<string>, icann: bool)
    ensures WellTyped(Accepted(lines, allow, icann))
  {
    if lines == [] {
    } else {
      AcceptedWellTyped(lines[1..], allow, NextSection(lines[0], icann));
    }
  }

  /** A non-zero entry comes from a rule, and only paths of rules have one. */
  lemma {:induction false} LatestIsARule(rules: seq<Rule>, p: Path)
    requires WellTyped(rules)
    ensures Latest(rules, p) != 0 <==> exists i :: 0 <= i < |rules| && rules[i].path == p
    ensures Latest(rules, p) != 0 ==> Rule(Latest(rules, p), p) in rules && p != [] && Latest(rules, p) <= EXCEPTION
  {
    if rules == [] {
    } else {
      var init, last := rules[..|rules| - 1], rules[|rules| - 1];
      LatestIsARule(init, p);
      assert forall i :: 0 <= i < |init| ==> init[i] == rules[i];
      if last.path == p {
        assert last in rules;
      }
    }
  }

  /** Rules with one path agree on the type. */
  ghost predicate ConflictFree(rules: seq<Rule>)
  {
    forall i, j :: 0 <= i < |rules| && 0 <= j < |rules| && rules[i].path == rules[j].path ==> rules[i] == rules[j]
  }

  /** When rules with one path agree on the type, the table says exactly which rules there are. */
  lemma TableIsTheList(rules: seq<Rule>, r: Rule)
    requires WellTyped(rules)
    requires ConflictFree(rules)
    ensures r in rules <==> r.typ != 0 && Latest(rules, r.path) == r.typ
  {
    LatestIsARule(rules, r.path);
    if r in rules {
      var i :| 0 <= i < |rules| && rules[i] == r;
      var j :| 0 <= j < |rules| && rules[j] == Rule(Latest(rules, r.path), r.path);
    }
  }

  lemma LatestSnoc(rules: seq<Rule>, r: Rule, p: Path)
    ensures Latest(rules + [r], p) == if p == r.path then r.typ else Latest(rules, p)
  {
    assert (rules + [r])[..|rules|] == rules;
  }

  lemma KnownSnoc(rules: seq<Rule>, r: Rule, p: Path)
    ensures Known(rules + [r], p) <==> Known(rules, p) || p <= r.path
  {
    var more := rules + [r];
    assert more[|rules|] == r;
    assert forall i :: 0 <= i < |rules| ==> more[i] == rules[i];
  }

  /** Every leaf of the trie has a type: an untyped known path goes on. */
  lemma {:induction false} UntypedGoesOn(rules: seq<Rule>, p: Path)
    requires WellTyped(rules) && Known(rules, p) && p != [] && Latest(rules, p) == 0
    ensures exists l :: Known(rules, p + [l])
  {
    var i :| 0 <= i < |rules| && p <= rules[i].path;
    LatestIsARule(rules, p);
    var q := rules[i].path;
    assert p != q;
    assert p + [q[|p|]] <= q;
    assert Known(rules, p + [q[|p|]]);
  }
}
