/** A loader and expander for grammars written as lines `L -> p1|p2|...`
    (Quiz3/src/BNF.java). Loading keeps one list of productions per trimmed
    left-hand side; expanding a symbol writes all of its derivations as a
    bracketed list of alternatives, expanding every character of every
    production as a one-character symbol. */
module BnfGrammar {
  import opened Strings

  /** The rule table: left-hand side to its productions, in stored order. */
  type Rules = map<string, seq<string>>

  const Arrow: string := "->"
  const Bar: string := "|"

  // ---------------------------------------------------------------------
  // Reading one line

  /** A line the loader can take: splitting it at `->` leaves a second part.
      Any other line makes the loader index past the end of its parts. */
  predicate Loadable(line: string)
  {
    |Split(line, Arrow)| >= 2
  }

  /** The key a line is stored under: the first part, trimmed. */
  function RuleKey(line: string): string
    requires Loadable(line)
  {
    Trim(Split(line, Arrow)[0])
  }

  /** The productions of a line: its second part split at every `|`. */
  function RuleProductions(line: string): seq<string>
    requires Loadable(line)
  {
    Split(Split(line, Arrow)[1], Bar)
  }

  /** `->` nowhere in `s`. */
  ghost predicate ArrowFree(s: string)
  {
    forall i :: !OccursAt(s, Arrow, i)
  }

  /** An arrow-free left side cannot reach into the arrow that follows it. */
  lemma ArrowFreeBeforeArrow(left: string)
    requires ArrowFree(left)
    ensures forall i :: i < |left| ==> !OccursAt(left + Arrow, Arrow, i)
  {
    forall i | i < |left| ensures !OccursAt(left + Arrow, Arrow, i) {
      if 0 <= i < |left| - 1 {
        assert (left + Arrow)[i..i + 2] == left[i..i + 2];
        assert !OccursAt(left, Arrow, i);
      } else if 0 <= i == |left| - 1 {
        assert (left + Arrow)[i..i + 2][1] == '-';
      }
    }
  }

  /** A line `left->rhs` with no other arrow and a non-empty right side is
      loadable; it is keyed by the trimmed left side, and its productions
      are the right side split at `|`. */
  lemma WellFormedLine(left: string, rhs: string)
    requires ArrowFree(left) && ArrowFree(rhs) && rhs != ""
    ensures Loadable(left + Arrow + rhs)
    ensures RuleKey(left + Arrow + rhs) == Trim(left)
    ensures RuleProductions(left + Arrow + rhs) == Split(rhs, Bar)
  {
    ArrowFreeBeforeArrow(left);
    PiecesAtFirstSeparator(left, Arrow, rhs);
    PiecesWithoutSeparator(rhs, Arrow);
    assert Pieces(left + Arrow + rhs, Arrow) == [left, rhs];
  }

  /** A line without `->` is not loadable. */
  lemma NoArrowNotLoadable(line: string)
    requires ArrowFree(line)
    ensures !Loadable(line)
  {
    PiecesWithoutSeparator(line, Arrow);
  }

  /** A line with nothing after its only `->` is not loadable. */
  lemma NothingAfterArrowNotLoadable(left: string)
    requires ArrowFree(left)
    ensures !Loadable(left + Arrow)
  {
    ArrowFreeBeforeArrow(left);
    PiecesAtFirstSeparator(left, Arrow, "");
    assert left + Arrow + "" == left + Arrow;
    assert Pieces("", Arrow) == [""];
    assert Pieces(left + Arrow, Arrow) == [left, ""];
  }

  /** The table after loading `lines` in order on top of `rules`: each line
      stores its productions under its key, replacing what was there. */
  function LoadAll(rules: Rules, lines: seq<string>): Rules
    requires forall line :: line in lines ==> Loadable(line)
  {
    if |lines| == 0 then rules
    else
      var last := lines[|lines| - 1];
      LoadAll(rules, lines[..|lines| - 1])[RuleKey(last) := RuleProductions(last)]
  }

  /** The keys of the lines, for every line of `lines`. */
  function LineKeys(lines: seq<string>): set<string>
    requires forall line :: line in lines ==> Loadable(line)
  {
    set i | 0 <= i < |lines| :: RuleKey(lines[i])
  }

  /** Loading defines exactly the old keys and the keys of the lines. */
  lemma {:induction false} LoadAllKeys(rules: Rules, lines: seq<string>)
    requires forall line :: line in lines ==> Loadable(line)
    ensures LoadAll(rules, lines).Keys == rules.Keys + LineKeys(lines)
  {
    var n := |lines|;
    if n > 0 {
      LoadAllLast(rules, lines);
      LineKeysLast(lines);
      LoadAllKeys(rules, lines[..n - 1]);
    }
  }

  /** The keys of a non-empty list of lines: those of all but the last,
      and the last line's key. */
  lemma LineKeysLast(lines: seq<string>)
    requires forall line :: line in lines ==> Loadable(line)
    requires |lines| > 0
    ensures forall line :: line in lines[..|lines| - 1] ==> Loadable(line)
    ensures LineKeys(lines) == LineKeys(lines[..|lines| - 1]) + {RuleKey(lines[|lines| - 1])}
  {
    var n := |lines|;
    var init := lines[..n - 1];
    forall k | k in LineKeys(lines) ensures k in LineKeys(init) + {RuleKey(lines[n - 1])} {
      var i :| 0 <= i < n && RuleKey(lines[i]) == k;
      if i < n - 1 {
        assert init[i] == lines[i];
      }
    }
    forall k | k in LineKeys(init) ensures k in LineKeys(lines) {
      var i :| 0 <= i < n - 1 && RuleKey(init[i]) == k;
      assert init[i] == lines[i];
    }
  }

  /** The latest line with a given key decides that key's productions:
      a later line with the same left side replaces an earlier one. */
  lemma {:induction false} LoadAllLatestWins(rules: Rules, lines: seq<string>, i: nat)
    requires forall line :: line in lines ==> Loadable(line)
    requires i < |lines|
    requires forall j :: i < j < |lines| ==> RuleKey(lines[j]) != RuleKey(lines[i])
    ensures RuleKey(lines[i]) in LoadAll(rules, lines)
    ensures LoadAll(rules, lines)[RuleKey(lines[i])] == RuleProductions(lines[i])
  {
    var n := |lines|;
    var init, last := lines[..n - 1], lines[n - 1];
    LoadAllLast(rules, lines);
    var k := RuleKey(lines[i]);
    if i < n - 1 {
      assert init[i] == lines[i];
      assert RuleKey(last) != k;
      assert forall j :: i < j < |init| ==> init[j] == lines[j];
      LoadAllLatestWins(rules, init, i);
      assert LoadAll(rules, init)[k] == RuleProductions(lines[i]);
    } else {
      assert last == lines[i];
    }
  }

  /** Loading a non-empty list of lines is loading all but the last, then
      storing the last. */
  lemma LoadAllLast(rules: Rules, lines: seq<string>)
    requires forall line :: line in lines ==> Loadable(line)
    requires |lines| > 0
    ensures forall line :: line in lines[..|lines| - 1] ==> Loadable(line)
    ensures LoadAll(rules, lines) ==
      LoadAll(rules, lines[..|lines| - 1])[RuleKey(lines[|lines| - 1]) := RuleProductions(lines[|lines| - 1])]
  {
  }

  /** Keys that no line mentions keep their old productions, or stay absent. */
  lemma {:induction false} LoadAllUntouched(rules: Rules, lines: seq<string>, k: string)
    requires forall line :: line in lines ==> Loadable(line)
    requires forall j :: 0 <= j < |lines| ==> RuleKey(lines[j]) != k
    ensures k in LoadAll(rules, lines) <==> k in rules
    ensures k in rules ==> LoadAll(rules, lines)[k] == rules[k]
  {
    var n := |lines|;
    if n > 0 {
      var init := lines[..n - 1];
      assert RuleKey(lines[n - 1]) != k;
      forall j | 0 <= j < |init| ensures RuleKey(init[j]) != k {
        assert init[j] == lines[j];
      }
      LoadAllUntouched(rules, init, k);
    }
  }

  // ---------------------------------------------------------------------
  // Expanding a symbol

  /** Every character of `s` that has a rule of its own ranks below `b`. */
  predicate Below(rules: Rules, rank: map<string, nat>, s: string, b: nat)
  {
    forall i :: 0 <= i < |s| && [s[i]] in rules ==> [s[i]] in rank && rank[[s[i]]] < b
  }

  /** `rank` witnesses that expanding its symbols terminates: every ruled
      character a ranked rule's production mentions is ranked below that
      rule's left side. Rules outside `rank`'s domain are unconstrained, so
      a recursive rule that the expanded symbol never reaches does no harm. */
  predicate WellRanked(rules: Rules, rank: map<string, nat>)
  {
    forall k :: k in rules && k in rank ==>
      forall p :: p in rules[k] ==> Below(rules, rank, p, rank[k])
  }

  /** `sym` can be expanded under `rank`: it has no rule, or it is ranked. */
  predicate Ranked(rules: Rules, rank: map<string, nat>, sym: string)
  {
    sym in rules ==> sym in rank
  }

  /** A symbol that refers to itself through a one-character production
      symbol admits no rank: its expansion never terminates. */
  lemma SelfReferenceHasNoRank(rules: Rules, rank: map<string, nat>, k: string, p: string, i: nat)
    requires k in rules && |k| == 1 && p in rules[k] && i < |p| && p[i] == k[0]
    ensures !(WellRanked(rules, rank) && Ranked(rules, rank, k))
  {
    assert [p[i]] == k;
  }

  /** A recursive rule that the expanded symbol cannot reach does not stop
      its expansion: with `S->a` and `T->T`, `S` still expands to `(a)`. */
  lemma UnreachableRecursionIsHarmless()
    ensures var rules: Rules := map["S" := ["a"], "T" := ["T"]];
      var rank := map["S" := 0];
      WellRanked(rules, rank) && Ranked(rules, rank, "S") &&
      Expand(rules, rank, "S") == "(a)"
  {
    var rules: Rules := map["S" := ["a"], "T" := ["T"]];
    var rank := map["S" := 0];
    assert rules.Keys == {"S", "T"};
    assert "a" != "S" && "a" != "T";
    assert forall p, i :: p in rules["S"] && 0 <= i < |p| ==> [p[i]] == "a";
    assert WellRanked(rules, rank) by {
      forall k | k in rules && k in rank ensures forall p :: p in rules[k] ==> Below(rules, rank, p, rank[k]) {
        assert k == "S";
      }
    }
    TerminalOnlyRule(rules, rank, "S");
    assert Join(["a"], Bar) == "a";
  }

  /** Termination measure of an expansion. */
  function Level(rules: Rules, rank: map<string, nat>, sym: string): nat
    requires Ranked(rules, rank, sym)
  {
    if sym in rules then rank[sym] + 1 else 0
  }

  /** What expanding `sym` yields: `sym` itself when it has no rule;
      otherwise the expansions of its productions between `(` and `)`,
      separated by `|`. A rule with no productions at all leaves only `)`,
      because `generate`'s result buffer loses its `(` when the trailing `|` that
      was never written is removed. */
  function Expand(rules: Rules, rank: map<string, nat>, sym: string): string
    requires WellRanked(rules, rank) && Ranked(rules, rank, sym)
    decreases Level(rules, rank, sym), 2, 0
  {
    if sym !in rules then sym
    else if |rules[sym]| == 0 then ")"
    else "(" + Join(ExpandAll(rules, rank, rules[sym], rank[sym]), Bar) + ")"
  }

  /** The expansions of the productions `ps`, one per production, in order. */
  function ExpandAll(rules: Rules, rank: map<string, nat>, ps: seq<string>, b: nat): (es: seq<string>)
    requires WellRanked(rules, rank)
    requires forall p :: p in ps ==> Below(rules, rank, p, b)
    ensures |es| == |ps|
    ensures forall j :: 0 <= j < |ps| ==> es[j] == ExpandString(rules, rank, ps[j], b)
    decreases b + 1, 1, |ps|
  {
    if |ps| == 0 then []
    else
      var init := ps[..|ps| - 1];
      assert forall p :: p in init ==> p in ps;
      ExpandAll(rules, rank, init, b) + [ExpandString(rules, rank, ps[|ps| - 1], b)]
  }

  /** The expansion of a production: each character expanded as a
      one-character symbol, the results concatenated in order. */
  function ExpandString(rules: Rules, rank: map<string, nat>, s: string, b: nat): string
    requires WellRanked(rules, rank)
    requires Below(rules, rank, s, b)
    decreases b + 1, 0, |s|
  {
    if |s| == 0 then ""
    else
      var c := s[|s| - 1];
      assert Level(rules, rank, [c]) <= b;
      ExpandString(rules, rank, s[..|s| - 1], b) + Expand(rules, rank, [c])
  }

  /** A symbol without a rule expands to itself. */
  lemma ExpandUnknown(rules: Rules, rank: map<string, nat>, sym: string)
    requires WellRanked(rules, rank) && sym !in rules
    ensures Expand(rules, rank, sym) == sym
  {
  }

  /** A symbol with productions `p1..pn` expands to
      `(` + exp(p1) + `|` + ... + `|` + exp(pn) + `)`. */
  lemma ExpandRule(rules: Rules, rank: map<string, nat>, sym: string)
    requires WellRanked(rules, rank) && Ranked(rules, rank, sym) && sym in rules && |rules[sym]| > 0
    ensures var es := ExpandAll(rules, rank, rules[sym], rank[sym]);
      Expand(rules, rank, sym) == "(" + Join(es, Bar) + ")" &&
      |es| == |rules[sym]| &&
      forall j :: 0 <= j < |es| ==> es[j] == ExpandString(rules, rank, rules[sym][j], rank[sym])
  {
  }

  /** A text is below a rank exactly when both its parts are. */
  lemma BelowAppend(rules: Rules, rank: map<string, nat>, s: string, t: string, b: nat)
    ensures Below(rules, rank, s + t, b) <==> Below(rules, rank, s, b) && Below(rules, rank, t, b)
  {
    assert forall i :: 0 <= i < |s| ==> (s + t)[i] == s[i];
    assert forall i :: 0 <= i < |t| ==> (s + t)[|s| + i] == t[i];
  }

  /** Expanding a concatenation concatenates the expansions: a production is
      expanded one character at a time, left to right. */
  lemma {:induction false} ExpandStringAppend(rules: Rules, rank: map<string, nat>, s: string, t: string, b: nat)
    requires WellRanked(rules, rank)
    requires Below(rules, rank, s + t, b)
    ensures Below(rules, rank, s, b) && Below(rules, rank, t, b)
    ensures ExpandString(rules, rank, s + t, b) == ExpandString(rules, rank, s, b) + ExpandString(rules, rank, t, b)
    decreases |t|
  {
    BelowAppend(rules, rank, s, t, b);
    if |t| == 0 {
      assert s + t == s;
    } else {
      var init := t[..|t| - 1];
      assert (s + t)[..|s + t| - 1] == s + init;
      assert t == init + [t[|t| - 1]];
      BelowAppend(rules, rank, init, [t[|t| - 1]], b);
      BelowAppend(rules, rank, s, init, b);
      ExpandStringAppend(rules, rank, s, init, b);
    }
  }

  /** A production none of whose characters has a rule is copied verbatim;
      in particular a multi-character name inside a production is never
      looked up as a whole. */
  lemma {:induction false} ExpandStringLiteral(rules: Rules, rank: map<string, nat>, s: string, b: nat)
    requires WellRanked(rules, rank)
    requires forall i :: 0 <= i < |s| ==> [s[i]] !in rules
    ensures Below(rules, rank, s, b)
    ensures ExpandString(rules, rank, s, b) == s
    decreases |s|
  {
    if |s| > 0 {
      var init, c := s[..|s| - 1], s[|s| - 1];
      assert forall i :: 0 <= i < |init| ==> init[i] == s[i];
      ExpandStringLiteral(rules, rank, init, b);
      assert [c] !in rules;
      assert ExpandString(rules, rank, s, b) == init + Expand(rules, rank, [c]);
      assert init + [c] == s;
    }
  }

  /** If no character of any production of `sym` has a rule, the expansion
      is the productions joined by `|`, between brackets. */
  lemma TerminalOnlyRule(rules: Rules, rank: map<string, nat>, sym: string)
    requires WellRanked(rules, rank) && Ranked(rules, rank, sym) && sym in rules && |rules[sym]| > 0
    requires forall p, i :: p in rules[sym] && 0 <= i < |p| ==> [p[i]] !in rules
    ensures Expand(rules, rank, sym) == "(" + Join(rules[sym], Bar) + ")"
  {
    var ps := rules[sym];
    var es := ExpandAll(rules, rank, ps, rank[sym]);
    forall j | 0 <= j < |ps| ensures es[j] == ps[j] {
      ExpandStringLiteral(rules, rank, ps[j], rank[sym]);
    }
    assert es == ps;
  }

  /** The expansion does not depend on which rank witnesses termination. */
  lemma {:induction false} ExpandRankIrrelevant(rules: Rules, r1: map<string, nat>, r2: map<string, nat>, sym: string)
    requires WellRanked(rules, r1) && WellRanked(rules, r2)
    requires Ranked(rules, r1, sym) && Ranked(rules, r2, sym)
    ensures Expand(rules, r1, sym) == Expand(rules, r2, sym)
    decreases Level(rules, r1, sym), 2, 0
  {
    if sym in rules && |rules[sym]| > 0 {
      ExpandAllRankIrrelevant(rules, r1, r2, rules[sym], r1[sym], r2[sym]);
    }
  }

  lemma {:induction false} ExpandAllRankIrrelevant(rules: Rules, r1: map<string, nat>, r2: map<string, nat>,
                                                   ps: seq<string>, b1: nat, b2: nat)
    requires WellRanked(rules, r1) && WellRanked(rules, r2)
    requires forall p :: p in ps ==> Below(rules, r1, p, b1) && Below(rules, r2, p, b2)
    ensures ExpandAll(rules, r1, ps, b1) == ExpandAll(rules, r2, ps, b2)
    decreases b1 + 1, 1, |ps|
  {
    forall j | 0 <= j < |ps|
      ensures ExpandString(rules, r1, ps[j], b1) == ExpandString(rules, r2, ps[j], b2)
    {
      ExpandStringRankIrrelevant(rules, r1, r2, ps[j], b1, b2);
    }
  }

  lemma {:induction false} ExpandStringRankIrrelevant(rules: Rules, r1: map<string, nat>, r2: map<string, nat>,
                                                      s: string, b1: nat, b2: nat)
    requires WellRanked(rules, r1) && WellRanked(rules, r2)
    requires Below(rules, r1, s, b1) && Below(rules, r2, s, b2)
    ensures ExpandString(rules, r1, s, b1) == ExpandString(rules, r2, s, b2)
    decreases b1 + 1, 0, |s|
  {
    if |s| > 0 {
      var c := s[|s| - 1];
      assert Level(rules, r1, [c]) <= b1;
      ExpandStringRankIrrelevant(rules, r1, r2, s[..|s| - 1], b1, b2);
      ExpandRankIrrelevant(rules, r1, r2, [c]);
    }
  }

  /** One more character of a production adds that character's expansion. */
  lemma ExpandStringStep(rules: Rules, rank: map<string, nat>, s: string, i: nat, b: nat)
    requires WellRanked(rules, rank) && Below(rules, rank, s, b) && i < |s|
    ensures Below(rules, rank, s[..i], b) && Below(rules, rank, s[..i + 1], b)
    ensures Level(rules, rank, [s[i]]) <= b
    ensures ExpandString(rules, rank, s[..i + 1], b) ==
            ExpandString(rules, rank, s[..i], b) + Expand(rules, rank, [s[i]])
  {
    assert s[..i + 1][..i] == s[..i];
  }

  /** One more alternative adds that alternative and a closing `|`. */
  lemma TerminatedStep(es: seq<string>, j: nat)
    requires j < |es|
    ensures Terminated(es[..j + 1], Bar) == Terminated(es[..j], Bar) + es[j] + Bar
  {
    assert es[..j + 1][..j] == es[..j];
  }

  /** Removing the last character of `(` followed by the alternatives, each
      closed by `|`, leaves `(` and the alternatives joined by `|`; with no
      alternatives it removes the `(` itself. */
  lemma CloseAlternatives(es: seq<string>)
    ensures var t := "(" + Terminated(es, Bar);
      |t| > 0 && t[..|t| - 1] == (if |es| == 0 then "" else "(" + Join(es, Bar))
  {
    if |es| > 0 {
      TerminatedIsJoinPlusSep(es, Bar);
      assert "(" + Terminated(es, Bar) == ("(" + Join(es, Bar)) + Bar;
    }
  }

  // ---------------------------------------------------------------------
  // The processor object

  /** The grammar processor: its rule table is filled by `LoadRules` and
      read by `Generate`. */
  class Bnf {
    var rules: Rules

    /** Builds a processor from the lines of a grammar file. */
    constructor (lines: seq<string>)
      requires forall line :: line in lines ==> Loadable(line)
      ensures rules == LoadAll(map[], lines)
    {
      rules := map[];
      new;
      LoadRules(lines);
    }

    /** Stores every line's productions under its key, in line order. */
    method LoadRules(lines: seq<string>)
      requires forall line :: line in lines ==> Loadable(line)
      modifies this
      ensures rules == LoadAll(old(rules), lines)
    {
      for i := 0 to |lines|
        invariant rules == LoadAll(old(rules), lines[..i])
      {
        assert lines[..i + 1][..i] == lines[..i];
        assert lines[i] in lines;
        var parts := Split(lines[i], Arrow);
        var left := Trim(parts[0]);
        var productions := Split(parts[1], Bar);
        rules := rules[left := productions];
      }
      assert lines[..|lines|] == lines;
    }

    /** Expands `nonTerminal` with the loaded rules. */
    method Generate(nonTerminal: string, ghost rank: map<string, nat>) returns (r: string)
      requires WellRanked(rules, rank) && Ranked(rules, rank, nonTerminal)
      ensures r == Expand(rules, rank, nonTerminal)
      decreases Level(rules, rank, nonTerminal), 1
    {
      if nonTerminal !in rules {
        return nonTerminal;
      }
      var productions := rules[nonTerminal];
      ghost var b := rank[nonTerminal];
      ghost var es := ExpandAll(rules, rank, productions, b);
      var result := "(";
      for j := 0 to |productions|
        invariant result == "(" + Terminated(es[..j], Bar)
      {
        var e := GenerateProduction(productions[j], rank, b);
        TerminatedStep(es, j);
        result := result + e + Bar;
      }
      assert es[..|productions|] == es;
      CloseAlternatives(es);
      result := result[..|result| - 1];
      result := result + ")";
      r := result;
    }

    /** The inner loop of `Generate`: expands every character of a production
        as a one-character symbol and concatenates the results in order. */
    method GenerateProduction(production: string, ghost rank: map<string, nat>, ghost b: nat) returns (r: string)
      requires WellRanked(rules, rank) && Below(rules, rank, production, b)
      ensures r == ExpandString(rules, rank, production, b)
      decreases b + 1, 0
    {
      r := "";
      for i := 0 to |production|
        invariant Below(rules, rank, production[..i], b)
        invariant r == ExpandString(rules, rank, production[..i], b)
      {
        ExpandStringStep(rules, rank, production, i, b);
        var sub := Generate([production[i]], rank);
        r := r + sub;
      }
      assert production[..|production|] == production;
    }
  }
}
