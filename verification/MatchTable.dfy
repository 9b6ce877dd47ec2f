/** The rule table and the selection of the best matching rule (src/routing/match_table.c). */
module MatchTable {
  import opened Bytes
  import opened Frames
  import opened RuleLexer
  import opened RuleParser
  import opened RuleBytecode
  import opened RuleCompiler
  import opened RouteVm

  datatype MatchRule = MatchRule(name: string, priority: int32, code: Bytecode)

  datatype MatchResult = MatchResult(name: string, priority: int32, score: int32)

  /** A rule as a value: its name, its priority and the bytes of its program. */
  datatype RuleView = RuleView(name: string, priority: int32, code: seq<byte>)

  const INT32_MAX: int := 0x7fff_ffff

  /** The score of a rule: the C addition must not overflow, which is undefined. */
  function Score(rule: RuleView, f: Frame): int {
    rule.priority + f.priority
  }

  /** Only the rules that match have their score computed. */
  ghost predicate ScoresFit(rules: seq<RuleView>, f: Frame) {
    forall i :: 0 <= i < |rules| && Matches(rules[i].code, f) ==> Score(rules[i], f) <= INT32_MAX
  }

  /** Which rules accept the frame. */
  function Hits(rules: seq<RuleView>, f: Frame): (h: seq<bool>)
    ensures |h| == |rules|
  {
    seq(|rules|, i requires 0 <= i < |rules| => Matches(rules[i].code, f))
  }

  function Scores(rules: seq<RuleView>, f: Frame): (s: seq<int>)
    ensures |s| == |rules|
  {
    seq(|rules|, i requires 0 <= i < |rules| => Score(rules[i], f))
  }

  /** Among the first `n` rules, `w` is the earliest of the hits of greatest score. */
  ghost predicate Leads(hits: seq<bool>, scores: seq<int>, n: nat, w: nat)
    requires n <= |hits| == |scores|
  {
    w < n && hits[w] &&
    forall j :: 0 <= j < n && hits[j] ==> scores[j] <= scores[w] && (j < w ==> scores[j] < scores[w])
  }

  ghost predicate Wins(hits: seq<bool>, scores: seq<int>, w: nat)
    requires |hits| == |scores|
  {
    Leads(hits, scores, |hits|, w)
  }

  ghost predicate NoHit(hits: seq<bool>, n: nat)
    requires n <= |hits|
  {
    forall j :: 0 <= j < n ==> !hits[j]
  }

  ghost predicate TwoHits(hits: seq<bool>, n: nat)
    requires n <= |hits|
  {
    exists i, j :: 0 <= i < j < n && hits[i] && hits[j]
  }

  lemma Advance(hits: seq<bool>, scores: seq<int>, n: nat, w: nat)
    requires n < |hits| == |scores|
    ensures !hits[n] && Leads(hits, scores, n, w) ==> Leads(hits, scores, n + 1, w)
    ensures hits[n] && Leads(hits, scores, n, w) ==> Leads(hits, scores, n + 1, if scores[n] > scores[w] then n else w)
    ensures hits[n] && NoHit(hits, n) ==> Leads(hits, scores, n + 1, n)
  {
  }

  /** The result recorded for a rule. */
  function ResultOf(rule: RuleView, f: Frame): MatchResult
    requires Score(rule, f) <= INT32_MAX
  {
    MatchResult(Cut(rule.name), rule.priority, Score(rule, f))
  }

  class Table {
    var rules: seq<MatchRule>
    var capacity: nat

    /** The programs of the rules; no two rules share one. */
    ghost var programs: set<Bytecode>

    ghost predicate Valid()
      reads this
    {
      |rules| <= capacity &&
      (forall i :: 0 <= i < |rules| ==> rules[i].code in programs) &&
      forall i, j :: 0 <= i < j < |rules| ==> rules[i].code != rules[j].code
    }

    ghost function View(): (v: seq<RuleView>)
      requires Valid()
      reads this, programs
      ensures |v| == |rules|
    {
      seq(|rules|, i requires 0 <= i < |rules| reads this, programs requires Valid() =>
        RuleView(rules[i].name, rules[i].priority, rules[i].code.code))
    }

    constructor ()
      ensures Valid() && View() == [] && programs == {}
    {
      rules, capacity, programs := [], 0, {};
    }

    method Add(name: cstring, priority: int32, code: Bytecode) returns (rc: Status)
      requires Valid()
      modifies this
      ensures rc == OK && Valid() && fresh(programs - old(programs))
      ensures View() == old(View()) + [RuleView(Cut(name), priority, code.code)]
      ensures capacity == if |old(rules)| < old(capacity) then old(capacity)
                          else if old(capacity) > 0 then 2 * old(capacity) else 4
    {
      if |rules| == capacity {
        capacity := if capacity > 0 then capacity * 2 else 4;
      }
      var copy;
      rc, copy := code.Clone();
      rules := rules + [MatchRule(Cut(name), priority, copy)];
      programs := programs + {copy};
    }

    /** The result is the winner's, or nothing matched and `*out` keeps its old value.

        C keeps `best` as a pointer into a block that `realloc` replaces at each match. `stale` says
        that it was read after its block had been replaced, which happens exactly when a second rule
        matches; the result is then the one C gives if the old block still reads the same. */
    method Evaluate(f: Frame, prior: MatchResult) returns (rc: Status, out: MatchResult, ghost stale: bool)
      requires Valid() && ScoresFit(View(), f)
      ensures rc == OK || (rc == NotFound && out == prior)
      ensures rc == NotFound <==> NoHit(Hits(View(), f), |View()|)
      ensures rc == OK ==> exists w: nat :: Wins(Hits(View(), f), Scores(View(), f), w) && out == ResultOf(View()[w], f)
      ensures stale <==> TwoHits(Hits(View(), f), |View()|)
    {
      hide Run, Leads, NoHit, TwoHits, View, Hits, Scores, Cut, Valid;
      ghost var view, hits, scores := View(), Hits(View(), f), Scores(View(), f);
      var results: seq<MatchResult> := [];
      var best := -1;
      ghost var w: nat := 0;
      ghost var block, bestBlock := 0, 0;
      stale := false;
      NothingYet(hits);
      for i := 0 to |rules|
        invariant Valid() && View() == view
        invariant if best == -1 then results == [] && NoHit(hits, i)
                  else 0 <= best < |results| && Leads(hits, scores, i, w)
        invariant best != -1 ==> w < |view| && Score(view[w], f) <= INT32_MAX && results[best] == ResultOf(view[w], f)
        invariant best != -1 ==> forall k :: 0 <= k < |results| ==> results[k].score <= results[best].score
        invariant bestBlock <= block && (stale || best == -1 || bestBlock == block)
        invariant stale <==> TwoHits(hits, i)
      {
        Advance(hits, scores, i, w);
        HitStep(hits, i);
        if best != -1 { LeaderIsHit(hits, scores, i, w); }
        At(i, f);
        if best != -1 { At(w, f); }
        var status, matched := RouteVm.Evaluate(rules[i].code, f);
        if status != OK || !matched {
          continue;
        }
        stale := stale || (best != -1 && bestBlock != block);
        if best != -1 && rules[i].priority > results[best].score {
          best, bestBlock := |results| - 1, block;
        }
        block := block + 1;
        var score: int32 := rules[i].priority + f.priority;
        results := results + [MatchResult(Cut(rules[i].name), rules[i].priority, score)];
        stale := stale || (best != -1 && bestBlock != block);
        if best == -1 || score > results[best].score {
          best, bestBlock := |results| - 1, block;
          w := i;
        }
      }
      if best == -1 {
        return NotFound, prior, stale;
      }
      stale := stale || bestBlock != block;
      LeaderIsHit(hits, scores, |hits|, w);
      return OK, results[best], stale;
    }

    lemma At(i: nat, f: Frame)
      requires Valid() && i < |rules|
      ensures View()[i] == RuleView(rules[i].name, rules[i].priority, rules[i].code.code)
      ensures Hits(View(), f)[i] == Matches(rules[i].code.code, f)
      ensures Scores(View(), f)[i] == rules[i].priority + f.priority
    {
      hide Matches;
    }
  }

  lemma NothingYet(hits: seq<bool>)
    ensures NoHit(hits, 0) && !TwoHits(hits, 0)
  {
  }

  lemma HitStep(hits: seq<bool>, n: nat)
    requires n < |hits|
    ensures NoHit(hits, n + 1) <==> NoHit(hits, n) && !hits[n]
    ensures TwoHits(hits, n + 1) <==> TwoHits(hits, n) || (hits[n] && !NoHit(hits, n))
  {
  }

  lemma LeaderIsHit(hits: seq<bool>, scores: seq<int>, n: nat, w: nat)
    requires n <= |hits| == |scores| && Leads(hits, scores, n, w)
    ensures !NoHit(hits, n)
    ensures n == |hits| ==> Wins(hits, scores, w)
  {
  }

  // ----- the table and the meaning of its rules -----

  /** Every rule of the table was compiled from the record beside it. */
  ghost predicate CompiledFrom(rules: seq<RuleView>, asts: seq<RuleAst>) {
    |rules| == |asts| && forall i :: 0 <= i < |rules| ==> Compiled(asts[i]) == (OK, rules[i].code)
  }

  function Meanings(asts: seq<RuleAst>, f: Frame): (h: seq<bool>)
    ensures |h| == |asts|
  {
    seq(|asts|, i requires 0 <= i < |asts| => Holds(asts[i], f))
  }

  /** So the hits among which Evaluate chooses are exactly the rules whose condition holds. */
  lemma {:induction false} HitsAreMeanings(rules: seq<RuleView>, asts: seq<RuleAst>, f: Frame)
    requires CompiledFrom(rules, asts)
    ensures Hits(rules, f) == Meanings(asts, f)
  {
    hide Run, Compiled, Holds;
    forall i | 0 <= i < |rules|
      ensures Hits(rules, f)[i] == Meanings(asts, f)[i]
    {
      CompiledRuleDecides(asts[i], f);
    }
  }

  /** Routing without bytecode or scores: nothing is found exactly when no rule's condition holds,
      and the winner is the earliest of those of greatest priority whose condition holds. */
  lemma {:induction false} RoutingByMeaning(rules: seq<RuleView>, asts: seq<RuleAst>, f: Frame, w: nat)
    requires CompiledFrom(rules, asts)
    ensures NoHit(Hits(rules, f), |rules|) <==> forall i :: 0 <= i < |asts| ==> !Holds(asts[i], f)
    ensures Wins(Hits(rules, f), Scores(rules, f), w) <==>
      w < |asts| && Holds(asts[w], f) &&
      forall j :: 0 <= j < |asts| && Holds(asts[j], f) ==>
        rules[j].priority <= rules[w].priority && (j < w ==> rules[j].priority < rules[w].priority)
  {
    HitsAreMeanings(rules, asts, f);
    hide Hits, Holds, Compiled;
    assert forall i :: 0 <= i < |asts| ==> Hits(rules, f)[i] == Holds(asts[i], f);
  }

  /** The winner is unique, so the table determines the result. */
  lemma WinnerIsUnique(hits: seq<bool>, scores: seq<int>, v: nat, w: nat)
    requires |hits| == |scores| && Wins(hits, scores, v) && Wins(hits, scores, w)
    ensures v == w
  {
  }
}
