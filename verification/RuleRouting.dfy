/** From rule texts to the routed frame: parsing, compiling, adding and evaluating together, as
    tests/unit/routing_tests.c:19-37 and fuzz/match_table_fuzzer.c:18-45 do it. */
module RuleRouting {
  import opened Bytes
  import opened Frames
  import opened RuleLexer
  import opened RuleParser
  import opened RuleBytecode
  import opened RuleCompiler
  import opened MatchTable
  import RouteVm

  /** A rule text with the name and the priority it is added under. */
  datatype RuleText = RuleText(name: cstring, priority: int32, text: cstring)

  /** The text parses, and the frame meets the condition it states. */
  predicate Accepts(r: RuleText, f: Frame) {
    ParsedText(r.text).0 == OK && Holds(ParsedText(r.text).1, f)
  }

  /** The earliest of the rules of greatest priority that accept the frame. */
  ghost predicate Routes(rs: seq<RuleText>, f: Frame, w: nat) {
    w < |rs| && Accepts(rs[w], f) &&
    forall j :: 0 <= j < |rs| && Accepts(rs[j], f) ==>
      rs[j].priority <= rs[w].priority && (j < w ==> rs[j].priority < rs[w].priority)
  }

  // ----- the rules that get into the table -----

  predicate Usable(r: RuleText) {
    ParsedText(r.text).0 == OK && Compiled(ParsedText(r.text).1).0 == OK
  }

  function Flags(rs: seq<RuleText>): (b: seq<bool>)
    ensures |b| == |rs|
  {
    seq(|rs|, i requires 0 <= i < |rs| => Usable(rs[i]))
  }

  /** Where the flags are set, in order. */
  function Places(flags: seq<bool>): (p: seq<nat>)
    ensures forall k :: 0 <= k < |p| ==> p[k] < |flags|
  {
    if flags == [] then []
    else
      var n := |flags| - 1;
      if flags[n] then Places(flags[..n]) + [n] else Places(flags[..n])
  }

  lemma {:induction false} PlacesSelect(flags: seq<bool>)
    ensures forall k :: 0 <= k < |Places(flags)| ==> flags[Places(flags)[k]]
    ensures forall i, k :: 0 <= i < k < |Places(flags)| ==> Places(flags)[i] < Places(flags)[k]
  {
    if flags != [] {
      PlacesSelect(flags[..|flags| - 1]);
    }
  }

  lemma {:induction false} PlaceOf(flags: seq<bool>, j: nat) returns (m: nat)
    requires j < |flags| && flags[j]
    ensures m < |Places(flags)| && Places(flags)[m] == j
  {
    var n := |flags| - 1;
    if j == n {
      m := |Places(flags[..n])|;
    } else {
      m := PlaceOf(flags[..n], j);
    }
  }

  /** The earliest of the greatest among the chosen is the earliest of the greatest of all, if all
      that count were chosen. */
  lemma BestOfChosen(counts: seq<bool>, values: seq<int>, flags: seq<bool>, k: nat)
    requires |counts| == |values| == |flags| && forall j :: 0 <= j < |counts| && counts[j] ==> flags[j]
    requires var p := Places(flags);
      k < |p| && forall m :: 0 <= m < |p| && counts[p[m]] ==>
        values[p[m]] <= values[p[k]] && (m < k ==> values[p[m]] < values[p[k]])
    ensures var w := Places(flags)[k];
      forall j :: 0 <= j < |counts| && counts[j] ==> values[j] <= values[w] && (j < w ==> values[j] < values[w])
  {
    var p := Places(flags);
    PlacesSelect(flags);
    forall j | 0 <= j < |counts| && counts[j]
      ensures values[j] <= values[p[k]] && (j < p[k] ==> values[j] < values[p[k]])
    {
      var m := PlaceOf(flags, j);
    }
  }

  /** The places of the usable rules. */
  function Chosen(rs: seq<RuleText>): (p: seq<nat>)
    ensures forall k :: 0 <= k < |p| ==> p[k] < |rs|
  {
    Places(Flags(rs))
  }

  function ViewOf(r: RuleText): RuleView {
    RuleView(Cut(r.name), r.priority, Compiled(ParsedText(r.text).1).1)
  }

  /** `view` holds the usable rules of `rs`, in order. */
  ghost predicate Loaded(view: seq<RuleView>, rs: seq<RuleText>) {
    |view| == |Chosen(rs)| && forall k :: 0 <= k < |view| ==> view[k] == ViewOf(rs[Chosen(rs)[k]])
  }

  lemma {:induction false} LoadStep(view: seq<RuleView>, rs: seq<RuleText>, i: nat)
    requires i < |rs| && Loaded(view, rs[..i])
    ensures Loaded(if Usable(rs[i]) then view + [ViewOf(rs[i])] else view, rs[..i + 1])
  {
    hide Usable, ViewOf;
    var p := Chosen(rs[..i]);
    ChosenStep(rs, i);
    hide Chosen;
    assert forall k :: 0 <= k < |p| ==> rs[..i + 1][p[k]] == rs[..i][p[k]];
  }

  lemma {:induction false} ChosenStep(rs: seq<RuleText>, i: nat)
    requires i < |rs|
    ensures Chosen(rs[..i + 1]) == if Usable(rs[i]) then Chosen(rs[..i]) + [i] else Chosen(rs[..i])
  {
    hide Usable;
    assert Flags(rs[..i + 1])[..i] == Flags(rs[..i]);
  }

  lemma NothingLoaded()
    ensures Loaded([], [])
  {
  }

  /** Parses, compiles and adds the rules one by one; a rule that fails is skipped. */
  method LoadRules(rs: seq<RuleText>) returns (table: Table)
    ensures fresh(table) && table.Valid() && fresh(table.programs) && Loaded(table.View(), rs)
  {
    hide ParsedText, Compiled, Loaded, Table.View, Table.Valid;
    table := new Table();
    NothingLoaded();
    assert rs[..0] == [];
    for i := 0 to |rs|
      invariant table.Valid() && fresh(table.programs) && Loaded(table.View(), rs[..i])
    {
      LoadStep(table.View(), rs, i);
      ghost var view := table.View();
      var rc, ast := RuleParser.Parse(rs[i].text);
      var bc := new Bytecode();
      if rc == OK {
        rc := RuleCompiler.Compile(ast, bc);
        if rc == OK {
          var _ := table.Add(rs[i].name, rs[i].priority, bc);
          bc.Free();
        }
      }
    }
    assert rs[..|rs|] == rs;
  }

  // ----- the whole way -----

  lemma AcceptedIsUsable(r: RuleText, f: Frame)
    requires Accepts(r, f)
    ensures Usable(r)
  {
    hide ParsedText, Compiled;
    CompiledRuleDecides(ParsedText(r.text).1, f);
  }

  function AstAt(rs: seq<RuleText>, k: nat): RuleAst
    requires k < |Chosen(rs)|
  {
    ParsedText(rs[Chosen(rs)[k]].text).1
  }

  lemma {:induction false} ChosenAreUsable(rs: seq<RuleText>)
    ensures forall k :: 0 <= k < |Chosen(rs)| ==> Usable(rs[Chosen(rs)[k]])
  {
    hide Usable, Places;
    PlacesSelect(Flags(rs));
  }

  lemma {:induction false} HitsAreAccepted(view: seq<RuleView>, rs: seq<RuleText>, f: Frame, asts: seq<RuleAst>)
    requires Loaded(view, rs)
    requires |asts| == |view| && forall k :: 0 <= k < |view| ==> asts[k] == AstAt(rs, k)
    ensures CompiledFrom(view, asts)
    ensures forall k :: 0 <= k < |view| ==> (Holds(asts[k], f) <==> Accepts(rs[Chosen(rs)[k]], f))
    ensures forall k :: 0 <= k < |view| ==> (Hits(view, f)[k] <==> Accepts(rs[Chosen(rs)[k]], f))
  {
    hide ParsedText, Compiled, Holds, Hits, Chosen;
    ChosenAreUsable(rs);
    HitsAreMeanings(view, asts, f);
  }

  /** The winner of the table is the winner among the texts. */
  lemma {:induction false} LoadedRulesRoute(view: seq<RuleView>, rs: seq<RuleText>, f: Frame)
    requires Loaded(view, rs)
    ensures NoHit(Hits(view, f), |view|) <==> forall j :: 0 <= j < |rs| ==> !Accepts(rs[j], f)
    ensures forall k: nat :: Wins(Hits(view, f), Scores(view, f), k) ==>
      k < |view| && Routes(rs, f, Chosen(rs)[k])
    ensures forall k :: 0 <= k < |view| ==> (Hits(view, f)[k] <==> Accepts(rs[Chosen(rs)[k]], f))
  {
    hide AstAt, Holds, Hits, Scores, Wins, NoHit, Accepts, Usable, ViewOf, Flags, Places;
    var p := Chosen(rs);
    var asts := seq(|p|, k requires 0 <= k < |p| => AstAt(rs, k));
    HitsAreAccepted(view, rs, f, asts);
    hide CompiledFrom;
    forall j | 0 <= j < |rs| && Accepts(rs[j], f)
      ensures exists m :: 0 <= m < |p| && p[m] == j
    {
      AcceptedIsUsable(rs[j], f);
      FlagAt(rs, j);
      var m := PlaceOf(Flags(rs), j);
      assert p[m] == j;
    }
    hide Chosen;
    RoutingByMeaning(view, asts, f, 0);
    forall k: nat | Wins(Hits(view, f), Scores(view, f), k)
      ensures k < |view| && Routes(rs, f, p[k])
    {
      RoutingByMeaning(view, asts, f, k);
      WinnerRoutes(view, rs, f, asts, k);
    }
  }

  lemma {:induction false} FlagAt(rs: seq<RuleText>, j: nat)
    requires j < |rs|
    ensures Flags(rs)[j] <==> Usable(rs[j])
  {
    hide Usable;
  }

  lemma {:induction false} WinnerRoutes(view: seq<RuleView>, rs: seq<RuleText>, f: Frame, asts: seq<RuleAst>, k: nat)
    requires Loaded(view, rs) && |asts| == |view| && k < |view|
    requires forall m :: 0 <= m < |view| ==> (Holds(asts[m], f) <==> Accepts(rs[Chosen(rs)[m]], f))
    requires Holds(asts[k], f) && forall m :: 0 <= m < |asts| && Holds(asts[m], f) ==>
      view[m].priority <= view[k].priority && (m < k ==> view[m].priority < view[k].priority)
    ensures Routes(rs, f, Chosen(rs)[k])
  {
    hide Holds, Places, Accepts, Usable, ViewOf, Flags, Loaded, Chosen;
    LoadedAt(view, rs);
    ChosenIsPlaces(rs);
    var p := Chosen(rs);
    var counts := seq(|rs|, j requires 0 <= j < |rs| => Accepts(rs[j], f));
    var values := seq(|rs|, j requires 0 <= j < |rs| => rs[j].priority as int);
    forall j | 0 <= j < |counts| && counts[j]
      ensures Flags(rs)[j]
    {
      AcceptedIsUsable(rs[j], f);
      FlagAt(rs, j);
    }
    forall m | 0 <= m < |p| && counts[p[m]]
      ensures values[p[m]] <= values[p[k]] && (m < k ==> values[p[m]] < values[p[k]])
    {
      assert Holds(asts[m], f);
    }
    BestOfChosen(counts, values, Flags(rs), k);
    forall j | 0 <= j < |rs| && Accepts(rs[j], f)
      ensures rs[j].priority <= rs[p[k]].priority && (j < p[k] ==> rs[j].priority < rs[p[k]].priority)
    {
      assert counts[j] && values[j] == rs[j].priority;
    }
  }

  lemma {:induction false} ChosenIsPlaces(rs: seq<RuleText>)
    ensures Chosen(rs) == Places(Flags(rs))
  {
  }

  /** `out` names the rule, with its priority and the score it has for the frame. */
  predicate ResultFor(out: MatchResult, r: RuleText, f: Frame) {
    out.name == Cut(r.name) && out.priority == r.priority && out.score == r.priority + f.priority
  }

  /** Text to winner: the frame is routed to the earliest of the rules of greatest priority whose
      text states a condition it meets, and to none exactly when there is no such rule. */
  method Route(rs: seq<RuleText>, f: Frame, prior: MatchResult) returns (rc: Status, out: MatchResult)
    requires forall j :: 0 <= j < |rs| && Accepts(rs[j], f) ==> rs[j].priority + f.priority <= INT32_MAX
    ensures rc == OK || (rc == NotFound && out == prior)
    ensures rc == NotFound <==> forall j :: 0 <= j < |rs| ==> !Accepts(rs[j], f)
    ensures rc == OK ==> exists w: nat :: Routes(rs, f, w) && ResultFor(out, rs[w], f)
  {
    hide Accepts, Routes, Loaded, NoHit, Wins, Chosen, Hits, Scores, Table.View, Table.Valid;
    var table := LoadRules(rs);
    ghost var view := table.View();
    LoadedRulesRoute(view, rs, f);
    LoadedAt(view, rs);
    assert ScoresFit(view, f) by { HitsAt(view, f); }
    ghost var stale;
    rc, out, stale := table.Evaluate(f, prior);
  }

  lemma {:induction false} LoadedAt(view: seq<RuleView>, rs: seq<RuleText>)
    requires Loaded(view, rs)
    ensures |view| == |Chosen(rs)|
    ensures forall k :: 0 <= k < |view| ==>
      view[k].priority == rs[Chosen(rs)[k]].priority && Cut(view[k].name) == Cut(rs[Chosen(rs)[k]].name)
  {
    hide Chosen, ParsedText, Compiled;
  }

  lemma {:induction false} HitsAt(view: seq<RuleView>, f: Frame)
    ensures forall k :: 0 <= k < |view| ==> (Hits(view, f)[k] <==> RouteVm.Matches(view[k].code, f))
  {
    hide RouteVm.Matches;
  }

  /** Two winners are one, so the rules determine the result. */
  lemma {:induction false} RouteIsUnique(rs: seq<RuleText>, f: Frame, v: nat, w: nat)
    requires Routes(rs, f, v) && Routes(rs, f, w)
    ensures v == w
  {
    hide Accepts;
  }
}
