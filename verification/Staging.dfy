/** Component staging: stages_for of compat/component_graph_oracle.py. */
module Staging {
  datatype Name = Name(text: string)

  datatype Component = Component(name: Name, dependsOn: seq<Name>)

  /** The active components and the names each depends on. */
  type Graph = map<Name, seq<Name>>

  datatype Result = Staged(stages: seq<seq<Name>>) | Stuck(remaining: seq<Name>)

  // ---------------------------------------------------------------- sorted names

  /** Python's order on strings, by code point. */
  predicate Less(a: string, b: string) {
    if b == "" then false
    else if a == "" then true
    else if a[0] == b[0] then Less(a[1..], b[1..])
    else a[0] < b[0]
  }

  lemma {:induction false} LessTotal(a: string, b: string)
    ensures a == b || Less(a, b) || Less(b, a)
    ensures !Less(a, a)
  {
    if a != "" && b != "" {
      LessTotal(a[1..], b[1..]);
      assert a == [a[0]] + a[1..] && b == [b[0]] + b[1..];
    } else if a != "" {
      LessTotal(a[1..], a[1..]);
    }
  }

  lemma {:induction false} LessTransitive(a: string, b: string, c: string)
    requires Less(a, b) && Less(b, c)
    ensures Less(a, c)
  {
    if a != "" && a[0] == b[0] && b[0] == c[0] {
      LessTransitive(a[1..], b[1..], c[1..]);
    }
  }

  /** The strings first differ at i, where `a` ends or has the smaller code point. */
  ghost predicate SmallerAt(a: string, b: string, i: nat) {
    && i <= |a| && i < |b| && a[..i] == b[..i]
    && (i == |a| || a[i] < b[i])
  }

  /** The order is decided at the first difference. */
  lemma {:induction false} LessMeans(a: string, b: string)
    ensures Less(a, b) <==> exists i: nat :: SmallerAt(a, b, i)
  {
    if a == "" || b == "" || a[0] != b[0] {
      assert b != "" ==> (SmallerAt(a, b, 0) <==> Less(a, b));
      assert a != "" && b != "" ==> forall i: nat :: i > 0 && SmallerAt(a, b, i) ==> a[..i][0] == b[..i][0];
    } else {
      LessMeans(a[1..], b[1..]);
      assert a == [a[0]] + a[1..] && b == [b[0]] + b[1..];
      if i: nat :| SmallerAt(a[1..], b[1..], i) {
        assert a[..i + 1] == [a[0]] + a[1..][..i] && b[..i + 1] == [b[0]] + b[1..][..i];
        assert SmallerAt(a, b, i + 1);
      }
      if i: nat :| SmallerAt(a, b, i) {
        assert i > 0 && a[1..][..i - 1] == a[..i][1..] && b[1..][..i - 1] == b[..i][1..];
        assert SmallerAt(a[1..], b[1..], i - 1);
      }
    }
  }

  predicate Increasing(names: seq<Name>) {
    forall i, j :: 0 <= i < j < |names| ==> Less(names[i].text, names[j].text)
  }

  function Members(names: seq<Name>): set<Name> {
    set n | n in names
  }

  function MembersOf(stages: seq<seq<Name>>): (r: seq<set<Name>>)
    ensures |r| == |stages| && forall k :: 0 <= k < |r| ==> r[k] == Members(stages[k])
  {
    seq(|stages|, k requires 0 <= k < |stages| => Members(stages[k]))
  }

  method Least(names: set<Name>) returns (least: Name)
    requires names != {}
    ensures least in names && forall n :: n in names && n != least ==> Less(least.text, n.text)
  {
    least :| least in names;
    var rest := names - {least};
    while rest != {}
      invariant least in names && rest <= names
      invariant forall n :: n in names - rest && n != least ==> Less(least.text, n.text)
      decreases |rest|
    {
      var n :| n in rest;
      LessTotal(n.text, least.text);
      if Less(n.text, least.text) {
        forall m | m in names - rest && m != n && Less(least.text, m.text)
          ensures Less(n.text, m.text)
        {
          LessTransitive(n.text, least.text, m.text);
        }
        least := n;
      }
      rest := rest - {n};
    }
  }

  /** Everything taken so far comes before everything left. */
  predicate Before(taken: seq<Name>, rest: set<Name>) {
    forall i, n :: 0 <= i < |taken| && n in rest ==> Less(taken[i].text, n.text)
  }

  lemma TakeLeast(names: set<Name>, taken: seq<Name>, rest: set<Name>, least: Name)
    requires least in rest && rest <= names && forall n :: n in rest && n != least ==> Less(least.text, n.text)
    requires Increasing(taken) && Members(taken) == names - rest && Before(taken, rest)
    ensures Increasing(taken + [least]) && Members(taken + [least]) == names - (rest - {least})
    ensures Before(taken + [least], rest - {least})
  {
    MembersSnoc(taken, least);
  }

  /** sorted() of a set. */
  method Sorted(names: set<Name>) returns (r: seq<Name>)
    ensures Increasing(r) && Members(r) == names
  {
    r := [];
    var rest := names;
    while rest != {}
      invariant rest <= names && Increasing(r) && Members(r) == names - rest && Before(r, rest)
      decreases |rest|
    {
      var least := Least(rest);
      TakeLeast(names, r, rest, least);
      r, rest := r + [least], rest - {least};
    }
  }

  lemma MembersSnoc(names: seq<Name>, n: Name)
    ensures Members(names + [n]) == Members(names) + {n}
  {
  }

  /** The sorted list of a set is the only increasing one. */
  lemma {:induction false} IncreasingUnique(a: seq<Name>, b: seq<Name>)
    requires Increasing(a) && Increasing(b) && Members(a) == Members(b)
    ensures a == b
  {
    NoMembers(a);
    NoMembers(b);
    if a != [] {
      SameHead(a, b);
      RestMembers(a);
      RestMembers(b);
      IncreasingUnique(a[1..], b[1..]);
      assert a == [a[0]] + a[1..] && b == [b[0]] + b[1..];
    }
  }

  lemma NoMembers(a: seq<Name>)
    ensures a == [] <==> Members(a) == {}
  {
    if a != [] {
      assert a[0] in Members(a);
    }
  }

  lemma SameHead(a: seq<Name>, b: seq<Name>)
    requires a != [] && b != [] && Increasing(a) && Increasing(b) && Members(a) == Members(b)
    ensures a[0] == b[0]
  {
    assert a[0] in Members(b) && b[0] in Members(a);
    var i :| 0 <= i < |b| && b[i] == a[0];
    var j :| 0 <= j < |a| && a[j] == b[0];
    if i > 0 && j > 0 {
      LessTransitive(a[0].text, b[0].text, a[0].text);
      LessTotal(a[0].text, a[0].text);
    }
  }

  lemma RestMembers(a: seq<Name>)
    requires a != [] && Increasing(a)
    ensures Members(a[1..]) == Members(a) - {a[0]} && Increasing(a[1..])
  {
    LessTotal(a[0].text, a[0].text);
    assert a == [a[0]] + a[1..];
    forall n | n in Members(a[1..])
      ensures n != a[0]
    {
      var i :| 0 <= i < |a[1..]| && a[1..][i] == n;
      assert a[i + 1] == n;
    }
  }

  // ---------------------------------------------------------------- what staging means

  /** Every dependency of n is among the members and comes strictly earlier. */
  ghost predicate RankedAt(graph: Graph, members: set<Name>, rank: map<Name, nat>, n: Name)
    requires n in graph && n in rank && members <= rank.Keys
  {
    forall d :: d in graph[n] ==> d in members && rank[d] < rank[n]
  }

  /** An order of some components in which every dependency exists and precedes its dependents. */
  ghost predicate Ranks(graph: Graph, members: set<Name>, rank: map<Name, nat>) {
    && members <= graph.Keys && members <= rank.Keys
    && forall n :: n in members ==> RankedAt(graph, members, rank, n)
  }

  /** Dependency-closed and acyclic. */
  ghost predicate Schedulable(graph: Graph) {
    exists rank :: Ranks(graph, graph.Keys, rank)
  }

  /** A component that is not in the first stage was held back by a dependency in the stage before its own. */
  ghost predicate HeldBack(graph: Graph, level: map<Name, nat>, n: Name)
    requires n in graph && n in level
  {
    level[n] > 0 ==> exists d :: d in graph[n] && d in level && level[d] == level[n] - 1
  }

  /** Stage k holds exactly the members of level k, and no stage is empty. */
  ghost predicate Stages(members: set<Name>, stages: seq<set<Name>>, level: map<Name, nat>)
    requires members <= level.Keys
  {
    && (forall n :: n in members ==> level[n] < |stages| && n in stages[level[n]])
    && (forall k, n :: 0 <= k < |stages| && n in stages[k] ==> n in members && level[n] == k)
    && (forall k :: 0 <= k < |stages| ==> stages[k] != {})
  }

  /** `level` numbers the stages: a rank in which nothing could move one stage earlier. */
  ghost predicate Layers(graph: Graph, members: set<Name>, stages: seq<set<Name>>, level: map<Name, nat>) {
    && level.Keys == members && Ranks(graph, members, level) && Stages(members, stages, level)
    && forall n :: n in members ==> HeldBack(graph, level, n)
  }

  /** The stages are a layering of all components but some. */
  ghost predicate Layered(graph: Graph, without: set<Name>, stages: seq<set<Name>>) {
    exists level :: Layers(graph, graph.Keys - without, stages, level)
  }

  /** n has a dependency that is blocked itself or does not exist. */
  ghost predicate BlockedAt(graph: Graph, blocked: set<Name>, n: Name)
    requires n in graph
  {
    exists d :: d in graph[n] && (d in blocked || d !in graph)
  }

  ghost predicate Blocked(graph: Graph, blocked: set<Name>) {
    blocked <= graph.Keys && forall n :: n in blocked ==> BlockedAt(graph, blocked, n)
  }

  // ---------------------------------------------------------------- the algorithm

  /** The i-th component is the one that counts for its name. */
  predicate LastOfName(components: seq<Component>, i: nat)
    requires i < |components|
  {
    forall j :: i < j < |components| ==> components[j].name != components[i].name
  }

  /** The dictionary of active components: skipped names are left out, and of equal names the last one counts. */
  ghost predicate IsActive(components: seq<Component>, skipped: set<Name>, graph: Graph) {
    && (forall n :: n in graph <==> n !in skipped && exists i :: 0 <= i < |components| && components[i].name == n)
    && (forall n :: n in graph ==>
          exists i: nat :: i < |components| && components[i] == Component(n, graph[n]) && LastOfName(components, i))
  }

  lemma ActiveUnique(components: seq<Component>, skipped: set<Name>, a: Graph, b: Graph)
    requires IsActive(components, skipped, a) && IsActive(components, skipped, b)
    ensures a == b
  {
    forall n | n in a
      ensures n in b && a[n] == b[n]
    {
      var i: nat :| i < |components| && components[i] == Component(n, a[n]) && LastOfName(components, i);
      assert n in b;
      var j: nat :| j < |components| && components[j] == Component(n, b[n]) && LastOfName(components, j);
      assert i == j;
    }
    assert forall n :: n in b ==> n in a;
  }

  method ActiveGraph(components: seq<Component>, skipped: set<Name>) returns (graph: Graph)
    ensures IsActive(components, skipped, graph)
  {
    graph := map[];
    for k := 0 to |components|
      invariant IsActive(components[..k], skipped, graph)
    {
      var component := components[k];
      ActiveStep(components[..k], component, skipped, graph);
      if component.name !in skipped {
        graph := graph[component.name := component.dependsOn];
      }
      assert components[..k + 1] == components[..k] + [component];
    }
    assert components[..|components|] == components;
  }

  lemma ActiveStep(front: seq<Component>, last: Component, skipped: set<Name>, graph: Graph)
    requires IsActive(front, skipped, graph)
    ensures IsActive(front + [last], skipped, if last.name in skipped then graph else graph[last.name := last.dependsOn])
  {
    var all := front + [last];
    var next := if last.name in skipped then graph else graph[last.name := last.dependsOn];
    assert all[|front|] == last && LastOfName(all, |front|);
    forall n | n in next
      ensures exists i: nat :: i < |all| && all[i] == Component(n, next[n]) && LastOfName(all, i)
    {
      if n != last.name {
        var i: nat :| i < |front| && front[i] == Component(n, graph[n]) && LastOfName(front, i);
        assert all[i] == front[i] && LastOfName(all, i);
      } else {
        assert all[|front|] == Component(n, next[n]);
      }
    }
    forall n
      ensures n in next <==> n !in skipped && exists i :: 0 <= i < |all| && all[i].name == n
    {
      if i :| 0 <= i < |front| && front[i].name == n {
        assert all[i].name == n;
      }
    }
  }

  predicate Ready(graph: Graph, staged: set<Name>, n: Name)
    requires n in graph
  {
    forall d :: d in graph[n] ==> d in staged
  }

  /** Nothing left over was ready one stage ago. */
  ghost predicate LateAt(graph: Graph, level: map<Name, nat>, last: int, n: Name)
    requires n in graph
  {
    exists d :: d in graph[n] && (d in level ==> level[d] == last)
  }

  /** Between two stages: everything staged is layered, and nothing left over was ready one stage ago. */
  ghost predicate Progress(graph: Graph, remaining: set<Name>, staged: set<Name>, stages: seq<set<Name>>, level: map<Name, nat>) {
    && remaining <= graph.Keys && staged == graph.Keys - remaining
    && Layers(graph, staged, stages, level)
    && (stages != [] ==> forall n :: n in remaining ==> LateAt(graph, level, |stages| - 1, n))
  }

  /** What the outcome says about the graph. */
  ghost predicate Reports(graph: Graph, r: Result) {
    && (r.Staged? <==> Schedulable(graph))
    && (r.Staged? ==> Layered(graph, {}, MembersOf(r.stages)) && AllIncreasing(r.stages))
    && (r.Stuck? ==> r.remaining != [] && Increasing(r.remaining) && Blocked(graph, Members(r.remaining)))
    && (r.Stuck? ==> exists stages :: Layered(graph, Members(r.remaining), stages))
  }

  /** stages_for: the outcome for the active components, whatever the graph is named by. */
  method StagesFor(components: seq<Component>, skipped: set<Name>) returns (r: Result)
    ensures forall graph :: IsActive(components, skipped, graph) ==> Reports(graph, r)
  {
    var graph := ActiveGraph(components, skipped);
    r := StageGraph(graph);
    forall other | IsActive(components, skipped, other)
      ensures other == graph
    {
      ActiveUnique(components, skipped, other, graph);
    }
  }

  /** There always is exactly one such graph. */
  lemma {:induction false} ActiveExists(components: seq<Component>, skipped: set<Name>)
    ensures exists graph :: IsActive(components, skipped, graph)
  {
    if components == [] {
      var none: Graph := map[];
      assert IsActive(components, skipped, none);
    } else {
      var front, last := components[..|components| - 1], components[|components| - 1];
      ActiveExists(front, skipped);
      var graph :| IsActive(front, skipped, graph);
      ActiveStep(front, last, skipped, graph);
      assert components == front + [last];
    }
  }

  /**
   Staging succeeds exactly for schedulable graphs, with every component in one stage, none
   that could be earlier, and each stage in alphabetical order; otherwise it returns, in
   alphabetical order, components that are all blocked, next to a layering of all the others.
   */
  method StageGraph(graph: Graph) returns (r: Result)
    ensures Reports(graph, r)
  {
    var remaining, staged: set<Name>, stages: seq<seq<Name>> := graph.Keys, {}, [];
    ghost var level: map<Name, nat>, sets: seq<set<Name>> := map[], [];
    Begin(graph);
    while remaining != {}
      invariant Progress(graph, remaining, staged, sets, level) && sets == MembersOf(stages) && AllIncreasing(stages)
      decreases |remaining|
    {
      var stage := NextStage(graph, remaining, staged);
      if stage == [] {
        r := GiveUp(graph, remaining, staged, sets, level);
        return;
      }
      level := Extend(graph, remaining, staged, sets, level, Members(stage));
      StageAdded(stages, stage);
      sets := sets + [Members(stage)];
      stages, staged, remaining := stages + [stage], staged + Members(stage), remaining - Members(stage);
    }
    Finished(graph, staged, sets, level);
    return Staged(stages);
  }

  function ReadyOnes(graph: Graph, remaining: set<Name>, staged: set<Name>): set<Name>
    requires remaining <= graph.Keys
  {
    set n | n in remaining && Ready(graph, staged, n)
  }

  method NextStage(graph: Graph, remaining: set<Name>, staged: set<Name>) returns (stage: seq<Name>)
    requires remaining <= graph.Keys
    ensures Increasing(stage) && Members(stage) == ReadyOnes(graph, remaining, staged)
    ensures stage == [] <==> ReadyOnes(graph, remaining, staged) == {}
    ensures stage != [] ==> |remaining - Members(stage)| < |remaining|
  {
    stage := Sorted(set n | n in remaining && Ready(graph, staged, n));
    NoMembers(stage);
    if stage != [] {
      Shrinks(remaining, Members(stage));
    }
  }

  /** The sorted names left when no stage can be formed. */
  method GiveUp(graph: Graph, remaining: set<Name>, staged: set<Name>, ghost sets: seq<set<Name>>, ghost level: map<Name, nat>)
    returns (r: Result)
    requires Progress(graph, remaining, staged, sets, level) && remaining != {} && ReadyOnes(graph, remaining, staged) == {}
    ensures r.Stuck? && !Schedulable(graph) && r.remaining != [] && Increasing(r.remaining)
    ensures Blocked(graph, Members(r.remaining)) && Layered(graph, Members(r.remaining), sets)
  {
    var left := Sorted(remaining);
    NoMembers(left);
    StuckIsBlocked(graph, remaining, staged);
    LeftOver(graph, remaining, staged, sets, level);
    return Stuck(left);
  }

  predicate AllIncreasing(stages: seq<seq<Name>>) {
    stages == [] || (AllIncreasing(stages[..|stages| - 1]) && Increasing(stages[|stages| - 1]))
  }

  lemma {:induction false} IncreasingAt(stages: seq<seq<Name>>, k: nat)
    requires AllIncreasing(stages) && k < |stages|
    ensures Increasing(stages[k])
  {
    if k < |stages| - 1 {
      IncreasingAt(stages[..|stages| - 1], k);
    }
  }

  lemma StageAdded(stages: seq<seq<Name>>, stage: seq<Name>)
    requires AllIncreasing(stages) && Increasing(stage)
    ensures MembersOf(stages + [stage]) == MembersOf(stages) + [Members(stage)] && AllIncreasing(stages + [stage])
  {
    assert (stages + [stage])[..|stages|] == stages;
  }

  lemma Begin(graph: Graph)
    ensures Progress(graph, graph.Keys, {}, [], map[])
  {
  }

  lemma LeftOver(graph: Graph, remaining: set<Name>, staged: set<Name>, sets: seq<set<Name>>, level: map<Name, nat>)
    requires Progress(graph, remaining, staged, sets, level)
    ensures Layered(graph, remaining, sets)
  {
  }

  lemma Finished(graph: Graph, staged: set<Name>, sets: seq<set<Name>>, level: map<Name, nat>)
    requires Progress(graph, {}, staged, sets, level)
    ensures Layered(graph, {}, sets) && Schedulable(graph)
  {
    LeftOver(graph, {}, staged, sets, level);
    RankOfAll(graph, staged, level);
  }

  lemma RankOfAll(graph: Graph, staged: set<Name>, level: map<Name, nat>)
    requires staged == graph.Keys - {} && Ranks(graph, staged, level)
    ensures Schedulable(graph)
  {
    assert staged == graph.Keys;
    assert Ranks(graph, graph.Keys, level);
  }

  lemma Shrinks(remaining: set<Name>, stage: set<Name>)
    requires stage <= remaining && stage != {}
    ensures |remaining - stage| < |remaining|
  {
    assert remaining == (remaining - stage) + stage;
  }

  lemma StuckIsBlocked(graph: Graph, remaining: set<Name>, staged: set<Name>)
    requires staged == graph.Keys - remaining && remaining <= graph.Keys && remaining != {}
    requires ReadyOnes(graph, remaining, staged) == {}
    ensures Blocked(graph, remaining) && !Schedulable(graph)
  {
    forall n | n in remaining
      ensures BlockedAt(graph, remaining, n)
    {
      assert n !in ReadyOnes(graph, remaining, staged);
      assert !Ready(graph, staged, n);
      var d :| d in graph[n] && d !in staged;
    }
    BlockedUnschedulable(graph, remaining);
  }

  /** One more stage, made of everything whose dependencies are already staged. */
  lemma Extend(graph: Graph, remaining: set<Name>, staged: set<Name>, stages: seq<set<Name>>,
               level: map<Name, nat>, stage: set<Name>) returns (next: map<Name, nat>)
    requires Progress(graph, remaining, staged, stages, level) && stage != {}
    requires stage == ReadyOnes(graph, remaining, staged)
    ensures Progress(graph, remaining - stage, staged + stage, stages + [stage], next)
  {
    var last := |stages|;
    next := Numbered(staged, stage, level, last);
    forall n | n in staged + stage
      ensures RankedAt(graph, staged + stage, next, n) && HeldBack(graph, next, n)
    {
      if n in staged {
        OldMember(graph, staged, stage, level, last, n);
      } else {
        NewMember(graph, staged, stage, level, last, n);
      }
    }
    forall n | n in remaining - stage
      ensures LateAt(graph, next, last, n)
    {
      assert !Ready(graph, staged, n);
      var d :| d in graph[n] && d !in staged;
      assert d in next ==> next[d] == last;
    }
    NextStages(staged, stages, level, stage, next);
    assert staged + stage == graph.Keys - (remaining - stage);
  }

  ghost function Numbered(staged: set<Name>, stage: set<Name>, level: map<Name, nat>, last: nat): (r: map<Name, nat>)
    requires staged <= level.Keys
    ensures r.Keys == staged + stage
    ensures forall n :: n in staged ==> r[n] == level[n]
    ensures forall n :: n in stage - staged ==> r[n] == last
  {
    map n | n in staged + stage :: if n in staged then level[n] else last
  }

  lemma OldMember(graph: Graph, staged: set<Name>, stage: set<Name>, level: map<Name, nat>, last: nat, n: Name)
    requires n in staged && n in graph && staged == level.Keys
    requires RankedAt(graph, staged, level, n) && HeldBack(graph, level, n)
    ensures RankedAt(graph, staged + stage, Numbered(staged, stage, level, last), n)
    ensures HeldBack(graph, Numbered(staged, stage, level, last), n)
  {
    var next := Numbered(staged, stage, level, last);
    if level[n] > 0 {
      var d :| d in graph[n] && d in level && level[d] == level[n] - 1;
      assert d in next && next[d] == next[n] - 1;
    }
  }

  lemma NewMember(graph: Graph, staged: set<Name>, stage: set<Name>, level: map<Name, nat>, last: nat, n: Name)
    requires n in stage && n !in staged && n in graph && Ready(graph, staged, n) && staged == level.Keys
    requires forall d :: d in staged ==> level[d] < last
    requires last > 0 ==> LateAt(graph, level, last - 1, n)
    ensures RankedAt(graph, staged + stage, Numbered(staged, stage, level, last), n)
    ensures HeldBack(graph, Numbered(staged, stage, level, last), n)
  {
    var next := Numbered(staged, stage, level, last);
    if last > 0 {
      var d :| d in graph[n] && (d in level ==> level[d] == last - 1);
      assert d in next && next[d] == next[n] - 1;
    }
  }

  lemma NextStages(staged: set<Name>, stages: seq<set<Name>>, level: map<Name, nat>, stage: set<Name>, next: map<Name, nat>)
    requires staged == level.Keys && Stages(staged, stages, level) && stage !! staged && stage != {}
    requires next == Numbered(staged, stage, level, |stages|)
    ensures Stages(staged + stage, stages + [stage], next)
  {
    var longer := stages + [stage];
    forall n | n in staged + stage
      ensures next[n] < |longer| && n in longer[next[n]]
    {
    }
    forall k, n | 0 <= k < |longer| && n in longer[k]
      ensures n in staged + stage && next[n] == k
    {
      assert k < |stages| ==> longer[k] == stages[k];
    }
    forall k | 0 <= k < |longer|
      ensures longer[k] != {}
    {
    }
  }

  // ---------------------------------------------------------------- what the result is worth

  /** No blocked component belongs to any part of the graph that has an order. */
  lemma {:induction false} BlockedOutside(graph: Graph, blocked: set<Name>, members: set<Name>, rank: map<Name, nat>, n: Name, bound: nat)
    requires Blocked(graph, blocked) && Ranks(graph, members, rank) && n in blocked && (n in members ==> rank[n] < bound)
    ensures n !in members
    decreases bound
  {
    if n in members {
      assert BlockedAt(graph, blocked, n) && RankedAt(graph, members, rank, n);
      var d :| d in graph[n] && (d in blocked || d !in graph);
      BlockedOutside(graph, blocked, members, rank, d, bound - 1);
    }
  }

  lemma BlockedUnschedulable(graph: Graph, blocked: set<Name>)
    requires Blocked(graph, blocked) && blocked != {}
    ensures !Schedulable(graph)
  {
    if Schedulable(graph) {
      var rank :| Ranks(graph, graph.Keys, rank);
      var n :| n in blocked;
      BlockedOutside(graph, blocked, graph.Keys, rank, n, rank[n] + 1);
    }
  }

  /** No order whatever places a component before the stage it was given. */
  lemma {:induction false} EarliestStage(
    graph: Graph, stages: seq<set<Name>>, level: map<Name, nat>, rank: map<Name, nat>, n: Name)
    requires Layers(graph, graph.Keys, stages, level) && Ranks(graph, graph.Keys, rank) && n in graph
    ensures level[n] <= rank[n]
    decreases level[n]
  {
    if level[n] > 0 {
      assert HeldBack(graph, level, n) && RankedAt(graph, graph.Keys, rank, n);
      var d :| d in graph[n] && d in level && level[d] == level[n] - 1;
      EarliestStage(graph, stages, level, rank, d);
    }
  }

  /** The stages are determined by the graph. */
  lemma StagesUnique(graph: Graph, s: seq<set<Name>>, l: map<Name, nat>, t: seq<set<Name>>, m: map<Name, nat>)
    requires Layers(graph, graph.Keys, s, l) && Layers(graph, graph.Keys, t, m)
    ensures s == t && l == m
  {
    SameLevels(graph, s, l, t, m);
    SameMap(l, m);
    SameStages(graph.Keys, s, t, l);
  }

  lemma SameLevel(graph: Graph, s: seq<set<Name>>, l: map<Name, nat>, t: seq<set<Name>>, m: map<Name, nat>, n: Name)
    requires Layers(graph, graph.Keys, s, l) && Layers(graph, graph.Keys, t, m) && n in graph
    ensures n in l && n in m && l[n] == m[n]
  {
    EarliestStage(graph, s, l, m, n);
    EarliestStage(graph, t, m, l, n);
  }

  lemma SameLevels(graph: Graph, s: seq<set<Name>>, l: map<Name, nat>, t: seq<set<Name>>, m: map<Name, nat>)
    requires Layers(graph, graph.Keys, s, l) && Layers(graph, graph.Keys, t, m)
    ensures l.Keys == m.Keys && forall n :: n in l ==> l[n] == m[n]
  {
    forall n | n in l
      ensures n in m && l[n] == m[n]
    {
      SameLevel(graph, s, l, t, m, n);
    }
  }

  lemma SameMap(l: map<Name, nat>, m: map<Name, nat>)
    requires l.Keys == m.Keys && forall n :: n in l ==> l[n] == m[n]
    ensures l == m
  {
  }

  lemma NotLonger(members: set<Name>, s: seq<set<Name>>, t: seq<set<Name>>, level: map<Name, nat>)
    requires members <= level.Keys && Stages(members, s, level) && Stages(members, t, level)
    ensures |s| <= |t|
  {
    if |s| > 0 {
      assert s[|s| - 1] != {};
      var n :| n in s[|s| - 1];
      assert level[n] == |s| - 1;
    }
  }

  lemma SameStages(members: set<Name>, s: seq<set<Name>>, t: seq<set<Name>>, level: map<Name, nat>)
    requires members <= level.Keys && Stages(members, s, level) && Stages(members, t, level)
    ensures s == t
  {
    NotLonger(members, s, t, level);
    NotLonger(members, t, s, level);
    forall k | 0 <= k < |s|
      ensures s[k] == t[k]
    {
      forall n
        ensures n in s[k] <==> n in t[k]
      {
        if n in s[k] {
          assert n in members && level[n] == k;
        }
        if n in t[k] {
          assert n in members && level[n] == k;
        }
      }
    }
  }

  /** So is the whole result, order inside the stages included. */
  lemma ResultUnique(graph: Graph, a: seq<seq<Name>>, b: seq<seq<Name>>)
    requires Layered(graph, {}, MembersOf(a)) && AllIncreasing(a) && Layered(graph, {}, MembersOf(b)) && AllIncreasing(b)
    ensures a == b
  {
    assert graph.Keys - {} == graph.Keys;
    var l :| Layers(graph, graph.Keys, MembersOf(a), l);
    var m :| Layers(graph, graph.Keys, MembersOf(b), m);
    StagesUnique(graph, MembersOf(a), l, MembersOf(b), m);
    forall k | 0 <= k < |a|
      ensures a[k] == b[k]
    {
      IncreasingAt(a, k);
      IncreasingAt(b, k);
      assert MembersOf(a)[k] == MembersOf(b)[k];
      IncreasingUnique(a[k], b[k]);
    }
  }

  ghost predicate Orderable(graph: Graph, n: Name) {
    exists members: set<Name>, rank: map<Name, nat> :: n in members && Ranks(graph, members, rank)
  }

  /** The components reported when staging gets stuck are exactly those in no orderable part of the graph. */
  lemma StuckExactly(graph: Graph, remaining: set<Name>, stages: seq<set<Name>>, level: map<Name, nat>, n: Name)
    requires Blocked(graph, remaining) && Layers(graph, graph.Keys - remaining, stages, level) && n in graph
    ensures n in remaining <==> !Orderable(graph, n)
  {
    if n in remaining {
      forall members: set<Name>, rank: map<Name, nat> | Ranks(graph, members, rank)
        ensures n !in members
      {
        BlockedOutside(graph, remaining, members, rank, n, if n in members then rank[n] + 1 else 0);
      }
    } else {
      assert n in graph.Keys - remaining && Ranks(graph, graph.Keys - remaining, level);
    }
  }
}
