/** Which reference parameters a function may change, directly or through the calls it makes.

For each contract context the program is a finite graph of functions. An edge is a call site
with, for each argument that is rooted in a parameter of the caller, the pair
(parameter of the target, parameter of the caller). */
module MutationAnalysis {
  import opened Bytes

  datatype Edge = Edge(target: Option<nat>, params: seq<(nat, nat)>)
  datatype Node = Node(direct: set<nat>, edges: seq<Edge>)
  type Graph = map<nat, Node>
  type Summaries = map<nat, set<nat>>

  /** Every function that is called is part of the program. */
  predicate Complete(g: Graph) {
    forall f, i :: f in g && 0 <= i < |g[f].edges| ==> Targets(g[f].edges[i], g.Keys)
  }

  predicate Targets(e: Edge, fs: set<nat>) {
    e.target.Some? ==> e.target.value in fs
  }

  // ---- the meaning: paths ------------------------------------------------------------

  /** f passes its parameter p to a call as parameter q of t. */
  predicate Passes(e: Edge, p: nat, t: nat, q: nat) {
    e.target == Some(t) && (q, p) in e.params
  }

  predicate Linked(g: Graph, a: (nat, nat), b: (nat, nat)) {
    a.0 in g && exists i :: 0 <= i < |g[a.0].edges| && Passes(g[a.0].edges[i], a.1, b.0, b.1)
  }

  /** A chain of calls that hands a parameter down to a function which changes it. */
  predicate MutationPath(g: Graph, path: seq<(nat, nat)>) {
    && |path| > 0
    && path[|path| - 1].0 in g && path[|path| - 1].1 in g[path[|path| - 1].0].direct
    && forall i :: 0 <= i < |path| - 1 ==> Linked(g, path[i], path[i + 1])
  }

  ghost predicate Mutated(g: Graph, f: nat, p: nat) {
    exists path :: MutationPath(g, path) && path[0] == (f, p)
  }

  /** Parameters that occur at all: only these can be marked. */
  function Occurring(n: Node): set<nat> {
    n.direct + set i, j | 0 <= i < |n.edges| && 0 <= j < |n.edges[i].params| :: n.edges[i].params[j].1
  }

  ghost function MutatedParams(g: Graph, f: nat): set<nat>
    requires f in g
  {
    set p | p in Occurring(g[f]) && Mutated(g, f, p)
  }

  lemma MutatedOccurs(g: Graph, f: nat, p: nat)
    requires Mutated(g, f, p)
    ensures f in g && p in Occurring(g[f])
  {
    var path :| MutationPath(g, path) && path[0] == (f, p);
    if |path| > 1 {
      assert Linked(g, path[0], path[1]);
    }
  }

  lemma PathExtends(g: Graph, f: nat, i: nat, p: nat, q: nat)
    requires f in g && i < |g[f].edges| && g[f].edges[i].target.Some?
    requires (q, p) in g[f].edges[i].params && Mutated(g, g[f].edges[i].target.value, q)
    ensures Mutated(g, f, p)
  {
    var t := g[f].edges[i].target.value;
    var rest :| MutationPath(g, rest) && rest[0] == (t, q);
    assert Passes(g[f].edges[i], p, t, q);
    var path := [(f, p)] + rest;
    assert path[0] == (f, p) && path[|path| - 1] == rest[|rest| - 1];
    forall k | 0 <= k < |path| - 1
      ensures Linked(g, path[k], path[k + 1])
    {
      if k > 0 {
        assert path[k] == rest[k - 1] && path[k + 1] == rest[k];
      }
    }
    assert MutationPath(g, path);
  }

  // ---- closed markings -----------------------------------------------------------------

  predicate PairClosed(s: Summaries, f: nat, t: nat, pair: (nat, nat)) {
    f in s && t in s && pair.0 in s[t] ==> pair.1 in s[f]
  }

  predicate EdgeClosed(s: Summaries, f: nat, e: Edge) {
    e.target.Some? ==> forall j :: 0 <= j < |e.params| ==> PairClosed(s, f, e.target.value, e.params[j])
  }

  predicate NodeClosed(s: Summaries, f: nat, n: Node) {
    forall i :: 0 <= i < |n.edges| ==> EdgeClosed(s, f, n.edges[i])
  }

  /** s is a marking of the functions `facts` that no call site would extend. */
  predicate FixedPoint(facts: Graph, s: Summaries) {
    s.Keys == facts.Keys && forall f :: f in facts ==> facts[f].direct <= s[f] && NodeClosed(s, f, facts[f])
  }

  /** A fixed point over a set of functions that call only each other holds every mutated
  parameter: follow the path from its end. */
  lemma {:induction false} FixedPointCovers(g: Graph, facts: Graph, s: Summaries, path: seq<(nat, nat)>)
    requires Complete(facts) && FixedPoint(facts, s)
    requires forall f :: f in facts ==> f in g && g[f] == facts[f]
    requires MutationPath(g, path) && path[0].0 in facts
    ensures path[0].1 in s[path[0].0]
  {
    if |path| > 1 {
      var (f, p) := path[0];
      var (t, q) := path[1];
      assert Linked(g, path[0], path[1]);
      var i :| 0 <= i < |g[f].edges| && Passes(g[f].edges[i], p, t, q);
      assert Targets(facts[f].edges[i], facts.Keys);
      forall k | 0 <= k < |path[1..]| - 1
        ensures Linked(g, path[1..][k], path[1..][k + 1])
      {
        assert Linked(g, path[k + 1], path[k + 2]);
      }
      FixedPointCovers(g, facts, s, path[1..]);
      assert EdgeClosed(s, f, facts[f].edges[i]);
      var j :| 0 <= j < |facts[f].edges[i].params| && facts[f].edges[i].params[j] == (q, p);
      assert PairClosed(s, f, t, facts[f].edges[i].params[j]);
    }
  }

  /** LEAST FIXED POINT. The marking by paths is a fixed point, and every fixed point
  contains it. */
  lemma MutatedIsLeast(g: Graph, s: Summaries)
    requires Complete(g)
    ensures FixedPoint(g, map f | f in g :: MutatedParams(g, f))
    ensures FixedPoint(g, s) ==> forall f :: f in g ==> MutatedParams(g, f) <= s[f]
  {
    var least := map f | f in g :: MutatedParams(g, f);
    forall f | f in g
      ensures g[f].direct <= least[f] && NodeClosed(least, f, g[f])
    {
      forall p | p in g[f].direct
        ensures p in least[f]
      {
        DirectIsMutated(g, f, p);
      }
      forall i | 0 <= i < |g[f].edges|
        ensures EdgeClosed(least, f, g[f].edges[i])
      {
        LeastEdge(g, least, f, i);
      }
    }
    if FixedPoint(g, s) {
      forall f, p | f in g && p in MutatedParams(g, f)
        ensures p in s[f]
      {
        var path :| MutationPath(g, path) && path[0] == (f, p);
        FixedPointCovers(g, g, s, path);
      }
    }
  }

  lemma DirectIsMutated(g: Graph, f: nat, p: nat)
    requires f in g && p in g[f].direct
    ensures Mutated(g, f, p)
  {
    assert MutationPath(g, [(f, p)]);
  }

  lemma LeastEdge(g: Graph, least: Summaries, f: nat, i: nat)
    requires least == map f | f in g :: MutatedParams(g, f)
    requires f in g && i < |g[f].edges|
    ensures EdgeClosed(least, f, g[f].edges[i])
  {
    var e := g[f].edges[i];
    if e.target.Some? {
      forall j | 0 <= j < |e.params|
        ensures PairClosed(least, f, e.target.value, e.params[j])
      {
        var (q, p) := e.params[j];
        if e.target.value in least && q in least[e.target.value] {
          PathExtends(g, f, i, p, q);
          MutatedOccurs(g, f, p);
        }
      }
    }
  }

  // ---- discovery -------------------------------------------------------------------------

  /** A chain of calls from a to b. */
  predicate CallPath(g: Graph, path: seq<nat>) {
    && |path| > 0 && path[|path| - 1] in g
    && forall i :: 0 <= i < |path| - 1 ==> Calls(g, path[i], path[i + 1])
  }

  predicate Calls(g: Graph, f: nat, t: nat) {
    f in g && exists i :: 0 <= i < |g[f].edges| && g[f].edges[i].target == Some(t)
  }

  ghost predicate Reaches(g: Graph, f: nat, t: nat) {
    exists path :: CallPath(g, path) && path[0] == f && path[|path| - 1] == t
  }

  ghost function Reachable(g: Graph, f: nat): set<nat> {
    set t | t in g && Reaches(g, f, t)
  }

  lemma ReachesSelf(g: Graph, f: nat)
    requires f in g
    ensures Reaches(g, f, f)
  {
    assert CallPath(g, [f]);
  }

  lemma ReachesThrough(g: Graph, f: nat, i: nat, t: nat)
    requires f in g && i < |g[f].edges| && g[f].edges[i].target.Some?
    requires Reaches(g, g[f].edges[i].target.value, t)
    ensures Reaches(g, f, t)
  {
    var rest :| CallPath(g, rest) && rest[0] == g[f].edges[i].target.value && rest[|rest| - 1] == t;
    assert g[f].edges[i].target == Some(rest[0]);
    var path := [f] + rest;
    forall k | 0 <= k < |path| - 1
      ensures Calls(g, path[k], path[k + 1])
    {
      if k > 0 {
        assert path[k] == rest[k - 1] && path[k + 1] == rest[k];
      }
    }
    assert CallPath(g, path) && path[0] == f && path[|path| - 1] == t;
  }

  lemma {:induction false} ClosedHolds(g: Graph, facts: Graph, path: seq<nat>)
    requires facts.Keys <= g.Keys && CallPath(g, path) && path[0] in facts
    requires forall f :: f in facts ==> NodeTargets(g[f], facts.Keys)
    ensures path[|path| - 1] in facts
  {
    if |path| > 1 {
      assert Calls(g, path[0], path[1]);
      var i :| 0 <= i < |g[path[0]].edges| && g[path[0]].edges[i].target == Some(path[1]);
      assert Targets(g[path[0]].edges[i], facts.Keys);
      forall k | 0 <= k < |path[1..]| - 1
        ensures Calls(g, path[1..][k], path[1..][k + 1])
      {
        assert Calls(g, path[k + 1], path[k + 2]);
      }
      ClosedHolds(g, facts, path[1..]);
    }
  }

  predicate NodeTargets(n: Node, fs: set<nat>) {
    forall i :: 0 <= i < |n.edges| ==> Targets(n.edges[i], fs)
  }

  predicate Subgraph(facts: Graph, g: Graph) {
    forall f :: f in facts ==> f in g && facts[f] == g[f]
  }

  /** `discover`: depth first; a function is entered in `facts` before its calls are followed,
  so that recursion and sharing end the walk. */
  method Discover(g: Graph, f: nat, facts: Graph) returns (facts': Graph)
    requires Complete(g) && f in g && Subgraph(facts, g)
    ensures Subgraph(facts', g) && f in facts' && facts.Keys <= facts'.Keys
    ensures forall h :: h in facts' && h !in facts ==> NodeTargets(g[h], facts'.Keys) && Reaches(g, f, h)
    decreases g.Keys - facts.Keys
  {
    if f in facts { return facts; }
    facts' := facts[f := g[f]];
    ReachesSelf(g, f);
    for i := 0 to |g[f].edges|
      invariant Subgraph(facts', g) && f in facts' && facts.Keys <= facts'.Keys
      invariant forall k :: 0 <= k < i ==> Targets(g[f].edges[k], facts'.Keys)
      invariant forall h :: h in facts' && h !in facts && h != f ==> NodeTargets(g[h], facts'.Keys)
      invariant forall h :: h in facts' && h !in facts ==> Reaches(g, f, h)
    {
      var e := g[f].edges[i];
      assert Targets(e, g.Keys);
      if e.target.Some? {
        var before := facts';
        facts' := Discover(g, e.target.value, facts');
        forall h | h in facts' && h !in before
          ensures Reaches(g, f, h)
        {
          ReachesThrough(g, f, i, h);
        }
      }
    }
  }

  /** From nothing, discovery finds exactly the functions reachable from the root. */
  method DiscoverAll(g: Graph, root: nat) returns (facts: Graph)
    requires Complete(g) && root in g
    ensures Subgraph(facts, g) && Complete(facts) && facts.Keys == Reachable(g, root)
  {
    facts := Discover(g, root, map[]);
    forall f, i | f in facts && 0 <= i < |facts[f].edges|
      ensures Targets(facts[f].edges[i], facts.Keys)
    {
      assert NodeTargets(g[f], facts.Keys);
    }
    forall t | t in Reachable(g, root)
      ensures t in facts
    {
      var path :| CallPath(g, path) && path[0] == root && path[|path| - 1] == t;
      ClosedHolds(g, facts, path);
    }
  }

  // ---- propagation -------------------------------------------------------------------------

  /** s2 marks at least what s1 marks. */
  predicate Grows(s1: Summaries, s2: Summaries) {
    s1.Keys == s2.Keys && forall f :: f in s1 ==> s1[f] <= s2[f]
  }

  ghost predicate Sound(g: Graph, s: Summaries) {
    s.Keys <= g.Keys && forall f :: f in s ==> s[f] <= MutatedParams(g, f)
  }

  lemma GrowsBack(s1: Summaries, s2: Summaries)
    requires Grows(s1, s2) && Grows(s2, s1)
    ensures s1 == s2
  {
    forall f | f in s1
      ensures s1[f] == s2[f]
    {
    }
  }

  /** The body of the innermost loop: one call site of f. */
  method PropagateEdge(g: Graph, f: nat, i: nat, s: Summaries, changed: bool)
    returns (s': Summaries, changed': bool)
    requires f in g && f in s && i < |g[f].edges| && Sound(g, s)
    ensures Sound(g, s') && Grows(s, s') && changed' == (changed || s' != s)
    ensures s' == s ==> EdgeClosed(s, f, g[f].edges[i])
  {
    s', changed' := s, changed;
    var e := g[f].edges[i];
    if e.target.None? || e.target.value !in s { return; }
    var t := e.target.value;
    for j := 0 to |e.params|
      invariant Sound(g, s') && Grows(s, s') && changed' == (changed || s' != s)
      invariant s' == s ==> forall k :: 0 <= k < j ==> PairClosed(s, f, t, e.params[k])
    {
      var (q, p) := e.params[j];
      if q in s'[t] {
        assert (q, p) in e.params;
        PathExtends(g, f, i, p, q);
        MutatedOccurs(g, f, p);
        changed' := p !in s'[f] || changed';
        ghost var before := s';
        s' := s'[f := s'[f] + {p}];
        InsertGrows(s, before, s', f, p);
      }
    }
  }

  lemma InsertGrows(s: Summaries, before: Summaries, after: Summaries, f: nat, p: nat)
    requires Grows(s, before) && f in before && after == before[f := before[f] + {p}]
    ensures Grows(s, after)
    ensures after != s <==> before != s || p !in before[f]
  {
    if after == s {
      assert Grows(after, before) && Grows(before, after);
      GrowsBack(before, after);
    }
    if before == s && p in before[f] {
      assert before[f] + {p} == before[f];
    }
  }

  method PropagateNode(g: Graph, f: nat, s: Summaries, changed: bool)
    returns (s': Summaries, changed': bool)
    requires f in g && f in s && Sound(g, s)
    ensures Sound(g, s') && Grows(s, s') && changed' == (changed || s' != s)
    ensures s' == s ==> NodeClosed(s, f, g[f])
  {
    s', changed' := s, changed;
    for i := 0 to |g[f].edges|
      invariant Sound(g, s') && Grows(s, s') && changed' == (changed || s' != s)
      invariant s' == s ==> forall k :: 0 <= k < i ==> EdgeClosed(s, f, g[f].edges[k])
    {
      ghost var before := s';
      s', changed' := PropagateEdge(g, f, i, s', changed');
      if s' == s {
        GrowsBack(s, before);
      }
    }
  }

  /** One pass of the do-while loop over all functions. */
  method Pass(g: Graph, s: Summaries) returns (s': Summaries, changed: bool)
    requires s.Keys <= g.Keys && Sound(g, s)
    ensures Sound(g, s') && Grows(s, s') && changed == (s' != s)
    ensures s' == s ==> forall f :: f in s ==> NodeClosed(s, f, g[f])
  {
    s', changed := s, false;
    var todo := s.Keys;
    while todo != {}
      invariant todo <= s.Keys
      invariant Sound(g, s') && Grows(s, s') && changed == (s' != s)
      invariant s' == s ==> forall f :: f in s && f !in todo ==> NodeClosed(s, f, g[f])
    {
      var f :| f in todo;
      ghost var before := s';
      s', changed := PropagateNode(g, f, s', changed);
      if s' == s {
        GrowsBack(s, before);
      }
      todo := todo - {f};
    }
  }

  /** The marked pairs, and the pairs that could be. */
  function Marked(s: Summaries): set<(nat, nat)> {
    set f, p | f in s && p in s[f] :: (f, p)
  }

  function Markable(g: Graph): set<(nat, nat)> {
    set f, p | f in g && p in Occurring(g[f]) :: (f, p)
  }

  lemma MarkedGrows(g: Graph, s: Summaries, s': Summaries)
    requires Sound(g, s) && Sound(g, s') && Grows(s, s') && s' != s
    ensures Markable(g) - Marked(s') < Markable(g) - Marked(s)
  {
    if forall f :: f in s ==> s'[f] <= s[f] {
      GrowsBack(s, s');
    }
    var f :| f in s && !(s'[f] <= s[f]);
    var p :| p in s'[f] && p !in s[f];
    assert (f, p) in Markable(g) - Marked(s) && (f, p) !in Markable(g) - Marked(s');
    assert Marked(s) <= Marked(s');
  }

  /** The do-while loop. It ends because every pass but the last marks a new pair. */
  method Propagate(g: Graph, s: Summaries) returns (s': Summaries)
    requires s.Keys <= g.Keys && Sound(g, s)
    ensures Sound(g, s') && Grows(s, s') && forall f :: f in s' ==> NodeClosed(s', f, g[f])
  {
    var changed := true;
    s' := s;
    while changed
      invariant Sound(g, s') && Grows(s, s')
      invariant !changed ==> forall f :: f in s' ==> NodeClosed(s', f, g[f])
      decreases Markable(g) - Marked(s'), changed
    {
      ghost var before := s';
      s', changed := Pass(g, s');
      if s' != before {
        MarkedGrows(g, before, s');
      }
    }
  }

  /** What the analysis computes for the functions it discovered. */
  lemma PropagatedExactly(g: Graph, facts: Graph, s: Summaries, f: nat)
    requires Subgraph(facts, g) && Complete(facts) && FixedPoint(facts, s) && Sound(g, s) && f in facts
    ensures s[f] == MutatedParams(g, f)
  {
    forall p | p in MutatedParams(g, f)
      ensures p in s[f]
    {
      var path :| MutationPath(g, path) && path[0] == (f, p);
      FixedPointCovers(g, facts, s, path);
    }
  }

  /** One analysis, from its root: discovery, the direct facts, then propagation. */
  method Summarize(g: Graph, root: nat) returns (s: Summaries)
    requires Complete(g) && root in g
    ensures s.Keys == Reachable(g, root)
    ensures forall f :: f in s ==> s[f] == MutatedParams(g, f)
  {
    var facts := DiscoverAll(g, root);
    s := map f | f in facts :: facts[f].direct;
    DirectIsSound(g, facts, s);
    s := Propagate(g, s);
    forall f | f in s
      ensures s[f] == MutatedParams(g, f)
    {
      PropagatedExactly(g, facts, s, f);
    }
  }

  // ---- the cache --------------------------------------------------------------------------

  /** Contract contexts, each with its own resolution of calls. */
  type Program = map<nat, Graph>

  predicate WellFormed(program: Program) {
    forall c :: c in program ==> Complete(program[c])
  }

  class Analysis {
    const program: Program
    var cache: map<(nat, nat), set<nat>>

    /** Every cached entry is the answer for its function, however it got there. */
    ghost predicate Valid()
      reads this
    {
      && WellFormed(program)
      && forall c, f :: (c, f) in cache ==>
           c in program && f in program[c] && cache[(c, f)] == MutatedParams(program[c], f)
    }

    constructor (program: Program)
      requires WellFormed(program)
      ensures Valid() && this.program == program && cache == map[]
    {
      this.program := program;
      cache := map[];
    }

    /** `analyzeFrom`. The answer does not depend on the cache; a miss enters exactly the
    functions reachable from the root, and writing an entry again never changes it. */
    method AnalyzeFrom(context: nat, root: nat) returns (r: set<nat>)
      requires Valid() && context in program && root in program[context]
      modifies this`cache
      ensures Valid()
      ensures r == MutatedParams(program[context], root)
      ensures forall k :: k in old(cache) ==> k in cache && cache[k] == old(cache[k])
      ensures cache.Keys == old(cache.Keys) +
                if (context, root) in old(cache) then {}
                else set f | f in Reachable(program[context], root) :: (context, f)
    {
      if (context, root) in cache { return cache[(context, root)]; }
      var summaries := Summarize(program[context], root);
      ReachesSelf(program[context], root);
      Record(context, summaries);
      r := cache[(context, root)];
    }

    /** Every summary of one analysis goes into the cache. */
    method Record(context: nat, summaries: Summaries)
      requires Valid() && context in program
      requires forall f :: f in summaries ==>
                 f in program[context] && summaries[f] == MutatedParams(program[context], f)
      modifies this`cache
      ensures Valid()
      ensures forall k :: k in old(cache) ==> k in cache && cache[k] == old(cache[k])
      ensures cache.Keys == old(cache.Keys) + set f | f in summaries :: (context, f)
    {
      var todo := summaries.Keys;
      while todo != {}
        invariant todo <= summaries.Keys && Valid()
        invariant forall k :: k in old(cache) ==> k in cache && cache[k] == old(cache[k])
        invariant cache.Keys == old(cache.Keys) + set f | f in summaries.Keys - todo :: (context, f)
      {
        var f :| f in todo;
        cache := cache[(context, f) := summaries[f]];
        assert summaries.Keys - (todo - {f}) == summaries.Keys - todo + {f};
        todo := todo - {f};
      }
    }

    /** Any sequence of queries: the answers are those of independent analyses. */
    method Queries(qs: seq<(nat, nat)>) returns (answers: seq<set<nat>>)
      requires Valid()
      requires forall i :: 0 <= i < |qs| ==> qs[i].0 in program && qs[i].1 in program[qs[i].0]
      modifies this`cache
      ensures Valid() && |answers| == |qs|
      ensures forall i :: 0 <= i < |qs| ==> answers[i] == MutatedParams(program[qs[i].0], qs[i].1)
      ensures forall k :: k in old(cache) ==> k in cache && cache[k] == old(cache[k])
    {
      answers := [];
      for i := 0 to |qs|
        invariant Valid() && |answers| == i
        invariant forall j :: 0 <= j < i ==> answers[j] == MutatedParams(program[qs[j].0], qs[j].1)
        invariant forall k :: k in old(cache) ==> k in cache && cache[k] == old(cache[k])
      {
        var r := AnalyzeFrom(qs[i].0, qs[i].1);
        answers := answers + [r];
      }
    }
  }

  lemma DirectIsSound(g: Graph, facts: Graph, s: Summaries)
    requires Subgraph(facts, g) && s == map f | f in facts :: facts[f].direct
    ensures Sound(g, s)
  {
    forall f, p | f in s && p in s[f]
      ensures p in MutatedParams(g, f)
    {
      DirectIsMutated(g, f, p);
    }
  }
}
