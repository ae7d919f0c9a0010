/** The read-only queries on a populated GO DAG: `has_parent` /
    `has_child`, `get_all_parents` / `get_all_children`, the two edge sets
    and `paths_to_top`. Each recursive query is stated against walks along
    the parent (or child) links. */
module Queries {
  import opened Wrappers
  import opened PyStr
  import opened Records
  import opened GoDag
  import opened TermGraph

  /** Which links a query follows: `parents` or `children`. */
  datatype Dir = Up | Down

  /** A well-formed graph whose every key leads to a record, as `GODag`
      leaves it. */
  ghost predicate Loaded(d: Dag) {
    Wf(d) && forall k | k in d.index.slot :: d.index.slot[k] in d.nodes
  }

  /** The records one step away from `h`. */
  function Next(d: Dag, dir: Dir, h: nat): seq<nat>
    requires h in d.nodes
  {
    match dir
    case Up => d.nodes[h].parents
    case Down => d.nodes[h].children
  }

  function IdOf(d: Dag, h: nat): string
    requires h in d.nodes
  {
    d.nodes[h].term.id
  }

  /** Record `a` has GO id `id`. */
  ghost predicate Names(d: Dag, a: nat, id: string) {
    a in d.nodes && d.nodes[a].term.id == id
  }

  // ------------------------------------------------------------ termination

  /** A bound on the depths of the records in `ks`. */
  ghost function Deepest(ns: map<nat, Node>, ks: set<nat>): (r: nat)
    requires ks <= ns.Keys
    ensures forall h | h in ks :: ns[h].depth <= r
    decreases ks
  {
    if ks == {} then 0
    else
      var h :| h in ks;
      var r := Deepest(ns, ks - {h});
      if ns[h].depth > r then ns[h].depth else r
  }

  /** What shrinks along a step: the depth going up, the distance to the
      deepest record going down. */
  ghost function Dist(d: Dag, dir: Dir, h: nat): nat
    requires h in d.nodes
  {
    match dir
    case Up => d.nodes[h].depth
    case Down => Deepest(d.nodes, d.nodes.Keys) - d.nodes[h].depth
  }

  /** Every step leads to a record, closer to the end of the links. */
  lemma NextCloser(d: Dag, dir: Dir, h: nat)
    requires Wf(d) && h in d.nodes
    ensures forall x | x in Next(d, dir, h) :: x in d.nodes && Dist(d, dir, x) < Dist(d, dir, h)
  {
    if dir == Up {
      forall x | x in Next(d, dir, h) ensures x in d.nodes && Dist(d, dir, x) < Dist(d, dir, h) {
        var i :| 0 <= i < |d.nodes[h].parents| && d.nodes[h].parents[i] == x;
      }
    } else {
      var top := Deepest(d.nodes, d.nodes.Keys);
      forall x | x in Next(d, dir, h) ensures x in d.nodes && Dist(d, dir, x) < Dist(d, dir, h) {
        assert x in d.nodes && h in d.nodes[x].parents;
        var i :| 0 <= i < |d.nodes[x].parents| && d.nodes[x].parents[i] == h;
        assert d.nodes[x].depth <= top;
      }
    }
  }

  /** Every step leads to a record closer to the end of the links: what
      the recursive queries need to terminate. */
  ghost predicate Steps(d: Dag, dir: Dir) {
    forall h, x | h in d.nodes && x in Next(d, dir, h) :: x in d.nodes && Dist(d, dir, x) < Dist(d, dir, h)
  }

  lemma WfSteps(d: Dag, dir: Dir)
    requires Wf(d)
    ensures Steps(d, dir)
  {
    forall h | h in d.nodes ensures forall x | x in Next(d, dir, h) :: x in d.nodes && Dist(d, dir, x) < Dist(d, dir, h) {
      NextCloser(d, dir, h);
    }
  }

  // ------------------------------------------------------------ walks

  /** A walk along the links: each record the next one's parent (or child). */
  ghost predicate Walk(d: Dag, dir: Dir, p: seq<nat>) {
    && |p| >= 1
    && (forall i | 0 <= i < |p| :: p[i] in d.nodes)
    && forall i | 0 <= i < |p| - 1 :: p[i] in d.nodes && p[i + 1] in Next(d, dir, p[i])
  }

  /** `a` lies at least one step from `h`: an ancestor (or descendant). */
  ghost predicate Reach(d: Dag, dir: Dir, h: nat, a: nat) {
    exists p | Walk(d, dir, p) && |p| >= 2 :: p[0] == h && p[|p| - 1] == a
  }

  /** Reaching `a` from `h` is one step, then nothing more or a walk on. */
  lemma ReachStep(d: Dag, dir: Dir, h: nat, a: nat)
    requires Steps(d, dir) && h in d.nodes
    ensures Reach(d, dir, h, a) <==> exists x | x in Next(d, dir, h) :: x == a || Reach(d, dir, x, a)
  {
    if Reach(d, dir, h, a) {
      var p :| Walk(d, dir, p) && |p| >= 2 && p[0] == h && p[|p| - 1] == a;
      if |p| > 2 {
        WalkTail(d, dir, p);
      }
      assert p[1] in Next(d, dir, h);
    }
    if exists x | x in Next(d, dir, h) :: x == a || Reach(d, dir, x, a) {
      var x :| x in Next(d, dir, h) && (x == a || Reach(d, dir, x, a));
      if x == a {
        assert Walk(d, dir, [h, a]);
      } else {
        var q :| Walk(d, dir, q) && |q| >= 2 && q[0] == x && q[|q| - 1] == a;
        WalkCons(d, dir, h, q);
      }
    }
  }

  /** A walk of three or more records without its first is a walk. */
  lemma WalkTail(d: Dag, dir: Dir, p: seq<nat>)
    requires Walk(d, dir, p) && |p| > 2
    ensures Walk(d, dir, p[1..]) && Reach(d, dir, p[1], p[|p| - 1])
  {
    var q := p[1..];
    assert forall i | 0 <= i < |q| :: q[i] == p[i + 1];
    assert q[0] == p[1] && q[|q| - 1] == p[|p| - 1];
  }

  /** A step in front of a walk is a walk. */
  lemma WalkCons(d: Dag, dir: Dir, h: nat, q: seq<nat>)
    requires h in d.nodes && Walk(d, dir, q) && q[0] in Next(d, dir, h)
    ensures Walk(d, dir, [h] + q) && Reach(d, dir, h, q[|q| - 1])
  {
    var p := [h] + q;
    assert forall i | 1 <= i < |p| :: p[i] == q[i - 1];
    assert p[0] == h && p[|p| - 1] == q[|q| - 1];
  }

  /** Two walks joined end to start are a walk. */
  lemma ReachTrans(d: Dag, dir: Dir, h: nat, a: nat, b: nat)
    requires Reach(d, dir, h, a) && Reach(d, dir, a, b)
    ensures Reach(d, dir, h, b)
  {
    var p :| Walk(d, dir, p) && |p| >= 2 && p[0] == h && p[|p| - 1] == a;
    var q :| Walk(d, dir, q) && |q| >= 2 && q[0] == a && q[|q| - 1] == b;
    var w := p + q[1..];
    assert forall i | 0 <= i < |w| :: w[i] == if i < |p| then p[i] else q[i - |p| + 1];
    assert Walk(d, dir, w) && w[0] == h && w[|w| - 1] == b;
  }

  /** A walk read backwards. */
  function Reverse(p: seq<nat>): seq<nat>
  {
    seq(|p|, i requires 0 <= i < |p| => p[|p| - 1 - i])
  }

  function Flip(dir: Dir): Dir {
    match dir
    case Up => Down
    case Down => Up
  }

  /** In a well-formed graph a walk down the children is a walk up the
      parents read backwards, and the other way round. */
  lemma WalkReverse(d: Dag, dir: Dir, p: seq<nat>)
    requires Wf(d) && Walk(d, dir, p)
    ensures Walk(d, Flip(dir), Reverse(p))
    ensures |Reverse(p)| == |p| && (p != [] ==> Reverse(p)[0] == p[|p| - 1] && Reverse(p)[|p| - 1] == p[0])
  {
    WfMirrored(d, dir);
    MirroredWalkReverse(d, dir, p);
  }

  /** Every edge in direction `dir` is also an edge the other way. */
  ghost predicate Mirrored(d: Dag, dir: Dir) {
    forall h, x | h in d.nodes && x in Next(d, dir, h) :: x in d.nodes && h in Next(d, Flip(dir), x)
  }

  lemma WfMirrored(d: Dag, dir: Dir)
    requires Wf(d)
    ensures Mirrored(d, dir)
  {
    if dir == Up {
      forall h, x | h in d.nodes && x in d.nodes[h].parents ensures x in d.nodes && h in d.nodes[x].children {
        var i :| 0 <= i < |d.nodes[h].parents| && d.nodes[h].parents[i] == x;
        assert x in d.nodes;
      }
    } else {
      forall h, x | h in d.nodes && x in d.nodes[h].children ensures x in d.nodes && h in d.nodes[x].parents {
      }
    }
  }

  lemma MirroredWalkReverse(d: Dag, dir: Dir, p: seq<nat>)
    requires Mirrored(d, dir) && Walk(d, dir, p)
    ensures Walk(d, Flip(dir), Reverse(p))
  {
    var r := Reverse(p);
    forall i | 0 <= i < |r| - 1 ensures r[i + 1] in Next(d, Flip(dir), r[i]) {
      var j := |p| - 2 - i;
      assert r[i] == p[j + 1] && r[i + 1] == p[j];
      assert p[j + 1] in Next(d, dir, p[j]);
    }
  }

  /** `a` is a descendant of `h` exactly when `h` is an ancestor of `a`. */
  lemma ReachDual(d: Dag, h: nat, a: nat)
    requires Wf(d)
    ensures Reach(d, Down, h, a) <==> Reach(d, Up, a, h)
  {
    if Reach(d, Down, h, a) {
      var p :| Walk(d, Down, p) && |p| >= 2 && p[0] == h && p[|p| - 1] == a;
      WalkReverse(d, Down, p);
    }
    if Reach(d, Up, a, h) {
      var p :| Walk(d, Up, p) && |p| >= 2 && p[0] == a && p[|p| - 1] == h;
      WalkReverse(d, Up, p);
    }
  }

  /** Every ancestor lies strictly less deep: going up never comes back. */
  lemma {:induction false} WalkUpShallower(d: Dag, p: seq<nat>)
    requires Wf(d) && Walk(d, Up, p)
    ensures d.nodes[p[|p| - 1]].depth + |p| - 1 <= d.nodes[p[0]].depth
    decreases |p|
  {
    if |p| > 1 {
      var q := p[1..];
      assert forall i | 0 <= i < |q| :: q[i] == p[i + 1];
      WalkUpShallower(d, q);
      var j :| 0 <= j < |d.nodes[p[0]].parents| && d.nodes[p[0]].parents[j] == p[1];
    }
  }

  /** No record is its own ancestor. */
  lemma NotOwnAncestor(d: Dag, h: nat)
    requires Wf(d)
    ensures !Reach(d, Up, h, h)
  {
    if Reach(d, Up, h, h) {
      var p :| Walk(d, Up, p) && |p| >= 2 && p[0] == h && p[|p| - 1] == h;
      WalkUpShallower(d, p);
    }
  }

  // ------------------------------------------------------------ has_parent / get_all_parents

  /** `rec.has_parent(term)` (Up) and `rec.has_child(term)` (Down): some
      record one step away has GO id `id` or has it further on. */
  function Has(d: Dag, dir: Dir, h: nat, id: string): bool
    requires Steps(d, dir) && h in d.nodes
    decreases Dist(d, dir, h)
  {
    exists x | x in Next(d, dir, h) :: IdOf(d, x) == id || Has(d, dir, x, id)
  }

  /** `rec.get_all_parents()` (Up) and `rec.get_all_children()` (Down): the
      GO ids one step away, with theirs. */
  function AllIds(d: Dag, dir: Dir, h: nat): set<string>
    requires Steps(d, dir) && h in d.nodes
    decreases Dist(d, dir, h)
  {
    set x, s | x in Next(d, dir, h) && s in {IdOf(d, x)} + AllIds(d, dir, x) :: s
  }

  /** The edge a step adds: `(self.id, parent.id)` going up,
      `(child.id, self.id)` going down; child first either way. */
  function Edge(d: Dag, dir: Dir, h: nat, x: nat): (string, string)
    requires h in d.nodes && x in d.nodes
  {
    match dir
    case Up => (IdOf(d, h), IdOf(d, x))
    case Down => (IdOf(d, x), IdOf(d, h))
  }

  /** `rec.get_all_parent_edges()` (Up) and `rec.get_all_child_edges()`
      (Down). */
  function Edges(d: Dag, dir: Dir, h: nat): set<(string, string)>
    requires Steps(d, dir) && h in d.nodes
    decreases Dist(d, dir, h)
  {
    set x, e | x in Next(d, dir, h) && e in {Edge(d, dir, h, x)} + Edges(d, dir, x) :: e
  }

  /** One step of `get_all_parents()`: an id is collected iff a record one
      step away has it or collects it. */
  lemma AllIdsStep(d: Dag, dir: Dir, h: nat, id: string)
    requires Steps(d, dir) && h in d.nodes
    ensures id in AllIds(d, dir, h) <==>
      exists x | x in Next(d, dir, h) && x in d.nodes :: IdOf(d, x) == id || id in AllIds(d, dir, x)
  {
    if id in AllIds(d, dir, h) {
      var x := AllIdsWitness(d, dir, h, id);
    }
    if exists x | x in Next(d, dir, h) && x in d.nodes :: IdOf(d, x) == id || id in AllIds(d, dir, x) {
      var x :| x in Next(d, dir, h) && x in d.nodes && (IdOf(d, x) == id || id in AllIds(d, dir, x));
      AllIdsVia(d, dir, h, x, id);
    }
  }

  /** A collected id comes from some record one step away. */
  lemma AllIdsWitness(d: Dag, dir: Dir, h: nat, id: string) returns (x: nat)
    requires Steps(d, dir) && h in d.nodes && id in AllIds(d, dir, h)
    ensures x in Next(d, dir, h) && x in d.nodes && (IdOf(d, x) == id || id in AllIds(d, dir, x))
  {
    x :| x in Next(d, dir, h) && id in {IdOf(d, x)} + AllIds(d, dir, x);
  }

  /** The id of a record one step away, and every id it collects, is
      collected. */
  lemma AllIdsVia(d: Dag, dir: Dir, h: nat, x: nat, id: string)
    requires Steps(d, dir) && h in d.nodes && x in Next(d, dir, h) && x in d.nodes
    requires IdOf(d, x) == id || id in AllIds(d, dir, x)
    ensures id in AllIds(d, dir, h)
  {
    assert id in {IdOf(d, x)} + AllIds(d, dir, x);
  }

  /** One step of the edge sets. */
  lemma EdgesStep(d: Dag, dir: Dir, h: nat, e: (string, string))
    requires Steps(d, dir) && h in d.nodes
    ensures e in Edges(d, dir, h) <==>
      exists x | x in Next(d, dir, h) && x in d.nodes :: e == Edge(d, dir, h, x) || e in Edges(d, dir, x)
  {
    if e in Edges(d, dir, h) {
      var x := EdgesWitness(d, dir, h, e);
    }
    if exists x | x in Next(d, dir, h) && x in d.nodes :: e == Edge(d, dir, h, x) || e in Edges(d, dir, x) {
      var x :| x in Next(d, dir, h) && x in d.nodes && (e == Edge(d, dir, h, x) || e in Edges(d, dir, x));
      EdgesVia(d, dir, h, x, e);
    }
  }

  /** A collected edge comes from some record one step away. */
  lemma EdgesWitness(d: Dag, dir: Dir, h: nat, e: (string, string)) returns (x: nat)
    requires Steps(d, dir) && h in d.nodes && e in Edges(d, dir, h)
    ensures x in Next(d, dir, h) && x in d.nodes && (e == Edge(d, dir, h, x) || e in Edges(d, dir, x))
  {
    x :| x in Next(d, dir, h) && e in {Edge(d, dir, h, x)} + Edges(d, dir, x);
  }

  /** The edge to a record one step away, and every edge it collects, is
      collected. */
  lemma EdgesVia(d: Dag, dir: Dir, h: nat, x: nat, e: (string, string))
    requires Steps(d, dir) && h in d.nodes && x in Next(d, dir, h) && x in d.nodes
    requires e == Edge(d, dir, h, x) || e in Edges(d, dir, x)
    ensures e in Edges(d, dir, h)
  {
    assert e in {Edge(d, dir, h, x)} + Edges(d, dir, x);
  }

  /** `has_parent(id)` holds exactly when `id` is among `get_all_parents()`
      (and likewise for children). */
  lemma {:induction false} HasAllIds(d: Dag, dir: Dir, h: nat, id: string)
    requires Steps(d, dir) && h in d.nodes
    ensures Has(d, dir, h, id) <==> id in AllIds(d, dir, h)
    decreases Dist(d, dir, h)
  {
    if Has(d, dir, h, id) {
      var x :| x in Next(d, dir, h) && (IdOf(d, x) == id || Has(d, dir, x, id));
      HasAllIds(d, dir, x, id);
      AllIdsVia(d, dir, h, x, id);
    }
    if id in AllIds(d, dir, h) {
      var x := AllIdsWitness(d, dir, h, id);
      HasAllIds(d, dir, x, id);
      assert IdOf(d, x) == id || Has(d, dir, x, id);
    }
  }

  /** `get_all_parents()` is the set of GO ids of the ancestors (and
      `get_all_children()` of the descendants). */
  lemma AllIdsReach(d: Dag, dir: Dir, h: nat, id: string)
    requires Steps(d, dir) && h in d.nodes
    ensures id in AllIds(d, dir, h) <==> exists a :: Reach(d, dir, h, a) && Names(d, a, id)
  {
    if id in AllIds(d, dir, h) {
      var a := AllIdsSound(d, dir, h, id);
    }
    if exists a :: Reach(d, dir, h, a) && Names(d, a, id) {
      var a :| Reach(d, dir, h, a) && Names(d, a, id);
      AllIdsComplete(d, dir, h, a, id);
    }
  }

  /** Every collected id names a record above (below). */
  lemma {:induction false} AllIdsSound(d: Dag, dir: Dir, h: nat, id: string) returns (a: nat)
    requires Steps(d, dir) && h in d.nodes && id in AllIds(d, dir, h)
    ensures Reach(d, dir, h, a) && Names(d, a, id)
    decreases Dist(d, dir, h)
  {
    var x := AllIdsWitness(d, dir, h, id);
    if IdOf(d, x) == id {
      a := x;
    } else {
      a := AllIdsSound(d, dir, x, id);
    }
    ReachStep(d, dir, h, a);
  }

  /** Every record above (below) has its ids collected. */
  lemma {:induction false} AllIdsComplete(d: Dag, dir: Dir, h: nat, a: nat, id: string)
    requires Steps(d, dir) && h in d.nodes && Reach(d, dir, h, a) && Names(d, a, id)
    ensures id in AllIds(d, dir, h)
    decreases Dist(d, dir, h)
  {
    ReachStep(d, dir, h, a);
    var x :| x in Next(d, dir, h) && (x == a || Reach(d, dir, x, a));
    if x != a {
      AllIdsComplete(d, dir, x, a, id);
    }
    AllIdsVia(d, dir, h, x, id);
  }

  /** `has_parent(id)` holds exactly when some ancestor has GO id `id`. */
  lemma HasReach(d: Dag, dir: Dir, h: nat, id: string)
    requires Steps(d, dir) && h in d.nodes
    ensures Has(d, dir, h, id) <==> exists a :: Reach(d, dir, h, a) && Names(d, a, id)
  {
    HasAllIds(d, dir, h, id);
    AllIdsReach(d, dir, h, id);
  }

  /** A step taken from the record or from one of its ancestors
      (descendants). */
  ghost predicate StepBelow(d: Dag, dir: Dir, h: nat, a: nat, b: nat) {
    (a == h || Reach(d, dir, h, a)) && a in d.nodes && b in Next(d, dir, a) && b in d.nodes
  }

  /** The edge sets hold the edge of every such step, and nothing else. */
  lemma EdgesReach(d: Dag, dir: Dir, h: nat, e: (string, string))
    requires Steps(d, dir) && h in d.nodes
    ensures e in Edges(d, dir, h) <==> exists a, b | StepBelow(d, dir, h, a, b) :: e == Edge(d, dir, a, b)
  {
    if e in Edges(d, dir, h) {
      EdgesSound(d, dir, h, e);
    }
    if exists a, b | StepBelow(d, dir, h, a, b) :: e == Edge(d, dir, a, b) {
      var a, b :| StepBelow(d, dir, h, a, b) && e == Edge(d, dir, a, b);
      EdgesComplete(d, dir, h, a, b);
    }
  }

  lemma {:induction false} EdgesSound(d: Dag, dir: Dir, h: nat, e: (string, string))
    requires Steps(d, dir) && h in d.nodes && e in Edges(d, dir, h)
    ensures exists a, b | StepBelow(d, dir, h, a, b) :: e == Edge(d, dir, a, b)
    decreases Dist(d, dir, h)
  {
    EdgesStep(d, dir, h, e);
    var x :| x in Next(d, dir, h) && (e == Edge(d, dir, h, x) || e in Edges(d, dir, x));
    if e == Edge(d, dir, h, x) {
      assert StepBelow(d, dir, h, h, x);
    } else {
      EdgesSound(d, dir, x, e);
      var a, b :| StepBelow(d, dir, x, a, b) && e == Edge(d, dir, a, b);
      ReachStep(d, dir, h, a);
      assert StepBelow(d, dir, h, a, b);
    }
  }

  lemma {:induction false} EdgesComplete(d: Dag, dir: Dir, h: nat, a: nat, b: nat)
    requires Steps(d, dir) && h in d.nodes && StepBelow(d, dir, h, a, b)
    ensures Edge(d, dir, a, b) in Edges(d, dir, h)
    decreases Dist(d, dir, h)
  {
    var e := Edge(d, dir, a, b);
    if a == h {
      EdgesStep(d, dir, h, e);
    } else {
      ReachStep(d, dir, h, a);
      var x :| x in Next(d, dir, h) && (x == a || Reach(d, dir, x, a));
      assert StepBelow(d, dir, x, a, b);
      EdgesComplete(d, dir, x, a, b);
      EdgesStep(d, dir, h, e);
    }
  }

  /** `has_child(id)` of `h` holds exactly when some record with GO id `id`
      has `h` among its ancestors. */
  lemma HasChildDual(d: Dag, h: nat, id: string)
    requires Wf(d) && Steps(d, Down) && h in d.nodes
    ensures Has(d, Down, h, id) <==> exists a :: Reach(d, Up, a, h) && Names(d, a, id)
  {
    HasReach(d, Down, h, id);
    forall a ensures Reach(d, Down, h, a) <==> Reach(d, Up, a, h) {
      ReachDual(d, h, a);
    }
  }

  // ------------------------------------------------------------ paths_to_top

  /** `[path + [h] for path in ps]`. */
  function Extend(ps: seq<seq<nat>>, h: nat): seq<seq<nat>>
  {
    seq(|ps|, k requires 0 <= k < |ps| => ps[k] + [h])
  }

  /** `_paths_to_top_recursive(rec)`: a record at level 0 is its own only
      path; otherwise every path of each parent in turn, extended by the
      record. */
  function PathsFrom(d: Dag, h: nat): seq<seq<nat>>
    requires Steps(d, Up) && h in d.nodes
    decreases Dist(d, Up, h), 1
  {
    if d.nodes[h].level == 0 then [[h]] else PathsVia(d, h, 0)
  }

  /** The paths through the parents `i` onwards. */
  function PathsVia(d: Dag, h: nat, i: nat): seq<seq<nat>>
    requires Steps(d, Up) && h in d.nodes && i <= |d.nodes[h].parents|
    decreases Dist(d, Up, h), 0, |d.nodes[h].parents| - i
  {
    assert i < |d.nodes[h].parents| ==> d.nodes[h].parents[i] in Next(d, Up, h);
    if i == |d.nodes[h].parents| then []
    else Extend(PathsFrom(d, d.nodes[h].parents[i]), h) + PathsVia(d, h, i + 1)
  }

  /** `GODag.paths_to_top(term)`: nothing for an id that is not a key,
      else the paths of the record stored under it. */
  function PathsToTop(d: Dag, id: string): (r: Option<seq<seq<nat>>>)
    requires Loaded(d)
    ensures r.None? <==> id !in d.index.slot
  {
    WfSteps(d, Up);
    if id !in d.index.slot then None else Some(PathsFrom(d, d.index.slot[id]))
  }

  /** Level 0 marks exactly the records without parents. */
  ghost predicate Roots(d: Dag) {
    forall h | h in d.nodes :: d.nodes[h].level == 0 <==> d.nodes[h].parents == []
  }

  /** `p` runs from a record without parents down to `h`, each record a
      parent of the next. */
  ghost predicate TopPath(d: Dag, h: nat, p: seq<nat>) {
    && |p| >= 1 && p[|p| - 1] == h
    && (forall k | 0 <= k < |p| :: p[k] in d.nodes)
    && d.nodes[p[0]].parents == []
    && forall k | 1 <= k < |p| :: p[k - 1] in d.nodes[p[k]].parents
  }

  lemma ExtendMember(ps: seq<seq<nat>>, h: nat, q: seq<nat>)
    ensures q in Extend(ps, h) <==> |q| >= 1 && q[|q| - 1] == h && q[..|q| - 1] in ps
  {
    var r := Extend(ps, h);
    if q in r {
      var k :| 0 <= k < |r| && r[k] == q;
      assert q[..|q| - 1] == ps[k];
    }
    if |q| >= 1 && q[|q| - 1] == h && q[..|q| - 1] in ps {
      var k :| 0 <= k < |ps| && ps[k] == q[..|q| - 1];
      assert r[k] == q;
    }
  }

  /** A path through the parents `i` onwards is a path of one of them,
      extended by `h`. */
  lemma {:induction false} PathsViaMember(d: Dag, h: nat, i: nat, q: seq<nat>)
    requires Steps(d, Up) && h in d.nodes && i <= |d.nodes[h].parents|
    ensures q in PathsVia(d, h, i) <==>
      && |q| >= 1 && q[|q| - 1] == h
      && exists j | i <= j < |d.nodes[h].parents| :: q[..|q| - 1] in PathsFrom(d, d.nodes[h].parents[j])
    decreases |d.nodes[h].parents| - i
  {
    var ps := d.nodes[h].parents;
    if i < |ps| {
      PathsViaMember(d, h, i + 1, q);
      ExtendMember(PathsFrom(d, ps[i]), h, q);
    }
  }

  /** A path to `x`, a parent of `h`, extended by `h` is a path to `h`. */
  lemma TopPathSnoc(d: Dag, h: nat, x: nat, p: seq<nat>)
    requires h in d.nodes && x in d.nodes[h].parents && TopPath(d, x, p)
    ensures TopPath(d, h, p + [h])
  {
    var q := p + [h];
    assert forall k | 0 <= k < |p| :: q[k] == p[k];
  }

  /** A path to `h` of two records or more, without `h`, is a path to the
      parent before it. */
  lemma TopPathInit(d: Dag, h: nat, q: seq<nat>)
    requires TopPath(d, h, q) && |q| >= 2
    ensures q[|q| - 2] in d.nodes[h].parents && TopPath(d, q[|q| - 2], q[..|q| - 1])
  {
    var p := q[..|q| - 1];
    assert forall k | 0 <= k < |p| :: p[k] == q[k];
  }

  /** `paths_to_top` finds every path from a record without parents down
      to the record, and nothing else. */
  lemma PathsFromSpec(d: Dag, h: nat, q: seq<nat>)
    requires Steps(d, Up) && Roots(d) && h in d.nodes
    ensures q in PathsFrom(d, h) <==> TopPath(d, h, q)
  {
    if q in PathsFrom(d, h) {
      PathsSound(d, h, q);
    }
    if TopPath(d, h, q) {
      PathsComplete(d, h, q);
    }
  }

  lemma {:induction false} PathsSound(d: Dag, h: nat, q: seq<nat>)
    requires Steps(d, Up) && Roots(d) && h in d.nodes && q in PathsFrom(d, h)
    ensures TopPath(d, h, q)
    decreases d.nodes[h].depth
  {
    var ps := d.nodes[h].parents;
    if d.nodes[h].level == 0 {
      assert q == [h];
    } else {
      var j := PathsSplit(d, h, q);
      PathsSound(d, ps[j], q[..|q| - 1]);
      TopPathSnoc(d, h, ps[j], q[..|q| - 1]);
      assert q[..|q| - 1] + [h] == q;
    }
  }

  /** A path of a record above level 0 is a path of one of its parents,
      extended by the record. */
  lemma PathsSplit(d: Dag, h: nat, q: seq<nat>) returns (j: nat)
    requires Steps(d, Up) && h in d.nodes && d.nodes[h].level != 0 && q in PathsFrom(d, h)
    ensures j < |d.nodes[h].parents| && |q| >= 1 && q[|q| - 1] == h
    ensures d.nodes[h].parents[j] in d.nodes && d.nodes[d.nodes[h].parents[j]].depth < d.nodes[h].depth
    ensures q[..|q| - 1] in PathsFrom(d, d.nodes[h].parents[j])
  {
    var ps := d.nodes[h].parents;
    PathsViaMember(d, h, 0, q);
    j :| 0 <= j < |ps| && q[..|q| - 1] in PathsFrom(d, ps[j]);
    assert ps[j] in Next(d, Up, h);
  }

  lemma {:induction false} PathsComplete(d: Dag, h: nat, q: seq<nat>)
    requires Steps(d, Up) && Roots(d) && h in d.nodes && TopPath(d, h, q)
    ensures q in PathsFrom(d, h)
    decreases d.nodes[h].depth
  {
    var ps := d.nodes[h].parents;
    if |q| >= 2 {
      TopPathInit(d, h, q);
    }
    if d.nodes[h].level == 0 {
      assert q == [h];
    } else {
      var x := q[|q| - 2];
      var j :| 0 <= j < |ps| && ps[j] == x;
      assert x in Next(d, Up, h);
      PathsComplete(d, x, q[..|q| - 1]);
      PathsViaMember(d, h, 0, q);
    }
  }

  /** The paths of a term given by id: each starts at a record without
      parents and ends at the record stored under `id`, all of them are
      there, and there is at least one. */
  lemma PathsToTopSpec(d: Dag, id: string, q: seq<nat>)
    requires Loaded(d) && id in d.index.slot
    ensures q in PathsToTop(d, id).value <==> TopPath(d, d.index.slot[id], q)
    ensures |PathsToTop(d, id).value| >= 1
  {
    WfSteps(d, Up);
    PathsFromSpec(d, d.index.slot[id], q);
    PathsNonEmpty(d, d.index.slot[id]);
  }

  /** Every record has at least one path. */
  lemma {:induction false} PathsNonEmpty(d: Dag, h: nat)
    requires Steps(d, Up) && Roots(d) && h in d.nodes
    ensures |PathsFrom(d, h)| >= 1
    decreases d.nodes[h].depth
  {
    if d.nodes[h].level != 0 {
      var p := d.nodes[h].parents[0];
      assert p in Next(d, Up, h);
      PathsNonEmpty(d, p);
      assert PathsVia(d, h, 0) == Extend(PathsFrom(d, p), h) + PathsVia(d, h, 1);
    }
  }

  /** A path to a record is at least its level and at most its depth steps
      long. */
  lemma {:induction false} TopPathLength(d: Dag, h: nat, q: seq<nat>)
    requires Wf(d) && TopPath(d, h, q)
    ensures d.nodes[h].level <= |q| - 1 <= d.nodes[h].depth
    decreases |q|
  {
    if |q| >= 2 {
      TopPathInit(d, h, q);
      var x := q[|q| - 2];
      TopPathLength(d, x, q[..|q| - 1]);
      var j :| 0 <= j < |d.nodes[h].parents| && d.nodes[h].parents[j] == x;
    }
  }
}
