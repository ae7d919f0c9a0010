/** The GO DAG after `GODag.load_obo_file` and `populate_terms`: every
    stored record with its parent and child links, its relationships
    resolved to records and completed with their inverses, and its level
    and depth. */
module TermGraph {
  import opened Wrappers
  import opened Records
  import opened GoDag
  import opened Assembly
  import opened Levels

  /** A stored GO term once populated. `term` is the record as read, with
      its raw relationship removed as `populate_terms` deletes `_relationship`. */
  datatype Node = Node(
    term: Term,
    parents: seq<nat>,
    children: seq<nat>,
    relationship: seq<RelEntry>,
    level: nat,
    depth: nat)

  /** The dictionary, its populated records by handle, and the typedefs. */
  datatype Dag = Dag(index: Index, nodes: map<nat, Node>, typedefs: map<string, Typedef>)

  /** The first loop of `populate_terms` succeeds. */
  ghost predicate Linkable(ix: Index, terms: seq<Term>) {
    && Valid(ix) && Bounded(ix, |terms|)
    && CheckLinks(ix.slot, terms, Values(ix)).Success?
  }

  /** The stored records are the ones `values()` visits, and all of them
      resolve. */
  lemma StoredResolvable(ix: Index, terms: seq<Term>)
    requires Linkable(ix, terms)
    ensures forall h | h in Values(ix) :: h < |terms| && Resolvable(ix.slot, terms[h])
  {
  }

  /** `values()` visits the record of every key. */
  lemma SlotsVisited(ix: Index)
    requires Valid(ix)
    ensures forall k | k in ix.slot :: ix.slot[k] in Values(ix)
  {
    ValuesStored(ix);
    forall k | k in ix.slot ensures ix.slot[k] in Stored(ix) {
    }
  }

  /** Each stored record's parents after the first loop. */
  function ParentMap(ix: Index, terms: seq<Term>): (ps: map<nat, seq<nat>>)
    requires Linkable(ix, terms)
    ensures forall h :: h in ps <==> h in Values(ix)
    ensures forall h, i | h in ps && 0 <= i < |ps[h]| :: ps[h][i] in ps
  {
    StoredResolvable(ix, terms);
    SlotsVisited(ix);
    map h | h in Values(ix) :: ParentsOf(ix.slot, terms[h])
  }

  /** Each stored record's relationship after the first loop, for those
      that had a raw one. */
  function RelMap(ix: Index, terms: seq<Term>): map<nat, seq<RelEntry>>
    requires Linkable(ix, terms)
  {
    StoredResolvable(ix, terms);
    map h | h in Values(ix) && terms[h].relationship.Some? :: LinkedRel(ix.slot, terms[h])
  }

  /** No record is its own ancestor through is_a: a rank that drops from
      each stored record to each stored record it names as a parent. */
  ghost predicate Acyclic(ix: Index, terms: seq<Term>, rank: map<nat, nat>)
    requires Bounded(ix, |terms|)
  {
    && (forall k | k in ix.slot :: ix.slot[k] in rank)
    && (forall k, i | k in ix.slot && 0 <= i < |terms[ix.slot[k]].isA| && terms[ix.slot[k]].isA[i] in ix.slot ::
          rank[ix.slot[terms[ix.slot[k]].isA[i]]] < rank[ix.slot[k]])
  }

  lemma RankedParents(ix: Index, terms: seq<Term>, rank: map<nat, nat>)
    requires Linkable(ix, terms) && Acyclic(ix, terms, rank)
    ensures Ranked(ParentMap(ix, terms), rank)
  {
    var ps := ParentMap(ix, terms);
    forall h | h in ps ensures h in rank && forall i | 0 <= i < |ps[h]| :: ps[h][i] in ps && ps[h][i] in rank && rank[ps[h][i]] < rank[h] {
      RankedAt(ix, terms, rank, h);
    }
  }

  /** The ranks drop from stored record `h` to each of its parents. */
  lemma RankedAt(ix: Index, terms: seq<Term>, rank: map<nat, nat>, h: nat)
    requires Linkable(ix, terms) && Acyclic(ix, terms, rank) && h in Values(ix)
    ensures var ps := ParentMap(ix, terms);
      h in ps && h in rank && forall i | 0 <= i < |ps[h]| :: ps[h][i] in ps && ps[h][i] in rank && rank[ps[h][i]] < rank[h]
  {
    SlotsVisited(ix);
    StoredResolvable(ix, terms);
    var j :| 0 <= j < |ix.keys| && Values(ix)[j] == h;
    var k := ix.keys[j];
    var ps := ParentMap(ix, terms);
    assert ps[h] == ParentsOf(ix.slot, terms[h]);
  }

  /** The children lists the second loop leaves. */
  function ChildMap(ix: Index, terms: seq<Term>): map<nat, seq<nat>>
    requires Linkable(ix, terms)
  {
    ChildrenAll(ParentMap(ix, terms), Values(ix), map[])
  }

  /** The levels (or depths) the second loop leaves. */
  function HeightMap(m: Metric, ix: Index, terms: seq<Term>, ghost rank: map<nat, nat>): (r: map<nat, nat>)
    requires Linkable(ix, terms) && Acyclic(ix, terms, rank)
    ensures forall h | h in Values(ix) :: h in r
  {
    RankedParents(ix, terms, rank);
    InitAll(m, ParentMap(ix, terms), rank, map[], Values(ix))
  }

  /** The records the second loop leaves, put together from what its
      parts produced: parents, children, relationships, levels, depths. */
  function Nodes(terms: seq<Term>, vals: seq<nat>, ps: map<nat, seq<nat>>, ch: map<nat, seq<nat>>,
                 rel: map<nat, seq<RelEntry>>, lv: map<nat, nat>, dp: map<nat, nat>): (ns: map<nat, Node>)
    requires forall h | h in vals :: h < |terms| && h in ps && h in lv && h in dp
    ensures forall h :: h in ns <==> h in vals
  {
    map h | h in vals :: Node(terms[h].(relationship := None), ps[h], Get(ch, h), RelOf(rel, h), lv[h], dp[h])
  }

  /** `populate_terms` over the stored records: the links (failing at the
      first missing id), then children, inverse relationships (failing at
      the first unknown typedef or self-inversion that adds a key), and
      levels and depths. */
  function Populate(ix: Index, terms: seq<Term>, typedefs: map<string, Typedef>, ghost rank: map<nat, nat>): (r: Result<Dag, AssemblyError>)
    requires Valid(ix) && Bounded(ix, |terms|) && Acyclic(ix, terms, rank)
    ensures CheckLinks(ix.slot, terms, Values(ix)).Failure? ==> r.Failure? && r.error.MissingId? && r.error.id !in ix.slot
    ensures r.Success? ==> Linkable(ix, terms) && InvertAll(typedefs, RelMap(ix, terms), Values(ix)).Success?
    ensures Linkable(ix, terms) && InvertAll(typedefs, RelMap(ix, terms), Values(ix)).Success? ==> r.Success?
    ensures Linkable(ix, terms) && InvertAll(typedefs, RelMap(ix, terms), Values(ix)).Failure? ==>
      r == Failure(InvertAll(typedefs, RelMap(ix, terms), Values(ix)).error)
  {
    var links := CheckLinks(ix.slot, terms, Values(ix));
    if links.Failure? then
      CheckLinksMissing(ix.slot, terms, Values(ix));
      Failure(links.error)
    else
      var rel :- InvertAll(typedefs, RelMap(ix, terms), Values(ix));
      Success(Assemble(ix, terms, typedefs, rank, rel))
  }

  /** The graph of the stored records once every link resolves: each with
      its parents, children, relationships `rel`, level and depth. */
  function Assemble(ix: Index, terms: seq<Term>, typedefs: map<string, Typedef>, ghost rank: map<nat, nat>,
                    rel: map<nat, seq<RelEntry>>): Dag
    requires Linkable(ix, terms) && Acyclic(ix, terms, rank)
  {
    NodesReady(ix, terms, rank);
    Dag(ix, Nodes(terms, Values(ix), ParentMap(ix, terms), ChildMap(ix, terms), rel,
                  HeightMap(Level, ix, terms, rank), HeightMap(Depth, ix, terms, rank)), typedefs)
  }

  /** Every record `values()` visits has its parents, level and depth. */
  lemma NodesReady(ix: Index, terms: seq<Term>, rank: map<nat, nat>)
    requires Linkable(ix, terms) && Acyclic(ix, terms, rank)
    ensures forall h | h in Values(ix) ::
      h < |terms| && h in ParentMap(ix, terms) && h in HeightMap(Level, ix, terms, rank) && h in HeightMap(Depth, ix, terms, rank)
  {
    StoredResolvable(ix, terms);
  }

  /** A successful `Populate` keeps every stored record, and only those,
      each with the fields it was read with. */
  lemma PopulateRecords(ix: Index, terms: seq<Term>, typedefs: map<string, Typedef>, rank: map<nat, nat>)
    requires Valid(ix) && Bounded(ix, |terms|) && Acyclic(ix, terms, rank)
    requires Populate(ix, terms, typedefs, rank).Success?
    ensures var d := Populate(ix, terms, typedefs, rank).value;
      && d.index == ix && d.typedefs == typedefs
      && (forall h :: h in d.nodes <==> h in Stored(ix))
      && forall h | h in d.nodes :: h < |terms| && d.nodes[h].term == terms[h].(relationship := None)
  {
    ValuesStored(ix);
    StoredResolvable(ix, terms);
  }

  /** The parent links of a populated graph. */
  function ParentLinks(d: Dag): map<nat, seq<nat>> {
    map h | h in d.nodes :: d.nodes[h].parents
  }

  /** A populated graph is closed under its links, its children lists are
      the parent lists turned around (each child once), a record is at
      level 0 exactly when it has no parents, and every parent is less deep
      than its child and at most one level above it. */
  ghost predicate Wf(d: Dag) {
    && (forall h, i | h in d.nodes && 0 <= i < |d.nodes[h].parents| ::
          && d.nodes[h].parents[i] in d.nodes
          && d.nodes[d.nodes[h].parents[i]].depth < d.nodes[h].depth
          && d.nodes[h].level <= d.nodes[d.nodes[h].parents[i]].level + 1)
    && (forall h, c | h in d.nodes && c in d.nodes[h].children :: c in d.nodes && h in d.nodes[c].parents)
    && (forall h, c | h in d.nodes && c in d.nodes && h in d.nodes[c].parents :: c in d.nodes[h].children)
    && (forall h | h in d.nodes :: NoDup(d.nodes[h].children))
    && (forall h | h in d.nodes :: d.nodes[h].level == 0 <==> d.nodes[h].parents == [])
  }

  /** Each record lists its children once, and `p` lists `c` iff `c`
      lists `p` among its parents. */
  ghost predicate ChildrenInverse(ns: map<nat, Node>) {
    && (forall p | p in ns :: NoDup(ns[p].children) && forall c | c in ns[p].children :: c in ns)
    && (forall p, c | p in ns && c in ns :: c in ns[p].children <==> p in ns[c].parents)
  }

  /** Children lists are the parent lists turned around. */
  lemma NodesChildren(terms: seq<Term>, vals: seq<nat>, ps: map<nat, seq<nat>>,
                      rel: map<nat, seq<RelEntry>>, lv: map<nat, nat>, dp: map<nat, nat>)
    requires forall h | h in vals :: h < |terms| && h in ps && h in lv && h in dp
    ensures ChildrenInverse(Nodes(terms, vals, ps, ChildrenAll(ps, vals, map[]), rel, lv, dp))
  {
    ChildrenFromNone(ps, vals);
    var ch := ChildrenAll(ps, vals, map[]);
    var ns := Nodes(terms, vals, ps, ch, rel, lv, dp);
    forall p | p in ns ensures NoDup(ns[p].children) && forall c | c in ns[p].children :: c in ns {
      assert ns[p].children == Get(ch, p);
    }
    forall p, c | p in ns && c in ns ensures c in ns[p].children <==> p in ns[c].parents {
      assert ns[p].children == Get(ch, p) && ns[c].parents == ps[c];
    }
  }

  /** Every level and depth is the record's shortest and longest distance
      from a record without parents. */
  ghost predicate Leveled(d: Dag, rank: map<nat, nat>) {
    && Ranked(ParentLinks(d), rank)
    && forall h | h in d.nodes ::
         && d.nodes[h].level == Height(Level, ParentLinks(d), rank, h)
         && d.nodes[h].depth == Height(Depth, ParentLinks(d), rank, h)
  }

  lemma NodesLevels(terms: seq<Term>, vals: seq<nat>, typedefs: map<string, Typedef>, ix: Index, ps: map<nat, seq<nat>>,
                    ch: map<nat, seq<nat>>, rel: map<nat, seq<RelEntry>>, rank: map<nat, nat>)
    requires Ranked(ps, rank) && forall h :: h in ps <==> h in vals
    requires forall h | h in vals :: h < |terms|
    ensures Leveled(Dag(ix, Nodes(terms, vals, ps, ch, rel,
      InitAll(Level, ps, rank, map[], vals), InitAll(Depth, ps, rank, map[], vals)), typedefs), rank)
  {
    var lv := InitAll(Level, ps, rank, map[], vals);
    var dp := InitAll(Depth, ps, rank, map[], vals);
    var d := Dag(ix, Nodes(terms, vals, ps, ch, rel, lv, dp), typedefs);
    NodesMetric(Level, terms, vals, ps, ch, rel, rank, lv, dp);
    NodesMetric(Depth, terms, vals, ps, ch, rel, rank, lv, dp);
    NodesParents(terms, vals, typedefs, ix, ps, ch, rel, lv, dp);
    LeveledBy(d, ps, rank);
  }

  /** The parent lists of the nodes are the ones they were built from. */
  lemma NodesParents(terms: seq<Term>, vals: seq<nat>, typedefs: map<string, Typedef>, ix: Index, ps: map<nat, seq<nat>>,
                     ch: map<nat, seq<nat>>, rel: map<nat, seq<RelEntry>>, lv: map<nat, nat>, dp: map<nat, nat>)
    requires forall h :: h in ps <==> h in vals
    requires forall h | h in vals :: h < |terms| && h in lv && h in dp
    ensures ParentLinks(Dag(ix, Nodes(terms, vals, ps, ch, rel, lv, dp), typedefs)) == ps
  {
  }

  lemma LeveledBy(d: Dag, ps: map<nat, seq<nat>>, rank: map<nat, nat>)
    requires ParentLinks(d) == ps && Ranked(ps, rank)
    requires forall h | h in d.nodes :: h in ps && Measure(Level, d.nodes[h]) == Height(Level, ps, rank, h)
    requires forall h | h in d.nodes :: h in ps && Measure(Depth, d.nodes[h]) == Height(Depth, ps, rank, h)
    ensures Leveled(d, rank)
  {
  }

  /** The level (or depth) of a node as a function of the metric. */
  function Measure(m: Metric, n: Node): nat {
    match m
    case Level => n.level
    case Depth => n.depth
  }

  /** One of the two memoised loops leaves every node its height. */
  lemma NodesMetric(m: Metric, terms: seq<Term>, vals: seq<nat>, ps: map<nat, seq<nat>>,
                    ch: map<nat, seq<nat>>, rel: map<nat, seq<RelEntry>>, rank: map<nat, nat>, lv: map<nat, nat>, dp: map<nat, nat>)
    requires Ranked(ps, rank) && forall h :: h in ps <==> h in vals
    requires forall h | h in vals :: h < |terms|
    requires lv == InitAll(Level, ps, rank, map[], vals) && dp == InitAll(Depth, ps, rank, map[], vals)
    ensures forall h | h in Nodes(terms, vals, ps, ch, rel, lv, dp) ::
      h in ps && Measure(m, Nodes(terms, vals, ps, ch, rel, lv, dp)[h]) == Height(m, ps, rank, h)
  {
    InitAllCorrect(m, ps, rank, map[], vals);
  }

  /** Level and depth against the parents, for a graph whose levels are
      right: 0 iff no parents, level at most depth, level one more than the
      shallowest parent's, depth one more than the deepest parent's. */
  lemma LevelFacts(d: Dag, rank: map<nat, nat>, h: nat)
    requires Leveled(d, rank) && h in d.nodes
    ensures d.nodes[h].level == 0 <==> d.nodes[h].parents == []
    ensures d.nodes[h].level <= d.nodes[h].depth
    ensures forall i | 0 <= i < |d.nodes[h].parents| ::
      && d.nodes[h].parents[i] in d.nodes
      && d.nodes[h].level <= d.nodes[d.nodes[h].parents[i]].level + 1
      && d.nodes[h].depth >= d.nodes[d.nodes[h].parents[i]].depth + 1
    ensures d.nodes[h].parents != [] ==>
      && (exists i | 0 <= i < |d.nodes[h].parents| :: d.nodes[h].level == d.nodes[d.nodes[h].parents[i]].level + 1)
      && (exists i | 0 <= i < |d.nodes[h].parents| :: d.nodes[h].depth == d.nodes[d.nodes[h].parents[i]].depth + 1)
  {
    var ps := ParentLinks(d);
    LevelLeDepth(ps, rank, h);
    if ps[h] != [] {
      ParentHeights(Level, ps, rank, h);
      ParentHeights(Depth, ps, rank, h);
    }
  }

  /** The children phase, spelled out. */
  lemma ChildMapIs(ix: Index, terms: seq<Term>)
    requires Linkable(ix, terms)
    ensures forall h | h in Values(ix) :: h < |terms|
    ensures ChildMap(ix, terms) == ChildrenAll(ParentMap(ix, terms), Values(ix), map[])
  {
  }

  /** The level and depth phases, spelled out. */
  lemma HeightMapIs(m: Metric, ix: Index, terms: seq<Term>, rank: map<nat, nat>)
    requires Linkable(ix, terms) && Acyclic(ix, terms, rank)
    ensures Ranked(ParentMap(ix, terms), rank)
    ensures HeightMap(m, ix, terms, rank) == InitAll(m, ParentMap(ix, terms), rank, map[], Values(ix))
  {
    RankedParents(ix, terms, rank);
  }

  /** A successful `populate_terms` leaves a well-formed graph whose
      levels and depths are right. */
  lemma PopulateWf(ix: Index, terms: seq<Term>, typedefs: map<string, Typedef>, rank: map<nat, nat>)
    requires Valid(ix) && Bounded(ix, |terms|) && Acyclic(ix, terms, rank)
    requires Populate(ix, terms, typedefs, rank).Success?
    ensures Wf(Populate(ix, terms, typedefs, rank).value)
    ensures Leveled(Populate(ix, terms, typedefs, rank).value, rank)
  {
    ChildMapIs(ix, terms);
    HeightMapIs(Level, ix, terms, rank);
    HeightMapIs(Depth, ix, terms, rank);
    NodesWf(terms, Values(ix), typedefs, ix, ParentMap(ix, terms), ChildMap(ix, terms),
            InvertAll(typedefs, RelMap(ix, terms), Values(ix)).value,
            HeightMap(Level, ix, terms, rank), HeightMap(Depth, ix, terms, rank), rank);
  }

  /** The graph the phases build from acyclic parent links is well formed
      and rightly leveled. */
  lemma NodesWf(terms: seq<Term>, vals: seq<nat>, typedefs: map<string, Typedef>, ix: Index, ps: map<nat, seq<nat>>,
                ch: map<nat, seq<nat>>, rel: map<nat, seq<RelEntry>>, lv: map<nat, nat>, dp: map<nat, nat>, rank: map<nat, nat>)
    requires Ranked(ps, rank) && forall h :: h in ps <==> h in vals
    requires forall h | h in vals :: h < |terms|
    requires ch == ChildrenAll(ps, vals, map[])
    requires lv == InitAll(Level, ps, rank, map[], vals) && dp == InitAll(Depth, ps, rank, map[], vals)
    ensures Wf(Dag(ix, Nodes(terms, vals, ps, ch, rel, lv, dp), typedefs))
    ensures Leveled(Dag(ix, Nodes(terms, vals, ps, ch, rel, lv, dp), typedefs), rank)
  {
    var d := Dag(ix, Nodes(terms, vals, ps, ch, rel, lv, dp), typedefs);
    NodesChildren(terms, vals, ps, rel, lv, dp);
    NodesLevels(terms, vals, typedefs, ix, ps, ch, rel, rank);
    WfFromLevels(d, rank);
  }

  /** Children lists that turn the parent lists around, and right levels,
      make a well-formed graph. */
  lemma WfFromLevels(d: Dag, rank: map<nat, nat>)
    requires ChildrenInverse(d.nodes) && Leveled(d, rank)
    ensures Wf(d)
  {
    forall h | h in d.nodes
      ensures (d.nodes[h].level == 0 <==> d.nodes[h].parents == [])
      ensures forall i | 0 <= i < |d.nodes[h].parents| ::
        && d.nodes[h].parents[i] in d.nodes
        && d.nodes[d.nodes[h].parents[i]].depth < d.nodes[h].depth
        && d.nodes[h].level <= d.nodes[d.nodes[h].parents[i]].level + 1
    {
      LevelFacts(d, rank, h);
    }
  }

  /** Relationship inversion at record `h`: its raw relationship survives
      resolved, its typedef is known, and when that typedef names an
      inverse every target holds the record under the inverse. */
  ghost predicate RelationshipHeld(d: Dag, terms: seq<Term>, typedefs: map<string, Typedef>, h: nat) {
    h < |terms| && h in d.nodes && terms[h].relationship.Some? ==>
      var raw := terms[h].relationship.value;
      && raw.typedef in typedefs
      && forall x | x in raw.targets ::
           && x in d.index.slot && d.index.slot[x] in d.nodes
           && Holds(d.nodes[h].relationship, raw.typedef, d.index.slot[x])
           && (typedefs[raw.typedef].inverseOf != "" ==>
                 Holds(d.nodes[d.index.slot[x]].relationship, typedefs[raw.typedef].inverseOf, h))
  }

  /** Record `h` holds `y` under `td` only as the link of one of its own
      relationship targets, or because `y` holds `h` under a typedef whose
      inverse_of is `td`. */
  ghost predicate RelationshipBounded(d: Dag, terms: seq<Term>, typedefs: map<string, Typedef>, h: nat) {
    h in d.nodes ==> forall td, y | Holds(d.nodes[h].relationship, td, y) ::
      || OwnTarget(d.index.slot, terms, h, td, y)
      || (y in d.nodes && exists a | a in typedefs :: typedefs[a].inverseOf == td && Holds(d.nodes[y].relationship, a, h))
  }

  /** `y` is the record a target of `h`'s own relationship `td` names. */
  ghost predicate OwnTarget(slot: map<string, nat>, terms: seq<Term>, h: nat, td: string, y: nat) {
    && h < |terms| && terms[h].relationship.Some? && td == terms[h].relationship.value.typedef
    && exists x | x in terms[h].relationship.value.targets :: x in slot && slot[x] == y
  }

  /** Relationship inversion holds at every record of the graph, and the
      relationships hold nothing else. */
  lemma PopulateRelationship(ix: Index, terms: seq<Term>, typedefs: map<string, Typedef>, rank: map<nat, nat>)
    requires Valid(ix) && Bounded(ix, |terms|) && Acyclic(ix, terms, rank)
    requires Populate(ix, terms, typedefs, rank).Success?
    ensures var d := Populate(ix, terms, typedefs, rank).value;
      (forall h | h in d.nodes :: RelationshipHeld(d, terms, typedefs, h)) && AllBounded(d, terms, typedefs)
  {
    var d := Populate(ix, terms, typedefs, rank).value;
    var rel0 := RelMap(ix, terms);
    var rel := InvertAll(typedefs, rel0, Values(ix)).value;
    InvertAllSpec(typedefs, rel0, Values(ix));
    PopulateRel(ix, terms, typedefs, rank);
    PopulateBounded(ix, terms, typedefs, rel0, rel, d);
    forall h | h in d.nodes
      ensures RelationshipHeld(d, terms, typedefs, h)
    {
      RelationshipOf(ix, terms, typedefs, rank, rel0, rel, h);
    }
  }

  /** Every stored record's relationship names a known typedef, and none
      of its target ids is a key of the record itself. */
  ghost predicate Invertible(ix: Index, terms: seq<Term>, typedefs: map<string, Typedef>)
    requires Bounded(ix, |terms|)
  {
    forall k | k in ix.slot && terms[ix.slot[k]].relationship.Some? ::
      && terms[ix.slot[k]].relationship.value.typedef in typedefs
      && forall x | x in terms[ix.slot[k]].relationship.value.targets && x in ix.slot :: ix.slot[x] != ix.slot[k]
  }

  /** Once every link resolves, relationships that name known typedefs
      (whose inverses are known too) and never point back at their own
      record make `populate_terms` succeed. */
  lemma PopulateSucceeds(ix: Index, terms: seq<Term>, typedefs: map<string, Typedef>, rank: map<nat, nat>)
    requires Valid(ix) && Bounded(ix, |terms|) && Acyclic(ix, terms, rank)
    requires Linkable(ix, terms) && Invertible(ix, terms, typedefs) && InversesKnown(typedefs)
    ensures Populate(ix, terms, typedefs, rank).Success?
  {
    var rel0 := RelMap(ix, terms);
    RelMapInvertible(ix, terms, typedefs);
    InvertAllSucceeds(typedefs, rel0, Values(ix));
  }

  /** The resolved relationships of invertible records have known keys and
      hold no record under itself. */
  lemma RelMapInvertible(ix: Index, terms: seq<Term>, typedefs: map<string, Typedef>)
    requires Linkable(ix, terms) && Invertible(ix, terms, typedefs)
    ensures KnownKeys(typedefs, RelMap(ix, terms)) && NoSelf(RelMap(ix, terms))
  {
    var rel0 := RelMap(ix, terms);
    forall t: nat, i | 0 <= i < |RelOf(rel0, t)| ensures RelOf(rel0, t)[i].typedef in typedefs {
      RelMapKnownAt(ix, terms, typedefs, t, i);
    }
    forall t: nat, td ensures !Holds(RelOf(rel0, t), td, t) {
      RelMapNoSelfAt(ix, terms, typedefs, t, td);
    }
  }

  lemma RelMapKnownAt(ix: Index, terms: seq<Term>, typedefs: map<string, Typedef>, t: nat, i: nat)
    requires Linkable(ix, terms) && Invertible(ix, terms, typedefs)
    requires i < |RelOf(RelMap(ix, terms), t)|
    ensures RelOf(RelMap(ix, terms), t)[i].typedef in typedefs
  {
    var rel0 := RelMap(ix, terms);
    StoredResolvable(ix, terms);
    assert t in rel0;
    var es := LinkedRel(ix.slot, terms[t]);
    assert RelOf(rel0, t) == es;
    ValuesStored(ix);
    assert t in Stored(ix);
  }

  lemma RelMapNoSelfAt(ix: Index, terms: seq<Term>, typedefs: map<string, Typedef>, t: nat, td: string)
    requires Linkable(ix, terms) && Invertible(ix, terms, typedefs)
    ensures !Holds(RelOf(RelMap(ix, terms), t), td, t)
  {
    if Holds(RelOf(RelMap(ix, terms), t), td, t) {
      RelMapOwn(ix, terms, t, td, t);
      ValuesStored(ix);
    }
  }

  /** Every record of a populated graph holds only its own links and
      inverses. */
  lemma PopulateBounded(ix: Index, terms: seq<Term>, typedefs: map<string, Typedef>,
                        rel0: map<nat, seq<RelEntry>>, rel: map<nat, seq<RelEntry>>, d: Dag)
    requires Linkable(ix, terms) && rel0 == RelMap(ix, terms)
    requires InvertAll(typedefs, rel0, Values(ix)) == Success(rel) && Justified(typedefs, rel0, rel)
    requires d.index == ix && (forall v :: v in d.nodes <==> v in Stored(ix))
    requires forall v | v in d.nodes :: d.nodes[v].relationship == RelOf(rel, v)
    ensures AllBounded(d, terms, typedefs)
  {
    RelMapFacts(ix, terms, typedefs, rel0, rel);
    BoundedAll(d, terms, typedefs, Stored(ix), rel0, rel);
  }

  /** After the inversion pass every mapping stays within the stored
      records, and the first loop's targets are each record's own. */
  lemma RelMapFacts(ix: Index, terms: seq<Term>, typedefs: map<string, Typedef>,
                    rel0: map<nat, seq<RelEntry>>, rel: map<nat, seq<RelEntry>>)
    requires Linkable(ix, terms) && rel0 == RelMap(ix, terms)
    requires InvertAll(typedefs, rel0, Values(ix)) == Success(rel)
    ensures Within(rel, Stored(ix))
    ensures forall h: nat, td, y | Holds(RelOf(rel0, h), td, y) :: OwnTarget(ix.slot, terms, h, td, y)
  {
    ValuesStored(ix);
    RelMapWithin(ix, terms);
    InvertAllWithin(typedefs, rel0, Values(ix), Stored(ix));
    RelMapOwnAll(ix, terms);
  }

  /** Every record of `d` holds only its own links and inverses. */
  ghost predicate AllBounded(d: Dag, terms: seq<Term>, typedefs: map<string, Typedef>) {
    forall h | h in d.nodes :: RelationshipBounded(d, terms, typedefs, h)
  }

  /** Every record of `d` is bounded when its mapping is `rel`'s. */
  lemma BoundedAll(d: Dag, terms: seq<Term>, typedefs: map<string, Typedef>, s: set<nat>,
                   rel0: map<nat, seq<RelEntry>>, rel: map<nat, seq<RelEntry>>)
    requires (forall v :: v in d.nodes <==> v in s) && forall v | v in d.nodes :: d.nodes[v].relationship == RelOf(rel, v)
    requires Justified(typedefs, rel0, rel) && Within(rel, s)
    requires forall h: nat, td, y | Holds(RelOf(rel0, h), td, y) :: OwnTarget(d.index.slot, terms, h, td, y)
    ensures AllBounded(d, terms, typedefs)
  {
    forall h | h in d.nodes ensures RelationshipBounded(d, terms, typedefs, h) {
      BoundedAt(d, terms, typedefs, s, rel0, rel, h);
    }
  }

  /** Every target the first loop gives is a record's own link. */
  lemma RelMapOwnAll(ix: Index, terms: seq<Term>)
    requires Linkable(ix, terms)
    ensures forall h: nat, td, y | Holds(RelOf(RelMap(ix, terms), h), td, y) :: OwnTarget(ix.slot, terms, h, td, y)
  {
    forall h: nat, td, y | Holds(RelOf(RelMap(ix, terms), h), td, y) ensures OwnTarget(ix.slot, terms, h, td, y) {
      RelMapOwn(ix, terms, h, td, y);
    }
  }

  /** A populated graph keeps the dictionary, its records are the stored
      ones, and each carries its mapping after the inversion pass. */
  lemma PopulateRel(ix: Index, terms: seq<Term>, typedefs: map<string, Typedef>, rank: map<nat, nat>)
    requires Valid(ix) && Bounded(ix, |terms|) && Acyclic(ix, terms, rank)
    requires Populate(ix, terms, typedefs, rank).Success?
    ensures var d := Populate(ix, terms, typedefs, rank).value;
      && d.index == ix && (forall v :: v in d.nodes <==> v in Stored(ix))
      && forall v | v in d.nodes :: d.nodes[v].relationship == RelOf(InvertAll(typedefs, RelMap(ix, terms), Values(ix)).value, v)
  {
    ValuesStored(ix);
  }

  /** The first loop's relationships hold only stored records, under
      stored records. */
  lemma RelMapWithin(ix: Index, terms: seq<Term>)
    requires Linkable(ix, terms)
    ensures Within(RelMap(ix, terms), Stored(ix))
  {
    ValuesStored(ix);
    forall t: nat, td, y | Holds(RelOf(RelMap(ix, terms), t), td, y) ensures t in Stored(ix) && y in Stored(ix) {
      RelMapOwn(ix, terms, t, td, y);
      assert t in Values(ix);
    }
  }

  /** What the first loop gives a record is its own relationship, linked. */
  lemma RelMapOwn(ix: Index, terms: seq<Term>, h: nat, td: string, y: nat)
    requires Linkable(ix, terms) && Holds(RelOf(RelMap(ix, terms), h), td, y)
    ensures h in Values(ix) && OwnTarget(ix.slot, terms, h, td, y)
  {
    var rel0 := RelMap(ix, terms);
    StoredResolvable(ix, terms);
    assert h in rel0;
    var es := LinkedRel(ix.slot, terms[h]);
    assert RelOf(rel0, h) == es;
    var i :| 0 <= i < |es| && es[i].typedef == td && y in es[i].targets;
  }

  /** The bound at one record, away from `Populate`: `rel` only adds
      justified targets to `rel0`, whose targets are the record's own. */
  lemma BoundedAt(d: Dag, terms: seq<Term>, typedefs: map<string, Typedef>, s: set<nat>,
                  rel0: map<nat, seq<RelEntry>>, rel: map<nat, seq<RelEntry>>, h: nat)
    requires (forall v :: v in d.nodes <==> v in s) && forall v | v in d.nodes :: d.nodes[v].relationship == RelOf(rel, v)
    requires Justified(typedefs, rel0, rel) && Within(rel, s)
    requires forall td, y | Holds(RelOf(rel0, h), td, y) :: OwnTarget(d.index.slot, terms, h, td, y)
    ensures RelationshipBounded(d, terms, typedefs, h)
  {
    if h in d.nodes {
      forall td, y | Holds(d.nodes[h].relationship, td, y)
        ensures || OwnTarget(d.index.slot, terms, h, td, y)
                || (y in d.nodes && exists a | a in typedefs :: typedefs[a].inverseOf == td && Holds(d.nodes[y].relationship, a, h))
      {
        if !Holds(RelOf(rel0, h), td, y) {
          var a :| a in typedefs && typedefs[a].inverseOf == td && Holds(RelOf(rel, y), a, h);
          assert y in s;
        }
      }
    }
  }

  lemma RelationshipOf(ix: Index, terms: seq<Term>, typedefs: map<string, Typedef>, rank: map<nat, nat>,
                       rel0: map<nat, seq<RelEntry>>, rel: map<nat, seq<RelEntry>>, h: nat)
    requires Valid(ix) && Bounded(ix, |terms|) && Acyclic(ix, terms, rank)
    requires Populate(ix, terms, typedefs, rank).Success?
    requires Linkable(ix, terms) && rel0 == RelMap(ix, terms)
    requires InvertAll(typedefs, rel0, Values(ix)) == Success(rel)
    requires AllGrow(rel0, rel)
    requires forall k, j | 0 <= k < |Values(ix)| && 0 <= j < |RelOf(rel0, Values(ix)[k])| ::
      Inverted(typedefs, rel0, rel, Values(ix)[k], j)
    requires h in Populate(ix, terms, typedefs, rank).value.nodes
    ensures RelationshipHeld(Populate(ix, terms, typedefs, rank).value, terms, typedefs, h)
  {
    var d := Populate(ix, terms, typedefs, rank).value;
    assert h in Values(ix);
    if h < |terms| && terms[h].relationship.Some? {
      StoredResolvable(ix, terms);
      var k :| 0 <= k < |Values(ix)| && Values(ix)[k] == h;
      assert RelOf(rel0, h) == LinkedRel(ix.slot, terms[h]);
      assert Inverted(typedefs, rel0, rel, h, 0);
      LinkedHeld(ix.slot, terms[h], typedefs, rel0, rel, h);
      SlotsVisited(ix);
    }
  }

  /** One record's share of the inversion, away from the graph: its
      resolved relationship grows into `rel`, and its one key was inverted. */
  lemma LinkedHeld(slot: map<string, nat>, t: Term, typedefs: map<string, Typedef>,
                   rel0: map<nat, seq<RelEntry>>, rel: map<nat, seq<RelEntry>>, h: nat)
    requires Resolvable(slot, t) && t.relationship.Some?
    requires RelOf(rel0, h) == LinkedRel(slot, t) && AllGrow(rel0, rel)
    requires Inverted(typedefs, rel0, rel, h, 0)
    ensures var raw := t.relationship.value;
      && raw.typedef in typedefs
      && forall x | x in raw.targets ::
           && x in slot
           && Holds(RelOf(rel, h), raw.typedef, slot[x])
           && (typedefs[raw.typedef].inverseOf != "" ==> Holds(RelOf(rel, slot[x]), typedefs[raw.typedef].inverseOf, h))
  {
    var es := RelOf(rel0, h);
    assert Grows(es, RelOf(rel, h));
    forall x | x in t.relationship.value.targets
      ensures x in slot && Holds(RelOf(rel, h), t.relationship.value.typedef, slot[x])
    {
      assert slot[x] in es[0].targets;
      HoldsGrows(es, RelOf(rel, h), t.relationship.value.typedef, slot[x]);
    }
  }

  /** No record reaches itself through is_a ids that are keys of `slot`:
      a rank on the records that drops from each to each parent. */
  ghost predicate AcyclicTerms(terms: seq<Term>, slot: map<string, nat>, rank: map<nat, nat>) {
    forall h | 0 <= h < |terms| :: h in rank && forall i | 0 <= i < |terms[h].isA| && terms[h].isA[i] in slot ::
      slot[terms[h].isA[i]] in rank && rank[slot[terms[h].isA[i]]] < rank[h]
  }

  /** `GODag(...)` once the reader has yielded `terms` and its typedefs:
      the records are stored as `load_obo_file` does, then populated. A
      graph built this way is well formed, and every key of the dictionary
      leads to one of its records. */
  function LoadDag(terms: seq<Term>, typedefs: map<string, Typedef>, loadObsolete: bool, ghost rank: map<nat, nat>): (r: Result<Dag, AssemblyError>)
    requires AcyclicTerms(terms, Load(terms, loadObsolete).slot, rank)
    ensures r.Success? ==> r.value.index == Load(terms, loadObsolete) && Wf(r.value)
    ensures r.Success? ==> forall k | k in r.value.index.slot :: r.value.index.slot[k] in r.value.nodes
  {
    var ix := Load(terms, loadObsolete);
    LoadBounded(terms, loadObsolete, |terms|);
    assert Acyclic(ix, terms, rank);
    var r := Populate(ix, terms, typedefs, rank);
    if r.Success? then
      PopulateWf(ix, terms, typedefs, rank);
      PopulateRecords(ix, terms, typedefs, rank);
      SlotsVisited(ix);
      ValuesStored(ix);
      r
    else r
  }
}
