/** `_init_level` and `_init_depth` inside `GODag.populate_terms`: a
    record's level is its shortest distance from a record without parents,
    its depth the longest, both computed recursively over the parents and
    memoised on the records. The parent links must be acyclic (`obo_parser.py`
    recurses without bound otherwise); a rank that strictly decreases from
    a record to each parent is the witness. */
module Levels {

  /** Which of the two is computed: `min` for level, `max` for depth. */
  datatype Metric = Level | Depth

  /** The combining step of the generator expression. */
  function Pick(m: Metric, a: nat, b: nat): (r: nat)
    ensures m == Level ==> r <= a && r <= b && (r == a || r == b)
    ensures m == Depth ==> r >= a && r >= b && (r == a || r == b)
  {
    match m
    case Level => if a <= b then a else b
    case Depth => if a >= b then a else b
  }

  /** Every parent of a record is a record, and ranks strictly drop from a
      record to each of its parents. */
  ghost predicate Ranked(ps: map<nat, seq<nat>>, rank: map<nat, nat>) {
    forall h | h in ps :: h in rank && forall i | 0 <= i < |ps[h]| ::
      ps[h][i] in ps && ps[h][i] in rank && rank[ps[h][i]] < rank[h]
  }

  /** The level (or depth) of a record: 0 without parents, else one more
      than the least (or greatest) over its parents. */
  ghost function Height(m: Metric, ps: map<nat, seq<nat>>, rank: map<nat, nat>, h: nat): (r: nat)
    requires Ranked(ps, rank) && h in ps
    ensures r == 0 <==> ps[h] == []
    decreases rank[h], 1
  {
    if ps[h] == [] then 0 else 1 + HeightFrom(m, ps, rank, h, 0)
  }

  /** The least (or greatest) height among the parents `ps[h][i..]`. */
  ghost function HeightFrom(m: Metric, ps: map<nat, seq<nat>>, rank: map<nat, nat>, h: nat, i: nat): nat
    requires Ranked(ps, rank) && h in ps && i < |ps[h]|
    decreases rank[h], 0, |ps[h]| - i
  {
    var v := Height(m, ps, rank, ps[h][i]);
    if i + 1 == |ps[h]| then v else Pick(m, v, HeightFrom(m, ps, rank, h, i + 1))
  }

  /** `memo` holds only correct values. */
  ghost predicate Memo(m: Metric, ps: map<nat, seq<nat>>, rank: map<nat, nat>, memo: map<nat, nat>)
    requires Ranked(ps, rank)
  {
    forall k | k in memo :: k in ps && memo[k] == Height(m, ps, rank, k)
  }

  /** `memo` is kept unchanged in `r`. */
  predicate Keeps(memo: map<nat, nat>, r: map<nat, nat>) {
    forall k | k in memo :: k in r && r[k] == memo[k]
  }

  /** `_init_level(rec)` (or `_init_depth`): a value already set is
      returned as it is; otherwise it is computed from the parents, each
      evaluated in turn with the memo threaded through, and stored. */
  function Init(m: Metric, ps: map<nat, seq<nat>>, ghost rank: map<nat, nat>, memo: map<nat, nat>, h: nat): (r: map<nat, nat>)
    requires Ranked(ps, rank) && h in ps
    ensures h in r && Keeps(memo, r)
    ensures h in memo ==> r == memo
    decreases rank[h], 1
  {
    if h in memo then memo
    else if ps[h] == [] then memo[h := 0]
    else
      var (r, v) := InitFrom(m, ps, rank, memo, h, 0);
      r[h := v + 1]
  }

  /** The generator `(_init_level(p) for p in rec.parents)` from the `i`th
      parent on, and the least (or greatest) value it yields. */
  function InitFrom(m: Metric, ps: map<nat, seq<nat>>, ghost rank: map<nat, nat>, memo: map<nat, nat>, h: nat, i: nat): (r: (map<nat, nat>, nat))
    requires Ranked(ps, rank) && h in ps && i < |ps[h]|
    ensures Keeps(memo, r.0)
    decreases rank[h], 0, |ps[h]| - i
  {
    var r1 := Init(m, ps, rank, memo, ps[h][i]);
    var v := r1[ps[h][i]];
    if i + 1 == |ps[h]| then (r1, v)
    else
      var (r2, w) := InitFrom(m, ps, rank, r1, h, i + 1);
      (r2, Pick(m, v, w))
  }

  /** The memoised computation only ever stores correct values. */
  lemma {:induction false} InitCorrect(m: Metric, ps: map<nat, seq<nat>>, rank: map<nat, nat>, memo: map<nat, nat>, h: nat)
    requires Ranked(ps, rank) && h in ps && Memo(m, ps, rank, memo)
    ensures Memo(m, ps, rank, Init(m, ps, rank, memo, h))
    ensures Init(m, ps, rank, memo, h)[h] == Height(m, ps, rank, h)
    decreases rank[h], 1
  {
    if h !in memo && ps[h] != [] {
      InitFromCorrect(m, ps, rank, memo, h, 0);
    }
  }

  lemma {:induction false} InitFromCorrect(m: Metric, ps: map<nat, seq<nat>>, rank: map<nat, nat>, memo: map<nat, nat>, h: nat, i: nat)
    requires Ranked(ps, rank) && h in ps && i < |ps[h]| && Memo(m, ps, rank, memo)
    ensures Memo(m, ps, rank, InitFrom(m, ps, rank, memo, h, i).0)
    ensures InitFrom(m, ps, rank, memo, h, i).1 == HeightFrom(m, ps, rank, h, i)
    decreases rank[h], 0, |ps[h]| - i
  {
    var p := ps[h][i];
    InitCorrect(m, ps, rank, memo, p);
    if i + 1 < |ps[h]| {
      InitFromCorrect(m, ps, rank, Init(m, ps, rank, memo, p), h, i + 1);
    }
  }

  /** The level (or depth) part of the second loop of `populate_terms`:
      each record in `values()` order without a value gets one. */
  function InitAll(m: Metric, ps: map<nat, seq<nat>>, ghost rank: map<nat, nat>, memo: map<nat, nat>, vals: seq<nat>): (r: map<nat, nat>)
    requires Ranked(ps, rank) && forall i | 0 <= i < |vals| :: vals[i] in ps
    ensures Keeps(memo, r)
    ensures forall i | 0 <= i < |vals| :: vals[i] in r
    decreases |vals|
  {
    if vals == [] then memo
    else
      var next := if vals[0] !in memo then Init(m, ps, rank, memo, vals[0]) else memo;
      assert forall i | 1 <= i < |vals| :: vals[1..][i - 1] == vals[i];
      InitAll(m, ps, rank, next, vals[1..])
  }

  /** Starting from correct values, every value the loop leaves is the
      record's level (or depth). */
  lemma {:induction false} InitAllCorrect(m: Metric, ps: map<nat, seq<nat>>, rank: map<nat, nat>, memo: map<nat, nat>, vals: seq<nat>)
    requires Ranked(ps, rank) && (forall i | 0 <= i < |vals| :: vals[i] in ps) && Memo(m, ps, rank, memo)
    ensures Memo(m, ps, rank, InitAll(m, ps, rank, memo, vals))
    decreases |vals|
  {
    if vals != [] {
      if vals[0] !in memo {
        InitCorrect(m, ps, rank, memo, vals[0]);
      }
      var next := if vals[0] !in memo then Init(m, ps, rank, memo, vals[0]) else memo;
      InitAllCorrect(m, ps, rank, next, vals[1..]);
    }
  }

  /** A loop over records that all have a value already changes nothing. */
  lemma {:induction false} InitAllSettled(m: Metric, ps: map<nat, seq<nat>>, rank: map<nat, nat>, memo: map<nat, nat>, vals: seq<nat>)
    requires Ranked(ps, rank) && forall i | 0 <= i < |vals| :: vals[i] in ps && vals[i] in memo
    ensures InitAll(m, ps, rank, memo, vals) == memo
    decreases |vals|
  {
    if vals != [] {
      assert forall i | 0 <= i < |vals[1..]| :: vals[1..][i] == vals[i + 1];
      InitAllSettled(m, ps, rank, memo, vals[1..]);
    }
  }

  /** Running the level (or depth) pass a second time leaves every value
      as the first run left it. */
  lemma InitAllIdempotent(m: Metric, ps: map<nat, seq<nat>>, rank: map<nat, nat>, memo: map<nat, nat>, vals: seq<nat>)
    requires Ranked(ps, rank) && forall i | 0 <= i < |vals| :: vals[i] in ps
    ensures InitAll(m, ps, rank, InitAll(m, ps, rank, memo, vals), vals) == InitAll(m, ps, rank, memo, vals)
  {
    InitAllSettled(m, ps, rank, InitAll(m, ps, rank, memo, vals), vals);
  }

  /** The best over `ps[h][i..]` is one of them and bounds all of them. */
  lemma {:induction false} HeightFromBest(m: Metric, ps: map<nat, seq<nat>>, rank: map<nat, nat>, h: nat, i: nat)
    requires Ranked(ps, rank) && h in ps && i < |ps[h]|
    ensures exists j | i <= j < |ps[h]| :: HeightFrom(m, ps, rank, h, i) == Height(m, ps, rank, ps[h][j])
    ensures forall j | i <= j < |ps[h]| ::
      if m == Level then HeightFrom(m, ps, rank, h, i) <= Height(m, ps, rank, ps[h][j])
      else HeightFrom(m, ps, rank, h, i) >= Height(m, ps, rank, ps[h][j])
    decreases |ps[h]| - i
  {
    var v := Height(m, ps, rank, ps[h][i]);
    if i + 1 < |ps[h]| {
      HeightFromBest(m, ps, rank, h, i + 1);
      var j :| i + 1 <= j < |ps[h]| && HeightFrom(m, ps, rank, h, i + 1) == Height(m, ps, rank, ps[h][j]);
      if HeightFrom(m, ps, rank, h, i) == v {
        assert i <= i < |ps[h]|;
      } else {
        assert HeightFrom(m, ps, rank, h, i) == Height(m, ps, rank, ps[h][j]);
      }
    } else {
      assert HeightFrom(m, ps, rank, h, i) == v;
    }
  }

  /** Level and depth against the parents: a record with parents is one
      level below its shallowest parent (and never more than one below any)
      and one deeper than its deepest parent (and at least one deeper than
      each). */
  lemma ParentHeights(m: Metric, ps: map<nat, seq<nat>>, rank: map<nat, nat>, h: nat)
    requires Ranked(ps, rank) && h in ps && ps[h] != []
    ensures exists j | 0 <= j < |ps[h]| :: Height(m, ps, rank, h) == Height(m, ps, rank, ps[h][j]) + 1
    ensures forall j | 0 <= j < |ps[h]| ::
      if m == Level then Height(m, ps, rank, h) <= Height(m, ps, rank, ps[h][j]) + 1
      else Height(m, ps, rank, h) >= Height(m, ps, rank, ps[h][j]) + 1
  {
    HeightFromBest(m, ps, rank, h, 0);
  }

  /** A record's level never exceeds its depth. */
  lemma {:induction false} LevelLeDepth(ps: map<nat, seq<nat>>, rank: map<nat, nat>, h: nat)
    requires Ranked(ps, rank) && h in ps
    ensures Height(Level, ps, rank, h) <= Height(Depth, ps, rank, h)
    decreases rank[h], 1
  {
    if ps[h] != [] {
      LevelLeDepthFrom(ps, rank, h, 0);
    }
  }

  lemma {:induction false} LevelLeDepthFrom(ps: map<nat, seq<nat>>, rank: map<nat, nat>, h: nat, i: nat)
    requires Ranked(ps, rank) && h in ps && i < |ps[h]|
    ensures HeightFrom(Level, ps, rank, h, i) <= HeightFrom(Depth, ps, rank, h, i)
    decreases rank[h], 0, |ps[h]| - i
  {
    LevelLeDepth(ps, rank, ps[h][i]);
    if i + 1 < |ps[h]| {
      LevelLeDepthFrom(ps, rank, h, i + 1);
    }
  }
}
