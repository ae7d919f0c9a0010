/** `GODag.update_association`, which widens each gene's GO ids with all
    their ancestors, and `GODag.id2int`. */
module GeneAssociation {
  import opened Wrappers
  import opened PyStr
  import opened GoDag
  import opened TermGraph
  import opened Queries

  /** The ids `get_all_parents()` gives for the known ids of one gene. */
  function Ancestors(d: Dag, goids: set<string>): set<string>
    requires Loaded(d)
  {
    WfSteps(d, Up);
    set goid, x | goid in goids && goid in d.index.slot && x in AllIds(d, Up, d.index.slot[goid]) :: x
  }

  /** `update_association(association)`: every gene keeps its GO ids and
      gains their ancestors'; the ids the dictionary lacks are collected,
      stripped, as the ones reported missing. */
  function UpdateAssociation(d: Dag, assoc: map<string, set<string>>): (r: (map<string, set<string>>, set<string>))
    requires Loaded(d)
    ensures r.0.Keys == assoc.Keys
    ensures forall g | g in assoc :: assoc[g] <= r.0[g]
  {
    (map g | g in assoc :: assoc[g] + Ancestors(d, assoc[g]),
     set g, goid | g in assoc && goid in assoc[g] && goid !in d.index.slot :: Strip(goid))
  }

  /** The record stored under some GO id of the gene. */
  ghost predicate Known(d: Dag, goids: set<string>, h: nat) {
    exists goid | goid in goids && goid in d.index.slot :: d.index.slot[goid] == h
  }

  /** A gene's new ids are its old ones and the ids of the ancestors of the
      records stored under them. */
  lemma AncestorsReach(d: Dag, goids: set<string>, x: string)
    requires Loaded(d)
    ensures x in Ancestors(d, goids) <==> exists h, a :: Known(d, goids, h) && Reach(d, Up, h, a) && Names(d, a, x)
  {
    if x in Ancestors(d, goids) {
      var h, a := AncestorsWitness(d, goids, x);
    }
    if exists h, a :: Known(d, goids, h) && Reach(d, Up, h, a) && Names(d, a, x) {
      var h, a :| Known(d, goids, h) && Reach(d, Up, h, a) && Names(d, a, x);
      AncestorsVia(d, goids, h, a, x);
    }
  }

  /** Each added id names a record above one stored under the gene's ids. */
  lemma AncestorsWitness(d: Dag, goids: set<string>, x: string) returns (h: nat, a: nat)
    requires Loaded(d) && x in Ancestors(d, goids)
    ensures Known(d, goids, h) && Reach(d, Up, h, a) && Names(d, a, x)
  {
    WfSteps(d, Up);
    var goid :| goid in goids && goid in d.index.slot && x in AllIds(d, Up, d.index.slot[goid]);
    h := d.index.slot[goid];
    a := AllIdsSound(d, Up, h, x);
  }

  /** The id of every record above one stored under the gene's ids is
      added. */
  lemma AncestorsVia(d: Dag, goids: set<string>, h: nat, a: nat, x: string)
    requires Loaded(d) && Known(d, goids, h) && Reach(d, Up, h, a) && Names(d, a, x)
    ensures x in Ancestors(d, goids)
  {
    WfSteps(d, Up);
    var goid :| goid in goids && goid in d.index.slot && d.index.slot[goid] == h;
    AllIdsComplete(d, Up, h, a, x);
  }

  /** What `update_association` leaves for a gene: its ids, and the ids of
      every ancestor of a record one of them names. */
  lemma UpdateAssociationReach(d: Dag, assoc: map<string, set<string>>, g: string, x: string)
    requires Loaded(d) && g in assoc
    ensures x in UpdateAssociation(d, assoc).0[g] <==>
      x in assoc[g] || exists h, a :: Known(d, assoc[g], h) && Reach(d, Up, h, a) && Names(d, a, x)
  {
    AncestorsReach(d, assoc[g], x);
  }

  /** Each record is the one stored under its own GO id: no alt id of a
      later record took it over. */
  ghost predicate Keyed(d: Dag) {
    forall h | h in d.nodes :: d.nodes[h].term.id in d.index.slot && d.index.slot[d.nodes[h].term.id] == h
  }

  /** Ancestors of ancestors are ancestors. */
  lemma AncestorsClosed(d: Dag, goids: set<string>)
    requires Loaded(d) && Keyed(d)
    ensures Ancestors(d, goids + Ancestors(d, goids)) == Ancestors(d, goids)
  {
    var once := Ancestors(d, goids);
    forall x | x in Ancestors(d, goids + once) ensures x in once {
      AncestorsOfAncestors(d, goids, x);
    }
    forall x | x in once ensures x in Ancestors(d, goids + once) {
      AncestorsMonotone(d, goids, once, x);
    }
  }

  /** An ancestor of a record that some ancestor's id names is an
      ancestor. */
  lemma AncestorsOfAncestors(d: Dag, goids: set<string>, x: string)
    requires Loaded(d) && Keyed(d) && x in Ancestors(d, goids + Ancestors(d, goids))
    ensures x in Ancestors(d, goids)
  {
    var once := Ancestors(d, goids);
    var h, a := AncestorsWitness(d, goids + once, x);
    var goid :| goid in goids + once && goid in d.index.slot && d.index.slot[goid] == h;
    if goid in goids {
      AncestorsVia(d, goids, h, a, x);
    } else {
      var h0, a0 := AncestorsWitness(d, goids, goid);
      assert a0 == h;
      ReachTrans(d, Up, h0, h, a);
      AncestorsVia(d, goids, h0, a, x);
    }
  }

  /** More ids give at least the same ancestors. */
  lemma AncestorsMonotone(d: Dag, goids: set<string>, more: set<string>, x: string)
    requires Loaded(d) && x in Ancestors(d, goids)
    ensures x in Ancestors(d, goids + more)
  {
    var h, a := AncestorsWitness(d, goids, x);
    assert Known(d, goids + more, h);
    AncestorsVia(d, goids + more, h, a, x);
  }

  /** Every ancestor's id names a record the dictionary knows. */
  lemma AncestorsKnown(d: Dag, goids: set<string>, x: string)
    requires Loaded(d) && Keyed(d) && x in Ancestors(d, goids)
    ensures x in d.index.slot
  {
    var h, a := AncestorsWitness(d, goids, x);
  }

  /** Where each record sits under its own id, a second
      `update_association` changes nothing and reports the same ids
      missing. */
  lemma UpdateAssociationIdempotent(d: Dag, assoc: map<string, set<string>>)
    requires Loaded(d) && Keyed(d)
    ensures var r := UpdateAssociation(d, assoc); UpdateAssociation(d, r.0) == r
  {
    var r := UpdateAssociation(d, assoc);
    var r2 := UpdateAssociation(d, r.0);
    forall g | g in assoc ensures r2.0[g] == r.0[g] {
      AncestorsClosed(d, assoc[g]);
    }
    forall x | x in r2.1 ensures x in r.1 {
      var g, goid :| g in r.0 && goid in r.0[g] && goid !in d.index.slot && Strip(goid) == x;
      if goid !in assoc[g] {
        AncestorsKnown(d, assoc[g], goid);
      }
    }
    forall x | x in r.1 ensures x in r2.1 {
      var g, goid :| g in assoc && goid in assoc[g] && goid !in d.index.slot && Strip(goid) == x;
      assert goid in r.0[g];
    }
    assert r2.0 == r.0;
    assert r2.1 == r.1;
  }

  // ------------------------------------------------------------ id2int

  /** `GODag.id2int(go_id)`: the first "GO:" removed, the rest read as an
      integer; nothing where `int()` would raise. */
  function Id2Int(goId: string): Option<int> {
    ParseInt(ReplaceFirst(goId, "GO:", ""))
  }

  /** A GO id made of "GO:" and a decimal number with leading zeros reads
      back as that number, unless its digits exceed `int()`'s limit. */
  lemma Id2IntDigits(k: nat, n: nat)
    ensures Id2Int("GO:" + (Zeros(k) + NatToDigits(n))) == if k + |NatToDigits(n)| <= MaxStrDigits then Some(n) else None
  {
    ReplaceFirstPrefix("GO:", Zeros(k) + NatToDigits(n), "");
    assert "" + (Zeros(k) + NatToDigits(n)) == Zeros(k) + NatToDigits(n);
    ParseIntDigits(k, n);
  }

  /** Only the first "GO:" is removed: a doubled prefix is not a number. */
  lemma Id2IntOnce(n: nat)
    ensures Id2Int("GO:" + ("GO:" + NatToDigits(n))) == None
  {
    var rest := "GO:" + NatToDigits(n);
    ReplaceFirstPrefix("GO:", rest, "");
    assert "" + rest == rest;
    assert Strip(rest) == rest by {
      assert !IsSpace(rest[0]);
      assert rest[|rest| - 1] == NatToDigits(n)[|NatToDigits(n)| - 1];
      assert !IsSpace(rest[|rest| - 1]);
    }
    assert !IsDigit(rest[0]);
  }
}
