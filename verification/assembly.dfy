/** `GODag.populate_terms`: turn the stored records' id strings into links
    between records, give every parent its list of children, add the
    inverse of every relationship whose typedef names one, and compute each
    record's level and depth.

    `obo_parser.py` does the last three in one loop over `values()`. Of
    those, only the inversion raises on an acyclic input of modest depth
    (the recursion of the level pass can exhaust Python's stack on a very
    deep one, which is not modelled), and none of the three reads what the
    others write, so running them one after another gives the same records
    and the same first error. */
module Assembly {
  import opened Wrappers
  import opened Records
  import opened GoDag

  /** One key of a record's `relationship` mapping: a typedef name and the
      records it points to. The mapping itself is a list of these in the
      order its keys were created, as Python's `dict` keeps them. */
  datatype RelEntry = RelEntry(typedef: string, targets: set<nat>)

  /** Why `populate_terms` raises: an id that is not a key (KeyError), a
      relationship name that is not a typedef (KeyError), or a record
      related to itself under a typedef whose inverse it does not yet have
      (the new key changes the size of the dict being iterated, a
      RuntimeError). */
  datatype AssemblyError =
    | MissingId(id: string)
    | UnknownTypedef(typedef: string)
    | RelationshipChangedSize(handle: nat)

  // ---------------------------------------------------------------- links

  /** `[self[x] for x in ids]`, raising on the first id that is not a key. */
  function Resolve(slot: map<string, nat>, ids: seq<string>): (r: Result<seq<nat>, AssemblyError>)
    ensures r.Success? <==> forall x | x in ids :: x in slot
    ensures r.Success? ==> |r.value| == |ids| && forall i | 0 <= i < |ids| :: ids[i] in slot && r.value[i] == slot[ids[i]]
    ensures r.Failure? ==> exists i | 0 <= i < |ids| ::
      && r.error == MissingId(ids[i]) && ids[i] !in slot
      && forall j | 0 <= j < i :: ids[j] in slot
    decreases |ids|
  {
    if ids == [] then Success([])
    else if ids[0] !in slot then Failure(MissingId(ids[0]))
    else
      var rest :- Resolve(slot, ids[1..]);
      assert forall i | 1 <= i < |ids| :: ids[i] == ids[1..][i - 1];
      Success([slot[ids[0]]] + rest)
  }

  /** The relationship a record's raw `_relationship` resolves to. */
  function RawTargets(t: Term): seq<string> {
    if t.relationship.Some? then t.relationship.value.targets else []
  }

  /** Every id a record refers to, its is_a ids and raw targets, is a key. */
  predicate Resolvable(slot: map<string, nat>, t: Term) {
    && (forall x | x in t.isA :: x in slot)
    && (forall x | x in RawTargets(t) :: x in slot)
  }

  /** The failures of the first loop of `populate_terms`, over the records
      in `values()` order: each record's is_a ids are resolved, then its raw
      relationship's targets. A record met again under an alt id is
      resolved again to the same links (its raw relationship is gone by
      then, but it resolved the first time), so the loop fails exactly at
      the first id, in this order, that is not a key. */
  function CheckLinks(slot: map<string, nat>, terms: seq<Term>, vals: seq<nat>): (r: Result<(), AssemblyError>)
    requires forall i | 0 <= i < |vals| :: vals[i] < |terms|
    ensures r.Success? <==> forall i | 0 <= i < |vals| :: Resolvable(slot, terms[vals[i]])
    decreases |vals|
  {
    if vals == [] then Success(())
    else
      var t := terms[vals[0]];
      var _ :- Resolve(slot, t.isA);
      var _ :- Resolve(slot, RawTargets(t));
      assert forall i | 1 <= i < |vals| :: vals[1..][i - 1] == vals[i];
      CheckLinks(slot, terms, vals[1..])
  }

  /** The parents the first loop gives a record: its is_a ids resolved, in
      order. */
  function ParentsOf(slot: map<string, nat>, t: Term): (ps: seq<nat>)
    requires Resolvable(slot, t)
    ensures |ps| == |t.isA| && forall i | 0 <= i < |ps| :: t.isA[i] in slot && ps[i] == slot[t.isA[i]]
  {
    Resolve(slot, t.isA).value
  }

  /** The relationship the first loop gives a record with a raw one: one
      key, the typedef, mapped to the records its targets name. */
  function LinkedRel(slot: map<string, nat>, t: Term): (es: seq<RelEntry>)
    requires Resolvable(slot, t)
    ensures t.relationship.None? ==> es == []
    ensures t.relationship.Some? ==>
      && |es| == 1 && es[0].typedef == t.relationship.value.typedef
      && forall h :: h in es[0].targets <==> exists x | x in t.relationship.value.targets :: x in slot && slot[x] == h
  {
    if t.relationship.None? then []
    else [RelEntry(t.relationship.value.typedef, set x | x in t.relationship.value.targets :: slot[x])]
  }

  /** The records before the `i`th all resolve. */
  predicate ResolvedBefore(slot: map<string, nat>, terms: seq<Term>, vals: seq<nat>, i: nat)
    requires i <= |vals| && forall k | 0 <= k < |vals| :: vals[k] < |terms|
  {
    forall j | 0 <= j < i :: Resolvable(slot, terms[vals[j]])
  }

  /** `e` is the KeyError for an id of record `t` that is not a key. */
  predicate Blamed(slot: map<string, nat>, t: Term, e: AssemblyError) {
    e.MissingId? && e.id !in slot && (e.id in t.isA || e.id in RawTargets(t))
  }

  /** A failed check names an id that is not a key. */
  lemma CheckLinksMissing(slot: map<string, nat>, terms: seq<Term>, vals: seq<nat>)
    requires forall i | 0 <= i < |vals| :: vals[i] < |terms|
    requires CheckLinks(slot, terms, vals).Failure?
    ensures CheckLinks(slot, terms, vals).error.MissingId? && CheckLinks(slot, terms, vals).error.id !in slot
  {
    CheckLinksFirst(slot, terms, vals);
  }

  /** The first loop stops at the first record, in `values()` order, that
      names a missing id, and reports one of its missing ids. */
  lemma {:induction false} CheckLinksFirst(slot: map<string, nat>, terms: seq<Term>, vals: seq<nat>)
    requires forall i | 0 <= i < |vals| :: vals[i] < |terms|
    requires CheckLinks(slot, terms, vals).Failure?
    ensures exists i | 0 <= i < |vals| ::
      ResolvedBefore(slot, terms, vals, i) && Blamed(slot, terms[vals[i]], CheckLinks(slot, terms, vals).error)
    decreases |vals|
  {
    var e := CheckLinks(slot, terms, vals).error;
    var t := terms[vals[0]];
    if Resolve(slot, t.isA).Failure? {
      assert e == Resolve(slot, t.isA).error;
      assert ResolvedBefore(slot, terms, vals, 0) && Blamed(slot, t, e);
    } else if Resolve(slot, RawTargets(t)).Failure? {
      assert e == Resolve(slot, RawTargets(t)).error;
      assert ResolvedBefore(slot, terms, vals, 0) && Blamed(slot, t, e);
    } else {
      var rest := vals[1..];
      assert CheckLinks(slot, terms, vals) == CheckLinks(slot, terms, rest);
      CheckLinksFirst(slot, terms, rest);
      var i :| 0 <= i < |rest| && ResolvedBefore(slot, terms, rest, i) && Blamed(slot, terms[rest[i]], e);
      ResolvedShift(slot, terms, vals, i);
      assert rest[i] == vals[i + 1];
    }
  }

  /** A first record that resolves, followed by `i` more that do. */
  lemma ResolvedShift(slot: map<string, nat>, terms: seq<Term>, vals: seq<nat>, i: nat)
    requires i < |vals| && forall k | 0 <= k < |vals| :: vals[k] < |terms|
    requires Resolvable(slot, terms[vals[0]]) && ResolvedBefore(slot, terms, vals[1..], i)
    ensures ResolvedBefore(slot, terms, vals, i + 1)
  {
    forall j | 0 <= j < i + 1 ensures Resolvable(slot, terms[vals[j]]) {
      if j > 0 {
        assert vals[1..][j - 1] == vals[j];
      }
    }
  }

  // ------------------------------------------------------------- children

  /** A record's list under `k`, empty when it has none yet. */
  function Get(d: map<nat, seq<nat>>, k: nat): seq<nat> {
    if k in d then d[k] else []
  }

  /** No element occurs twice. */
  predicate NoDup(s: seq<nat>) {
    forall i, j | 0 <= i < j < |s| :: s[i] != s[j]
  }

  /** Every list in `d` is free of repeats. */
  predicate AllNoDup(d: map<nat, seq<nat>>) {
    forall k | k in d :: NoDup(d[k])
  }

  /** `if rec not in parent.children: parent.children.append(rec)` */
  function AddChild(ch: map<nat, seq<nat>>, p: nat, c: nat): (r: map<nat, seq<nat>>)
    ensures AllNoDup(ch) ==> AllNoDup(r)
    ensures forall q, x :: x in Get(r, q) <==> x in Get(ch, q) || (q == p && x == c)
    ensures c !in Get(ch, p) ==> Get(r, p) == Get(ch, p) + [c]
    ensures c in Get(ch, p) ==> r == ch
  {
    var cs := Get(ch, p);
    if c in cs then ch else ch[p := cs + [c]]
  }

  /** The children step for one record `c`: it is added to each of its
      parents in turn. */
  function AddToParents(ch: map<nat, seq<nat>>, c: nat, ps: seq<nat>): (r: map<nat, seq<nat>>)
    ensures AllNoDup(ch) ==> AllNoDup(r)
    ensures forall q, x :: x in Get(r, q) <==> x in Get(ch, q) || (x == c && q in ps)
    decreases |ps|
  {
    if ps == [] then ch else AddToParents(AddChild(ch, ps[0], c), c, ps[1..])
  }

  /** The children part of the second loop, over the records in `values()`
      order. */
  function ChildrenAll(parents: map<nat, seq<nat>>, vals: seq<nat>, ch: map<nat, seq<nat>>): (r: map<nat, seq<nat>>)
    requires forall i | 0 <= i < |vals| :: vals[i] in parents
    ensures AllNoDup(ch) ==> AllNoDup(r)
    decreases |vals|
  {
    if vals == [] then ch
    else ChildrenAll(parents, vals[1..], AddToParents(ch, vals[0], parents[vals[0]]))
  }

  /** Children lists: starting from none, a record is a child of `p` iff it
      was visited and lists `p` among its parents, and it is listed there
      exactly once. */
  lemma {:induction false} ChildrenAllSpec(parents: map<nat, seq<nat>>, vals: seq<nat>, ch: map<nat, seq<nat>>)
    requires forall i | 0 <= i < |vals| :: vals[i] in parents
    ensures forall q, x :: x in Get(ChildrenAll(parents, vals, ch), q) <==>
      x in Get(ch, q) || (x in vals && q in parents[x])
    decreases |vals|
  {
    if vals != [] {
      var next := AddToParents(ch, vals[0], parents[vals[0]]);
      assert forall i | 0 <= i < |vals[1..]| :: vals[1..][i] == vals[i + 1];
      ChildrenAllSpec(parents, vals[1..], next);
      assert forall x :: x in vals <==> x == vals[0] || x in vals[1..];
    }
  }

  /** Starting from no children at all. */
  lemma ChildrenFromNone(parents: map<nat, seq<nat>>, vals: seq<nat>)
    requires forall i | 0 <= i < |vals| :: vals[i] in parents
    ensures AllNoDup(ChildrenAll(parents, vals, map[]))
    ensures forall q, x :: x in Get(ChildrenAll(parents, vals, map[]), q) <==> x in vals && q in parents[x]
  {
    ChildrenAllSpec(parents, vals, map[]);
  }

  // ------------------------------------------------------------ inversion

  /** A record's `relationship` mapping; none at all reads as empty. */
  function RelOf(rel: map<nat, seq<RelEntry>>, h: nat): seq<RelEntry> {
    if h in rel then rel[h] else []
  }

  /** The mapping has key `td`. */
  predicate HasKey(es: seq<RelEntry>, td: string) {
    exists i | 0 <= i < |es| :: es[i].typedef == td
  }

  /** `es[td]` contains `x`. */
  predicate Holds(es: seq<RelEntry>, td: string, x: nat) {
    exists i | 0 <= i < |es| :: es[i].typedef == td && x in es[i].targets
  }

  /** `b` is `a` with possibly more keys at the end and more targets under
      the keys it had. */
  predicate Grows(a: seq<RelEntry>, b: seq<RelEntry>) {
    && |a| <= |b|
    && forall i | 0 <= i < |a| :: b[i].typedef == a[i].typedef && a[i].targets <= b[i].targets
  }

  /** Every record's mapping grows from `a` to `b`. */
  ghost predicate AllGrow(a: map<nat, seq<RelEntry>>, b: map<nat, seq<RelEntry>>) {
    forall t :: Grows(RelOf(a, t), RelOf(b, t))
  }

  /** `r` holds what `es` holds, and besides only `x` under `td`. */
  ghost predicate AddedOnly(es: seq<RelEntry>, r: seq<RelEntry>, td: string, x: nat) {
    forall td2, y :: Holds(r, td2, y) <==> Holds(es, td2, y) || (td2 == td && y == x)
  }

  /** `es[td].add(x)` on a `defaultdict(set)`: a missing key is created at
      the end. */
  function AddTo(es: seq<RelEntry>, td: string, x: nat): (r: seq<RelEntry>)
    ensures Grows(es, r) && AddedOnly(es, r, td, x)
    ensures HasKey(es, td) ==> |r| == |es|
    ensures !HasKey(es, td) ==> r == es + [RelEntry(td, {x})]
    decreases |es|
  {
    if es == [] then
      var r := [RelEntry(td, {x})];
      SingleAdded(td, x);
      r
    else if es[0].typedef == td then
      var r := [es[0].(targets := es[0].targets + {x})] + es[1..];
      HeadGrows(es, r, td, x);
      assert HasKey(es, td) by { assert es[0].typedef == td; }
      r
    else
      var rest := AddTo(es[1..], td, x);
      TailHasKey(es, td);
      ConsGrows(es[0], es[1..], rest, td, x);
      assert [es[0]] + es[1..] == es;
      assert !HasKey(es, td) ==> [es[0]] + rest == es + [RelEntry(td, {x})] by {
        if !HasKey(es, td) {
          assert [es[0]] + (es[1..] + [RelEntry(td, {x})]) == es + [RelEntry(td, {x})];
        }
      }
      [es[0]] + rest
  }

  /** A fresh mapping holds only the one target. */
  lemma SingleAdded(td: string, x: nat)
    ensures Grows([], [RelEntry(td, {x})]) && AddedOnly([], [RelEntry(td, {x})], td, x)
  {
    var r := [RelEntry(td, {x})];
    forall td2, y ensures Holds(r, td2, y) <==> (td2 == td && y == x) {
      if td2 == td && y == x {
        assert r[0].typedef == td2 && y in r[0].targets;
      }
    }
  }

  /** What a mapping with one more entry in front holds. */
  lemma HoldsCons(e: RelEntry, a: seq<RelEntry>, td: string, y: nat)
    ensures Holds([e] + a, td, y) <==> (e.typedef == td && y in e.targets) || Holds(a, td, y)
  {
    var b := [e] + a;
    if Holds(b, td, y) {
      var i :| 0 <= i < |b| && b[i].typedef == td && y in b[i].targets;
      if i > 0 {
        assert a[i - 1] == b[i];
      }
    }
    if Holds(a, td, y) {
      var i :| 0 <= i < |a| && a[i].typedef == td && y in a[i].targets;
      assert b[i + 1] == a[i];
    }
    if e.typedef == td && y in e.targets {
      assert b[0] == e;
    }
  }

  /** Adding to the first entry, when it is the key's, grows the mapping in
      place and adds only `x`. */
  lemma HeadGrows(es: seq<RelEntry>, r: seq<RelEntry>, td: string, x: nat)
    requires es != [] && es[0].typedef == td && r == [es[0].(targets := es[0].targets + {x})] + es[1..]
    ensures Grows(es, r) && AddedOnly(es, r, td, x) && |r| == |es|
  {
    assert es == [es[0]] + es[1..];
    forall td2, y ensures Holds(r, td2, y) <==> Holds(es, td2, y) || (td2 == td && y == x) {
      HoldsCons(r[0], es[1..], td2, y);
      HoldsCons(es[0], es[1..], td2, y);
    }
  }

  /** A key that is not the first entry's is among the rest. */
  lemma TailHasKey(es: seq<RelEntry>, td: string)
    requires es != [] && es[0].typedef != td
    ensures HasKey(es, td) ==> HasKey(es[1..], td)
  {
    if HasKey(es, td) {
      var i :| 0 <= i < |es| && es[i].typedef == td;
      assert es[1..][i - 1] == es[i];
    }
  }

  /** Putting the same entry in front keeps growth and what is added. */
  lemma ConsGrows(e: RelEntry, a: seq<RelEntry>, b: seq<RelEntry>, td: string, x: nat)
    requires Grows(a, b) && AddedOnly(a, b, td, x)
    ensures Grows([e] + a, [e] + b) && AddedOnly([e] + a, [e] + b, td, x)
  {
    forall td2, y ensures Holds([e] + b, td2, y) <==> Holds([e] + a, td2, y) || (td2 == td && y == x) {
      HoldsCons(e, a, td2, y);
      HoldsCons(e, b, td2, y);
    }
  }

  /** `term.relationship[inv].add(h)` for every target `term`. */
  function AddInverse(rel: map<nat, seq<RelEntry>>, ts: set<nat>, inv: string, h: nat): map<nat, seq<RelEntry>> {
    map t | t in rel.Keys + ts :: if t in ts then AddTo(RelOf(rel, t), inv, h) else rel[t]
  }

  /** Each target gets `h` under `inv`, and nothing else is added
      anywhere. */
  lemma AddInverseSpec(rel: map<nat, seq<RelEntry>>, ts: set<nat>, inv: string, h: nat)
    ensures AllGrow(rel, AddInverse(rel, ts, inv, h))
    ensures forall t, td, y :: Holds(RelOf(AddInverse(rel, ts, inv, h), t), td, y) <==>
      Holds(RelOf(rel, t), td, y) || (t in ts && td == inv && y == h)
  {
    var r := AddInverse(rel, ts, inv, h);
    forall t ensures Grows(RelOf(rel, t), RelOf(r, t)) && AddedOnlyAt(rel, r, ts, inv, h, t) {
      if t in ts {
        assert RelOf(r, t) == AddTo(RelOf(rel, t), inv, h);
      } else {
        assert RelOf(r, t) == RelOf(rel, t);
      }
    }
  }

  /** Record `t`'s mapping gains `h` under `inv` if `t` is a target, and
      nothing otherwise. */
  ghost predicate AddedOnlyAt(rel: map<nat, seq<RelEntry>>, r: map<nat, seq<RelEntry>>, ts: set<nat>, inv: string, h: nat, t: nat) {
    forall td, y :: Holds(RelOf(r, t), td, y) <==> Holds(RelOf(rel, t), td, y) || (t in ts && td == inv && y == h)
  }

  /** The inversion of one key `e` of record `h`'s mapping: the typedef
      must be known; when it names an inverse, `h` is added under the
      inverse to every target, which fails if `h` is its own target and has
      no such key yet. */
  function InvertEntry(typedefs: map<string, Typedef>, rel: map<nat, seq<RelEntry>>, h: nat, e: RelEntry): (r: Result<map<nat, seq<RelEntry>>, AssemblyError>)
    ensures r.Failure? <==> (e.typedef !in typedefs ||
      (typedefs[e.typedef].inverseOf != "" && h in e.targets && !HasKey(RelOf(rel, h), typedefs[e.typedef].inverseOf)))
    ensures r.Success? ==> |RelOf(r.value, h)| == |RelOf(rel, h)|
  {
    if e.typedef !in typedefs then Failure(UnknownTypedef(e.typedef))
    else
      var inv := typedefs[e.typedef].inverseOf;
      if inv == "" then Success(rel)
      else if h in e.targets && !HasKey(RelOf(rel, h), inv) then Failure(RelationshipChangedSize(h))
      else Success(AddInverse(rel, e.targets, inv, h))
  }

  /** A successful inversion of one key only grows the mappings: each
      target gains `h` under the inverse typedef, and nothing else is
      added. */
  lemma InvertEntrySpec(typedefs: map<string, Typedef>, rel: map<nat, seq<RelEntry>>, h: nat, e: RelEntry)
    requires InvertEntry(typedefs, rel, h, e).Success?
    ensures AllGrow(rel, InvertEntry(typedefs, rel, h, e).value)
    ensures forall t, td, y :: Holds(RelOf(InvertEntry(typedefs, rel, h, e).value, t), td, y) <==>
      Holds(RelOf(rel, t), td, y) ||
      (typedefs[e.typedef].inverseOf != "" && t in e.targets && td == typedefs[e.typedef].inverseOf && y == h)
  {
    if typedefs[e.typedef].inverseOf != "" {
      AddInverseSpec(rel, e.targets, typedefs[e.typedef].inverseOf, h);
    } else {
      AllGrowRefl(rel);
    }
  }

  /** Every target `r` holds for `t` under `td` that `rel` did not is the
      inverse of a relationship: `y` holds `t` in `r` under a typedef whose
      inverse_of is `td`. */
  ghost predicate Justified(typedefs: map<string, Typedef>, rel: map<nat, seq<RelEntry>>, r: map<nat, seq<RelEntry>>) {
    forall t, td, y | Holds(RelOf(r, t), td, y) :: Holds(RelOf(rel, t), td, y) || InverseHeld(typedefs, r, t, td, y)
  }

  /** `y` holds `t` in `r` under some typedef whose inverse is `td`. */
  ghost predicate InverseHeld(typedefs: map<string, Typedef>, r: map<nat, seq<RelEntry>>, t: nat, td: string, y: nat) {
    exists a | a in typedefs :: typedefs[a].inverseOf == td && Holds(RelOf(r, y), a, t)
  }

  /** Inverting key `i` of `h`'s current mapping adds only justified
      targets. */
  lemma InvertEntryJustified(typedefs: map<string, Typedef>, rel: map<nat, seq<RelEntry>>, h: nat, i: nat)
    requires i < |RelOf(rel, h)| && InvertEntry(typedefs, rel, h, RelOf(rel, h)[i]).Success?
    ensures Justified(typedefs, rel, InvertEntry(typedefs, rel, h, RelOf(rel, h)[i]).value)
  {
    var e := RelOf(rel, h)[i];
    var r := InvertEntry(typedefs, rel, h, e).value;
    InvertEntrySpec(typedefs, rel, h, e);
    forall t, td, y | Holds(RelOf(r, t), td, y) && !Holds(RelOf(rel, t), td, y)
      ensures InverseHeld(typedefs, r, t, td, y)
    {
      assert t in e.targets && y == h;
      assert Holds(RelOf(rel, h), e.typedef, t) by {
        assert RelOf(rel, h)[i].typedef == e.typedef && t in RelOf(rel, h)[i].targets;
      }
      HoldsGrows(RelOf(rel, h), RelOf(r, h), e.typedef, t);
    }
  }

  lemma JustifiedTrans(typedefs: map<string, Typedef>, a: map<nat, seq<RelEntry>>, b: map<nat, seq<RelEntry>>, c: map<nat, seq<RelEntry>>)
    requires Justified(typedefs, a, b) && Justified(typedefs, b, c) && AllGrow(b, c)
    ensures Justified(typedefs, a, c)
  {
    forall t, td, y | Holds(RelOf(c, t), td, y) && !Holds(RelOf(a, t), td, y)
      ensures InverseHeld(typedefs, c, t, td, y)
    {
      if Holds(RelOf(b, t), td, y) {
        var x :| x in typedefs && typedefs[x].inverseOf == td && Holds(RelOf(b, y), x, t);
        assert Grows(RelOf(b, y), RelOf(c, y));
        HoldsGrows(RelOf(b, y), RelOf(c, y), x, t);
      }
    }
  }

  lemma JustifiedRefl(typedefs: map<string, Typedef>, a: map<nat, seq<RelEntry>>)
    ensures Justified(typedefs, a, a)
  {
  }

  /** The loop over record `h`'s mapping from key index `i`, reading each
      key's targets as they are when it is reached. */
  function InvertRec(typedefs: map<string, Typedef>, rel: map<nat, seq<RelEntry>>, h: nat, i: nat): (r: Result<map<nat, seq<RelEntry>>, AssemblyError>)
    requires i <= |RelOf(rel, h)|
    decreases |RelOf(rel, h)| - i
  {
    if i == |RelOf(rel, h)| then Success(rel)
    else
      var next :- InvertEntry(typedefs, rel, h, RelOf(rel, h)[i]);
      InvertRec(typedefs, next, h, i + 1)
  }

  /** The inversion part of the second loop, over the records in
      `values()` order. */
  function InvertAll(typedefs: map<string, Typedef>, rel: map<nat, seq<RelEntry>>, vals: seq<nat>): Result<map<nat, seq<RelEntry>>, AssemblyError>
    decreases |vals|
  {
    if vals == [] then Success(rel)
    else
      var next :- InvertRec(typedefs, rel, vals[0], 0);
      InvertAll(typedefs, next, vals[1..])
  }

  /** Key `j` of record `h`'s mapping in `rel` was inverted into `r`: its
      typedef is known, and if that names an inverse, each target holds `h`
      under it in `r`. */
  ghost predicate Inverted(typedefs: map<string, Typedef>, rel: map<nat, seq<RelEntry>>, r: map<nat, seq<RelEntry>>, h: nat, j: nat)
    requires j < |RelOf(rel, h)|
  {
    var e := RelOf(rel, h)[j];
    && e.typedef in typedefs
    && (typedefs[e.typedef].inverseOf != "" ==>
          forall y | y in e.targets :: Holds(RelOf(r, y), typedefs[e.typedef].inverseOf, h))
  }

  lemma HoldsGrows(a: seq<RelEntry>, b: seq<RelEntry>, td: string, x: nat)
    requires Grows(a, b) && Holds(a, td, x)
    ensures Holds(b, td, x)
  {
    var i :| 0 <= i < |a| && a[i].typedef == td && x in a[i].targets;
    assert b[i].typedef == td && x in b[i].targets;
  }

  lemma AllGrowTrans(a: map<nat, seq<RelEntry>>, b: map<nat, seq<RelEntry>>, c: map<nat, seq<RelEntry>>)
    requires AllGrow(a, b) && AllGrow(b, c)
    ensures AllGrow(a, c)
  {
    forall t ensures Grows(RelOf(a, t), RelOf(c, t)) {
      assert Grows(RelOf(a, t), RelOf(b, t)) && Grows(RelOf(b, t), RelOf(c, t));
    }
  }

  /** What is inverted into one state stays inverted in a grown one, and
      holds for the keys of an earlier, smaller mapping as well. */
  lemma InvertedGrows(typedefs: map<string, Typedef>, rel0: map<nat, seq<RelEntry>>, rel: map<nat, seq<RelEntry>>,
                      r: map<nat, seq<RelEntry>>, r2: map<nat, seq<RelEntry>>, h: nat, j: nat)
    requires AllGrow(rel0, rel) && AllGrow(r, r2)
    requires j < |RelOf(rel0, h)| && j < |RelOf(rel, h)| && Inverted(typedefs, rel, r, h, j)
    ensures Inverted(typedefs, rel0, r2, h, j)
  {
    var e0, e := RelOf(rel0, h)[j], RelOf(rel, h)[j];
    assert Grows(RelOf(rel0, h), RelOf(rel, h));
    assert e.typedef == e0.typedef && e0.targets <= e.targets;
    if typedefs[e.typedef].inverseOf != "" {
      forall y | y in e0.targets ensures Holds(RelOf(r2, y), typedefs[e.typedef].inverseOf, h) {
        assert Grows(RelOf(r, y), RelOf(r2, y));
        HoldsGrows(RelOf(r, y), RelOf(r2, y), typedefs[e.typedef].inverseOf, h);
      }
    }
  }

  /** One record's loop inverts every key from `i` on and only grows the
      mappings. */
  lemma {:induction false} InvertRecSpec(typedefs: map<string, Typedef>, rel: map<nat, seq<RelEntry>>, h: nat, i: nat)
    requires i <= |RelOf(rel, h)|
    requires InvertRec(typedefs, rel, h, i).Success?
    ensures AllGrow(rel, InvertRec(typedefs, rel, h, i).value)
    ensures forall j | i <= j < |RelOf(rel, h)| :: Inverted(typedefs, rel, InvertRec(typedefs, rel, h, i).value, h, j)
    ensures Justified(typedefs, rel, InvertRec(typedefs, rel, h, i).value)
    decreases |RelOf(rel, h)| - i
  {
    var r := InvertRec(typedefs, rel, h, i).value;
    if i < |RelOf(rel, h)| {
      var next := InvertEntry(typedefs, rel, h, RelOf(rel, h)[i]).value;
      assert InvertRec(typedefs, rel, h, i) == InvertRec(typedefs, next, h, i + 1);
      InvertRecSpec(typedefs, next, h, i + 1);
      InvertRecStep(typedefs, rel, next, r, h, i);
      InvertEntryJustified(typedefs, rel, h, i);
      JustifiedTrans(typedefs, rel, next, r);
    } else {
      JustifiedRefl(typedefs, rel);
    }
  }

  /** Inverting key `i` and then the keys after it inverts them all. */
  lemma InvertRecStep(typedefs: map<string, Typedef>, rel: map<nat, seq<RelEntry>>, next: map<nat, seq<RelEntry>>,
                      r: map<nat, seq<RelEntry>>, h: nat, i: nat)
    requires i < |RelOf(rel, h)|
    requires InvertEntry(typedefs, rel, h, RelOf(rel, h)[i]) == Success(next)
    requires i + 1 <= |RelOf(next, h)| && AllGrow(next, r)
    requires forall j | i + 1 <= j < |RelOf(next, h)| :: Inverted(typedefs, next, r, h, j)
    ensures AllGrow(rel, r)
    ensures forall j | i <= j < |RelOf(rel, h)| :: Inverted(typedefs, rel, r, h, j)
  {
    InvertEntrySpec(typedefs, rel, h, RelOf(rel, h)[i]);
    AllGrowTrans(rel, next, r);
    InvertRecFirst(typedefs, rel, next, r, h, i);
    InvertRecRest(typedefs, rel, next, r, h, i);
  }

  /** The keys after the first stay inverted with respect to the mapping
      the loop started from. */
  lemma InvertRecRest(typedefs: map<string, Typedef>, rel: map<nat, seq<RelEntry>>, next: map<nat, seq<RelEntry>>,
                      r: map<nat, seq<RelEntry>>, h: nat, i: nat)
    requires AllGrow(rel, next) && |RelOf(next, h)| == |RelOf(rel, h)|
    requires forall j | i + 1 <= j < |RelOf(next, h)| :: Inverted(typedefs, next, r, h, j)
    ensures forall j | i < j < |RelOf(rel, h)| :: Inverted(typedefs, rel, r, h, j)
  {
    forall j | i < j < |RelOf(rel, h)| ensures Inverted(typedefs, rel, r, h, j) {
      AllGrowRefl(r);
      InvertedGrows(typedefs, rel, next, r, r, h, j);
    }
  }

  /** The key just inverted stays inverted. */
  lemma InvertRecFirst(typedefs: map<string, Typedef>, rel: map<nat, seq<RelEntry>>, next: map<nat, seq<RelEntry>>,
                       r: map<nat, seq<RelEntry>>, h: nat, i: nat)
    requires i < |RelOf(rel, h)|
    requires InvertEntry(typedefs, rel, h, RelOf(rel, h)[i]) == Success(next)
    requires AllGrow(next, r)
    ensures Inverted(typedefs, rel, r, h, i)
  {
    InvertEntrySpec(typedefs, rel, h, RelOf(rel, h)[i]);
    AllGrowRefl(rel);
    InvertedGrows(typedefs, rel, rel, next, r, h, i);
  }

  lemma AllGrowRefl(a: map<nat, seq<RelEntry>>)
    ensures AllGrow(a, a)
  {
  }

  /** The whole inversion loop only grows the mappings, and every key each
      visited record had when the loop started is inverted at the end. */
  lemma {:induction false} InvertAllSpec(typedefs: map<string, Typedef>, rel: map<nat, seq<RelEntry>>, vals: seq<nat>)
    requires InvertAll(typedefs, rel, vals).Success?
    ensures AllGrow(rel, InvertAll(typedefs, rel, vals).value)
    ensures forall k, j | 0 <= k < |vals| && 0 <= j < |RelOf(rel, vals[k])| ::
      Inverted(typedefs, rel, InvertAll(typedefs, rel, vals).value, vals[k], j)
    ensures Justified(typedefs, rel, InvertAll(typedefs, rel, vals).value)
    decreases |vals|
  {
    var r := InvertAll(typedefs, rel, vals).value;
    if vals == [] {
      AllGrowRefl(rel);
      JustifiedRefl(typedefs, rel);
    } else {
      var next := InvertRec(typedefs, rel, vals[0], 0).value;
      assert InvertAll(typedefs, rel, vals) == InvertAll(typedefs, next, vals[1..]);
      InvertRecSpec(typedefs, rel, vals[0], 0);
      InvertAllSpec(typedefs, next, vals[1..]);
      AllGrowTrans(rel, next, r);
      InvertAllFirst(typedefs, rel, next, r, vals[0]);
      InvertAllRest(typedefs, rel, next, r, vals);
      JustifiedTrans(typedefs, rel, next, r);
    }
  }

  /** The first record's keys, inverted by its own loop, stay inverted. */
  lemma InvertAllFirst(typedefs: map<string, Typedef>, rel: map<nat, seq<RelEntry>>, next: map<nat, seq<RelEntry>>,
                       r: map<nat, seq<RelEntry>>, h: nat)
    requires AllGrow(next, r)
    requires forall j | 0 <= j < |RelOf(rel, h)| :: Inverted(typedefs, rel, next, h, j)
    ensures forall j | 0 <= j < |RelOf(rel, h)| :: Inverted(typedefs, rel, r, h, j)
  {
    AllGrowRefl(rel);
    forall j | 0 <= j < |RelOf(rel, h)| ensures Inverted(typedefs, rel, r, h, j) {
      InvertedGrows(typedefs, rel, rel, next, r, h, j);
    }
  }

  /** The later records' keys, inverted from a grown state, are inverted
      with respect to the starting one. */
  lemma InvertAllRest(typedefs: map<string, Typedef>, rel: map<nat, seq<RelEntry>>, next: map<nat, seq<RelEntry>>,
                      r: map<nat, seq<RelEntry>>, vals: seq<nat>)
    requires vals != [] && AllGrow(rel, next)
    requires forall k, j | 0 <= k < |vals[1..]| && 0 <= j < |RelOf(next, vals[1..][k])| :: Inverted(typedefs, next, r, vals[1..][k], j)
    requires forall j | 0 <= j < |RelOf(rel, vals[0])| :: Inverted(typedefs, rel, r, vals[0], j)
    ensures forall k, j | 0 <= k < |vals| && 0 <= j < |RelOf(rel, vals[k])| :: Inverted(typedefs, rel, r, vals[k], j)
  {
    AllGrowRefl(r);
    forall k, j | 0 <= k < |vals| && 0 <= j < |RelOf(rel, vals[k])| ensures Inverted(typedefs, rel, r, vals[k], j) {
      if k > 0 {
        assert vals[1..][k - 1] == vals[k];
        assert Grows(RelOf(rel, vals[k]), RelOf(next, vals[k]));
        InvertedGrows(typedefs, rel, next, r, r, vals[k], j);
      }
    }
  }

  /** Every record that holds a target, and every target held, is in `s`. */
  ghost predicate Within(r: map<nat, seq<RelEntry>>, s: set<nat>) {
    forall t, td, y | Holds(RelOf(r, t), td, y) :: t in s && y in s
  }

  /** Inverting a key of a record in `s` stays within `s`. */
  lemma InvertEntryWithin(typedefs: map<string, Typedef>, rel: map<nat, seq<RelEntry>>, h: nat, i: nat, s: set<nat>)
    requires Within(rel, s) && h in s
    requires i < |RelOf(rel, h)| && InvertEntry(typedefs, rel, h, RelOf(rel, h)[i]).Success?
    ensures Within(InvertEntry(typedefs, rel, h, RelOf(rel, h)[i]).value, s)
  {
    var e := RelOf(rel, h)[i];
    var r := InvertEntry(typedefs, rel, h, e).value;
    InvertEntrySpec(typedefs, rel, h, e);
    forall t, td, y | Holds(RelOf(r, t), td, y) && !Holds(RelOf(rel, t), td, y) ensures t in s && y in s {
      assert Holds(RelOf(rel, h), e.typedef, t) by {
        assert RelOf(rel, h)[i].typedef == e.typedef && t in RelOf(rel, h)[i].targets;
      }
    }
  }

  /** One record's loop stays within `s`. */
  lemma {:induction false} InvertRecWithin(typedefs: map<string, Typedef>, rel: map<nat, seq<RelEntry>>, h: nat, i: nat, s: set<nat>)
    requires Within(rel, s) && h in s
    requires i <= |RelOf(rel, h)| && InvertRec(typedefs, rel, h, i).Success?
    ensures Within(InvertRec(typedefs, rel, h, i).value, s)
    decreases |RelOf(rel, h)| - i
  {
    if i < |RelOf(rel, h)| {
      var next := InvertEntry(typedefs, rel, h, RelOf(rel, h)[i]).value;
      InvertEntryWithin(typedefs, rel, h, i, s);
      InvertEntrySpec(typedefs, rel, h, RelOf(rel, h)[i]);
      assert InvertRec(typedefs, rel, h, i) == InvertRec(typedefs, next, h, i + 1);
      InvertRecWithin(typedefs, next, h, i + 1, s);
    }
  }

  /** The whole pass over records in `s` stays within `s`. */
  lemma {:induction false} InvertAllWithin(typedefs: map<string, Typedef>, rel: map<nat, seq<RelEntry>>, vals: seq<nat>, s: set<nat>)
    requires Within(rel, s) && forall k | 0 <= k < |vals| :: vals[k] in s
    requires InvertAll(typedefs, rel, vals).Success?
    ensures Within(InvertAll(typedefs, rel, vals).value, s)
    decreases |vals|
  {
    if vals != [] {
      var next := InvertRec(typedefs, rel, vals[0], 0).value;
      InvertRecWithin(typedefs, rel, vals[0], 0, s);
      assert InvertAll(typedefs, rel, vals) == InvertAll(typedefs, next, vals[1..]);
      InvertAllWithin(typedefs, next, vals[1..], s);
    }
  }

  /** Every key of every mapping names a known typedef. */
  ghost predicate KnownKeys(typedefs: map<string, Typedef>, rel: map<nat, seq<RelEntry>>) {
    forall t, i | 0 <= i < |RelOf(rel, t)| :: RelOf(rel, t)[i].typedef in typedefs
  }

  /** Every inverse a typedef names is a known typedef as well. */
  predicate InversesKnown(typedefs: map<string, Typedef>) {
    forall a | a in typedefs && typedefs[a].inverseOf != "" :: typedefs[a].inverseOf in typedefs
  }

  /** No record holds itself under any key. */
  ghost predicate NoSelf(rel: map<nat, seq<RelEntry>>) {
    forall t, td :: !Holds(RelOf(rel, t), td, t)
  }

  /** Adding under a known key keeps every key known. */
  lemma AddToKnown(typedefs: map<string, Typedef>, es: seq<RelEntry>, td: string, x: nat)
    requires td in typedefs && forall i | 0 <= i < |es| :: es[i].typedef in typedefs
    ensures forall i | 0 <= i < |AddTo(es, td, x)| :: AddTo(es, td, x)[i].typedef in typedefs
  {
    var r := AddTo(es, td, x);
    if !HasKey(es, td) {
      assert r == es + [RelEntry(td, {x})];
    }
  }

  /** With known keys and inverses and no record holding itself, inverting
      a key of `h` succeeds and keeps all three. */
  lemma InvertEntrySucceeds(typedefs: map<string, Typedef>, rel: map<nat, seq<RelEntry>>, h: nat, i: nat)
    requires KnownKeys(typedefs, rel) && InversesKnown(typedefs) && NoSelf(rel)
    requires i < |RelOf(rel, h)|
    ensures InvertEntry(typedefs, rel, h, RelOf(rel, h)[i]).Success?
    ensures KnownKeys(typedefs, InvertEntry(typedefs, rel, h, RelOf(rel, h)[i]).value)
    ensures NoSelf(InvertEntry(typedefs, rel, h, RelOf(rel, h)[i]).value)
  {
    var e := RelOf(rel, h)[i];
    assert e.typedef in typedefs;
    assert !Holds(RelOf(rel, h), e.typedef, h);
    var r := InvertEntry(typedefs, rel, h, e).value;
    InvertEntrySpec(typedefs, rel, h, e);
    var inv := typedefs[e.typedef].inverseOf;
    if inv != "" {
      forall t ensures forall j | 0 <= j < |RelOf(r, t)| :: RelOf(r, t)[j].typedef in typedefs {
        if t in e.targets {
          assert RelOf(r, t) == AddTo(RelOf(rel, t), inv, h);
          AddToKnown(typedefs, RelOf(rel, t), inv, h);
        } else {
          assert RelOf(r, t) == RelOf(rel, t);
        }
      }
    }
    forall t, td ensures !Holds(RelOf(r, t), td, t) {
      assert !Holds(RelOf(rel, t), td, t);
    }
  }

  /** One record's loop succeeds from key `i` on and keeps the three
      conditions. */
  lemma {:induction false} InvertRecSucceeds(typedefs: map<string, Typedef>, rel: map<nat, seq<RelEntry>>, h: nat, i: nat)
    requires KnownKeys(typedefs, rel) && InversesKnown(typedefs) && NoSelf(rel)
    requires i <= |RelOf(rel, h)|
    ensures InvertRec(typedefs, rel, h, i).Success?
    ensures KnownKeys(typedefs, InvertRec(typedefs, rel, h, i).value) && NoSelf(InvertRec(typedefs, rel, h, i).value)
    decreases |RelOf(rel, h)| - i
  {
    if i < |RelOf(rel, h)| {
      InvertEntrySucceeds(typedefs, rel, h, i);
      var next := InvertEntry(typedefs, rel, h, RelOf(rel, h)[i]).value;
      InvertRecSucceeds(typedefs, next, h, i + 1);
    }
  }

  /** With every key and every inverse a known typedef and no record
      holding itself, the inversion loop never fails. */
  lemma {:induction false} InvertAllSucceeds(typedefs: map<string, Typedef>, rel: map<nat, seq<RelEntry>>, vals: seq<nat>)
    requires KnownKeys(typedefs, rel) && InversesKnown(typedefs) && NoSelf(rel)
    ensures InvertAll(typedefs, rel, vals).Success?
    decreases |vals|
  {
    if vals != [] {
      InvertRecSucceeds(typedefs, rel, vals[0], 0);
      InvertAllSucceeds(typedefs, InvertRec(typedefs, rel, vals[0], 0).value, vals[1..]);
    }
  }
}
