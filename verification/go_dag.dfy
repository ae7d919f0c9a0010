/** The dictionary `GODag` itself: GO ids in insertion order, each mapped
    to the record stored under it, and `load_obo_file`'s rule for filling it
    from the reader's records. A record is named by its handle, its position
    in the sequence of records the reader yielded, because the same record
    may sit under several keys and two records may share an id. */
module GoDag {
  import opened Records

  /** Keys in insertion order (as `dict` keeps them) and the handle each key
      maps to. */
  datatype Index = Index(keys: seq<string>, slot: map<string, nat>)

  /** The keys are distinct and are exactly the mapped ones. */
  ghost predicate Valid(ix: Index) {
    && (forall i, j | 0 <= i < j < |ix.keys| :: ix.keys[i] != ix.keys[j])
    && (forall k :: k in ix.slot <==> k in ix.keys)
  }

  const Empty := Index([], map[])

  /** `self[k] = h`: a new key goes to the end; an existing key keeps its
      place and only changes its record. */
  function Put(ix: Index, k: string, h: nat): (r: Index)
    requires Valid(ix)
    ensures Valid(r) && r.slot == ix.slot[k := h]
    ensures ix.keys <= r.keys
    ensures k in ix.slot ==> r.keys == ix.keys
  {
    if k in ix.slot then ix.(slot := ix.slot[k := h])
    else Index(ix.keys + [k], ix.slot[k := h])
  }

  /** The keys a record is stored under: its id, then its alt ids. */
  function KeysOf(t: Term): seq<string> {
    [t.id] + t.altIds
  }

  /** Whether `load_obo_file` stores a record. */
  predicate Kept(loadObsolete: bool, t: Term) {
    loadObsolete || !t.isObsolete
  }

  /** Store handle `h` under each of `ks` in turn. */
  function PutAll(ix: Index, ks: seq<string>, h: nat): (r: Index)
    requires Valid(ix)
    ensures Valid(r) && ix.keys <= r.keys
    ensures forall k :: k in r.slot <==> k in ix.slot || k in ks
    ensures forall k | k in r.slot :: r.slot[k] == if k in ks then h else ix.slot[k]
    decreases |ks|
  {
    if ks == [] then ix else PutAll(Put(ix, ks[0], h), ks[1..], h)
  }

  /** `load_obo_file` after the first `n` records: each record kept is
      stored under its id and then under each alt id. */
  function LoadPrefix(terms: seq<Term>, loadObsolete: bool, n: nat): (r: Index)
    requires n <= |terms|
    ensures Valid(r)
  {
    if n == 0 then Empty
    else
      var ix := LoadPrefix(terms, loadObsolete, n - 1);
      if Kept(loadObsolete, terms[n - 1]) then PutAll(ix, KeysOf(terms[n - 1]), n - 1) else ix
  }

  /** The dictionary `load_obo_file` builds from the reader's records. */
  function Load(terms: seq<Term>, loadObsolete: bool): (r: Index)
    ensures Valid(r)
  {
    LoadPrefix(terms, loadObsolete, |terms|)
  }

  /** Every key maps to one of `n` records. */
  predicate Bounded(ix: Index, n: nat) {
    forall k | k in ix.slot :: ix.slot[k] < n
  }

  /** `load_obo_file` only stores records it was given. */
  lemma {:induction false} LoadBounded(terms: seq<Term>, loadObsolete: bool, n: nat)
    requires n <= |terms|
    ensures Bounded(LoadPrefix(terms, loadObsolete, n), n)
  {
    if n > 0 {
      LoadBounded(terms, loadObsolete, n - 1);
    }
  }

  /** Record `h` among the first `n` is kept and stored under `k`. */
  predicate Mentions(terms: seq<Term>, loadObsolete: bool, h: nat, k: string) {
    h < |terms| && Kept(loadObsolete, terms[h]) && k in KeysOf(terms[h])
  }

  /** The last writer wins: a key is present iff some kept record names it
      (as id or alt id), and it then maps to the last such record. */
  lemma {:induction false} LoadLastWriter(terms: seq<Term>, loadObsolete: bool, n: nat, k: string)
    requires n <= |terms|
    ensures k in LoadPrefix(terms, loadObsolete, n).slot <==> exists h: nat | h < n :: Mentions(terms, loadObsolete, h, k)
    ensures k in LoadPrefix(terms, loadObsolete, n).slot ==>
      var h := LoadPrefix(terms, loadObsolete, n).slot[k];
      Mentions(terms, loadObsolete, h, k) && forall j | h < j < n :: !Mentions(terms, loadObsolete, j, k)
  {
    if n > 0 {
      LoadLastWriter(terms, loadObsolete, n - 1, k);
      LoadStep(terms, loadObsolete, n, k);
      if !Mentions(terms, loadObsolete, n - 1, k) {
        if exists h: nat | h < n :: Mentions(terms, loadObsolete, h, k) {
          var h: nat :| h < n && Mentions(terms, loadObsolete, h, k);
          assert h < n - 1;
        }
        var ix := LoadPrefix(terms, loadObsolete, n);
        if k in ix.slot {
          var h := ix.slot[k];
          forall j | h < j < n ensures !Mentions(terms, loadObsolete, j, k) {
            if j < n - 1 {
              assert !Mentions(terms, loadObsolete, j, k);
            }
          }
        }
      }
    }
  }

  /** One more record either takes key `k` or leaves it as it was. */
  lemma LoadStep(terms: seq<Term>, loadObsolete: bool, n: nat, k: string)
    requires 0 < n <= |terms|
    ensures var ix := LoadPrefix(terms, loadObsolete, n); var prev := LoadPrefix(terms, loadObsolete, n - 1);
      && (Mentions(terms, loadObsolete, n - 1, k) ==> k in ix.slot && ix.slot[k] == n - 1)
      && (!Mentions(terms, loadObsolete, n - 1, k) ==>
            (k in ix.slot <==> k in prev.slot) && (k in ix.slot ==> ix.slot[k] == prev.slot[k]))
  {
  }

  /** Filtering and aliasing: a record whose keys no later kept record
      names again sits under its id and every alt id iff it is kept. */
  lemma {:induction false} LoadAliases(terms: seq<Term>, loadObsolete: bool, h: nat)
    requires h < |terms|
    requires forall j, k | h < j < |terms| && k in KeysOf(terms[h]) :: !Mentions(terms, loadObsolete, j, k)
    ensures Kept(loadObsolete, terms[h]) ==> forall k | k in KeysOf(terms[h]) ::
      k in Load(terms, loadObsolete).slot && Load(terms, loadObsolete).slot[k] == h
    ensures !Kept(loadObsolete, terms[h]) ==> forall k | k in Load(terms, loadObsolete).slot ::
      Load(terms, loadObsolete).slot[k] != h
  {
    forall k | k in KeysOf(terms[h])
      ensures Kept(loadObsolete, terms[h]) ==> k in Load(terms, loadObsolete).slot && Load(terms, loadObsolete).slot[k] == h
    {
      LoadLastWriter(terms, loadObsolete, |terms|, k);
      if Kept(loadObsolete, terms[h]) {
        assert Mentions(terms, loadObsolete, h, k);
      }
    }
    forall k | k in Load(terms, loadObsolete).slot
      ensures !Kept(loadObsolete, terms[h]) ==> Load(terms, loadObsolete).slot[k] != h
    {
      LoadLastWriter(terms, loadObsolete, |terms|, k);
    }
  }

  /** `self.values()`: the record of each key, in key order, a record
      appearing once per key it is stored under. */
  function Values(ix: Index): seq<nat>
    requires Valid(ix)
  {
    seq(|ix.keys|, i requires 0 <= i < |ix.keys| => ix.slot[ix.keys[i]])
  }

  /** The handles of the stored records. */
  function Stored(ix: Index): set<nat> {
    set k | k in ix.slot :: ix.slot[k]
  }

  /** Every stored record is visited by `values()`, and nothing else is. */
  lemma ValuesStored(ix: Index)
    requires Valid(ix)
    ensures forall h :: h in Values(ix) <==> h in Stored(ix)
  {
    var vs := Values(ix);
    forall h | h in Stored(ix) ensures h in vs {
      var k :| k in ix.slot && ix.slot[k] == h;
      var i :| 0 <= i < |ix.keys| && ix.keys[i] == k;
      assert vs[i] == h;
    }
  }

  /** The keys among the first `n` that hold record `h`. */
  ghost function KeysHolding(ix: Index, n: nat, h: nat): set<string>
    requires n <= |ix.keys|
  {
    set k | k in ix.keys[..n] && k in ix.slot && ix.slot[k] == h
  }

  /** `values()` lists each record exactly once per key it is stored
      under. */
  lemma ValuesCount(ix: Index, h: nat)
    requires Valid(ix)
    ensures multiset(Values(ix))[h] == |set k | k in ix.slot && ix.slot[k] == h|
  {
    var n := |ix.keys|;
    ValuesCountPrefix(ix, n, h);
    assert Values(ix)[..n] == Values(ix);
    assert KeysHolding(ix, n, h) == set k | k in ix.slot && ix.slot[k] == h by {
      assert ix.keys[..n] == ix.keys;
    }
  }

  /** The first `n` entries of `values()` hold `h` once per key among the
      first `n` that holds it. */
  lemma {:induction false} ValuesCountPrefix(ix: Index, n: nat, h: nat)
    requires Valid(ix) && n <= |ix.keys|
    ensures multiset(Values(ix)[..n])[h] == |KeysHolding(ix, n, h)|
  {
    if n > 0 {
      ValuesCountPrefix(ix, n - 1, h);
      KeysHoldingStep(ix, n, h);
      assert Values(ix)[..n] == Values(ix)[..n - 1] + [Values(ix)[n - 1]];
    }
  }

  /** Key `n - 1` is new among the first `n`, so it adds one holder of `h`
      exactly when it holds `h`. */
  lemma KeysHoldingStep(ix: Index, n: nat, h: nat)
    requires Valid(ix) && 0 < n <= |ix.keys|
    ensures |KeysHolding(ix, n, h)| == |KeysHolding(ix, n - 1, h)| + if ix.slot[ix.keys[n - 1]] == h then 1 else 0
  {
    var k := ix.keys[n - 1];
    assert ix.keys[..n] == ix.keys[..n - 1] + [k];
    assert k !in ix.keys[..n - 1];
    if ix.slot[k] == h {
      assert KeysHolding(ix, n, h) == KeysHolding(ix, n - 1, h) + {k};
    } else {
      assert KeysHolding(ix, n, h) == KeysHolding(ix, n - 1, h);
    }
  }
}
