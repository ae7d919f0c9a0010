/** `GOTerm.write_hier_rec` and `GODag.write_hier`: the hierarchy below a
    term, one line per visit, children in order, each line indented by its
    recursion depth. The lines are produced as values rather than written
    to a stream. */
module Hierarchy {
  import opened Wrappers
  import opened GoDag
  import opened TermGraph
  import opened Queries

  /** The keyword arguments: `len_dash` given (`dashes`), `max_depth`,
      `num_child` given, `short_prt`, `include_only`, `go_marks`. */
  datatype HierOpts = HierOpts(
    dashes: bool,
    maxDepth: Option<int>,
    numChild: bool,
    shortPrt: bool,
    includeOnly: Option<set<string>>,
    goMarks: Option<set<string>>)

  /** One written line: the mark, the dashes, the number of descendants,
      then the record's id, level, depth and name. `h` is the record,
      `indent` the recursion depth, `repeated` whether the record's
      hierarchy was already written (`nrp`). */
  datatype HierLine = HierLine(
    mark: Option<char>,
    dashes: Option<string>,
    count: Option<nat>,
    id: string,
    level: nat,
    depth: nat,
    name: string,
    h: nat,
    indent: nat,
    repeated: bool)

  function Repeat(c: char, n: nat): (r: string)
    ensures |r| == n && forall i | 0 <= i < n :: r[i] == c
  {
    if n == 0 then "" else [c] + Repeat(c, n - 1)
  }

  /** Whether `include_only` lets the record be written. */
  predicate Allowed(o: HierOpts, id: string) {
    o.includeOnly.None? || id in o.includeOnly.value
  }

  /** The line written for record `h` at recursion depth `indent`: '-'
      dashes, or '=' for a repeated record that has children. */
  function Line(d: Dag, o: HierOpts, h: nat, indent: nat, nrp: bool): HierLine
    requires Steps(d, Down) && h in d.nodes
  {
    var n := d.nodes[h];
    HierLine(
      if o.goMarks.Some? then Some(if n.term.id in o.goMarks.value then '>' else ' ') else None,
      if o.dashes then Some(Repeat(if !nrp || n.children == [] then '-' else '=', indent)) else None,
      if o.numChild then Some(|AllIds(d, Down, h)|) else None,
      n.term.id, n.level, n.depth, n.term.name, h, indent, nrp)
  }

  /** `rec.write_hier_rec(gos_printed, ..., depth=indent)`: the lines
      written and the ids printed afterwards. */
  function WriteHier(d: Dag, o: HierOpts, h: nat, printed: set<string>, indent: nat): (set<string>, seq<HierLine>)
    requires Steps(d, Down) && h in d.nodes
    decreases Dist(d, Down, h), 1
  {
    var goid := IdOf(d, h);
    if !Allowed(o, goid) then (printed, [])
    else
      var nrp := o.shortPrt && goid in printed;
      var line := Line(d, o, h, indent, nrp);
      var printed1 := if o.shortPrt then printed + {goid} else printed;
      if nrp || (o.maxDepth.Some? && indent + 1 > o.maxDepth.value) then (printed1, [line])
      else
        var (printed2, rest) := WriteChildren(d, o, h, 0, printed1, indent + 1);
        (printed2, [line] + rest)
  }

  /** The loop over `self.children` from the `i`th child on. */
  function WriteChildren(d: Dag, o: HierOpts, h: nat, i: nat, printed: set<string>, indent: nat): (set<string>, seq<HierLine>)
    requires Steps(d, Down) && h in d.nodes && i <= |d.nodes[h].children|
    decreases Dist(d, Down, h), 0, |d.nodes[h].children| - i
  {
    var cs := d.nodes[h].children;
    if i == |cs| then (printed, [])
    else
      assert cs[i] in Next(d, Down, h);
      var (p1, a) := WriteHier(d, o, cs[i], printed, indent);
      var (p2, b) := WriteChildren(d, o, h, i + 1, p1, indent);
      (p2, a + b)
  }

  /** `GODag.write_hier(go_id, ...)`: nothing for an id that is not a key
      (`write_hier` raises `KeyError`), else the lines below its record,
      starting from an empty printed set at depth 1. */
  function WriteHierarchy(d: Dag, goId: string, o: HierOpts): (r: Option<seq<HierLine>>)
    requires Loaded(d)
    ensures r.None? <==> goId !in d.index.slot
    ensures r.Some? && Allowed(o, goId) && Names(d, d.index.slot[goId], goId) ==>
      |r.value| >= 1 && r.value[0].h == d.index.slot[goId] && r.value[0].indent == 1
  {
    WfSteps(d, Down);
    if goId !in d.index.slot then None else Some(WriteHier(d, o, d.index.slot[goId], {}, 1).1)
  }

  // ------------------------------------------------------------ what is written

  /** Only the record and its descendants are written, never above the
      starting depth, and only records `include_only` allows. */
  ghost predicate Within(d: Dag, o: HierOpts, h: nat, indent: nat, l: HierLine) {
    && (l.h == h || Reach(d, Down, h, l.h))
    && l.indent >= indent
    && Allowed(o, l.id)
  }

  lemma {:induction false} WriteHierWithin(d: Dag, o: HierOpts, h: nat, printed: set<string>, indent: nat)
    requires Steps(d, Down) && h in d.nodes
    ensures forall l | l in WriteHier(d, o, h, printed, indent).1 :: Within(d, o, h, indent, l)
    decreases Dist(d, Down, h), 1
  {
    var goid := IdOf(d, h);
    if Allowed(o, goid) {
      var nrp := o.shortPrt && goid in printed;
      var printed1 := if o.shortPrt then printed + {goid} else printed;
      if !(nrp || (o.maxDepth.Some? && indent + 1 > o.maxDepth.value)) {
        WriteChildrenWithin(d, o, h, 0, printed1, indent + 1);
      }
    }
  }

  lemma {:induction false} WriteChildrenWithin(d: Dag, o: HierOpts, h: nat, i: nat, printed: set<string>, indent: nat)
    requires Steps(d, Down) && h in d.nodes && i <= |d.nodes[h].children| && indent >= 1
    ensures forall l | l in WriteChildren(d, o, h, i, printed, indent).1 ::
      Reach(d, Down, h, l.h) && l.indent >= indent && Allowed(o, l.id)
    decreases Dist(d, Down, h), 0, |d.nodes[h].children| - i
  {
    var cs := d.nodes[h].children;
    if i < |cs| {
      var c := cs[i];
      assert c in Next(d, Down, h);
      var (p1, a) := WriteHier(d, o, c, printed, indent);
      WriteHierWithin(d, o, c, printed, indent);
      WriteChildrenWithin(d, o, h, i + 1, p1, indent);
      forall l | l in a ensures Reach(d, Down, h, l.h) {
        ReachStep(d, Down, h, l.h);
      }
    }
  }

  /** `max_depth`: after the first line, no line is deeper than it. */
  lemma {:induction false} WriteHierDepth(d: Dag, o: HierOpts, h: nat, printed: set<string>, indent: nat)
    requires Steps(d, Down) && h in d.nodes && o.maxDepth.Some?
    ensures var lines := WriteHier(d, o, h, printed, indent).1;
      forall k | 1 <= k < |lines| :: lines[k].indent <= o.maxDepth.value
    decreases Dist(d, Down, h), 1
  {
    var goid := IdOf(d, h);
    if Allowed(o, goid) {
      var nrp := o.shortPrt && goid in printed;
      var printed1 := if o.shortPrt then printed + {goid} else printed;
      if !(nrp || indent + 1 > o.maxDepth.value) {
        WriteChildrenDepth(d, o, h, 0, printed1, indent + 1);
      }
    }
  }

  lemma {:induction false} WriteChildrenDepth(d: Dag, o: HierOpts, h: nat, i: nat, printed: set<string>, indent: nat)
    requires Steps(d, Down) && h in d.nodes && i <= |d.nodes[h].children|
    requires o.maxDepth.Some? && indent <= o.maxDepth.value
    ensures forall l | l in WriteChildren(d, o, h, i, printed, indent).1 :: l.indent <= o.maxDepth.value
    decreases Dist(d, Down, h), 0, |d.nodes[h].children| - i
  {
    var cs := d.nodes[h].children;
    if i < |cs| {
      var c := cs[i];
      assert c in Next(d, Down, h);
      var a := WriteHier(d, o, c, printed, indent).1;
      var p1 := WriteHier(d, o, c, printed, indent).0;
      WriteHierDepth(d, o, c, printed, indent);
      WriteHierWithin(d, o, c, printed, indent);
      WriteChildrenDepth(d, o, h, i + 1, p1, indent);
      WriteHierFirst(d, o, c, printed, indent);
      assert forall k | 0 <= k < |a| :: a[k].indent <= o.maxDepth.value;
    }
  }

  /** The first line is the record itself, unless `include_only` leaves it
      out, and then nothing is written and nothing printed. */
  lemma WriteHierFirst(d: Dag, o: HierOpts, h: nat, printed: set<string>, indent: nat)
    requires Steps(d, Down) && h in d.nodes
    ensures var r := WriteHier(d, o, h, printed, indent);
      && (!Allowed(o, IdOf(d, h)) ==> r == (printed, []))
      && (Allowed(o, IdOf(d, h)) ==> |r.1| >= 1 && r.1[0].h == h && r.1[0].indent == indent)
  {
  }

  // ------------------------------------------------------------ short_prt

  /** The ids of the lines. */
  function IdsOf(lines: seq<HierLine>): set<string> {
    set k | 0 <= k < |lines| :: lines[k].id
  }

  /** With `short_prt` the printed set gains exactly the ids written;
      without it, it is left alone. */
  lemma {:induction false} WriteHierPrinted(d: Dag, o: HierOpts, h: nat, printed: set<string>, indent: nat)
    requires Steps(d, Down) && h in d.nodes
    ensures var r := WriteHier(d, o, h, printed, indent);
      r.0 == if o.shortPrt then printed + IdsOf(r.1) else printed
    decreases Dist(d, Down, h), 1
  {
    var goid := IdOf(d, h);
    if Allowed(o, goid) {
      var nrp := o.shortPrt && goid in printed;
      var line := Line(d, o, h, indent, nrp);
      var printed1 := if o.shortPrt then printed + {goid} else printed;
      if !(nrp || (o.maxDepth.Some? && indent + 1 > o.maxDepth.value)) {
        WriteChildrenPrinted(d, o, h, 0, printed1, indent + 1);
        var rest := WriteChildren(d, o, h, 0, printed1, indent + 1).1;
        IdsOfAppend([line], rest);
        IdsOfSingle(line);
      } else {
        IdsOfSingle(line);
      }
    }
  }

  lemma {:induction false} WriteChildrenPrinted(d: Dag, o: HierOpts, h: nat, i: nat, printed: set<string>, indent: nat)
    requires Steps(d, Down) && h in d.nodes && i <= |d.nodes[h].children|
    ensures var r := WriteChildren(d, o, h, i, printed, indent);
      r.0 == if o.shortPrt then printed + IdsOf(r.1) else printed
    decreases Dist(d, Down, h), 0, |d.nodes[h].children| - i
  {
    var cs := d.nodes[h].children;
    if i < |cs| {
      var c := cs[i];
      assert c in Next(d, Down, h);
      var a := WriteHier(d, o, c, printed, indent).1;
      var p1 := WriteHier(d, o, c, printed, indent).0;
      var b := WriteChildren(d, o, h, i + 1, p1, indent).1;
      WriteHierPrinted(d, o, c, printed, indent);
      WriteChildrenPrinted(d, o, h, i + 1, p1, indent);
      IdsOfAppend(a, b);
    } else {
      assert IdsOf([]) == {};
    }
  }

  lemma IdsOfSingle(l: HierLine)
    ensures IdsOf([l]) == {l.id}
  {
    assert [l][0].id == l.id;
  }

  lemma IdsOfAppend(a: seq<HierLine>, b: seq<HierLine>)
    ensures IdsOf(a + b) == IdsOf(a) + IdsOf(b)
  {
    var ab := a + b;
    forall x | x in IdsOf(ab) ensures x in IdsOf(a) + IdsOf(b) {
      var k :| 0 <= k < |ab| && ab[k].id == x;
      if k >= |a| {
        assert b[k - |a|].id == x;
      }
    }
    forall x | x in IdsOf(a) + IdsOf(b) ensures x in IdsOf(ab) {
      if x in IdsOf(a) {
        var k :| 0 <= k < |a| && a[k].id == x;
        assert ab[k].id == x;
      } else {
        var k :| 0 <= k < |b| && b[k].id == x;
        assert ab[|a| + k].id == x;
      }
    }
  }

  /** Line `k` repeats a record: with `short_prt`, its id was printed
      before the call or on an earlier line. */
  ghost predicate SeenBefore(o: HierOpts, printed: set<string>, lines: seq<HierLine>, k: nat)
    requires k < |lines|
  {
    o.shortPrt && (lines[k].id in printed || exists j | 0 <= j < k :: lines[j].id == lines[k].id)
  }

  /** `short_prt`: a line is marked repeated, and nothing is written below
      it, exactly when its id was printed before; so every record's
      hierarchy is written out at most once. */
  lemma {:induction false} WriteHierRepeats(d: Dag, o: HierOpts, h: nat, printed: set<string>, indent: nat)
    requires Steps(d, Down) && h in d.nodes
    ensures Marked(o, printed, WriteHier(d, o, h, printed, indent).1)
    ensures Pruned(WriteHier(d, o, h, printed, indent).1)
    decreases Dist(d, Down, h), 1
  {
    WriteHierPruned(d, o, h, printed, indent);
    var goid := IdOf(d, h);
    if Allowed(o, goid) {
      var nrp := o.shortPrt && goid in printed;
      var line := Line(d, o, h, indent, nrp);
      var printed1 := if o.shortPrt then printed + {goid} else printed;
      var lines := WriteHier(d, o, h, printed, indent).1;
      if !(nrp || (o.maxDepth.Some? && indent + 1 > o.maxDepth.value)) {
        var rest := WriteChildren(d, o, h, 0, printed1, indent + 1).1;
        WriteChildrenRepeats(d, o, h, 0, printed1, indent + 1);
        ConsRepeats(o, printed, line, rest);
      } else {
        assert lines == [line];
        assert lines[0].repeated <==> SeenBefore(o, printed, lines, 0);
      }
    }
  }

  /** Seen before the rest of the lines, after the first: seen before the
      whole, with the first line's id printed. */
  lemma ShiftSeen(o: HierOpts, printed: set<string>, goid: string, line: HierLine, rest: seq<HierLine>, k: nat)
    requires line.id == goid && k < |rest|
    ensures SeenBefore(o, if o.shortPrt then printed + {goid} else printed, rest, k) <==>
      SeenBefore(o, printed, [line] + rest, k + 1)
  {
    var all := [line] + rest;
    assert all[0].id == goid;
    assert forall j | 0 <= j < k :: all[j + 1] == rest[j];
    if SeenBefore(o, printed, all, k + 1) && o.shortPrt && rest[k].id !in printed && rest[k].id != goid {
      var j :| 0 <= j < k + 1 && all[j].id == all[k + 1].id;
      assert rest[j - 1].id == rest[k].id;
    }
  }

  lemma {:induction false} WriteChildrenRepeats(d: Dag, o: HierOpts, h: nat, i: nat, printed: set<string>, indent: nat)
    requires Steps(d, Down) && h in d.nodes && i <= |d.nodes[h].children|
    ensures Marked(o, printed, WriteChildren(d, o, h, i, printed, indent).1)
    ensures Pruned(WriteChildren(d, o, h, i, printed, indent).1)
    decreases Dist(d, Down, h), 0, |d.nodes[h].children| - i
  {
    WriteChildrenPruned(d, o, h, i, printed, indent);
    var cs := d.nodes[h].children;
    if i < |cs| {
      var c := cs[i];
      assert c in Next(d, Down, h);
      var a := WriteHier(d, o, c, printed, indent).1;
      var p1 := WriteHier(d, o, c, printed, indent).0;
      var b := WriteChildren(d, o, h, i + 1, p1, indent).1;
      WriteHierRepeats(d, o, c, printed, indent);
      WriteHierPrinted(d, o, c, printed, indent);
      WriteChildrenRepeats(d, o, h, i + 1, p1, indent);
      ConcatRepeats(o, printed, a, b);
    }
  }

  /** Every line is marked exactly when it was seen before. */
  ghost predicate Marked(o: HierOpts, printed: set<string>, lines: seq<HierLine>) {
    forall k | 0 <= k < |lines| :: lines[k].repeated <==> SeenBefore(o, printed, lines, k)
  }

  /** A first line marked as its own id being printed, followed by lines
      marked against the printed set that includes it. */
  lemma ConsRepeats(o: HierOpts, printed: set<string>, line: HierLine, rest: seq<HierLine>)
    requires line.repeated <==> o.shortPrt && line.id in printed
    requires Marked(o, if o.shortPrt then printed + {line.id} else printed, rest)
    ensures Marked(o, printed, [line] + rest)
  {
    var lines := [line] + rest;
    forall k | 0 <= k < |lines| ensures lines[k].repeated <==> SeenBefore(o, printed, lines, k) {
      if k >= 1 {
        assert lines[k] == rest[k - 1];
        ShiftSeen(o, printed, line.id, line, rest, k - 1);
      }
    }
  }

  /** Two runs of marked lines, the second marked against the printed set
      the first left. */
  lemma ConcatRepeats(o: HierOpts, printed: set<string>, a: seq<HierLine>, b: seq<HierLine>)
    requires Marked(o, printed, a)
    requires Marked(o, if o.shortPrt then printed + IdsOf(a) else printed, b)
    ensures Marked(o, printed, a + b)
  {
    var lines := a + b;
    forall k | 0 <= k < |lines| ensures lines[k].repeated <==> SeenBefore(o, printed, lines, k) {
      if k < |a| {
        assert lines[k] == a[k];
        PrefixSeen(o, printed, a, b, k);
      } else {
        assert lines[k] == b[k - |a|];
        AppendSeen(o, printed, a, b, k - |a|);
      }
    }
  }

  lemma PrefixSeen(o: HierOpts, printed: set<string>, a: seq<HierLine>, b: seq<HierLine>, k: nat)
    requires k < |a|
    ensures SeenBefore(o, printed, a + b, k) <==> SeenBefore(o, printed, a, k)
  {
    var all := a + b;
    assert forall j | 0 <= j <= k :: all[j] == a[j];
  }

  lemma AppendSeen(o: HierOpts, printed: set<string>, a: seq<HierLine>, b: seq<HierLine>, k: nat)
    requires k < |b|
    ensures SeenBefore(o, if o.shortPrt then printed + IdsOf(a) else printed, b, k) <==>
      SeenBefore(o, printed, a + b, |a| + k)
  {
    var all := a + b;
    assert all[|a| + k] == b[k];
    if o.shortPrt {
      if b[k].id in IdsOf(a) {
        var j :| 0 <= j < |a| && a[j].id == b[k].id;
        assert all[j] == a[j];
      }
      if exists j | 0 <= j < k :: b[j].id == b[k].id {
        var j :| 0 <= j < k && b[j].id == b[k].id;
        assert all[|a| + j] == b[j];
      }
      if SeenBefore(o, printed, all, |a| + k) && b[k].id !in printed {
        var j :| 0 <= j < |a| + k && all[j].id == all[|a| + k].id;
        if j < |a| {
          assert all[j] == a[j];
        } else {
          assert all[j] == b[j - |a|];
        }
      }
    }
  }

  /** Nothing is written below a repeated line: the line after it is no
      deeper. */
  ghost predicate Pruned(lines: seq<HierLine>) {
    forall k | 0 <= k < |lines| - 1 && lines[k].repeated :: lines[k + 1].indent <= lines[k].indent
  }

  lemma {:induction false} WriteHierPruned(d: Dag, o: HierOpts, h: nat, printed: set<string>, indent: nat)
    requires Steps(d, Down) && h in d.nodes
    ensures Pruned(WriteHier(d, o, h, printed, indent).1)
    decreases Dist(d, Down, h), 1
  {
    var goid := IdOf(d, h);
    if Allowed(o, goid) {
      var nrp := o.shortPrt && goid in printed;
      var line := Line(d, o, h, indent, nrp);
      var printed1 := if o.shortPrt then printed + {goid} else printed;
      if !(nrp || (o.maxDepth.Some? && indent + 1 > o.maxDepth.value)) {
        var rest := WriteChildren(d, o, h, 0, printed1, indent + 1).1;
        WriteChildrenPruned(d, o, h, 0, printed1, indent + 1);
        ConsPruned(line, rest);
      }
    }
  }

  /** The children loop is pruned, and its first line, if any, is at the
      loop's depth. */
  lemma {:induction false} WriteChildrenPruned(d: Dag, o: HierOpts, h: nat, i: nat, printed: set<string>, indent: nat)
    requires Steps(d, Down) && h in d.nodes && i <= |d.nodes[h].children|
    ensures Pruned(WriteChildren(d, o, h, i, printed, indent).1)
    ensures var ls := WriteChildren(d, o, h, i, printed, indent).1; |ls| > 0 ==> ls[0].indent == indent
    decreases Dist(d, Down, h), 0, |d.nodes[h].children| - i
  {
    var cs := d.nodes[h].children;
    if i < |cs| {
      var c := cs[i];
      assert c in Next(d, Down, h);
      var a := WriteHier(d, o, c, printed, indent).1;
      var p1 := WriteHier(d, o, c, printed, indent).0;
      var b := WriteChildren(d, o, h, i + 1, p1, indent).1;
      WriteHierPruned(d, o, c, printed, indent);
      WriteHierWithin(d, o, c, printed, indent);
      WriteHierFirst(d, o, c, printed, indent);
      WriteChildrenPruned(d, o, h, i + 1, p1, indent);
      ConcatPruned(a, b, indent);
      if a == [] {
        assert a + b == b;
      } else {
        assert (a + b)[0] == a[0];
      }
    }
  }

  /** A line that is not repeated, before pruned lines. */
  lemma ConsPruned(line: HierLine, rest: seq<HierLine>)
    requires !line.repeated && Pruned(rest)
    ensures Pruned([line] + rest)
  {
    var lines := [line] + rest;
    forall k | 1 <= k < |lines| - 1 && lines[k].repeated ensures lines[k + 1].indent <= lines[k].indent {
      assert lines[k] == rest[k - 1] && lines[k + 1] == rest[k];
    }
  }

  /** Two pruned runs, the first never above the depth at which the second
      starts. */
  lemma ConcatPruned(a: seq<HierLine>, b: seq<HierLine>, indent: nat)
    requires Pruned(a) && Pruned(b)
    requires forall l | l in a :: l.indent >= indent
    requires |b| > 0 ==> b[0].indent == indent
    ensures Pruned(a + b)
  {
    var lines := a + b;
    forall k | 0 <= k < |lines| - 1 && lines[k].repeated ensures lines[k + 1].indent <= lines[k].indent {
      if k + 1 < |a| {
        assert lines[k] == a[k] && lines[k + 1] == a[k + 1];
      } else if k + 1 == |a| {
        assert lines[k] == a[k] && lines[k + 1] == b[0];
        assert a[k] in a;
      } else {
        assert lines[k] == b[k - |a|] && lines[k + 1] == b[k + 1 - |a|];
      }
    }
  }

  // ------------------------------------------------------------ completeness

  /** The options that write everything: no `include_only`, no
      `max_depth`, no `short_prt`. */
  predicate Full(o: HierOpts) {
    o.includeOnly.None? && o.maxDepth.None? && !o.shortPrt
  }

  /** With those options every descendant is written. */
  lemma {:induction false} WriteHierComplete(d: Dag, o: HierOpts, h: nat, printed: set<string>, indent: nat, a: nat)
    requires Steps(d, Down) && h in d.nodes && Full(o)
    requires a == h || Reach(d, Down, h, a)
    ensures exists l | l in WriteHier(d, o, h, printed, indent).1 :: l.h == a
    decreases Dist(d, Down, h), 1
  {
    var line := Line(d, o, h, indent, false);
    if a == h {
      assert WriteHier(d, o, h, printed, indent).1[0] == line;
    } else {
      ReachStep(d, Down, h, a);
      var x :| x in Next(d, Down, h) && (x == a || Reach(d, Down, x, a));
      var i :| 0 <= i < |d.nodes[h].children| && d.nodes[h].children[i] == x;
      WriteChildrenComplete(d, o, h, 0, printed, indent + 1, i, a);
    }
  }

  lemma {:induction false} WriteChildrenComplete(d: Dag, o: HierOpts, h: nat, i: nat, printed: set<string>, indent: nat, j: nat, a: nat)
    requires Steps(d, Down) && h in d.nodes && Full(o)
    requires i <= j < |d.nodes[h].children|
    requires a == d.nodes[h].children[j] || Reach(d, Down, d.nodes[h].children[j], a)
    ensures exists l | l in WriteChildren(d, o, h, i, printed, indent).1 :: l.h == a
    decreases Dist(d, Down, h), 0, |d.nodes[h].children| - i
  {
    var cs := d.nodes[h].children;
    var c := cs[i];
    assert c in Next(d, Down, h);
    var (p1, x) := WriteHier(d, o, c, printed, indent);
    var (p2, y) := WriteChildren(d, o, h, i + 1, p1, indent);
    if i == j {
      WriteHierComplete(d, o, c, printed, indent, a);
      var l :| l in x && l.h == a;
      assert l in x + y;
    } else {
      WriteChildrenComplete(d, o, h, i + 1, p1, indent, j, a);
      var l :| l in y && l.h == a;
      assert l in x + y;
    }
  }
}
