# goatools OBO parser and GO DAG, modelled in Dafny

This project models `goatools/obo_parser.py` of goatools, the Gene Ontology
toolkit. It covers three parts.

- **The OBO reader** (`OBOReader.__iter__` and its helpers). This is a
  line-by-line state machine over the lines of an OBO 1.2 file.
  - It opens term and typedef stanzas on `[Term]` / `[Typedef]` headers,
    compared case-insensitively.
  - Inside a stanza it reads `name: value` field lines with the pattern
    `^(\S+):\s*(\S.*)$`.
  - A blank line closes a stanza: it yields the term, or saves the typedef.
  - Every structural error is fatal and carries the 0-based line number.
  - It picks up the `format-version` and `data-version` header lines.
- **Building the `GODag`.** `load_obo_file` stores every kept record under
  its id and each alt id. `populate_terms` then:
  - resolves the is_a ids and relationship targets into links;
  - gives each parent its children, each child once;
  - adds the inverse of every relationship whose typedef names one;
  - computes the memoised `level` (shortest distance to a record without
    parents) and `depth` (longest distance).
- **The read-only queries on the assembled graph:**
  - `has_parent` / `has_child`;
  - `get_all_parents` / `get_all_children`;
  - the parent and child edge sets;
  - `paths_to_top`, `update_association` and `id2int`;
  - the traversal and pruning of `write_hier_rec` / `write_hier`.

Records are named by handles: a record's handle is its position in the
sequence of records the reader yielded. The dictionary is a list of keys in
insertion order plus a map from key to handle. That is how the model sees
the aliasing of alt ids and the visiting order of `values()`, which fixes
both the order of children lists and the order of relationship inversion.

Modules, one per file:
- `wrappers.dfy`: `Option`, `Result`.
- `pystr.dfy`: the Python `str` behaviour the parser relies on: whitespace,
  `rstrip`/`strip`, slices, `split`, `replace` and `int()`.
- `field_line.dfy`: the field-line regular expression, with `re.match`'s
  backtracking.
- `records.dfy`: terms, typedefs, `_init_optional_attrs`, `update_rec` and
  `_add_nested`.
- `obo_reader.dfy`: the reader.
- `go_dag.dfy`: the dictionary and `load_obo_file`'s filtering.
- `assembly.dfy`: link resolution, children and relationship inversion.
- `levels.dfy`: `_init_level` and `_init_depth`.
- `graph.dfy`: the populated graph and its well-formedness.
- `queries.dfy`: the traversals and `paths_to_top`.
- `association.dfy`: `update_association` and `id2int`.
- `hierarchy.dfy`: `write_hier_rec`.

Python exceptions become `Failure` values of a `Result`, or `None` where
the source returns `None` or raises `KeyError`.

A few descriptions of this program differ from what its code does; the
model follows the code:
- **Typedef headers.** `_init_typedef` is passed the open *term*, not the
  open typedef. A `[Typedef]` header is therefore fatal only while a term
  stanza is open, and an unterminated typedef is silently replaced. A
  `[Term]` header read while a typedef is open leaves both stanzas open.
- **Relationship lines.** Only the last `relationship` line of a term
  survives. `update_rec` tests for the attribute `relationship` but stores
  the value under `_relationship`, so every such line starts the mapping
  afresh.
- **Missing ids.** A parent id or relationship target that is not a key
  makes `populate_terms` raise `KeyError`. It is not reported and skipped.
- **Errors without line numbers.** Errors raised by `update_rec` and
  `_add_nested` carry no line number.

## Model

| member | source | states |
|---|---|---|
| PyStr.RStrip | goatools/obo_parser.py:63 | the result is a prefix of the line, everything it drops is whitespace, and it does not end in whitespace |
| PyStr.LStrip | goatools/obo_parser.py:696 | the result is a suffix of the input, everything it drops is whitespace, and it does not start with whitespace |
| PyStr.Prefix | goatools/obo_parser.py:58-60 | `line[0:n]` is a prefix of the line of length min(n, len(line)) |
| PyStr.Lower | goatools/obo_parser.py:58-60 | lower-casing keeps the length and folds each character on its own |
| PyStr.SliceToLast | goatools/obo_parser.py:83-88 | `line[i:-1]` followed by the line's last character is `line[i:]`, and it is empty when i is past the end |
| PyStr.TakeWord | goatools/obo_parser.py:129 | `value.split()[0]` is a whitespace-free prefix of the value, stopped only by whitespace or the end |
| PyStr.BeforeFirst | goatools/obo_parser.py:170 | `value.split('!')[0]` is the prefix before the first `!`, and contains none |
| PyStr.SplitOn | goatools/obo_parser.py:191 | `split(sep)` gives at least one piece, no piece contains the separator, and joining the pieces with it rebuilds the string |
| PyStr.SplitOnCount | goatools/obo_parser.py:191 | `split(sep)` has exactly one piece more than the string has separators, so a two-way unpacking needs exactly one separator |
| PyStr.IndexOf | goatools/obo_parser.py:510 | the position found is an occurrence of the pattern with none before it, and None means there is no occurrence at all |
| PyStr.ReplaceFirstPrefix | goatools/obo_parser.py:510 | `replace(pat, sub, 1)` on a string that starts with pat swaps just that prefix |
| PyStr.ParseIntPlain | goatools/obo_parser.py:510 | `int()` of a non-empty run of ASCII digits is the number they spell when there are at most 4300 of them, and raises ValueError when there are more (the default limit of Python 3.11 and later) |
| PyStr.ParseIntDigits | goatools/obo_parser.py:510 | `int()` reads back the decimal rendering of any natural number, whatever the number of leading zeros, as long as zeros and digits together are at most 4300; past that it raises ValueError |
| FieldLine.MatchSpec | goatools/obo_parser.py:113-116 | when the pattern matches, the line splits into a non-empty whitespace-free name, a colon, whitespace, and a value that starts with a non-space character and has no newline (plus an optional final newline); every line of that shape matches, and the name group is the longest possible one |
| FieldLine.MatchSound | goatools/obo_parser.py:113-116 | a match decomposes the line into name, colon, whitespace gap and value, with the character classes the pattern asks for |
| FieldLine.MatchComplete | goatools/obo_parser.py:113-116 | every decomposition the pattern allows makes the line match, with a name group at least as long |
| FieldLine.MatchFromSound | goatools/obo_parser.py:113 | the backtracking of the greedy `\S+` finds a colon at or before where it started, with the groups read off that colon |
| FieldLine.FindFrom | goatools/obo_parser.py:113 | the backtracking misses no colon at which the rest of the pattern matches |
| FieldLine.SplitParts | goatools/obo_parser.py:113 | around the colon the name has no whitespace, the gap is whitespace, and the value starts with a non-space character and has no newline |
| Records.InitOptionalAttrs | goatools/obo_parser.py:196-223 | only an argument that is not nothing, a string, a list or a set is refused; otherwise a field name is enabled iff it was asked for, is not required and is not spelled `defn`, or it is `def` and `defn` was asked for |
| Records.SplitNested | goatools/obo_parser.py:187-194 | a relationship value unpacks iff, without its comment and trailing space, it holds exactly one space; then it is typedef, space, target, neither part containing a space |
| Records.KindOf | goatools/obo_parser.py:146-163 | a name the term already carries clashes; otherwise the scalar names are set-once, `relationship` is nested, and every other name collects a set |
| Records.UpdateRec | goatools/obo_parser.py:137-163 | a clashing name fails; a scalar is refused iff it is already set, and is set otherwise; a relationship value replaces the whole mapping with its one typedef and target iff it unpacks; any other value is added to that attribute's set, leaving all other attributes alone |
| Records.RelationshipKeepsLast | goatools/obo_parser.py:146-163 | whatever relationship a term held before, a relationship line leaves exactly that line's typedef and single target |
| OboReader.TermTagOf | goatools/obo_parser.py:117-133 | each required field name is told apart from the others and from the optional ones |
| OboReader.AddOptional | goatools/obo_parser.py:132-133 | a field name that is not enabled leaves the term unchanged; an enabled one touches only the optional attributes, and any failure is one `update_rec` raises for that field |
| OboReader.AddSetOnce | goatools/obo_parser.py:231-235 | a set-once field accepts a value exactly while it is empty; it then holds that value and nothing set before is lost; otherwise "already initialized" is raised at that line |
| OboReader.AddToTerm | goatools/obo_parser.py:104-135 | a line that does not match the field pattern fails with "unexpected field content" at its number, and only such a line does; a successful line never unsets an id, name or namespace, never shortens the is_a or alt_id lists, and never clears the obsolete mark |
| OboReader.SetOnceField | goatools/obo_parser.py:117-127 | an id, name or namespace line succeeds exactly when that field is still empty, sets it to the line's value, and otherwise fails with "already initialized" at that line |
| OboReader.AddToTypedef | goatools/obo_parser.py:165-185 | a line that does not match the pattern is fatal, and only such a line; transitive_over only grows; an id line sets the id to the value without its `!` comment and trailing space |
| OboReader.TypedefSetOnce | goatools/obo_parser.py:172-182 | a typedef's id, name or inverse_of line is accepted exactly when that field is empty, and then holds the value without its comment |
| OboReader.Step | goatools/obo_parser.py:54-78 | every failure is an error the line causes at its number; terms already yielded stay; open plus yielded terms grow by one exactly on a term header; a header fails iff a term is open; the versions are the version scan's; an open term keeps its set fields |
| OboReader.StepHeader | goatools/obo_parser.py:58-61 | a `[Term]` or `[Typedef]` header fails iff a term stanza is open, and otherwise opens a fresh stanza of its kind |
| OboReader.StepBody | goatools/obo_parser.py:62-78 | outside any stanza a line only feeds the version scan; inside one, a blank line yields the open term and clears its slot, or saves the open typedef under its id; a non-blank line without ':' is "unexpected line content"; a line with ':' that does not match is "unexpected field content" |
| OboReader.StepField | goatools/obo_parser.py:64-66 | inside a term stanza a field line that the term rejects makes the whole step fail with that error |
| OboReader.StepSecondField | goatools/obo_parser.py:117-127 | in an open term whose id, name or namespace is set, a line giving that field again fails with "already initialized" at that line |
| OboReader.SecondFieldFatal | goatools/obo_parser.py:117-127 | once a term stanza has an id, name or namespace, a later line giving it again, before the stanza closes, ends the whole run with "already initialized" at that line's number |
| OboReader.StanzaKeepsFields | goatools/obo_parser.py:104-135 | within one term stanza nothing set is ever unset: id, name and namespace stay, and the is_a and alt_id lists only grow |
| OboReader.FoldAppend | goatools/obo_parser.py:54 | reading `a + b` is reading `a`, then reading `b` from the state it left, with line numbers carried on, unless `a` already failed |
| OboReader.FoldStopsAtFault | goatools/obo_parser.py:54 | a failed read stops at some line: every line before it was accepted, and the error is the one that line raised in that state |
| OboReader.RunBlame | goatools/obo_parser.py:54-78 | every fatal error names a line of the input that causes it, with that line's number |
| OboReader.RunCount | goatools/obo_parser.py:47-81 | a successful read keeps what was yielded before; open plus yielded terms grow by exactly the number of term headers read |
| OboReader.ParseCount | goatools/obo_parser.py:47-81 | a file that reads without error yields exactly one record per `[Term]` header, including a last stanza left open |
| OboReader.StaysClosed | goatools/obo_parser.py:58-62 | without a term header no term stanza opens |
| OboReader.RunVersions | goatools/obo_parser.py:56-57 | a successful read picks up exactly the versions the header scan alone finds |
| OboReader.DataVersionFirst | goatools/obo_parser.py:83-88 | starting without one, a data version is found iff some line starts with `data-version`, and it is the `[14:-1]` slice of the first such line |
| OboReader.ScanAllSettled | goatools/obo_parser.py:56-57 | once the data version is known the header scan changes nothing |
| GoDag.Put | goatools/obo_parser.py:415 | storing a key keeps the dictionary consistent, maps the key to the record, keeps the insertion order, and leaves an existing key in its place |
| GoDag.PutAll | goatools/obo_parser.py:415-417 | after storing a record under some keys, exactly the old keys and those keys are present; those map to the record and the rest are unchanged |
| GoDag.LoadBounded | goatools/obo_parser.py:414-417 | `load_obo_file` only stores records it was given |
| GoDag.LoadLastWriter | goatools/obo_parser.py:414-417 | a key is present iff some kept record names it as id or alt id, and it maps to the last such record |
| GoDag.LoadStep | goatools/obo_parser.py:414-417 | one more record takes every key it names if it is kept, and leaves every other key as it was |
| GoDag.LoadAliases | goatools/obo_parser.py:414-417 | when no later kept record names its keys again, a record is stored under its id and every alt id iff it is kept (load_obsolete or not obsolete), and under no key otherwise |
| GoDag.ValuesCount | goatools/obo_parser.py:455 | `values()` lists each record exactly as many times as there are keys it is stored under |
| GoDag.ValuesStored | goatools/obo_parser.py:455 | `values()` visits every stored record and nothing else |
| Assembly.Resolve | goatools/obo_parser.py:456 | `[self[x] for x in ids]` succeeds iff every id is a key, and then maps each id to its record in order; otherwise it raises KeyError for the first id that is not a key |
| Assembly.CheckLinks | goatools/obo_parser.py:455-462 | the first loop succeeds iff every record visited has all its is_a ids and relationship targets among the keys |
| Assembly.CheckLinksFirst | goatools/obo_parser.py:455-462 | when the first loop fails, it fails at a record all of whose predecessors resolve, with a KeyError for an is_a id or target of that record that is not a key |
| Assembly.ParentsOf | goatools/obo_parser.py:456 | a record's parents are its is_a ids' records, in order |
| Assembly.LinkedRel | goatools/obo_parser.py:458-462 | a resolved relationship has one key, the typedef, mapping to exactly the records its targets name |
| Assembly.AddChild | goatools/obo_parser.py:467-468 | a child not yet in the parent's list is appended at its end and nothing else changes; one already there leaves the lists as they were; every children list stays free of repeats |
| Assembly.AddToParents | goatools/obo_parser.py:466-468 | a record is added to the children of each of its parents and nowhere else, with no list gaining a repeat |
| Assembly.ChildrenAll | goatools/obo_parser.py:465-468 | the children loop keeps every children list free of repeats |
| Assembly.ChildrenAllSpec | goatools/obo_parser.py:465-468 | after the loop, x is a child of q iff it was one before, or x was visited and lists q among its parents |
| Assembly.ChildrenFromNone | goatools/obo_parser.py:465-468 | starting with no children, each record is listed by each parent exactly once, and a parent lists exactly the visited records naming it |
| Assembly.AddTo | goatools/obo_parser.py:477-479 | `relationship[td].add(x)` keeps the mapping's keys and their targets in place; afterwards the mapping holds exactly what it held before plus x under td, and a missing key is appended as a new one holding only x |
| Assembly.AddInverseSpec | goatools/obo_parser.py:476-479 | after the loop over the targets, a record holds y under td iff it held it before or it is a target, td is the inverse typedef and y the record being inverted; no mapping loses anything |
| Assembly.InvertEntry | goatools/obo_parser.py:472-479 | inverting one key fails iff its typedef is unknown (KeyError) or the record is its own target and lacks the inverse key (the dict changes size while being iterated) |
| Assembly.InvertEntrySpec | goatools/obo_parser.py:472-479 | a successful inversion of one key only grows the mappings, and afterwards a record holds y under td iff it held it before or (the typedef names an inverse) it is a target, td is that inverse and y the inverted record |
| Assembly.InvertRecSpec | goatools/obo_parser.py:471-479 | one record's inversion loop only grows the mappings, inverts every key it had, and everything it adds is justified: a target held under td is the inverse of a relationship the target holds back under a typedef whose inverse_of is td |
| Assembly.InvertAllSpec | goatools/obo_parser.py:465-479 | the whole inversion pass only grows the mappings, every key each visited record had at the start is inverted at the end, and everything it adds is justified as the inverse of a relationship held at the end |
| Assembly.InvertAllWithin | goatools/obo_parser.py:465-479 | starting from mappings that hold only records of a set and visiting only records of it, the inversion pass adds nothing outside that set |
| Assembly.InvertEntrySucceeds | goatools/obo_parser.py:472-479 | when every key and every inverse_of names a known typedef and no record holds itself, inverting a key succeeds and keeps all three conditions |
| Assembly.InvertAllSucceeds | goatools/obo_parser.py:465-479 | under the same conditions the whole inversion pass succeeds, so the KeyError and the dict-size error cannot happen |
| Levels.Pick | goatools/obo_parser.py:443 | `min` gives one of its arguments, bounded by both; `max` likewise from above |
| Levels.Height | goatools/obo_parser.py:438-452 | the level (or depth) of a record is 0 exactly when it has no parents |
| Levels.Init | goatools/obo_parser.py:438-452 | `_init_level(rec)` stores a value for the record and keeps every value already set; a record that has one is not recomputed |
| Levels.InitCorrect | goatools/obo_parser.py:438-452 | starting from correct values, the memoised recursion stores only correct values, and the record's value is its shortest (or longest) distance to a record without parents |
| Levels.InitFromCorrect | goatools/obo_parser.py:443 | the generator over the parents yields the least (or greatest) of their heights and stores only correct values |
| Levels.InitAll | goatools/obo_parser.py:481-485 | the loop over the records gives each visited record a value and keeps every value already set |
| Levels.InitAllCorrect | goatools/obo_parser.py:481-485 | starting from correct values, every value the loop leaves is the record's level (or depth) |
| Levels.InitAllIdempotent | goatools/obo_parser.py:481-485 | running the level (or depth) pass again leaves every value as it was |
| Levels.HeightFromBest | goatools/obo_parser.py:443 | the best over the parents is one parent's height and bounds all of them |
| Levels.ParentHeights | goatools/obo_parser.py:438-452 | a record with parents is one more than some parent's level (or depth), at most one more than every parent's level, and at least one more than every parent's depth |
| Levels.LevelLeDepth | goatools/obo_parser.py:438-452 | a record's level never exceeds its depth |
| TermGraph.ParentMap | goatools/obo_parser.py:455-456 | exactly the stored records get parents, and every parent is a stored record |
| TermGraph.HeightMap | goatools/obo_parser.py:481-485 | every stored record gets a level (or depth) |
| TermGraph.Populate | goatools/obo_parser.py:435-485 | a missing id fails with a KeyError for an id that is not a key; once every id resolves, populating succeeds iff the inversion pass does, and fails with the inversion's own error otherwise |
| TermGraph.PopulateRecords | goatools/obo_parser.py:455-462 | populating keeps exactly the stored records, each with the fields it was read with, its raw relationship removed |
| TermGraph.NodesChildren | goatools/obo_parser.py:465-468 | in the populated graph each record lists every child once, and p lists c iff c lists p among its parents |
| TermGraph.NodesLevels | goatools/obo_parser.py:481-485 | every level and depth the passes leave is the record's shortest and longest distance to a record without parents |
| TermGraph.LevelFacts | goatools/obo_parser.py:438-452 | in a rightly leveled graph: level 0 iff no parents; level at most depth; level at most one more than each parent's level; depth at least one more than each parent's depth; and both reached by some parent |
| TermGraph.PopulateWf | goatools/obo_parser.py:435-485 | a successful `populate_terms` leaves a well-formed graph (closed under its links, children the parents turned around, level 0 iff no parents, every parent shallower) whose levels and depths are right |
| TermGraph.WfFromLevels | goatools/obo_parser.py:438-452 | children lists that turn the parent lists around, together with right levels, make a well-formed graph |
| TermGraph.PopulateRelationship | goatools/obo_parser.py:458-479 | after `populate_terms`, a record with a relationship A to targets has a known typedef A, holds each target's record under A, and, when A's inverse_of is B, each target holds the record under B; and every record holds nothing else: each target it holds is one its own relationship names, or a record that holds it back under a typedef whose inverse_of is the key |
| TermGraph.PopulateBounded | goatools/obo_parser.py:458-479 | each record's final relationships hold only targets its own relationship names and records that hold it back under a typedef whose inverse_of is the key |
| TermGraph.PopulateSucceeds | goatools/obo_parser.py:455-479 | once every id resolves, relationships whose typedefs (and their inverses) are known and whose targets never name their own record make `populate_terms` succeed |
| TermGraph.LinkedHeld | goatools/obo_parser.py:471-479 | one record's resolved relationship grows into the final mappings, and each target holds the record under the inverse |
| TermGraph.LoadDag | goatools/obo_parser.py:403-433 | `GODag(...)` from the reader's records stores them as `load_obo_file` does and leaves a well-formed graph in which every key leads to a record |
| Queries.ReachStep | goatools/obo_parser.py:293-295 | a record lies above `h` iff it is one of h's parents or lies above one of them (likewise below and children) |
| Queries.ReachDual | goatools/obo_parser.py:465-468 | in a populated graph, a lies below h through children iff h lies above a through parents |
| Queries.NotOwnAncestor | goatools/obo_parser.py:438-452 | no record of a populated graph is its own ancestor |
| Queries.TopPathLength | goatools/obo_parser.py:549-558 | a path from a record without parents down to a record has at least its level and at most its depth steps |
| Queries.HasAllIds | goatools/obo_parser.py:291-319 | `has_parent(id)` holds exactly when id is among `get_all_parents()` (and likewise for children) |
| Queries.AllIdsReach | goatools/obo_parser.py:305-319 | `get_all_parents()` is exactly the set of GO ids of the records above (below for `get_all_children()`) |
| Queries.AllIdsSound | goatools/obo_parser.py:305-319 | every id `get_all_parents()` collects is the GO id of a record above |
| Queries.AllIdsComplete | goatools/obo_parser.py:305-319 | the GO id of every record above is collected |
| Queries.AllIdsStep | goatools/obo_parser.py:305-319 | an id is collected iff a parent has it or collects it |
| Queries.HasReach | goatools/obo_parser.py:291-303 | `has_parent(id)` holds exactly when some record above has GO id id (and `has_child` below) |
| Queries.HasChildDual | goatools/obo_parser.py:298-303 | `has_child(id)` holds exactly when some record with GO id id lists the record among its ancestors |
| Queries.EdgesReach | goatools/obo_parser.py:321-335 | the edge sets hold the edge of every step taken from the record or from a record above (below) it, and nothing else |
| Queries.EdgesStep | goatools/obo_parser.py:321-335 | an edge is collected iff it is the first step's edge or one a parent collects |
| Queries.EdgesSound | goatools/obo_parser.py:321-335 | every collected edge is the edge of a step at or above the record |
| Queries.EdgesComplete | goatools/obo_parser.py:321-335 | the edge of every step at or above the record is collected |
| Queries.PathsToTop | goatools/obo_parser.py:544-561 | nothing is returned exactly for an id that is not a key |
| Queries.PathsToTopSpec | goatools/obo_parser.py:527-561 | for a known id, the paths returned are exactly the paths from a record without parents down to the id's record, each record a parent of the next, and there is at least one |
| Queries.PathsFromSpec | goatools/obo_parser.py:549-558 | the recursion finds a path iff it runs from a record without parents down to the record, each record a parent of the next |
| Queries.PathsSound | goatools/obo_parser.py:549-558 | every path found starts at a record without parents, ends at the record, and steps from parent to child |
| Queries.PathsComplete | goatools/obo_parser.py:549-558 | every such path is found |
| Queries.PathsViaMember | goatools/obo_parser.py:552-557 | a path through the parents from the i-th on is a path of one of them, extended by the record |
| Queries.PathsNonEmpty | goatools/obo_parser.py:549-558 | every record has at least one path to the top |
| GeneAssociation.UpdateAssociation | goatools/obo_parser.py:685-700 | every gene keeps its key and all its GO ids |
| GeneAssociation.AncestorsReach | goatools/obo_parser.py:689-698 | the ids added for a gene are exactly the GO ids of the records above a record stored under one of its ids |
| GeneAssociation.UpdateAssociationReach | goatools/obo_parser.py:685-698 | after `update_association`, a gene has id x iff it had x before or x names a record above a record stored under one of its ids |
| GeneAssociation.AncestorsClosed | goatools/obo_parser.py:694 | when each record sits under its own id, the ancestors of the ids and their ancestors are the ancestors of the ids |
| GeneAssociation.AncestorsMonotone | goatools/obo_parser.py:689-698 | a gene with more GO ids gains at least the same ancestor ids |
| GeneAssociation.AncestorsKnown | goatools/obo_parser.py:694 | when each record sits under its own id, every ancestor id added is a key |
| GeneAssociation.UpdateAssociationIdempotent | goatools/obo_parser.py:685-700 | when each record sits under its own id, a second `update_association` changes no gene and reports the same ids missing |
| GeneAssociation.Id2IntDigits | goatools/obo_parser.py:507-510 | a GO id made of "GO:" and a decimal number, with any leading zeros, reads back as that number when zeros and digits together are at most 4300, and is refused (ValueError) when there are more |
| GeneAssociation.Id2IntOnce | goatools/obo_parser.py:507-510 | only the first "GO:" is removed: a doubled prefix is not a number |
| Hierarchy.Repeat | goatools/obo_parser.py:355 | the dashes are one character repeated depth times |
| Hierarchy.WriteHierarchy | goatools/obo_parser.py:499-505 | nothing is written for an id that is not a key (KeyError); for a known, allowed id the first line is its record at depth 1 |
| Hierarchy.WriteHierFirst | goatools/obo_parser.py:346-360 | a record `include_only` leaves out writes nothing and prints nothing; otherwise the first line is the record itself at the current depth |
| Hierarchy.WriteHierWithin | goatools/obo_parser.py:337-373 | only the record and records below it are written, never above the starting depth, and only records `include_only` allows |
| Hierarchy.WriteChildrenWithin | goatools/obo_parser.py:370-373 | the loop over the children writes only records below the record, at or below the children's depth, that `include_only` allows |
| Hierarchy.WriteHierDepth | goatools/obo_parser.py:367-369 | with `max_depth`, no line after the first is deeper than it |
| Hierarchy.WriteChildrenDepth | goatools/obo_parser.py:367-373 | from a depth within `max_depth`, no child line is deeper than it |
| Hierarchy.WriteHierPrinted | goatools/obo_parser.py:361-363 | with `short_prt` the printed set gains exactly the ids written; without it the set is left alone |
| Hierarchy.WriteChildrenPrinted | goatools/obo_parser.py:361-373 | the same for the loop over the children |
| Hierarchy.WriteHierRepeats | goatools/obo_parser.py:348-366 | with `short_prt` a line is marked repeated exactly when its id was printed before the call or on an earlier line, and nothing is written below a repeated line (the next line is no deeper); without `short_prt` nothing is marked |
| Hierarchy.WriteChildrenRepeats | goatools/obo_parser.py:348-373 | the same marking and pruning hold across the loop over the children |
| Hierarchy.WriteHierPruned | goatools/obo_parser.py:348-373 | the line after a repeated line is no deeper, so nothing is written below it |
| Hierarchy.WriteChildrenPruned | goatools/obo_parser.py:369-373 | the children loop is pruned the same way, and its first line is at the loop's depth |
| Hierarchy.WriteHierComplete | goatools/obo_parser.py:370-373 | without `include_only`, `max_depth` or `short_prt`, every record below is written |
| Hierarchy.WriteChildrenComplete | goatools/obo_parser.py:370-373 | the same for the loop over the children from the i-th on |

## Left out

- Opening the file and checking that it exists (`os.path.isfile`, `open`): the input is the file's lines, each with its newline, as a sequence of strings.
- The file name in error messages and the message texts: errors are datatype values carrying the line number (where the source gives one) and the offending line or attribute.
- Everything written to stdout and stderr: the load banner, the version string with thousands separators, "Term not found", and the "goids not found" report. `update_association` returns the set of missing ids instead of printing it.
- `make_graph_pydot`, `make_graph_pygraphviz`, `draw_lineage` and `_label_wrap`: these wrap third-party graph libraries.
- `GOTerm.__repr__`, `GOTerm.__str__` and `TypeDef.__str__`: text rendering only.
- `write_dag`: it sorts records that define no ordering.
- `write_hier_all`: it calls `write_hier` for three fixed root ids and adds no logic of its own.
- `query_term`: a dictionary lookup plus printing.
- Hierarchy.WriteHier: the text layout of a line (the padding of the dashes to `len_dash`, the `>5` and `>02` number formats, tabs) is not modelled. Each line is a record holding its mark, dashes, descendant count, id, level, depth, name and recursion depth.
- TermGraph.Populate: requires a rank on the records that drops from each record to each parent. On cyclic is_a links `_init_level` and `_init_depth` recurse until Python's recursion limit; that failure is not modelled.
- TermGraph.Populate: Python's recursion limit (1000 frames by default) is not modelled. `_init_level` and `_init_depth` (obo_parser.py:438-452) recurse once per level, so an acyclic is_a chain deeper than the limit raises RecursionError there, while the model succeeds.
- Queries.AllIds, Queries.Edges, Queries.PathsToTop and Hierarchy.WriteHier: the same recursion limit is not modelled for `get_all_parents`, `get_all_children`, the edge queries (obo_parser.py:305-335), `paths_to_top` (obo_parser.py:549-558) and `write_hier_rec` (obo_parser.py:337-373); on a chain deeper than the limit they raise RecursionError, and the model returns their result.
- TermGraph.Populate: runs the children, inversion and level passes one after another, where `populate_terms` interleaves them in one loop over `values()`. None of the three reads what the others write, and apart from the recursion limit above only the inversion can fail, so the records and the first error are the same.
- Records.KindOf: a user-requested optional attribute named `_relationship` is refused while reading, as clashing with the term's own attribute, so the model rejects some files `obo_parser.py` accepts. There the name is not nested, and the term does not carry `_relationship` until a `relationship` line is read (obo_parser.py:145-163, 243-253). So a `_relationship` line before any `relationship` line of the term stores a set, and a later `relationship` line replaces that set with the typedef mapping; `populate_terms` then succeeds. A `_relationship` line after a `relationship` line calls `.add` on the mapping, and a set still there when `populate_terms` runs has its `.items()` called (obo_parser.py:458-460); both raise AttributeError, which the model's refusal matches only in that it fails.
- Records.KindOf: the names refused as clashing are those a GOTerm has in Python 3.11 and 3.12. Python 3.13 also gives every class `__static_attributes__` and `__firstlineno__`; asked for as optional attributes there, they make `update_rec` call `.add` on a tuple or an int, which raises, while the model collects them as sets.
- GeneAssociation.UpdateAssociation: genes that share one set object are treated as separate sets; the aliasing of mutable Python sets is not modelled. Errors other than a missing key, which the bare `except` also swallows, cannot occur in the model.
- GeneAssociation.UpdateAssociationIdempotent: requires every record to be stored under its own id. An alt id of a later record can take over an earlier record's id, and then a second run can add that record's ancestors' ids.
- PyStr.ParseInt: Python's `int()` also accepts non-ASCII decimal digits; the model reads ASCII digits, an optional sign, single underscores between digits and surrounding whitespace.
- PyStr.ParseInt: the 4300-digit limit is the default of Python 3.11 and later. `sys.set_int_max_str_digits` or `PYTHONINTMAXSTRDIGITS` can change or lift it, and earlier Pythons have none; the model fixes it at 4300.
- PyStr.Lower: lower-cases ASCII letters only. The only comparisons made are with "[term]" and "[typedef]", and no other character lower-cases to one of their characters.
- The concurrency and lazy-iteration aspects of the reader: the model reads all lines and returns the records in order.
