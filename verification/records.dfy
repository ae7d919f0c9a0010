/** The records the OBO reader builds (GO terms and typedefs), the
    optional-attribute configuration, and the rules by which one optional
    field updates a term (`OBOReader.update_rec`, `_add_nested`,
    `_init_optional_attrs` in goatools/obo_parser.py). */
module Records {
  import opened Wrappers
  import opened PyStr

  /** A term's `_relationship` attribute: a typedef name and the raw target
      ids recorded under it. */
  datatype RawRelationship = RawRelationship(typedef: string, targets: seq<string>)

  /** A GO term as the reader fills it in. The dynamically created
      optional attributes become the closed maps `scalars` (set-once
      attributes), `sets` (multi-valued attributes) and `relationship`. */
  datatype Term = Term(
    id: string,
    name: string,
    namespace: string,
    isA: seq<string>,
    isObsolete: bool,
    altIds: seq<string>,
    scalars: map<string, string>,
    sets: map<string, set<string>>,
    relationship: Option<RawRelationship>)

  /** A freshly constructed GOTerm. */
  const NewTerm := Term("", "", "", [], false, [], map[], map[], None)

  /** A typedef stanza. */
  datatype Typedef = Typedef(id: string, name: string, transitiveOver: seq<string>, inverseOf: string)

  /** A freshly constructed TypeDef. */
  const NewTypedef := Typedef("", "", [], "")

  /** The term fields the reader always loads. */
  const Required: set<string> := {"id", "alt_id", "name", "namespace", "is_a", "is_obsolete"}

  /** Optional attributes holding one value that may be set only once. */
  const Scalar: set<string> := {"comment", "defn", "is_class_level", "is_metadata_tag", "is_transitive", "transitive_over"}

  /** The optional attribute stored as a typedef -> targets mapping. */
  const Nested := "relationship"

  /** Names a GOTerm already carries as attributes or methods: the class's
      own plus those `object` and a plain class have in Python 3.11 and 3.12
      (`__getstate__` first appears in 3.11). Asking for one of them as an
      optional field makes `update_rec` call `.add` on something that has
      none, which raises. `_relationship`, where a `relationship` line is
      kept while reading, is refused here too, although a term does not
      carry it until that line is read. */
  const Builtin: set<string> := {
    "id", "name", "namespace", "is_obsolete",
    "_parents", "parents", "children", "level", "depth", "alt_ids",
    "has_parent", "has_child", "get_all_parents", "get_all_children",
    "get_all_parent_edges", "get_all_child_edges", "write_hier_rec",
    "_relationship", "__dict__", "__doc__", "__module__", "__weakref__",
    "__class__", "__delattr__", "__dir__", "__eq__", "__format__", "__ge__",
    "__getattribute__", "__getstate__", "__gt__", "__hash__", "__init__",
    "__init_subclass__", "__le__", "__lt__", "__ne__", "__new__",
    "__reduce__", "__reduce_ex__", "__repr__", "__setattr__", "__sizeof__",
    "__str__", "__subclasshook__"}

  /** Everything that makes the reader give up. Errors `obo_parser.py` raises
      through `_die` carry the 0-based line number; the others do not. */
  datatype ParseError =
    | Unterminated(lnum: nat, block: string)
    | UnexpectedLine(lnum: nat, line: string)
    | UnexpectedField(lnum: nat, line: string)
    | AlreadyInitialized(lnum: nat)
    | AttrAlreadySet(attr: string)
    | AttrClash(attr: string)
    | BadNestedValue(value: string)

  /** The shapes the `optional_attrs` argument may take. */
  datatype AttrsArg =
    | NoAttrs
    | OneAttr(attr: string)
    | AttrList(attrs: seq<string>)
    | AttrSet(attrSet: set<string>)
    | OtherArg

  datatype ConfigError = UnsupportedAttrsArg

  /** The attribute names an argument mentions. */
  function Requested(arg: AttrsArg): set<string> {
    match arg
    case NoAttrs => {}
    case OneAttr(a) => {a}
    case AttrList(l) => set a | a in l
    case AttrSet(s) => s
    case OtherArg => {}
  }

  /** The OBO spelling of an attribute name: "defn" is written "def". */
  function ObsSpelling(a: string): string {
    if a == "defn" then "def" else a
  }

  /** `_init_optional_attrs`: the field names (as spelled in the file) the
      reader will load beyond the required ones. A name is enabled iff it
      was requested, is not required, and is not the "defn" spelling, which
      enables "def" instead. Any argument other than nothing, a string, a
      list or a set is refused. */
  function InitOptionalAttrs(arg: AttrsArg): (r: Result<set<string>, ConfigError>)
    ensures r.Failure? <==> arg.OtherArg?
    ensures r.Success? ==> forall a ::
      a in r.value <==> a !in Required && a != "defn" && (a in Requested(arg) || (a == "def" && "defn" in Requested(arg)))
  {
    match arg
    case NoAttrs => Success({})
    case OneAttr(a) => Success(if a in Required then {} else {ObsSpelling(a)})
    case AttrList(l) => Success(set a | a in l && a !in Required :: ObsSpelling(a))
    case AttrSet(s) => Success(set a | a in s && a !in Required :: ObsSpelling(a))
    case OtherArg => Failure(UnsupportedAttrsArg)
  }

  /** The attribute a field is stored under: "def" becomes "defn". */
  function AttrName(field: string): string {
    if field == "def" then "defn" else field
  }

  /** `_add_nested`'s unpacking: strip a `!` comment and trailing space, then
      the rest must split on single spaces into exactly a typedef name and a
      target id. */
  function SplitNested(value: string): (r: Result<(string, string), ParseError>)
    ensures r.Success? <==> Count(RStrip(BeforeFirst(value, '!')), ' ') == 1
    ensures r.Success? ==>
      && RStrip(BeforeFirst(value, '!')) == r.value.0 + " " + r.value.1
      && ' ' !in r.value.0 && ' ' !in r.value.1
    ensures r.Failure? ==> r.error == BadNestedValue(value)
  {
    var s := RStrip(BeforeFirst(value, '!'));
    var parts := SplitOn(s, ' ');
    SplitOnCount(s, ' ');
    if |parts| == 2 then
      assert Join(parts, ' ') == parts[0] + [' '] + Join(parts[1..], ' ');
      Success((parts[0], parts[1]))
    else Failure(BadNestedValue(value))
  }

  /** How `update_rec` treats an attribute name. */
  datatype AttrKind = Clash | Once | Rel | Multi

  function KindOf(a: string): (k: AttrKind)
    ensures k == Clash <==> a in Builtin
    ensures k == Once <==> a !in Builtin && a in Scalar
    ensures k == Rel <==> a !in Builtin && a !in Scalar && a == Nested
  {
    if a in Builtin then Clash
    else if a in Scalar then Once
    else if a == Nested then Rel
    else Multi
  }

  /** `update_rec`: store one enabled optional field on a term.
      - A name the term already carries as an attribute is refused.
      - A scalar attribute may be set once; a second value is refused.
      - A `relationship` value replaces the whole `_relationship` mapping
        with just this typedef and target (`update_rec` tests for the wrong
        attribute name before adding, so it starts afresh every time).
      - Any other attribute collects its values in a set.
      Nothing but the touched attribute changes. */
  function UpdateRec(t: Term, field: string, value: string): (r: Result<Term, ParseError>)
    ensures var a := AttrName(field); var k := KindOf(a);
      && (k == Clash ==> r == Failure(AttrClash(a)))
      && (k == Once ==> (r.Failure? <==> a in t.scalars))
      && (k == Once && r.Success? ==> r.value == t.(scalars := t.scalars[a := value]))
      && (k == Once && r.Failure? ==> r.error == AttrAlreadySet(a))
      && (k == Rel ==> (r.Success? <==> SplitNested(value).Success?))
      && (k == Rel && r.Success? ==>
            r.value == t.(relationship := Some(RawRelationship(SplitNested(value).value.0, [SplitNested(value).value.1]))))
      && (k == Multi ==> r.Success?)
      && (k == Multi ==>
            && r.value.sets.Keys == t.sets.Keys + {a}
            && (forall v :: v in r.value.sets[a] <==> v == value || (a in t.sets && v in t.sets[a]))
            && (forall b | b in t.sets && b != a :: r.value.sets[b] == t.sets[b])
            && r.value == t.(sets := r.value.sets))
  {
    var a := AttrName(field);
    match KindOf(a)
    case Clash => Failure(AttrClash(a))
    case Once =>
      if a in t.scalars then Failure(AttrAlreadySet(a)) else Success(t.(scalars := t.scalars[a := value]))
    case Rel =>
      var pair :- SplitNested(value);
      Success(t.(relationship := Some(RawRelationship(pair.0, [pair.1]))))
    case Multi =>
      var prev := if a in t.sets then t.sets[a] else {};
      Success(t.(sets := t.sets[a := prev + {value}]))
  }

  /** However many relationship lines a term block holds, only the last one
      survives: a successful update leaves exactly that line's typedef and
      target, whatever was recorded before. */
  lemma RelationshipKeepsLast(t1: Term, t2: Term, value: string)
    requires UpdateRec(t1, Nested, value).Success? && UpdateRec(t2, Nested, value).Success?
    ensures UpdateRec(t1, Nested, value).value.relationship == UpdateRec(t2, Nested, value).value.relationship
    ensures |UpdateRec(t1, Nested, value).value.relationship.value.targets| == 1
  {
  }
}
