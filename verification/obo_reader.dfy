/** `OBOReader.__iter__`: the line-by-line state machine that turns the lines
    of an OBO file into GO term records, collects typedefs, and picks up the
    format and data versions from the header. */
module OboReader {
  import opened Wrappers
  import opened PyStr
  import opened FieldLine
  import opened Records

  /** The reader's state between two lines: the open term and typedef
      stanzas (`rec_curr`, `typedef_curr`), the typedefs saved so far, the
      versions, and the terms already handed out. */
  datatype Reader = Reader(
    term: Option<Term>,
    typedef: Option<Typedef>,
    typedefs: map<string, Typedef>,
    formatVersion: Option<string>,
    dataVersion: Option<string>,
    yielded: seq<Term>)

  const Start := Reader(None, None, map[], None, None, [])

  /** A line opening a term stanza: its first six characters, lower-cased. */
  predicate IsTermHeader(line: string) {
    Lower(Prefix(line, 6)) == "[term]"
  }

  /** A line opening a typedef stanza. */
  predicate IsTypedefHeader(line: string) {
    Lower(Prefix(line, 9)) == "[typedef]"
  }

  /** 1 when a term stanza is open. */
  function OpenTerms(rd: Reader): nat {
    if rd.term.Some? then 1 else 0
  }

  /** `_init_obo_version`, consulted only while no data-version was seen:
      a "format-version" line sets the format version to `line[16:-1]`
      (a later one overwrites it), a "data-version" line sets the data
      version to `line[14:-1]` and ends the scan. */
  function ScanVersion(rd: Reader, line: string): Reader {
    if rd.dataVersion.Some? then rd
    else
      var fv := if Prefix(line, 14) == "format-version" then Some(SliceToLast(line, 16)) else rd.formatVersion;
      var dv := if Prefix(line, 12) == "data-version" then Some(SliceToLast(line, 14)) else None;
      rd.(formatVersion := fv, dataVersion := dv)
  }

  /** The term fields `_add_to_ref` tells apart by name. */
  datatype TermTag = IdTag | AltIdTag | NameTag | NamespaceTag | IsATag | IsObsoleteTag | OtherTag

  function TermTagOf(field: string): (g: TermTag)
    ensures g == IdTag <==> field == "id"
    ensures g == NameTag <==> field == "name"
    ensures g == NamespaceTag <==> field == "namespace"
    ensures g == AltIdTag <==> field == "alt_id"
    ensures g == IsATag <==> field == "is_a"
    ensures g == IsObsoleteTag <==> field == "is_obsolete"
  {
    if field == "id" then IdTag
    else if field == "alt_id" then AltIdTag
    else if field == "name" then NameTag
    else if field == "namespace" then NamespaceTag
    else if field == "is_a" then IsATag
    else if field == "is_obsolete" then IsObsoleteTag
    else OtherTag
  }

  /** The set-once fields of a term. */
  predicate SetOnceTag(g: TermTag) {
    g == IdTag || g == NameTag || g == NamespaceTag
  }

  /** An optional field: stored through `UpdateRec` when enabled, ignored
      otherwise. The required fields are never touched. */
  function AddOptional(attrs: set<string>, t: Term, f: Field): (r: Result<Term, ParseError>)
    ensures r.Success? ==> r.value == t.(scalars := r.value.scalars, sets := r.value.sets, relationship := r.value.relationship)
    ensures f.name !in attrs ==> r == Success(t)
    ensures r.Failure? ==> OptionalBlame(r.error, f)
  {
    if f.name in attrs then UpdateRec(t, f.name, f.value) else Success(t)
  }

  /** The error `e` is one `UpdateRec` raises for field `f`. */
  predicate OptionalBlame(e: ParseError, f: Field) {
    match e
    case AttrAlreadySet(a) => AttrName(f.name) == a && a in Scalar
    case AttrClash(a) => AttrName(f.name) == a && a in Builtin
    case BadNestedValue(v) => f == Field(Nested, v) && SplitNested(v).Failure?
    case _ => false
  }

  /** The set-once string fields of a term, by tag. */
  function FieldOf(t: Term, g: TermTag): string {
    match g
    case IdTag => t.id
    case NameTag => t.name
    case _ => t.namespace
  }

  /** `_chk_none` followed by the assignment: a set-once field accepts a
      value only while it is still empty. */
  function AddSetOnce(t: Term, g: TermTag, value: string, lnum: nat): (r: Result<Term, ParseError>)
    requires SetOnceTag(g)
    ensures r.Success? <==> FieldOf(t, g) == ""
    ensures r.Success? ==> SetOnceKept(t, r.value) && FieldOf(r.value, g) == value
    ensures r.Failure? ==> r.error == AlreadyInitialized(lnum)
  {
    if FieldOf(t, g) != "" then Failure(AlreadyInitialized(lnum))
    else match g
      case IdTag => Success(t.(id := value))
      case NameTag => Success(t.(name := value))
      case _ => Success(t.(namespace := value))
  }

  /** `_add_to_ref`: one right-stripped line containing ':' inside a term
      stanza. Each of id, name and namespace may be given once; alt_id and
      is_a accumulate (is_a keeping the first word of its value); an
      is_obsolete of exactly "true" marks the term; enabled optional fields
      go through `UpdateRec`; everything else is ignored. */
  function AddToTerm(attrs: set<string>, t: Term, line: string, lnum: nat): (r: Result<Term, ParseError>)
    ensures Match(line).None? <==> r == Failure(UnexpectedField(lnum, line))
    ensures r.Success? ==> SetOnceKept(t, r.value)
    ensures r.Failure? ==> FieldBlame(r.error, lnum, line)
  {
    match Match(line)
    case None => Failure(UnexpectedField(lnum, line))
    case Some(f) =>
      match TermTagOf(f.name)
      case IdTag => AddSetOnce(t, IdTag, f.value, lnum)
      case NameTag => AddSetOnce(t, NameTag, f.value, lnum)
      case NamespaceTag => AddSetOnce(t, NamespaceTag, f.value, lnum)
      case AltIdTag => Success(t.(altIds := t.altIds + [f.value]))
      case IsATag => Success(t.(isA := t.isA + [TakeWord(f.value)]))
      case IsObsoleteTag =>
        if f.value == "true" then Success(t.(isObsolete := true))
        else AddOptional(attrs, t, f)
      case OtherTag => AddOptional(attrs, t, f)
  }

  /** An id, name or namespace line succeeds exactly when that field is
      still empty, and then sets it to the line's value. */
  lemma {:induction false} SetOnceField(attrs: set<string>, t: Term, line: string, lnum: nat)
    requires Match(line).Some? && SetOnceTag(TermTagOf(Match(line).value.name))
    ensures var f := Match(line).value; var r := AddToTerm(attrs, t, line, lnum);
      && (r.Success? <==> FieldOf(t, TermTagOf(f.name)) == "")
      && (r.Success? ==> FieldOf(r.value, TermTagOf(f.name)) == f.value)
      && (r.Failure? ==> r.error == AlreadyInitialized(lnum))
  {
    var f := Match(line).value;
    assert AddToTerm(attrs, t, line, lnum) == AddSetOnce(t, TermTagOf(f.name), f.value, lnum);
  }

  /** What a term line never undoes: a set id, name or namespace stays, the
      is_a and alt_id lists only grow, and an obsolete mark stays. */
  predicate SetOnceKept(t: Term, u: Term) {
    && (t.id != "" ==> u.id == t.id)
    && (t.name != "" ==> u.name == t.name)
    && (t.namespace != "" ==> u.namespace == t.namespace)
    && t.isA <= u.isA
    && t.altIds <= u.altIds
    && (t.isObsolete ==> u.isObsolete)
  }

  /** `_add_to_typedef`: one right-stripped line containing ':' inside a
      typedef stanza. The value loses any `!` comment and trailing space;
      id, name and inverse_of may be set while still empty, transitive_over
      accumulates, other tags are ignored. */
  function AddToTypedef(d: Typedef, line: string, lnum: nat): (r: Result<Typedef, ParseError>)
    ensures Match(line).None? <==> r == Failure(UnexpectedField(lnum, line))
    ensures r.Failure? ==> FieldBlame(r.error, lnum, line)
    ensures r.Success? ==> d.transitiveOver <= r.value.transitiveOver
    ensures r.Success? && Match(line).Some? && Match(line).value.name == "id" ==>
      r.value.id == RStrip(BeforeFirst(Match(line).value.value, '!'))
  {
    match Match(line)
    case None => Failure(UnexpectedField(lnum, line))
    case Some(f) =>
      var v := RStrip(BeforeFirst(f.value, '!'));
      if f.name == "id" then
        if d.id != "" then Failure(AlreadyInitialized(lnum)) else Success(d.(id := v))
      else if f.name == "name" then
        if d.name != "" then Failure(AlreadyInitialized(lnum)) else Success(d.(name := v))
      else if f.name == "transitive_over" then Success(d.(transitiveOver := d.transitiveOver + [v]))
      else if f.name == "inverse_of" then
        if d.inverseOf != "" then Failure(AlreadyInitialized(lnum)) else Success(d.(inverseOf := v))
      else Success(d)
  }

  /** The error `e` is one the right-stripped line `line` (number `lnum`) can
      cause inside a stanza. */
  predicate FieldBlame(e: ParseError, lnum: nat, line: string) {
    match e
    case UnexpectedField(n, l) => n == lnum && l == line && Match(line).None?
    case AlreadyInitialized(n) =>
      n == lnum && Match(line).Some? && (SetOnceTag(TermTagOf(Match(line).value.name)) || Match(line).value.name == "inverse_of")
    case _ => Match(line).Some? && OptionalBlame(e, Match(line).value)
  }

  /** The error `e` is one that line number `lnum`, reading `line`, causes. */
  predicate Blames(e: ParseError, lnum: nat, line: string) {
    match e
    case Unterminated(n, block) =>
      n == lnum && ((block == "Term" && IsTermHeader(line)) || (block == "Typedef" && IsTypedefHeader(line)))
    case UnexpectedLine(n, l) => n == lnum && l == RStrip(line) && l != "" && ':' !in l
    case _ => ':' in RStrip(line) && FieldBlame(e, lnum, RStrip(line))
  }

  /** One iteration of the loop in `__iter__`, for line number `lnum`.
      A header opens a stanza (a term header while a term is open, or a
      typedef header while a term is open, is fatal); outside any stanza a
      line only feeds the version scan; inside one, a line with ':' is a
      field, an empty line closes the stanza (yielding the term, or saving
      the typedef under its id), and anything else is fatal. */
  function Step(attrs: set<string>, rd: Reader, lnum: nat, line: string): (r: Result<Reader, ParseError>)
    ensures r.Failure? ==> Blames(r.error, lnum, line)
    ensures r.Success? ==> rd.yielded <= r.value.yielded
    ensures r.Success? ==>
      OpenTerms(r.value) + |r.value.yielded| == OpenTerms(rd) + |rd.yielded| + (if IsTermHeader(line) then 1 else 0)
    ensures IsTermHeader(line) || IsTypedefHeader(line) ==> (r.Failure? <==> rd.term.Some?)
    ensures r.Success? ==> r.value.formatVersion == ScanVersion(rd, line).formatVersion
    ensures r.Success? ==> r.value.dataVersion == ScanVersion(rd, line).dataVersion
    ensures r.Success? && rd.term.Some? && r.value.term.Some? && !IsTermHeader(line) ==>
      SetOnceKept(rd.term.value, r.value.term.value)
  {
    var rd := ScanVersion(rd, line);
    if IsTermHeader(line) then
      if rd.term.Some? then Failure(Unterminated(lnum, "Term")) else Success(rd.(term := Some(NewTerm)))
    else if IsTypedefHeader(line) then
      if rd.term.Some? then Failure(Unterminated(lnum, "Typedef")) else Success(rd.(typedef := Some(NewTypedef)))
    else if rd.term.None? && rd.typedef.None? then Success(rd)
    else
      var l := RStrip(line);
      if ':' in l then
        if rd.term.Some? then
          var t :- AddToTerm(attrs, rd.term.value, l, lnum);
          Success(rd.(term := Some(t)))
        else
          var d :- AddToTypedef(rd.typedef.value, l, lnum);
          Success(rd.(typedef := Some(d)))
      else if l == "" then
        if rd.term.Some? then Success(rd.(term := None, yielded := rd.yielded + [rd.term.value]))
        else Success(rd.(typedef := None, typedefs := rd.typedefs[rd.typedef.value.id := rd.typedef.value]))
      else Failure(UnexpectedLine(lnum, l))
  }

  /** The loop of `__iter__`: feed `lines` to `step` in order, the first
      numbered `lnum`, stopping at the first fatal line. */
  function Fold<S, E>(step: (S, nat, string) -> Result<S, E>, s: S, lines: seq<string>, lnum: nat): Result<S, E>
    decreases |lines|
  {
    if lines == [] then Success(s)
    else
      var next :- step(s, lnum, lines[0]);
      Fold(step, next, lines[1..], lnum + 1)
  }

  /** Headers: a term header is fatal iff a term is open, and so is a
      typedef header; otherwise each opens a fresh stanza of its kind. */
  lemma {:induction false} StepHeader(attrs: set<string>, rd: Reader, lnum: nat, line: string)
    requires IsTermHeader(line) || IsTypedefHeader(line)
    ensures var r := Step(attrs, rd, lnum, line);
      && (r.Failure? <==> rd.term.Some?)
      && (IsTermHeader(line) && r.Success? ==> r.value == ScanVersion(rd, line).(term := Some(NewTerm)))
      && (!IsTermHeader(line) && r.Success? ==> r.value == ScanVersion(rd, line).(typedef := Some(NewTypedef)))
  {
  }

  /** The reader's step with its optional attributes fixed. */
  function StepWith(attrs: set<string>): (S: (Reader, nat, string) -> Result<Reader, ParseError>)
    ensures forall rd, n, line :: S(rd, n, line) == Step(attrs, rd, n, line)
  {
    (rd: Reader, n: nat, line: string) => Step(attrs, rd, n, line)
  }

  /** `__iter__` over `lines`, the first of which is numbered `lnum`. */
  function Run(attrs: set<string>, rd: Reader, lines: seq<string>, lnum: nat): Result<Reader, ParseError> {
    Fold(StepWith(attrs), rd, lines, lnum)
  }

  /** What a whole file yields. */
  datatype Parsed = Parsed(
    terms: seq<Term>,
    typedefs: map<string, Typedef>,
    formatVersion: Option<string>,
    dataVersion: Option<string>)

  /** Iterating an `OBOReader` over the file's lines: a term still open at
      the end of the file is yielded as well; a typedef still open is not
      saved. */
  function Parse(attrs: set<string>, lines: seq<string>): Result<Parsed, ParseError> {
    var rd :- Run(attrs, Start, lines, 0);
    var terms := if rd.term.Some? then rd.yielded + [rd.term.value] else rd.yielded;
    Success(Parsed(terms, rd.typedefs, rd.formatVersion, rd.dataVersion))
  }

  /** The number of term headers among `lines`. */
  function TermHeaders(lines: seq<string>): nat {
    if lines == [] then 0 else (if IsTermHeader(lines[0]) then 1 else 0) + TermHeaders(lines[1..])
  }

  /** Folding over `a + b` is folding over `a`, then over `b` from where it
      stopped, with the line numbers carried on. */
  lemma {:induction false} FoldAppend<S, E>(step: (S, nat, string) -> Result<S, E>, s: S, a: seq<string>, b: seq<string>, lnum: nat)
    ensures Fold(step, s, a + b, lnum) ==
      if Fold(step, s, a, lnum).Failure? then Fold(step, s, a, lnum)
      else Fold(step, Fold(step, s, a, lnum).value, b, lnum + |a|)
    decreases |a|
  {
    if a == [] {
      assert a + b == b;
    } else {
      assert (a + b)[0] == a[0];
      assert (a + b)[1..] == a[1..] + b;
      var st := step(s, lnum, a[0]);
      if st.Success? {
        FoldAppend(step, st.value, a[1..], b, lnum + 1);
      }
    }
  }

  /** A failed fold stopped at some line `k`: every line before it was
      accepted, and the error is the one line `k` raised in that state. */
  lemma {:induction false} FoldStopsAtFault<S, E>(step: (S, nat, string) -> Result<S, E>, s: S, lines: seq<string>, lnum: nat)
    returns (k: nat)
    requires Fold(step, s, lines, lnum).Failure?
    ensures k < |lines|
    ensures Fold(step, s, lines[..k], lnum).Success?
    ensures step(Fold(step, s, lines[..k], lnum).value, lnum + k, lines[k]) == Failure(Fold(step, s, lines, lnum).error)
    decreases |lines|
  {
    var st := step(s, lnum, lines[0]);
    if st.Failure? {
      k := 0;
      assert lines[..0] == [];
    } else {
      var j := FoldStopsAtFault(step, st.value, lines[1..], lnum + 1);
      k := j + 1;
      assert lines[..k][0] == lines[0];
      assert lines[..k][1..] == lines[1..][..j];
      assert lines[1..][j] == lines[k];
    }
  }

  /** Every fatal error names a line that causes it: the header of an
      unterminated stanza, the unexpected line, or the offending field. */
  lemma {:induction false} RunBlame(attrs: set<string>, rd: Reader, lines: seq<string>, lnum: nat)
    requires Run(attrs, rd, lines, lnum).Failure?
    ensures exists k | 0 <= k < |lines| :: Blames(Run(attrs, rd, lines, lnum).error, lnum + k, lines[k])
  {
    var k := FoldStopsAtFault(StepWith(attrs), rd, lines, lnum);
  }

  /** A successful run keeps what was yielded before and hands out one term
      per term header: open terms plus yielded terms grow by exactly the
      number of term headers read. */
  lemma {:induction false} RunCount(attrs: set<string>, rd: Reader, lines: seq<string>, lnum: nat)
    requires Run(attrs, rd, lines, lnum).Success?
    ensures rd.yielded <= Run(attrs, rd, lines, lnum).value.yielded
    ensures OpenTerms(Run(attrs, rd, lines, lnum).value) + |Run(attrs, rd, lines, lnum).value.yielded|
      == OpenTerms(rd) + |rd.yielded| + TermHeaders(lines)
    decreases |lines|
  {
    if lines != [] {
      var st := Step(attrs, rd, lnum, lines[0]);
      assert Run(attrs, rd, lines, lnum) == Run(attrs, st.value, lines[1..], lnum + 1);
      RunCount(attrs, st.value, lines[1..], lnum + 1);
    }
  }

  /** A file that parses yields exactly one record per term header. */
  lemma {:induction false} ParseCount(attrs: set<string>, lines: seq<string>)
    requires Parse(attrs, lines).Success?
    ensures |Parse(attrs, lines).value.terms| == TermHeaders(lines)
  {
    RunCount(attrs, Start, lines, 0);
  }

  /** Block lifecycle for a line that is not a header. Outside any stanza it
      only feeds the version scan. Inside one, an empty line yields the open
      term and clears its slot (or saves the open typedef under its id), a
      non-empty line without ':' is fatal, and a line with ':' that is not a
      field line is fatal. */
  lemma {:induction false} StepBody(attrs: set<string>, rd: Reader, lnum: nat, line: string)
    requires !IsTermHeader(line) && !IsTypedefHeader(line)
    ensures var r := Step(attrs, rd, lnum, line); var v := ScanVersion(rd, line);
      && (rd.term.None? && rd.typedef.None? ==> r == Success(v))
      && (rd.term.Some? && RStrip(line) == "" ==>
            r == Success(v.(term := None, yielded := rd.yielded + [rd.term.value])))
      && (rd.term.None? && rd.typedef.Some? && RStrip(line) == "" ==>
            r == Success(v.(typedef := None, typedefs := rd.typedefs[rd.typedef.value.id := rd.typedef.value])))
      && ((rd.term.Some? || rd.typedef.Some?) && RStrip(line) != "" && ':' !in RStrip(line) ==>
            r == Failure(UnexpectedLine(lnum, RStrip(line))))
      && ((rd.term.Some? || rd.typedef.Some?) && ':' in RStrip(line) && Match(RStrip(line)).None? ==>
            r == Failure(UnexpectedField(lnum, RStrip(line))))
  {
  }

  /** Within one term stanza (no term header read, the term still open at
      the end) nothing set is ever unset: a given id, name or namespace
      stays, and the is_a and alt_id lists only grow. */
  lemma {:induction false} StanzaKeepsFields(attrs: set<string>, rd: Reader, lines: seq<string>, lnum: nat)
    requires rd.term.Some? && TermHeaders(lines) == 0
    requires Run(attrs, rd, lines, lnum).Success? && Run(attrs, rd, lines, lnum).value.term.Some?
    ensures SetOnceKept(rd.term.value, Run(attrs, rd, lines, lnum).value.term.value)
    decreases |lines|
  {
    if lines != [] {
      var st := Step(attrs, rd, lnum, lines[0]);
      assert Run(attrs, rd, lines, lnum) == Run(attrs, st.value, lines[1..], lnum + 1);
      if st.value.term.None? {
        StaysClosed(attrs, st.value, lines[1..], lnum + 1);
        assert false;
      }
      StanzaKeepsFields(attrs, st.value, lines[1..], lnum + 1);
      KeptTrans(rd.term.value, st.value.term.value, Run(attrs, rd, lines, lnum).value.term.value);
    }
  }

  lemma {:induction false} KeptTrans(a: Term, b: Term, c: Term)
    requires SetOnceKept(a, b) && SetOnceKept(b, c)
    ensures SetOnceKept(a, c)
  {
  }

  /** Without a term header no term opens. */
  lemma {:induction false} StaysClosed(attrs: set<string>, rd: Reader, lines: seq<string>, lnum: nat)
    requires rd.term.None? && TermHeaders(lines) == 0
    requires Run(attrs, rd, lines, lnum).Success?
    ensures Run(attrs, rd, lines, lnum).value.term.None?
    decreases |lines|
  {
    if lines != [] {
      var st := Step(attrs, rd, lnum, lines[0]);
      assert Run(attrs, rd, lines, lnum) == Run(attrs, st.value, lines[1..], lnum + 1);
      StaysClosed(attrs, st.value, lines[1..], lnum + 1);
    }
  }

  /** `line` is a field line, not a header, giving again an id, name or
      namespace that `t` already holds. */
  predicate RepeatsField(t: Term, line: string) {
    && !IsTermHeader(line) && !IsTypedefHeader(line) && ':' in RStrip(line)
    && Match(RStrip(line)).Some? && SetOnceTag(TermTagOf(Match(RStrip(line)).value.name))
    && FieldOf(t, TermTagOf(Match(RStrip(line)).value.name)) != ""
  }

  /** A second id, name or namespace in one term stanza is fatal: once the
      field is set, any later line giving it again, before the stanza is
      closed, fails with "already initialized" at that line. */
  lemma {:induction false} SecondFieldFatal(attrs: set<string>, rd: Reader, lines: seq<string>, line: string, lnum: nat)
    requires rd.term.Some? && TermHeaders(lines) == 0
    requires Run(attrs, rd, lines, lnum).Success? && Run(attrs, rd, lines, lnum).value.term.Some?
    requires RepeatsField(rd.term.value, line)
    ensures Run(attrs, rd, lines + [line], lnum) == Failure(AlreadyInitialized(lnum + |lines|))
  {
    SecondFieldStep(attrs, rd, lines, line, lnum);
    RunFailsAtLast(attrs, rd, lines, line, lnum, AlreadyInitialized(lnum + |lines|));
  }

  /** The step for the repeated field, in the state the stanza reached. */
  lemma {:induction false} SecondFieldStep(attrs: set<string>, rd: Reader, lines: seq<string>, line: string, lnum: nat)
    requires rd.term.Some? && TermHeaders(lines) == 0
    requires Run(attrs, rd, lines, lnum).Success? && Run(attrs, rd, lines, lnum).value.term.Some?
    requires RepeatsField(rd.term.value, line)
    ensures Step(attrs, Run(attrs, rd, lines, lnum).value, lnum + |lines|, line) == Failure(AlreadyInitialized(lnum + |lines|))
  {
    var now := Run(attrs, rd, lines, lnum).value;
    StanzaKeepsFields(attrs, rd, lines, lnum);
    StepSecondFieldKept(attrs, rd.term.value, now, lnum + |lines|, line);
  }

  lemma {:induction false} StepSecondFieldKept(attrs: set<string>, t: Term, rd: Reader, lnum: nat, line: string)
    requires rd.term.Some? && SetOnceKept(t, rd.term.value) && RepeatsField(t, line)
    ensures Step(attrs, rd, lnum, line) == Failure(AlreadyInitialized(lnum))
  {
    KeptField(t, rd.term.value, TermTagOf(Match(RStrip(line)).value.name));
    StepSecondField(attrs, rd, lnum, line);
  }

  /** A run that reaches a failing last line fails with that line's error. */
  lemma {:induction false} RunFailsAtLast(attrs: set<string>, rd: Reader, lines: seq<string>, line: string, lnum: nat, e: ParseError)
    requires Run(attrs, rd, lines, lnum).Success?
    requires Step(attrs, Run(attrs, rd, lines, lnum).value, lnum + |lines|, line) == Failure(e)
    ensures Run(attrs, rd, lines + [line], lnum) == Failure(e)
  {
    RunSnoc(attrs, rd, lines, line, lnum);
  }

  /** Running one more line after a successful run is one more step. */
  lemma {:induction false} RunSnoc(attrs: set<string>, rd: Reader, lines: seq<string>, line: string, lnum: nat)
    requires Run(attrs, rd, lines, lnum).Success?
    ensures Run(attrs, rd, lines + [line], lnum) == Step(attrs, Run(attrs, rd, lines, lnum).value, lnum + |lines|, line)
  {
    FoldAppend(StepWith(attrs), rd, lines, [line], lnum);
    RunOne(attrs, Run(attrs, rd, lines, lnum).value, line, lnum + |lines|);
  }

  lemma {:induction false} KeptField(t: Term, u: Term, g: TermTag)
    requires SetOnceKept(t, u) && SetOnceTag(g) && FieldOf(t, g) != ""
    ensures FieldOf(u, g) != ""
  {
  }

  lemma {:induction false} RunOne(attrs: set<string>, rd: Reader, line: string, lnum: nat)
    ensures Run(attrs, rd, [line], lnum) == Step(attrs, rd, lnum, line)
  {
    assert [line][1..] == [];
    var st := Step(attrs, rd, lnum, line);
    assert StepWith(attrs)(rd, lnum, line) == st;
    if st.Success? {
      assert Fold(StepWith(attrs), st.value, [], lnum + 1) == Success(st.value);
    }
  }

  /** In an open term whose field is set, a line giving it again fails. */
  lemma {:induction false} StepSecondField(attrs: set<string>, rd: Reader, lnum: nat, line: string)
    requires rd.term.Some? && !IsTermHeader(line) && !IsTypedefHeader(line) && ':' in RStrip(line)
    requires Match(RStrip(line)).Some? && SetOnceTag(TermTagOf(Match(RStrip(line)).value.name))
    requires FieldOf(rd.term.value, TermTagOf(Match(RStrip(line)).value.name)) != ""
    ensures Step(attrs, rd, lnum, line) == Failure(AlreadyInitialized(lnum))
  {
    SetOnceField(attrs, rd.term.value, RStrip(line), lnum);
    StepField(attrs, rd, lnum, line);
  }

  /** In an open term, a non-header line with ':' goes to `AddToTerm`. */
  lemma {:induction false} StepField(attrs: set<string>, rd: Reader, lnum: nat, line: string)
    requires rd.term.Some? && !IsTermHeader(line) && !IsTypedefHeader(line) && ':' in RStrip(line)
    ensures AddToTerm(attrs, rd.term.value, RStrip(line), lnum).Failure? ==>
      Step(attrs, rd, lnum, line) == Failure(AddToTerm(attrs, rd.term.value, RStrip(line), lnum).error)
  {
  }

  /** An id, name or inverse_of line in a typedef stanza is accepted exactly
      when that field is still empty, and then holds the line's value
      without its comment. */
  lemma {:induction false} TypedefSetOnce(d: Typedef, line: string, lnum: nat)
    requires Match(line).Some?
    ensures var f := Match(line).value; var r := AddToTypedef(d, line, lnum);
      var v := RStrip(BeforeFirst(f.value, '!'));
      && (f.name == "id" ==> (r.Success? <==> d.id == "") && (r.Success? ==> r.value.id == v))
      && (f.name == "name" ==> (r.Success? <==> d.name == "") && (r.Success? ==> r.value.name == v))
      && (f.name == "inverse_of" ==> (r.Success? <==> d.inverseOf == "") && (r.Success? ==> r.value.inverseOf == v))
  {
  }

  /** The version scan on its own: `ScanVersion` over every line. */
  function ScanAll(rd: Reader, lines: seq<string>): Reader
    decreases |lines|
  {
    if lines == [] then rd else ScanAll(ScanVersion(rd, lines[0]), lines[1..])
  }

  /** A successful run picks up exactly the versions the scan alone finds. */
  lemma {:induction false} RunVersions(attrs: set<string>, rd: Reader, lines: seq<string>, lnum: nat)
    requires Run(attrs, rd, lines, lnum).Success?
    ensures Run(attrs, rd, lines, lnum).value.formatVersion == ScanAll(rd, lines).formatVersion
    ensures Run(attrs, rd, lines, lnum).value.dataVersion == ScanAll(rd, lines).dataVersion
    decreases |lines|
  {
    if lines != [] {
      var st := Step(attrs, rd, lnum, lines[0]);
      assert Run(attrs, rd, lines, lnum) == Run(attrs, st.value, lines[1..], lnum + 1);
      RunVersions(attrs, st.value, lines[1..], lnum + 1);
      ScanAllVersionsOnly(st.value, ScanVersion(rd, lines[0]), lines[1..]);
    }
  }

  /** The scan reads nothing but the versions. */
  lemma {:induction false} ScanAllVersionsOnly(a: Reader, b: Reader, lines: seq<string>)
    requires a.formatVersion == b.formatVersion && a.dataVersion == b.dataVersion
    ensures ScanAll(a, lines).formatVersion == ScanAll(b, lines).formatVersion
    ensures ScanAll(a, lines).dataVersion == ScanAll(b, lines).dataVersion
    decreases |lines|
  {
    if lines != [] {
      ScanAllVersionsOnly(ScanVersion(a, lines[0]), ScanVersion(b, lines[0]), lines[1..]);
    }
  }

  /** A line announcing the data version. */
  predicate IsDataVersionLine(line: string) {
    Prefix(line, 12) == "data-version"
  }

  /** Starting without a data version, the scan ends with one iff some line
      announces it, and then it is the first such line's `[14:-1]` slice. */
  lemma {:induction false} DataVersionFirst(rd: Reader, lines: seq<string>)
    requires rd.dataVersion.None?
    ensures ScanAll(rd, lines).dataVersion.Some? <==> exists k | 0 <= k < |lines| :: IsDataVersionLine(lines[k])
    ensures forall k | 0 <= k < |lines| && IsDataVersionLine(lines[k]) && (forall j | 0 <= j < k :: !IsDataVersionLine(lines[j])) ::
      ScanAll(rd, lines).dataVersion == Some(SliceToLast(lines[k], 14))
    decreases |lines|
  {
    if lines != [] {
      var v := ScanVersion(rd, lines[0]);
      if IsDataVersionLine(lines[0]) {
        ScanAllSettled(v, lines[1..]);
      } else {
        DataVersionFirst(v, lines[1..]);
        forall k | 0 <= k < |lines| && IsDataVersionLine(lines[k]) && (forall j | 0 <= j < k :: !IsDataVersionLine(lines[j]))
          ensures ScanAll(rd, lines).dataVersion == Some(SliceToLast(lines[k], 14))
        {
          assert lines[1..][k - 1] == lines[k];
          assert forall j | 0 <= j < k - 1 :: lines[1..][j] == lines[j + 1];
        }
        if exists k | 0 <= k < |lines| :: IsDataVersionLine(lines[k]) {
          var k :| 0 <= k < |lines| && IsDataVersionLine(lines[k]);
          assert lines[1..][k - 1] == lines[k];
        }
      }
    }
  }

  /** Once the data version is known the scan stops changing anything. */
  lemma {:induction false} ScanAllSettled(rd: Reader, lines: seq<string>)
    requires rd.dataVersion.Some?
    ensures ScanAll(rd, lines) == rd
    decreases |lines|
  {
    if lines != [] {
      ScanAllSettled(ScanVersion(rd, lines[0]), lines[1..]);
    }
  }
}
