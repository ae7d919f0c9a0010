/** The OBO field-line pattern `^(\S+):\s*(\S.*)$` as Python's `re.match`
    evaluates it: `\S+` is greedy and gives characters back until a colon
    follows, `.` matches anything but a newline, and `$` matches at the end
    of the string or just before a final newline. */
module FieldLine {
  import opened Wrappers
  import opened PyStr

  /** The two groups of a successful match: field name and field value. */
  datatype Field = Field(name: string, value: string)

  /** Index of the first whitespace character of s at or after j, or |s|. */
  function SpaceFrom(s: string, j: nat): (k: nat)
    requires j <= |s|
    ensures j <= k <= |s|
    decreases |s| - j
  {
    if j == |s| || IsSpace(s[j]) then j else SpaceFrom(s, j + 1)
  }

  /** Index of the first non-whitespace character of s in [j, e), or e. */
  function NonSpaceFrom(s: string, j: nat, e: nat): (k: nat)
    requires j <= e <= |s|
    ensures j <= k <= e
    decreases e - j
  {
    if j == e || !IsSpace(s[j]) then j else NonSpaceFrom(s, j + 1, e)
  }

  /** Index of the first whitespace character of s, or |s|: `\S+` cannot
      reach past it. */
  function FirstSpace(s: string): (k: nat)
    ensures k <= |s|
  {
    SpaceFrom(s, 0)
  }

  /** Length of s without one final newline: where `$` may match. */
  function ChompLen(s: string): nat {
    if |s| > 0 && s[|s| - 1] == '\n' then |s| - 1 else |s|
  }

  /** Where `\s*` stops after a colon at index i. */
  function ValueStart(line: string, i: nat): (w: nat)
    requires i < ChompLen(line)
    ensures i < w <= ChompLen(line)
  {
    NonSpaceFrom(line, i + 1, ChompLen(line))
  }

  /** No newline in s[lo..hi]. */
  predicate NoNewline(s: string, lo: nat, hi: nat)
    requires lo <= hi <= |s|
  {
    forall m | lo <= m < hi :: s[m] != '\n'
  }

  /** The colon at index i ends the first group of a match: everything
      before it is non-space, and after it `\s*(\S.*)$` matches the rest. */
  predicate SplitsAt(line: string, i: int) {
    && 0 < i < FirstSpace(line) && line[i] == ':' && i < ChompLen(line)
    && ValueStart(line, i) < ChompLen(line)
    && NoNewline(line, ValueStart(line, i) + 1, ChompLen(line))
  }

  /** The backtracking of `(\S+):`: try the colon candidates from index i
      down to index 1. */
  function MatchFrom(line: string, i: int): Option<Field>
    requires i < |line|
    decreases i
  {
    if i < 1 then None
    else if SplitsAt(line, i) then Some(Field(line[..i], line[ValueStart(line, i)..ChompLen(line)]))
    else MatchFrom(line, i - 1)
  }

  /** `re.match(r'^(\S+):\s*(\S.*)$', line)`: the name and value groups, or
      None when the line does not match. */
  function Match(line: string): Option<Field> {
    MatchFrom(line, FirstSpace(line) - 1)
  }

  /** line reads name, a colon, the whitespace gap and value, optionally
      followed by one newline, with the character classes the pattern asks
      for in each part. */
  predicate IsFieldLine(line: string, name: string, gap: string, value: string) {
    && |name| > 0 && NoSpace(name)
    && AllSpace(gap)
    && |value| > 0 && !IsSpace(value[0]) && '\n' !in value
    && (line == name + ":" + gap + value || line == name + ":" + gap + value + "\n")
  }

  /** The whitespace between the colon and the value of a decomposed line. */
  function Gap(line: string, f: Field): string {
    var e := ChompLen(line);
    if |f.name| + 1 + |f.value| <= e <= |line| then line[|f.name| + 1..e - |f.value|] else ""
  }

  /** A match always splits the line into name, colon, gap and value with
      the character classes the pattern asks for; every such split makes the
      line match; and the name chosen is the longest one possible. */
  lemma MatchSpec(line: string)
    ensures Match(line).Some? ==> IsFieldLine(line, Match(line).value.name, Gap(line, Match(line).value), Match(line).value.value)
    ensures forall name, gap, value | IsFieldLine(line, name, gap, value) ::
      Match(line).Some? && |name| <= |Match(line).value.name|
  {
    MatchSound(line);
    forall name, gap, value | IsFieldLine(line, name, gap, value)
      ensures Match(line).Some? && |name| <= |Match(line).value.name|
    {
      MatchComplete(line, name, gap, value);
    }
  }

  /** A match decomposes the line as the pattern describes. */
  lemma MatchSound(line: string)
    ensures Match(line).Some? ==> IsFieldLine(line, Match(line).value.name, Gap(line, Match(line).value), Match(line).value.value)
  {
    var r := Match(line);
    MatchFromSound(line, FirstSpace(line) - 1);
    if r.Some? {
      SplitSound(line, |r.value.name|);
    }
  }

  /** A line the pattern describes matches, with a name at least as long. */
  lemma MatchComplete(line: string, name: string, gap: string, value: string)
    requires IsFieldLine(line, name, gap, value)
    ensures Match(line).Some? && |name| <= |Match(line).value.name|
  {
    SplitComplete(line, name, gap, value);
    FindFrom(line, FirstSpace(line) - 1, |name|);
  }

  /** What the backtracking finds is a split point no later than where it
      started, with the groups read off that split. */
  lemma {:induction false} MatchFromSound(line: string, i: int)
    requires i < |line|
    ensures var r := MatchFrom(line, i);
      r.Some? ==> && |r.value.name| <= i && SplitsAt(line, |r.value.name|)
                  && r.value == Field(line[..|r.value.name|], line[ValueStart(line, |r.value.name|)..ChompLen(line)])
    decreases i
  {
    if i >= 1 && !SplitsAt(line, i) {
      MatchFromSound(line, i - 1);
    }
  }

  /** The backtracking misses no split point below where it starts. */
  lemma {:induction false} FindFrom(line: string, j: int, i: nat)
    requires i <= j < |line| && SplitsAt(line, i)
    ensures MatchFrom(line, j).Some? && i <= |MatchFrom(line, j).value.name|
    decreases j
  {
    if !SplitsAt(line, j) {
      FindFrom(line, j - 1, i);
    }
  }

  /** No whitespace between j and SpaceFrom(s, j). */
  lemma {:induction false} SpaceFromClear(s: string, j: nat, m: nat)
    requires j <= |s| && j <= m < SpaceFrom(s, j)
    ensures !IsSpace(s[m])
    decreases |s| - j
  {
    if m > j {
      SpaceFromClear(s, j + 1, m);
    }
  }

  /** SpaceFrom(s, j) reaches past a run of non-space characters. */
  lemma {:induction false} SpaceFromPast(s: string, j: nat, k: nat)
    requires j <= k < |s| && forall m | j <= m <= k :: !IsSpace(s[m])
    ensures k < SpaceFrom(s, j)
    decreases k - j
  {
    if j < k {
      SpaceFromPast(s, j + 1, k);
    }
  }

  /** Everything NonSpaceFrom(s, j, e) skipped is whitespace, and it stops
      on a non-space character unless it reached e. */
  lemma {:induction false} NonSpaceFromSpec(s: string, j: nat, e: nat)
    requires j <= e <= |s|
    ensures forall m | j <= m < NonSpaceFrom(s, j, e) :: IsSpace(s[m])
    ensures NonSpaceFrom(s, j, e) < e ==> !IsSpace(s[NonSpaceFrom(s, j, e)])
    decreases e - j
  {
    if j < e && IsSpace(s[j]) {
      NonSpaceFromSpec(s, j + 1, e);
    }
  }

  /** NonSpaceFrom(s, j, e) is k when s[j..k] is whitespace and s[k] is not. */
  lemma {:induction false} NonSpaceFromIs(s: string, j: nat, k: nat, e: nat)
    requires j <= k < e <= |s| && !IsSpace(s[k]) && forall m | j <= m < k :: IsSpace(s[m])
    ensures NonSpaceFrom(s, j, e) == k
    decreases k - j
  {
    if j < k {
      NonSpaceFromIs(s, j + 1, k, e);
    }
  }

  /** A split point decomposes the line as the pattern describes. */
  lemma SplitSound(line: string, i: nat)
    requires SplitsAt(line, i)
    ensures IsFieldLine(line, line[..i], Gap(line, Field(line[..i], line[ValueStart(line, i)..ChompLen(line)])),
                        line[ValueStart(line, i)..ChompLen(line)])
  {
    var e := ChompLen(line);
    var w := ValueStart(line, i);
    SplitParts(line, i);
    assert Gap(line, Field(line[..i], line[w..e])) == line[i + 1..w];
    Decompose(line, i, w, e);
  }

  /** The parts around a split point have the character classes the
      pattern asks for. */
  lemma SplitParts(line: string, i: nat)
    requires SplitsAt(line, i)
    ensures NoSpace(line[..i])
    ensures AllSpace(line[i + 1..ValueStart(line, i)])
    ensures !IsSpace(line[ValueStart(line, i)])
    ensures '\n' !in line[ValueStart(line, i)..ChompLen(line)]
  {
    var e := ChompLen(line);
    var w := ValueStart(line, i);
    forall m | 0 <= m < i ensures !IsSpace(line[m]) {
      SpaceFromClear(line, 0, m);
    }
    NonSpaceFromSpec(line, i + 1, e);
    ValueNoNewline(line, w, e);
  }

  /** A slice whose first character is not whitespace and whose other
      characters are not newlines holds no newline. */
  lemma ValueNoNewline(line: string, w: nat, e: nat)
    requires w < e <= |line| && !IsSpace(line[w]) && NoNewline(line, w + 1, e)
    ensures '\n' !in line[w..e]
  {
    NewlineIsSpace();
    forall m | 0 <= m < e - w ensures line[w..e][m] != '\n' {
      assert line[w..e][m] == line[w + m];
    }
  }

  lemma NewlineIsSpace()
    ensures IsSpace('\n') && !IsSpace(':')
  {
  }

  /** The line is the name, the colon, the gap and the value, then possibly
      the final newline. */
  lemma Decompose(line: string, i: nat, w: nat, e: nat)
    requires i < w <= e == ChompLen(line) && line[i] == ':'
    ensures line[..e] == line[..i] + ":" + line[i + 1..w] + line[w..e]
    ensures line == line[..e] || line == line[..e] + "\n"
  {
    assert line[..e] == line[..i] + [line[i]] + line[i + 1..w] + line[w..e];
    if e < |line| {
      assert line == line[..e] + [line[e]];
    }
  }

  /** The characters of a decomposed line, position by position. */
  lemma FieldLineAt(line: string, name: string, gap: string, value: string)
    requires IsFieldLine(line, name, gap, value)
    ensures ChompLen(line) == |name| + 1 + |gap| + |value|
    ensures forall m | 0 <= m < |name| :: line[m] == name[m]
    ensures line[|name|] == ':'
    ensures forall m | 0 <= m < |gap| :: line[|name| + 1 + m] == gap[m]
    ensures forall m | 0 <= m < |value| :: line[|name| + 1 + |gap| + m] == value[m]
  {
    var b := name + ":" + gap + value;
    NewlineIsSpace();
    assert b[|b| - 1] == value[|value| - 1];
    assert value[|value| - 1] in value;
    assert line[..|b|] == b;
  }

  /** Every decomposition the pattern allows is a split point, and the
      value starts right after the gap. */
  lemma SplitComplete(line: string, name: string, gap: string, value: string)
    requires IsFieldLine(line, name, gap, value)
    ensures SplitsAt(line, |name|)
    ensures ValueStart(line, |name|) == |name| + 1 + |gap|
    ensures ChompLen(line) == |name| + 1 + |gap| + |value|
  {
    FieldLineAt(line, name, gap, value);
    PartsSplit(line, name, gap, value);
  }

  /** Character classes read off position by position make a split point. */
  lemma PartsSplit(line: string, name: string, gap: string, value: string)
    requires |name| > 0 && NoSpace(name) && AllSpace(gap)
    requires |value| > 0 && !IsSpace(value[0]) && '\n' !in value
    requires ChompLen(line) == |name| + 1 + |gap| + |value|
    requires forall m | 0 <= m < |name| :: line[m] == name[m]
    requires line[|name|] == ':'
    requires forall m | 0 <= m < |gap| :: line[|name| + 1 + m] == gap[m]
    requires forall m | 0 <= m < |value| :: line[|name| + 1 + |gap| + m] == value[m]
    ensures SplitsAt(line, |name|) && ValueStart(line, |name|) == |name| + 1 + |gap|
  {
    var i, w := |name|, |name| + 1 + |gap|;
    var e := w + |value|;
    NewlineIsSpace();
    forall m | 0 <= m <= i ensures !IsSpace(line[m]) {
      if m < i {
        assert line[m] == name[m];
      }
    }
    forall m | i + 1 <= m < w ensures IsSpace(line[m]) {
      assert line[m] == gap[m - i - 1];
    }
    assert line[w] == value[0];
    forall m | w + 1 <= m < e ensures line[m] != '\n' {
      assert line[m] == value[m - w];
    }
    SplitAtIndices(line, i, w, e);
  }

  /** The split-point conditions, checked position by position. */
  lemma SplitAtIndices(line: string, i: nat, w: nat, e: nat)
    requires 0 < i < w < e == ChompLen(line)
    requires forall m | 0 <= m <= i :: !IsSpace(line[m])
    requires line[i] == ':'
    requires forall m | i + 1 <= m < w :: IsSpace(line[m])
    requires !IsSpace(line[w])
    requires forall m | w + 1 <= m < e :: line[m] != '\n'
    ensures SplitsAt(line, i) && ValueStart(line, i) == w
  {
    SpaceFromPast(line, 0, i);
    NonSpaceFromIs(line, i + 1, w, e);
  }
}
