/** Column resolution in header mode: how a sheet's column labels are matched
    against the three canonical fields (`normalizeKeys` in the candidate
    service). */
module Labels {
  import opened Outcomes
  import opened JsText
  import opened Domain

  /** The characters the label pattern `[\s._-]` matches. */
  predicate IsSeparator(c: char) {
    IsSpace(c) || c == '.' || c == '_' || c == '-'
  }

  /** `replace(/[\s._-]+/g, '')`: deleting every run of separators deletes
      every separator. */
  function StripSeparators(s: string): (r: string)
    ensures |r| <= |s|
    ensures forall i :: 0 <= i < |r| ==> !IsSeparator(r[i])
  {
    if |s| == 0 then []
    else (if IsSeparator(s[0]) then [] else [s[0]]) + StripSeparators(s[1..])
  }

  /** The source's `norm`: trim, lower-case, drop separators. */
  function NormalizeLabel(s: string): string {
    StripSeparators(Lower(Trim(s)))
  }

  lemma {:induction false} StripAppend(a: string, b: string)
    ensures StripSeparators(a + b) == StripSeparators(a) + StripSeparators(b)
    decreases |a|
  {
    if |a| > 0 {
      assert (a + b)[1..] == a[1..] + b;
      StripAppend(a[1..], b);
    } else {
      assert a + b == b;
    }
  }

  lemma {:induction false} StripOfSpace(w: string)
    requires AllSpace(w)
    ensures StripSeparators(w) == []
    decreases |w|
  {
    if |w| > 0 {
      StripOfSpace(w[1..]);
    }
  }

  lemma {:induction false} StripKeepsClean(s: string)
    requires forall i :: 0 <= i < |s| ==> !IsSeparator(s[i])
    ensures StripSeparators(s) == s
    decreases |s|
  {
    if |s| > 0 {
      StripKeepsClean(s[1..]);
    }
  }

  lemma StripThree(p: string, t: string, q: string)
    requires AllSpace(p) && AllSpace(q)
    ensures StripSeparators(p + t + q) == StripSeparators(t)
  {
    StripAppend(p + t, q);
    StripAppend(p, t);
    StripOfSpace(p);
    StripOfSpace(q);
  }

  lemma SpacePaddedStrip(p: string, t: string, q: string)
    requires AllSpace(p) && AllSpace(q)
    ensures StripSeparators(Lower(p + t + q)) == StripSeparators(Lower(t))
  {
    LowerOfThree(p, t, q);
    LowerOfSpace(p);
    LowerOfSpace(q);
    StripThree(Lower(p), Lower(t), Lower(q));
  }

  /** Trimming is subsumed by deleting separators: a label normalises as its
      lower-cased form with every separator removed. */
  lemma NormalizeIsStripLower(s: string)
    ensures NormalizeLabel(s) == StripSeparators(Lower(s))
  {
    var p, q := TrimPieces(s);
    SpacePaddedStrip(p, Trim(s), q);
  }

  lemma StripMiddle(x: string, c: char, y: string)
    requires IsSeparator(c)
    ensures StripSeparators(x + [c] + y) == StripSeparators(x + y)
  {
    StripAppend(x + [c], y);
    StripAppend(x, [c]);
    StripAppend(x, y);
  }

  /** Separators anywhere in a label do not matter. */
  lemma NormalizeIgnoresSeparator(a: string, c: char, b: string)
    requires IsSeparator(c)
    ensures NormalizeLabel(a + [c] + b) == NormalizeLabel(a + b)
  {
    NormalizeIsStripLower(a + [c] + b);
    NormalizeIsStripLower(a + b);
    LowerOfThree(a, [c], b);
    LowerAppend(a, b);
    LowerCharFixesNonUpper(c);
    assert Lower([c]) == [c];
    StripMiddle(Lower(a), c, Lower(b));
  }

  /** Letter case does not matter. */
  lemma NormalizeIgnoresCase(s: string)
    ensures NormalizeLabel(Lower(s)) == NormalizeLabel(s)
  {
    NormalizeIsStripLower(s);
    NormalizeIsStripLower(Lower(s));
    LowerIdempotent(s);
  }

  /** A normalised label has no capitals and no separators. */
  lemma NormalizedIsClean(s: string)
    ensures forall i :: 0 <= i < |NormalizeLabel(s)| ==>
      !IsUpper(NormalizeLabel(s)[i]) && !IsSeparator(NormalizeLabel(s)[i])
  {
    LowerIdempotent(Trim(s));
    StripKeepsOnly(Lower(Trim(s)));
  }

  /** Every character `StripSeparators` keeps comes from its input. */
  lemma {:induction false} StripKeepsOnly(s: string)
    requires forall i :: 0 <= i < |s| ==> !IsUpper(s[i])
    ensures forall i :: 0 <= i < |StripSeparators(s)| ==> !IsUpper(StripSeparators(s)[i])
    decreases |s|
  {
    if |s| > 0 {
      StripKeepsOnly(s[1..]);
    }
  }

  /** A label with no capitals and no separators is already normal. */
  lemma CleanIsNormal(s: string)
    requires forall i :: 0 <= i < |s| ==> !IsUpper(s[i]) && !IsSeparator(s[i])
    ensures NormalizeLabel(s) == s
  {
    NormalizeIsStripLower(s);
    forall i | 0 <= i < |s| ensures Lower(s)[i] == s[i] {
      LowerCharFixesNonUpper(s[i]);
    }
    assert Lower(s) == s;
    StripKeepsClean(s);
  }

  /** Normalising twice is normalising once. */
  lemma NormalizeIdempotent(s: string)
    ensures NormalizeLabel(NormalizeLabel(s)) == NormalizeLabel(s)
  {
    NormalizedIsClean(s);
    CleanIsNormal(NormalizeLabel(s));
  }

  /** The aliases of each canonical field, in the order they are tried. */
  const SeniorityAliases: seq<string> := ["seniority", "nivel", "categoria"]
  const YearsAliases: seq<string> := [
    "yearsofexperience", "years", "experienceyears",
    "a\U{F1}os", "a\U{F1}osdeexperiencia", "aniosdeexperiencia"]
  const AvailabilityAliases: seq<string> := ["availability", "disponible", "disponibilidad"]

  predicate IsWordChar(c: char) {
    'a' <= c <= 'z' || c == '\U{F1}'
  }

  lemma WordIsNormal(a: string)
    requires forall i :: 0 <= i < |a| ==> IsWordChar(a[i])
    ensures NormalizeLabel(a) == a
  {
    forall i | 0 <= i < |a| ensures !IsUpper(a[i]) && !IsSeparator(a[i]) {
      assert IsWordChar(a[i]);
    }
    CleanIsNormal(a);
  }

  /** A plain lower-case word is left alone by both `trim` and `toLowerCase`. */
  lemma WordIsPlain(w: string)
    requires forall i :: 0 <= i < |w| ==> IsWordChar(w[i])
    ensures Trim(w) == w && Lower(w) == w
    ensures Lower(Trim(w)) == w
  {
    TrimOfTrimmed(w);
    forall i | 0 <= i < |w| ensures Lower(w)[i] == w[i] {
      LowerCharFixesNonUpper(w[i]);
    }
  }

  predicate AllWords(list: seq<string>) {
    forall k, i :: 0 <= k < |list| && 0 <= i < |list[k]| ==> IsWordChar(list[k][i])
  }

  lemma WordsAreNormal(list: seq<string>)
    requires AllWords(list)
    ensures forall a :: a in list ==> NormalizeLabel(a) == a
  {
    forall a | a in list ensures NormalizeLabel(a) == a {
      var k :| 0 <= k < |list| && list[k] == a;
      WordIsNormal(a);
    }
  }

  lemma SeniorityAliasesAreWords()
    ensures AllWords(SeniorityAliases)
  {
  }

  lemma YearsAliasesAreWords()
    ensures AllWords(YearsAliases)
  {
  }

  lemma AvailabilityAliasesAreWords()
    ensures AllWords(AvailabilityAliases)
  {
  }

  /** Every alias is a normal label, so a header spelled exactly like an alias
      reaches it. */
  lemma AliasesAreNormal()
    ensures forall a :: a in SeniorityAliases ==> NormalizeLabel(a) == a
    ensures forall a :: a in YearsAliases ==> NormalizeLabel(a) == a
    ensures forall a :: a in AvailabilityAliases ==> NormalizeLabel(a) == a
  {
    SeniorityAliasesAreWords();
    WordsAreNormal(SeniorityAliases);
    YearsAliasesAreWords();
    WordsAreNormal(YearsAliases);
    AvailabilityAliasesAreWords();
    WordsAreNormal(AvailabilityAliases);
  }

  /** No alias serves two fields. */
  lemma AliasesDisjoint()
    ensures forall a :: a in SeniorityAliases ==> a !in YearsAliases && a !in AvailabilityAliases
    ensures forall a :: a in YearsAliases ==> a !in AvailabilityAliases
  {
  }

  /** One alias from each list: none of them belongs to another field. */
  lemma AliasesSeparate(s: string, y: string, a: string)
    requires s in SeniorityAliases && y in YearsAliases && a in AvailabilityAliases
    ensures s !in YearsAliases && s !in AvailabilityAliases
    ensures y !in SeniorityAliases && y !in AvailabilityAliases
    ensures a !in SeniorityAliases && a !in YearsAliases
  {
    AliasesDisjoint();
  }

  /** One header-mode cell with its column label. */
  datatype Column = Column(header: string, cell: Cell)

  /** Object keys are unique. */
  predicate DistinctLabels(row: seq<Column>) {
    forall i, j :: 0 <= i < j < |row| ==> row[i].header != row[j].header
  }

  /** One header-keyed row: the sheet's columns in order, each with its label. */
  type HeaderRow = row: seq<Column> | DistinctLabels(row) witness []

  /** The normalised label of every column, in column order. */
  function Keys(row: seq<Column>): (keys: seq<string>)
    ensures |keys| == |row|
    ensures forall i :: 0 <= i < |row| ==> keys[i] == NormalizeLabel(row[i].header)
  {
    seq(|row|, i requires 0 <= i < |row| => NormalizeLabel(row[i].header))
  }

  /** The source's `map`: normalised label to original label, built column by
      column, so that a later column overwrites an earlier one. */
  function LabelIndex(row: seq<Column>): map<string, string> {
    BuildIndex(Keys(row), row)
  }

  function BuildIndex(keys: seq<string>, row: seq<Column>): map<string, string>
    requires |keys| == |row|
  {
    if |row| == 0 then map[]
    else BuildIndex(keys[..|row| - 1], row[..|row| - 1])[keys[|row| - 1] := row[|row| - 1].header]
  }

  /** Reference reading of a collision: the last position holding `key`. */
  function LastIndexOf(keys: seq<string>, key: string): (r: Option<nat>)
    ensures r.Some? ==> r.value < |keys| && keys[r.value] == key
    ensures r.Some? ==> forall j :: r.value < j < |keys| ==> keys[j] != key
    ensures r.None? ==> forall j :: 0 <= j < |keys| ==> keys[j] != key
  {
    if |keys| == 0 then None
    else if keys[|keys| - 1] == key then Some(|keys| - 1)
    else LastIndexOf(keys[..|keys| - 1], key)
  }

  /** The index agrees with the reference: a key is present exactly when some
      column spells it, and then it names the last such column. */
  lemma {:induction false} BuildIndexKeepsLast(keys: seq<string>, row: seq<Column>, key: string)
    requires |keys| == |row|
    ensures key in BuildIndex(keys, row) <==> LastIndexOf(keys, key).Some?
    ensures key in BuildIndex(keys, row) ==>
      BuildIndex(keys, row)[key] == row[LastIndexOf(keys, key).value].header
    decreases |row|
  {
    if |row| > 0 {
      var n := |row| - 1;
      BuildIndexKeepsLast(keys[..n], row[..n], key);
      if keys[n] != key {
        var r := LastIndexOf(keys[..n], key);
        if r.Some? {
          assert row[r.value] == row[..n][r.value];
        }
      }
    }
  }

  /** `row[label]`: the cell under a label, if the row has one. */
  function Get(row: seq<Column>, key: string): Option<Cell> {
    if |row| == 0 then None
    else if row[0].header == key then Some(row[0].cell)
    else Get(row[1..], key)
  }

  lemma {:induction false} GetFindsColumn(row: HeaderRow, i: nat)
    requires i < |row|
    ensures Get(row, row[i].header) == Some(row[i].cell)
    decreases |row|
  {
    if i > 0 {
      var tail: HeaderRow := row[1..];
      assert row[0].header != row[i].header;
      assert tail[i - 1] == row[i];
      GetFindsColumn(tail, i - 1);
    }
  }

  /** The source's `pick(...aliases)`: the value under the first alias that the
      label index knows. */
  function Pick(row: seq<Column>, index: map<string, string>, aliases: seq<string>): Option<Cell> {
    if |aliases| == 0 then None
    else if aliases[0] in index then Get(row, index[aliases[0]])
    else Pick(row, index, aliases[1..])
  }

  /** Reference reading of alias lookup over the columns' normalised labels:
      the first alias some column spells decides, and of the columns spelling
      it the last one wins. */
  function PickFrom(keys: seq<string>, row: seq<Column>, aliases: seq<string>): (r: Option<Cell>)
    requires |keys| == |row|
    ensures r.None? <==> forall j :: 0 <= j < |keys| ==> keys[j] !in aliases
  {
    if |aliases| == 0 then None
    else match LastIndexOf(keys, aliases[0])
      case Some(i) => Some(row[i].cell)
      case None => PickFrom(keys, row, aliases[1..])
  }

  function PickReference(row: seq<Column>, aliases: seq<string>): Option<Cell> {
    PickFrom(Keys(row), row, aliases)
  }

  lemma {:induction false} PickIsPickFrom(row: HeaderRow, keys: seq<string>, aliases: seq<string>)
    requires keys == Keys(row)
    ensures Pick(row, BuildIndex(keys, row), aliases) == PickFrom(keys, row, aliases)
    decreases |aliases|
  {
    if |aliases| > 0 {
      BuildIndexKeepsLast(keys, row, aliases[0]);
      match LastIndexOf(keys, aliases[0])
      case Some(i) => GetFindsColumn(row, i);
      case None => PickIsPickFrom(row, keys, aliases[1..]);
    }
  }

  /** `pick` over the label index is the reference reading. */
  lemma PickIsReference(row: HeaderRow, aliases: seq<string>)
    ensures Pick(row, LabelIndex(row), aliases) == PickReference(row, aliases)
  {
    PickIsPickFrom(row, Keys(row), aliases);
  }

  /** When exactly one column's label normalises into an alias list, that
      column's cell is picked. */
  lemma {:induction false} PickSoleColumn(keys: seq<string>, row: seq<Column>, aliases: seq<string>, i: nat)
    requires |keys| == |row|
    requires i < |row| && keys[i] in aliases
    requires forall j :: 0 <= j < |row| && j != i ==> keys[j] !in aliases
    ensures PickFrom(keys, row, aliases) == Some(row[i].cell)
    decreases |aliases|
  {
    var r := LastIndexOf(keys, aliases[0]);
    if r.None? {
      assert keys[i] in aliases[1..];
      PickSoleColumn(keys, row, aliases[1..], i);
    }
  }

  /** A run of word characters passes `StripSeparators` untouched. */
  lemma StripWord(a: string)
    requires forall i :: 0 <= i < |a| ==> IsWordChar(a[i])
    ensures StripSeparators(a) == a
  {
    StripKeepsClean(a);
  }

  /** The space after a leading word is dropped and the rest is stripped on. */
  lemma StripSpaceJoin(a: string, t: string)
    requires forall i :: 0 <= i < |a| ==> IsWordChar(a[i])
    ensures StripSeparators(a + [' '] + t) == a + StripSeparators(t)
  {
    var l := a + [' '];
    assert StripSeparators(l) == a by {
      StripWord(a);
      StripAppend(a, [' ']);
      assert StripSeparators([' ']) == [];
      assert a + [] == a;
    }
    StripAppend(l, t);
  }

  /** A label that lower-cases to a plain word normalises to that word. */
  lemma NormalizeToWord(s: string, w: string)
    requires Lower(s) == w
    requires forall i :: 0 <= i < |w| ==> IsWordChar(w[i])
    ensures NormalizeLabel(s) == w
  {
    NormalizeIsStripLower(s);
    StripWord(w);
  }

  /** What `normalizeKeys` yields for one row: each field's raw value, or
      `None` where no column matched (the source's `undefined`). */
  datatype RawFields = RawFields(seniority: Option<Cell>, years: Option<Cell>, availability: Option<Cell>) {
    predicate AnyDefined() {
      seniority.Some? || years.Some? || availability.Some?
    }

    predicate Complete() {
      seniority.Some? && years.Some? && availability.Some?
    }
  }

  /** `normalizeKeys`: resolve the three canonical fields of one row. */
  function NormalizeKeys(row: HeaderRow): RawFields {
    var index := LabelIndex(row);
    RawFields(
      Pick(row, index, SeniorityAliases),
      Pick(row, index, YearsAliases),
      Pick(row, index, AvailabilityAliases))
  }

  /** Each field is the reference pick over its aliases; in particular a field
      is absent exactly when no column label normalises to one of its aliases. */
  lemma NormalizeKeysResolves(row: HeaderRow)
    ensures NormalizeKeys(row).seniority == PickReference(row, SeniorityAliases)
    ensures NormalizeKeys(row).years == PickReference(row, YearsAliases)
    ensures NormalizeKeys(row).availability == PickReference(row, AvailabilityAliases)
  {
    PickIsReference(row, SeniorityAliases);
    PickIsReference(row, YearsAliases);
    PickIsReference(row, AvailabilityAliases);
  }

  /** A record in which exactly one column's label normalises into each alias
      list resolves every field to that column's cell. */
  lemma SoleAliasColumns(row: HeaderRow, i: nat, j: nat, k: nat)
    requires i < |row| && j < |row| && k < |row|
    requires forall m :: 0 <= m < |row| ==>
      (NormalizeLabel(row[m].header) in SeniorityAliases <==> m == i)
    requires forall m :: 0 <= m < |row| ==>
      (NormalizeLabel(row[m].header) in YearsAliases <==> m == j)
    requires forall m :: 0 <= m < |row| ==>
      (NormalizeLabel(row[m].header) in AvailabilityAliases <==> m == k)
    ensures NormalizeKeys(row) == RawFields(Some(row[i].cell), Some(row[j].cell), Some(row[k].cell))
  {
    NormalizeKeysResolves(row);
    var keys := Keys(row);
    PickSoleColumn(keys, row, SeniorityAliases, i);
    PickSoleColumn(keys, row, YearsAliases, j);
    PickSoleColumn(keys, row, AvailabilityAliases, k);
  }

  /** Three columns labelled, in order, with a seniority, a years and an
      availability alias feed those fields. */
  lemma ThreeAliasColumns(row: HeaderRow)
    requires |row| == 3
    requires NormalizeLabel(row[0].header) in SeniorityAliases
    requires NormalizeLabel(row[1].header) in YearsAliases
    requires NormalizeLabel(row[2].header) in AvailabilityAliases
    ensures NormalizeKeys(row) == RawFields(Some(row[0].cell), Some(row[1].cell), Some(row[2].cell))
  {
    var n0, n1, n2 := NormalizeLabel(row[0].header), NormalizeLabel(row[1].header), NormalizeLabel(row[2].header);
    AliasesSeparate(n0, n1, n2);
    forall m | 0 <= m < |row|
      ensures NormalizeLabel(row[m].header) in SeniorityAliases <==> m == 0
      ensures NormalizeLabel(row[m].header) in YearsAliases <==> m == 1
      ensures NormalizeLabel(row[m].header) in AvailabilityAliases <==> m == 2
    {
      if m == 1 {
        assert NormalizeLabel(row[m].header) == n1;
      } else if m == 2 {
        assert NormalizeLabel(row[m].header) == n2;
      }
    }
    SoleAliasColumns(row, 0, 1, 2);
  }
}
