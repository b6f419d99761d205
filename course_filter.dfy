/**
  The desktop explorer's filter engine (`filter_course_list` in uni.py): a
  fixed-order, three-stage, order-preserving selection over course records.

  `Filter` follows the source stage by stage; `Admitted` is the reference
  reading in which every record is judged once against all active stages.
  `FilterIsAdmitted` shows the two agree, and the remaining lemmas derive
  the promised properties (subsequence, exact membership, idempotence,
  distribution over concatenation) from the reference.
 */
module CourseFilter {
  import opened Json
  import opened Sequences

  /** The degree selector's "no filter" entry. */
  const AllDegreeTypes: string := "All Degree Types"

  /** The three filter widgets: search text, the English-only box and the
      degree selector. */
  datatype Criteria = Criteria(searchText: string, englishOnly: bool, degreeType: string)

  /** The search term: the widget text lower-cased, then stripped. */
  function SearchTerm(crit: Criteria): string {
    Strip(Lower(crit.searchText))
  }

  /** One selection stage. */
  datatype Stage = Search(term: string) | EnglishOnly | Degree(name: string)

  /** `isinstance(v, str) and term in v.lower()` for `v = fields.get(key, "")`. */
  predicate FieldContains(fields: map<string, Value>, key: string, term: string) {
    var v := Get(fields, key, Str(""));
    v.Str? && Contains(Lower(v.s), term)
  }

  /** Whether a record survives one stage; every stage drops falsy records. */
  predicate Passes(r: Record, stage: Stage) {
    Truthy(r) &&
    match stage
    case Search(term) =>
      FieldContains(r.fields, "nomeCorsoEn", term) || FieldContains(r.fields, "nomeStruttura", term)
    case EnglishOnly =>
      Get(r.fields, "lingua", Null) == Str("EN")
    case Degree(name) =>
      var t := Get(r.fields, "tipoLaurea", Null);
      t.Obj? && Get(t.fields, "descrizioneEn", Null) == Str(name)
  }

  predicate PassesAll(r: Record, stages: seq<Stage>) {
    forall i | 0 <= i < |stages| :: Passes(r, stages[i])
  }

  /** The records of `cs` that pass every stage in `stages`, in order. */
  function Keep(cs: seq<Record>, stages: seq<Stage>): seq<Record>
    decreases |cs|
  {
    if cs == [] then []
    else
      var last := cs[|cs| - 1];
      Keep(cs[..|cs| - 1], stages) + (if PassesAll(last, stages) then [last] else [])
  }

  /** `filter_course_list`, stage by stage as the source applies them. */
  function Filter(courseList: seq<Record>, crit: Criteria): seq<Record> {
    if courseList == [] then []
    else
      var term := SearchTerm(crit);
      var searched := if term != [] then Keep(courseList, [Search(term)]) else courseList;
      var english := if crit.englishOnly then Keep(searched, [EnglishOnly]) else searched;
      if crit.degreeType != AllDegreeTypes then Keep(english, [Degree(crit.degreeType)]) else english
  }

  /** The stage list of one optional stage. */
  function StageIf(active: bool, stage: Stage): seq<Stage> {
    if active then [stage] else []
  }

  /** The stages a set of criteria switches on, in the source's order. */
  function ActiveStages(crit: Criteria): seq<Stage> {
    var term := SearchTerm(crit);
    StageIf(term != [], Search(term))
    + StageIf(crit.englishOnly, EnglishOnly)
    + StageIf(crit.degreeType != AllDegreeTypes, Degree(crit.degreeType))
  }

  /** A record is admitted when it passes every active stage. */
  predicate Admits(r: Record, crit: Criteria) {
    PassesAll(r, ActiveStages(crit))
  }

  /** Reference selection: each record judged once against all active stages. */
  function Admitted(cs: seq<Record>, crit: Criteria): seq<Record> {
    Keep(cs, ActiveStages(crit))
  }

  // ---------------------------------------------------------------------
  // Keep
  // ---------------------------------------------------------------------

  lemma {:induction false} KeepNoStages(cs: seq<Record>)
    ensures Keep(cs, []) == cs
    decreases |cs|
  {
    if cs != [] {
      KeepNoStages(cs[..|cs| - 1]);
    }
  }

  lemma KeepSnoc(cs: seq<Record>, x: Record, stages: seq<Stage>)
    ensures Keep(cs + [x], stages) == Keep(cs, stages) + (if PassesAll(x, stages) then [x] else [])
  {
    assert (cs + [x])[..|cs|] == cs;
  }

  lemma PassesAllAppend(x: Record, a: seq<Stage>, b: seq<Stage>)
    ensures PassesAll(x, a + b) <==> PassesAll(x, a) && PassesAll(x, b)
  {
    if PassesAll(x, a + b) {
      forall i | 0 <= i < |a| ensures Passes(x, a[i]) {
        assert (a + b)[i] == a[i];
      }
      forall i | 0 <= i < |b| ensures Passes(x, b[i]) {
        assert (a + b)[|a| + i] == b[i];
      }
    }
    if PassesAll(x, a) && PassesAll(x, b) {
      forall i | 0 <= i < |a + b| ensures Passes(x, (a + b)[i]) {
        if i < |a| { assert (a + b)[i] == a[i]; } else { assert (a + b)[i] == b[i - |a|]; }
      }
    }
  }

  lemma PassesAllStageIf(x: Record, active: bool, stage: Stage)
    ensures PassesAll(x, StageIf(active, stage)) <==> (active ==> Passes(x, stage))
  {
    if active { assert StageIf(active, stage)[0] == stage; }
  }

  /** Applying two stage lists one after the other is applying both at once. */
  lemma {:induction false} KeepCompose(cs: seq<Record>, a: seq<Stage>, b: seq<Stage>)
    ensures Keep(Keep(cs, a), b) == Keep(cs, a + b)
    decreases |cs|
  {
    if cs != [] {
      var init, x := cs[..|cs| - 1], cs[|cs| - 1];
      KeepCompose(init, a, b);
      PassesAllAppend(x, a, b);
      assert cs == init + [x];
      KeepSnoc(init, x, a);
      KeepSnoc(init, x, a + b);
      if PassesAll(x, a) {
        KeepSnoc(Keep(init, a), x, b);
      } else {
        assert Keep(cs, a) == Keep(init, a);
      }
    }
  }

  lemma {:induction false} KeepAppend(xs: seq<Record>, ys: seq<Record>, stages: seq<Stage>)
    ensures Keep(xs + ys, stages) == Keep(xs, stages) + Keep(ys, stages)
    decreases |ys|
  {
    if ys != [] {
      var init, y := ys[..|ys| - 1], ys[|ys| - 1];
      KeepAppend(xs, init, stages);
      assert ys == init + [y];
      assert xs + ys == (xs + init) + [y];
      KeepSnoc(xs + init, y, stages);
      KeepSnoc(init, y, stages);
      if PassesAll(y, stages) {
        assert Keep(xs + ys, stages) == Keep(xs, stages) + Keep(init, stages) + [y];
        assert Keep(ys, stages) == Keep(init, stages) + [y];
        assert Keep(xs, stages) + Keep(init, stages) + [y] == Keep(xs, stages) + (Keep(init, stages) + [y]);
      } else {
        assert Keep(xs + ys, stages) == Keep(xs, stages) + Keep(init, stages);
        assert Keep(ys, stages) == Keep(init, stages);
      }
    } else {
      assert xs + ys == xs;
    }
  }

  lemma {:induction false} KeepIdempotent(cs: seq<Record>, stages: seq<Stage>)
    ensures Keep(Keep(cs, stages), stages) == Keep(cs, stages)
    decreases |cs|
  {
    if cs != [] {
      var init, x := cs[..|cs| - 1], cs[|cs| - 1];
      KeepIdempotent(init, stages);
      assert cs == init + [x];
      KeepSnoc(init, x, stages);
      if PassesAll(x, stages) {
        KeepSnoc(Keep(init, stages), x, stages);
      } else {
        assert Keep(cs, stages) == Keep(init, stages);
      }
    }
  }

  lemma {:induction false} KeepSubsequence(cs: seq<Record>, stages: seq<Stage>)
    ensures IsSubsequence(Keep(cs, stages), cs)
    decreases |cs|
  {
    if cs != [] {
      var init, x := cs[..|cs| - 1], cs[|cs| - 1];
      KeepSubsequence(init, stages);
      assert cs == init + [x];
      KeepSnoc(init, x, stages);
      var k := Keep(cs, stages);
      if PassesAll(x, stages) {
        assert k[..|k| - 1] == Keep(init, stages);
      } else {
        assert k == Keep(init, stages);
      }
    }
  }

  lemma {:induction false} KeepMembers(cs: seq<Record>, stages: seq<Stage>, x: Record)
    ensures x in Keep(cs, stages) <==> x in cs && PassesAll(x, stages)
    decreases |cs|
  {
    if cs != [] {
      var init := cs[..|cs| - 1];
      KeepMembers(init, stages, x);
      assert cs == init + [cs[|cs| - 1]];
    }
  }

  // ---------------------------------------------------------------------
  // The filter
  // ---------------------------------------------------------------------

  lemma ThreeStages(cs: seq<Record>, s1: seq<Stage>, s2: seq<Stage>, s3: seq<Stage>)
    ensures Keep(Keep(Keep(cs, s1), s2), s3) == Keep(cs, s1 + s2 + s3)
  {
    KeepCompose(cs, s1, s2);
    KeepCompose(cs, s1 + s2, s3);
  }

  lemma StageIfKeep(cs: seq<Record>, active: bool, stage: Stage)
    ensures Keep(cs, StageIf(active, stage)) == if active then Keep(cs, [stage]) else cs
  {
    KeepNoStages(cs);
  }

  /** The stage-by-stage filter equals the one-pass reference selection. */
  lemma FilterIsAdmitted(cs: seq<Record>, crit: Criteria)
    ensures Filter(cs, crit) == Admitted(cs, crit)
  {
    var term := SearchTerm(crit);
    var s1 := StageIf(term != [], Search(term));
    var s2 := StageIf(crit.englishOnly, EnglishOnly);
    var s3 := StageIf(crit.degreeType != AllDegreeTypes, Degree(crit.degreeType));
    assert ActiveStages(crit) == s1 + s2 + s3;
    if cs != [] {
      StageIfKeep(cs, term != [], Search(term));
      var searched := Keep(cs, s1);
      StageIfKeep(searched, crit.englishOnly, EnglishOnly);
      var english := Keep(searched, s2);
      StageIfKeep(english, crit.degreeType != AllDegreeTypes, Degree(crit.degreeType));
      ThreeStages(cs, s1, s2, s3);
    }
  }

  /** The result keeps the input's order and only drops records. */
  lemma FilterSubsequence(cs: seq<Record>, crit: Criteria)
    ensures IsSubsequence(Filter(cs, crit), cs)
    ensures cs == [] ==> Filter(cs, crit) == []
  {
    FilterIsAdmitted(cs, crit);
    KeepSubsequence(cs, ActiveStages(crit));
  }

  /** A record is in the result exactly when it is in the input and passes
      every active stage. */
  lemma FilterMembers(cs: seq<Record>, crit: Criteria, x: Record)
    ensures x in Filter(cs, crit) <==> x in cs && Admits(x, crit)
  {
    FilterIsAdmitted(cs, crit);
    KeepMembers(cs, ActiveStages(crit), x);
  }

  /** What "passes every active stage" means, stage by stage. */
  lemma AdmitsExactly(r: Record, crit: Criteria)
    ensures Admits(r, crit) <==>
      && (SearchTerm(crit) != [] ==> Passes(r, Search(SearchTerm(crit))))
      && (crit.englishOnly ==> Passes(r, EnglishOnly))
      && (crit.degreeType != AllDegreeTypes ==> Passes(r, Degree(crit.degreeType)))
  {
    var term := SearchTerm(crit);
    var s1 := StageIf(term != [], Search(term));
    var s2 := StageIf(crit.englishOnly, EnglishOnly);
    var s3 := StageIf(crit.degreeType != AllDegreeTypes, Degree(crit.degreeType));
    PassesAllAppend(r, s1 + s2, s3);
    PassesAllAppend(r, s1, s2);
    PassesAllStageIf(r, term != [], Search(term));
    PassesAllStageIf(r, crit.englishOnly, EnglishOnly);
    PassesAllStageIf(r, crit.degreeType != AllDegreeTypes, Degree(crit.degreeType));
  }

  /** The search stage is off exactly when the search text is all
      whitespace: lower-casing turns no character into whitespace or out of
      it. */
  lemma SearchTermBlank(crit: Criteria)
    ensures SearchTerm(crit) == [] <==> forall i :: 0 <= i < |crit.searchText| ==> IsSpace(crit.searchText[i])
  {
    var text := crit.searchText;
    var lowered := Lower(text);
    LowerSpec(text);
    StripSpec(lowered);
    forall i | 0 <= i < |text| ensures IsSpace(lowered[i]) == IsSpace(text[i]) {
      assert lowered[i] == LowerChar(text[i]);
    }
  }

  /** With no active criterion (blank search, English-only off, all degree
      types) the input comes back unchanged. */
  lemma FilterNoCriteria(cs: seq<Record>, crit: Criteria)
    requires forall i :: 0 <= i < |crit.searchText| ==> IsSpace(crit.searchText[i])
    requires !crit.englishOnly && crit.degreeType == AllDegreeTypes
    ensures Filter(cs, crit) == cs
  {
    SearchTermBlank(crit);
  }

  /** Filtering an already filtered list changes nothing. */
  lemma FilterIdempotent(cs: seq<Record>, crit: Criteria)
    ensures Filter(Filter(cs, crit), crit) == Filter(cs, crit)
  {
    FilterIsAdmitted(cs, crit);
    FilterIsAdmitted(Filter(cs, crit), crit);
    KeepIdempotent(cs, ActiveStages(crit));
  }

  /** Filtering a concatenation filters each part: rendering page by page
      selects the same records as filtering the whole list. */
  lemma FilterAppend(xs: seq<Record>, ys: seq<Record>, crit: Criteria)
    ensures Filter(xs + ys, crit) == Filter(xs, crit) + Filter(ys, crit)
  {
    FilterIsAdmitted(xs, crit);
    FilterIsAdmitted(ys, crit);
    FilterIsAdmitted(xs + ys, crit);
    KeepAppend(xs, ys, ActiveStages(crit));
  }
}
