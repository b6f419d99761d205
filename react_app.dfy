/**
  The web front end (src/App.js): the `filteredCourses` memo of the
  `CourseFilter` component, the page loop of the provider's
  `fetchAllCourses` effect, and the choice between the loading, error and
  results views.

  Unlike the desktop filter, the memo's callbacks read properties without
  guarding them: a null course, a course whose `nomeCorsoEn` is not a
  string, or one whose `tipoLaurea` is missing or null makes the callback
  throw a TypeError, and with it the whole render. The memo is therefore
  modelled as an `Option`, `None` standing for the throw.
 */
module ReactApp {
  import opened Json
  import opened Sequences
  import Fetcher

  datatype Option<T> = None | Some(value: T)

  /** The provider's `totalPages`. */
  const TotalPages: nat := 575

  /** The component's three filter states. */
  datatype JsCriteria = JsCriteria(searchTerm: string, englishOnly: bool, degreeType: string)

  /** The filter states the component starts with: nothing typed, box
      unticked, the "All Degree Types" option (value ''). */
  const InitialCriteria := JsCriteria("", false, "")

  /** One `.filter` pass of the memo. */
  datatype JsStage = ByName(term: string) | English | ByDegree(name: string)

  /** What one `.filter` callback returns for a course; `None` where it
      throws. Only a string has `toLowerCase`; a property of a missing or
      null `tipoLaurea` cannot be read, while a property of any other
      non-object value reads as `undefined`, which is never the selection. */
  function Verdict(r: Record, stage: JsStage): Option<bool> {
    if r.NullRecord? then None
    else
      match stage
      case ByName(term) =>
        var name := Get(r.fields, "nomeCorsoEn", Null);
        if name.Str? then Some(Contains(Lower(name.s), Lower(term))) else None
      case English =>
        Some(Get(r.fields, "lingua", Null) == Str("EN"))
      case ByDegree(d) =>
        var t := Get(r.fields, "tipoLaurea", Null);
        if t.Null? then None
        else Some(t.Obj? && Get(t.fields, "descrizioneEn", Null) == Str(d))
  }

  /** A course taken through several passes: a pass that throws ends the
      render, a pass that rejects it means later passes never see it. */
  function Through(r: Record, stages: seq<JsStage>): Option<bool>
    decreases |stages|
  {
    if stages == [] then Some(true)
    else
      match Verdict(r, stages[0])
      case None => None
      case Some(keep) => if keep then Through(r, stages[1..]) else Some(false)
  }

  /** The courses of `cs` kept by `stages`, in order; `None` if any callback
      throws. */
  function Sift(cs: seq<Record>, stages: seq<JsStage>): Option<seq<Record>>
    decreases |cs|
  {
    if cs == [] then Some([])
    else
      var n := |cs| - 1;
      match Sift(cs[..n], stages)
      case None => None
      case Some(kept) =>
        match Through(cs[n], stages)
        case None => None
        case Some(keep) => Some(kept + if keep then [cs[n]] else [])
  }

  /** Further passes applied to the outcome of earlier ones. */
  function ThenSift(o: Option<seq<Record>>, stages: seq<JsStage>): Option<seq<Record>> {
    if o.None? then None else Sift(o.value, stages)
  }

  /** The `filteredCourses` memo, pass by pass as the source chains them. */
  function FilteredCourses(courses: seq<Record>, crit: JsCriteria): Option<seq<Record>> {
    var searched := if crit.searchTerm != "" then Sift(courses, [ByName(crit.searchTerm)]) else Some(courses);
    var english := if crit.englishOnly then ThenSift(searched, [English]) else searched;
    if crit.degreeType != "" then ThenSift(english, [ByDegree(crit.degreeType)]) else english
  }

  function StageIf(active: bool, stage: JsStage): seq<JsStage> {
    if active then [stage] else []
  }

  /** The passes a set of filter states switches on, in the source's order. */
  function ActiveStages(crit: JsCriteria): seq<JsStage> {
    StageIf(crit.searchTerm != "", ByName(crit.searchTerm))
    + StageIf(crit.englishOnly, English)
    + StageIf(crit.degreeType != "", ByDegree(crit.degreeType))
  }

  // ---------------------------------------------------------------------
  // Passes
  // ---------------------------------------------------------------------

  /** Running two pass lists one after the other. */
  lemma {:induction false} ThroughAppend(r: Record, a: seq<JsStage>, b: seq<JsStage>)
    ensures Through(r, a + b) ==
      match Through(r, a)
      case None => None
      case Some(keep) => if keep then Through(r, b) else Some(false)
    decreases |a|
  {
    if a != [] {
      assert (a + b)[0] == a[0];
      assert (a + b)[1..] == a[1..] + b;
      ThroughAppend(r, a[1..], b);
    } else {
      assert a + b == b;
    }
  }

  /** A course is kept exactly when every active pass returns true for it. */
  lemma {:induction false} ThroughExactly(r: Record, stages: seq<JsStage>)
    ensures Through(r, stages) == Some(true) <==> forall i :: 0 <= i < |stages| ==> Verdict(r, stages[i]) == Some(true)
    decreases |stages|
  {
    if stages != [] {
      ThroughExactly(r, stages[1..]);
      if Verdict(r, stages[0]) == Some(true) {
        forall i | 1 <= i < |stages| ensures stages[i] == stages[1..][i - 1] {}
      }
    }
  }

  /** Every pass before the `i`-th accepts the course. */
  predicate AcceptedBefore(r: Record, stages: seq<JsStage>, i: int)
    requires 0 <= i <= |stages|
  {
    forall j :: 0 <= j < i ==> Verdict(r, stages[j]) == Some(true)
  }

  /** A course's passes throw exactly when the first pass that does not
      accept it throws. */
  lemma {:induction false} ThroughThrows(r: Record, stages: seq<JsStage>)
    ensures Through(r, stages).None? <==>
      exists i :: 0 <= i < |stages| && Verdict(r, stages[i]).None? && AcceptedBefore(r, stages, i)
    decreases |stages|
  {
    if stages != [] {
      var rest := stages[1..];
      ThroughThrows(r, rest);
      if Verdict(r, stages[0]) == Some(true) {
        forall i | 0 <= i < |rest| && Verdict(r, rest[i]).None? && AcceptedBefore(r, rest, i)
          ensures Verdict(r, stages[i + 1]).None? && AcceptedBefore(r, stages, i + 1)
        {
          forall j | 0 < j < i + 1 ensures Verdict(r, stages[j]) == Some(true) {
            assert stages[j] == rest[j - 1];
          }
        }
        forall i | 0 < i < |stages| && Verdict(r, stages[i]).None? && AcceptedBefore(r, stages, i)
          ensures Verdict(r, rest[i - 1]).None? && AcceptedBefore(r, rest, i - 1)
        {
          forall j | 0 <= j < i - 1 ensures Verdict(r, rest[j]) == Some(true) {
            assert rest[j] == stages[j + 1];
          }
        }
      } else {
        assert AcceptedBefore(r, stages, 0);
      }
    }
  }

  // ---------------------------------------------------------------------
  // Sift
  // ---------------------------------------------------------------------

  /** One more course sifted. */
  lemma SiftSnoc(cs: seq<Record>, x: Record, stages: seq<JsStage>)
    ensures Sift(cs + [x], stages) ==
      match Sift(cs, stages)
      case None => None
      case Some(kept) =>
        match Through(x, stages)
        case None => None
        case Some(keep) => Some(kept + if keep then [x] else [])
  {
    assert (cs + [x])[..|cs|] == cs;
  }

  /** Chained passes are one pass with the lists joined. */
  lemma {:induction false} SiftCompose(cs: seq<Record>, a: seq<JsStage>, b: seq<JsStage>)
    ensures Sift(cs, a + b) == ThenSift(Sift(cs, a), b)
    decreases |cs|
  {
    if cs != [] {
      var n := |cs| - 1;
      var init, x := cs[..n], cs[n];
      assert cs == init + [x];
      SiftCompose(init, a, b);
      ThroughAppend(x, a, b);
      SiftSnoc(init, x, a + b);
      SiftSnoc(init, x, a);
      match Sift(init, a) {
        case None => {
        }
        case Some(k) => {
          assert Sift(init, a + b) == Sift(k, b);
          match Through(x, a) {
            case None => {
            }
            case Some(keep) => {
              if keep {
                assert Sift(cs, a) == Some(k + [x]);
                SiftSnoc(k, x, b);
              } else {
                assert Sift(cs, a) == Some(k + []);
                assert k + [] == k;
                if Sift(k, b).Some? {
                  assert Sift(k, b).value + [] == Sift(k, b).value;
                }
              }
            }
          }
        }
      }
    }
  }

  /** With no passes every course is kept. */
  lemma {:induction false} SiftNoStages(cs: seq<Record>)
    ensures Sift(cs, []) == Some(cs)
    decreases |cs|
  {
    if cs != [] {
      var n := |cs| - 1;
      SiftNoStages(cs[..n]);
      assert cs == cs[..n] + [cs[n]];
    }
  }

  /** A render throws exactly when one course's passes throw. */
  lemma {:induction false} SiftThrows(cs: seq<Record>, stages: seq<JsStage>)
    ensures Sift(cs, stages).None? <==> exists i :: 0 <= i < |cs| && Through(cs[i], stages).None?
    decreases |cs|
  {
    if cs != [] {
      var n := |cs| - 1;
      SiftThrows(cs[..n], stages);
      if exists i :: 0 <= i < n && Through(cs[..n][i], stages).None? {
        var i :| 0 <= i < n && Through(cs[..n][i], stages).None?;
        assert Through(cs[i], stages).None?;
      }
      if exists i :: 0 <= i < |cs| && Through(cs[i], stages).None? {
        var i :| 0 <= i < |cs| && Through(cs[i], stages).None?;
        if i < n {
          assert Through(cs[..n][i], stages).None?;
        }
      }
    }
  }

  /** What is kept is an order-preserving selection of exactly the courses
      every pass accepts. */
  lemma {:induction false} SiftKept(cs: seq<Record>, stages: seq<JsStage>, r: seq<Record>)
    requires Sift(cs, stages) == Some(r)
    ensures IsSubsequence(r, cs)
    ensures forall x :: x in r <==> x in cs && Through(x, stages) == Some(true)
    decreases |cs|
  {
    if cs != [] {
      var n := |cs| - 1;
      var init, last := cs[..n], cs[n];
      var kept := Sift(init, stages).value;
      SiftKept(init, stages, kept);
      assert cs == init + [last];
      assert cs[..|cs| - 1] == init;
      if Through(last, stages) == Some(true) {
        assert r == kept + [last];
        assert r[..|r| - 1] == kept;
      } else {
        assert r == kept;
      }
      forall x ensures x in r <==> x in cs && Through(x, stages) == Some(true) {
        assert x in cs <==> x in init || x == last;
      }
    }
  }

  /** Courses every pass accepts are all kept. */
  lemma {:induction false} SiftAllKept(cs: seq<Record>, stages: seq<JsStage>)
    requires forall i :: 0 <= i < |cs| ==> Through(cs[i], stages) == Some(true)
    ensures Sift(cs, stages) == Some(cs)
    decreases |cs|
  {
    if cs != [] {
      var n := |cs| - 1;
      SiftAllKept(cs[..n], stages);
      assert cs == cs[..n] + [cs[n]];
    }
  }

  // ---------------------------------------------------------------------
  // The memo
  // ---------------------------------------------------------------------

  lemma StageIfSift(o: Option<seq<Record>>, active: bool, stage: JsStage)
    ensures ThenSift(o, StageIf(active, stage)) == if active then ThenSift(o, [stage]) else o
  {
    if !active && o.Some? {
      SiftNoStages(o.value);
    }
  }

  /** The chained memo agrees with one pass over the active stages. */
  lemma FilteredIsSift(cs: seq<Record>, crit: JsCriteria)
    ensures FilteredCourses(cs, crit) == Sift(cs, ActiveStages(crit))
  {
    var s1 := StageIf(crit.searchTerm != "", ByName(crit.searchTerm));
    var s2 := StageIf(crit.englishOnly, English);
    var s3 := StageIf(crit.degreeType != "", ByDegree(crit.degreeType));
    SiftCompose(cs, s1 + s2, s3);
    SiftCompose(cs, s1, s2);
    StageIfSift(Some(cs), crit.searchTerm != "", ByName(crit.searchTerm));
    StageIfSift(Sift(cs, s1), crit.englishOnly, English);
    StageIfSift(Sift(cs, s1 + s2), crit.degreeType != "", ByDegree(crit.degreeType));
  }

  /** The memo throws exactly when some course's active passes throw; a
      course is kept exactly when every active pass accepts it. */
  lemma FilteredThrows(cs: seq<Record>, crit: JsCriteria)
    ensures FilteredCourses(cs, crit).None? <==> exists i :: 0 <= i < |cs| && Through(cs[i], ActiveStages(crit)).None?
  {
    FilteredIsSift(cs, crit);
    SiftThrows(cs, ActiveStages(crit));
  }

  /** The memo's result is an order-preserving selection from `courses`
      holding exactly the courses all active passes accept. */
  lemma FilteredKept(cs: seq<Record>, crit: JsCriteria, r: seq<Record>)
    requires FilteredCourses(cs, crit) == Some(r)
    ensures IsSubsequence(r, cs)
    ensures forall x :: x in r <==> x in cs && forall i :: 0 <= i < |ActiveStages(crit)| ==> Verdict(x, ActiveStages(crit)[i]) == Some(true)
  {
    FilteredIsSift(cs, crit);
    SiftKept(cs, ActiveStages(crit), r);
    forall x ensures Through(x, ActiveStages(crit)) == Some(true) <==>
      forall i :: 0 <= i < |ActiveStages(crit)| ==> Verdict(x, ActiveStages(crit)[i]) == Some(true)
    {
      ThroughExactly(x, ActiveStages(crit));
    }
  }

  /** With the initial filter states the memo returns `courses` itself,
      whatever they hold. */
  lemma FilteredNoCriteria(cs: seq<Record>)
    ensures FilteredCourses(cs, InitialCriteria) == Some(cs)
  {
  }

  /** Filtering the memo's own result again changes nothing. */
  lemma FilteredIdempotent(cs: seq<Record>, crit: JsCriteria, r: seq<Record>)
    requires FilteredCourses(cs, crit) == Some(r)
    ensures FilteredCourses(r, crit) == Some(r)
  {
    FilteredIsSift(cs, crit);
    FilteredIsSift(r, crit);
    SiftKept(cs, ActiveStages(crit), r);
    SiftAllKept(r, ActiveStages(crit));
  }

  /** The search pass keeps a course exactly when its name, lower-cased,
      contains the lower-cased term; only the name is searched. */
  lemma SearchMeaning(r: Record, term: string)
    ensures Verdict(r, ByName(term)) == Some(true) <==>
      r.Course? && "nomeCorsoEn" in r.fields && r.fields["nomeCorsoEn"].Str?
      && Contains(Lower(r.fields["nomeCorsoEn"].s), Lower(term))
    ensures Verdict(r, ByName(term)).None? <==>
      r.NullRecord? || !("nomeCorsoEn" in r.fields && r.fields["nomeCorsoEn"].Str?)
  {
  }

  // ---------------------------------------------------------------------
  // The provider's page loop
  // ---------------------------------------------------------------------

  /** What one page request ended in: the page's `corsi`, or the message of
      the error caught for it. */
  datatype JsPage = Loaded(corsi: seq<Record>) | PageFailed(message: string)

  /** The `error` state after a failed page. */
  datatype PageFailure = PageFailure(page: nat, message: string)

  /** The courses of the loaded pages, in page order. */
  function Gathered(pages: seq<JsPage>): seq<Record>
    decreases |pages|
  {
    if pages == [] then []
    else
      var n := |pages| - 1;
      Gathered(pages[..n]) + if pages[n].Loaded? then pages[n].corsi else []
  }

  /** The number of loaded pages. */
  function LoadedCount(pages: seq<JsPage>): nat
    decreases |pages|
  {
    if pages == [] then 0
    else
      var n := |pages| - 1;
      LoadedCount(pages[..n]) + if pages[n].Loaded? then 1 else 0
  }

  /** The last failure (page `p` has outcome `pages[p - 1]`). */
  function LastFailure(pages: seq<JsPage>): Option<PageFailure>
    decreases |pages|
  {
    if pages == [] then None
    else
      var n := |pages| - 1;
      if pages[n].PageFailed? then Some(PageFailure(n + 1, pages[n].message)) else LastFailure(pages[..n])
  }

  class CourseProvider {
    var courses: seq<Record>
    var loading: bool
    var fetchProgress: int
    var error: Option<PageFailure>

    /** The provider's initial state. */
    constructor ()
      ensures courses == [] && !loading && fetchProgress == 0 && error == None
    {
      courses := [];
      loading := false;
      fetchProgress := 0;
      error := None;
    }

    /** The effect's fetch: every page in order, the courses published once
        at the end. */
    method FetchAllCourses(pages: seq<JsPage>)
      requires |pages| == TotalPages
      modifies this
      ensures courses == Gathered(pages) && fetchProgress == LoadedCount(pages)
      ensures error == LastFailure(pages) && !loading
    {
      loading := true;
      error := None;
      fetchProgress := 0;
      var allCoursesData: seq<Record> := [];
      for page := 1 to TotalPages + 1
        invariant allCoursesData == Gathered(pages[..page - 1])
        invariant fetchProgress == LoadedCount(pages[..page - 1])
        invariant error == LastFailure(pages[..page - 1])
      {
        assert pages[..page][..page - 1] == pages[..page - 1];
        match pages[page - 1] {
          case Loaded(corsi) => {
            allCoursesData := allCoursesData + corsi;
            fetchProgress := fetchProgress + 1;
          }
          case PageFailed(message) => {
            error := Some(PageFailure(page, message));
          }
        }
      }
      assert pages[..TotalPages] == pages;
      courses := allCoursesData;
      loading := false;
    }
  }

  /** Progress counts the loaded pages: at most one per page, and every
      page exactly when none failed. */
  lemma {:induction false} LoadedCountExactly(pages: seq<JsPage>)
    ensures LoadedCount(pages) <= |pages|
    ensures LoadedCount(pages) == |pages| <==> forall i :: 0 <= i < |pages| ==> pages[i].Loaded?
    decreases |pages|
  {
    if pages != [] {
      var n := |pages| - 1;
      LoadedCountExactly(pages[..n]);
      if forall i :: 0 <= i < |pages| ==> pages[i].Loaded? {
        assert forall i :: 0 <= i < n ==> pages[..n][i].Loaded?;
      }
    }
  }

  /** `error` names the last failed page, with its message, and every later
      page loaded; it is empty exactly when no page failed. */
  lemma {:induction false} LastFailureExactly(pages: seq<JsPage>)
    ensures LastFailure(pages).None? <==> forall i :: 0 <= i < |pages| ==> pages[i].Loaded?
    ensures LastFailure(pages).Some? ==>
      var f := LastFailure(pages).value;
      && 1 <= f.page <= |pages| && pages[f.page - 1] == PageFailed(f.message)
      && forall j :: f.page <= j < |pages| ==> pages[j].Loaded?
    decreases |pages|
  {
    if pages != [] {
      var n := |pages| - 1;
      LastFailureExactly(pages[..n]);
      if pages[n].Loaded? {
        if LastFailure(pages).None? {
          assert forall i :: 0 <= i < n ==> pages[..n][i].Loaded?;
        } else {
          var f := LastFailure(pages).value;
          assert pages[f.page - 1] == pages[..n][f.page - 1];
          assert forall j :: f.page <= j < n ==> pages[j] == pages[..n][j];
        }
        if forall i :: 0 <= i < |pages| ==> pages[i].Loaded? {
          assert forall i :: 0 <= i < n ==> pages[..n][i].Loaded?;
        }
      }
    }
  }

  /** No course was gathered exactly when every loaded page was empty. */
  lemma {:induction false} GatheredEmpty(pages: seq<JsPage>)
    ensures Gathered(pages) == [] <==> forall i :: 0 <= i < |pages| && pages[i].Loaded? ==> pages[i].corsi == []
    decreases |pages|
  {
    if pages != [] {
      var n := |pages| - 1;
      var init := pages[..n];
      GatheredEmpty(init);
      assert forall i :: 0 <= i < n ==> init[i] == pages[i];
    }
  }

  /** A web page list and a desktop outcome list describe the same run when
      the same pages succeed with the same courses. */
  predicate SameRun(pages: seq<JsPage>, outcomes: seq<Fetcher.Outcome>) {
    && |pages| == |outcomes|
    && forall i :: 0 <= i < |pages| ==>
      (pages[i].Loaded? <==> outcomes[i].Fetched?)
      && (pages[i].Loaded? ==> pages[i].corsi == outcomes[i].corsi)
  }

  /** Both front ends gather the same list from the same run, the web
      progress counts the pages the desktop reports progress for, and the
      web error is empty exactly when the desktop error list is. */
  lemma {:induction false} SameRunSameCourses(pages: seq<JsPage>, outcomes: seq<Fetcher.Outcome>)
    requires SameRun(pages, outcomes)
    ensures Gathered(pages) == Fetcher.AllCorsi(outcomes)
    ensures LoadedCount(pages) == |Fetcher.FetchedPages(outcomes)|
    ensures LastFailure(pages).None? <==> Fetcher.Errors(outcomes) == []
    decreases |pages|
  {
    if pages != [] {
      var n := |pages| - 1;
      assert SameRun(pages[..n], outcomes[..n]);
      SameRunSameCourses(pages[..n], outcomes[..n]);
      if pages[n].Loaded? && LastFailure(pages).None? {
        assert Fetcher.Errors(outcomes) == Fetcher.Errors(outcomes[..n]);
      }
    }
  }

  // ---------------------------------------------------------------------
  // The view
  // ---------------------------------------------------------------------

  /** The three screens of the component. */
  datatype Screen =
    | LoadingScreen(fetched: int, total: nat, error: Option<PageFailure>)
    | ErrorScreen(failure: PageFailure)
    | ResultsScreen(shown: seq<Record>)

  /** What the component renders; `None` when the memo, which runs on every
      render before the view is chosen, throws. */
  function RenderView(courses: seq<Record>, loading: bool, fetchProgress: int, error: Option<PageFailure>, crit: JsCriteria): Option<Screen> {
    var filtered := FilteredCourses(courses, crit);
    if filtered.None? then None
    else if loading then Some(LoadingScreen(fetchProgress, TotalPages, error))
    else if error.Some? && courses == [] then Some(ErrorScreen(error.value))
    else Some(ResultsScreen(filtered.value))
  }

  /** While loading, the loading screen with progress, total and error is
      shown, unless the memo, which runs first, throws on one of the
      courses. No course is published before the loop ends, so the empty
      list the provider starts with always shows the loading screen. */
  lemma LoadingShown(courses: seq<Record>, fetchProgress: int, error: Option<PageFailure>, crit: JsCriteria)
    ensures var v := RenderView(courses, true, fetchProgress, error, crit);
      && (v.None? <==> exists i :: 0 <= i < |courses| && Through(courses[i], ActiveStages(crit)).None?)
      && (v.Some? ==> v.value == LoadingScreen(fetchProgress, TotalPages, error))
    ensures RenderView([], true, fetchProgress, error, crit) == Some(LoadingScreen(fetchProgress, TotalPages, error))
  {
    FilteredThrows(courses, crit);
    FilteredIsSift([], crit);
  }

  /** After a fetch the error screen is shown exactly when some page failed
      and no loaded page had a course; otherwise the results of the memo are
      shown, unless it throws. */
  lemma ScreenAfterFetch(pages: seq<JsPage>, crit: JsCriteria)
    ensures var v := RenderView(Gathered(pages), false, LoadedCount(pages), LastFailure(pages), crit);
      && (v.Some? && v.value.ErrorScreen? <==>
            (exists i :: 0 <= i < |pages| && pages[i].PageFailed?)
            && forall i :: 0 <= i < |pages| && pages[i].Loaded? ==> pages[i].corsi == [])
      && (v.Some? && v.value.ResultsScreen? <==>
            FilteredCourses(Gathered(pages), crit).Some?
            && ((forall i :: 0 <= i < |pages| ==> pages[i].Loaded?) || Gathered(pages) != []))
      && (v.Some? && v.value.ResultsScreen? ==> Some(v.value.shown) == FilteredCourses(Gathered(pages), crit))
  {
    LastFailureExactly(pages);
    GatheredEmpty(pages);
    FilteredIsSift([], crit);
  }
}
