/**
  The desktop explorer (`CourseFinderApp` in uni.py) as a class whose
  fields are the state its methods update in place: the aggregate course
  list, the loading flag, the progress bar value, the rows of the results
  table, the status line, the message queue filled by the fetch thread, the
  three filter widgets and whether a debounced full filter is pending.

  Each method is proved against the functions of modules CourseFilter,
  Renderer and Drainer, so what is proved there about those functions
  holds for the object.
 */
module Explorer {
  import opened Json
  import opened CourseFilter
  import opened Renderer
  import opened Fetcher
  import opened Drainer

  class CourseFinder {
    var allCourses: seq<Record>
    var isLoading: bool
    var progress: int
    var rows: seq<Row>
    var status: Status
    var queue: seq<Msg>
    var criteria: Criteria
    var filterPending: bool

    /** The state a tick of the queue drainer reads and writes, besides the
        queue itself. */
    function View(): Ui
      reads this
    {
      Ui(allCourses, isLoading, progress, rows, status)
    }

    /** Widgets at their defaults, then the fetch is started and the queue
        polled once (it is still empty at that point). */
    constructor ()
      ensures isLoading && progress == 0 && status == FetchStarted
      ensures allCourses == [] && rows == [] && queue == []
      ensures criteria == Criteria("", false, AllDegreeTypes) && !filterPending
      ensures Consistent(View())
    {
      allCourses := [];
      isLoading := false;
      progress := 0;
      rows := [];
      status := Initializing;
      queue := [];
      criteria := Criteria("", false, AllDegreeTypes);
      filterPending := false;
      new;
      var started := StartFetchThread();
      var reschedule := CheckFetchQueue();
    }

    /** Starting a fetch resets the list, the table and the progress bar;
        while a fetch is running it does nothing. The thread itself is
        `RunFetchThread`. */
    method StartFetchThread() returns (started: bool)
      modifies this`isLoading, this`allCourses, this`rows, this`status, this`progress
      ensures started == !old(isLoading)
      ensures started ==> isLoading && allCourses == [] && rows == [] && status == FetchStarted && progress == 0
      ensures !started ==>
        && allCourses == old(allCourses) && rows == old(rows)
        && status == old(status) && progress == old(progress) && isLoading
      ensures old(Consistent(View())) ==> Consistent(View())
    {
      started := !isLoading;
      if started {
        isLoading := true;
        allCourses := [];
        ClearTreeview();
        status := FetchStarted;
        progress := 0;
      }
    }

    /** The fetch thread's whole output, put on the queue one message at a
        time in the order the thread produces it. */
    method RunFetchThread(outcomes: seq<Outcome>)
      requires |outcomes| == TotalPages
      modifies this`queue
      ensures queue == old(queue) + Transcript(outcomes)
    {
      var sent := FetchAllCourses(outcomes);
      for i := 0 to |sent|
        invariant queue == old(queue) + sent[..i]
      {
        assert sent[..i + 1] == sent[..i] + [sent[i]];
        Put(sent[i]);
      }
      assert sent[..|sent|] == sent;
    }

    /** `fetch_queue.put`. */
    method Put(m: Msg)
      modifies this`queue
      ensures queue == old(queue) + [m]
    {
      queue := queue + [m];
    }

    /** One poll of the queue: at most five non-empty pages are handled, and
        `complete` ends the poll. The result says whether another poll is
        scheduled. */
    method CheckFetchQueue() returns (reschedule: bool)
      modifies this`allCourses, this`isLoading, this`progress, this`rows, this`status, this`queue
      ensures (View(), queue) == Tick(old(View()), old(queue), criteria)
      ensures reschedule == Reschedules(View(), queue)
      ensures old(Consistent(View())) ==> Consistent(View())
    {
      ghost var (v0, q0) := (View(), queue);
      ghost var goal := Tick(View(), queue, criteria);
      var processedCount := 0;
      while processedCount < MaxPagesPerTick
        invariant 0 <= processedCount <= MaxPagesPerTick
        invariant Drain(View(), queue, MaxPagesPerTick - processedCount, criteria) == goal
        decreases |queue|
      {
        if queue == [] {
          break;
        }
        ghost var (v, q, b) := (View(), queue, MaxPagesPerTick - processedCount);
        var m := queue[0];
        queue := queue[1..];
        var counted := HandleMessage(m);
        if counted {
          processedCount := processedCount + 1;
        }
        if m.Complete? {
          break;
        }
        DrainFirst(v, q, b, criteria);
      }
      reschedule := isLoading || queue != [];
      if Consistent(v0) {
        DrainConsistent(v0, q0, MaxPagesPerTick, criteria);
      }
    }

    /** The body of the polling loop for one message: a progress message
        moves the bar, an error message is only logged, a non-empty page is
        added to the list and its matching records to the table, and
        `complete` ends loading and writes the summary; while loading, the
        status line is refreshed. The result says whether the message used
        up one unit of the poll's budget. */
    method HandleMessage(m: Msg) returns (counted: bool)
      modifies this`allCourses, this`isLoading, this`progress, this`rows, this`status
      ensures View() == Step(old(View()), m, criteria)
      ensures counted == CountsAgainstBudget(m)
    {
      counted := false;
      match m {
        case Progress(p) => {
          progress := p;
        }
        case ErrorMsg(_) => {
        }
        case PageData(cs) => {
          if cs != [] {
            allCourses := allCourses + cs;
            AddFilteredCoursesToTree(cs);
            counted := true;
          }
        }
        case Complete(errs) => {
          isLoading := false;
          progress := TotalPages;
          status := Completed(|errs|, |allCourses|, |rows|);
          return;
        }
      }
      if isLoading {
        status := Fetching(progress, |allCourses|, |rows|);
      }
    }

    /** Polls repeated until the queue is empty, with no further arrivals. */
    method DrainQueue()
      modifies this`allCourses, this`isLoading, this`progress, this`rows, this`status, this`queue
      ensures queue == [] && View() == Settle(old(View()), old(queue), criteria)
      ensures old(Consistent(View())) ==> Consistent(View())
    {
      while queue != []
        invariant Settle(View(), queue, criteria) == Settle(old(View()), old(queue), criteria)
        invariant old(Consistent(View())) ==> Consistent(View())
        decreases |queue|
      {
        ghost var (v, q) := (View(), queue);
        TakenBounds(q, MaxPagesPerTick);
        DrainLeavesSuffix(v, q, MaxPagesPerTick, criteria);
        var reschedule := CheckFetchQueue();
      }
    }

    /** `filter_course_list` with the object's current widget values. The
        search stage is a loop, the other two stages comprehensions. */
    method FilterCourseList(courseList: seq<Record>) returns (filtered: seq<Record>)
      ensures filtered == Filter(courseList, criteria)
    {
      var searchTerm := Strip(Lower(criteria.searchText));
      if courseList == [] {
        return [];
      }
      filtered := courseList;
      if searchTerm != [] {
        var tempSearch: seq<Record> := [];
        for i := 0 to |filtered|
          invariant tempSearch == Keep(filtered[..i], [Search(searchTerm)])
        {
          var c := filtered[i];
          KeepOneMore(filtered, i, Search(searchTerm));
          if Truthy(c) {
            var cn := Get(c.fields, "nomeCorsoEn", Str(""));
            var un := Get(c.fields, "nomeStruttura", Str(""));
            var nm := cn.Str? && Contains(Lower(cn.s), searchTerm);
            var um := un.Str? && Contains(Lower(un.s), searchTerm);
            SearchMatch(c, searchTerm, nm, um);
            if nm || um {
              tempSearch := tempSearch + [c];
            }
          }
        }
        assert filtered[..|filtered|] == filtered;
        filtered := tempSearch;
      }
      if criteria.englishOnly {
        filtered := Keep(filtered, [EnglishOnly]);
      }
      if criteria.degreeType != AllDegreeTypes {
        filtered := Keep(filtered, [Degree(criteria.degreeType)]);
      }
    }

    /** The matching records of `coursesToAdd` are appended to the table,
        numbered on from the current row count. */
    method AddFilteredCoursesToTree(coursesToAdd: seq<Record>)
      modifies this`rows
      ensures rows == AddRows(old(rows), coursesToAdd, criteria)
    {
      if coursesToAdd == [] {
        assert rows + [] == rows;
        return;
      }
      var matching := FilterCourseList(coursesToAdd);
      if matching == [] {
        assert rows + [] == rows;
        return;
      }
      var startSNo := |rows| + 1;
      ghost var before := rows;
      for i := 0 to |matching|
        invariant rows == before + Rendered(startSNo, matching[..i])
      {
        var course := matching[i];
        RenderedOneMore(startSNo, matching, i);
        if Truthy(course) {
          var vals := RowFor(startSNo + i, course.fields);
          RowCheck(course, vals);
          if Displayable(vals.name) && Displayable(vals.university)
            && Displayable(vals.degree) && Displayable(vals.language)
          {
            rows := rows + [vals];
          }
        }
      }
      assert matching[..|matching|] == matching;
    }

    /** Every row is deleted, one at a time. */
    method ClearTreeview()
      modifies this`rows
      ensures rows == []
    {
      var items := rows;
      for i := 0 to |items|
        invariant rows == items[i..]
      {
        rows := rows[1..];
      }
    }

    /** A widget change cancels any pending full filter and schedules a new
        one; the pending timer is one flag. */
    method ScheduleFilterUpdate()
      modifies this`filterPending
      ensures filterPending
    {
      filterPending := true;
    }

    /** The user edits a filter widget; its write trace schedules a filter. */
    method SetCriteria(c: Criteria)
      modifies this`criteria, this`filterPending
      ensures criteria == c && filterPending
    {
      criteria := c;
      ScheduleFilterUpdate();
    }

    /** The debounced full filter. While pages are still arriving it does
        nothing; otherwise the table is rebuilt from the whole list and
        numbered from 1. */
    method ApplyFullFilter()
      modifies this`rows, this`status, this`filterPending
      ensures !filterPending
      ensures isLoading && progress < TotalPages ==> rows == old(rows) && status == old(status)
      ensures !(isLoading && progress < TotalPages) ==>
        && rows == Rendered(1, Filter(allCourses, criteria))
        && status == Filtered(|rows|, |allCourses|, isLoading)
      ensures !(isLoading && progress < TotalPages) ==> Consistent(View())
      ensures old(Consistent(View())) ==> Consistent(View())
    {
      filterPending := false;
      if isLoading && progress < TotalPages {
        return;
      }
      ClearTreeview();
      var filteredAll := FilterCourseList(allCourses);
      AddFilteredCoursesToTree(filteredAll);
      FilterIdempotent(allCourses, criteria);
      assert [] + Rendered(1, Filter(allCourses, criteria)) == Rendered(1, Filter(allCourses, criteria));
      status := Filtered(|rows|, |allCourses|, isLoading);
      RenderedFilterAtMost(1, allCourses, criteria);
    }
  }

  /** A window opened, the fetch thread run to the end and the queue polled
      until empty: every successful page's records are in the list in page
      order, loading is over, the progress bar is full, the status counts
      one error per failed page, and polling stops. */
  method FullRun(outcomes: seq<Outcome>) returns (app: CourseFinder)
    requires |outcomes| == TotalPages
    ensures app.allCourses == AllCorsi(outcomes)
    ensures !app.isLoading && app.progress == TotalPages && app.queue == []
    ensures app.status == Completed(|Errors(outcomes)|, |app.allCourses|, |app.rows|)
    ensures |app.rows| <= |app.allCourses|
  {
    app := new CourseFinder();
    app.RunFetchThread(outcomes);
    assert app.queue == Transcript(outcomes);
    assert app.View() == Ui([], true, 0, [], FetchStarted);
    app.DrainQueue();
    FetchRunSettles(Ui([], true, 0, [], FetchStarted), outcomes, app.criteria);
  }

  /** One more record judged by a single stage. */
  lemma KeepOneMore(cs: seq<Record>, i: int, stage: Stage)
    requires 0 <= i < |cs|
    ensures Keep(cs[..i + 1], [stage]) == Keep(cs[..i], [stage]) + (if Passes(cs[i], stage) then [cs[i]] else [])
  {
    assert cs[..i + 1][..i] == cs[..i];
    assert PassesAll(cs[i], [stage]) <==> Passes(cs[i], [stage][0]);
  }

  /** The two field tests of the search loop decide the search stage. */
  lemma SearchMatch(c: Record, term: string, nm: bool, um: bool)
    requires Truthy(c)
    requires nm == FieldContains(c.fields, "nomeCorsoEn", term)
    requires um == FieldContains(c.fields, "nomeStruttura", term)
    ensures Passes(c, Search(term)) == (nm || um)
  {
  }

  /** The type check on a row's values decides whether its record is shown. */
  lemma RowCheck(course: Record, vals: Row)
    requires Truthy(course) && vals == RowFor(vals.sNo, course.fields)
    ensures Renderable(course) == (Displayable(vals.name) && Displayable(vals.university)
      && Displayable(vals.degree) && Displayable(vals.language))
  {
  }

  /** One more record rendered. */
  lemma RenderedOneMore(start: int, cs: seq<Record>, i: int)
    requires 0 <= i < |cs|
    ensures Rendered(start, cs[..i + 1])
      == Rendered(start, cs[..i]) + (if Renderable(cs[i]) then [RowFor(start + i, cs[i].fields)] else [])
  {
    assert cs[..i + 1][..i] == cs[..i];
  }

  /** After a full filter every row shows an admitted, displayable record of
      the list: the one at position `sNo` of the filtered list. */
  lemma FullTableSound(all: seq<Record>, crit: Criteria, row: Row)
    requires row in Rendered(1, Filter(all, crit))
    ensures 1 <= row.sNo <= |Filter(all, crit)|
    ensures var x := Filter(all, crit)[row.sNo - 1];
      x in all && Admits(x, crit) && Renderable(x) && row == RowFor(row.sNo, x.fields)
  {
    var f := Filter(all, crit);
    RenderedSound(1, f);
    var k :| 0 <= k < |Rendered(1, f)| && Rendered(1, f)[k] == row;
    FilterMembers(all, crit, f[row.sNo - 1]);
  }

  /** After a full filter every admitted, displayable record of the list
      has a row. */
  lemma FullTableComplete(all: seq<Record>, crit: Criteria, r: Record)
    requires r in all && Admits(r, crit) && Renderable(r)
    ensures exists n :: RowFor(n, r.fields) in Rendered(1, Filter(all, crit))
  {
    var f := Filter(all, crit);
    FilterMembers(all, crit, r);
    var i :| 0 <= i < |f| && f[i] == r;
    RenderedComplete(1, f, i);
  }
}
