/**
  What one tick of the queue drainer (`check_fetch_queue` in uni.py) does
  to the explorer's state, as functions: `Step` handles one message,
  `Drain` takes messages off the front of the queue until the page budget
  is spent, the queue is empty or `complete` has been handled. The class
  in module Explorer is proved to behave as `Tick`; the lemmas here state
  what a tick guarantees and what a whole fetch run ends in.
 */
module Drainer {
  import opened Json
  import opened CourseFilter
  import opened Renderer
  import opened Fetcher
  import opened Sequences

  /** At most this many non-empty `page_data` messages are handled per tick. */
  const MaxPagesPerTick: nat := 5

  /** The status line, as the counts it reports (the wording is not modelled). */
  datatype Status =
    | Initializing
    | FetchStarted
    | Fetching(page: int, total: nat, shown: nat)
    | Completed(errorCount: nat, total: nat, displayed: nat)
    | Filtered(displayed: nat, total: nat, stillLoading: bool)

  /** The part of the explorer's state a tick reads and writes besides the
      queue: the aggregate list, the loading flag, the progress bar value,
      the table rows and the status line. */
  datatype Ui = Ui(allCourses: seq<Record>, isLoading: bool, progress: int, rows: seq<Row>, status: Status)

  /** The table after `add_filtered_courses_to_tree(courses)`: the matching
      records are appended, numbered on from the current row count. */
  function AddRows(rows: seq<Row>, courses: seq<Record>, crit: Criteria): seq<Row> {
    rows + Rendered(|rows| + 1, Filter(courses, crit))
  }

  /** Row numbers are unique within one list only. A skipped record leaves
      a gap, and the next list is numbered on from the row count, so it
      reuses the number after the gap: page 1 is `[a, r, b]` with `r`'s
      name not displayable, page 2 is `[c]`, and the last two rows are
      both numbered 3. */
  lemma NumbersRepeatAcrossPages()
    ensures var crit := Criteria("", false, AllDegreeTypes);
      var a := Course(map["nomeCorsoEn" := Str("a")]);
      var r := Course(map["nomeCorsoEn" := Null]);
      var b := Course(map["nomeCorsoEn" := Str("b")]);
      var c := Course(map["nomeCorsoEn" := Str("c")]);
      var rows := AddRows(AddRows([], [a, r, b], crit), [c], crit);
      && |rows| == 3
      && rows[0].sNo == 1 && rows[1].sNo == 3 && rows[2].sNo == 3
  {
    var crit := Criteria("", false, AllDegreeTypes);
    var a := Course(map["nomeCorsoEn" := Str("a")]);
    var r := Course(map["nomeCorsoEn" := Null]);
    var b := Course(map["nomeCorsoEn" := Str("b")]);
    var c := Course(map["nomeCorsoEn" := Str("c")]);
    FilterNoCriteria([a, r, b], crit);
    FilterNoCriteria([c], crit);
    assert !Renderable(r);
    assert [a, r, b][..2] == [a, r] && [a, r][..1] == [a] && [a][..0] == [];
    assert [c][..0] == [];
    NamedOnly("a");
    NamedOnly("b");
    NamedOnly("c");
    assert Rendered(1, [a]) == [RowFor(1, a.fields)];
    assert Rendered(1, [a, r]) == [RowFor(1, a.fields)];
    assert Rendered(1, [a, r, b]) == [RowFor(1, a.fields), RowFor(3, b.fields)];
    assert Rendered(3, [c]) == [RowFor(3, c.fields)];
  }

  /** A filter change while a run is still loading is dropped, not
      deferred: the tick of `complete` does not rebuild the table, so it can
      keep rows chosen under criteria no longer in force. Here a row for `a`
      is added with no criteria set, English-only is then switched on (the
      rebuild returns early, as loading is on and the bar is not full), and
      after `complete` the row stays although `a` no longer matches. */
  lemma StaleRowsAfterSkippedFilter()
    ensures var before := Criteria("", false, AllDegreeTypes);
      var after := Criteria("", true, AllDegreeTypes);
      var a := Course(map["nomeCorsoEn" := Str("a")]);
      var s1 := Tick(Ui([], true, 0, [], FetchStarted), [PageData([a])], before).0;
      var s2 := Tick(s1, [Complete([])], after).0;
      && s1.isLoading && s1.progress < TotalPages
      && !s2.isLoading && |s2.rows| == 1
      && Rendered(1, Filter(s2.allCourses, after)) == []
  {
    var before := Criteria("", false, AllDegreeTypes);
    var after := Criteria("", true, AllDegreeTypes);
    var a := Course(map["nomeCorsoEn" := Str("a")]);
    FilterNoCriteria([a], before);
    NamedOnly("a");
    assert [a][..0] == [];
    assert Rendered(1, [a]) == [RowFor(1, a.fields)];
    assert |"lingua"| != |"nomeCorsoEn"|;
    assert Get(a.fields, "lingua", Null) == Null;
    assert !Passes(a, EnglishOnly);
    assert SearchTerm(after) == [];
    assert [EnglishOnly][0] == EnglishOnly;
    assert !PassesAll(a, [EnglishOnly]);
    assert Keep([a], [EnglishOnly]) == Keep([], [EnglishOnly]) + [];
  }

  /** A record holding only a string name is shown, with "N/A" elsewhere. */
  lemma NamedOnly(name: string)
    ensures Renderable(Course(map["nomeCorsoEn" := Str(name)]))
  {
    var f := map["nomeCorsoEn" := Str(name)];
    assert "nomeCorsoEn" in f;
    assert |"nomeStruttura"| != |"nomeCorsoEn"| && |"lingua"| != |"nomeCorsoEn"| && |"tipoLaurea"| != |"nomeCorsoEn"|;
    assert "nomeStruttura" !in f && "lingua" !in f && "tipoLaurea" !in f;
  }

  /** One message handled. */
  function Step(s: Ui, m: Msg, crit: Criteria): Ui {
    match m
    case Complete(errs) =>
      s.(isLoading := false, progress := TotalPages,
         status := Completed(|errs|, |s.allCourses|, |s.rows|))
    case Progress(p) => StatusLine(s.(progress := p))
    case ErrorMsg(_) => StatusLine(s)
    case PageData(cs) =>
      if cs != [] then StatusLine(s.(allCourses := s.allCourses + cs, rows := AddRows(s.rows, cs, crit)))
      else StatusLine(s)
  }

  /** The running status line, refreshed after each message while loading. */
  function StatusLine(s: Ui): Ui {
    if s.isLoading then s.(status := Fetching(s.progress, |s.allCourses|, |s.rows|)) else s
  }

  /** Whether a message uses up one unit of the tick's budget. */
  predicate CountsAgainstBudget(m: Msg) {
    m.PageData? && m.courses != []
  }

  /** Messages taken from the front of `q` with `budget` page units left;
      returns the new state and what is left of the queue. */
  function Drain(s: Ui, q: seq<Msg>, budget: nat, crit: Criteria): (Ui, seq<Msg>)
    decreases |q|
  {
    if budget == 0 || q == [] then (s, q)
    else if q[0].Complete? then (Step(s, q[0], crit), q[1..])
    else Drain(Step(s, q[0], crit), q[1..], if CountsAgainstBudget(q[0]) then budget - 1 else budget, crit)
  }

  /** One timer tick. */
  function Tick(s: Ui, q: seq<Msg>, crit: Criteria): (Ui, seq<Msg>) {
    Drain(s, q, MaxPagesPerTick, crit)
  }

  /** Whether the tick schedules the next one. */
  predicate Reschedules(s: Ui, q: seq<Msg>) {
    s.isLoading || q != []
  }

  /** The number of messages in `msgs` that count against the budget. */
  function PagesIn(msgs: seq<Msg>): nat
    decreases |msgs|
  {
    if msgs == [] then 0 else (if CountsAgainstBudget(msgs[0]) then 1 else 0) + PagesIn(msgs[1..])
  }

  // ---------------------------------------------------------------------
  // One tick
  // ---------------------------------------------------------------------

  /** A tick that has budget left handles the first message and goes on. */
  lemma DrainFirst(s: Ui, q: seq<Msg>, budget: nat, crit: Criteria)
    requires budget > 0 && q != [] && !q[0].Complete?
    ensures Drain(s, q, budget, crit)
      == Drain(Step(s, q[0], crit), q[1..], if CountsAgainstBudget(q[0]) then budget - 1 else budget, crit)
  {
  }

  /** How many messages a tick with `budget` page units takes off `q`. */
  function Taken(q: seq<Msg>, budget: nat): (k: nat)
    ensures k <= |q|
    decreases |q|
  {
    if budget == 0 || q == [] then 0
    else if q[0].Complete? then 1
    else 1 + Taken(q[1..], if CountsAgainstBudget(q[0]) then budget - 1 else budget)
  }

  /** The queue is consumed first in, first out: what a tick leaves is the
      queue minus the messages it took. */
  lemma {:induction false} DrainLeavesSuffix(s: Ui, q: seq<Msg>, budget: nat, crit: Criteria)
    ensures Drain(s, q, budget, crit).1 == q[Taken(q, budget)..]
    decreases |q|
  {
    if budget > 0 && q != [] && !q[0].Complete? {
      var b' := if CountsAgainstBudget(q[0]) then budget - 1 else budget;
      DrainLeavesSuffix(Step(s, q[0], crit), q[1..], b', crit);
      assert q[1..][Taken(q[1..], b')..] == q[Taken(q, budget)..];
    }
  }

  /** A tick handles no more non-empty pages than its budget, handles
      `complete` only as its last message, stops early only when the budget
      is spent or right after `complete`, stops as soon as the budget is
      spent (before its last message the budget was not yet used up), and
      with a budget and a non-empty queue takes at least one message. */
  lemma {:induction false} TakenBounds(q: seq<Msg>, budget: nat)
    ensures var k := Taken(q, budget);
      && PagesIn(q[..k]) <= budget
      && (forall i :: 0 <= i < k - 1 ==> !q[i].Complete?)
      && (k < |q| ==> PagesIn(q[..k]) == budget || (k > 0 && q[k - 1].Complete?))
      && (k > 0 ==> PagesIn(q[..k - 1]) < budget)
      && (budget > 0 && q != [] ==> k > 0)
    decreases |q|
  {
    var k := Taken(q, budget);
    if budget > 0 && q != [] {
      if q[0].Complete? {
        assert q[..k] == [q[0]];
        assert PagesIn(q[..k]) == 0 + PagesIn([]);
        assert q[..k - 1] == [];
      } else {
        var b' := if CountsAgainstBudget(q[0]) then budget - 1 else budget;
        TakenBounds(q[1..], b');
        assert q[..k] == [q[0]] + q[1..][..k - 1];
        assert PagesIn(q[..k]) == (if CountsAgainstBudget(q[0]) then 1 else 0) + PagesIn(q[1..][..k - 1]);
        if k == 1 {
          assert q[..k - 1] == [];
        } else {
          assert q[..k - 1] == [q[0]] + q[1..][..k - 2];
          assert PagesIn(q[..k - 1]) == (if CountsAgainstBudget(q[0]) then 1 else 0) + PagesIn(q[1..][..k - 2]);
        }
      }
    } else {
      assert q[..k] == [];
    }
  }

  /** The records one message carries. */
  lemma PayloadsSingle(m: Msg)
    ensures Payloads([m]) == (if m.PageData? then m.courses else [])
  {
    assert [m][1..] == [];
  }

  /** Only a non-empty `page_data` message touches the list and the table. */
  lemma StepOthers(s: Ui, m: Msg, crit: Criteria)
    requires !CountsAgainstBudget(m)
    ensures Step(s, m, crit).allCourses == s.allCourses && Step(s, m, crit).rows == s.rows
  {
  }

  /** A non-empty `page_data` message appends its records and their rows. */
  lemma StepPage(s: Ui, m: Msg, crit: Criteria)
    requires CountsAgainstBudget(m)
    ensures Step(s, m, crit).allCourses == s.allCourses + m.courses
    ensures s.rows <= Step(s, m, crit).rows
  {
  }

  /** One message adds its records, if any, to the aggregate list and only
      ever appends rows. */
  lemma StepAppends(s: Ui, m: Msg, crit: Criteria)
    ensures Step(s, m, crit).allCourses == s.allCourses + Payloads([m])
    ensures s.rows <= Step(s, m, crit).rows
  {
    PayloadsSingle(m);
    if CountsAgainstBudget(m) {
      StepPage(s, m, crit);
    } else {
      StepOthers(s, m, crit);
      assert Payloads([m]) == [];
      assert s.allCourses + [] == s.allCourses;
    }
  }

  /** The records of the consumed `page_data` messages are appended to the
      aggregate list, in queue order. */
  lemma {:induction false} DrainAppends(s: Ui, q: seq<Msg>, budget: nat, crit: Criteria)
    ensures Drain(s, q, budget, crit).0.allCourses == s.allCourses + Payloads(q[..Taken(q, budget)])
    decreases |q|
  {
    var k := Taken(q, budget);
    if budget == 0 || q == [] {
      assert q[..k] == [];
    } else {
      var s1 := Step(s, q[0], crit);
      StepAppends(s, q[0], crit);
      PayloadsCons(q, k);
      if !q[0].Complete? {
        var b' := if CountsAgainstBudget(q[0]) then budget - 1 else budget;
        DrainAppends(s1, q[1..], b', crit);
        SeqAssoc(s.allCourses, Payloads([q[0]]), Payloads(q[1..][..k - 1]));
      }
    }
  }

  /** The records of a non-empty prefix: those of its first message, then
      those of the rest. */
  lemma PayloadsCons(q: seq<Msg>, k: nat)
    requires 0 < k <= |q|
    ensures Payloads(q[..k]) == Payloads([q[0]]) + Payloads(q[1..][..k - 1])
  {
    assert q[..k] == [q[0]] + q[1..][..k - 1];
    RecordsAppend([q[0]], q[1..][..k - 1]);
  }

  lemma SeqAssoc<T>(a: seq<T>, b: seq<T>, c: seq<T>)
    ensures (a + b) + c == a + (b + c)
  {
  }

  /** A tick only ever appends rows to the table. */
  lemma {:induction false} DrainKeepsRows(s: Ui, q: seq<Msg>, budget: nat, crit: Criteria)
    ensures s.rows <= Drain(s, q, budget, crit).0.rows
    decreases |q|
  {
    if budget > 0 && q != [] {
      StepAppends(s, q[0], crit);
      if !q[0].Complete? {
        var b' := if CountsAgainstBudget(q[0]) then budget - 1 else budget;
        DrainKeepsRows(Step(s, q[0], crit), q[1..], b', crit);
      }
    }
  }

  /** When a tick handles `complete`, loading is over, the progress bar is
      full and the status reports the error count, the aggregate total and
      the displayed count. A tick that does not handle it leaves the
      loading flag as it was. */
  lemma {:induction false} DrainComplete(s: Ui, q: seq<Msg>, budget: nat, crit: Criteria)
    ensures var s' := Drain(s, q, budget, crit).0;
      var k := Taken(q, budget);
      && (k > 0 && q[k - 1].Complete? ==>
            && !s'.isLoading && s'.progress == TotalPages
            && s'.status == Completed(|q[k - 1].errors|, |s'.allCourses|, |s'.rows|))
      && (!(k > 0 && q[k - 1].Complete?) ==> s'.isLoading == s.isLoading)
    decreases |q|
  {
    if budget > 0 && q != [] && !q[0].Complete? {
      var b' := if CountsAgainstBudget(q[0]) then budget - 1 else budget;
      DrainComplete(Step(s, q[0], crit), q[1..], b', crit);
      var k := Taken(q, budget);
      if k > 1 {
        assert q[k - 1] == q[1..][k - 2];
      }
    }
  }

  /** While loading, a message other than `complete` leaves loading on and
      refreshes the running status line from the new counts. */
  lemma StepStatus(s: Ui, m: Msg, crit: Criteria)
    requires s.isLoading && !m.Complete?
    ensures var s' := Step(s, m, crit);
      s'.isLoading && s'.status == Fetching(s'.progress, |s'.allCourses|, |s'.rows|)
  {
  }

  /** A tick during loading that does not end with `complete` leaves the
      running status line: the current page, the records fetched so far and
      the rows displayed. */
  lemma {:induction false} DrainStatus(s: Ui, q: seq<Msg>, budget: nat, crit: Criteria)
    ensures var s' := Drain(s, q, budget, crit).0;
      var k := Taken(q, budget);
      k > 0 && !q[k - 1].Complete? && s.isLoading ==>
        s'.isLoading && s'.status == Fetching(s'.progress, |s'.allCourses|, |s'.rows|)
    decreases |q|
  {
    if budget > 0 && q != [] && !q[0].Complete? && s.isLoading {
      var b' := if CountsAgainstBudget(q[0]) then budget - 1 else budget;
      StepStatus(s, q[0], crit);
      DrainStatus(Step(s, q[0], crit), q[1..], b', crit);
      var k := Taken(q, budget);
      if k > 1 {
        assert q[k - 1] == q[1..][k - 2];
      }
    }
  }

  // ---------------------------------------------------------------------
  // A whole run
  // ---------------------------------------------------------------------

  /** Ticks repeated until the queue is empty, with no further arrivals. */
  function Settle(s: Ui, q: seq<Msg>, crit: Criteria): Ui
    decreases |q|
  {
    if q == [] then s
    else
      TakenBounds(q, MaxPagesPerTick);
      DrainLeavesSuffix(s, q, MaxPagesPerTick, crit);
      var (s', rest) := Tick(s, q, crit);
      Settle(s', rest, crit)
  }

  /** Draining a queue whose only `complete` is its last message. */
  lemma {:induction false} SettleUntilComplete(s: Ui, q: seq<Msg>, crit: Criteria)
    requires q != [] && q[|q| - 1].Complete?
    requires forall i :: 0 <= i < |q| - 1 ==> !q[i].Complete?
    ensures var f := Settle(s, q, crit);
      && f.allCourses == s.allCourses + Payloads(q)
      && !f.isLoading && f.progress == TotalPages
      && f.status == Completed(|q[|q| - 1].errors|, |f.allCourses|, |f.rows|)
    decreases |q|
  {
    var (s', rest) := Tick(s, q, crit);
    var k := Taken(q, MaxPagesPerTick);
    TakenBounds(q, MaxPagesPerTick);
    DrainLeavesSuffix(s, q, MaxPagesPerTick, crit);
    if k == |q| {
      LastTick(s, q, crit);
    } else {
      DrainAppends(s, q, MaxPagesPerTick, crit);
      assert rest == q[k..];
      assert Settle(s, q, crit) == Settle(s', rest, crit);
      assert !q[k - 1].Complete?;
      assert forall i :: 0 <= i < |rest| ==> rest[i] == q[k + i];
      SettleUntilComplete(s', rest, crit);
      PayloadsSplit(q, k);
      SeqAssoc(s.allCourses, Payloads(q[..k]), Payloads(rest));
    }
  }

  /** The records of a queue are those of a prefix, then those of the rest. */
  lemma PayloadsSplit(q: seq<Msg>, k: nat)
    requires k <= |q|
    ensures Payloads(q) == Payloads(q[..k]) + Payloads(q[k..])
  {
    assert q == q[..k] + q[k..];
    RecordsAppend(q[..k], q[k..]);
  }

  /** A tick that takes the whole queue, ending in `complete`, is the last. */
  lemma LastTick(s: Ui, q: seq<Msg>, crit: Criteria)
    requires q != [] && q[|q| - 1].Complete? && Taken(q, MaxPagesPerTick) == |q|
    ensures var f := Settle(s, q, crit);
      && f.allCourses == s.allCourses + Payloads(q)
      && !f.isLoading && f.progress == TotalPages
      && f.status == Completed(|q[|q| - 1].errors|, |f.allCourses|, |f.rows|)
  {
    var (s', rest) := Tick(s, q, crit);
    DrainLeavesSuffix(s, q, MaxPagesPerTick, crit);
    assert rest == [];
    assert Settle(s, q, crit) == s';
    DrainAppends(s, q, MaxPagesPerTick, crit);
    assert q[..|q|] == q;
    DrainComplete(s, q, MaxPagesPerTick, crit);
  }

  /** A whole fetch run drained from a fresh start: every successful page's
      records end up in the aggregate list in page order, loading is over,
      the progress bar is full, the summary counts one error per failed
      page, and the tick chain stops. */
  lemma FetchRunSettles(s: Ui, outcomes: seq<Outcome>, crit: Criteria)
    requires s.allCourses == []
    ensures var f := Settle(s, Transcript(outcomes), crit);
      && f.allCourses == AllCorsi(outcomes)
      && !f.isLoading && f.progress == TotalPages
      && f.status == Completed(|Errors(outcomes)|, |f.allCourses|, |f.rows|)
      && !Reschedules(f, [])
  {
    TranscriptEndsWithComplete(outcomes);
    TranscriptPayloads(outcomes);
    SettleUntilComplete(s, Transcript(outcomes), crit);
  }

  // ---------------------------------------------------------------------
  // The progress bar
  // ---------------------------------------------------------------------

  /** Whether handling `m` sets the progress bar. */
  predicate SetsProgress(m: Msg) {
    m.Progress? || m.Complete?
  }

  /** The value `m` sets the progress bar to: its page, or full for
      `complete`. */
  function Level(m: Msg): int
    requires SetsProgress(m)
  {
    if m.Progress? then m.page else TotalPages
  }

  /** The progress bar after `msgs` are handled from value `p`: the value
      set by the last message that sets one, or `p` if none does. */
  function ProgressAfter(p: int, msgs: seq<Msg>): int
    decreases |msgs|
  {
    if msgs == [] then p
    else
      var last := msgs[|msgs| - 1];
      if SetsProgress(last) then Level(last) else ProgressAfter(p, msgs[..|msgs| - 1])
  }

  /** Every value a message sets is at least `p` and at least every value
      set before it. */
  predicate Rising(p: int, msgs: seq<Msg>) {
    forall j :: 0 <= j < |msgs| && SetsProgress(msgs[j]) ==>
      && p <= Level(msgs[j])
      && forall i :: 0 <= i < j && SetsProgress(msgs[i]) ==> Level(msgs[i]) <= Level(msgs[j])
  }

  lemma {:induction false} ProgressCompose(p: int, a: seq<Msg>, b: seq<Msg>)
    ensures ProgressAfter(p, a + b) == ProgressAfter(ProgressAfter(p, a), b)
    decreases |b|
  {
    if b == [] {
      assert a + b == a;
    } else {
      var n := |b| - 1;
      ProgressCompose(p, a, b[..n]);
      assert (a + b)[..|a + b| - 1] == a + b[..n];
    }
  }

  /** The value after `msgs` is `p` or the value one of them sets. */
  lemma {:induction false} ProgressSource(p: int, msgs: seq<Msg>)
    ensures || ProgressAfter(p, msgs) == p
            || exists k :: 0 <= k < |msgs| && SetsProgress(msgs[k]) && ProgressAfter(p, msgs) == Level(msgs[k])
    decreases |msgs|
  {
    if msgs != [] {
      var n := |msgs| - 1;
      if !SetsProgress(msgs[n]) {
        var init := msgs[..n];
        ProgressSource(p, init);
        if ProgressAfter(p, init) != p {
          var k :| 0 <= k < n && SetsProgress(init[k]) && ProgressAfter(p, init) == Level(init[k]);
          assert init[k] == msgs[k];
        }
      }
    }
  }

  /** Over rising messages the progress bar never goes back: a longer
      prefix handled never shows less. */
  lemma RisingMonotone(p: int, msgs: seq<Msg>, i: nat, j: nat)
    requires Rising(p, msgs) && i <= j <= |msgs|
    ensures ProgressAfter(p, msgs[..i]) <= ProgressAfter(p, msgs[..j])
  {
    var v := ProgressAfter(p, msgs[..i]);
    var mid := msgs[i..j];
    assert msgs[..j] == msgs[..i] + mid;
    ProgressCompose(p, msgs[..i], mid);
    ProgressSource(p, msgs[..i]);
    ProgressSource(v, mid);
    if ProgressAfter(v, mid) != v {
      var k :| 0 <= k < |mid| && SetsProgress(mid[k]) && ProgressAfter(v, mid) == Level(mid[k]);
      assert mid[k] == msgs[i + k];
      if v != p {
        var a :| 0 <= a < i && SetsProgress(msgs[..i][a]) && v == Level(msgs[..i][a]);
        assert msgs[..i][a] == msgs[a];
      }
    }
  }

  /** The messages before `complete` report pages 1..|outcomes| in rising
      order. */
  lemma {:induction false} EmittedRising(outcomes: seq<Outcome>)
    ensures Rising(0, Emitted(outcomes))
    ensures forall j :: 0 <= j < |Emitted(outcomes)| && SetsProgress(Emitted(outcomes)[j]) ==>
      Emitted(outcomes)[j].Progress? && 1 <= Emitted(outcomes)[j].page <= |outcomes|
    decreases |outcomes|
  {
    if outcomes != [] {
      var n := |outcomes| - 1;
      var before := Emitted(outcomes[..n]);
      var block := PageMessages(n + 1, outcomes[n]);
      var e := Emitted(outcomes);
      EmittedRising(outcomes[..n]);
      assert e == before + block;
      assert forall j :: |before| <= j < |e| && SetsProgress(e[j]) ==> e[j] == Progress(n + 1) && j == |e| - 1;
      assert forall j :: 0 <= j < |before| ==> e[j] == before[j];
    }
  }

  /** A whole fetch run's messages are rising from 0. */
  lemma TranscriptRising(outcomes: seq<Outcome>)
    requires |outcomes| <= TotalPages
    ensures Rising(0, Transcript(outcomes))
  {
    EmittedRising(outcomes);
    var e := Emitted(outcomes);
    var t := Transcript(outcomes);
    assert forall j :: 0 <= j < |e| ==> t[j] == e[j];
  }

  lemma StepProgress(s: Ui, m: Msg, crit: Criteria)
    ensures Step(s, m, crit).progress == ProgressAfter(s.progress, [m])
  {
    assert [m][..0] == [];
  }

  /** After a tick the progress bar shows the last value set by the
      messages the tick handled, or what it showed before. */
  lemma {:induction false} DrainProgress(s: Ui, q: seq<Msg>, budget: nat, crit: Criteria)
    ensures Drain(s, q, budget, crit).0.progress == ProgressAfter(s.progress, q[..Taken(q, budget)])
    decreases |q|
  {
    if budget > 0 && q != [] {
      StepProgress(s, q[0], crit);
      if q[0].Complete? {
        assert q[..1] == [q[0]];
      } else {
        var b' := if CountsAgainstBudget(q[0]) then budget - 1 else budget;
        var k := Taken(q, budget);
        DrainProgress(Step(s, q[0], crit), q[1..], b', crit);
        assert q[..k] == [q[0]] + q[1..][..k - 1];
        ProgressCompose(s.progress, [q[0]], q[1..][..k - 1]);
      }
    }
  }

  /** Polling a fetch run's messages from progress 0: after every tick the
      bar shows the last page reported so far (full once `complete` is
      handled), so a tick never moves it back. What the tick leaves on the
      queue is given by `DrainLeavesSuffix`. */
  lemma TickProgress(s: Ui, outcomes: seq<Outcome>, i: nat, crit: Criteria)
    requires |outcomes| <= TotalPages
    requires i <= |Transcript(outcomes)|
    requires s.progress == ProgressAfter(0, Transcript(outcomes)[..i])
    ensures var t := Transcript(outcomes);
      var k := Taken(t[i..], MaxPagesPerTick);
      && i + k <= |t|
      && Tick(s, t[i..], crit).0.progress == ProgressAfter(0, t[..i + k])
      && s.progress <= Tick(s, t[i..], crit).0.progress
  {
    var t := Transcript(outcomes);
    TickFromPrefix(s, t, i, crit);
    TranscriptMonotone(outcomes, i, i + Taken(t[i..], MaxPagesPerTick));
  }

  /** A tick over the rest of a message sequence, from the progress the
      handled prefix left, leaves the progress of the longer prefix. */
  lemma TickFromPrefix(s: Ui, t: seq<Msg>, i: nat, crit: Criteria)
    requires i <= |t| && s.progress == ProgressAfter(0, t[..i])
    ensures var k := Taken(t[i..], MaxPagesPerTick);
      i + k <= |t| && Tick(s, t[i..], crit).0.progress == ProgressAfter(0, t[..i + k])
  {
    var q := t[i..];
    var k := Taken(q, MaxPagesPerTick);
    DrainProgress(s, q, MaxPagesPerTick, crit);
    assert t[..i + k] == t[..i] + q[..k];
    ProgressCompose(0, t[..i], q[..k]);
  }

  /** Over a fetch run's messages the progress bar never goes back. */
  lemma TranscriptMonotone(outcomes: seq<Outcome>, i: nat, j: nat)
    requires |outcomes| <= TotalPages
    requires i <= j <= |Transcript(outcomes)|
    ensures ProgressAfter(0, Transcript(outcomes)[..i]) <= ProgressAfter(0, Transcript(outcomes)[..j])
  {
    TranscriptRising(outcomes);
    RisingMonotone(0, Transcript(outcomes), i, j);
  }

  // ---------------------------------------------------------------------
  // Displayed and fetched counts
  // ---------------------------------------------------------------------

  /** The table shows no more rows than records were fetched, and no status
      line reports more displayed than fetched. */
  predicate Consistent(s: Ui) {
    && |s.rows| <= |s.allCourses|
    && (s.status.Fetching? ==> s.status.shown <= s.status.total)
    && (s.status.Completed? ==> s.status.displayed <= s.status.total)
    && (s.status.Filtered? ==> s.status.displayed <= s.status.total)
  }

  /** Filtering and rendering never yield more rows than records. */
  lemma RenderedFilterAtMost(start: int, cs: seq<Record>, crit: Criteria)
    ensures |Rendered(start, Filter(cs, crit))| <= |cs|
  {
    FilterSubsequence(cs, crit);
    SubsequenceShorter(Filter(cs, crit), cs);
    RenderedAtMost(start, Filter(cs, crit));
  }

  lemma StepConsistent(s: Ui, m: Msg, crit: Criteria)
    requires Consistent(s)
    ensures Consistent(Step(s, m, crit))
  {
    if m.PageData? && m.courses != [] {
      RenderedFilterAtMost(|s.rows| + 1, m.courses, crit);
    }
  }

  /** A tick keeps the counts consistent. */
  lemma {:induction false} DrainConsistent(s: Ui, q: seq<Msg>, budget: nat, crit: Criteria)
    requires Consistent(s)
    ensures Consistent(Drain(s, q, budget, crit).0)
    decreases |q|
  {
    if budget > 0 && q != [] {
      StepConsistent(s, q[0], crit);
      if !q[0].Complete? {
        var b' := if CountsAgainstBudget(q[0]) then budget - 1 else budget;
        DrainConsistent(Step(s, q[0], crit), q[1..], b', crit);
      }
    }
  }
}
