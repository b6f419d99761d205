/**
  The background fetcher of the desktop explorer (`fetch_all_courses` in
  uni.py). The HTTP request of each page is replaced by its outcome: the
  page's `corsi` list, or the kind of failure that was caught. What the
  thread does with those outcomes is put messages on the queue; the model
  returns that sequence of messages.
 */
module Fetcher {
  import opened Json

  /** Pages 1..TotalPages are requested. */
  const TotalPages: nat := 575

  /** The four exception handlers of the page loop. */
  datatype FetchFailure = Timeout | RequestError | BadJson | Unexpected

  /** What one page request produced. */
  datatype Outcome = Fetched(corsi: seq<Record>) | Failed(failure: FetchFailure)

  /** A failed page as recorded in the error list and in the `error` message
      (the message text itself is not modelled). */
  datatype PageError = PageError(failure: FetchFailure, page: nat)

  /** The queue messages: `page_data`, `progress`, `error`, `complete`. */
  datatype Msg =
    | PageData(courses: seq<Record>)
    | Progress(page: int)
    | ErrorMsg(error: PageError)
    | Complete(errors: seq<PageError>)

  /** The messages put for one page. */
  function PageMessages(page: nat, o: Outcome): seq<Msg> {
    match o
    case Fetched(corsi) => (if corsi != [] then [PageData(corsi)] else []) + [Progress(page)]
    case Failed(f) => [ErrorMsg(PageError(f, page))]
  }

  /** The messages put for pages 1..|outcomes| (page `p` has outcome
      `outcomes[p - 1]`). */
  function Emitted(outcomes: seq<Outcome>): seq<Msg>
    decreases |outcomes|
  {
    if outcomes == [] then []
    else
      var n := |outcomes| - 1;
      Emitted(outcomes[..n]) + PageMessages(n + 1, outcomes[n])
  }

  /** The error list handed over with `complete`. */
  function Errors(outcomes: seq<Outcome>): seq<PageError>
    decreases |outcomes|
  {
    if outcomes == [] then []
    else
      var n := |outcomes| - 1;
      Errors(outcomes[..n]) + (if outcomes[n].Failed? then [PageError(outcomes[n].failure, n + 1)] else [])
  }

  /** Everything one fetch run puts on the queue. */
  function Transcript(outcomes: seq<Outcome>): seq<Msg> {
    Emitted(outcomes) + [Complete(Errors(outcomes))]
  }

  /** The fetch loop: one request per page, in page order, then `complete`. */
  method FetchAllCourses(outcomes: seq<Outcome>) returns (sent: seq<Msg>)
    requires |outcomes| == TotalPages
    ensures sent == Transcript(outcomes)
  {
    var errors: seq<PageError> := [];
    sent := [];
    for page := 1 to TotalPages + 1
      invariant errors == Errors(outcomes[..page - 1])
      invariant sent == Emitted(outcomes[..page - 1])
    {
      OnePageMore(outcomes, page);
      ghost var before := sent;
      match outcomes[page - 1]
      case Fetched(corsi) =>
        if corsi != [] {
          sent := sent + [PageData(corsi)];
        }
        sent := sent + [Progress(page)];
        assert sent == before + PageMessages(page, outcomes[page - 1]);
      case Failed(f) =>
        errors := errors + [PageError(f, page)];
        sent := sent + [ErrorMsg(PageError(f, page))];
    }
    assert outcomes[..TotalPages] == outcomes;
    sent := sent + [Complete(errors)];
  }

  /** Page `page` adds its own messages and error entry to those of the
      pages before it. */
  lemma OnePageMore(outcomes: seq<Outcome>, page: nat)
    requires 1 <= page <= |outcomes|
    ensures Emitted(outcomes[..page]) == Emitted(outcomes[..page - 1]) + PageMessages(page, outcomes[page - 1])
    ensures Errors(outcomes[..page]) == Errors(outcomes[..page - 1])
      + (if outcomes[page - 1].Failed? then [PageError(outcomes[page - 1].failure, page)] else [])
  {
    assert outcomes[..page][..page - 1] == outcomes[..page - 1];
  }

  // ---------------------------------------------------------------------
  // Reading a message sequence
  // ---------------------------------------------------------------------

  /** The records carried by the `page_data` messages, in order. */
  function Payloads(msgs: seq<Msg>): seq<Record>
    decreases |msgs|
  {
    if msgs == [] then []
    else (if msgs[0].PageData? then msgs[0].courses else []) + Payloads(msgs[1..])
  }

  /** The page numbers carried by the `progress` messages, in order. */
  function ProgressPages(msgs: seq<Msg>): seq<int>
    decreases |msgs|
  {
    if msgs == [] then []
    else (if msgs[0].Progress? then [msgs[0].page] else []) + ProgressPages(msgs[1..])
  }

  /** The failures carried by the `error` messages, in order. */
  function ErrorPayloads(msgs: seq<Msg>): seq<PageError>
    decreases |msgs|
  {
    if msgs == [] then []
    else (if msgs[0].ErrorMsg? then [msgs[0].error] else []) + ErrorPayloads(msgs[1..])
  }

  /** The `corsi` of the successful pages, concatenated in page order. */
  function AllCorsi(outcomes: seq<Outcome>): seq<Record>
    decreases |outcomes|
  {
    if outcomes == [] then []
    else
      var n := |outcomes| - 1;
      AllCorsi(outcomes[..n]) + (if outcomes[n].Fetched? then outcomes[n].corsi else [])
  }

  /** The numbers of the successful pages, in increasing order. */
  function FetchedPages(outcomes: seq<Outcome>): seq<int>
    decreases |outcomes|
  {
    if outcomes == [] then []
    else
      var n := |outcomes| - 1;
      FetchedPages(outcomes[..n]) + (if outcomes[n].Fetched? then [n + 1] else [])
  }

  /** Reading a message sequence piece by piece. */
  lemma {:induction false} RecordsAppend(a: seq<Msg>, b: seq<Msg>)
    ensures Payloads(a + b) == Payloads(a) + Payloads(b)
    decreases |a|
  {
    if a == [] {
      assert a + b == b;
    } else {
      RecordsAppend(a[1..], b);
      var head := if a[0].PageData? then a[0].courses else [];
      assert (a + b)[0] == a[0];
      assert (a + b)[1..] == a[1..] + b;
      assert Payloads(a + b) == head + (Payloads(a[1..]) + Payloads(b));
      assert Payloads(a) == head + Payloads(a[1..]);
    }
  }

  lemma {:induction false} PagesAppend(a: seq<Msg>, b: seq<Msg>)
    ensures ProgressPages(a + b) == ProgressPages(a) + ProgressPages(b)
    decreases |a|
  {
    if a == [] {
      assert a + b == b;
    } else {
      PagesAppend(a[1..], b);
      var head := if a[0].Progress? then [a[0].page] else [];
      assert (a + b)[0] == a[0];
      assert (a + b)[1..] == a[1..] + b;
      assert ProgressPages(a + b) == head + (ProgressPages(a[1..]) + ProgressPages(b));
      assert ProgressPages(a) == head + ProgressPages(a[1..]);
    }
  }

  lemma {:induction false} FailuresAppend(a: seq<Msg>, b: seq<Msg>)
    ensures ErrorPayloads(a + b) == ErrorPayloads(a) + ErrorPayloads(b)
    decreases |a|
  {
    if a == [] {
      assert a + b == b;
    } else {
      FailuresAppend(a[1..], b);
      var head := if a[0].ErrorMsg? then [a[0].error] else [];
      assert (a + b)[0] == a[0];
      assert (a + b)[1..] == a[1..] + b;
      assert ErrorPayloads(a + b) == head + (ErrorPayloads(a[1..]) + ErrorPayloads(b));
      assert ErrorPayloads(a) == head + ErrorPayloads(a[1..]);
    }
  }

  // ---------------------------------------------------------------------
  // The protocol
  // ---------------------------------------------------------------------

  /** A run ends with exactly one `complete`, carrying the error list. */
  lemma {:induction false} TranscriptEndsWithComplete(outcomes: seq<Outcome>)
    ensures var t := Transcript(outcomes);
      && t[|t| - 1] == Complete(Errors(outcomes))
      && forall i :: 0 <= i < |t| - 1 ==> !t[i].Complete?
    decreases |outcomes|
  {
    if outcomes != [] {
      var n := |outcomes| - 1;
      TranscriptEndsWithComplete(outcomes[..n]);
      var e := Emitted(outcomes[..n]);
      assert forall i :: 0 <= i < |e| ==> !e[i].Complete? by {
        forall i | 0 <= i < |e| ensures !e[i].Complete? {
          assert e[i] == Transcript(outcomes[..n])[i];
        }
      }
    }
  }

  /** The records sent are exactly the successful pages' records, in
      page order. */
  lemma TranscriptPayloads(outcomes: seq<Outcome>)
    ensures Payloads(Transcript(outcomes)) == AllCorsi(outcomes)
  {
    var tail := [Complete(Errors(outcomes))];
    assert Payloads(tail) == [] + Payloads([]);
    RecordsAppend(Emitted(outcomes), tail);
    EmittedPayloads(outcomes);
  }

  lemma {:induction false} EmittedPayloads(outcomes: seq<Outcome>)
    ensures Payloads(Emitted(outcomes)) == AllCorsi(outcomes)
    decreases |outcomes|
  {
    if outcomes != [] {
      var n := |outcomes| - 1;
      var init := outcomes[..n];
      EmittedPayloads(init);
      var block := PageMessages(n + 1, outcomes[n]);
      RecordsAppend(Emitted(init), block);
      match outcomes[n] {
        case Fetched(corsi) =>
          assert Payloads([Progress(n + 1)]) == [] + Payloads([]);
          if corsi != [] {
            RecordsAppend([PageData(corsi)], [Progress(n + 1)]);
            assert Payloads([PageData(corsi)]) == corsi + Payloads([]);
          } else {
            assert block == [Progress(n + 1)];
          }
        case Failed(f) =>
          assert Payloads(block) == [] + Payloads([]);
      }
    }
  }

  /** `page_data` is only sent for a non-empty page. */
  lemma {:induction false} EmittedPageDataNonEmpty(outcomes: seq<Outcome>)
    ensures forall m :: m in Emitted(outcomes) && m.PageData? ==> m.courses != []
    decreases |outcomes|
  {
    if outcomes != [] {
      var n := |outcomes| - 1;
      EmittedPageDataNonEmpty(outcomes[..n]);
    }
  }

  /** A `progress` message is sent for each successful page and for no
      other, in page order. */
  lemma {:induction false} TranscriptProgress(outcomes: seq<Outcome>)
    ensures ProgressPages(Transcript(outcomes)) == FetchedPages(outcomes)
    decreases |outcomes|
  {
    var t := Transcript(outcomes);
    var tail := [Complete(Errors(outcomes))];
    assert ProgressPages(tail) == [] + ProgressPages([]);
    PagesAppend(Emitted(outcomes), tail);
    EmittedProgress(outcomes);
  }

  lemma {:induction false} EmittedProgress(outcomes: seq<Outcome>)
    ensures ProgressPages(Emitted(outcomes)) == FetchedPages(outcomes)
    decreases |outcomes|
  {
    if outcomes != [] {
      var n := |outcomes| - 1;
      var init := outcomes[..n];
      EmittedProgress(init);
      var block := PageMessages(n + 1, outcomes[n]);
      PagesAppend(Emitted(init), block);
      match outcomes[n]
      case Fetched(corsi) =>
        assert ProgressPages([Progress(n + 1)]) == [n + 1] + ProgressPages([]);
        if corsi != [] {
          PagesAppend([PageData(corsi)], [Progress(n + 1)]);
          assert ProgressPages([PageData(corsi)]) == [] + ProgressPages([]);
        } else {
          assert block == [Progress(n + 1)];
        }
      case Failed(f) =>
        assert ProgressPages(block) == [] + ProgressPages([]);
    }
  }

  /** The successful pages are listed once each, in strictly increasing
      order: progress never goes back, and a failed page neither moves it
      nor stops the pages after it. */
  lemma {:induction false} FetchedPagesExactly(outcomes: seq<Outcome>)
    ensures forall j, k :: 0 <= j < k < |FetchedPages(outcomes)| ==>
      FetchedPages(outcomes)[j] < FetchedPages(outcomes)[k]
    ensures forall p :: p in FetchedPages(outcomes) <==> 1 <= p <= |outcomes| && outcomes[p - 1].Fetched?
    decreases |outcomes|
  {
    if outcomes != [] {
      var n := |outcomes| - 1;
      var init := outcomes[..n];
      FetchedPagesExactly(init);
      var f := FetchedPages(outcomes);
      var fi := FetchedPages(init);
      assert forall k :: 0 <= k < |fi| ==> fi[k] in fi;
      forall p ensures p in f <==> 1 <= p <= |outcomes| && outcomes[p - 1].Fetched? {
        if 1 <= p <= n {
          assert init[p - 1] == outcomes[p - 1];
        }
      }
    }
  }

  /** The `error` messages of a whole run carry the entries of the
      `complete` list, in the same order. */
  lemma {:induction false} TranscriptErrors(outcomes: seq<Outcome>)
    ensures ErrorPayloads(Transcript(outcomes)) == Errors(outcomes)
    decreases |outcomes|
  {
    var tail := [Complete(Errors(outcomes))];
    assert ErrorPayloads(tail) == [] + ErrorPayloads([]);
    FailuresAppend(Emitted(outcomes), tail);
    EmittedErrors(outcomes);
  }

  lemma {:induction false} EmittedErrors(outcomes: seq<Outcome>)
    ensures ErrorPayloads(Emitted(outcomes)) == Errors(outcomes)
    decreases |outcomes|
  {
    if outcomes != [] {
      var n := |outcomes| - 1;
      var init := outcomes[..n];
      EmittedErrors(init);
      var block := PageMessages(n + 1, outcomes[n]);
      FailuresAppend(Emitted(init), block);
      match outcomes[n] {
        case Fetched(corsi) =>
          assert ErrorPayloads([Progress(n + 1)]) == [] + ErrorPayloads([]);
          if corsi != [] {
            FailuresAppend([PageData(corsi)], [Progress(n + 1)]);
            assert ErrorPayloads([PageData(corsi)]) == [] + ErrorPayloads([]);
          } else {
            assert block == [Progress(n + 1)];
          }
        case Failed(f) =>
          assert ErrorPayloads(block) == [PageError(f, n + 1)] + ErrorPayloads([]);
      }
    }
  }

  lemma {:induction false} ErrorsCount(outcomes: seq<Outcome>)
    ensures |Errors(outcomes)| + |FetchedPages(outcomes)| == |outcomes|
    decreases |outcomes|
  {
    if outcomes != [] {
      ErrorsCount(outcomes[..|outcomes| - 1]);
    }
  }

  lemma {:induction false} ErrorsMembers(outcomes: seq<Outcome>)
    ensures forall e :: e in Errors(outcomes) <==>
      1 <= e.page <= |outcomes| && outcomes[e.page - 1] == Failed(e.failure)
    decreases |outcomes|
  {
    if outcomes != [] {
      var n := |outcomes| - 1;
      var init := outcomes[..n];
      ErrorsMembers(init);
      var last := if outcomes[n].Failed? then [PageError(outcomes[n].failure, n + 1)] else [];
      assert Errors(outcomes) == Errors(init) + last;
      forall e ensures e in Errors(outcomes) <==>
        1 <= e.page <= |outcomes| && outcomes[e.page - 1] == Failed(e.failure)
      {
        if 1 <= e.page <= n {
          assert init[e.page - 1] == outcomes[e.page - 1];
        }
      }
    }
  }
}
