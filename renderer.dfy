/**
  The results table of the desktop explorer: how a filtered list becomes
  numbered rows (`add_filtered_courses_to_tree` in uni.py).

  Record `i` of the list gets number `start + i`. Falsy records and records
  with a value the table cannot show are skipped, and within one list their
  numbers are not reused, so a skip leaves a gap. The next list is numbered
  on from the row count, so across lists a number can repeat
  (`Drainer.NumbersRepeatAcrossPages`).
 */
module Renderer {
  import opened Json

  /** The five table columns: S.No., course name, university, degree type,
      language. */
  datatype Row = Row(sNo: int, name: Value, university: Value, degree: Value, language: Value)

  /** `isinstance(v, (str, int, float))`; Python's `bool` is a subclass of
      `int`, so booleans pass as well. */
  predicate Displayable(v: Value) {
    v.Str? || v.Int? || v.Float? || v.Bool?
  }

  /** The row a record would be shown as under number `sNo`; absent fields
      show as "N/A", and so does the degree when `tipoLaurea` is not a dict. */
  function RowFor(sNo: int, fields: map<string, Value>): Row {
    var degree := Get(fields, "tipoLaurea", Null);
    Row(
      sNo,
      Get(fields, "nomeCorsoEn", Str("N/A")),
      Get(fields, "nomeStruttura", Str("N/A")),
      if degree.Obj? then Get(degree.fields, "descrizioneEn", Str("N/A")) else Str("N/A"),
      Get(fields, "lingua", Str("N/A")))
  }

  /** A record is inserted when it is truthy and every column value of its
      row is displayable (the number always is). */
  predicate Renderable(r: Record) {
    Truthy(r) &&
    var row := RowFor(0, r.fields);
    Displayable(row.name) && Displayable(row.university)
    && Displayable(row.degree) && Displayable(row.language)
  }

  /** The rows inserted for `cs` when numbering starts at `start`. */
  function Rendered(start: int, cs: seq<Record>): seq<Row>
    decreases |cs|
  {
    if cs == [] then []
    else
      var n := |cs| - 1;
      Rendered(start, cs[..n]) + (if Renderable(cs[n]) then [RowFor(start + n, cs[n].fields)] else [])
  }

  /** Every row comes from the record its number points at: row numbers lie
      in `[start, start + |cs|)`, strictly increase, and the record at
      `sNo - start` is renderable and shown as that row. */
  lemma {:induction false} RenderedSound(start: int, cs: seq<Record>)
    ensures |Rendered(start, cs)| <= |cs|
    ensures forall k :: 0 <= k < |Rendered(start, cs)| ==>
      var row := Rendered(start, cs)[k];
      && start <= row.sNo < start + |cs|
      && Renderable(cs[row.sNo - start])
      && row == RowFor(row.sNo, cs[row.sNo - start].fields)
    ensures forall j, k :: 0 <= j < k < |Rendered(start, cs)| ==>
      Rendered(start, cs)[j].sNo < Rendered(start, cs)[k].sNo
    decreases |cs|
  {
    if cs != [] {
      var n := |cs| - 1;
      RenderedSound(start, cs[..n]);
      var init := Rendered(start, cs[..n]);
      var r := Rendered(start, cs);
      assert r[..|init|] == init;
      forall k | 0 <= k < |init|
        ensures cs[r[k].sNo - start] == cs[..n][r[k].sNo - start]
      {
        assert r[k] == init[k];
      }
    }
  }

  /** Every renderable record is shown, under its own number. */
  lemma {:induction false} RenderedComplete(start: int, cs: seq<Record>, i: int)
    requires 0 <= i < |cs| && Renderable(cs[i])
    ensures RowFor(start + i, cs[i].fields) in Rendered(start, cs)
    decreases |cs|
  {
    var n := |cs| - 1;
    if i < n {
      RenderedComplete(start, cs[..n], i);
    }
  }

  /** At most one row per record. */
  lemma {:induction false} RenderedAtMost(start: int, cs: seq<Record>)
    ensures |Rendered(start, cs)| <= |cs|
    decreases |cs|
  {
    if cs != [] {
      RenderedAtMost(start, cs[..|cs| - 1]);
    }
  }

  /** As many rows as records exactly when no record is skipped. */
  lemma {:induction false} RenderedCount(start: int, cs: seq<Record>)
    ensures |Rendered(start, cs)| == |cs| <==> forall i :: 0 <= i < |cs| ==> Renderable(cs[i])
    decreases |cs|
  {
    if cs != [] {
      var n := |cs| - 1;
      var init := cs[..n];
      RenderedCount(start, init);
      RenderedAtMost(start, init);
      if forall i :: 0 <= i < |cs| ==> Renderable(cs[i]) {
        assert forall i :: 0 <= i < n ==> Renderable(init[i]);
      } else if Renderable(cs[n]) {
        var i :| 0 <= i < |cs| && !Renderable(cs[i]);
        assert i < n && !Renderable(init[i]);
      }
    }
  }

  /** Without skipped records the numbers run `start, start + 1, ...` with
      no gap. */
  lemma {:induction false} RenderedNoGap(start: int, cs: seq<Record>)
    requires forall i :: 0 <= i < |cs| ==> Renderable(cs[i])
    ensures |Rendered(start, cs)| == |cs|
    ensures forall k :: 0 <= k < |cs| ==> cs[k].Course? && Rendered(start, cs)[k] == RowFor(start + k, cs[k].fields)
    decreases |cs|
  {
    if cs != [] {
      var n := |cs| - 1;
      var init := cs[..n];
      assert forall i :: 0 <= i < n ==> Renderable(init[i]) by {
        forall i | 0 <= i < n ensures Renderable(init[i]) {
          assert init[i] == cs[i];
        }
      }
      RenderedNoGap(start, init);
      var r := Rendered(start, cs);
      assert r == Rendered(start, init) + [RowFor(start + n, cs[n].fields)];
      forall k | 0 <= k < |cs| ensures cs[k].Course? && r[k] == RowFor(start + k, cs[k].fields) {
        if k < n {
          assert init[k] == cs[k];
        }
      }
    }
  }
}
