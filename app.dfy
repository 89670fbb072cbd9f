/** The state the page keeps between clicks (`currentData`, app.js:23) and
    the handlers that read or replace it: parse (app.js:184-193), clear
    (app.js:195-203), apply filter (app.js:205-216) and export
    (app.js:218-221). The DOM, the alerts' text, the charts, local storage
    and the download are not modelled; an alert becomes an Alert outcome. */
module App {
  import opened Text
  import opened Numeric
  import opened Csv
  import opened Metrics
  import opened View

  /** The parsed table and its metrics, as `currentData` holds them. */
  datatype Data = Data(headers: seq<string>, rows: seq<seq<string>>, metrics: ClassMetrics)

  /** Why a handler stopped with an alert. */
  datatype Failure = EmptyInput | TooFewColumns | NoData

  datatype Outcome<T> = Done(value: T) | Alert(reason: Failure)

  /** What the parse handler makes of the text box: an alert for a blank
      text or for a header with fewer than two columns (a name and one
      subject), otherwise the table and its metrics. */
  function Load(text: string): Outcome<Data> {
    var trimmed := Trim(text);
    if trimmed == "" then Alert(EmptyInput)
    else
      var t := ParseCSV(trimmed);
      if |t.headers| < 2 then Alert(TooFewColumns)
      else Done(Data(t.headers, t.rows, ComputeMetrics(t.headers, t.rows)))
  }

  /** A blank text is refused as empty; a text accepted has a header of at
      least two columns, at least one data row, one record per row and one
      mark per subject, and class aggregates that bound every student's
      average. */
  lemma LoadOutcome(text: string)
    ensures Load(text) == Alert(EmptyInput) <==> Trim(text) == ""
    ensures Load(text).Done? ==>
      var d := Load(text).value;
      |d.headers| >= 2 && |d.rows| >= 1 &&
      |d.metrics.students| == |d.rows| &&
      |d.metrics.subjectNames| == |d.headers| - 1 &&
      (forall i :: 0 <= i < |d.rows| ==> |d.metrics.students[i].marks| == |d.metrics.subjectNames|) &&
      (forall i :: 0 <= i < |d.rows| ==> d.metrics.lowestAvg <= d.metrics.students[i].avg <= d.metrics.highestAvg) &&
      d.metrics.lowestAvg <= d.metrics.classAvg <= d.metrics.highestAvg
  {
    LoadRefusesBlank(text);
    if Load(text).Done? {
      LoadAccepted(text);
      var d := Load(text).value;
      LoadedMetrics(d.headers, d.rows);
    }
  }

  /** A text that is not blank is refused for too few columns exactly when
      it has fewer than two non-empty lines or its first line has no comma
      outside quotes; otherwise the stored table is what `parseCSV` makes of
      the text, and its metrics are computed from that table. */
  lemma LoadParses(text: string)
    requires Trim(text) != ""
    ensures Load(text) == Alert(TooFewColumns) <==>
      |Lines(text)| < 2 || OutsideCommas(Lines(text)[0]) == 0
    ensures Load(text).Done? ==>
      Load(text).value.headers == ParseCSV(text).headers &&
      Load(text).value.rows == ParseCSV(text).rows &&
      Load(text).value.metrics == ComputeMetrics(ParseCSV(text).headers, ParseCSV(text).rows)
  {
    assert Trim(Trim(text)) == Trim(text);
    assert Lines(Trim(text)) == Lines(text);
    if |Lines(text)| >= 2 {
      FieldCount(Lines(text)[0]);
    }
  }

  /** Only a blank text is refused as empty. */
  lemma LoadRefusesBlank(text: string)
    ensures Load(text) == Alert(EmptyInput) <==> Trim(text) == ""
  {
  }

  /** The data of an accepted text. */
  lemma LoadAccepted(text: string)
    requires Load(text).Done?
    ensures var d := Load(text).value;
      |d.headers| >= 2 && |d.rows| >= 1 &&
      d.metrics == ComputeMetrics(d.headers, d.rows)
  {
    var trimmed := Trim(text);
    var t := ParseCSV(trimmed);
    assert Load(text) == Done(Data(t.headers, t.rows, ComputeMetrics(t.headers, t.rows)));
    assert |t.headers| >= 2;
    assert |Lines(trimmed)| >= 2;
    assert |t.rows| == |Lines(trimmed)| - 1;
  }

  /** The metrics of a table with a header and at least one row: one record
      per row, one subject per header column after the first, one mark per
      subject in every record, and aggregates that bound every average. */
  lemma LoadedMetrics(headers: seq<string>, rows: seq<seq<string>>)
    requires |headers| >= 1 && |rows| >= 1
    ensures var m := ComputeMetrics(headers, rows);
      |m.students| == |rows| &&
      |m.subjectNames| == |headers| - 1 &&
      (forall i :: 0 <= i < |rows| ==> |m.students[i].marks| == |m.subjectNames|) &&
      (forall i :: 0 <= i < |rows| ==> m.lowestAvg <= m.students[i].avg <= m.highestAvg) &&
      m.lowestAvg <= m.classAvg <= m.highestAvg
  {
    RecordShape(headers, rows);
    ClassAggregates(headers, rows);
  }

  class Session {
    /** `currentData`: None until a text is parsed, and after clear. */
    var current: Option<Data>

    constructor()
      ensures current == None
    {
      current := None;
    }

    /** The parse button: an alert leaves the state as it was; otherwise
        the table `parseCSV` makes of the text and its metrics replace it.
        A text that is not blank is refused for too few columns exactly
        when its header line has no comma outside quotes or no data line
        follows it. */
    method Parse(text: string) returns (r: Outcome<ClassMetrics>)
      modifies this
      ensures Load(text).Alert? ==> r == Alert(Load(text).reason) && current == old(current)
      ensures Load(text).Done? ==> current == Some(Load(text).value) && r == Done(Load(text).value.metrics)
      ensures Trim(text) != "" && r.Done? ==>
        current.Some? && current.value.headers == ParseCSV(text).headers &&
        current.value.rows == ParseCSV(text).rows &&
        r.value == ComputeMetrics(ParseCSV(text).headers, ParseCSV(text).rows)
      ensures Trim(text) != "" ==>
        (r == Alert(TooFewColumns) <==> |Lines(text)| < 2 || OutsideCommas(Lines(text)[0]) == 0)
    {
      if Trim(text) != "" {
        LoadParses(text);
      }
      var o := Load(text);
      if o.Done? {
        current := Some(o.value);
        r := Done(o.value.metrics);
      } else {
        r := Alert(o.reason);
      }
    }

    /** The clear button forgets the data. */
    method Clear()
      modifies this
      ensures current == None
    {
      current := None;
    }

    /** The apply-filter button: without data an alert; otherwise the
        metrics with the students replaced by those whose average reaches
        the minimum typed, in the chosen order. Every other field keeps the
        value computed for the whole class, and the stored data is not
        changed. */
    method ApplyFilter(minAvgInput: string, key: SortKey) returns (r: Outcome<ClassMetrics>)
      ensures current.None? ==> r == Alert(NoData)
      ensures current.Some? ==>
        r.Done? && r.value.(students := current.value.metrics.students) == current.value.metrics
      ensures current.Some? && r.Done? ==>
        var kept := AtLeast(current.value.metrics.students, MinAverage(minAvgInput));
        multiset(r.value.students) == multiset(kept) &&
        (forall k :: 0 <= k < |r.value.students| ==> r.value.students[k].avg >= MinAverage(minAvgInput)) &&
        (key == Unsorted ==> r.value.students == kept) &&
        (key == AvgDesc ==> forall p, q :: 0 <= p < q < |r.value.students| ==> r.value.students[p].avg >= r.value.students[q].avg) &&
        (key == AvgAsc ==> forall p, q :: 0 <= p < q < |r.value.students| ==> r.value.students[p].avg <= r.value.students[q].avg)
    {
      if current.None? {
        return Alert(NoData);
      }
      var m := current.value.metrics;
      var students := FilterAndSort(m.students, MinAverage(minAvgInput), key);
      r := Done(m.(students := students));
    }

    /** The export button: without data an alert; otherwise the header and
        the rows joined with commas and line feeds. When every cell is plain
        and no line comes out empty, parsing the export gives the table
        back. */
    method Export() returns (r: Outcome<string>)
      ensures current.None? ==> r == Alert(NoData)
      ensures current.Some? ==> r == Done(Serialize(Table(current.value.headers, current.value.rows)))
      ensures current.Some? && Exportable(Table(current.value.headers, current.value.rows)) ==>
        ParseCSV(r.value) == Table(current.value.headers, current.value.rows)
    {
      if current.None? {
        return Alert(NoData);
      }
      var t := Table(current.value.headers, current.value.rows);
      r := Done(Serialize(t));
      if Exportable(t) {
        ExportRoundTrip(t);
      }
    }
  }
}
