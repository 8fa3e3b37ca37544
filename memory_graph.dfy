/**
 * The data preparation of memory_graph.py: the memory-change cells lose
 * their " KB" unit and become numbers, rows outside the scheme and
 * operation allow-lists are dropped, and each (scheme, operation) group is
 * re-indexed from 0, smoothed by a rolling mean and labelled for the
 * enqueue or the dequeue chart.
 *
 * A table is a sequence of rows holding the three columns the script
 * uses, after its renaming of the header.  Numbers are `real`s; pandas'
 * float parsing is modelled on the numerals the benches write, optionally
 * signed decimal integers.
 */
module MemoryGraph {
  import opened Wrappers

  /** A CSV row as read, with the memory change still text such as "-512 KB". */
  datatype RawRow = RawRow(scheme: string, operation: string, memoryChange: string)

  /** A row after line 24: the memory change is a number. */
  datatype Row = Row(scheme: string, operation: string, memoryChange: real)

  /** One plotted series: its legend label, its x values (the index) and its y values. */
  datatype Line = Line(legend: string, index: seq<nat>, memoryChange: seq<real>, smoothed: seq<real>)

  const UNIT: string := " KB"
  const SCHEMES: seq<string> := ["no scheme", "ref_counting", "seize", "crossbeam", "hazard_pointer"]
  const OPERATIONS: seq<string> := ["enqueue", "dequeue"]
  /** The window the script passes. */
  const GRAPH_WINDOW: nat := 10

  // ---------------------------------------------------------------------
  // Line 24: `str.replace(' KB', '')` and `astype(float)`.

  /** `str.replace(pat, '')`: every non-overlapping occurrence of `pat`, scanning left to right, is removed. */
  function RemoveAll(s: string, pat: string): (r: string)
    requires pat != []
    ensures |r| <= |s|
    ensures (forall i :: 0 <= i < |s| ==> s[i] != pat[0]) ==> r == s
    decreases |s|
  {
    if |s| < |pat| then s
    else if s[..|pat|] == pat then RemoveAll(s[|pat|..], pat)
    else [s[0]] + RemoveAll(s[1..], pat)
  }

  predicate IsDigit(c: char) {
    '0' <= c <= '9'
  }

  predicate AllDigits(s: string) {
    forall i :: 0 <= i < |s| ==> IsDigit(s[i])
  }

  /** The value of a string of decimal digits, most significant first. */
  function DigitsValue(s: string): nat
    requires AllDigits(s)
  {
    if s == [] then 0 else 10 * DigitsValue(s[..|s| - 1]) + (s[|s| - 1] as int - '0' as int)
  }

  /** `float(cell)` on an optionally signed integer numeral; anything else raises `ValueError`. */
  function ParseNumber(s: string): (r: Option<real>)
    ensures r.Some? ==> s != [] && IsDigit(s[|s| - 1])
    ensures r.Some? ==> r.value < 0.0 ==> s[0] == '-'
  {
    if |s| > 1 && (s[0] == '-' || s[0] == '+') && AllDigits(s[1..]) then
      var m := DigitsValue(s[1..]) as real;
      Some(if s[0] == '-' then -m else m)
    else if s != [] && AllDigits(s) then Some(DigitsValue(s) as real)
    else None
  }

  /** The number in one memory cell. */
  function ConvertCell(cell: string): (r: Option<real>)
    ensures (forall i :: 0 <= i < |cell| ==> cell[i] != ' ') ==> r == ParseNumber(cell)
  {
    ParseNumber(RemoveAll(cell, UNIT))
  }

  /** Line 24 on the whole column: the first cell that is not a number makes the script fail. */
  function ConvertColumn(rows: seq<RawRow>): (r: Option<seq<Row>>)
    ensures r.Some? <==> forall i :: 0 <= i < |rows| ==> ConvertCell(rows[i].memoryChange).Some?
    ensures r.Some? ==> |r.value| == |rows| && forall i :: 0 <= i < |rows| ==>
      r.value[i] == Row(rows[i].scheme, rows[i].operation, ConvertCell(rows[i].memoryChange).value)
  {
    if rows == [] then Some([])
    else
      match (ConvertCell(rows[0].memoryChange), ConvertColumn(rows[1..]))
      case (Some(x), Some(rest)) => Some([Row(rows[0].scheme, rows[0].operation, x)] + rest)
      case _ => None
  }

  /** Decimal digits of a natural number, as Rust's `{}` writes them. */
  function ShowNat(n: nat): (s: string)
    ensures s != [] && AllDigits(s)
  {
    if n < 10 then [('0' as int + n) as char] else ShowNat(n / 10) + [('0' as int + n % 10) as char]
  }

  /** An `i64` as the benches write it (memory_bench.rs formats it with `{}`). */
  function ShowInt(n: int): (s: string)
    ensures s != [] && (s[0] == '-' <==> n < 0)
    ensures n < 0 ==> |s| > 1 && s[1..] == ShowNat(-n)
    ensures n >= 0 ==> AllDigits(s)
  {
    if n < 0 then "-" + ShowNat(-n) else ShowNat(n)
  }

  lemma {:induction false} DigitsShowNat(n: nat)
    ensures DigitsValue(ShowNat(n)) == n
  {
    if n >= 10 {
      DigitsShowNat(n / 10);
      var s := ShowNat(n);
      assert s[..|s| - 1] == ShowNat(n / 10);
    }
  }

  /** Stripping the unit after a numeral leaves the numeral. */
  lemma {:induction false} RemoveUnitAfter(s: string)
    requires forall i :: 0 <= i < |s| ==> s[i] != ' '
    ensures RemoveAll(s + UNIT, UNIT) == s
    decreases |s|
  {
    if s == [] {
      assert (s + UNIT)[..|UNIT|] == UNIT;
      assert (s + UNIT)[|UNIT|..] == [];
    } else {
      assert (s + UNIT)[..|UNIT|][0] != UNIT[0];
      assert (s + UNIT)[1..] == s[1..] + UNIT;
      RemoveUnitAfter(s[1..]);
    }
  }

  /** Every cell the benches write converts back to the number they measured. */
  lemma CellRoundTrip(n: int)
    ensures ConvertCell(ShowInt(n) + UNIT) == Some(n as real)
  {
    var digits := ShowNat(if n < 0 then -n else n);
    DigitsShowNat(if n < 0 then -n else n);
    assert forall i :: 0 <= i < |digits| ==> digits[i] != ' ' by {
      forall i | 0 <= i < |digits| ensures digits[i] != ' ' {
        assert IsDigit(digits[i]);
      }
    }
    if n < 0 {
      assert ShowInt(n)[1..] == digits;
    }
    RemoveUnitAfter(ShowInt(n));
  }

  /** A concrete cell: "512 KB" becomes 512. */
  lemma CellExample()
    ensures ConvertCell("512 KB") == Some(512.0)
  {
    assert ShowNat(5) == "5";
    assert ShowNat(51) == "51";
    assert ShowInt(512) + UNIT == "512 KB";
    CellRoundTrip(512);
  }

  // ---------------------------------------------------------------------
  // Line 29: the allow-list filter, and line 40: the per-group mask.

  /** `data[data['scheme'].isin(schemes) & data['operation'].isin(operations)]`. */
  function FilterRows(rows: seq<Row>, schemes: seq<string>, operations: seq<string>): (r: seq<Row>)
    ensures |r| <= |rows|
    ensures forall i :: 0 <= i < |r| ==> r[i] in rows && r[i].scheme in schemes && r[i].operation in operations
  {
    if rows == [] then []
    else
      (if rows[0].scheme in schemes && rows[0].operation in operations then [rows[0]] else [])
      + FilterRows(rows[1..], schemes, operations)
  }

  /** A row survives exactly when it was there and both its scheme and its operation are allowed. */
  lemma {:induction false} FilterMembership(rows: seq<Row>, schemes: seq<string>, operations: seq<string>, r: Row)
    ensures r in FilterRows(rows, schemes, operations) <==> r in rows && r.scheme in schemes && r.operation in operations
  {
    if rows != [] {
      FilterMembership(rows[1..], schemes, operations, r);
      assert rows == [rows[0]] + rows[1..];
    }
  }

  /** Filtering a table split in two filters each part: surviving rows keep their relative order. */
  lemma {:induction false} FilterAppend(a: seq<Row>, b: seq<Row>, schemes: seq<string>, operations: seq<string>)
    ensures FilterRows(a + b, schemes, operations) == FilterRows(a, schemes, operations) + FilterRows(b, schemes, operations)
  {
    if a == [] {
      assert a + b == b;
    } else {
      assert (a + b)[1..] == a[1..] + b;
      FilterAppend(a[1..], b, schemes, operations);
    }
  }

  /** `data[(data['scheme'] == scheme) & (data['operation'] == operation)]`. */
  function Subset(rows: seq<Row>, scheme: string, operation: string): (r: seq<Row>)
    ensures |r| <= |rows|
    ensures forall i :: 0 <= i < |r| ==> r[i] in rows && r[i].scheme == scheme && r[i].operation == operation
  {
    FilterRows(rows, [scheme], [operation])
  }

  /**
   * The group mask after the allow-list filter picks the same rows as on
   * the unfiltered table when the pair is allowed, and none otherwise.
   */
  lemma {:induction false} SubsetOfFiltered(rows: seq<Row>, schemes: seq<string>, operations: seq<string>, scheme: string, operation: string)
    ensures Subset(FilterRows(rows, schemes, operations), scheme, operation) ==
      if scheme in schemes && operation in operations then Subset(rows, scheme, operation) else []
  {
    if rows != [] {
      SubsetOfFiltered(rows[1..], schemes, operations, scheme, operation);
      var keep := rows[0].scheme in schemes && rows[0].operation in operations;
      FilterAppend(if keep then [rows[0]] else [], FilterRows(rows[1..], schemes, operations), [scheme], [operation]);
    }
  }

  /** The `memory_change` column of a table. */
  function Column(rows: seq<Row>): (xs: seq<real>)
    ensures |xs| == |rows| && forall i :: 0 <= i < |rows| ==> xs[i] == rows[i].memoryChange
  {
    seq(|rows|, i requires 0 <= i < |rows| => rows[i].memoryChange)
  }

  // ---------------------------------------------------------------------
  // Lines 32-33: `smooth_data`.

  function Sum(s: seq<real>): real {
    if s == [] then 0.0 else Sum(s[..|s| - 1]) + s[|s| - 1]
  }

  /** The first index of the window ending at `i`: the window holds up to `w` points. */
  function WindowStart(i: nat, w: nat): (k: nat)
    requires w >= 1
    ensures k <= i && i + 1 - k <= w
    ensures i + 1 - k == w || k == 0
  {
    if i + 1 >= w then i + 1 - w else 0
  }

  /** `series.rolling(window=w, min_periods=1).mean()`: point `i` is the mean of the last up to `w` points. */
  function SmoothData(xs: seq<real>, w: nat): (r: seq<real>)
    requires w >= 1
    ensures |r| == |xs|
  {
    seq(|xs|, i requires 0 <= i < |xs| =>
      var k := WindowStart(i, w);
      Sum(xs[k..i + 1]) / ((i + 1 - k) as real))
  }

  /** The window grows from one point, so no point is dropped and the first is kept as it is. */
  lemma SmoothFirst(xs: seq<real>, w: nat)
    requires w >= 1 && |xs| > 0
    ensures SmoothData(xs, w)[0] == xs[0]
  {
    assert WindowStart(0, w) == 0;
    assert xs[0..1] == [xs[0]];
    SumSingle(xs[0]);
    assert SmoothData(xs, w)[0] == Sum([xs[0]]) / 1.0;
  }

  lemma SumSingle(x: real)
    ensures Sum([x]) == x
  {
    assert [x][..0] == [];
  }

  lemma {:induction false} SumBounds(s: seq<real>, lo: real, hi: real)
    requires forall i :: 0 <= i < |s| ==> lo <= s[i] <= hi
    ensures (|s| as real) * lo <= Sum(s) <= (|s| as real) * hi
  {
    if s != [] {
      SumBounds(s[..|s| - 1], lo, hi);
    }
  }

  lemma {:induction false} SumFront(s: seq<real>)
    requires s != []
    ensures Sum(s) == s[0] + Sum(s[1..])
  {
    if |s| > 1 {
      SumFront(s[..|s| - 1]);
      assert s[..|s| - 1][1..] == s[1..][..|s| - 2];
    }
  }

  /** Every smoothed point lies between the smallest and the largest raw value. */
  lemma SmoothBounds(xs: seq<real>, w: nat, lo: real, hi: real)
    requires w >= 1
    requires forall i :: 0 <= i < |xs| ==> lo <= xs[i] <= hi
    ensures forall i :: 0 <= i < |xs| ==> lo <= SmoothData(xs, w)[i] <= hi
  {
    forall i | 0 <= i < |xs|
      ensures lo <= SmoothData(xs, w)[i] <= hi
    {
      var k := WindowStart(i, w);
      var n := (i + 1 - k) as real;
      SumBounds(xs[k..i + 1], lo, hi);
      assert n * lo <= Sum(xs[k..i + 1]) <= n * hi;
      DivBounds(Sum(xs[k..i + 1]), n, lo, hi);
    }
  }

  lemma DivBounds(x: real, n: real, lo: real, hi: real)
    requires n > 0.0 && n * lo <= x <= n * hi
    ensures lo <= x / n <= hi
  {
  }

  /** A window of one point smooths nothing. */
  lemma SmoothWindowOne(xs: seq<real>)
    ensures SmoothData(xs, 1) == xs
  {
    forall i | 0 <= i < |xs|
      ensures SmoothData(xs, 1)[i] == xs[i]
    {
      assert WindowStart(i, 1) == i;
      assert xs[i..i + 1] == [xs[i]];
      SumSingle(xs[i]);
      assert SmoothData(xs, 1)[i] == Sum([xs[i]]) / 1.0;
    }
  }

  /**
   * Once the window is full it slides: point `i` is point `i - 1` plus the
   * difference between the value entering and the value leaving, over `w`.
   */
  lemma SmoothSlides(xs: seq<real>, w: nat, i: nat)
    requires w >= 1 && w <= i < |xs|
    ensures SmoothData(xs, w)[i] == SmoothData(xs, w)[i - 1] + (xs[i] - xs[i - w]) / (w as real)
  {
    var a := xs[i - w..i];
    var b := xs[i - w..i + 1];
    assert b[..|b| - 1] == a;
    assert b[1..] == xs[i + 1 - w..i + 1];
    SumFront(b);
    var r := SmoothData(xs, w);
    assert r[i] == Sum(b[1..]) / (w as real);
    assert r[i - 1] == Sum(a) / (w as real);
    assert Sum(b[1..]) == Sum(a) + xs[i] - xs[i - w];
    SlideDiv(Sum(a), xs[i], xs[i - w], w as real);
  }

  lemma SlideDiv(s: real, enter: real, leave: real, w: real)
    requires w > 0.0
    ensures (s + enter - leave) / w == s / w + (enter - leave) / w
  {
  }

  /** While the window grows, point `i` is the running mean of the first `i + 1` values. */
  lemma SmoothGrows(xs: seq<real>, w: nat, i: nat)
    requires w >= 1 && i < w && i < |xs|
    ensures SmoothData(xs, w)[i] == Sum(xs[..i + 1]) / ((i + 1) as real)
  {
    assert xs[0..i + 1] == xs[..i + 1];
  }

  // ---------------------------------------------------------------------
  // Lines 36-46: grouping, re-indexing, smoothing and labelling.

  /** The legend label `f"{scheme} ({operation})"`. */
  function Label(scheme: string, operation: string): (l: string)
    ensures |l| == |scheme| + |operation| + 3
    ensures l[..|scheme|] == scheme && l[|l| - 1] == ')'
  {
    scheme + " (" + operation + ")"
  }

  /** Within one chart, different schemes get different legends. */
  lemma LabelDistinct(scheme1: string, scheme2: string, operation: string)
    requires scheme1 != scheme2
    ensures Label(scheme1, operation) != Label(scheme2, operation)
  {
    var l1, l2 := Label(scheme1, operation), Label(scheme2, operation);
    if |scheme1| == |scheme2| {
      assert l1[..|scheme1|] != l2[..|scheme2|];
    }
  }

  /** `reset_index(drop=True)`: the index of an `n`-row table becomes 0 to n - 1. */
  function ResetIndex(n: nat): (index: seq<nat>)
    ensures |index| == n && forall i :: 0 <= i < n ==> index[i] == i
  {
    seq(n, i requires 0 <= i < n => i)
  }

  /** The series the loop body builds for one (scheme, operation) pair. */
  function MakeLine(data: seq<Row>, scheme: string, operation: string): (l: Line)
    ensures l.legend == Label(scheme, operation)
    ensures |l.index| == |l.memoryChange| == |l.smoothed| == |Subset(data, scheme, operation)|
    ensures forall i :: 0 <= i < |l.index| ==> l.index[i] == i
    ensures forall i :: 0 <= i < |l.memoryChange| ==> l.memoryChange[i] == Subset(data, scheme, operation)[i].memoryChange
    ensures l.smoothed == SmoothData(l.memoryChange, GRAPH_WINDOW)
  {
    var subset := Subset(data, scheme, operation);
    var values := Column(subset);
    Line(Label(scheme, operation), ResetIndex(|subset|), values, SmoothData(values, GRAPH_WINDOW))
  }

  /** The series the inner loop appends to the `target` list for one scheme, over `operations`. */
  function SchemeLines(data: seq<Row>, scheme: string, operations: seq<string>, target: string): seq<Line> {
    if operations == [] then []
    else
      var operation := operations[|operations| - 1];
      SchemeLines(data, scheme, operations[..|operations| - 1], target)
      + (if operation == target then [MakeLine(data, scheme, operation)] else [])
  }

  /** The `target` list after the nested loops over `schemes` and `operations`. */
  function LinesOf(data: seq<Row>, schemes: seq<string>, operations: seq<string>, target: string): seq<Line> {
    if schemes == [] then []
    else
      LinesOf(data, schemes[..|schemes| - 1], operations, target)
      + SchemeLines(data, schemes[|schemes| - 1], operations, target)
  }

  /**
   * The nested loops at lines 38-46: every (scheme, operation) pair, in
   * that order, yields one smoothed, labelled series, appended to
   * `insertLines` for "enqueue" and to `deleteLines` for "dequeue".
   */
  method BuildLines(data: seq<Row>, schemes: seq<string>, operations: seq<string>)
    returns (insertLines: seq<Line>, deleteLines: seq<Line>)
    ensures insertLines == LinesOf(data, schemes, operations, "enqueue")
    ensures deleteLines == LinesOf(data, schemes, operations, "dequeue")
  {
    insertLines, deleteLines := [], [];
    for j := 0 to |schemes|
      invariant insertLines == LinesOf(data, schemes[..j], operations, "enqueue")
      invariant deleteLines == LinesOf(data, schemes[..j], operations, "dequeue")
    {
      var scheme := schemes[j];
      assert schemes[..j + 1][..j] == schemes[..j];
      for m := 0 to |operations|
        invariant insertLines == LinesOf(data, schemes[..j], operations, "enqueue") + SchemeLines(data, scheme, operations[..m], "enqueue")
        invariant deleteLines == LinesOf(data, schemes[..j], operations, "dequeue") + SchemeLines(data, scheme, operations[..m], "dequeue")
      {
        var operation := operations[m];
        assert operations[..m + 1][..m] == operations[..m];
        var subset := Subset(data, scheme, operation);
        var values := Column(subset);
        var line := Line(Label(scheme, operation), ResetIndex(|subset|), values, SmoothData(values, GRAPH_WINDOW));
        if operation == "enqueue" {
          insertLines := insertLines + [line];
        } else if operation == "dequeue" {
          deleteLines := deleteLines + [line];
        }
      }
      assert operations[..|operations|] == operations;
    }
    assert schemes[..|schemes|] == schemes;
  }

  /** With the script's two operations, each scheme contributes exactly its own series to each list. */
  lemma SchemeLinesOperations(data: seq<Row>, scheme: string, target: string)
    requires target in OPERATIONS
    ensures SchemeLines(data, scheme, OPERATIONS, target) == [MakeLine(data, scheme, target)]
  {
    assert OPERATIONS[..1] == ["enqueue"];
    assert OPERATIONS[..1][..0] == [];
    assert "enqueue" != "dequeue" by {
      assert "enqueue"[0] != "dequeue"[0];
    }
    var line := MakeLine(data, scheme, target);
    if target == "enqueue" {
      assert SchemeLines(data, scheme, ["enqueue"], target) == [line];
    } else {
      assert SchemeLines(data, scheme, ["enqueue"], target) == [];
    }
  }

  /**
   * Each chart gets exactly one series per scheme, in the order of
   * `schemes`, labelled "scheme (operation)", holding that group's rows
   * re-indexed from 0 and smoothed; an empty group still yields a series.
   */
  lemma {:induction false} LinesPerScheme(data: seq<Row>, schemes: seq<string>, target: string)
    requires target in OPERATIONS
    ensures var lines := LinesOf(data, schemes, OPERATIONS, target);
      && |lines| == |schemes|
      && forall j :: 0 <= j < |schemes| ==>
           && lines[j] == MakeLine(data, schemes[j], target)
           && lines[j].legend == Label(schemes[j], target)
           && lines[j].memoryChange == Column(Subset(data, schemes[j], target))
           && lines[j].index == ResetIndex(|Subset(data, schemes[j], target)|)
           && lines[j].smoothed == SmoothData(lines[j].memoryChange, GRAPH_WINDOW)
  {
    if schemes != [] {
      var init, last := schemes[..|schemes| - 1], schemes[|schemes| - 1];
      LinesPerScheme(data, init, target);
      SchemeLinesOperations(data, last, target);
      var lines := LinesOf(data, schemes, OPERATIONS, target);
      assert lines == LinesOf(data, init, OPERATIONS, target) + [MakeLine(data, last, target)];
      forall j | 0 <= j < |schemes|
        ensures lines[j] == MakeLine(data, schemes[j], target)
      {
        if j < |init| {
          assert schemes[j] == init[j];
        }
      }
    }
  }

  /**
   * The script from line 24 to line 46: `None` is the `ValueError` a
   * non-numeric memory cell raises; otherwise the two lists of series the
   * charts plot.
   */
  method PrepareLines(raw: seq<RawRow>) returns (r: Option<(seq<Line>, seq<Line>)>)
    ensures r.None? <==> exists i :: 0 <= i < |raw| && ConvertCell(raw[i].memoryChange).None?
    ensures r.Some? ==> |r.value.0| == |SCHEMES| && |r.value.1| == |SCHEMES|
    ensures r.Some? ==> forall j :: 0 <= j < |SCHEMES| ==>
      && r.value.0[j].legend == Label(SCHEMES[j], "enqueue")
      && r.value.1[j].legend == Label(SCHEMES[j], "dequeue")
      && r.value.0[j].memoryChange == Column(Subset(ConvertColumn(raw).value, SCHEMES[j], "enqueue"))
      && r.value.1[j].memoryChange == Column(Subset(ConvertColumn(raw).value, SCHEMES[j], "dequeue"))
    ensures r.Some? ==> forall j :: 0 <= j < |SCHEMES| ==>
      && r.value.0[j].smoothed == SmoothData(r.value.0[j].memoryChange, GRAPH_WINDOW)
      && r.value.0[j].index == ResetIndex(|r.value.0[j].memoryChange|)
      && r.value.1[j].smoothed == SmoothData(r.value.1[j].memoryChange, GRAPH_WINDOW)
      && r.value.1[j].index == ResetIndex(|r.value.1[j].memoryChange|)
  {
    var converted := ConvertColumn(raw);
    if converted.None? {
      return None;
    }
    var data := converted.value;
    data := FilterRows(data, SCHEMES, OPERATIONS);
    var insertLines, deleteLines := BuildLines(data, SCHEMES, OPERATIONS);
    LinesPerScheme(data, SCHEMES, "enqueue");
    LinesPerScheme(data, SCHEMES, "dequeue");
    forall j, op | 0 <= j < |SCHEMES| && op in OPERATIONS
      ensures Subset(data, SCHEMES[j], op) == Subset(converted.value, SCHEMES[j], op)
    {
      SubsetOfFiltered(converted.value, SCHEMES, OPERATIONS, SCHEMES[j], op);
    }
    r := Some((insertLines, deleteLines));
  }
}
