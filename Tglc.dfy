/** The classes of the editor: a `Header` shared by the `Line`s read through
    it, and a `File` holding lines, a header and the depth-extent cache. Each
    method is proved to leave the objects in the state that the matching
    function of module Records gives for the values they held before. */
module Tglc {
  import opened Wrappers
  import opened Text
  import opened Records
  import Sorting

  class Header {
    var line: string
    var names: seq<string>
    var nfields: nat
    var fields: map<string, nat>

    ghost function Value(): HeaderValue
      reads this
    {
      HeaderValue(line, names, nfields, fields)
    }

    /** `Header(line)`: the field index is filled in name by name. */
    constructor(text: string)
      ensures Value() == NewHeader(text)
    {
      var l := Strip(text);
      var ns := Split(l, Tab);
      var m: map<string, nat> := map[];
      for i := 0 to |ns|
        invariant m == IndexMap(ns[..i])
      {
        assert ns[..i + 1][..i] == ns[..i];
        m := m[ns[i] := i];
      }
      assert ns[..|ns|] == ns;
      line, names, nfields, fields := l, ns, |ns|, m;
    }

    /** `has_field(name)`. */
    predicate HasField(name: string)
      reads this
    {
      name in fields
    }

    /** `add_field(name)`. */
    method AddField(name: string)
      modifies this
      ensures Value() == old(Value()).AddField(name)
    {
      fields := fields[name := nfields];
      nfields := nfields + 1;
    }
  }

  class Line {
    var header: Header
    var parts: seq<string>

    /** The row this line holds, read through its header's current index. */
    function Row(): Records.Row
      reads this, header
    {
      Records.Row(header.fields, parts)
    }

    /** `Line(header, line)`. */
    constructor(header: Header, text: string)
      ensures this.header == header && parts == Split(Strip(text), Tab)
      ensures Row() == ParseRow(header.fields, text)
    {
      this.header := header;
      parts := Split(Strip(text), Tab);
    }

    /** `get(field)`. */
    function Get(field: string): Result<string, Error>
      reads this, header
    {
      Row().Get(field)
    }

    /** `set(field, value)`. */
    method Set(field: string, value: string) returns (o: Outcome<Error>)
      modifies this
      ensures header == old(header)
      ensures Step(Row(), o) == old(Row()).ChangeStep(field, _ => Ok(value))
    {
      if field !in header.fields {
        return Fail(FieldNotFound(field));
      }
      var i := header.fields[field];
      if i >= |parts| {
        return Fail(MissingValue(field, i, |parts|));
      }
      parts := parts[i := value];
      return Pass;
    }

    /** `change(field, fn)`: when `fn` raises the line is left as it was. */
    method Change(field: string, fn: string -> Result<string, Error>) returns (o: Outcome<Error>)
      modifies this
      ensures header == old(header)
      ensures Step(Row(), o) == old(Row()).ChangeStep(field, fn)
    {
      if field !in header.fields {
        return Fail(FieldNotFound(field));
      }
      var i := header.fields[field];
      if i >= |parts| {
        return Fail(MissingValue(field, i, |parts|));
      }
      var w := fn(parts[i]);
      if w.Err? {
        return Fail(w.error);
      }
      parts := parts[i := w.value];
      return Pass;
    }

    /** `to_string()`. */
    function ToString(): string
      reads this, header
    {
      Row().ToString()
    }

    /** `get_depth()`, in hundredths. */
    function Depth(): Result<int, Error>
      reads this, header
    {
      Row().Depth()
    }

    /** `flip()`: Y corr, then Z corr; a failure on Z corr leaves Y corr flipped. */
    method Flip(negate: string -> Result<string, Error>) returns (o: Outcome<Error>)
      modifies this
      ensures header == old(header)
      ensures Step(Row(), o) == old(Row()).Flip(negate)
    {
      o := Change(YCorr, negate);
      if o.Fail? {
        return;
      }
      o := Change(ZCorr, negate);
    }

    /** The inner loop of `chop_fields`: `get(field)` for each name in turn. */
    method Gather(names: seq<string>) returns (r: Result<seq<string>, Error>)
      ensures r == GetAll(Row(), names)
    {
      var vs: seq<string> := [];
      for k := 0 to |names|
        invariant GetAll(Row(), names[..k]) == Ok(vs)
      {
        var v := Get(names[k]);
        GetAllExtend(Row(), names, k);
        if v.Err? {
          GetAllAfterFailure(Row(), names, k + 1);
          return Err(v.error);
        }
        vs := vs + [v.value];
      }
      assert names[..|names|] == names;
      return Ok(vs);
    }

    /** One line of `chop_fields`: the values of the new header's fields
        become the line's parts and the line reads through the new header;
        a missing field raises with the line untouched. */
    method Project(h: Header) returns (o: Outcome<Error>)
      modifies this
      ensures Step(Row(), o) == Records.Project(old(Row()), h.Value())
      ensures o.Pass? ==> header == h
      ensures o.Fail? ==> header == old(header)
    {
      var r := Gather(h.names);
      if r.Err? {
        return Fail(r.error);
      }
      parts := r.value;
      header := h;
      return Pass;
    }

    /** `add_value(value)`. */
    method AddValue(value: string)
      modifies this
      ensures header == old(header) && parts == old(parts) + [value]
    {
      parts := parts + [value];
    }
  }

  /** The headers the lines read through. */
  ghost function HeadersOf(ls: seq<Line>): set<Header>
    reads ls
  {
    set l | l in ls :: l.header
  }

  /** The rows the lines hold. */
  ghost function RowsOf(ls: seq<Line>): (rs: seq<Row>)
    reads ls, HeadersOf(ls)
    ensures |rs| == |ls| && forall i :: 0 <= i < |ls| ==> rs[i] == ls[i].Row()
  {
    seq(|ls|, i requires 0 <= i < |ls| reads ls, HeadersOf(ls) => ls[i].Row())
  }

  lemma RowsOfAppend(ls: seq<Line>, l: Line)
    ensures RowsOf(ls + [l]) == RowsOf(ls) + [l.Row()]
  {
  }

  lemma RowsOfConcat(a: seq<Line>, b: seq<Line>)
    ensures RowsOf(a + b) == RowsOf(a) + RowsOf(b)
  {
  }

  /** No line object appears twice. */
  ghost predicate Distinct(ls: seq<Line>) {
    forall i, j :: 0 <= i < j < |ls| ==> ls[i] != ls[j]
  }

  lemma DistinctAppend(ls: seq<Line>, l: Line)
    requires Distinct(ls) && l !in ls
    ensures Distinct(ls + [l])
  {
  }

  lemma DistinctConcat(a: seq<Line>, b: seq<Line>)
    requires Distinct(a) && Distinct(b) && forall l :: l in b ==> l !in a
    ensures Distinct(a + b)
  {
    forall i, j | 0 <= i < j < |a + b|
      ensures (a + b)[i] != (a + b)[j]
    {
      if j >= |a| && i < |a| {
        assert (a + b)[j] == b[j - |a|] && (a + b)[j] in b;
      }
    }
  }

  /** `kept[j]` is `ls[at[j]]`, taken in increasing order from before `i`. */
  ghost predicate Taken(kept: seq<Line>, ls: seq<Line>, at: seq<int>, i: int) {
    && |at| == |kept| && i <= |ls|
    && (forall j :: 0 <= j < |at| ==> 0 <= at[j] < i && kept[j] == ls[at[j]])
    && (forall j, k :: 0 <= j < k < |at| ==> at[j] < at[k])
  }

  /** One more index passed, taken or not. */
  lemma TakenStep(kept: seq<Line>, ls: seq<Line>, at: seq<int>, i: int)
    requires Taken(kept, ls, at, i) && 0 <= i < |ls|
    ensures Taken(kept, ls, at, i + 1)
    ensures Taken(kept + [ls[i]], ls, at + [i], i + 1)
  {
  }

  lemma TakenDistinct(kept: seq<Line>, ls: seq<Line>, at: seq<int>, i: int)
    requires Taken(kept, ls, at, i)
    ensures Distinct(ls) ==> Distinct(kept)
    ensures forall j :: 0 <= j < |kept| ==> kept[j] in ls
  {
  }

  /** The loop of `update_depths()` over the lines: the bounds it reaches
      and whether a depth raised on the way. */
  method ScanDepths(ls: seq<Line>, ghost rows: seq<Row>) returns (e: Extent, o: Outcome<Error>)
    requires rows == RowsOf(ls)
    ensures e == ExtentOf(rows[..FirstUnreadable(rows)], DepthOf)
    ensures o == DepthScan(rows)
  {
    var hi, lo := 0, EmptyMinDepth;
    o := Pass;
    var i := 0;
    while i < |ls| && o.Pass?
      invariant 0 <= i <= |ls|
      invariant Extent(lo, hi) == ExtentOf(rows[..i], DepthOf)
      invariant FirstUnreadable(rows) >= i
      invariant o.Fail? ==> i < |ls| && FirstUnreadable(rows) == i && rows[i].Depth() == Err(o.error)
      decreases |ls| - i, o.Pass?
    {
      var d := ls[i].Depth();
      assert d == rows[i].Depth();
      if d.Err? {
        o := Fail(d.error);
      } else {
        ReadableStep(rows, i);
        var hi' := if d.value > hi then d.value else hi;
        var lo' := if d.value < lo then d.value else lo;
        ExtentStep(rows, i, d.value, lo', hi');
        hi, lo := hi', lo';
        i := i + 1;
      }
    }
    if o.Pass? {
      assert FirstUnreadable(rows) == i;
    }
    e := Extent(lo, hi);
    assert e == ExtentOf(rows[..FirstUnreadable(rows)], DepthOf);
  }

  /** The loop of `truncate`: the lines whose depth lies in `[lo, hi]`, in
      order; it raises at the first depth that does not read. */
  method KeepWindow(ls: seq<Line>, ghost rows: seq<Row>, lo: int, hi: int) returns (kept: seq<Line>, o: Outcome<Error>)
    requires rows == RowsOf(ls)
    ensures o == DepthScan(rows)
    ensures o.Pass? ==> RowsOf(kept) == Window(rows, DepthOf, lo, hi)
    ensures Distinct(ls) ==> Distinct(kept)
    ensures forall j :: 0 <= j < |kept| ==> kept[j] in ls
  {
    kept := [];
    o := Pass;
    ghost var at: seq<int> := [];
    var i := 0;
    while i < |ls| && o.Pass?
      invariant 0 <= i <= |ls|
      invariant RowsOf(kept) == Window(rows[..i], DepthOf, lo, hi)
      invariant FirstUnreadable(rows) >= i
      invariant o.Fail? ==> i < |ls| && FirstUnreadable(rows) == i && rows[i].Depth() == Err(o.error)
      invariant Taken(kept, ls, at, i)
      decreases |ls| - i, o.Pass?
    {
      var d := ls[i].Depth();
      assert d == rows[i].Depth();
      if d.Err? {
        o := Fail(d.error);
      } else {
        ReadableStep(rows, i);
        WindowStep(rows, DepthOf, lo, hi, i);
        DepthOfReadable(rows[i]);
        TakenStep(kept, ls, at, i);
        if lo <= d.value <= hi {
          RowsOfAppend(kept, ls[i]);
          kept, at := kept + [ls[i]], at + [i];
        }
        i := i + 1;
      }
    }
    if o.Pass? {
      assert FirstUnreadable(rows) == i;
      assert rows[..i] == rows;
    }
    TakenDistinct(kept, ls, at, i);
  }

  /** Part way through a pass over the lines: the first `|done|` lines hold
      the rows the pass has made so far, the others their old rows. */
  ghost predicate Passed(ls: seq<Line>, rows: seq<Row>, done: seq<Row>)
    reads ls, HeadersOf(ls)
  {
    && |rows| == |ls| && |done| <= |ls|
    && (forall j :: 0 <= j < |done| ==> ls[j].Row() == done[j])
    && (forall j :: |done| <= j < |ls| ==> ls[j].Row() == rows[j])
  }

  lemma PassedRows(ls: seq<Line>, rows: seq<Row>, done: seq<Row>)
    requires Passed(ls, rows, done)
    ensures RowsOf(ls) == done + rows[|done|..]
  {
  }

  /** The loop of `File.change(field, fn)`: each line in turn, stopping at
      the first whose change raises. */
  method ChangeLines(ls: seq<Line>, ghost rows: seq<Row>, field: string, fn: string -> Result<string, Error>)
    returns (o: Outcome<Error>)
    requires rows == RowsOf(ls) && Distinct(ls)
    modifies set l | l in ls
    ensures RowsOf(ls) == ApplyRows(rows, ChangeRow(field, fn)).rows
    ensures o == ApplyRows(rows, ChangeRow(field, fn)).outcome
  {
    ghost var step := ChangeRow(field, fn);
    ghost var done: seq<Row> := [];
    o := Pass;
    var i := 0;
    while i < |ls| && o.Pass?
      invariant 0 <= i <= |ls| && i == |done|
      invariant ApplyRows(rows[..i], step) == Progress(done, o)
      invariant Passed(ls, rows, done)
      decreases |ls| - i
    {
      o := ls[i].Change(field, fn);
      PassStep(rows, step, i, done, Step(ls[i].Row(), o));
      done := done + [ls[i].Row()];
      i := i + 1;
    }
    PassEnds(rows, step, i, done, o);
    PassedRows(ls, rows, done);
  }

  /** The loop of `set_depths(start, increment)`: a counter starting at
      `start` goes up by `increment` per line. */
  method SetDepthLines(ls: seq<Line>, ghost rows: seq<Row>, start: int, increment: int) returns (o: Outcome<Error>)
    requires rows == RowsOf(ls) && Distinct(ls)
    modifies set l | l in ls
    ensures RowsOf(ls) == ApplyRows(rows, SetDepthRow(start, increment)).rows
    ensures o == ApplyRows(rows, SetDepthRow(start, increment)).outcome
  {
    ghost var step := SetDepthRow(start, increment);
    ghost var done: seq<Row> := [];
    o := Pass;
    var depth := start;
    var i := 0;
    while i < |ls| && o.Pass?
      invariant 0 <= i <= |ls| && i == |done|
      invariant ApplyRows(rows[..i], step) == Progress(done, o)
      invariant Passed(ls, rows, done)
      invariant depth == Counter(start, increment, i)
      decreases |ls| - i
    {
      o := ls[i].Set(DepthField, IntText(depth));
      SetDepthStep(rows[i], start, increment, i, depth);
      PassStep(rows, step, i, done, Step(ls[i].Row(), o));
      done := done + [ls[i].Row()];
      depth := depth + increment;
      i := i + 1;
    }
    PassEnds(rows, step, i, done, o);
    PassedRows(ls, rows, done);
  }

  /** The loop of `File.flip()`. */
  method FlipLines(ls: seq<Line>, ghost rows: seq<Row>, negate: string -> Result<string, Error>) returns (o: Outcome<Error>)
    requires rows == RowsOf(ls) && Distinct(ls)
    modifies set l | l in ls
    ensures RowsOf(ls) == ApplyRows(rows, FlipRow(negate)).rows
    ensures o == ApplyRows(rows, FlipRow(negate)).outcome
  {
    ghost var step := FlipRow(negate);
    ghost var done: seq<Row> := [];
    o := Pass;
    var i := 0;
    while i < |ls| && o.Pass?
      invariant 0 <= i <= |ls| && i == |done|
      invariant ApplyRows(rows[..i], step) == Progress(done, o)
      invariant Passed(ls, rows, done)
      decreases |ls| - i
    {
      o := ls[i].Flip(negate);
      PassStep(rows, step, i, done, Step(ls[i].Row(), o));
      done := done + [ls[i].Row()];
      i := i + 1;
    }
    PassEnds(rows, step, i, done, o);
    PassedRows(ls, rows, done);
  }

  /** The loop of `chop_fields(field_def)` over the lines. */
  method ProjectLines(ls: seq<Line>, ghost rows: seq<Row>, h: Header) returns (o: Outcome<Error>)
    requires rows == RowsOf(ls) && Distinct(ls)
    modifies set l | l in ls
    ensures RowsOf(ls) == ApplyRows(rows, ProjectRow(h.Value())).rows
    ensures o == ApplyRows(rows, ProjectRow(h.Value())).outcome
    ensures o.Pass? ==> forall l :: l in ls ==> l.header == h
  {
    ghost var step := ProjectRow(h.Value());
    ghost var done: seq<Row> := [];
    o := Pass;
    var i := 0;
    while i < |ls| && o.Pass?
      invariant 0 <= i <= |ls| && i == |done|
      invariant ApplyRows(rows[..i], step) == Progress(done, o)
      invariant Passed(ls, rows, done)
      invariant o.Pass? ==> forall j :: 0 <= j < i ==> ls[j].header == h
      decreases |ls| - i
    {
      o, done := ProjectNext(ls, rows, h, i, done);
      i := i + 1;
    }
    PassEnds(rows, step, i, done, o);
    PassedRows(ls, rows, done);
  }

  /** One turn of the loop of `chop_fields`: line `i` is projected onto `h`,
      and the lines before it already read through `h`. */
  method ProjectNext(ls: seq<Line>, ghost rows: seq<Row>, h: Header, i: nat, ghost done: seq<Row>)
    returns (o: Outcome<Error>, ghost done': seq<Row>)
    requires Distinct(ls) && i < |ls| == |rows| && i == |done|
    requires ApplyRows(rows[..i], ProjectRow(h.Value())) == Progress(done, Pass)
    requires Passed(ls, rows, done)
    requires forall j :: 0 <= j < i ==> ls[j].header == h
    modifies ls[i]
    ensures |done'| == i + 1
    ensures ApplyRows(rows[..i + 1], ProjectRow(h.Value())) == Progress(done', o)
    ensures Passed(ls, rows, done')
    ensures o.Pass? ==> forall j :: 0 <= j < i + 1 ==> ls[j].header == h
  {
    o := ls[i].Project(h);
    PassStep(rows, ProjectRow(h.Value()), i, done, Step(ls[i].Row(), o));
    done' := done + [ls[i].Row()];
  }

  /** The loop of `read` over the data lines: a line through the new
      header for each, kept when it splits into more than one field. */
  method ReadLines(h: Header, data: seq<string>) returns (added: seq<Line>)
    ensures |added| == |DataParts(data)| && Distinct(added)
    ensures forall j :: 0 <= j < |added| ==> fresh(added[j]) && added[j].header == h && added[j].parts == DataParts(data)[j]
  {
    added := [];
    ghost var kept: seq<seq<string>> := [];
    for k := 0 to |data|
      invariant kept == DataParts(data[..k])
      invariant |added| == |kept| && Distinct(added)
      invariant forall j :: 0 <= j < |added| ==> fresh(added[j]) && added[j].header == h && added[j].parts == kept[j]
    {
      var l := new Line(h, data[k]);
      DataPartsExtend(data, k);
      if |l.parts| > 1 {
        DistinctAppend(added, l);
        added, kept := added + [l], kept + [l.parts];
      }
    }
    assert data[..|data|] == data;
  }

  /** The loop of `fake_depth()`: a counter from 0, one value per line. */
  method AppendDepthValues(ls: seq<Line>)
    requires Distinct(ls)
    modifies set l | l in ls
    ensures forall k :: 0 <= k < |ls| ==> ls[k].header == old(ls[k].header)
    ensures forall k :: 0 <= k < |ls| ==> ls[k].parts == old(ls[k].parts) + [HundredthsText(k)]
    ensures RowsOf(ls) == AppendDepths(old(RowsOf(ls)))
  {
    var depth := 0;
    for k := 0 to |ls|
      invariant depth == k
      invariant forall j :: 0 <= j < |ls| ==> ls[j].header == old(ls[j].header)
      invariant forall j :: 0 <= j < k ==> ls[j].parts == old(ls[j].parts) + [HundredthsText(j)]
      invariant forall j :: k <= j < |ls| ==> ls[j].parts == old(ls[j].parts)
    {
      ls[k].AddValue(HundredthsText(depth));
      depth := depth + 1;
    }
    forall k | 0 <= k < |ls|
      ensures ls[k].Row() == old(ls[k].Row()).AddValue(HundredthsText(k))
    {
    }
  }

  /** A line paired with the row it held when `sort()` read its key. */
  type Keyed = (Row, Line)

  const KeyOf: Keyed -> int := (p: Keyed) => DepthOf(p.0)
  const RowOfKeyed: Keyed -> Row := (p: Keyed) => p.0
  const LineOfKeyed: Keyed -> Line := (p: Keyed) => p.1

  /** Sorting the lines by the depths of their rows moves the rows exactly
      as sorting the rows would, and moves no line onto another. */
  lemma SortKeyed(keyed: seq<Keyed>, ls: seq<Line>, rows: seq<Row>)
    requires rows == RowsOf(ls) && Distinct(ls)
    requires |keyed| == |ls| && forall j :: 0 <= j < |ls| ==> keyed[j] == (rows[j], ls[j])
    ensures RowsOf(Sorting.Map(LineOfKeyed, Sorting.StableSort(keyed, KeyOf))) == Sorting.StableSort(rows, DepthOf)
    ensures Distinct(Sorting.Map(LineOfKeyed, Sorting.StableSort(keyed, KeyOf)))
  {
    var sorted := Sorting.StableSort(keyed, KeyOf);
    assert Sorting.Map(RowOfKeyed, keyed) == rows;
    Sorting.StableSortMap(keyed, RowOfKeyed, KeyOf, DepthOf);
    PermutedRows(sorted, keyed);
    Sorting.PermutationDistinct(sorted, keyed);
    PermutedLinesDistinct(sorted, keyed);
  }

  /** The rows of permuted pairs are the rows the pairs record. */
  lemma PermutedRows(sorted: seq<Keyed>, keyed: seq<Keyed>)
    requires multiset(sorted) == multiset(keyed)
    requires forall j :: 0 <= j < |keyed| ==> keyed[j].1.Row() == keyed[j].0
    ensures RowsOf(Sorting.Map(LineOfKeyed, sorted)) == Sorting.Map(RowOfKeyed, sorted)
  {
    var ls := Sorting.Map(LineOfKeyed, sorted);
    forall j | 0 <= j < |sorted|
      ensures ls[j].Row() == sorted[j].0
    {
      assert sorted[j] in multiset(keyed);
      var k :| 0 <= k < |keyed| && keyed[k] == sorted[j];
    }
  }

  /** Pairs whose lines are distinct keep them distinct when permuted. */
  lemma PermutedLinesDistinct(sorted: seq<Keyed>, keyed: seq<Keyed>)
    requires multiset(sorted) == multiset(keyed)
    requires Distinct(Sorting.Map(LineOfKeyed, keyed))
    requires forall i, j :: 0 <= i < j < |sorted| ==> sorted[i] != sorted[j]
    ensures Distinct(Sorting.Map(LineOfKeyed, sorted))
  {
    var ks := Sorting.Map(LineOfKeyed, keyed);
    forall i, j | 0 <= i < j < |sorted|
      ensures sorted[i].1 != sorted[j].1
    {
      assert sorted[i] in multiset(keyed) && sorted[j] in multiset(keyed);
      var a :| 0 <= a < |keyed| && keyed[a] == sorted[i];
      var b :| 0 <= b < |keyed| && keyed[b] == sorted[j];
      assert ks[a] == sorted[i].1 && ks[b] == sorted[j].1;
    }
  }

  class File {
    var header: Header?
    var lines: seq<Line>
    var extent: Option<Extent>

    /** The objects the file's value depends on. */
    ghost function Frame(): set<object>
      reads this, lines
    {
      {this} + (if header == null then {} else {header}) + (set l | l in lines) + HeadersOf(lines)
    }

    ghost function Model(): Table
      reads Frame()
    {
      Table(if header == null then None else Some(header.Value()), RowsOf(lines), extent)
    }

    /** Every line is held once (a file concatenated twice into the same
        composite would hold its lines twice, and every pass over the rows
        would then visit them twice). */
    ghost predicate Valid()
      reads this
    {
      Distinct(lines)
    }

    /** `File()`. */
    constructor()
      ensures Model() == EmptyTable && Valid()
    {
      header := null;
      lines := [];
      extent := None;
    }

    /** `update_depths()`: `max_depth` and `min_depth` start at their
        sentinels and are pushed out row by row; a row whose depth does not
        read stops the pass with the bounds of the rows before it. */
    method UpdateDepths() returns (o: Outcome<Error>)
      modifies this
      ensures header == old(header) && lines == old(lines)
      ensures Applied(Model(), o) == Records.UpdateDepths(old(Model()))
    {
      o := Recache(RowsOf(lines));
    }

    /** The body of `update_depths()`, given the rows the lines hold. */
    method Recache(ghost rows: seq<Row>) returns (o: Outcome<Error>)
      requires rows == RowsOf(lines)
      modifies this
      ensures header == old(header) && lines == old(lines)
      ensures extent == Some(ExtentOf(rows[..FirstUnreadable(rows)], DepthOf)) && o == DepthScan(rows)
    {
      var e;
      e, o := ScanDepths(lines, rows);
      extent := Some(e);
    }

    /** `get_thickness()`. */
    function GetThickness(): (r: Result<int, Error>)
      reads Frame()
      ensures r == Thickness(Model())
    {
      if extent.None? then Err(Unset("max_depth")) else Ok(extent.value.max - extent.value.min)
    }

    /** `truncate(at_top, at_bottom)`: the lines inside the window are
        collected in order into a new list, which replaces the old one, and
        the cache is recomputed. */
    method Truncate(atTop: int, atBottom: int) returns (o: Outcome<Error>)
      modifies this
      ensures old(Valid()) ==> Valid()
      ensures forall l :: l in lines ==> l in old(lines)
      ensures o.Pass? <==> Records.Truncate(old(Model()), atTop, atBottom).Ok?
      ensures o.Pass? ==> Model() == Records.Truncate(old(Model()), atTop, atBottom).value
      ensures o.Fail? ==> Model() == old(Model()) && o.error == Records.Truncate(old(Model()), atTop, atBottom).error
    {
      if atTop == 0 && atBottom == 0 {
        return Pass;
      }
      if extent.None? {
        return Fail(Unset("min_depth"));
      }
      ghost var t := Model();
      var lo, hi := extent.value.min + atTop, extent.value.max - atBottom;
      var kept;
      kept, o := KeepWindow(lines, t.rows, lo, hi);
      if o.Fail? {
        TruncateRaises(t, atTop, atBottom);
        return;
      }
      ghost var w := Window(t.rows, DepthOf, lo, hi);
      TruncateApplies(t, atTop, atBottom, lo, hi);
      WindowReadable(t.rows, lo, hi);
      o := Replace(kept, w);
    }

    /** The end of `truncate`: the kept lines replace the old ones and
        `update_depths()` runs over them, which cannot raise. */
    method Replace(kept: seq<Line>, ghost w: seq<Row>) returns (o: Outcome<Error>)
      requires RowsOf(kept) == w && Readable(w)
      modifies this
      ensures lines == kept
      ensures o == Pass && Model() == old(Model()).(rows := w, extent := Some(ExtentOf(w, DepthOf)))
    {
      lines := kept;
      o := Recache(w);
      assert w[..|w|] == w;
    }

    /** `read(file)`, given the file's lines: the header from the first
        line, a line through it for each later line that holds more than
        one field, appended to the lines already held; `fake_depth()` when
        the header has no Depth field; then `update_depths()`. */
    method Read(text: seq<string>) returns (o: Outcome<Error>)
      requires Valid()
      modifies this, set l | l in lines
      ensures Valid()
      ensures forall l :: l in lines ==> l in old(lines) || fresh(l)
      ensures Applied(Model(), o) == Records.Read(old(Model()), text)
    {
      Load(text);
      o := UpdateDepths();
    }

    /** `read` up to its closing `update_depths()`. */
    method Load(text: seq<string>)
      requires Valid()
      modifies this, set l | l in lines
      ensures Valid()
      ensures forall l :: l in lines ==> l in old(lines) || fresh(l)
      ensures Model() == Loaded(old(Model()), text)
    {
      ghost var t := Model();
      var h := new Header(FirstLine(text));
      var added := ReadLines(h, DataLines(text));
      Attach(h, added, DataLines(text), t.rows);
      if !h.HasField(DepthField) {
        var o := FakeReadDepths(|t.rows|, t.rows, DataLines(text));
      }
    }

    /** The middle of `read`: the new header, and the new lines after the old. */
    method Attach(h: Header, added: seq<Line>, ghost data: seq<string>, ghost rows: seq<Row>)
      requires Valid() && rows == RowsOf(lines) && forall k :: 0 <= k < |lines| ==> lines[k].header != h
      requires |added| == |DataParts(data)| && Distinct(added)
      requires forall j :: 0 <= j < |added| ==> added[j] !in lines && added[j].header == h && added[j].parts == DataParts(data)[j]
      modifies this
      ensures Valid() && header == h && lines == old(lines) + added && extent == old(extent)
      ensures forall k :: 0 <= k < |rows| ==> lines[k].header != h
      ensures forall k :: |rows| <= k < |lines| ==> lines[k].header == h
      ensures Model() == Table(Some(h.Value()), rows + DataRows(h.fields, data), extent)
    {
      var all := lines + added;
      assert RowsOf(all) == rows + DataRows(h.fields, data) by {
        assert RowsOf(added) == DataRows(h.fields, data);
        RowsOfConcat(lines, added);
      }
      header := h;
      lines := all;
    }

    /** `fake_depth()` as `read` calls it: the new lines read through the
        file's header, the old ones through other headers. */
    method FakeReadDepths(ghost n: nat, ghost rows: seq<Row>, ghost data: seq<string>) returns (o: Outcome<Error>)
      requires Valid() && header != null && |rows| == n && |lines| == n + |DataParts(data)|
      requires RowsOf(lines) == rows + DataRows(header.fields, data)
      requires forall k :: 0 <= k < n ==> lines[k].header != header
      requires forall k :: n <= k < |lines| ==> lines[k].header == header
      modifies header, set l | l in lines
      ensures o == Pass
      ensures Model() == Table(Some(old(header.Value()).AddField(DepthField)),
                               AppendDepths(rows + DataRows(old(header.Value()).AddField(DepthField).fields, data)), extent)
    {
      Rehead(n, rows, data);
      AppendDepthValues(lines);
      o := Pass;
    }

    /** The header of `read` gains the Depth field: the new lines now read
        through the larger index, the old ones through their own headers. */
    method Rehead(ghost n: nat, ghost rows: seq<Row>, ghost data: seq<string>)
      requires header != null && |rows| == n && |lines| == n + |DataParts(data)|
      requires RowsOf(lines) == rows + DataRows(header.fields, data)
      requires forall k :: 0 <= k < n ==> lines[k].header != header
      requires forall k :: n <= k < |lines| ==> lines[k].header == header
      modifies header
      ensures header.Value() == old(header.Value()).AddField(DepthField)
      ensures RowsOf(lines) == rows + DataRows(header.fields, data)
    {
      ghost var before, f := RowsOf(lines), header.fields;
      header.AddField(DepthField);
      forall k | 0 <= k < |lines|
        ensures lines[k].Row() == (rows + DataRows(header.fields, data))[k]
      {
        if k >= n {
          assert before[k] == Row(f, DataParts(data)[k - n]);
          assert (rows + DataRows(header.fields, data))[k] == Row(header.fields, DataParts(data)[k - n]);
        } else {
          assert before[k] == rows[k];
        }
      }
    }

    /** `fake_depth()`: the header gains a Depth field at the next free
        index, and line `k` gets `str(k / 100.)` appended, whichever header
        it reads through. */
    method FakeDepth() returns (o: Outcome<Error>)
      requires Valid()
      modifies header, set l | l in lines
      ensures o.Fail? <==> header == null
      ensures o.Fail? ==> o.error == Unset("header")
      ensures header != null ==> header.Value() == old(header.Value()).AddField(DepthField)
      ensures forall k :: 0 <= k < |lines| ==> lines[k].header == old(lines[k].header)
      ensures forall k :: 0 <= k < |lines| ==>
                lines[k].parts == if o.Fail? then old(lines[k].parts) else old(lines[k].parts) + [HundredthsText(k)]
      ensures forall k :: 0 <= k < |lines| && o.Pass? && lines[k].header != header ==>
                lines[k].Row() == old(lines[k].Row()).AddValue(HundredthsText(k))
    {
      if header == null {
        return Fail(Unset("header"));
      }
      header.AddField(DepthField);
      AppendDepthValues(lines);
      return Pass;
    }

    /** `change(field, fn)`: every line in turn; the first line whose
        change raises stops the pass. The depth cache is left as it was. */
    method Change(field: string, fn: string -> Result<string, Error>) returns (o: Outcome<Error>)
      requires Valid()
      modifies set l | l in lines
      ensures Applied(Model(), o) == Records.Change(old(Model()), field, fn)
    {
      o := ChangeLines(lines, RowsOf(lines), field, fn);
    }

    /** `change_depth(fn)`: `change('Depth', rewrite)`. */
    method ChangeDepth(fn: int -> int) returns (o: Outcome<Error>)
      requires Valid()
      modifies set l | l in lines
      ensures Applied(Model(), o) == Records.ChangeDepth(old(Model()), fn)
    {
      o := Change(DepthField, DepthRewrite(fn));
    }

    /** `set_depths(start, increment)`. */
    method SetDepths(start: int, increment: int) returns (o: Outcome<Error>)
      requires Valid()
      modifies set l | l in lines
      ensures Applied(Model(), o) == Records.SetDepths(old(Model()), start, increment)
    {
      o := SetDepthLines(lines, RowsOf(lines), start, increment);
    }

    /** `flip()`. */
    method Flip(negate: string -> Result<string, Error>) returns (o: Outcome<Error>)
      requires Valid()
      modifies set l | l in lines
      ensures Applied(Model(), o) == Records.Flip(old(Model()), negate)
    {
      o := FlipLines(lines, RowsOf(lines), negate);
    }

    /** `chop_fields(field_def)`: a new header from `field_def`; each line
        takes the values of its fields and reads through it; the file takes
        the new header once every line has been projected. */
    method ChopFields(fieldDef: string) returns (o: Outcome<Error>)
      requires Valid()
      modifies this, set l | l in lines
      ensures lines == old(lines) && extent == old(extent)
      ensures Applied(Model(), o) == Chop(old(Model()), fieldDef)
      ensures o.Pass? ==> header != null && forall l :: l in lines ==> l.header == header
    {
      ghost var t := Model();
      var h := new Header(fieldDef);
      assert RowsOf(lines) == t.rows;
      o := ProjectLines(lines, t.rows, h);
      if o.Pass? {
        header := h;
      }
    }

    /** `concatenate(files)`: the header of the first file, and every
        file's lines appended in order. The lines are shared with the files,
        not copied, and the depth cache is not refreshed. */
    method Concatenate(files: seq<File>) returns (o: Outcome<Error>)
      requires this !in files
      modifies this
      ensures o.Pass? <==> Records.Concatenate(old(Model()), old(Models(files))).Ok?
      ensures o.Pass? ==> lines == old(lines) + old(LinesOf(files))
      ensures o.Pass? ==> Model() == Records.Concatenate(old(Model()), old(Models(files))).value
      ensures o.Fail? ==> Model() == old(Model()) && lines == old(lines)
      ensures o.Fail? ==> o.error == Records.Concatenate(old(Model()), old(Models(files))).error
    {
      if |files| == 0 {
        return Fail(NoFiles);
      }
      if files[0].header == null {
        return Fail(Unset("header"));
      }
      ghost var t := Model();
      ghost var ms := Models(files);
      ghost var all := lines + LinesOf(files);
      RowsOfLinesOf(files);
      RowsOfConcat(lines, LinesOf(files));
      ghost var rows := RowsOf(all);
      ghost var hv := files[0].header.Value();
      assert ms[0].header == Some(hv);
      header := files[0].header;
      AppendLines(files);
      assert lines == all && RowsOf(lines) == rows && header.Value() == hv;
      o := Pass;
    }

    /** The loop of `concatenate`: `self.lines.extend(f.lines)` for each file. */
    method AppendLines(files: seq<File>)
      requires this !in files
      modifies this
      ensures lines == old(lines) + LinesOf(files) && header == old(header) && extent == old(extent)
    {
      for k := 0 to |files|
        invariant lines == old(lines) + LinesOf(files[..k])
        invariant header == old(header) && extent == old(extent)
      {
        assert files[..k + 1][..k] == files[..k];
        lines := lines + files[k].lines;
      }
      assert files[..|files|] == files;
    }

    /** `sort()`: `list.sort(key=get_depth)` computes every line's depth
        first, so a depth that does not read raises with the order
        unchanged; otherwise the lines are stably sorted by depth. */
    method Sort() returns (o: Outcome<Error>)
      requires Valid()
      modifies this
      ensures Valid() && header == old(header) && extent == old(extent)
      ensures o.Pass? <==> Records.Sort(old(Model())).Ok?
      ensures o.Pass? ==> Model() == Records.Sort(old(Model())).value
      ensures o.Fail? ==> lines == old(lines) && o.error == Records.Sort(old(Model())).error
    {
      ghost var t := Model();
      var e;
      e, o := ScanDepths(lines, t.rows);
      if o.Fail? {
        return;
      }
      var ls := lines;
      var keyed := seq(|ls|, j requires 0 <= j < |ls| reads ls, HeadersOf(ls) => (ls[j].Row(), ls[j]));
      SortKeyed(keyed, ls, t.rows);
      Reorder(Sorting.Map(LineOfKeyed, Sorting.StableSort(keyed, KeyOf)), Sorting.StableSort(t.rows, DepthOf));
    }

    /** The end of `sort()`: the lines in their new order. */
    method Reorder(ls: seq<Line>, ghost w: seq<Row>)
      requires RowsOf(ls) == w && Distinct(ls)
      modifies this
      ensures Valid() && lines == ls && header == old(header) && extent == old(extent)
      ensures Model() == old(Model()).(rows := w)
    {
      lines := ls;
    }

    /** `write()`: the header line, then each line's text. */
    method Write() returns (r: Result<seq<string>, Error>)
      ensures r == Records.Write(old(Model()))
    {
      if header == null {
        return Err(Unset("header"));
      }
      ghost var rows := RowsOf(lines);
      var out := [header.line];
      for i := 0 to |lines|
        invariant out == [header.line] + Sorting.Map(RowText, rows[..i])
      {
        var s := lines[i].ToString();
        assert rows[..i + 1] == rows[..i] + [rows[i]];
        out := out + [s];
      }
      assert rows[..|lines|] == rows;
      return Ok(out);
    }
  }

  /** The lines of the files, one file after another. */
  ghost function LinesOf(files: seq<File>): seq<Line>
    reads files
  {
    if files == [] then [] else LinesOf(files[..|files| - 1]) + files[|files| - 1].lines
  }

  /** The objects the files' values depend on. */
  ghost function FilesFrame(files: seq<File>): set<object>
    reads files, set f, l | f in files && l in f.lines :: l
  {
    (set f | f in files && f.header != null :: f.header as object)
    + (set f, l | f in files && l in f.lines :: l as object)
    + (set f, l | f in files && l in f.lines :: l.header as object)
  }

  /** The files and everything their values depend on are as they were:
      so are their lines and their values. */
  twostate lemma FilesKept(files: seq<File>)
    requires forall j :: 0 <= j < |files| ==> unchanged(files[j]) && unchanged(old(files[j].Frame()))
    ensures LinesOf(files) == old(LinesOf(files))
    ensures Models(files) == old(Models(files))
    ensures forall j :: 0 <= j < |files| ==> files[j].Valid() == old(files[j].Valid())
  {
    assert unchanged(set f | f in files);
    assert forall j :: 0 <= j < |files| ==> files[j].Model() == old(files[j].Model());
  }

  /** One more file: its lines follow the others', its value the others'. */
  lemma AddFile(files: seq<File>, f: File)
    requires forall j :: 0 <= j < |files| ==> files[j].Valid()
    requires f.Valid()
    ensures forall j :: 0 <= j < |files + [f]| ==> (files + [f])[j].Valid()
    ensures LinesOf(files + [f]) == LinesOf(files) + f.lines
    ensures Models(files + [f]) == Models(files) + [f.Model()]
  {
    assert (files + [f])[..|files|] == files;
  }

  /** Lines made since a state share nothing with lines that existed in it. */
  twostate lemma FreshApart(all: seq<Line>, new ls: seq<Line>)
    requires forall l :: l in ls ==> fresh(l)
    ensures forall l :: l in ls ==> l !in all
  {
  }

  /** The values the files hold. */
  ghost function Models(files: seq<File>): (ts: seq<Table>)
    reads files, FilesFrame(files)
    ensures |ts| == |files| && forall j :: 0 <= j < |files| ==> ts[j] == files[j].Model()
  {
    seq(|files|, j requires 0 <= j < |files| reads files, FilesFrame(files) => files[j].Model())
  }

  /** The rows of the files' lines, one file after another, are the files' rows. */
  lemma {:induction false} RowsOfLinesOf(files: seq<File>)
    ensures RowsOf(LinesOf(files)) == Flatten(Models(files))
  {
    if files != [] {
      var n := |files| - 1;
      RowsOfLinesOf(files[..n]);
      RowsOfConcat(LinesOf(files[..n]), files[n].lines);
      assert Models(files[..n]) == Models(files)[..n];
    }
  }
}
