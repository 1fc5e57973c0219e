/** The values behind a 2G magnetometer data file: a header (field name to
    column index), rows of string fields read through such an index, and a
    table of rows with its cached depth extent. Every operation of the
    Python classes `Header`, `Line` and `File` has its meaning here as a
    function on these values; the classes in module Tglc are proved to
    follow them. Depths are integer hundredths of the file's depth unit. */
module Records {
  import opened Wrappers
  import opened Text
  import Sorting

  /** The exceptions the Python code lets escape. */
  datatype Error =
    | FieldNotFound(field: string)                        // KeyError from `header.fields[field]`
    | MissingValue(field: string, index: nat, width: nat)  // IndexError: the row has no such column
    | BadNumber(text: string)                             // ValueError from `float(text)`
    | LengthMismatch(section: string, expected: int, actual: int)  // the AssertionError of the length gate
    | MissingSource(section: string)                      // the section's data file cannot be opened
    | NoFiles                                             // IndexError: `files[0]` of an empty list
    | Unset(attribute: string)                            // AttributeError: read before any assignment

  const DepthField: string := "Depth"
  const YCorr: string := "Y corr"
  const ZCorr: string := "Z corr"

  /** `1e99`, the `min_depth` of a file without rows, as the exact integer
      value of that double (Python compares ints and floats exactly). */
  const EmptyMinDepth: int := 999999999999999967336168804116691273849533185806555472917961779471295845921727862608739868455469056

  // ----- Header -----

  /** `fields[name] = i` for each name in order: a repeated name keeps its
      last index. */
  function IndexMap(names: seq<string>): (m: map<string, nat>)
    ensures forall f :: f in m <==> f in names
    ensures forall f :: f in m ==> m[f] < |names| && names[m[f]] == f
    ensures forall f, j :: f in m && m[f] < j < |names| ==> names[j] != f
  {
    if names == [] then map[]
    else
      var n := |names| - 1;
      assert forall f :: f in names <==> f in names[..n] || f == names[n];
      IndexMap(names[..n])[names[n] := n]
  }

  /** Without repeated names, every name maps to its own position. */
  lemma IndexMapOfDistinct(names: seq<string>, i: nat)
    requires i < |names|
    requires forall j, k :: 0 <= j < k < |names| ==> names[j] != names[k]
    ensures IndexMap(names)[names[i]] == i
  {
  }

  datatype HeaderValue = HeaderValue(line: string, names: seq<string>, nfields: nat, fields: map<string, nat>) {

    /** Column indexes are below `nfields` and no two fields share one. */
    ghost predicate WellFormed() {
      && (forall f :: f in fields ==> fields[f] < nfields)
      && (forall f, g :: f in fields && g in fields && f != g ==> fields[f] != fields[g])
    }

    /** `add_field`: the new field takes the next free index, nothing else moves. */
    function AddField(name: string): (h: HeaderValue)
      ensures h.fields.Keys == fields.Keys + {name} && h.fields[name] == nfields
      ensures forall f :: f in fields && f != name ==> h.fields[f] == fields[f]
      ensures h.nfields == nfields + 1 && h.line == line && h.names == names
      ensures WellFormed() ==> h.WellFormed()
    {
      HeaderValue(line, names, nfields + 1, fields[name := nfields])
    }
  }

  /** `Header(text)`: the stripped line, split on tabs. */
  function NewHeader(text: string): (h: HeaderValue)
    ensures h.WellFormed() && h.nfields == |h.names|
    ensures Join(h.names, Tab) == h.line && h.line == Strip(text)
    ensures forall f :: f in h.fields <==> f in h.names
  {
    var line := Strip(text);
    var names := Split(line, Tab);
    JoinSplit(line, Tab);
    HeaderValue(line, names, |names|, IndexMap(names))
  }

  // ----- Row -----

  /** One step of a loop over rows: the row afterwards, and whether the step
      raised. A step that raises may already have changed the row. */
  datatype Step = Step(row: Row, outcome: Outcome<Error>)

  /** A data line: its fields, read through the index of the header it shares. */
  datatype Row = Row(fields: map<string, nat>, parts: seq<string>) {

    /** `get(field)`. */
    function Get(field: string): (r: Result<string, Error>)
      ensures r.Ok? <==> field in fields && fields[field] < |parts|
      ensures r.Ok? ==> r.value == parts[fields[field]]
    {
      if field !in fields then Err(FieldNotFound(field))
      else if fields[field] >= |parts| then Err(MissingValue(field, fields[field], |parts|))
      else Ok(parts[fields[field]])
    }

    /** `change(field, fn)`; `fn` may raise. */
    function Change(field: string, fn: string -> Result<string, Error>): (r: Result<Row, Error>)
      ensures r.Ok? ==> r.value.fields == fields && |r.value.parts| == |parts|
    {
      match Get(field)
      case Err(e) => Err(e)
      case Ok(v) =>
        match fn(v)
        case Err(e) => Err(e)
        case Ok(w) => Ok(Row(fields, parts[fields[field] := w]))
    }

    /** `set(field, value)`. */
    function Set(field: string, value: string): Result<Row, Error> {
      Change(field, _ => Ok(value))
    }

    /** `add_value(value)`. */
    function AddValue(value: string): Row {
      Row(fields, parts + [value])
    }

    /** `to_string()`. */
    function ToString(): string {
      Join(parts, Tab)
    }

    /** `get_depth()`: the Depth field in hundredths. */
    function Depth(): (r: Result<int, Error>)
    {
      match Get(DepthField)
      case Err(e) => Err(e)
      case Ok(text) =>
        match ParseDepth(text)
        case None => Err(BadNumber(text))
        case Some(d) => Ok(d)
    }

    /** The depth as a sort and window key. Only ever used on rows whose
        depth reads; the 0 for other rows is never observed. */
    function DepthKey(): int {
      match Depth()
      case Ok(d) => d
      case Err(_) => 0
    }

    /** `change(field, fn)` as a loop step: it passes exactly when the field
        is found, the row has its column and `fn` accepts the value there;
        when it raises, the row is left as it was. */
    function ChangeStep(field: string, fn: string -> Result<string, Error>): (s: Step)
      ensures s.outcome.Pass? <==> Change(field, fn).Ok?
      ensures s.outcome.Pass? <==> Get(field).Ok? && fn(Get(field).value).Ok?
      ensures s.outcome.Fail? ==> s.row == this
      ensures s.outcome.Fail? ==>
                s.outcome.error == if Get(field).Err? then Get(field).error else fn(Get(field).value).error
    {
      match Change(field, fn)
      case Ok(r) => Step(r, Pass)
      case Err(e) => Step(this, Fail(e))
    }

    /** `Line.flip()`: Y corr, then Z corr, each through `negate`. When Z corr
        fails, Y corr has already been rewritten. */
    function Flip(negate: string -> Result<string, Error>): Step {
      match Change(YCorr, negate)
      case Err(e) => Step(this, Fail(e))
      case Ok(r) => r.ChangeStep(ZCorr, negate)
    }
  }

  /** After `set(f, v)`, `get(f)` is `v` and every other column is as before. */
  lemma SetThenGet(row: Row, field: string, value: string)
    requires row.Set(field, value).Ok?
    ensures row.Set(field, value).value.Get(field) == Ok(value)
    ensures forall i :: 0 <= i < |row.parts| && i != row.fields[field] ==>
              row.Set(field, value).value.parts[i] == row.parts[i]
  {
  }

  /** `set` fails exactly when `get` does, and then with the same error. */
  lemma SetFailsLikeGet(row: Row, field: string, value: string)
    ensures row.Set(field, value).Err? <==> row.Get(field).Err?
    ensures row.Set(field, value).Err? ==> row.Set(field, value).error == row.Get(field).error
  {
  }

  /** `change(f, fn)` rewrites the column of `f` with `fn` of its old value, and nothing else. */
  lemma ChangeOnlyTouchesField(row: Row, field: string, fn: string -> Result<string, Error>)
    requires row.Change(field, fn).Ok?
    ensures row.Get(field).Ok? && fn(row.Get(field).value).Ok?
    ensures row.Change(field, fn).value.Get(field) == fn(row.Get(field).value)
    ensures forall other :: other in row.fields && row.fields[other] != row.fields[field] ==>
              row.Change(field, fn).value.Get(other) == row.Get(other)
    ensures row.Change(field, fn).value.fields == row.fields && |row.Change(field, fn).value.parts| == |row.parts|
    ensures forall c :: 0 <= c < |row.parts| && c != row.fields[field] ==> row.Change(field, fn).value.parts[c] == row.parts[c]
  {
  }

  /** The row `Line(header, text)` builds. */
  function ParseRow(fields: map<string, nat>, text: string): Row {
    Row(fields, Split(Strip(text), Tab))
  }

  /** `Line(h, s).to_string() == s.strip()`. */
  lemma RowRoundTrip(fields: map<string, nat>, text: string)
    ensures ParseRow(fields, text).ToString() == Strip(text)
  {
    JoinSplit(Strip(text), Tab);
  }

  /** Flipping rewrites Y corr and Z corr only. */
  lemma FlipFrame(row: Row, negate: string -> Result<string, Error>)
    requires row.Flip(negate).outcome.Pass?
    ensures row.Flip(negate).row.fields == row.fields
    ensures |row.Flip(negate).row.parts| == |row.parts|
    ensures forall i :: 0 <= i < |row.parts| && i != row.fields[YCorr] && i != row.fields[ZCorr] ==>
              row.Flip(negate).row.parts[i] == row.parts[i]
  {
  }

  /** With a negation that undoes itself, flipping twice restores the row. */
  lemma FlipTwice(row: Row, negate: string -> Result<string, Error>)
    requires forall x :: negate(x).Ok? ==> negate(negate(x).value) == Ok(x)
    requires row.Flip(negate).outcome.Pass?
    ensures row.Flip(negate).row.Flip(negate) == Step(row, Pass)
  {
    var y := row.fields[YCorr];
    var z := row.fields[ZCorr];
    var once := row.Flip(negate).row;
    if y == z {
      assert once.parts == row.parts[y := negate(negate(row.parts[y]).value).value];
      assert once.parts == row.parts;
    } else {
      assert once.parts == row.parts[y := negate(row.parts[y]).value][z := negate(row.parts[z]).value];
      assert once.Flip(negate).row.parts == row.parts;
    }
  }

  // ----- loops over rows that stop at the first exception -----

  datatype Progress = Progress(rows: seq<Row>, outcome: Outcome<Error>)

  /** A `for line in self.lines` loop whose body is `step`: rows are rewritten
      in order until a step raises; that row keeps what the step did and every
      later row is untouched. */
  function ApplyRows(rows: seq<Row>, step: (nat, Row) -> Step): (p: Progress)
    ensures |p.rows| == |rows|
  {
    if rows == [] then Progress([], Pass)
    else
      var n := |rows| - 1;
      var p := ApplyRows(rows[..n], step);
      if p.outcome.Fail? then Progress(p.rows + [rows[n]], p.outcome)
      else
        var s := step(n, rows[n]);
        Progress(p.rows + [s.row], s.outcome)
  }

  /** The loop completes exactly when every step passes, and then each row is its step's result. */
  lemma {:induction false} ApplyRowsPass(rows: seq<Row>, step: (nat, Row) -> Step)
    ensures ApplyRows(rows, step).outcome.Pass? <==> forall k :: 0 <= k < |rows| ==> step(k, rows[k]).outcome.Pass?
    ensures ApplyRows(rows, step).outcome.Pass? ==>
              forall k :: 0 <= k < |rows| ==> ApplyRows(rows, step).rows[k] == step(k, rows[k]).row
  {
    if rows != [] {
      var n := |rows| - 1;
      ApplyRowsPass(rows[..n], step);
      assert forall k :: 0 <= k < n ==> rows[..n][k] == rows[k];
    }
  }

  /** Once a step has raised, the rest of the rows are left as they were:
      `k` rows have been visited, the last of them raising. */
  lemma {:induction false} ApplyRowsAfterFailure(rows: seq<Row>, step: (nat, Row) -> Step, k: nat)
    requires k <= |rows| && ApplyRows(rows[..k], step).outcome.Fail?
    ensures ApplyRows(rows, step) == Progress(ApplyRows(rows[..k], step).rows + rows[k..],
                                              ApplyRows(rows[..k], step).outcome)
  {
    if k < |rows| {
      var n := |rows| - 1;
      assert rows[..n][..k] == rows[..k];
      ApplyRowsAfterFailure(rows[..n], step, k);
      assert rows[..n][k..] + [rows[n]] == rows[k..];
    } else {
      assert rows[..k] == rows;
    }
  }

  /** One more row for a loop that has not failed yet. */
  lemma ApplyRowsExtend(rows: seq<Row>, step: (nat, Row) -> Step, i: nat)
    requires i < |rows|
    ensures ApplyRows(rows[..i + 1], step) ==
              var p := ApplyRows(rows[..i], step);
              if p.outcome.Fail? then Progress(p.rows + [rows[i]], p.outcome)
              else Progress(p.rows + [step(i, rows[i]).row], step(i, rows[i]).outcome)
  {
    assert rows[..i + 1][..i] == rows[..i];
  }

  /** One step of a loop that has not failed yet, as the loops over lines take it. */
  lemma PassStep(rows: seq<Row>, step: (nat, Row) -> Step, i: nat, done: seq<Row>, s: Step)
    requires i < |rows| && ApplyRows(rows[..i], step) == Progress(done, Pass) && s == step(i, rows[i])
    ensures ApplyRows(rows[..i + 1], step) == Progress(done + [s.row], s.outcome)
  {
    ApplyRowsExtend(rows, step, i);
  }

  /** A loop over lines that stops after the first failing step, or at the end,
      has done the whole pass: the rows it has not reached are untouched. */
  lemma PassEnds(rows: seq<Row>, step: (nat, Row) -> Step, i: nat, done: seq<Row>, o: Outcome<Error>)
    requires i <= |rows| && ApplyRows(rows[..i], step) == Progress(done, o)
    requires i == |rows| || o.Fail?
    ensures ApplyRows(rows, step) == Progress(done + rows[i..], o)
  {
    if o.Fail? {
      ApplyRowsAfterFailure(rows, step, i);
    } else {
      PassCompletes(rows, step, i, done, o);
    }
  }

  lemma PassCompletes(rows: seq<Row>, step: (nat, Row) -> Step, i: nat, done: seq<Row>, o: Outcome<Error>)
    requires i == |rows| && ApplyRows(rows[..i], step) == Progress(done, o)
    ensures ApplyRows(rows, step) == Progress(done + rows[i..], o)
  {
    PrefixAll(rows, step, i);
    EmptyTail(done, rows, i);
  }

  lemma PrefixAll(rows: seq<Row>, step: (nat, Row) -> Step, i: nat)
    requires i == |rows|
    ensures ApplyRows(rows[..i], step) == ApplyRows(rows, step)
  {
    assert rows[..i] == rows;
  }

  lemma EmptyTail<T>(d: seq<T>, s: seq<T>, i: nat)
    requires i == |s|
    ensures d + s[i..] == d
  {
    assert s[i..] == [];
  }

  // ----- Table -----

  datatype Extent = Extent(min: int, max: int) {
    /** `get_thickness()`. */
    function Width(): int { max - min }
  }

  /** A `File`: its header (absent until read or concatenated), its rows, and
      the `min_depth`/`max_depth` cache (absent until first computed). */
  datatype Table = Table(header: Option<HeaderValue>, rows: seq<Row>, extent: Option<Extent>)

  const EmptyTable: Table := Table(None, [], None)

  /** How many rows from the start have a readable depth: the index of
      the row on which a pass of `get_depth()` calls raises, or `|rows|`. */
  function FirstUnreadable(rows: seq<Row>): (i: nat)
    ensures i <= |rows|
    ensures forall j :: 0 <= j < i ==> rows[j].Depth().Ok?
    ensures i < |rows| ==> rows[i].Depth().Err?
  {
    if rows == [] || rows[0].Depth().Err? then 0
    else
      assert forall j :: 0 < j < |rows| ==> rows[j] == rows[1..][j - 1];
      1 + FirstUnreadable(rows[1..])
  }

  /** Every row's depth field reads as a number. */
  predicate Readable(rows: seq<Row>) {
    FirstUnreadable(rows) == |rows|
  }

  lemma ReadableAt(rows: seq<Row>)
    ensures Readable(rows) <==> forall i :: 0 <= i < |rows| ==> rows[i].Depth().Ok?
  {
  }

  /** The outcome of a pass of `get_depth()` over the rows: the error of the
      first row that raises. */
  function DepthScan(rows: seq<Row>): (o: Outcome<Error>)
    ensures o.Pass? <==> Readable(rows)
  {
    var i := FirstUnreadable(rows);
    if i < |rows| then Fail(rows[i].Depth().error) else Pass
  }

  /** A row's depth as seen by the depth loops. */
  const DepthOf: Row -> int := (r: Row) => r.DepthKey()

  /** The sort and window key of a row whose depth reads is that depth. */
  lemma DepthOfReadable(row: Row)
    requires row.Depth().Ok?
    ensures DepthOf(row) == row.Depth().value
  {
  }

  /** `update_depths()`: each bound starts at its sentinel (`max_depth` at 0,
      `min_depth` at 1e99) and is pushed out by every element in turn. */
  function ExtentOf<T>(s: seq<T>, key: T -> int): (e: Extent)
    ensures forall i :: 0 <= i < |s| ==> e.min <= key(s[i]) <= e.max
    ensures e.max >= 0 && e.min <= EmptyMinDepth
    ensures s == [] ==> e == Extent(EmptyMinDepth, 0)
  {
    if s == [] then Extent(EmptyMinDepth, 0)
    else
      var n := |s| - 1;
      var e := ExtentOf(s[..n], key);
      assert forall i :: 0 <= i < n ==> s[..n][i] == s[i];
      var d := key(s[n]);
      Extent(if d < e.min then d else e.min, if d > e.max then d else e.max)
  }

  /** Each bound is its sentinel or the key of some element. */
  lemma {:induction false} ExtentAttained<T>(s: seq<T>, key: T -> int)
    ensures ExtentOf(s, key).min == EmptyMinDepth || exists i :: 0 <= i < |s| && key(s[i]) == ExtentOf(s, key).min
    ensures ExtentOf(s, key).max == 0 || exists i :: 0 <= i < |s| && key(s[i]) == ExtentOf(s, key).max
  {
    if s != [] {
      var n := |s| - 1;
      ExtentAttained(s[..n], key);
      assert forall i :: 0 <= i < n ==> s[..n][i] == s[i];
    }
  }

  /** The extent cache holds the extent of the current rows. */
  ghost predicate CacheValid(t: Table) {
    t.extent == Some(ExtentOf(t.rows, DepthOf))
  }

  /** A table after an operation that may raise part-way, and how it ended. */
  datatype Applied = Applied(table: Table, outcome: Outcome<Error>)

  /** `update_depths()` on a table. The bounds are attributes updated row by
      row, so when a row's depth raises they hold the extent of the rows
      before it. */
  function UpdateDepths(t: Table): (r: Applied)
    ensures r.table.rows == t.rows && r.table.header == t.header
    ensures r.outcome == DepthScan(t.rows)
    ensures r.table.extent == Some(ExtentOf(t.rows[..FirstUnreadable(t.rows)], DepthOf))
    ensures r.outcome.Pass? ==> CacheValid(r.table)
  {
    var i := FirstUnreadable(t.rows);
    assert i == |t.rows| ==> t.rows[..i] == t.rows;
    Applied(t.(extent := Some(ExtentOf(t.rows[..i], DepthOf))), DepthScan(t.rows))
  }

  /** One more row for the `update_depths()` loop: each bound moves out to
      the row's depth `d` if `d` lies beyond it. */
  lemma ExtentStep(rows: seq<Row>, i: nat, d: int, lo: int, hi: int)
    requires i < |rows| && rows[i].Depth() == Ok(d)
    requires lo == if d < ExtentOf(rows[..i], DepthOf).min then d else ExtentOf(rows[..i], DepthOf).min
    requires hi == if d > ExtentOf(rows[..i], DepthOf).max then d else ExtentOf(rows[..i], DepthOf).max
    ensures ExtentOf(rows[..i + 1], DepthOf) == Extent(lo, hi)
  {
    assert rows[..i + 1][..i] == rows[..i];
    assert DepthOf(rows[i]) == d;
  }

  /** A readable row moves the first unreadable row further on. */
  lemma ReadableStep(rows: seq<Row>, i: nat)
    requires i < |rows| && FirstUnreadable(rows) >= i && rows[i].Depth().Ok?
    ensures FirstUnreadable(rows) >= i + 1
  {
  }

  /** `update_depths()` raising at the first unreadable row `i`. */
  lemma UpdateDepthsStops(t: Table, i: nat)
    requires i < |t.rows| && t.rows[i].Depth().Err? && FirstUnreadable(t.rows) >= i
    ensures UpdateDepths(t) == Applied(t.(extent := Some(ExtentOf(t.rows[..i], DepthOf))), Fail(t.rows[i].Depth().error))
  {
    assert FirstUnreadable(t.rows) == i;
  }

  /** `update_depths()` over readable rows. */
  lemma UpdateDepthsCompletes(t: Table)
    requires Readable(t.rows)
    ensures UpdateDepths(t) == Applied(t.(extent := Some(ExtentOf(t.rows, DepthOf))), Pass)
  {
    assert t.rows[..|t.rows|] == t.rows;
  }

  /** The elements with `lo <= key <= hi`, in their original order. */
  function Window<T>(s: seq<T>, key: T -> int, lo: int, hi: int): (w: seq<T>)
    ensures |w| <= |s|
  {
    if s == [] then []
    else
      var n := |s| - 1;
      var w := Window(s[..n], key, lo, hi);
      if lo <= key(s[n]) <= hi then w + [s[n]] else w
  }

  /** One more element for a loop that builds a window. */
  lemma WindowStep<T>(s: seq<T>, key: T -> int, lo: int, hi: int, i: nat)
    requires i < |s|
    ensures Window(s[..i + 1], key, lo, hi) == Window(s[..i], key, lo, hi) + (if lo <= key(s[i]) <= hi then [s[i]] else [])
  {
    assert s[..i + 1][..i] == s[..i];
  }

  /** The window keeps only elements of the input. */
  lemma {:induction false} WindowSub<T>(s: seq<T>, key: T -> int, lo: int, hi: int)
    ensures multiset(Window(s, key, lo, hi)) <= multiset(s)
  {
    if s != [] {
      var n := |s| - 1;
      WindowSub(s[..n], key, lo, hi);
      assert s == s[..n] + [s[n]];
    }
  }

  /** A window of readable rows is readable. */
  lemma WindowReadable(rows: seq<Row>, lo: int, hi: int)
    requires Readable(rows)
    ensures Readable(Window(rows, DepthOf, lo, hi))
  {
    var w := Window(rows, DepthOf, lo, hi);
    WindowSub(rows, DepthOf, lo, hi);
    forall j | 0 <= j < |w|
      ensures w[j].Depth().Ok?
    {
      assert w[j] in multiset(rows);
    }
    assert FirstUnreadable(w) == |w|;
  }

  /** Everything the window keeps is in range. */
  lemma {:induction false} WindowInRange<T>(s: seq<T>, key: T -> int, lo: int, hi: int)
    ensures forall i :: 0 <= i < |Window(s, key, lo, hi)| ==> lo <= key(Window(s, key, lo, hi)[i]) <= hi
  {
    if s != [] {
      WindowInRange(s[..|s| - 1], key, lo, hi);
    }
  }

  /** Everything in range is kept. */
  lemma {:induction false} WindowComplete<T>(s: seq<T>, key: T -> int, lo: int, hi: int)
    ensures forall i :: 0 <= i < |s| && lo <= key(s[i]) <= hi ==> s[i] in Window(s, key, lo, hi)
  {
    if s != [] {
      var n := |s| - 1;
      WindowComplete(s[..n], key, lo, hi);
      assert forall i :: 0 <= i < n ==> s[..n][i] == s[i];
    }
  }

  /** Order: the window of a concatenation is the concatenation of the windows. */
  lemma {:induction false} WindowAppend<T>(a: seq<T>, b: seq<T>, key: T -> int, lo: int, hi: int)
    ensures Window(a + b, key, lo, hi) == Window(a, key, lo, hi) + Window(b, key, lo, hi)
  {
    if b == [] {
      assert a + b == a;
    } else {
      var n := |b| - 1;
      WindowAppend(a, b[..n], key, lo, hi);
      assert (a + b)[..|a + b| - 1] == a + b[..n];
      assert (a + b)[|a + b| - 1] == b[n];
    }
  }

  /** Narrowing a window only drops elements: the narrow window is the narrow
      window of the wide one. */
  lemma {:induction false} WindowNarrow<T>(s: seq<T>, key: T -> int, lo: int, hi: int, lo': int, hi': int)
    requires lo <= lo' && hi' <= hi
    ensures Window(Window(s, key, lo, hi), key, lo', hi') == Window(s, key, lo', hi')
    ensures |Window(s, key, lo', hi')| <= |Window(s, key, lo, hi)|
  {
    if s != [] {
      var n := |s| - 1;
      WindowNarrow(s[..n], key, lo, hi, lo', hi');
      if lo <= key(s[n]) <= hi {
        WindowAppend(Window(s[..n], key, lo, hi), [s[n]], key, lo', hi');
      }
    }
  }

  /** A window containing the whole extent keeps everything. */
  lemma {:induction false} WindowOfWholeExtent<T>(s: seq<T>, key: T -> int, lo: int, hi: int)
    requires lo <= ExtentOf(s, key).min && ExtentOf(s, key).max <= hi
    ensures Window(s, key, lo, hi) == s
  {
    if s != [] {
      var n := |s| - 1;
      var e := ExtentOf(s[..n], key);
      assert e.min >= ExtentOf(s, key).min && e.max <= ExtentOf(s, key).max;
      WindowOfWholeExtent(s[..n], key, lo, hi);
      assert s == s[..n] + [s[n]];
    }
  }

  /** `truncate(at_top, at_bottom)`: `(0, 0)` returns at once; otherwise the
      rows inside `[min_depth + at_top, max_depth - at_bottom]` are kept and
      the cache is recomputed. The bounds are read first (an `AttributeError`
      before any `update_depths()`), then every row's depth, so an unreadable
      depth raises before anything changes. */
  function Truncate(t: Table, atTop: int, atBottom: int): (r: Result<Table, Error>)
    ensures atTop == 0 && atBottom == 0 ==> r == Ok(t)
    ensures !(atTop == 0 && atBottom == 0) ==> (r.Ok? <==> t.extent.Some? && Readable(t.rows))
    ensures r.Ok? && !(atTop == 0 && atBottom == 0) ==>
              && r.value.header == t.header && CacheValid(r.value)
              && r.value.rows == Window(t.rows, DepthOf, t.extent.value.min + atTop, t.extent.value.max - atBottom)
  {
    if atTop == 0 && atBottom == 0 then Ok(t)
    else if t.extent.None? then Err(Unset("min_depth"))
    else match DepthScan(t.rows)
      case Fail(e) => Err(e)
      case Pass =>
        Ok(Trim(t, t.extent.value.min + atTop, t.extent.value.max - atBottom))
  }

  /** The rows with depths inside `[lo, hi]`, and the cache recomputed over them. */
  function Trim(t: Table, lo: int, hi: int): Table {
    var rows := Window(t.rows, DepthOf, lo, hi);
    t.(rows := rows, extent := Some(ExtentOf(rows, DepthOf)))
  }

  /** A truncation over readable rows with the cache set. */
  lemma TruncateApplies(t: Table, atTop: int, atBottom: int, lo: int, hi: int)
    requires !(atTop == 0 && atBottom == 0) && t.extent.Some? && Readable(t.rows)
    requires lo == t.extent.value.min + atTop && hi == t.extent.value.max - atBottom
    ensures Truncate(t, atTop, atBottom) == Ok(Trim(t, lo, hi))
  {
  }

  /** A truncation that meets an unreadable depth raises its error. */
  lemma TruncateRaises(t: Table, atTop: int, atBottom: int)
    requires !(atTop == 0 && atBottom == 0) && t.extent.Some? && !Readable(t.rows)
    ensures Truncate(t, atTop, atBottom) == Err(DepthScan(t.rows).error)
  {
  }

  /** What a truncation keeps of `s`, given the cached extent `e`. */
  function Kept<T>(s: seq<T>, key: T -> int, e: Extent, a: int, b: int): seq<T> {
    if a == 0 && b == 0 then s else Window(s, key, e.min + a, e.max - b)
  }

  lemma KeptMonotone<T>(s: seq<T>, key: T -> int, a: int, b: int, a': int, b': int)
    requires a <= a' && b <= b'
    ensures |Kept(s, key, ExtentOf(s, key), a', b')| <= |Kept(s, key, ExtentOf(s, key), a, b)|
  {
    var e := ExtentOf(s, key);
    if a == 0 && b == 0 {
      assert Kept(s, key, e, a, b) == s;
    } else if a' == 0 && b' == 0 {
      KeptWhole(s, key, a, b);
    } else {
      KeptNarrow(s, key, a, b, a', b');
    }
  }

  lemma KeptWhole<T>(s: seq<T>, key: T -> int, a: int, b: int)
    requires a <= 0 && b <= 0
    ensures Kept(s, key, ExtentOf(s, key), a, b) == s
  {
    var e := ExtentOf(s, key);
    if !(a == 0 && b == 0) {
      WindowOfWholeExtent(s, key, e.min + a, e.max - b);
    }
  }

  lemma KeptNarrow<T>(s: seq<T>, key: T -> int, a: int, b: int, a': int, b': int)
    requires a <= a' && b <= b' && !(a == 0 && b == 0) && !(a' == 0 && b' == 0)
    ensures |Kept(s, key, ExtentOf(s, key), a', b')| <= |Kept(s, key, ExtentOf(s, key), a, b)|
  {
    var e := ExtentOf(s, key);
    var lo, hi, lo', hi' := e.min + a, e.max - b, e.min + a', e.max - b';
    assert Kept(s, key, e, a, b) == Window(s, key, lo, hi);
    assert Kept(s, key, e, a', b') == Window(s, key, lo', hi');
    WindowNarrow(s, key, lo, hi, lo', hi');
  }

  lemma TruncateKept(t: Table, a: int, b: int)
    requires t.extent.Some? && Readable(t.rows)
    ensures Truncate(t, a, b).Ok?
    ensures Truncate(t, a, b).value.rows == Kept(t.rows, DepthOf, t.extent.value, a, b)
  {
    if !(a == 0 && b == 0) {
      var lo, hi := t.extent.value.min + a, t.extent.value.max - b;
      TruncateApplies(t, a, b, lo, hi);
      assert Kept(t.rows, DepthOf, t.extent.value, a, b) == Window(t.rows, DepthOf, lo, hi);
    }
  }

  /** Trimming more never keeps more rows, as long as the cache is current
      (with a stale cache, `truncate(0, 0)` keeps rows a wider window drops). */
  lemma TruncateMonotone(t: Table, a: int, b: int, a': int, b': int)
    requires CacheValid(t) && Readable(t.rows)
    requires a <= a' && b <= b'
    ensures Truncate(t, a, b).Ok? && Truncate(t, a', b').Ok?
    ensures |Truncate(t, a', b').value.rows| <= |Truncate(t, a, b).value.rows|
  {
    TruncateKept(t, a, b);
    TruncateKept(t, a', b');
    KeptMonotone(t.rows, DepthOf, a, b, a', b');
  }

  /** Both bounds are attained when every key lies between the sentinels:
      then `get_thickness()` is the distance between the extreme depths. */
  lemma ExtentExact<T>(s: seq<T>, key: T -> int)
    requires s != [] && forall i :: 0 <= i < |s| ==> 0 <= key(s[i]) <= EmptyMinDepth
    ensures exists i :: 0 <= i < |s| && key(s[i]) == ExtentOf(s, key).min
    ensures exists i :: 0 <= i < |s| && key(s[i]) == ExtentOf(s, key).max
  {
    ExtentAttained(s, key);
    var e := ExtentOf(s, key);
    if e.min == EmptyMinDepth {
      assert key(s[0]) == e.min;
    }
    if e.max == 0 {
      assert key(s[0]) == e.max;
    }
  }

  /** `max_depth` starts at 0, so a file whose depths are all negative
      reports a maximum of 0: one row at depth -1 has thickness 1, not 0. */
  lemma ExtentOfNegativeDepths()
    ensures var row := Row(map["Depth" := 0], ["-1"]);
            row.Depth() == Ok(-100) && ExtentOf([row], DepthOf) == Extent(-100, 0)
  {
    var row := Row(map["Depth" := 0], ["-1"]);
    ParseNegative("1");
    assert row.Get(DepthField) == Ok("-1");
    assert [row][..0] == [];
  }

  /** `get_thickness()`: an `AttributeError` before any `update_depths()`. */
  function Thickness(t: Table): Result<int, Error> {
    match t.extent
    case None => Err(Unset("max_depth"))
    case Some(e) => Ok(e.Width())
  }

  /** Over keys between the sentinels, the extent's width is the largest key
      minus the smallest. */
  lemma WidthExact<T>(s: seq<T>, key: T -> int)
    requires s != [] && forall i :: 0 <= i < |s| ==> 0 <= key(s[i]) <= EmptyMinDepth
    ensures exists i, j :: 0 <= i < |s| && 0 <= j < |s| && ExtentOf(s, key).Width() == key(s[j]) - key(s[i]) &&
              forall k :: 0 <= k < |s| ==> key(s[i]) <= key(s[k]) <= key(s[j])
  {
    ExtentExact(s, key);
    var e := ExtentOf(s, key);
    var i :| 0 <= i < |s| && key(s[i]) == e.min;
    var j :| 0 <= j < |s| && key(s[j]) == e.max;
    assert e.Width() == key(s[j]) - key(s[i]);
  }

  /** With a current cache over non-negative depths, the thickness is the
      largest depth minus the smallest. */
  lemma ThicknessOfCurrentCache(t: Table)
    requires CacheValid(t) && t.rows != []
    requires forall i :: 0 <= i < |t.rows| ==> 0 <= DepthOf(t.rows[i]) <= EmptyMinDepth
    ensures Thickness(t).Ok?
    ensures exists i, j :: 0 <= i < |t.rows| && 0 <= j < |t.rows| &&
              Thickness(t).value == DepthOf(t.rows[j]) - DepthOf(t.rows[i]) &&
              forall k :: 0 <= k < |t.rows| ==> DepthOf(t.rows[i]) <= DepthOf(t.rows[k]) <= DepthOf(t.rows[j])
  {
    WidthExact(t.rows, DepthOf);
  }

  // ----- passes over every row -----

  /** A pass over the rows whose body is `step`, on a table. */
  function ApplyTable(t: Table, step: (nat, Row) -> Step): (r: Applied)
    ensures r.table.header == t.header && r.table.extent == t.extent
    ensures |r.table.rows| == |t.rows|
  {
    var p := ApplyRows(t.rows, step);
    Applied(t.(rows := p.rows), p.outcome)
  }

  function ChangeRow(field: string, fn: string -> Result<string, Error>): (nat, Row) -> Step {
    (k: nat, r: Row) => r.ChangeStep(field, fn)
  }

  /** `change(field, fn)`; the depth cache is not refreshed. */
  function Change(t: Table, field: string, fn: string -> Result<string, Error>): Applied {
    ApplyTable(t, ChangeRow(field, fn))
  }

  /** A change that succeeds on every row rewrites exactly the field's column
      with `fn`; it succeeds exactly when every row has the field and `fn`
      accepts every old value. */
  lemma ChangeEveryRow(t: Table, field: string, fn: string -> Result<string, Error>)
    ensures Change(t, field, fn).outcome.Pass? <==> forall k :: 0 <= k < |t.rows| ==> t.rows[k].Change(field, fn).Ok?
    ensures Change(t, field, fn).outcome.Pass? ==>
              forall k :: 0 <= k < |t.rows| ==> Change(t, field, fn).table.rows[k] == t.rows[k].Change(field, fn).value
  {
    ApplyRowsPass(t.rows, ChangeRow(field, fn));
  }

  /** `rewrite` inside `change_depth(fn)`: read the text as a depth, apply
      `fn`, and write the result as a whole number. */
  function DepthRewrite(fn: int -> int): string -> Result<string, Error> {
    (s: string) => match ParseDepth(s)
                   case None => Err(BadNumber(s))
                   case Some(d) => Ok(IntText(fn(d)))
  }

  /** `change_depth(fn)`. */
  function ChangeDepth(t: Table, fn: int -> int): Applied {
    Change(t, DepthField, DepthRewrite(fn))
  }

  /** `change_depth(fn)` succeeds exactly when every depth reads, and then
      each row's depth `d` reads back as `100 * fn(d)`: the new value is
      written in whole units. Nothing but the Depth column changes. */
  lemma ChangeDepthEffect(t: Table, fn: int -> int)
    ensures ChangeDepth(t, fn).outcome.Pass? <==> Readable(t.rows)
    ensures ChangeDepth(t, fn).outcome.Pass? ==>
              forall k :: 0 <= k < |t.rows| ==>
                ChangeDepth(t, fn).table.rows[k].Depth() == Ok(100 * fn(t.rows[k].Depth().value))
    ensures ChangeDepth(t, fn).outcome.Pass? ==>
              forall k :: 0 <= k < |t.rows| ==>
                var row := ChangeDepth(t, fn).table.rows[k];
                && row.fields == t.rows[k].fields && |row.parts| == |t.rows[k].parts|
                && DepthField in row.fields
                && forall c :: 0 <= c < |row.parts| && c != row.fields[DepthField] ==> row.parts[c] == t.rows[k].parts[c]
  {
    var rw := DepthRewrite(fn);
    ChangeEveryRow(t, DepthField, rw);
    forall k | 0 <= k < |t.rows|
      ensures t.rows[k].Change(DepthField, rw).Ok? <==> t.rows[k].Depth().Ok?
    {
    }
    if ChangeDepth(t, fn).outcome.Pass? {
      forall k | 0 <= k < |t.rows|
        ensures ChangeDepth(t, fn).table.rows[k].Depth() == Ok(100 * fn(t.rows[k].Depth().value))
        ensures var row := ChangeDepth(t, fn).table.rows[k];
                && row.fields == t.rows[k].fields && |row.parts| == |t.rows[k].parts|
                && DepthField in row.fields
                && forall c :: 0 <= c < |row.parts| && c != row.fields[DepthField] ==> row.parts[c] == t.rows[k].parts[c]
      {
        var row := t.rows[k];
        ChangeOnlyTouchesField(row, DepthField, rw);
        ParseIntText(fn(row.Depth().value));
      }
    }
  }

  /** Row `k` of `set_depths(start, increment)` gets `str(start + k * increment)`. */
  function SetDepthRow(start: int, increment: int): (nat, Row) -> Step {
    (k: nat, r: Row) => r.ChangeStep(DepthField, _ => Ok(IntText(start + k * increment)))
  }

  /** The counter of `set_depths` after `k` lines: `start`, raised by
      `increment` once per line. */
  function Counter(start: int, increment: int, k: nat): int {
    if k == 0 then start else Counter(start, increment, k - 1) + increment
  }

  lemma {:induction false} CounterValue(start: int, increment: int, k: nat)
    ensures Counter(start, increment, k) == start + k * increment
  {
    if k > 0 {
      CounterValue(start, increment, k - 1);
      assert (k - 1) * increment + increment == k * increment;
    }
  }

  /** `line.set('Depth', str(depth))` with the counter after `k` lines is
      row `k`'s step of `set_depths`. */
  lemma SetDepthStep(row: Row, start: int, increment: int, k: nat, depth: int)
    requires depth == Counter(start, increment, k)
    ensures row.ChangeStep(DepthField, _ => Ok(IntText(depth))) == SetDepthRow(start, increment)(k, row)
  {
    CounterValue(start, increment, k);
  }

  /** `set_depths(start, increment)`. */
  function SetDepths(t: Table, start: int, increment: int): Applied {
    ApplyTable(t, SetDepthRow(start, increment))
  }

  /** Setting a row's depth to an integer text: it reads back as that many
      hundred hundredths, and the rest of the row is untouched. */
  lemma SetDepthOfRow(row: Row, i: int)
    requires row.Get(DepthField).Ok?
    ensures var s := row.ChangeStep(DepthField, _ => Ok(IntText(i)));
            && s.outcome.Pass? && s.row.Depth() == Ok(100 * i) && s.row.fields == row.fields
            && |s.row.parts| == |row.parts|
            && forall c :: 0 <= c < |row.parts| && c != row.fields[DepthField] ==> s.row.parts[c] == row.parts[c]
  {
    ParseIntText(i);
  }

  /** `set_depths` completes exactly when every row has a Depth column. */
  lemma SetDepthsCompletes(t: Table, start: int, increment: int)
    ensures SetDepths(t, start, increment).outcome.Pass? <==> forall k :: 0 <= k < |t.rows| ==> t.rows[k].Get(DepthField).Ok?
  {
    var step := SetDepthRow(start, increment);
    ApplyRowsPass(t.rows, step);
    forall k | 0 <= k < |t.rows|
      ensures step(k, t.rows[k]).outcome.Pass? <==> t.rows[k].Get(DepthField).Ok?
    {
      if t.rows[k].Get(DepthField).Ok? {
        SetDepthOfRow(t.rows[k], start + k * increment);
      }
    }
  }

  /** After a complete `set_depths`, row `k` reads as depth `start + k * increment`
      (in hundredths, `100 *` that) and its other columns are untouched. */
  lemma SetDepthsNumbers(t: Table, start: int, increment: int, k: nat)
    requires SetDepths(t, start, increment).outcome.Pass? && k < |t.rows|
    ensures var row := SetDepths(t, start, increment).table.rows[k];
            && row.Depth() == Ok(100 * (start + k * increment))
            && row.fields == t.rows[k].fields
            && DepthField in row.fields && |row.parts| == |t.rows[k].parts|
            && forall c :: 0 <= c < |row.parts| && c != row.fields[DepthField] ==> row.parts[c] == t.rows[k].parts[c]
  {
    var step := SetDepthRow(start, increment);
    ApplyRowsPass(t.rows, step);
    assert step(k, t.rows[k]).outcome.Pass?;
    SetDepthOfRow(t.rows[k], start + k * increment);
  }

  function FlipRow(negate: string -> Result<string, Error>): (nat, Row) -> Step {
    (k: nat, r: Row) => r.Flip(negate)
  }

  /** `flip()`: every row's Y corr and Z corr through `negate`. */
  function Flip(t: Table, negate: string -> Result<string, Error>): Applied {
    ApplyTable(t, FlipRow(negate))
  }

  /** A complete `flip()` changes only the Y corr and Z corr columns, and with
      a self-inverse negation flipping twice restores the rows. */
  lemma FlipTable(t: Table, negate: string -> Result<string, Error>)
    requires forall x :: negate(x).Ok? ==> negate(negate(x).value) == Ok(x)
    requires Flip(t, negate).outcome.Pass?
    ensures forall k :: 0 <= k < |t.rows| ==>
              var row := Flip(t, negate).table.rows[k];
              && row.fields == t.rows[k].fields
              && |row.parts| == |t.rows[k].parts|
              && YCorr in row.fields && ZCorr in row.fields
              && forall c :: 0 <= c < |t.rows[k].parts| && c != row.fields[YCorr] && c != row.fields[ZCorr] ==>
                   row.parts[c] == t.rows[k].parts[c]
    ensures Flip(Flip(t, negate).table, negate) == Applied(t, Pass)
  {
    var step := FlipRow(negate);
    var once := Flip(t, negate).table;
    ApplyRowsPass(t.rows, step);
    forall k | 0 <= k < |t.rows|
      ensures step(k, once.rows[k]) == Step(t.rows[k], Pass)
    {
      FlipFrame(t.rows[k], negate);
      FlipTwice(t.rows[k], negate);
    }
    ApplyRowsPass(once.rows, step);
    assert ApplyRows(once.rows, step).rows == t.rows;
  }

  // ----- projection -----

  /** `[line.get(f) for f in names]`, raising at the first missing field. */
  function GetAll(row: Row, names: seq<string>): (r: Result<seq<string>, Error>)
    ensures r.Ok? <==> forall i :: 0 <= i < |names| ==> row.Get(names[i]).Ok?
    ensures r.Ok? ==> |r.value| == |names| && forall i :: 0 <= i < |names| ==> row.Get(names[i]) == Ok(r.value[i])
  {
    if names == [] then Ok([])
    else
      var n := |names| - 1;
      assert forall i :: 0 <= i < n ==> names[..n][i] == names[i];
      match GetAll(row, names[..n])
      case Err(e) => Err(e)
      case Ok(vs) =>
        match row.Get(names[n])
        case Err(e) => Err(e)
        case Ok(v) => Ok(vs + [v])
  }

  /** The first name that does not read decides the error: once a prefix
      of the names fails, so do all of them, with the same error. */
  lemma {:induction false} GetAllAfterFailure(row: Row, names: seq<string>, k: nat)
    requires k <= |names| && GetAll(row, names[..k]).Err?
    ensures GetAll(row, names) == GetAll(row, names[..k])
  {
    if k < |names| {
      var n := |names| - 1;
      assert names[..n][..k] == names[..k];
      GetAllAfterFailure(row, names[..n], k);
    } else {
      assert names[..k] == names;
    }
  }

  /** One more name for the loop that gathers them. */
  lemma GetAllExtend(row: Row, names: seq<string>, k: nat)
    requires k < |names|
    ensures GetAll(row, names[..k + 1]) ==
              match GetAll(row, names[..k])
              case Err(e) => Err(e)
              case Ok(vs) =>
                match row.Get(names[k])
                case Err(e) => Err(e)
                case Ok(v) => Ok(vs + [v])
  {
    assert names[..k + 1][..k] == names[..k];
  }

  /** One row of `chop_fields`: its parts become the values of the new
      header's fields, and it now reads through the new header. */
  function Project(row: Row, h: HeaderValue): Step {
    match GetAll(row, h.names)
    case Err(e) => Step(row, Fail(e))
    case Ok(parts) => Step(Row(h.fields, parts), Pass)
  }

  /** `chop_fields(field_def)`: the file's header changes only once every row
      has been projected. */
  function ProjectRow(h: HeaderValue): (nat, Row) -> Step {
    (k: nat, row: Row) => Project(row, h)
  }

  function Chop(t: Table, fieldDef: string): (r: Applied) {
    var h := NewHeader(fieldDef);
    var a := ApplyTable(t, ProjectRow(h));
    if a.outcome.Pass? then a.(table := a.table.(header := Some(h))) else a
  }

  /** A complete projection gives every row exactly the old values of the
      new fields, in the new order, read through the new header; it completes
      exactly when every row has every new field. */
  lemma ChopProjects(t: Table, fieldDef: string)
    ensures Chop(t, fieldDef).outcome.Pass? <==>
              forall k, i :: 0 <= k < |t.rows| && 0 <= i < |NewHeader(fieldDef).names| ==>
                t.rows[k].Get(NewHeader(fieldDef).names[i]).Ok?
    ensures Chop(t, fieldDef).outcome.Pass? ==>
              var h := NewHeader(fieldDef);
              && Chop(t, fieldDef).table.header == Some(h)
              && forall k :: 0 <= k < |t.rows| ==>
                   && Chop(t, fieldDef).table.rows[k].fields == h.fields
                   && |Chop(t, fieldDef).table.rows[k].parts| == h.nfields
                   && forall i :: 0 <= i < h.nfields ==>
                        t.rows[k].Get(h.names[i]) == Ok(Chop(t, fieldDef).table.rows[k].parts[i])
  {
    var h := NewHeader(fieldDef);
    var step := ProjectRow(h);
    ApplyRowsPass(t.rows, step);
    if !Chop(t, fieldDef).outcome.Pass? {
      var k :| 0 <= k < |t.rows| && !step(k, t.rows[k]).outcome.Pass?;
      assert !GetAll(t.rows[k], h.names).Ok?;
    }
  }

  // ----- reading and writing -----

  /** The fields of the data lines `read` keeps: those that split into more
      than one field. */
  function DataParts(lines: seq<string>): (parts: seq<seq<string>>)
    ensures |parts| <= |lines|
    ensures forall i :: 0 <= i < |parts| ==> |parts[i]| > 1
  {
    if lines == [] then []
    else
      var n := |lines| - 1;
      var p := Split(Strip(lines[n]), Tab);
      DataParts(lines[..n]) + (if |p| > 1 then [p] else [])
  }

  /** The kept data lines as rows through `fields`. */
  function DataRows(fields: map<string, nat>, lines: seq<string>): (rows: seq<Row>)
    ensures |rows| == |DataParts(lines)|
    ensures forall i :: 0 <= i < |rows| ==> rows[i] == Row(fields, DataParts(lines)[i])
  {
    var p := DataParts(lines);
    seq(|p|, i requires 0 <= i < |p| => Row(fields, p[i]))
  }

  /** When every line holds a tab, every line is kept, in order. */
  lemma {:induction false} DataPartsKeepsTabbed(lines: seq<string>)
    requires forall i :: 0 <= i < |lines| ==> Tab in Strip(lines[i])
    ensures |DataParts(lines)| == |lines|
    ensures forall i :: 0 <= i < |lines| ==> DataParts(lines)[i] == Split(Strip(lines[i]), Tab)
  {
    if lines != [] {
      var n := |lines| - 1;
      DataPartsKeepsTabbed(lines[..n]);
      assert forall i :: 0 <= i < n ==> lines[..n][i] == lines[i];
    }
  }

  /** One more data line for the loop of `read`. */
  lemma DataPartsExtend(lines: seq<string>, k: nat)
    requires k < |lines|
    ensures var p := Split(Strip(lines[k]), Tab);
            DataParts(lines[..k + 1]) == DataParts(lines[..k]) + (if |p| > 1 then [p] else [])
  {
    assert lines[..k + 1][..k] == lines[..k];
  }

  /** A blank line, or one holding a single field, is dropped. */
  lemma DataPartsDropsSingleField(lines: seq<string>, line: string)
    requires Tab !in Strip(line)
    ensures DataParts(lines + [line]) == DataParts(lines)
  {
    assert (lines + [line])[..|lines|] == lines;
  }

  /** `fake_depth()` on the rows: row `k` gets `str(k / 100.)` appended. */
  function AppendDepths(rows: seq<Row>): (r: seq<Row>)
    ensures |r| == |rows|
  {
    seq(|rows|, k requires 0 <= k < |rows| => rows[k].AddValue(HundredthsText(k)))
  }

  /** The header `read` takes from the first line; an empty file reads as an empty line. */
  function FirstLine(lines: seq<string>): string {
    if lines == [] then "" else lines[0]
  }

  function DataLines(lines: seq<string>): seq<string> {
    if lines == [] then [] else lines[1..]
  }

  /** `read(lines)`: the header from the first line, the other lines holding
      more than one field appended to the rows through that header,
      `fake_depth()` when the header has no Depth field, and
      `update_depths()`. Rows from an earlier read keep their own header,
      but `fake_depth()` appends to them too. */
  function Read(t: Table, lines: seq<string>): Applied {
    UpdateDepths(Loaded(t, lines))
  }

  /** What `read` holds just before its closing `update_depths()`. */
  function Loaded(t: Table, lines: seq<string>): Table {
    var h := NewHeader(FirstLine(lines));
    if DepthField in h.fields then
      Table(Some(h), t.rows + DataRows(h.fields, DataLines(lines)), t.extent)
    else
      var h' := h.AddField(DepthField);
      Table(Some(h'), AppendDepths(t.rows + DataRows(h'.fields, DataLines(lines))), t.extent)
  }

  function RowText(r: Row): string {
    r.ToString()
  }

  /** `write()`, as the lines written (each followed by a newline). */
  function Write(t: Table): Result<seq<string>, Error> {
    match t.header
    case None => Err(Unset("header"))
    case Some(h) => Ok([h.line] + Sorting.Map(RowText, t.rows))
  }

  /** A file of stripped lines whose header names a Depth field and whose
      data lines all hold a tab is written back exactly as read, whether or
      not its depths read as numbers. */
  lemma ReadWriteRoundTrip(header: string, data: seq<string>)
    requires Strip(header) == header && DepthField in Split(header, Tab)
    requires forall i :: 0 <= i < |data| ==> Strip(data[i]) == data[i] && Tab in data[i]
    ensures Write(Read(EmptyTable, [header] + data).table) == Ok([header] + data)
  {
    var lines := [header] + data;
    var h := NewHeader(header);
    assert FirstLine(lines) == header && DataLines(lines) == data;
    ReadWithDepthField(EmptyTable, lines);
    var rows := DataRows(h.fields, data);
    assert [] + rows == rows;
    WrittenRows(h.fields, data);
  }

  /** `read` of a file whose header names a Depth field. */
  lemma ReadWithDepthField(t: Table, lines: seq<string>)
    requires DepthField in NewHeader(FirstLine(lines)).fields
    ensures Read(t, lines).table.header == Some(NewHeader(FirstLine(lines)))
    ensures Read(t, lines).table.rows == t.rows + DataRows(NewHeader(FirstLine(lines)).fields, DataLines(lines))
  {
  }

  /** Stripped lines that each hold a tab are written back as they were read. */
  lemma WrittenRows(fields: map<string, nat>, data: seq<string>)
    requires forall i :: 0 <= i < |data| ==> Strip(data[i]) == data[i] && Tab in data[i]
    ensures Sorting.Map(RowText, DataRows(fields, data)) == data
  {
    DataPartsKeepsTabbed(data);
    var out := Sorting.Map(RowText, DataRows(fields, data));
    forall i | 0 <= i < |data|
      ensures out[i] == data[i]
    {
      RowRoundTrip(fields, data[i]);
    }
  }

  /** `fake_depth()` during `read`: the header line is left without a Depth
      name and the Depth field takes the index after the last named field.
      Newly read row `k` (counting earlier rows) then reads its depth from
      the value appended to it, `k / 100`, only when it holds exactly one
      value per named field: with more values it reads its own extra column,
      with fewer its Depth column does not exist. */
  lemma ReadSynthesisesDepths(t: Table, lines: seq<string>, k: nat)
    requires DepthField !in NewHeader(FirstLine(lines)).fields
    requires |t.rows| <= k < |t.rows| + |DataParts(DataLines(lines))|
    ensures var h := NewHeader(FirstLine(lines));
            var r := Read(t, lines).table;
            var p := DataParts(DataLines(lines))[k - |t.rows|];
            && r.header == Some(h.AddField(DepthField))
            && r.header.value.line == h.line
            && r.header.value.fields[DepthField] == |h.names|
            && r.rows[k].Get(DepthField) ==
                 if |p| == |h.names| then Ok(HundredthsText(k))
                 else if |p| > |h.names| then Ok(p[|h.names|])
                 else Err(MissingValue(DepthField, |h.names|, |p| + 1))
  {
    var h := NewHeader(FirstLine(lines));
    var h' := h.AddField(DepthField);
    var newRows := DataRows(h'.fields, DataLines(lines));
    var row := (t.rows + newRows)[k];
    assert row == newRows[k - |t.rows|];
    var rows := AppendDepths(t.rows + newRows);
    var p := DataParts(DataLines(lines))[k - |t.rows|];
    assert rows[k] == Row(h'.fields, p + [HundredthsText(k)]);
    AppendedGet(h'.fields, p, HundredthsText(k), DepthField, |h.names|);
    assert Read(t, lines).table.rows == rows;
  }

  /** A field read from a row with one more value appended. */
  lemma AppendedGet(fields: map<string, nat>, p: seq<string>, x: string, field: string, n: nat)
    requires field in fields && fields[field] == n
    ensures Row(fields, p + [x]).Get(field) ==
              if |p| == n then Ok(x)
              else if |p| > n then Ok(p[n])
              else Err(MissingValue(field, n, |p| + 1))
  {
  }

  /** With one value per named field, the synthesised depths read back
      exactly: row `k` is at `k` hundredths. */
  lemma ReadSynthesisedDepthValue(t: Table, lines: seq<string>, k: nat)
    requires DepthField !in NewHeader(FirstLine(lines)).fields
    requires |t.rows| <= k < |t.rows| + |DataParts(DataLines(lines))|
    requires |DataParts(DataLines(lines))[k - |t.rows|]| == |NewHeader(FirstLine(lines)).names|
    ensures Read(t, lines).table.rows[k].Depth() == Ok(k)
  {
    ReadSynthesisesDepths(t, lines, k);
    ParseHundredthsText(k);
  }

  // ----- combining and ordering -----

  /** The rows of `files`, one file after another. */
  function Flatten(files: seq<Table>): seq<Row> {
    if files == [] then [] else Flatten(files[..|files| - 1]) + files[|files| - 1].rows
  }

  /** How many rows the first `j` files hold. */
  function Offset(files: seq<Table>, j: nat): nat
    requires j <= |files|
  {
    if j == 0 then 0 else Offset(files, j - 1) + |files[j - 1].rows|
  }

  lemma {:induction false} FlattenLength(files: seq<Table>)
    ensures |Flatten(files)| == Offset(files, |files|)
  {
    if files != [] {
      var n := |files| - 1;
      FlattenLength(files[..n]);
      OffsetPrefix(files, n, n);
    }
  }

  /** Each file's rows appear in the concatenation as one block, at the offset
      of the files before it. */
  lemma {:induction false} FlattenBlocks(files: seq<Table>, j: nat)
    requires j < |files|
    ensures Offset(files, j) + |files[j].rows| <= |Flatten(files)|
    ensures Flatten(files)[Offset(files, j)..Offset(files, j) + |files[j].rows|] == files[j].rows
  {
    var n := |files| - 1;
    var front := files[..n];
    FlattenLength(front);
    OffsetPrefix(files, n, n);
    if j < n {
      FlattenBlocks(front, j);
      OffsetPrefix(files, n, j);
      assert front[j] == files[j];
      OffsetPrefix(files, n, j + 1);
      assert Offset(files, j) + |files[j].rows| <= Offset(files, n) by {
        OffsetMonotone(files, j + 1, n);
      }
    }
  }

  lemma {:induction false} OffsetMonotone(files: seq<Table>, i: nat, j: nat)
    requires i <= j <= |files|
    ensures Offset(files, i) <= Offset(files, j)
  {
    if i < j {
      OffsetMonotone(files, i, j - 1);
    }
  }

  lemma {:induction false} OffsetPrefix(files: seq<Table>, n: nat, i: nat)
    requires i <= n <= |files|
    ensures Offset(files[..n], i) == Offset(files, i)
  {
    if i > 0 {
      OffsetPrefix(files, n, i - 1);
    }
  }

  /** `concatenate(files)`: the header of the first file, every file's rows
      after the current ones, and the depth cache left as it was. */
  function Concatenate(t: Table, files: seq<Table>): Result<Table, Error> {
    if files == [] then Err(NoFiles)
    else if files[0].header.None? then Err(Unset("header"))
    else Ok(Table(files[0].header, t.rows + Flatten(files), t.extent))
  }

  /** What `concatenate` promises: it raises exactly on an empty list or an
      unread first file; otherwise it takes the first file's header, keeps
      the old rows in front, and does not refresh the cache. */
  lemma ConcatenateKeeps(t: Table, files: seq<Table>)
    ensures Concatenate(t, files).Err? <==> files == [] || files[0].header.None?
    ensures Concatenate(t, files).Ok? ==>
              var r := Concatenate(t, files).value;
              r.header == files[0].header && r.extent == t.extent && r.rows[..|t.rows|] == t.rows
  {
    if files != [] && files[0].header.Some? {
      SliceOfAppend(t.rows, Flatten(files), 0, 0);
    }
  }

  /** After the old rows, each file's rows follow as one block, in argument order. */
  lemma ConcatenateBlocks(t: Table, files: seq<Table>, j: nat)
    requires j < |files| && files[0].header.Some?
    ensures var rows := Concatenate(t, files).value.rows;
            && |t.rows| + Offset(files, j) + |files[j].rows| <= |rows|
            && rows[|t.rows| + Offset(files, j)..|t.rows| + Offset(files, j) + |files[j].rows|] == files[j].rows
  {
    var f, at := Flatten(files), Offset(files, j);
    assert Concatenate(t, files).value.rows == t.rows + f;
    FlattenBlocks(files, j);
    BlockOfAppend(t.rows + f, t.rows, f, at, files[j].rows);
  }

  /** A block of `b` is a block of `c == a + b`, shifted by `|a|`. */
  lemma BlockOfAppend<T>(c: seq<T>, a: seq<T>, b: seq<T>, i: nat, block: seq<T>)
    requires c == a + b && i + |block| <= |b| && b[i..i + |block|] == block
    ensures c[..|a|] == a
    ensures |a| + i + |block| <= |c| && c[|a| + i..|a| + i + |block|] == block
  {
    SliceOfAppend(a, b, i, i + |block|);
  }

  lemma SliceOfAppend<T>(a: seq<T>, b: seq<T>, i: nat, j: nat)
    requires i <= j <= |b|
    ensures (a + b)[..|a|] == a
    ensures (a + b)[|a| + i..|a| + j] == b[i..j]
  {
  }

  /** `sort()`: `list.sort(key=get_depth)`, which computes every key first,
      so an unreadable depth raises before the order changes. */
  function Sort(t: Table): (r: Result<Table, Error>)
    ensures r.Err? <==> !Readable(t.rows)
    ensures r.Err? ==> Fail(r.error) == DepthScan(t.rows)
    ensures r.Ok? ==> r.value.header == t.header && r.value.extent == t.extent && |r.value.rows| == |t.rows|
    ensures r.Ok? ==> multiset(r.value.rows) == multiset(t.rows) && Sorting.SortedBy(r.value.rows, DepthOf)
  {
    match DepthScan(t.rows)
    case Fail(e) => Err(e)
    case Pass => Ok(t.(rows := Sorting.StableSort(t.rows, DepthOf)))
  }

  /** Rows at the same depth keep their relative order. */
  lemma SortIsStable(t: Table, depth: int)
    requires Readable(t.rows)
    ensures Sorting.WithKey(Sort(t).value.rows, DepthOf, depth) == Sorting.WithKey(t.rows, DepthOf, depth)
  {
    Sorting.StableSortIsStable(t.rows, DepthOf, depth);
  }

  /** The sorted rows are ascending by their actual depths. */
  lemma SortAscends(t: Table, i: nat, j: nat)
    requires Readable(t.rows) && i < j < |t.rows|
    ensures Sort(t).value.rows[i].Depth().Ok? && Sort(t).value.rows[j].Depth().Ok?
    ensures Sort(t).value.rows[i].Depth().value <= Sort(t).value.rows[j].Depth().value
  {
    var s := Sort(t).value.rows;
    assert s[i] in multiset(t.rows) && s[j] in multiset(t.rows);
    var a :| 0 <= a < |t.rows| && t.rows[a] == s[i];
    var b :| 0 <= b < |t.rows| && t.rows[b] == s[j];
  }
}
