/** `assemble_sections`: the sections of a core, each read from its own
    file, trimmed, checked against its declared length and given depths
    counted down the core; then one composite, sorted by depth and written.
    The function `Assembled` says what the procedure computes; the method
    `AssembleSections` does it with the classes of module Tglc and is proved
    to compute exactly that. */
module Assembly {
  import opened Wrappers
  import opened Text
  import opened Records
  import Sorting
  import Tglc

  /** One entry of `section_list`: `(name, section_length, empty_bottom,
      empty_top)` or the same with `top_space` as a fifth element. */
  datatype Section = Section(name: string, length: int, emptyBottom: int, emptyTop: int, topSpace: Option<int>)

  /** What `section_dict` holds for a name:
      `(section_length, empty_bottom, empty_top, extra_space)`. */
  datatype Params = Params(length: int, emptyBottom: int, emptyTop: int, extra: int)

  /** A 4-tuple has no top space, which counts as 0. */
  function ParamsOf(s: Section): Params {
    Params(s.length, s.emptyBottom, s.emptyTop, if s.topSpace.Some? then s.topSpace.value else 0)
  }

  /** `section_names`. */
  function Names(sections: seq<Section>): (names: seq<string>)
    ensures |names| == |sections| && forall i :: 0 <= i < |sections| ==> names[i] == sections[i].name
  {
    seq(|sections|, i requires 0 <= i < |sections| => sections[i].name)
  }

  /** `section_dict`: a dict comprehension runs through the list in order,
      so a later section with the same name replaces an earlier one. */
  function SectionDict(sections: seq<Section>): (dict: map<string, Params>)
    ensures forall i :: 0 <= i < |sections| ==> sections[i].name in dict
  {
    if sections == [] then map[]
    else
      var n := |sections| - 1;
      SectionDict(sections[..n])[sections[n].name := ParamsOf(sections[n])]
  }

  /** The dict holds no name the list does not. */
  lemma {:induction false} SectionDictKeys(sections: seq<Section>)
    ensures forall name :: name in SectionDict(sections) ==> name in Names(sections)
  {
    if sections != [] {
      var n := |sections| - 1;
      SectionDictKeys(sections[..n]);
      assert forall i :: 0 <= i < n ==> sections[..n][i] == sections[i];
      assert forall name :: name in Names(sections[..n]) ==> name in Names(sections) by {
        forall name | name in Names(sections[..n])
          ensures name in Names(sections)
        {
          var i :| 0 <= i < n && Names(sections[..n])[i] == name;
          assert Names(sections)[i] == name;
        }
      }
      assert Names(sections)[n] == sections[n].name;
    }
  }

  /** Every section reads the parameters of the last section that carries
      its name: duplicate names all take the last tuple. */
  lemma {:induction false} SectionDictLast(sections: seq<Section>, j: nat)
    requires j < |sections|
    requires forall k :: j < k < |sections| ==> sections[k].name != sections[j].name
    ensures SectionDict(sections)[sections[j].name] == ParamsOf(sections[j])
  {
    var n := |sections| - 1;
    if j < n {
      assert forall k :: j < k < n ==> sections[..n][k] == sections[k];
      SectionDictLast(sections[..n], j);
      assert sections[..n][j] == sections[j];
    }
  }

  /** The first steps of the loop body: `f.read(...)` into a new file, then
      `f.truncate(empty_bottom, empty_top)`. */
  function Trayed(text: seq<string>, p: Params): Result<Table, Error> {
    var r := Read(EmptyTable, text);
    if r.outcome.Fail? then Err(r.outcome.error)
    else Truncate(r.table, p.emptyBottom, p.emptyTop)
  }

  /** `depth(x)`: `top + thickness - x*100 + empty_bottom`, given the depth
      `x*100` in hundredths. */
  function SectionDepth(top: int, thickness: int, emptyBottom: int): int -> int {
    (d: int) => top + thickness - d + emptyBottom
  }

  /** The header `chop_fields` keeps when the data are susceptibility only. */
  const MsFields: string := "Depth\tMS corr\n"

  /** The length gate: `get_thickness()` of the trimmed section, which must
      equal the declared length. */
  function Gated(t: Table, name: string, p: Params): (r: Result<int, Error>)
    ensures r.Ok? ==> r.value == p.length
  {
    match Thickness(t)
    case Err(e) => Err(e)
    case Ok(th) => if th != p.length then Err(LengthMismatch(name, p.length, th)) else Ok(th)
  }

  /** The rest of the loop body: `truncate(edge, edge)`, `change_depth(depth)`
      and, for susceptibility data, `chop_fields`. */
  function Placed(t: Table, top: int, thickness: int, emptyBottom: int, msOnly: bool, edge: int): Result<Table, Error> {
    match Truncate(t, edge, edge)
    case Err(e) => Err(e)
    case Ok(t2) =>
      var c := ChangeDepth(t2, SectionDepth(top, thickness, emptyBottom));
      if c.outcome.Fail? then Err(c.outcome.error)
      else if !msOnly then Ok(c.table)
      else
        var m := Chop(c.table, MsFields);
        if m.outcome.Fail? then Err(m.outcome.error) else Ok(m.table)
  }

  /** The loop body after the tray is trimmed: the length gate, then the
      placement at `top` moved on by the extra space; the section's table
      and `top` after it. */
  function Finished(t: Table, name: string, p: Params, top: int, msOnly: bool, edge: int)
    : Result<(Table, int), Error>
  {
    match Gated(t, name, p)
    case Err(e) => Err(e)
    case Ok(th) =>
      match Placed(t, top + p.extra, th, p.emptyBottom, msOnly, edge)
      case Err(e) => Err(e)
      case Ok(t') => Ok((t', top + p.extra + th))
  }

  /** The loop body for one section, given its file and `top` before it:
      the section's table and `top` after it, or the exception that ends
      the assembly. */
  function SectionTable(text: seq<string>, name: string, p: Params, top: int, msOnly: bool, edge: int)
    : Result<(Table, int), Error>
  {
    match Trayed(text, p)
    case Err(e) => Err(e)
    case Ok(t) => Finished(t, name, p, top, msOnly, edge)
  }

  /** One turn of the loop over `section_names`: a name and the tuple
      `section_dict[name]` it unpacks. */
  type Entry = (string, Params)

  /** The names in list order, each with what `section_dict` holds for it. */
  function Plan(sections: seq<Section>): (plan: seq<Entry>)
    ensures |plan| == |sections|
    ensures forall i :: 0 <= i < |sections| ==> plan[i] == (sections[i].name, SectionDict(sections)[sections[i].name])
  {
    seq(|sections|, i requires 0 <= i < |sections| => (sections[i].name, SectionDict(sections)[sections[i].name]))
  }

  /** The loop body as a function of a section's name, its parameters and
      `top`. */
  type Body = (string, Params, int) -> Result<(Table, int), Error>

  /** The body of `assemble_sections`' loop: the file named is opened first,
      so a name without a file raises before anything else happens. */
  function SectionStep(sources: map<string, seq<string>>, msOnly: bool, edge: int): Body {
    (name: string, p: Params, top: int) =>
      if name !in sources then Err(MissingSource(name)) else SectionTable(sources[name], name, p, top, msOnly, edge)
  }

  /** The loop over `plan` with body `body`: the tables made so far and
      `top`, or the first exception. */
  function Fold(body: Body, plan: seq<Entry>): Result<(seq<Table>, int), Error> {
    if plan == [] then Ok(([], 0))
    else
      var n := |plan| - 1;
      match Fold(body, plan[..n])
      case Err(e) => Err(e)
      case Ok((ts, top)) =>
        match body(plan[n].0, plan[n].1, top)
        case Err(e) => Err(e)
        case Ok((t, top')) => Ok((ts + [t], top'))
  }

  /** The loop of `assemble_sections` over the whole list. */
  function AllTables(sources: map<string, seq<string>>, sections: seq<Section>, msOnly: bool, edge: int)
    : Result<(seq<Table>, int), Error>
  {
    Fold(SectionStep(sources, msOnly, edge), Plan(sections))
  }

  /** After the loop: a new file `concatenate`s the sections, is sorted
      and written. */
  function Composite(r: Result<(seq<Table>, int), Error>): Result<seq<string>, Error> {
    match r
    case Err(e) => Err(e)
    case Ok((ts, _)) =>
      match Concatenate(EmptyTable, ts)
      case Err(e) => Err(e)
      case Ok(c) =>
        match Sort(c)
        case Err(e) => Err(e)
        case Ok(s) => Write(s)
  }

  /** `assemble_sections`, given the text of each section's file by name:
      the lines written to the output file. */
  function Assembled(sources: map<string, seq<string>>, sections: seq<Section>, msOnly: bool, edge: int)
    : Result<seq<string>, Error>
  {
    Composite(AllTables(sources, sections, msOnly, edge))
  }

  // ----- what the assembly promises -----

  /** An empty section list raises at `files[0]` in `concatenate`. */
  lemma {:induction false} NoSections(sources: map<string, seq<string>>, msOnly: bool, edge: int)
    ensures Assembled(sources, [], msOnly, edge) == Err(NoFiles)
  {
    assert Plan([]) == [];
  }

  /** A section that passes the gate measured exactly its declared length,
      and moves `top` on by its extra space and that length. */
  lemma {:induction false} SectionGate(text: seq<string>, name: string, p: Params, top: int, msOnly: bool, edge: int)
    requires SectionTable(text, name, p, top, msOnly, edge).Ok?
    ensures Trayed(text, p).Ok? && Thickness(Trayed(text, p).value) == Ok(p.length)
    ensures SectionTable(text, name, p, top, msOnly, edge).value.1 == top + p.extra + p.length
  {
  }

  /** A section whose trimmed thickness is not its declared length raises
      the length gate's error. */
  lemma {:induction false} SectionGateFails(text: seq<string>, name: string, p: Params, top: int, msOnly: bool, edge: int)
    requires Trayed(text, p).Ok? && Thickness(Trayed(text, p).value).Ok?
    requires Thickness(Trayed(text, p).value).value != p.length
    ensures SectionTable(text, name, p, top, msOnly, edge) ==
              Err(LengthMismatch(name, p.length, Thickness(Trayed(text, p).value).value))
  {
  }

  /** A loop body that moves `top` on by the section's extra space and length. */
  ghost predicate Advances(body: Body) {
    forall name, p, top :: body(name, p, top).Ok? ==> body(name, p, top).value.1 == top + p.extra + p.length
  }

  lemma {:induction false} SectionStepAdvances(sources: map<string, seq<string>>, msOnly: bool, edge: int)
    ensures Advances(SectionStep(sources, msOnly, edge))
  {
    forall name, p, top | SectionStep(sources, msOnly, edge)(name, p, top).Ok?
      ensures SectionStep(sources, msOnly, edge)(name, p, top).value.1 == top + p.extra + p.length
    {
      SectionGate(sources[name], name, p, top, msOnly, edge);
    }
  }

  /** The sum of extra space and length over the entries. */
  function Span(plan: seq<Entry>): int {
    if plan == [] then 0
    else
      var n := |plan| - 1;
      Span(plan[..n]) + plan[n].1.extra + plan[n].1.length
  }

  /** One more section for the loop. */
  lemma {:induction false} FoldExtend(body: Body, plan: seq<Entry>, k: nat)
    requires k < |plan|
    ensures Fold(body, plan[..k + 1]) ==
              match Fold(body, plan[..k])
              case Err(e) => Err(e)
              case Ok((ts, top)) =>
                match body(plan[k].0, plan[k].1, top)
                case Err(e) => Err(e)
                case Ok((t, top')) => Ok((ts + [t], top'))
  {
    assert plan[..k + 1][..k] == plan[..k];
  }

  /** Once the loop has raised, the later sections are never reached and
      the loop ends with the same error. */
  lemma {:induction false} FoldAfterFailure(body: Body, plan: seq<Entry>, k: nat)
    requires k <= |plan| && Fold(body, plan[..k]).Err?
    ensures Fold(body, plan) == Fold(body, plan[..k])
  {
    if k < |plan| {
      var n := |plan| - 1;
      assert plan[..n][..k] == plan[..k];
      FoldAfterFailure(body, plan[..n], k);
    } else {
      assert plan[..k] == plan;
    }
  }

  /** A body that raises after all entries above `k` were processed ends
      the loop with its error. */
  lemma {:induction false} FoldStops(body: Body, plan: seq<Entry>, k: nat, e: Error)
    requires k < |plan| && Fold(body, plan[..k]).Ok?
    requires body(plan[k].0, plan[k].1, Fold(body, plan[..k]).value.1) == Err(e)
    ensures Fold(body, plan) == Err(e)
  {
    FoldExtend(body, plan, k);
    FoldAfterFailure(body, plan, k + 1);
  }

  /** A loop that reaches its end has made one table per entry; entry `k`
      was made with `top` equal to the extra spaces and lengths of the
      entries above it, and `top` ends as the sum over all of them. */
  lemma {:induction false} FoldOk(body: Body, plan: seq<Entry>)
    requires Advances(body) && Fold(body, plan).Ok?
    ensures var r := Fold(body, plan).value;
            |r.0| == |plan| && r.1 == Span(plan)
    ensures var r := Fold(body, plan).value;
            forall k :: 0 <= k < |plan| ==>
              body(plan[k].0, plan[k].1, Span(plan[..k])) == Ok((r.0[k], Span(plan[..k + 1])))
  {
    if plan != [] {
      var n := |plan| - 1;
      var front := plan[..n];
      FoldOk(body, front);
      var r := Fold(body, front).value;
      var all := Fold(body, plan).value;
      assert all.0 == r.0 + [body(plan[n].0, plan[n].1, r.1).value.0];
      forall k | 0 <= k < |plan|
        ensures body(plan[k].0, plan[k].1, Span(plan[..k])) == Ok((all.0[k], Span(plan[..k + 1])))
      {
        if k < n {
          assert plan[..k] == front[..k] && plan[..k + 1] == front[..k + 1] && plan[k] == front[k];
        } else {
          assert plan[..k] == front && plan[..k + 1] == plan;
        }
      }
    }
  }

  /** Every section of a completed assembly loop: its file exists, it
      passed the length gate, and it was placed with `top` equal to the
      extra spaces and lengths of the sections above it; `top` ends as the
      sum over all sections. */
  lemma {:induction false} SectionsPlaced(sources: map<string, seq<string>>, sections: seq<Section>, msOnly: bool, edge: int)
    requires AllTables(sources, sections, msOnly, edge).Ok?
    ensures var r := AllTables(sources, sections, msOnly, edge).value;
            |r.0| == |sections| && r.1 == Span(Plan(sections))
    ensures var r, plan := AllTables(sources, sections, msOnly, edge).value, Plan(sections);
            forall k :: 0 <= k < |sections| ==>
              && sections[k].name in sources
              && SectionTable(sources[sections[k].name], sections[k].name, SectionDict(sections)[sections[k].name],
                              Span(plan[..k]), msOnly, edge)
                 == Ok((r.0[k], Span(plan[..k + 1])))
  {
    var body, plan := SectionStep(sources, msOnly, edge), Plan(sections);
    SectionStepAdvances(sources, msOnly, edge);
    FoldOk(body, plan);
    var r := AllTables(sources, sections, msOnly, edge).value;
    forall k | 0 <= k < |sections|
      ensures && sections[k].name in sources
              && SectionTable(sources[sections[k].name], sections[k].name, SectionDict(sections)[sections[k].name],
                              Span(plan[..k]), msOnly, edge)
                 == Ok((r.0[k], Span(plan[..k + 1])))
    {
      var name, p, top := sections[k].name, SectionDict(sections)[sections[k].name], Span(plan[..k]);
      assert plan[k] == (name, p);
      assert body(name, p, top) == Ok((r.0[k], Span(plan[..k + 1])));
    }
  }

  /** The length gate: when every section above section `k` was made and
      section `k` measures other than its declared length once the tray is
      trimmed, the assembly raises at section `k`, and nothing is written. */
  lemma {:induction false} LengthGate(sources: map<string, seq<string>>, sections: seq<Section>, msOnly: bool, edge: int, k: nat)
    requires k < |sections|
    requires Fold(SectionStep(sources, msOnly, edge), Plan(sections)[..k]).Ok?
    requires sections[k].name in sources
    requires var p := SectionDict(sections)[sections[k].name];
             var t := Trayed(sources[sections[k].name], p);
             t.Ok? && Thickness(t.value).Ok? && Thickness(t.value).value != p.length
    ensures var p := SectionDict(sections)[sections[k].name];
            Assembled(sources, sections, msOnly, edge) ==
              Err(LengthMismatch(sections[k].name, p.length, Thickness(Trayed(sources[sections[k].name], p).value).value))
  {
    var body, plan := SectionStep(sources, msOnly, edge), Plan(sections);
    var name, p := sections[k].name, SectionDict(sections)[sections[k].name];
    var top := Fold(body, plan[..k]).value.1;
    SectionGateFails(sources[name], name, p, top, msOnly, edge);
    FoldStops(body, plan, k, LengthMismatch(name, p.length, Thickness(Trayed(sources[name], p).value).value));
  }

  /** Row `k` of a section after `change_depth(depth)` reads
      `top + thickness + empty_bottom` less its old depth: the map turns the
      section over, so a deeper measurement on the track ends up shallower
      in the core. */
  lemma {:induction false} SectionDepthReverses(t: Table, top: int, thickness: int, emptyBottom: int, i: nat, j: nat)
    requires ChangeDepth(t, SectionDepth(top, thickness, emptyBottom)).outcome.Pass?
    requires i < |t.rows| && j < |t.rows|
    ensures var rows := ChangeDepth(t, SectionDepth(top, thickness, emptyBottom)).table.rows;
            && t.rows[i].Depth().Ok? && t.rows[j].Depth().Ok?
            && rows[i].Depth() == Ok(100 * (top + thickness + emptyBottom - t.rows[i].Depth().value))
            && rows[j].Depth() == Ok(100 * (top + thickness + emptyBottom - t.rows[j].Depth().value))
            && (t.rows[i].Depth().value <= t.rows[j].Depth().value ==> rows[j].Depth().value <= rows[i].Depth().value)
  {
    var fn := SectionDepth(top, thickness, emptyBottom);
    var rows := ChangeDepth(t, fn).table.rows;
    assert && t.rows[i].Depth().Ok? && t.rows[j].Depth().Ok?
           && rows[i].Depth() == Ok(100 * fn(t.rows[i].Depth().value))
           && rows[j].Depth() == Ok(100 * fn(t.rows[j].Depth().value)) by {
      ChangeDepthEffect(t, fn);
      ReadableAt(t.rows);
    }
  }

  /** What is written: the first section's header line, then the rows of
      all sections, a permutation of them taken in list order, ascending by
      depth, and keeping the list order among rows of equal depth. */
  lemma {:induction false} CompositeOutput(r: Result<(seq<Table>, int), Error>, depth: int)
    requires Composite(r).Ok?
    ensures && r.Ok? && r.value.0 != [] && r.value.0[0].header.Some?
            && var rows := Sorting.StableSort(Flatten(r.value.0), DepthOf);
               && Composite(r).value == [r.value.0[0].header.value.line] + Sorting.Map(RowText, rows)
               && multiset(rows) == multiset(Flatten(r.value.0))
               && Sorting.SortedBy(rows, DepthOf)
               && Sorting.WithKey(rows, DepthOf, depth) == Sorting.WithKey(Flatten(r.value.0), DepthOf, depth)
  {
    var ts := r.value.0;
    var c := Concatenate(EmptyTable, ts).value;
    assert c.rows == Flatten(ts) by {
      assert EmptyTable.rows + Flatten(ts) == Flatten(ts);
    }
    var s := Sort(c).value;
    assert s.header == ts[0].header && s.rows == Sorting.StableSort(Flatten(ts), DepthOf);
    Sorting.StableSortIsStable(Flatten(ts), DepthOf, depth);
  }

  // ----- the procedure, on files -----

  /** The first steps of the loop body: a new file reads the section's
      text and has its tray trimmed. */
  method Tray(text: seq<string>, p: Params) returns (f: Tglc.File, o: Outcome<Error>)
    ensures fresh(f) && f.Valid() && forall l :: l in f.lines ==> fresh(l)
    ensures Trayed(text, p) == if o.Pass? then Ok(f.Model()) else Err(o.error)
  {
    f := new Tglc.File();
    o := f.Read(text);
    if o.Pass? {
      o := f.Truncate(p.emptyBottom, p.emptyTop);
    }
  }

  /** The rest of the loop body on a trimmed section: its edges trimmed,
      its depths counted down the core and, for susceptibility data, its
      fields chopped. */
  method Place(f: Tglc.File, top: int, thickness: int, emptyBottom: int, msOnly: bool, edge: int)
    returns (o: Outcome<Error>)
    requires f.Valid()
    modifies f, set l | l in f.lines
    ensures f.Valid() && forall l :: l in f.lines ==> l in old(f.lines)
    ensures Placed(old(f.Model()), top, thickness, emptyBottom, msOnly, edge) ==
              if o.Pass? then Ok(f.Model()) else Err(o.error)
  {
    o := f.Truncate(edge, edge);
    if o.Fail? {
      return;
    }
    o := f.ChangeDepth(SectionDepth(top, thickness, emptyBottom));
    if o.Pass? && msOnly {
      o := f.ChopFields(MsFields);
    }
  }

  /** The rest of the loop body on a file holding a trimmed section: the
      length gate and the placement. `top` moves on by the extra space
      before the gate, and by the thickness at the end. */
  method Finish(f: Tglc.File, name: string, p: Params, top: int, msOnly: bool, edge: int)
    returns (top': int, o: Outcome<Error>)
    requires f.Valid()
    modifies f, set l | l in f.lines
    ensures f.Valid() && forall l :: l in f.lines ==> l in old(f.lines)
    ensures Finished(old(f.Model()), name, p, top, msOnly, edge) ==
              if o.Pass? then Ok((f.Model(), top')) else Err(o.error)
  {
    ghost var t := f.Model();
    top' := top + p.extra;
    var thickness := f.GetThickness();
    if thickness.Err? || thickness.value != p.length {
      o := if thickness.Err? then Fail(thickness.error) else Fail(LengthMismatch(name, p.length, thickness.value));
      assert Gated(t, name, p) == Err(o.error);
      assert Finished(t, name, p, top, msOnly, edge) == Err(o.error);
      return;
    }
    assert Gated(t, name, p) == Ok(thickness.value);
    o := Place(f, top', thickness.value, p.emptyBottom, msOnly, edge);
    top' := top' + thickness.value;
  }

  /** The same turn beside the files of the earlier sections, which it
      leaves as they were; the new file shares no line with them. */
  method NextSection(files: seq<Tglc.File>, text: seq<string>, name: string, p: Params, top: int, msOnly: bool, edge: int)
    returns (f: Tglc.File, top': int, o: Outcome<Error>)
    requires forall j :: 0 <= j < |files| ==> files[j].Valid()
    requires Tglc.Distinct(Tglc.LinesOf(files))
    ensures Tglc.Models(files) == old(Tglc.Models(files))
    ensures forall j :: 0 <= j < |files| ==> files[j].Valid()
    ensures f.Valid() && Tglc.Distinct(Tglc.LinesOf(files) + f.lines)
    ensures SectionTable(text, name, p, top, msOnly, edge) ==
              if o.Pass? then Ok((f.Model(), top')) else Err(o.error)
  {
    ghost var all := Tglc.LinesOf(files);
    f, top', o := BesideSection(files, text, name, p, top, msOnly, edge);
    Tglc.FreshApart(all, f.lines);
    Tglc.DistinctConcat(all, f.lines);
  }

  /** The turn leaves the files of the earlier sections as they were. */
  method BesideSection(files: seq<Tglc.File>, text: seq<string>, name: string, p: Params, top: int, msOnly: bool, edge: int)
    returns (f: Tglc.File, top': int, o: Outcome<Error>)
    requires forall j :: 0 <= j < |files| ==> files[j].Valid()
    ensures Tglc.Models(files) == old(Tglc.Models(files))
    ensures Tglc.LinesOf(files) == old(Tglc.LinesOf(files))
    ensures forall j :: 0 <= j < |files| ==> files[j].Valid()
    ensures f.Valid() && forall l :: l in f.lines ==> fresh(l)
    ensures SectionTable(text, name, p, top, msOnly, edge) ==
              if o.Pass? then Ok((f.Model(), top')) else Err(o.error)
  {
    assert forall j :: 0 <= j < |files| ==> forall x :: x in files[j].Frame() ==> allocated(x);
    f, top', o := ProcessSection(text, name, p, top, msOnly, edge);
    Tglc.FilesKept(files);
  }

  /** One turn of the loop of `assemble_sections` on a new file: the tray,
      then the gate and the placement. */
  method ProcessSection(text: seq<string>, name: string, p: Params, top: int, msOnly: bool, edge: int)
    returns (f: Tglc.File, top': int, o: Outcome<Error>)
    ensures fresh(f) && f.Valid() && forall l :: l in f.lines ==> fresh(l)
    ensures SectionTable(text, name, p, top, msOnly, edge) ==
              if o.Pass? then Ok((f.Model(), top')) else Err(o.error)
  {
    f, o := Tray(text, p);
    top' := top;
    if o.Pass? {
      top', o := Finish(f, name, p, top, msOnly, edge);
    }
  }

  /** One turn of the loop of `assemble_sections`, once the sections above
      section `i` were made: the loop goes on with one more table, or ends
      with the error of section `i`. */
  lemma {:induction false} LoopTurn(sources: map<string, seq<string>>, sections: seq<Section>, msOnly: bool, edge: int,
                                    i: nat, tables: seq<Table>, top: int, s: Result<(Table, int), Error>)
    requires i < |sections|
    requires Fold(SectionStep(sources, msOnly, edge), Plan(sections)[..i]) == Ok((tables, top))
    requires s == SectionStep(sources, msOnly, edge)(sections[i].name, SectionDict(sections)[sections[i].name], top)
    ensures s.Err? ==> Assembled(sources, sections, msOnly, edge) == Err(s.error)
    ensures s.Ok? ==> Fold(SectionStep(sources, msOnly, edge), Plan(sections)[..i + 1]) == Ok((tables + [s.value.0], s.value.1))
  {
    var body, plan := SectionStep(sources, msOnly, edge), Plan(sections);
    assert plan[i] == (sections[i].name, SectionDict(sections)[sections[i].name]);
    if s.Err? {
      FoldStops(body, plan, i, s.error);
    } else {
      FoldExtend(body, plan, i);
    }
  }

  /** `assemble_sections(template, output, section_list, ms_only,
      edge_thickness)`, given each section's text by name: the lines it
      writes, or the exception that stops it. */
  method AssembleSections(sources: map<string, seq<string>>, sections: seq<Section>, msOnly: bool, edge: int)
    returns (r: Result<seq<string>, Error>)
    ensures r == Assembled(sources, sections, msOnly, edge)
  {
    var names := Names(sections);
    var files: seq<Tglc.File> := [];
    var top := 0;
    for i := 0 to |names|
      invariant forall j :: 0 <= j < |files| ==> files[j].Valid()
      invariant Tglc.Distinct(Tglc.LinesOf(files))
      invariant Fold(SectionStep(sources, msOnly, edge), Plan(sections)[..i]) == Ok((Tglc.Models(files), top))
    {
      var o;
      files, top, o := Turn(sources, sections, msOnly, edge, i, files, top);
      if o.Fail? {
        return Err(o.error);
      }
    }
    assert Plan(sections)[..|names|] == Plan(sections);
    r := Compose(files, top);
  }

  /** One turn of the loop: the section's lines are looked up, made into a
      file and placed after the files before it, or the turn raises and so
      does the whole assembly. */
  method Turn(sources: map<string, seq<string>>, sections: seq<Section>, msOnly: bool, edge: int,
              i: nat, files: seq<Tglc.File>, top: int)
    returns (files': seq<Tglc.File>, top': int, o: Outcome<Error>)
    requires i < |sections|
    requires forall j :: 0 <= j < |files| ==> files[j].Valid()
    requires Tglc.Distinct(Tglc.LinesOf(files))
    requires Fold(SectionStep(sources, msOnly, edge), Plan(sections)[..i]) == Ok((Tglc.Models(files), top))
    ensures o.Fail? ==> Assembled(sources, sections, msOnly, edge) == Err(o.error)
    ensures o.Pass? ==> forall j :: 0 <= j < |files'| ==> files'[j].Valid()
    ensures o.Pass? ==> Tglc.Distinct(Tglc.LinesOf(files'))
    ensures o.Pass? ==> Fold(SectionStep(sources, msOnly, edge), Plan(sections)[..i + 1]) == Ok((Tglc.Models(files'), top'))
  {
    files', top' := files, top;
    var name := sections[i].name;
    ghost var ms := Tglc.Models(files);
    if name !in sources {
      LoopTurn(sources, sections, msOnly, edge, i, ms, top, Err(MissingSource(name)));
      return files', top', Fail(MissingSource(name));
    }
    var f, t, r := NextSection(files, sources[name], name, SectionDict(sections)[name], top, msOnly, edge);
    ghost var s := if r.Pass? then Ok((f.Model(), t)) else Err(r.error);
    LoopTurn(sources, sections, msOnly, edge, i, ms, top, s);
    if r.Fail? {
      return files', top', r;
    }
    Tglc.AddFile(files, f);
    files', top', o := files + [f], t, Pass;
  }

  /** After the loop: a new file concatenates the sections' files, is
      sorted and written. */
  method Compose(files: seq<Tglc.File>, top: int) returns (r: Result<seq<string>, Error>)
    requires forall j :: 0 <= j < |files| ==> files[j].Valid()
    requires Tglc.Distinct(Tglc.LinesOf(files))
    ensures r == Composite(Ok((old(Tglc.Models(files)), top)))
  {
    ghost var ms := Tglc.Models(files);
    ghost var all := Tglc.LinesOf(files);
    var composite := new Tglc.File();
    Tglc.FilesKept(files);
    var o := composite.Concatenate(files);
    ghost var c := Records.Concatenate(EmptyTable, ms);
    if o.Fail? {
      assert Composite(Ok((ms, top))) == Err(c.error);
      r := Err(o.error);
      assert r == Composite(Ok((ms, top)));
      return;
    }
    assert composite.lines == all && composite.Model() == c.value;
    ghost var sorted := Sort(c.value);
    o := composite.Sort();
    if o.Fail? {
      assert Composite(Ok((ms, top))) == Err(sorted.error);
      r := Err(o.error);
      assert r == Composite(Ok((ms, top)));
      return;
    }
    assert composite.Model() == sorted.value;
    assert Composite(Ok((ms, top))) == Write(sorted.value);
    r := composite.Write();
    assert r == Composite(Ok((ms, top)));
  }
}
