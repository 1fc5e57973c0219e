# tglc in Dafny

A model of `tglc`, a small Python editor for 2G magnetometer data files.
These are tab-separated text files. Their first line is a header naming the fields ("Depth", "Y corr", "Z corr", "MS corr", ...). Each later line is one measurement.

The model has four parts:

- **Header.** The header maps each field name to a column index.
- **Line.** A line is a list of string fields, read through a header it may share with other lines.
- **File.** A file holds a header, its lines and a cached depth extent (`min_depth`, `max_depth`). The file is edited in place: it is read, written, trimmed to a depth window, given synthetic or renumbered depths, rewritten through a depth map, projected onto fewer fields, concatenated, sorted by depth and flipped in polarity.
- **`assemble_sections`.** It reads one file per core section. For each section it trims the empty tray and checks the measured thickness against the declared length. It then trims the edge effects and moves the depths to the section's place in the core, counting down from a running `top`. Finally it concatenates all sections, sorts the composite by depth and writes it.

The model is in two layers.

- **Values.** Module `Records` gives every operation its meaning as a function. The values are `HeaderValue`, `Row` and `Table`, a table being a header, rows and the optional cached `Extent`. The lemmas about these functions state what the operations promise.
- **Objects.** Module `Tglc` has the classes `Header`, `Line` and `File`, with the fields the Python code mutates. Each method is proved to leave its objects in exactly the state the matching `Records` function gives. An operation that raises part-way is proved to leave the state the Python code leaves, and its result names the exception.

Module `Assembly` specifies `assemble_sections` as a fold over the section list (`Assembled`). Its method `AssembleSections` runs that fold with `Tglc.File` objects and is proved to compute exactly the same thing. Three other modules supply vocabulary:

- `Text`: Python's `strip`, `split` and `join`, and the decimal text of depths;
- `Sorting`: a stable sort by an integer key, proved ordered, a permutation, and stable;
- `Wrappers`: `Option`, `Result` and `Outcome`.

**Depths.** A depth is an exact integer number of hundredths of the file's depth unit, as `get_depth` computes it (`int(float(s) * 100)`, truncated toward zero). Truncation toward zero is modelled exactly. Floating-point rounding is not.

**Errors.** Each exception the Python code lets escape is a value of `Records.Error`:

- a missing field is a `KeyError`;
- a missing column is an `IndexError`;
- a text that does not read as a number is a `ValueError`;
- a section that fails the length gate is an `AssertionError`;
- `files[0]` of an empty list is an `IndexError`;
- reading the extent or the header before they were set is an `AttributeError`.

**Sources.** The files a section list names are given as a map from section name to the file's lines. A name without an entry stands for a file that cannot be opened.

**Readings of the code worth knowing.**

- **Concatenation keeps the old cache.** `concatenate` (`tglc/tglc.py:155-158`) does not call `update_depths`, so the receiving file keeps its own cache (`Records.Concatenate`).
- **Duplicate section names.** `section_dict` is keyed by name, so every occurrence of a repeated name uses the last tuple's parameters (`Assembly.SectionDictLast`).
- **The starting maximum.** `update_depths` starts `max_depth` at 0. A file whose depths are all negative therefore has a maximum of 0 (`Records.ExtentOfNegativeDepths`).

## Model

| member | source | states |
|---|---|---|
| Records.IndexMap | tglc/tglc.py:22-24 | the index's keys are exactly the header's names; each name's index points at that name, and no later position holds it (the last occurrence wins) |
| Records.IndexMapOfDistinct | tglc/tglc.py:22-24 | with no repeated names, the i-th name has index i |
| Records.NewHeader | tglc/tglc.py:18-24 | the header line is the stripped text; its names joined by tabs give back the line; the field count is the number of names; the index is well formed and has a key for every name and no others |
| Records.HeaderValue.AddField | tglc/tglc.py:32-34 | the new field gets the old field count as its index; every other field keeps its index; the count grows by one; line and names are untouched; a well-formed header stays well formed |
| Tglc.Header.constructor | tglc/tglc.py:18-24 | the object holds exactly the header value of the text |
| Tglc.Header.AddField | tglc/tglc.py:32-34 | the object's new value is the old value with the field added |
| Records.Row.Get | tglc/tglc.py:43-44 | succeeds exactly when the field is in the header and the row has that column, and then yields that column's text |
| Records.Row.ChangeStep | tglc/tglc.py:55-57 | a change passes exactly when the field is found, the row has its column and the function accepts the value there; when it raises, the row is unchanged and the exception is the lookup's or the function's |
| Records.SetThenGet | tglc/tglc.py:52-53 | after a successful set, get of the same field returns the value and every other column is unchanged |
| Records.SetFailsLikeGet | tglc/tglc.py:52-53 | set fails exactly when get fails, with the same exception |
| Records.ChangeOnlyTouchesField | tglc/tglc.py:55-57 | a successful change puts fn(old value) in the field; the header and the width are kept, and every column other than the field's is unchanged |
| Records.RowRoundTrip | tglc/tglc.py:39-60 | the text of a line built from s is s.strip(): joining inverts the tab split |
| Records.FlipFrame | tglc/tglc.py:71-73 | flipping keeps the header and the width, and changes no column except "Y corr" and "Z corr" |
| Records.FlipTwice | tglc/tglc.py:71-73 | with a negation that undoes itself, flipping twice gives back the row and passes |
| Tglc.Line.constructor | tglc/tglc.py:39-41 | the line shares the given header, holds the tab split of the stripped text, and its value is the parsed row |
| Tglc.Line.Set | tglc/tglc.py:52-53 | the new row and the outcome are the step the value layer gives for setting the field; the header is untouched |
| Tglc.Line.Change | tglc/tglc.py:55-57 | the new row and the outcome are the value layer's change step |
| Tglc.Line.Flip | tglc/tglc.py:71-73 | the new row and the outcome are the value layer's flip: "Y corr" first, then "Z corr", so a failure on Z leaves Y flipped |
| Tglc.Line.Gather | tglc/tglc.py:163-165 | the loop returns get of each name in order, or the first failing get's exception |
| Tglc.Line.Project | tglc/tglc.py:162-167 | the new row is the projection onto the new header, and the line then reads through that same header object; on failure the line keeps its old header |
| Tglc.Line.AddValue | tglc/tglc.py:75-76 | the value is appended to the parts; the header is untouched |
| Records.ApplyRowsPass | tglc/tglc.py:109-111 | a loop over the rows passes exactly when every row's step passes, and then every row is the step's result |
| Records.ApplyRowsAfterFailure | tglc/tglc.py:109-111 | once a step among the first k rows has raised, the rows from k on are left as they were and the loop ends with that exception |
| Records.ChangeEveryRow | tglc/tglc.py:109-111 | change(field, fn) passes exactly when every row's change succeeds, and then each row is its changed row |
| Tglc.ChangeLines | tglc/tglc.py:109-111 | the loop leaves the lines holding the value layer's rows, including the partial result when a line raises |
| Tglc.File.Change | tglc/tglc.py:109-111 | the file's new table and the outcome are the value layer's change of the old table |
| Records.ExtentOf | tglc/tglc.py:113-119 | every depth lies between min and max; max is at least 0; min is at most the 1e99 sentinel; no rows give exactly (1e99, 0) |
| Records.ExtentAttained | tglc/tglc.py:113-119 | min is the sentinel or some row's depth, and max is 0 or some row's depth |
| Records.ExtentOfNegativeDepths | tglc/tglc.py:114-119 | a single row of depth -1 gives the extent (-100, 0), because max starts at 0 |
| Records.FirstUnreadable | tglc/tglc.py:116-117 | every row before the returned index has a readable depth, and the row at it has none |
| Records.DepthScan | tglc/tglc.py:116-117 | the scan passes exactly when every depth is readable |
| Records.ReadableAt | tglc/tglc.py:116-117 | a table is readable exactly when each of its rows' depths reads |
| Records.UpdateDepths | tglc/tglc.py:113-119 | rows and header are untouched; the cache holds the extent of the rows before the first unreadable depth; the outcome is that depth's exception; on success the cache is valid |
| Records.UpdateDepthsStops | tglc/tglc.py:113-119 | when row i is the first unreadable one, the cache covers the rows before it and the outcome is its exception |
| Records.UpdateDepthsCompletes | tglc/tglc.py:113-119 | when every depth reads, the cache is the extent of all rows and the outcome passes |
| Tglc.ScanDepths | tglc/tglc.py:116-119 | the loop's running min and max are the extent of the rows before the first unreadable one; the outcome is the value layer's scan |
| Tglc.File.UpdateDepths | tglc/tglc.py:113-119 | the file's new table and the outcome are the value layer's update_depths; the header and lines are kept |
| Tglc.File.Recache | tglc/tglc.py:113-119 | the cache is set from the given rows, and the lines and header are untouched |
| Records.ExtentExact | tglc/tglc.py:113-119 | when there are rows and all depths lie in [0, 1e99], min and max are both the depths of actual rows |
| Records.WidthExact | tglc/tglc.py:124-125 | then the width is the difference of two rows' depths, a lowest and a highest |
| Records.ThicknessOfCurrentCache | tglc/tglc.py:124-125 | with a valid cache over such depths, get_thickness succeeds and equals the deepest row's depth less the shallowest row's |
| Tglc.File.GetThickness | tglc/tglc.py:124-125 | is the value layer's thickness: max - min, or the exception for an unset cache |
| Records.WindowInRange | tglc/tglc.py:139-146 | every kept row's depth lies in [lo, hi] |
| Records.WindowComplete | tglc/tglc.py:139-146 | every row whose depth lies in [lo, hi] is kept |
| Records.WindowSub | tglc/tglc.py:139-146 | the kept rows are a sub-multiset of the rows |
| Records.WindowAppend | tglc/tglc.py:139-146 | filtering distributes over concatenation, so the kept rows are in their original order |
| Records.WindowNarrow | tglc/tglc.py:139-146 | filtering by a window and then by one inside it is filtering by the inner window, and keeps no more rows |
| Records.WindowOfWholeExtent | tglc/tglc.py:139-146 | a window covering every depth keeps every row |
| Records.WindowReadable | tglc/tglc.py:139-146 | the rows a window keeps all have readable depths |
| Records.Truncate | tglc/tglc.py:135-147 | (0, 0) returns the table unchanged; otherwise it succeeds exactly when the cache is set and every depth reads, and then keeps the header, keeps the rows with depth in [min+at_top, max-at_bottom] in order, and leaves a valid cache |
| Records.TruncateApplies | tglc/tglc.py:135-147 | with a set cache and readable depths, truncate gives the trimmed table |
| Records.TruncateRaises | tglc/tglc.py:142-143 | with a set cache, an unreadable depth raises its exception |
| Records.KeptMonotone | tglc/tglc.py:140-146 | larger trims never keep more rows |
| Records.KeptWhole | tglc/tglc.py:140-146 | trims of at most 0 keep every row |
| Records.KeptNarrow | tglc/tglc.py:140-146 | trims that both grow keep no more rows |
| Records.TruncateKept | tglc/tglc.py:135-147 | on a table whose cache is its extent, truncate keeps exactly the rows the trims leave in the window |
| Records.TruncateMonotone | tglc/tglc.py:135-147 | on a table whose cache is its extent and whose depths read, truncate_by(a', b') keeps no more rows than truncate_by(a, b) when a <= a' and b <= b' |
| Tglc.KeepWindow | tglc/tglc.py:142-145 | the loop keeps, in order, exactly the lines of the window, or stops with the first unreadable depth's exception; kept lines are among the old ones and stay distinct |
| Tglc.File.Truncate | tglc/tglc.py:135-147 | the file succeeds exactly when the value layer's truncate does and then holds its result; on failure the file is unchanged and the exception is the value layer's |
| Tglc.File.Replace | tglc/tglc.py:146-147 | the lines become the kept lines, and the cache is the extent of their rows |
| Records.DepthOfReadable | tglc/tglc.py:62-63 | the sort key of a row with a readable depth is that depth |
| Records.ChangeDepthEffect | tglc/tglc.py:127-133 | change_depth(fn) passes exactly when every depth reads; row k then has depth 100 * fn(old depth), and the rest of the row is unchanged |
| Tglc.File.ChangeDepth | tglc/tglc.py:127-133 | the file's new table and the outcome are the value layer's change_depth |
| Records.CounterValue | tglc/tglc.py:150-153 | the counter after k lines is start + k * increment |
| Records.SetDepthStep | tglc/tglc.py:150-153 | setting Depth to str(counter) on row k is the value layer's step for row k |
| Records.SetDepthOfRow | tglc/tglc.py:152 | set('Depth', str(i)) passes exactly when the field is found; the row then reads depth 100*i, and only the Depth column changes |
| Records.SetDepthsCompletes | tglc/tglc.py:149-153 | set_depths passes exactly when every row has a Depth column |
| Records.SetDepthsNumbers | tglc/tglc.py:149-153 | after set_depths, row k's depth is 100*(start + k*increment), and its other columns and header are unchanged |
| Tglc.SetDepthLines | tglc/tglc.py:150-153 | the loop, with its running counter, leaves the lines holding the value layer's set_depths rows and returns its outcome |
| Tglc.File.SetDepths | tglc/tglc.py:149-153 | the file's new table and the outcome are the value layer's set_depths |
| Records.FlipTable | tglc/tglc.py:173-175 | a flip that passes keeps each row's header and width and changes only its "Y corr" and "Z corr" columns; flipping twice restores the table |
| Tglc.FlipLines | tglc/tglc.py:174-175 | the loop leaves the lines holding the value layer's flipped rows and returns its outcome |
| Tglc.File.Flip | tglc/tglc.py:173-175 | the file's new table and the outcome are the value layer's flip |
| Records.GetAll | tglc/tglc.py:163-165 | succeeds exactly when every name's get succeeds, and then yields those values in order |
| Records.GetAllAfterFailure | tglc/tglc.py:163-165 | the first failing name decides the result |
| Records.ChopProjects | tglc/tglc.py:160-168 | chop_fields passes exactly when every row has every new field; then the file and every row share the new header, and each row's parts are the old values of the new fields in order, one per field |
| Tglc.ProjectLines | tglc/tglc.py:162-167 | the loop leaves the lines holding the value layer's projected rows, stopping at the first missing field; when it completes, every line reads through the one new header object |
| Tglc.ProjectNext | tglc/tglc.py:162-167 | one turn of that loop extends the value layer's pass by line i and keeps the lines before it on the new header |
| Tglc.File.ChopFields | tglc/tglc.py:160-168 | the file's new table and the outcome are the value layer's chop_fields; when it passes, the file and every line share the one new header object |
| Records.DataParts | tglc/tglc.py:87-90 | the kept lines are at most the lines read, and each holds more than one field |
| Records.DataRows | tglc/tglc.py:87-90 | each row read is the split of a kept line, read through the header |
| Records.DataPartsKeepsTabbed | tglc/tglc.py:87-90 | when every stripped line holds a tab, every line is kept as its tab split |
| Records.DataPartsDropsSingleField | tglc/tglc.py:89-90 | a line without a tab is dropped |
| Records.ReadWithDepthField | tglc/tglc.py:84-93 | with a Depth field, read sets the header from the first line and appends the kept lines as rows through it |
| Records.ReadSynthesisesDepths | tglc/tglc.py:91-92 | without a Depth field, Depth gets index nfields; row k then reads k/100 in its new column, or the column already there, or an IndexError when the line was short |
| Records.ReadSynthesisedDepthValue | tglc/tglc.py:102-107 | a synthesised depth for row k reads back as exactly k hundredths |
| Records.ReadWriteRoundTrip | tglc/tglc.py:84-100 | a file of stripped lines whose header names Depth and whose data lines hold a tab is written back exactly as read |
| Records.WrittenRows | tglc/tglc.py:99-100 | the rows read from stripped, tabbed lines write back as those lines |
| Tglc.ReadLines | tglc/tglc.py:87-90 | the loop makes one fresh, distinct line per kept line, each holding its tab split and sharing the header |
| Tglc.AppendDepthValues | tglc/tglc.py:104-107 | line k gets str(k/100) appended and nothing else changes; the rows become the value layer's appended depths |
| Tglc.File.constructor | tglc/tglc.py:81-82 | a new file has no header, no lines and no cache |
| Tglc.File.Read | tglc/tglc.py:84-94 | the file's new table and the outcome are the value layer's read of the lines; its lines stay distinct |
| Tglc.File.Load | tglc/tglc.py:84-92 | before the last update_depths, the file holds what read has built |
| Tglc.File.Attach | tglc/tglc.py:86-90 | the header is set and the new lines are appended through it |
| Tglc.File.FakeReadDepths | tglc/tglc.py:91-92 | fake_depth inside read adds Depth to the header and appends each row's synthetic depth |
| Tglc.File.Rehead | tglc/tglc.py:103 | the header gains the Depth field, and lines that share it read through the new index |
| Tglc.File.FakeDepth | tglc/tglc.py:102-107 | an unset header raises; otherwise Depth gets index nfields and line k gets str(k/100) appended |
| Tglc.File.Write | tglc/tglc.py:96-100 | the lines written are the value layer's write: the header line, then each line's text |
| Records.FlattenBlocks | tglc/tglc.py:157-158 | in the joined rows, the j-th file's rows form one block at its offset |
| Records.ConcatenateKeeps | tglc/tglc.py:155-158 | concatenate raises exactly on an empty list or an unread first file; otherwise it takes the first file's header, keeps the old rows in front, and leaves the cache as it was |
| Records.ConcatenateBlocks | tglc/tglc.py:155-158 | after the old rows, each file's rows follow as one block, in argument order |
| Tglc.RowsOfLinesOf | tglc/tglc.py:157-158 | the rows of all files' lines, joined, are the joined rows of the files |
| Tglc.File.Concatenate | tglc/tglc.py:155-158 | the file succeeds exactly when the value layer's concatenate does, and then holds its old lines followed by every file's lines; on failure nothing changes |
| Tglc.File.AppendLines | tglc/tglc.py:157-158 | every file's lines are appended, in order |
| Sorting.StableSort | tglc/tglc.py:171 | the result is a permutation of the input, ordered by the key |
| Sorting.StableSortIsStable | tglc/tglc.py:171 | elements with equal keys keep their input order |
| Sorting.StableSortMap | tglc/tglc.py:171 | sorting commutes with a map that keeps the keys |
| Records.Sort | tglc/tglc.py:170-171 | raises exactly when some depth does not read, with the first such exception; otherwise a permutation of the rows ascending by depth, with header and cache kept |
| Records.SortIsStable | tglc/tglc.py:170-171 | rows at the same depth keep their order |
| Records.SortAscends | tglc/tglc.py:170-171 | after sorting, a row before another has a depth no greater than it |
| Tglc.SortKeyed | tglc/tglc.py:171 | sorting the lines by depth gives lines whose rows are the sorted rows, and which are still distinct |
| Tglc.File.Sort | tglc/tglc.py:170-171 | the file succeeds exactly when the value layer's sort does, and then holds its result; on failure the lines are unchanged |
| Tglc.File.Reorder | tglc/tglc.py:171 | the lines become the sorted lines; the header and cache are kept |
| Text.StripSpec | tglc/tglc.py:19 | strip removes whitespace from both ends only, and the result neither starts nor ends with whitespace |
| Text.StripIdempotent | tglc/tglc.py:19 | stripping twice is stripping once |
| Text.Split | tglc/tglc.py:20 | a split has at least one piece, no piece holds the separator, and a single piece means no separator |
| Text.JoinSplit | tglc/tglc.py:41-60 | joining the pieces of a split gives back the text |
| Text.SplitJoin | tglc/tglc.py:41-60 | splitting a join of separator-free pieces gives back the pieces |
| Text.ParseIntText | tglc/tglc.py:63 | an integer written as text reads back as that many hundred hundredths |
| Text.ParseHundredthsText | tglc/tglc.py:63 | str(k/100.) reads back as exactly k hundredths |
| Assembly.Names | tglc/tglc.py:256 | the names in list order |
| Assembly.SectionDict | tglc/tglc.py:257-259 | every listed name is a key |
| Assembly.SectionDictKeys | tglc/tglc.py:257-259 | every key is a listed name |
| Assembly.SectionDictLast | tglc/tglc.py:257-259 | the dictionary entry for a name is the tuple of its last occurrence in the list, so duplicate names all take the last tuple |
| Assembly.Plan | tglc/tglc.py:263-267 | the loop visits the names in list order, each with the tuple section_dict holds for it |
| Assembly.Gated | tglc/tglc.py:271-274 | the length gate lets through only a thickness equal to the declared length |
| Assembly.SectionGate | tglc/tglc.py:268-284 | a section that is made measured exactly its declared length after the tray trim, and moves top on by extra_space + length |
| Assembly.SectionGateFails | tglc/tglc.py:269-274 | a trimmed section of the wrong thickness raises the length mismatch, carrying the declared and the measured lengths |
| Assembly.SectionStepAdvances | tglc/tglc.py:268-284 | each section moves top on by its extra space and its length |
| Assembly.FoldAfterFailure | tglc/tglc.py:262-284 | once a section raises, the later sections do not matter |
| Assembly.FoldStops | tglc/tglc.py:262-284 | the first section to raise ends the loop with its exception |
| Assembly.FoldOk | tglc/tglc.py:262-284 | when the loop completes, section k is made with top equal to the span of the sections before it |
| Assembly.SectionsPlaced | tglc/tglc.py:262-284 | a completed loop makes one table per section; section k is made from its file with top equal to the sum over earlier sections of extra space plus thickness (its own extra space is then added), and the final top is the sum over all sections |
| Assembly.LengthGate | tglc/tglc.py:269-274 | a section whose trimmed thickness differs from its length makes the whole assembly raise that mismatch, so nothing is written |
| Assembly.SectionDepthReverses | tglc/tglc.py:277-280 | after the depth map a row's depth is 100*(top + thickness + empty_bottom - old depth), and the map reverses the order of depths |
| Assembly.NoSections | tglc/tglc.py:286-287 | an empty section list raises at files[0] |
| Assembly.CompositeOutput | tglc/tglc.py:286-289 | what is written is the first section's header line, then the text of all rows, permuted from input order to ascending depth, keeping their input order among equal depths |
| Assembly.Tray | tglc/tglc.py:264-270 | a fresh file read from the section's lines and trimmed of its tray holds the value layer's trayed table, or reports its exception |
| Assembly.Place | tglc/tglc.py:275-282 | the edge trim, depth map and optional projection leave the file holding the value layer's placed table, or report its exception |
| Assembly.Finish | tglc/tglc.py:271-284 | the gate and the placement give the value layer's table and next top |
| Assembly.ProcessSection | tglc/tglc.py:264-284 | one section, as a fresh file: the value layer's table for the section and the next top, or its exception |
| Assembly.BesideSection | tglc/tglc.py:264-284 | one section made beside the earlier files, which it leaves unchanged |
| Assembly.NextSection | tglc/tglc.py:264-284 | the same, with the new file's lines apart from the earlier files' |
| Assembly.LoopTurn | tglc/tglc.py:263-284 | a failing turn is the assembly's result; a passing turn extends the fold by one section |
| Assembly.Turn | tglc/tglc.py:263-284 | one turn of the loop: on failure the assembly's exception, else the files so far are the fold of the sections so far |
| Assembly.Compose | tglc/tglc.py:286-289 | concatenating, sorting and writing the files yields the value layer's composite |
| Assembly.AssembleSections | tglc/tglc.py:256-289 | the procedure returns exactly what the assembly function specifies: the lines written, or the exception that stops it |

## Left out

- File I/O: the input template and `open()` are replaced by a map from section name to the file's lines, and a name without an entry stands for a file that cannot be opened. `read` takes the file's lines and `write` returns the lines it would write, each then followed by a newline.
- Floating point: a depth text reads as `int(float(s) * 100)` in exact decimal arithmetic, truncated toward zero. The binary rounding that makes "0.29" read as 28 is not modelled; the model reads 29. Only texts of the form sign, digits, optional fraction are read as numbers; Python's exponents, `inf` and `nan` become the `ValueError` exception.
- Records.DepthRewrite: `change_depth`'s `fn` is given the depth in hundredths (`x*100`) and returns an integer, written back by `'%.0f'` as its integer text. A real-valued `fn` and the rounding of `'%.0f'` are not modelled.
- Records.Row.Flip: `str(-float(x))` is a parameter `negate`. The properties state that only "Y corr" and "Z corr" change, and that a negation that undoes itself makes flipping undo itself.
- Tglc.File.SetDepths: `start` and `increment` are integers. Python's defaults need no modelling, and float arguments are not modelled.
- `Line.get_id`, `Line.getfloat`, `Line.get_moment_Gcm3` (tglc/tglc.py:46-50, 65-69): float conversions and a square root, used by no modelled operation.
- `File.extract_step_intensity` (tglc/tglc.py:177-183): a float conversion of each row for analysis tooling; it changes no state.
- `File.get_max_depth` and `Header.to_string` (tglc/tglc.py:121-122, 26-27): plain getters of `max_depth` and `line`, read directly in the model.
- Python's `assert` in `assemble_sections` is the `LengthMismatch` exception, returned as a result, not a program abort.
- Records.Error: `LengthMismatch` also carries the name of the section that failed the gate. The program's message (tglc/tglc.py:273-274) gives only the two lengths.
- Text.IsSpace: the text layer follows Python 3's `str`, so `strip()` removes Unicode whitespace (for example `\x1c`-`\x1f`, `\x85`, `\xa0`, `\u2000`-`\u200a`). Under Python 2.7, the file's lines are byte strings and `strip()` and `float()` accept only ASCII whitespace; that runtime is not modelled.
- Text.ParseDepth: Python 3's `float()` also accepts underscores between digits and non-ASCII decimal digits; the model raises `ValueError` for both.
- Assembly.SectionDepth: the nested `depth` closure reads `top` when `change_depth` calls it, which is the value `top` has during that call, so the model binds it as a value.
- Aliasing: `Tglc.File.Valid` requires a file's lines to be distinct objects, and `Tglc.File.Concatenate` requires the receiving file not to be among its arguments. Every file made by `assemble_sections` meets both.
- setup.py: packaging metadata.
