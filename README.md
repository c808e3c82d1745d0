# Regression harness of the PV circuit examples, in Dafny

The example scripts of the PV circuit model check each run's results against
saved snapshots. `utilities.py` does the checking. This project models that
file's snapshot-and-compare engine and proves what it does:

- **Tolerant nested comparator** (`compare_nested_dicts`), in `nested_compare.dfy`, with numpy's
  `isclose`/`allclose` rule in `tolerance.dfy`. It compares an old and a new snapshot: nested
  dictionaries whose leaves are records `{value, atol, rtol}`. It prints what differs and returns
  an all-pass flag. In pytest mode, a failing leaf raises an assertion.
- **Timestamped snapshot files** (`make_timestamp`, `make_file_path_with_timestamp`,
  `find_latest_file`), in `timestamps.dfy`. Files are named `prefix_YYYY-MM-DD_HHMMSS.ext`.
  Lookup returns the listed name with the latest valid stamp.
- **Field extraction** (`get_fields`), in `field_extraction.dfy`. It builds a snapshot from a
  device, using the configured attribute lists of section "common" and of the script's own section.
- **Structural device differ** (`compare_devices`), in `device_diff.dfy`. It walks the critical
  fields of two circuit components and prints where they differ, recursing into sub-components.
- **Solver environment warning** (the loop in `run_record_or_test`), in `env_check.dfy`.
- **LTspice cross-check** (`compare_artifact_against_LT_spice`), in `spice_check.dfy`. Only its
  mode gate and acceptance rules are modelled.

`python_values.dfy` holds the Python values, exceptions and `Option` these share. `string_order.dfy`
fixes the order in which key sets are walked.

Each operation that the source writes as a loop is a method with loop invariants. Its `ensures`
ties the result to a recursive specification function: a fold over the prefix of the sequence
already walked. Lemmas about that function state the properties. Printed lines become a returned
report (a sequence of line datatypes). Exceptions become an outcome value (`Raised`/`Halted`). The
clock, the directory listing, the configuration and the circuit library's results become parameters.

### Where the code does not do what the harness is meant to do

The model follows the code. The lemmas make each gap explicit:

- A key present in only one snapshot is printed ("only in dict1/dict2"), but the comparison still
  returns True (`NestedCompare.NewKeyDoesNotFail`).
- A mismatch inside a sub-dictionary is printed, but it never makes the comparison return False,
  and it never fails in pytest mode. The recursive call's result is discarded, and the call runs
  in report mode (`NestedCompare.NestedMismatchDoesNotFail`, `NestedCompare.CompareVerdict`).
- In pytest mode, only a failing top-level leaf aborts. The abort comes after that leaf's line is
  printed, and the preceding keys have already been reported.
- `compare_devices` prints a separator and a header at every level it recurses through, not just
  the innermost difference (`DeviceDiff.SecondCellDiffers`).
- `compare_artifact_against_LT_spice` is active only when the mode is exactly "test". In pytest
  mode it returns `(None, None, None)` (`SpiceCheck.InactiveUnlessTestMode`).

## Model

| member | source | states |
|---|---|---|
| StringOrder.SortedKeys | utilities.py:77-83 | The keys walked are the union of both snapshots' keys, each exactly once (set semantics), in ascending order |
| Tolerance.IsCloseReflexive | utilities.py:112-117 | `np.isclose(a, a)` holds for every non-negative atol and rtol |
| Tolerance.AllCloseReflexive | utilities.py:105-110 | `np.allclose(x, x)` holds for every non-negative atol and rtol |
| Tolerance.IsCloseMonotone | utilities.py:112-117 | Widening atol or rtol keeps a close pair close |
| Tolerance.AllCloseMonotone | utilities.py:105-110 | Widening atol or rtol keeps close arrays close |
| PyValues.PyEq | utilities.py:144-148 | Python's `==` relates only values of the same kind (an int and a float counting as one kind, numbers compared by value). Arrays, strings and other objects are `==` only when they are the same value |
| PyValues.PyEqReflexive | utilities.py:144-148 | Python's `==` holds between a value and itself, at every depth of a dictionary |
| PyValues.PyEqSymmetric | utilities.py:144-148 | Python's `==` does not depend on the order of its operands |
| PyValues.IntEqualsEqualFloat | utilities.py:144-148 | The int 1 and the float 1.0 are different values but `==`, also as values of a dictionary |
| NestedCompare.FullPath | utilities.py:84 | The full path is the key itself at the top, and otherwise the parent path, a dot and the key |
| NestedCompare.ToleranceOf | utilities.py:96-102 | A tolerance is read from the new record: 1e-5 when absent, usable exactly when it is an int or a float, and then the number that int or float stands for |
| NestedCompare.CheckLeaf | utilities.py:96-123 | A pair of values that is neither two arrays nor two numbers passes unchecked. Only a non-numeric tolerance crashes, with TypeError. A mismatch is reported as an array mismatch iff the values are arrays. Two ints pass iff they are equal |
| NestedCompare.CompareNestedDicts | utilities.py:76-127 | The loop over the key union computes exactly the specification `CompareDicts`: lines in order, `all_pass` cleared by failing passes, stopping at the first exception |
| NestedCompare.CompareEntry | utilities.py:84-125 | One key's pass: a one-sided key is printed and skipped; a record pair is checked (and asserted in pytest mode); a non-dictionary raises AttributeError; a sub-dictionary pair is compared in report mode, and its verdict is discarded |
| NestedCompare.RaisedIsFinal | utilities.py:83-125 | Once an exception escapes, later keys change neither the outcome nor the report |
| NestedCompare.ScalarLeafRule | utilities.py:111-123 | Two ints pass iff equal. A float on either side passes iff abs(old - new) <= atol + rtol * abs(new), with the new record's tolerances (default 1e-5). A non-numeric tolerance raises TypeError |
| NestedCompare.ArrayLeafRule | utilities.py:105-110 | Two arrays pass iff they have the same length and each element pair is within atol + rtol * abs(new_i) |
| NestedCompare.WideningKeepsPass | utilities.py:96-117 | Raising the new record's atol or rtol never turns a passing leaf into a failing one |
| NestedCompare.CompareVerdict | utilities.py:83-127 | When the comparison returns, it returns True iff no top-level pair of records fails; one-sided keys and nested mismatches never make it False |
| NestedCompare.StepPytest | utilities.py:108-123 | For one key, pytest mode raises AssertionError exactly when the top-level leaf fails, after printing the same line; otherwise it acts as report mode |
| NestedCompare.PytestAssertsExactlyOnLeafFailure | utilities.py:108-125 | When report mode returns: with no failing top-level leaf, pytest mode runs exactly as report mode and returns True. With one, it raises AssertionError, and what it printed is a prefix of report mode's report |
| NestedCompare.Reflexive | utilities.py:76-127 | Comparing a well-formed snapshot with itself returns True and prints nothing, in either mode, at every depth |
| NestedCompare.TopLevelFindingsReported | utilities.py:86-123 | When the comparison returns, its report holds an "only in dict2" or "only in dict1" line for each one-sided key, and a difference line for each failing top-level leaf |
| NestedCompare.SubDictionaryLinesKept | utilities.py:124-125 | When the comparison returns, the recursive comparison of each pair of sub-dictionaries returned too, and every line it printed is in the report |
| NestedCompare.FailureLine | utilities.py:84-123 | The line of a failing pair of records reached through sub-dictionaries is a difference line at the dotted path of the keys walked |
| NestedCompare.FailuresReportedAtEveryDepth | utilities.py:83-125 | When the comparison returns, a failing pair of records at any depth has its difference line, at its dotted path, in the report |
| NestedCompare.PassingPairPrintsNothing | utilities.py:96-123 | A pair of records that passes its check prints nothing and leaves `all_pass` set, in either mode |
| NestedCompare.OneSidedLine | utilities.py:84-91 | The line of a key found on one side only, reached through sub-dictionaries, is an "only in" line at the dotted path of the keys walked |
| NestedCompare.LinesExplained | utilities.py:76-127 | Every line the comparison prints, whether it returns or raises, is the "only in" line of a one-sided key or the difference line of a failing pair of records, at some depth. Passing pairs and equal sub-dictionaries print nothing |
| NestedCompare.PmaxWithinTolerance | utilities.py:111-117 | Pmax 5.0 against 5.000003 with default tolerances passes, even in pytest mode, and prints nothing |
| NestedCompare.PmaxOutOfTolerance | utilities.py:111-117 | Pmax 5.0 against 5.1 prints "Difference at Pmax: 5.0 (old) != 5.1 (new)" and returns False |
| NestedCompare.NewKeyDoesNotFail | utilities.py:86-88 | A key only in the new snapshot prints "Isc only in dict2", and the comparison still returns True |
| NestedCompare.VocMismatch | utilities.py:111-117 | On its own, the sub-dictionary comparison reports "cell.Voc" 0.7 against 0.8 and returns False |
| NestedCompare.NestedMismatchDoesNotFail | utilities.py:124-125 | A mismatch one level down prints "cell.Voc" but returns True, even in pytest mode |
| Timestamps.FormatStamp | utilities.py:46-47 | `strftime("%Y-%m-%d_%H%M%S")` is 17 characters long |
| Timestamps.MakeFileName | utilities.py:49-51 | The name is the prefix, an underscore, the 17-character stamp of the time, a dot and the extension, in that layout |
| Timestamps.StampGroup | utilities.py:57-65 | A matched group has the stamp's digit shape, and the name it comes from starts with the prefix and ends with the extension, 19 characters longer than both |
| Timestamps.ParseStamp | utilities.py:66-72 | A parsed stamp is a valid date-time; a stamp strptime rejects gives None |
| Timestamps.ParseStampRoundTrip | utilities.py:46-67 | Formatting the time parsed from an accepted stamp gives back the stamp, so each stamp spells one time |
| Timestamps.StampGroupExact | utilities.py:57-64 | The pattern fully matches a name, with group g, iff the name is prefix + "_" + g + "." + extension and g has the stamp's digit shape |
| Timestamps.StampRoundTrip | utilities.py:46-47 | Parsing a formatted valid time with `strptime` gives back that time |
| Timestamps.FileNameRoundTrip | utilities.py:49-67 | The name written at time t fully matches the lookup pattern for the same prefix and extension, and its group parses back to t |
| Timestamps.FileNameInjective | utilities.py:49-51 | Two valid times give the same file name iff they are equal |
| Timestamps.StampOrderIsChronological | utilities.py:46-47 | For valid times, the fixed-width zero-padded stamps sort as strings exactly in chronological order |
| Timestamps.Latest | utilities.py:59-74 | A name that is found is a candidate: it fully matches and its stamp is a valid date-time |
| Timestamps.LatestNoneIffNoCandidate | utilities.py:62-74 | Nothing is found iff no listed name both fully matches and parses |
| Timestamps.LatestIsFirstLatest | utilities.py:62-74 | What is found is a candidate that no candidate is later than, and every candidate listed before it is strictly earlier (the first listed wins a tie) |
| Timestamps.NewestWriteIsFound | utilities.py:49-74 | A file written later than every existing candidate is the one the next lookup finds |
| Timestamps.FindLatestFile | utilities.py:53-74 | The scan keeping `latest_file` and `latest_time` computes exactly `Latest` |
| FieldExtraction.OrDefault | utilities.py:34-37 | A configured tolerance is kept; a missing one becomes 1e-5 |
| FieldExtraction.Entry | utilities.py:38-42 | An extracted record has exactly the keys atol, rtol and value, holding the tolerances and the attribute's value, called when callable |
| FieldExtraction.GetFields | utilities.py:18-44 | The nested loops over the sections and their entries compute exactly `Fields`. A configuration without a "test_attributes" table raises TypeError |
| FieldExtraction.ConfiguredSections | utilities.py:24-30 | The entries visited are those of "common" followed by those of the prefix's section. A None prefix, or one without a section, adds nothing |
| FieldExtraction.MergeKeys | utilities.py:28-38 | A name is in the snapshot iff the device has it and some visited entry lists it |
| FieldExtraction.LastEntryWins | utilities.py:38-42 | A name's record comes from the last visited entry with that name |
| FieldExtraction.MergeRecords | utilities.py:32-42 | Every record is the entry record of some visited entry with its name, and the device has that attribute |
| FieldExtraction.SnapshotKeys | utilities.py:24-32 | The snapshot's names are exactly the device's attributes listed under "common" or under the prefix |
| FieldExtraction.PrefixOverridesCommon | utilities.py:24-38 | An attribute listed in the prefix's section takes its tolerances from that section, whatever "common" says |
| FieldExtraction.SnapshotComparesEqualToItself | utilities.py:18-44 | With non-negative numeric (or absent) configured tolerances, the extracted snapshot is well formed. Comparing it with itself returns True and prints nothing |
| FieldExtraction.CellSnapshot | utilities.py:18-44 | Worked example: a common entry with atol 0.001, a callable Voc, and a configured Isc that the device lacks |
| DeviceDiff.ItemAt | utilities.py:182-183 | Indexing a list gives its item |
| DeviceDiff.Length | utilities.py:178 | `len` of a list is its number of items. It raises TypeError (None here) exactly for a component, a number, or an object held as its text (None, which Python cannot measure either, and tuples, which it can) |
| DeviceDiff.DiffDevices | utilities.py:154-193 | Equal devices print nothing. Unequal devices in pytest mode raise AssertionError before printing. Otherwise the report opens with the separator and the header at the lineage. Every line is at the lineage or deeper, and every line about a field at this lineage names a critical field of device1 |
| DeviceDiff.DiffFields | utilities.py:163-193 | Lines of the critical-field loop lie at or below the lineage, and each line at the lineage names one of the fields walked |
| DeviceDiff.DiffField | utilities.py:164-193 | Every line of one field's pass lies at or below the lineage, and each line at the lineage names that field |
| DeviceDiff.DiffItems | utilities.py:181-191 | Every line of the item loop lies at or below the lineage, and each line at the lineage is an item-difference line of that field |
| DeviceDiff.FieldOutput | utilities.py:164-193 | A field missing on either side prints exactly its "missing" lines. A field both devices have with equal values prints nothing. A differing non-list field prints exactly its one field-difference line |
| DeviceDiff.ItemsLinesJustified | utilities.py:181-191 | Each line the item loop prints at the lineage is the line of an index below the bound whose two items differ, carrying those items, the first not being a component |
| DeviceDiff.FieldLinesJustified | utilities.py:164-193 | Each line one field's pass prints at the lineage reports a real difference: that field missing on that side, a differing non-list value, a list length mismatch, or a differing non-component item of an equal-length list |
| DeviceDiff.FieldsLinesJustified | utilities.py:163-193 | Each line the critical-field loop prints at the lineage reports a real difference of one of the fields walked |
| DeviceDiff.LinesJustified | utilities.py:154-193 | The converse of DifferencesReported: each line the differ prints about the device at the lineage names a critical field and reports a real difference of it, so equal fields and equal items print nothing |
| DeviceDiff.LinesAccounted | utilities.py:154-193 | At every depth, each line the differ prints is a separator, the header of a differing pair of devices reached by drilling into differing component items of equal-length list fields, or a line naming a critical field of that pair and reporting a real difference of it, at that pair's lineage |
| DeviceDiff.SubComponentLinesKept | utilities.py:186-189 | When the comparison finishes, the comparison of a differing component item one position deeper finishes too, and all of its lines are in the report |
| DeviceDiff.ItemsAccounted | utilities.py:181-191 | Each line the item loop prints, at any depth, is a separator, or about a pair of devices reached through the differing component items of that field, at that pair's lineage |
| DeviceDiff.FieldAccounted | utilities.py:164-193 | Each line one critical field's pass prints, at any depth, is accounted for in the same way |
| DeviceDiff.DiffItem | utilities.py:182-191 | An item equal to its partner prints nothing. A differing non-component item prints exactly its item-difference line for index i. A differing component item prints exactly what the report-mode comparison of the two items prints at the lineage extended by i, opening with its separator and header, and ends as it ends. A failing index raises |
| DeviceDiff.CompareDevices | utilities.py:154-193 | The recursive function with nested loops computes exactly `DiffDevices` |
| DeviceDiff.CompareField | utilities.py:164-193 | One pass of the critical-field loop computes exactly `DiffField`, stopping at the first exception |
| DeviceDiff.DifferencesReported | utilities.py:163-193 | For each critical field, when the report completes: a field missing on either side, a differing non-list field and a list length mismatch each have their line |
| DeviceDiff.DifferingItemsReported | utilities.py:181-191 | For each index of an equal-length list field, when the report completes: a differing component item has the header of its own comparison at the lineage extended by the index, and any other differing item has its item-difference line |
| DeviceDiff.LengthMismatchSingleLine | utilities.py:177-179 | A list field with a different length gets exactly one line, and none of its items are compared |
| DeviceDiff.SecondCellDiffers | utilities.py:154-193 | Worked example: two strings whose second cell's Voc differs. The report is the top header, the header at lineage .1, and one field line |
| DeviceDiff.ListAgainstNoneRaises | utilities.py:177-178 | Worked example: a list field against None raises TypeError at `len(None)` before printing anything |
| EnvCheck.AsMap | utilities.py:144 | The dictionary of the current items has exactly their keys |
| EnvCheck.WarnChangedEnv | utilities.py:144-149 | The guarded loop computes exactly `EnvWarnings`, comparing values with Python's `==` |
| EnvCheck.ChangedEnvExactly | utilities.py:145-149 | A warning (key, saved, current) is printed iff both runs set the key, to these two values, and they are not `==` in Python's sense (1 and 1.0 are equal) |
| EnvCheck.EqualityGateIsRedundant | utilities.py:144 | With distinct keys, the dictionary-equality test in front of the loop never changes the warnings |
| EnvCheck.IntAndEqualFloatNotWarned | utilities.py:144-149 | A variable saved as the int 1 and now the float 1.0 gets no warning, neither from the gate nor from the loop |
| EnvCheck.ChangedValueWarned | utilities.py:144-149 | A variable saved as 1 and now 0.5 gets one warning, with the saved value first |
| SpiceCheck.CompareArtifactAgainstSpice | utilities.py:221-249 | The gate, the Pmax check and the point loop compute exactly `CompareToSpice`, stopping at the first failed assertion in pytest mode |
| SpiceCheck.InactiveUnlessTestMode | utilities.py:222-224 | Outside mode "test", nothing is compared or printed, and the result is `(None, None, None)` |
| SpiceCheck.ScanVerdict | utilities.py:236-247 | The report-mode point loop never stops early, passes iff no point is rejected, and prints at most one line per point |
| SpiceCheck.ScanReportsRejections | utilities.py:238-245 | The report-mode point loop prints a line for exactly the rejected points, carrying the point's V, I and interpolated current |
| SpiceCheck.SpiceVerdict | utilities.py:227-249 | In test mode the verdict is True iff Pmax agrees within 1e-5 and every point is accepted by its voltage or its current within 1e-4 |
| SpiceCheck.PytestFailsExactlyOnRejection | utilities.py:230-247 | Pytest mode raises AssertionError iff report mode's verdict is False; otherwise it ends exactly as report mode does |
| SpiceCheck.IdenticalCurvePasses | utilities.py:221-249 | A model that reproduces the reference and its Pmax exactly passes and prints nothing |
| SpiceCheck.EitherInterpolationSuffices | utilities.py:243 | A point whose current misses but whose voltage matches is accepted |

## Left out

- Floating point: values and tolerances are real numbers. NaN, infinities and rounding are not modelled, so `isclose`/`allclose` are the exact inequality over the reals.
- NestedCompare.ArrayLeafRule: arrays of different lengths count as a mismatch. numpy would broadcast them, or raise ValueError. Arrays are one-dimensional.
- NestedCompare.ToleranceOf: only int and float tolerances are usable. Any other tolerance (a string, a list, an array) raises TypeError, although numpy accepts array-valued tolerances.
- NestedCompare.CompareNestedDicts: the key union is walked in ascending code-point order. Python walks a set in hash order, which changes between interpreter runs. The verdict lemmas hold for every order; the report order does not.
- Booleans and other Python numeric types (a bool is an int in Python) are not distinguished from ints and floats. A leaf that is not a number, an array, a str or a dict (None, a list, a tuple) is represented as its text, which has no length.
- DeviceDiff.DiffItems: its own contract only places the deeper lines below the lineage. That they are the nested comparisons' findings, all of them and nothing else, is stated by DiffItem, ItemLinesKept, SubComponentLinesKept, ItemsAccounted and LinesAccounted.
- DeviceDiff.Length: a tuple, like any object held as its text, counts as having no length, so `len` raises TypeError where Python measures a tuple. A list field against a tuple of the same length therefore halts here, while Python compares their items. None is faithful: `len(None)` raises in Python too.
- PyValues.PyEq: objects represented by their text (None, lists, tuples) are `==` exactly when their texts are equal. Python compares lists element by element, so `[1, 2] == [1.0, 2.0]` holds there but not here.
- Timestamps.ParseStamp: `\d` is taken as an ASCII digit, although Python's `\d` also matches other Unicode digits. The extension is a plain string without regex metacharacters.
- Timestamps.FormatStamp: it requires a valid time, and years below 1000 are padded to four digits (glibc's `%Y` does not pad them).
- Timestamps.FindLatestFile: it returns None when nothing matches. At that point `os.path.join(directory, None)` raises TypeError.
- The directory and file I/O: `os.listdir` becomes a sequence of names; the directory prefix of paths, `pickle`, `json`, `device.dump`, `Artifact.load`, `get_mode`, `get_LT_spice_IV` and `np.loadtxt` are not part of this model.
- The clocks: `datetime.now` becomes a parameter, and the `time.perf_counter` timing message of `get_fields` is dropped.
- The circuit library: `build_IV`, `null_all_IV`, `get_Pmax`, `ParameterSet` and `np.interp` are foreign calls. The built device is a map of attributes, and the maximum powers and interpolated values are inputs. A callable attribute is represented by the value its call returns.
- FieldExtraction.GetFields: the defaults that lines 34-37 write back into the loaded configuration are not modelled. That configuration is local to the call and is dropped when the call returns. An entry without a "name" key, which raises KeyError, is not modelled either.
- DeviceDiff.DiffDevices: structural equality of the datatype stands for the library's `==` on components. Field values are compared as whole values; numpy's element-wise `!=` on arrays, which would raise in an `if`, is not modelled. `len` of a component raises TypeError here. Dictionary items are keyed by strings, so indexing one by position raises KeyError.
- DeviceDiff.DiffDevices: values are compared by structural equality, so an int and the float standing for the same number (1 and 1.0) count as different there, where Python's `!=` at lines 157, 176 and 186 treats them as equal.
- EnvCheck.WarnChangedEnv: two arrays are equal when their elements are. Python's `==` on numpy arrays is element-wise, and its truth value raises ValueError in the `if` at line 148 for arrays of more than one element.
- DeviceDiff.DiffDevices: the pytest assertions at lines 164-166, 174-175 and 184-185 are left out. They cannot fire: pytest mode with unequal devices has already failed at line 156, and the recursive calls run in report mode.
- Printed text: lines are datatype values carrying what each message interpolates. The `.i.j` rendering of a lineage and the number formatting are not modelled.
- The orchestration of `run_record_or_test` and `record_or_compare_artifact` is not modelled: choosing record or compare from the mode, then loading the latest snapshot and calling the comparators. Their parts are.
- The example scripts `a01`-`a05` (device builders and plots) and the `main.py` driver are not part of this model.
