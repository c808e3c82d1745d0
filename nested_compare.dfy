/** The tolerant comparator of regression snapshots: `compare_nested_dicts`
    (utilities.py:76-127).

    It walks the union of the keys of an old (recorded) and a new
    (candidate) dictionary.  A key on one side only is printed and
    skipped.  When both values are records carrying a "value", the two
    values are compared with the tolerances of the NEW record; any other
    pair of values is compared recursively as dictionaries, but the
    recursive call's verdict is thrown away and it always runs in report
    mode.  So only the leaves directly under the top-level keys decide
    the verdict, and only they can trigger the assertion of pytest mode. */
module NestedCompare {
  import opened PyValues
  import opened Tolerance
  import opened StringOrder

  /** A line the comparator prints. */
  datatype Line =
    | OnlyInSecond(path: string)                               // "<path> only in dict2"
    | OnlyInFirst(path: string)                                // "<path> only in dict1"
    | ArraysDiffer(path: string)                               // "Difference at <path>: arrays not equal"
    | ValuesDiffer(path: string, was: PyValue, now: PyValue)   // "Difference at <path>: <old> (old) != <new> (new)"

  /** How a comparison ends, and what it printed on the way. */
  datatype Run = Run(outcome: Outcome, report: seq<Line>)

  /** The dotted path of `key` below `path` (an empty path is the top). */
  function FullPath(path: string, key: string): (full: string)
    ensures path == "" ==> full == key
    ensures path != "" ==> path + "." <= full && full[|path| + 1..] == key
  {
    if path == "" then key else path + "." + key
  }

  /** A field record: a dictionary that carries a "value". */
  predicate IsRecord(v: PyValue)
  {
    v.PyDict? && "value" in v.entries
  }

  /** The tolerance `name` ("atol" or "rtol") of a record: 1e-5 when
      absent, the number when it is an int or a float, and None when it
      is something numpy cannot compute with. */
  function ToleranceOf(rec: map<string, PyValue>, name: string): (t: Option<real>)
    ensures name !in rec ==> t == Some(DefaultTol)
    ensures name in rec ==> (t.Some? <==> IsNumber(rec[name]))
    ensures name in rec && IsNumber(rec[name]) ==> t == Some(AsReal(rec[name]))
  {
    if name !in rec then Some(DefaultTol)
    else if IsNumber(rec[name]) then Some(AsReal(rec[name]))
    else None
  }

  /** The verdict on one pair of records. */
  datatype LeafVerdict = Pass | Mismatch(arrays: bool) | Crash(error: Exception)

  /** Lines 96-123 for a pair of records: arrays with `allclose`, a float
      on either side with `isclose`, two ints exactly; any other pair of
      value types passes without a check.  Tolerances come from `rec2`. */
  function CheckLeaf(rec1: map<string, PyValue>, rec2: map<string, PyValue>): (r: LeafVerdict)
    requires "value" in rec1 && "value" in rec2
    ensures !(rec1["value"].PyArray? && rec2["value"].PyArray?) && !(IsNumber(rec1["value"]) && IsNumber(rec2["value"])) ==> r == Pass
    ensures r.Crash? ==> r.error == TypeError && (ToleranceOf(rec2, "atol").None? || ToleranceOf(rec2, "rtol").None?)
    ensures r.Mismatch? ==> (r.arrays <==> rec1["value"].PyArray?)
    ensures rec1["value"].PyInt? && rec2["value"].PyInt? ==> (r == Pass <==> rec1["value"] == rec2["value"])
  {
    var v1, v2 := rec1["value"], rec2["value"];
    var atol, rtol := ToleranceOf(rec2, "atol"), ToleranceOf(rec2, "rtol");
    if v1.PyArray? && v2.PyArray? then
      if atol.None? || rtol.None? then Crash(TypeError)
      else if AllClose(v1.elems, v2.elems, atol.value, rtol.value) then Pass
      else Mismatch(true)
    else if IsNumber(v1) && IsNumber(v2) then
      if v1.PyFloat? || v2.PyFloat? then
        if atol.None? || rtol.None? then Crash(TypeError)
        else if IsClose(AsReal(v1), AsReal(v2), atol.value, rtol.value) then Pass
        else Mismatch(false)
      else if v1.i == v2.i then Pass
      else Mismatch(false)
    else Pass
  }

  /** The line printed for a failing pair of records under `full`. */
  function MismatchLine(full: string, rec1: map<string, PyValue>, rec2: map<string, PyValue>, arrays: bool): Line
    requires "value" in rec1 && "value" in rec2
  {
    if arrays then ArraysDiffer(full) else ValuesDiffer(full, rec1["value"], rec2["value"])
  }

  /** One pass of the loop body (lines 84-125) for `key`.  Its outcome is
      `Returned(false)` when the pass clears `all_pass`, `Returned(true)`
      when it leaves it alone, `Raised(e)` when an exception escapes. */
  function CompareKey(d1: map<string, PyValue>, d2: map<string, PyValue>, key: string, path: string, pytest: bool): Run
    decreases PyDict(d1), 0
  {
    var full := FullPath(path, key);
    if key !in d1 then Run(Returned(true), [OnlyInSecond(full)])
    else if key !in d2 then Run(Returned(true), [OnlyInFirst(full)])
    else
      var v1, v2 := d1[key], d2[key];
      if IsRecord(v1) && IsRecord(v2) then
        match CheckLeaf(v1.entries, v2.entries)
        case Pass => Run(Returned(true), [])
        case Mismatch(arrays) =>
          Run(if pytest then Raised(AssertionError) else Returned(false),
              [MismatchLine(full, v1.entries, v2.entries, arrays)])
        case Crash(e) => Run(Raised(e), [])
      else if !v1.PyDict? || !v2.PyDict? then
        // the recursive call evaluates `dict1.keys()` on a non-dictionary
        Run(Raised(AttributeError), [])
      else
        assert v1 == PyDict(v1.entries);
        var nested := CompareDicts(v1.entries, v2.entries, full, false);
        Run(if nested.outcome.Raised? then nested.outcome else Returned(true), nested.report)
  }

  /** Folds one key's pass into the loop state so far: an exception
      stops the loop; otherwise the lines are appended and `all_pass`
      is cleared when the pass fails. */
  function Then(before: Run, step: Run): Run
  {
    if before.outcome.Raised? then before
    else
      Run(if step.outcome.Raised? then step.outcome
          else Returned(before.outcome.allPass && step.outcome.allPass),
          before.report + step.report)
  }

  /** The loop of lines 83-125 run over `keys`, in order. */
  function CompareKeys(d1: map<string, PyValue>, d2: map<string, PyValue>, keys: seq<string>, path: string, pytest: bool): Run
    decreases PyDict(d1), 1, |keys|
  {
    if keys == [] then Run(Returned(true), [])
    else Then(CompareKeys(d1, d2, keys[..|keys| - 1], path, pytest), CompareKey(d1, d2, keys[|keys| - 1], path, pytest))
  }

  lemma CompareKeysStep(d1: map<string, PyValue>, d2: map<string, PyValue>, keys: seq<string>, i: nat, path: string, pytest: bool)
    requires i < |keys|
    ensures CompareKeys(d1, d2, keys[..i + 1], path, pytest)
         == Then(CompareKeys(d1, d2, keys[..i], path, pytest), CompareKey(d1, d2, keys[i], path, pytest))
  {
    assert keys[..i + 1][..i] == keys[..i];
  }

  /** `compare_nested_dicts(d1, d2, path, pytest)`, walking the key union
      in ascending order. */
  function CompareDicts(d1: map<string, PyValue>, d2: map<string, PyValue>, path: string, pytest: bool): Run
    decreases PyDict(d1), 2
  {
    CompareKeys(d1, d2, SortedKeys(d1.Keys + d2.Keys), path, pytest)
  }

  /** Once an exception has escaped, later keys change nothing. */
  lemma {:induction false} RaisedIsFinal(d1: map<string, PyValue>, d2: map<string, PyValue>, keys: seq<string>, n: nat, path: string, pytest: bool)
    requires n <= |keys|
    requires CompareKeys(d1, d2, keys[..n], path, pytest).outcome.Raised?
    ensures CompareKeys(d1, d2, keys, path, pytest) == CompareKeys(d1, d2, keys[..n], path, pytest)
    decreases |keys|
  {
    if n < |keys| {
      assert keys[..|keys| - 1][..n] == keys[..n];
      RaisedIsFinal(d1, d2, keys[..|keys| - 1], n, path, pytest);
    } else {
      assert keys[..n] == keys;
    }
  }

  /** One turn of the loop over `keys`: a pass that raises ends the whole
      comparison; otherwise its lines are appended and its verdict is
      folded into `all_pass`. */
  lemma LoopStep(d1: map<string, PyValue>, d2: map<string, PyValue>, keys: seq<string>, i: nat, path: string, pytest: bool,
                 allPass: bool, report: seq<Line>)
    requires i < |keys|
    requires CompareKeys(d1, d2, keys[..i], path, pytest) == Run(Returned(allPass), report)
    ensures var step := CompareKey(d1, d2, keys[i], path, pytest);
            if step.outcome.Raised?
            then CompareKeys(d1, d2, keys, path, pytest) == Run(step.outcome, report + step.report)
            else CompareKeys(d1, d2, keys[..i + 1], path, pytest)
                 == Run(Returned(allPass && step.outcome.allPass), report + step.report)
  {
    CompareKeysStep(d1, d2, keys, i, path, pytest);
    if CompareKey(d1, d2, keys[i], path, pytest).outcome.Raised? {
      RaisedIsFinal(d1, d2, keys, i + 1, path, pytest);
    }
  }

  /** The comparator as the source runs it: a loop over the key union
      that updates `all_pass` and prints, stopping at the first exception. */
  method CompareNestedDicts(d1: map<string, PyValue>, d2: map<string, PyValue>, path: string, pytestMode: bool)
    returns (run: Run)
    ensures run == CompareDicts(d1, d2, path, pytestMode)
    decreases PyDict(d1), 1
  {
    var keys := SortedKeys(d1.Keys + d2.Keys);
    var allPass := true;
    var report: seq<Line> := [];
    for i := 0 to |keys|
      invariant CompareKeys(d1, d2, keys[..i], path, pytestMode) == Run(Returned(allPass), report)
    {
      var step := CompareEntry(d1, d2, keys[i], path, pytestMode);
      LoopStep(d1, d2, keys, i, path, pytestMode, allPass, report);
      report := report + step.report;
      if step.outcome.Raised? {
        return Run(step.outcome, report);
      }
      allPass := allPass && step.outcome.allPass;
    }
    assert keys[..|keys|] == keys;
    run := Run(Returned(allPass), report);
  }

  /** The loop body for one key, as the source runs it; `CompareKey`
      specifies it. */
  method CompareEntry(d1: map<string, PyValue>, d2: map<string, PyValue>, key: string, path: string, pytestMode: bool)
    returns (step: Run)
    ensures step == CompareKey(d1, d2, key, path, pytestMode)
    decreases PyDict(d1), 0
  {
    var full := FullPath(path, key);
    if key !in d1 {
      return Run(Returned(true), [OnlyInSecond(full)]);
    }
    if key !in d2 {
      return Run(Returned(true), [OnlyInFirst(full)]);
    }
    var val1, val2 := d1[key], d2[key];
    if IsRecord(val1) && IsRecord(val2) {
      match CheckLeaf(val1.entries, val2.entries)
      case Pass =>
        step := Run(Returned(true), []);
      case Mismatch(arrays) =>
        var line := MismatchLine(full, val1.entries, val2.entries, arrays);
        step := Run(if pytestMode then Raised(AssertionError) else Returned(false), [line]);
      case Crash(e) =>
        step := Run(Raised(e), []);
    } else if !val1.PyDict? || !val2.PyDict? {
      step := Run(Raised(AttributeError), []);
    } else {
      assert val1 == PyDict(val1.entries);
      var nested := CompareNestedDicts(val1.entries, val2.entries, full, false);
      step := Run(if nested.outcome.Raised? then nested.outcome else Returned(true), nested.report);
    }
  }

  // ---------------------------------------------------------------------
  // The leaf rules (lines 96-123)

  /** Two ints compare exactly; any other pair of numbers passes exactly
      when |old - new| <= atol + rtol * |new|, with atol and rtol read
      from the new record and 1e-5 where it has none. */
  lemma ScalarLeafRule(rec1: map<string, PyValue>, rec2: map<string, PyValue>)
    requires "value" in rec1 && "value" in rec2
    requires IsNumber(rec1["value"]) && IsNumber(rec2["value"])
    ensures rec1["value"].PyInt? && rec2["value"].PyInt? ==>
              (CheckLeaf(rec1, rec2) == Pass <==> rec1["value"].i == rec2["value"].i) &&
              !CheckLeaf(rec1, rec2).Crash?
    ensures (rec1["value"].PyFloat? || rec2["value"].PyFloat?) ==>
              var atol := if "atol" in rec2 then rec2["atol"] else PyFloat(DefaultTol);
              var rtol := if "rtol" in rec2 then rec2["rtol"] else PyFloat(DefaultTol);
              (IsNumber(atol) && IsNumber(rtol) ==>
                 (CheckLeaf(rec1, rec2) == Pass <==>
                  IsClose(AsReal(rec1["value"]), AsReal(rec2["value"]), AsReal(atol), AsReal(rtol)))) &&
              (!(IsNumber(atol) && IsNumber(rtol)) ==> CheckLeaf(rec1, rec2) == Crash(TypeError))
  {
  }

  /** Two arrays pass exactly when they have the same length and every
      pair of elements is within atol + rtol * |new_i|. */
  lemma ArrayLeafRule(rec1: map<string, PyValue>, rec2: map<string, PyValue>)
    requires "value" in rec1 && "value" in rec2
    requires rec1["value"].PyArray? && rec2["value"].PyArray?
    requires ToleranceOf(rec2, "atol").Some? && ToleranceOf(rec2, "rtol").Some?
    ensures var xs, ys := rec1["value"].elems, rec2["value"].elems;
            var atol, rtol := ToleranceOf(rec2, "atol").value, ToleranceOf(rec2, "rtol").value;
            CheckLeaf(rec1, rec2) == Pass <==>
              |xs| == |ys| && forall i :: 0 <= i < |xs| ==> Abs(xs[i] - ys[i]) <= atol + rtol * Abs(ys[i])
    ensures !CheckLeaf(rec1, rec2).Crash?
  {
  }

  /** Raising the new record's atol or rtol never turns a passing leaf
      into a failing one. */
  lemma WideningKeepsPass(rec1: map<string, PyValue>, rec2: map<string, PyValue>, atol': PyValue, rtol': PyValue)
    requires "value" in rec1 && "value" in rec2
    requires ToleranceOf(rec2, "atol").Some? && ToleranceOf(rec2, "rtol").Some?
    requires IsNumber(atol') && IsNumber(rtol')
    requires ToleranceOf(rec2, "atol").value <= AsReal(atol')
    requires ToleranceOf(rec2, "rtol").value <= AsReal(rtol')
    requires CheckLeaf(rec1, rec2) == Pass
    ensures CheckLeaf(rec1, rec2["atol" := atol']["rtol" := rtol']) == Pass
  {
    var wide := rec2["atol" := atol']["rtol" := rtol'];
    assert ToleranceOf(wide, "atol") == Some(AsReal(atol'));
    assert ToleranceOf(wide, "rtol") == Some(AsReal(rtol'));
    var v1, v2 := rec1["value"], rec2["value"];
    assert wide["value"] == v2;
    var a, r := ToleranceOf(rec2, "atol").value, ToleranceOf(rec2, "rtol").value;
    if v1.PyArray? && v2.PyArray? {
      AllCloseMonotone(v1.elems, v2.elems, a, r, AsReal(atol'), AsReal(rtol'));
    } else if IsNumber(v1) && IsNumber(v2) && (v1.PyFloat? || v2.PyFloat?) {
      IsCloseMonotone(AsReal(v1), AsReal(v2), a, r, AsReal(atol'), AsReal(rtol'));
    }
  }

  // ---------------------------------------------------------------------
  // The verdict

  /** The entry under `key` is a pair of records (one on each side) whose
      check fails: the only thing that clears `all_pass`. */
  predicate LeafFails(d1: map<string, PyValue>, d2: map<string, PyValue>, key: string)
  {
    key in d1 && key in d2 && IsRecord(d1[key]) && IsRecord(d2[key]) &&
    CheckLeaf(d1[key].entries, d2[key].entries).Mismatch?
  }

  lemma {:induction false} KeysVerdict(d1: map<string, PyValue>, d2: map<string, PyValue>, keys: seq<string>, path: string)
    ensures var run := CompareKeys(d1, d2, keys, path, false);
            run.outcome.Returned? ==>
              (run.outcome.allPass <==> forall i :: 0 <= i < |keys| ==> !LeafFails(d1, d2, keys[i]))
    decreases |keys|
  {
    if keys != [] {
      var n := |keys| - 1;
      KeysVerdict(d1, d2, keys[..n], path);
      assert forall i :: 0 <= i < n ==> keys[..n][i] == keys[i];
    }
  }

  /** When the comparison returns, it returns true exactly when no
      top-level pair of records fails: keys on one side only, and
      mismatches inside sub-dictionaries, never make it false. */
  lemma CompareVerdict(d1: map<string, PyValue>, d2: map<string, PyValue>, path: string)
    ensures var run := CompareDicts(d1, d2, path, false);
            run.outcome.Returned? ==> (run.outcome.allPass <==> forall k :: !LeafFails(d1, d2, k))
  {
    var keys := SortedKeys(d1.Keys + d2.Keys);
    KeysVerdict(d1, d2, keys, path);
    forall k | LeafFails(d1, d2, k)
      ensures exists i :: 0 <= i < |keys| && keys[i] == k
    {
      assert k in keys;
    }
  }

  // ---------------------------------------------------------------------
  // pytest mode

  lemma StepPytest(d1: map<string, PyValue>, d2: map<string, PyValue>, key: string, path: string)
    ensures CompareKey(d1, d2, key, path, true)
         == if LeafFails(d1, d2, key)
            then Run(Raised(AssertionError), CompareKey(d1, d2, key, path, false).report)
            else CompareKey(d1, d2, key, path, false)
  {
  }

  lemma {:induction false} KeysPytest(d1: map<string, PyValue>, d2: map<string, PyValue>, keys: seq<string>, path: string)
    requires CompareKeys(d1, d2, keys, path, false).outcome.Returned?
    ensures var lenient, strict := CompareKeys(d1, d2, keys, path, false), CompareKeys(d1, d2, keys, path, true);
            (lenient.outcome.allPass ==> strict == lenient) &&
            (!lenient.outcome.allPass ==> strict.outcome == Raised(AssertionError) && strict.report <= lenient.report)
    decreases |keys|
  {
    if keys != [] {
      var n := |keys| - 1;
      var key := keys[n];
      var lenientBefore := CompareKeys(d1, d2, keys[..n], path, false);
      assert lenientBefore.outcome.Returned?;
      KeysPytest(d1, d2, keys[..n], path);
      StepPytest(d1, d2, key, path);
    }
  }

  /** In pytest mode the assertion fires exactly when a top-level pair of
      records fails: if report mode would return true, pytest mode runs
      identically; if report mode would return false, pytest mode stops
      with an AssertionError, having printed a prefix of the report. */
  lemma PytestAssertsExactlyOnLeafFailure(d1: map<string, PyValue>, d2: map<string, PyValue>, path: string)
    requires CompareDicts(d1, d2, path, false).outcome.Returned?
    ensures var lenient, strict := CompareDicts(d1, d2, path, false), CompareDicts(d1, d2, path, true);
            ((forall k :: !LeafFails(d1, d2, k)) ==> strict == lenient && strict.outcome == Returned(true)) &&
            ((exists k :: LeafFails(d1, d2, k)) ==>
               strict.outcome == Raised(AssertionError) && strict.report <= lenient.report)
  {
    KeysPytest(d1, d2, SortedKeys(d1.Keys + d2.Keys), path);
    CompareVerdict(d1, d2, path);
  }

  // ---------------------------------------------------------------------
  // Reflexivity

  /** Both tolerances of a record are usable numbers, and not negative. */
  predicate SoundTolerances(rec: map<string, PyValue>)
  {
    && ToleranceOf(rec, "atol").Some? && ToleranceOf(rec, "atol").value >= 0.0
    && ToleranceOf(rec, "rtol").Some? && ToleranceOf(rec, "rtol").value >= 0.0
  }

  /** A snapshot entry: a record with sound tolerances, or a dictionary
      of such entries. */
  predicate WellFormedValue(v: PyValue)
    decreases v
  {
    v.PyDict? &&
    if "value" in v.entries then SoundTolerances(v.entries)
    else forall k :: k in v.entries ==> WellFormedValue(v.entries[k])
  }

  predicate WellFormed(d: map<string, PyValue>)
  {
    forall k :: k in d ==> WellFormedValue(d[k])
  }

  lemma LeafReflexive(rec: map<string, PyValue>)
    requires "value" in rec && SoundTolerances(rec)
    ensures CheckLeaf(rec, rec) == Pass
  {
    var v := rec["value"];
    var a, r := ToleranceOf(rec, "atol").value, ToleranceOf(rec, "rtol").value;
    if v.PyArray? {
      AllCloseReflexive(v.elems, a, r);
    } else if v.PyFloat? {
      IsCloseReflexive(AsReal(v), a, r);
    }
  }

  /** Comparing a well-formed snapshot with itself passes and prints
      nothing, in either mode. */
  lemma {:induction false} Reflexive(d: map<string, PyValue>, path: string, pytest: bool)
    requires WellFormed(d)
    ensures CompareDicts(d, d, path, pytest) == Run(Returned(true), [])
    decreases PyDict(d), 2
  {
    var keys := SortedKeys(d.Keys + d.Keys);
    forall i | 0 <= i < |keys|
      ensures keys[i] in d
    {
      assert keys[i] in keys;
    }
    ReflexiveKeys(d, keys, path, pytest);
  }

  lemma {:induction false} ReflexiveKeys(d: map<string, PyValue>, keys: seq<string>, path: string, pytest: bool)
    requires WellFormed(d)
    requires forall i :: 0 <= i < |keys| ==> keys[i] in d
    ensures CompareKeys(d, d, keys, path, pytest) == Run(Returned(true), [])
    decreases PyDict(d), 1, |keys|
  {
    if keys != [] {
      var n := |keys| - 1;
      ReflexiveKeys(d, keys[..n], path, pytest);
      ReflexiveKey(d, keys[n], path, pytest);
    }
  }

  lemma {:induction false} ReflexiveKey(d: map<string, PyValue>, key: string, path: string, pytest: bool)
    requires WellFormed(d) && key in d
    ensures CompareKey(d, d, key, path, pytest) == Run(Returned(true), [])
    decreases PyDict(d), 0
  {
    var v := d[key];
    assert WellFormedValue(v);
    if IsRecord(v) {
      LeafReflexive(v.entries);
    } else {
      assert v == PyDict(v.entries);
      Reflexive(v.entries, FullPath(path, key), false);
    }
  }

  // ---------------------------------------------------------------------
  // Nothing is dropped from the report

  lemma {:induction false} KeysReportGrows(d1: map<string, PyValue>, d2: map<string, PyValue>, keys: seq<string>, n: nat, path: string, pytest: bool)
    requires n <= |keys|
    ensures CompareKeys(d1, d2, keys[..n], path, pytest).report <= CompareKeys(d1, d2, keys, path, pytest).report
    decreases |keys|
  {
    if n < |keys| {
      assert keys[..|keys| - 1][..n] == keys[..n];
      KeysReportGrows(d1, d2, keys[..|keys| - 1], n, path, pytest);
    } else {
      assert keys[..n] == keys;
    }
  }

  /** Every line printed for the key at position `i` stays in the report
      of a comparison that returns. */
  lemma KeyLinesKept(d1: map<string, PyValue>, d2: map<string, PyValue>, keys: seq<string>, i: nat, path: string, pytest: bool)
    requires i < |keys|
    requires CompareKeys(d1, d2, keys, path, pytest).outcome.Returned?
    ensures CompareKey(d1, d2, keys[i], path, pytest).outcome.Returned?
    ensures forall line :: line in CompareKey(d1, d2, keys[i], path, pytest).report ==>
              line in CompareKeys(d1, d2, keys, path, pytest).report
  {
    CompareKeysStep(d1, d2, keys, i, path, pytest);
    KeysReportGrows(d1, d2, keys, i + 1, path, pytest);
    if CompareKeys(d1, d2, keys[..i], path, pytest).outcome.Raised? {
      RaisedIsFinal(d1, d2, keys, i, path, pytest);
      assert false;
    }
    if CompareKey(d1, d2, keys[i], path, pytest).outcome.Raised? {
      RaisedIsFinal(d1, d2, keys, i + 1, path, pytest);
      assert false;
    }
  }

  /** When the comparison returns, its report names every key found on
      one side only and every failing top-level pair of records. */
  lemma TopLevelFindingsReported(d1: map<string, PyValue>, d2: map<string, PyValue>, path: string, pytest: bool)
    ensures var run := CompareDicts(d1, d2, path, pytest);
            run.outcome.Returned? ==>
              && (forall k :: k in d2 && k !in d1 ==> OnlyInSecond(FullPath(path, k)) in run.report)
              && (forall k :: k in d1 && k !in d2 ==> OnlyInFirst(FullPath(path, k)) in run.report)
              && (forall k :: LeafFails(d1, d2, k) ==>
                    MismatchLine(FullPath(path, k), d1[k].entries, d2[k].entries,
                                 CheckLeaf(d1[k].entries, d2[k].entries).arrays) in run.report)
  {
    var keys := SortedKeys(d1.Keys + d2.Keys);
    var run := CompareKeys(d1, d2, keys, path, pytest);
    if run.outcome.Returned? {
      forall k | k in d1 || k in d2
        ensures forall line :: line in CompareKey(d1, d2, k, path, pytest).report ==> line in run.report
      {
        KeyLinesKept(d1, d2, keys, IndexOf(keys, k), path, pytest);
      }
      forall k | LeafFails(d1, d2, k)
        ensures MismatchLine(FullPath(path, k), d1[k].entries, d2[k].entries,
                             CheckLeaf(d1[k].entries, d2[k].entries).arrays) in run.report
      {
        assert MismatchLine(FullPath(path, k), d1[k].entries, d2[k].entries,
                            CheckLeaf(d1[k].entries, d2[k].entries).arrays)
               in CompareKey(d1, d2, k, path, pytest).report;
      }
    }
  }

  function IndexOf(keys: seq<string>, k: string): (i: nat)
    requires k in keys
    ensures i < |keys| && keys[i] == k
  {
    if keys[0] == k then 0 else 1 + IndexOf(keys[1..], k)
  }

  /** The comparison of the sub-dictionaries under `k` returns, and every
      line it prints is in the report of an outer comparison that returns. */
  lemma SubDictionaryLinesKept(d1: map<string, PyValue>, d2: map<string, PyValue>, k: string, path: string, pytest: bool)
    requires k in d1 && k in d2 && d1[k].PyDict? && d2[k].PyDict? && !(IsRecord(d1[k]) && IsRecord(d2[k]))
    requires CompareDicts(d1, d2, path, pytest).outcome.Returned?
    ensures var inner := CompareDicts(d1[k].entries, d2[k].entries, FullPath(path, k), false);
            inner.outcome.Returned? && forall line :: line in inner.report ==> line in CompareDicts(d1, d2, path, pytest).report
  {
    var keys := SortedKeys(d1.Keys + d2.Keys);
    assert k in d1.Keys + d2.Keys;
    KeyLinesKept(d1, d2, keys, IndexOf(keys, k), path, pytest);
  }

  /** Walking `keys` down from `d1` and `d2` through pairs of
      sub-dictionaries (not both records) reaches a pair of records whose
      check fails. */
  predicate FailsAt(d1: map<string, PyValue>, d2: map<string, PyValue>, keys: seq<string>)
    decreases |keys|
  {
    if |keys| <= 1 then |keys| == 1 && LeafFails(d1, d2, keys[0])
    else
      var k := keys[0];
      && k in d1 && k in d2 && d1[k].PyDict? && d2[k].PyDict? && !(IsRecord(d1[k]) && IsRecord(d2[k]))
      && FailsAt(d1[k].entries, d2[k].entries, keys[1..])
  }

  /** The dotted path of `keys` below `path`. */
  function PathOf(path: string, keys: seq<string>): string
    decreases |keys|
  {
    if keys == [] then path else PathOf(FullPath(path, keys[0]), keys[1..])
  }

  /** The difference line printed for the failing pair at the end of `keys`. */
  function FailureLine(d1: map<string, PyValue>, d2: map<string, PyValue>, path: string, keys: seq<string>): (line: Line)
    requires FailsAt(d1, d2, keys)
    ensures (line.ArraysDiffer? || line.ValuesDiffer?) && line.path == PathOf(path, keys)
    decreases |keys|
  {
    var k := keys[0];
    if |keys| == 1 then
      MismatchLine(FullPath(path, k), d1[k].entries, d2[k].entries, CheckLeaf(d1[k].entries, d2[k].entries).arrays)
    else FailureLine(d1[k].entries, d2[k].entries, FullPath(path, k), keys[1..])
  }

  /** When the comparison returns, a failing pair of records at any depth
      has its difference line in the report, though below the top level it
      never makes the verdict false. */
  lemma {:induction false} FailuresReportedAtEveryDepth(d1: map<string, PyValue>, d2: map<string, PyValue>, keys: seq<string>,
                                                        path: string, pytest: bool)
    requires FailsAt(d1, d2, keys)
    requires CompareDicts(d1, d2, path, pytest).outcome.Returned?
    ensures FailureLine(d1, d2, path, keys) in CompareDicts(d1, d2, path, pytest).report
    decreases |keys|
  {
    var k := keys[0];
    if |keys| == 1 {
      TopLevelFindingsReported(d1, d2, path, pytest);
    } else {
      SubDictionaryLinesKept(d1, d2, k, path, pytest);
      FailuresReportedAtEveryDepth(d1[k].entries, d2[k].entries, keys[1..], FullPath(path, k), false);
    }
  }

  // ---------------------------------------------------------------------
  // Nothing is printed without a reason

  /** A pair of records that passes its check prints nothing and leaves
      `all_pass` alone, in either mode. */
  lemma PassingPairPrintsNothing(d1: map<string, PyValue>, d2: map<string, PyValue>, k: string, path: string, pytest: bool)
    requires k in d1 && k in d2 && IsRecord(d1[k]) && IsRecord(d2[k])
    requires CheckLeaf(d1[k].entries, d2[k].entries) == Pass
    ensures CompareKey(d1, d2, k, path, pytest) == Run(Returned(true), [])
  {
  }

  /** Walking `keys` down from `d1` and `d2` through pairs of
      sub-dictionaries (not both records) reaches a key that only one
      side has. */
  predicate OneSidedAt(d1: map<string, PyValue>, d2: map<string, PyValue>, keys: seq<string>)
    decreases |keys|
  {
    if |keys| <= 1 then |keys| == 1 && (keys[0] in d1 <==> keys[0] !in d2)
    else
      var k := keys[0];
      && k in d1 && k in d2 && d1[k].PyDict? && d2[k].PyDict? && !(IsRecord(d1[k]) && IsRecord(d2[k]))
      && OneSidedAt(d1[k].entries, d2[k].entries, keys[1..])
  }

  /** The "only in" line printed for the one-sided key at the end of `keys`. */
  function OneSidedLine(d1: map<string, PyValue>, d2: map<string, PyValue>, path: string, keys: seq<string>): (line: Line)
    requires OneSidedAt(d1, d2, keys)
    ensures (line.OnlyInFirst? || line.OnlyInSecond?) && line.path == PathOf(path, keys)
    decreases |keys|
  {
    var k := keys[0];
    if |keys| == 1 then
      if k in d1 then OnlyInFirst(FullPath(path, k)) else OnlyInSecond(FullPath(path, k))
    else OneSidedLine(d1[k].entries, d2[k].entries, FullPath(path, k), keys[1..])
  }

  /** `line` is the line of a one-sided key or of a failing pair of
      records, at some depth below `d1` and `d2`. */
  ghost predicate Explained(d1: map<string, PyValue>, d2: map<string, PyValue>, path: string, line: Line)
  {
    || (exists keys :: FailsAt(d1, d2, keys) && line == FailureLine(d1, d2, path, keys))
    || (exists keys :: OneSidedAt(d1, d2, keys) && line == OneSidedLine(d1, d2, path, keys))
  }

  /** Every line the comparison prints, whether it returns or raises, is
      the line of a one-sided key or of a failing pair of records, at some
      depth: passing pairs and equal sub-dictionaries print nothing. */
  lemma {:induction false} LinesExplained(d1: map<string, PyValue>, d2: map<string, PyValue>, path: string, pytest: bool)
    ensures forall line :: line in CompareDicts(d1, d2, path, pytest).report ==> Explained(d1, d2, path, line)
    decreases PyDict(d1), 2
  {
    var keys := SortedKeys(d1.Keys + d2.Keys);
    forall i | 0 <= i < |keys|
      ensures keys[i] in d1 || keys[i] in d2
    {
      assert keys[i] in keys;
    }
    KeysLinesExplained(d1, d2, keys, path, pytest);
  }

  lemma {:induction false} KeysLinesExplained(d1: map<string, PyValue>, d2: map<string, PyValue>, keys: seq<string>, path: string, pytest: bool)
    requires forall i :: 0 <= i < |keys| ==> keys[i] in d1 || keys[i] in d2
    ensures forall line :: line in CompareKeys(d1, d2, keys, path, pytest).report ==> Explained(d1, d2, path, line)
    decreases PyDict(d1), 1, |keys|
  {
    if keys != [] {
      var n := |keys| - 1;
      KeysLinesExplained(d1, d2, keys[..n], path, pytest);
      KeyLinesExplained(d1, d2, keys[n], path, pytest);
    }
  }

  lemma {:induction false} KeyLinesExplained(d1: map<string, PyValue>, d2: map<string, PyValue>, key: string, path: string, pytest: bool)
    requires key in d1 || key in d2
    ensures forall line :: line in CompareKey(d1, d2, key, path, pytest).report ==> Explained(d1, d2, path, line)
    decreases PyDict(d1), 0
  {
    if key !in d1 || key !in d2 {
      assert OneSidedAt(d1, d2, [key]);
      assert CompareKey(d1, d2, key, path, pytest).report == [OneSidedLine(d1, d2, path, [key])];
    } else if IsRecord(d1[key]) && IsRecord(d2[key]) {
      if CheckLeaf(d1[key].entries, d2[key].entries).Mismatch? {
        assert FailsAt(d1, d2, [key]);
        assert CompareKey(d1, d2, key, path, pytest).report == [FailureLine(d1, d2, path, [key])];
      }
    } else if d1[key].PyDict? && d2[key].PyDict? {
      var v1, v2 := d1[key], d2[key];
      var full := FullPath(path, key);
      assert v1 == PyDict(v1.entries);
      LinesExplained(v1.entries, v2.entries, full, false);
      forall line | line in CompareDicts(v1.entries, v2.entries, full, false).report
        ensures Explained(d1, d2, path, line)
      {
        DeeperExplained(d1, d2, key, path, line);
      }
    }
  }

  /** A line explained below the sub-dictionaries under `key` is explained
      below `d1` and `d2`, with `key` in front of its keys. */
  lemma DeeperExplained(d1: map<string, PyValue>, d2: map<string, PyValue>, key: string, path: string, line: Line)
    requires key in d1 && key in d2 && d1[key].PyDict? && d2[key].PyDict? && !(IsRecord(d1[key]) && IsRecord(d2[key]))
    requires Explained(d1[key].entries, d2[key].entries, FullPath(path, key), line)
    ensures Explained(d1, d2, path, line)
  {
    var e1, e2, full := d1[key].entries, d2[key].entries, FullPath(path, key);
    if exists ks :: FailsAt(e1, e2, ks) && line == FailureLine(e1, e2, full, ks) {
      var ks :| FailsAt(e1, e2, ks) && line == FailureLine(e1, e2, full, ks);
      var keys := [key] + ks;
      assert keys[0] == key && keys[1..] == ks;
      assert FailsAt(d1, d2, keys);
      assert line == FailureLine(d1, d2, path, keys);
    } else {
      var ks :| OneSidedAt(e1, e2, ks) && line == OneSidedLine(e1, e2, full, ks);
      var keys := [key] + ks;
      assert keys[0] == key && keys[1..] == ks;
      assert OneSidedAt(d1, d2, keys);
      assert line == OneSidedLine(d1, d2, path, keys);
    }
  }

  // ---------------------------------------------------------------------
  // Worked scenarios

  /** A record with the default tolerances. */
  function DefaultRecord(v: PyValue): (r: PyValue)
    ensures IsRecord(r) && r.entries["value"] == v && SoundTolerances(r.entries)
  {
    PyDict(map["atol" := PyFloat(DefaultTol), "rtol" := PyFloat(DefaultTol), "value" := v])
  }

  /** Pmax 5.0 recorded, 5.000003 now: within 1e-5 + 1e-5 * 5.000003. */
  lemma PmaxWithinTolerance()
    ensures CompareDicts(map["Pmax" := DefaultRecord(PyFloat(5.0))],
                         map["Pmax" := DefaultRecord(PyFloat(5.000003))], "", true)
         == Run(Returned(true), [])
  {
    var d1 := map["Pmax" := DefaultRecord(PyFloat(5.0))];
    var d2 := map["Pmax" := DefaultRecord(PyFloat(5.000003))];
    assert d1.Keys + d2.Keys == {"Pmax"};
    SortedSingleton("Pmax");
    assert CheckLeaf(d1["Pmax"].entries, d2["Pmax"].entries) == Pass;
  }

  /** Pmax 5.0 recorded, 5.1 now: reported, and the verdict is false. */
  lemma PmaxOutOfTolerance()
    ensures CompareDicts(map["Pmax" := DefaultRecord(PyFloat(5.0))],
                         map["Pmax" := DefaultRecord(PyFloat(5.1))], "", false)
         == Run(Returned(false), [ValuesDiffer("Pmax", PyFloat(5.0), PyFloat(5.1))])
  {
    var d1 := map["Pmax" := DefaultRecord(PyFloat(5.0))];
    var d2 := map["Pmax" := DefaultRecord(PyFloat(5.1))];
    assert d1.Keys + d2.Keys == {"Pmax"};
    SortedSingleton("Pmax");
    assert CheckLeaf(d1["Pmax"].entries, d2["Pmax"].entries) == Mismatch(false);
  }

  /** A key the old snapshot lacks is printed, but the verdict stays true. */
  lemma NewKeyDoesNotFail()
    ensures CompareDicts(map["Pmax" := DefaultRecord(PyFloat(5.0))],
                         map["Isc" := DefaultRecord(PyFloat(8.0)), "Pmax" := DefaultRecord(PyFloat(5.0))], "", false)
         == Run(Returned(true), [OnlyInSecond("Isc")])
  {
    var d1 := map["Pmax" := DefaultRecord(PyFloat(5.0))];
    var d2 := map["Isc" := DefaultRecord(PyFloat(8.0)), "Pmax" := DefaultRecord(PyFloat(5.0))];
    assert d1.Keys + d2.Keys == {"Isc", "Pmax"};
    assert StrLe("Isc", "Pmax");
    SortedPair("Isc", "Pmax");
    LeafReflexive(d1["Pmax"].entries);
    assert d2["Pmax"] == d1["Pmax"];
    assert CompareKey(d1, d2, "Isc", "", false) == Run(Returned(true), [OnlyInSecond("Isc")]);
    assert CompareKey(d1, d2, "Pmax", "", false) == Run(Returned(true), []);
    assert ["Isc", "Pmax"][..1] == ["Isc"] && ["Isc"][..0] == [];
  }

  /** The sub-dictionary comparison of the next scenario, in report mode. */
  lemma VocMismatch()
    ensures CompareDicts(map["Voc" := DefaultRecord(PyFloat(0.7))], map["Voc" := DefaultRecord(PyFloat(0.8))], "cell", false)
         == Run(Returned(false), [ValuesDiffer("cell.Voc", PyFloat(0.7), PyFloat(0.8))])
  {
    var inner1 := map["Voc" := DefaultRecord(PyFloat(0.7))];
    var inner2 := map["Voc" := DefaultRecord(PyFloat(0.8))];
    assert inner1.Keys + inner2.Keys == {"Voc"};
    SortedSingleton("Voc");
    assert FullPath("cell", "Voc") == "cell.Voc";
    assert CheckLeaf(inner1["Voc"].entries, inner2["Voc"].entries) == Mismatch(false);
  }

  /** A mismatch one level down is printed, but the verdict stays true,
      because the recursive call's result is discarded. */
  lemma NestedMismatchDoesNotFail()
    ensures CompareDicts(map["cell" := PyDict(map["Voc" := DefaultRecord(PyFloat(0.7))])],
                         map["cell" := PyDict(map["Voc" := DefaultRecord(PyFloat(0.8))])], "", true)
         == Run(Returned(true), [ValuesDiffer("cell.Voc", PyFloat(0.7), PyFloat(0.8))])
  {
    var inner1 := map["Voc" := DefaultRecord(PyFloat(0.7))];
    var inner2 := map["Voc" := DefaultRecord(PyFloat(0.8))];
    VocMismatch();
    var d1 := map["cell" := PyDict(inner1)];
    var d2 := map["cell" := PyDict(inner2)];
    assert d1.Keys + d2.Keys == {"cell"};
    SortedSingleton("cell");
    assert d1["cell"] == PyDict(inner1) && !IsRecord(d1["cell"]);
    assert CompareKey(d1, d2, "cell", "", true) == Run(Returned(true), [ValuesDiffer("cell.Voc", PyFloat(0.7), PyFloat(0.8))]);
    assert ["cell"][..0] == [];
  }
}
