/** The solver-environment warning of `run_record_or_test`
    (utilities.py:144-149).

    When this run's solver environment variables differ from those saved
    with the last snapshot, one warning is printed for each variable that
    both runs set to different values, in this run's order.  A variable
    set in only one of the two runs is not warned about.  Values are
    compared with Python's `!=`, so an int and the float standing for the
    same number are not different. */
module EnvCheck {
  import opened PyValues

  /** "WARNING: The solver env variable <key> is different between last
      time (<was>) and this time (<now>)" */
  datatype EnvWarning = EnvWarning(key: string, was: PyValue, now: PyValue)

  /** A Python dictionary's items in iteration order: no key twice. */
  predicate DistinctKeys(items: seq<(string, PyValue)>)
  {
    forall i, j :: 0 <= i < j < |items| ==> items[i].0 != items[j].0
  }

  /** The dictionary whose items are `items`. */
  function AsMap(items: seq<(string, PyValue)>): (m: map<string, PyValue>)
    ensures forall k :: k in m <==> exists i :: 0 <= i < |items| && items[i].0 == k
  {
    if items == [] then map[]
    else
      var n := |items| - 1;
      var m := AsMap(items[..n]);
      assert forall i :: 0 <= i < n ==> items[..n][i] == items[i];
      m[items[n].0 := items[n].1]
  }

  /** The warnings of the loop over `items`, in order. */
  function ChangedEnv(items: seq<(string, PyValue)>, last: map<string, PyValue>): seq<EnvWarning>
  {
    if items == [] then []
    else
      var n := |items| - 1;
      var (key, value) := items[n];
      ChangedEnv(items[..n], last)
        + (if key in last && !PyEq(value, last[key]) then [EnvWarning(key, last[key], value)] else [])
  }

  /** Lines 144-149: no warning when the two dictionaries are equal. */
  function EnvWarnings(current: seq<(string, PyValue)>, last: map<string, PyValue>): seq<EnvWarning>
  {
    if PyEq(PyDict(AsMap(current)), PyDict(last)) then [] else ChangedEnv(current, last)
  }

  method WarnChangedEnv(current: seq<(string, PyValue)>, last: map<string, PyValue>)
    returns (warnings: seq<EnvWarning>)
    ensures warnings == EnvWarnings(current, last)
  {
    warnings := [];
    if PyEq(PyDict(AsMap(current)), PyDict(last)) {
      return;
    }
    for i := 0 to |current|
      invariant warnings == ChangedEnv(current[..i], last)
    {
      assert current[..i + 1][..i] == current[..i];
      var (key, value) := current[i];
      if key in last {
        var value2 := last[key];
        if !PyEq(value, value2) {
          warnings := warnings + [EnvWarning(key, value2, value)];
        }
      }
    }
    assert current[..|current|] == current;
  }

  /** A warning is printed for exactly the variables both runs set, to
      values that are not `==`, with the saved and the current value. */
  lemma {:induction false} ChangedEnvExactly(items: seq<(string, PyValue)>, last: map<string, PyValue>, w: EnvWarning)
    ensures w in ChangedEnv(items, last) <==>
            (exists i :: 0 <= i < |items| && items[i] == (w.key, w.now)) && w.key in last && last[w.key] == w.was && !PyEq(w.now, w.was)
    decreases |items|
  {
    if items != [] {
      var n := |items| - 1;
      ChangedEnvExactly(items[..n], last, w);
      var (key, value) := items[n];
      var tail := if key in last && !PyEq(value, last[key]) then [EnvWarning(key, last[key], value)] else [];
      assert ChangedEnv(items, last) == ChangedEnv(items[..n], last) + tail;
      assert w in tail <==> items[n] == (w.key, w.now) && w.key in last && last[w.key] == w.was && !PyEq(w.now, w.was);
      ListedInPrefixOrLast(items, items[..n], (w.key, w.now));
    }
  }

  /** An item is among `items` iff it is among all but the last, or is the last. */
  lemma ListedInPrefixOrLast(items: seq<(string, PyValue)>, prefix: seq<(string, PyValue)>, p: (string, PyValue))
    requires items != [] && prefix == items[..|items| - 1]
    ensures (exists i :: 0 <= i < |items| && items[i] == p) <==>
            (exists i :: 0 <= i < |prefix| && prefix[i] == p) || items[|items| - 1] == p
  {
    if exists i :: 0 <= i < |prefix| && prefix[i] == p {
      var i :| 0 <= i < |prefix| && prefix[i] == p;
      assert items[i] == p;
    }
    if exists i :: 0 <= i < |items| && items[i] == p {
      var i :| 0 <= i < |items| && items[i] == p;
      if i < |prefix| {
        assert prefix[i] == p;
      }
    }
  }

  /** An item whose key no later item repeats gives the dictionary's
      value for that key. */
  lemma {:induction false} AsMapLookup(items: seq<(string, PyValue)>, i: int)
    requires 0 <= i < |items| && forall j :: i < j < |items| ==> items[j].0 != items[i].0
    ensures items[i].0 in AsMap(items) && AsMap(items)[items[i].0] == items[i].1
    decreases |items|
  {
    var n := |items| - 1;
    if i < n {
      assert items[n].0 != items[i].0;
      assert items[..n][i] == items[i];
      forall j | i < j < n
        ensures items[..n][j].0 != items[..n][i].0
      {
        assert items[..n][j] == items[j];
      }
      AsMapLookup(items[..n], i);
    }
  }

  /** The equality test in front of the loop changes nothing: equal
      dictionaries produce no warning from the loop either. */
  lemma EqualityGateIsRedundant(current: seq<(string, PyValue)>, last: map<string, PyValue>)
    requires DistinctKeys(current)
    ensures EnvWarnings(current, last) == ChangedEnv(current, last)
  {
    if PyEq(PyDict(AsMap(current)), PyDict(last)) && ChangedEnv(current, last) != [] {
      var w := ChangedEnv(current, last)[0];
      ChangedEnvExactly(current, last, w);
      var i :| 0 <= i < |current| && current[i] == (w.key, w.now);
      AsMapLookup(current, i);
      assert false;
    }
  }

  /** A variable saved as the int 1 and now set to the float 1.0 is not
      warned about: the dictionaries are `==`. */
  lemma IntAndEqualFloatNotWarned()
    ensures EnvWarnings([("tol", PyFloat(1.0))], map["tol" := PyInt(1)]) == []
    ensures ChangedEnv([("tol", PyFloat(1.0))], map["tol" := PyInt(1)]) == []
  {
    IntEqualsEqualFloat();
    var items := [("tol", PyFloat(1.0))];
    assert items[..0] == [];
    assert AsMap(items) == map["tol" := PyFloat(1.0)] by {
      assert AsMap(items[..0]) == map[];
    }
    PyEqSymmetric(PyDict(map["tol" := PyInt(1)]), PyDict(map["tol" := PyFloat(1.0)]));
  }

  /** A variable set to different numbers is warned about, with the saved
      value first. */
  lemma ChangedValueWarned()
    ensures EnvWarnings([("tol", PyFloat(0.5))], map["tol" := PyInt(1)])
         == [EnvWarning("tol", PyInt(1), PyFloat(0.5))]
  {
    var items := [("tol", PyFloat(0.5))];
    assert items[..0] == [];
    assert AsMap(items) == map["tol" := PyFloat(0.5)] by {
      assert AsMap(items[..0]) == map[];
    }
    assert !PyEq(PyFloat(0.5), PyInt(1));
    assert !PyEq(PyDict(map["tol" := PyFloat(0.5)]), PyDict(map["tol" := PyInt(1)])) by {
      assert map["tol" := PyFloat(0.5)]["tol"] == PyFloat(0.5);
    }
  }
}
