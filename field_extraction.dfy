/** Building a snapshot from a device: `get_fields` (utilities.py:18-44).

    The configuration lists, per section, the attributes to record with
    their optional tolerances.  The section "common" is read first, then
    the section named by the caller's prefix.  Every listed attribute the
    device has becomes a record {atol, rtol, value} under its name; a
    missing tolerance defaults to 1e-5, a callable attribute is called,
    and a later entry with the same name replaces an earlier one. */
module FieldExtraction {
  import opened PyValues
  import opened NestedCompare

  /** An attribute of a built device: a stored value, or a method whose
      call returns `result` (the call itself runs in the circuit library). */
  datatype Attribute = Plain(value: PyValue) | Callable(result: PyValue)

  /** One entry of a configuration section: the attribute name and the
      tolerances given for it, if any. */
  datatype FieldSpec = FieldSpec(name: string, atol: Option<PyValue>, rtol: Option<PyValue>)

  /** How extraction ends: with the snapshot, or with an exception. */
  datatype Extraction = Extracted(fields: map<string, PyValue>) | ExtractionFailed(error: Exception)

  /** `attr()` when the attribute is callable, `attr` otherwise. */
  function ValueOf(a: Attribute): PyValue
  {
    match a
    case Plain(v) => v
    case Callable(r) => r
  }

  /** A configured tolerance, or numpy's default when none is given. */
  function OrDefault(tol: Option<PyValue>): (v: PyValue)
    ensures tol.Some? ==> v == tol.value
    ensures tol.None? ==> v == PyFloat(DefaultTol)
  {
    if tol.Some? then tol.value else PyFloat(DefaultTol)
  }

  /** The record stored for an attribute the device has. */
  function Entry(spec: FieldSpec, a: Attribute): (r: PyValue)
    ensures IsRecord(r) && r.entries.Keys == {"atol", "rtol", "value"}
    ensures r.entries["value"] == ValueOf(a)
    ensures r.entries["atol"] == OrDefault(spec.atol) && r.entries["rtol"] == OrDefault(spec.rtol)
  {
    PyDict(map["atol" := OrDefault(spec.atol), "rtol" := OrDefault(spec.rtol), "value" := ValueOf(a)])
  }

  /** The section names visited, in order: "common", then the prefix. */
  function SectionNames(prefix: Option<string>): seq<Option<string>>
  {
    [Some("common"), prefix]
  }

  /** The entries of the visited sections, in visiting order; a name that
      is None or has no section contributes nothing. */
  function Configured(sections: map<string, seq<FieldSpec>>, names: seq<Option<string>>): (specs: seq<FieldSpec>)
  {
    if names == [] then []
    else
      var last := names[|names| - 1];
      Configured(sections, names[..|names| - 1]) + SectionOf(sections, last)
  }

  /** The entries of the section called `name`, if there is one. */
  function SectionOf(sections: map<string, seq<FieldSpec>>, name: Option<string>): seq<FieldSpec>
  {
    if name.Some? && name.value in sections then sections[name.value] else []
  }

  /** The snapshot after processing `specs` in order, starting empty. */
  function Merge(device: map<string, Attribute>, specs: seq<FieldSpec>): (d: map<string, PyValue>)
  {
    if specs == [] then map[]
    else
      var spec := specs[|specs| - 1];
      var before := Merge(device, specs[..|specs| - 1]);
      if spec.name in device then before[spec.name := Entry(spec, device[spec.name])] else before
  }

  /** What `get_fields` returns: a configuration without a
      "test_attributes" table fails the membership test with TypeError. */
  function Fields(device: map<string, Attribute>, testAttributes: Option<map<string, seq<FieldSpec>>>, prefix: Option<string>): Extraction
  {
    match testAttributes
    case None => ExtractionFailed(TypeError)
    case Some(sections) => Extracted(Merge(device, Configured(sections, SectionNames(prefix))))
  }

  /** `get_fields(device, prefix)` over an already built device. */
  method GetFields(device: map<string, Attribute>, testAttributes: Option<map<string, seq<FieldSpec>>>, prefix: Option<string>)
    returns (result: Extraction)
    ensures result == Fields(device, testAttributes, prefix)
  {
    if testAttributes.None? {
      return ExtractionFailed(TypeError);
    }
    var sections := testAttributes.value;
    var keys := SectionNames(prefix);
    var fields: map<string, PyValue> := map[];
    for k := 0 to |keys|
      invariant fields == Merge(device, Configured(sections, keys[..k]))
    {
      var key := keys[k];
      ghost var done := Configured(sections, keys[..k]);
      SectionStep(sections, keys, k);
      if key.Some? && key.value in sections {
        var attributes := sections[key.value];
        assert attributes == SectionOf(sections, key);
        for j := 0 to |attributes|
          invariant fields == Merge(device, done + attributes[..j])
        {
          var attribute := attributes[j];
          EntryStep(device, done, attributes, j);
          if attribute.name in device {
            fields := fields[attribute.name := Entry(attribute, device[attribute.name])];
          }
        }
      }
    }
    assert keys[..|keys|] == keys;
    return Extracted(fields);
  }

  /** Visiting the section named `keys[k]` appends its entries, whose
      walk starts from the snapshot so far and ends with all of them. */
  lemma SectionStep(sections: map<string, seq<FieldSpec>>, keys: seq<Option<string>>, k: nat)
    requires k < |keys|
    ensures var done := Configured(sections, keys[..k]);
            var section := SectionOf(sections, keys[k]);
            && Configured(sections, keys[..k + 1]) == done + section[..|section|]
            && done + section[..0] == done
  {
    assert keys[..k + 1][..k] == keys[..k];
    var section := SectionOf(sections, keys[k]);
    assert section[..|section|] == section;
    assert Configured(sections, keys[..k]) + section[..0] == Configured(sections, keys[..k]);
  }

  /** Processing entry `j` of a section updates the snapshot with it when
      the device has the attribute. */
  lemma EntryStep(device: map<string, Attribute>, done: seq<FieldSpec>, attributes: seq<FieldSpec>, j: nat)
    requires j < |attributes|
    ensures var spec := attributes[j];
            var before := Merge(device, done + attributes[..j]);
            Merge(device, done + attributes[..j + 1])
              == if spec.name in device then before[spec.name := Entry(spec, device[spec.name])] else before
  {
    assert (done + attributes[..j + 1])[..|done| + j] == done + attributes[..j];
  }

  // ---------------------------------------------------------------------
  // Properties

  /** `specs` has an entry named `k`. */
  predicate Names(specs: seq<FieldSpec>, k: string)
  {
    exists i :: 0 <= i < |specs| && specs[i].name == k
  }

  /** `specs[i]` is the last entry named `k`. */
  predicate LastNamed(specs: seq<FieldSpec>, i: int, k: string)
  {
    0 <= i < |specs| && specs[i].name == k && forall j :: i < j < |specs| ==> specs[j].name != k
  }

  /** The snapshot holds exactly the listed names the device has. */
  lemma {:induction false} MergeKeys(device: map<string, Attribute>, specs: seq<FieldSpec>, k: string)
    ensures k in Merge(device, specs) <==> k in device && Names(specs, k)
    decreases |specs|
  {
    if specs != [] {
      var n := |specs| - 1;
      MergeKeys(device, specs[..n], k);
      if Names(specs, k) && specs[n].name != k {
        var i :| 0 <= i < |specs| && specs[i].name == k;
        assert specs[..n][i] == specs[i];
      }
      if Names(specs[..n], k) {
        var i :| 0 <= i < n && specs[..n][i].name == k;
        assert specs[i].name == k;
      }
    }
  }

  /** The record of a name comes from its last entry. */
  lemma {:induction false} LastEntryWins(device: map<string, Attribute>, specs: seq<FieldSpec>, i: int, k: string)
    requires LastNamed(specs, i, k) && k in device
    ensures k in Merge(device, specs) && Merge(device, specs)[k] == Entry(specs[i], device[k])
    decreases |specs|
  {
    var n := |specs| - 1;
    if i < n {
      assert LastNamed(specs[..n], i, k);
      LastEntryWins(device, specs[..n], i, k);
    }
  }

  /** Every record carries both tolerances, each the configured one or
      1e-5, and the attribute's value (called when callable). */
  lemma {:induction false} MergeRecords(device: map<string, Attribute>, specs: seq<FieldSpec>, k: string)
    requires k in Merge(device, specs)
    ensures k in device
    ensures exists i :: 0 <= i < |specs| && specs[i].name == k &&
                        Merge(device, specs)[k] == Entry(specs[i], device[k])
    decreases |specs|
  {
    var n := |specs| - 1;
    if specs[n].name == k && k in device {
      assert Merge(device, specs)[k] == Entry(specs[n], device[k]);
    } else {
      MergeRecords(device, specs[..n], k);
      var i :| 0 <= i < n && specs[..n][i].name == k &&
               Merge(device, specs[..n])[k] == Entry(specs[..n][i], device[k]);
      assert specs[i] == specs[..n][i];
    }
  }

  /** The visited entries are those of "common" followed by those of the
      prefix's section. */
  lemma ConfiguredSections(sections: map<string, seq<FieldSpec>>, prefix: Option<string>)
    ensures Configured(sections, SectionNames(prefix))
         == (if "common" in sections then sections["common"] else [])
          + (if prefix.Some? && prefix.value in sections then sections[prefix.value] else [])
  {
    var names := SectionNames(prefix);
    assert names[..1] == [Some("common")] && names[..1][..0] == [];
    var common := if "common" in sections then sections["common"] else [];
    assert Configured(sections, names[..1]) == [] + common;
    assert [] + common == common;
  }

  /** The snapshot's names are exactly the attributes the device has among
      those listed under "common" or under the prefix. */
  lemma SnapshotKeys(device: map<string, Attribute>, sections: map<string, seq<FieldSpec>>, prefix: Option<string>, k: string)
    ensures k in Fields(device, Some(sections), prefix).fields <==>
            k in device &&
            (("common" in sections && Names(sections["common"], k)) ||
             (prefix.Some? && prefix.value in sections && Names(sections[prefix.value], k)))
  {
    ConfiguredSections(sections, prefix);
    var common := if "common" in sections then sections["common"] else [];
    var own := if prefix.Some? && prefix.value in sections then sections[prefix.value] else [];
    MergeKeys(device, common + own, k);
    if Names(common + own, k) {
      var i :| 0 <= i < |common + own| && (common + own)[i].name == k;
      if i >= |common| {
        assert own[i - |common|].name == k;
      }
    }
    if Names(common, k) {
      var i :| 0 <= i < |common| && common[i].name == k;
      assert (common + own)[i].name == k;
    }
    if Names(own, k) {
      var i :| 0 <= i < |own| && own[i].name == k;
      assert (common + own)[|common| + i].name == k;
    }
  }

  /** An attribute listed under the prefix takes its record from the
      prefix's last entry for it, whatever "common" says. */
  lemma PrefixOverridesCommon(device: map<string, Attribute>, sections: map<string, seq<FieldSpec>>, p: string, i: int, k: string)
    requires p in sections && LastNamed(sections[p], i, k) && k in device
    ensures k in Fields(device, Some(sections), Some(p)).fields
    ensures Fields(device, Some(sections), Some(p)).fields[k] == Entry(sections[p][i], device[k])
  {
    ConfiguredSections(sections, Some(p));
    var common := if "common" in sections then sections["common"] else [];
    var specs := common + sections[p];
    assert specs[|common| + i] == sections[p][i];
    assert LastNamed(specs, |common| + i, k);
    LastEntryWins(device, specs, |common| + i, k);
  }

  /** A configured tolerance is usable by the comparator: absent, or a
      non-negative int or float. */
  predicate SoundTolerance(tol: Option<PyValue>)
  {
    tol.None? || (IsNumber(tol.value) && AsReal(tol.value) >= 0.0)
  }

  /** Extracting with sound tolerances yields a well-formed snapshot, so
      comparing a fresh snapshot with itself passes and prints nothing. */
  lemma SnapshotComparesEqualToItself(device: map<string, Attribute>, sections: map<string, seq<FieldSpec>>, prefix: Option<string>, pytest: bool)
    requires forall s, i :: s in sections && 0 <= i < |sections[s]| ==>
               SoundTolerance(sections[s][i].atol) && SoundTolerance(sections[s][i].rtol)
    ensures var snapshot := Fields(device, Some(sections), prefix).fields;
            WellFormed(snapshot) && CompareDicts(snapshot, snapshot, "", pytest) == Run(Returned(true), [])
  {
    ConfiguredSections(sections, prefix);
    var common := if "common" in sections then sections["common"] else [];
    var own := if prefix.Some? && prefix.value in sections then sections[prefix.value] else [];
    var specs := common + own;
    forall i | 0 <= i < |specs|
      ensures SoundTolerance(specs[i].atol) && SoundTolerance(specs[i].rtol)
    {
      if i >= |common| {
        assert specs[i] == own[i - |common|];
      }
    }
    var snapshot := Merge(device, specs);
    forall k | k in snapshot
      ensures WellFormedValue(snapshot[k])
    {
      MergeRecords(device, specs, k);
      var i :| 0 <= i < |specs| && specs[i].name == k && snapshot[k] == Entry(specs[i], device[k]);
      var rec := snapshot[k].entries;
      assert "atol" in rec && "rtol" in rec;
    }
    Reflexive(snapshot, "", pytest);
  }

  /** A device with Pmax stored and Voc computed by a method, configured
      with "Pmax" in common (atol 0.001) and "Voc" and "Isc" for cells. */
  lemma CellSnapshot()
    ensures Fields(map["Pmax" := Plain(PyFloat(5.0)), "Voc" := Callable(PyFloat(0.7))],
                   Some(map["common" := [FieldSpec("Pmax", Some(PyFloat(0.001)), None)],
                            "cell" := [FieldSpec("Voc", None, None), FieldSpec("Isc", None, None)]]),
                   Some("cell"))
         == Extracted(map["Pmax" := PyDict(map["atol" := PyFloat(0.001), "rtol" := PyFloat(DefaultTol), "value" := PyFloat(5.0)]),
                          "Voc" := PyDict(map["atol" := PyFloat(DefaultTol), "rtol" := PyFloat(DefaultTol), "value" := PyFloat(0.7)])])
  {
    var sections := map["common" := [FieldSpec("Pmax", Some(PyFloat(0.001)), None)],
                        "cell" := [FieldSpec("Voc", None, None), FieldSpec("Isc", None, None)]];
    ConfiguredSections(sections, Some("cell"));
    var specs := [FieldSpec("Pmax", Some(PyFloat(0.001)), None), FieldSpec("Voc", None, None), FieldSpec("Isc", None, None)];
    assert sections["common"] + sections["cell"] == specs;
    assert specs[..2] == [FieldSpec("Pmax", Some(PyFloat(0.001)), None), FieldSpec("Voc", None, None)];
    assert specs[..2][..1] == [FieldSpec("Pmax", Some(PyFloat(0.001)), None)];
    assert specs[..2][..1][..0] == [];
    var device := map["Pmax" := Plain(PyFloat(5.0)), "Voc" := Callable(PyFloat(0.7))];
    assert Merge(device, specs[..2][..1]) == map["Pmax" := Entry(specs[0], device["Pmax"])];
    assert Merge(device, specs[..2]) == map["Pmax" := Entry(specs[0], device["Pmax"]), "Voc" := Entry(specs[1], device["Voc"])];
    assert Merge(device, specs) == Merge(device, specs[..2]);
  }
}
