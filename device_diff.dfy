/** The structural differ of saved devices: `compare_devices`
    (utilities.py:154-193).

    When two devices differ, it prints a separator and a header naming
    the position (the lineage of list indices leading to the device),
    then walks the critical fields of the FIRST device.  A field missing
    on either side is reported.  Unequal fields are reported as a whole,
    except lists: lists of different lengths get one length line, and
    lists of the same length are compared item by item, recursing into
    unequal items that are circuit components with the lineage extended
    by the item's index.  In pytest mode any inequality fails the first
    assertion before anything is printed. */
module DeviceDiff {
  import opened PyValues

  /** A value held in a field of a circuit component. */
  datatype DevValue =
    | Comp(c: Component)             // a circuit component
    | ListV(items: seq<DevValue>)    // a Python list
    | Atom(v: PyValue)               // any other value

  /** A circuit component: the names of its critical fields, and its
      attributes.  Structural equality of this datatype stands for the
      circuit library's `==` on components. */
  datatype Component = Component(criticalFields: seq<string>, fields: map<string, DevValue>)

  /** Which device a "missing field" line is about. */
  datatype Side = First | Second

  /** A line the differ prints; `lineage` is the list of indices that the
      line's ".i.j" suffix spells out. */
  datatype DiffLine =
    | Separator                                                                  // "-------------------------------"
    | Header(lineage: seq<nat>)                                                  // "device1<l> != device2<l> in the following:"
    | Missing(side: Side, lineage: seq<nat>, field: string)                      // "device<n><l> is missing field <f>"
    | LengthsDiffer(field: string, lineage: seq<nat>, len1: nat, len2: nat)      // "<f> has different lengths in ..."
    | ItemDiffers(field: string, index: nat, lineage: seq<nat>, item1: DevValue, item2: DevValue)  // "<f>[<i>] is different in ..."
    | FieldDiffers(field: string, lineage: seq<nat>, value1: DevValue, value2: DevValue)           // "<f> is different in ..."

  /** How a call ends: normally, or with an exception escaping. */
  datatype Ending = Finished | Halted(error: Exception)

  /** How a call ends, and what it printed on the way. */
  datatype Diff = Diff(ending: Ending, report: seq<DiffLine>)

  /** Runs `step` after `before` unless `before` raised. */
  function AndThen(before: Diff, step: Diff): Diff
  {
    if before.ending.Halted? then before else Diff(step.ending, before.report + step.report)
  }

  /** The attributes `hasattr`/`getattr` see: a component's fields;
      other values have none of the circuit's field names. */
  function Attributes(v: DevValue): map<string, DevValue>
  {
    if v.Comp? then v.c.fields else map[]
  }

  /** `len(v)`, or None where Python raises TypeError. */
  function Length(v: DevValue): (n: Option<nat>)
    ensures v.ListV? ==> n == Some(|v.items|)
    ensures n.None? <==> v.Comp? || (v.Atom? && (IsNumber(v.v) || v.v.PyOther?))
  {
    match v
    case ListV(items) => Some(|items|)
    case Atom(PyStr(s)) => Some(|s|)
    case Atom(PyArray(e)) => Some(|e|)
    case Atom(PyDict(m)) => Some(|m|)
    case _ => None
  }

  /** The result of `v[i]`: an item, or the exception it raises. */
  datatype Fetched = Item(value: DevValue) | Raises(error: Exception)

  /** `v[i]` for an index below `len(v)`.  Dictionaries here are keyed by
      strings, so an integer index raises KeyError. */
  function ItemAt(v: DevValue, i: nat): (r: Fetched)
    requires Length(v).Some? && i < Length(v).value
    ensures v.ListV? ==> r == Item(v.items[i])
  {
    match v
    case ListV(items) => Item(items[i])
    case Atom(PyStr(s)) => Item(Atom(PyStr([s[i]])))
    case Atom(PyArray(e)) => Item(Atom(PyFloat(e[i])))
    case Atom(PyDict(_)) => Raises(KeyError)
  }

  /** `l` is printed at `lineage` or deeper (the separator has no lineage). */
  predicate Under(l: DiffLine, lineage: seq<nat>)
  {
    l.Separator? || lineage <= l.lineage
  }

  /** `l` reports on a field of the device at exactly `lineage`. */
  predicate ReportsAt(l: DiffLine, lineage: seq<nat>)
  {
    !l.Separator? && !l.Header? && l.lineage == lineage
  }

  /** `l`, a line about a field of `c1` at the current lineage, reports a
      real difference between `c1` and `v2`: a missing field, a differing
      non-list field, a length mismatch, or a differing item of an
      equal-length list that is not a component. */
  predicate Justified(c1: Component, v2: DevValue, l: DiffLine)
  {
    var attrs2 := Attributes(v2);
    match l
    case Missing(side, _, f) => if side == First then f !in c1.fields else f !in attrs2
    case FieldDiffers(f, _, value1, value2) =>
      f in c1.fields && f in attrs2 && value1 == c1.fields[f] && value2 == attrs2[f] && value1 != value2 && !value1.ListV?
    case LengthsDiffer(f, _, len1, len2) =>
      f in c1.fields && f in attrs2 && c1.fields[f].ListV? && len1 == |c1.fields[f].items|
      && Length(attrs2[f]) == Some(len2) && len1 != len2
    case ItemDiffers(f, i, _, item1, item2) =>
      && f in c1.fields && f in attrs2 && c1.fields[f].ListV? && i < |c1.fields[f].items|
      && Length(attrs2[f]) == Some(|c1.fields[f].items|)
      && item1 == c1.fields[f].items[i] && ItemAt(attrs2[f], i) == Item(item2) && item1 != item2 && !item1.Comp?
    case _ => false
  }

  /** `compare_devices(device1, device2, lineage, pytest_mode)`. */
  function DiffDevices(c1: Component, v2: DevValue, lineage: seq<nat>, pytest: bool): (r: Diff)
    ensures Comp(c1) == v2 ==> r == Diff(Finished, [])
    ensures Comp(c1) != v2 && pytest ==> r == Diff(Halted(AssertionError), [])
    ensures Comp(c1) != v2 && !pytest ==> |r.report| >= 2 && r.report[..2] == [Separator, Header(lineage)]
    ensures forall l :: l in r.report ==> Under(l, lineage)
    ensures forall l :: l in r.report && ReportsAt(l, lineage) ==> l.field in c1.criticalFields
    decreases Comp(c1), 3
  {
    if pytest && Comp(c1) != v2 then Diff(Halted(AssertionError), [])
    else if Comp(c1) == v2 then Diff(Finished, [])
    else
      var fields := DiffFields(c1, v2, c1.criticalFields, lineage);
      Diff(fields.ending, [Separator, Header(lineage)] + fields.report)
  }

  /** The loop over `device1._critical_fields` (lines 163-193), over the
      first `|fields|` of them. */
  function DiffFields(c1: Component, v2: DevValue, fields: seq<string>, lineage: seq<nat>): (r: Diff)
    ensures forall l :: l in r.report ==> Under(l, lineage)
    ensures forall l :: l in r.report && ReportsAt(l, lineage) ==> l.field in fields
    decreases Comp(c1), 2, |fields|
  {
    if fields == [] then Diff(Finished, [])
    else
      var n := |fields| - 1;
      var before := DiffFields(c1, v2, fields[..n], lineage);
      var step := DiffField(c1, v2, fields[n], lineage);
      assert forall l :: l in before.report && ReportsAt(l, lineage) ==> l.field in fields by {
        assert forall x :: x in fields[..n] ==> x in fields;
      }
      AndThen(before, step)
  }

  /** One pass of that loop, for `field`. */
  function DiffField(c1: Component, v2: DevValue, field: string, lineage: seq<nat>): (r: Diff)
    ensures forall l :: l in r.report ==> Under(l, lineage)
    ensures forall l :: l in r.report && ReportsAt(l, lineage) ==> l.field == field
    decreases Comp(c1), 1
  {
    var attrs2 := Attributes(v2);
    if field !in c1.fields || field !in attrs2 then
      Diff(Finished, (if field !in c1.fields then [Missing(First, lineage, field)] else [])
                   + (if field !in attrs2 then [Missing(Second, lineage, field)] else []))
    else
      var f1, f2 := c1.fields[field], attrs2[field];
      if f1 == f2 then Diff(Finished, [])
      else if !f1.ListV? then Diff(Finished, [FieldDiffers(field, lineage, f1, f2)])
      else
        match Length(f2)
        case None => Diff(Halted(TypeError), [])
        case Some(n) =>
          if |f1.items| != n then Diff(Finished, [LengthsDiffer(field, lineage, |f1.items|, n)])
          else
            assert f1 < Comp(c1) by {
              assert f1 == c1.fields[field];
            }
            DiffItems(f1, f2, |f1.items|, field, lineage)
  }

  /** The loop over the items of an equal-length list field
      (lines 181-191), over its first `upto` indices. */
  function DiffItems(f1: DevValue, f2: DevValue, upto: nat, field: string, lineage: seq<nat>): (r: Diff)
    requires f1.ListV? && upto <= |f1.items| && Length(f2) == Some(|f1.items|)
    ensures forall l :: l in r.report ==> Under(l, lineage)
    ensures forall l :: l in r.report && ReportsAt(l, lineage) ==> l.ItemDiffers? && l.field == field
    decreases f1, 0, upto
  {
    if upto == 0 then Diff(Finished, [])
    else
      AndThen(DiffItems(f1, f2, upto - 1, field, lineage), DiffItem(f1.items[upto - 1], f2, upto - 1, field, lineage))
  }

  /** One pass of that loop, for index `i`: fetch both items and, when
      they differ, recurse into a component or report the pair. */
  function DiffItem(item1: DevValue, f2: DevValue, i: nat, field: string, lineage: seq<nat>): (r: Diff)
    requires Length(f2).Some? && i < Length(f2).value
    ensures forall l :: l in r.report ==> Under(l, lineage)
    ensures forall l :: l in r.report && ReportsAt(l, lineage) ==>
              l.ItemDiffers? && l == ItemDiffers(field, i, lineage, item1, l.item2) && !item1.Comp?
    ensures ItemAt(f2, i).Raises? ==> r == Diff(Halted(ItemAt(f2, i).error), [])
    ensures ItemAt(f2, i) == Item(item1) ==> r == Diff(Finished, [])
    ensures ItemAt(f2, i).Item? && ItemAt(f2, i).value != item1 && !item1.Comp? ==>
              r == Diff(Finished, [ItemDiffers(field, i, lineage, item1, ItemAt(f2, i).value)])
    ensures ItemAt(f2, i).Item? && ItemAt(f2, i).value != item1 && item1.Comp? ==>
              && |r.report| >= 2 && r.report[..2] == [Separator, Header(lineage + [i])]
              && forall l :: l in r.report ==> Under(l, lineage + [i])
    ensures ItemAt(f2, i).Item? && ItemAt(f2, i).value != item1 && item1.Comp? ==>
              r == DiffDevices(item1.c, ItemAt(f2, i).value, lineage + [i], false)
    decreases item1, 4
  {
    match ItemAt(f2, i)
    case Raises(e) => Diff(Halted(e), [])
    case Item(item2) =>
      if item1 == item2 then Diff(Finished, [])
      else if item1.Comp? then
        var nested := DiffDevices(item1.c, item2, lineage + [i], false);
        assert forall l :: l in nested.report ==> Under(l, lineage) && !ReportsAt(l, lineage) by {
          forall l | l in nested.report
            ensures Under(l, lineage) && !ReportsAt(l, lineage)
          {
            if !l.Separator? {
              assert lineage + [i] <= l.lineage;
              assert lineage <= lineage + [i];
            }
          }
        }
        nested
      else Diff(Finished, [ItemDiffers(field, i, lineage, item1, item2)])
  }

  // ---------------------------------------------------------------------
  // The differ as the source writes it: loops that print as they go

  method CompareDevices(device1: Component, device2: DevValue, lineage: seq<nat>, pytestMode: bool)
    returns (diff: Diff)
    ensures diff == DiffDevices(device1, device2, lineage, pytestMode)
    decreases Comp(device1), 3
  {
    if pytestMode && Comp(device1) != device2 {
      return Diff(Halted(AssertionError), []);
    }
    if Comp(device1) == device2 {
      return Diff(Finished, []);
    }
    var fields := device1.criticalFields;
    var printed: seq<DiffLine> := [];
    for k := 0 to |fields|
      invariant DiffFields(device1, device2, fields[..k], lineage) == Diff(Finished, printed)
    {
      DiffFieldsStep(device1, device2, fields, k, lineage);
      var step := CompareField(device1, device2, fields[k], lineage);
      if step.ending.Halted? {
        DiffFieldsStopsAtHalt(device1, device2, fields, k + 1, lineage);
        assert fields[..|fields|] == fields;
        return Diff(step.ending, [Separator, Header(lineage)] + (printed + step.report));
      }
      printed := printed + step.report;
    }
    assert fields[..|fields|] == fields;
    return Diff(Finished, [Separator, Header(lineage)] + printed);
  }

  /** The loop body for one critical field, as the source runs it;
      `DiffField` specifies it. */
  method CompareField(device1: Component, device2: DevValue, field: string, lineage: seq<nat>)
    returns (step: Diff)
    ensures step == DiffField(device1, device2, field, lineage)
    decreases Comp(device1), 1
  {
    var attrs2 := Attributes(device2);
    var printed: seq<DiffLine> := [];
    if field !in device1.fields {
      printed := printed + [Missing(First, lineage, field)];
    }
    if field !in attrs2 {
      printed := printed + [Missing(Second, lineage, field)];
    }
    if field !in device1.fields || field !in attrs2 {
      return Diff(Finished, printed);
    }
    var field1, field2 := device1.fields[field], attrs2[field];
    if field1 == field2 {
      return Diff(Finished, []);
    }
    if !field1.ListV? {
      return Diff(Finished, [FieldDiffers(field, lineage, field1, field2)]);
    }
    var len2 := Length(field2);
    if len2.None? {
      return Diff(Halted(TypeError), []);
    }
    if |field1.items| != len2.value {
      return Diff(Finished, [LengthsDiffer(field, lineage, |field1.items|, len2.value)]);
    }
    assert field1 < Comp(device1) by {
      assert field1 == device1.fields[field];
    }
    for i := 0 to |field1.items|
      invariant DiffItems(field1, field2, i, field, lineage) == Diff(Finished, printed)
    {
      var item1 := field1.items[i];
      var fetched := ItemAt(field2, i);
      if fetched.Raises? {
        DiffItemsStopsAtHalt(field1, field2, i + 1, |field1.items|, field, lineage);
        return Diff(Halted(fetched.error), printed);
      }
      var item2 := fetched.value;
      if item1 != item2 {
        if item1.Comp? {
          var nested := CompareDevices(item1.c, item2, lineage + [i], false);
          if nested.ending.Halted? {
            DiffItemsStopsAtHalt(field1, field2, i + 1, |field1.items|, field, lineage);
            return Diff(nested.ending, printed + nested.report);
          }
          printed := printed + nested.report;
        } else {
          printed := printed + [ItemDiffers(field, i, lineage, item1, item2)];
        }
      }
    }
    return Diff(Finished, printed);
  }

  // ---------------------------------------------------------------------
  // An exception ends the loops

  lemma DiffFieldsStep(c1: Component, v2: DevValue, fields: seq<string>, k: nat, lineage: seq<nat>)
    requires k < |fields|
    ensures DiffFields(c1, v2, fields[..k + 1], lineage)
         == AndThen(DiffFields(c1, v2, fields[..k], lineage), DiffField(c1, v2, fields[k], lineage))
  {
    assert fields[..k + 1][..k] == fields[..k];
  }

  lemma DiffFieldsLast(c1: Component, v2: DevValue, fields: seq<string>, lineage: seq<nat>)
    requires fields != []
    ensures DiffFields(c1, v2, fields, lineage)
         == AndThen(DiffFields(c1, v2, fields[..|fields| - 1], lineage), DiffField(c1, v2, fields[|fields| - 1], lineage))
  {
  }

  lemma DiffFieldsHaltPersists(c1: Component, v2: DevValue, fields: seq<string>, lineage: seq<nat>)
    requires fields != [] && DiffFields(c1, v2, fields[..|fields| - 1], lineage).ending.Halted?
    ensures DiffFields(c1, v2, fields, lineage) == DiffFields(c1, v2, fields[..|fields| - 1], lineage)
  {
  }

  lemma {:induction false} DiffFieldsStopsAtHalt(c1: Component, v2: DevValue, fields: seq<string>, k: nat, lineage: seq<nat>)
    requires k <= |fields| && DiffFields(c1, v2, fields[..k], lineage).ending.Halted?
    ensures DiffFields(c1, v2, fields, lineage) == DiffFields(c1, v2, fields[..k], lineage)
    decreases |fields|
  {
    if k < |fields| {
      var n := |fields| - 1;
      assert fields[..n][..k] == fields[..k];
      DiffFieldsStopsAtHalt(c1, v2, fields[..n], k, lineage);
      DiffFieldsHaltPersists(c1, v2, fields, lineage);
    } else {
      assert fields[..k] == fields;
    }
  }

  lemma {:induction false} DiffItemsStopsAtHalt(f1: DevValue, f2: DevValue, k: nat, upto: nat, field: string, lineage: seq<nat>)
    requires f1.ListV? && k <= upto <= |f1.items| && Length(f2) == Some(|f1.items|)
    requires DiffItems(f1, f2, k, field, lineage).ending.Halted?
    ensures DiffItems(f1, f2, upto, field, lineage) == DiffItems(f1, f2, k, field, lineage)
    decreases upto
  {
    if k < upto {
      DiffItemsStopsAtHalt(f1, f2, k, upto - 1, field, lineage);
    }
  }

  // ---------------------------------------------------------------------
  // Every inspected critical field that differs is reported

  /** A run of the field loop that ends normally keeps each pass's lines. */
  lemma {:induction false} FieldLinesKept(c1: Component, v2: DevValue, fields: seq<string>, i: nat, lineage: seq<nat>)
    requires i < |fields| && DiffFields(c1, v2, fields, lineage).ending.Finished?
    ensures DiffField(c1, v2, fields[i], lineage).ending.Finished?
    ensures forall l :: l in DiffField(c1, v2, fields[i], lineage).report ==> l in DiffFields(c1, v2, fields, lineage).report
    decreases |fields|
  {
    var n := |fields| - 1;
    if i < n {
      assert fields[..n][i] == fields[i];
      FieldLinesKept(c1, v2, fields[..n], i, lineage);
    }
  }

  /** When the devices differ and the report completes, each critical
      field of the first device is accounted for: a field missing on a
      side, a differing non-list field and a length mismatch each have
      their line. */
  lemma DifferencesReported(c1: Component, v2: DevValue, lineage: seq<nat>, f: string)
    requires Comp(c1) != v2 && f in c1.criticalFields
    requires DiffDevices(c1, v2, lineage, false).ending.Finished?
    ensures var report := DiffDevices(c1, v2, lineage, false).report;
            && (f !in c1.fields ==> Missing(First, lineage, f) in report)
            && (f !in Attributes(v2) ==> Missing(Second, lineage, f) in report)
            && (f in c1.fields && f in Attributes(v2) && c1.fields[f] != Attributes(v2)[f] && !c1.fields[f].ListV? ==>
                  FieldDiffers(f, lineage, c1.fields[f], Attributes(v2)[f]) in report)
            && (f in c1.fields && f in Attributes(v2) && c1.fields[f].ListV? &&
                Length(Attributes(v2)[f]).Some? && Length(Attributes(v2)[f]).value != |c1.fields[f].items| ==>
                  LengthsDiffer(f, lineage, |c1.fields[f].items|, Length(Attributes(v2)[f]).value) in report)
  {
    var fields := c1.criticalFields;
    var i :| 0 <= i < |fields| && fields[i] == f;
    FieldLinesKept(c1, v2, fields, i, lineage);
  }

  /** A run of the item loop that ends normally keeps each pass's lines. */
  lemma {:induction false} ItemLinesKept(f1: DevValue, f2: DevValue, upto: nat, i: nat, field: string, lineage: seq<nat>)
    requires f1.ListV? && i < upto <= |f1.items| && Length(f2) == Some(|f1.items|)
    requires DiffItems(f1, f2, upto, field, lineage).ending.Finished?
    ensures DiffItem(f1.items[i], f2, i, field, lineage).ending.Finished?
    ensures forall l :: l in DiffItem(f1.items[i], f2, i, field, lineage).report ==> l in DiffItems(f1, f2, upto, field, lineage).report
    decreases upto
  {
    if i < upto - 1 {
      ItemLinesKept(f1, f2, upto - 1, i, field, lineage);
    }
  }

  /** When the devices differ and the report completes, every item of an
      equal-length list field that differs from its partner is accounted
      for: a component by the header of its own comparison, one position
      deeper, any other item by its line. */
  lemma DifferingItemsReported(c1: Component, v2: DevValue, lineage: seq<nat>, f: string, i: nat)
    requires Comp(c1) != v2 && f in c1.criticalFields
    requires DiffDevices(c1, v2, lineage, false).ending.Finished?
    requires f in c1.fields && f in Attributes(v2) && c1.fields[f].ListV?
    requires Length(Attributes(v2)[f]) == Some(|c1.fields[f].items|) && i < |c1.fields[f].items|
    ensures var report := DiffDevices(c1, v2, lineage, false).report;
            var item1, fetched := c1.fields[f].items[i], ItemAt(Attributes(v2)[f], i);
            && fetched.Item?
            && (fetched.value != item1 && item1.Comp? ==> Header(lineage + [i]) in report)
            && (fetched.value != item1 && !item1.Comp? ==> ItemDiffers(f, i, lineage, item1, fetched.value) in report)
  {
    var fields := c1.criticalFields;
    var k :| 0 <= k < |fields| && fields[k] == f;
    FieldLinesKept(c1, v2, fields, k, lineage);
    var f1, f2 := c1.fields[f], Attributes(v2)[f];
    var item1 := f1.items[i];
    if f1 == f2 {
      assert ItemAt(f2, i) == Item(item1);
    } else {
      ItemLinesKept(f1, f2, |f1.items|, i, f, lineage);
      var step := DiffItem(item1, f2, i, f, lineage);
      if ItemAt(f2, i).Item? && ItemAt(f2, i).value != item1 && item1.Comp? {
        assert Header(lineage + [i]) == step.report[..2][1];
        assert Header(lineage + [i]) in step.report;
      }
    }
  }

  // ---------------------------------------------------------------------
  // Every line reports a real difference

  /** What one critical field's pass prints: exactly the "missing" lines
      when a side lacks the field, nothing when both have it with equal
      values, exactly one field line when a non-list field differs. */
  lemma FieldOutput(c1: Component, v2: DevValue, field: string, lineage: seq<nat>)
    ensures var r := DiffField(c1, v2, field, lineage);
            && (field !in c1.fields || field !in Attributes(v2) ==>
                  r == Diff(Finished, (if field !in c1.fields then [Missing(First, lineage, field)] else [])
                                    + (if field !in Attributes(v2) then [Missing(Second, lineage, field)] else [])))
            && (field in c1.fields && field in Attributes(v2) && c1.fields[field] == Attributes(v2)[field] ==>
                  r == Diff(Finished, []))
            && (field in c1.fields && field in Attributes(v2) && c1.fields[field] != Attributes(v2)[field]
                && !c1.fields[field].ListV? ==>
                  r == Diff(Finished, [FieldDiffers(field, lineage, c1.fields[field], Attributes(v2)[field])]))
  {
  }

  /** Each line the item loop prints about the device itself is the line
      of an index below `upto` whose two items differ, the first not being
      a component. */
  lemma {:induction false} ItemsLinesJustified(f1: DevValue, f2: DevValue, upto: nat, field: string, lineage: seq<nat>)
    requires f1.ListV? && upto <= |f1.items| && Length(f2) == Some(|f1.items|)
    ensures forall l :: l in DiffItems(f1, f2, upto, field, lineage).report && ReportsAt(l, lineage) ==>
              && l.ItemDiffers? && l.field == field && l.index < upto
              && l.item1 == f1.items[l.index] && ItemAt(f2, l.index) == Item(l.item2) && l.item1 != l.item2 && !l.item1.Comp?
    decreases upto
  {
    if upto > 0 {
      ItemsLinesJustified(f1, f2, upto - 1, field, lineage);
    }
  }

  /** Each line a field's pass prints about the device itself reports a
      real difference of that field. */
  lemma FieldLinesJustified(c1: Component, v2: DevValue, field: string, lineage: seq<nat>)
    ensures forall l :: l in DiffField(c1, v2, field, lineage).report && ReportsAt(l, lineage) ==> Justified(c1, v2, l)
  {
    FieldOutput(c1, v2, field, lineage);
    if field in c1.fields && field in Attributes(v2) && c1.fields[field].ListV? {
      var f1, f2 := c1.fields[field], Attributes(v2)[field];
      if f1 != f2 && Length(f2) == Some(|f1.items|) {
        ItemsLinesJustified(f1, f2, |f1.items|, field, lineage);
      }
    }
  }

  lemma {:induction false} FieldsLinesJustified(c1: Component, v2: DevValue, fields: seq<string>, lineage: seq<nat>)
    ensures forall l :: l in DiffFields(c1, v2, fields, lineage).report && ReportsAt(l, lineage) ==> Justified(c1, v2, l)
    decreases |fields|
  {
    if fields != [] {
      var n := |fields| - 1;
      FieldsLinesJustified(c1, v2, fields[..n], lineage);
      FieldLinesJustified(c1, v2, fields[n], lineage);
      DiffFieldsLast(c1, v2, fields, lineage);
    }
  }

  /** The converse of `DifferencesReported`: every line the differ prints
      about the device at `lineage` names a critical field and reports a
      real difference, so equal fields and equal items print nothing. */
  lemma LinesJustified(c1: Component, v2: DevValue, lineage: seq<nat>, pytest: bool)
    ensures forall l :: l in DiffDevices(c1, v2, lineage, pytest).report && ReportsAt(l, lineage) ==>
              l.field in c1.criticalFields && Justified(c1, v2, l)
  {
    FieldsLinesJustified(c1, v2, c1.criticalFields, lineage);
  }

  /** A list field whose lengths differ gets the single length line; no
      item of it is compared. */
  lemma LengthMismatchSingleLine(c1: Component, v2: DevValue, f: string, lineage: seq<nat>)
    requires f in c1.fields && f in Attributes(v2) && c1.fields[f].ListV?
    requires Length(Attributes(v2)[f]).Some? && Length(Attributes(v2)[f]).value != |c1.fields[f].items|
    ensures DiffField(c1, v2, f, lineage)
         == Diff(Finished, [LengthsDiffer(f, lineage, |c1.fields[f].items|, Length(Attributes(v2)[f]).value)])
  {
  }

  // ---------------------------------------------------------------------
  // The drill-down into differing component items, at every depth

  /** Item `i` of the list field `f` is a component that differs from its
      partner in `v2`, in a list of the same length: the loop at lines
      181-191 compares the two one position deeper. */
  predicate DescendsInto(c1: Component, v2: DevValue, f: string, i: nat)
  {
    && f in c1.criticalFields && f in c1.fields && f in Attributes(v2) && c1.fields[f].ListV?
    && Length(Attributes(v2)[f]) == Some(|c1.fields[f].items|) && i < |c1.fields[f].items|
    && c1.fields[f].items[i].Comp?
    && ItemAt(Attributes(v2)[f], i).Item? && ItemAt(Attributes(v2)[f], i).value != c1.fields[f].items[i]
  }

  /** `l` is a line a comparison of `c1` and `v2` prints about that pair
      itself: its header when the two differ, or a line naming a critical
      field and reporting a real difference of it. */
  predicate LineAbout(c1: Component, v2: DevValue, l: DiffLine)
  {
    || (l.Header? && Comp(c1) != v2)
    || ((l.Missing? || l.LengthsDiffer? || l.ItemDiffers? || l.FieldDiffers?)
        && l.field in c1.criticalFields && Justified(c1, v2, l))
  }

  /** `l`, printed by the comparison of `c1` and `v2` at `lineage`, is a
      separator, a line about that pair at that lineage, or, one position
      deeper, accounted for by the comparison of a differing component
      item with its partner. */
  ghost predicate Accounted(c1: Component, v2: DevValue, lineage: seq<nat>, l: DiffLine)
    decreases if l.Separator? then 0 else |l.lineage| - |lineage|
  {
    || l.Separator?
    || (l.lineage == lineage && LineAbout(c1, v2, l))
    || (&& |lineage| < |l.lineage|
        && exists f: string, i: nat :: DescendsInto(c1, v2, f, i)
                                          && Accounted(c1.fields[f].items[i].c, ItemAt(Attributes(v2)[f], i).value, lineage + [i], l))
  }

  lemma TopAccounted(c1: Component, v2: DevValue, lineage: seq<nat>, l: DiffLine)
    requires !l.Separator? && l.lineage == lineage && LineAbout(c1, v2, l)
    ensures Accounted(c1, v2, lineage, l)
  {
  }

  lemma DeeperAccounted(c1: Component, v2: DevValue, f: string, i: nat, lineage: seq<nat>, l: DiffLine)
    requires DescendsInto(c1, v2, f, i)
    requires Accounted(c1.fields[f].items[i].c, ItemAt(Attributes(v2)[f], i).value, lineage + [i], l)
    ensures Accounted(c1, v2, lineage, l)
  {
  }

  /** The converse of `DifferencesReported` and `DifferingItemsReported`
      at every depth: each line the differ prints is a separator, the
      header of a pair of devices a drill-down reaches, or a line naming a
      critical field of that pair and reporting a real difference of it,
      at the lineage of that drill-down.  Nothing else is printed,
      whether the comparison finishes or raises. */
  lemma {:induction false} LinesAccounted(c1: Component, v2: DevValue, lineage: seq<nat>, pytest: bool)
    ensures forall l :: l in DiffDevices(c1, v2, lineage, pytest).report ==> Accounted(c1, v2, lineage, l)
    decreases Comp(c1), 3
  {
    if Comp(c1) != v2 && !pytest {
      FieldsAccounted(c1, v2, c1.criticalFields, lineage);
      TopAccounted(c1, v2, lineage, Header(lineage));
    }
  }

  lemma {:induction false} FieldsAccounted(c1: Component, v2: DevValue, fields: seq<string>, lineage: seq<nat>)
    requires forall f :: f in fields ==> f in c1.criticalFields
    ensures forall l :: l in DiffFields(c1, v2, fields, lineage).report ==> Accounted(c1, v2, lineage, l)
    decreases Comp(c1), 2, |fields|
  {
    if fields != [] {
      var n := |fields| - 1;
      assert forall f :: f in fields[..n] ==> f in fields;
      FieldsAccounted(c1, v2, fields[..n], lineage);
      FieldAccounted(c1, v2, fields[n], lineage);
      DiffFieldsLast(c1, v2, fields, lineage);
    }
  }

  lemma {:induction false} FieldAccounted(c1: Component, v2: DevValue, field: string, lineage: seq<nat>)
    requires field in c1.criticalFields
    ensures forall l :: l in DiffField(c1, v2, field, lineage).report ==> Accounted(c1, v2, lineage, l)
    decreases Comp(c1), 1
  {
    var r := DiffField(c1, v2, field, lineage);
    FieldLinesJustified(c1, v2, field, lineage);
    if field in c1.fields && field in Attributes(v2) && c1.fields[field].ListV?
       && c1.fields[field] != Attributes(v2)[field] && Length(Attributes(v2)[field]) == Some(|c1.fields[field].items|) {
      var f1 := c1.fields[field];
      assert f1 < Comp(c1) by {
        assert f1 == c1.fields[field];
      }
      ItemsAccounted(c1, v2, field, |f1.items|, lineage);
    } else {
      forall l | l in r.report
        ensures Accounted(c1, v2, lineage, l)
      {
        assert ReportsAt(l, lineage);
        TopAccounted(c1, v2, lineage, l);
      }
    }
  }

  lemma {:induction false} ItemsAccounted(c1: Component, v2: DevValue, field: string, upto: nat, lineage: seq<nat>)
    requires field in c1.criticalFields && field in c1.fields && field in Attributes(v2) && c1.fields[field].ListV?
    requires upto <= |c1.fields[field].items| && Length(Attributes(v2)[field]) == Some(|c1.fields[field].items|)
    ensures forall l :: l in DiffItems(c1.fields[field], Attributes(v2)[field], upto, field, lineage).report ==>
              Accounted(c1, v2, lineage, l)
    decreases c1.fields[field], 0, upto
  {
    if upto > 0 {
      ItemsAccounted(c1, v2, field, upto - 1, lineage);
      ItemAccounted(c1, v2, field, upto - 1, lineage);
    }
  }

  lemma {:induction false} ItemAccounted(c1: Component, v2: DevValue, field: string, i: nat, lineage: seq<nat>)
    requires field in c1.criticalFields && field in c1.fields && field in Attributes(v2) && c1.fields[field].ListV?
    requires i < |c1.fields[field].items| && Length(Attributes(v2)[field]) == Some(|c1.fields[field].items|)
    ensures forall l :: l in DiffItem(c1.fields[field].items[i], Attributes(v2)[field], i, field, lineage).report ==>
              Accounted(c1, v2, lineage, l)
    decreases c1.fields[field].items[i], 4
  {
    var item1, f2 := c1.fields[field].items[i], Attributes(v2)[field];
    match ItemAt(f2, i)
    case Raises(_) =>
    case Item(item2) =>
      if item1 != item2 {
        if item1.Comp? {
          assert DescendsInto(c1, v2, field, i);
          LinesAccounted(item1.c, item2, lineage + [i], false);
          forall l | l in DiffDevices(item1.c, item2, lineage + [i], false).report
            ensures Accounted(c1, v2, lineage, l)
          {
            DeeperAccounted(c1, v2, field, i, lineage, l);
          }
        } else {
          TopAccounted(c1, v2, lineage, ItemDiffers(field, i, lineage, item1, item2));
        }
      }
  }

  /** When the comparison finishes, the comparison of a differing
      component item one position deeper finishes too, and every line it
      prints is in the report: no nested finding is dropped. */
  lemma SubComponentLinesKept(c1: Component, v2: DevValue, lineage: seq<nat>, f: string, i: nat)
    requires Comp(c1) != v2 && DescendsInto(c1, v2, f, i)
    requires DiffDevices(c1, v2, lineage, false).ending.Finished?
    ensures var nested := DiffDevices(c1.fields[f].items[i].c, ItemAt(Attributes(v2)[f], i).value, lineage + [i], false);
            && nested.ending.Finished?
            && forall l :: l in nested.report ==> l in DiffDevices(c1, v2, lineage, false).report
  {
    var fields := c1.criticalFields;
    var k :| 0 <= k < |fields| && fields[k] == f;
    FieldLinesKept(c1, v2, fields, k, lineage);
    var f1, f2 := c1.fields[f], Attributes(v2)[f];
    ItemLinesKept(f1, f2, |f1.items|, i, f, lineage);
  }

  // ---------------------------------------------------------------------
  // A worked example

  function Cell(voc: real): Component
  {
    Component(["Voc"], map["Voc" := Atom(PyFloat(voc))])
  }

  /** A list field against None: `len(None)` raises TypeError before any
      item is compared. */
  lemma ListAgainstNoneRaises()
    ensures DiffField(Component(["f"], map["f" := ListV([Atom(PyInt(1)), Atom(PyInt(2))])]),
                      Comp(Component(["f"], map["f" := Atom(PyOther("None"))])), "f", [])
         == Diff(Halted(TypeError), [])
  {
  }

  /** A string of two cells whose second cell's Voc changed: the header of
      the string, then the header of cell 1 and its field line. */
  lemma SecondCellDiffers()
    ensures DiffDevices(Component(["cells"], map["cells" := ListV([Comp(Cell(0.7)), Comp(Cell(0.7))])]),
                        Comp(Component(["cells"], map["cells" := ListV([Comp(Cell(0.7)), Comp(Cell(0.8))])])),
                        [], false)
         == Diff(Finished, [Separator, Header([]),
                            Separator, Header([1]),
                            FieldDiffers("Voc", [1], Atom(PyFloat(0.7)), Atom(PyFloat(0.8)))])
  {
    var list1 := ListV([Comp(Cell(0.7)), Comp(Cell(0.7))]);
    var list2 := ListV([Comp(Cell(0.7)), Comp(Cell(0.8))]);
    var c1 := Component(["cells"], map["cells" := list1]);
    var c2 := Component(["cells"], map["cells" := list2]);
    assert Cell(0.7) != Cell(0.8) by {
      assert Cell(0.7).fields["Voc"] != Cell(0.8).fields["Voc"];
    }
    assert list1 != list2 by {
      assert list1.items[1] != list2.items[1];
    }
    assert Comp(c1) != Comp(c2) by {
      assert c1.fields["cells"] != c2.fields["cells"];
    }
    assert ["Voc"][..0] == [] && ["cells"][..0] == [];
    assert DiffDevices(Cell(0.7), Comp(Cell(0.8)), [1], false)
        == Diff(Finished, [Separator, Header([1]), FieldDiffers("Voc", [1], Atom(PyFloat(0.7)), Atom(PyFloat(0.8)))]);
    assert DiffItems(list1, list2, 1, "cells", []) == Diff(Finished, []);
    assert [] + [1] == [1];
  }
}
