/** The Python values the regression harness handles, as plain data.

    Snapshots, field records and tolerances in utilities.py are Python
    dictionaries whose leaves are ints, floats, numpy arrays or other
    objects.  This module gives them one datatype, together with the
    exceptions the harness can raise and Python's None-or-value. */
module PyValues {

  /** A value stored in a snapshot or read from a device.
      Floats are real numbers (no NaN, no infinities); a numpy array is
      flattened to the sequence of its elements; a str is its characters;
      every other object (None, a list or a tuple inside a snapshot) is
      kept as its text, which has no length and cannot be indexed. */
  datatype PyValue =
    | PyInt(i: int)
    | PyFloat(r: real)
    | PyArray(elems: seq<real>)
    | PyStr(s: string)
    | PyOther(text: string)
    | PyDict(entries: map<string, PyValue>)

  /** The exceptions the modelled code can raise. */
  datatype Exception = AssertionError | AttributeError | TypeError | KeyError

  /** How a call of the comparator ends: it returns its all-pass flag,
      or an exception escapes from it. */
  datatype Outcome = Returned(allPass: bool) | Raised(error: Exception)

  /** Python's "None or a value". */
  datatype Option<T> = None | Some(value: T)

  /** `isinstance(v, (float, int))` */
  predicate IsNumber(v: PyValue)
  {
    v.PyInt? || v.PyFloat?
  }

  /** The number a Python int or float stands for. */
  function AsReal(v: PyValue): real
    requires IsNumber(v)
  {
    if v.PyInt? then v.i as real else v.r
  }

  /** Python's `==` on these values: an int equals a float that stands
      for the same number, two dictionaries are equal when they have the
      same keys and equal values under each key, and values of different
      kinds are different. */
  predicate PyEq(a: PyValue, b: PyValue)
    ensures PyEq(a, b) ==> (IsNumber(a) <==> IsNumber(b)) && (a.PyDict? <==> b.PyDict?)
    ensures PyEq(a, b) && !IsNumber(a) && !a.PyDict? ==> a == b
    decreases a
  {
    if IsNumber(a) && IsNumber(b) then AsReal(a) == AsReal(b)
    else if a.PyArray? && b.PyArray? then a.elems == b.elems
    else if a.PyStr? && b.PyStr? then a.s == b.s
    else if a.PyOther? && b.PyOther? then a.text == b.text
    else if a.PyDict? && b.PyDict? then
      a.entries.Keys == b.entries.Keys && forall k :: k in a.entries ==> PyEq(a.entries[k], b.entries[k])
    else false
  }

  /** Every value equals itself. */
  lemma {:induction false} PyEqReflexive(v: PyValue)
    ensures PyEq(v, v)
    decreases v
  {
    if v.PyDict? {
      forall k | k in v.entries
        ensures PyEq(v.entries[k], v.entries[k])
      {
        PyEqReflexive(v.entries[k]);
      }
    }
  }

  /** `==` does not depend on the order of its operands. */
  lemma {:induction false} PyEqSymmetric(a: PyValue, b: PyValue)
    requires PyEq(a, b)
    ensures PyEq(b, a)
    decreases a
  {
    if a.PyDict? && b.PyDict? {
      forall k | k in b.entries
        ensures PyEq(b.entries[k], a.entries[k])
      {
        PyEqSymmetric(a.entries[k], b.entries[k]);
      }
    }
  }

  /** `1 == 1.0`, also as values of a dictionary, although the two are
      different Python objects. */
  lemma IntEqualsEqualFloat()
    ensures PyInt(1) != PyFloat(1.0)
    ensures PyEq(PyInt(1), PyFloat(1.0))
    ensures PyEq(PyDict(map["tol" := PyInt(1)]), PyDict(map["tol" := PyFloat(1.0)]))
  {
    var a, b := map["tol" := PyInt(1)], map["tol" := PyFloat(1.0)];
    assert forall k :: k in a ==> k == "tol";
  }

  /** numpy's default tolerance as used throughout the harness: 1e-5. */
  const DefaultTol: real := 0.00001
}
