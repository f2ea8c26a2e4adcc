/**
 * The sorted snapshots the registry hands out (`Sets.newTreeSet` over the cached types):
 * ascending by name, one element per name, the first element added for a name kept.
 */
module Snapshots {
  import opened InstanceTypes
  import JavaStrings

  /** Strictly ascending by name, hence also free of repeated names. */
  predicate SortedByName(s: seq<VmType>) {
    forall i, j :: 0 <= i < j < |s| ==> JavaStrings.Less(s[i].name, s[j].name)
  }

  /** The element set of a sequence of types. */
  function Elements(s: seq<VmType>): set<VmType> {
    set x | x in s
  }

  /** The names that occur in a sequence of types. */
  function Names(s: seq<VmType>): set<string> {
    set x | x in s :: x.name
  }

  /** The names that occur in a set of types. */
  function NamesOf(vals: set<VmType>): set<string> {
    set x | x in vals :: x.name
  }

  /** No two distinct types in the set share a name (a map keyed by name has this property). */
  predicate DistinctNames(vals: set<VmType>) {
    forall a, b :: a in vals && b in vals && a.name == b.name ==> a == b
  }

  /** `s` is the tree set of `vals`: ascending by name and holding exactly the elements of `vals`. */
  predicate IsSnapshot(s: seq<VmType>, vals: set<VmType>) {
    SortedByName(s) && Elements(s) == vals
  }

  lemma ConsFacts(x: VmType, t: seq<VmType>)
    ensures Elements([x] + t) == {x} + Elements(t)
    ensures Names([x] + t) == {x.name} + Names(t)
  {
    assert forall y :: y in [x] + t <==> y == x || y in t;
  }

  /** `TreeSet.add`: a type whose name is already present is not added again. */
  function Insert(s: seq<VmType>, v: VmType): (r: seq<VmType>)
    requires SortedByName(s)
    ensures SortedByName(r)
    ensures Names(r) == Names(s) + {v.name}
    ensures Elements(s) <= Elements(r) <= Elements(s) + {v}
    ensures v.name in Names(s) ==> r == s
    ensures v.name !in Names(s) ==> Elements(r) == Elements(s) + {v}
    decreases |s|
  {
    if s == [] then
      ConsFacts(v, []);
      [v]
    else if JavaStrings.Less(v.name, s[0].name) then
      InsertFrontSorted(s, v);
      ConsFacts(v, s);
      [v] + s
    else if v.name == s[0].name then
      assert s[0] in s;
      s
    else
      var tail := Insert(s[1..], v);
      InsertTailSorted(s, v, tail);
      ConsFacts(s[0], tail);
      ConsFacts(s[0], s[1..]);
      assert s == [s[0]] + s[1..];
      [s[0]] + tail
  }

  lemma InsertFrontSorted(s: seq<VmType>, v: VmType)
    requires SortedByName(s) && s != [] && JavaStrings.Less(v.name, s[0].name)
    ensures SortedByName([v] + s)
    ensures v.name !in Names(s)
  {
    forall j | 0 < j < |s|
      ensures JavaStrings.Less(v.name, s[j].name)
    {
      JavaStrings.LessTransitive(v.name, s[0].name, s[j].name);
    }
    if v.name in Names(s) {
      var x :| x in s && x.name == v.name;
      var j :| 0 <= j < |s| && s[j] == x;
      JavaStrings.LessIrreflexive(v.name);
    }
  }

  lemma InsertTailSorted(s: seq<VmType>, v: VmType, tail: seq<VmType>)
    requires SortedByName(s) && s != []
    requires !JavaStrings.Less(v.name, s[0].name) && v.name != s[0].name
    requires SortedByName(tail)
    requires Elements(tail) <= Elements(s[1..]) + {v}
    ensures SortedByName([s[0]] + tail)
  {
    JavaStrings.LessTotal(v.name, s[0].name);
    forall j | 0 <= j < |tail|
      ensures JavaStrings.Less(s[0].name, tail[j].name)
    {
      assert tail[j] in Elements(tail);
      if tail[j] != v {
        var k :| 0 <= k < |s[1..]| && s[1..][k] == tail[j];
        assert s[k + 1] == tail[j];
      }
    }
  }

  /**
   * `Sets.newTreeSet(vals)`: adds the values one at a time, in whatever order the map
   * yields them; the result is sorted, holds only values of `vals` and one per name.
   */
  method NewTreeSet(vals: set<VmType>) returns (r: seq<VmType>)
    ensures SortedByName(r)
    ensures Elements(r) <= vals
    ensures Names(r) == NamesOf(vals)
    ensures DistinctNames(vals) ==> IsSnapshot(r, vals)
  {
    r := [];
    var rest := vals;
    while rest != {}
      invariant rest <= vals
      invariant SortedByName(r)
      invariant Elements(r) <= vals
      invariant Names(r) == NamesOf(vals - rest)
      invariant DistinctNames(vals) ==> Elements(r) == vals - rest
      decreases |rest|
    {
      var v :| v in rest;
      TreeSetStep(vals, rest, r, v);
      r := Insert(r, v);
      rest := rest - {v};
    }
  }

  /** One `add` of the tree set's construction keeps its loop invariant. */
  lemma TreeSetStep(vals: set<VmType>, rest: set<VmType>, r: seq<VmType>, v: VmType)
    requires rest <= vals && v in rest
    requires SortedByName(r) && Elements(r) <= vals
    requires Names(r) == NamesOf(vals - rest)
    requires DistinctNames(vals) ==> Elements(r) == vals - rest
    ensures Elements(Insert(r, v)) <= vals
    ensures Names(Insert(r, v)) == NamesOf(vals - (rest - {v}))
    ensures DistinctNames(vals) ==> Elements(Insert(r, v)) == vals - (rest - {v})
  {
    assert vals - (rest - {v}) == (vals - rest) + {v};
    assert NamesOf((vals - rest) + {v}) == NamesOf(vals - rest) + {v.name};
  }

  /** A strictly sorted sequence is determined by its elements: there is only one snapshot of a set. */
  lemma {:induction false} SortedUnique(a: seq<VmType>, b: seq<VmType>)
    requires SortedByName(a) && SortedByName(b)
    requires Elements(a) == Elements(b)
    ensures a == b
    decreases |a|
  {
    if a != [] {
      assert a[0] in Elements(a);
      assert b != [];
      // The smallest elements agree: each first element is below every other element.
      assert b[0] in Elements(b);
      if a[0] != b[0] {
        var i :| 0 <= i < |b| && b[i] == a[0];
        var j :| 0 <= j < |a| && a[j] == b[0];
        assert i != 0 && j != 0;
        JavaStrings.LessAsymmetric(b[0].name, a[0].name);
        assert false;
      }
      assert Elements(a[1..]) == Elements(b[1..]) by {
        forall x | x in Elements(a[1..]) ensures x in Elements(b[1..]) {
          var k :| 0 <= k < |a[1..]| && a[1..][k] == x;
          assert x != a[0] by { JavaStrings.LessIrreflexive(a[0].name); assert JavaStrings.Less(a[0].name, a[k + 1].name); }
          assert x in Elements(b);
        }
        forall x | x in Elements(b[1..]) ensures x in Elements(a[1..]) {
          var k :| 0 <= k < |b[1..]| && b[1..][k] == x;
          assert x != b[0] by { JavaStrings.LessIrreflexive(b[0].name); assert JavaStrings.Less(b[0].name, b[k + 1].name); }
          assert x in Elements(a);
        }
      }
      SortedUnique(a[1..], b[1..]);
      assert a == [a[0]] + a[1..] && b == [b[0]] + b[1..];
    } else {
      EmptyElements(b);
    }
  }

  lemma EmptyElements(s: seq<VmType>)
    ensures s == [] <==> Elements(s) == {}
  {
    if s != [] {
      assert s[0] in Elements(s);
    }
  }

  /** The enabled elements of a snapshot, in order (`Iterables.filter(…, VmType::getEnabled)`). */
  function EnabledOnly(s: seq<VmType>): (r: seq<VmType>)
    ensures Elements(r) == EnabledOf(Elements(s))
    ensures SortedByName(s) ==> SortedByName(r)
    decreases |s|
  {
    if s == [] then []
    else
      var tail := EnabledOnly(s[1..]);
      ConsFacts(s[0], s[1..]);
      ConsFacts(s[0], tail);
      assert s == [s[0]] + s[1..];
      assert EnabledOf(Elements(s)) == EnabledOf({s[0]}) + EnabledOf(Elements(s[1..]));
      if s[0].enabled then
        if SortedByName(s) then
          PrependSorted(s, tail);
          [s[0]] + tail
        else
          [s[0]] + tail
      else tail
  }

  /** The types of the set that are offered (`VmType::getEnabled`). */
  function EnabledOf(vals: set<VmType>): set<VmType> {
    set v | v in vals && v.enabled
  }

  /** The head of a sorted sequence may be put in front of any sorted selection of its tail. */
  lemma PrependSorted(s: seq<VmType>, t: seq<VmType>)
    requires SortedByName(s) && s != []
    requires SortedByName(t) && Elements(t) <= Elements(s[1..])
    ensures SortedByName([s[0]] + t)
  {
    forall j | 0 <= j < |t|
      ensures JavaStrings.Less(s[0].name, t[j].name)
    {
      assert t[j] in Elements(t);
      var k :| 0 <= k < |s[1..]| && s[1..][k] == t[j];
      assert s[k + 1] == t[j];
    }
  }

  /**
   * The enabled listing is the full listing with the disabled types dropped: the snapshot of the
   * enabled values is the filtered snapshot of all values.
   */
  lemma ListEnabledIsFilteredList(all: seq<VmType>, enabled: seq<VmType>, vals: set<VmType>)
    requires IsSnapshot(all, vals) && IsSnapshot(enabled, EnabledOf(vals))
    ensures enabled == EnabledOnly(all)
  {
    SortedUnique(enabled, EnabledOnly(all));
  }
}
