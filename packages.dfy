/** Package objects as values. A JavaScript object keeps its string keys in
    insertion order, so `Object.entries` over a package object is a sequence
    of (name, version) entries with distinct names. */
module Packages {
  import opened Wrappers

  type Name = string

  /** A version string, or `None` where the source holds `undefined`. */
  type Version = Option<string>

  /** One `[name, version]` pair of `Object.entries`. */
  datatype Entry = Entry(name: Name, version: Version)

  function Names(es: seq<Entry>): (ns: seq<Name>)
    ensures |ns| == |es|
    ensures forall i :: 0 <= i < |es| ==> ns[i] == es[i].name
  {
    seq(|es|, i requires 0 <= i < |es| => es[i].name)
  }

  predicate Distinct(ns: seq<Name>)
  {
    forall i, j :: 0 <= i < j < |ns| ==> ns[i] != ns[j]
  }

  /** The name-to-version view of a sequence of entries; a later entry
      overrides an earlier one with the same name. */
  function ToMap(es: seq<Entry>): (m: map<Name, Version>)
    ensures forall k :: k in m <==> k in Names(es)
  {
    if es == [] then map[]
    else
      var last := es[|es| - 1];
      assert Names(es) == Names(es[..|es| - 1]) + [last.name];
      ToMap(es[..|es| - 1])[last.name := last.version]
  }

  /** The value under a name is the one of the last entry carrying it. */
  lemma {:induction false} ToMapLastWins(es: seq<Entry>, i: nat)
    requires i < |es|
    requires forall j :: i < j < |es| ==> es[j].name != es[i].name
    ensures es[i].name in ToMap(es) && ToMap(es)[es[i].name] == es[i].version
  {
    if i < |es| - 1 {
      ToMapLastWins(es[..|es| - 1], i);
    }
  }

  /** For entries with distinct names every entry is found in the map view. */
  lemma ToMapAt(es: seq<Entry>, i: nat)
    requires Distinct(Names(es)) && i < |es|
    ensures es[i].name in ToMap(es) && ToMap(es)[es[i].name] == es[i].version
  {
    NoLaterDuplicate(es, i);
    ToMapLastWins(es, i);
  }

  lemma NoLaterDuplicate(es: seq<Entry>, i: nat)
    requires Distinct(Names(es)) && i < |es|
    ensures forall j :: i < j < |es| ==> es[j].name != es[i].name
  {
  }

  lemma ToMapSnoc(xs: seq<Entry>, e: Entry)
    ensures ToMap(xs + [e]) == ToMap(xs)[e.name := e.version]
  {
  }

  /** The map view of a concatenation: the right part overrides the left. */
  lemma {:induction false} ToMapConcat(xs: seq<Entry>, ys: seq<Entry>)
    ensures ToMap(xs + ys) == ToMap(xs) + ToMap(ys)
  {
    if ys == [] {
      assert xs + ys == xs;
    } else {
      var n := |ys| - 1;
      assert (xs + ys)[..|xs + ys| - 1] == xs + ys[..n];
      ToMapConcat(xs, ys[..n]);
    }
  }

  /** The entries of an object whose keys, in insertion order, are `order`
      and whose values are `vals`: they list the keys in order and, read
      back into a map, give the object's values. */
  function EntriesOf(order: seq<Name>, vals: map<Name, Version>): (es: seq<Entry>)
    requires forall k :: k in order ==> k in vals
    ensures Names(es) == order
    ensures Distinct(order) && (forall k :: k in vals <==> k in order) ==> ToMap(es) == vals
  {
    var es := seq(|order|, i requires 0 <= i < |order| => Entry(order[i], vals[order[i]]));
    assert Names(es) == order;
    assert Distinct(order) && (forall k :: k in vals <==> k in order) ==> ToMap(es) == vals by {
      if Distinct(order) && (forall k :: k in vals <==> k in order) {
        ToMapOfListing(es, order, vals);
      }
    }
    es
  }

  /** Entries that list distinct keys, each with its value in `vals`, read
      back into `vals`. */
  lemma ToMapOfListing(es: seq<Entry>, order: seq<Name>, vals: map<Name, Version>)
    requires Names(es) == order && Distinct(order)
    requires forall k :: k in vals <==> k in order
    requires forall i :: 0 <= i < |es| ==> es[i].version == vals[order[i]]
    ensures ToMap(es) == vals
  {
    forall i | 0 <= i < |es| ensures ToMap(es)[order[i]] == vals[order[i]] {
      ToMapAt(es, i);
    }
    forall k | k in vals ensures k in ToMap(es) && ToMap(es)[k] == vals[k] {
      var i :| 0 <= i < |order| && order[i] == k;
    }
  }

  /** Position of the first occurrence of `k` in `ns`, or `|ns|` if none. */
  function IndexOf(ns: seq<Name>, k: Name): (i: nat)
    ensures i <= |ns|
    ensures i < |ns| ==> ns[i] == k
    ensures forall j :: 0 <= j < i ==> ns[j] != k
  {
    if ns == [] then 0
    else if ns[0] == k then 0
    else 1 + IndexOf(ns[1..], k)
  }

  /** `Object.assign(obj, {[e.name]: e.version})` on the entries of `obj`:
      an existing name keeps its position and takes the new version, a new
      name goes to the end. */
  function Assign(es: seq<Entry>, e: Entry): (r: seq<Entry>)
  {
    var i := IndexOf(Names(es), e.name);
    if i < |es| then es[i := e] else es + [e]
  }

  /** `Assign` never reorders: a name already present keeps its place, a new
      name is appended. */
  lemma AssignNames(es: seq<Entry>, e: Entry)
    ensures Names(Assign(es, e)) == if e.name in Names(es) then Names(es) else Names(es) + [e.name]
  {
    var i := IndexOf(Names(es), e.name);
    if i < |es| {
      assert Names(es[i := e]) == Names(es)[i := e.name];
    } else {
      assert Names(es + [e]) == Names(es) + [e.name];
    }
  }

  /** On entries with distinct names, `Assign` keeps names distinct and acts
      on the map view as a single update. */
  lemma AssignToMap(es: seq<Entry>, e: Entry)
    requires Distinct(Names(es))
    ensures Distinct(Names(Assign(es, e)))
    ensures ToMap(Assign(es, e)) == ToMap(es)[e.name := e.version]
  {
    AssignNames(es, e);
    var a := Assign(es, e);
    var i := IndexOf(Names(es), e.name);
    if i < |es| {
      forall k | k in ToMap(a) ensures ToMap(a)[k] == ToMap(es)[e.name := e.version][k] {
        var j :| 0 <= j < |a| && Names(a)[j] == k;
        ToMapAt(a, j);
        if j != i {
          assert a[j] == es[j];
          ToMapAt(es, j);
        }
      }
    }
  }

  /** `Object.assign` with the one-property objects `es`, left to right, onto
      the object whose entries are `acc`: its keys are those of `acc` and of
      the assigned objects, and no others. */
  function AssignAll(acc: seq<Entry>, es: seq<Entry>): (r: seq<Entry>)
    ensures forall k :: k in Names(r) <==> k in Names(acc) || k in Names(es)
    decreases es
  {
    if es == [] then acc
    else
      assert forall k :: k in Names(es) <==> k == es[0].name || k in Names(es[1..]);
      AssignNames(acc, es[0]);
      AssignAll(Assign(acc, es[0]), es[1..])
  }

  /** Starting from distinct names, `AssignAll` gives distinct names. */
  lemma {:induction false} AssignAllDistinct(acc: seq<Entry>, es: seq<Entry>)
    requires Distinct(Names(acc))
    ensures Distinct(Names(AssignAll(acc, es)))
    decreases es
  {
    if es != [] {
      AssignToMap(acc, es[0]);
      AssignAllDistinct(Assign(acc, es[0]), es[1..]);
    }
  }

  /** The map view of `AssignAll` is that of all assignments in order: the
      last one for a name wins. */
  lemma {:induction false} AssignAllToMap(acc: seq<Entry>, es: seq<Entry>)
    requires Distinct(Names(acc))
    ensures ToMap(AssignAll(acc, es)) == ToMap(acc + es)
    decreases es
  {
    if es == [] {
      assert acc + es == acc;
    } else {
      var e, rest := es[0], es[1..];
      AssignToMap(acc, e);
      calc {
        ToMap(AssignAll(acc, es));
        ToMap(AssignAll(Assign(acc, e), rest));
        { AssignAllToMap(Assign(acc, e), rest); }
        ToMap(Assign(acc, e) + rest);
        { AssignThenRest(acc, e, rest); }
        ToMap(acc + ([e] + rest));
        { assert [e] + rest == es; }
        ToMap(acc + es);
      }
    }
  }

  /** One assignment followed by further entries has the map view of the
      entry appended, followed by them. */
  lemma AssignThenRest(acc: seq<Entry>, e: Entry, rest: seq<Entry>)
    requires Distinct(Names(acc))
    ensures ToMap(Assign(acc, e) + rest) == ToMap(acc + ([e] + rest))
  {
    var next := Assign(acc, e);
    AssignToMap(acc, e);
    calc {
      ToMap(next + rest);
      { ToMapConcat(next, rest); }
      ToMap(next) + ToMap(rest);
      { ToMapSnoc(acc, e); }
      ToMap(acc + [e]) + ToMap(rest);
      { ToMapConcat(acc + [e], rest); }
      ToMap(acc + [e] + rest);
      { assert acc + [e] + rest == acc + ([e] + rest); }
      ToMap(acc + ([e] + rest));
    }
  }

  /** `Object.assign({}, {a: "1"}, {b: "2"}, {a: "3"})` is `{a: "3", b: "2"}`:
      the last version of `a` wins and `a` keeps its first position. */
  lemma AssignAllExample()
    ensures AssignAll([], [Entry("a", Some("1")), Entry("b", Some("2")), Entry("a", Some("3"))])
         == [Entry("a", Some("3")), Entry("b", Some("2"))]
  {
    var es := [Entry("a", Some("1")), Entry("b", Some("2")), Entry("a", Some("3"))];
    assert "a" != "b";
    assert Assign([], es[0]) == [es[0]];
    assert Assign([es[0]], es[1]) == [es[0], es[1]];
    assert Assign([es[0], es[1]], es[2]) == [es[2], es[1]];
  }

  /** The names of `ns` that belong to `keys`, in their order. */
  function Keep(ns: seq<Name>, keys: set<Name>): (r: seq<Name>)
    ensures forall k :: k in r <==> k in ns && k in keys
  {
    if ns == [] then []
    else
      var n := |ns| - 1;
      assert ns == ns[..n] + [ns[n]];
      Keep(ns[..n], keys) + if ns[n] in keys then [ns[n]] else []
  }

  /** Filtering keeps distinct names distinct. */
  lemma {:induction false} KeepDistinct(ns: seq<Name>, keys: set<Name>)
    requires Distinct(ns)
    ensures Distinct(Keep(ns, keys))
  {
    if ns != [] {
      var n := |ns| - 1;
      KeepDistinct(ns[..n], keys);
      assert ns[n] !in ns[..n];
    }
  }

  /** `ns` without the name `k`. */
  function Without(ns: seq<Name>, k: Name): (r: seq<Name>)
    ensures forall x :: x in r <==> x in ns && x != k
  {
    if ns == [] then []
    else
      var n := |ns| - 1;
      assert ns == ns[..n] + [ns[n]];
      Without(ns[..n], k) + if ns[n] != k then [ns[n]] else []
  }

  /** Dropping a name keeps distinct names distinct. */
  lemma {:induction false} WithoutDistinct(ns: seq<Name>, k: Name)
    requires Distinct(ns)
    ensures Distinct(Without(ns, k))
  {
    if ns != [] {
      var n := |ns| - 1;
      WithoutDistinct(ns[..n], k);
      assert ns[n] !in ns[..n];
    }
  }

  /** Dropping a name after filtering is filtering with one key fewer. */
  lemma {:induction false} WithoutKeep(ns: seq<Name>, keys: set<Name>, k: Name)
    ensures Without(Keep(ns, keys), k) == Keep(ns, keys - {k})
  {
    if ns != [] {
      var n := |ns| - 1;
      WithoutKeep(ns[..n], keys, k);
      var head := Keep(ns[..n], keys);
      if ns[n] in keys {
        var r := head + [ns[n]];
        assert r[..|r| - 1] == head;
      } else {
        assert Keep(ns, keys) == head;
        assert Keep(ns, keys - {k}) == Keep(ns[..n], keys - {k});
      }
    }
  }

  /** Filtering a sequence of distinct names on the set of all its names
      changes nothing. */
  lemma {:induction false} KeepAll(ns: seq<Name>, keys: set<Name>)
    requires forall k :: k in ns ==> k in keys
    ensures Keep(ns, keys) == ns
  {
    if ns != [] {
      var n := |ns| - 1;
      KeepAll(ns[..n], keys);
      assert ns == ns[..n] + [ns[n]];
    }
  }
}
