/** A package object updated in place: a JavaScript object whose string keys
    are package names, kept in insertion order, and whose values are
    versions. */
module PkgObjects {
  import opened Packages

  class PkgObject {
    /** The keys, in insertion order (the order `Object.entries` reports). */
    var order: seq<Name>
    /** The value under each key. */
    var vals: map<Name, Version>

    ghost predicate Valid()
      reads this
    {
      Distinct(order) && forall k :: k in vals <==> k in order
    }

    /** `Object.entries(this)`. */
    function Entries(): (es: seq<Entry>)
      reads this
      requires Valid()
      ensures Names(es) == order && ToMap(es) == vals
    {
      EntriesOf(order, vals)
    }

    /** `{}`. */
    constructor Empty()
      ensures Valid() && order == [] && vals == map[]
    {
      order := [];
      vals := map[];
    }

    /** An object whose entries are `es`, as `JSON.parse` or `Object.assign`
        builds one. */
    constructor FromEntries(es: seq<Entry>)
      requires Distinct(Names(es))
      ensures Valid() && Entries() == es
    {
      order := Names(es);
      vals := ToMap(es);
      new;
      forall i | 0 <= i < |es| ensures Entries()[i] == es[i] {
        ToMapAt(es, i);
      }
    }

    /** `k in this`. */
    function Has(k: Name): (b: bool)
      reads this
      requires Valid()
      ensures b <==> k in order
    {
      k in vals
    }

    /** `this[k] = v`: a new key goes to the end, an existing key keeps its
        place and takes the new value. */
    method Put(k: Name, v: Version)
      requires Valid()
      modifies this
      ensures Valid()
      ensures vals == old(vals)[k := v]
      ensures order == if k in old(vals) then old(order) else old(order) + [k]
    {
      if k !in vals {
        order := order + [k];
      }
      vals := vals[k := v];
    }

    /** `delete this[k]`: the key leaves, the others keep their order. */
    method Delete(k: Name)
      requires Valid()
      modifies this
      ensures Valid()
      ensures vals == old(vals) - {k}
      ensures order == Without(old(order), k)
    {
      WithoutDistinct(order, k);
      order := Without(order, k);
      vals := vals - {k};
    }
  }
}
