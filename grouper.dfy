/**
 * The disjoint-set structure that synteny_scan joins points into
 * (`jcvi.utils.grouper.Grouper`, whose source is not part of this model).
 * Like the Python object, it keeps one dictionary that maps every key that
 * has taken part in a join to the group holding it; keys are compared by
 * value, so equal keys are one member.
 */
module Grouper {

  /** Every key lies in its own group, and all members of a group map to it. */
  ghost predicate Partition<T(!new)>(m: map<T, set<T>>)
  {
    forall x :: x in m ==> x in m[x] && forall y :: y in m[x] ==> y in m && m[y] == m[x]
  }

  /** `x` and `y` are in one group. */
  predicate Together<T>(m: map<T, set<T>>, x: T, y: T)
  {
    x in m && y in m[x]
  }

  /** Every two keys together in `m` are still together in `m'`. */
  ghost predicate Coarser<T(!new)>(m: map<T, set<T>>, m': map<T, set<T>>)
  {
    forall x, y :: Together(m, x, y) ==> Together(m', x, y)
  }

  /** The group `join` starts from for `a`: its current one, or `{a}` for a new key. */
  function GroupOf<T>(m: map<T, set<T>>, a: T): set<T>
  {
    if a in m then m[a] else {a}
  }

  /** The dictionary after `join(a, b)`: the groups of `a` and `b` merged. */
  function Joined<T>(m: map<T, set<T>>, a: T, b: T): map<T, set<T>>
  {
    var u := GroupOf(m, a) + GroupOf(m, b);
    map x | x in m.Keys + {a, b} :: if x in u then u else m[x]
  }

  lemma JoinedSpec<T(!new)>(m: map<T, set<T>>, a: T, b: T)
    requires Partition(m)
    ensures Partition(Joined(m, a, b))
    ensures Joined(m, a, b).Keys == m.Keys + {a, b}
    ensures Together(Joined(m, a, b), a, b)
    ensures Coarser(m, Joined(m, a, b))
    ensures Joined(m, a, b)[a] == GroupOf(m, a) + GroupOf(m, b)
    ensures forall x :: x in m && x !in Joined(m, a, b)[a] ==> Joined(m, a, b)[x] == m[x]
  {
    var u := GroupOf(m, a) + GroupOf(m, b);
    var r := Joined(m, a, b);
    forall x | x in r
      ensures x in r[x] && forall y :: y in r[x] ==> y in r && r[y] == r[x]
    {
      if x in u {
        forall y | y in u ensures y in r {
          if y in GroupOf(m, a) && a in m { assert y in m; }
          if y in GroupOf(m, b) && b in m { assert y in m; }
        }
      } else {
        forall y | y in m[x] ensures y in r && r[y] == r[x] {
        }
      }
    }
    forall x, y | Together(m, x, y) ensures Together(r, x, y) {
      if x in u {
        if x in GroupOf(m, a) && a in m {
          assert m[x] == m[a];
        } else if x in GroupOf(m, b) && b in m {
          assert m[x] == m[b];
        }
      }
    }
  }

  /** The grouping object; `mapping` is the Python object's `_mapping`. */
  class Grouper<T(==, !new)> {
    var mapping: map<T, set<T>>

    ghost predicate Valid()
      reads this
    {
      Partition(mapping)
    }

    constructor ()
      ensures Valid() && mapping == map[]
    {
      mapping := map[];
    }

    /** `join(a, b)`: from now on `a` and `b` share a group. */
    method Join(a: T, b: T)
      requires Valid()
      modifies this
      ensures Valid()
      ensures mapping == Joined(old(mapping), a, b)
      ensures mapping.Keys == old(mapping).Keys + {a, b}
      ensures Together(mapping, a, b)
      ensures Coarser(old(mapping), mapping)
    {
      JoinedSpec(mapping, a, b);
      mapping := Joined(mapping, a, b);
    }

    /** Iterating the object gives each group once. */
    function Groups(): (gs: set<set<T>>)
      reads this
      requires Valid()
      ensures forall g :: g in gs ==> g != {}
      ensures forall g, h :: g in gs && h in gs && g != h ==> g !! h
      ensures forall x :: x in mapping ==> mapping[x] in gs
      ensures forall g, x :: g in gs && x in g ==> x in mapping && mapping[x] == g
    {
      var gs := mapping.Values;
      forall g | g in gs ensures g != {} {
        var x :| x in mapping && mapping[x] == g;
        assert x in g;
      }
      forall g, h | g in gs && h in gs && g != h ensures g !! h {
        var x :| x in mapping && mapping[x] == g;
        var y :| y in mapping && mapping[y] == h;
        if p :| p in g && p in h {
          assert mapping[p] == g && mapping[p] == h;
        }
      }
      gs
    }
  }
}
