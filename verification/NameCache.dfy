/** The cache from a connection's unique name to the well-known names it owns, kept
    up to date by owner-change signals. */
module NameCache {
  import opened Bytes

  /** A signal: `name` passed from `old` to `new`; an empty text stands for nobody. */
  datatype OwnerChange = OwnerChange(name: Text, oldOwner: Text, newOwner: Text)

  type Cache = map<Text, set<Text>>

  function Dropped(c: Cache, owner: Text, name: Text): Cache {
    if owner == [] || owner !in c then c
    else if c[owner] - {name} == {} then c - {owner}
    else c[owner := c[owner] - {name}]
  }

  function Added(c: Cache, owner: Text, name: Text): Cache {
    if owner == [] then c
    else c[owner := (if owner in c then c[owner] else {}) + {name}]
  }

  function Updated(c: Cache, e: OwnerChange): Cache {
    Added(Dropped(c, e.oldOwner, e.name), e.newOwner, e.name)
  }

  class DBusNameCache {
    var wellKnownNames: map<Text, set<Text>>

    constructor ()
      ensures wellKnownNames == map[]
    {
      wellKnownNames := map[];
    }

    method OnNameOwnerChanged(e: OwnerChange)
      modifies this
      ensures wellKnownNames == Updated(old(wellKnownNames), e)
    {
      ghost var before := wellKnownNames;
      if e.oldOwner != [] {
        if e.oldOwner in wellKnownNames {
          if e.name in wellKnownNames[e.oldOwner] {
            wellKnownNames := wellKnownNames[e.oldOwner := wellKnownNames[e.oldOwner] - {e.name}];
          }
          if wellKnownNames[e.oldOwner] == {} {
            wellKnownNames := wellKnownNames - {e.oldOwner};
          }
          assert wellKnownNames == Dropped(before, e.oldOwner, e.name) by {
            var rest := before[e.oldOwner] - {e.name};
            if e.name !in before[e.oldOwner] {
              assert rest == before[e.oldOwner];
              assert before[e.oldOwner := rest] == before;
            }
            assert before[e.oldOwner := rest] - {e.oldOwner} == before - {e.oldOwner};
          }
        }
      }
      if e.newOwner != [] {
        var names := if e.newOwner in wellKnownNames then wellKnownNames[e.newOwner] else {};
        wellKnownNames := wellKnownNames[e.newOwner := names + {e.name}];
      }
    }

    /** The names to match a sender by: its own first, then the well-known ones. */
    method GetWellKnownNames(uniqueName: Text) returns (names: seq<Text>)
      ensures names != [] && names[0] == uniqueName
      ensures multiset(names[1..]) == multiset(if uniqueName in wellKnownNames then wellKnownNames[uniqueName] else {})
    {
      names := [uniqueName];
      if uniqueName in wellKnownNames {
        var rest := wellKnownNames[uniqueName];
        while rest != {}
          invariant names != [] && names[0] == uniqueName && rest <= wellKnownNames[uniqueName]
          invariant multiset(names[1..]) + multiset(rest) == multiset(wellKnownNames[uniqueName])
          decreases rest
        {
          var name :| name in rest;
          assert (names + [name])[1..] == names[1..] + [name];
          assert multiset(rest) == multiset(rest - {name}) + multiset{name};
          names := names + [name];
          rest := rest - {name};
        }
      }
    }
  }

  // ---------- ownership ----------

  /** Who owns what, over all names; unowned names are not in the map. */
  type Ownership = map<Text, Text>

  predicate IsTrue(own: Ownership, e: OwnerChange) {
    e.oldOwner == if e.name in own then own[e.name] else []
  }

  function After(own: Ownership, e: OwnerChange): Ownership {
    if e.newOwner == [] then own - {e.name} else own[e.name := e.newOwner]
  }

  /** The cache is the inverse of ownership on the names that have been seen: a name
      stands under an owner exactly when it has been seen and that owner holds it,
      and no owner is kept without names. */
  ghost predicate IsInverse(c: Cache, own: Ownership, seen: set<Text>) {
    && (forall owner, name :: (owner in c && name in c[owner]) <==> (name in seen && name in own && own[name] == owner))
    && (forall owner :: owner in c ==> c[owner] != {})
  }

  predicate NobodyIsNamedNothing(own: Ownership) {
    forall name :: name in own ==> own[name] != []
  }

  lemma DropIsExact(c: Cache, own: Ownership, seen: set<Text>, e: OwnerChange)
    requires IsInverse(c, own, seen) && IsTrue(own, e) && NobodyIsNamedNothing(own)
    ensures IsInverse(Dropped(c, e.oldOwner, e.name), own - {e.name}, seen)
  {
    var c', own' := Dropped(c, e.oldOwner, e.name), own - {e.name};
    forall owner, name
      ensures (owner in c' && name in c'[owner]) <==> (name in seen && name in own' && own'[name] == owner)
    {
      assert (owner in c && name in c[owner]) <==> (name in seen && name in own && own[name] == owner);
    }
  }

  lemma ChangeKeepsInverse(c: Cache, own: Ownership, seen: set<Text>, e: OwnerChange)
    requires IsInverse(c, own, seen) && IsTrue(own, e) && NobodyIsNamedNothing(own)
    ensures IsInverse(Updated(c, e), After(own, e), seen + {e.name}) && NobodyIsNamedNothing(After(own, e))
  {
    DropIsExact(c, own, seen, e);
    var d, own' := Dropped(c, e.oldOwner, e.name), own - {e.name};
    var c' := Updated(c, e);
    forall owner, name
      ensures (owner in c' && name in c'[owner]) <==>
              (name in seen + {e.name} && name in After(own, e) && After(own, e)[name] == owner)
    {
      assert (owner in d && name in d[owner]) <==> (name in seen && name in own' && own'[name] == owner);
    }
  }

  // ---------- whole histories ----------

  predicate AllTrue(own: Ownership, es: seq<OwnerChange>)
    decreases |es|
  {
    es == [] || (IsTrue(own, es[0]) && AllTrue(After(own, es[0]), es[1..]))
  }

  function AfterAll(own: Ownership, es: seq<OwnerChange>): Ownership
    decreases |es|
  {
    if es == [] then own else AfterAll(After(own, es[0]), es[1..])
  }

  function UpdatedAll(c: Cache, es: seq<OwnerChange>): Cache
    decreases |es|
  {
    if es == [] then c else UpdatedAll(Updated(c, es[0]), es[1..])
  }

  function NamesIn(es: seq<OwnerChange>): set<Text> {
    set e | e in es :: e.name
  }

  lemma {:induction false} HistoryKeepsInverse(c: Cache, own: Ownership, seen: set<Text>, es: seq<OwnerChange>)
    requires IsInverse(c, own, seen) && NobodyIsNamedNothing(own) && AllTrue(own, es)
    ensures IsInverse(UpdatedAll(c, es), AfterAll(own, es), seen + NamesIn(es))
    decreases |es|
  {
    if es == [] {
      assert seen + NamesIn(es) == seen;
    } else {
      hide IsInverse, Updated, After, NobodyIsNamedNothing;
      ChangeKeepsInverse(c, own, seen, es[0]);
      HistoryKeepsInverse(Updated(c, es[0]), After(own, es[0]), seen + {es[0].name}, es[1..]);
      assert es == [es[0]] + es[1..];
      assert seen + {es[0].name} + NamesIn(es[1..]) == seen + NamesIn(es);
    }
  }

  /** From an empty cache, whatever was owned before, any history of true signals
      leaves the exact inverse of ownership on the names it mentioned; so each of
      them is listed under at most one owner. */
  lemma CacheIsInverseOfOwnership(own: Ownership, es: seq<OwnerChange>)
    requires NobodyIsNamedNothing(own) && AllTrue(own, es)
    ensures IsInverse(UpdatedAll(map[], es), AfterAll(own, es), NamesIn(es))
    ensures var c := UpdatedAll(map[], es);
            forall a, b, name :: a in c && b in c && name in c[a] && name in c[b] ==> a == b
  {
    HistoryKeepsInverse(map[], own, {}, es);
    assert {} + NamesIn(es) == NamesIn(es);
    var c, after := UpdatedAll(map[], es), AfterAll(own, es);
    forall a, b, name | a in c && b in c && name in c[a] && name in c[b] ensures a == b {
      assert after[name] == a && after[name] == b;
    }
  }
}
