/** Archetype component ids: one per (archetype, component) pair, plus those handed out one at a time. */
module ArchetypeIds {
  import opened Locations

  ghost predicate Pair(archetypes: seq<Archetype>, a: int, k: int) {
    0 <= a < |archetypes| && 0 <= k < |archetypes[a].components|
  }

  function IdAt(archetypes: seq<Archetype>, a: nat, k: nat): nat
    requires Pair(archetypes, a, k)
  {
    archetypes[a].components[k].archetypeComponentId
  }

  /** The ids of all pairs and the ids issued singly are pairwise distinct and fill `0..count`. */
  ghost predicate IdsExact(archetypes: seq<Archetype>, issued: set<nat>, count: nat) {
    && (forall a, k :: Pair(archetypes, a, k) ==> IdAt(archetypes, a, k) < count && IdAt(archetypes, a, k) !in issued)
    && (forall a, k, b, j :: Pair(archetypes, a, k) && Pair(archetypes, b, j) && (a, k) != (b, j) ==>
          IdAt(archetypes, a, k) != IdAt(archetypes, b, j))
    && (forall n :: n in issued ==> n < count)
    && (forall n :: 0 <= n < count && n !in issued ==>
          exists a, k :: Pair(archetypes, a, k) && IdAt(archetypes, a, k) == n)
  }

  ghost predicate SameComponents(archetypes: seq<Archetype>, archetypes': seq<Archetype>) {
    && |archetypes'| == |archetypes|
    && forall a :: 0 <= a < |archetypes| ==> archetypes'[a].components == archetypes[a].components
  }

  lemma IdsSurvive(archetypes: seq<Archetype>, archetypes': seq<Archetype>, issued: set<nat>, count: nat)
    requires IdsExact(archetypes, issued, count)
    requires SameComponents(archetypes, archetypes')
    ensures IdsExact(archetypes', issued, count)
  {
    forall a, k | Pair(archetypes', a, k)
      ensures Pair(archetypes, a, k) && IdAt(archetypes', a, k) == IdAt(archetypes, a, k)
    {
      assert archetypes'[a].components == archetypes[a].components;
    }
    forall n | 0 <= n < count && n !in issued
      ensures exists a, k :: Pair(archetypes', a, k) && IdAt(archetypes', a, k) == n
    {
      var a, k :| Pair(archetypes, a, k) && IdAt(archetypes, a, k) == n;
      assert Pair(archetypes', a, k) && IdAt(archetypes', a, k) == n;
    }
  }

  lemma NoIds(a: Archetype)
    requires a.components == []
    ensures IdsExact([a], {}, 0)
  {
  }

  lemma IssuingKeepsIds(archetypes: seq<Archetype>, issued: set<nat>, count: nat)
    requires IdsExact(archetypes, issued, count)
    ensures count !in issued
    ensures IdsExact(archetypes, issued + {count}, count + 1)
  {
  }

  /** A new archetype takes the next `|components|` ids. */
  lemma NewArchetypeKeepsIds(archetypes: seq<Archetype>, a: Archetype, issued: set<nat>, count: nat)
    requires IdsExact(archetypes, issued, count)
    requires forall k :: 0 <= k < |a.components| ==> a.components[k].archetypeComponentId == count + k
    ensures IdsExact(archetypes + [a], issued, count + |a.components|)
  {
    var archetypes' := archetypes + [a];
    var last := |archetypes|;
    forall b, k | Pair(archetypes', b, k)
      ensures b < last ==> Pair(archetypes, b, k) && IdAt(archetypes', b, k) == IdAt(archetypes, b, k)
      ensures b == last ==> IdAt(archetypes', b, k) == count + k
    {
    }
    forall n | 0 <= n < count + |a.components| && n !in issued
      ensures exists b, k :: Pair(archetypes', b, k) && IdAt(archetypes', b, k) == n
    {
      if n < count {
        var b, k :| Pair(archetypes, b, k) && IdAt(archetypes, b, k) == n;
        assert Pair(archetypes', b, k) && IdAt(archetypes', b, k) == n;
      } else {
        assert Pair(archetypes', last, n - count) && IdAt(archetypes', last, n - count) == n;
      }
    }
  }
}
