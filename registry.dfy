/**
 * The species registry (docs/js/data/registry.js): a map from slug to
 * species that keeps its keys in first-insertion order; registering a slug
 * again replaces the species but keeps its place.
 */
module Registry {
  import opened Seqs
  import opened Catalog

  function Slugs(registered: seq<Species>): (r: seq<string>)
    ensures |r| == |registered|
  {
    seq(|registered|, i requires 0 <= i < |registered| => registered[i].slug)
  }

  /** The entries after registering `registered` in order: the last species registered under each slug. */
  function LastWins(registered: seq<Species>): map<string, Species> {
    if registered == [] then map[]
    else
      var last := registered[|registered| - 1];
      LastWins(registered[..|registered| - 1])[last.slug := last]
  }

  /** A slug has an entry exactly when some registered species carries it. */
  lemma {:induction false} LastWinsKeys(registered: seq<Species>, slug: string)
    ensures slug in LastWins(registered) <==> slug in Slugs(registered)
  {
    if registered != [] {
      var init := registered[..|registered| - 1];
      LastWinsKeys(init, slug);
      assert Slugs(registered) == Slugs(init) + [registered[|registered| - 1].slug];
    }
  }

  /** The entry of a slug is a species registered under it, and none registered later carries it. */
  lemma {:induction false} LastWinsValue(registered: seq<Species>, slug: string)
    requires slug in LastWins(registered)
    ensures exists i ::
      0 <= i < |registered| && registered[i] == LastWins(registered)[slug] &&
      registered[i].slug == slug && forall j :: i < j < |registered| ==> registered[j].slug != slug
  {
    var n := |registered|;
    var init := registered[..n - 1];
    var last := registered[n - 1];
    assert LastWins(registered) == LastWins(init)[last.slug := last];
    if last.slug != slug {
      LastWinsValue(init, slug);
      var i :| 0 <= i < |init| && init[i] == LastWins(init)[slug] &&
        init[i].slug == slug && forall j :: i < j < |init| ==> init[j].slug != slug;
      assert registered[i] == init[i];
      assert forall j :: i < j < n ==> registered[j].slug != slug by {
        assert forall j :: i < j < n - 1 ==> registered[j] == init[j];
      }
    } else {
      assert registered[n - 1] == LastWins(registered)[slug];
    }
  }

  /** `getAllPokemon()` for a registry whose keys are `order`. */
  function Values(order: seq<string>, entries: map<string, Species>): seq<Species>
    requires forall i :: 0 <= i < |order| ==> order[i] in entries
  {
    seq(|order|, i requires 0 <= i < |order| && order[i] in entries => entries[order[i]])
  }

  /**
   * The species listed after registering `registered`: one per slug, in the
   * order the slugs were first registered, each the last one registered
   * under its slug.
   */
  lemma AllPokemonOfRegistered(registered: seq<Species>, i: nat)
    requires i < |Distinct(Slugs(registered))|
    ensures var order := Distinct(Slugs(registered));
      order[i] in LastWins(registered) && LastWins(registered)[order[i]].slug == order[i] &&
      order[i] in Slugs(registered) &&
      forall j :: i < j < |order| ==>
        order[i] != order[j] && FirstIndex(Slugs(registered), order[i]) < FirstIndex(Slugs(registered), order[j])
  {
    var order := Distinct(Slugs(registered));
    DistinctMembership(Slugs(registered), order[i]);
    LastWinsKeys(registered, order[i]);
    LastWinsValue(registered, order[i]);
    forall j | i < j < |order|
      ensures order[i] != order[j] && FirstIndex(Slugs(registered), order[i]) < FirstIndex(Slugs(registered), order[j])
    {
      DistinctFirstAppearance(Slugs(registered), i, j);
    }
  }

  /** Registering one more species replaces its slug's entry. */
  lemma LastWinsSnoc(registered: seq<Species>, p: Species)
    ensures LastWins(registered + [p]) == LastWins(registered)[p.slug := p]
  {
    var xs := registered + [p];
    assert xs[..|xs| - 1] == registered;
  }

  /** Registering one more species adds its slug at the end of the order when the slug is new. */
  lemma OrderSnoc(registered: seq<Species>, p: Species)
    ensures Distinct(Slugs(registered + [p])) ==
      if p.slug in LastWins(registered) then Distinct(Slugs(registered)) else Distinct(Slugs(registered)) + [p.slug]
  {
    LastWinsKeys(registered, p.slug);
    assert Slugs(registered + [p]) == Slugs(registered) + [p.slug];
    DistinctSnoc(Slugs(registered), p.slug);
  }

  /** Every slug in the order has an entry. */
  lemma OrderHasEntries(registered: seq<Species>)
    ensures var order := Distinct(Slugs(registered));
      forall i :: 0 <= i < |order| ==> order[i] in LastWins(registered)
  {
    var order := Distinct(Slugs(registered));
    forall i | 0 <= i < |order|
      ensures order[i] in LastWins(registered)
    {
      LastWinsKeys(registered, order[i]);
    }
  }

  class SpeciesRegistry {
    /** The map's keys in insertion order. */
    var order: seq<string>
    var entries: map<string, Species>
    /** Every species registered so far, in order. */
    ghost var registered: seq<Species>

    ghost predicate Valid()
      reads this
    {
      order == Distinct(Slugs(registered)) && entries == LastWins(registered) &&
      forall i :: 0 <= i < |order| ==> order[i] in entries
    }

    constructor ()
      ensures Valid() && registered == []
    {
      order := [];
      entries := map[];
      registered := [];
    }

    /** `registerPokemon(p)`: sets the slug's entry; a new slug goes to the end of the order. */
    method Register(p: Species)
      requires Valid()
      modifies this
      ensures Valid()
      ensures registered == old(registered) + [p]
      ensures entries == old(entries)[p.slug := p]
      ensures order == if p.slug in old(entries) then old(order) else old(order) + [p.slug]
    {
      LastWinsSnoc(registered, p);
      OrderSnoc(registered, p);
      OrderHasEntries(registered + [p]);
      if p.slug !in entries {
        order := order + [p.slug];
      }
      entries := entries[p.slug := p];
      registered := registered + [p];
    }

    /**
     * `getAllPokemon()`: the entries' values in key order, that is, for each
     * slug in first-registration order the species registered last under it.
     */
    method GetAll() returns (all: seq<Species>)
      requires Valid()
      ensures all == Values(Distinct(Slugs(registered)), LastWins(registered))
    {
      all := [];
      for i := 0 to |order|
        invariant |all| == i
        invariant forall k :: 0 <= k < i ==> all[k] == entries[order[k]]
      {
        all := all + [entries[order[i]]];
      }
    }
  }
}
