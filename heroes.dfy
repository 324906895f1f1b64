/**
 The hero record and the eager, hero-specific filter that builds a fresh
 list.

 `List` stands for the growable list the filter reads from and appends to:
 its contents are a sequence that `Add` extends at the end.
 */
module Heroes {
  import opened Filtering

  /** A hero: first and last name (either may be empty), hero name, and
      whether the hero can fly. */
  datatype Hero = Hero(firstName: string, lastName: string, heroName: string, canFly: bool)

  /** A growable list whose elements are kept in insertion order. */
  class List<T> {
    var items: seq<T>

    constructor ()
      ensures items == []
    {
      items := [];
    }

    /** Appends `x` at the end. */
    method Add(x: T)
      modifies this
      ensures items == old(items) + [x]
    {
      items := items + [x];
    }
  }

  /** Walks `heros` in order and appends every hero accepted by `f` to a
      freshly allocated list, which it returns. The result holds exactly
      what the generic filter yields for the same list and predicate, and
      the input list is left as it was. */
  method FilterHeros(heros: List<Hero>, f: Hero -> bool) returns (filteredHeros: List<Hero>)
    ensures fresh(filteredHeros)
    ensures filteredHeros.items == Filter(heros.items, f)
    ensures heros.items == old(heros.items)
  {
    filteredHeros := new List<Hero>();
    var i := 0;
    while i < |heros.items|
      invariant i <= |heros.items|
      invariant fresh(filteredHeros)
      invariant filteredHeros.items == Filter(heros.items[..i], f)
    {
      var hero := heros.items[i];
      FilterStep(heros.items, i, f);
      if f(hero) {
        filteredHeros.Add(hero);
      }
      i := i + 1;
    }
    assert heros.items[..i] == heros.items;
  }
}
