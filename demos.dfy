/**
 The concrete uses of the two filters in the sample program: the four
 heroes filtered by "has a last name" and by "can fly", and the generic
 filter applied to hero names and to small integers.
 */
module Demos {
  import opened Filtering
  import opened Heroes

  const Deadpool := Hero("Wade", "Wilson", "Deadpool", false)
  const Homelander := Hero("", "", "Homelander", true)
  const Batman := Hero("Bruce", "Wayne", "Batman", false)
  const Stormfront := Hero("", "", "Stormfront", true)

  /** The sample's heroes, in the order they are listed. */
  const DemoHeroes: seq<Hero> := [Deadpool, Homelander, Batman, Stormfront]

  /** Builds the hero list element by element and keeps the heroes whose
      last name is not empty with the eager filter: Deadpool and Batman, in
      that order. */
  method LastNameDemo() returns (kept: seq<Hero>)
    ensures kept == [Deadpool, Batman]
  {
    var heroes := new List<Hero>();
    heroes.Add(Deadpool);
    heroes.Add(Homelander);
    heroes.Add(Batman);
    heroes.Add(Stormfront);
    assert heroes.items == DemoHeroes;
    var hasLastName := (h: Hero) => |h.lastName| != 0;
    var filter1 := FilterHeros(heroes, hasLastName);
    assert hasLastName(Deadpool) && !hasLastName(Homelander);
    assert hasLastName(Batman) && !hasLastName(Stormfront);
    assert Filter([Stormfront], hasLastName) == [];
    assert Filter([Batman, Stormfront], hasLastName) == [Batman];
    assert Filter([Homelander, Batman, Stormfront], hasLastName) == [Batman];
    kept := filter1.items;
  }

  /** The generic filter keeps the heroes who can fly: Homelander and
      Stormfront, in that order. */
  lemma CanFlyDemo()
    ensures Filter(DemoHeroes, (h: Hero) => h.canFly) == [Homelander, Stormfront]
  {
    var canFly := (h: Hero) => h.canFly;
    assert !canFly(Deadpool) && canFly(Homelander) && !canFly(Batman) && canFly(Stormfront);
    assert Filter([Stormfront], canFly) == [Stormfront];
    assert Filter([Batman, Stormfront], canFly) == [Stormfront];
    assert Filter([Homelander, Batman, Stormfront], canFly) == [Homelander, Stormfront];
  }

  /** Hero names starting with "H": only Homelander. */
  lemma StartsWithDemo()
    ensures Filter(["Homelander", "The Deep", "Stormfront"], (hn: string) => "H" <= hn) == ["Homelander"]
  {
    var startsWithH := (hn: string) => "H" <= hn;
    assert !startsWithH("Stormfront") by { assert "Stormfront"[0] == 'S'; }
    assert !startsWithH("The Deep") by { assert "The Deep"[0] == 'T'; }
    assert Filter(["Stormfront"], startsWithH) == [];
    assert Filter(["The Deep", "Stormfront"], startsWithH) == [];
  }

  /** The even numbers among 1 to 5 are 2 and 4. */
  lemma EvenDemo()
    ensures Filter([1, 2, 3, 4, 5], (n: int) => n % 2 == 0) == [2, 4]
  {
    var even := (n: int) => n % 2 == 0;
    assert !even(1) && even(2) && !even(3) && even(4) && !even(5);
    assert Filter([5], even) == [];
    assert Filter([4, 5], even) == [4];
    assert Filter([3, 4, 5], even) == [4];
    assert Filter([2, 3, 4, 5], even) == [2, 4];
  }
}
