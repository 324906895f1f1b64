# Sequence filter of the DelegatesAndLambdas sample

The sample program shows off C# delegates and lambdas. Its one piece of
reusable logic is a sequence filter, written twice:

- `Filter<T>` is a generic, lazy, forward-only generator (a hand-written LINQ
  `Where`). It walks its source once, front to back, and yields every element
  for which the predicate returns true.
- `FilterHeros` is an eager form specialised to the `Hero` record. It walks a
  `List<Hero>` and `Add`s every accepted hero to a freshly allocated list,
  which it returns.

This project models both and proves that they agree. It also proves what
the generator promises:

- every yielded element satisfies the predicate, and every matching element
  is yielded;
- the output is the source read at exactly the matching positions, in
  increasing order, so nothing is duplicated, reordered or invented;
- always-true and always-false predicates give the identity and the empty
  result;
- filtering distributes over concatenation;
- the walk streams: a prefix of the source yields a prefix of the output,
  and each output is yielded at the moment its source element is read.

Files:

- `filtering.dfy` (module `Filtering`): `Filter` as a recursive function over
  `seq<T>` with a total predicate `T -> bool`, and its lemmas.
- `heroes.dfy` (module `Heroes`): the `Hero` record (Program.cs:168) as a datatype, and a
  `List<T>` class standing for the growable list (its contents are a
  sequence that `Add` extends at the end). It also holds `FilterHeros` as a
  method whose loop invariant ties the list built so far to `Filter` of the
  heroes visited so far.
- `demos.dfy` (module `Demos`): the four heroes of Program.cs:67-73 as the
  constant `DemoHeroes`, the same heroes filtered by "has a last name" and
  by "can fly", and the generic filter on hero names and on the integers 1
  to 5.

The program has both a generic filter and a hero-specific copy of it. Both
are modelled, and `FilterHeros` is proved to return exactly what `Filter`
returns.

## Model

| member | source | states |
|---|---|---|
| `Filtering.Filter` | Program.cs:96-105 | every yielded element satisfies the predicate and occurs in the source; the output is never longer than the source |
| `Filtering.FilterMembership` | Program.cs:98-103 | an element is in the output if and only if it is in the source and satisfies the predicate: nothing matching is dropped, nothing is invented |
| `Filtering.OrderedSelection` | Program.cs:98-103 | the output is the source read at strictly increasing positions, and those positions are exactly the ones whose element satisfies the predicate (an order-preserving subsequence, no duplicates) |
| `Filtering.FilterKeepsAll` | Program.cs:98-103 | the output equals the source if and only if every source element satisfies the predicate (always-true predicate gives the identity) |
| `Filtering.FilterDropsAll` | Program.cs:98-103 | the output is empty if and only if no source element satisfies the predicate (always-false predicate gives the empty result) |
| `Filtering.FilterLength` | Program.cs:98-103 | the output is as long as the source if and only if nothing is dropped |
| `Filtering.FilterAppend` | Program.cs:98-103 | filtering a concatenation equals concatenating the filtered parts |
| `Filtering.FilterStep` | Program.cs:98-103 | reading one more source element appends that element to the output if it matches and nothing otherwise, leaving earlier output unchanged |
| `Filtering.FilterPrefix` | Program.cs:96-105 | the output for a prefix of the source is a prefix of the full output (the streaming guarantee of the generator) |
| `Filtering.DemandBoundedByMatches` | Program.cs:96-105 | the j-th output is yielded exactly when the source position of the j-th match is read: before it only the j earlier outputs exist, and reading it completes the first j+1 outputs without looking further into the source |
| `Heroes.List.constructor` | Program.cs:109 | a new list is empty |
| `Heroes.List.Add` | Program.cs:115 | appends the element at the end of the list |
| `Heroes.FilterHeros` | Program.cs:107-119 | returns a freshly allocated list whose contents equal the generic filter of the input list under the same predicate; the input list is unchanged |
| `Demos.LastNameDemo` | Program.cs:67-76 | on the four heroes, keeping those with a non-empty last name gives Deadpool and Batman, in that order |
| `Demos.CanFlyDemo` | Program.cs:82 | on the four heroes, keeping those who can fly gives Homelander and Stormfront, in that order |
| `Demos.StartsWithDemo` | Program.cs:88 | of "Homelander", "The Deep" and "Stormfront", only "Homelander" starts with "H" |
| `Demos.EvenDemo` | Program.cs:89 | the even numbers among 1, 2, 3, 4, 5 are 2 and 4 |

## Left out

- Timing harness (`MeasureTime`, `MeasureTimeFunc` and the inline stopwatch, Program.cs:125-149): it measures wall-clock time and prints it. Its only checkable fact is that `MeasureTimeFunc` returns `f()` unchanged.
- Busy loops `CountToNearlyInfinity` and `CalculateSomeResult` (Program.cs:151-163): they only burn time. The latter returns the constant 63.
- Delegate and lambda demos (`CalculateAndPrint*`, `Add`, `Subtract` and the delegate types, Program.cs:3-63 and 186-194): they apply a function and print the result. The predicate delegate types `FilterDelegate` and `FilterGeneric<T>` become the arrow type `T -> bool`.
- LINQ `Select`, `ToList`, `string.Join` and console output (Program.cs:77-79, 83-85): library formatting and I/O.
- The `Hero1` class (Program.cs:170-184): an unused duplicate of the `Hero` record.
- Exceptions thrown by a predicate, and the generator's suspend/resume mechanics: predicates are total functions. Laziness is expressed by `FilterPrefix`, `FilterStep` and `DemandBoundedByMatches` over finite sources instead of by running the generator on an infinite one.
- Predicate side effects and call order: a Dafny arrow `T -> bool` has no side effects, so the model does not capture that the predicate is called exactly once per element, in source order (Program.cs:100 and 113), nor any effect such a call could have.
- Deferred reading of the source: calling `Filter<T>` builds an iterator and reads nothing; the source is read only while the iterator is enumerated, and read afresh on each new enumeration. The model applies `Filter` to a fixed sequence, so a source list that is changed between the call and the enumeration, or between two enumerations, is not modelled.
- StartsWithDemo, EvenDemo: these lemmas state what enumerating the iterators built at Program.cs:88-89 would yield. The program never enumerates them, so at those lines no predicate is called and nothing is yielded.
- Null references: a null `heros` list (the `foreach` at Program.cs:111 throws NullReferenceException), a null source for `Filter` (which throws at Program.cs:98 on the first `MoveNext`), a null predicate delegate, and a null `Hero` element (which the lambda at Program.cs:76 dereferences) cannot occur, since Dafny's list, sequence, arrow and datatype values are never null.
- Null strings: `string.IsNullOrEmpty(h.LastName)` is modelled as "the last name has length 0", since strings here cannot be null.
- `StartsWith("H")` is culture-sensitive in .NET. It is modelled as an ordinal prefix test, which gives the same answer on the sample's ASCII names.
- Aliasing between the list passed to `FilterHeros` and other lists is not modelled beyond what Dafny's object model gives: the result is fresh, so it is never the input list.
