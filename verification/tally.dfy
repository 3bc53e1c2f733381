/**
 * The `result` object of index.js as an explicit value: the synthetic
 * `all` counters plus the per-type categories, kept in the order in which
 * the object's keys were created.
 */
module Tally {
  import opened Wrappers
  import opened Json

  /** The four dependency types, in the order `result` is initialised with them. */
  const DependencyTypes: seq<string> :=
    ["dependencies", "devDependencies", "optionalDependencies", "peerDependencies"]

  /** `result.all`: counters only, no `packages` list. */
  datatype Totals = Totals(installed: nat, outdated: nat)

  /** One `{package, current, wanted}` record pushed by `outdated()`. */
  datatype Package = Package(name: string, current: Option<Json>, wanted: Option<Json>)

  /** The counters and outdated-package list of one dependency type. */
  datatype Category = Category(installed: nat, outdated: nat, packages: seq<Package>)

  /** A category together with its key in `result`. */
  datatype Slot = Slot(name: string, cat: Category)

  datatype Tally = Tally(all: Totals, cats: seq<Slot>)

  /**
   * The properties every plain object inherits from `Object.prototype`:
   * `result[key]` is truthy for these keys even though no category has them.
   */
  const PrototypeNames: set<string> := {
    "constructor", "hasOwnProperty", "isPrototypeOf", "propertyIsEnumerable",
    "toString", "toLocaleString", "valueOf", "__proto__",
    "__defineGetter__", "__defineSetter__", "__lookupGetter__", "__lookupSetter__"
  }

  /** `{ ...subresult, packages: [] }`. */
  const Fresh := Category(0, 0, [])

  /**
   * The shape `result` always has: the four dependency types come first in
   * their fixed order, no key repeats, and no category is called "all".
   */
  ghost predicate Valid(t: Tally) {
    && |t.cats| >= 4
    && (forall i :: 0 <= i < 4 ==> t.cats[i].name == DependencyTypes[i])
    && (forall i, j :: 0 <= i < j < |t.cats| ==> t.cats[i].name != t.cats[j].name)
    && (forall i :: 0 <= i < |t.cats| ==> t.cats[i].name != "all")
    && (forall i :: 0 <= i < |t.cats| ==> t.cats[i].name !in PrototypeNames)
  }

  /** The state built when index.js is loaded: every counter zero, every list empty. */
  function Initial(): (t: Tally)
    ensures Valid(t)
    ensures t.all == Totals(0, 0)
    ensures |t.cats| == |DependencyTypes|
    ensures forall i :: 0 <= i < |t.cats| ==>
      t.cats[i].name == DependencyTypes[i] &&
      t.cats[i].cat.installed == 0 && t.cats[i].cat.outdated == 0 && t.cats[i].cat.packages == []
    ensures SumInstalled(t.cats) == 0 && SumOutdated(t.cats) == 0
  {
    var t := Tally(Totals(0, 0), seq(|DependencyTypes|, i requires 0 <= i < |DependencyTypes| =>
      Slot(DependencyTypes[i], Fresh)));
    SumsOfZero(t.cats);
    t
  }

  /** The position of the category keyed `name`, if `result` has one. */
  function IndexOf(cats: seq<Slot>, name: string): (r: Option<nat>)
    ensures r.Some? ==> r.value < |cats| && cats[r.value].name == name
    ensures r.Some? ==> forall j :: 0 <= j < r.value ==> cats[j].name != name
    ensures r.None? <==> forall j :: 0 <= j < |cats| ==> cats[j].name != name
  {
    if |cats| == 0 then None
    else if cats[0].name == name then Some(0)
    else match IndexOf(cats[1..], name)
      case Some(i) => Some(i + 1)
      case None => None
  }

  /** `result[name]` is an own category. */
  predicate Has(t: Tally, name: string) {
    IndexOf(t.cats, name).Some?
  }

  /** `result[name]`, or a fresh empty category where there is none yet. */
  function Lookup(t: Tally, name: string): (r: Category) {
    match IndexOf(t.cats, name)
    case Some(i) => t.cats[i].cat
    case None => Fresh
  }

  /** The sum of the categories' `installed` counters. */
  function SumInstalled(cats: seq<Slot>): (r: nat) {
    if |cats| == 0 then 0 else cats[0].cat.installed + SumInstalled(cats[1..])
  }

  /** The sum of the categories' `outdated` counters. */
  function SumOutdated(cats: seq<Slot>): (r: nat) {
    if |cats| == 0 then 0 else cats[0].cat.outdated + SumOutdated(cats[1..])
  }

  /** `all.installed` is the total of the categories' `installed`. */
  ghost predicate InstalledBalanced(t: Tally) {
    t.all.installed == SumInstalled(t.cats)
  }

  /** `all.outdated` is the total of the categories' `outdated`. */
  ghost predicate OutdatedBalanced(t: Tally) {
    t.all.outdated == SumOutdated(t.cats)
  }

  /** Categories whose counters are all zero sum to zero. */
  lemma {:induction false} SumsOfZero(cats: seq<Slot>)
    requires forall i :: 0 <= i < |cats| ==> cats[i].cat.installed == 0 && cats[i].cat.outdated == 0
    ensures SumInstalled(cats) == 0 && SumOutdated(cats) == 0
    decreases |cats|
  {
    if |cats| > 0 {
      SumsOfZero(cats[1..]);
    }
  }

  /** Replacing one category changes each sum by that category's difference. */
  lemma {:induction false} SumsAfterUpdate(cats: seq<Slot>, i: nat, s: Slot)
    requires i < |cats|
    ensures SumInstalled(cats[i := s]) + cats[i].cat.installed == SumInstalled(cats) + s.cat.installed
    ensures SumOutdated(cats[i := s]) + cats[i].cat.outdated == SumOutdated(cats) + s.cat.outdated
    decreases i
  {
    if i > 0 {
      SumsAfterUpdate(cats[1..], i - 1, s);
      assert cats[i := s][1..] == cats[1..][i - 1 := s];
    }
  }

  /** Appending a category adds its counters to each sum. */
  lemma {:induction false} SumsAfterAppend(cats: seq<Slot>, s: Slot)
    ensures SumInstalled(cats + [s]) == SumInstalled(cats) + s.cat.installed
    ensures SumOutdated(cats + [s]) == SumOutdated(cats) + s.cat.outdated
    decreases |cats|
  {
    if |cats| > 0 {
      SumsAfterAppend(cats[1..], s);
      assert (cats + [s])[1..] == cats[1..] + [s];
    }
  }

  /** Categories with the same keys in the same order are found at the same positions. */
  lemma SameNamesSameIndex(a: seq<Slot>, b: seq<Slot>, name: string)
    requires |a| == |b|
    requires forall i :: 0 <= i < |a| ==> a[i].name == b[i].name
    ensures IndexOf(a, name) == IndexOf(b, name)
  {
  }

  /** In a valid state a key is found exactly where it sits. */
  lemma IndexOfDistinct(t: Tally, i: nat)
    requires Valid(t)
    requires i < |t.cats|
    ensures IndexOf(t.cats, t.cats[i].name) == Some(i)
  {
  }

  /** Appending a category keeps earlier keys where they were and finds the new key last. */
  lemma IndexOfAppend(cats: seq<Slot>, s: Slot, name: string)
    ensures IndexOf(cats, name).Some? ==> IndexOf(cats + [s], name) == IndexOf(cats, name)
    ensures IndexOf(cats, name).None? && s.name == name ==> IndexOf(cats + [s], name) == Some(|cats|)
    ensures IndexOf(cats, name).None? && s.name != name ==> IndexOf(cats + [s], name) == None
  {
    if IndexOf(cats, name).Some? {
      var i := IndexOf(cats, name).value;
      assert (cats + [s])[i].name == name;
    } else if s.name == name {
      assert (cats + [s])[|cats|].name == name;
    }
  }
}
