/** Properties of the `list()` and `outdated()` folds that relate several calls or whole runs. */
module IndexLemmas {
  import opened Wrappers
  import opened Json
  import opened Utils
  import opened Tally
  import opened Index

  /** The type flags are tested in the order dev, optional, peer, each with `=== true`. */
  lemma ClassifyPrecedence(d: Json)
    ensures Classify(d) == 1 <==> IsTrue(Property(d, "dev"))
    ensures Classify(d) == 2 <==> !IsTrue(Property(d, "dev")) && IsTrue(Property(d, "optional"))
    ensures Classify(d) == 3 <==>
      !IsTrue(Property(d, "dev")) && !IsTrue(Property(d, "optional")) && IsTrue(Property(d, "peer"))
    ensures Classify(d) == 0 <==>
      !IsTrue(Property(d, "dev")) && !IsTrue(Property(d, "optional")) && !IsTrue(Property(d, "peer"))
  {
  }

  /** Every non-null entry is counted under exactly one of the four types. */
  lemma {:induction false} ClassCountPartition(entries: seq<Field>)
    requires forall i :: 0 <= i < |entries| ==> !entries[i].value.JNull?
    ensures ClassCount(entries, 0) + ClassCount(entries, 1) + ClassCount(entries, 2) + ClassCount(entries, 3)
      == |entries|
    decreases |entries|
  {
    if |entries| > 0 {
      assert forall i :: 0 <= i < |entries| - 1 ==> entries[1..][i] == entries[i + 1];
      ClassCountPartition(entries[1..]);
    }
  }

  /** A successful `list()` loop counts each type's entries under that type. */
  lemma {:induction false} ListEntriesCounts(t: Tally, entries: seq<Field>, k: nat)
    requires Valid(t)
    requires k < 4
    requires ListEntries(t, entries).fault.None?
    ensures ListEntries(t, entries).tally.cats[k].cat.installed == t.cats[k].cat.installed + ClassCount(entries, k)
    decreases |entries|
  {
    if |entries| > 0 {
      var first := ListEntry(t, entries[0].value);
      assert first.fault.None?;
      assert ListEntries(t, entries) == ListEntries(first.tally, entries[1..]);
      ListEntriesCounts(first.tally, entries[1..], k);
    }
  }

  /**
   * A successful `list()` over parsed output adds the number of entries
   * under `dependencies` to `all.installed`, and the per-type counts
   * add up to the same number; it fails exactly when some entry is `null`.
   */
  lemma ListCounts(t: Tally, stdout: string, parse: string -> Option<Json>)
    requires Valid(t)
    requires parse(stdout).Some? && !parse(stdout).value.JNull?
    ensures var deps := ForIn(Property(parse(stdout).value, "dependencies"));
      var s := List(t, Completed(stdout, ""), parse);
      && (s.fault.None? <==> forall i :: 0 <= i < |deps| ==> !deps[i].value.JNull?)
      && (s.fault.None? ==> s.tally.all.installed == t.all.installed + |deps|)
      && (s.fault.None? ==> forall k :: 0 <= k < 4 ==>
            s.tally.cats[k].cat.installed == t.cats[k].cat.installed + ClassCount(deps, k))
      && (s.fault.None? ==>
            ((s.tally.cats[0].cat.installed - t.cats[0].cat.installed)
             + (s.tally.cats[1].cat.installed - t.cats[1].cat.installed)
             + (s.tally.cats[2].cat.installed - t.cats[2].cat.installed)
             + (s.tally.cats[3].cat.installed - t.cats[3].cat.installed)
             == s.tally.all.installed - t.all.installed))
  {
    var deps := ForIn(Property(parse(stdout).value, "dependencies"));
    if List(t, Completed(stdout, ""), parse).fault.None? {
      ClassCountPartition(deps);
      forall k | 0 <= k < 4
        ensures List(t, Completed(stdout, ""), parse).tally.cats[k].cat.installed ==
          t.cats[k].cat.installed + ClassCount(deps, k)
      {
        ListEntriesCounts(t, deps, k);
      }
    }
  }

  /** Parsed output without a `dependencies` key changes nothing. */
  lemma ListWithoutDependencies(t: Tally, stdout: string, parse: string -> Option<Json>)
    requires Valid(t)
    requires parse(stdout).Some? && parse(stdout).value.JObject?
    requires forall i :: 0 <= i < |parse(stdout).value.fields| ==>
      parse(stdout).value.fields[i].key != "dependencies"
    ensures List(t, Completed(stdout, ""), parse) == Step(t, None)
  {
  }

  /** A successful loop got past its first entry without a fault. */
  lemma OutdatedEntriesUnfold(t: Tally, entries: seq<Field>)
    requires Valid(t)
    requires |entries| > 0
    ensures OutdatedEntries(t, entries).fault.None? ==>
      && OutdatedEntry(t, entries[0]).fault.None?
      && OutdatedEntries(t, entries) == OutdatedEntries(OutdatedEntry(t, entries[0]).tally, entries[1..])
  {
  }

  /**
   * A successful `outdated()` loop files every entry: each key's category
   * gains one `outdated` per entry of that type and their records in
   * listing order after the ones it had, while `installed` is untouched.
   */
  lemma {:induction false} OutdatedEntriesFiles(t: Tally, entries: seq<Field>, n: string)
    requires Valid(t)
    ensures OutdatedEntries(t, entries).fault.None? ==>
      Lookup(OutdatedEntries(t, entries).tally, n) ==
        Category(Lookup(t, n).installed,
                 Lookup(t, n).outdated + |Matching(entries, n)|,
                 Lookup(t, n).packages + Matching(entries, n))
    decreases |entries|
  {
    if OutdatedEntries(t, entries).fault.Some? {
    } else if |entries| > 0 {
      OutdatedEntriesUnfold(t, entries);
      var first := OutdatedEntry(t, entries[0]);
      OutdatedEntriesFiles(first.tally, entries[1..], n);
      FiledOnce(t, entries[0], n);
      MatchingCons(entries, n);
      FiledInSequence(Lookup(t, n), Lookup(first.tally, n), Lookup(OutdatedEntries(t, entries).tally, n),
        Matching([entries[0]], n), Matching(entries[1..], n));
    } else {
      assert Lookup(t, n).packages + Matching(entries, n) == Lookup(t, n).packages;
    }
  }

  /** One filed entry, stated in the shape of the loop's result. */
  lemma FiledOnce(t: Tally, f: Field, n: string)
    requires Valid(t)
    requires OutdatedEntry(t, f).fault.None?
    ensures Lookup(OutdatedEntry(t, f).tally, n) ==
      Category(Lookup(t, n).installed,
               Lookup(t, n).outdated + |Matching([f], n)|,
               Lookup(t, n).packages + Matching([f], n))
  {
    if EntryKey(f.value) != n {
      assert Lookup(t, n).packages + [] == Lookup(t, n).packages;
    }
  }

  lemma MatchingCons(entries: seq<Field>, n: string)
    requires |entries| > 0
    ensures Matching(entries, n) == Matching([entries[0]], n) + Matching(entries[1..], n)
  {
    assert [entries[0]][1..] == [];
  }

  /** Filing `here` and then `later` files `here + later`. */
  lemma FiledInSequence(before: Category, mid: Category, after: Category, here: seq<Package>, later: seq<Package>)
    requires mid == Category(before.installed, before.outdated + |here|, before.packages + here)
    requires after == Category(mid.installed, mid.outdated + |later|, mid.packages + later)
    ensures after == Category(before.installed, before.outdated + |here + later|, before.packages + (here + later))
  {
    assert before.packages + here + later == before.packages + (here + later);
  }

  /** After a successful `outdated()` loop the categories are the earlier ones plus the entries' types. */
  lemma {:induction false} OutdatedEntriesKeys(t: Tally, entries: seq<Field>, n: string)
    requires Valid(t)
    ensures OutdatedEntries(t, entries).fault.None? ==>
      (Has(OutdatedEntries(t, entries).tally, n) <==>
         Has(t, n) || exists i :: 0 <= i < |entries| && EntryKey(entries[i].value) == n)
    decreases |entries|
  {
    if OutdatedEntries(t, entries).fault.Some? {
    } else if |entries| > 0 {
      OutdatedEntriesUnfold(t, entries);
      var first := OutdatedEntry(t, entries[0]);
      OutdatedEntriesKeys(first.tally, entries[1..], n);
      KeyedSomewhere(entries, n);
    }
  }

  /** Some entry has type `n` iff the first one does or one of the rest does. */
  lemma KeyedSomewhere(entries: seq<Field>, n: string)
    requires |entries| > 0
    ensures (exists i :: 0 <= i < |entries| && EntryKey(entries[i].value) == n) <==>
      EntryKey(entries[0].value) == n ||
      exists i :: 0 <= i < |entries[1..]| && EntryKey(entries[1..][i].value) == n
  {
    var rest := entries[1..];
    if exists i :: 0 <= i < |rest| && EntryKey(rest[i].value) == n {
      var i :| 0 <= i < |rest| && EntryKey(rest[i].value) == n;
      assert entries[i + 1] == rest[i];
    }
    if exists i :: 0 <= i < |entries| && EntryKey(entries[i].value) == n {
      var i :| 0 <= i < |entries| && EntryKey(entries[i].value) == n;
      if i > 0 {
        assert rest[i - 1] == entries[i];
      }
    }
  }

  /** The mark `post()` computes inline is `countMark` of the final totals. */
  lemma PostMarkIsCountMark(t: Tally)
    ensures PostMark(t) == CountMark(t.all.installed, t.all.outdated)
  {
    if t.all.installed > 0 {
      HalfUpUnique(t.all.installed, t.all.outdated, PostMark(t));
    }
  }

  /** An entry typed "all" counts twice in `all.outdated`, then throws: `all` has no `packages`. */
  lemma OutdatedAllType(t: Tally, k: string, d: Json)
    requires Valid(t)
    requires !d.JNull? && Property(d, "type") == Some(JString("all"))
    ensures OutdatedEntries(t, [Field(k, d)]) ==
      Step(t.(all := t.all.(outdated := t.all.outdated + 2)), Some(NoPackages("all")))
  {
  }

  /**
   * A type that is an object with its own `toString` field cannot become a
   * property key: the lookup throws after `all` was counted.
   */
  lemma OutdatedOwnToString(t: Tally, k: string, others: seq<Field>)
    requires Valid(t)
    ensures OutdatedEntry(t, Field(k, JObject([Field("type", JObject([Field("toString", JNumber(1))] + others))]))) ==
      Step(t.(all := t.all.(outdated := t.all.outdated + 1)), Some(NoPrimitive))
  {
    var bad := JObject([Field("toString", JNumber(1))] + others);
    assert FieldValue(bad.fields, "toString").Some?;
  }

  /** The same holds for an array holding such an object: joining it throws. */
  lemma OutdatedArrayOwnToString(t: Tally, k: string, others: seq<Field>)
    requires Valid(t)
    ensures OutdatedEntry(t, Field(k, JObject([Field("type", JArray([JString("x"), JObject([Field("toString", JNumber(1))] + others)]))]))) ==
      Step(t.(all := t.all.(outdated := t.all.outdated + 1)), Some(NoPrimitive))
  {
    var bad := JObject([Field("toString", JNumber(1))] + others);
    assert FieldValue(bad.fields, "toString").Some?;
    assert !Convertible(JArray([JString("x"), bad])) by {
      assert JArray([JString("x"), bad]).items[1] == bad;
    }
  }

  /** An object type without its own `toString` is filed under "[object Object]". */
  lemma OutdatedPlainObjectType(t: Tally, k: string)
    requires Valid(t)
    ensures OutdatedEntry(t, Field(k, JObject([Field("type", JObject([]))]))).fault.None?
    ensures Has(OutdatedEntry(t, Field(k, JObject([Field("type", JObject([]))]))).tally, "[object Object]")
  {
  }

  /** A rejected `npm outdated` that still printed something is read exactly like a success. */
  lemma OutdatedRejectedWithOutput(t: Tally, out: string, err: string, parse: string -> Option<Json>)
    requires Valid(t)
    requires out != ""
    ensures Outdated(t, Failed(Some(out)), parse) == Outdated(t, Completed(out, err), parse)
  {
  }

  /** Text on the stderr of `npm ls` does not stop the run: `outdated()` still runs. */
  lemma MainAfterListStderr(stdout: string, stderr: string, outdatedExec: Exec, parse: string -> Option<Json>)
    requires stderr != ""
    ensures Main(Completed(stdout, stderr), outdatedExec, parse) == Outdated(Initial(), outdatedExec, parse)
  {
  }

  /** `{ "dev": true }`-style metadata with one flag set. */
  function Flagged(flag: string): (r: Json) {
    JObject([Field(flag, JBool(true))])
  }

  /** How the example metadata is classified. */
  lemma FlagExamples()
    ensures Classify(JObject([])) == 0
    ensures Classify(Flagged("dev")) == 1
    ensures Classify(Flagged("peer")) == 3
    ensures Classify(JObject([Field("dev", JString("true"))])) == 0
  {
  }

  /** How often `k` occurs in `kinds`. */
  function Occurrences(kinds: seq<nat>, k: nat): (r: nat) {
    if |kinds| == 0 then 0 else (if kinds[0] == k then 1 else 0) + Occurrences(kinds[1..], k)
  }

  /** With the classification of every entry known, `ClassCount` counts occurrences. */
  lemma {:induction false} ClassCountOf(entries: seq<Field>, kinds: seq<nat>, k: nat)
    requires |kinds| == |entries|
    requires forall i :: 0 <= i < |entries| ==> !entries[i].value.JNull? && Classify(entries[i].value) == kinds[i]
    ensures ClassCount(entries, k) == Occurrences(kinds, k)
    decreases |entries|
  {
    if |entries| > 0 {
      ClassCountOf(entries[1..], kinds[1..], k);
    }
  }

  /** An `npm ls` document: two production, one dev, no optional and three peer packages. */
  function InstalledTreeExample(): (r: Json) {
    JObject([Field("dependencies", JObject([
      Field("a", JObject([])), Field("b", Flagged("dev")), Field("c", Flagged("peer")),
      Field("d", Flagged("peer")), Field("e", JObject([Field("dev", JString("true"))])),
      Field("f", Flagged("peer"))]))])
  }

  /** The example tree adds six installed packages, split 2/1/0/3; a `"true"` string is not a flag. */
  lemma ListExample(t: Tally, parse: string -> Option<Json>)
    requires Valid(t)
    requires parse("ls") == Some(InstalledTreeExample())
    ensures var s := List(t, Completed("ls", ""), parse);
      && s.fault.None?
      && s.tally.all.installed == t.all.installed + 6
      && s.tally.cats[0].cat.installed == t.cats[0].cat.installed + 2
      && s.tally.cats[1].cat.installed == t.cats[1].cat.installed + 1
      && s.tally.cats[2].cat.installed == t.cats[2].cat.installed
      && s.tally.cats[3].cat.installed == t.cats[3].cat.installed + 3
  {
    ExampleTreeCounts();
    ListCounts(t, "ls", parse);
  }

  /** The entries under `dependencies` of the example tree, type by type. */
  lemma ExampleTreeCounts()
    ensures var deps := ForIn(Property(InstalledTreeExample(), "dependencies"));
      && |deps| == 6
      && (forall i :: 0 <= i < |deps| ==> !deps[i].value.JNull?)
      && ClassCount(deps, 0) == 2 && ClassCount(deps, 1) == 1
      && ClassCount(deps, 2) == 0 && ClassCount(deps, 3) == 3
  {
    var deps := ForIn(Property(InstalledTreeExample(), "dependencies"));
    var kinds := [0, 1, 3, 3, 0, 3];
    ExampleTreeKinds(kinds);
    ClassCountOf(deps, kinds, 0);
    ClassCountOf(deps, kinds, 1);
    ClassCountOf(deps, kinds, 2);
    ClassCountOf(deps, kinds, 3);
    assert Occurrences(kinds, 3) == 3;
  }

  /** How each entry of the example tree is classified. */
  lemma ExampleTreeKinds(kinds: seq<nat>)
    requires kinds == [0, 1, 3, 3, 0, 3]
    ensures var deps := ForIn(Property(InstalledTreeExample(), "dependencies"));
      && |deps| == |kinds|
      && forall i :: 0 <= i < |deps| ==> !deps[i].value.JNull? && Classify(deps[i].value) == kinds[i]
  {
    var deps := InstalledTreeExample().fields[0].value.fields;
    assert ForIn(Property(InstalledTreeExample(), "dependencies")) == deps;
    forall i | 0 <= i < |deps| ensures !deps[i].value.JNull? && Classify(deps[i].value) == kinds[i] {
      FlagExamples();
    }
  }

  /**
   * An entry whose type has no category yet creates it empty after all
   * the existing keys and files the entry there; nothing else moves.
   */
  lemma OutdatedNewType(t: Tally, f: Field)
    requires Valid(t)
    requires EntryOk(f) && !Has(t, EntryKey(f.value))
    ensures var s := OutdatedEntry(t, f);
      && s.fault.None?
      && s.tally.cats == t.cats + [Slot(EntryKey(f.value), Category(0, 1, [EntryPackage(f)]))]
      && s.tally.all == t.all.(outdated := t.all.outdated + 1)
  {
    var key := EntryKey(f.value);
    var grown := t.cats + [Slot(key, Fresh)];
    assert IndexOf(t.cats, key).None?;
    var p := EntryPackage(f);
    assert Fresh.packages + [p] == [p];
    var filed := Slot(key, Category(0, 1, [p]));
    assert Record(grown, |t.cats|, p) == grown[|t.cats| := filed];
    assert grown[|t.cats| := filed] == t.cats + [filed];
    assert Record(grown, |t.cats|, EntryPackage(f)) == t.cats + [Slot(key, Category(0, 1, [EntryPackage(f)]))];
  }
}
