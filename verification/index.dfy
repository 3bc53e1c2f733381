/**
 * index.js: `list()` and `outdated()` fold the two `npm` reports into the
 * `result` state, and `main` runs them in sequence. The state is passed in
 * and returned; a thrown exception is a `Step` carrying a fault together
 * with the state as far as it had been changed when the exception left.
 */
module Index {
  import opened Wrappers
  import opened Json
  import opened Utils
  import opened Tally

  /** What the promisified `exec` does: resolve with both streams, or reject (with or without `stdout`). */
  datatype Exec = Completed(stdout: string, stderr: string) | Failed(output: Option<string>)

  /**
   * Why a step threw: `exec` rejected, a property was read from `null`, a
   * value could not be converted to a property key, or `packages` is missing.
   */
  datatype Fault = ExecFailed | NullAccess | NoPrimitive | NoPackages(key: string)

  datatype Step = Step(tally: Tally, fault: Option<Fault>)

  /** `v === true`. */
  predicate IsTrue(v: Option<Json>) {
    v == Some(JBool(true))
  }

  /** The position in `DependencyTypes` of the category `list()` counts an installed package under. */
  function Classify(d: Json): (k: nat)
    ensures k < |DependencyTypes|
  {
    if IsTrue(Property(d, "dev")) then 1
    else if IsTrue(Property(d, "optional")) then 2
    else if IsTrue(Property(d, "peer")) then 3
    else 0
  }

  /** Nothing but `installed` counters differ between `t` and `u`, and only those of the four types. */
  ghost predicate OnlyInstalledChanged(t: Tally, u: Tally) {
    && |u.cats| == |t.cats|
    && u.all.outdated == t.all.outdated
    && (forall i :: 0 <= i < |t.cats| ==>
          u.cats[i].name == t.cats[i].name &&
          u.cats[i].cat.outdated == t.cats[i].cat.outdated &&
          u.cats[i].cat.packages == t.cats[i].cat.packages)
    && (forall i :: 4 <= i < |t.cats| ==> u.cats[i] == t.cats[i])
    && SumOutdated(u.cats) == SumOutdated(t.cats)
  }

  /** The number of non-null entries `list()` counts under `DependencyTypes[k]`. */
  function ClassCount(entries: seq<Field>, k: nat): (r: nat) {
    if |entries| == 0 then 0
    else
      (if !entries[0].value.JNull? && Classify(entries[0].value) == k then 1 else 0)
        + ClassCount(entries[1..], k)
  }

  function AddInstalled(cats: seq<Slot>, k: nat): (r: seq<Slot>)
    requires k < |cats|
  {
    cats[k := cats[k].(cat := cats[k].cat.(installed := cats[k].cat.installed + 1))]
  }

  /** One pass of the `list()` loop: count in `all`, then in one category, unless `d.dev` throws on `null`. */
  function ListEntry(t: Tally, d: Json): (s: Step)
    requires Valid(t)
    ensures Valid(s.tally)
    ensures OnlyInstalledChanged(t, s.tally)
    ensures s.tally.all.installed == t.all.installed + 1
    ensures s.fault.Some? <==> d.JNull?
    ensures s.fault.Some? ==> s.fault == Some(NullAccess) && s.tally.cats == t.cats
    ensures s.fault.None? ==>
      forall k :: 0 <= k < 4 ==>
        s.tally.cats[k].cat.installed == t.cats[k].cat.installed + (if Classify(d) == k then 1 else 0)
    ensures s.fault.None? ==> SumInstalled(s.tally.cats) == SumInstalled(t.cats) + 1
  {
    var counted := t.(all := t.all.(installed := t.all.installed + 1));
    if d.JNull? then Step(counted, Some(NullAccess))
    else
      var k := Classify(d);
      var cats := AddInstalled(counted.cats, k);
      SumsAfterUpdate(counted.cats, k, cats[k]);
      Step(counted.(cats := cats), None)
  }

  /**
   * The `list()` loop over the entries of `json.dependencies`. Each entry
   * adds one to `all.installed` and, unless it is `null`, one to exactly
   * one category; the loop stops at the first `null` entry.
   */
  function ListEntries(t: Tally, entries: seq<Field>): (s: Step)
    requires Valid(t)
    ensures Valid(s.tally)
    ensures OnlyInstalledChanged(t, s.tally)
    ensures s.fault.None? || s.fault == Some(NullAccess)
    ensures s.fault.None? <==> forall i :: 0 <= i < |entries| ==> !entries[i].value.JNull?
    ensures s.tally.all.installed - t.all.installed ==
      SumInstalled(s.tally.cats) - SumInstalled(t.cats) + (if s.fault.Some? then 1 else 0)
    ensures s.fault.None? ==> s.tally.all.installed == t.all.installed + |entries|
    decreases |entries|
  {
    if |entries| == 0 then Step(t, None)
    else
      var first := ListEntry(t, entries[0].value);
      if first.fault.Some? then first
      else
        var rest := ListEntries(first.tally, entries[1..]);
        assert forall i :: 1 <= i < |entries| ==> entries[i] == entries[1..][i - 1];
        rest
  }

  /**
   * `list()`: a rejected `exec` rethrows, anything on stderr ends the step
   * early without a change, and otherwise the entries under
   * `dependencies` of the parsed output are counted.
   */
  function List(t: Tally, exec: Exec, parse: string -> Option<Json>): (s: Step)
    requires Valid(t)
    ensures Valid(s.tally)
    ensures OnlyInstalledChanged(t, s.tally)
    ensures exec.Failed? ==> s == Step(t, Some(ExecFailed))
    ensures exec.Completed? && exec.stderr != "" ==> s == Step(t, None)
    ensures exec.Completed? && exec.stderr == "" && parse(exec.stdout).None? ==> s == Step(t, None)
    ensures exec.Completed? && exec.stderr == "" && parse(exec.stdout) == Some(JNull) ==>
      s == Step(t, Some(NullAccess))
    ensures s.fault.None? && InstalledBalanced(t) ==> InstalledBalanced(s.tally)
  {
    match exec
    case Failed(_) => Step(t, Some(ExecFailed))
    case Completed(stdout, stderr) =>
      if stderr != "" then Step(t, None)
      else
        var json := SafeConvert(stdout, parse);
        if json.JNull? then Step(t, Some(NullAccess))
        else ListEntries(t, ForIn(Property(json, "dependencies")))
  }

  /** The property key an `npm outdated` entry is filed under: `String(d.type)`. */
  function EntryKey(d: Json): (r: string) {
    PropertyKey(Property(d, "type"))
  }

  /** The record `outdated()` pushes for the entry `k: d`. */
  function EntryPackage(f: Field): (r: Package) {
    Package(f.key, Property(f.value, "current"), Property(f.value, "wanted"))
  }

  /**
   * An entry `outdated()` files without throwing: it is not `null`, its
   * type can be converted to a property key, and that key is not "all"
   * (which has no `packages`) nor a name every object inherits (which has
   * no `packages` either).
   */
  predicate EntryOk(f: Field) {
    && !f.value.JNull?
    && KeyConvertible(Property(f.value, "type"))
    && EntryKey(f.value) != "all"
    && EntryKey(f.value) !in PrototypeNames
  }

  /** The category at `i` with one more outdated package, `p`, at the end of its list. */
  function Record(cats: seq<Slot>, i: nat, p: Package): (r: seq<Slot>)
    requires i < |cats|
  {
    var c := cats[i].cat;
    cats[i := cats[i].(cat := c.(outdated := c.outdated + 1, packages := c.packages + [p]))]
  }

  /**
   * `u` grows `t` without touching what `list()` counted: earlier
   * categories keep their key, `installed` counter and the packages listed
   * so far; new categories come last with nothing installed.
   */
  ghost predicate Extends(t: Tally, u: Tally) {
    && u.all.installed == t.all.installed
    && |t.cats| <= |u.cats|
    && (forall i :: 0 <= i < |t.cats| ==>
          u.cats[i].name == t.cats[i].name &&
          u.cats[i].cat.installed == t.cats[i].cat.installed &&
          t.cats[i].cat.packages <= u.cats[i].cat.packages)
    && (forall i :: |t.cats| <= i < |u.cats| ==> u.cats[i].cat.installed == 0)
    && SumInstalled(u.cats) == SumInstalled(t.cats)
  }

  /** `Lookup(t, key)` after one more outdated package `p`. */
  function Filed(c: Category, p: Package): (r: Category) {
    c.(outdated := c.outdated + 1, packages := c.packages + [p])
  }

  /**
   * One pass of the `outdated()` loop: count in `all`, find or create the
   * category named by the entry's type, count it there and append its
   * record. A `null` entry, the type "all" and inherited names throw.
   */
  function OutdatedEntry(t: Tally, f: Field): (s: Step)
    requires Valid(t)
    ensures Valid(s.tally)
    ensures Extends(t, s.tally)
    ensures s.fault.None? <==> EntryOk(f)
    ensures f.value.JNull? ==>
      s == Step(t.(all := t.all.(outdated := t.all.outdated + 1)), Some(NullAccess))
    ensures !f.value.JNull? && !KeyConvertible(Property(f.value, "type")) ==>
      s == Step(t.(all := t.all.(outdated := t.all.outdated + 1)), Some(NoPrimitive))
    ensures !f.value.JNull? && KeyConvertible(Property(f.value, "type")) && EntryKey(f.value) == "all" ==>
      s == Step(t.(all := t.all.(outdated := t.all.outdated + 2)), Some(NoPackages("all")))
    ensures !f.value.JNull? && KeyConvertible(Property(f.value, "type")) && EntryKey(f.value) in PrototypeNames ==>
      s == Step(t.(all := t.all.(outdated := t.all.outdated + 1)), Some(NoPackages(EntryKey(f.value))))
    ensures s.fault.None? ==> s.tally.all.outdated == t.all.outdated + 1
    ensures s.fault.None? ==> SumOutdated(s.tally.cats) == SumOutdated(t.cats) + 1
    ensures s.fault.None? ==>
      forall n :: Lookup(s.tally, n) ==
        if n == EntryKey(f.value) then Filed(Lookup(t, n), EntryPackage(f)) else Lookup(t, n)
    ensures s.fault.None? ==>
      forall n :: Has(s.tally, n) <==> Has(t, n) || n == EntryKey(f.value)
  {
    var counted := t.(all := t.all.(outdated := t.all.outdated + 1));
    var d := f.value;
    if d.JNull? then Step(counted, Some(NullAccess))
    else if !KeyConvertible(Property(d, "type")) then Step(counted, Some(NoPrimitive))
    else
      var key := EntryKey(d);
      if key == "all" then
        Step(counted.(all := counted.all.(outdated := counted.all.outdated + 1)), Some(NoPackages(key)))
      else if key in PrototypeNames then
        // `result[key]` is the inherited member, which is truthy and has no
        // `packages`; a valid state never holds such a name as a category.
        Step(counted, Some(NoPackages(key)))
      else
        Step(FileEntry(counted, f), None)
  }

  /**
   * The fileable case of one `outdated()` pass, after `all` was counted:
   * the entry's record goes to the category named by its type, which is
   * created empty at the end when missing.
   */
  function FileEntry(t: Tally, f: Field): (u: Tally)
    requires Valid(t)
    requires EntryOk(f)
    ensures Valid(u)
    ensures Extends(t, u)
    ensures u.all == t.all
    ensures SumOutdated(u.cats) == SumOutdated(t.cats) + 1
    ensures forall n :: Lookup(u, n) ==
                        if n == EntryKey(f.value) then Filed(Lookup(t, n), EntryPackage(f)) else Lookup(t, n)
    ensures forall n :: Has(u, n) <==> Has(t, n) || n == EntryKey(f.value)
  {
    var key := EntryKey(f.value);
    match IndexOf(t.cats, key)
    case Some(i) =>
      FiledAt(t, i, EntryPackage(f));
      t.(cats := Record(t.cats, i, EntryPackage(f)))
    case None =>
      CreatedThenFiled(t, key, EntryPackage(f));
      t.(cats := Record(t.cats + [Slot(key, Fresh)], |t.cats|, EntryPackage(f)))
  }

  /** Recording a package at `i` changes `Lookup` for that key only, and keeps the shape. */
  lemma FiledAt(t: Tally, i: nat, p: Package)
    requires Valid(t)
    requires i < |t.cats|
    ensures var u := t.(cats := Record(t.cats, i, p));
      && Valid(u)
      && SumInstalled(u.cats) == SumInstalled(t.cats)
      && SumOutdated(u.cats) == SumOutdated(t.cats) + 1
      && Extends(t, u)
      && (forall n :: Has(u, n) <==> Has(t, n))
      && (forall n :: Lookup(u, n) == if n == t.cats[i].name then Filed(Lookup(t, n), p) else Lookup(t, n))
  {
    var u := t.(cats := Record(t.cats, i, p));
    SumsAfterUpdate(t.cats, i, u.cats[i]);
    forall n ensures IndexOf(u.cats, n) == IndexOf(t.cats, n) {
      SameNamesSameIndex(u.cats, t.cats, n);
    }
    IndexOfDistinct(t, i);
  }

  /** Creating the category `key` at the end and recording `p` in it. */
  lemma CreatedThenFiled(t: Tally, key: string, p: Package)
    requires Valid(t)
    requires IndexOf(t.cats, key).None?
    requires key != "all" && key !in PrototypeNames
    ensures var u := t.(cats := Record(t.cats + [Slot(key, Fresh)], |t.cats|, p));
      && Valid(u)
      && SumInstalled(u.cats) == SumInstalled(t.cats)
      && SumOutdated(u.cats) == SumOutdated(t.cats) + 1
      && Extends(t, u)
      && (forall n :: Has(u, n) <==> Has(t, n) || n == key)
      && (forall n :: Lookup(u, n) == if n == key then Filed(Lookup(t, n), p) else Lookup(t, n))
  {
    var g := t.(cats := t.cats + [Slot(key, Fresh)]);
    Created(t, key);
    FiledAt(g, |t.cats|, p);
    ExtendsTransitive(t, g, t.(cats := Record(g.cats, |t.cats|, p)));
  }

  /** Creating the empty category `key` at the end: a valid state in which nothing is counted yet. */
  lemma Created(t: Tally, key: string)
    requires Valid(t)
    requires IndexOf(t.cats, key).None?
    requires key != "all" && key !in PrototypeNames
    ensures var g := t.(cats := t.cats + [Slot(key, Fresh)]);
      && Valid(g)
      && SumInstalled(g.cats) == SumInstalled(t.cats)
      && SumOutdated(g.cats) == SumOutdated(t.cats)
      && Extends(t, g)
      && g.cats[|t.cats|].name == key
      && (forall n :: Has(g, n) <==> Has(t, n) || n == key)
      && (forall n :: Lookup(g, n) == Lookup(t, n))
  {
    var g := t.(cats := t.cats + [Slot(key, Fresh)]);
    SumsAfterAppend(t.cats, Slot(key, Fresh));
    forall n ensures IndexOf(g.cats, n) == (if n == key then Some(|t.cats|) else IndexOf(t.cats, n)) {
      IndexOfAppend(t.cats, Slot(key, Fresh), n);
    }
  }

  lemma ExtendsTransitive(t: Tally, g: Tally, u: Tally)
    requires Extends(t, g) && Extends(g, u)
    ensures Extends(t, u)
  {
    forall i | 0 <= i < |t.cats|
      ensures t.cats[i].cat.packages <= u.cats[i].cat.packages
    {
      assert t.cats[i].cat.packages <= g.cats[i].cat.packages <= u.cats[i].cat.packages;
    }
  }

  /** The records of the entries filed under `n`, in listing order. */
  function Matching(entries: seq<Field>, n: string): (r: seq<Package>) {
    if |entries| == 0 then []
    else
      (if !entries[0].value.JNull? && EntryKey(entries[0].value) == n then [EntryPackage(entries[0])] else [])
        + Matching(entries[1..], n)
  }

  /**
   * The `outdated()` loop over the parsed listing. It stops at the first
   * entry that throws, and never changes what `list()` counted.
   */
  function OutdatedEntries(t: Tally, entries: seq<Field>): (s: Step)
    requires Valid(t)
    ensures Valid(s.tally)
    ensures Extends(t, s.tally)
    ensures s.fault.None? <==> forall i :: 0 <= i < |entries| ==> EntryOk(entries[i])
    ensures s.fault.None? ==> s.tally.all.outdated == t.all.outdated + |entries|
    ensures s.fault.None? ==> SumOutdated(s.tally.cats) == SumOutdated(t.cats) + |entries|
    decreases |entries|
  {
    if |entries| == 0 then Step(t, None)
    else
      var first := OutdatedEntry(t, entries[0]);
      if first.fault.Some? then first
      else
        assert forall i :: 1 <= i < |entries| ==> entries[i] == entries[1..][i - 1];
        OutdatedEntries(first.tally, entries[1..])
  }

  /** The text `outdated()` goes on to parse, or `None` when it rethrows: a rejection with empty or no `stdout`. */
  function OutdatedOutput(exec: Exec): (r: Option<string>) {
    match exec
    case Completed(stdout, _) => Some(stdout)
    case Failed(Some(stdout)) => if stdout != "" then Some(stdout) else None
    case Failed(None) => None
  }

  /**
   * `outdated()`: `npm outdated` exits non-zero when anything is outdated,
   * so a rejection that still carries output is read like a success; every
   * entry of the parsed listing is then filed.
   */
  function Outdated(t: Tally, exec: Exec, parse: string -> Option<Json>): (s: Step)
    requires Valid(t)
    ensures Valid(s.tally)
    ensures Extends(t, s.tally)
    ensures OutdatedOutput(exec).None? ==> s == Step(t, Some(ExecFailed))
    ensures OutdatedOutput(exec).Some? && parse(OutdatedOutput(exec).value).None? ==> s == Step(t, None)
    ensures s.fault.None? && OutdatedBalanced(t) ==> OutdatedBalanced(s.tally)
  {
    match OutdatedOutput(exec)
    case None => Step(t, Some(ExecFailed))
    case Some(stdout) => OutdatedEntries(t, ForIn(Some(SafeConvert(stdout, parse))))
  }

  /**
   * `main`: `pre()` (which never throws), then `list()`, then
   * `outdated()`, starting from the initial `result`; a throw ends the run.
   * When nothing throws, `all` is the total of the categories.
   */
  function Main(lsExec: Exec, outdatedExec: Exec, parse: string -> Option<Json>): (s: Step)
    ensures Valid(s.tally)
    ensures s.fault.None? ==> InstalledBalanced(s.tally) && OutdatedBalanced(s.tally)
    ensures lsExec.Failed? ==> s == Step(Initial(), Some(ExecFailed))
  {
    var init := Initial();
    assert InstalledBalanced(init) && OutdatedBalanced(init);
    var listed := List(init, lsExec, parse);
    if listed.fault.Some? then listed
    else Outdated(listed.tally, outdatedExec, parse)
  }

  /**
   * The mark `post()` prints, in hundredths of a percent: the share of
   * installed packages that are outdated, zero when either count is zero,
   * rounded half-up to two decimals. `post()` computes it inline rather
   * than through `countMark`; `IndexLemmas.PostMarkIsCountMark` shows the
   * two agree.
   */
  function PostMark(t: Tally): (r: nat)
    ensures t.all.outdated == 0 || t.all.installed == 0 ==> r == 0
    ensures t.all.installed > 0 ==>
      2 * r * t.all.installed <= 20000 * t.all.outdated + t.all.installed < 2 * r * t.all.installed + 2 * t.all.installed
    ensures t.all.outdated <= t.all.installed ==> r <= 10000
  {
    var installed := t.all.installed;
    var outdated := t.all.outdated;
    if outdated == 0 || installed == 0 then 0
    else
      var r := (20000 * outdated + installed) / (2 * installed);
      MarkBounds(installed, outdated, r);
      r
  }
}
