/**
 * The helpers of utils.js: command-line flag parsing, the outdated
 * percentage ("mark") and the forgiving JSON conversion of a command's
 * output.
 */
module Utils {
  import opened Wrappers
  import opened Json

  /** The frozen flag record `parseArgs` returns. */
  datatype Flags = Flags(long: bool, verbose: bool, json: bool)

  /** Every flag off: the record before any argument is read. */
  const Defaults := Flags(false, false, false)

  /** The error `parseArgs` throws, after printing the help text. */
  datatype UsageError = Unsupported(arg: string) {
    function Message(): (r: string) {
      "Unsupported argument. " + arg + " is not in the list: long, verbose, json"
    }
  }

  /** The argument with one leading "--" removed, if it has one. */
  function StripPrefix(arg: string): (r: string)
    ensures |arg| >= 2 && arg[..2] == "--" ==> arg == "--" + r
    ensures !(|arg| >= 2 && arg[..2] == "--") ==> r == arg
  {
    if |arg| >= 2 && arg[..2] == "--" then arg[2..] else arg
  }

  /** The keys of the flag record, which are the only names accepted. */
  predicate IsFlagName(name: string) {
    name == "long" || name == "verbose" || name == "json"
  }

  /** The record with the flag called `name` switched on. */
  function SetFlag(f: Flags, name: string): (g: Flags)
    requires IsFlagName(name)
    ensures g.long == (f.long || name == "long")
    ensures g.verbose == (f.verbose || name == "verbose")
    ensures g.json == (f.json || name == "json")
  {
    match name
    case "long" => f.(long := true)
    case "verbose" => f.(verbose := true)
    case _ => f.(json := true)
  }

  /** The loop of `parseArgs`, started from the record `f`. */
  function ParseArgsFrom(f: Flags, args: seq<string>): (r: Result<Flags, UsageError>)
    decreases |args|
  {
    if |args| == 0 then Success(f)
    else
      var name := StripPrefix(args[0]);
      if IsFlagName(name) then ParseArgsFrom(SetFlag(f, name), args[1..])
      else Failure(Unsupported(name))
  }

  /** `parseArgs` over the arguments after the node and script names. */
  function ParseArgs(args: seq<string>): (r: Result<Flags, UsageError>)
    ensures args == [] ==> r == Success(Defaults)
  {
    ParseArgsFrom(Defaults, args)
  }

  /** Every argument names a flag once its prefix is stripped. */
  ghost predicate AllSupported(args: seq<string>) {
    forall i :: 0 <= i < |args| ==> IsFlagName(StripPrefix(args[i]))
  }

  /** Some argument names the flag `name`. */
  ghost predicate Mentions(args: seq<string>, name: string) {
    exists i :: 0 <= i < |args| && StripPrefix(args[i]) == name
  }

  /** The position of the first argument that names no flag. */
  ghost predicate FirstUnsupported(args: seq<string>, j: int) {
    && 0 <= j < |args|
    && !IsFlagName(StripPrefix(args[j]))
    && forall i :: 0 <= i < j ==> IsFlagName(StripPrefix(args[i]))
  }

  /**
   * The parse succeeds exactly when every argument is supported; a flag is
   * then on iff it was on before or some argument names it; otherwise the
   * error names the first unsupported argument.
   */
  lemma {:induction false} ParseArgsFromMeaning(f: Flags, args: seq<string>)
    ensures ParseArgsFrom(f, args).Success? <==> AllSupported(args)
    ensures ParseArgsFrom(f, args).Success? ==>
      ParseArgsFrom(f, args).value ==
        Flags(f.long || Mentions(args, "long"),
              f.verbose || Mentions(args, "verbose"),
              f.json || Mentions(args, "json"))
    ensures ParseArgsFrom(f, args).Failure? ==>
      exists j :: FirstUnsupported(args, j) &&
        ParseArgsFrom(f, args).error == Unsupported(StripPrefix(args[j]))
    decreases |args|
  {
    if |args| > 0 {
      var name := StripPrefix(args[0]);
      if IsFlagName(name) {
        var rest := args[1..];
        ParseArgsFromMeaning(SetFlag(f, name), rest);
        forall n | IsFlagName(n)
          ensures Mentions(args, n) <==> (name == n || Mentions(rest, n))
        {
          if Mentions(args, n) && name != n {
            var i :| 0 <= i < |args| && StripPrefix(args[i]) == n;
            assert StripPrefix(rest[i - 1]) == n;
          }
          if Mentions(rest, n) {
            var i :| 0 <= i < |rest| && StripPrefix(rest[i]) == n;
            assert StripPrefix(args[i + 1]) == n;
          }
        }
        if AllSupported(rest) {
          forall i | 0 <= i < |args| ensures IsFlagName(StripPrefix(args[i])) {
            if i > 0 { assert args[i] == rest[i - 1]; }
          }
        }
        if AllSupported(args) {
          forall i | 0 <= i < |rest| ensures IsFlagName(StripPrefix(rest[i])) {
            assert rest[i] == args[i + 1];
          }
        }
        if ParseArgsFrom(f, args).Failure? {
          var j :| FirstUnsupported(rest, j) &&
            ParseArgsFrom(SetFlag(f, name), rest).error == Unsupported(StripPrefix(rest[j]));
          assert args[j + 1] == rest[j];
          forall i | 0 <= i < j + 1 ensures IsFlagName(StripPrefix(args[i])) {
            if i > 0 { assert args[i] == rest[i - 1]; }
          }
          assert FirstUnsupported(args, j + 1);
        }
      } else {
        assert FirstUnsupported(args, 0);
      }
    }
  }

  /** `parseArgs` succeeds iff every argument is supported, with exactly the named flags on. */
  lemma ParseArgsMeaning(args: seq<string>)
    ensures ParseArgs(args).Success? <==> AllSupported(args)
    ensures ParseArgs(args).Success? ==>
      ParseArgs(args).value ==
        Flags(Mentions(args, "long"), Mentions(args, "verbose"), Mentions(args, "json"))
    ensures ParseArgs(args).Failure? ==>
      exists j :: FirstUnsupported(args, j) && ParseArgs(args).error == Unsupported(StripPrefix(args[j]))
  {
    ParseArgsFromMeaning(Defaults, args);
  }

  /** Each accepted argument switches on its own flag and no other. */
  lemma SingleFlag(arg: string)
    requires IsFlagName(StripPrefix(arg))
    ensures ParseArgs([arg]).Success?
    ensures ParseArgs([arg]).value.long <==> StripPrefix(arg) == "long"
    ensures ParseArgs([arg]).value.verbose <==> StripPrefix(arg) == "verbose"
    ensures ParseArgs([arg]).value.json <==> StripPrefix(arg) == "json"
  {
    var name := StripPrefix(arg);
    assert [arg][1..] == [];
    assert ParseArgs([arg]) == ParseArgsFrom(SetFlag(Defaults, name), []);
  }

  /**
   * Only the set of arguments matters: two argument lists with the same
   * elements both fail or both succeed, with the same flags.
   */
  lemma ParseArgsOrderIndependent(a: seq<string>, b: seq<string>)
    requires forall x :: x in a <==> x in b
    ensures ParseArgs(a).Success? <==> ParseArgs(b).Success?
    ensures ParseArgs(a).Success? ==> ParseArgs(a) == ParseArgs(b)
  {
    ParseArgsMeaning(a);
    ParseArgsMeaning(b);
    forall n ensures Mentions(a, n) <==> Mentions(b, n) {
      if Mentions(a, n) {
        var i :| 0 <= i < |a| && StripPrefix(a[i]) == n;
        assert a[i] in b;
      }
      if Mentions(b, n) {
        var i :| 0 <= i < |b| && StripPrefix(b[i]) == n;
        assert b[i] in a;
      }
    }
    if AllSupported(a) {
      forall i | 0 <= i < |b| ensures IsFlagName(StripPrefix(b[i])) {
        assert b[i] in a;
        var j :| 0 <= j < |a| && a[j] == b[i];
      }
    }
    if AllSupported(b) {
      forall i | 0 <= i < |a| ensures IsFlagName(StripPrefix(a[i])) {
        assert a[i] in b;
        var j :| 0 <= j < |b| && b[j] == a[i];
      }
    }
  }

  /** Repeating an argument right away changes nothing, the error included. */
  lemma {:induction false} ParseArgsFromDuplicate(f: Flags, before: seq<string>, x: string, after: seq<string>)
    ensures ParseArgsFrom(f, before + [x, x] + after) == ParseArgsFrom(f, before + [x] + after)
    decreases |before|
  {
    var twice := before + [x, x] + after;
    var once := before + [x] + after;
    if |before| == 0 {
      assert twice[1..] == [x] + after;
      assert once[1..] == after;
      var name := StripPrefix(x);
      if IsFlagName(name) {
        assert ([x] + after)[1..] == after;
        assert SetFlag(SetFlag(f, name), name) == SetFlag(f, name);
      }
    } else {
      assert twice[1..] == before[1..] + [x, x] + after;
      assert once[1..] == before[1..] + [x] + after;
      var name := StripPrefix(before[0]);
      if IsFlagName(name) {
        ParseArgsFromDuplicate(SetFlag(f, name), before[1..], x, after);
      }
    }
  }

  /**
   * Once the flag `name` is on, a later argument naming it again changes
   * nothing: it passes the check and switches on a flag already on.
   */
  lemma {:induction false} ParseArgsFromRepeatOn(f: Flags, x: string, mid: seq<string>, after: seq<string>)
    requires IsFlagName(StripPrefix(x))
    requires SetFlag(f, StripPrefix(x)) == f
    ensures ParseArgsFrom(f, mid + [x] + after) == ParseArgsFrom(f, mid + after)
    decreases |mid|
  {
    if |mid| == 0 {
      assert mid + [x] + after == [x] + after;
      assert ([x] + after)[1..] == after;
      assert mid + after == after;
    } else {
      assert (mid + [x] + after)[1..] == mid[1..] + [x] + after;
      assert (mid + after)[1..] == mid[1..] + after;
      assert (mid + [x] + after)[0] == mid[0] && (mid + after)[0] == mid[0];
      var name := StripPrefix(mid[0]);
      if IsFlagName(name) {
        ParseArgsFromRepeatOn(SetFlag(f, name), x, mid[1..], after);
      }
    }
  }

  /** A later copy of an argument, anywhere after the first, changes nothing, the error included. */
  lemma {:induction false} ParseArgsFromLaterCopy(f: Flags, before: seq<string>, x: string, mid: seq<string>, after: seq<string>)
    ensures ParseArgsFrom(f, before + [x] + mid + [x] + after) == ParseArgsFrom(f, before + [x] + mid + after)
    decreases |before|
  {
    var twice := before + [x] + mid + [x] + after;
    var once := before + [x] + mid + after;
    if |before| == 0 {
      assert twice == [x] + (mid + [x] + after);
      assert once == [x] + (mid + after);
      var name := StripPrefix(x);
      if IsFlagName(name) {
        assert twice[1..] == mid + [x] + after;
        assert once[1..] == mid + after;
        ParseArgsFromRepeatOn(SetFlag(f, name), x, mid, after);
      }
    } else {
      assert twice[1..] == before[1..] + [x] + mid + [x] + after;
      assert once[1..] == before[1..] + [x] + mid + after;
      var name := StripPrefix(before[0]);
      if IsFlagName(name) {
        ParseArgsFromLaterCopy(SetFlag(f, name), before[1..], x, mid, after);
      }
    }
  }

  /**
   * Duplicated arguments are idempotent for `parseArgs`: dropping any
   * later copy of an argument leaves the flags and the error as they were.
   */
  lemma ParseArgsDuplicate(before: seq<string>, x: string, mid: seq<string>, after: seq<string>)
    ensures ParseArgs(before + [x] + mid + [x] + after) == ParseArgs(before + [x] + mid + after)
  {
    ParseArgsFromLaterCopy(Defaults, before, x, mid, after);
  }

  /** Only one "--" is stripped: a bare name is accepted, "----long" is not. */
  lemma SinglePrefixStripped()
    ensures ParseArgs(["long"]) == Success(Flags(true, false, false))
    ensures ParseArgs(["----long"]) == Failure(Unsupported("--long"))
    ensures ParseArgs(["--invalid-arg"]).Failure?
  {
    assert "long"[..2] == "lo";
    assert ["long"][1..] == [];
    assert "----long"[..2] == "--";
    assert "----long"[2..] == "--long";
    assert "--invalid-arg"[..2] == "--";
  }

  /** The thrown message starts with "Unsupported argument" and names the stripped argument. */
  lemma UnsupportedMessage(arg: string)
    requires !IsFlagName(StripPrefix(arg))
    ensures ParseArgs([arg]) == Failure(Unsupported(StripPrefix(arg)))
    ensures ParseArgs([arg]).error.Message()[..20] == "Unsupported argument"
  {
  }

  /**
   * `countMark` in hundredths of a percent: zero when either count is
   * zero, otherwise `outdated * 100 / installed` rounded half-up to two
   * decimals, so 2000 stands for 20.00.
   */
  function CountMark(installed: nat, outdated: nat): (r: nat)
    ensures installed == 0 || outdated == 0 ==> r == 0
    ensures installed > 0 ==>
      2 * r * installed <= 20000 * outdated + installed < 2 * r * installed + 2 * installed
    ensures outdated <= installed ==> r <= 10000
  {
    if outdated == 0 || installed == 0 then 0
    else
      var r := (20000 * outdated + installed) / (2 * installed);
      MarkBounds(installed, outdated, r);
      r
  }

  lemma MarkBounds(installed: nat, outdated: nat, r: nat)
    requires installed > 0
    requires r == (20000 * outdated + installed) / (2 * installed)
    ensures 2 * r * installed <= 20000 * outdated + installed < 2 * r * installed + 2 * installed
    ensures outdated <= installed ==> r <= 10000
  {
    var a := 20000 * outdated + installed;
    var b := 2 * installed;
    assert a == b * r + a % b && 0 <= a % b < b;
    assert b * r == 2 * r * installed;
    if outdated <= installed && r > 10000 {
      MulAtLeast(b, r, 10001);
    }
  }

  lemma MulAtLeast(b: nat, r: nat, k: nat)
    requires r >= k
    ensures b * r >= b * k
  {
    var d := r - k;
    assert b * r == b * k + b * d;
  }

  /**
   * The half-up bounds pin the mark down: any value meeting them is the
   * one `countMark` computes, so two roundings to hundredths cannot differ.
   */
  lemma HalfUpUnique(installed: nat, outdated: nat, r: nat)
    requires installed > 0
    requires 2 * r * installed <= 20000 * outdated + installed < 2 * r * installed + 2 * installed
    ensures r == CountMark(installed, outdated)
  {
    var q := CountMark(installed, outdated);
    var a := 20000 * outdated + installed;
    var b := 2 * installed;
    assert b * r == 2 * r * installed && b * q == 2 * q * installed;
    QuotientUnique(a, b, r, q);
  }

  /** At most one multiple `b * r` lies in the window `(a - b, a]`. */
  lemma QuotientUnique(a: nat, b: nat, r: nat, q: nat)
    requires b > 0
    requires b * r <= a < b * r + b
    requires b * q <= a < b * q + b
    ensures r == q
  {
    if r < q {
      MulAtLeast(b, q, r + 1);
    } else if q < r {
      MulAtLeast(b, r, q + 1);
    }
  }

  /** The marks the tests expect for 100/20, 0/20 and no counts, and two roundings to hundredths: 6/3 is 50.00 and 6/2 is 33.33. */
  lemma CountMarkExamples()
    ensures CountMark(100, 20) == 2000
    ensures CountMark(6, 3) == 5000
    ensures CountMark(6, 2) == 3333
    ensures CountMark(0, 20) == 0
    ensures CountMark(0, 0) == 0
  {
  }

  /**
   * `safeConvertStdoutToJson`: the parsed document, or an empty object
   * when `parse` (standing for `JSON.parse`) rejects the text. Never fails.
   */
  function SafeConvert(stdout: string, parse: string -> Option<Json>): (r: Json)
    ensures parse(stdout).Some? ==> r == parse(stdout).value
    ensures parse(stdout).None? ==> r == JObject([])
  {
    parse(stdout).GetOr(JObject([]))
  }
}
