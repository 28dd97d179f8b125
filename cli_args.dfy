/** The argument vector `_odiff` hands to the odiff executable
    (odiff_py/wrapper.py, lines 153-184): the parsable-output flag, the
    options in a fixed order, then the base, comparing and diff paths. */
module CliArgs {
  import opened Results
  import opened Text
  import opened IgnoreAreas

  /** The keyword options of `_odiff`.  The threshold is kept as the text
      Python prints for the float; the colour is passed through unchanged. */
  datatype Options = Options(
    antialiasing: bool,
    diffColor: string,
    diffMask: bool,
    failOnLayout: bool,
    ignore: Option<seq<IgnoreSpec>>,
    outputDiffLines: bool,
    reduceRamUsage: bool,
    threshold: string)

  /** The defaults of the keyword arguments. */
  const Defaults: Options := Options(false, "#FF0000", false, false, None, false, false, "0.1")

  /** An image argument: a path, or an in-memory image that `_odiff` first
      saves into the scratch directory. */
  datatype ImageSource = FromPath(path: string) | InMemory

  /** `dir / name` for a directory path without a trailing separator. */
  function JoinPath(dir: string, name: string): string {
    dir + "/" + name
  }

  /** The three files odiff reads and writes. */
  datatype Paths = Paths(base: string, comparing: string, diff: string)

  /** Where each image lives once `_odiff` has saved the in-memory images and
      chosen the default diff path. */
  function ResolvePaths(tmpDir: string, base: ImageSource, comparing: ImageSource, diff: Option<string>): Paths {
    Paths(
      if base.InMemory? then JoinPath(tmpDir, "base.png") else base.path,
      if comparing.InMemory? then JoinPath(tmpDir, "comparing.png") else comparing.path,
      if diff.None? then JoinPath(tmpDir, "diff.png") else diff.value)
  }

  /** The options odiff accepts from this wrapper, in the order `_odiff`
      emits them. */
  const OptionNames: seq<string> := ["antialiasing", "diff-color", "diff-mask", "fail-on-layout",
    "ignore", "output-diff-lines", "reduce-ram-usage", "threshold"]

  /** Whether each of the eight appends of `_odiff` happens. */
  function Flags(o: Options): (r: seq<bool>)
    ensures |r| == |OptionNames|
  {
    [o.antialiasing, true, o.diffMask, o.failOnLayout, o.ignore.Some?, o.outputDiffLines, o.reduceRamUsage, true]
  }

  /** The argument each of the eight appends adds. */
  function Texts(o: Options): (r: seq<string>)
    ensures |r| == |OptionNames|
  {
    ["--antialiasing", "--diff-color=" + o.diffColor, "--diff-mask", "--fail-on-layout",
     "--ignore=" + IgnoreArg(o.ignore), "--output-diff-lines", "--reduce-ram-usage", "--threshold=" + o.threshold]
  }

  /** `s` with `x` appended when `cond` holds: one `if ...: cli_args.append(x)`. */
  function AppendIf(s: seq<string>, cond: bool, x: string): seq<string> {
    if cond then s + [x] else s
  }

  /** `start` after the first `k` conditional appends. */
  function Appends(start: seq<string>, on: seq<bool>, xs: seq<string>, k: nat): seq<string>
    requires k <= |on| && k <= |xs|
  {
    if k == 0 then start else AppendIf(Appends(start, on, xs, k - 1), on[k - 1], xs[k - 1])
  }

  /** What the appends add does not depend on what the list held before. */
  lemma {:induction false} AppendsShift(start: seq<string>, on: seq<bool>, xs: seq<string>, k: nat)
    requires k <= |on| && k <= |xs|
    ensures Appends(start, on, xs, k) == start + Appends([], on, xs, k)
  {
    if k > 0 {
      AppendsShift(start, on, xs, k - 1);
      var prev := Appends([], on, xs, k - 1);
      if on[k - 1] {
        assert start + prev + [xs[k - 1]] == start + (prev + [xs[k - 1]]);
      }
    }
  }

  /** The option arguments between the first flag and the positional paths. */
  function OptionArgs(o: Options): seq<string> {
    Appends([], Flags(o), Texts(o), |OptionNames|)
  }

  /** The value of `--ignore` when areas are given. */
  function IgnoreArg(ignore: Option<seq<IgnoreSpec>>): string {
    if ignore.Some? then IgnoreValue(ignore.value) else ""
  }

  /** The whole argument vector. */
  function Args(tmpDir: string, base: ImageSource, comparing: ImageSource, diff: Option<string>, o: Options): seq<string> {
    var p := ResolvePaths(tmpDir, base, comparing, diff);
    ["--parsable-stdout"] + OptionArgs(o) + [p.base, p.comparing, p.diff]
  }

  /** The option appends of `_odiff`, in its order. */
  method AppendOptions(args: seq<string>, o: Options) returns (cliArgs: seq<string>)
    ensures cliArgs == Appends(args, Flags(o), Texts(o), |OptionNames|)
    ensures cliArgs == args + OptionArgs(o)
  {
    cliArgs := args;
    ghost var on, xs := Flags(o), Texts(o);
    if o.antialiasing {
      cliArgs := cliArgs + ["--antialiasing"];
    }
    assert cliArgs == Appends(args, on, xs, 1);
    cliArgs := cliArgs + ["--diff-color=" + o.diffColor];
    assert cliArgs == Appends(args, on, xs, 2);
    if o.diffMask {
      cliArgs := cliArgs + ["--diff-mask"];
    }
    assert cliArgs == Appends(args, on, xs, 3);
    if o.failOnLayout {
      cliArgs := cliArgs + ["--fail-on-layout"];
    }
    assert cliArgs == Appends(args, on, xs, 4);
    if o.ignore.Some? {
      cliArgs := cliArgs + ["--ignore=" + IgnoreValue(o.ignore.value)];
    }
    assert cliArgs == Appends(args, on, xs, 5);
    if o.outputDiffLines {
      cliArgs := cliArgs + ["--output-diff-lines"];
    }
    assert cliArgs == Appends(args, on, xs, 6);
    if o.reduceRamUsage {
      cliArgs := cliArgs + ["--reduce-ram-usage"];
    }
    assert cliArgs == Appends(args, on, xs, 7);
    cliArgs := cliArgs + ["--threshold=" + o.threshold];
    assert cliArgs == Appends(args, on, xs, 8);
    AppendsShift(args, on, xs, 8);
  }

  /** The builder as `_odiff` runs it: the list grows by successive appends. */
  method BuildArgs(tmpDir: string, base: ImageSource, comparing: ImageSource, diff: Option<string>, o: Options)
    returns (cliArgs: seq<string>)
    ensures cliArgs == Args(tmpDir, base, comparing, diff, o)
  {
    cliArgs := ["--parsable-stdout"];
    var basePath, comparingPath, diffPath;
    if base.InMemory? {
      basePath := JoinPath(tmpDir, "base.png");
    } else {
      basePath := base.path;
    }
    if comparing.InMemory? {
      comparingPath := JoinPath(tmpDir, "comparing.png");
    } else {
      comparingPath := comparing.path;
    }
    if diff.None? {
      diffPath := JoinPath(tmpDir, "diff.png");
    } else {
      diffPath := diff.value;
    }
    cliArgs := AppendOptions(cliArgs, o);
    cliArgs := cliArgs + [basePath, comparingPath, diffPath];
  }

  // ---------------------------------------------------------------------------
  // Which option an argument sets

  /** The option an argument names: the text between `--` and the first `=`. */
  function FlagName(arg: string): string {
    if HasPrefix(arg, "--") then Partition(arg[2..], '=').0 else ""
  }

  /** The first position of `x` in `xs`, or -1. */
  function IndexOf(xs: seq<string>, x: string): int
  {
    if |xs| == 0 then -1
    else if xs[0] == x then 0
    else var k := IndexOf(xs[1..], x); if k == -1 then -1 else k + 1
  }

  /** The position of an option in the fixed order of `_odiff`, or -1 for an
      argument that is none of the eight. */
  function Rank(arg: string): int {
    IndexOf(OptionNames, FlagName(arg))
  }

  lemma {:induction false} IndexOfDistinct(xs: seq<string>, k: nat)
    requires k < |xs|
    requires forall i, j :: 0 <= i < j < |xs| ==> xs[i] != xs[j]
    ensures IndexOf(xs, xs[k]) == k
  {
    if k > 0 {
      assert xs[0] != xs[k];
      assert xs[1..][k - 1] == xs[k];
      IndexOfDistinct(xs[1..], k - 1);
    }
  }

  lemma NamesDistinct()
    ensures forall i, j :: 0 <= i < j < |OptionNames| ==> OptionNames[i] != OptionNames[j]
  {
  }

  lemma NamesWithoutEquals()
    ensures forall i :: 0 <= i < |OptionNames| ==> '=' !in OptionNames[i]
  {
  }

  lemma FlagNameOfSwitch(arg: string, name: string)
    requires arg == "--" + name && '=' !in name
    ensures FlagName(arg) == name
  {
    PrefixOfAppend("--", name);
    assert arg[2..] == name;
  }

  lemma FlagNameOfValued(arg: string, name: string, value: string)
    requires arg == "--" + name + "=" + value && '=' !in name
    ensures FlagName(arg) == name
  {
    PrefixOfAppend("--", name + "=" + value);
    assert arg[2..] == name + ['='] + value;
    PartitionAt(name, '=', value);
  }

  lemma RankOfFlagName(arg: string, k: nat)
    requires k < |OptionNames| && FlagName(arg) == OptionNames[k]
    ensures Rank(arg) == k
  {
    NamesDistinct();
    IndexOfDistinct(OptionNames, k);
  }

  /** The argument of each append names the option at its position. */
  lemma TextIsSwitch(o: Options, k: nat)
    requires k in {0, 2, 3, 5, 6}
    ensures Texts(o)[k] == "--" + OptionNames[k]
  {
    if k == 0 {
      assert "--antialiasing" == "--" + "antialiasing";
    } else if k == 2 {
      assert "--diff-mask" == "--" + "diff-mask";
    } else if k == 3 {
      assert "--fail-on-layout" == "--" + "fail-on-layout";
    } else if k == 5 {
      assert "--output-diff-lines" == "--" + "output-diff-lines";
    } else {
      assert "--reduce-ram-usage" == "--" + "reduce-ram-usage";
    }
  }

  lemma TextIsValued(o: Options, k: nat)
    requires k in {1, 4, 7}
    ensures Texts(o)[k] == "--" + OptionNames[k] + "=" + (if k == 1 then o.diffColor else if k == 4 then IgnoreArg(o.ignore) else o.threshold)
  {
  }

  lemma RankOfText(o: Options, k: nat)
    requires k < |OptionNames|
    ensures Rank(Texts(o)[k]) == k
  {
    NamesWithoutEquals();
    if k in {1, 4, 7} {
      TextIsValued(o, k);
      FlagNameOfValued(Texts(o)[k], OptionNames[k], if k == 1 then o.diffColor else if k == 4 then IgnoreArg(o.ignore) else o.threshold);
    } else {
      TextIsSwitch(o, k);
      FlagNameOfSwitch(Texts(o)[k], OptionNames[k]);
    }
    RankOfFlagName(Texts(o)[k], k);
  }

  /** The rank of each argument of a list. */
  function Ranks(s: seq<string>): (r: seq<int>)
    ensures |r| == |s|
    ensures forall i :: 0 <= i < |s| ==> r[i] == Rank(s[i])
  {
    if |s| == 0 then [] else Ranks(s[..|s| - 1]) + [Rank(s[|s| - 1])]
  }

  /** Known options only, each after all those before it in the fixed order. */
  predicate Increasing(r: seq<int>) {
    && (forall i :: 0 <= i < |r| ==> r[i] >= 0)
    && (forall i, j :: 0 <= i < j < |r| ==> r[i] < r[j])
  }

  /** Every argument a known option, strictly increasing in the fixed order,
      so that no option appears twice. */
  predicate Ordered(s: seq<string>) {
    Increasing(Ranks(s))
  }

  /** The positions among the first `k` whose append happens. */
  function Selected(on: seq<bool>, k: nat): seq<nat>
    requires k <= |on|
  {
    if k == 0 then [] else Selected(on, k - 1) + (if on[k - 1] then [k - 1] else [])
  }

  lemma {:induction false} SelectedIncreasing(on: seq<bool>, k: nat)
    requires k <= |on|
    ensures forall j, l :: 0 <= j < l < |Selected(on, k)| ==> Selected(on, k)[j] < Selected(on, k)[l]
    ensures forall j :: 0 <= j < |Selected(on, k)| ==> Selected(on, k)[j] < k
    ensures forall i :: i in Selected(on, k) <==> 0 <= i < k && on[i]
  {
    if k > 0 {
      SelectedIncreasing(on, k - 1);
    }
  }

  /** The first `k` appends leave the arguments of the selected positions. */
  lemma {:induction false} AppendsSelected(on: seq<bool>, xs: seq<string>, k: nat)
    requires k <= |on| && k <= |xs|
    ensures |Appends([], on, xs, k)| == |Selected(on, k)|
    ensures forall j :: 0 <= j < |Selected(on, k)| ==>
      Selected(on, k)[j] < k && Appends([], on, xs, k)[j] == xs[Selected(on, k)[j]]
  {
    if k > 0 {
      AppendsSelected(on, xs, k - 1);
      SelectedIncreasing(on, k);
    }
  }

  /** The ranks of the option arguments are the positions whose append happens. */
  lemma RanksOfOptionArgs(o: Options)
    ensures Ranks(OptionArgs(o)) == Selected(Flags(o), |OptionNames|)
  {
    var sel := Selected(Flags(o), |OptionNames|);
    AppendsSelected(Flags(o), Texts(o), |OptionNames|);
    var r := Ranks(OptionArgs(o));
    forall j | 0 <= j < |r| ensures r[j] == sel[j] {
      RankOfText(o, sel[j]);
    }
  }

  /** The option arguments name exactly the enabled options, each once, in the
      order antialiasing, diff-color, diff-mask, fail-on-layout, ignore,
      output-diff-lines, reduce-ram-usage, threshold. */
  lemma OptionArgsOrdered(o: Options)
    ensures Ordered(OptionArgs(o))
    ensures forall k :: k in Ranks(OptionArgs(o)) <==> 0 <= k < |OptionNames| && Flags(o)[k]
  {
    RanksOfOptionArgs(o);
    SelectedIncreasing(Flags(o), |OptionNames|);
  }

  /** An argument is passed exactly when its option asks for it: a switch when
      its flag is set, `--ignore=...` when areas are given, colour and
      threshold always. */
  lemma ArgumentPresent(o: Options, k: nat)
    requires k < |OptionNames|
    ensures Texts(o)[k] in OptionArgs(o) <==> Flags(o)[k]
  {
    var sel := Selected(Flags(o), |OptionNames|);
    AppendsSelected(Flags(o), Texts(o), |OptionNames|);
    SelectedIncreasing(Flags(o), |OptionNames|);
    var oa := OptionArgs(o);
    if Texts(o)[k] in oa {
      var j :| 0 <= j < |oa| && oa[j] == Texts(o)[k];
      RankOfText(o, k);
      RankOfText(o, sel[j]);
      assert sel[j] == k;
    }
    if Flags(o)[k] {
      assert k in sel;
      var j :| 0 <= j < |sel| && sel[j] == k;
      assert oa[j] == Texts(o)[k];
    }
  }

  /** An enabled option is passed, and every argument naming it is its own
      argument text; the colour and the threshold are always enabled. */
  lemma OptionAppearsOnce(o: Options, k: nat)
    requires k < |OptionNames| && Flags(o)[k]
    ensures Flags(o)[1] && Flags(o)[7]
    ensures exists i :: 0 <= i < |OptionArgs(o)| && OptionArgs(o)[i] == Texts(o)[k]
    ensures forall i :: 0 <= i < |OptionArgs(o)| && FlagName(OptionArgs(o)[i]) == OptionNames[k] ==> OptionArgs(o)[i] == Texts(o)[k]
  {
    var oa := OptionArgs(o);
    ArgumentPresent(o, k);
    RanksOfOptionArgs(o);
    AppendsSelected(Flags(o), Texts(o), |OptionNames|);
    forall i | 0 <= i < |oa| && FlagName(oa[i]) == OptionNames[k] ensures oa[i] == Texts(o)[k] {
      RankOfFlagName(oa[i], k);
      assert Ranks(oa)[i] == k;
    }
  }

  /** No two option arguments name the same option. */
  lemma NoOptionTwice(o: Options)
    ensures forall i, j :: 0 <= i < j < |OptionArgs(o)| ==> FlagName(OptionArgs(o)[i]) != FlagName(OptionArgs(o)[j])
  {
    var oa := OptionArgs(o);
    OptionArgsOrdered(o);
    forall i, j | 0 <= i < j < |oa| ensures FlagName(oa[i]) != FlagName(oa[j]) {
      assert Ranks(oa)[i] < Ranks(oa)[j];
    }
  }

  /** The argument vector starts with the parsable-output flag and ends with
      the base, comparing and diff paths, in that order. */
  lemma ArgsFrame(tmpDir: string, base: ImageSource, comparing: ImageSource, diff: Option<string>, o: Options)
    ensures var a := Args(tmpDir, base, comparing, diff, o);
      var p := ResolvePaths(tmpDir, base, comparing, diff);
      && |a| == |OptionArgs(o)| + 4
      && a[0] == "--parsable-stdout"
      && a[1..|a| - 3] == OptionArgs(o)
      && a[|a| - 3..] == [p.base, p.comparing, p.diff]
      && a[|a| - 1] == (if diff.None? then JoinPath(tmpDir, "diff.png") else diff.value)
  {
  }

  /** With the keyword defaults only the colour and the threshold are passed. */
  lemma DefaultOptionArgs()
    ensures OptionArgs(Defaults) == ["--diff-color=#FF0000", "--threshold=0.1"]
  {
    var f, t := Flags(Defaults), Texts(Defaults);
    assert f == [false, true, false, false, false, false, false, true];
    assert t[1] == "--diff-color=#FF0000" && t[7] == "--threshold=0.1";
    assert Appends([], f, t, 1) == [];
    assert Appends([], f, t, 2) == [t[1]];
    assert Appends([], f, t, 3) == [t[1]];
    assert Appends([], f, t, 4) == [t[1]];
    assert Appends([], f, t, 5) == [t[1]];
    assert Appends([], f, t, 6) == [t[1]];
    assert Appends([], f, t, 7) == [t[1]];
    assert Appends([], f, t, 8) == [t[1], t[7]];
  }
}
