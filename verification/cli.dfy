/** The command line: a hand-written parser over the argument list (long
    flags with `=value` or a separate value, combined short flags, an attached
    `-o` value, the first positional argument as the project path) and the
    exit code chosen from the scan's outcome. */
module Cli {
  import opened Wrappers
  import opened Strings
  import opened Types
  import opened OsvClient
  import opened ReportGenerator
  import opened Scanner

  /** The parser's variables: the two booleans, the output path and the
      project path as assigned so far. */
  datatype Flags = Flags(json: bool, silent: bool, output: Option<string>, project: Option<string>)

  const Unset := Flags(false, false, None, None)

  datatype Command = Help | Run(options: ScanOptions)

  /** `--help` or `-h` anywhere on the command line. */
  predicate AsksForHelp(args: seq<string>) {
    "--help" in args || "-h" in args
  }

  /** The value of `--json=v` or `--silent=v`. */
  predicate BoolValue(v: string) {
    Lower(v) == "true" || v == ""
  }

  /** The argument after position `i` when it can serve as a flag's value:
      it exists and does not start with `-`. */
  function ValueAfter(args: seq<string>, i: nat): (v: Option<string>)
    requires i < |args|
    ensures v.Some? <==> i + 1 < |args| && !StartsWith(args[i + 1], "-")
    ensures v.Some? ==> v.value == args[i + 1]
  {
    if i + 1 < |args| && !StartsWith(args[i + 1], "-") then Some(args[i + 1]) else None
  }

  /** One long flag `--name` or `--name=value`, given the value the next
      argument could supply; also says whether that argument was consumed.
      A bare `--json` or `--silent` sets its flag; a bare `--output` takes the
      next argument when there is one; `--help=...` and unknown names change
      nothing and consume nothing. */
  function LongFlag(a: string, next: Option<string>, f: Flags): (r: (Flags, bool))
    ensures r.1 ==> next.Some? && r.0 == f.(output := next)
    ensures r.0.project == f.project
    ensures r.1 <==> a == "--output" && next.Some?
    ensures a == "--json" ==> r.0 == f.(json := true)
    ensures a == "--silent" ==> r.0 == f.(silent := true)
    ensures a == "--output" ==> r.0 == f.(output := if next.Some? then next else f.output)
    ensures Before(a, '=') !in {"--json", "--silent", "--output"} ==> r.0 == f
  {
    BeforeIndexOf(a, '=');
    assert '=' !in "--json" && '=' !in "--silent" && '=' !in "--output";
    var eq := IndexOf(a, '=');
    var name := if eq >= 0 then a[..eq] else a;
    var val: Option<string> := if eq >= 0 then Some(a[eq + 1..]) else None;
    if name == "--json" then
      (f.(json := val.None? || BoolValue(val.value)), false)
    else if name == "--silent" then
      (f.(silent := val.None? || BoolValue(val.value)), false)
    else if name == "--output" then
      if val.Some? then (f.(output := val), false)
      else if next.Some? then (f.(output := next), true)
      else (f, false)
    else
      (f, false)
  }

  /** What a short group `-xyz` does, given the value the next argument
      could supply: a flag is set exactly when its letter comes before the
      first `o`; that `o` takes the rest of the group as the output path, or
      the next argument (consuming it) when it ends the group; without an
      `o` the output path is unchanged; the project path never changes. */
  predicate GroupSpec(chars: string, next: Option<string>, f: Flags, r: (Flags, bool)) {
    GroupSpecAt(chars, Before(chars, 'o'), next, f, r)
  }

  /** `GroupSpec` with `b` standing for the letters before the first `o`. */
  predicate GroupSpecAt(chars: string, b: string, next: Option<string>, f: Flags, r: (Flags, bool)) {
    && (r.1 ==> next.Some? && r.0.output == next)
    && r.0.project == f.project
    && r.0.json == (f.json || 'j' in b)
    && r.0.silent == (f.silent || 's' in b)
    && (r.1 <==> |b| + 1 == |chars| && next.Some?)
    && (b == chars ==> r.0.output == f.output)
    && (|b| + 1 == |chars| ==> r.0.output == if next.Some? then next else f.output)
    && (|b| + 1 < |chars| ==> r.0.output == Some(chars[|b| + 1..]))
  }

  /** A letter other than `o`: `j` and `s` set their flag, `h` and unknown
      letters do nothing. */
  function Letter(c: char, f: Flags): Flags {
    if c == 'j' then f.(json := true)
    else if c == 's' then f.(silent := true)
    else f
  }

  /** The letters of a short group `-xyz`, left to right: `j` and `s` set
      their flag, `o` takes the rest of the group as its value (or else the
      next argument) and ends the group, `h` and unknown letters do nothing. */
  function ShortGroup(chars: string, next: Option<string>, f: Flags): (r: (Flags, bool))
    ensures GroupSpec(chars, next, f, r)
    decreases |chars|
  {
    if |chars| == 0 then (f, false)
    else if chars[0] == 'o' then
      BeforeCons(chars, 'o');
      if |chars| > 1 then (f.(output := Some(chars[1..])), false)
      else if next.Some? then (f.(output := next), true)
      else (f, false)
    else
      var r := ShortGroup(chars[1..], next, Letter(chars[0], f));
      ShortGroupCons(chars, next, f, r);
      r
  }

  /** Reading one letter other than `o` and then the rest of the group does
      what the whole group does. */
  lemma ShortGroupCons(chars: string, next: Option<string>, f: Flags, r: (Flags, bool))
    requires |chars| > 0 && chars[0] != 'o'
    requires GroupSpec(chars[1..], next, Letter(chars[0], f), r)
    ensures GroupSpec(chars, next, f, r)
  {
    BeforeCons(chars, 'o');
    GroupSpecAtCons(chars, Before(chars, 'o'), Before(chars[1..], 'o'), next, f, r);
  }

  lemma GroupSpecAtCons(chars: string, b: string, b1: string, next: Option<string>, f: Flags, r: (Flags, bool))
    requires |chars| > 0 && chars[0] != 'o' && b == [chars[0]] + b1
    requires GroupSpecAt(chars[1..], b1, next, Letter(chars[0], f), r)
    ensures GroupSpecAt(chars, b, next, f, r)
  {
    var c, rest := chars[0], chars[1..];
    assert chars == [c] + rest;
    assert 'j' in b <==> c == 'j' || 'j' in b1;
    assert 's' in b <==> c == 's' || 's' in b1;
    assert b == chars <==> b1 == rest;
    if |b| + 1 < |chars| {
      assert chars[|b| + 1..] == rest[|b1| + 1..];
    }
  }

  /** A positional argument becomes the project path unless a non-empty one
      was already taken. */
  function Positional(a: string, f: Flags): (g: Flags)
    ensures g.json == f.json && g.silent == f.silent && g.output == f.output
    ensures Truthy(f.project) ==> g.project == f.project
    ensures !Truthy(f.project) ==> g.project == Some(a)
  {
    if Truthy(f.project) then f else f.(project := Some(a))
  }

  /** Whether the flag at `i` takes the next argument as its value: a bare
      `--output`, or a short group whose first `o` is its last letter, when
      the next argument does not start with `-`. */
  predicate TakesValue(args: seq<string>, i: nat)
    requires i < |args|
  {
    && ValueAfter(args, i).Some?
    && (|| args[i] == "--output"
        || (StartsWith(args[i], "-") && !StartsWith(args[i], "--") && |Before(args[i][1..], 'o')| + 2 == |args[i]|))
  }

  /** One turn of the argument loop at position `i`: the new flags and the
      position of the next argument to read. Only a positional argument
      touches the project path. */
  function Step(args: seq<string>, i: nat, f: Flags): (r: (Flags, nat))
    requires i < |args|
    ensures r.1 == i + 1 || (r.1 == i + 2 && ValueAfter(args, i).Some?)
    ensures r.1 <= |args|
    ensures r.1 == if TakesValue(args, i) then i + 2 else i + 1
    ensures StartsWith(args[i], "-") ==> r.0.project == f.project
    ensures !StartsWith(args[i], "-") ==> r.0 == Positional(args[i], f)
  {
    var a := args[i];
    var next := ValueAfter(args, i);
    assert StartsWith(a, "--") ==> StartsWith(a, "-");
    assert StartsWith(a, "-") && !StartsWith(a, "--") ==> |a[1..]| + 1 == |a|;
    var (g, used) :=
      if StartsWith(a, "--") then LongFlag(a, next, f)
      else if StartsWith(a, "-") then ShortGroup(a[1..], next, f)
      else (Positional(a, f), false);
    (g, if used then i + 2 else i + 1)
  }

  /** The argument loop from position `i` to the end. */
  function Consume(args: seq<string>, i: nat, f: Flags): (r: Flags)
    requires i <= |args|
    decreases |args| - i
  {
    if i == |args| then f
    else
      var s := Step(args, i, f);
      Consume(args, s.1, s.0)
  }

  /** The command line's meaning: help when asked for anywhere, otherwise a
      run whose project path is the first non-empty positional argument or
      the working directory. */
  function ParseArgs(args: seq<string>, cwd: string): (c: Command)
    ensures c.Help? <==> AsksForHelp(args)
    ensures c.Run? ==> c.options.projectPath.Some?
    ensures c.Run? && cwd != "" ==> Truthy(c.options.projectPath)
  {
    if AsksForHelp(args) then Help
    else
      var f := Consume(args, 0, Unset);
      var path := if Truthy(f.project) then f.project.value else cwd;
      Run(ScanOptions(Some(path), f.silent, f.json, f.output))
  }

  // ---------------------------------------------------------------------------
  // The last flag wins

  /** An argument starting with `-` is never swallowed as another flag's
      value: the loop always reaches it as an argument of its own. */
  lemma {:induction false} ReachesFlag(args: seq<string>, i: nat, j: nat, f: Flags) returns (mid: Flags)
    requires i <= j < |args| && StartsWith(args[j], "-")
    ensures Consume(args, i, f) == Consume(args, j, mid)
    decreases j - i
  {
    if i == j {
      mid := f;
    } else {
      var s := Step(args, i, f);
      StepStopsBeforeFlag(args, i, j, f);
      assert Consume(args, i, f) == Consume(args, s.1, s.0);
      mid := ReachesFlag(args, s.1, j, s.0);
    }
  }

  /** A loop turn never steps over an argument starting with `-`. */
  lemma StepStopsBeforeFlag(args: seq<string>, i: nat, j: nat, f: Flags)
    requires i < j < |args| && StartsWith(args[j], "-")
    ensures Step(args, i, f).1 <= j
  {
    var n := Step(args, i, f).1;
    AdvanceStopsBeforeFlag(args, i, j, n);
  }

  /** An advance by one, or by two over a value not starting with `-`, does
      not pass the flag at `j`. */
  lemma AdvanceStopsBeforeFlag(args: seq<string>, i: nat, j: nat, n: nat)
    requires i < j < |args| && StartsWith(args[j], "-")
    requires n == i + 1 || (n == i + 2 && ValueAfter(args, i).Some?)
    ensures n <= j
  {
    if n == i + 2 {
      assert i + 1 != j;
    }
  }

  /** What the last argument does when it is a long flag: it is read as a
      flag, with nothing after it to consume. */
  lemma LastArgument(args: seq<string>) returns (mid: Flags)
    requires |args| > 0 && StartsWith(args[|args| - 1], "--")
    ensures Consume(args, 0, Unset) == LongFlag(args[|args| - 1], None, mid).0
  {
    var k := |args| - 1;
    assert StartsWith(args[k], "-");
    mid := ReachesFlag(args, 0, k, Unset);
    assert ValueAfter(args, k) == None;
    var s := Step(args, k, mid);
    assert s.1 == |args| && s.0 == LongFlag(args[k], None, mid).0;
    assert Consume(args, k, mid) == s.0;
  }

  /** Splitting `name=v` at its first `=` gives back `name` and `v`. */
  lemma SplitAtEquals(name: string, v: string)
    requires '=' !in name
    ensures var a := name + "=" + v;
            IndexOf(a, '=') == |name| && a[..|name|] == name && a[|name| + 1..] == v
  {
    var a := name + "=" + v;
    assert a[..|name|] == name;
    assert a[|name|] == '=';
    assert a[|name| + 1..] == v;
  }

  lemma JsonWithValue(v: string, next: Option<string>, f: Flags)
    ensures LongFlag("--json=" + v, next, f) == (f.(json := BoolValue(v)), false)
  {
    assert "--json=" + v == "--json" + "=" + v;
    SplitAtEquals("--json", v);
  }

  lemma SilentWithValue(v: string, next: Option<string>, f: Flags)
    ensures LongFlag("--silent=" + v, next, f) == (f.(silent := BoolValue(v)), false)
  {
    assert "--silent=" + v == "--silent" + "=" + v;
    SplitAtEquals("--silent", v);
  }

  lemma OutputWithValue(v: string, next: Option<string>, f: Flags)
    ensures LongFlag("--output=" + v, next, f) == (f.(output := Some(v)), false)
  {
    assert "--output=" + v == "--output" + "=" + v;
    SplitAtEquals("--output", v);
  }

  /** A final `--json=v` decides the JSON flag, whatever came before. */
  lemma LastJsonWins(args: seq<string>, v: string, cwd: string)
    requires |args| > 0 && args[|args| - 1] == "--json=" + v && !AsksForHelp(args)
    ensures ParseArgs(args, cwd).options.jsonOutput == BoolValue(v)
  {
    var mid := LastArgument(args);
    JsonWithValue(v, None, mid);
  }

  /** A final `--silent=v` decides the silent flag, whatever came before. */
  lemma LastSilentWins(args: seq<string>, v: string, cwd: string)
    requires |args| > 0 && args[|args| - 1] == "--silent=" + v && !AsksForHelp(args)
    ensures ParseArgs(args, cwd).options.silent == BoolValue(v)
  {
    var mid := LastArgument(args);
    SilentWithValue(v, None, mid);
  }

  /** A final `--output=v` decides the output path, whatever came before. */
  lemma LastOutputWins(args: seq<string>, v: string, cwd: string)
    requires |args| > 0 && args[|args| - 1] == "--output=" + v && !AsksForHelp(args)
    ensures ParseArgs(args, cwd).options.outputPath == Some(v)
  {
    var mid := LastArgument(args);
    OutputWithValue(v, None, mid);
  }

  /** A final `--output <file>` takes the file as the output path, whatever
      came before, when the file name does not start with `-`. */
  lemma LastOutputPairWins(args: seq<string>, file: string, cwd: string)
    requires |args| >= 2 && args[|args| - 2] == "--output" && args[|args| - 1] == file
    requires !StartsWith(file, "-") && !AsksForHelp(args)
    ensures ParseArgs(args, cwd).options.outputPath == Some(file)
  {
    var i := |args| - 2;
    var mid := ReachesFlag(args, 0, i, Unset);
    assert '=' !in args[i];
    assert ValueAfter(args, i) == Some(file);
    assert LongFlag(args[i], Some(file), mid) == (mid.(output := Some(file)), true);
    assert Step(args, i, mid) == (mid.(output := Some(file)), |args|);
  }

  /** `-j --json=false` leaves JSON output off. */
  lemma ShortThenLongFalse(cwd: string)
    ensures ParseArgs(["-j", "--json=false"], cwd).options.jsonOutput == false
  {
    LastJsonWins(["-j", "--json=false"], "false", cwd);
    assert Lower("false") == "false";
  }

  // ---------------------------------------------------------------------------
  // Positional arguments

  /** The first non-empty string of a list: the reference for the project path. */
  function FirstNonEmpty(args: seq<string>): (r: Option<string>)
    ensures r.Some? ==> r.value != "" && r.value in args
    ensures r.None? <==> forall k :: 0 <= k < |args| ==> args[k] == ""
  {
    if |args| == 0 then None
    else if args[0] != "" then Some(args[0])
    else FirstNonEmpty(args[1..])
  }

  /** Over plain words, the loop sets no flag and keeps the first non-empty
      word as the project path. */
  lemma {:induction false} ConsumeWords(args: seq<string>, i: nat, f: Flags)
    requires i <= |args|
    requires forall k :: i <= k < |args| ==> !StartsWith(args[k], "-")
    ensures var g := Consume(args, i, f);
            && g.json == f.json && g.silent == f.silent && g.output == f.output
            && (Truthy(f.project) ==> g.project == f.project)
            && (!Truthy(f.project) && FirstNonEmpty(args[i..]).Some? ==> g.project == FirstNonEmpty(args[i..]))
            && (!Truthy(f.project) && FirstNonEmpty(args[i..]).None? ==> !Truthy(g.project))
    decreases |args| - i
  {
    if i < |args| {
      assert !StartsWith(args[i], "--");
      var g := Positional(args[i], f);
      assert Step(args, i, f) == (g, i + 1);
      ConsumeWords(args, i + 1, g);
      assert args[i..][1..] == args[i + 1..];
    }
  }

  /** Without flags, the project path is the first non-empty argument, or
      the working directory when there is none, and every option is off. */
  lemma OnlyPositionals(args: seq<string>, cwd: string)
    requires forall k :: 0 <= k < |args| ==> !StartsWith(args[k], "-")
    ensures ParseArgs(args, cwd) == Run(ScanOptions(Some(FirstNonEmpty(args).GetOr(cwd)), false, false, None))
  {
    assert StartsWith("--help", "-") && StartsWith("-h", "-");
    ConsumeWords(args, 0, Unset);
    assert args[0..] == args;
  }

  /** The arguments the loop reads as positional from position `i` on: those
      that do not start with `-` and are not taken as a flag's value. */
  function Positionals(args: seq<string>, i: nat): seq<string>
    requires i <= |args|
    decreases |args| - i
  {
    if i == |args| then []
    else if TakesValue(args, i) then Positionals(args, i + 2)
    else (if StartsWith(args[i], "-") then [] else [args[i]]) + Positionals(args, i + 1)
  }

  /** Whatever flags are interleaved, the loop keeps a non-empty project path
      and otherwise takes the first non-empty positional argument it reaches. */
  lemma {:induction false} ConsumeProject(args: seq<string>, i: nat, f: Flags)
    requires i <= |args|
    ensures Truthy(f.project) ==> Consume(args, i, f).project == f.project
    ensures !Truthy(f.project) && FirstNonEmpty(Positionals(args, i)).Some? ==>
              Consume(args, i, f).project == FirstNonEmpty(Positionals(args, i))
    ensures !Truthy(f.project) && FirstNonEmpty(Positionals(args, i)).None? ==> !Truthy(Consume(args, i, f).project)
    decreases |args| - i
  {
    if i == |args| {
      assert Positionals(args, i) == [];
    } else {
      var s := Step(args, i, f);
      assert Consume(args, i, f) == Consume(args, s.1, s.0);
      ConsumeProject(args, s.1, s.0);
      if TakesValue(args, i) {
        assert StartsWith(args[i], "-") by {
          assert StartsWith("--output", "-");
        }
        assert s.1 == i + 2 && s.0.project == f.project;
        assert Positionals(args, i) == Positionals(args, s.1);
      } else if StartsWith(args[i], "-") {
        assert s.1 == i + 1 && s.0.project == f.project;
        var q := Positionals(args, s.1);
        assert Positionals(args, i) == [] + q;
        assert [] + q == q;
      } else {
        var rest := Positionals(args, s.1);
        var p := [args[i]] + rest;
        assert Positionals(args, i) == p;
        assert p[1..] == rest;
        var g := Consume(args, s.1, s.0);
        if !Truthy(f.project) && args[i] != "" {
          assert FirstNonEmpty(p) == Some(args[i]);
          assert Truthy(s.0.project) && s.0.project == Some(args[i]);
          assert g.project == Some(args[i]);
        } else if !Truthy(f.project) {
          assert FirstNonEmpty(p) == FirstNonEmpty(rest);
          assert !Truthy(s.0.project);
          assert FirstNonEmpty(rest).Some? ==> g.project == FirstNonEmpty(rest);
        }
      }
    }
  }

  /** The project path of a run: the first non-empty positional argument,
      or the working directory when there is none. */
  lemma ParseArgsProject(args: seq<string>, cwd: string)
    requires !AsksForHelp(args)
    ensures ParseArgs(args, cwd).options.projectPath == Some(FirstNonEmpty(Positionals(args, 0)).GetOr(cwd))
  {
    ConsumeProject(args, 0, Unset);
  }

  // ---------------------------------------------------------------------------
  // Worked command lines

  /** `--output -j`: the bare `--output` consumes nothing and `-j` still sets JSON. */
  lemma OutputBeforeFlag(cwd: string)
    ensures ParseArgs(["--output", "-j"], cwd) == Run(ScanOptions(Some(cwd), false, true, None))
  {
    var args := ["--output", "-j"];
    var g := Unset.(json := true);
    assert !AsksForHelp(args);
    assert args[1][1] == 'j';
    assert StartsWith(args[1], "-") && !StartsWith(args[1], "--");
    assert ValueAfter(args, 0) == None;
    assert '=' !in args[0];
    assert LongFlag(args[0], None, Unset) == (Unset, false);
    assert Step(args, 0, Unset) == (Unset, 1);
    assert args[1][1..] == "j";
    assert ShortGroup("j", None, Unset) == (g, false);
    assert Step(args, 1, Unset) == (g, 2);
    assert Consume(args, 1, Unset) == g;
  }

  /** `-jo <file>`: a group sets JSON and takes the next argument as the output. */
  lemma GroupWithOutput(file: string, cwd: string)
    requires !StartsWith(file, "-")
    ensures ParseArgs(["-jo", file], cwd) == Run(ScanOptions(Some(cwd), false, true, Some(file)))
  {
    var args := ["-jo", file];
    var g := Unset.(json := true, output := Some(file));
    assert StartsWith("--help", "-") && StartsWith("-h", "-");
    assert !AsksForHelp(args);
    assert args[0][1] == 'j';
    assert StartsWith(args[0], "-") && !StartsWith(args[0], "--");
    assert ValueAfter(args, 0) == Some(file);
    assert args[0][1..] == "jo" && "jo"[1..] == "o";
    assert ShortGroup("o", Some(file), Unset.(json := true)) == (g, true);
    assert ShortGroup("jo", Some(file), Unset) == (g, true);
    assert Step(args, 0, Unset) == (g, 2);
    assert Consume(args, 0, Unset) == g;
  }

  /** `-o<value>`: the rest of the group is the output path, even when it
      spells other flag letters. */
  lemma AttachedOutput(rest: string, cwd: string)
    requires rest != ""
    ensures ParseArgs(["-o" + rest], cwd) == Run(ScanOptions(Some(cwd), false, false, Some(rest)))
  {
    var a := "-o" + rest;
    var args := [a];
    var g := Unset.(output := Some(rest));
    assert a[1] == 'o' && |a| >= 3;
    assert !AsksForHelp(args);
    assert StartsWith(a, "-") && !StartsWith(a, "--");
    assert a[1..] == "o" + rest && ("o" + rest)[1..] == rest;
    assert ShortGroup(a[1..], None, Unset) == (g, false);
    assert Step(args, 0, Unset) == (g, 1);
    assert Consume(args, 0, Unset) == g;
  }

  /** An unknown long flag consumes nothing: the word after it is the project path. */
  lemma UnknownLongFlag(path: string, cwd: string)
    requires path != "" && !StartsWith(path, "-")
    ensures ParseArgs(["--verbose", path], cwd) == Run(ScanOptions(Some(path), false, false, None))
  {
    var args := ["--verbose", path];
    var g := Unset.(project := Some(path));
    assert StartsWith("--help", "-") && StartsWith("-h", "-");
    assert !AsksForHelp(args);
    assert StartsWith(args[0], "--");
    assert '=' !in args[0];
    assert LongFlag(args[0], Some(path), Unset) == (Unset, false);
    assert Step(args, 0, Unset) == (Unset, 1);
    assert !StartsWith(args[1], "--");
    assert Step(args, 1, Unset) == (g, 2);
    assert Consume(args, 1, Unset) == g;
  }

  /** `-j <path>`: the group takes no value, so the word after it is the
      project path. */
  lemma FlagThenPath(path: string, cwd: string)
    requires path != "" && !StartsWith(path, "-")
    ensures ParseArgs(["-j", path], cwd) == Run(ScanOptions(Some(path), false, true, None))
  {
    var args := ["-j", path];
    assert StartsWith("--help", "-") && StartsWith("-h", "-");
    assert !AsksForHelp(args);
    assert args[0][1] == 'j' && args[0][1..] == "j";
    assert StartsWith(args[0], "-") && !StartsWith(args[0], "--");
    assert Before("j", 'o') == "j";
    assert !TakesValue(args, 0);
    assert !TakesValue(args, 1) && !StartsWith(args[1], "-");
    assert Positionals(args, 2) == [];
    assert Positionals(args, 1) == [path] + [];
    assert Positionals(args, 0) == [] + Positionals(args, 1);
    ParseArgsProject(args, cwd);
    var s := Step(args, 0, Unset);
    assert s.0.json && !s.0.silent && s.0.output == None;
    assert Consume(args, 0, Unset) == Consume(args, 1, s.0);
    assert Consume(args, 1, s.0) == Consume(args, 2, Step(args, 1, s.0).0);
  }

  /** Inside a group, `h` does not ask for help. */
  lemma HelpLetterInGroup(cwd: string)
    ensures ParseArgs(["-jh"], cwd) == Run(ScanOptions(Some(cwd), false, true, None))
  {
    var args := ["-jh"];
    var g := Unset.(json := true);
    assert !AsksForHelp(args);
    assert args[0][1] == 'j';
    assert StartsWith(args[0], "-") && !StartsWith(args[0], "--");
    assert args[0][1..] == "jh" && "jh"[1..] == "h" && "h"[1..] == "";
    assert ShortGroup("jh", None, Unset) == (g, false);
    assert Step(args, 0, Unset) == (g, 1);
    assert Consume(args, 0, Unset) == g;
  }

  // ---------------------------------------------------------------------------
  // The exit code

  /** How the run ended: the scan's result, or an error thrown out of it. */
  datatype Outcome = Finished(result: ScanResult) | Threw

  /** `process.exit(...)`: 1 when something vulnerable was found or the scan
      threw, else 0. */
  function ExitCode(o: Outcome): (code: int)
    ensures code == 0 || code == 1
    ensures code == 1 <==> o.Threw? || |o.result.vulnerabilities| > 0
  {
    match o
    case Threw => 1
    case Finished(r) => if |r.vulnerabilities| > 0 then 1 else 0
  }

  /** The exit code of a finished scan reports the verdict: 1 exactly when
      some vulnerability was found, which is when the JSON report says
      `isVulnerable`. */
  lemma ExitCodeIsVerdict(options: ScanOptions, cwd: string, disk: Disk, script: seq<Response>, now: string)
    ensures var r := Scan(options, cwd, disk, script);
            && (ExitCode(Finished(r)) == 1 <==> r.totalVulnerabilities > 0)
            && (ExitCode(Finished(r)) == 1 <==> GenerateJsonReport(r, now).summary.isVulnerable)
  {
    ScanCounts(options, cwd, disk, script);
  }

  /** `runCLI`: help, or a scan-and-report with the parsed options and an
      exit code; `printedAt` and `savedAt` are the clock readings of the
      printed and the saved JSON report. */
  datatype CliRun = ShowedHelp | Exited(code: int, result: ScanResult, printed: Option<Printed>, saved: Option<Saved>)

  /** What a finished run promises for `options`: the result is the scan,
      every match is vulnerable, the exit code is 1 exactly when some
      vulnerability was found (else 0), the console gets the console output
      (nothing iff silent) with the clock reading `printedAt`, and the saved
      file follows the save rule with the reading `savedAt`. */
  predicate Reported(options: ScanOptions, cwd: string, disk: Disk, script: seq<Response>, printedAt: string, savedAt: string, run: CliRun) {
    && run.Exited?
    && run.result == Scan(options, cwd, disk, script)
    && (run.code == 1 <==> run.result.totalVulnerabilities > 0)
    && (run.code == 0 || run.code == 1)
    && (run.printed.None? <==> options.silent)
    && AllVulnerable(run.result.vulnerabilities)
    && run.printed == ConsoleOutput(options, run.result, printedAt)
    && SavedAs(options, run.result, savedAt, run.saved)
  }

  /** The `try` block of `runCLI`: scan and report with the given options,
      then exit with 1 exactly when something vulnerable was found. */
  method ScanAndExit(options: ScanOptions, cwd: string, disk: Disk, script: seq<Response>, printedAt: string, savedAt: string)
    returns (run: CliRun)
    ensures Reported(options, cwd, disk, script, printedAt, savedAt, run)
  {
    var r, printed, saved := ScanAndReport(options, cwd, disk, script, printedAt, savedAt);
    ExitCodeIsVerdict(options, cwd, disk, script, printedAt);
    run := Exited(ExitCode(Finished(r)), r, printed, saved);
  }

  method RunCli(args: seq<string>, cwd: string, disk: Disk, script: seq<Response>, printedAt: string, savedAt: string)
    returns (run: CliRun)
    ensures run.ShowedHelp? <==> AsksForHelp(args)
    ensures run.Exited? ==> Reported(ParseArgs(args, cwd).options, cwd, disk, script, printedAt, savedAt, run)
  {
    var command := ParseArgs(args, cwd);
    if command.Help? {
      return ShowedHelp;
    }
    run := ScanAndExit(command.options, cwd, disk, script, printedAt, savedAt);
  }
}
