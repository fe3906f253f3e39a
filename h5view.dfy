/**
  The `h5view` command line: `argv[1]` is the file, the remaining words are
  read by `read_cmd` into flags (`-h`, `-a`, `-d=<depth>`, `-p=<path>`,
  `-m=<map path>`), and the opened file's table is `print_info` of its root.
*/
module H5View {

  import opened Wrappers
  import opened PyStrings
  import opened H5Tree
  import opened CmdLine
  import opened Records
  import opened Traversal
  import opened Report

  /** What `main` hands to `print_info`. */
  datatype Options = Options(path: Option<string>, depth: int, printAttr: bool, mapDtypesPath: Option<string>)

  /** `main` either prints its usage text or inspects a file. */
  datatype Command = ShowHelp | Inspect(filename: string, options: Options)

  /**
    The ways the command line is refused: fewer than two words, an `int()`
    that fails on the depth, or `-p`/`-m` given without `=` (their value is
    then `True`, which has no `strip`).
  */
  datatype CliError = ImproperArguments | BadDepth(text: string) | MissingValue(flag: string)

  /** `int(s)` for an optional sign followed by decimal digits. */
  function ParseInt(t: string): Option<int> {
    var digits := if t != [] && (t[0] == '-' || t[0] == '+') then t[1..] else t;
    if digits == [] || !IsDigits(digits) then None
    else if t[0] == '-' then Some(-DigitsValue(digits))
    else Some(DigitsValue(digits))
  }

  /** `str(n)` for any integer. */
  function Signed(n: int): string {
    if n < 0 then "-" + Decimal(-n) else Decimal(n)
  }

  /** Every integer reads back from its decimal form. */
  lemma ParseSigned(n: int)
    ensures ParseInt(Signed(n)) == Some(n)
  {
    if n < 0 {
      var d := Decimal(-n);
      assert ("-" + d)[1..] == d;
      DecimalRoundTrip(-n);
    } else {
      var d := Decimal(n);
      assert IsDigit(d[0]);
      DecimalRoundTrip(n);
    }
  }

  /** `int(args['d'])`; a bare `-d` is `int(True)`, which is `1`. */
  function IntOf(v: ArgValue): Option<int> {
    match v
    case BareFlag => Some(1)
    case Value(t) => ParseInt(t)
  }

  /** `.strip('"').strip("'")`. */
  function Unquote(s: string): string {
    Strip(Strip(s, '"'), '\'')
  }

  /** Neither end is a quote character. */
  predicate Unquoted(s: string) {
    s == [] || (s[0] != '"' && s[0] != '\'' && s[|s| - 1] != '"' && s[|s| - 1] != '\'')
  }

  /** A value in double or single quotes loses exactly its quotes; an unquoted one is kept. */
  lemma UnquoteMeaning(s: string)
    requires Unquoted(s)
    ensures Unquote(s) == s
    ensures Unquote("\"" + s + "\"") == s
    ensures Unquote("'" + s + "'") == s
  {
    StripUnchanged(s, '"');
    StripUnchanged(s, '\'');
    assert "\"" + s + "\"" == ['"'] + s + ['"'];
    StripEnclosed(s, '"');
    var q := "'" + s + "'";
    assert q == ['\''] + s + ['\''];
    StripUnchanged(q, '"');
    StripEnclosed(s, '\'');
  }

  /** The value of `-p` or `-m`, unquoted, when the flag is there. */
  function TextFlag(args: map<string, ArgValue>, flag: string): Result<Option<string>, CliError> {
    if flag !in args then Success(None)
    else
      match args[flag]
      case BareFlag => Failure(MissingValue(flag))
      case Value(t) => Success(Some(Unquote(t)))
  }

  /** `'h' in args or filename.strip('-') in ['h', 'help']`. */
  predicate WantsHelp(filename: string, args: map<string, ArgValue>) {
    "h" in args || Strip(filename, '-') == "h" || Strip(filename, '-') == "help"
  }

  /** `depth`: 64 unless `-d` is given, `int()` of its value otherwise. */
  function DepthFlag(args: map<string, ArgValue>): Result<int, CliError> {
    if "d" !in args then Success(64)
    else
      match IntOf(args["d"])
      case None => Failure(BadDepth(args["d"].text))
      case Some(d) => Success(d)
  }

  /** The flags after the help test, read in `main`'s order: `-a`, `-d`, `-p`, `-m`. */
  function Configure(filename: string, args: map<string, ArgValue>): (r: Result<Command, CliError>)
    ensures r.Success? ==> r.value.Inspect? && r.value.filename == filename
    ensures r.Success? ==>
      && r.value.options.printAttr == ("a" in args)
      && DepthFlag(args) == Success(r.value.options.depth)
      && TextFlag(args, "p") == Success(r.value.options.path)
      && TextFlag(args, "m") == Success(r.value.options.mapDtypesPath)
    ensures r.Success? <==> DepthFlag(args).Success? && TextFlag(args, "p").Success? && TextFlag(args, "m").Success?
    ensures DepthFlag(args).Failure? ==> r == Failure(DepthFlag(args).error)
    ensures r.Failure? ==> (r.error.BadDepth? <==> DepthFlag(args).Failure?)
    ensures r.Failure? ==> !r.error.ImproperArguments?
  {
    match DepthFlag(args)
    case Failure(e) => Failure(e)
    case Success(depth) =>
      match TextFlag(args, "p")
      case Failure(e) => Failure(e)
      case Success(path) =>
        match TextFlag(args, "m")
        case Failure(e) => Failure(e)
        case Success(mapPath) => Success(Inspect(filename, Options(path, depth, "a" in args, mapPath)))
  }

  /** `main` up to the `print_info` call. */
  function CommandLine(argv: seq<string>): Result<Command, CliError> {
    if |argv| < 2 then Failure(ImproperArguments)
    else if WantsHelp(argv[1], ArgDict(argv[2..])) then Success(ShowHelp)
    else Configure(argv[1], ArgDict(argv[2..]))
  }

  /** `main`'s argument handling, step by step. */
  method ParseCommandLine(argv: seq<string>) returns (r: Result<Command, CliError>)
    ensures r == CommandLine(argv)
  {
    if |argv| < 2 {
      return Failure(ImproperArguments);
    }
    var filename := argv[1];
    var args := ReadCmd(argv[2..]);
    if "h" in args || Strip(filename, '-') in ["h", "help"] {
      return Success(ShowHelp);
    }
    r := ReadFlags(filename, args);
  }

  /** The flag tests of `main`, in its order. */
  method ReadFlags(filename: string, args: map<string, ArgValue>) returns (r: Result<Command, CliError>)
    ensures r == Configure(filename, args)
  {
    var printAttr := false;
    if "a" in args {
      printAttr := true;
    }
    var depth := 64;
    if "d" in args {
      var d := IntOf(args["d"]);
      if d.None? {
        return Failure(BadDepth(args["d"].text));
      }
      depth := d.value;
    }
    var path := None;
    if "p" in args {
      if args["p"].BareFlag? {
        return Failure(MissingValue("p"));
      }
      path := Some(Unquote(args["p"].text));
    }
    var mapPath := None;
    if "m" in args {
      if args["m"].BareFlag? {
        return Failure(MissingValue("m"));
      }
      mapPath := Some(Unquote(args["m"].text));
    }
    r := Success(Inspect(filename, Options(path, depth, printAttr, mapPath)));
  }

  // --------------------------------------------------------------- the run

  datatype Outcome = Usage | Output(shown: Shown)

  datatype ViewError = Cli(error: CliError) | Print(reason: Error)

  /**
    The whole run on the file `argv[1]` names, whose contents are `file`:
    the usage text, or `print_info(root, path, depth, print_attr, map_dtypes_path)`
    with groups shown and the root being a `File`.
  */
  function View(argv: seq<string>, file: Node): Result<Outcome, ViewError> {
    match CommandLine(argv)
    case Failure(e) => Failure(Cli(e))
    case Success(ShowHelp) => Success(Usage)
    case Success(Inspect(_, o)) =>
      match PrintInfoSpec(file, o.path, o.depth, true, o.printAttr, o.mapDtypesPath, true)
      case Failure(e) => Failure(Print(e))
      case Success(shown) => Success(Output(shown))
  }

  method Run(argv: seq<string>, file: Node) returns (r: Result<Outcome, ViewError>)
    ensures r == View(argv, file)
  {
    var cmd := ParseCommandLine(argv);
    if cmd.Failure? {
      return Failure(Cli(cmd.error));
    }
    if cmd.value.ShowHelp? {
      return Success(Usage);
    }
    var o := cmd.value.options;
    var shown := PrintInfo(file, o.path, o.depth, true, o.printAttr, o.mapDtypesPath, true);
    if shown.Failure? {
      return Failure(Print(shown.error));
    }
    r := Success(Output(shown.value));
  }

  // ------------------------------------------------------------ properties

  /** The run stops with "improper number of arguments" exactly when there is no file name. */
  lemma ImproperIffShort(argv: seq<string>)
    ensures CommandLine(argv) == Failure(ImproperArguments) <==> |argv| < 2
  {
  }

  /** The usage text is printed exactly when some flag word is `h` (at any place) or the file name is `h`/`help` with dashes. */
  lemma HelpIff(argv: seq<string>)
    requires |argv| >= 2
    ensures CommandLine(argv) == Success(ShowHelp) <==>
      (exists j :: 2 <= j < |argv| && SplitArg(argv[j]).0 == "h") ||
      Strip(argv[1], '-') == "h" || Strip(argv[1], '-') == "help"
  {
    KeyAfterName(argv, "h");
    HelpCommand(argv);
  }

  /** A flag `k` is given exactly when some word after the file name has key `k`. */
  lemma KeyAfterName(argv: seq<string>, k: string)
    requires |argv| >= 2
    ensures k in ArgDict(argv[2..]) <==> exists j :: 2 <= j < |argv| && SplitArg(argv[j]).0 == k
  {
    ArgDictKeys(argv[2..], k);
    KeyShift(argv, k);
  }

  lemma KeyShift(argv: seq<string>, k: string)
    requires |argv| >= 2
    ensures (exists j :: 0 <= j < |argv[2..]| && SplitArg(argv[2..][j]).0 == k) <==>
      exists j :: 2 <= j < |argv| && SplitArg(argv[j]).0 == k
  {
    var rest := argv[2..];
    if exists j :: 2 <= j < |argv| && SplitArg(argv[j]).0 == k {
      var j :| 2 <= j < |argv| && SplitArg(argv[j]).0 == k;
      assert rest[j - 2] == argv[j];
    }
  }

  /** Help is shown exactly when `main`'s help test holds; `Configure` never yields it. */
  lemma HelpCommand(argv: seq<string>)
    requires |argv| >= 2
    ensures CommandLine(argv) == Success(ShowHelp) <==> WantsHelp(argv[1], ArgDict(argv[2..]))
  {
    if !WantsHelp(argv[1], ArgDict(argv[2..])) {
      var r := Configure(argv[1], ArgDict(argv[2..]));
      assert r.Success? ==> r.value.Inspect?;
    }
  }

  /** `argv[0]` (the program name) makes no difference. */
  lemma ProgramNameIgnored(a: string, b: string, rest: seq<string>)
    ensures CommandLine([a] + rest) == CommandLine([b] + rest)
  {
    if |rest| >= 1 {
      assert ([a] + rest)[1] == rest[0] == ([b] + rest)[1];
      assert ([a] + rest)[2..] == rest[1..] == ([b] + rest)[2..];
    }
  }

  /** The flag words that ask for the options `o`, each with one dash; `-d` is always spelled out. */
  function Words(o: Options): seq<string> {
    (if o.printAttr then [['-', 'a']] else []) +
    [FlagText('d', Signed(o.depth))] +
    (if o.path.Some? then [FlagText('p', o.path.value)] else []) +
    (if o.mapDtypesPath.Some? then [FlagText('m', o.mapDtypesPath.value)] else [])
  }

  /** `-k=t`. */
  function FlagText(k: char, t: string): string {
    ['-', k] + "=" + t
  }

  lemma ArgDictOptional(ws: seq<string>, b: bool, x: string)
    ensures ArgDict(ws + (if b then [x] else [])) ==
      if b then ArgDict(ws)[SplitArg(x).0 := SplitArg(x).1] else ArgDict(ws)
  {
    if b {
      ArgDictSnoc(ws, x);
    } else {
      assert ws + [] == ws;
    }
  }

  lemma OneDash()
    ensures Dashes(1) == "-"
  {
    assert Dashes(0) == "";
  }

  lemma Regroup<T>(x: T, y: T, z: seq<T>, u: seq<T>)
    ensures [x, y] + z + u == [x] + ([y] + z + u)
  {
  }

  /** `-k=v` for a one-letter flag `k`. */
  lemma FlagWord(k: char, t: string)
    requires k != '=' && k != '-'
    ensures SplitArg(FlagText(k, t)) == ([k], Value(t))
  {
    OneDash();
    SplitJoin(1, [k], Value(t));
    Regroup('-', k, "=", t);
  }

  /** `-k` for a one-letter flag `k`. */
  lemma BareFlagWord(k: char)
    requires k != '=' && k != '-'
    ensures SplitArg(['-', k]) == ([k], BareFlag)
  {
    OneDash();
    SplitJoin(1, [k], BareFlag);
    assert ['-', k] == Dashes(1) + [k];
  }

  /** The keys and values after the four updates the option words make. */
  lemma UpdatedFlags(m0: map<string, ArgValue>, m1: map<string, ArgValue>, m2: map<string, ArgValue>,
                     m3: map<string, ArgValue>, o: Options)
    requires m0 == if o.printAttr then map["a" := BareFlag] else map[]
    requires m1 == m0["d" := Value(Signed(o.depth))]
    requires m2 == if o.path.Some? then m1["p" := Value(o.path.value)] else m1
    requires m3 == if o.mapDtypesPath.Some? then m2["m" := Value(o.mapDtypesPath.value)] else m2
    ensures && ("a" in m3 <==> o.printAttr)
      && "h" !in m3
      && "d" in m3 && m3["d"] == Value(Signed(o.depth))
      && ("p" in m3 <==> o.path.Some?) && (o.path.Some? ==> m3["p"] == Value(o.path.value))
      && ("m" in m3 <==> o.mapDtypesPath.Some?) && (o.mapDtypesPath.Some? ==> m3["m"] == Value(o.mapDtypesPath.value))
  {
  }

  /** The dictionary the words of `o` produce. */
  lemma WordsDict(o: Options)
    ensures var m := ArgDict(Words(o));
      && ("a" in m <==> o.printAttr)
      && "h" !in m
      && "d" in m && m["d"] == Value(Signed(o.depth))
      && ("p" in m <==> o.path.Some?) && (o.path.Some? ==> m["p"] == Value(o.path.value))
      && ("m" in m <==> o.mapDtypesPath.Some?) && (o.mapDtypesPath.Some? ==> m["m"] == Value(o.mapDtypesPath.value))
  {
    var w0: seq<string> := if o.printAttr then [['-', 'a']] else [];
    var w1 := w0 + [FlagText('d', Signed(o.depth))];
    var w2 := w1 + (if o.path.Some? then [FlagText('p', o.path.value)] else []);
    var w3 := w2 + (if o.mapDtypesPath.Some? then [FlagText('m', o.mapDtypesPath.value)] else []);
    assert Words(o) == w3;
    var m0 := ArgDict(w0);
    assert m0 == if o.printAttr then map["a" := BareFlag] else map[] by {
      BareFlagWord('a');
      assert ArgDict([]) == map[];
      ArgDictOptional([], o.printAttr, ['-', 'a']);
      assert [] + w0 == w0;
    }
    var m1 := ArgDict(w1);
    assert m1 == m0["d" := Value(Signed(o.depth))] by {
      FlagWord('d', Signed(o.depth));
      ArgDictSnoc(w0, FlagText('d', Signed(o.depth)));
    }
    var m2 := ArgDict(w2);
    assert m2 == if o.path.Some? then m1["p" := Value(o.path.value)] else m1 by {
      if o.path.Some? {
        FlagWord('p', o.path.value);
      }
      ArgDictOptional(w1, o.path.Some?, FlagText('p', if o.path.Some? then o.path.value else ""));
    }
    var m3 := ArgDict(w3);
    assert m3 == if o.mapDtypesPath.Some? then m2["m" := Value(o.mapDtypesPath.value)] else m2 by {
      if o.mapDtypesPath.Some? {
        FlagWord('m', o.mapDtypesPath.value);
      }
      ArgDictOptional(w2, o.mapDtypesPath.Some?, FlagText('m', if o.mapDtypesPath.Some? then o.mapDtypesPath.value else ""));
    }
    UpdatedFlags(m0, m1, m2, m3, o);
  }

  /**
    Options written out as flag words are read back as the same options, as
    long as the file name does not ask for help and the paths are not
    themselves quoted.
  */
  lemma OptionsRoundTrip(prog: string, f: string, o: Options)
    requires Strip(f, '-') != "h" && Strip(f, '-') != "help"
    requires o.path.Some? ==> Unquoted(o.path.value)
    requires o.mapDtypesPath.Some? ==> Unquoted(o.mapDtypesPath.value)
    ensures CommandLine([prog, f] + Words(o)) == Success(Inspect(f, o))
  {
    var argv := [prog, f] + Words(o);
    assert argv[1] == f && argv[2..] == Words(o);
    WordsDict(o);
    ConfigureFlags(f, ArgDict(Words(o)), o);
  }

  /** A dictionary holding exactly the flags of `o` configures `o`. */
  lemma ConfigureFlags(f: string, args: map<string, ArgValue>, o: Options)
    requires o.path.Some? ==> Unquoted(o.path.value)
    requires o.mapDtypesPath.Some? ==> Unquoted(o.mapDtypesPath.value)
    requires && ("a" in args <==> o.printAttr)
      && "d" in args && args["d"] == Value(Signed(o.depth))
      && ("p" in args <==> o.path.Some?) && (o.path.Some? ==> args["p"] == Value(o.path.value))
      && ("m" in args <==> o.mapDtypesPath.Some?) && (o.mapDtypesPath.Some? ==> args["m"] == Value(o.mapDtypesPath.value))
    ensures Configure(f, args) == Success(Inspect(f, o))
  {
    DepthFlagOf(args, o.depth);
    TextFlagOf(args, "p", o.path);
    TextFlagOf(args, "m", o.mapDtypesPath);
  }

  lemma DepthFlagOf(args: map<string, ArgValue>, n: int)
    requires "d" in args && args["d"] == Value(Signed(n))
    ensures DepthFlag(args) == Success(n)
  {
    ParseSigned(n);
  }

  lemma TextFlagOf(args: map<string, ArgValue>, flag: string, v: Option<string>)
    requires (flag in args <==> v.Some?) && (v.Some? ==> args[flag] == Value(v.value) && Unquoted(v.value))
    ensures TextFlag(args, flag) == Success(v)
  {
    if v.Some? {
      UnquoteMeaning(v.value);
    }
  }

  /** With the file name alone: depth 64, no attributes, no path and no legend. */
  lemma Defaults(prog: string, f: string)
    requires Strip(f, '-') != "h" && Strip(f, '-') != "help"
    ensures CommandLine([prog, f]) == Success(Inspect(f, Options(None, 64, false, None)))
  {
    assert [prog, f][2..] == [];
    assert ArgDict([]) == map[];
  }

  /** The lines of `print_info` on a whole file with the default options (`[]` where it fails). */
  function DefaultLines(file: Node): seq<string> {
    var r := PrintInfoSpec(file, None, 64, true, false, None, true);
    if r.Success? && r.value.Table? then r.value.lines else []
  }

  /**
    With no flags, the run shows the header, the `File` row of the root, then
    one row per record of the whole file to depth 64, in the walk's order.
  */
  lemma DefaultRunShowsFile(prog: string, f: string, file: Node)
    requires Strip(f, '-') != "h" && Strip(f, '-') != "help" && file.Group?
    ensures View([prog, f], file) == Success(Output(Table(None, DefaultLines(file))))
    ensures var lines := DefaultLines(file);
      var members := InfoMembers(file, true, 64, MemberShape);
      var w := 1 + MaxPathLength(TableInfo(file, true, true, 64));
      && |lines| == 4 + |members|
      && lines[..3] == HeaderLines(w)
      && lines[3] == InfoRow(RootInfo(file, true), w)
      && forall i :: 0 <= i < |members| ==> lines[4 + i] == InfoRow(members[i], w)
  {
    PlainTable(file, 64, true, true);
    Defaults(prog, f);
  }

  /**
    For a well-formed file whose `-p` and `-m` paths exist, the run shows a
    table exactly when `-p` leads to a group (the file itself without `-p`).
  */
  lemma TableIffGroupAtPath(argv: seq<string>, file: Node, f: string, o: Options)
    requires WellFormed(file) && CommandLine(argv) == Success(Inspect(f, o))
    requires Target(file, o.path).Some?
    requires o.mapDtypesPath.Some? ==> Open(file, Target(file, o.path).value, o.mapDtypesPath.value).Some?
    ensures (View(argv, file).Success? && View(argv, file).value.Output? && View(argv, file).value.shown.Table?)
      <==> Target(file, o.path).value.Group?
  {
    TableIffGroup(file, o.path, o.depth, true, o.printAttr, o.mapDtypesPath, true);
  }

  /** Every table the run shows has its header and then rows aligned on one path column. */
  lemma RunTableAligned(argv: seq<string>, file: Node)
    ensures var r := View(argv, file);
      r.Success? && r.value.Output? && r.value.shown.Table? ==> AlignedTable(r.value.shown.lines)
  {
    var r := View(argv, file);
    if r.Success? && r.value.Output? {
      var o := CommandLine(argv).value.options;
      TableAligned(file, o.path, o.depth, true, o.printAttr, o.mapDtypesPath, true);
    }
  }
}
