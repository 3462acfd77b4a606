/**
 * The command-line front end (app.py): the chunk options read from argv,
 * the exit words of the interactive loop, the environment check and the
 * dispatch at the end of `main`.
 */
module App {
  import opened Wrappers
  import opened Sequences
  import opened TextUtils
  import opened PdfLoader
  import opened QueryProcessing
  import opened Core

  /** DEFAULT_CHUNK_SIZE and DEFAULT_CHUNK_OVERLAP (app/core/config.py). */
  const DefaultChunkSize: int := 512
  const DefaultChunkOverlap: int := 50

  /** DEFAULT_LLM_MODEL and DEFAULT_EMBEDDING_MODEL (app/core/config.py). */
  const DefaultLlmModel: string := "gemma3:12b"
  const DefaultEmbeddingModel: string := "nomic-embed-text:latest"

  const SizePrefix: string := "--chunk-size="
  const OverlapPrefix: string := "--chunk-overlap="

  // ---------------------------------------------------------------------
  // int()
  // ---------------------------------------------------------------------

  predicate IsDigit(c: char) {
    '0' <= c <= '9'
  }

  /** Digits and underscores, the characters a base-10 numeral is made of. */
  predicate IsDigitsOrUnderscores(s: string) {
    forall i :: 0 <= i < |s| ==> IsDigit(s[i]) || s[i] == '_'
  }

  /**
   * What int() accepts after the sign: ASCII digits, where a single
   * underscore may stand between two digits. Leading zeros are allowed.
   */
  predicate IsNumeral(s: string) {
    && |s| > 0
    && IsDigit(s[0])
    && IsDigit(s[|s| - 1])
    && IsDigitsOrUnderscores(s)
    && forall i :: 0 <= i < |s| - 1 ==> !(s[i] == '_' && s[i + 1] == '_')
  }

  /** The value of a numeral read in base 10, skipping underscores. */
  function NumeralValue(s: string): nat
    requires IsDigitsOrUnderscores(s)
    decreases |s|
  {
    if s == [] then 0
    else
      var init := s[..|s| - 1];
      var c := s[|s| - 1];
      if c == '_' then NumeralValue(init)
      else 10 * NumeralValue(init) + (c as int - '0' as int)
  }

  /** A stripped string read as int() reads it: an optional sign, then a numeral. */
  function ParseSigned(t: string): Option<int> {
    if |t| > 0 && (t[0] == '+' || t[0] == '-') then
      if IsNumeral(t[1..]) then
        var v: int := NumeralValue(t[1..]);
        Some(if t[0] == '-' then -v else v)
      else None
    else if IsNumeral(t) then Some(NumeralValue(t))
    else None
  }

  /**
   * int(s) for a string: surrounding whitespace is ignored, an optional
   * sign is read, and the rest must be a numeral. None stands for the
   * ValueError int() raises.
   */
  function ParseInt(s: string): Option<int> {
    ParseSigned(Strip(s))
  }

  /** Whatever int() accepts holds at least one ASCII digit. */
  lemma ParseIntHasDigit(s: string)
    requires ParseInt(s).Some?
    ensures exists i :: 0 <= i < |s| && IsDigit(s[i])
  {
    var t := Strip(s);
    var o := StripOffset(s);
    if |t| > 0 && (t[0] == '+' || t[0] == '-') {
      assert s[o + 1] == t[1];
    } else {
      assert s[o] == t[0];
    }
  }

  function DigitChar(d: nat): (c: char)
    requires d < 10
    ensures IsDigit(c) && c as int - '0' as int == d
  {
    ('0' as int + d) as char
  }

  /** The decimal digits of n, most significant first, without leading zeros. */
  function Digits(n: nat): (s: string)
    ensures |s| > 0
    ensures forall i :: 0 <= i < |s| ==> IsDigit(s[i])
    decreases n
  {
    if n < 10 then [DigitChar(n)] else Digits(n / 10) + [DigitChar(n % 10)]
  }

  /** str(n): a minus sign for negative numbers, then the digits. */
  function FormatInt(n: int): string {
    if n < 0 then "-" + Digits(-n) else Digits(n)
  }

  lemma {:induction false} DigitsValue(n: nat)
    ensures IsNumeral(Digits(n)) && NumeralValue(Digits(n)) == n
    decreases n
  {
    var s := Digits(n);
    if n >= 10 {
      DigitsValue(n / 10);
      assert s[..|s| - 1] == Digits(n / 10);
    }
  }

  /** str(n) has no whitespace around it. */
  lemma FormatIntStripped(n: int)
    ensures IsStripped(FormatInt(n))
  {
    var d := Digits(if n < 0 then -n else n);
    assert !IsSpace(d[0]) && !IsSpace(d[|d| - 1]);
  }

  lemma ParseSignedFormat(n: int)
    ensures ParseSigned(FormatInt(n)) == Some(n)
  {
    var s := FormatInt(n);
    if n < 0 {
      DigitsValue(-n);
      assert s[1..] == Digits(-n);
    } else {
      DigitsValue(n);
    }
  }

  /** int(str(n)) == n: every integer reads back from its own decimal form. */
  lemma ParseIntFormat(n: int)
    ensures ParseInt(FormatInt(n)) == Some(n)
  {
    FormatIntStripped(n);
    StripStripped(FormatInt(n));
    ParseSignedFormat(n);
  }

  /** Blank input, the empty string included, is a ValueError. */
  lemma ParseIntBlank(s: string)
    requires forall i :: 0 <= i < |s| ==> IsSpace(s[i])
    ensures ParseInt(s) == None
  {
    StripEmpty(s);
  }

  /** Underscores between digits are skipped. */
  lemma ParseIntUnderscore()
    ensures ParseInt("1_024") == Some(1024)
  {
    StripStripped("1_024");
    assert "1_024"[..4] == "1_02";
    assert "1_02"[..3] == "1_0";
    assert "1_0"[..2] == "1_";
    assert "1_"[..1] == "1";
    assert "1"[..0] == "";
  }

  /** An underscore at the end, or two in a row, is a ValueError. */
  lemma ParseIntRejectsUnderscores()
    ensures ParseInt("12_") == None
    ensures ParseInt("1__0") == None
  {
    StripStripped("12_");
    StripStripped("1__0");
    assert "1__0"[1] == '_' && "1__0"[2] == '_';
  }

  // ---------------------------------------------------------------------
  // The chunk options in argv
  // ---------------------------------------------------------------------

  predicate StartsWith(s: string, prefix: string) {
    |prefix| <= |s| && s[..|prefix|] == prefix
  }

  /** arg.split("=")[1], or None for the IndexError when there is no '='. */
  function FlagValue(arg: string): Option<string> {
    var parts := Split(arg, '=');
    if |parts| > 1 then Some(parts[1]) else None
  }

  /** `split("=")[1]` exists exactly when the argument holds an '='. */
  lemma FlagValueExists(arg: string)
    ensures FlagValue(arg).Some? <==> '=' in arg
  {
    var parts := Split(arg, '=');
    if |parts| > 1 {
      assert arg == parts[0] + "=" + Join(parts[1..], "=");
      assert arg[|parts[0]|] == '=';
    }
  }

  /** int(arg.split("=")[1]), or None when either step raises. */
  function FlagInt(arg: string): Option<int> {
    match FlagValue(arg)
    case None => None
    case Some(v) => ParseInt(v)
  }

  /**
   * The value of one option after the argv loop has seen `args`: every
   * argument with the option's prefix whose value parses replaces the
   * previous value; the others leave it as it was.
   */
  function OptionValue(args: seq<string>, prefix: string, default: int): int
    decreases |args|
  {
    if args == [] then default
    else
      var prior := OptionValue(args[..|args| - 1], prefix, default);
      var arg := args[|args| - 1];
      if StartsWith(arg, prefix) then FlagInt(arg).GetOr(prior) else prior
  }

  /** No argument can carry both prefixes, so the `elif` decides nothing. */
  lemma PrefixesExclusive(arg: string)
    ensures !(StartsWith(arg, SizePrefix) && StartsWith(arg, OverlapPrefix))
  {
    if StartsWith(arg, SizePrefix) {
      assert arg[8] == arg[..|SizePrefix|][8] == 's';
    }
  }

  /**
   * Behind either prefix the value is the text up to the next '=' (or the
   * end), so the IndexError branch is never taken.
   */
  lemma FlagValueAfterPrefix(arg: string, prefix: string)
    requires prefix == SizePrefix || prefix == OverlapPrefix
    requires StartsWith(arg, prefix)
    ensures FlagValue(arg) == Some(Split(arg[|prefix|..], '=')[0])
  {
    var name := prefix[..|prefix| - 1];
    var rest := arg[|prefix|..];
    assert arg == name + ['='] + rest;
    assert '=' !in name;
    SplitAfterPart(name, '=', rest);
  }

  /** With no argument whose value parses, the option keeps its default. */
  lemma {:induction false} OptionDefault(args: seq<string>, prefix: string, default: int)
    requires forall i :: 0 <= i < |args| && StartsWith(args[i], prefix) ==> FlagInt(args[i]).None?
    ensures OptionValue(args, prefix, default) == default
    decreases |args|
  {
    if args != [] {
      var init := args[..|args| - 1];
      assert forall i :: 0 <= i < |init| ==> init[i] == args[i];
      OptionDefault(init, prefix, default);
    }
  }

  /** The last argument with the prefix whose value parses decides the option. */
  lemma {:induction false} LastParsableWins(args: seq<string>, prefix: string, default: int, i: nat)
    requires i < |args| && StartsWith(args[i], prefix) && FlagInt(args[i]).Some?
    requires forall j :: i < j < |args| && StartsWith(args[j], prefix) ==> FlagInt(args[j]).None?
    ensures OptionValue(args, prefix, default) == FlagInt(args[i]).value
    decreases |args|
  {
    var init := args[..|args| - 1];
    if i < |args| - 1 {
      assert forall j :: 0 <= j < |init| ==> init[j] == args[j];
      LastParsableWins(init, prefix, default, i);
    }
  }

  /** One more argument: the option after it, from the option before it. */
  lemma OptionValueSnoc(args: seq<string>, arg: string, prefix: string, default: int)
    ensures OptionValue(args + [arg], prefix, default) ==
      var prior := OptionValue(args, prefix, default);
      if StartsWith(arg, prefix) then FlagInt(arg).GetOr(prior) else prior
  {
    assert (args + [arg])[..|args|] == args;
  }

  /** An argument without the prefix does not change the option, wherever it stands. */
  lemma {:induction false} OptionIgnoresOthers(a: seq<string>, x: string, b: seq<string>, prefix: string, default: int)
    requires !StartsWith(x, prefix)
    ensures OptionValue(a + [x] + b, prefix, default) == OptionValue(a + b, prefix, default)
    decreases |b|
  {
    if b == [] {
      assert a + [x] + b == a + [x];
      assert a + b == a;
      OptionValueSnoc(a, x, prefix, default);
    } else {
      var b', y := b[..|b| - 1], b[|b| - 1];
      OptionIgnoresOthers(a, x, b', prefix, default);
      assert a + [x] + b == (a + [x] + b') + [y];
      assert a + b == (a + b') + [y];
      OptionValueSnoc(a + [x] + b', y, prefix, default);
      OptionValueSnoc(a + b', y, prefix, default);
    }
  }

  /**
   * The argv loop of `main`: starting from the defaults, each argument
   * with one of the two prefixes whose value parses sets that option.
   */
  method ParseChunkOptions(argv: seq<string>) returns (chunkSize: int, chunkOverlap: int)
    ensures chunkSize == OptionValue(argv, SizePrefix, DefaultChunkSize)
    ensures chunkOverlap == OptionValue(argv, OverlapPrefix, DefaultChunkOverlap)
  {
    chunkSize := DefaultChunkSize;
    chunkOverlap := DefaultChunkOverlap;
    for i := 0 to |argv|
      invariant chunkSize == OptionValue(argv[..i], SizePrefix, DefaultChunkSize)
      invariant chunkOverlap == OptionValue(argv[..i], OverlapPrefix, DefaultChunkOverlap)
    {
      var arg := argv[i];
      assert argv[..i + 1][..i] == argv[..i];
      if StartsWith(arg, SizePrefix) {
        PrefixesExclusive(arg);
        var value := FlagInt(arg);
        if value.Some? {
          chunkSize := value.value;
        }
      } else if StartsWith(arg, OverlapPrefix) {
        var value := FlagInt(arg);
        if value.Some? {
          chunkOverlap := value.value;
        }
      }
    }
    assert argv[..|argv|] == argv;
  }

  /** With no chunk option at all, the defaults 512 and 50 are used. */
  lemma DefaultsWithoutOptions(argv: seq<string>)
    requires forall i :: 0 <= i < |argv| ==> !StartsWith(argv[i], SizePrefix) && !StartsWith(argv[i], OverlapPrefix)
    ensures OptionValue(argv, SizePrefix, DefaultChunkSize) == 512
    ensures OptionValue(argv, OverlapPrefix, DefaultChunkOverlap) == 50
  {
    OptionDefault(argv, SizePrefix, DefaultChunkSize);
    OptionDefault(argv, OverlapPrefix, DefaultChunkOverlap);
  }

  /** An option written with str(n) behind its prefix reads back as n. */
  lemma FlagIntFormat(prefix: string, n: int)
    requires prefix == SizePrefix || prefix == OverlapPrefix
    ensures StartsWith(prefix + FormatInt(n), prefix)
    ensures FlagInt(prefix + FormatInt(n)) == Some(n)
  {
    var arg := prefix + FormatInt(n);
    assert arg[..|prefix|] == prefix;
    FlagValueAfterPrefix(arg, prefix);
    assert arg[|prefix|..] == FormatInt(n);
    assert '=' !in FormatInt(n) by {
      if n < 0 {
        assert FormatInt(n) == ['-'] + Digits(-n);
      }
    }
    SplitNoSeparator(FormatInt(n), '=');
    ParseIntFormat(n);
  }

  /**
   * No range check: any two integers, a negative size or an overlap larger
   * than the size among them, are taken as given.
   */
  lemma NoRangeCheck(size: int, overlap: int)
    ensures var argv := ["app.py", SizePrefix + FormatInt(size), OverlapPrefix + FormatInt(overlap)];
      OptionValue(argv, SizePrefix, DefaultChunkSize) == size &&
      OptionValue(argv, OverlapPrefix, DefaultChunkOverlap) == overlap
  {
    var argv := ["app.py", SizePrefix + FormatInt(size), OverlapPrefix + FormatInt(overlap)];
    FlagIntFormat(SizePrefix, size);
    FlagIntFormat(OverlapPrefix, overlap);
    PrefixesExclusive(argv[1]);
    PrefixesExclusive(argv[2]);
    LastParsableWins(argv, SizePrefix, DefaultChunkSize, 1);
    LastParsableWins(argv, OverlapPrefix, DefaultChunkOverlap, 2);
  }

  // ---------------------------------------------------------------------
  // The interactive loop
  // ---------------------------------------------------------------------

  const ExitWords: seq<string> := ["exit", "quit", "q"]

  function LowerAsciiString(s: string): (r: string)
    ensures |r| == |s|
    ensures forall i :: 0 <= i < |s| ==> r[i] == LowerAscii(s[i])
  {
    seq(|s|, i requires 0 <= i < |s| => LowerAscii(s[i]))
  }

  /**
   * `query.lower() in ["exit", "quit", "q"]`. Lower-casing only the ASCII
   * letters decides this exactly as str.lower() does: no other character
   * lower-cases to a string made of the letters of these words.
   */
  predicate IsExitCommand(s: string) {
    LowerAsciiString(s) in ExitWords
  }

  /** `c` is the lower-case ASCII letter `lower` or its upper-case form. */
  predicate EitherCase(c: char, lower: char) {
    c == lower || c as int == lower as int - 32
  }

  /** ASCII lower-casing maps exactly the two cases of a letter to that letter. */
  lemma LowerAsciiTo(c: char, lower: char)
    requires 'a' <= lower <= 'z'
    ensures LowerAscii(c) == lower <==> EitherCase(c, lower)
  {
  }

  /**
   * An input ends the loop exactly when it is `q`, `exit` or `quit` with
   * each letter in either case, and nothing more: so one or four
   * characters, no whitespace around it.
   */
  lemma ExitCommandSpelling(s: string)
    ensures IsExitCommand(s) <==>
      || (|s| == 1 && EitherCase(s[0], 'q'))
      || (|s| == 4 && EitherCase(s[0], 'e') && EitherCase(s[1], 'x') && EitherCase(s[2], 'i') && EitherCase(s[3], 't'))
      || (|s| == 4 && EitherCase(s[0], 'q') && EitherCase(s[1], 'u') && EitherCase(s[2], 'i') && EitherCase(s[3], 't'))
    ensures IsExitCommand(s) ==> |s| == 1 || |s| == 4
  {
    var r := LowerAsciiString(s);
    forall i, w | 0 <= i < |s| && |w| == |s| && w in ExitWords
      ensures r[i] == w[i] <==> EitherCase(s[i], w[i])
    {
      LowerAsciiTo(s[i], w[i]);
    }
    if |s| == 1 {
      assert IsExitCommand(s) <==> r == "q";
      assert r == "q" <==> r[0] == "q"[0];
    } else if |s| == 4 {
      assert r == "exit" <==> r[0] == 'e' && r[1] == 'x' && r[2] == 'i' && r[3] == 't';
      assert r == "quit" <==> r[0] == 'q' && r[1] == 'u' && r[2] == 'i' && r[3] == 't';
    }
  }

  lemma ExitCommandExamples()
    ensures IsExitCommand("Quit") && IsExitCommand("EXIT") && IsExitCommand("q")
    ensures !IsExitCommand("exit ") && !IsExitCommand("quits") && !IsExitCommand("")
  {
    assert LowerAsciiString("Quit") == "quit";
    assert LowerAsciiString("EXIT") == "exit";
    assert LowerAsciiString("q") == "q";
  }

  /** The inputs that are answered: those before the first exit word. */
  function QueriesBeforeExit(inputs: seq<string>): (qs: seq<string>)
    ensures |qs| <= |inputs| && qs == inputs[..|qs|]
    ensures forall i :: 0 <= i < |qs| ==> !IsExitCommand(qs[i])
    ensures |qs| < |inputs| ==> IsExitCommand(inputs[|qs|])
    decreases |inputs|
  {
    if inputs == [] then []
    else if IsExitCommand(inputs[0]) then []
    else
      var rest := QueriesBeforeExit(inputs[1..]);
      assert inputs[1..][..|rest|] == inputs[1..|rest| + 1];
      [inputs[0]] + rest
  }

  /**
   * interactive_mode: builds an index first when none is installed (and
   * gives up when that fails), then answers each input until an exit word.
   * `inputs` are the lines input() returns; the loop also stops when they
   * run out.
   */
  method InteractiveMode<Index, Engine>(service: RagService<Index, Engine>, inputs: seq<string>,
                                        loader: Loader, outcome: BuildOutcome)
    returns (answers: seq<Option<QueryResult>>, exited: bool)
    requires service.Valid()
    modifies service, service.processor
    ensures service.Valid()
    ensures old(service.processor.index).None? && !BuildSucceeds(loader, outcome) ==>
      answers == [] && !exited && service.processor.index.None?
    ensures old(service.processor.index).Some? ==> service.processor.index == old(service.processor.index)
    ensures old(service.processor.index).None? && BuildSucceeds(loader, outcome) ==>
      service.processor.index == Some(service.BuiltIndex(loader))
    ensures service.loadCalls == old(service.loadCalls)
    ensures service.buildCalls == old(service.buildCalls) + (if old(service.processor.index).None? then 1 else 0)
    ensures service.saved ==
      if old(service.processor.index).None? && Persists(loader, outcome)
      then old(service.saved) + [service.BuiltIndex(loader)] else old(service.saved)
    ensures old(service.processor.index).Some? || BuildSucceeds(loader, outcome) ==>
      && service.processor.index.Some?
      && |answers| == |QueriesBeforeExit(inputs)|
      && (exited <==> |QueriesBeforeExit(inputs)| < |inputs|)
      && forall i :: 0 <= i < |answers| ==>
           answers[i] == Some(ToResult(service.processor.ask(
             service.processor.asQueryEngine(service.processor.index.value), QueriesBeforeExit(inputs)[i])))
  {
    answers := [];
    exited := false;
    if service.processor.index.None? {
      var success := service.BuildIndex(loader, outcome);
      if !success {
        return;
      }
    }
    ghost var index := service.processor.index.value;
    ghost var qs := QueriesBeforeExit(inputs);
    ghost var saved, loadCalls, buildCalls := service.saved, service.loadCalls, service.buildCalls;
    var engineOf := service.processor.asQueryEngine;
    var ask := service.processor.ask;
    var i := 0;
    while i < |inputs|
      invariant i <= |qs|
      invariant service.Valid() && service.processor.index == Some(index)
      invariant service.saved == saved && service.loadCalls == loadCalls && service.buildCalls == buildCalls
      invariant |answers| == i
      invariant forall k :: 0 <= k < i ==> answers[k] == Some(ToResult(ask(engineOf(index), qs[k])))
      decreases |inputs| - i
    {
      var query := inputs[i];
      if IsExitCommand(query) {
        exited := true;
        break;
      }
      assert i < |qs| && qs[i] == query;
      var response := service.Query(query, None, loader, outcome);
      answers := answers + [response];
      i := i + 1;
    }
  }

  // ---------------------------------------------------------------------
  // The environment check
  // ---------------------------------------------------------------------

  const RequiredModels: seq<string> := [DefaultLlmModel, DefaultEmbeddingModel]

  /**
   * check_required_models: each required model with whether the server
   * lists it, in the order of the list.
   */
  function ModelStatus(required: seq<string>, available: set<string>): (status: seq<(string, bool)>)
    ensures |status| == |required|
    ensures forall i :: 0 <= i < |required| ==> status[i].0 == required[i]
  {
    seq(|required|, i requires 0 <= i < |required| => (required[i], required[i] in available))
  }

  function ModelNames(status: seq<(string, bool)>): (names: seq<string>)
    ensures |names| == |status|
    ensures forall i :: 0 <= i < |status| ==> names[i] == status[i].0
  {
    seq(|status|, i requires 0 <= i < |status| => status[i].0)
  }

  /**
   * missing_models: the models whose status is false, in the order of the
   * status entries.
   */
  function MissingModels(status: seq<(string, bool)>): (missing: seq<string>)
    ensures forall m :: m in missing <==> (m, false) in status
    ensures missing == [] <==> forall i :: 0 <= i < |status| ==> status[i].1
    decreases |status|
  {
    if status == [] then []
    else
      var rest := MissingModels(status[1..]);
      assert status == [status[0]] + status[1..];
      if !status[0].1 then [status[0].0] + rest else rest
  }

  /** The missing models keep the order of the status entries. */
  lemma {:induction false} MissingModelsInOrder(status: seq<(string, bool)>)
    ensures IsSubsequence(MissingModels(status), ModelNames(status))
    decreases |status|
  {
    if status != [] {
      MissingModelsInOrder(status[1..]);
      var names := ModelNames(status);
      assert names[1..] == ModelNames(status[1..]);
      var rest := MissingModels(status[1..]);
      if !status[0].1 {
        assert ([status[0].0] + rest)[1..] == rest;
      } else {
        SubsequenceCons(rest, names[0], names[1..]);
        assert [names[0]] + names[1..] == names;
      }
    }
  }

  /** check_environment: the server must run and no required model may be missing. */
  function CheckEnvironment(running: bool, status: seq<(string, bool)>): (ok: bool)
    ensures ok <==> running && forall i :: 0 <= i < |status| ==> status[i].1
  {
    if !running then false
    else MissingModels(status) == []
  }

  /** For the status of the two required models the check passes exactly when both are available. */
  lemma CheckEnvironmentRequired(running: bool, available: set<string>)
    ensures CheckEnvironment(running, ModelStatus(RequiredModels, available)) <==>
      running && DefaultLlmModel in available && DefaultEmbeddingModel in available
  {
    var status := ModelStatus(RequiredModels, available);
    assert status[0] == (DefaultLlmModel, DefaultLlmModel in available);
    assert status[1] == (DefaultEmbeddingModel, DefaultEmbeddingModel in available);
  }

  // ---------------------------------------------------------------------
  // main
  // ---------------------------------------------------------------------

  /** Where `main` ends up, with the chunk options it parsed. */
  datatype MainOutcome =
    | ShowsStatus
    | EnvironmentFails
    | RaisesAttributeError(chunkSize: int, chunkOverlap: int)
    | BuildsIndex(chunkSize: int, chunkOverlap: int)
    | RunsInteractive(chunkSize: int, chunkOverlap: int)

  /**
   * `main` as written: after the status command and the environment check,
   * the options are parsed and the service is created, and then the call of
   * `analyze_layouts`, which RAGService does not define, raises.
   */
  function MainAsWritten(argv: seq<string>, running: bool, status: seq<(string, bool)>): MainOutcome {
    if |argv| > 1 && argv[1] == "status" then ShowsStatus
    else if !CheckEnvironment(running, status) then EnvironmentFails
    else
      RaisesAttributeError(OptionValue(argv, SizePrefix, DefaultChunkSize),
                           OptionValue(argv, OverlapPrefix, DefaultChunkOverlap))
  }

  /** `main` as written never reaches the index build or the interactive loop. */
  lemma MainAsWrittenNeverDispatches(argv: seq<string>, running: bool, status: seq<(string, bool)>)
    ensures !MainAsWritten(argv, running, status).BuildsIndex?
    ensures !MainAsWritten(argv, running, status).RunsInteractive?
    ensures CheckEnvironment(running, status) && !(|argv| > 1 && argv[1] == "status") ==>
      MainAsWritten(argv, running, status).RaisesAttributeError?
  {
  }

  /** `python app.py index` with a working environment raises instead of building. */
  lemma IndexCommandRaises()
    ensures MainAsWritten(["app.py", "index"], true, [(DefaultLlmModel, true), (DefaultEmbeddingModel, true)]) ==
      RaisesAttributeError(512, 50)
  {
    var argv := ["app.py", "index"];
    assert !StartsWith(argv[0], SizePrefix) && !StartsWith(argv[0], OverlapPrefix);
    assert !StartsWith(argv[1], SizePrefix) && !StartsWith(argv[1], OverlapPrefix);
    DefaultsWithoutOptions(argv);
  }

  /** `main` without the missing layout step: the command "index" builds, anything else goes interactive. */
  function MainIntended(argv: seq<string>, running: bool, status: seq<(string, bool)>): (r: MainOutcome)
    ensures !r.RaisesAttributeError?
  {
    if |argv| > 1 && argv[1] == "status" then ShowsStatus
    else if !CheckEnvironment(running, status) then EnvironmentFails
    else
      var chunkSize := OptionValue(argv, SizePrefix, DefaultChunkSize);
      var chunkOverlap := OptionValue(argv, OverlapPrefix, DefaultChunkOverlap);
      if |argv| > 1 && argv[1] == "index" then BuildsIndex(chunkSize, chunkOverlap)
      else RunsInteractive(chunkSize, chunkOverlap)
  }

  /**
   * With a passing environment check, the intended `main` builds the index
   * exactly for the command "index" and otherwise runs the interactive loop,
   * with the options parsed from argv; the status command needs no check.
   */
  lemma MainIntendedDispatch(argv: seq<string>, running: bool, status: seq<(string, bool)>)
    ensures var r := MainIntended(argv, running, status);
      && (r.ShowsStatus? <==> |argv| > 1 && argv[1] == "status")
      && (r.EnvironmentFails? <==> !(|argv| > 1 && argv[1] == "status") && !CheckEnvironment(running, status))
      && (r.BuildsIndex? <==> CheckEnvironment(running, status) && |argv| > 1 && argv[1] == "index")
      && (r.BuildsIndex? || r.RunsInteractive? ==>
            r.chunkSize == OptionValue(argv, SizePrefix, DefaultChunkSize) &&
            r.chunkOverlap == OptionValue(argv, OverlapPrefix, DefaultChunkOverlap))
  {
  }

  /** Where the two differ, the intended `main` runs and the written one raises with the same options. */
  lemma MainDiscrepancy(argv: seq<string>, running: bool, status: seq<(string, bool)>)
    requires MainIntended(argv, running, status) != MainAsWritten(argv, running, status)
    ensures var r := MainIntended(argv, running, status);
      (r.BuildsIndex? || r.RunsInteractive?) &&
      MainAsWritten(argv, running, status) == RaisesAttributeError(r.chunkSize, r.chunkOverlap)
  {
  }
}
