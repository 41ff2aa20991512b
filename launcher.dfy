/** The launcher (autoui/launcher.py): it collects the documentation of every
    exposed function, registers one argparse sub-command per mode and per
    program, and dispatches the parsed command line to a mode's callback.

    argparse itself is not modelled: a registration is the sub-command
    record it would be given, and the parsed command line comes in as the
    namespace's attributes. */
module Launcher {
  import opened Wrappers
  import opened Text
  import opened Directives
  import opened DocFunction

  /** A Python value as a target function receives it: from the command
      line, from a JSON file, or an argparse default. */
  datatype Value =
    | NoneValue
    | BoolValue(b: bool)
    | IntValue(i: int)
    | StrValue(s: string)
    | ListValue(items: seq<Value>)
    | DictValue(entries: seq<(string, Value)>)

  /** The `argparse.Namespace` that `parse_args` returns: its attribute dict. */
  class Namespace {
    var fields: map<string, Value>

    constructor (fields: map<string, Value>)
      ensures this.fields == fields
    {
      this.fields := fields;
    }
  }

  /** `_pop_namespace_item(obj, prop)`: remove the attribute and return its
      value, or `None` when there is no such attribute. */
  method PopNamespaceItem(ns: Namespace, prop: string) returns (value: Value)
    modifies ns
    ensures value == if prop in old(ns.fields) then old(ns.fields)[prop] else NoneValue
    ensures ns.fields == old(ns.fields) - {prop}
  {
    value := NoneValue;
    if prop in ns.fields {
      value := ns.fields[prop];
      ns.fields := ns.fields - {prop};
    }
  }

  // ---------------------------------------------------------------------
  // Command-line arguments of one program (cli_launcher)
  // ---------------------------------------------------------------------

  /** The `action` given to `add_argument`; `Store` keeps the default's
      source text, which the launcher hands to `eval`. */
  datatype Action = StoreTrue | StoreFalse | Store(default: Option<string>)

  /** One `add_argument` call. */
  datatype ArgumentSpec =
    | Positional(name: string, help: string)
    | OptionFlag(flag: string, action: Action, help: string)

  /** `f"-{arg_name.replace('_', '-')}"`. */
  function FlagName(argName: string): (flag: string)
    ensures |flag| == |argName| + 1 && flag[0] == '-'
    ensures forall i :: 0 <= i < |argName| ==> flag[i + 1] == (if argName[i] == '_' then '-' else argName[i])
  {
    "-" + ReplaceChar(argName, '_', '-')
  }

  /** The argument registered for one documented parameter. */
  function ArgumentFor(p: Param): ArgumentSpec
  {
    if !p.isOptional then Positional(p.argName, p.description)
    else if p.typeName == Some("bool") && p.default == Some("False") then
      OptionFlag(FlagName(p.argName), StoreTrue, p.description)
    else if p.typeName == Some("bool") && p.default == Some("True") then
      OptionFlag(FlagName(p.argName), StoreFalse, p.description)
    else OptionFlag(FlagName(p.argName), Store(p.default), p.description)
  }

  /** `specs` are the arguments registered for `params`, one each, in order. */
  predicate ArgumentsMatch(params: seq<Param>, specs: seq<ArgumentSpec>)
  {
    |specs| == |params| && forall i :: 0 <= i < |params| ==> specs[i] == ArgumentFor(params[i])
  }

  /** The inner loop of `cli_launcher` over one program's parameters. */
  method AddArguments(params: seq<Param>) returns (specs: seq<ArgumentSpec>)
    ensures ArgumentsMatch(params, specs)
  {
    specs := [];
    for i := 0 to |params|
      invariant ArgumentsMatch(params[..i], specs)
    {
      var param := params[i];
      var spec: ArgumentSpec;
      if !param.isOptional {
        spec := Positional(param.argName, param.description);
      } else {
        var argNameOpt := "-" + ReplaceChar(param.argName, '_', '-');
        if param.typeName == Some("bool") && param.default == Some("False") {
          spec := OptionFlag(argNameOpt, StoreTrue, param.description);
        } else if param.typeName == Some("bool") && param.default == Some("True") {
          spec := OptionFlag(argNameOpt, StoreFalse, param.description);
        } else {
          spec := OptionFlag(argNameOpt, Store(param.default), param.description);
        }
      }
      specs := specs + [spec];
    }
  }

  /** Names of the positional arguments, in registration order. */
  function PositionalNames(specs: seq<ArgumentSpec>): seq<string>
  {
    if specs == [] then []
    else (if specs[0].Positional? then [specs[0].name] else []) + PositionalNames(specs[1..])
  }

  /** Names of the required parameters, in documentation order. */
  function RequiredNames(params: seq<Param>): seq<string>
  {
    if params == [] then []
    else (if params[0].isOptional then [] else [params[0].argName]) + RequiredNames(params[1..])
  }

  /** The command line takes the required parameters as positional
      arguments, in the order of the signature. */
  lemma {:induction false} PositionalsAreRequiredParams(params: seq<Param>, specs: seq<ArgumentSpec>)
    requires ArgumentsMatch(params, specs)
    ensures PositionalNames(specs) == RequiredNames(params)
  {
    if params != [] {
      assert ArgumentsMatch(params[1..], specs[1..]) by {
        forall i | 0 <= i < |params[1..]|
          ensures specs[1..][i] == ArgumentFor(params[1..][i])
        {
          assert specs[1..][i] == specs[i + 1];
        }
      }
      PositionalsAreRequiredParams(params[1..], specs[1..]);
    }
  }

  /** argparse's attribute name for an optional argument: the flag without
      its leading dashes, with every other dash made an underscore. */
  function ArgparseDest(flag: string): string
  {
    ReplaceChar(LStripDashes(flag), '-', '_')
  }

  /** `s.lstrip('-')`. */
  function LStripDashes(s: string): (r: string)
    ensures |r| <= |s| && r == s[|s| - |r|..]
    ensures r == [] || r[0] != '-'
    ensures forall i :: 0 <= i < |s| - |r| ==> s[i] == '-'
  {
    if s != [] && s[0] == '-' then LStripDashes(s[1..]) else s
  }

  /** An optional parameter whose name does not start with an underscore
      reaches the target under its own name: the flag's dashes become
      underscores again. */
  lemma {:induction false} FlagDestRoundTrip(argName: string)
    requires argName != [] && argName[0] != '_'
    requires '-' !in argName
    ensures ArgparseDest(FlagName(argName)) == argName
  {
    var flag := FlagName(argName);
    var stripped := LStripDashes(flag);
    assert flag[1] != '-';
    assert stripped == flag[1..];
    assert ReplaceChar(stripped, '-', '_') == argName by {
      forall i | 0 <= i < |argName|
        ensures ReplaceChar(stripped, '-', '_')[i] == argName[i]
      {
        assert stripped[i] == flag[i + 1];
      }
    }
  }

  /** A leading underscore is lost: `_x` is registered as `--x`, which
      argparse stores under `x`. */
  lemma LeadingUnderscoreIsLost()
    ensures FlagName("_x") == "--x"
    ensures ArgparseDest(FlagName("_x")) == "x"
  {
    var flag := FlagName("_x");
    assert flag[0] == '-' && flag[1] == '-' && flag[2] == 'x';
    assert flag == "--x";
    var r := LStripDashes(flag);
    assert flag[2] != '-';
    assert r == flag[2..];
  }

  /** What argparse stores for a `bool` flag, present or absent on the
      command line. */
  function StoredBool(action: Action, present: bool): Option<bool>
  {
    match action
    case StoreTrue => Some(present)
    case StoreFalse => Some(!present)
    case Store(_) => None
  }

  /** A `bool` parameter documented with a default of `True` or `False`
      becomes a switch: absent it gives the documented default, present
      its negation. Any other optional parameter is stored as given. */
  lemma OptionalArgument(p: Param)
    requires p.isOptional
    ensures ArgumentFor(p).OptionFlag? && ArgumentFor(p).flag == FlagName(p.argName)
    ensures p.typeName == Some("bool") && p.default in {Some("True"), Some("False")} ==>
      && StoredBool(ArgumentFor(p).action, false) == Some(p.default == Some("True"))
      && StoredBool(ArgumentFor(p).action, true) == Some(p.default == Some("False"))
    ensures !(p.typeName == Some("bool") && p.default in {Some("True"), Some("False")}) ==>
      ArgumentFor(p).action == Store(p.default)
  {
  }

  // ---------------------------------------------------------------------
  // Sub-commands per program (cli_launcher and json_launcher)
  // ---------------------------------------------------------------------

  /** The documentation of one exposed function once `parse_function_doc`
      has run on it. */
  datatype Docstring = Docstring(
    shortDescription: Option<string>,
    longDescription: Option<string>,
    params: seq<Param>)

  /** A sub-command under a mode: the program's name, its description and
      its arguments. */
  datatype SubCommand = SubCommand(name: string, description: Option<string>, arguments: seq<ArgumentSpec>)

  /** A mode's sub-command, with one sub-command per program under it. */
  datatype ModeCommand = ModeCommand(name: string, description: string, programs: seq<SubCommand>)

  const CliDescription: string := "command line interface"
  const JsonDescription: string := "pass arguments for the function using a json file"
  const JsonPathHelp: string :=
    "path of the json file with function arguments. file must be encoded using utf8 and using \\n as line ending"

  /** Every program has documentation, or `p` is the first that has none
      (the `KeyError` of `functions_doc[program]`). */
  predicate FirstUndocumented(programs: seq<string>, docs: map<string, Docstring>, p: string)
  {
    exists i :: 0 <= i < |programs| && programs[i] == p && p !in docs
      && forall k :: 0 <= k < i ==> programs[k] in docs
  }

  /** The `cli` sub-command of one program. */
  predicate IsCliCommand(program: string, doc: Docstring, cmd: SubCommand)
  {
    cmd.name == program && cmd.description == doc.longDescription && ArgumentsMatch(doc.params, cmd.arguments)
  }

  /** `cli_launcher`: a sub-command per program, taking its parameters. */
  method CliLauncher(programs: seq<string>, docs: map<string, Docstring>) returns (r: Result<ModeCommand, string>)
    ensures r.Ok? <==> forall i :: 0 <= i < |programs| ==> programs[i] in docs
    ensures r.Ok? ==>
      && r.value.name == "cli" && r.value.description == CliDescription
      && |r.value.programs| == |programs|
      && forall i :: 0 <= i < |programs| ==> IsCliCommand(programs[i], docs[programs[i]], r.value.programs[i])
    ensures r.Err? ==> FirstUndocumented(programs, docs, r.error)
  {
    var commands: seq<SubCommand> := [];
    for i := 0 to |programs|
      invariant |commands| == i
      invariant forall k :: 0 <= k < i ==> programs[k] in docs
      invariant forall k :: 0 <= k < i ==> IsCliCommand(programs[k], docs[programs[k]], commands[k])
    {
      var program := programs[i];
      if program !in docs {
        return Err(program);
      }
      var functionDoc := docs[program];
      var arguments := AddArguments(functionDoc.params);
      commands := commands + [SubCommand(program, functionDoc.longDescription, arguments)];
    }
    return Ok(ModeCommand("cli", CliDescription, commands));
  }

  /** The `json` sub-command of one program: a single `json_path` argument. */
  predicate IsJsonCommand(program: string, doc: Docstring, cmd: SubCommand)
  {
    cmd == SubCommand(program, doc.longDescription, [Positional("json_path", JsonPathHelp)])
  }

  /** `json_launcher`: a sub-command per program, taking the path of a JSON file. */
  method JsonLauncher(programs: seq<string>, docs: map<string, Docstring>) returns (r: Result<ModeCommand, string>)
    ensures r.Ok? <==> forall i :: 0 <= i < |programs| ==> programs[i] in docs
    ensures r.Ok? ==>
      && r.value.name == "json" && r.value.description == JsonDescription
      && |r.value.programs| == |programs|
      && forall i :: 0 <= i < |programs| ==> IsJsonCommand(programs[i], docs[programs[i]], r.value.programs[i])
    ensures r.Err? ==> FirstUndocumented(programs, docs, r.error)
  {
    var commands: seq<SubCommand> := [];
    for i := 0 to |programs|
      invariant |commands| == i
      invariant forall k :: 0 <= k < i ==> programs[k] in docs
      invariant forall k :: 0 <= k < i ==> IsJsonCommand(programs[k], docs[programs[k]], commands[k])
    {
      var program := programs[i];
      if program !in docs {
        return Err(program);
      }
      commands := commands + [SubCommand(program, docs[program].longDescription, [Positional("json_path", JsonPathHelp)])];
    }
    return Ok(ModeCommand("json", JsonDescription, commands));
  }

  // ---------------------------------------------------------------------
  // The JSON mode's arguments
  // ---------------------------------------------------------------------

  /** `{k: v for k, v in params.items() if v != ""}`: only an empty string
      is dropped; `None`, `False`, `0` and empty lists are kept. */
  function FilterEmpty(kvs: seq<(string, Value)>): (r: seq<(string, Value)>)
    ensures forall kv :: kv in r <==> kv in kvs && kv.1 != StrValue("")
    ensures IsSubsequence(r, kvs)
  {
    if kvs == [] then []
    else if kvs[0].1 == StrValue("") then
      var rest := FilterEmpty(kvs[1..]);
      SkipHead(rest, kvs);
      rest
    else [kvs[0]] + FilterEmpty(kvs[1..])
  }

  /** Filtering a second time drops nothing more. */
  lemma {:induction false} FilterEmptyIdempotent(kvs: seq<(string, Value)>)
    ensures FilterEmpty(FilterEmpty(kvs)) == FilterEmpty(kvs)
  {
    if kvs != [] {
      FilterEmptyIdempotent(kvs[1..]);
      if kvs[0].1 != StrValue("") {
        assert ([kvs[0]] + FilterEmpty(kvs[1..]))[1..] == FilterEmpty(kvs[1..]);
      }
    }
  }

  /** No key twice, as in a dict. */
  predicate DistinctKeys(kvs: seq<(string, Value)>)
  {
    forall i, j :: 0 <= i < j < |kvs| ==> kvs[i].0 != kvs[j].0
  }

  /** The keys of a JSON object stay distinct after filtering. */
  lemma {:induction false} FilterEmptyKeepsKeysDistinct(kvs: seq<(string, Value)>)
    requires DistinctKeys(kvs)
    ensures DistinctKeys(FilterEmpty(kvs))
  {
    if kvs != [] {
      var tail := kvs[1..];
      assert DistinctKeys(tail) by {
        forall i, j | 0 <= i < j < |tail|
          ensures tail[i].0 != tail[j].0
        {
          assert tail[i] == kvs[i + 1] && tail[j] == kvs[j + 1];
        }
      }
      FilterEmptyKeepsKeysDistinct(tail);
      var rest := FilterEmpty(tail);
      if kvs[0].1 != StrValue("") {
        forall j | 0 <= j < |rest|
          ensures kvs[0].0 != rest[j].0
        {
          assert rest[j] in tail;
          var k :| 0 <= k < |tail| && tail[k] == rest[j];
          assert kvs[k + 1] == tail[k];
        }
        var r := [kvs[0]] + rest;
        assert FilterEmpty(kvs) == r;
        assert DistinctKeys(rest);
        forall i, j | 0 <= i < j < |r|
          ensures r[i].0 != r[j].0
        {
          if i > 0 {
            assert r[i] == rest[i - 1] && r[j] == rest[j - 1];
            assert rest[i - 1].0 != rest[j - 1].0;
          } else {
            assert r[i] == kvs[0] && r[j] == rest[j - 1];
            assert kvs[0].0 != rest[j - 1].0;
          }
        }
        assert DistinctKeys(r);
      }
    }
  }

  // ---------------------------------------------------------------------
  // launch
  // ---------------------------------------------------------------------

  /** An exposed function: its signature's argument names and its parsed
      docstring before the directive pass. */
  datatype Program = Program(
    name: string,
    args: seq<string>,
    shortDescription: Option<string>,
    longDescription: Option<string>,
    params: seq<DocParam>)

  /** Dictionary keys: no name twice. */
  predicate DistinctNames(programs: seq<Program>)
  {
    forall i, j :: 0 <= i < j < |programs| ==> programs[i].name != programs[j].name
  }

  /** `parse_function_doc(program_func)` with the default `remove_default_text=False`. */
  function ParseProgram(p: Program): Result<Docstring, DocError>
  {
    match ParseSpec(p.args, p.params, false)
    case Ok(ps) => Ok(Docstring(p.shortDescription, p.longDescription, ps))
    case Err(e) => Err(e)
  }

  /** `functions_doc[program] = parse_function_doc(program_func)`. */
  method ParseProgramDoc(p: Program) returns (r: Result<Docstring, DocError>)
    ensures r == ParseProgram(p)
  {
    var parsed := ParseFunctionDoc(p.args, p.params, false);
    if parsed.Err? {
      return Err(parsed.error);
    }
    return Ok(Docstring(p.shortDescription, p.longDescription, parsed.value));
  }

  /** The documentation of every program in turn, each by `parse`, or the
      error of the first program `parse` refuses. */
  function CollectAll(programs: seq<Program>, parse: Program -> Result<Docstring, DocError>)
    : Result<map<string, Docstring>, DocError>
  {
    if programs == [] then Ok(map[])
    else
      var last := programs[|programs| - 1];
      match CollectAll(programs[..|programs| - 1], parse)
      case Err(e) => Err(e)
      case Ok(docs) =>
        match parse(last)
        case Err(e) => Err(e)
        case Ok(doc) => Ok(docs[last.name := doc])
  }

  /** The loop at launcher.py:162-164: the documentation of every program,
      or the first error `parse_function_doc` raises. */
  method CollectDocs(programs: seq<Program>) returns (r: Result<map<string, Docstring>, DocError>)
    ensures r == CollectAll(programs, ParseProgram)
  {
    var functionsDoc: map<string, Docstring> := map[];
    for i := 0 to |programs|
      invariant CollectAll(programs[..i], ParseProgram) == Ok(functionsDoc)
    {
      var program := programs[i];
      var parsed := ParseProgramDoc(program);
      if parsed.Err? {
        CollectAllStopsAt(programs, i, ParseProgram);
        return Err(parsed.error);
      }
      CollectAllExtend(programs, i, ParseProgram, functionsDoc);
      functionsDoc := functionsDoc[program.name := parsed.value];
    }
    assert programs[..|programs|] == programs;
    return Ok(functionsDoc);
  }

  lemma CollectAllExtend(programs: seq<Program>, i: nat, parse: Program -> Result<Docstring, DocError>,
                         docs: map<string, Docstring>)
    requires i < |programs|
    requires CollectAll(programs[..i], parse) == Ok(docs)
    requires parse(programs[i]).Ok?
    ensures CollectAll(programs[..i + 1], parse) == Ok(docs[programs[i].name := parse(programs[i]).value])
  {
    assert programs[..i + 1][..i] == programs[..i];
  }

  lemma {:induction false} CollectAllStopsAt(programs: seq<Program>, i: nat, parse: Program -> Result<Docstring, DocError>)
    requires i < |programs|
    requires CollectAll(programs[..i], parse).Ok?
    requires parse(programs[i]).Err?
    ensures CollectAll(programs, parse) == Err(parse(programs[i]).error)
    decreases |programs|
  {
    var init := programs[..|programs| - 1];
    if i == |programs| - 1 {
      assert init == programs[..i];
    } else {
      assert init[..i] == programs[..i];
      assert init[i] == programs[i];
      CollectAllStopsAt(init, i, parse);
    }
  }

  /** The documentation is collected exactly when every program's
      documentation parses; otherwise the first program that fails decides
      the error. */
  lemma {:induction false} CollectAllFirstError(programs: seq<Program>, parse: Program -> Result<Docstring, DocError>)
    ensures CollectAll(programs, parse).Ok? <==> forall i :: 0 <= i < |programs| ==> parse(programs[i]).Ok?
    ensures CollectAll(programs, parse).Err? ==>
      exists j :: 0 <= j < |programs| && parse(programs[j]) == Err(CollectAll(programs, parse).error)
                  && forall k :: 0 <= k < j ==> parse(programs[k]).Ok?
    decreases |programs|
  {
    if programs != [] {
      var n := |programs| - 1;
      var init := programs[..n];
      assert forall i :: 0 <= i < n ==> init[i] == programs[i];
      CollectAllFirstError(init, parse);
      if CollectAll(init, parse).Err? {
        var j :| 0 <= j < |init| && parse(init[j]) == Err(CollectAll(init, parse).error)
                 && forall k :: 0 <= k < j ==> parse(init[k]).Ok?;
        assert parse(programs[j]) == Err(CollectAll(programs, parse).error);
      } else if parse(programs[n]).Err? {
        assert parse(programs[n]) == Err(CollectAll(programs, parse).error);
      }
    }
  }

  /** With distinct program names, collected documentation holds every
      program under its own name with its own documentation, and nothing
      else. */
  lemma {:induction false} CollectAllKeys(programs: seq<Program>, parse: Program -> Result<Docstring, DocError>)
    requires DistinctNames(programs)
    requires CollectAll(programs, parse).Ok?
    ensures var docs := CollectAll(programs, parse).value;
      && (forall name :: name in docs <==> exists i :: 0 <= i < |programs| && programs[i].name == name)
      && forall i :: 0 <= i < |programs| ==> Ok(docs[programs[i].name]) == parse(programs[i])
    decreases |programs|
  {
    if programs != [] {
      var n := |programs| - 1;
      var init := programs[..n];
      assert forall i :: 0 <= i < n ==> init[i] == programs[i];
      assert DistinctNames(init);
      assert CollectAll(init, parse).Ok?;
      CollectAllKeys(init, parse);
      var docs := CollectAll(programs, parse).value;
      forall name
        ensures name in docs <==> exists i :: 0 <= i < |programs| && programs[i].name == name
      {
        if name in docs && name != programs[n].name {
          var i :| 0 <= i < |init| && init[i].name == name;
          assert programs[i].name == name;
        }
      }
    }
  }

  /** The dict a mode loop builds: each registration sets its name, so a
      later mode of the same name replaces an earlier one. */
  function ModeTable<C>(registrations: seq<(string, C)>): map<string, C>
  {
    if registrations == [] then map[]
    else
      var last := registrations[|registrations| - 1];
      ModeTable(registrations[..|registrations| - 1])[last.0 := last.1]
  }

  /** The loops at launcher.py:166-173, one per kind of mode. */
  method BuildModeTable<C>(registrations: seq<(string, C)>) returns (table: map<string, C>)
    ensures table == ModeTable(registrations)
  {
    table := map[];
    for i := 0 to |registrations|
      invariant table == ModeTable(registrations[..i])
    {
      var (modeName, callback) := registrations[i];
      assert registrations[..i + 1][..i] == registrations[..i];
      table := table[modeName := callback];
    }
    assert registrations[..|registrations|] == registrations;
  }

  /** A mode name is in the table exactly when some mode registered it, and
      it then holds the callback of the last mode that did. */
  lemma {:induction false} LastRegistrationWins<C>(registrations: seq<(string, C)>, name: string)
    ensures name in ModeTable(registrations) <==>
      exists i :: 0 <= i < |registrations| && registrations[i].0 == name
    ensures name in ModeTable(registrations) ==>
      exists i :: 0 <= i < |registrations| && registrations[i] == (name, ModeTable(registrations)[name])
        && forall j :: i < j < |registrations| ==> registrations[j].0 != name
    decreases |registrations|
  {
    if registrations != [] {
      var n := |registrations| - 1;
      var init := registrations[..n];
      LastRegistrationWins(init, name);
      if registrations[n].0 != name && name in ModeTable(init) {
        var i :| 0 <= i < |init| && init[i] == (name, ModeTable(init)[name])
          && forall j :: i < j < |init| ==> init[j].0 != name;
        assert registrations[i] == init[i];
      }
      if name !in ModeTable(init) {
        assert forall i :: 0 <= i < n ==> registrations[i] == init[i];
      }
    }
  }

  /** What `launch` does once the command line is parsed. */
  datatype Outcome<S, T> =
    | RunSelector(selector: S)
    | RunTarget(target: T, program: string, args: map<string, Value>)
    | ModeNameNotStr
    | ProgramNameNotStr
    | UnknownProgram(program: string)
    | NothingRun

  /** `obj.__dict__.get(prop)` as `_pop_namespace_item` reads it. */
  function Lookup(fields: map<string, Value>, prop: string): Value
  {
    if prop in fields then fields[prop] else NoneValue
  }

  /** The dispatch at launcher.py:175-190: a mode name that is not a string
      raises; an interactive mode runs without a program; otherwise a program
      name that is not a string raises, a target mode runs the named program
      with the remaining attributes or raises a KeyError for an unknown
      program, and an unknown mode does nothing. */
  function DispatchSpec<S, T>(fields: map<string, Value>, selectors: map<string, S>, targets: map<string, T>,
                              programs: set<string>): (o: Outcome<S, T>)
    ensures o.RunSelector? <==> Lookup(fields, "mode_name").StrValue? && Lookup(fields, "mode_name").s in selectors
    ensures o.RunSelector? ==> o.selector == selectors[Lookup(fields, "mode_name").s]
    ensures o.RunTarget? ==>
      && Lookup(fields, "mode_name").StrValue?
      && Lookup(fields, "mode_name").s !in selectors
      && Lookup(fields, "mode_name").s in targets
      && o.target == targets[Lookup(fields, "mode_name").s]
      && Lookup(fields, "program_name") == StrValue(o.program) && o.program in programs
      && "mode_name" !in o.args && "program_name" !in o.args
      && forall k :: k in fields && k != "mode_name" && k != "program_name" ==> k in o.args && o.args[k] == fields[k]
    ensures o.RunTarget? ==> forall k :: k in o.args ==> k in fields
    ensures o.RunTarget? <==>
      && Lookup(fields, "mode_name").StrValue? && Lookup(fields, "mode_name").s !in selectors
      && Lookup(fields, "program_name").StrValue?
      && Lookup(fields, "mode_name").s in targets && Lookup(fields, "program_name").s in programs
    ensures o.ModeNameNotStr? <==> !Lookup(fields, "mode_name").StrValue?
    ensures o.ProgramNameNotStr? <==>
      && Lookup(fields, "mode_name").StrValue? && Lookup(fields, "mode_name").s !in selectors
      && !Lookup(fields, "program_name").StrValue?
    ensures o.UnknownProgram? <==>
      && Lookup(fields, "mode_name").StrValue? && Lookup(fields, "mode_name").s !in selectors
      && Lookup(fields, "program_name").StrValue?
      && Lookup(fields, "mode_name").s in targets && Lookup(fields, "program_name").s !in programs
    ensures o.UnknownProgram? ==> Lookup(fields, "program_name") == StrValue(o.program)
    ensures o.NothingRun? <==>
      && Lookup(fields, "mode_name").StrValue? && Lookup(fields, "mode_name").s !in selectors
      && Lookup(fields, "program_name").StrValue? && Lookup(fields, "mode_name").s !in targets
  {
    var launchMode := Lookup(fields, "mode_name");
    var programName := Lookup(fields, "program_name");
    if !launchMode.StrValue? then ModeNameNotStr
    else if launchMode.s in selectors then RunSelector(selectors[launchMode.s])
    else if !programName.StrValue? then ProgramNameNotStr
    else if launchMode.s in targets then
      if programName.s in programs then RunTarget(targets[launchMode.s], programName.s, fields - {"mode_name", "program_name"})
      else UnknownProgram(programName.s)
    else NothingRun
  }

  /** `launch` after `parse_args`: pops the mode and program names off the
      namespace and picks the callback to run. */
  method Dispatch<S, T>(ns: Namespace, selectors: map<string, S>, targets: map<string, T>, programs: set<string>)
    returns (o: Outcome<S, T>)
    modifies ns
    ensures o == DispatchSpec(old(ns.fields), selectors, targets, programs)
    ensures ns.fields == if o.ModeNameNotStr? then old(ns.fields) - {"mode_name"}
                         else old(ns.fields) - {"mode_name", "program_name"}
  {
    var launchMode := PopNamespaceItem(ns, "mode_name");
    if !launchMode.StrValue? {
      return ModeNameNotStr;
    }
    var programName := PopNamespaceItem(ns, "program_name");
    if launchMode.s in selectors {
      return RunSelector(selectors[launchMode.s]);
    }
    if !programName.StrValue? {
      return ProgramNameNotStr;
    }
    if launchMode.s in targets {
      if programName.s !in programs {
        return UnknownProgram(programName.s);
      }
      return RunTarget(targets[launchMode.s], programName.s, ns.fields);
    }
    return NothingRun;
  }

  /** The example in test.py: `test_params(a: str, b: bool = True)`,
      documented as `a (str)` and `b (bool, optional)` with a default of
      `True`, gets a text field for `a` and a checkbox for `b` ... */
  lemma TestParamsParsed()
    ensures ParseSpec(["a", "b"], TestParamsDoc(), false) == Ok(TestParamsRecords())
  {
    var docs := TestParamsDoc();
    assert docs == [docs[0], docs[1]];
    PlainPair(["a", "b"], docs[0], docs[1]);
  }

  /** Two parameters without directives that match the signature give their
      plain records. */
  lemma PlainPair(args: seq<string>, x: DocParam, y: DocParam)
    requires args == [x.argName, y.argName]
    requires ':' !in x.description && ':' !in y.description
    ensures ParseSpec(args, [x, y], false) == Ok([PlainRecord(x, x.description), PlainRecord(y, y.description)])
  {
    PlainParam(x);
    PlainParam(y);
    ParseSpecPair(args, x, y, false);
  }

  /** Two documented parameters that match the signature and both pass the
      directive pass give the two records in order. */
  lemma ParseSpecPair(args: seq<string>, x: DocParam, y: DocParam, removeDefaultText: bool)
    requires args == [x.argName, y.argName]
    requires ProcessParam(x, removeDefaultText).Ok? && ProcessParam(y, removeDefaultText).Ok?
    ensures ParseSpec(args, [x, y], removeDefaultText)
      == Ok([ProcessParam(x, removeDefaultText).value, ProcessParam(y, removeDefaultText).value])
  {
    var step := p => ProcessParam(p, removeDefaultText);
    assert ArgNames([x, y]) == args;
    ParseSpecMatching(args, [x, y], removeDefaultText);
    ProcessAllPair(x, y, step);
  }

  /** A description without a colon, with `remove_default_text` off, keeps
      its text and gets the default widget. */
  lemma PlainParam(p: DocParam)
    requires ':' !in p.description
    ensures ProcessParam(p, false) == Ok(PlainRecord(p, p.description))
  {
    NoColonNoDirective(p.description, TypeDirective);
    DefaultWidget(p, false);
  }

  /** ... and is run as `cli test_params A [-b]`, where `-b` stores `False`. */
  lemma TestParamsArguments()
    ensures var ps := TestParamsRecords();
      && ArgumentFor(ps[0]) == Positional("a", "descr a")
      && ArgumentFor(ps[1]) == OptionFlag("-b", StoreFalse, "descr b. Defaults to True.")
      && StoredBool(ArgumentFor(ps[1]).action, false) == Some(true)
      && StoredBool(ArgumentFor(ps[1]).action, true) == Some(false)
  {
    assert FlagName("b") == "-b";
  }

  /** The records the directive pass makes of them. */
  function TestParamsRecords(): seq<Param>
  {
    [Param("a", "descr a", false, Some("str"), None, "text", None),
     Param("b", "descr b. Defaults to True.", true, Some("bool"), Some("True"), "checkbox", None)]
  }

  /** The parameters test.py documents for `test_params`. */
  function TestParamsDoc(): seq<DocParam>
  {
    [DocParam("a", "descr a", false, Some("str"), None),
     DocParam("b", "descr b. Defaults to True.", true, Some("bool"), Some("True"))]
  }

  /** A JSON file `{"a": "hello", "b": "", "c": false}` calls the target with
      `a` and `c` only. */
  lemma JsonEmptyStringExample()
    ensures FilterEmpty([("a", StrValue("hello")), ("b", StrValue("")), ("c", BoolValue(false))])
      == [("a", StrValue("hello")), ("c", BoolValue(false))]
  {
    var kvs := [("a", StrValue("hello")), ("b", StrValue("")), ("c", BoolValue(false))];
    assert kvs[1..][1..] == [("c", BoolValue(false))];
    assert FilterEmpty(kvs[1..][1..]) == [("c", BoolValue(false))];
  }

  lemma ProcessAllPair(x: DocParam, y: DocParam, step: DocParam -> Result<Param, DocError>)
    requires step(x).Ok? && step(y).Ok?
    ensures ProcessAll([x, y], step) == Ok([step(x).value, step(y).value])
  {
    var params := [x, y];
    assert params[..0] == [];
    ProcessAllExtend(params, 0, step, []);
    assert [] + [step(x).value] == [step(x).value];
    ProcessAllExtend(params, 1, step, [step(x).value]);
    assert [step(x).value] + [step(y).value] == [step(x).value, step(y).value];
    assert params[..2] == params;
  }
}
