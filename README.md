# autoui — a verified model of the documentation pass and the launcher

autoui turns ordinary Python functions into user interfaces. A caller hands
`launch` a dictionary of named functions. Each function's Google-style
docstring is read by `parse_function_doc`. That pass checks the documented
parameters against the signature. It also reads two directives out of each
parameter description:

- `::type W endtype::` names the widget;
- `::values a;b endvalues::` lists the choices of a select widget.

The launcher then registers one argparse sub-command per mode and per
program. A `cli` program takes its required parameters as positional
arguments and its optional ones as `-flag` options. A `json` program takes
the path of a JSON file. Once the command line is parsed, the launcher
dispatches to the selected mode. The web interface's log handler forwards
records to the page. It is attached to a logger at most once per handler
class.

The model is written in Dafny, one module per concern:

- `Text`: the Python string operations the model needs: literal search,
  `in` on strings and `split` for the documentation pass, and `replace`
  for the flag name the launcher builds.
- `Directives`: the three regular expressions written out as explicit
  searches. `re.search` is modelled as the preferred match in backtracking
  order, and `re.sub` as Python's left-to-right removal of every match.
- `DocFunction`: `parse_function_doc`. A loop method is proved equal to a
  specification function, and lemmas state what that function promises.
- `Launcher`: `_pop_namespace_item`, the argument and sub-command loops of
  `cli_launcher` and `json_launcher`, the JSON filter, and the documentation
  and mode loops and the dispatch of `launch`.
- `WebLogger`: `LogHandlerWeb.add_to_logger` as a method of the handler
  that takes the logger and updates the logger's handler list, and `emit`.

Some behaviours are proved that the code has but its documentation does not
state:

- `input_type in ("select")` tests whether the widget name is a substring
  of `"select"`, because `("select")` is a string and not a tuple. So `sel`
  and the empty string count as select, while `multiselect` does not. The
  model follows the code here.
- The widget regex's group is greedy, so `re.sub` removes exactly the match
  `re.search` reports. Afterwards no widget directive is left in the
  description.
- An entry repeated after the complete, correctly ordered list of
  documented parameters is refused, but the error message's three
  diagnostic lists are then all empty. With distinct names on both sides,
  at least one list is non-empty.
- Flags are formed as `-` plus the name with `_` replaced by `-`. argparse
  turns such a flag back into the parameter's own name, except when the
  name starts with `_`: `_x` becomes `--x`, which is stored as `x`.

## Model

| member | source | states |
|---|---|---|
| Text.ReplaceChar | autoui/launcher.py:63 | `s.replace(a, b)` keeps the length; every `a` becomes `b` and every other character is kept |
| Text.Split | autoui/lib/doc_function.py:51 | `values.split(";")`: one piece more than there are separators; no piece holds the separator |
| Text.JoinSplit | autoui/lib/doc_function.py:51 | joining the split pieces with the separator gives back the captured text |
| Text.SplitJoin | autoui/lib/doc_function.py:51 | splitting a join of separator-free pieces gives back the pieces |
| Directives.MatchAt | autoui/lib/doc_function.py:31-32 | the match of ` *::type (.+) endtype:: *` starting at one index is the one preferred in backtracking order (longest group, then longest trailing blanks); none means no match starts there |
| Directives.FindFrom | autoui/lib/doc_function.py:39 | the leftmost, preferred match at or after an index, or none when every match starts before it |
| Directives.Search | autoui/lib/doc_function.py:39 | `re.search` finds a match exactly when one exists, and reports the one preferred over every other match |
| Directives.SearchFindsPreferred | autoui/lib/doc_function.py:39 | any match preferred over all others is the one `re.search` reports |
| Directives.SubRemovesFirstMatch | autoui/lib/doc_function.py:41 | `re.sub(reg, "", d)` leaves `d` unchanged without a match; otherwise it cuts out exactly the reported match |
| Directives.NoDirectiveLeft | autoui/lib/doc_function.py:41 | after `re.sub` no match of the same directive remains in the description |
| Directives.NoColonNoDirective | autoui/lib/doc_function.py:39 | a description without a colon holds no directive |
| Directives.StripDefaultsClause | autoui/lib/doc_function.py:35-36 | `base. Defaults to x.` becomes `base` whenever `base` holds no `. Defaults to ` of its own; earlier sentences of `base` are kept |
| Directives.StripDefaultsTwoSentences | autoui/lib/doc_function.py:35-36 | `Path. Must exist. Defaults to x.` becomes `Path. Must exist` |
| Directives.StripDefaultsIdempotent | autoui/lib/doc_function.py:36 | removing the default clause a second time removes nothing more |
| DocFunction.ArgNames | autoui/lib/doc_function.py:14 | the documented names, one per parameter, in order |
| DocFunction.NotIn | autoui/lib/doc_function.py:16-17 | the undocumented names and the excess names: a name is listed if and only if it is in the one list and absent from the other |
| DocFunction.NotInKeepsOrderAndCounts | autoui/lib/doc_function.py:16-17 | each listed name appears as often as in the list it comes from, and the listed names keep that list's order |
| DocFunction.Zip | autoui/lib/doc_function.py:20 | `zip` stops at the shorter list and pairs the elements position by position |
| DocFunction.InvalidOrder | autoui/lib/doc_function.py:18-22 | a pair is in the invalid-order list if and only if it is a pair of the zip whose two names differ |
| DocFunction.InvalidOrderInOrder | autoui/lib/doc_function.py:18-22 | the invalid-order list keeps the zip's order |
| DocFunction.InvalidOrderPositions | autoui/lib/doc_function.py:18-22 | a position where the two lists differ shows up as its pair in the invalid-order list |
| DocFunction.ParseFunctionDoc | autoui/lib/doc_function.py:11-54 | the comparison, then the per-parameter loop, compute the parse result (its properties are the lemmas below) |
| DocFunction.UpdateParam | autoui/lib/doc_function.py:34-53 | one iteration of the directive loop, statement by statement, gives the single-parameter result |
| DocFunction.MismatchIffNamesDiffer | autoui/lib/doc_function.py:15-28 | the mismatch error is raised if and only if the documented names differ from the signature's, in content or in order |
| DocFunction.MismatchIsReported | autoui/lib/doc_function.py:15-22 | with distinct names on both sides, a mismatch shows in at least one diagnostic list |
| DocFunction.RepeatedDocEntryReportsNothing | autoui/lib/doc_function.py:15-22 | an entry repeated after the complete, correctly ordered list of documented parameters is refused with three empty diagnostic lists |
| DocFunction.NotInCovered | autoui/lib/doc_function.py:16-17 | a list whose every name is in the other list leaves nothing undocumented or in excess |
| DocFunction.InvalidOrderOfPrefix | autoui/lib/doc_function.py:18-22 | a signature that is a prefix of the documented names shows no invalid-order pair |
| DocFunction.ProcessAllOk | autoui/lib/doc_function.py:34-53 | the loop succeeds if and only if every parameter does, and then yields one record per parameter in order |
| DocFunction.ProcessAllFirstError | autoui/lib/doc_function.py:34-48 | when the loop raises, it raises the error of the first parameter that fails |
| DocFunction.ParseKeepsParams | autoui/lib/doc_function.py:34-54 | on success the records keep count, order, names, optionality, type and default of the documented parameters |
| DocFunction.ProcessParamKeepsIdentity | autoui/lib/doc_function.py:34-53 | the directive pass changes neither name, optionality, type nor default of a parameter |
| DocFunction.ProcessAllFailsIff | autoui/lib/doc_function.py:34-48 | the directive loop raises if and only if one of its parameters fails |
| DocFunction.FailingParamFailsParse | autoui/lib/doc_function.py:43-48 | with matching names, a parameter that fails the directive pass makes parsing raise |
| DocFunction.ErrorNamesFirstFailingParam | autoui/lib/doc_function.py:43-48 | conversely, a parse that raises with matching names does so at a failing parameter, and the error names the first parameter that is select-like without a values directive |
| DocFunction.ProcessParamError | autoui/lib/doc_function.py:45-48 | the only error of the directive pass names its own parameter |
| DocFunction.DefaultWidget | autoui/lib/doc_function.py:38-53 | without a widget directive, the description is kept and the widget is `checkbox` for a `bool` parameter and `text` otherwise, with no choices |
| DocFunction.TypedWidget | autoui/lib/doc_function.py:39-43 | a widget directive gives the captured widget name; the directive is cut out and none is left; a widget that is not select-like takes no choices |
| DocFunction.SelectNeedsValues | autoui/lib/doc_function.py:43-48 | a select-like widget raises if and only if no values directive remains after the widget directive is cut |
| DocFunction.SelectWithValues | autoui/lib/doc_function.py:44-51 | the choices are the captured values cut at each `;`, joining back to that text; the values directive is cut out and none is left |
| DocFunction.SpliceLeavesWidgetDirective | autoui/lib/doc_function.py:39-51 | the description `::ty::values a endvalues::pe x endtype:: ::type sel endtype::` gives widget `sel`, choices `["a"]` and description `::type x endtype::`, in which a widget directive is still found |
| Directives.ReportedWhenTokensUnique | autoui/lib/doc_function.py:39 | a match whose opening token occurs only once, whose closing token is the last one and which takes every blank next to it is the match `re.search` reports |
| DocFunction.SelectLikeIsSubstring | autoui/lib/doc_function.py:43 | `in ("select")` accepts every substring of "select" (`sel`, `ect`, the empty name) and no longer name (`multiselect`) |
| Launcher.PopNamespaceItem | autoui/launcher.py:10-17 | returns the attribute's value, or None when it is absent, and removes only that attribute |
| Launcher.FlagName | autoui/launcher.py:63 | the flag is a dash followed by the name with each underscore turned into a dash |
| Launcher.AddArguments | autoui/launcher.py:57-78 | one argument per documented parameter, in order, as the per-parameter rule gives it |
| Launcher.PositionalsAreRequiredParams | autoui/launcher.py:58-61 | the positional arguments are exactly the required parameters, in signature order |
| Launcher.OptionalArgument | autoui/launcher.py:62-78 | an optional parameter becomes a flag; a `bool` defaulting to `True`/`False` becomes a switch whose absence gives the default and whose presence its negation; any other is stored with its default |
| Launcher.FlagDestRoundTrip | autoui/launcher.py:63 | argparse stores a flag under the parameter's own name when that name does not start with `_` |
| Launcher.LeadingUnderscoreIsLost | autoui/launcher.py:63 | a parameter `_x` gets the flag `--x`, which argparse stores as `x` |
| Launcher.CliLauncher | autoui/launcher.py:46-78 | a `cli` mode with one sub-command per program, in order, each with the program's long description and its arguments; a KeyError for the first undocumented program |
| Launcher.JsonLauncher | autoui/launcher.py:92-107 | a `json` mode with one sub-command per program, each taking only `json_path`; a KeyError for the first undocumented program |
| Launcher.FilterEmpty | autoui/launcher.py:114 | keeps exactly the entries whose value is not the empty string, in order |
| Launcher.FilterEmptyIdempotent | autoui/launcher.py:114 | filtering again removes nothing more |
| Launcher.FilterEmptyKeepsKeysDistinct | autoui/launcher.py:114 | the filtered arguments still have distinct keys |
| Launcher.JsonEmptyStringExample | autoui/launcher.py:114 | `{"a": "hello", "b": "", "c": false}` passes `a` and `c` only |
| Launcher.ParseProgramDoc | autoui/launcher.py:164 | one program's docstring record, built from the parsed parameters, or the error `parse_function_doc` raises |
| Launcher.CollectDocs | autoui/launcher.py:162-164 | the loop stores each program's parsed documentation under its name, in order, and stops at the first error (its properties are the two lemmas below) |
| Launcher.CollectAllFirstError | autoui/launcher.py:162-164 | the documentation is collected if and only if every program's documentation parses; otherwise the error is that of the first program that fails |
| Launcher.CollectAllKeys | autoui/launcher.py:162-164 | with distinct program names, the collected dictionary holds exactly the programs' names, each with its own program's documentation |
| Launcher.BuildModeTable | autoui/launcher.py:166-173 | the mode loops build the name-to-callback table |
| Launcher.LastRegistrationWins | autoui/launcher.py:166-173 | a name is in the table if and only if some mode registered it, and it holds the callback of the last such mode |
| Launcher.DispatchSpec | autoui/launcher.py:175-190 | each outcome together with exactly the condition it happens under: a non-string mode raises; an interactive mode runs whatever the program name is; otherwise a non-string program name raises; a target mode with a known program runs it with every other attribute, never `mode_name` or `program_name`; with an unknown program it raises a KeyError naming it; an unknown mode runs nothing |
| Launcher.Dispatch | autoui/launcher.py:175-190 | pops `mode_name`, then `program_name` only when the mode is a string, and dispatches as specified |
| Launcher.TestParamsParsed | test.py:10-18 | `test_params(a: str, b: bool = True)` parses to a text field `a` and a checkbox `b` |
| Launcher.TestParamsArguments | test.py:10-18 | `a` is positional and `-b` is a switch that stores `False` when given and `True` otherwise |
| Launcher.PlainParam | autoui/lib/doc_function.py:52-53 | a description without a colon, with `remove_default_text` off, keeps its text and gets the default widget (`checkbox` for `bool`, `text` otherwise, no choices) |
| WebLogger.Handler.AddToLogger | autoui/lib/web_logger.py:15-22 | the logger's handlers become the old ones plus this handler, unless one of its class is already there |
| WebLogger.AttachAppends | autoui/lib/web_logger.py:15-22 | attaching only appends, at most one handler; afterwards a handler of the class is present; nothing changes if and only if one already was |
| WebLogger.AttachIdempotent | autoui/lib/web_logger.py:15-22 | attaching twice is attaching once |
| WebLogger.OneHandlerPerClass | autoui/lib/web_logger.py:15-22 | after any number of attaches of one class, a logger that had at most one handler of it has exactly one, and no other class changes |
| WebLogger.Emit | autoui/lib/web_logger.py:10-13 | the event carries the record's time, level name and message, and is an error if and only if the level is at least ERROR (40) |
| WebLogger.ErrorLevels | autoui/lib/web_logger.py:12 | ERROR and CRITICAL are errors, WARNING, INFO and DEBUG are not, and a higher level is never less of an error |

## Left out

- The Google docstring parser (`docstring_parser.parse`) and `inspect.getfullargspec` are third-party and runtime introspection. Their results enter the model as the documented parameter records and the signature's names.
- `eval(param.default)` is left out because it evaluates arbitrary Python. A stored flag keeps the default's source text.
- argparse's own parsing and help output are library internals. Sub-commands are modelled as the records they are registered with. argparse's rule for naming an option's attribute (`ArgparseDest`) and the value a `store_true`/`store_false` flag stores (`StoredBool`) are written out; nothing else of its parsing is.
- The JSON file is read with `json.loads`; that I/O is left out. The parsed object enters as key/value pairs. JSON floats are not modelled.
- Invoking the target functions and the callbacks' `program_function(**...)` calls run user code, so they are left out. Dispatch returns which callback runs and with what arguments.
- `gui_launcher` and its logger type check are left out because they lead into the web application (`start_web_app`, eel). web_launcher.py and utils.py (date formatting) are not part of this model.
- The parser description at launcher.py:153-158 is help text only.
- argparse errors raised while arguments and sub-commands are registered are not modelled. Launcher.AddArguments gives an optional parameter named `h` the flag `-h`. argparse refuses that flag because it clashes with its own `-h/--help`. From Python 3.11 on, argparse also refuses a repeated sub-command name, so the case that Launcher.LastRegistrationWins describes at launcher.py:166-173 arises only on earlier versions.
- Descriptions are taken to hold no line break, so `.` matches every character and `$` is the end of the text.
- A description that is `None` is not modelled, since the regular expressions would raise a TypeError on it.
- DocFunction.ParseFunctionDoc: the per-parameter attributes are not set in place on the parser's objects. The loop builds new records instead. The records a failed pass had already updated are never returned, so nothing observable is lost.
- DocFunction.SelectWithValues: the cut of the values directive can in contrived text splice a new widget directive together, as DocFunction.SpliceLeavesWidgetDirective shows for one description, so no statement is made about widget directives after that cut.
