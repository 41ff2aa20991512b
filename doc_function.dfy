/** `parse_function_doc` (autoui/lib/doc_function.py): check that a function's
    documented parameters are exactly its signature's, then read the widget
    and choice directives out of each parameter description.

    The docstring parser and `getfullargspec` are not modelled: their outputs
    come in as the signature's argument names and the documented parameter
    records. */
module DocFunction {
  import opened Wrappers
  import opened Text
  import opened Directives

  /** A parameter as the Google-style docstring parser reports it. */
  datatype DocParam = DocParam(
    argName: string,
    description: string,
    isOptional: bool,
    typeName: Option<string>,
    default: Option<string>)

  /** A parameter once the directive pass has run: the description without
      its directives, the widget (`input_type`) and the choices (`values`). */
  datatype Param = Param(
    argName: string,
    description: string,
    isOptional: bool,
    typeName: Option<string>,
    default: Option<string>,
    inputType: string,
    values: Option<seq<string>>)

  /** The two `ValueError`s `parse_function_doc` raises. */
  datatype DocError =
    | Mismatch(missing: seq<string>, excess: seq<string>, invalidOrder: seq<(string, string)>)
    | SelectWithoutValues(argName: string)

  /** `a` is `b` with some elements left out, the rest in their order. */
  predicate IsSubsequence<T(==)>(a: seq<T>, b: seq<T>)
  {
    if a == [] then true
    else if b == [] then false
    else if a[0] == b[0] then IsSubsequence(a[1..], b[1..])
    else IsSubsequence(a, b[1..])
  }

  /** The documented names, in documentation order. */
  function ArgNames(params: seq<DocParam>): (names: seq<string>)
    ensures |names| == |params|
    ensures forall i :: 0 <= i < |params| ==> names[i] == params[i].argName
  {
    if params == [] then [] else [params[0].argName] + ArgNames(params[1..])
  }

  /** `[x for x in xs if x not in ys]`: used for both the undocumented and the
      excess names. */
  function NotIn(xs: seq<string>, ys: seq<string>): (r: seq<string>)
    ensures forall x :: x in r <==> x in xs && x !in ys
  {
    if xs == [] then []
    else if xs[0] in ys then NotIn(xs[1..], ys)
    else [xs[0]] + NotIn(xs[1..], ys)
  }

  /** The comprehension keeps each kept name as often as the list holds it,
      and in the list's order. */
  lemma {:induction false} NotInKeepsOrderAndCounts(xs: seq<string>, ys: seq<string>)
    ensures forall x :: x !in ys ==> multiset(NotIn(xs, ys))[x] == multiset(xs)[x]
    ensures IsSubsequence(NotIn(xs, ys), xs)
  {
    if xs != [] {
      NotInKeepsOrderAndCounts(xs[1..], ys);
      assert xs == [xs[0]] + xs[1..];
      if xs[0] in ys {
        SkipHead(NotIn(xs[1..], ys), xs);
      }
    }
  }

  /** An element in front of the longer sequence changes nothing. */
  lemma SkipHead<T>(a: seq<T>, b: seq<T>)
    requires b != [] && IsSubsequence(a, b[1..])
    ensures IsSubsequence(a, b)
    decreases |b|, 1
  {
    if a != [] && a[0] == b[0] {
      DropFirst(a, b[1..]);
    }
  }

  /** Leaving out the first element keeps a subsequence. */
  lemma DropFirst<T>(a: seq<T>, c: seq<T>)
    requires a != [] && IsSubsequence(a, c)
    ensures IsSubsequence(a[1..], c)
    decreases |c|, 2
  {
    if a[0] == c[0] {
      if c[1..] != [] || a[1..] == [] {
        if a[1..] != [] {
          SkipHead(a[1..], c);
        }
      }
    } else {
      DropFirst(a, c[1..]);
      SkipHead(a[1..], c);
    }
  }

  /** `zip(xs, ys)`. */
  function Zip(xs: seq<string>, ys: seq<string>): (z: seq<(string, string)>)
    ensures |z| == if |xs| < |ys| then |xs| else |ys|
    ensures forall i :: 0 <= i < |z| ==> z[i] == (xs[i], ys[i])
  {
    if xs == [] || ys == [] then [] else [(xs[0], ys[0])] + Zip(xs[1..], ys[1..])
  }

  /** `[(actual, doc) for actual, doc in zip(actual, doc) if actual != doc]`. */
  function InvalidOrder(actual: seq<string>, doc: seq<string>): (r: seq<(string, string)>)
    ensures forall pr :: pr in r <==> pr in Zip(actual, doc) && pr.0 != pr.1
  {
    if actual == [] || doc == [] then []
    else
      var rest := InvalidOrder(actual[1..], doc[1..]);
      assert Zip(actual, doc) == [(actual[0], doc[0])] + Zip(actual[1..], doc[1..]);
      if actual[0] != doc[0] then [(actual[0], doc[0])] + rest
      else rest
  }

  /** The differing pairs are reported in the order of the zip. */
  lemma {:induction false} InvalidOrderInOrder(actual: seq<string>, doc: seq<string>)
    ensures IsSubsequence(InvalidOrder(actual, doc), Zip(actual, doc))
  {
    if actual != [] && doc != [] {
      InvalidOrderInOrder(actual[1..], doc[1..]);
      var z := Zip(actual, doc);
      assert z == [(actual[0], doc[0])] + Zip(actual[1..], doc[1..]);
      if actual[0] == doc[0] {
        SkipHead(InvalidOrder(actual[1..], doc[1..]), z);
      }
    }
  }

  /** The pair `(actual[i], doc[i])` is reported exactly where the two lists,
      both long enough, disagree at position `i`. */
  lemma {:induction false} InvalidOrderPositions(actual: seq<string>, doc: seq<string>, i: nat)
    requires i < |actual| && i < |doc|
    ensures actual[i] != doc[i] ==> (actual[i], doc[i]) in InvalidOrder(actual, doc)
    ensures forall pr :: pr in InvalidOrder(actual, doc) ==>
      exists j :: 0 <= j < |actual| && j < |doc| && pr == (actual[j], doc[j]) && actual[j] != doc[j]
  {
    var z := Zip(actual, doc);
    assert z[i] == (actual[i], doc[i]);
    forall pr | pr in InvalidOrder(actual, doc)
      ensures exists j :: 0 <= j < |actual| && j < |doc| && pr == (actual[j], doc[j]) && actual[j] != doc[j]
    {
      var j :| 0 <= j < |z| && z[j] == pr;
      assert pr == (actual[j], doc[j]);
    }
  }

  /** The description the directive search sees: with its trailing default
      clause cut off when `remove_default_text` is set, untouched otherwise. */
  function DirectiveInput(p: DocParam, removeDefaultText: bool): string
  {
    if removeDefaultText then StripDefaults(p.description) else p.description
  }

  /** The record of a parameter without a widget directive: the given
      description, a checkbox for a parameter documented as `bool`, a text
      field otherwise, and no choices. */
  function PlainRecord(p: DocParam, description: string): Param
  {
    Param(p.argName, description, p.isOptional, p.typeName, p.default,
          if p.typeName == Some("bool") then "checkbox" else "text", None)
  }

  /** The directive pass on one parameter, statement by statement as the
      loop body at doc_function.py:35-53 runs it. */
  function ProcessParam(p: DocParam, removeDefaultText: bool): Result<Param, DocError>
  {
    var d := DirectiveInput(p, removeDefaultText);
    match Search(d, TypeDirective)
    case None => Ok(PlainRecord(p, d))
    case Some(m) =>
      var d' := Sub(d, TypeDirective);
      var widget := d[m.groupStart..m.groupEnd];
      if !IsSubstring(widget, "select") then
        Ok(Param(p.argName, d', p.isOptional, p.typeName, p.default, widget, None))
      else match Search(d', ValuesDirective)
        case None => Err(SelectWithoutValues(p.argName))
        case Some(v) =>
          var choices := Split(d'[v.groupStart..v.groupEnd], ';');
          Ok(Param(p.argName, Sub(d', ValuesDirective), p.isOptional, p.typeName, p.default, widget, Some(choices)))
  }

  /** The loop over all parameters, each handled by `step`: the first
      parameter that raises stops it. */
  function ProcessAll(params: seq<DocParam>, step: DocParam -> Result<Param, DocError>): Result<seq<Param>, DocError>
  {
    if params == [] then Ok([])
    else match ProcessAll(params[..|params| - 1], step)
      case Err(e) => Err(e)
      case Ok(done) =>
        match step(params[|params| - 1])
        case Err(e) => Err(e)
        case Ok(q) => Ok(done + [q])
  }

  /** What `parse_function_doc` returns or raises, as one function of its inputs. */
  function ParseSpec(args: seq<string>, params: seq<DocParam>, removeDefaultText: bool): Result<seq<Param>, DocError>
  {
    var docArgs := ArgNames(params);
    if args != docArgs then
      Err(Mismatch(NotIn(args, docArgs), NotIn(docArgs, args), InvalidOrder(args, docArgs)))
    else ProcessAll(params, p => ProcessParam(p, removeDefaultText))
  }

  /** `parse_function_doc(function, remove_default_text)`, given the signature's
      argument names and the documented parameters. */
  method ParseFunctionDoc(args: seq<string>, params: seq<DocParam>, removeDefaultText: bool)
    returns (r: Result<seq<Param>, DocError>)
    ensures r == ParseSpec(args, params, removeDefaultText)
  {
    var docArgs := ArgNames(params);
    if args != docArgs {
      var missing := NotIn(args, docArgs);
      var excess := NotIn(docArgs, args);
      var orderCompare := InvalidOrder(args, docArgs);
      return Err(Mismatch(missing, excess, orderCompare));
    }
    ghost var step := p => ProcessParam(p, removeDefaultText);
    var done: seq<Param> := [];
    for i := 0 to |params|
      invariant ProcessAll(params[..i], step) == Ok(done)
    {
      var updated := UpdateParam(params[i], removeDefaultText);
      assert updated == step(params[i]);
      if updated.Err? {
        ProcessAllStopsAt(params, i, step);
        return Err(updated.error);
      }
      ProcessAllExtend(params, i, step, done);
      done := done + [updated.value];
    }
    assert params[..|params|] == params;
    return Ok(done);
  }

  /** The body of the loop at doc_function.py:34-53 for one parameter: the
      description, `values` and `input_type` are set step by step. */
  method UpdateParam(p: DocParam, removeDefaultText: bool) returns (r: Result<Param, DocError>)
    ensures r == ProcessParam(p, removeDefaultText)
  {
    var description := p.description;
    if removeDefaultText {
      description := StripDefaults(description);
    }
    var values: Option<seq<string>> := None;
    var inputType := "text";
    var typeSearch := Search(description, TypeDirective);
    if typeSearch.Some? {
      var searched := description;
      description := Sub(description, TypeDirective);
      inputType := searched[typeSearch.value.groupStart..typeSearch.value.groupEnd];
      if IsSubstring(inputType, "select") {
        var valuesSearch := Search(description, ValuesDirective);
        if valuesSearch.None? {
          return Err(SelectWithoutValues(p.argName));
        }
        var captured := description[valuesSearch.value.groupStart..valuesSearch.value.groupEnd];
        description := Sub(description, ValuesDirective);
        values := Some(Split(captured, ';'));
      }
    } else if p.typeName == Some("bool") {
      inputType := "checkbox";
    }
    return Ok(Param(p.argName, description, p.isOptional, p.typeName, p.default, inputType, values));
  }

  /** One more parameter handled without error extends the result by its record. */
  lemma ProcessAllExtend(params: seq<DocParam>, i: nat, step: DocParam -> Result<Param, DocError>, done: seq<Param>)
    requires i < |params|
    requires ProcessAll(params[..i], step) == Ok(done)
    requires step(params[i]).Ok?
    ensures ProcessAll(params[..i + 1], step) == Ok(done + [step(params[i]).value])
  {
    assert params[..i + 1][..i] == params[..i];
  }

  /** Once a parameter raises, the whole pass raises that error. */
  lemma {:induction false} ProcessAllStopsAt(params: seq<DocParam>, i: nat, step: DocParam -> Result<Param, DocError>)
    requires i < |params|
    requires ProcessAll(params[..i], step).Ok?
    requires step(params[i]).Err?
    ensures ProcessAll(params, step) == Err(step(params[i]).error)
    decreases |params|
  {
    var init := params[..|params| - 1];
    if i == |params| - 1 {
      assert init == params[..i];
    } else {
      assert init[..i] == params[..i];
      assert init[i] == params[i];
      ProcessAllStopsAt(init, i, step);
    }
  }

  /** The loop succeeds exactly when every parameter does, and then returns
      one record per parameter, in order. */
  lemma {:induction false} ProcessAllOk(params: seq<DocParam>, step: DocParam -> Result<Param, DocError>)
    ensures ProcessAll(params, step).Ok? <==> forall i :: 0 <= i < |params| ==> step(params[i]).Ok?
    ensures ProcessAll(params, step).Ok? ==>
      |ProcessAll(params, step).value| == |params| &&
      forall i :: 0 <= i < |params| ==> step(params[i]) == Ok(ProcessAll(params, step).value[i])
    decreases |params|
  {
    if params != [] {
      var init := params[..|params| - 1];
      ProcessAllOk(init, step);
      assert forall i :: 0 <= i < |init| ==> init[i] == params[i];
    }
  }

  /** When the loop raises, the error is the one of the first parameter that raises. */
  lemma {:induction false} ProcessAllFirstError(params: seq<DocParam>, step: DocParam -> Result<Param, DocError>)
    requires ProcessAll(params, step).Err?
    ensures exists j :: 0 <= j < |params| && step(params[j]) == Err(ProcessAll(params, step).error)
                         && forall k :: 0 <= k < j ==> step(params[k]).Ok?
    decreases |params|
  {
    var init := params[..|params| - 1];
    assert forall i :: 0 <= i < |init| ==> init[i] == params[i];
    if ProcessAll(init, step).Err? {
      ProcessAllFirstError(init, step);
      var j :| 0 <= j < |init| && step(init[j]) == Err(ProcessAll(init, step).error)
               && forall k :: 0 <= k < j ==> step(init[k]).Ok?;
      assert step(params[j]) == Err(ProcessAll(params, step).error);
    } else {
      ProcessAllOk(init, step);
      assert step(params[|params| - 1]) == Err(ProcessAll(params, step).error);
    }
  }

  /** The mismatch error is raised exactly when the documented names differ
      from the signature's, in content or in order; the directive pass never
      raises it. */
  lemma MismatchIffNamesDiffer(args: seq<string>, params: seq<DocParam>, removeDefaultText: bool)
    ensures ParseSpec(args, params, removeDefaultText).Err? && ParseSpec(args, params, removeDefaultText).error.Mismatch?
      <==> args != ArgNames(params)
  {
    if args == ArgNames(params) {
      var step := p => ProcessParam(p, removeDefaultText);
      assert ParseSpec(args, params, removeDefaultText) == ProcessAll(params, step);
      if ProcessAll(params, step).Err? {
        ProcessAllFirstError(params, step);
        var j :| 0 <= j < |params| && step(params[j]) == Err(ProcessAll(params, step).error)
                 && forall k :: 0 <= k < j ==> step(params[k]).Ok?;
        ProcessParamError(params[j], removeDefaultText);
      }
    }
  }

  /** On success every parameter keeps its place, its name, its optionality,
      its type and its default, and carries the record the directive pass
      made of it. */
  lemma ParseKeepsParams(args: seq<string>, params: seq<DocParam>, removeDefaultText: bool)
    requires ParseSpec(args, params, removeDefaultText).Ok?
    ensures args == ArgNames(params)
    ensures var ps := ParseSpec(args, params, removeDefaultText).value;
      && |ps| == |params|
      && forall i :: 0 <= i < |params| ==>
        && ps[i].argName == params[i].argName == args[i]
        && KeepsIdentity(params[i], ps[i])
        && ProcessParam(params[i], removeDefaultText) == Ok(ps[i])
  {
    var step := p => ProcessParam(p, removeDefaultText);
    ProcessAllOk(params, step);
    var ps := ParseSpec(args, params, removeDefaultText).value;
    forall i | 0 <= i < |params|
      ensures KeepsIdentity(params[i], ps[i])
    {
      ProcessParamKeepsIdentity(params[i], removeDefaultText);
    }
  }

  /** The record keeps the documented name, optionality, type and default. */
  predicate KeepsIdentity(p: DocParam, q: Param)
  {
    q.argName == p.argName && q.isOptional == p.isOptional
    && q.typeName == p.typeName && q.default == p.default
  }

  lemma ProcessParamKeepsIdentity(p: DocParam, removeDefaultText: bool)
    ensures ProcessParam(p, removeDefaultText).Ok? ==> KeepsIdentity(p, ProcessParam(p, removeDefaultText).value)
  {
    var d := DirectiveInput(p, removeDefaultText);
    var typeSearch := Search(d, TypeDirective);
    if typeSearch.Some? {
      var d' := Sub(d, TypeDirective);
      var widget := d[typeSearch.value.groupStart..typeSearch.value.groupEnd];
      if IsSubstring(widget, "select") {
        var valuesSearch := Search(d', ValuesDirective);
        if valuesSearch.Some? {
          var choices := Split(d'[valuesSearch.value.groupStart..valuesSearch.value.groupEnd], ';');
          assert ProcessParam(p, removeDefaultText) == Ok(Param(p.argName, Sub(d', ValuesDirective), p.isOptional, p.typeName, p.default, widget, Some(choices)));
        }
      }
    }
  }

  /** With matching names, one parameter that fails the directive pass (a
      select-like widget without a values directive) makes parsing fail;
      the lemma below states the converse. */
  lemma FailingParamFailsParse(args: seq<string>, params: seq<DocParam>, removeDefaultText: bool, i: nat)
    requires args == ArgNames(params)
    requires i < |params| && ProcessParam(params[i], removeDefaultText).Err?
    ensures ParseSpec(args, params, removeDefaultText).Err?
  {
    var step := p => ProcessParam(p, removeDefaultText);
    ParseSpecMatching(args, params, removeDefaultText);
    ProcessAllFailsIff(params, step);
    assert step(params[i]).Err?;
  }

  /** The loop fails exactly when one of its steps does. */
  lemma ProcessAllFailsIff(params: seq<DocParam>, step: DocParam -> Result<Param, DocError>)
    ensures ProcessAll(params, step).Err? <==> exists i :: 0 <= i < |params| && step(params[i]).Err?
  {
    if ProcessAll(params, step).Err? {
      ProcessAllFirstError(params, step);
    } else {
      ProcessAllOk(params, step);
    }
  }

  /** A parse that fails with matching names fails at some parameter, and
      its error names the first parameter that fails. */
  lemma ErrorNamesFirstFailingParam(args: seq<string>, params: seq<DocParam>, removeDefaultText: bool)
    requires args == ArgNames(params)
    requires ParseSpec(args, params, removeDefaultText).Err?
    ensures exists j :: (0 <= j < |params| && ProcessParam(params[j], removeDefaultText).Err?
      && ParseSpec(args, params, removeDefaultText) == Err(SelectWithoutValues(params[j].argName))
      && forall k :: 0 <= k < j ==> ProcessParam(params[k], removeDefaultText).Ok?)
  {
    ParseSpecMatching(args, params, removeDefaultText);
    DirectivePassNamesFirstError(params, removeDefaultText);
  }

  /** With matching names, parsing is the directive loop. */
  lemma ParseSpecMatching(args: seq<string>, params: seq<DocParam>, removeDefaultText: bool)
    requires args == ArgNames(params)
    ensures ParseSpec(args, params, removeDefaultText) == ProcessAll(params, p => ProcessParam(p, removeDefaultText))
  {
  }

  lemma DirectivePassNamesFirstError(params: seq<DocParam>, removeDefaultText: bool)
    requires ProcessAll(params, p => ProcessParam(p, removeDefaultText)).Err?
    ensures exists j :: (0 <= j < |params| && ProcessParam(params[j], removeDefaultText).Err?
      && ProcessAll(params, p => ProcessParam(p, removeDefaultText)) == Err(SelectWithoutValues(params[j].argName))
      && forall k :: 0 <= k < j ==> ProcessParam(params[k], removeDefaultText).Ok?)
  {
    var step := p => ProcessParam(p, removeDefaultText);
    forall i | 0 <= i < |params|
      ensures step(params[i]).Err? ==> step(params[i]).error == SelectWithoutValues(params[i].argName)
    {
      ProcessParamError(params[i], removeDefaultText);
    }
    ProcessAllNamesFirstError(params, step);
  }

  /** When every failing parameter reports its own name, the loop's error
      names the first parameter that fails. */
  lemma ProcessAllNamesFirstError(params: seq<DocParam>, step: DocParam -> Result<Param, DocError>)
    requires ProcessAll(params, step).Err?
    requires forall i :: 0 <= i < |params| ==>
      step(params[i]).Err? ==> step(params[i]).error == SelectWithoutValues(params[i].argName)
    ensures exists j :: (0 <= j < |params| && step(params[j]).Err?
      && ProcessAll(params, step) == Err(SelectWithoutValues(params[j].argName))
      && forall k :: 0 <= k < j ==> step(params[k]).Ok?)
  {
    ProcessAllFirstError(params, step);
    var j :| 0 <= j < |params| && step(params[j]) == Err(ProcessAll(params, step).error)
             && forall k :: 0 <= k < j ==> step(params[k]).Ok?;
  }

  /** The only error of the directive pass names the parameter it concerns. */
  lemma ProcessParamError(p: DocParam, removeDefaultText: bool)
    ensures ProcessParam(p, removeDefaultText).Err? ==>
      ProcessParam(p, removeDefaultText).error == SelectWithoutValues(p.argName)
  {
    var d := DirectiveInput(p, removeDefaultText);
    var typeSearch := Search(d, TypeDirective);
    if typeSearch.Some? {
      var d' := Sub(d, TypeDirective);
      var widget := d[typeSearch.value.groupStart..typeSearch.value.groupEnd];
      if IsSubstring(widget, "select") {
        var valuesSearch := Search(d', ValuesDirective);
        if valuesSearch.None? {
          assert ProcessParam(p, removeDefaultText) == Err(SelectWithoutValues(p.argName));
        }
      }
    }
  }

  /** With distinct names on both sides (Python signatures never repeat a
      name), a mismatch always shows in at least one diagnostic list. */
  lemma {:induction false} MismatchIsReported(args: seq<string>, docArgs: seq<string>)
    requires forall i, j :: 0 <= i < j < |args| ==> args[i] != args[j]
    requires forall i, j :: 0 <= i < j < |docArgs| ==> docArgs[i] != docArgs[j]
    requires args != docArgs
    ensures NotIn(args, docArgs) != [] || NotIn(docArgs, args) != [] || InvalidOrder(args, docArgs) != []
  {
    if exists i :: 0 <= i < |args| && i < |docArgs| && args[i] != docArgs[i] {
      var i :| 0 <= i < |args| && i < |docArgs| && args[i] != docArgs[i];
      InvalidOrderPositions(args, docArgs, i);
    } else if |args| < |docArgs| {
      var x := docArgs[|args|];
      assert x !in args by {
        forall k | 0 <= k < |args| ensures args[k] != x {
          assert args[k] == docArgs[k];
        }
      }
      assert x in NotIn(docArgs, args);
    } else {
      assert |docArgs| < |args|;
      var x := args[|docArgs|];
      assert x !in docArgs by {
        forall k | 0 <= k < |docArgs| ensures docArgs[k] != x {
          assert docArgs[k] == args[k];
        }
      }
      assert x in NotIn(args, docArgs);
    }
  }

  /** A parameter whose entry is repeated after the complete, correctly
      ordered list is refused, yet with a message whose three lists are all
      empty: no name is missing or in excess, and `zip` stops before the
      repeated entry. */
  lemma RepeatedDocEntryReportsNothing(ps: seq<DocParam>, p: DocParam, removeDefaultText: bool)
    requires p.argName in ArgNames(ps)
    ensures ParseSpec(ArgNames(ps), ps + [p], removeDefaultText) == Err(Mismatch([], [], []))
  {
    var args := ArgNames(ps);
    var docArgs := ArgNames(ps + [p]);
    assert docArgs == args + [p.argName];
    assert args != docArgs by { assert |args| != |docArgs|; }
    NotInCovered(args, docArgs);
    NotInCovered(docArgs, args);
    InvalidOrderOfPrefix(args, [p.argName]);
  }

  /** Nothing is left when every name of the first list is in the second. */
  lemma {:induction false} NotInCovered(xs: seq<string>, ys: seq<string>)
    requires forall x :: x in xs ==> x in ys
    ensures NotIn(xs, ys) == []
  {
    if xs != [] {
      assert xs[0] in xs;
      NotInCovered(xs[1..], ys);
    }
  }

  /** A list and a longer list that starts with it never differ at a zipped
      position. */
  lemma {:induction false} InvalidOrderOfPrefix(xs: seq<string>, ys: seq<string>)
    ensures InvalidOrder(xs, xs + ys) == []
  {
    if xs != [] {
      assert (xs + ys)[1..] == xs[1..] + ys;
      InvalidOrderOfPrefix(xs[1..], ys);
    }
  }

  /** Without a widget directive the description is kept and the widget is
      a checkbox for a parameter documented as `bool`, a text field otherwise. */
  lemma DefaultWidget(p: DocParam, removeDefaultText: bool)
    requires forall m :: !IsMatch(DirectiveInput(p, removeDefaultText), TypeDirective, m)
    ensures ProcessParam(p, removeDefaultText) == Ok(PlainRecord(p, DirectiveInput(p, removeDefaultText)))
  {
    assert Search(DirectiveInput(p, removeDefaultText), TypeDirective).None?;
  }

  /** A widget directive names the widget by its captured text and is cut out
      of the description, which then holds no widget directive; a widget that
      is not select-like takes no choices. */
  lemma TypedWidget(p: DocParam, removeDefaultText: bool, m: Match)
    requires IsReportedMatch(DirectiveInput(p, removeDefaultText), TypeDirective, m)
    requires var d := DirectiveInput(p, removeDefaultText);
      !IsSubstring(d[m.groupStart..m.groupEnd], "select")
    ensures var d := DirectiveInput(p, removeDefaultText);
      ProcessParam(p, removeDefaultText)
        == Ok(Param(p.argName, d[..m.start] + d[m.end..], p.isOptional, p.typeName, p.default,
                    d[m.groupStart..m.groupEnd], None))
    ensures Search(ProcessParam(p, removeDefaultText).value.description, TypeDirective).None?
  {
    var d := DirectiveInput(p, removeDefaultText);
    SearchFindsPreferred(d, TypeDirective, m);
    SubRemovesFirstMatch(d, TypeDirective);
    NoDirectiveLeft(d, TypeDirective);
    assert ProcessParam(p, removeDefaultText)
      == Ok(Param(p.argName, Sub(d, TypeDirective), p.isOptional, p.typeName, p.default,
                  d[m.groupStart..m.groupEnd], None));
  }

  /** A select-like widget without a values directive in what is left of the
      description raises, and only then. */
  lemma SelectNeedsValues(p: DocParam, removeDefaultText: bool, m: Match)
    requires IsReportedMatch(DirectiveInput(p, removeDefaultText), TypeDirective, m)
    requires var d := DirectiveInput(p, removeDefaultText);
      IsSubstring(d[m.groupStart..m.groupEnd], "select")
    ensures var d := DirectiveInput(p, removeDefaultText);
      ProcessParam(p, removeDefaultText).Err? <==>
        forall v :: !IsMatch(d[..m.start] + d[m.end..], ValuesDirective, v)
  {
    var d := DirectiveInput(p, removeDefaultText);
    SearchFindsPreferred(d, TypeDirective, m);
    SubRemovesFirstMatch(d, TypeDirective);
    var d' := Sub(d, TypeDirective);
    if Search(d', ValuesDirective).None? {
      assert ProcessParam(p, removeDefaultText) == Err(SelectWithoutValues(p.argName));
    } else {
      var v := Search(d', ValuesDirective).value;
      var choices := Split(d'[v.groupStart..v.groupEnd], ';');
      assert ProcessParam(p, removeDefaultText)
        == Ok(Param(p.argName, Sub(d', ValuesDirective), p.isOptional, p.typeName, p.default,
                    d[m.groupStart..m.groupEnd], Some(choices)));
    }
  }

  /** With a values directive the choices are its captured text cut at every
      `;` (joining them back gives that text), the directive is cut out of
      the description and no values directive is left in it. */
  lemma SelectWithValues(p: DocParam, removeDefaultText: bool, m: Match, v: Match)
    requires IsReportedMatch(DirectiveInput(p, removeDefaultText), TypeDirective, m)
    requires var d := DirectiveInput(p, removeDefaultText);
      IsSubstring(d[m.groupStart..m.groupEnd], "select")
    requires var d := DirectiveInput(p, removeDefaultText);
      IsReportedMatch(d[..m.start] + d[m.end..], ValuesDirective, v)
    ensures var d := DirectiveInput(p, removeDefaultText);
      var d' := d[..m.start] + d[m.end..];
      && ProcessParam(p, removeDefaultText).Ok?
      && var q := ProcessParam(p, removeDefaultText).value;
      && q.inputType == d[m.groupStart..m.groupEnd]
      && q.description == d'[..v.start] + d'[v.end..]
      && q.values.Some?
      && Join(q.values.value, ';') == d'[v.groupStart..v.groupEnd]
      && (forall i :: 0 <= i < |q.values.value| ==> ';' !in q.values.value[i])
      && Search(q.description, ValuesDirective).None?
  {
    var d := DirectiveInput(p, removeDefaultText);
    SearchFindsPreferred(d, TypeDirective, m);
    SubRemovesFirstMatch(d, TypeDirective);
    var d' := Sub(d, TypeDirective);
    SearchFindsPreferred(d', ValuesDirective, v);
    SubRemovesFirstMatch(d', ValuesDirective);
    NoDirectiveLeft(d', ValuesDirective);
    var captured := d'[v.groupStart..v.groupEnd];
    JoinSplit(captured, ';');
    assert ProcessParam(p, removeDefaultText)
      == Ok(Param(p.argName, Sub(d', ValuesDirective), p.isOptional, p.typeName, p.default,
                  d[m.groupStart..m.groupEnd], Some(Split(captured, ';'))));
  }

  /** `input_type in ("select")` tests for a substring of "select": a
      fragment of the word counts as select-like, a longer name holding it
      does not. */
  lemma SelectLikeIsSubstring()
    ensures IsSubstring("select", "select")
    ensures IsSubstring("sel", "select") && IsSubstring("ect", "select") && IsSubstring("", "select")
    ensures !IsSubstring("multiselect", "select") && !IsSubstring("selects", "select")
    ensures !IsSubstring("radio", "select")
  {
    assert IsAt("select", 0, "sel");
    assert IsAt("select", 3, "ect");
    assert IsAt("select", 0, "select");
    assert IsAt("select", 0, "");
    forall i | 0 <= i <= 1
      ensures !IsAt("select", i, "radio")
    {
      assert "select"[i] != 'r';
    }
  }

  /** Cutting the values directive out can join the text around it into a
      new widget directive, which then stays in the description. */
  lemma SpliceLeavesWidgetDirective()
    ensures var p := DocParam("c", SplicedWords + SelectTail, false, None, None);
      && ProcessParam(p, false).Ok?
      && ProcessParam(p, false).value.inputType == "sel"
      && ProcessParam(p, false).value.values == Some(["a"])
      && ProcessParam(p, false).value.description == "::type x endtype::"
      && Search("::type x endtype::", TypeDirective).Some?
  {
    SplicedParse();
    LeftoverIsWidgetDirective();
  }

  /** The directive pass on the spliced description, step by step. */
  lemma SplicedParse()
    ensures ProcessParam(DocParam("c", SplicedWords + SelectTail, false, None, None), false)
      == Ok(Param("c", "::type x endtype::", false, None, None, "sel", Some(["a"])))
  {
    var p := DocParam("c", SplicedWords + SelectTail, false, None, None);
    assert DirectiveInput(p, false) == SplicedWords + SelectTail;
    SplicedWidgetCut();
    assert IsSubstring("sel", "select") by {
      assert IsAt("select", 0, "sel");
    }
    SplicedValuesCut();
    SplitNoSeparator("a", ';');
  }

  /** The words left on both sides of the cut spell a widget directive. */
  lemma LeftoverJoins()
    ensures "::ty" + "pe x endtype::" == "::type x endtype::"
  {
  }

  /** ... which the widget pattern matches. */
  lemma LeftoverIsWidgetDirective()
    ensures Search("::type x endtype::", TypeDirective).Some?
  {
    var e := "::type " + "x" + " endtype::";
    IsAtEnd("", "::type ");
    IsAtExtend("" + "::type ", "x", 0, "::type ");
    IsAtExtend("" + "::type " + "x", " endtype::", 0, "::type ");
    IsAtEnd("::type " + "x", " endtype::");
    assert "" + "::type " == "::type ";
    assert IsMatch(e, TypeDirective, Match(0, 7, 8, 18));
    assert e == "::type x endtype::";
  }

  /** Words around a values directive that join into a widget directive
      once it is cut out. */
  const SplicedWords: string := "::ty" + "::values " + "a" + " endvalues::" + "pe x endtype::"

  /** The select-like widget directive that follows them. */
  const SelectTail: string := " " + "::type " + "sel" + " endtype::"

  /** The widget pass reports the trailing directive, captures `sel` and
      leaves the spliced words. */
  lemma SplicedWidgetCut()
    ensures var d := SplicedWords + SelectTail;
      && Search(d, TypeDirective) == Some(Match(40, 48, 51, 61))
      && Sub(d, TypeDirective) == SplicedWords
      && d[48..51] == "sel"
  {
    var d := SplicedWords + SelectTail;
    SplicedWidgetReported();
    SearchFindsPreferred(d, TypeDirective, Match(40, 48, 51, 61));
    SubRemovesFirstMatch(d, TypeDirective);
    TakeOfJoin(SplicedWords, SelectTail, 40);
    assert d[..40] + d[61..] == SplicedWords;
    IsAtEnd(" " + "::type ", "sel");
    IsAtExtend(" " + "::type " + "sel", " endtype::", 8, "sel");
    IsAtShift(SplicedWords, SelectTail, 8, "sel");
  }

  /** The values pass reports the directive inside the words, captures `a`
      and leaves a widget directive. */
  lemma SplicedValuesCut()
    ensures var d := SplicedWords;
      && Search(d, ValuesDirective) == Some(Match(4, 13, 14, 26))
      && Sub(d, ValuesDirective) == "::type x endtype::"
      && d[13..14] == "a"
  {
    var d := SplicedWords;
    SplicedValuesReported();
    SearchFindsPreferred(d, ValuesDirective, Match(4, 13, 14, 26));
    SubRemovesFirstMatch(d, ValuesDirective);
    var x := "::ty" + "::values " + "a" + " endvalues::";
    TakeOfJoin(x, "pe x endtype::", 4);
    assert d[26..] == "pe x endtype::";
    LeftoverJoins();
    IsAtEnd("::ty" + "::values ", "a");
    IsAtExtend("::ty" + "::values " + "a", " endvalues::", 13, "a");
    IsAtExtend(x, "pe x endtype::", 13, "a");
  }

  /** Where some of the letters of the spliced words sit. */
  lemma SplicedWordsLetters()
    ensures forall k :: 0 <= k < |SplicedWords| && SplicedWords[k] == 't' ==> k == 2 || k == 34
    ensures forall k :: 0 <= k < |SplicedWords| && SplicedWords[k] == 'v' ==> k == 6 || k == 18
    ensures forall k :: 0 <= k < |SplicedWords| && SplicedWords[k] == 'n' ==> k == 16 || k == 32
  {
  }

  /** Where the blanks of the spliced words sit. */
  lemma SplicedWordsBlanks()
    ensures forall k :: 0 <= k < |SplicedWords| && SplicedWords[k] == ' ' ==> k in {12, 14, 28, 30}
  {
  }

  /** Where some of the letters of the trailing directive sit. */
  lemma SelectTailLetters()
    ensures forall k :: 0 <= k < |SelectTail| && SelectTail[k] == 't' ==> k == 3 || k == 15
    ensures forall k :: 0 <= k < |SelectTail| && SelectTail[k] == ' ' ==> k == 0 || k == 7 || k == 11
  {
  }

  /** The trailing directive, with its leading blank, is the widget match
      `re.search` reports: its opening token occurs nowhere else. */
  lemma SplicedWidgetReported()
    ensures IsReportedMatch(SplicedWords + SelectTail, TypeDirective, Match(40, 48, 51, 61))
  {
    SplicedWidgetMatch();
    SplicedWidgetOpenOnce();
    ReportedWhenTokensUnique(SplicedWords + SelectTail, TypeDirective, Match(40, 48, 51, 61));
  }

  /** The trailing directive with its leading blank is a match. */
  lemma SplicedWidgetMatch()
    ensures IsMatch(SplicedWords + SelectTail, TypeDirective, Match(40, 48, 51, 61))
    ensures (SplicedWords + SelectTail)[39] != ' '
  {
    SplicedWidgetTokens();
    SplicedWidgetBlanks();
    assert |SplicedWords + SelectTail| == 61;
  }

  /** Both tokens of the trailing directive, where they sit in the description. */
  lemma SplicedWidgetTokens()
    ensures IsAt(SplicedWords + SelectTail, 41, TypeDirective.open)
    ensures IsAt(SplicedWords + SelectTail, 51, TypeDirective.close)
  {
    IsAtEnd(" ", "::type ");
    IsAtExtend(" " + "::type ", "sel", 1, "::type ");
    IsAtExtend(" " + "::type " + "sel", " endtype::", 1, "::type ");
    IsAtShift(SplicedWords, SelectTail, 1, "::type ");
    IsAtEnd(" " + "::type " + "sel", " endtype::");
    IsAtShift(SplicedWords, SelectTail, 11, " endtype::");
  }

  /** A blank opens the trailing directive and none comes before it. */
  lemma SplicedWidgetBlanks()
    ensures (SplicedWords + SelectTail)[39] != ' ' && (SplicedWords + SelectTail)[40] == ' '
  {
    assert SplicedWords[39] == ':';
    assert SelectTail[0] == ' ';
  }

  /** The opening token of the widget directive occurs only once. */
  lemma SplicedWidgetOpenOnce()
    ensures forall q: nat :: IsAt(SplicedWords + SelectTail, q, TypeDirective.open) ==> q == 41
  {
    var d := SplicedWords + SelectTail;
    SplicedWordsLetters();
    SplicedWordsBlanks();
    SelectTailLetters();
    forall q: nat | IsAt(d, q, TypeDirective.open)
      ensures q == 41
    {
      CharAt(d, q, TypeDirective.open, 2);
      CharAt(d, q, TypeDirective.open, 6);
    }
  }

  /** The values directive inside the words is the one `re.search` reports:
      both of its tokens occur nowhere else. */
  lemma SplicedValuesReported()
    ensures IsReportedMatch(SplicedWords, ValuesDirective, Match(4, 13, 14, 26))
  {
    SplicedValuesMatch();
    SplicedValuesTokensOnce();
    ReportedWhenTokensUnique(SplicedWords, ValuesDirective, Match(4, 13, 14, 26));
  }

  /** The values directive inside the words is a match. */
  lemma SplicedValuesMatch()
    ensures IsMatch(SplicedWords, ValuesDirective, Match(4, 13, 14, 26))
    ensures SplicedWords[3] != ' ' && SplicedWords[26] != ' '
  {
    IsAtEnd("::ty", "::values ");
    IsAtExtend("::ty" + "::values ", "a", 4, "::values ");
    IsAtExtend("::ty" + "::values " + "a", " endvalues::", 4, "::values ");
    IsAtExtend("::ty" + "::values " + "a" + " endvalues::", "pe x endtype::", 4, "::values ");
    IsAtEnd("::ty" + "::values " + "a", " endvalues::");
    IsAtExtend("::ty" + "::values " + "a" + " endvalues::", "pe x endtype::", 14, " endvalues::");
  }

  /** Neither token of the values directive occurs anywhere else in the words. */
  lemma SplicedValuesTokensOnce()
    ensures forall q: nat :: IsAt(SplicedWords, q, ValuesDirective.open) ==> q == 4
    ensures forall c: nat :: IsAt(SplicedWords, c, ValuesDirective.close) ==> c <= 14
  {
    var d := SplicedWords;
    SplicedWordsLetters();
    forall q: nat | IsAt(d, q, ValuesDirective.open)
      ensures q == 4
    {
      CharAt(d, q, ValuesDirective.open, 2);
      CharAt(d, q, ValuesDirective.open, 8);
    }
    forall c: nat | IsAt(d, c, ValuesDirective.close)
      ensures c <= 14
    {
      CharAt(d, c, ValuesDirective.close, 2);
    }
  }
}
