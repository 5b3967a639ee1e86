/** Building the variables of the remote query: scoped variables resolved
    along the selection path, request variables the extracted field uses,
    their merge by name, their definitions and the values sent. */
module DelegationVariables {
  import opened Common
  import opened StitchingTypes

  // ---------------------------------------------------------------------
  // CreateVariableValues: a Dictionary<string, VariableValue> by name
  // ---------------------------------------------------------------------

  /** Position of the value named `name` in `d`, or -1. */
  function IndexOfName(d: seq<VariableValue>, name: string): (r: int)
    ensures -1 <= r < |d|
    ensures r >= 0 ==> d[r].name == name
    ensures r < 0 ==> forall i :: 0 <= i < |d| ==> d[i].name != name
    decreases |d|
  {
    if |d| == 0 then -1
    else if d[|d| - 1].name == name then |d| - 1
    else IndexOfName(d[..|d| - 1], name)
  }

  predicate DistinctNames(d: seq<VariableValue>) {
    forall i, j :: 0 <= i < j < |d| ==> d[i].name != d[j].name
  }

  function Names(d: seq<VariableValue>): set<string> {
    set i | 0 <= i < |d| :: d[i].name
  }

  /** The dictionary value for `name`. */
  function Lookup(d: seq<VariableValue>, name: string): Option<VariableValue> {
    var i := IndexOfName(d, name);
    if i < 0 then None else Some(d[i])
  }

  /** `values[v.Name] = v`: an existing entry is overwritten in its place,
      a new name is appended (a .NET Dictionary that nothing is removed from
      enumerates in first-insertion order). */
  function Put(d: seq<VariableValue>, v: VariableValue): (r: seq<VariableValue>)
    requires DistinctNames(d)
    ensures DistinctNames(r)
    ensures Names(r) == Names(d) + {v.name}
    ensures Lookup(r, v.name) == Some(v)
    ensures forall n :: n != v.name ==> Lookup(r, n) == Lookup(d, n)
  {
    var i := IndexOfName(d, v.name);
    var r := if i < 0 then d + [v] else d[i := v];
    assert Names(r) == Names(d) + {v.name} by {
      if i >= 0 {
        forall n | n in Names(d) ensures n in Names(r) {
          var k :| 0 <= k < |d| && d[k].name == n;
          assert r[k].name == n;
        }
      } else {
        assert r[|d|].name == v.name;
        forall n | n in Names(d) ensures n in Names(r) {
          var k :| 0 <= k < |d| && d[k].name == n;
          assert r[k].name == n;
        }
      }
    }
    var at := if i < 0 then |d| else i;
    assert r[at] == v;
    assert DistinctNames(r);
    forall n | n != v.name ensures Lookup(r, n) == Lookup(d, n) {
      var j := IndexOfName(r, n);
      var k := IndexOfName(d, n);
      if j >= 0 {
        assert r[j] == d[j];
      }
      if k >= 0 {
        assert r[k] == d[k];
      }
    }
    r
  }

  /** Puts every value of `vs` in order. */
  function PutAll(d: seq<VariableValue>, vs: seq<VariableValue>): (r: seq<VariableValue>)
    requires DistinctNames(d)
    ensures DistinctNames(r)
    decreases |vs|
  {
    if |vs| == 0 then d else PutAll(Put(d, vs[0]), vs[1..])
  }

  /** The last value of `vs` named `name`: the one whose write survives. */
  function LastNamed(vs: seq<VariableValue>, name: string): Option<VariableValue>
    decreases |vs|
  {
    if |vs| == 0 then None
    else
      var rest := LastNamed(vs[1..], name);
      if rest.Some? then rest else if vs[0].name == name then Some(vs[0]) else None
  }

  /** Last write wins: after putting `vs`, a name holds its last value in
      `vs`, or what it held before when `vs` does not name it. */
  lemma {:induction false} PutAllLookup(d: seq<VariableValue>, vs: seq<VariableValue>, name: string)
    requires DistinctNames(d)
    ensures Lookup(PutAll(d, vs), name)
         == if LastNamed(vs, name).Some? then LastNamed(vs, name) else Lookup(d, name)
    decreases |vs|
  {
    if |vs| > 0 {
      PutAllLookup(Put(d, vs[0]), vs[1..], name);
    }
  }

  lemma {:induction false} PutAllNames(d: seq<VariableValue>, vs: seq<VariableValue>)
    requires DistinctNames(d)
    ensures Names(PutAll(d, vs)) == Names(d) + Names(vs)
    decreases |vs|
  {
    if |vs| > 0 {
      PutAllNames(Put(d, vs[0]), vs[1..]);
      NamesCons(vs);
    }
  }

  lemma NamesCons(vs: seq<VariableValue>)
    requires |vs| > 0
    ensures Names(vs) == {vs[0].name} + Names(vs[1..])
  {
    forall n | n in Names(vs) ensures n in {vs[0].name} + Names(vs[1..]) {
      var k :| 0 <= k < |vs| && vs[k].name == n;
      if k > 0 { assert vs[1..][k - 1].name == n; }
    }
    forall n | n in Names(vs[1..]) ensures n in Names(vs) {
      var k :| 0 <= k < |vs[1..]| && vs[1..][k].name == n;
      assert vs[k + 1].name == n;
    }
  }

  /** The two loops of CreateVariableValues: scoped variables first, then
      the used request variables, each overwriting by name. */
  method CreateVariableValues(scopedVariables: seq<VariableValue>, requestVariables: seq<VariableValue>)
    returns (values: seq<VariableValue>)
    ensures values == PutAll(PutAll([], scopedVariables), requestVariables)
    ensures DistinctNames(values)
    ensures Names(values) == Names(scopedVariables) + Names(requestVariables)
    ensures forall n :: Lookup(values, n) == Merged(scopedVariables, requestVariables, n)
  {
    values := [];
    var i := 0;
    while i < |scopedVariables|
      invariant 0 <= i <= |scopedVariables|
      invariant DistinctNames(values)
      invariant PutAll(values, scopedVariables[i..]) == PutAll([], scopedVariables)
    {
      assert PutAll(Put(values, scopedVariables[i]), scopedVariables[i + 1..]) == PutAll([], scopedVariables) by {
        assert scopedVariables[i..][1..] == scopedVariables[i + 1..];
      }
      values := Put(values, scopedVariables[i]);
      i := i + 1;
    }
    assert scopedVariables[i..] == [];
    ghost var afterScoped := values;
    var j := 0;
    while j < |requestVariables|
      invariant 0 <= j <= |requestVariables|
      invariant DistinctNames(values)
      invariant PutAll(values, requestVariables[j..]) == PutAll(afterScoped, requestVariables)
    {
      assert PutAll(Put(values, requestVariables[j]), requestVariables[j + 1..])
          == PutAll(afterScoped, requestVariables) by {
        assert requestVariables[j..][1..] == requestVariables[j + 1..];
      }
      values := Put(values, requestVariables[j]);
      j := j + 1;
    }
    assert requestVariables[j..] == [];
    MergedValues(scopedVariables, requestVariables);
  }

  /** The value a name ends up with: its last used request variable, else
      its last scoped variable. */
  function Merged(scopedVariables: seq<VariableValue>, requestVariables: seq<VariableValue>, name: string)
    : Option<VariableValue>
  {
    if LastNamed(requestVariables, name).Some? then LastNamed(requestVariables, name)
    else LastNamed(scopedVariables, name)
  }

  /** The merged dictionary: distinct names, every name of either list, and
      each name's request value over its scoped value. */
  lemma MergedValues(scopedVariables: seq<VariableValue>, requestVariables: seq<VariableValue>)
    ensures var values := PutAll(PutAll([], scopedVariables), requestVariables);
      && DistinctNames(values)
      && Names(values) == Names(scopedVariables) + Names(requestVariables)
      && forall n :: Lookup(values, n) == Merged(scopedVariables, requestVariables, n)
  {
    PutAllNames([], scopedVariables);
    PutAllNames(PutAll([], scopedVariables), requestVariables);
    forall n ensures Lookup(PutAll(PutAll([], scopedVariables), requestVariables), n)
                  == Merged(scopedVariables, requestVariables, n) {
      MergedLookup(scopedVariables, requestVariables, n);
    }
  }

  lemma MergedLookup(scopedVariables: seq<VariableValue>, requestVariables: seq<VariableValue>, name: string)
    ensures Lookup(PutAll(PutAll([], scopedVariables), requestVariables), name)
         == Merged(scopedVariables, requestVariables, name)
  {
    PutAllLookup(PutAll([], scopedVariables), requestVariables, name);
    PutAllLookup([], scopedVariables, name);
  }

  // ---------------------------------------------------------------------
  // ResolveUsedRequestVariables
  // ---------------------------------------------------------------------

  /** The value rewriter for the target schema (`RewriteValueNode`). */
  type ValueRewriter = (TypeNode, ValueNode) -> ValueNode

  /** The value yielded for the used variable `d`: the request's value, or
      the null literal when the request has none, rewritten for the remote
      schema, with the variable's name, type and default. */
  function RequestValueOf(d: VariableDefinition, requestValues: map<string, ValueNode>, rewrite: ValueRewriter)
    : VariableValue
  {
    var value := if d.name in requestValues then requestValues[d.name] else NullValueNode;
    VariableValue(d.name, d.typ, rewrite(d.typ, value), d.defaultValue)
  }

  /** The loop of ResolveUsedRequestVariables: one value per variable the
      extracted field uses, in order. */
  method ResolveUsedRequestVariables(
    variables: seq<VariableDefinition>, requestValues: map<string, ValueNode>, rewrite: ValueRewriter)
    returns (used: seq<VariableValue>)
    ensures |used| == |variables|
    ensures forall i :: 0 <= i < |variables| ==> used[i] == RequestValueOf(variables[i], requestValues, rewrite)
  {
    used := [];
    for i := 0 to |variables|
      invariant |used| == i
      invariant forall k :: 0 <= k < i ==> used[k] == RequestValueOf(variables[k], requestValues, rewrite)
    {
      used := used + [RequestValueOf(variables[i], requestValues, rewrite)];
    }
  }

  /** The last definition of `variables` named `name`. */
  function LastDefined(variables: seq<VariableDefinition>, name: string): Option<VariableDefinition>
    decreases |variables|
  {
    if |variables| == 0 then None
    else
      var rest := LastDefined(variables[1..], name);
      if rest.Some? then rest else if variables[0].name == name then Some(variables[0]) else None
  }

  /** The last used value named `name` is the one yielded for the last
      definition of that name. */
  lemma {:induction false} LastNamedUsed(
    variables: seq<VariableDefinition>, requestValues: map<string, ValueNode>, rewrite: ValueRewriter,
    used: seq<VariableValue>, name: string)
    requires |used| == |variables|
    requires forall i :: 0 <= i < |variables| ==> used[i] == RequestValueOf(variables[i], requestValues, rewrite)
    ensures LastNamed(used, name)
         == if LastDefined(variables, name).Some?
            then Some(RequestValueOf(LastDefined(variables, name).value, requestValues, rewrite))
            else None
    decreases |variables|
  {
    if |variables| > 0 {
      assert forall i :: 0 <= i < |variables[1..]| ==>
        used[1..][i] == RequestValueOf(variables[1..][i], requestValues, rewrite) by {
        forall i | 0 <= i < |variables[1..]|
          ensures used[1..][i] == RequestValueOf(variables[1..][i], requestValues, rewrite)
        {
          assert used[1..][i] == used[i + 1] && variables[1..][i] == variables[i + 1];
        }
      }
      LastNamedUsed(variables[1..], requestValues, rewrite, used[1..], name);
    }
  }

  /** A used request variable overrides a scoped variable of the same name:
      after merging the used values over any scoped values, a name the
      extracted field defines holds the value yielded for its last
      definition, and any other name keeps its last scoped value. */
  lemma UsedRequestVariablesOverride(
    scoped: seq<VariableValue>, variables: seq<VariableDefinition>, requestValues: map<string, ValueNode>,
    rewrite: ValueRewriter, used: seq<VariableValue>, name: string)
    requires |used| == |variables|
    requires forall i :: 0 <= i < |variables| ==> used[i] == RequestValueOf(variables[i], requestValues, rewrite)
    ensures var merged := PutAll(PutAll([], scoped), used);
      && (LastDefined(variables, name).Some? ==>
            Lookup(merged, name) == Some(RequestValueOf(LastDefined(variables, name).value, requestValues, rewrite)))
      && (LastDefined(variables, name).None? ==> Lookup(merged, name) == LastNamed(scoped, name))
  {
    MergedLookup(scoped, used, name);
    LastNamedUsed(variables, requestValues, rewrite, used, name);
  }

  // ---------------------------------------------------------------------
  // ResolveScopedVariables
  // ---------------------------------------------------------------------

  /** The scoped variable resolver: a `$scope:name` reference and the
      argument's type to the variable it denotes. */
  type ScopedResolver = (ScopedVariable, TypeNode) -> VariableValue

  /** Prepends to a successful list; an exception stays as it is. */
  function Prepend(vs: seq<VariableValue>, o: Outcome<seq<VariableValue>>): Outcome<seq<VariableValue>> {
    match o
    case Returned(rest) => Returned(vs + rest)
    case Throws(f) => Throws(f)
  }

  lemma PrependConcat(a: seq<VariableValue>, b: seq<VariableValue>, o: Outcome<seq<VariableValue>>)
    ensures Prepend(a, Prepend(b, o)) == Prepend(a + b, o)
    ensures Prepend([], o) == o
  {
    if o.Returned? {
      assert a + (b + o.value) == (a + b) + o.value;
      assert [] + o.value == o.value;
    }
  }

  /** The variable an argument contributes: one per scoped variable
      reference, with its value rewritten to the argument's type. */
  function ArgumentVariable(
    argType: TypeNode, a: Argument, resolve: ScopedResolver, rewrite: ValueRewriter)
    : seq<VariableValue>
  {
    match a.value
    case ScopedVariableNode(sv) =>
      var v := resolve(sv, argType);
      [v.(value := rewrite(argType, v.value))]
    case PlainValue(_) => []
  }

  /** The variables of one path component's arguments, or the exception for
      the first argument the field does not declare. */
  function ArgumentVariables(
    field: OutputField, args: seq<Argument>, resolve: ScopedResolver, rewrite: ValueRewriter)
    : Outcome<seq<VariableValue>>
    decreases |args|
  {
    if |args| == 0 then Returned([])
    else if args[0].name !in field.arguments then Throws(ArgumentNotFound(args[0].name))
    else Prepend(ArgumentVariable(field.arguments[args[0].name], args[0], resolve, rewrite),
                 ArgumentVariables(field, args[1..], resolve, rewrite))
  }

  /** `IsComplexType()` of a field type: an object or interface type,
      possibly non-null. */
  predicate IsComplexType(schema: Schema, t: TypeNode)
    ensures IsComplexType(schema, t) ==> NamedTypeName(t) in schema
  {
    var u := if t.NonNullTypeNode? then t.innerType else t;
    u.NamedTypeNode? && u.name in schema && schema[u.name].kind in {ObjectKind, InterfaceKind}
  }

  /** The variables resolved along the selection path `comps` (in selection
      order), starting at type `ty`. */
  function ScopedVariables(
    schema: Schema, ty: NamedType, comps: seq<SelectionPathComponent>,
    resolve: ScopedResolver, rewrite: ValueRewriter)
    : Outcome<seq<VariableValue>>
    decreases |comps|
  {
    if |comps| == 0 then Returned([])
    else
      var c := comps[0];
      if c.name !in ty.fields then Throws(PathElementInvalid(c.name, ty.name))
      else
        var field := ty.fields[c.name];
        match ArgumentVariables(field, c.arguments, resolve, rewrite)
        case Throws(f) => Throws(f)
        case Returned(vs) =>
          if |comps| > 1 then
            if !IsComplexType(schema, field.typ) then Throws(PathElementTypeUnexpected)
            else Prepend(vs, ScopedVariables(schema, schema[NamedTypeName(field.typ)], comps[1..], resolve, rewrite))
          else Returned(vs)
  }

  /** The selection path enumerated off its stack, which yields the last
      parsed component first; `Reverse()` restores selection order. */
  function Reversed<T>(s: seq<T>): (r: seq<T>)
    ensures |r| == |s|
    ensures forall i :: 0 <= i < |s| ==> r[i] == s[|s| - 1 - i]
  {
    seq(|s|, i requires 0 <= i < |s| => s[|s| - 1 - i])
  }

  /** The loop of ResolveScopedVariableArguments, which adds to `variables`. */
  method ResolveScopedVariableArguments(
    field: OutputField, component: SelectionPathComponent, variables: seq<VariableValue>,
    resolve: ScopedResolver, rewrite: ValueRewriter)
    returns (r: Outcome<seq<VariableValue>>)
    ensures r == Prepend(variables, ArgumentVariables(field, component.arguments, resolve, rewrite))
  {
    var args := component.arguments;
    var acc := variables;
    var i := 0;
    while i < |args|
      invariant 0 <= i <= |args|
      invariant Prepend(acc, ArgumentVariables(field, args[i..], resolve, rewrite))
             == Prepend(variables, ArgumentVariables(field, args, resolve, rewrite))
    {
      var argument := args[i];
      assert args[i..][1..] == args[i + 1..];
      if argument.name !in field.arguments {
        return Throws(ArgumentNotFound(argument.name));
      }
      var argType := field.arguments[argument.name];
      match argument.value {
        case ScopedVariableNode(sv) =>
          var variable := resolve(sv, argType);
          var value := rewrite(argType, variable.value);
          PrependConcat(acc, [variable.(value := value)], ArgumentVariables(field, args[i + 1..], resolve, rewrite));
          acc := acc + [variable.(value := value)];
        case PlainValue(_) =>
          PrependConcat(acc, [], ArgumentVariables(field, args[i + 1..], resolve, rewrite));
      }
      i := i + 1;
    }
    assert args[i..] == [];
    assert acc + [] == acc;
    return Returned(acc);
  }

  /** ResolveScopedVariables: the selection path comes off the parser's
      stack last component first, so it is reversed into selection order
      before the walk. */
  method ResolveScopedVariables(
    schema: Schema, root: NamedType, components: seq<SelectionPathComponent>,
    resolve: ScopedResolver, rewrite: ValueRewriter)
    returns (r: Outcome<seq<VariableValue>>)
    ensures r == ScopedVariables(schema, root, Reversed(components), resolve, rewrite)
  {
    var comps := Reversed(components);
    r := ResolvePathVariables(schema, root, comps, resolve, rewrite);
  }

  /** The loop of ResolveScopedVariables: walks the path `comps` (in
      selection order) through the remote type graph from the operation type
      `root`, collecting the variables of every component's arguments. */
  method ResolvePathVariables(
    schema: Schema, root: NamedType, comps: seq<SelectionPathComponent>,
    resolve: ScopedResolver, rewrite: ValueRewriter)
    returns (r: Outcome<seq<VariableValue>>)
    ensures r == ScopedVariables(schema, root, comps, resolve, rewrite)
  {
    var variables: seq<VariableValue> := [];
    var ty := root;
    var i := 0;
    PrependConcat([], [], ScopedVariables(schema, root, comps, resolve, rewrite));
    while i < |comps|
      invariant 0 <= i <= |comps|
      invariant Prepend(variables, ScopedVariables(schema, ty, comps[i..], resolve, rewrite))
             == ScopedVariables(schema, root, comps, resolve, rewrite)
    {
      var component := comps[i];
      ghost var rest := ScopedVariables(schema, ty, comps[i..], resolve, rewrite);
      assert comps[i..][0] == component && comps[i..][1..] == comps[i + 1..];
      ScopedVariablesStep(schema, ty, comps[i..], resolve, rewrite);
      if component.name !in ty.fields {
        assert rest == Throws(PathElementInvalid(component.name, ty.name));
        return Throws(PathElementInvalid(component.name, ty.name));
      }
      var field := ty.fields[component.name];
      ghost var argumentVariables := ArgumentVariables(field, component.arguments, resolve, rewrite);
      var added := ResolveScopedVariableArguments(field, component, variables, resolve, rewrite);
      if added.Throws? {
        assert rest == argumentVariables == added;
        return added;
      }
      ghost var vs := argumentVariables.value;
      assert added.value == variables + vs;
      if i + 1 < |comps| {
        if !IsComplexType(schema, field.typ) {
          assert rest == Throws(PathElementTypeUnexpected);
          return Throws(PathElementTypeUnexpected);
        }
        var next := schema[NamedTypeName(field.typ)];
        assert rest == Prepend(vs, ScopedVariables(schema, next, comps[i + 1..], resolve, rewrite));
        PrependConcat(variables, vs, ScopedVariables(schema, next, comps[i + 1..], resolve, rewrite));
        ty := next;
      } else {
        assert comps[i + 1..] == [];
        assert rest == Returned(vs);
        assert (variables + vs) + [] == variables + vs;
      }
      variables := added.value;
      i := i + 1;
    }
    assert comps[i..] == [];
    assert variables + [] == variables;
    return Returned(variables);
  }

  /** One component of the path: the cases of ScopedVariables. */
  lemma ScopedVariablesStep(
    schema: Schema, ty: NamedType, comps: seq<SelectionPathComponent>,
    resolve: ScopedResolver, rewrite: ValueRewriter)
    requires |comps| > 0
    ensures var r := ScopedVariables(schema, ty, comps, resolve, rewrite);
      && (comps[0].name !in ty.fields ==> r == Throws(PathElementInvalid(comps[0].name, ty.name)))
      && (comps[0].name in ty.fields ==>
            var field := ty.fields[comps[0].name];
            var av := ArgumentVariables(field, comps[0].arguments, resolve, rewrite);
            && (av.Throws? ==> r == av)
            && (av.Returned? && |comps| == 1 ==> r == av)
            && (av.Returned? && |comps| > 1 && !IsComplexType(schema, field.typ) ==> r == Throws(PathElementTypeUnexpected))
            && (av.Returned? && |comps| > 1 && IsComplexType(schema, field.typ) ==>
                  r == Prepend(av.value, ScopedVariables(schema, schema[NamedTypeName(field.typ)], comps[1..], resolve, rewrite))))
  {
  }

  /** A selection path that resolves: every component names a field of the
      type reached so far, declares every argument given, and every field
      but the last has a complex type. */
  predicate PathResolves(schema: Schema, ty: NamedType, comps: seq<SelectionPathComponent>)
    decreases |comps|
  {
    |comps| == 0 ||
    (comps[0].name in ty.fields
     && (forall a :: a in comps[0].arguments ==> a.name in ty.fields[comps[0].name].arguments)
     && (|comps| > 1 ==>
           IsComplexType(schema, ty.fields[comps[0].name].typ)
           && PathResolves(schema, schema[NamedTypeName(ty.fields[comps[0].name].typ)], comps[1..])))
  }

  /** Scoped variable references along a path, in order. */
  function ScopedReferences(comps: seq<SelectionPathComponent>): nat
    decreases |comps|
  {
    if |comps| == 0 then 0 else ArgumentReferences(comps[0].arguments) + ScopedReferences(comps[1..])
  }

  function ArgumentReferences(args: seq<Argument>): nat
    decreases |args|
  {
    if |args| == 0 then 0
    else (if args[0].value.ScopedVariableNode? then 1 else 0) + ArgumentReferences(args[1..])
  }

  lemma {:induction false} ArgumentVariablesSucceed(
    field: OutputField, args: seq<Argument>, resolve: ScopedResolver, rewrite: ValueRewriter)
    ensures ArgumentVariables(field, args, resolve, rewrite).Returned?
        <==> forall a :: a in args ==> a.name in field.arguments
    ensures ArgumentVariables(field, args, resolve, rewrite).Returned? ==>
      |ArgumentVariables(field, args, resolve, rewrite).value| == ArgumentReferences(args)
    decreases |args|
  {
    if |args| > 0 {
      ArgumentVariablesSucceed(field, args[1..], resolve, rewrite);
      assert forall a :: a in args ==> a == args[0] || a in args[1..];
    }
  }

  /** Resolving scoped variables succeeds exactly on paths that resolve, and
      then yields one variable per scoped reference. */
  lemma {:induction false} ScopedVariablesSucceed(
    schema: Schema, ty: NamedType, comps: seq<SelectionPathComponent>,
    resolve: ScopedResolver, rewrite: ValueRewriter)
    ensures ScopedVariables(schema, ty, comps, resolve, rewrite).Returned? <==> PathResolves(schema, ty, comps)
    ensures ScopedVariables(schema, ty, comps, resolve, rewrite).Returned? ==>
      |ScopedVariables(schema, ty, comps, resolve, rewrite).value| == ScopedReferences(comps)
    decreases |comps|
  {
    if |comps| > 0 && comps[0].name in ty.fields {
      var field := ty.fields[comps[0].name];
      ArgumentVariablesSucceed(field, comps[0].arguments, resolve, rewrite);
      if |comps| > 1 && IsComplexType(schema, field.typ) {
        ScopedVariablesSucceed(schema, schema[NamedTypeName(field.typ)], comps[1..], resolve, rewrite);
      }
    }
  }

  // ---------------------------------------------------------------------
  // CreateVariableDefs and AddVariables
  // ---------------------------------------------------------------------

  function DefinitionOf(v: VariableValue): VariableDefinition {
    VariableDefinition(v.name, v.typ, v.defaultValue)
  }

  /** The loop of CreateVariableDefs: one definition per value, in order,
      with the value's name, type and default. */
  method CreateVariableDefs(values: seq<VariableValue>) returns (definitions: seq<VariableDefinition>)
    ensures |definitions| == |values|
    ensures forall i :: 0 <= i < |values| ==> definitions[i] == DefinitionOf(values[i])
  {
    definitions := [];
    for i := 0 to |values|
      invariant |definitions| == i
      invariant forall k :: 0 <= k < i ==> definitions[k] == DefinitionOf(values[k])
    {
      definitions := definitions + [DefinitionOf(values[i])];
    }
  }

  /** A variable value handed to the request builder. */
  datatype Binding = Binding(name: string, value: ValueNode)

  function DefinedNames(definitions: seq<VariableDefinition>): set<string> {
    set i | 0 <= i < |definitions| :: definitions[i].name
  }

  /** The values whose names the operation defines, in order. */
  function Sent(used: set<string>, values: seq<VariableValue>): seq<Binding>
    decreases |values|
  {
    if |values| == 0 then []
    else
      var v := values[|values| - 1];
      Sent(used, values[..|values| - 1]) + (if v.name in used then [Binding(v.name, v.value)] else [])
  }

  /** The loop of AddVariables. */
  method AddVariables(operationVariables: seq<VariableDefinition>, values: seq<VariableValue>)
    returns (added: seq<Binding>)
    ensures added == Sent(DefinedNames(operationVariables), values)
  {
    var usedVariables := DefinedNames(operationVariables);
    added := [];
    for i := 0 to |values|
      invariant added == Sent(usedVariables, values[..i])
    {
      assert values[..i + 1][..i] == values[..i];
      var variableValue := values[i];
      if variableValue.name in usedVariables {
        added := added + [Binding(variableValue.name, variableValue.value)];
      }
    }
    assert values[..|values|] == values;
  }

  /** Exactly the values whose names are defined are sent, with their own
      values. */
  lemma {:induction false} SentMembership(used: set<string>, values: seq<VariableValue>, b: Binding)
    ensures b in Sent(used, values) <==> b.name in used && exists v :: v in values && b == Binding(v.name, v.value)
    decreases |values|
  {
    if |values| > 0 {
      var init := values[..|values| - 1];
      var last := values[|values| - 1];
      SentMembership(used, init, b);
      assert forall v :: v in values <==> v in init || v == last;
    }
  }

  /** The definitions made from a list of values let every one of them
      through. */
  lemma AllDefinedValuesSent(values: seq<VariableValue>, definitions: seq<VariableDefinition>)
    requires |definitions| == |values|
    requires forall i :: 0 <= i < |values| ==> definitions[i] == DefinitionOf(values[i])
    ensures |Sent(DefinedNames(definitions), values)| == |values|
    ensures forall v :: v in values ==> Binding(v.name, v.value) in Sent(DefinedNames(definitions), values)
  {
    var used := DefinedNames(definitions);
    assert forall i :: 0 <= i < |values| ==> values[i].name in used by {
      forall i | 0 <= i < |values| ensures values[i].name in used { assert definitions[i].name == values[i].name; }
    }
    SentAll(used, values);
    forall v | v in values ensures Binding(v.name, v.value) in Sent(used, values) {
      SentMembership(used, values, Binding(v.name, v.value));
    }
  }

  lemma {:induction false} SentAll(used: set<string>, values: seq<VariableValue>)
    requires forall i :: 0 <= i < |values| ==> values[i].name in used
    ensures |Sent(used, values)| == |values|
    decreases |values|
  {
    if |values| > 0 {
      SentAll(used, values[..|values| - 1]);
    }
  }

  // ---------------------------------------------------------------------
  // WrapType
  // ---------------------------------------------------------------------

  /** An input type of the schema: a named type or a list / non-null
      wrapper around one. */
  datatype InputType = NamedInputType(name: string) | ListType(elementType: InputType) | NonNullType(innerType: InputType)

  /** A list or non-null wrapper, outermost first in a wrapper sequence. */
  datatype Wrapper = ListWrapper | NonNullWrapper

  /** The wrappers of a type reference, outermost first. */
  function NodeWrappers(t: TypeNode): seq<Wrapper> {
    match t
    case NamedTypeNode(_) => []
    case ListTypeNode(e) => [ListWrapper] + NodeWrappers(e)
    case NonNullTypeNode(i) => [NonNullWrapper] + NodeWrappers(i)
  }

  /** The wrappers of an input type, outermost first. */
  function Wrappers(t: InputType): seq<Wrapper> {
    match t
    case NamedInputType(_) => []
    case ListType(e) => [ListWrapper] + Wrappers(e)
    case NonNullType(i) => [NonNullWrapper] + Wrappers(i)
  }

  /** The named type inside all the wrappers of an input type. */
  function Unwrapped(t: InputType): InputType {
    match t
    case NamedInputType(_) => t
    case ListType(e) => Unwrapped(e)
    case NonNullType(i) => Unwrapped(i)
  }

  /** Wraps `namedType` in the list and non-null wrappers of `typeNode`:
      the result carries the reference's wrappers, in the same order,
      outside those `namedType` already has, around the same named type. */
  function WrapType(namedType: InputType, typeNode: TypeNode): (r: InputType)
    ensures Wrappers(r) == NodeWrappers(typeNode) + Wrappers(namedType)
    ensures Unwrapped(r) == Unwrapped(namedType)
  {
    match typeNode
    case NonNullTypeNode(inner) => NonNullType(WrapType(namedType, inner))
    case ListTypeNode(element) => ListType(WrapType(namedType, element))
    case NamedTypeNode(_) => namedType
  }

  /** The type reference an input type is written as. */
  function TypeNodeOf(t: InputType): TypeNode {
    match t
    case NamedInputType(n) => NamedTypeNode(n)
    case ListType(e) => ListTypeNode(TypeNodeOf(e))
    case NonNullType(i) => NonNullTypeNode(TypeNodeOf(i))
  }

  /** Wrapping the named type a type reference names gives back a type
      written as that same reference. */
  lemma {:induction false} WrapTypeRoundTrip(typeNode: TypeNode, name: string)
    requires NamedTypeName(typeNode) == name
    ensures TypeNodeOf(WrapType(NamedInputType(name), typeNode)) == typeNode
  {
    match typeNode
    case NamedTypeNode(_) =>
    case ListTypeNode(e) => WrapTypeRoundTrip(e, name);
    case NonNullTypeNode(i) => WrapTypeRoundTrip(i, name);
  }
}
