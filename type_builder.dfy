/** The C# type reference builder of the client code generator: four setters
    that update the builder and return it, and a writer pass that emits the
    type reference token by token. */
module CSharpBuilders {
  import opened Common

  /** Whether a type reference is wrapped in a list. `NoList` is the
      builder's initial value. */
  datatype ListType = NoList | List | NullableList

  /** `ListType.IfListPrint` and `ListType.IfNullableListPrint`: the text a
      list type value prints in place of the given text. */
  type ListPrint = (ListType, string) -> string

  /** The text written for the name: a name never set is written as the
      empty text. */
  function NameText(name: Option<string>): string {
    match name
    case Some(n) => n
    case None => ""
  }

  /** The generic arguments with ", " between consecutive ones. */
  function Joined(gs: seq<string>): seq<string>
    decreases |gs|
  {
    if |gs| == 0 then []
    else if |gs| == 1 then [gs[0]]
    else Joined(gs[..|gs| - 1]) + [", ", gs[|gs| - 1]]
  }

  /** The generic argument list: nothing, or "<", the joined arguments and ">". */
  function GenericTokens(gs: seq<string>): seq<string> {
    if |gs| == 0 then [] else ["<"] + Joined(gs) + [">"]
  }

  /** The writes of BuildAsync, in order: the list prefix, the name, the
      generic arguments, "?" when nullable, the list closer and a space. */
  function TypeTokens(
    name: Option<string>, gs: seq<string>, isList: ListType, isNullable: bool,
    ifListPrint: ListPrint, ifNullableListPrint: ListPrint)
    : seq<string>
  {
    [ifListPrint(isList, "IReadOnlyList<"), NameText(name)]
    + GenericTokens(gs)
    + (if isNullable then ["?"] else [])
    + [ifListPrint(isList, ">") + ifNullableListPrint(isList, "?")]
    + [" "]
  }

  class TypeBuilder {
    var name: Option<string>
    var genericTypeArguments: seq<string>
    var isList: ListType
    var isNullable: bool

    /** `TypeBuilder.New()`: no name, no generics, no list, not nullable. */
    constructor New()
      ensures name == None && genericTypeArguments == [] && isList == NoList && !isNullable
    {
      name := None;
      genericTypeArguments := [];
      isList := NoList;
      isNullable := false;
    }

    method SetListType(isList: ListType) returns (b: TypeBuilder)
      modifies this
      ensures b == this
      ensures this.isList == isList
      ensures name == old(name) && genericTypeArguments == old(genericTypeArguments)
      ensures isNullable == old(isNullable)
    {
      this.isList := isList;
      return this;
    }

    method SetName(name: string) returns (b: TypeBuilder)
      modifies this
      ensures b == this
      ensures this.name == Some(name)
      ensures genericTypeArguments == old(genericTypeArguments)
      ensures isList == old(isList) && isNullable == old(isNullable)
    {
      this.name := Some(name);
      return this;
    }

    /** Appends a generic argument after those added before. */
    method AddGeneric(name: string) returns (b: TypeBuilder)
      modifies this
      ensures b == this
      ensures genericTypeArguments == old(genericTypeArguments) + [name]
      ensures this.name == old(this.name)
      ensures isList == old(isList) && isNullable == old(isNullable)
    {
      genericTypeArguments := genericTypeArguments + [name];
      return this;
    }

    method SetIsNullable(isNullable: bool) returns (b: TypeBuilder)
      modifies this
      ensures b == this
      ensures this.isNullable == isNullable
      ensures name == old(name) && genericTypeArguments == old(genericTypeArguments)
      ensures isList == old(isList)
    {
      this.isNullable := isNullable;
      return this;
    }

    /** The writes of BuildAsync appended to what `writer` holds; the builder
        is not changed. */
    method BuildAsync(writer: seq<string>, ifListPrint: ListPrint, ifNullableListPrint: ListPrint)
      returns (written: seq<string>)
      ensures written
           == writer + TypeTokens(name, genericTypeArguments, isList, isNullable, ifListPrint, ifNullableListPrint)
    {
      var gs, list, nullable := genericTypeArguments, isList, isNullable;
      // The writes of this call, in order; the writer receives them after
      // what it already holds.
      var writes := [ifListPrint(list, "IReadOnlyList<"), NameText(name)];
      if |gs| > 0 {
        writes := writes + ["<"];
        ghost var start := writes;
        var i := 0;
        while i < |gs|
          invariant 0 <= i <= |gs|
          invariant writes == start + Joined(gs[..i])
        {
          JoinedExtend(gs, i);
          if i > 0 {
            writes := writes + [", "];
          }
          writes := writes + [gs[i]];
          i := i + 1;
        }
        assert gs[..i] == gs;
        writes := writes + [">"];
      }
      assert writes == [ifListPrint(list, "IReadOnlyList<"), NameText(name)] + GenericTokens(gs);
      if nullable {
        writes := writes + ["?"];
      }
      writes := writes + [ifListPrint(list, ">") + ifNullableListPrint(list, "?")];
      writes := writes + [" "];
      written := writer + writes;
    }
  }

  /** One more generic argument extends the joined list by a separator,
      unless it is the first, and the argument. */
  lemma JoinedExtend(gs: seq<string>, i: nat)
    requires i < |gs|
    ensures Joined(gs[..i + 1]) == Joined(gs[..i]) + (if i > 0 then [", "] else []) + [gs[i]]
  {
    assert gs[..i + 1][..i] == gs[..i];
  }

  // ---------------------------------------------------------------------
  // Properties of the emitted tokens
  // ---------------------------------------------------------------------

  /** k generic arguments join to 2k - 1 tokens: the arguments at the even
      positions, ", " at the odd ones. */
  lemma {:induction false} JoinedLayout(gs: seq<string>)
    ensures |gs| == 0 ==> Joined(gs) == []
    ensures |gs| > 0 ==> |Joined(gs)| == 2 * |gs| - 1
    ensures forall i :: 0 <= i < |gs| ==> Joined(gs)[2 * i] == gs[i]
    ensures forall i :: 0 <= i < |gs| - 1 ==> Joined(gs)[2 * i + 1] == ", "
    decreases |gs|
  {
    if |gs| > 1 {
      var init := gs[..|gs| - 1];
      JoinedLayout(init);
      var j := Joined(gs);
      assert j == Joined(init) + [", ", gs[|gs| - 1]];
      forall i | 0 <= i < |gs| ensures j[2 * i] == gs[i] {
        if i < |init| {
          assert j[2 * i] == Joined(init)[2 * i];
        }
      }
      forall i | 0 <= i < |gs| - 1 ensures j[2 * i + 1] == ", " {
        if i < |init| - 1 {
          assert j[2 * i + 1] == Joined(init)[2 * i + 1];
        }
      }
    }
  }

  /** With k > 0 generic arguments the generic list is "<", the arguments in
      order with ", " between consecutive ones only, and ">"; with none it is
      empty. */
  lemma GenericTokensLayout(gs: seq<string>)
    ensures |gs| == 0 ==> GenericTokens(gs) == []
    ensures |gs| > 0 ==>
      var g := GenericTokens(gs);
      && |g| == 2 * |gs| + 1
      && g[0] == "<" && g[2 * |gs|] == ">"
      && (forall i :: 0 <= i < |gs| ==> g[2 * i + 1] == gs[i])
      && (forall i :: 0 <= i < |gs| - 1 ==> g[2 * i + 2] == ", ")
  {
    JoinedLayout(gs);
    if |gs| > 0 {
      var g := GenericTokens(gs);
      forall i | 0 <= i < |gs| ensures g[2 * i + 1] == gs[i] {
        assert g[2 * i + 1] == Joined(gs)[2 * i];
      }
      forall i | 0 <= i < |gs| - 1 ensures g[2 * i + 2] == ", " {
        assert g[2 * i + 2] == Joined(gs)[2 * i + 1];
      }
    }
  }

  /** When no generic argument is itself ", ", the joined list holds exactly
      k - 1 separators. */
  lemma {:induction false} JoinedSeparators(gs: seq<string>)
    requires |gs| > 0
    requires forall i :: 0 <= i < |gs| ==> gs[i] != ", "
    ensures multiset(Joined(gs))[", "] == |gs| - 1
    decreases |gs|
  {
    if |gs| > 1 {
      var init := gs[..|gs| - 1];
      JoinedSeparators(init);
      assert Joined(gs) == Joined(init) + [", ", gs[|gs| - 1]];
    }
  }

  /** The writes start with the list prefix and the name and end with the
      list closer and one space; between them come the generic list and
      "?", the latter exactly when the type is nullable. */
  lemma TypeTokensShape(
    name: Option<string>, gs: seq<string>, isList: ListType, isNullable: bool,
    ifListPrint: ListPrint, ifNullableListPrint: ListPrint)
    ensures var t := TypeTokens(name, gs, isList, isNullable, ifListPrint, ifNullableListPrint);
      var g := GenericTokens(gs);
      && |t| == 4 + |g| + (if isNullable then 1 else 0)
      && t[0] == ifListPrint(isList, "IReadOnlyList<")
      && t[1] == NameText(name)
      && t[2..2 + |g|] == g
      && (isNullable <==> t[2 + |g|] == "?" && |t| == 5 + |g|)
      && t[|t| - 2] == ifListPrint(isList, ">") + ifNullableListPrint(isList, "?")
      && t[|t| - 1] == " "
  {
    var t := TypeTokens(name, gs, isList, isNullable, ifListPrint, ifNullableListPrint);
    var g := GenericTokens(gs);
    assert t[2..2 + |g|] == g;
  }

  /** Without generic arguments nothing comes between the name and the
      nullable marker or the list closer. */
  lemma TypeTokensWithoutGenerics(
    name: Option<string>, isList: ListType, isNullable: bool,
    ifListPrint: ListPrint, ifNullableListPrint: ListPrint)
    ensures TypeTokens(name, [], isList, isNullable, ifListPrint, ifNullableListPrint)
         == [ifListPrint(isList, "IReadOnlyList<"), NameText(name)]
            + (if isNullable then ["?"] else [])
            + [ifListPrint(isList, ">") + ifNullableListPrint(isList, "?"), " "]
  {
  }

  /** `Foo<A, B>?` as a builder writes it. */
  lemma TypeTokensExample(ifListPrint: ListPrint, ifNullableListPrint: ListPrint)
    ensures TypeTokens(Some("Foo"), ["A", "B"], NoList, true, ifListPrint, ifNullableListPrint)
         == [ifListPrint(NoList, "IReadOnlyList<"), "Foo", "<", "A", ", ", "B", ">", "?",
             ifListPrint(NoList, ">") + ifNullableListPrint(NoList, "?"), " "]
  {
    assert ["A", "B"][..1] == ["A"];
  }
}
