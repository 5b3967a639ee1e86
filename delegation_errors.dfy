/** Re-basing remote errors onto the local field: the error path rewrite and
    the annotation of each reported error. */
module DelegationErrors {
  import opened Common
  import opened StitchingTypes

  /** Extension keys set on every reported error. */
  const RemoteErrorField: string := "remote"
  const SchemaNameErrorField: string := "schemaName"

  // ---------------------------------------------------------------------
  // Paths
  // ---------------------------------------------------------------------

  /** Position of the last field name of a path (`Path.Name`: an index
      segment carries the name of the list field it indexes). */
  function LastNameIndex(p: Path): (i: nat)
    requires IsFieldPath(p)
    ensures i < |p| && p[i].FieldName?
    ensures forall j :: i < j < |p| ==> p[j].ListIndex?
    decreases |p|
  {
    if p[|p| - 1].FieldName? then |p| - 1 else LastNameIndex(p[..|p| - 1])
  }

  function LastName(p: Path): string
    requires IsFieldPath(p)
  {
    p[LastNameIndex(p)].name
  }

  /** The segments `Append` adds for error path elements: strings and ints
      in order, any other element skipped. */
  function Segments(elems: seq<PathElement>): (r: Path)
    ensures |r| <= |elems|
    decreases |elems|
  {
    if |elems| == 0 then []
    else Segments(elems[..|elems| - 1]) + SegmentOf(elems[|elems| - 1])
  }

  function SegmentOf(e: PathElement): Path {
    match e
    case StringElement(s) => [FieldName(s)]
    case IntElement(x) => [ListIndex(x)]
    case OtherElement => []
  }

  predicate NoOtherElements(elems: seq<PathElement>) {
    forall i :: 0 <= i < |elems| ==> !elems[i].OtherElement?
  }

  /** Without foreign elements, Segments drops nothing and is undone by
      `Path.ToList()`. */
  lemma {:induction false} SegmentsRoundTrip(elems: seq<PathElement>)
    requires NoOtherElements(elems)
    ensures |Segments(elems)| == |elems|
    ensures PathToList(Segments(elems)) == elems
    decreases |elems|
  {
    if |elems| > 0 {
      var init := elems[..|elems| - 1];
      assert NoOtherElements(init) by {
        forall i | 0 <= i < |init| ensures !init[i].OtherElement? { assert init[i] == elems[i]; }
      }
      SegmentsRoundTrip(init);
      var r := Segments(elems);
      assert r == Segments(init) + SegmentOf(elems[|elems| - 1]);
      assert !elems[|elems| - 1].OtherElement?;
      assert PathToList(r) == elems by {
        forall i | 0 <= i < |elems| ensures PathToList(r)[i] == elems[i] {
          if i < |init| {
            assert r[i] == Segments(init)[i];
            assert PathToList(Segments(init))[i] == init[i];
          }
        }
      }
    }
  }

  /** Whether a remote error path is rooted at the local field: its first
      element is a string equal to the local path's last name. */
  predicate Rebases(errorPath: seq<PathElement>, path: Path)
    requires IsFieldPath(path)
  {
    |errorPath| > 0 && errorPath[0].StringElement? && errorPath[0].s == LastName(path)
  }

  /** The local path an error is reported at. */
  function Rebased(errorPath: seq<PathElement>, path: Path): Path
    requires IsFieldPath(path)
  {
    if Rebases(errorPath, path) then path + Segments(errorPath[1..]) else path
  }

  /** The loop of RewriteErrorPath, which appends to `current`. */
  method RewriteErrorPath(errorPath: seq<PathElement>, path: Path) returns (current: Path)
    requires IsFieldPath(path)
    ensures current == Rebased(errorPath, path)
    ensures Rebases(errorPath, path) ==> current == path + Segments(errorPath[1..])
    ensures !Rebases(errorPath, path) ==> current == path
  {
    current := path;
    if |errorPath| > 0 && errorPath[0].StringElement? && LastName(current) == errorPath[0].s {
      var i := 1;
      while i < |errorPath|
        invariant 1 <= i <= |errorPath|
        invariant current == path + Segments(errorPath[1..i])
      {
        ghost var before := current;
        match errorPath[i] {
          case StringElement(name) => current := current + [FieldName(name)];
          case IntElement(index) => current := current + [ListIndex(index)];
          case OtherElement =>
        }
        SegmentsStep(errorPath, i);
        AppendAssoc(path, Segments(errorPath[1..i]), SegmentOf(errorPath[i]));
        assert current == before + SegmentOf(errorPath[i]);
        i := i + 1;
      }
      assert errorPath[1..i] == errorPath[1..];
    }
  }

  /** One more element of the remote path extends its segments by that
      element's segment. */
  lemma SegmentsStep(errorPath: seq<PathElement>, i: nat)
    requires 1 <= i < |errorPath|
    ensures Segments(errorPath[1..i + 1]) == Segments(errorPath[1..i]) + SegmentOf(errorPath[i])
  {
    assert errorPath[1..i + 1][..i - 1] == errorPath[1..i];
  }

  /** Appending segments one at a time or all at once gives the same path.
      This is a step the solver needs spelled out for the loop of
      RewriteErrorPath, not a property of the middleware. */
  lemma AppendAssoc(a: Path, b: Path, c: Path)
    ensures a + b + c == a + (b + c)
  {
  }

  /** The local path is always kept as a prefix; a re-based path continues
      with the remote path's tail, element for element. */
  lemma RebasedShape(errorPath: seq<PathElement>, path: Path)
    requires IsFieldPath(path)
    ensures |Rebased(errorPath, path)| >= |path|
    ensures Rebased(errorPath, path)[..|path|] == path
    ensures Rebases(errorPath, path) && NoOtherElements(errorPath) ==>
      |Rebased(errorPath, path)| == |path| + |errorPath| - 1
      && PathToList(Rebased(errorPath, path))[|path|..] == errorPath[1..]
  {
    var r := Rebased(errorPath, path);
    assert r[..|path|] == path;
    if Rebases(errorPath, path) && NoOtherElements(errorPath) {
      var tail := errorPath[1..];
      assert NoOtherElements(tail) by {
        forall i | 0 <= i < |tail| ensures !tail[i].OtherElement? { assert tail[i] == errorPath[i + 1]; }
      }
      SegmentsRoundTrip(tail);
      assert r[|path|..] == Segments(tail);
      forall i | 0 <= i < |tail|
        ensures PathToList(r)[|path| + i] == tail[i]
      {
        assert r[|path| + i] == Segments(tail)[i];
        assert PathToList(Segments(tail))[i] == tail[i];
      }
      assert PathToList(r)[|path|..] == tail;
    }
  }

  /** A remote path rooted at the delegating field's own name is re-based
      onto the local path. */
  lemma RebasedExample()
    ensures Rebased([StringElement("orders"), StringElement("child"), IntElement(0), StringElement("name")],
                    [FieldName("user"), FieldName("orders")])
         == [FieldName("user"), FieldName("orders"), FieldName("child"), ListIndex(0), FieldName("name")]
  {
    var p := [FieldName("user"), FieldName("orders")];
    var t := [StringElement("orders"), StringElement("child"), IntElement(0), StringElement("name")][1..];
    assert LastNameIndex(p) == 1;
    assert t[..1][..0] == [];
    assert Segments(t[..1]) == [FieldName("child")];
    assert t[..2][..1] == t[..1];
    assert Segments(t[..2]) == [FieldName("child"), ListIndex(0)];
    assert t[..2] == t[..|t| - 1];
  }

  /** A remote path rooted at another name leaves the local path as it is. */
  lemma RebasedOtherRootExample()
    ensures Rebased([StringElement("root"), StringElement("child"), IntElement(0), StringElement("name")],
                    [FieldName("user"), FieldName("orders")])
         == [FieldName("user"), FieldName("orders")]
  {
    assert LastNameIndex([FieldName("user"), FieldName("orders")]) == 1;
  }

  /** Below a list index the local path's last name is the list field's. */
  lemma RebasedBelowIndexExample()
    ensures Rebased([StringElement("users"), StringElement("name")], [FieldName("users"), ListIndex(3)])
         == [FieldName("users"), ListIndex(3), FieldName("name")]
  {
    var q := [FieldName("users"), ListIndex(3)];
    assert q[..1] == [FieldName("users")];
    assert LastNameIndex(q) == 0;
    assert [StringElement("users"), StringElement("name")][1..][..0] == [];
  }

  // ---------------------------------------------------------------------
  // Reporting
  // ---------------------------------------------------------------------

  /** Whether a remote error reports a failed HTTP request. */
  predicate IsHttpError(e: Error) {
    e.code == Some(HttpRequestException)
  }

  /** The error reported locally for one remote error. */
  function Annotated(schemaName: string, path: Path, fieldLocation: Location, e: Error): (r: Error)
    requires IsFieldPath(path)
    ensures r.message == e.message && r.code == e.code && r.exception == e.exception
    ensures r.extensions.Keys == e.extensions.Keys + {RemoteErrorField, SchemaNameErrorField}
    ensures r.extensions[RemoteErrorField] == RemoteError(e.(exception := None))
    ensures r.extensions[SchemaNameErrorField] == Text(schemaName)
    ensures forall k :: k in e.extensions && k != RemoteErrorField && k != SchemaNameErrorField ==>
      r.extensions[k] == e.extensions[k]
    ensures e.path.Some? ==>
      r.path == Some(PathToList(Rebased(e.path.value, path))) && r.locations == [fieldLocation]
    ensures e.path.None? && IsHttpError(e) ==>
      r.path == Some(PathToList(path)) && r.locations == [fieldLocation]
    ensures e.path.None? && !IsHttpError(e) ==> r.path == None && r.locations == e.locations
  {
    var extensions := e.extensions[RemoteErrorField := RemoteError(e.(exception := None))]
                                  [SchemaNameErrorField := Text(schemaName)];
    if e.path.Some? then
      e.(extensions := extensions, path := Some(PathToList(Rebased(e.path.value, path))),
         locations := [fieldLocation])
    else if IsHttpError(e) then
      e.(extensions := extensions, path := Some(PathToList(path)), locations := [fieldLocation])
    else
      e.(extensions := extensions)
  }

  function AnnotatedAll(schemaName: string, path: Path, fieldLocation: Location, errors: seq<Error>)
    : seq<Error>
    requires IsFieldPath(path)
  {
    seq(|errors|, i requires 0 <= i < |errors| => Annotated(schemaName, path, fieldLocation, errors[i]))
  }

  /** Every reported error names the delegating schema, one per remote
      error. */
  lemma AnnotatedAllTagged(schemaName: string, path: Path, fieldLocation: Location, errors: seq<Error>)
    requires IsFieldPath(path)
    ensures |AnnotatedAll(schemaName, path, fieldLocation, errors)| == |errors|
    ensures forall e :: e in AnnotatedAll(schemaName, path, fieldLocation, errors) ==>
      e.extensions[SchemaNameErrorField] == Text(schemaName)
  {
    var all := AnnotatedAll(schemaName, path, fieldLocation, errors);
    forall e | e in all
      ensures e.extensions[SchemaNameErrorField] == Text(schemaName)
    {
      var i :| 0 <= i < |all| && all[i] == e;
      assert e == Annotated(schemaName, path, fieldLocation, errors[i]);
    }
  }

  /** The loop of ReportErrors: the errors handed to `context.ReportError`,
      one per remote error and in the same order. */
  method ReportErrors(schemaName: string, path: Path, fieldLocation: Location, errors: seq<Error>)
    returns (reported: seq<Error>)
    requires IsFieldPath(path)
    ensures reported == AnnotatedAll(schemaName, path, fieldLocation, errors)
    ensures |reported| == |errors|
    ensures forall i :: 0 <= i < |errors| ==>
      reported[i].extensions[SchemaNameErrorField] == Text(schemaName)
      && reported[i].extensions[RemoteErrorField] == RemoteError(errors[i].(exception := None))
  {
    reported := [];
    for i := 0 to |errors|
      invariant reported == AnnotatedAll(schemaName, path, fieldLocation, errors[..i])
    {
      var e := errors[i];
      var extensions := e.extensions[RemoteErrorField := RemoteError(e.(exception := None))]
                                    [SchemaNameErrorField := Text(schemaName)];
      var built := e.(extensions := extensions);
      if e.path.Some? {
        var local := RewriteErrorPath(e.path.value, path);
        built := built.(path := Some(PathToList(local)), locations := [fieldLocation]);
      } else if IsHttpError(e) {
        built := built.(path := Some(PathToList(path)), locations := [fieldLocation]);
      }
      reported := reported + [built];
    }
    assert errors[..|errors|] == errors;
  }
}
