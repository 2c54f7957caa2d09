/**
 * The two tree walks of src/navigation.rs: the ancestor walk
 * `node_parent_identifier` and the leftward probe `search_valid_node`.
 */
module Navigation {

  import opened Optional
  import opened Wrappers
  import opened SyntaxTree

  // ---------------------------------------------------------------------------
  // node_parent_identifier
  // ---------------------------------------------------------------------------

  /**
   * The walk from ancestor `a` upwards: the `field` child text of the first
   * node of kind `kind`; none when that node lacks the child, when a
   * project_file node comes first, or when the root is passed.
   */
  function LookupFrom(t: Node, a: Path, kind: string, field: string): Option<string>
    requires ValidPath(t, a)
    decreases |a|
  {
    var n := At(t, a);
    if n.kind == kind then FieldText(n, field)
    else if n.kind == ProjectFileKind then None
    else if a == [] then None
    else
      ParentValid(t, a);
      LookupFrom(t, a[..|a| - 1], kind, field)
  }

  /** What `node_parent_identifier` returns: the walk starts at the node's parent. */
  function ParentIdentifier(t: Node, p: Path, kind: string, field: string): Option<string>
    requires ValidPath(t, p)
  {
    match Parent(p)
    case None => None
    case Some(a) => ParentValid(t, p); LookupFrom(t, a, kind, field)
  }

  /**
   * `node_parent_identifier`: walks up from the node's parent, one level per
   * iteration, until a node of kind `kind` (answer its `field` child's text)
   * or a project_file node (answer none), or until there is no parent.
   */
  method NodeParentIdentifier(t: Node, node: Path, kind: string, fieldName: string) returns (r: Option<string>)
    requires ValidPath(t, node)
    ensures r == ParentIdentifier(t, node, kind, fieldName)
  {
    if node != [] {
      ParentValid(t, node);
    }
    var mynodeParent := Parent(node);
    while mynodeParent.Some?
      invariant mynodeParent.Some? ==> ValidPath(t, mynodeParent.value)
      invariant ParentIdentifier(t, node, kind, fieldName)
        == if mynodeParent.Some? then LookupFrom(t, mynodeParent.value, kind, fieldName) else None
      decreases if mynodeParent.Some? then |mynodeParent.value| + 1 else 0
    {
      var parent := mynodeParent.value;
      var parentKind := At(t, parent).kind;
      if parentKind == kind {
        var child := ChildByFieldName(At(t, parent), fieldName);
        if child.None? {
          return None;
        }
        return Some(At(t, parent).children[child.value].text);
      } else if parentKind == ProjectFileKind {
        return None;
      }
      if parent != [] {
        ParentValid(t, parent);
      }
      mynodeParent := Parent(parent);
    }
    return None;
  }

  /**
   * Depth `k` (at most |a|) holds the nearest node of kind `kind` on the
   * walk from `a` upwards: no node strictly below it on the walk has that kind
   * or is a project_file.
   */
  predicate NearestOnWalk(t: Node, a: Path, kind: string, k: nat)
    requires ValidPath(t, a)
  {
    && k <= |a|
    && Ancestor(t, a, k).kind == kind
    && forall j :: k < j <= |a| ==> Ancestor(t, a, j).kind != kind && Ancestor(t, a, j).kind != ProjectFileKind
  }

  lemma {:induction false} LookupFromNearest(t: Node, a: Path, kind: string, field: string, k: nat)
    requires ValidPath(t, a) && NearestOnWalk(t, a, kind, k)
    ensures LookupFrom(t, a, kind, field) == FieldText(Ancestor(t, a, k), field)
  {
    assert a[..|a|] == a;
    assert Ancestor(t, a, |a|) == At(t, a);
    if k < |a| {
      ParentValid(t, a);
      var b := a[..|a| - 1];
      forall j | 0 <= j <= |b|
        ensures Ancestor(t, b, j) == Ancestor(t, a, j)
      {
        assert b[..j] == a[..j];
      }
      assert NearestOnWalk(t, b, kind, k);
      LookupFromNearest(t, b, kind, field, k);
    }
  }

  lemma {:induction false} LookupFromNone(t: Node, a: Path, kind: string, field: string)
    requires ValidPath(t, a)
    requires forall k :: 0 <= k <= |a| ==> !NearestOnWalk(t, a, kind, k)
    ensures LookupFrom(t, a, kind, field) == None
  {
    assert a[..|a|] == a;
    assert !NearestOnWalk(t, a, kind, |a|);
    if At(t, a).kind != ProjectFileKind && a != [] {
      ParentValid(t, a);
      var b := a[..|a| - 1];
      forall j | 0 <= j <= |b|
        ensures Ancestor(t, b, j) == Ancestor(t, a, j)
      {
        assert b[..j] == a[..j];
      }
      forall k | 0 <= k <= |b|
        ensures !NearestOnWalk(t, b, kind, k)
      {
        assert !NearestOnWalk(t, a, kind, k);
      }
      LookupFromNone(t, b, kind, field);
    }
  }

  /**
   * Depth `k` holds the nearest STRICT ancestor of the node at `p` of kind
   * `kind`: no ancestor strictly between it and the node has that kind or is
   * a project_file. The node itself (depth |p|) is never considered.
   */
  predicate NearestAncestor(t: Node, p: Path, kind: string, k: nat)
    requires ValidPath(t, p)
  {
    && k < |p|
    && Ancestor(t, p, k).kind == kind
    && forall j :: k < j < |p| ==> Ancestor(t, p, j).kind != kind && Ancestor(t, p, j).kind != ProjectFileKind
  }

  /** The ancestor walk of a node at `p` is the walk from its parent. */
  lemma WalkFromParent(t: Node, p: Path)
    requires ValidPath(t, p) && p != []
    ensures ValidPath(t, p[..|p| - 1])
    ensures forall j :: 0 <= j < |p| ==> Ancestor(t, p[..|p| - 1], j) == Ancestor(t, p, j)
  {
    ParentValid(t, p);
    forall j | 0 <= j < |p|
      ensures Ancestor(t, p[..|p| - 1], j) == Ancestor(t, p, j)
    {
      assert p[..|p| - 1][..j] == p[..j];
    }
  }

  /**
   * `node_parent_identifier` answers with the `field` child of the nearest
   * ancestor of kind `kind`; if that ancestor lacks the child the answer is
   * none, and no higher ancestor is searched.
   */
  lemma ParentIdentifierIsNearestField(t: Node, p: Path, kind: string, field: string, k: nat)
    requires ValidPath(t, p) && NearestAncestor(t, p, kind, k)
    ensures ParentIdentifier(t, p, kind, field) == FieldText(Ancestor(t, p, k), field)
  {
    WalkFromParent(t, p);
    var b := p[..|p| - 1];
    assert Ancestor(t, b, k) == Ancestor(t, p, k);
    forall j | k < j <= |b|
      ensures Ancestor(t, b, j).kind != kind && Ancestor(t, b, j).kind != ProjectFileKind
    {
      assert Ancestor(t, b, j) == Ancestor(t, p, j);
    }
    assert NearestOnWalk(t, b, kind, k);
    LookupFromNearest(t, b, kind, field, k);
  }

  /**
   * Without a nearest ancestor of kind `kind` (a project_file ancestor comes
   * first, or the parent chain runs out) the answer is none.
   */
  lemma ParentIdentifierNone(t: Node, p: Path, kind: string, field: string)
    requires ValidPath(t, p)
    requires forall k :: 0 <= k < |p| ==> !NearestAncestor(t, p, kind, k)
    ensures ParentIdentifier(t, p, kind, field) == None
  {
    if p != [] {
      WalkFromParent(t, p);
      var b := p[..|p| - 1];
      forall k | 0 <= k <= |b|
        ensures !NearestOnWalk(t, b, kind, k)
      {
        assert !NearestAncestor(t, p, kind, k);
      }
      LookupFromNone(t, b, kind, field);
    }
  }

  /**
   * A project_file ancestor with no ancestor of kind `kind` at or below it
   * stops the walk with none.
   */
  lemma ParentIdentifierStopsAtProjectFile(t: Node, p: Path, kind: string, field: string, s: nat)
    requires ValidPath(t, p) && s < |p|
    requires Ancestor(t, p, s).kind == ProjectFileKind
    requires forall j :: s <= j < |p| ==> Ancestor(t, p, j).kind != kind
    ensures ParentIdentifier(t, p, kind, field) == None
  {
    forall k | 0 <= k < |p|
      ensures !NearestAncestor(t, p, kind, k)
    {
      if k > s {
        assert Ancestor(t, p, k).kind != kind;
      } else if k < s {
        assert !(Ancestor(t, p, s).kind != ProjectFileKind);
      }
    }
    ParentIdentifierNone(t, p, kind, field);
  }

  // ---------------------------------------------------------------------------
  // search_valid_node
  // ---------------------------------------------------------------------------

  /** One iteration of the probe loop: it exits with an answer or continues at a point. */
  datatype ProbeStep = Exit(found: Option<Path>) | Continue(at: TreePoint)

  /** The kind of the smallest node containing (row, column). */
  function KindAt(t: Node, row: nat, column: nat): string
  {
    At(t, DescendantForPoint(t, TreePoint(row, column))).kind
  }

  /**
   * One iteration of the loop of `search_valid_node` as written: look up the
   * smallest node at the point; leave with none when the column is 0
   * (`checked_sub(1)?`); leave with the node when it is not a project_file;
   * otherwise go round again at the SAME point, because the result of
   * `checked_sub` is discarded.
   */
  function SearchStepAsWritten(t: Node, pt: TreePoint): (r: ProbeStep)
    ensures r.Continue? ==> r.at == pt
  {
    var descendant := DescendantForPoint(t, pt);
    if pt.column == 0 then Exit(None)
    else if At(t, descendant).kind != ProjectFileKind then Exit(Some(descendant))
    else Continue(pt)
  }

  /** `fuel` iterations of the loop as written. */
  function RunAsWritten(t: Node, pt: TreePoint, fuel: nat): ProbeStep
    decreases fuel
  {
    if fuel == 0 then Continue(pt)
    else
      match SearchStepAsWritten(t, pt)
      case Exit(r) => Exit(r)
      case Continue(q) => RunAsWritten(t, q, fuel - 1)
  }

  /**
   * As written, a non-zero column whose smallest node is a project_file
   * makes the loop run forever: after any number of iterations it is still
   * going, at the same point.
   */
  lemma {:induction false} AsWrittenNeverReturns(t: Node, pt: TreePoint, fuel: nat)
    requires pt.column > 0 && KindAt(t, pt.row, pt.column) == ProjectFileKind
    ensures RunAsWritten(t, pt, fuel) == Continue(pt)
  {
    if fuel > 0 {
      AsWrittenNeverReturns(t, pt, fuel - 1);
    }
  }

  /** A document holding nothing but its root: the probe at column 1 spins as written. */
  lemma AsWrittenSpinsOnBareRoot(fuel: nat)
    ensures var t := Node(ProjectFileKind, true, None, "", TreeRange(0, 1, TreePoint(0, 0), TreePoint(0, 1)), []);
            RunAsWritten(t, TreePoint(0, 1), fuel) == Continue(TreePoint(0, 1))
            && Probe(t, TreePoint(0, 1)) == None
  {
    var t := Node(ProjectFileKind, true, None, "", TreeRange(0, 1, TreePoint(0, 0), TreePoint(0, 1)), []);
    assert KindAt(t, 0, 1) == ProjectFileKind;
    AsWrittenNeverReturns(t, TreePoint(0, 1), fuel);
  }

  /**
   * Whenever the loop as written does exit, it answers what the intended
   * probe answers: the two differ only where the code never returns.
   */
  lemma AsWrittenAgreesWhenItExits(t: Node, pt: TreePoint, fuel: nat)
    requires RunAsWritten(t, pt, fuel).Exit?
    ensures RunAsWritten(t, pt, fuel).found == Probe(t, pt)
  {
    if pt.column > 0 && KindAt(t, pt.row, pt.column) == ProjectFileKind {
      AsWrittenNeverReturns(t, pt, fuel);
    }
  }

  /**
   * One iteration of the loop as its doc comment intends: the same tests, but
   * the next round is one column to the left.
   */
  function SearchStep(t: Node, pt: TreePoint): (r: ProbeStep)
    ensures r.Continue? ==> r.at.row == pt.row && r.at.column + 1 == pt.column
    ensures r.Exit? && r.found.Some? ==> ValidPath(t, r.found.value) && At(t, r.found.value).kind != ProjectFileKind
  {
    var descendant := DescendantForPoint(t, pt);
    if pt.column == 0 then Exit(None)
    else if At(t, descendant).kind != ProjectFileKind then Exit(Some(descendant))
    else Continue(TreePoint(pt.row, pt.column - 1))
  }

  /**
   * The leftward probe as intended: iterate `SearchStep` until it exits.
   * A node it finds is never a project_file, and column 0 finds nothing.
   */
  function Probe(t: Node, pt: TreePoint): (r: Option<Path>)
    ensures r.Some? ==> ValidPath(t, r.value) && At(t, r.value).kind != ProjectFileKind
    ensures pt.column == 0 ==> r.None?
    decreases pt.column
  {
    match SearchStep(t, pt)
    case Exit(found) => found
    case Continue(q) => Probe(t, q)
  }

  /**
   * `search_valid_node` with the moved point assigned back: the probe looks at
   * columns c, c - 1, ..., 1 of the row and answers the first smallest node
   * that is not a project_file. Column 0 itself is never looked at.
   */
  method SearchValidNode(currentPoint: TreePoint, t: Node) returns (r: Option<Path>)
    ensures r == Probe(t, currentPoint)
  {
    var point := currentPoint;
    while true
      invariant Probe(t, point) == Probe(t, currentPoint)
      decreases point.column
    {
      var descendantNode := DescendantForPoint(t, point);
      if point.column == 0 {
        return None;
      }
      point := TreePoint(point.row, point.column - 1);
      if At(t, descendantNode).kind != ProjectFileKind {
        return Some(descendantNode);
      }
    }
  }

  /** Where the smallest node is a project_file, the probe moves on to the column to the left. */
  lemma ProbeSkipsRoot(t: Node, pt: TreePoint)
    requires pt.column > 0 && KindAt(t, pt.row, pt.column) == ProjectFileKind
    ensures Probe(t, pt) == Probe(t, TreePoint(pt.row, pt.column - 1))
  {
  }

  /** A probe that finds nothing saw a project_file at its first column. */
  lemma ProbeNoneSawRoot(t: Node, pt: TreePoint)
    requires pt.column > 0 && Probe(t, pt).None?
    ensures KindAt(t, pt.row, pt.column) == ProjectFileKind
  {
  }

  /**
   * The probe finds nothing only when every column in 1..c of the row has a
   * project_file as its smallest node ...
   */
  lemma {:induction false} ProbeNoneAllRoot(t: Node, pt: TreePoint)
    requires Probe(t, pt).None?
    ensures forall c :: 1 <= c <= pt.column ==> KindAt(t, pt.row, c) == ProjectFileKind
    decreases pt.column
  {
    if pt.column > 0 {
      ProbeNoneSawRoot(t, pt);
      ProbeSkipsRoot(t, pt);
      ProbeNoneAllRoot(t, TreePoint(pt.row, pt.column - 1));
      forall c | 1 <= c <= pt.column
        ensures KindAt(t, pt.row, c) == ProjectFileKind
      {
        if c < pt.column {
          assert 1 <= c <= pt.column - 1;
        } else {
          assert TreePoint(pt.row, c) == pt;
        }
      }
    }
  }

  /** ... and then it does find nothing. */
  lemma {:induction false} AllRootProbeNone(t: Node, pt: TreePoint)
    requires forall c :: 1 <= c <= pt.column ==> KindAt(t, pt.row, c) == ProjectFileKind
    ensures Probe(t, pt).None?
    decreases pt.column
  {
    if pt.column > 0 {
      ProbeSkipsRoot(t, pt);
      AllRootProbeNone(t, TreePoint(pt.row, pt.column - 1));
    }
  }

  /**
   * A node the probe finds is the smallest node at the rightmost column c in
   * 1..pt.column whose smallest node is not a project_file.
   */
  lemma {:induction false} ProbeFindsRightmostColumn(t: Node, pt: TreePoint) returns (c: nat)
    requires Probe(t, pt).Some?
    ensures 1 <= c <= pt.column
    ensures Probe(t, pt).value == DescendantForPoint(t, TreePoint(pt.row, c))
    ensures KindAt(t, pt.row, c) != ProjectFileKind
    ensures forall c' :: c < c' <= pt.column ==> KindAt(t, pt.row, c') == ProjectFileKind
    decreases pt.column
  {
    if KindAt(t, pt.row, pt.column) == ProjectFileKind {
      ProbeSkipsRoot(t, pt);
      c := ProbeFindsRightmostColumn(t, TreePoint(pt.row, pt.column - 1));
      forall c' | c < c' <= pt.column
        ensures KindAt(t, pt.row, c') == ProjectFileKind
      {
        if c' == pt.column {
          assert TreePoint(pt.row, c') == pt;
        }
      }
    } else {
      c := pt.column;
    }
  }

}
