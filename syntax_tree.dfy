/**
 * The syntax tree the core receives from tree-sitter, and the tree-sitter node
 * operations it calls (`parent`, `prev_sibling`, `next_sibling`,
 * `child_by_field_name`, `utf8_text`, `descendant_for_point_range`,
 * `named_descendant_for_point_range`).
 *
 * The parser is not part of this model: a tree is a value, and a node handle
 * is the path of child indices that leads to it from the root. A node's parent
 * is the path without its last index; its siblings share that parent. Each
 * node carries its own source text, which is what `utf8_text(source)` returns
 * for it.
 */
module SyntaxTree {

  import opened Optional
  import opened Wrappers

  /** Grammar kinds the core compares against. */
  const ProjectFileKind := "project_file"
  const TableDefinitionKind := "table_definition"
  const FieldDeclarationListKind := "field_declaration_list"
  const FieldDeclarationKind := "field_declaration"
  const FieldAttributeListKind := "field_attribute_list"
  const CardinalityOpKind := "cardinality_op"
  const IdentifierKind := "identifier"

  /**
   * A node: its grammar kind, whether it is named, the field name under which
   * its parent holds it (if any), its source text, its range, and all of its
   * children (named and anonymous) in source order.
   */
  datatype Node = Node(
    kind: string,
    named: bool,
    field: Option<string>,
    text: string,
    range: TreeRange,
    children: seq<Node>)

  /** A node handle: child indices from the root. */
  type Path = seq<nat>

  predicate ValidPath(t: Node, p: Path)
    decreases |p|
  {
    p == [] || (p[0] < |t.children| && ValidPath(t.children[p[0]], p[1..]))
  }

  /** The node a path leads to. */
  function At(t: Node, p: Path): Node
    requires ValidPath(t, p)
    decreases |p|
  {
    if p == [] then t else At(t.children[p[0]], p[1..])
  }

  /** Descending one more level from a valid path. */
  lemma {:induction false} AtAppend(t: Node, p: Path, i: nat)
    requires ValidPath(t, p) && i < |At(t, p).children|
    ensures ValidPath(t, p + [i]) && At(t, p + [i]) == At(t, p).children[i]
  {
    if p != [] {
      assert (p + [i])[1..] == p[1..] + [i];
      AtAppend(t.children[p[0]], p[1..], i);
    }
  }

  /** Every prefix of a valid path is valid: ancestors exist. */
  lemma {:induction false} PrefixValid(t: Node, p: Path, j: nat)
    requires ValidPath(t, p) && j <= |p|
    ensures ValidPath(t, p[..j])
  {
    if j > 0 {
      assert p[..j][1..] == p[1..][..j - 1];
      PrefixValid(t.children[p[0]], p[1..], j - 1);
    }
  }

  /** The path of a node's parent (tree-sitter's `parent`), none for the root. */
  function Parent(p: Path): (r: Option<Path>)
    ensures r.Some? <==> p != []
    ensures r.Some? ==> |r.value| + 1 == |p| && r.value == p[..|p| - 1]
  {
    if p == [] then None else Some(p[..|p| - 1])
  }

  /** A node is the child of its parent at the path's last index. */
  lemma {:induction false} ParentValid(t: Node, p: Path)
    requires ValidPath(t, p) && p != []
    ensures ValidPath(t, p[..|p| - 1])
    ensures p[|p| - 1] < |At(t, p[..|p| - 1]).children|
    ensures At(t, p) == At(t, p[..|p| - 1]).children[p[|p| - 1]]
  {
    if |p| > 1 {
      assert p[..|p| - 1][1..] == p[1..][..|p[1..]| - 1];
      ParentValid(t.children[p[0]], p[1..]);
    }
  }

  /** The ancestor at depth `j` of the node at `p` (depth 0 is the root, depth |p| the node). */
  function Ancestor(t: Node, p: Path, j: nat): Node
    requires ValidPath(t, p) && j <= |p|
  {
    PrefixValid(t, p, j);
    At(t, p[..j])
  }

  /** The kind of a node's parent, none for the root. */
  function ParentKind(t: Node, p: Path): Option<string>
    requires ValidPath(t, p)
  {
    if p == [] then None else Some(Ancestor(t, p, |p| - 1).kind)
  }

  /** tree-sitter's `prev_sibling`: the child before this one under the same parent. */
  function PrevSibling(t: Node, p: Path): (r: Option<Path>)
    requires ValidPath(t, p)
    ensures r.Some? ==> ValidPath(t, r.value) && |r.value| == |p| > 0
    ensures r.Some? ==> r.value[..|p| - 1] == p[..|p| - 1] && r.value[|p| - 1] + 1 == p[|p| - 1]
    ensures r.None? <==> p == [] || p[|p| - 1] == 0
  {
    if p == [] || p[|p| - 1] == 0 then None
    else
      ParentValid(t, p);
      var q := p[..|p| - 1];
      AtAppend(t, q, p[|p| - 1] - 1);
      assert (q + [p[|p| - 1] - 1])[..|p| - 1] == q;
      Some(q + [p[|p| - 1] - 1])
  }

  /** tree-sitter's `next_sibling`: the child after this one under the same parent. */
  function NextSibling(t: Node, p: Path): (r: Option<Path>)
    requires ValidPath(t, p)
    ensures r.Some? ==> ValidPath(t, r.value) && |r.value| == |p| > 0
    ensures r.Some? ==> r.value[..|p| - 1] == p[..|p| - 1] && r.value[|p| - 1] == p[|p| - 1] + 1
    ensures r.None? <==> p == [] || p[|p| - 1] + 1 == |Ancestor(t, p, |p| - 1).children|
  {
    if p == [] then None
    else
      ParentValid(t, p);
      var q := p[..|p| - 1];
      if p[|p| - 1] + 1 < |At(t, q).children| then
        AtAppend(t, q, p[|p| - 1] + 1);
        assert (q + [p[|p| - 1] + 1])[..|p| - 1] == q;
        Some(q + [p[|p| - 1] + 1])
      else
        None
  }

  /** The first child at index `i` or later that its parent holds under `field`. */
  function FieldChildFrom(cs: seq<Node>, field: string, i: nat): (r: Option<nat>)
    requires i <= |cs|
    ensures r.Some? ==> i <= r.value < |cs| && cs[r.value].field == Some(field)
    ensures r.Some? ==> forall j :: i <= j < r.value ==> cs[j].field != Some(field)
    ensures r.None? ==> forall j :: i <= j < |cs| ==> cs[j].field != Some(field)
    decreases |cs| - i
  {
    if i == |cs| then None
    else if cs[i].field == Some(field) then Some(i)
    else FieldChildFrom(cs, field, i + 1)
  }

  /** tree-sitter's `child_by_field_name`: the first child held under `field`. */
  function ChildByFieldName(n: Node, field: string): (r: Option<nat>)
    ensures r.Some? ==> r.value < |n.children| && n.children[r.value].field == Some(field)
    ensures r.None? <==> forall j :: 0 <= j < |n.children| ==> n.children[j].field != Some(field)
  {
    FieldChildFrom(n.children, field, 0)
  }

  /** The text of the child held under `field`, if there is one. */
  function FieldText(n: Node, field: string): Option<string>
  {
    match ChildByFieldName(n, field)
    case None => None
    case Some(i) => Some(n.children[i].text)
  }

  /** Lexicographic order of points. */
  predicate PointBefore(a: TreePoint, b: TreePoint)
  {
    a.row < b.row || (a.row == b.row && a.column < b.column)
  }

  /** The node's range contains the point: start <= p < end. */
  predicate Covers(n: Node, p: TreePoint)
  {
    !PointBefore(p, n.range.startPoint) && PointBefore(p, n.range.endPoint)
  }

  /** The first child at index `i` or later whose end lies after `p`. */
  function FirstEndingAfter(cs: seq<Node>, p: TreePoint, i: nat): (r: Option<nat>)
    requires i <= |cs|
    ensures r.Some? ==> i <= r.value < |cs| && PointBefore(p, cs[r.value].range.endPoint)
    ensures r.Some? ==> forall j :: i <= j < r.value ==> !PointBefore(p, cs[j].range.endPoint)
    ensures r.None? ==> forall j :: i <= j < |cs| ==> !PointBefore(p, cs[j].range.endPoint)
    decreases |cs| - i
  {
    if i == |cs| then None
    else if PointBefore(p, cs[i].range.endPoint) then Some(i)
    else FirstEndingAfter(cs, p, i + 1)
  }

  /**
   * One step of tree-sitter's point lookup: the first child whose end lies
   * after `p`, provided it does not start after `p`.
   */
  function DescentStep(n: Node, p: TreePoint): (r: Option<nat>)
    ensures r.Some? ==> r.value < |n.children| && Covers(n.children[r.value], p)
    ensures r.Some? ==> forall j :: 0 <= j < r.value ==> !Covers(n.children[j], p)
  {
    match FirstEndingAfter(n.children, p, 0)
    case None => None
    case Some(i) => if PointBefore(p, n.children[i].range.startPoint) then None else Some(i)
  }

  /**
   * The path, relative to `n`, of the last node that the lookup passes on its
   * way down towards `p` and that counts (every node when anonymous nodes
   * count, otherwise named ones); [] when none below `n` counts.
   */
  function DescendRelevant(n: Node, p: TreePoint, includeAnonymous: bool): (r: Path)
    ensures ValidPath(n, r)
    ensures r != [] ==> Covers(At(n, r), p) && (includeAnonymous || At(n, r).named)
    ensures includeAnonymous ==> DescentStep(At(n, r), p).None?
    decreases n
  {
    match DescentStep(n, p)
    case None => []
    case Some(i) =>
      var sub := DescendRelevant(n.children[i], p, includeAnonymous);
      assert ([i] + sub)[1..] == sub;
      if sub != [] then [i] + sub
      else if includeAnonymous || n.children[i].named then [i]
      else []
  }

  /**
   * tree-sitter's `descendant_for_point_range(p, p)`: the smallest node
   * containing `p` (the root when no child does). It always yields a node.
   */
  function DescendantForPoint(t: Node, p: TreePoint): (r: Path)
    ensures ValidPath(t, r)
    ensures r != [] ==> Covers(At(t, r), p)
    ensures DescentStep(At(t, r), p).None?
  {
    DescendRelevant(t, p, true)
  }

  /** tree-sitter's `named_descendant_for_point_range(p, p)`: the smallest named node containing `p`, or the root. */
  function NamedDescendantForPoint(t: Node, p: TreePoint): (r: Path)
    ensures ValidPath(t, r)
    ensures r != [] ==> Covers(At(t, r), p) && At(t, r).named
  {
    DescendRelevant(t, p, false)
  }

  /** A path below child `i` leads where the rest of it leads from that child. */
  lemma AtCons(n: Node, i: nat, s: Path)
    requires i < |n.children| && ValidPath(n.children[i], s)
    ensures ValidPath(n, [i] + s) && At(n, [i] + s) == At(n.children[i], s)
  {
    assert ([i] + s)[0] == i && ([i] + s)[1..] == s;
  }

  /**
   * The named lookup follows the same descent as the plain one and keeps the
   * last named node it passes: its answer is a prefix of the plain answer's
   * path, and every node on that path below it is anonymous.
   */
  lemma {:induction false} DescendRelevantNamedPrefix(n: Node, p: TreePoint)
    ensures var a, b := DescendRelevant(n, p, true), DescendRelevant(n, p, false);
            && |b| <= |a| && a[..|b|] == b
            && forall j :: |b| < j <= |a| ==> ValidPath(n, a[..j]) && !At(n, a[..j]).named
    decreases n
  {
    var a, b := DescendRelevant(n, p, true), DescendRelevant(n, p, false);
    match DescentStep(n, p)
    case None =>
    case Some(i) =>
      var c := n.children[i];
      var subA, subB := DescendRelevant(c, p, true), DescendRelevant(c, p, false);
      DescendRelevantNamedPrefix(c, p);
      assert a == [i] + subA;
      forall j | |b| < j <= |a|
        ensures ValidPath(n, a[..j]) && !At(n, a[..j]).named
      {
        assert a[..j] == [i] + subA[..j - 1];
        if j == 1 {
          assert b == [] && subB == [];
          assert subA[..0] == [];
          AtCons(n, i, []);
        } else {
          PrefixValid(c, subA, j - 1);
          AtCons(n, i, subA[..j - 1]);
        }
      }
      if subB != [] {
        assert a[..|b|] == [i] + subA[..|subB|];
      } else if c.named {
        assert a[..1] == [i];
      }
  }

  /**
   * `named_descendant_for_point_range` answers the last named node on the
   * path to the node `descendant_for_point_range` answers (the root when no
   * node below it is named).
   */
  lemma NamedDescendantIsLastNamed(t: Node, p: TreePoint)
    ensures var a, b := DescendantForPoint(t, p), NamedDescendantForPoint(t, p);
            && |b| <= |a| && a[..|b|] == b
            && forall j :: |b| < j <= |a| ==> ValidPath(t, a[..j]) && !At(t, a[..j]).named
  {
    DescendRelevantNamedPrefix(t, p);
  }

}
