/**
 * The cursor locator of src/lib.rs: `CursorLocation` and
 * `find_location_on_ast`, an ordered chain of kind and text tests on the
 * smallest named node at the cursor and, at top level, on the node the
 * leftward probe finds.
 */
module Locator {

  import opened Optional
  import opened Wrappers
  import opened SyntaxTree
  import opened Navigation

  /** Where the cursor sits, as far as completion is concerned. */
  datatype CursorLocation =
    | Unknown
    | Table
    | Field                         // at a field declaration
    | FieldAttribute
    | FieldAttributeList            // on a field's attribute list
    | Enum
    | TableFieldTable               // inside a relationship, at its table part
    | TableFieldField(table: string)  // inside a relationship, after `table.`

  /** The tests before the probe let the lookup reach it: the cursor is at top level. */
  predicate ReachesProbe(t: Node, hit: Path)
    requires ValidPath(t, hit)
  {
    && At(t, hit).kind != FieldAttributeListKind
    && ParentKind(t, hit) != Some(FieldDeclarationListKind)
    && ParentKind(t, hit) != Some(TableDefinitionKind)
    && (At(t, hit).kind == ProjectFileKind || At(t, hit).kind == FieldDeclarationListKind)
  }

  /**
   * What src/lib.rs:251 unwraps: a probed `.` that is not already classified
   * by its `cardinality_op` parent has a previous sibling.
   */
  predicate ProbedDotHasPrevSibling(t: Node, q: Path)
    requires ValidPath(t, q)
  {
    At(t, q).text == "." && ParentKind(t, q) != Some(CardinalityOpKind) ==> PrevSibling(t, q).Some?
  }

  /** The locator's unwraps hold at this position. */
  predicate LocatorDefined(t: Node, editPosition: LspPosition)
  {
    var currentPos := PointFromLsp(editPosition);
    var hit := NamedDescendantForPoint(t, currentPos);
    ReachesProbe(t, hit) && Probe(t, currentPos).Some? ==> ProbedDotHasPrevSibling(t, Probe(t, currentPos).value)
  }

  /** The classification of the node the probe found (src/lib.rs:244-257). */
  function ClassifyProbed(t: Node, q: Path): (r: CursorLocation)
    requires ValidPath(t, q) && ProbedDotHasPrevSibling(t, q)
    ensures r == TableFieldTable <==> At(t, q).text == ":" || ParentKind(t, q) == Some(CardinalityOpKind)
    ensures r.TableFieldField? <==> At(t, q).text == "." && ParentKind(t, q) != Some(CardinalityOpKind)
    ensures r.TableFieldField? ==> r.table == At(t, PrevSibling(t, q).value).text
    ensures r == Unknown <==> At(t, q).text != ":" && At(t, q).text != "." && ParentKind(t, q) != Some(CardinalityOpKind)
  {
    var nodeText := At(t, q).text;
    if nodeText == ":" || ParentKind(t, q) == Some(CardinalityOpKind) then TableFieldTable
    else if nodeText == "." then TableFieldField(At(t, PrevSibling(t, q).value).text)
    else Unknown
  }

  /**
   * `find_location_on_ast`. The lookup of the smallest named node cannot fail
   * (tree-sitter answers the root at worst). The probe is the leftward probe
   * with its point moved, `Navigation.Probe`. Only five of the eight
   * locations can come out.
   */
  function FindLocationOnAst(t: Node, editPosition: LspPosition): (r: CursorLocation)
    requires LocatorDefined(t, editPosition)
    ensures !r.Table? && !r.FieldAttribute? && !r.Enum?
  {
    var currentPos := PointFromLsp(editPosition);
    var currentNode := NamedDescendantForPoint(t, currentPos);
    var currentNodeKind := At(t, currentNode).kind;
    var parentKind := ParentKind(t, currentNode);
    if currentNodeKind == FieldAttributeListKind then FieldAttributeList
    else if parentKind == Some(FieldDeclarationListKind) || parentKind == Some(TableDefinitionKind) then Field
    else if currentNodeKind != ProjectFileKind && currentNodeKind != FieldDeclarationListKind then Unknown
    else
      match Probe(t, currentPos)
      case None => Unknown
      case Some(q) => ClassifyProbed(t, q)
  }

  /** The first test: the attribute list location is answered exactly for an attribute-list node. */
  lemma FieldAttributeListExactly(t: Node, editPosition: LspPosition)
    requires LocatorDefined(t, editPosition)
    ensures FindLocationOnAst(t, editPosition) == FieldAttributeList
        <==> At(t, NamedDescendantForPoint(t, PointFromLsp(editPosition))).kind == FieldAttributeListKind
  {
  }

  /** The second test: a field location is answered exactly inside a field list or a table definition. */
  lemma FieldExactly(t: Node, editPosition: LspPosition)
    requires LocatorDefined(t, editPosition)
    ensures FindLocationOnAst(t, editPosition) == Field
        <==> && At(t, NamedDescendantForPoint(t, PointFromLsp(editPosition))).kind != FieldAttributeListKind
             && ParentKind(t, NamedDescendantForPoint(t, PointFromLsp(editPosition))) in {Some(FieldDeclarationListKind), Some(TableDefinitionKind)}
  {
  }

  /** Below top level, nothing but the first two tests can answer anything but `Unknown`. */
  lemma BelowTopLevelUnknown(t: Node, editPosition: LspPosition)
    requires LocatorDefined(t, editPosition)
    requires !ReachesProbe(t, NamedDescendantForPoint(t, PointFromLsp(editPosition)))
    ensures FindLocationOnAst(t, editPosition) in {FieldAttributeList, Field, Unknown}
  {
  }

  /**
   * A relationship location is only answered at top level, for a node the
   * probe found: the smallest node at the rightmost column c in 1..cursor
   * of the cursor's row whose smallest node is not a project_file.
   */
  lemma RelationshipComesFromProbe(t: Node, editPosition: LspPosition) returns (c: nat)
    requires LocatorDefined(t, editPosition)
    requires FindLocationOnAst(t, editPosition).TableFieldTable? || FindLocationOnAst(t, editPosition).TableFieldField?
    ensures ReachesProbe(t, NamedDescendantForPoint(t, PointFromLsp(editPosition)))
    ensures 1 <= c <= editPosition.character
    ensures KindAt(t, editPosition.line, c) != ProjectFileKind
    ensures forall c' :: c < c' <= editPosition.character ==> KindAt(t, editPosition.line, c') == ProjectFileKind
    ensures Probe(t, PointFromLsp(editPosition)) == Some(DescendantForPoint(t, TreePoint(editPosition.line, c)))
    ensures FindLocationOnAst(t, editPosition) == ClassifyProbed(t, Probe(t, PointFromLsp(editPosition)).value)
  {
    c := ProbeFindsRightmostColumn(t, PointFromLsp(editPosition));
  }

  /**
   * `TableField_Field` comes out exactly for a probed `.` (at top level) whose
   * parent is not a `cardinality_op`, and it carries the text of the node just
   * before the `.` under the same parent: the table part of `table.field`.
   */
  lemma TableFieldFieldExactly(t: Node, editPosition: LspPosition)
    requires LocatorDefined(t, editPosition)
    ensures var pos := PointFromLsp(editPosition);
            var found := ReachesProbe(t, NamedDescendantForPoint(t, pos)) && Probe(t, pos).Some?
              && At(t, Probe(t, pos).value).text == "."
              && ParentKind(t, Probe(t, pos).value) != Some(CardinalityOpKind);
            && (FindLocationOnAst(t, editPosition).TableFieldField? <==> found)
            && (found ==> FindLocationOnAst(t, editPosition)
                            == TableFieldField(At(t, PrevSibling(t, Probe(t, pos).value).value).text))
  {
  }

  /** At column 0 of a top-level line the probe looks at nothing, so the answer is `Unknown`. */
  lemma TopLevelColumnZeroUnknown(t: Node, editPosition: LspPosition)
    requires editPosition.character == 0
    requires ReachesProbe(t, NamedDescendantForPoint(t, PointFromLsp(editPosition)))
    ensures LocatorDefined(t, editPosition)
    ensures FindLocationOnAst(t, editPosition) == Unknown
  {
  }

  /**
   * `TableField_Table` comes out exactly for a probed node (at top level) that
   * is a `:` or whose parent is a `cardinality_op`, whatever its text.
   */
  lemma TableFieldTableExactly(t: Node, editPosition: LspPosition)
    requires LocatorDefined(t, editPosition)
    ensures var pos := PointFromLsp(editPosition);
            FindLocationOnAst(t, editPosition) == TableFieldTable
            <==> && ReachesProbe(t, NamedDescendantForPoint(t, pos)) && Probe(t, pos).Some?
                 && (At(t, Probe(t, pos).value).text == ":"
                     || ParentKind(t, Probe(t, pos).value) == Some(CardinalityOpKind))
  {
  }

}
