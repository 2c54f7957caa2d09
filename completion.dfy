/**
 * `complete_at_point` of src/providers/completion.rs: an ordered decision
 * table from the cursor location and the trigger character to a list of
 * candidates. The first test that matches answers.
 *
 * `tables()` lists the keys of a hash map, whose order is unspecified; the
 * model fixes one order per key set, which makes the table-name answer, and
 * with it the whole decision table, ghost.
 */
module Completion {

  import opened Optional
  import opened Wrappers
  import opened SyntaxTree
  import opened Identifiers
  import opened Locator

  /** `FIELD_ATTRIBUTES`, in declared order. */
  const FieldAttributes: seq<string> := ["not null", "null", "pk", "unique", "increment", "ref:"]

  /** `PRIMITIVE_TYPES`, in declared order. */
  const PrimitiveTypes: seq<string> := ["int", "float", "text", "varchar"]

  /** The `text_name`s of `fields`, in stored order. */
  function TextNames(fields: seq<FieldInfo>): (r: seq<string>)
    ensures |r| == |fields|
    ensures forall i :: 0 <= i < |fields| ==> r[i] == fields[i].textName
  {
    seq(|fields|, i requires 0 <= i < |fields| => fields[i].textName)
  }

  /** The decision table, given the location the locator answered. */
  ghost function CompleteForLocation(location: CursorLocation, trigger: Option<string>, identifiers: IdentifiersMap): (r: Option<seq<string>>)
    reads identifiers
    ensures r.Some? <==> if location.TableFieldField? then location.table in identifiers.tablesWithFields
                         else location == TableFieldTable || location == Field || location == FieldAttributeList
                              || trigger == Some("[")
  {
    if location == TableFieldTable then
      identifiers.Tables()
    else if location.TableFieldField? then
      match identifiers.FieldsOfTable(location.table)
      case None => None
      case Some(fields) => Some(TextNames(fields))
    else if location == Field then
      Some(identifiers.enumsWithoutDiscriminants + PrimitiveTypes)
    else if trigger == Some("[") || location == FieldAttributeList then
      Some(FieldAttributes)
    else
      None
  }

  /**
   * `complete_at_point`: locate the cursor, then consult the decision table.
   * The parameters that only feed the locator are the tree and the position;
   * the completion context contributes its trigger character.
   */
  ghost function CompleteAtPoint(t: Node, identifiers: IdentifiersMap, editPosition: LspPosition, trigger: Option<string>): (r: Option<seq<string>>)
    requires LocatorDefined(t, editPosition)
    reads identifiers
    ensures FindLocationOnAst(t, editPosition) == Unknown ==> (r.Some? <==> trigger == Some("["))
  {
    CompleteForLocation(FindLocationOnAst(t, editPosition), trigger, identifiers)
  }

  /** A relationship's table part is offered every key once: table names and aliases alike. */
  lemma TablePartOffersEveryKey(trigger: Option<string>, identifiers: IdentifiersMap)
    ensures var r := CompleteForLocation(TableFieldTable, trigger, identifiers);
            && r.Some?
            && (forall k :: k in r.value <==> k in identifiers.tablesWithFields)
            && |r.value| == |identifiers.tablesWithFields|
  {
  }

  /**
   * A relationship's field part after `table.` is offered the names of the
   * table's fields in stored order, or nothing when `table` is not a key.
   */
  lemma FieldPartOffersFieldNames(table: string, trigger: Option<string>, identifiers: IdentifiersMap)
    ensures var r := CompleteForLocation(TableFieldField(table), trigger, identifiers);
            && (r.None? <==> table !in identifiers.tablesWithFields)
            && (r.Some? ==> |r.value| == |identifiers.tablesWithFields[table]|
                            && forall i :: 0 <= i < |r.value| ==> r.value[i] == identifiers.tablesWithFields[table][i].textName)
  {
  }

  /** A field location is offered the enum names first, then exactly the four primitive types. */
  lemma FieldOffersEnumsThenPrimitives(trigger: Option<string>, identifiers: IdentifiersMap)
    ensures var r := CompleteForLocation(Field, trigger, identifiers);
            && r.Some?
            && |r.value| == |identifiers.enumsWithoutDiscriminants| + 4
            && r.value[..|identifiers.enumsWithoutDiscriminants|] == identifiers.enumsWithoutDiscriminants
            && r.value[|identifiers.enumsWithoutDiscriminants|..] == ["int", "float", "text", "varchar"]
  {
    var enums := identifiers.enumsWithoutDiscriminants;
    var r := CompleteForLocation(Field, trigger, identifiers);
    assert r.value == enums + PrimitiveTypes;
    assert r.value[..|enums|] == enums;
    assert r.value[|enums|..] == PrimitiveTypes;
  }

  /**
   * The attribute list is offered exactly the six attributes, in declared
   * order, at an attribute list or on a `[` trigger anywhere the earlier
   * tests do not answer first.
   */
  lemma AttributesOnBracketOrList(location: CursorLocation, trigger: Option<string>, identifiers: IdentifiersMap)
    requires trigger == Some("[") || location == FieldAttributeList
    requires location != TableFieldTable && !location.TableFieldField? && location != Field
    ensures CompleteForLocation(location, trigger, identifiers) == Some(["not null", "null", "pk", "unique", "increment", "ref:"])
  {
  }

  /**
   * First match wins: at a relationship or field location a `[` trigger
   * gets the same answer as no trigger at all, never the attributes.
   */
  lemma EarlierBranchesIgnoreTrigger(location: CursorLocation, identifiers: IdentifiersMap)
    requires location == TableFieldTable || location.TableFieldField? || location == Field
    ensures CompleteForLocation(location, Some("["), identifiers) == CompleteForLocation(location, None, identifiers)
  {
  }

  /** Everywhere else nothing is offered. */
  lemma OtherwiseNothing(location: CursorLocation, trigger: Option<string>, identifiers: IdentifiersMap)
    requires location in {Unknown, Table, FieldAttribute, Enum}
    requires trigger != Some("[")
    ensures CompleteForLocation(location, trigger, identifiers) == None
  {
  }

  /**
   * End to end, a cursor below top level that is neither at an
   * attribute list nor in a field list is offered something only on a `[`
   * trigger, and then exactly the attributes.
   */
  lemma BelowTopLevelOnlyBracket(t: Node, identifiers: IdentifiersMap, editPosition: LspPosition, trigger: Option<string>)
    requires LocatorDefined(t, editPosition)
    requires !ReachesProbe(t, NamedDescendantForPoint(t, PointFromLsp(editPosition)))
    requires FindLocationOnAst(t, editPosition) != Field && FindLocationOnAst(t, editPosition) != FieldAttributeList
    ensures CompleteAtPoint(t, identifiers, editPosition, trigger).Some? <==> trigger == Some("[")
    ensures trigger == Some("[") ==> CompleteAtPoint(t, identifiers, editPosition, trigger) == Some(FieldAttributes)
  {
    BelowTopLevelUnknown(t, editPosition);
  }

}
