/**
 * The identifier index of src/lib.rs: `FieldInfo`, `IdentifiersMap` with its
 * lookups `tables` and `fields_of_table`, and the builder
 * `populate_identifiers` with its table pass and enum pass.
 *
 * The two tree-sitter queries are not run here: each pass receives the nodes
 * its query captured, in capture order.
 */
module Identifiers {

  import opened Optional
  import opened Wrappers
  import opened SyntaxTree
  import opened Navigation

  /** A field declared in a table: its name, its declared type, and the range of the name token. */
  datatype FieldInfo = FieldInfo(textName: string, fieldType: string, range: LspRange)

  type TableIndex = map<string, seq<FieldInfo>>

  /** The list stored under `key`, or the empty list when the key is absent. */
  function Lookup(m: TableIndex, key: string): seq<FieldInfo>
  {
    if key in m then m[key] else []
  }

  /**
   * `entry(key).and_modify(|e| e.push(info)).or_insert_with(|| vec![info])`:
   * `info` is appended under `key`, creating the entry when it is absent; no
   * other entry changes.
   */
  function Append(m: TableIndex, key: string, info: FieldInfo): (r: TableIndex)
    ensures r.Keys == m.Keys + {key}
    ensures Lookup(r, key) == Lookup(m, key) + [info]
    ensures forall k :: k != key && k in m ==> r[k] == m[k]
  {
    m[key := Lookup(m, key) + [info]]
  }

  /** A set listed once per element, in an order fixed by the set. */
  ghost function EnumerateKeys(s: set<string>): (r: seq<string>)
    ensures forall k :: k in r <==> k in s
    ensures |r| == |s|
    ensures forall i, j :: 0 <= i < j < |r| ==> r[i] != r[j]
    decreases s
  {
    if s == {} then []
    else
      var k :| k in s;
      [k] + EnumerateKeys(s - {k})
  }

  /** The table of a captured field name: `node_parent_identifier(node, "table_definition", "name")`. */
  function TableName(t: Node, c: Path): Option<string>
    requires ValidPath(t, c)
  {
    ParentIdentifier(t, c, TableDefinitionKind, "name")
  }

  /** The alias of that table: `node_parent_identifier(node, "table_definition", "alias")`. */
  function TableAlias(t: Node, c: Path): Option<string>
    requires ValidPath(t, c)
  {
    ParentIdentifier(t, c, TableDefinitionKind, "alias")
  }

  /**
   * What the table pass unwraps for a captured field name: its table has a
   * name (src/lib.rs:124) and the name token has a next sibling, the type
   * (src/lib.rs:128).
   */
  predicate FieldCaptureResolvable(t: Node, c: Path)
  {
    ValidPath(t, c) && TableName(t, c).Some? && NextSibling(t, c).Some?
  }

  /** The record the table pass builds for a captured field-name node. */
  function FieldInfoOf(t: Node, c: Path): FieldInfo
    requires FieldCaptureResolvable(t, c)
  {
    var n := At(t, c);
    FieldInfo(n.text, At(t, NextSibling(t, c).value).text, RangeFromTree(n.range))
  }

  /**
   * What one captured field name resolves to in the table pass: its table's
   * name, its table's alias, and its record.
   */
  datatype FieldEntry = FieldEntry(tableName: string, tableAlias: Option<string>, info: FieldInfo)

  function EntryOf(t: Node, c: Path): (e: FieldEntry)
    requires FieldCaptureResolvable(t, c)
    ensures Some(e.tableName) == TableName(t, c) && e.tableAlias == TableAlias(t, c)
    ensures e.info == FieldInfoOf(t, c)
  {
    FieldEntry(TableName(t, c).value, TableAlias(t, c), FieldInfoOf(t, c))
  }

  /** The entries of all captures, in capture order. */
  function EntriesOf(t: Node, captures: seq<Path>): (r: seq<FieldEntry>)
    requires forall i :: 0 <= i < |captures| ==> FieldCaptureResolvable(t, captures[i])
    ensures |r| == |captures|
    ensures forall i :: 0 <= i < |captures| ==> r[i] == EntryOf(t, captures[i])
  {
    seq(|captures|, i requires 0 <= i < |captures| => EntryOf(t, captures[i]))
  }

  /** One iteration of the table pass: the alias entry first, then the table-name entry. */
  function AddEntry(m: TableIndex, e: FieldEntry): (r: TableIndex)
    ensures m.Keys <= r.Keys
    ensures forall k :: k in m ==> m[k] <= r[k]
  {
    var withAlias := match e.tableAlias
      case Some(alias) => Append(m, alias, e.info)
      case None => m;
    Append(withAlias, e.tableName, e.info)
  }

  /** The table pass over resolved `entries`, starting from `m`. */
  function IndexEntries(m: TableIndex, entries: seq<FieldEntry>): (r: TableIndex)
    ensures m.Keys <= r.Keys
    ensures forall k :: k in m ==> m[k] <= r[k]
    decreases |entries|
  {
    if entries == [] then m
    else AddEntry(IndexEntries(m, entries[..|entries| - 1]), entries[|entries| - 1])
  }

  /** The table pass over one more entry is one more iteration. */
  lemma IndexEntriesSnoc(m: TableIndex, entries: seq<FieldEntry>, i: nat)
    requires i < |entries|
    ensures IndexEntries(m, entries[..i + 1]) == AddEntry(IndexEntries(m, entries[..i]), entries[i])
  {
    assert entries[..i + 1][..i] == entries[..i];
  }

  /** What one entry adds under `key`: its record once for a matching alias, once for a matching name. */
  function Contribution(e: FieldEntry, key: string): seq<FieldInfo>
  {
    (if e.tableAlias == Some(key) then [e.info] else [])
    + (if e.tableName == key then [e.info] else [])
  }

  /** What all `entries` add under `key`, in order. */
  function Contributions(entries: seq<FieldEntry>, key: string): seq<FieldInfo>
    decreases |entries|
  {
    if entries == [] then []
    else Contributions(entries[..|entries| - 1], key) + Contribution(entries[|entries| - 1], key)
  }

  /** The enum pass: the text of each captured enum name, in capture order. */
  function NodeTexts(t: Node, captures: seq<Path>): seq<string>
    requires forall c <- captures :: ValidPath(t, c)
  {
    seq(|captures|, i requires 0 <= i < |captures| => At(t, captures[i]).text)
  }

  /** One iteration of the table pass appends the entry's contribution under each key. */
  lemma AddEntryAt(m: TableIndex, e: FieldEntry, key: string)
    ensures Lookup(AddEntry(m, e), key) == Lookup(m, key) + Contribution(e, key)
  {
    var withAlias := match e.tableAlias
      case Some(alias) => Append(m, alias, e.info)
      case None => m;
    assert Lookup(withAlias, key) == Lookup(m, key)
      + (if e.tableAlias == Some(key) then [e.info] else []);
  }

  /** One iteration of the table pass adds exactly the keys the entry contributes to. */
  lemma AddEntryKeys(m: TableIndex, e: FieldEntry, key: string)
    ensures key in AddEntry(m, e) <==> key in m || Contribution(e, key) != []
  {
  }

  /**
   * Per key, the table pass only appends: the list under `key` is the old
   * list followed by what each entry contributes to it, in capture order.
   */
  lemma {:induction false} IndexEntriesAt(m: TableIndex, entries: seq<FieldEntry>, key: string)
    ensures Lookup(IndexEntries(m, entries), key) == Lookup(m, key) + Contributions(entries, key)
  {
    if entries != [] {
      var init := entries[..|entries| - 1];
      var e := entries[|entries| - 1];
      var before, mine, last := Lookup(m, key), Contributions(init, key), Contribution(e, key);
      calc {
        Lookup(IndexEntries(m, entries), key);
        Lookup(AddEntry(IndexEntries(m, init), e), key);
        { AddEntryAt(IndexEntries(m, init), e, key); }
        Lookup(IndexEntries(m, init), key) + last;
        { IndexEntriesAt(m, init, key); }
        before + mine + last;
        before + (mine + last);
        before + Contributions(entries, key);
      }
    }
  }

  /** A key is present after the table pass exactly when it was before or some entry contributed to it. */
  lemma {:induction false} IndexEntriesKeys(m: TableIndex, entries: seq<FieldEntry>, key: string)
    ensures key in IndexEntries(m, entries) <==> key in m || Contributions(entries, key) != []
  {
    if entries != [] {
      var init := entries[..|entries| - 1];
      var e := entries[|entries| - 1];
      IndexEntriesKeys(m, init, key);
      AddEntryKeys(IndexEntries(m, init), e, key);
    }
  }

  /**
   * When every entry of table `name` carries alias `alias` and no other
   * entry uses either word, the alias and the name key to identical lists.
   */
  lemma AliasAndNameListsAgree(entries: seq<FieldEntry>, name: string, alias: string)
    requires name != alias
    requires forall e <- entries :: e.tableName == name <==> e.tableAlias == Some(alias)
    requires forall e <- entries :: e.tableName != alias && e.tableAlias != Some(name)
    ensures Lookup(IndexEntries(map[], entries), name) == Lookup(IndexEntries(map[], entries), alias)
  {
    IndexEntriesAt(map[], entries, name);
    IndexEntriesAt(map[], entries, alias);
    ContributionsAgree(entries, name, alias);
  }

  lemma {:induction false} ContributionsAgree(entries: seq<FieldEntry>, name: string, alias: string)
    requires name != alias
    requires forall e <- entries :: e.tableName == name <==> e.tableAlias == Some(alias)
    requires forall e <- entries :: e.tableName != alias && e.tableAlias != Some(name)
    ensures Contributions(entries, name) == Contributions(entries, alias)
  {
    if entries != [] {
      var init := entries[..|entries| - 1];
      assert forall x <- init :: x in entries;
      assert entries[|entries| - 1] in entries;
      ContributionsAgree(init, name, alias);
    }
  }

  /** Every record under any key comes from one of the entries. */
  lemma {:induction false} ContributionsFromEntries(entries: seq<FieldEntry>, key: string, info: FieldInfo)
    requires info in Contributions(entries, key)
    ensures exists i :: 0 <= i < |entries| && entries[i].info == info
  {
    var init := entries[..|entries| - 1];
    if info in Contributions(init, key) {
      ContributionsFromEntries(init, key, info);
      var i :| 0 <= i < |init| && init[i].info == info;
      assert entries[i] == init[i];
    } else {
      assert entries[|entries| - 1].info == info;
    }
  }

  /**
   * A fresh index holds only records of captured field names: the record's
   * name is the text of a captured node and its range is that node's range.
   */
  lemma IndexedFieldsAreCapturedNames(t: Node, captures: seq<Path>, key: string, j: nat)
    requires forall i :: 0 <= i < |captures| ==> FieldCaptureResolvable(t, captures[i])
    requires key in IndexEntries(map[], EntriesOf(t, captures))
    requires j < |IndexEntries(map[], EntriesOf(t, captures))[key]|
    ensures exists i ::
      && 0 <= i < |captures|
      && IndexEntries(map[], EntriesOf(t, captures))[key][j].textName == At(t, captures[i]).text
      && IndexEntries(map[], EntriesOf(t, captures))[key][j].range == RangeFromTree(At(t, captures[i]).range)
  {
    var entries := EntriesOf(t, captures);
    IndexEntriesAt(map[], entries, key);
    var info := IndexEntries(map[], entries)[key][j];
    assert info in Contributions(entries, key);
    ContributionsFromEntries(entries, key, info);
    var i :| 0 <= i < |entries| && entries[i].info == info;
    assert info == FieldInfoOf(t, captures[i]);
  }

  /**
   * A table's name and its alias key the same list when every capture
   * under that table sees the alias, no capture elsewhere does, and
   * neither word names another table or alias.
   */
  lemma AliasedTableListsAgree(t: Node, captures: seq<Path>, name: string, alias: string)
    requires name != alias
    requires forall i :: 0 <= i < |captures| ==>
      && FieldCaptureResolvable(t, captures[i])
      && (TableName(t, captures[i]) == Some(name) <==> TableAlias(t, captures[i]) == Some(alias))
      && TableName(t, captures[i]) != Some(alias) && TableAlias(t, captures[i]) != Some(name)
    ensures Lookup(IndexEntries(map[], EntriesOf(t, captures)), name)
      == Lookup(IndexEntries(map[], EntriesOf(t, captures)), alias)
  {
    var entries := EntriesOf(t, captures);
    forall e <- entries
      ensures (e.tableName == name <==> e.tableAlias == Some(alias))
      ensures e.tableName != alias && e.tableAlias != Some(name)
    {
      var i :| 0 <= i < |entries| && entries[i] == e;
    }
    AliasAndNameListsAgree(entries, name, alias);
  }

  /**
   * A node the fields query captures, `(table_definition name: (identifier)
   * (field_declaration_list (field_declaration name: (identifier) @field_name)))`:
   * a `name` identifier of a field declaration, in a field list, in a table
   * definition that has a name.
   */
  predicate MatchesFieldQuery(t: Node, c: Path)
    requires ValidPath(t, c)
  {
    && |c| >= 3
    && At(t, c).kind == IdentifierKind
    && At(t, c).field == Some("name")
    && Ancestor(t, c, |c| - 1).kind == FieldDeclarationKind
    && Ancestor(t, c, |c| - 2).kind == FieldDeclarationListKind
    && Ancestor(t, c, |c| - 3).kind == TableDefinitionKind
    && FieldText(Ancestor(t, c, |c| - 3), "name").Some?
  }

  /** For a node the fields query captures, the table-name lookup cannot fail. */
  lemma FieldQueryMatchHasTableName(t: Node, c: Path)
    requires ValidPath(t, c) && MatchesFieldQuery(t, c)
    ensures TableName(t, c) == FieldText(Ancestor(t, c, |c| - 3), "name")
    ensures TableName(t, c).Some?
  {
    assert NearestAncestor(t, c, TableDefinitionKind, |c| - 3);
    ParentIdentifierIsNearestField(t, c, TableDefinitionKind, "name", |c| - 3);
  }

  /** `IdentifiersMap`: table name or alias to its fields, and the enum names. */
  class IdentifiersMap {
    var tablesWithFields: TableIndex
    var enumsWithoutDiscriminants: seq<string>

    /** The empty index `populate_identifiers` starts from. */
    constructor ()
      ensures tablesWithFields == map[] && enumsWithoutDiscriminants == []
    {
      tablesWithFields := map[];
      enumsWithoutDiscriminants := [];
    }

    /**
     * `tables`: always some list naming every key once. `HashMap` key order
     * is unspecified; the model fixes one order per key set.
     */
    ghost function Tables(): (r: Option<seq<string>>)
      reads this
      ensures r.Some?
      ensures forall k :: k in r.value <==> k in tablesWithFields
      ensures |r.value| == |tablesWithFields|
      ensures forall i, j :: 0 <= i < j < |r.value| ==> r.value[i] != r.value[j]
    {
      Some(EnumerateKeys(tablesWithFields.Keys))
    }

    /** `fields_of_table`: none exactly when the key is absent, otherwise the stored list. */
    function FieldsOfTable(tableName: string): (r: Option<seq<FieldInfo>>)
      reads this
      ensures r.None? <==> tableName !in tablesWithFields
      ensures r.Some? ==> r.value == tablesWithFields[tableName]
    {
      if tableName in tablesWithFields then Some(tablesWithFields[tableName]) else None
    }

    /**
     * `populate_table_identifiers`: for each captured field name, in capture
     * order, appends its record under the table's alias (if any) and then
     * under the table's name.
     */
    method PopulateTableIdentifiers(t: Node, fieldNodes: seq<Path>)
      requires forall i :: 0 <= i < |fieldNodes| ==> FieldCaptureResolvable(t, fieldNodes[i])
      modifies this
      ensures tablesWithFields == IndexEntries(old(tablesWithFields), EntriesOf(t, fieldNodes))
      ensures enumsWithoutDiscriminants == old(enumsWithoutDiscriminants)
    {
      ghost var entries := EntriesOf(t, fieldNodes);
      for i := 0 to |fieldNodes|
        invariant tablesWithFields == IndexEntries(old(tablesWithFields), entries[..i])
        invariant enumsWithoutDiscriminants == old(enumsWithoutDiscriminants)
      {
        var node := fieldNodes[i];
        assert FieldCaptureResolvable(t, node);
        var tableName := NodeParentIdentifier(t, node, TableDefinitionKind, "name");
        var tableAlias := NodeParentIdentifier(t, node, TableDefinitionKind, "alias");
        var fieldRange := At(t, node).range;
        var fieldName := At(t, node).text;
        var fieldType := At(t, NextSibling(t, node).value).text;
        var info := FieldInfo(fieldName, fieldType, RangeFromTree(fieldRange));
        ghost var before := tablesWithFields;
        ghost var entry := FieldEntry(tableName.value, tableAlias, info);
        assert entries[i] == EntryOf(t, node) == entry;
        IndexEntriesSnoc(old(tablesWithFields), entries, i);

        if tableAlias.Some? {
          tablesWithFields := Append(tablesWithFields, tableAlias.value, info);
        }
        tablesWithFields := Append(tablesWithFields, tableName.value, info);
        assert tablesWithFields == AddEntry(before, entry);
      }
      assert entries[..|fieldNodes|] == entries;
    }

    /**
     * `populate_enum_identifiers`: the enum list is replaced wholesale by the
     * captured enum-name texts, in capture order, duplicates kept.
     */
    method PopulateEnumIdentifiers(t: Node, enumNodes: seq<Path>)
      requires forall c <- enumNodes :: ValidPath(t, c)
      modifies this
      ensures enumsWithoutDiscriminants == NodeTexts(t, enumNodes)
      ensures tablesWithFields == old(tablesWithFields)
    {
      enumsWithoutDiscriminants := seq(|enumNodes|, i requires 0 <= i < |enumNodes| => At(t, enumNodes[i]).text);
    }
  }

  /**
   * `populate_identifiers`: a fresh index, the table pass, then the enum
   * pass. The result is a function of the tree and the captures alone.
   */
  method PopulateIdentifiers(t: Node, fieldNodes: seq<Path>, enumNodes: seq<Path>) returns (identifiersMap: IdentifiersMap)
    requires forall i :: 0 <= i < |fieldNodes| ==> FieldCaptureResolvable(t, fieldNodes[i])
    requires forall c <- enumNodes :: ValidPath(t, c)
    ensures fresh(identifiersMap)
    ensures identifiersMap.tablesWithFields == IndexEntries(map[], EntriesOf(t, fieldNodes))
    ensures identifiersMap.enumsWithoutDiscriminants == NodeTexts(t, enumNodes)
  {
    identifiersMap := new IdentifiersMap();
    identifiersMap.PopulateTableIdentifiers(t, fieldNodes);
    identifiersMap.PopulateEnumIdentifiers(t, enumNodes);
  }

  /** Rebuilding the index from the same tree and captures gives the same content. */
  method RebuildIsIdempotent(t: Node, fieldNodes: seq<Path>, enumNodes: seq<Path>)
    returns (first: IdentifiersMap, second: IdentifiersMap)
    requires forall i :: 0 <= i < |fieldNodes| ==> FieldCaptureResolvable(t, fieldNodes[i])
    requires forall c <- enumNodes :: ValidPath(t, c)
    ensures first.tablesWithFields == second.tablesWithFields
    ensures first.enumsWithoutDiscriminants == second.enumsWithoutDiscriminants
  {
    first := PopulateIdentifiers(t, fieldNodes, enumNodes);
    second := PopulateIdentifiers(t, fieldNodes, enumNodes);
  }

}
