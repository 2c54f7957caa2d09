# DBML language server: semantic core in Dafny

This project models the semantic layer of a language server for DBML, a
small schema language whose documents hold tables, their fields, enums and
relationships. The layer sits between the tree-sitter parser and the Language
Server Protocol transport:

- **Coordinates** (`Wrappers`, src/wrappers.rs). This module covers tree-sitter points and ranges, protocol positions and ranges, and the conversions between them.
- **Syntax tree** (`SyntaxTree`). A node has a kind, a named flag, the field name it fills in its parent, its text, its range and its children. A node is addressed by its path of child indices, so parent and siblings follow from the path. tree-sitter's `descendant_for_point_range` and `named_descendant_for_point_range` are written out after tree-sitter's own descent: go into the first child that ends after the point, and stop when that child starts after it.
- **Tree walks** (`Navigation`, src/navigation.rs). This module covers the ancestor walk `node_parent_identifier` and the leftward probe `search_valid_node`. The probe is modelled twice: as written, and as its doc comment intends (see Findings).
- **Identifier index** (`Identifiers`, src/lib.rs). `IdentifiersMap` is a class whose two fields the passes of `populate_identifiers` update in place. The table pass maps each table name or alias to its fields. The enum pass stores the enum names.
- **Cursor locator** (`Locator`, src/lib.rs). This module covers `CursorLocation` and `find_location_on_ast`.
- **Completion** (`Completion`, src/providers/completion.rs). `complete_at_point` is modelled as an ordered decision table.
- **Rename** (`Rename`, src/providers/rename.rs). This module covers the query templates and their substitution, the two capture collectors, and `rename`.

### External parts
Compiling and running a tree-sitter query is outside the model. The index passes receive the nodes their query captured, in capture order. Each rename collector receives `runQuery`. Given the text of a query, it yields the nodes that the collector's two inner loops visit, in visiting order.

Node text is stored in the node. This stands in for `utf8_text(source)`, so the `source` parameters disappear.

### What the code leaves unfinished
- **Missing lookups.** A field with no table ancestor, or a `.` with no previous sibling, reaches an `unwrap` in the code. The model makes each a precondition: `FieldCaptureResolvable` and `LocatorDefined`.
- **The leftward probe.** The doc comment at src/navigation.rs:5-6 says the probe subtracts columns until it reaches 0. Line 11 discards the subtracted column, so the point never moves (see Findings). The locator and completion are built on the probe as the comment describes it (see Left out).
- **Rename.** The TODO at src/providers/rename.rs:60 and the unused `RenameRules` enum at src/providers/rename.rs:117-128 show that rule selection is unfinished. `rename` answers an empty edit list for the document, and its collectors are never called. The model keeps that answer and models the collectors on their own.
- **Ordering.** Completion answers and the enum names are ordered lists that keep duplicates, and the model keeps that order.

### Field rename template
The first field rename template has two `{}` placeholders. The same identifier fills both: the field's name is compared with `@table_name` as well as with `@field_name` (`Rename.FieldRuleRepeatsIdentifier`).

## Model

| member | source | states |
|---|---|---|
| Wrappers.RangeFromTree | src/wrappers.rs:14-29 | Each end point of a tree range becomes the matching protocol position. Converting that position back gives the same tree point. |
| Wrappers.PointFromLsp | src/wrappers.rs:31-40 | `Point::from` makes the line the row and the character the column. |
| Wrappers.PointFromLspInjective | src/wrappers.rs:31-40 | Two protocol positions that convert to the same point are equal, so line becomes row and character becomes column without loss. |
| Wrappers.ColumnStart | src/wrappers.rs:42-49 | `column_start` keeps the row and sets the column to 0. |
| Wrappers.ColumnStartIdempotent | src/wrappers.rs:42-49 | `column_start` is idempotent. |
| Wrappers.LineAbove | src/wrappers.rs:51-58 | `line_above` gives the row one less and the same column. It needs row ≥ 1, because the unsigned subtraction underflows on row 0. |
| Wrappers.ColumnStartLineAboveCommute | src/wrappers.rs:42-58 | When row ≥ 1, `column_start` and `line_above` commute. |
| SyntaxTree.Parent | src/lib.rs:182 | A node has a parent exactly when it is not the root, and the parent is one level up. |
| SyntaxTree.PrevSibling | src/lib.rs:251 | The previous sibling exists exactly when the node is not its parent's first child. It has the same parent, at the index one lower. |
| SyntaxTree.NextSibling | src/lib.rs:128 | The next sibling exists exactly when the node is not its parent's last child. It has the same parent, at the index one higher. |
| SyntaxTree.ChildByFieldName | src/navigation.rs:44-47 | The answer is a child filling the named field. It is none exactly when no child fills that field. |
| SyntaxTree.DescendantForPoint | src/providers/rename.rs:45-48 | The answer is always a node, the root at worst, so the unwrap cannot fail. A non-root answer covers the point, and tree-sitter's descent goes no further below the answer. |
| SyntaxTree.NamedDescendantForPoint | src/lib.rs:176-180 | The answer is always a node, the root at worst. A non-root answer covers the point and is named. |
| SyntaxTree.NamedDescendantIsLastNamed | src/lib.rs:176-180 | The named answer lies on the path of the plain answer, and every node below it on that path is unnamed. So it is the deepest named node of that descent. |
| Navigation.NodeParentIdentifier | src/navigation.rs:23-58 | The loop, one level up per iteration, returns what the ancestor walk from the node's parent defines. |
| Navigation.LookupFromNearest | src/navigation.rs:32-50 | The walk from an ancestor answers the field child's text of the first node of the kind it meets. |
| Navigation.LookupFromNone | src/navigation.rs:32-57 | The walk from an ancestor answers none when no node of the kind comes before a project_file or the root. |
| Navigation.WalkFromParent | src/navigation.rs:29-30 | The walk starts at the parent. The parent's ancestors are the node's strict ancestors, so the node itself is never inspected. |
| Navigation.ParentIdentifierIsNearestField | src/navigation.rs:29-50 | The answer is the text of the field child of the nearest strict ancestor of the kind. If that ancestor lacks the child, the answer is none and no higher ancestor is searched. |
| Navigation.ParentIdentifierNone | src/navigation.rs:51-57 | With no such nearest ancestor, because a project_file comes first or the chain runs out, the answer is none. |
| Navigation.ParentIdentifierStopsAtProjectFile | src/navigation.rs:51-53 | A project_file ancestor with no ancestor of the kind at or below it stops the walk with none. |
| Navigation.SearchStepAsWritten | src/navigation.rs:8-16 | As written, an iteration that goes round again stays at the same point. |
| Navigation.AsWrittenNeverReturns | src/navigation.rs:8-18 | As written, a column > 0 whose smallest node is a project_file leaves the loop running at the same point after any number of iterations. |
| Navigation.AsWrittenSpinsOnBareRoot | src/navigation.rs:7-19 | On a document that is only its root, the probe at (0, 1) spins as written, while the intended probe answers none. |
| Navigation.AsWrittenAgreesWhenItExits | src/navigation.rs:7-19 | Whenever the loop as written exits, it answers what the intended probe answers, so the two differ only where the code never returns. |
| Navigation.SearchStep | src/navigation.rs:8-16 | As intended, an iteration that goes round again moves one column left on the same row. A node it exits with is never a project_file. |
| Navigation.Probe | src/navigation.rs:5-19 | The intended probe never answers a project_file, and it answers none at column 0. |
| Navigation.SearchValidNode | src/navigation.rs:7-19 | The loop with the moved point assigned back computes `Probe`. |
| Navigation.ProbeSkipsRoot | src/navigation.rs:11-16 | Where the smallest node is a project_file, the probe goes on at the column to the left. |
| Navigation.ProbeNoneSawRoot | src/navigation.rs:11-16 | A probe from column > 0 that finds nothing saw a project_file at its first column. |
| Navigation.ProbeNoneAllRoot | src/navigation.rs:8-18 | If the probe finds nothing, every column 1..c of the row has a project_file as its smallest node. |
| Navigation.AllRootProbeNone | src/navigation.rs:8-18 | Conversely, if every column 1..c of the row has a project_file as its smallest node, the probe finds nothing. |
| Navigation.ProbeFindsRightmostColumn | src/navigation.rs:8-16 | A found node is the smallest node at the rightmost column in 1..c whose smallest node is not a project_file. Every column right of it, up to c, is a project_file. |
| Identifiers.Append | src/lib.rs:136-147 | `entry().and_modify(push).or_insert_with(vec)` adds the key. The list under the key becomes the old list, or the empty one, followed by the record. Every other key keeps its list. |
| Identifiers.EntryOf | src/lib.rs:124-133 | A captured field name resolves to its table's name, its table's alias, and a record of its own text, its next sibling's text and its own range. |
| Identifiers.EntriesOf | src/lib.rs:121-123 | There is one entry per capture, in capture order. |
| Identifiers.AddEntryAt | src/lib.rs:135-147 | One iteration appends the record under the alias (if any) and under the table name, and changes no other list. |
| Identifiers.AddEntryKeys | src/lib.rs:135-147 | One iteration adds exactly the alias and the name as keys. |
| Identifiers.AddEntry | src/lib.rs:135-147 | One iteration keeps every key, and each old list is a prefix of the new one. |
| Identifiers.IndexEntriesAt | src/lib.rs:123-148 | Per key, the table pass only appends. The list is the old one followed by each capture's record, for every time the key is that capture's name or alias, in capture order. A repeated table name never overwrites. |
| Identifiers.IndexEntries | src/lib.rs:123-148 | The whole table pass keeps every key, and each old list is a prefix of the new one. |
| Identifiers.IndexEntriesKeys | src/lib.rs:123-148 | A key is present after the pass exactly when it was before, or some capture's table has it as name or alias. |
| Identifiers.AliasAndNameListsAgree | src/lib.rs:135-147 | When exactly the entries of one table carry its alias, and no other entry uses either word, the alias and the name key identical lists. |
| Identifiers.AliasedTableListsAgree | src/lib.rs:124-147 | The same for captures: a table's name and alias key identical lists. |
| Identifiers.IndexedFieldsAreCapturedNames | src/lib.rs:126-133 | Every record in a fresh index has a captured node's text as its name and that same node's range as its range. |
| Identifiers.FieldQueryMatchHasTableName | src/lib.rs:112-124 | For a node the fields query captures, the table-name lookup answers the enclosing table's name, so its unwrap cannot fail. |
| Identifiers.IdentifiersMap.constructor | src/lib.rs:78-81 | The index starts empty. |
| Identifiers.IdentifiersMap.Tables | src/lib.rs:54-61 | `tables()` is always some list naming each key exactly once. |
| Identifiers.IdentifiersMap.FieldsOfTable | src/lib.rs:63-65 | `fields_of_table` is none exactly when the key is absent, and otherwise the stored list. |
| Identifiers.IdentifiersMap.PopulateTableIdentifiers | src/lib.rs:107-149 | The loop leaves the map equal to the table pass over the captures' entries, in capture order, and leaves the enum list alone. |
| Identifiers.IdentifiersMap.PopulateEnumIdentifiers | src/lib.rs:88-105 | The enum list is replaced wholesale by the captured texts, in capture order, with duplicates kept. The map is left alone. |
| Identifiers.PopulateIdentifiers | src/lib.rs:77-87 | A fresh index, then the table pass, then the enum pass. The result is a function of the tree and the captures. |
| Identifiers.RebuildIsIdempotent | src/lib.rs:77-87 | Building twice from the same tree and captures gives the same content. |
| Locator.ClassifyProbed | src/lib.rs:244-257 | A probed node gives `TableField_Table` exactly when it is a `:` or its parent is a cardinality_op. It gives `TableField_Field` exactly when it is a `.` whose parent is not a cardinality_op, naming the previous sibling's text. Otherwise it gives `Unknown`. |
| Locator.FindLocationOnAst | src/lib.rs:171-258 | `Table`, `FieldAttribute` and `Enum` are never produced. |
| Locator.FieldAttributeListExactly | src/lib.rs:205-209 | `FieldAttributeList` comes out exactly when the direct hit is a field_attribute_list. |
| Locator.FieldExactly | src/lib.rs:211-214 | `Field` comes out exactly when the hit is not an attribute list and its parent is a field_declaration_list or a table_definition. |
| Locator.BelowTopLevelUnknown | src/lib.rs:216-219 | If the probe is not reached, the answer is `FieldAttributeList`, `Field` or `Unknown`. |
| Locator.RelationshipComesFromProbe | src/lib.rs:223-257 | A relationship location comes only from the top level, and it is the classification of the probed node. That node is the smallest node at the rightmost column in 1..cursor of the row that is not a project_file. |
| Locator.TableFieldFieldExactly | src/lib.rs:223-257 | `TableField_Field` comes out exactly when the top-level probe finds a `.` whose parent is not a cardinality_op, and it carries the text of the `.`'s previous sibling. |
| Locator.TopLevelColumnZeroUnknown | src/lib.rs:223-257 | At the top level, column 0 gives `Unknown`. |
| Locator.TableFieldTableExactly | src/lib.rs:223-249 | `TableField_Table` comes out exactly when the top-level probe finds a `:` or a node whose parent is a cardinality_op. |
| Completion.TextNames | src/providers/completion.rs:29-34 | The field names, in stored order. |
| Completion.TablePartOffersEveryKey | src/providers/completion.rs:22-25 | `TableField_Table` gives some list naming every key, table names and aliases alike, each once. |
| Completion.FieldPartOffersFieldNames | src/providers/completion.rs:27-35 | `TableField_Field(t)` gives the names of `t`'s fields in stored order. It gives none exactly when `t` is not a key. |
| Completion.FieldOffersEnumsThenPrimitives | src/providers/completion.rs:42-54 | `Field` gives the enum names, then exactly int, float, text, varchar. Its length is the enum count plus 4. |
| Completion.AttributesOnBracketOrList | src/providers/completion.rs:60-62 | After the earlier branches, a `[` trigger or `FieldAttributeList` gives exactly the six attributes in declared order. |
| Completion.EarlierBranchesIgnoreTrigger | src/providers/completion.rs:22-54 | First match wins: at `TableField_Table`, `TableField_Field` and `Field`, a `[` trigger gets the same answer as no trigger. |
| Completion.OtherwiseNothing | src/providers/completion.rs:60-63 | Every other case gives none. |
| Completion.BelowTopLevelOnlyBracket | src/providers/completion.rs:10-63 | Below the top level, outside field lists and attribute lists, completion answers exactly on a `[` trigger, and then with the attributes. |
| Completion.CompleteForLocation | src/providers/completion.rs:22-63 | The decision table answers exactly when: for `TableField_Field`, the table is a key (a `[` trigger does not help); otherwise, the location is `TableField_Table`, `Field` or `FieldAttributeList`, or the trigger is `[`. |
| Completion.CompleteAtPoint | src/providers/completion.rs:10-64 | Where the locator answers `Unknown`, completion answers exactly on a `[` trigger. |
| Rename.ReplaceRuleWithPattern | src/providers/rename.rs:28-30 | There is one substituted string per template, in template order. |
| Rename.Substitute | src/providers/rename.rs:29 | Replacing each `{}` by `{}` gives the text back: the inserted text is never rescanned. |
| Rename.SubstituteIdentity | src/providers/rename.rs:29 | Text with no `{}` comes through `replace` unchanged. |
| Rename.SubstitutePrefix | src/providers/rename.rs:29 | Placeholder-free text comes through, and what follows it is substituted on its own. |
| Rename.SubstituteSplits | src/providers/rename.rs:29 | The first `{}` is replaced verbatim, and the rest is substituted on its own, so the inserted text is never rescanned. |
| Rename.SubstituteTwice | src/providers/rename.rs:29 | Two placeholders receive the same text. |
| Rename.ReplacementNotRescanned | src/providers/rename.rs:29 | A `{}` or a quote in the replacement is left as it is, neither rescanned nor escaped. |
| Rename.TableRulesQuoteIdentifier | src/providers/rename.rs:14-17 | Each table template receives the identifier once, between quotes. |
| Rename.FieldRuleRepeatsIdentifier | src/providers/rename.rs:19-23 | The first field template receives the identifier twice, for `@table_name` and for `@field_name`. |
| Rename.FieldRuleQuotesIdentifier | src/providers/rename.rs:24-25 | The relationship field template receives the identifier once, between quotes. |
| Rename.Apply | src/providers/rename.rs:140-149 | `f` is applied to each element, in order: `func` to each visited node, and `runQuery` to each substituted rule, giving one visited-node list per query. |
| Rename.TableRenameRules | src/providers/rename.rs:130-154 | The nested loops push `func` of every visited node: rules in order, and nodes in visiting order within each rule. |
| Rename.Kept | src/providers/rename.rs:168-173 | Only visited nodes survive the filter. |
| Rename.KeptMembership | src/providers/rename.rs:168-177 | A node is kept exactly when it was visited and its parent is not a table_definition. |
| Rename.RangesOf | src/providers/rename.rs:176 | There is one protocol range per node, each that node's range, in order. |
| Rename.FieldRangesFlatten | src/providers/rename.rs:161-179 | Collecting list by list equals filtering all visited nodes in order and taking their ranges. |
| Rename.FieldRangesSound | src/providers/rename.rs:168-177 | Every collected range is the range of a visited node whose parent is not a table_definition. |
| Rename.FieldRangesComplete | src/providers/rename.rs:168-177 | The range of every visited node whose parent is not a table_definition is collected. |
| Rename.FieldRenameRules | src/providers/rename.rs:156-181 | The nested loops with `continue` compute `FieldRanges` of the visited lists. |
| Rename.Rename | src/providers/rename.rs:32-115 | The answer is none exactly when the smallest node at the cursor is not an identifier. Otherwise the `changes` map has exactly the given document as its key, with an empty edit list, and `document_changes` is none. |

## Left out

- src/main.rs is not part of this model: it is the asynchronous protocol transport (listener, locks, capability negotiation, stub handlers).
- src/file.rs is not part of this model: reading files and calling the parser are I/O and foreign calls.
- Parsing, query compilation and query execution are tree-sitter's work, a foreign library. Captures are parameters. For the rename collectors, `runQuery` stands for running a query text. When a pattern has several captures, `runQuery` lists every node each match captures, as the inner loops visit them.
- Logging (`println!`, `info!`, `debug!`) is left out. The probe call at src/lib.rs:206 is also left out, because its result is only logged.
- src/lib.rs:206 and src/lib.rs:223 pass three arguments to `search_valid_node`, which src/navigation.rs:7 declares with two. The model follows the declaration, with project_file as the kind the probe skips.
- The commented-out tree walk at src/providers/rename.rs:62-108 is left out, because it does not run.
- The unused `RenameRules` enum and the unused `KEYWORDS` constant have no effect and are not modelled.
- Rename.Rename: `new_name`, `wat` and `papi` are kept as in the code and do not affect the answer. The unwrap of `papi` is `RenameDefined`.
- Locator.FindLocationOnAst: the top-level branch at src/lib.rs:223 calls the probe, which as written never returns when the column is > 0 and the smallest node there is a project_file. The locator, and completion built on it, use the probe as its doc comment describes (`Navigation.Probe`). Where the code would loop forever, the model gives an answer. Wherever the code as written does return, it returns what the corrected probe returns (`Navigation.AsWrittenAgreesWhenItExits`).
- Rename.TableRenameRules, Rename.FieldRenameRules: `Query::new(..).unwrap()` at src/providers/rename.rs:141 and src/providers/rename.rs:162 panics when a substituted rule does not compile. The identifier is inserted unescaped (`Rename.ReplacementNotRescanned`), so an identifier holding `"` or `\` can break the query text and make the code panic. The model takes `runQuery` to be total, which assumes every substituted rule compiles.
- Rename.Rename: the protocol's `document_changes` is typed here as a plain list of edits. Only its absence is stated.
- Both `descendant_for_point_range` calls return an `Option` that is always `Some` (the root at worst). The model returns the node directly.
- Protocol positions are `u64` and tree points are `usize`. Both are modelled as unbounded naturals, which assumes a 64-bit target where the casts are identities. The byte column and the protocol's UTF-16 character are equated, as in the code.
- `tables()` lists the keys of a `HashMap`, whose order is unspecified. The model fixes one order per key set, so `Identifiers.IdentifiersMap.Tables`, `Completion.CompleteForLocation` and `Completion.CompleteAtPoint` are ghost.
- Completion.CompleteAtPoint: the completion context is reduced to its trigger character, the only part the code reads.
- The `unwrap`s at src/lib.rs:124, src/lib.rs:128, src/lib.rs:251, src/providers/rename.rs:58 and src/providers/rename.rs:171 panic in the code. The model states them as preconditions (`FieldCaptureResolvable`, `LocatorDefined`, `RenameDefined`, `CapturesHaveParents`) and does not model the panic.

## Findings

| source | as written | input that shows it | evidently intended | confidence | as-written member | corrected member |
|---|---|---|---|---|---|---|
| src/navigation.rs:11 | `current_point.column.checked_sub(1)?` discards the decremented column, so the probe never moves its point. With a column > 0 whose smallest node is a project_file, the loop never ends. | A document that is only its project_file root, spanning (0,0)-(0,1), probed at point (0,1) | Assign the decremented column back, so the probe moves one column left per round and stops with none at column 0, as the doc comment at src/navigation.rs:5-6 says. `Locator.FindLocationOnAst` and completion use the corrected probe | not executed | Navigation.AsWrittenNeverReturns | Navigation.SearchValidNode |
