/**
 * The rename provider of src/providers/rename.rs: the query templates and
 * their substitution, the two capture collectors, and `rename` itself.
 *
 * Compiling and running a tree-sitter query is not part of this model. A
 * collector receives `runQuery`, which maps the text of a query to the
 * nodes its two inner loops visit, in visiting order: every capture of every
 * match the captures iterator yields.
 */
module Rename {

  import opened Optional
  import opened Wrappers
  import opened SyntaxTree

  /**
   * Rename rules for a table: its definition, and the table part of a
   * relationship. Each template is written as short pieces that join to its
   * text, with each `{}` a piece of its own.
   */
  const RenameTableRule: seq<string> := [
    "((table_definition name: " + "(identifier) @table_name) " + "(#eq? @table_name \"" + "{}" + "\"))",
    "((table_field table: " + "(identifier) @table_name )" + "(#eq? @table_name \"" + "{}" + "\"))"
  ]

  /**
   * Rename rules for a field: a table with the field declaration (two
   * placeholders; the line continuation of the source drops the newline and
   * indentation after `field_declaration `, the second line break is kept),
   * and the field part of a relationship.
   */
  const RenameFieldRule: seq<string> := [
    "((table_definition name: " + "(identifier) @table_name " + "(field_declaration_list " + "(field_declaration "
      + "name: (identifier) " + "@field_name ) ))\n    " + "(#eq? @table_name \"" + "{}"
      + ("\" ) (#eq? @field_name \"" + "{}" + "\" ))"),
    "((table_field field: " + "(identifier) @field_name) " + "(#eq? @field_name \"" + "{}" + "\"))"
  ]

  /** No `{}` occurs in `s`. */
  predicate PlaceholderFree(s: string)
  {
    forall i :: 0 <= i < |s| - 1 ==> !(s[i] == '{' && s[i + 1] == '}')
  }

  /**
   * `str::replace(s, "{}", x)`: every `{}`, found left to right without
   * overlap, is replaced by `x`; the text inserted is not scanned again.
   */
  function Substitute(s: string, x: string): (r: string)
    ensures x == "{}" ==> r == s
    decreases |s|
  {
    if |s| < 2 then s
    else if s[0] == '{' && s[1] == '}' then x + Substitute(s[2..], x)
    else [s[0]] + Substitute(s[1..], x)
  }

  /** `replace_rule_with_pattern`: one substituted string per template, in template order. */
  function ReplaceRuleWithPattern(rule: seq<string>, pattern: string): (r: seq<string>)
    ensures |r| == |rule|
    ensures forall i :: 0 <= i < |rule| ==> r[i] == Substitute(rule[i], pattern)
  {
    seq(|rule|, i requires 0 <= i < |rule| => Substitute(rule[i], pattern))
  }

  /** Text without placeholders comes through unchanged. */
  lemma {:induction false} SubstituteIdentity(s: string, x: string)
    requires PlaceholderFree(s)
    ensures Substitute(s, x) == s
    decreases |s|
  {
    if |s| >= 2 {
      assert !(s[0] == '{' && s[1] == '}');
      SubstituteIdentity(s[1..], x);
      assert [s[0]] + s[1..] == s;
    }
  }

  /** A character that does not open a placeholder comes through, and scanning resumes after it. */
  lemma SubstituteCons(ch: char, rest: string, x: string)
    requires ch != '{' || rest == [] || rest[0] != '}'
    ensures Substitute([ch] + rest, x) == [ch] + Substitute(rest, x)
  {
    var s := [ch] + rest;
    assert s[0] == ch && s[1..] == rest;
    if rest != [] {
      assert s[1] == rest[0];
    }
  }

  /** Placeholder-free text followed by anything: the text comes through and the rest is substituted on its own. */
  lemma {:induction false} SubstitutePrefix(a: string, b: string, x: string)
    requires PlaceholderFree(a) && (a == [] || a[|a| - 1] != '{')
    ensures Substitute(a + b, x) == a + Substitute(b, x)
    decreases |a|
  {
    if a == [] {
      assert a + b == b;
    } else {
      var rest := a[1..] + b;
      assert a + b == [a[0]] + rest;
      if |a| >= 2 {
        assert rest[0] == a[1];
        assert !(a[0] == '{' && a[1] == '}');
      }
      SubstituteCons(a[0], rest, x);
      SubstitutePrefix(a[1..], b, x);
      assert [a[0]] + a[1..] == a;
    }
  }

  /**
   * The first placeholder is replaced by `x` verbatim (not escaped), and
   * the rest of the text is substituted on its own: `x` is never rescanned.
   */
  lemma SubstituteSplits(a: string, b: string, x: string)
    requires PlaceholderFree(a) && (a == [] || a[|a| - 1] != '{')
    ensures Substitute(a + "{}" + b, x) == a + x + Substitute(b, x)
  {
    assert a + "{}" + b == a + ("{}" + b);
    SubstitutePrefix(a, "{}" + b, x);
    assert ("{}" + b)[2..] == b;
  }

  /** A placeholder in the replacement is left as it is; a quote in it is not escaped. */
  lemma ReplacementNotRescanned()
    ensures Substitute("{}", "{}") == "{}"
    ensures Substitute("\"{}\"", "a\"b") == "\"a\"b\""
  {
    SubstituteSplits("", "", "{}");
    SubstituteSplits("\"", "\"", "a\"b");
    SubstituteIdentity("\"", "a\"b");
  }

  /** Two placeholder-free texts stay placeholder-free when joined, unless a `{` meets a `}`. */
  lemma PlaceholderFreeJoin(a: string, b: string)
    requires PlaceholderFree(a) && PlaceholderFree(b) && (b == [] || b[0] != '}')
    ensures PlaceholderFree(a + b)
  {
    var s := a + b;
    forall i | 0 <= i < |s| - 1
      ensures !(s[i] == '{' && s[i + 1] == '}')
    {
      if i + 1 < |a| {
        assert s[i] == a[i] && s[i + 1] == a[i + 1];
      } else if i >= |a| {
        assert s[i] == b[i - |a|] && s[i + 1] == b[i + 1 - |a|];
      } else {
        assert s[i + 1] == b[0];
      }
    }
  }

  /** The table templates each receive the identifier once, between quotes. */
  lemma TableRulesQuoteIdentifier(x: string)
    ensures ReplaceRuleWithPattern(RenameTableRule, x)[0] ==
      "((table_definition name: " + "(identifier) @table_name) " + "(#eq? @table_name \"" + x + "\"))"
    ensures ReplaceRuleWithPattern(RenameTableRule, x)[1] ==
      "((table_field table: " + "(identifier) @table_name )" + "(#eq? @table_name \"" + x + "\"))"
  {
    var a0, a1, a2 := "((table_definition name: ", "(identifier) @table_name) ", "(#eq? @table_name \"";
    var b0, b1 := "((table_field table: ", "(identifier) @table_name )";
    var tail := "\"))";
    PlaceholderFreeJoin(a0, a1);
    PlaceholderFreeJoin(a0 + a1, a2);
    PlaceholderFreeJoin(b0, b1);
    PlaceholderFreeJoin(b0 + b1, a2);
    SubstituteSplits(a0 + a1 + a2, tail, x);
    SubstituteSplits(b0 + b1 + a2, tail, x);
    SubstituteIdentity(tail, x);
  }

  /** Two placeholders receive the same replacement, and the text between them comes through. */
  lemma SubstituteTwice(a: string, b: string, c: string, x: string)
    requires PlaceholderFree(a) && (a == [] || a[|a| - 1] != '{')
    requires PlaceholderFree(b) && (b == [] || b[|b| - 1] != '{')
    ensures Substitute(a + "{}" + (b + "{}" + c), x) == a + x + (b + x + Substitute(c, x))
  {
    SubstituteSplits(a, b + "{}" + c, x);
    SubstituteSplits(b, c, x);
  }

  /** The text of the first field template before its first placeholder has none. */
  lemma FieldRuleHeadFree()
    ensures PlaceholderFree(
      "((table_definition name: " + "(identifier) @table_name " + "(field_declaration_list " + "(field_declaration "
      + "name: (identifier) " + "@field_name ) ))\n    " + "(#eq? @table_name \"")
  {
    var c0, c1, c2, c3 := "((table_definition name: ", "(identifier) @table_name ", "(field_declaration_list ", "(field_declaration ";
    var c4, c5, c6 := "name: (identifier) ", "@field_name ) ))\n    ", "(#eq? @table_name \"";
    PlaceholderFreeJoin(c0, c1);
    PlaceholderFreeJoin(c0 + c1, c2);
    PlaceholderFreeJoin(c0 + c1 + c2, c3);
    PlaceholderFreeJoin(c0 + c1 + c2 + c3, c4);
    PlaceholderFreeJoin(c0 + c1 + c2 + c3 + c4, c5);
    PlaceholderFreeJoin(c0 + c1 + c2 + c3 + c4 + c5, c6);
  }

  /**
   * The two-placeholder field template receives the same identifier twice:
   * for `@table_name` and for `@field_name` alike.
   */
  lemma FieldRuleRepeatsIdentifier(x: string)
    ensures ReplaceRuleWithPattern(RenameFieldRule, x)[0] ==
      "((table_definition name: " + "(identifier) @table_name " + "(field_declaration_list " + "(field_declaration "
      + "name: (identifier) " + "@field_name ) ))\n    " + "(#eq? @table_name \"" + x
      + ("\" ) (#eq? @field_name \"" + x + "\" ))")
  {
    var h0 := "((table_definition name: " + "(identifier) @table_name " + "(field_declaration_list " + "(field_declaration "
      + "name: (identifier) " + "@field_name ) ))\n    " + "(#eq? @table_name \"";
    var m0, t0 := "\" ) (#eq? @field_name \"", "\" ))";
    FieldRuleHeadFree();
    SubstituteTwice(h0, m0, t0, x);
    SubstituteIdentity(t0, x);
  }

  /** The relationship field template receives the identifier once, between quotes. */
  lemma FieldRuleQuotesIdentifier(x: string)
    ensures ReplaceRuleWithPattern(RenameFieldRule, x)[1] ==
      "((table_field field: " + "(identifier) @field_name) " + "(#eq? @field_name \"" + x + "\"))"
  {
    var d0, d1, d2 := "((table_field field: ", "(identifier) @field_name) ", "(#eq? @field_name \"";
    var t1 := "\"))";
    PlaceholderFreeJoin(d0, d1);
    PlaceholderFreeJoin(d0 + d1, d2);
    SubstituteSplits(d0 + d1 + d2, t1, x);
    SubstituteIdentity(t1, x);
  }

  /** The lists one after the other. */
  function Flatten<X>(ss: seq<seq<X>>): seq<X>
    decreases |ss|
  {
    if ss == [] then [] else Flatten(ss[..|ss| - 1]) + ss[|ss| - 1]
  }

  /**
   * `f` applied to every element, in order: `func` of every visited node, or
   * the nodes each query visits, one list per query.
   */
  function Apply<X, T>(f: X -> T, s: seq<X>): (r: seq<T>)
    ensures |r| == |s|
    ensures forall i :: 0 <= i < |s| ==> r[i] == f(s[i])
  {
    seq(|s|, i requires 0 <= i < |s| => f(s[i]))
  }

  /** Applying `f` distributes over concatenation. */
  lemma ApplyConcat<X, T>(f: X -> T, a: seq<X>, b: seq<X>)
    ensures Apply(f, a + b) == Apply(f, a) + Apply(f, b)
  {
  }

  /**
   * `table_rename_rules`: for each substituted rule in order, runs its query
   * and pushes `func` of every node visited, in visiting order.
   */
  method TableRenameRules<T>(rule: seq<string>, identifierToReplace: string, runQuery: string -> seq<Path>, func: Path -> T)
    returns (queryList: seq<T>)
    ensures queryList == Apply(func, Flatten(Apply(runQuery, ReplaceRuleWithPattern(rule, identifierToReplace))))
  {
    queryList := [];
    var ruleWithPattern := ReplaceRuleWithPattern(rule, identifierToReplace);
    ghost var visited := Apply(runQuery, ruleWithPattern);
    for i := 0 to |ruleWithPattern|
      invariant queryList == Apply(func, Flatten(visited[..i]))
    {
      var captures := runQuery(ruleWithPattern[i]);
      ghost var before := queryList;
      for j := 0 to |captures|
        invariant queryList == before + Apply(func, captures[..j])
      {
        queryList := queryList + [func(captures[j])];
        assert captures[..j + 1] == captures[..j] + [captures[j]];
      }
      assert captures[..|captures|] == captures;
      assert visited[..i + 1][..i] == visited[..i];
      ApplyConcat(func, Flatten(visited[..i]), captures);
    }
    assert visited[..|ruleWithPattern|] == visited;
  }

  /** The captured nodes of `field_rename_rules` whose parent is not a table definition, in order. */
  function Kept(t: Node, cs: seq<Path>): (r: seq<Path>)
    requires forall c <- cs :: ValidPath(t, c)
    ensures forall c <- r :: c in cs
    decreases |cs|
  {
    if cs == [] then []
    else
      var last := cs[|cs| - 1];
      assert forall c <- cs[..|cs| - 1] :: c in cs;
      if ParentKind(t, last) == Some(TableDefinitionKind) then Kept(t, cs[..|cs| - 1])
      else Kept(t, cs[..|cs| - 1]) + [last]
  }

  /** A node is kept exactly when it was captured and its parent is not a table definition. */
  lemma {:induction false} KeptMembership(t: Node, cs: seq<Path>, c: Path)
    requires forall c <- cs :: ValidPath(t, c)
    ensures c in Kept(t, cs) <==> c in cs && ParentKind(t, c) != Some(TableDefinitionKind)
    decreases |cs|
  {
    if cs != [] {
      var init := cs[..|cs| - 1];
      assert forall x <- init :: x in cs;
      KeptMembership(t, init, c);
      assert cs == init + [cs[|cs| - 1]];
    }
  }

  /** Filtering distributes over concatenation, so the kept nodes keep their order. */
  lemma {:induction false} KeptConcat(t: Node, a: seq<Path>, b: seq<Path>)
    requires forall c <- a + b :: ValidPath(t, c)
    ensures Kept(t, a + b) == Kept(t, a) + Kept(t, b)
    decreases |b|
  {
    assert forall c <- a :: c in a + b;
    assert forall c <- b :: c in a + b;
    if b == [] {
      assert a + b == a;
    } else {
      var b' := b[..|b| - 1];
      assert (a + b)[..|a + b| - 1] == a + b';
      assert forall c <- a + b' :: c in a + b;
      KeptConcat(t, a, b');
    }
  }

  /** The protocol ranges of `cs`, in order. */
  function RangesOf(t: Node, cs: seq<Path>): (r: seq<LspRange>)
    requires forall c <- cs :: ValidPath(t, c)
    ensures |r| == |cs|
    ensures forall i :: 0 <= i < |cs| ==> r[i] == RangeFromTree(At(t, cs[i]).range)
  {
    seq(|cs|, i requires 0 <= i < |cs| => RangeFromTree(At(t, cs[i]).range))
  }

  /** What src/providers/rename.rs:171 unwraps: every visited node is in the tree and has a parent. */
  predicate CapturesHaveParents(t: Node, cs: seq<Path>)
  {
    forall c <- cs :: ValidPath(t, c) && c != []
  }

  /** Every list of visited nodes satisfies `CapturesHaveParents`. */
  predicate AllCapturesHaveParents(t: Node, vs: seq<seq<Path>>)
  {
    forall i :: 0 <= i < |vs| ==> CapturesHaveParents(t, vs[i])
  }

  /** The ranges `field_rename_rules` collects from the lists `vs`, list by list. */
  function FieldRanges(t: Node, vs: seq<seq<Path>>): seq<LspRange>
    requires AllCapturesHaveParents(t, vs)
    decreases |vs|
  {
    if vs == [] then []
    else FieldRanges(t, vs[..|vs| - 1]) + RangesOf(t, Kept(t, vs[|vs| - 1]))
  }

  /**
   * Collecting list by list is filtering the lists one after the other: the
   * ranges of the kept nodes, in visiting order.
   */
  lemma {:induction false} FieldRangesFlatten(t: Node, vs: seq<seq<Path>>)
    requires AllCapturesHaveParents(t, vs)
    ensures CapturesHaveParents(t, Flatten(vs))
    ensures FieldRanges(t, vs) == RangesOf(t, Kept(t, Flatten(vs)))
    decreases |vs|
  {
    if vs != [] {
      var init, last := vs[..|vs| - 1], vs[|vs| - 1];
      assert AllCapturesHaveParents(t, init) by {
        forall i | 0 <= i < |init| ensures CapturesHaveParents(t, init[i]) {
          assert init[i] == vs[i];
        }
      }
      assert CapturesHaveParents(t, last);
      FieldRangesFlatten(t, init);
      var a := Flatten(init);
      assert Flatten(vs) == a + last;
      KeptConcat(t, a, last);
      var ka, kb := Kept(t, a), Kept(t, last);
      assert RangesOf(t, ka + kb) == RangesOf(t, ka) + RangesOf(t, kb);
    }
  }

  /** Every collected range is the range of a visited node whose parent is not a table definition. */
  lemma FieldRangesSound(t: Node, vs: seq<seq<Path>>, k: nat)
    requires AllCapturesHaveParents(t, vs)
    requires k < |FieldRanges(t, vs)|
    ensures exists c :: && c in Flatten(vs) && ValidPath(t, c)
                        && ParentKind(t, c) != Some(TableDefinitionKind)
                        && FieldRanges(t, vs)[k] == RangeFromTree(At(t, c).range)
  {
    FieldRangesFlatten(t, vs);
    var kept := Kept(t, Flatten(vs));
    KeptMembership(t, Flatten(vs), kept[k]);
  }

  /** The range of every visited node whose parent is not a table definition is collected. */
  lemma FieldRangesComplete(t: Node, vs: seq<seq<Path>>, c: Path)
    requires AllCapturesHaveParents(t, vs)
    requires c in Flatten(vs) && ValidPath(t, c) && ParentKind(t, c) != Some(TableDefinitionKind)
    ensures RangeFromTree(At(t, c).range) in FieldRanges(t, vs)
  {
    FieldRangesFlatten(t, vs);
    var kept := Kept(t, Flatten(vs));
    KeptMembership(t, Flatten(vs), c);
    var k :| 0 <= k < |kept| && kept[k] == c;
    assert RangesOf(t, kept)[k] == RangeFromTree(At(t, c).range);
  }

  /**
   * `field_rename_rules`: for each substituted field rule in order, runs its
   * query and keeps the range of every visited node whose parent is not a
   * table definition.
   */
  method FieldRenameRules(t: Node, toReplace: string, runQuery: string -> seq<Path>) returns (queryList: seq<LspRange>)
    requires AllCapturesHaveParents(t, Apply(runQuery, ReplaceRuleWithPattern(RenameFieldRule, toReplace)))
    ensures queryList == FieldRanges(t, Apply(runQuery, ReplaceRuleWithPattern(RenameFieldRule, toReplace)))
  {
    queryList := [];
    var ruleWithPattern := ReplaceRuleWithPattern(RenameFieldRule, toReplace);
    ghost var visited := Apply(runQuery, ruleWithPattern);
    for i := 0 to |ruleWithPattern|
      invariant AllCapturesHaveParents(t, visited[..i])
      invariant queryList == FieldRanges(t, visited[..i])
    {
      var captures := runQuery(ruleWithPattern[i]);
      assert captures == visited[i] && CapturesHaveParents(t, captures);
      ghost var before := queryList;
      for j := 0 to |captures|
        invariant forall c <- captures[..j] :: c in captures
        invariant queryList == before + RangesOf(t, Kept(t, captures[..j]))
      {
        var node := captures[j];
        assert captures[..j + 1][..j] == captures[..j];
        if ParentKind(t, node) == Some(TableDefinitionKind) {
          continue;
        }
        queryList := queryList + [RangeFromTree(At(t, node).range)];
      }
      assert captures[..|captures|] == captures;
      assert visited[..i + 1][..i] == visited[..i];
    }
    assert visited[..|ruleWithPattern|] == visited;
  }

  /** A protocol URL. */
  type Url = string

  /** The protocol's `TextEdit`. */
  datatype TextEdit = TextEdit(range: LspRange, newText: string)

  /** The protocol's `WorkspaceEdit`: per-document edits, or document changes (never set here). */
  datatype WorkspaceEdit = WorkspaceEdit(changes: Option<map<Url, seq<TextEdit>>>, documentChanges: Option<seq<TextEdit>>)

  /** What src/providers/rename.rs:58 unwraps: an identifier at the cursor has a parent. */
  predicate RenameDefined(t: Node, editPosition: LspPosition)
  {
    var currentNode := DescendantForPoint(t, PointFromLsp(editPosition));
    At(t, currentNode).kind == IdentifierKind ==> currentNode != []
  }

  /**
   * `rename`: refuses unless the smallest node at the cursor is an
   * identifier; otherwise answers a workspace edit whose only document is
   * `fileLocation`, with no edits for it. `newName` is not used.
   */
  method Rename(t: Node, editPosition: LspPosition, newName: string, fileLocation: Url) returns (r: Option<WorkspaceEdit>)
    requires RenameDefined(t, editPosition)
    ensures r.None? <==> At(t, DescendantForPoint(t, PointFromLsp(editPosition))).kind != IdentifierKind
    ensures r.Some? ==> r.value.changes.Some? && r.value.changes.value.Keys == {fileLocation}
    ensures r.Some? ==> r.value.changes.value[fileLocation] == [] && r.value.documentChanges.None?
  {
    var editsPerDocument: map<Url, seq<TextEdit>> := map[];
    var currentDocChanges: seq<TextEdit> := [];

    var pointConversion := PointFromLsp(editPosition);
    var currentNode := DescendantForPoint(t, pointConversion);

    if At(t, currentNode).kind != IdentifierKind {
      return None;
    }

    var currentNodeValue := At(t, currentNode).text;
    // Computed as in the code and never read; the parent's unwrap is `RenameDefined`.
    var prevSibling := PrevSibling(t, currentNode);
    var parent := Parent(currentNode).value;

    editsPerDocument := editsPerDocument[fileLocation := currentDocChanges];
    return Some(WorkspaceEdit(Some(editsPerDocument), None));
  }

}
