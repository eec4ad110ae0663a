/**
 * Matching a dotted field path against the selection trees of a parsed
 * document (src/main.rs, `field_path_exists` and `query_contains_path`).
 */
module PathMatcher {
  import opened Options
  import opened Ast

  /** `field_path_exists`: does `selection` select the chain of field names `path`? */
  predicate FieldPathExists(selection: Selection, path: seq<string>)
    requires |path| > 0
    decreases selection
  {
    match selection
    case Field(name, items) =>
      if name == path[0] then
        if |path| == 1 then true else AnyMatches(items, path[1..])
      else
        false
    case InlineFragment(items) => AnyMatches(items, path)
    case FragmentSpread(_) => false
  }

  /** `items.iter().any(|sel| field_path_exists(sel, path))` */
  predicate AnyMatches(items: seq<Selection>, path: seq<string>)
    requires |path| > 0
    decreases items
  {
    |items| > 0 && (FieldPathExists(items[0], path) || AnyMatches(items[1..], path))
  }

  lemma {:induction false} AnyMatchesExists(items: seq<Selection>, path: seq<string>)
    requires |path| > 0
    ensures AnyMatches(items, path) <==> exists i :: 0 <= i < |items| && FieldPathExists(items[i], path)
    decreases items
  {
    if |items| > 0 {
      AnyMatchesExists(items[1..], path);
      if AnyMatches(items[1..], path) {
        var i :| 0 <= i < |items[1..]| && FieldPathExists(items[1..][i], path);
        assert FieldPathExists(items[i + 1], path);
      }
      if exists i :: 0 <= i < |items| && FieldPathExists(items[i], path) {
        var i :| 0 <= i < |items| && FieldPathExists(items[i], path);
        if i > 0 {
          assert items[1..][i - 1] == items[i];
        }
      }
    }
  }

  lemma {:induction false} AnyMatchesAppend(a: seq<Selection>, b: seq<Selection>, path: seq<string>)
    requires |path| > 0
    ensures AnyMatches(a + b, path) <==> AnyMatches(a, path) || AnyMatches(b, path)
    decreases a
  {
    if a == [] {
      assert a + b == b;
    } else {
      assert (a + b)[0] == a[0];
      assert (a + b)[1..] == a[1..] + b;
      AnyMatchesAppend(a[1..], b, path);
    }
  }

  /** A field matches exactly when its name is the first segment, and the
      path ends there or some child matches the rest of the path. */
  lemma FieldMatchSemantics(name: string, items: seq<Selection>, path: seq<string>)
    requires |path| > 0
    ensures FieldPathExists(Field(name, items), path) <==>
              name == path[0] &&
              (|path| == 1 || exists i :: 0 <= i < |items| && FieldPathExists(items[i], path[1..]))
  {
    if |path| > 1 {
      AnyMatchesExists(items, path[1..]);
    }
  }

  /** An inline fragment consumes no segment: it matches when some child matches the same path. */
  lemma InlineFragmentTransparent(items: seq<Selection>, path: seq<string>)
    requires |path| > 0
    ensures FieldPathExists(InlineFragment(items), path) <==>
              exists i :: 0 <= i < |items| && FieldPathExists(items[i], path)
  {
    AnyMatchesExists(items, path);
  }

  // ---------------------------------------------------------------------------
  // Reference semantics: the set of field-name chains a selection selects.

  /** Every chain of field names that starts at `selection`, inline fragments skipped,
      fragment spreads contributing nothing. */
  ghost function SelectedPaths(selection: Selection): set<seq<string>>
    decreases selection
  {
    match selection
    case Field(name, items) => {[name]} + (set p | p in SelectedPathsOf(items) :: [name] + p)
    case InlineFragment(items) => SelectedPathsOf(items)
    case FragmentSpread(_) => {}
  }

  ghost function SelectedPathsOf(items: seq<Selection>): set<seq<string>>
    decreases items
  {
    if items == [] then {} else SelectedPaths(items[0]) + SelectedPathsOf(items[1..])
  }

  lemma {:induction false} FieldPathExistsIffSelected(selection: Selection, path: seq<string>)
    requires |path| > 0
    ensures FieldPathExists(selection, path) <==> path in SelectedPaths(selection)
    decreases selection
  {
    match selection
    case Field(name, items) =>
      if |path| > 1 {
        AnyMatchesIffSelected(items, path[1..]);
        if path in SelectedPaths(selection) {
          if path != [name] {
            var p :| p in SelectedPathsOf(items) && path == [name] + p;
            assert p == path[1..];
          }
        }
        if FieldPathExists(selection, path) {
          assert path == [name] + path[1..];
        }
      } else {
        assert forall p :: p in SelectedPathsOf(items) ==> ([name] + p)[0] == name;
        if name == path[0] {
          assert path == [name];
        }
      }
    case InlineFragment(items) =>
      AnyMatchesIffSelected(items, path);
    case FragmentSpread(_) =>
  }

  lemma {:induction false} AnyMatchesIffSelected(items: seq<Selection>, path: seq<string>)
    requires |path| > 0
    ensures AnyMatches(items, path) <==> path in SelectedPathsOf(items)
    decreases items
  {
    if items != [] {
      FieldPathExistsIffSelected(items[0], path);
      AnyMatchesIffSelected(items[1..], path);
    }
  }

  /** Matching is closed under taking non-empty prefixes of the path. */
  lemma {:induction false} PrefixMatches(selection: Selection, path: seq<string>, k: nat)
    requires 1 <= k <= |path|
    requires FieldPathExists(selection, path)
    ensures FieldPathExists(selection, path[..k])
    decreases selection
  {
    match selection
    case Field(name, items) =>
      if k > 1 {
        assert path[..k][1..] == path[1..][..k - 1];
        AnyPrefixMatches(items, path[1..], k - 1);
      }
    case InlineFragment(items) =>
      AnyPrefixMatches(items, path, k);
  }

  lemma {:induction false} AnyPrefixMatches(items: seq<Selection>, path: seq<string>, k: nat)
    requires 1 <= k <= |path|
    requires AnyMatches(items, path)
    ensures AnyMatches(items, path[..k])
    decreases items
  {
    if FieldPathExists(items[0], path) {
      PrefixMatches(items[0], path, k);
    } else {
      AnyPrefixMatches(items[1..], path, k);
    }
  }

  // ---------------------------------------------------------------------------
  // Fragment spreads never contribute and inline fragments can be flattened away.

  predicate NoSpreads(items: seq<Selection>)
    decreases items
  {
    forall i :: 0 <= i < |items| ==>
      match items[i]
      case Field(_, ss) => NoSpreads(ss)
      case InlineFragment(ss) => NoSpreads(ss)
      case FragmentSpread(_) => false
  }

  predicate NoInlineFragments(items: seq<Selection>)
    decreases items
  {
    forall i :: 0 <= i < |items| ==>
      match items[i]
      case Field(_, ss) => NoInlineFragments(ss)
      case InlineFragment(_) => false
      case FragmentSpread(_) => true
  }

  lemma NoSpreadsAppend(a: seq<Selection>, b: seq<Selection>)
    requires NoSpreads(a) && NoSpreads(b)
    ensures NoSpreads(a + b)
  {
    assert forall i :: 0 <= i < |a + b| ==> (a + b)[i] == if i < |a| then a[i] else b[i - |a|];
  }

  lemma NoInlineFragmentsAppend(a: seq<Selection>, b: seq<Selection>)
    requires NoInlineFragments(a) && NoInlineFragments(b)
    ensures NoInlineFragments(a + b)
  {
    assert forall i :: 0 <= i < |a + b| ==> (a + b)[i] == if i < |a| then a[i] else b[i - |a|];
  }

  /** The selection set with every fragment spread removed, at every depth. */
  function StripSpreads(items: seq<Selection>): (r: seq<Selection>)
    ensures |r| <= |items|
    ensures NoSpreads(r)
    decreases items
  {
    if items == [] then []
    else
      var head := match items[0]
        case Field(name, ss) => [Field(name, StripSpreads(ss))]
        case InlineFragment(ss) => [InlineFragment(StripSpreads(ss))]
        case FragmentSpread(_) => [];
      var rest := StripSpreads(items[1..]);
      NoSpreadsAppend(head, rest);
      head + rest
  }

  /** Dropping every fragment spread never changes whether a path matches. */
  lemma {:induction false} StripSpreadsPreservesMatch(items: seq<Selection>, path: seq<string>)
    requires |path| > 0
    ensures AnyMatches(StripSpreads(items), path) == AnyMatches(items, path)
    decreases items, |path|
  {
    if items != [] {
      var rest := StripSpreads(items[1..]);
      StripSpreadsPreservesMatch(items[1..], path);
      match items[0]
      case Field(name, ss) =>
        if |path| > 1 {
          StripSpreadsPreservesMatch(ss, path[1..]);
        }
        AnyMatchesAppend([Field(name, StripSpreads(ss))], rest, path);
      case InlineFragment(ss) =>
        StripSpreadsPreservesMatch(ss, path);
        AnyMatchesAppend([InlineFragment(StripSpreads(ss))], rest, path);
      case FragmentSpread(_) =>
        assert StripSpreads(items) == [] + rest == rest;
    }
  }

  /** The selection set with every inline fragment replaced by its own (flattened) children. */
  function FlattenInline(items: seq<Selection>): (r: seq<Selection>)
    ensures NoInlineFragments(r)
    decreases items
  {
    if items == [] then []
    else
      var head := match items[0]
        case Field(name, ss) => [Field(name, FlattenInline(ss))]
        case InlineFragment(ss) => FlattenInline(ss)
        case FragmentSpread(n) => [FragmentSpread(n)];
      var rest := FlattenInline(items[1..]);
      NoInlineFragmentsAppend(head, rest);
      head + rest
  }

  /** Splicing inline fragments into their parent never changes whether a path matches. */
  lemma {:induction false} FlattenInlinePreservesMatch(items: seq<Selection>, path: seq<string>)
    requires |path| > 0
    ensures AnyMatches(FlattenInline(items), path) == AnyMatches(items, path)
    decreases items, |path|
  {
    if items != [] {
      var rest := FlattenInline(items[1..]);
      FlattenInlinePreservesMatch(items[1..], path);
      match items[0]
      case Field(name, ss) =>
        if |path| > 1 {
          FlattenInlinePreservesMatch(ss, path[1..]);
        }
        AnyMatchesAppend([Field(name, FlattenInline(ss))], rest, path);
      case InlineFragment(ss) =>
        FlattenInlinePreservesMatch(ss, path);
        AnyMatchesAppend(FlattenInline(ss), rest, path);
      case FragmentSpread(n) =>
        AnyMatchesAppend([FragmentSpread(n)], rest, path);
    }
  }

  // ---------------------------------------------------------------------------
  // Document-level search.

  /** Some definition, of whatever kind, has a root selection matching the full path. */
  predicate ContainsPath(doc: Document, path: seq<string>)
    requires |path| > 0
  {
    exists i :: 0 <= i < |doc.definitions| && AnyMatches(doc.definitions[i].selectionSet, path)
  }

  /** The definition loop of `query_contains_path`, after a successful parse. */
  method DocumentContainsPath(doc: Document, path: seq<string>) returns (found: bool)
    requires |path| > 0
    ensures found == ContainsPath(doc, path)
  {
    for i := 0 to |doc.definitions|
      invariant forall j :: 0 <= j < i ==> !AnyMatches(doc.definitions[j].selectionSet, path)
    {
      match doc.definitions[i]
      case Operation(_, items) =>
        if AnyMatches(items, path) {
          return true;
        }
      case Fragment(_, items) =>
        if AnyMatches(items, path) {
          return true;
        }
    }
    return false;
  }

  /** A snippet matches when it parses and the document contains the path; a parse failure is no match. */
  predicate SnippetMatches(query: string, path: seq<string>, parse: string -> Option<Document>)
    requires |path| > 0
  {
    match parse(query)
    case None => false
    case Some(doc) => ContainsPath(doc, path)
  }

  /** `query_contains_path`, with the parser given as `parse`. */
  method QueryContainsPath(query: string, path: seq<string>, parse: string -> Option<Document>)
    returns (found: bool)
    requires |path| > 0
    ensures parse(query).None? ==> !found
    ensures parse(query).Some? ==> found == ContainsPath(parse(query).value, path)
  {
    var ast := parse(query);
    if ast.None? {
      return false;
    }
    found := DocumentContainsPath(ast.value, path);
  }

  ghost function DefinitionPaths(defs: seq<Definition>): set<seq<string>>
    decreases defs
  {
    if defs == [] then {} else SelectedPathsOf(defs[0].selectionSet) + DefinitionPaths(defs[1..])
  }

  /** The document search agrees with the reference: some definition selects the chain `path`.
      In particular a document without definitions never matches. */
  lemma {:induction false} ContainsPathIffSelected(doc: Document, path: seq<string>)
    requires |path| > 0
    ensures ContainsPath(doc, path) <==> path in DefinitionPaths(doc.definitions)
    ensures doc.definitions == [] ==> !ContainsPath(doc, path)
    decreases doc.definitions
  {
    var defs := doc.definitions;
    if defs != [] {
      AnyMatchesIffSelected(defs[0].selectionSet, path);
      ContainsPathIffSelected(Document(defs[1..]), path);
      if ContainsPath(Document(defs[1..]), path) {
        var i :| 0 <= i < |defs[1..]| && AnyMatches(defs[1..][i].selectionSet, path);
        assert defs[i + 1] == defs[1..][i];
      }
      if ContainsPath(doc, path) && !AnyMatches(defs[0].selectionSet, path) {
        var i :| 0 <= i < |defs| && AnyMatches(defs[i].selectionSet, path);
        assert defs[1..][i - 1] == defs[i];
      }
    }
  }

  /** Splitting the definitions in two: the search is the OR of the two halves, so their order is irrelevant. */
  lemma ContainsPathAppend(a: seq<Definition>, b: seq<Definition>, path: seq<string>)
    requires |path| > 0
    ensures ContainsPath(Document(a + b), path) <==> ContainsPath(Document(a), path) || ContainsPath(Document(b), path)
  {
    if ContainsPath(Document(a), path) {
      var i :| 0 <= i < |a| && AnyMatches(a[i].selectionSet, path);
      assert (a + b)[i] == a[i];
    }
    if ContainsPath(Document(b), path) {
      var i :| 0 <= i < |b| && AnyMatches(b[i].selectionSet, path);
      assert (a + b)[|a| + i] == b[i];
    }
    if ContainsPath(Document(a + b), path) {
      var i :| 0 <= i < |a + b| && AnyMatches((a + b)[i].selectionSet, path);
      if i >= |a| {
        assert b[i - |a|] == (a + b)[i];
      } else {
        assert a[i] == (a + b)[i];
      }
    }
  }

  /** All operation kinds and fragment definitions are searched alike: replacing a definition by
      any other with the same root selection set does not change the result. */
  lemma DefinitionKindIrrelevant(doc: Document, i: nat, d: Definition, path: seq<string>)
    requires |path| > 0
    requires i < |doc.definitions| && d.selectionSet == doc.definitions[i].selectionSet
    ensures ContainsPath(Document(doc.definitions[i := d]), path) == ContainsPath(doc, path)
  {
    var defs := doc.definitions[i := d];
    if ContainsPath(doc, path) {
      var j :| 0 <= j < |doc.definitions| && AnyMatches(doc.definitions[j].selectionSet, path);
      assert defs[j].selectionSet == doc.definitions[j].selectionSet;
    }
  }

  /** A spread does not pull in the fragment it names: a document whose operation only spreads
      fragment `n` matches exactly when the body of `n` itself matches at its root. */
  lemma SpreadNotResolved(kind: OperationKind, n: string, body: seq<Selection>, path: seq<string>)
    requires |path| > 0
    ensures (ContainsPath(Document([Operation(kind, [Field(path[0], [FragmentSpread(n)])]), Fragment(n, body)]), path)
             <==> (|path| == 1 || AnyMatches(body, path)))
  {
    var doc := Document([Operation(kind, [Field(path[0], [FragmentSpread(n)])]), Fragment(n, body)]);
    var op := [Field(path[0], [FragmentSpread(n)])];
    if |path| > 1 {
      assert !AnyMatches([FragmentSpread(n)], path[1..]);
      assert !AnyMatches(op, path);
    } else {
      assert AnyMatches(op, path);
    }
    assert doc.definitions[0].selectionSet == op;
    assert doc.definitions[1].selectionSet == body;
  }

  // ---------------------------------------------------------------------------
  // Worked documents for the path user.profile.email.

  /** `query { user { profile { email } } }` contains it; `query { user { profile { name } } }` does not. */
  lemma NestedFieldsScenario()
    ensures ContainsPath(Document([Operation(Query, [Field("user", [Field("profile", [Field("email", [])])])])]),
                         ["user", "profile", "email"])
    ensures !ContainsPath(Document([Operation(Query, [Field("user", [Field("profile", [Field("name", [])])])])]),
                          ["user", "profile", "email"])
  {
    var path := ["user", "profile", "email"];
    assert path[1..] == ["profile", "email"] && path[1..][1..] == ["email"];
    var hit := [Field("user", [Field("profile", [Field("email", [])])])];
    assert FieldPathExists(Field("email", []), ["email"]);
    assert AnyMatches(hit, path);
    assert Document([Operation(Query, hit)]).definitions[0].selectionSet == hit;
    var miss := [Field("user", [Field("profile", [Field("name", [])])])];
    assert !FieldPathExists(Field("name", []), ["email"]);
    assert !AnyMatches([Field("profile", [Field("name", [])])], path[1..]);
    assert !AnyMatches(miss, path);
  }

  /** `query { user { ... on Admin { profile { email } } } }` contains it: the inline fragment is skipped. */
  lemma InlineFragmentScenario()
    ensures ContainsPath(Document([Operation(Query, [Field("user", [InlineFragment([Field("profile", [Field("email", [])])])])])]),
                         ["user", "profile", "email"])
  {
    var path := ["user", "profile", "email"];
    assert path[1..] == ["profile", "email"] && path[1..][1..] == ["email"];
    var items := [Field("user", [InlineFragment([Field("profile", [Field("email", [])])])])];
    assert FieldPathExists(Field("email", []), ["email"]);
    assert AnyMatches([Field("profile", [Field("email", [])])], path[1..]);
    assert AnyMatches(items, path);
    assert Document([Operation(Query, items)]).definitions[0].selectionSet == items;
  }

  /** `query { user { ...profileFields } }` with `fragment profileFields on User { profile { email } }`
      does not contain it: the spread is not resolved, and the fragment's own root is `profile`. */
  lemma FragmentSpreadScenario()
    ensures !ContainsPath(Document([Operation(Query, [Field("user", [FragmentSpread("profileFields")])]),
                                    Fragment("profileFields", [Field("profile", [Field("email", [])])])]),
                          ["user", "profile", "email"])
  {
    var path := ["user", "profile", "email"];
    SpreadNotResolved(Query, "profileFields", [Field("profile", [Field("email", [])])], path);
    assert !FieldPathExists(Field("profile", [Field("email", [])]), path);
    assert !AnyMatches([Field("profile", [Field("email", [])])], path);
  }
}
