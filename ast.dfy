/**
 * The parts of a parsed GraphQL document that the path search reads
 * (GraphQL specification, October 2021: section 2.3 Operations,
 * section 2.4 Selection Sets, section 2.5 Fields, section 2.8 Fragments).
 * Arguments, directives, aliases, type conditions and variable
 * definitions are not represented: the search never looks at them.
 */
module Ast {

  /** One entry of a selection set. */
  datatype Selection =
    | Field(name: string, selectionSet: seq<Selection>)
    | InlineFragment(selectionSet: seq<Selection>)
    | FragmentSpread(fragmentName: string)

  /** The four shapes of an operation definition: `{ ... }`, `query`, `mutation`, `subscription`. */
  datatype OperationKind = SelectionSetOnly | Query | Mutation | Subscription

  /** A top-level definition; both kinds carry a root selection set. */
  datatype Definition =
    | Operation(kind: OperationKind, selectionSet: seq<Selection>)
    | Fragment(name: string, selectionSet: seq<Selection>)

  datatype Document = Document(definitions: seq<Definition>)
}
