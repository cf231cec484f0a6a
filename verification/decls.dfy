/**
 * The declaration tree the generator walks, abstracted from the Clang AST:
 * only the translation unit and namespaces are contexts the walk enters;
 * every other declaration is an entity whose own members are kept but
 * never walked.
 */
module Decls {

  /**
   * The declaration kinds the walker tells apart: the three it has a
   * visitor for, and everything else (variables, templates, using
   * declarations, linkage specifications, ...).
   */
  datatype Kind = Tag | TypedefName | Function | Other

  datatype Decl =
    | TranslationUnit(children: seq<Decl>)
    | Namespace(name: string, children: seq<Decl>)
    | Entity(kind: Kind, qualifiedName: string, isImplicit: bool, isFirstDecl: bool, members: seq<Decl>)

  /** The kind has a `Visit...Decl` handler in the walker. */
  predicate HasVisitor(k: Kind) {
    k != Other
  }
}
