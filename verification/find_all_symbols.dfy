/**
 * The declaration walk that drives the wrapper: which namespaces it enters,
 * which declarations it offers for export, and the complete rendering of one
 * translation unit. The filter, module name, header path and stem are
 * parameters instead of global options.
 */
module FindAllSymbols {
  import opened Options
  import opened Strings
  import opened Decls
  import opened ModuleWrapper

  /**
   * A namespace is entered when its simple name occurs in the filter
   * (`nsFilter.find(name) != npos`): the name is searched in the filter,
   * not the other way round.
   */
  predicate EntersNamespace(filter: string, name: string) {
    Contains(filter, name)
  }

  /**
   * A visited entity is offered for export when it is not implicit and the
   * filter occurs in its qualified name.
   */
  predicate Admits(filter: string, d: Decl)
    requires d.Entity?
  {
    !d.isImplicit && Contains(d.qualifiedName, filter)
  }

  /**
   * A declaration that is neither the translation unit nor a namespace is
   * visited for itself only: a Tag, TypedefName or Function declaration that
   * passes the filter goes to `AddSymbol`; any other kind has no visitor.
   */
  function VisitDecl(filter: string, content: string, d: Decl): (r: string)
    requires d.Entity?
    ensures content <= r
    ensures r != content <==> HasVisitor(d.kind) && Admits(filter, d) && d.isFirstDecl
  {
    if HasVisitor(d.kind) && Admits(filter, d) then AddSymbol(content, Some(d)) else content
  }

  /** The walk of one declaration; text is only ever appended. */
  function TraverseDecl(filter: string, content: string, d: Decl): (r: string)
    ensures content <= r
    decreases d, 1
  {
    match d
    case TranslationUnit(children) => TraverseChildren(filter, content, children)
    case Namespace(_, _) => TraverseNamespaceDecl(filter, content, d)
    case Entity(_, _, _, _, _) => VisitDecl(filter, content, d)
  }

  /**
   * An entered namespace is opened, its children are walked, and it is
   * closed; a namespace that is not entered leaves the text as it was,
   * whatever it contains.
   */
  function TraverseNamespaceDecl(filter: string, content: string, d: Decl): (r: string)
    requires d.Namespace?
    ensures content <= r
    ensures r == content <==> !EntersNamespace(filter, d.name)
    decreases d, 0
  {
    if EntersNamespace(filter, d.name) then
      CloseNamespace(TraverseChildren(filter, OpenNamespace(content, d.name), d.children))
    else
      content
  }

  /** The walk of a context's children, in declaration order. */
  function TraverseChildren(filter: string, content: string, children: seq<Decl>): (r: string)
    ensures content <= r
    decreases children
  {
    if |children| == 0 then content
    else TraverseChildren(filter, TraverseDecl(filter, content, children[0]), children[1..])
  }

  /**
   * The whole generated file for one translation unit: the header, then
   * whatever the walk of the unit appends.
   */
  function Render(filter: string, moduleName: string, originalFile: string, stem: string, tu: Decl): (r: string)
    ensures Header(originalFile, moduleName, stem) <= r
  {
    TraverseDecl(filter, Header(originalFile, moduleName, stem), tu)
  }
}
