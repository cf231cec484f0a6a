/**
 * The append-only text of the generated module interface unit: a fixed
 * header, then namespace openings and closings and re-export lines, in the
 * order the walker asks for them.
 */
module ModuleWrapper {
  import opened Options
  import opened Decls

  /** The declared module name: the configured one, else the file stem. */
  function ModuleNameOf(moduleName: string, stem: string): string {
    if moduleName != [] then moduleName else stem
  }

  /**
   * The text the wrapper starts with: the global module fragment, the
   * textual inclusion of the original header by its path, and the module
   * declaration.
   */
  function Header(originalFile: string, moduleName: string, stem: string): string {
    "module;\n#include \"" + originalFile + "\"\n"
      + "export module " + ModuleNameOf(moduleName, stem) + ";\n"
  }

  /** Appends the opening line of a namespace block. */
  function OpenNamespace(content: string, name: string): (r: string)
    ensures content < r
    ensures r[|r| - 1] == '\n'
  {
    content + "namespace " + name + " {\n"
  }

  /** Appends the closing line of a namespace block. */
  function CloseNamespace(content: string): (r: string)
    ensures content < r
    ensures r[|r| - 1] == '\n'
  {
    content + "}\n"
  }

  /**
   * Appends a re-export line for a declaration, but only for a present
   * (non-null) first declaration; a redeclaration adds nothing.
   */
  function AddSymbol(content: string, decl: Option<Decl>): (r: string)
    requires decl.Some? ==> decl.value.Entity?
    ensures content <= r
    ensures r != content <==> decl.Some? && decl.value.isFirstDecl
    ensures r != content ==> r[|r| - 1] == '\n'
  {
    if decl.Some? && decl.value.isFirstDecl then
      content + "export using " + decl.value.qualifiedName + ";\n"
    else
      content
  }
}
