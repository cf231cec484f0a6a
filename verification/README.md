# cxx-module-generator: the wrapper-text synthesis, modelled in Dafny

The generator reads a C++ header through Clang and writes a C++20 module
interface unit that textually includes the header in its global module
fragment and re-exports selected symbols with `export using` declarations.
This project models the part that decides what that file says:

- `ModuleWrapper` (module `ModuleWrapper`): the append-only text with its
  fixed three-line header (`module;`, `#include "<path>"`,
  `export module <name>;`), namespace openings and closings, and
  re-export lines for first declarations only.
- `FindAllSymbols` (module `FindAllSymbols`): the declaration walk. A
  namespace is entered only when its simple name occurs in the filter
  (the reverse of the symbol test); a Tag, TypedefName or Function
  declaration is offered for export when it is not implicit and the filter
  occurs in its qualified name; only the translation unit and namespaces
  are walked into. `Render` is the whole file for one translation unit.
- The Clang AST is the datatype `Decls.Decl`: `TranslationUnit(children)`,
  `Namespace(name, children)` and `Entity(kind, qualifiedName,
  isImplicit, isFirstDecl, members)`. Qualified names are opaque inputs.
  The members of an entity are kept so that "never walked" is a property
  that can be stated.
- `std::string::find` is `Strings.Find` (least index of an occurrence,
  `None` for `npos`); in particular the empty string is found in every
  string, so an empty filter admits every non-implicit entity, and an anonymous
  namespace (empty name) is entered whatever the filter.
- Module `WrapperText` gives a reference description of the body as a
  sequence of lines (`Open`, `Close`, `Export`) and proves: the walker's
  text is the header followed by those lines; the rendered file splits into
  exactly the header lines and the body lines when no printed name
  contains a line terminator; the braces are balanced; the
  re-exports are exactly the walked entities passing the routing rules, in
  walk order and without deduplication; skipped namespaces and entity
  members contribute nothing.

The command-line options `--namespace`, `--name` and the header path and
file stem are explicit parameters of `Render` instead of global state.

What the code does not do shapes the model as much as what it does:
namespaces are emitted as the walk meets them (a reopened namespace is
opened again), lines are never deduplicated, there is no routing by
linkage and no second artifact, and an anonymous namespace is emitted as
`namespace  {`.

## Model

| member | source | states |
|---|---|---|
| Strings.Find | src/main.cpp:98 | the search result is the least index where the needle occurs, and is absent exactly when the needle occurs nowhere |
| ModuleWrapper.OpenNamespace | src/main.cpp:41-43 | opening a namespace strictly extends the text and ends it with a line terminator |
| ModuleWrapper.CloseNamespace | src/main.cpp:45 | closing a namespace strictly extends the text and ends it with a line terminator |
| ModuleWrapper.AddSymbol | src/main.cpp:47-50 | the text only grows, and grows exactly when the declaration is present and a first declaration |
| FindAllSymbols.VisitDecl | src/main.cpp:95-105 | a visited entity changes the text exactly when it is a Tag, TypedefName or Function, not implicit, its qualified name contains the filter, and it is a first declaration |
| FindAllSymbols.TraverseNamespaceDecl | src/main.cpp:64-71 | a namespace leaves the text unchanged exactly when its name does not occur in the filter; otherwise it appends |
| FindAllSymbols.TraverseDecl | src/main.cpp:73-93 | walking any declaration only appends to the text |
| FindAllSymbols.TraverseChildren | src/main.cpp:67 | walking a context's children only appends to the text |
| FindAllSymbols.Render | src/main.cpp:116-119 | the rendered file always begins with the fixed header built from the path and the module name or stem |
| WrapperText.TraverseDeclIsLines | src/main.cpp:41-50 | the text the walk appends is exactly the reference line sequence, each line terminated |
| WrapperText.RenderLines | src/main.cpp:33-39 | the file splits into exactly `module;`, the include of the path, the module declaration (configured name, else stem), then the body lines |
| WrapperText.PrintableLines | src/main.cpp:41-50 | when no namespace name or qualified name outside entity members contains a line terminator, no printed body line contains one |
| WrapperText.RenderShape | src/main.cpp:34-38 | for every input, the file is `module;`, the include of the path and the module declaration, each terminated, followed by the terminated body lines |
| WrapperText.ModuleDeclarationLine | src/main.cpp:35-38 | the third line of the file declares the configured module name, or the file stem when none is configured |
| WrapperText.LinesBalanced | src/main.cpp:66-68 | the namespace openings and closings of the body are balanced: no prefix closes more than it opened and the whole closes all |
| WrapperText.ExportsAreRouted | src/main.cpp:95-105 | the re-exported names are exactly the walked entities that pass the routing rules, in walk order, one per entity |
| WrapperText.ExportedIff | src/main.cpp:97-99 | a name is re-exported if and only if some walked entity with that name passes the filter, is not implicit, has a visitor and is a first declaration |
| WrapperText.OpenedNamespacesInFilter | src/main.cpp:65-66 | every `namespace X {` line of the body names a namespace whose name occurs in the filter |
| WrapperText.NoDeduplication | src/main.cpp:47-50 | two distinct routed first declarations with the same qualified name (a tag and a function, two overloads) produce two identical re-export lines |
| WrapperText.SkippedNamespaceAddsNothing | src/main.cpp:64-71 | a namespace not entered, at any depth, contributes nothing for its whole subtree: walking its context gives the text obtained without it |
| WrapperText.SkippedNamespaceLeavesFile | src/main.cpp:64-71 | a top-level namespace not entered leaves the rendered file equal to the one rendered without it |
| WrapperText.MembersNeverWalked | src/main.cpp:73-93 | the members of a non-namespace declaration, at any depth, never change the text |
| WrapperText.MembersLeaveFile | src/main.cpp:73-93 | the members of a top-level non-namespace declaration never change the rendered file |
| WrapperText.RenderTerminated | src/main.cpp:34-49 | whatever the names, the rendered file ends with a line terminator and is recovered by joining its split lines |
| WrapperText.EmptyFilterSkipsNamedNamespaces | src/main.cpp:65 | with an empty filter a namespace is entered if and only if it is anonymous |
| WrapperText.EmptyFilterAdmitsAll | src/main.cpp:97-98 | with an empty filter an entity passes the filter if and only if it is not implicit |
| WrapperText.AnonymousNamespaceEntered | src/main.cpp:65 | an anonymous namespace is entered whatever the filter |

## Left out

- Clang itself: parsing, `RecursiveASTVisitor`, the `WalkUpFrom...` chain and the `DeclNodes.inc` dispatch are replaced by the `Decl` datatype and its `Kind`; qualified names are given, not computed from the nesting.
- The boolean results of the `Traverse...` and `Visit...` members: every path returns true, so the walk never stops early.
- A null declaration handed to `TraverseDecl`: the walk never produces one.
- Children that Clang's context walk skips (blocks, captured declarations, lambda closure classes): skipping them changes nothing, because a closure class is implicit and is rejected by the implicit test (src/main.cpp:97), and blocks and captured declarations have no visitor (src/main.cpp:103-105).
- Option parsing and global option state (src/main.cpp:17-26, 137-148): the filter, module name, path and stem are parameters.
- File-system work in `CreateModule` (canonical path, stem, output path `<output>/<stem>.cppm`, directory creation, writing with failbit exceptions): I/O; the path and stem are given strings and the model ends at the text.
- `SuppressIncludeNotFound` and the `ClangTool` driver: framework glue.
- `build.cpp`: build script with no logic to model.
- WrapperText.RenderLines: states the exact line structure only when the path, the declared module name (the configured name, else the stem) and the printed body lines contain no line terminator (WrapperText.PrintableLines shows this holds when no namespace name or qualified name outside entity members contains one); with a terminator inside a name the text is still produced but its lines no longer correspond one to one.
- WrapperText.ModuleDeclarationLine: requires only that the path and the declared module name contain no line terminator, because a terminator there shifts the module declaration off the third line; the body's names do not matter.
- ModuleWrapper.OpenNamespace: its own contract says only that the text grows by a terminated line; the exact `namespace <name> {` line is stated by WrapperText.TraverseDeclIsLines and WrapperText.RenderLines.
- ModuleWrapper.CloseNamespace: likewise; the exact `}` line is stated by WrapperText.TraverseDeclIsLines.
- ModuleWrapper.AddSymbol: likewise; the exact `export using <qualified name>;` line is stated by WrapperText.TraverseDeclIsLines.
