/**
 * What the generated file says, line by line. `Lines` is the reference
 * description of the body as a sequence of namespace openings, closings and
 * re-exports; the lemmas here tie the walker's append-only text to it and
 * state the properties of the output: the fixed header, balanced braces,
 * exactly the routed symbols in walk order, and the subtrees that add
 * nothing.
 */
module WrapperText {
  import opened Strings
  import opened Decls
  import opened ModuleWrapper
  import opened FindAllSymbols

  /** One line of the body of the generated file. */
  datatype Line = Open(name: string) | Close | Export(qualifiedName: string)

  function Text(l: Line): string {
    match l
    case Open(name) => "namespace " + name + " {"
    case Close => "}"
    case Export(q) => "export using " + q + ";"
  }

  function Texts(ls: seq<Line>): (r: seq<string>)
    ensures |r| == |ls|
    ensures forall i :: 0 <= i < |ls| ==> r[i] == Text(ls[i])
  {
    if |ls| == 0 then [] else [Text(ls[0])] + Texts(ls[1..])
  }

  /** The three header lines, without their terminators. */
  function HeaderLines(originalFile: string, moduleName: string, stem: string): seq<string> {
    ["module;", "#include \"" + originalFile + "\"", "export module " + ModuleNameOf(moduleName, stem) + ";"]
  }

  /** The entity is re-exported: it has a visitor, passes the filter and is a first declaration. */
  predicate Emits(filter: string, d: Decl) {
    d.Entity? && HasVisitor(d.kind) && Admits(filter, d) && d.isFirstDecl
  }

  /** The body lines a declaration contributes. */
  function Lines(filter: string, d: Decl): seq<Line>
    decreases d, 1
  {
    match d
    case TranslationUnit(children) => LinesAll(filter, children)
    case Namespace(name, children) =>
      if EntersNamespace(filter, name) then [Open(name)] + LinesAll(filter, children) + [Close] else []
    case Entity(_, q, _, _, _) => if Emits(filter, d) then [Export(q)] else []
  }

  function LinesAll(filter: string, ds: seq<Decl>): seq<Line>
    decreases ds
  {
    if |ds| == 0 then [] else Lines(filter, ds[0]) + LinesAll(filter, ds[1..])
  }

  // ---------------------------------------------------------------------
  // The walker's text is the header followed by the reference lines.

  lemma TextsAppend(a: seq<Line>, b: seq<Line>)
    ensures Texts(a + b) == Texts(a) + Texts(b)
  {
  }

  /** Joined body text of a line sequence. */
  function Body(ls: seq<Line>): string {
    JoinLines(Texts(ls))
  }

  lemma BodyAppend(a: seq<Line>, b: seq<Line>)
    ensures Body(a + b) == Body(a) + Body(b)
  {
    TextsAppend(a, b);
    JoinLinesAppend(Texts(a), Texts(b));
  }

  lemma {:induction false} TraverseDeclIsLines(filter: string, content: string, d: Decl)
    ensures TraverseDecl(filter, content, d) == content + Body(Lines(filter, d))
    decreases d, 1
  {
    match d
    case TranslationUnit(children) =>
      TraverseChildrenIsLines(filter, content, children);
    case Namespace(name, children) =>
      if EntersNamespace(filter, name) {
        var entered := OpenNamespace(content, name);
        TraverseChildrenIsLines(filter, entered, children);
        var inner := LinesAll(filter, children);
        BodyAppend([Open(name)] + inner, [Close]);
        BodyAppend([Open(name)], inner);
      }
    case Entity(_, q, _, _, _) =>
      if Emits(filter, d) {
        var t := Text(Export(q));
        assert Texts([Export(q)]) == [t];
        assert [t][1..] == [];
        assert JoinLines([t]) == t + "\n" + JoinLines([]);
        assert Body([Export(q)]) == "export using " + q + ";" + "\n";
      } else {
        assert Lines(filter, d) == [];
      }
  }

  lemma {:induction false} TraverseChildrenIsLines(filter: string, content: string, ds: seq<Decl>)
    ensures TraverseChildren(filter, content, ds) == content + Body(LinesAll(filter, ds))
    decreases ds
  {
    if |ds| > 0 {
      TraverseDeclIsLines(filter, content, ds[0]);
      var next := TraverseDecl(filter, content, ds[0]);
      TraverseChildrenIsLines(filter, next, ds[1..]);
      BodyAppend(Lines(filter, ds[0]), LinesAll(filter, ds[1..]));
    }
  }

  lemma HeaderIsLines(originalFile: string, moduleName: string, stem: string)
    ensures Header(originalFile, moduleName, stem) == JoinLines(HeaderLines(originalFile, moduleName, stem))
  {
    var h := HeaderLines(originalFile, moduleName, stem);
    assert JoinLines(h[2..]) == h[2] + "\n" by {
      assert h[2..][1..] == [];
    }
    assert JoinLines(h[1..]) == h[1] + "\n" + (h[2] + "\n") by {
      assert h[1..][1..] == h[2..];
    }
  }

  // ---------------------------------------------------------------------
  // Every printed name is free of line terminators.

  predicate PrintableNames(d: Decl)
    decreases d, 1
  {
    match d
    case TranslationUnit(children) => PrintableNamesAll(children)
    case Namespace(name, children) => NoNewline(name) && PrintableNamesAll(children)
    case Entity(_, q, _, _, _) => NoNewline(q)
  }

  predicate PrintableNamesAll(ds: seq<Decl>)
    decreases ds
  {
    forall i :: 0 <= i < |ds| ==> PrintableNames(ds[i])
  }

  lemma {:induction false} PrintableLines(filter: string, d: Decl)
    requires PrintableNames(d)
    ensures AllNoNewline(Texts(Lines(filter, d)))
    decreases d, 1
  {
    match d
    case TranslationUnit(children) =>
      PrintableLinesAll(filter, children);
    case Namespace(name, children) =>
      if EntersNamespace(filter, name) {
        PrintableLinesAll(filter, children);
        var inner := LinesAll(filter, children);
        TextsAppend([Open(name)] + inner, [Close]);
        TextsAppend([Open(name)], inner);
      }
    case Entity(_, _, _, _, _) =>
  }

  lemma {:induction false} PrintableLinesAll(filter: string, ds: seq<Decl>)
    requires PrintableNamesAll(ds)
    ensures AllNoNewline(Texts(LinesAll(filter, ds)))
    decreases ds
  {
    if |ds| > 0 {
      PrintableLines(filter, ds[0]);
      PrintableLinesAll(filter, ds[1..]);
      TextsAppend(Lines(filter, ds[0]), LinesAll(filter, ds[1..]));
    }
  }

  /**
   * The generated file consists of exactly the three header lines followed
   * by the body lines, provided no printed line contains a line terminator
   * (`PrintableLines` shows that terminator-free names are enough).
   */
  lemma RenderLines(filter: string, moduleName: string, originalFile: string, stem: string, tu: Decl)
    requires NoNewline(originalFile) && NoNewline(ModuleNameOf(moduleName, stem))
    requires AllNoNewline(Texts(Lines(filter, tu)))
    ensures SplitLines(Render(filter, moduleName, originalFile, stem, tu))
         == HeaderLines(originalFile, moduleName, stem) + Texts(Lines(filter, tu))
  {
    var header := HeaderLines(originalFile, moduleName, stem);
    var body := Texts(Lines(filter, tu));
    TraverseDeclIsLines(filter, Header(originalFile, moduleName, stem), tu);
    HeaderIsLines(originalFile, moduleName, stem);
    JoinLinesAppend(header, body);
    assert NoNewline(header[1]);
    assert AllNoNewline(header + body);
    SplitJoin(header + body);
  }

  /**
   * The third line of the file declares the module: the configured name,
   * or the stem when no name is configured.
   */
  lemma ModuleDeclarationLine(filter: string, moduleName: string, originalFile: string, stem: string, tu: Decl)
    requires NoNewline(originalFile) && NoNewline(ModuleNameOf(moduleName, stem))
    ensures |SplitLines(Render(filter, moduleName, originalFile, stem, tu))| >= 3
    ensures SplitLines(Render(filter, moduleName, originalFile, stem, tu))[2]
         == "export module " + (if moduleName != [] then moduleName else stem) + ";"
  {
    var l1 := "#include \"" + originalFile + "\"";
    var l2 := "export module " + ModuleNameOf(moduleName, stem) + ";";
    var body := Body(Lines(filter, tu));
    RenderShape(filter, moduleName, originalFile, stem, tu);
    assert NoNewline(l1);
    ThirdLine("module;", l1, l2, body);
  }

  /** The rendered text, as its three header lines followed by the body. */
  lemma RenderShape(filter: string, moduleName: string, originalFile: string, stem: string, tu: Decl)
    ensures Render(filter, moduleName, originalFile, stem, tu)
         == "module;" + "\n" + ("#include \"" + originalFile + "\"" + "\n"
            + ("export module " + ModuleNameOf(moduleName, stem) + ";" + "\n" + Body(Lines(filter, tu))))
  {
    TraverseDeclIsLines(filter, Header(originalFile, moduleName, stem), tu);
  }

  // ---------------------------------------------------------------------
  // Balanced braces.

  function Step(l: Line): int {
    match l
    case Open(_) => 1
    case Close => -1
    case Export(_) => 0
  }

  /** Number of blocks left open after the lines. */
  function Depth(ls: seq<Line>): int {
    if |ls| == 0 then 0 else Step(ls[0]) + Depth(ls[1..])
  }

  /** Every prefix closes no more blocks than it opened, and the whole closes all of them. */
  predicate Balanced(ls: seq<Line>) {
    Depth(ls) == 0 && forall k :: 0 <= k <= |ls| ==> Depth(ls[..k]) >= 0
  }

  lemma {:induction false} DepthAppend(a: seq<Line>, b: seq<Line>)
    ensures Depth(a + b) == Depth(a) + Depth(b)
    decreases |a|
  {
    if |a| > 0 {
      assert (a + b)[0] == a[0];
      assert (a + b)[1..] == a[1..] + b;
      DepthAppend(a[1..], b);
    } else {
      assert a + b == b;
    }
  }

  lemma BalancedConcat(a: seq<Line>, b: seq<Line>)
    requires Balanced(a) && Balanced(b)
    ensures Balanced(a + b)
  {
    DepthAppend(a, b);
    forall k | 0 <= k <= |a + b|
      ensures Depth((a + b)[..k]) >= 0
    {
      if k <= |a| {
        assert (a + b)[..k] == a[..k];
      } else {
        assert (a + b)[..k] == a + b[..k - |a|];
        DepthAppend(a, b[..k - |a|]);
      }
    }
  }

  lemma BalancedWrap(name: string, x: seq<Line>)
    requires Balanced(x)
    ensures Balanced([Open(name)] + x + [Close])
  {
    var w := [Open(name)] + x + [Close];
    DepthAppend([Open(name)] + x, [Close]);
    DepthAppend([Open(name)], x);
    forall k | 0 <= k <= |w|
      ensures Depth(w[..k]) >= 0
    {
      if k == 0 {
      } else if k <= |x| + 1 {
        assert w[..k] == [Open(name)] + x[..k - 1];
        DepthAppend([Open(name)], x[..k - 1]);
      } else {
        assert w[..k] == w;
      }
    }
  }

  /**
   * The body's namespace lines are balanced: every opening is matched by a
   * later closing, and no closing comes before its opening.
   */
  lemma {:induction false} LinesBalanced(filter: string, d: Decl)
    ensures Balanced(Lines(filter, d))
    decreases d, 1
  {
    match d
    case TranslationUnit(children) =>
      LinesAllBalanced(filter, children);
    case Namespace(name, children) =>
      if EntersNamespace(filter, name) {
        LinesAllBalanced(filter, children);
        BalancedWrap(name, LinesAll(filter, children));
      } else {
        assert Lines(filter, d) == [];
      }
    case Entity(_, _, _, _, _) =>
      assert forall k :: 0 <= k <= |Lines(filter, d)| ==> Depth(Lines(filter, d)[..k]) == 0;
  }

  lemma {:induction false} LinesAllBalanced(filter: string, ds: seq<Decl>)
    ensures Balanced(LinesAll(filter, ds))
    decreases ds
  {
    if |ds| == 0 {
      assert LinesAll(filter, ds) == [];
    } else {
      LinesBalanced(filter, ds[0]);
      LinesAllBalanced(filter, ds[1..]);
      BalancedConcat(Lines(filter, ds[0]), LinesAll(filter, ds[1..]));
    }
  }

  // ---------------------------------------------------------------------
  // Which declarations the walk reaches, and which of them are exported.

  /** The declarations the walk visits, in visiting order. */
  function Walk(filter: string, d: Decl): seq<Decl>
    decreases d, 1
  {
    match d
    case TranslationUnit(children) => [d] + WalkAll(filter, children)
    case Namespace(name, children) =>
      if EntersNamespace(filter, name) then [d] + WalkAll(filter, children) else []
    case Entity(_, _, _, _, _) => [d]
  }

  function WalkAll(filter: string, ds: seq<Decl>): seq<Decl>
    decreases ds
  {
    if |ds| == 0 then [] else Walk(filter, ds[0]) + WalkAll(filter, ds[1..])
  }

  /** The qualified names of the declarations that are re-exported, in order. */
  function Routed(filter: string, ds: seq<Decl>): seq<string> {
    if |ds| == 0 then []
    else (if Emits(filter, ds[0]) then [ds[0].qualifiedName] else []) + Routed(filter, ds[1..])
  }

  /** The qualified names of the re-export lines, in order. */
  function Exports(ls: seq<Line>): seq<string> {
    if |ls| == 0 then []
    else (if ls[0].Export? then [ls[0].qualifiedName] else []) + Exports(ls[1..])
  }

  lemma {:induction false} RoutedAppend(filter: string, a: seq<Decl>, b: seq<Decl>)
    ensures Routed(filter, a + b) == Routed(filter, a) + Routed(filter, b)
    decreases |a|
  {
    if |a| == 0 {
      assert a + b == b;
    } else {
      assert (a + b)[0] == a[0];
      assert (a + b)[1..] == a[1..] + b;
      RoutedAppend(filter, a[1..], b);
    }
  }

  lemma {:induction false} ExportsAppend(a: seq<Line>, b: seq<Line>)
    ensures Exports(a + b) == Exports(a) + Exports(b)
    decreases |a|
  {
    if |a| == 0 {
      assert a + b == b;
    } else {
      assert (a + b)[0] == a[0];
      assert (a + b)[1..] == a[1..] + b;
      ExportsAppend(a[1..], b);
    }
  }

  /**
   * The re-export lines are exactly the walked declarations that pass the
   * routing rules, in walk order, one line per declaration: nothing is
   * deduplicated and nothing is reordered.
   */
  lemma {:induction false} ExportsAreRouted(filter: string, d: Decl)
    ensures Exports(Lines(filter, d)) == Routed(filter, Walk(filter, d))
    decreases d, 1
  {
    match d
    case TranslationUnit(children) =>
      ExportsAreRoutedAll(filter, children);
      RoutedAppend(filter, [d], WalkAll(filter, children));
    case Namespace(name, children) =>
      if EntersNamespace(filter, name) {
        ExportsAreRoutedAll(filter, children);
        RoutedAppend(filter, [d], WalkAll(filter, children));
        var inner := LinesAll(filter, children);
        ExportsAppend([Open(name)] + inner, [Close]);
        ExportsAppend([Open(name)], inner);
      }
    case Entity(_, _, _, _, _) =>
  }

  lemma {:induction false} ExportsAreRoutedAll(filter: string, ds: seq<Decl>)
    ensures Exports(LinesAll(filter, ds)) == Routed(filter, WalkAll(filter, ds))
    decreases ds
  {
    if |ds| > 0 {
      ExportsAreRouted(filter, ds[0]);
      ExportsAreRoutedAll(filter, ds[1..]);
      ExportsAppend(Lines(filter, ds[0]), LinesAll(filter, ds[1..]));
      RoutedAppend(filter, Walk(filter, ds[0]), WalkAll(filter, ds[1..]));
    }
  }

  lemma {:induction false} RoutedMembership(filter: string, ds: seq<Decl>, q: string)
    ensures q in Routed(filter, ds)
        <==> exists i :: 0 <= i < |ds| && Emits(filter, ds[i]) && ds[i].qualifiedName == q
    decreases |ds|
  {
    if |ds| > 0 {
      RoutedMembership(filter, ds[1..], q);
      if q in Routed(filter, ds[1..]) {
        var i :| 0 <= i < |ds[1..]| && Emits(filter, ds[1..][i]) && ds[1..][i].qualifiedName == q;
        assert ds[i + 1] == ds[1..][i];
      }
      if exists i :: 0 <= i < |ds| && Emits(filter, ds[i]) && ds[i].qualifiedName == q {
        var i :| 0 <= i < |ds| && Emits(filter, ds[i]) && ds[i].qualifiedName == q;
        if i > 0 {
          assert ds[1..][i - 1] == ds[i];
        }
      }
    }
  }

  /**
   * A qualified name is re-exported exactly when some walked declaration
   * with that name is a non-implicit, first-declared Tag, TypedefName or
   * Function whose qualified name contains the filter.
   */
  lemma ExportedIff(filter: string, d: Decl, q: string)
    ensures q in Exports(Lines(filter, d))
        <==> exists e :: e in Walk(filter, d) && Emits(filter, e) && e.qualifiedName == q
  {
    ExportsAreRouted(filter, d);
    var w := Walk(filter, d);
    RoutedMembership(filter, w, q);
    if exists e :: e in w && Emits(filter, e) && e.qualifiedName == q {
      var e :| e in w && Emits(filter, e) && e.qualifiedName == q;
      var i :| 0 <= i < |w| && w[i] == e;
    }
  }

  /** Every `namespace X {` line of the body names a namespace that occurs in the filter. */
  lemma {:induction false} OpenedNamespacesInFilter(filter: string, d: Decl)
    ensures forall l :: l in Lines(filter, d) && l.Open? ==> Contains(filter, l.name)
    decreases d, 1
  {
    match d
    case TranslationUnit(children) =>
      OpenedNamespacesInFilterAll(filter, children);
    case Namespace(name, children) =>
      OpenedNamespacesInFilterAll(filter, children);
    case Entity(_, _, _, _, _) =>
  }

  lemma {:induction false} OpenedNamespacesInFilterAll(filter: string, ds: seq<Decl>)
    ensures forall l :: l in LinesAll(filter, ds) && l.Open? ==> Contains(filter, l.name)
    decreases ds
  {
    if |ds| > 0 {
      OpenedNamespacesInFilter(filter, ds[0]);
      OpenedNamespacesInFilterAll(filter, ds[1..]);
    }
  }

  /**
   * Two first declarations sharing a qualified name (a tag and a function
   * of the same name, two overloads) each get their own line.
   */
  lemma NoDeduplication(filter: string, e1: Decl, e2: Decl)
    requires Emits(filter, e1) && Emits(filter, e2)
    requires e1.qualifiedName == e2.qualifiedName
    ensures Exports(Lines(filter, TranslationUnit([e1, e2]))) == [e1.qualifiedName, e1.qualifiedName]
  {
    var one := [Export(e1.qualifiedName)];
    assert Lines(filter, e1) == one;
    assert Lines(filter, e2) == one;
    var ds := [e1, e2];
    assert ds[1..] == [e2];
    assert [e2][1..] == [];
    assert LinesAll(filter, [e2]) == one + LinesAll(filter, []);
    assert LinesAll(filter, ds) == one + one;
    assert one[1..] == [];
    assert Exports(one) == [e1.qualifiedName] + Exports([]);
    ExportsAppend(one, one);
  }

  // ---------------------------------------------------------------------
  // Declarations that add nothing to the text.

  lemma {:induction false} TraverseChildrenAppend(filter: string, content: string, xs: seq<Decl>, ys: seq<Decl>)
    ensures TraverseChildren(filter, content, xs + ys)
         == TraverseChildren(filter, TraverseChildren(filter, content, xs), ys)
    decreases |xs|
  {
    if |xs| == 0 {
      assert xs + ys == ys;
    } else {
      assert (xs + ys)[0] == xs[0];
      assert (xs + ys)[1..] == xs[1..] + ys;
      TraverseChildrenAppend(filter, TraverseDecl(filter, content, xs[0]), xs[1..], ys);
    }
  }

  /** Walking `xs + [d] + ys` walks `xs`, then `d`, then `ys`. */
  lemma Splice(filter: string, content: string, xs: seq<Decl>, d: Decl, ys: seq<Decl>)
    ensures TraverseChildren(filter, content, xs + [d] + ys)
         == TraverseChildren(filter, TraverseDecl(filter, TraverseChildren(filter, content, xs), d), ys)
  {
    TraverseChildrenAppend(filter, content, xs + [d], ys);
    TraverseChildrenAppend(filter, content, xs, [d]);
    assert [d][1..] == [];
  }

  /**
   * A namespace whose name does not occur in the filter contributes nothing
   * for its entire subtree, at any depth: walking a context's children with
   * it gives the same text as walking them without it.
   */
  lemma SkippedNamespaceAddsNothing(filter: string, content: string,
                                    xs: seq<Decl>, name: string, children: seq<Decl>, ys: seq<Decl>)
    requires !EntersNamespace(filter, name)
    ensures TraverseChildren(filter, content, xs + [Namespace(name, children)] + ys)
         == TraverseChildren(filter, content, xs + ys)
  {
    Splice(filter, content, xs, Namespace(name, children), ys);
    TraverseChildrenAppend(filter, content, xs, ys);
  }

  /** The same, for a namespace placed directly in the translation unit. */
  lemma SkippedNamespaceLeavesFile(filter: string, moduleName: string, originalFile: string, stem: string,
                                   xs: seq<Decl>, name: string, children: seq<Decl>, ys: seq<Decl>)
    requires !EntersNamespace(filter, name)
    ensures Render(filter, moduleName, originalFile, stem, TranslationUnit(xs + [Namespace(name, children)] + ys))
         == Render(filter, moduleName, originalFile, stem, TranslationUnit(xs + ys))
  {
    SkippedNamespaceAddsNothing(filter, Header(originalFile, moduleName, stem), xs, name, children, ys);
  }

  /**
   * Only the translation unit and namespaces are walked into: the members
   * of any other declaration, at any depth, never change the text.
   */
  lemma MembersNeverWalked(filter: string, content: string,
                           xs: seq<Decl>, kind: Kind, q: string, isImplicit: bool, isFirstDecl: bool,
                           members: seq<Decl>, ys: seq<Decl>)
    ensures TraverseChildren(filter, content, xs + [Entity(kind, q, isImplicit, isFirstDecl, members)] + ys)
         == TraverseChildren(filter, content, xs + [Entity(kind, q, isImplicit, isFirstDecl, [])] + ys)
  {
    Splice(filter, content, xs, Entity(kind, q, isImplicit, isFirstDecl, members), ys);
    Splice(filter, content, xs, Entity(kind, q, isImplicit, isFirstDecl, []), ys);
  }

  /** The same, for an entity placed directly in the translation unit. */
  lemma MembersLeaveFile(filter: string, moduleName: string, originalFile: string, stem: string,
                         xs: seq<Decl>, kind: Kind, q: string, isImplicit: bool, isFirstDecl: bool,
                         members: seq<Decl>, ys: seq<Decl>)
    ensures Render(filter, moduleName, originalFile, stem,
                   TranslationUnit(xs + [Entity(kind, q, isImplicit, isFirstDecl, members)] + ys))
         == Render(filter, moduleName, originalFile, stem,
                   TranslationUnit(xs + [Entity(kind, q, isImplicit, isFirstDecl, [])] + ys))
  {
    MembersNeverWalked(filter, Header(originalFile, moduleName, stem), xs, kind, q, isImplicit, isFirstDecl, members, ys);
  }

  /**
   * With an empty filter every named namespace is skipped; only an
   * anonymous one, whose name is empty, is entered.
   */
  lemma EmptyFilterSkipsNamedNamespaces(name: string)
    ensures EntersNamespace([], name) <==> name == []
  {
    NothingInEmpty(name);
  }

  /** With an empty filter every non-implicit entity passes the filter. */
  lemma EmptyFilterAdmitsAll(d: Decl)
    requires d.Entity?
    ensures Admits([], d) <==> !d.isImplicit
  {
    EmptyFound(d.qualifiedName);
  }

  /** An anonymous namespace is entered whatever the filter. */
  lemma AnonymousNamespaceEntered(filter: string)
    ensures EntersNamespace(filter, [])
  {
    EmptyFound(filter);
  }

  /**
   * Whatever the names, the file is a sequence of complete lines: it ends
   * with a line terminator, so splitting it into lines and joining them
   * again gives it back.
   */
  lemma RenderTerminated(filter: string, moduleName: string, originalFile: string, stem: string, tu: Decl)
    ensures |Render(filter, moduleName, originalFile, stem, tu)| > 0
    ensures Render(filter, moduleName, originalFile, stem, tu)[|Render(filter, moduleName, originalFile, stem, tu)| - 1] == '\n'
    ensures JoinLines(SplitLines(Render(filter, moduleName, originalFile, stem, tu))) == Render(filter, moduleName, originalFile, stem, tu)
  {
    var r := Render(filter, moduleName, originalFile, stem, tu);
    var header := HeaderLines(originalFile, moduleName, stem);
    var body := Texts(Lines(filter, tu));
    TraverseDeclIsLines(filter, Header(originalFile, moduleName, stem), tu);
    HeaderIsLines(originalFile, moduleName, stem);
    JoinLinesAppend(header, body);
    JoinLinesTerminated(header + body);
    JoinSplit(r);
  }
}
