/**
 * CodeGen::Impl::contextToCode: a read-only walk over a finished context tree that
 * renders every context with convertible symbols as a declaration and an
 * implementation text, and CodeGen::generateCode, which keeps the last result and
 * replaces each part only when it changes.
 */
module CodeGen {
  import opened Kinds
  import opened Text
  import opened Tree
  import opened Templates
  import B = Builder
  import W = Wrappers

  /** A tree the generator can walk: a well-formed arena whose text lies inside the source. */
  ghost predicate Ready(src: string, nodes: seq<Node>) {
    WellFormed(nodes) && nodes[0].len <= |src|
  }

  // ---------------------------------------------------------------------------
  // Looking at children.

  /** The entries of `cs` whose kind is one of `ks`, in order. */
  function OfKinds(nodes: seq<Node>, cs: seq<nat>, ks: set<Kind>): (r: seq<nat>)
    requires forall k :: 0 <= k < |cs| ==> cs[k] < |nodes|
    ensures forall k :: 0 <= k < |r| ==> r[k] in cs && nodes[r[k]].kind in ks
    ensures forall k :: 0 <= k < |cs| && nodes[cs[k]].kind in ks ==> cs[k] in r
    decreases |cs|
  {
    if cs == [] then []
    else
      var rest := OfKinds(nodes, cs[1..], ks);
      assert forall k :: 1 <= k < |cs| ==> cs[k] == cs[1..][k - 1];
      if nodes[cs[0]].kind in ks then [cs[0]] + rest else rest
  }

  /** The position of the first entry of `cs` of kind `kind`, if any. */
  function FirstOfKind(nodes: seq<Node>, cs: seq<nat>, kind: Kind): (r: W.Option<nat>)
    requires forall k :: 0 <= k < |cs| ==> cs[k] < |nodes|
    ensures r.Some? ==> r.value < |cs| && nodes[cs[r.value]].kind == kind
    ensures r.Some? ==> forall j :: 0 <= j < r.value ==> nodes[cs[j]].kind != kind
    ensures r.None? ==> forall j :: 0 <= j < |cs| ==> nodes[cs[j]].kind != kind
    decreases |cs|
  {
    if cs == [] then W.None
    else if nodes[cs[0]].kind == kind then W.Some(0)
    else match FirstOfKind(nodes, cs[1..], kind)
      case None => W.None
      case Some(p) => W.Some(p + 1)
  }

  /** getMemTypeContext: the first MemberType child of a Member, or none. */
  function MemTypeChild(nodes: seq<Node>, i: nat): (r: W.Option<nat>)
    requires Linked(nodes) && i < |nodes| && nodes[i].kind == Member
    ensures r.Some? ==> r.value in nodes[i].children && i < r.value < |nodes| && nodes[r.value].kind == MemberType
    ensures r.Some? ==> exists p :: (0 <= p < |nodes[i].children| && nodes[i].children[p] == r.value
      && forall j :: 0 <= j < p ==> nodes[nodes[i].children[j]].kind != MemberType)
    ensures r.None? <==> forall j :: 0 <= j < |nodes[i].children| ==> nodes[nodes[i].children[j]].kind != MemberType
  {
    match FirstOfKind(nodes, nodes[i].children, MemberType)
    case None => W.None
    case Some(p) => W.Some(nodes[i].children[p])
  }

  /** The names of the listed nodes, in order. */
  function Names(nodes: seq<Node>, cs: seq<nat>): (r: seq<string>)
    requires forall k :: 0 <= k < |cs| ==> cs[k] < |nodes|
    ensures |r| == |cs| && forall k :: 0 <= k < |cs| ==> r[k] == nodes[cs[k]].name
  {
    seq(|cs|, k requires 0 <= k < |cs| => nodes[cs[k]].name)
  }

  function Decls(codes: seq<Code>): (r: seq<string>)
    ensures |r| == |codes| && forall k :: 0 <= k < |codes| ==> r[k] == codes[k].decl
  {
    seq(|codes|, k requires 0 <= k < |codes| => codes[k].decl)
  }

  function Impls(codes: seq<Code>): (r: seq<string>)
    ensures |r| == |codes| && forall k :: 0 <= k < |codes| ==> r[k] == codes[k].impl
  {
    seq(|codes|, k requires 0 <= k < |codes| => codes[k].impl)
  }

  // ---------------------------------------------------------------------------
  // Qualified names.

  /**
   * The loop that qualifies a name: while the current context's parent is a Struct,
   * prefix the parent's name and `::`, then move up.
   */
  function QualifyFrom(nodes: seq<Node>, cur: nat, acc: string): string
    requires Linked(nodes) && cur < |nodes|
    decreases cur
  {
    match nodes[cur].parent
    case None => acc
    case Some(p) => if nodes[p].kind == Struct then QualifyFrom(nodes, p, nodes[p].name + "::" + acc) else acc
  }

  /** The name a struct or enum is known by outside its enclosing structs. */
  function FullName(nodes: seq<Node>, i: nat): string
    requires Linked(nodes) && i < |nodes|
  {
    QualifyFrom(nodes, i, nodes[i].name)
  }

  /**
   * The enclosing structs of node `i`, outermost first, then `i` itself: the chain of
   * Struct parents up to the first ancestor that is not a Struct.
   */
  function StructPath(nodes: seq<Node>, i: nat): (path: seq<nat>)
    requires Linked(nodes) && i < |nodes|
    ensures |path| > 0 && path[|path| - 1] == i
    ensures forall k :: 0 <= k < |path| ==> path[k] < |nodes|
    ensures forall k :: 0 <= k < |path| - 1 ==> nodes[path[k]].kind == Struct && nodes[path[k + 1]].parent == W.Some(path[k])
    ensures nodes[path[0]].parent.None? || nodes[nodes[path[0]].parent.value].kind != Struct
    decreases i
  {
    match nodes[i].parent
    case None => [i]
    case Some(p) => if nodes[p].kind == Struct then StructPath(nodes, p) + [i] else [i]
  }

  /** Joining a list whose last piece is `a sep b` is joining the list with a and b as two pieces. */
  lemma JoinSplitLast(ys: seq<string>, a: string, b: string, sep: string)
    ensures Join(ys + [a + sep + b], sep) == Join(ys + [a, b], sep)
  {
    if ys == [] {
      assert [a, b] == [a] + [b];
      JoinSnoc([a], b, sep);
    } else {
      JoinSnoc(ys, a + sep + b, sep);
      JoinSnoc(ys, a, sep);
      assert ys + [a, b] == (ys + [a]) + [b];
      JoinSnoc(ys + [a], b, sep);
    }
  }

  /** Qualifying `acc` from `cur` prefixes the names of cur's enclosing structs, outermost first, joined with `::`. */
  lemma {:induction false} QualifyFromPath(nodes: seq<Node>, cur: nat, acc: string)
    requires Linked(nodes) && cur < |nodes|
    ensures var path := StructPath(nodes, cur);
      QualifyFrom(nodes, cur, acc) == Join(Names(nodes, path[..|path| - 1]) + [acc], "::")
    decreases cur
  {
    var path := StructPath(nodes, cur);
    match nodes[cur].parent
    case None =>
      assert path[..|path| - 1] == [];
    case Some(p) =>
      if nodes[p].kind == Struct {
        QualifyFromPath(nodes, p, nodes[p].name + "::" + acc);
        QualifyUnderStruct(nodes, cur, p, acc);
      } else {
        assert path[..|path| - 1] == [];
      }
  }

  /** One step of the qualifying loop under a Struct parent adds the parent's name in front of the path's names. */
  lemma QualifyUnderStruct(nodes: seq<Node>, cur: nat, p: nat, acc: string)
    requires Linked(nodes) && cur < |nodes| && nodes[cur].parent == W.Some(p) && nodes[p].kind == Struct
    requires var up := StructPath(nodes, p);
      QualifyFrom(nodes, p, nodes[p].name + "::" + acc) == Join(Names(nodes, up[..|up| - 1]) + [nodes[p].name + "::" + acc], "::")
    ensures var path := StructPath(nodes, cur);
      QualifyFrom(nodes, cur, acc) == Join(Names(nodes, path[..|path| - 1]) + [acc], "::")
  {
    var path := StructPath(nodes, cur);
    var up := StructPath(nodes, p);
    assert path[..|path| - 1] == up by {
      assert path == up + [cur];
    }
    var ys := Names(nodes, up[..|up| - 1]);
    assert up == up[..|up| - 1] + [p];
    NamesSnoc(nodes, up[..|up| - 1], p);
    var ns := Names(nodes, up);
    assert ns == ys + [nodes[p].name];
    AppendTwo(ys, nodes[p].name, acc);
    calc {
      QualifyFrom(nodes, cur, acc);
      QualifyFrom(nodes, p, nodes[p].name + "::" + acc);
      Join(ys + [nodes[p].name + "::" + acc], "::");
      { JoinSplitLast(ys, nodes[p].name, acc, "::"); }
      Join(ys + [nodes[p].name, acc], "::");
      Join(ns + [acc], "::");
    }
  }

  /** Appending two entries is appending one, then the other. */
  lemma AppendTwo<T>(ys: seq<T>, a: T, b: T)
    ensures ys + [a, b] == (ys + [a]) + [b]
  {
  }

  /**
   * The qualified name is the names along the struct path joined with `::`: the
   * enclosing structs outermost first, stopping at the first ancestor that is not a
   * Struct (so namespaces never appear), then the node's own name.
   */
  lemma FullNameIsPath(nodes: seq<Node>, i: nat)
    requires Linked(nodes) && i < |nodes|
    ensures FullName(nodes, i) == Join(Names(nodes, StructPath(nodes, i)), "::")
  {
    var path := StructPath(nodes, i);
    QualifyFromPath(nodes, i, nodes[i].name);
    assert path == path[..|path| - 1] + [i];
    NamesSnoc(nodes, path[..|path| - 1], i);
  }

  lemma NamesSnoc(nodes: seq<Node>, cs: seq<nat>, c: nat)
    requires forall k :: 0 <= k < |cs| ==> cs[k] < |nodes|
    requires c < |nodes|
    ensures Names(nodes, cs + [c]) == Names(nodes, cs) + [nodes[c].name]
  {
  }

  /** `friend ` when the parent is a Struct: the related functions are then declared inside it. */
  function Friend(nodes: seq<Node>, i: nat): string
    requires Linked(nodes) && i < |nodes|
  {
    match nodes[i].parent
    case Some(p) => if nodes[p].kind == Struct then "friend " else ""
    case None => ""
  }

  /** Qualifying never shortens the accumulated name. */
  lemma {:induction false} QualifyGrows(nodes: seq<Node>, cur: nat, acc: string)
    requires Linked(nodes) && cur < |nodes|
    ensures |QualifyFrom(nodes, cur, acc)| >= |acc|
    decreases cur
  {
    match nodes[cur].parent
    case None =>
    case Some(p) =>
      if nodes[p].kind == Struct {
        QualifyGrows(nodes, p, nodes[p].name + "::" + acc);
      }
  }

  /** `friend ` is emitted exactly for the contexts whose name gets qualified. */
  lemma FriendIffQualified(nodes: seq<Node>, i: nat)
    requires Linked(nodes) && i < |nodes|
    ensures Friend(nodes, i) == "friend " <==> |StructPath(nodes, i)| > 1
    ensures Friend(nodes, i) == "" <==> FullName(nodes, i) == nodes[i].name
  {
    match nodes[i].parent
    case None =>
    case Some(p) =>
      if nodes[p].kind == Struct {
        QualifyGrows(nodes, p, nodes[p].name + "::" + nodes[i].name);
      }
  }

  // ---------------------------------------------------------------------------
  // The member specialisations of a struct and how they are qualified.

  /** genMemberName and genGetMember for class `cls`, one after the other. */
  function MemberImpl(cls: string, names: seq<string>): string {
    GenMemberName(cls, names) + "\n" + GenGetMember(cls, names)
  }

  /** The specialisations of a struct, generated for its qualified name. */
  function Specializations(nodes: seq<Node>, i: nat, names: seq<string>): string
    requires Linked(nodes) && i < |nodes|
  {
    MemberImpl(FullName(nodes, i), names)
  }

  /**
   * The qualifying loop as written: while the current context's parent is a Struct,
   * every `cur::` in the text becomes `parent::cur::`, then move up.
   */
  function QualifyAsWritten(nodes: seq<Node>, cur: nat, text: string): string
    requires Linked(nodes) && cur < |nodes|
    decreases cur
  {
    match nodes[cur].parent
    case None => text
    case Some(p) =>
      if nodes[p].kind == Struct then
        var name := nodes[cur].name;
        QualifyAsWritten(nodes, p, ReplaceAll(text, name + "::", nodes[p].name + "::" + name + "::"))
      else text
  }

  /** The specialisations of a struct as written: generated for the bare name, then qualified by replacement. */
  function SpecializationsAsWritten(nodes: seq<Node>, i: nat, names: seq<string>): string
    requires Linked(nodes) && i < |nodes|
  {
    QualifyAsWritten(nodes, i, MemberImpl(nodes[i].name, names))
  }

  /**
   * The specialisations name the struct by its full path and change nothing else:
   * they are the specialisations of the path joined with `::`, and for a struct not
   * nested in a struct they are exactly the text the replacement loop leaves.
   */
  lemma SpecializationsQualified(nodes: seq<Node>, i: nat, names: seq<string>)
    requires Linked(nodes) && i < |nodes|
    ensures Specializations(nodes, i, names) == MemberImpl(Join(Names(nodes, StructPath(nodes, i)), "::"), names)
    ensures |StructPath(nodes, i)| == 1 ==> Specializations(nodes, i, names) == SpecializationsAsWritten(nodes, i, names)
  {
    FullNameIsPath(nodes, i);
  }

  /**
   * On a parsed tree the replacement loop never runs: no Struct has a Struct parent,
   * so the specialisations as written are the corrected ones, and a Struct lists no
   * Member child (Members open only inside GBP_DECLARE_TYPE).
   */
  lemma ParsedStructsUnnested(src: string, j: nat, names: seq<string>)
    requires var t := B.Run(src, B.Initial(), B.FeedCount(|src|)).nodes; j < |t| && t[j].kind == Struct
    ensures var t := B.Run(src, B.Initial(), B.FeedCount(|src|)).nodes;
      && |StructPath(t, j)| == 1
      && SpecializationsAsWritten(t, j, names) == Specializations(t, j, names)
      && forall m :: 0 <= m < |t[j].children| ==> t[t[j].children[m]].kind != Member
  {
    var t := B.Run(src, B.Initial(), B.FeedCount(|src|)).nodes;
    B.ParseScoped(src);
    ScopedStructUnnested(t, j, names);
  }

  /** In a tree where Structs sit at scope level and Members in a GBP_DECLARE_TYPE, a Struct is unnested and lists no Member. */
  lemma ScopedStructUnnested(t: seq<Node>, j: nat, names: seq<string>)
    requires Linked(t) && B.Scoped(t) && j < |t| && t[j].kind == Struct
    ensures |StructPath(t, j)| == 1
    ensures SpecializationsAsWritten(t, j, names) == Specializations(t, j, names)
    ensures forall m :: 0 <= m < |t[j].children| ==> t[t[j].children[m]].kind != Member
  {
    assert j > 0;
    var p := t[j].parent.value;
    assert t[p].kind == Global || t[p].kind == Namespace;
    assert StructPath(t, j) == [j];
    SpecializationsQualified(t, j, names);
    forall m | 0 <= m < |t[j].children|
      ensures t[t[j].children[m]].kind != Member
    {
      var c := t[j].children[m];
      assert t[c].parent == W.Some(j);
    }
  }

  /** Text without the pattern's first character passes through replacement unchanged. */
  lemma {:induction false} ReplaceSkip(u: string, v: string, pat: string, rep: string)
    requires |pat| > 0 && pat[0] !in u
    ensures ReplaceAll(u + v, pat, rep) == u + ReplaceAll(v, pat, rep)
    decreases |u|
  {
    if u != [] {
      var s := u + v;
      assert s[0] == u[0];
      if |s| >= |pat| {
        assert s[..|pat|][0] == u[0];
        assert s[1..] == u[1..] + v;
        ReplaceSkip(u[1..], v, pat, rep);
      } else {
        assert |v| < |pat|;
      }
    } else {
      assert u + v == v;
    }
  }

  /** An occurrence of the pattern at the front is replaced. */
  lemma ReplaceHit(v: string, pat: string, rep: string)
    requires |pat| > 0
    ensures ReplaceAll(pat + v, pat, rep) == rep + ReplaceAll(v, pat, rep)
  {
    assert (pat + v)[..|pat|] == pat;
    assert (pat + v)[|pat|..] == v;
  }

  /** The tree of the counterexample: struct d nested in struct S at global scope. */
  function NestedD(): seq<Node> {
    [ Node(Global, "global", 0, 0, W.None, [1]),
      Node(Struct, "S", 0, 0, W.Some(0), [2]),
      Node(Struct, "d", 0, 0, W.Some(1), []) ]
  }

  lemma NestedDLinked()
    ensures Linked(NestedD())
  {
  }

  /** In the counterexample tree, struct `d` is known as `S::d`. */
  lemma FullNameNestedD()
    ensures Linked(NestedD())
    ensures FullName(NestedD(), 2) == "S::d"
  {
    NestedDLinked();
    assert FullName(NestedD(), 2) == QualifyFrom(NestedD(), 1, "S" + "::" + "d");
  }

  /** The specialisations of a struct with the single member `x`, line by line. */
  lemma MemberImplSingle(c: string)
    ensures MemberImpl(c, ["x"])
      == MemberNameLine(c, 0, "x") + "\n" + (GetMemberLine(c, 0, "x") + "\n" + GetMemberConstLine(c, 0, "x"))
  {
    GenMemberNameSingle(c);
    GenGetMemberSingle(c);
  }

  lemma GenMemberNameSingle(c: string)
    ensures GenMemberName(c, ["x"]) == MemberNameLine(c, 0, "x")
  {
  }

  lemma GenGetMemberSingle(c: string)
    ensures GenGetMember(c, ["x"]) == GetMemberLine(c, 0, "x") + "\n" + GetMemberConstLine(c, 0, "x")
  {
    var pairs := GetMemberPairs(c, ["x"]);
    assert |pairs| == 2;
    assert Join(pairs[..1], "\n") == pairs[0];
    assert Join(pairs, "\n") == pairs[0] + "\n" + pairs[1];
  }

  /** Where the specialisations of struct `d` hold `d::`: the struct's own, then the one inside `std::`. */
  lemma SplitOwnName()
    ensures "d" + "::member_name<" == "d::" + "member_name<"
  {
  }

  lemma SplitStd()
    ensures "template <>       typename std::tuple_element<" == "template <>       typename st" + ("d::" + "tuple_element<")
  {
  }

  /** The pieces before and between the two occurrences of `d::` hold no `d`. */
  lemma NoDBefore()
    ensures 'd' !in "template <> const char* " && 'd' !in "member_name<" && 'd' !in "\n" && 'd' !in "0"
  {
  }

  lemma NoDBetween()
    ensures 'd' !in ">() { return \"" && 'd' !in "x" && 'd' !in "\"; }" && 'd' !in "template <>       typename st"
  {
  }

  lemma NoDInBetween()
    ensures 'd' !in "template <> const char* " && 'd' !in Between()
  {
    NoDBefore();
    NoDBetween();
  }

  /** Regrouping the pieces of the specialisations around the two occurrences of `d3`. */
  lemma Regroup(a: string, d: string, b: string, z: string, c: string, nl: string, g1: string, w: string, k: string,
                d3: string, b2: string, g1a: string, t: string)
    requires d + b == d3 + b2
    requires g1 == g1a + (d3 + t)
    ensures ((((a + d) + b) + z) + c) + nl + ((g1 + w) + nl + k)
      == a + (d3 + (((((b2 + z) + c) + nl) + g1a) + (d3 + (((t + w) + nl) + k))))
  {
    assert (a + d) + b == a + (d3 + b2);
  }

  /** The text between the two occurrences of `d::` in the specialisations of struct `d`. */
  function Between(): string {
    "member_name<" + NatToString(0) + (">() { return \"" + "x" + "\"; }") + "\n" + "template <>       typename st"
  }

  /** The specialisations of struct `d` read `template <> const char* `, `d::`, Between, `d::`, and the rest. */
  lemma TextOfD() returns (rest: string)
    ensures MemberImpl("d", ["x"]) == "template <> const char* " + ("d::" + (Between() + ("d::" + rest)))
  {
    MemberImplSingle("d");
    SplitOwnName();
    SplitStd();
    var g := GetMemberLine("d", 0, "x");
    var w := g[|"template <>       typename std::tuple_element<"|..];
    assert g == "template <>       typename std::tuple_element<" + w;
    rest := "tuple_element<" + w + "\n" + GetMemberConstLine("d", 0, "x");
    Regroup("template <> const char* ", "d", "::member_name<", NatToString(0), ">() { return \"" + "x" + "\"; }", "\n",
            "template <>       typename std::tuple_element<", w, GetMemberConstLine("d", 0, "x"),
            "d::", "member_name<", "template <>       typename st", "tuple_element<");
  }

  /** Replacing `pat` in a text where it occurs exactly at two known places. */
  lemma ReplaceTwice(a: string, between: string, r: string, pat: string, rep: string)
    requires |pat| > 0 && pat[0] !in a && pat[0] !in between
    ensures ReplaceAll(a + (pat + (between + (pat + r))), pat, rep) == a + (rep + (between + (rep + ReplaceAll(r, pat, rep))))
  {
    ReplaceSkip(a, pat + (between + (pat + r)), pat, rep);
    ReplaceHit(between + (pat + r), pat, rep);
    ReplaceSkip(between, pat + r, pat, rep);
    ReplaceHit(r, pat, rep);
  }

  /** In the counterexample tree, the replacement loop makes one pass, for `d` inside `S`. */
  lemma QualifyNestedD(t: string)
    ensures Linked(NestedD())
    ensures QualifyAsWritten(NestedD(), 2, t) == ReplaceAll(t, "d::", "S::d::")
  {
    NestedDLinked();
    assert QualifyAsWritten(NestedD(), 2, t) == QualifyAsWritten(NestedD(), 1, ReplaceAll(t, "d::", "S::d::"));
  }

  /** The text the replacement loop leaves for struct `d` nested in struct `S`: `S::d::` at both places. */
  lemma AsWrittenOfD() returns (rest: string)
    ensures Linked(NestedD())
    ensures SpecializationsAsWritten(NestedD(), 2, ["x"]) == "template <> const char* " + ("S::d::" + (Between() + ("S::d::" + rest)))
  {
    var r := TextOfD();
    QualifyNestedD(MemberImpl("d", ["x"]));
    NoDInBetween();
    ReplaceTwice("template <> const char* ", Between(), r, "d::", "S::d::");
    rest := ReplaceAll(r, "d::", "S::d::");
  }

  /** The qualified specialisations for struct `d` nested in struct `S` keep the `d` of `std::`. */
  lemma CorrectedOfD()
    ensures Linked(NestedD())
    ensures |Specializations(NestedD(), 2, ["x"])| > |"template <> const char* "| + 6 + |Between()|
    ensures Specializations(NestedD(), 2, ["x"])[|"template <> const char* "| + 6 + |Between()|] == 'd'
  {
    FullNameNestedD();
    CorrectedLine();
  }

  lemma CorrectedLine()
    ensures |MemberImpl("S::d", ["x"])| > |"template <> const char* "| + 6 + |Between()|
    ensures MemberImpl("S::d", ["x"])[|"template <> const char* "| + 6 + |Between()|] == 'd'
  {
    MemberImplSingle("S::d");
    var n := MemberNameLine("S::d", 0, "x");
    var g := GetMemberLine("S::d", 0, "x");
    assert |n| + 1 + 29 == |"template <> const char* "| + 6 + |Between()|;
    assert g[29] == 'd';
  }

  /**
   * The replacement loop also rewrites `d::` inside `std::`: for a struct named `d`
   * with one member `x`, nested in struct `S`, the text it leaves reads
   * `stS::d::tuple_element` where the qualified specialisation reads `std::tuple_element`.
   */
  lemma QualifyReplaceCorrupts()
    ensures Linked(NestedD())
    ensures SpecializationsAsWritten(NestedD(), 2, ["x"]) != Specializations(NestedD(), 2, ["x"])
  {
    var rest := AsWrittenOfD();
    CorrectedOfD();
    var at := |"template <> const char* "| + 6 + |Between()|;
    var tail := Between() + ("S::d::" + rest);
    assert tail[|Between()|] == 'S';
    assert ("S::d::" + tail)[6 + |Between()|] == 'S';
    assert SpecializationsAsWritten(NestedD(), 2, ["x"])[at] == 'S';
  }

  // ---------------------------------------------------------------------------
  // The walk.

  /**
   * The walk never reaches a crash in this subtree: a Member it renders has only
   * MemberType and MemberValue children, and a Member a Struct lists has a MemberType
   * child (getMemTypeContext does not return null). The walk visits every child of a
   * Global or a Namespace, the Member, Struct, Enum and EnumClass children of a
   * Struct, and only subtrees with convertible symbols.
   */
  predicate CodeDefined(nodes: seq<Node>, i: nat)
    requires Linked(nodes) && i < |nodes|
    decreases |nodes| - i
  {
    HasConvertible(nodes, i) ==>
      var cs := nodes[i].children;
      match nodes[i].kind
      case Member =>
        forall k :: 0 <= k < |cs| ==> nodes[cs[k]].kind == MemberType || nodes[cs[k]].kind == MemberValue
      case Struct =>
        forall k :: 0 <= k < |cs| ==>
          && (nodes[cs[k]].kind == Member ==> MemTypeChild(nodes, cs[k]).Some?)
          && (nodes[cs[k]].kind in {Member, Struct, Enum, EnumClass} ==> CodeDefined(nodes, cs[k]))
      case Global =>
        forall k :: 0 <= k < |cs| ==> CodeDefined(nodes, cs[k])
      case Namespace =>
        forall k :: 0 <= k < |cs| ==> CodeDefined(nodes, cs[k])
      case _ => true
  }

  /** The list of children the walk may enter from node `p`. */
  ghost predicate Walkable(nodes: seq<Node>, p: nat, cs: seq<nat>)
    requires Linked(nodes)
  {
    forall k :: 0 <= k < |cs| ==> p < cs[k] < |nodes| && CodeDefined(nodes, cs[k])
  }

  /**
   * contextToCode: nothing for a subtree without convertible symbols; otherwise the
   * kind's template. Only containers (Global, Namespace, Struct, Enum, EnumClass)
   * produce implementation text.
   */
  function ContextToCode(src: string, nodes: seq<Node>, i: nat): (r: Code)
    requires Ready(src, nodes) && i < |nodes| && CodeDefined(nodes, i)
    ensures !HasConvertible(nodes, i) ==> r == NoCode
    ensures nodes[i].kind !in {Global, Namespace, Struct, Enum, EnumClass} ==> r.impl == ""
    ensures nodes[i].kind == None || nodes[i].kind == DeclStruct ==> r == NoCode
    decreases |nodes| - i, 2
  {
    if !HasConvertible(nodes, i) then NoCode
    else
      match nodes[i].kind
      case Preproc => FromText("#" + Content(src, nodes, i))
      case Typedef => FromText("typedef " + Content(src, nodes, i))
      case Global => GlobalCode(src, nodes, i)
      case Namespace => NamespaceCode(src, nodes, i)
      case Struct => StructCode(src, nodes, i)
      case Enum => EnumCode(src, nodes, i)
      case EnumClass => EnumClassCode(src, nodes, i)
      case Member => MemberCode(src, nodes, i)
      case EnumItem => FromText(ReplaceChar(Content(src, nodes, i), ',', '='))
      case UnderlyingType => FromText(Content(src, nodes, i))
      case MemberType => FromText(Content(src, nodes, i))
      case MemberValue => FromText(Content(src, nodes, i))
      case ExtraCode => FromText(Content(src, nodes, i))
      case Comment => FromText("/*" + Content(src, nodes, i) + "*/")
      case LineComment => FromText("//" + Content(src, nodes, i) + "\n")
      case None => NoCode
      case DeclStruct => NoCode
  }

  /** The code of each listed child of `p`, in order. */
  function ChildCodes(src: string, nodes: seq<Node>, p: nat, cs: seq<nat>): (r: seq<Code>)
    requires Ready(src, nodes) && p < |nodes| && Walkable(nodes, p, cs)
    ensures |r| == |cs|
    ensures forall k :: 0 <= k < |cs| ==> r[k] == ContextToCode(src, nodes, cs[k])
    decreases |nodes| - p, 0, |cs|
  {
    seq(|cs|, k requires 0 <= k < |cs| => ContextToCode(src, nodes, cs[k]))
  }

  /** The children of a Global or a Namespace may all be entered. */
  lemma ScopeWalkable(nodes: seq<Node>, i: nat)
    requires Linked(nodes) && i < |nodes| && (nodes[i].kind == Global || nodes[i].kind == Namespace)
    requires HasConvertible(nodes, i) && CodeDefined(nodes, i)
    ensures Walkable(nodes, i, nodes[i].children)
  {
  }

  /** Global: the non-empty declarations and the non-empty implementations of the children, each joined with newlines. */
  function GlobalCode(src: string, nodes: seq<Node>, i: nat): Code
    requires Ready(src, nodes) && i < |nodes| && nodes[i].kind == Global
    requires HasConvertible(nodes, i) && CodeDefined(nodes, i)
    decreases |nodes| - i, 1
  {
    ScopeWalkable(nodes, i);
    var codes := ChildCodes(src, nodes, i, nodes[i].children);
    Code(Join(NonEmpty(Decls(codes)), "\n"), Join(NonEmpty(Impls(codes)), "\n"))
  }

  /** Namespace: every child's declaration, and every child's implementation, joined and wrapped in the namespace. */
  function NamespaceCode(src: string, nodes: seq<Node>, i: nat): Code
    requires Ready(src, nodes) && i < |nodes| && nodes[i].kind == Namespace
    requires HasConvertible(nodes, i) && CodeDefined(nodes, i)
    decreases |nodes| - i, 1
  {
    ScopeWalkable(nodes, i);
    var codes := ChildCodes(src, nodes, i, nodes[i].children);
    Code(NamespaceTemplate(nodes[i].name, Join(Decls(codes), "\n")),
         NamespaceTemplate(nodes[i].name, Join(Impls(codes), "\n")))
  }

  /** The children of a Struct of the kinds in `ks` may be entered when ks holds only Member, Struct, Enum and EnumClass. */
  lemma StructWalkable(nodes: seq<Node>, i: nat, ks: set<Kind>)
    requires Linked(nodes) && i < |nodes| && nodes[i].kind == Struct && CodeDefined(nodes, i)
    requires ks <= {Member, Struct, Enum, EnumClass}
    ensures Walkable(nodes, i, OfKinds(nodes, nodes[i].children, ks))
  {
    var r := OfKinds(nodes, nodes[i].children, ks);
    forall k | 0 <= k < |r|
      ensures i < r[k] < |nodes| && CodeDefined(nodes, r[k])
    {
      StructChild(nodes, i, r[k]);
    }
  }

  /** A child of a Struct that the walk enters may be rendered, and a Member child has its type. */
  lemma StructChild(nodes: seq<Node>, i: nat, c: nat)
    requires Linked(nodes) && i < |nodes| && nodes[i].kind == Struct && CodeDefined(nodes, i)
    requires c in nodes[i].children && nodes[c].kind in {Member, Struct, Enum, EnumClass}
    ensures i < c < |nodes| && CodeDefined(nodes, c)
    ensures nodes[c].kind == Member ==> MemTypeChild(nodes, c).Some?
  {
    var cs := nodes[i].children;
    assert HasConvertible(nodes, i);
    var m :| 0 <= m < |cs| && cs[m] == c;
  }

  /** Every listed Member of a Struct whose walk is defined has a MemberType child, which the walk may enter. */
  lemma MembersTyped(nodes: seq<Node>, i: nat, members: seq<nat>)
    requires Linked(nodes) && i < |nodes| && nodes[i].kind == Struct && CodeDefined(nodes, i)
    requires forall k :: 0 <= k < |members| ==> members[k] in nodes[i].children && nodes[members[k]].kind == Member
    ensures forall k :: 0 <= k < |members| ==>
      && members[k] < |nodes| && MemTypeChild(nodes, members[k]).Some?
      && i < MemTypeChild(nodes, members[k]).value < |nodes|
      && CodeDefined(nodes, MemTypeChild(nodes, members[k]).value)
  {
    forall k | 0 <= k < |members|
      ensures members[k] < |nodes| && MemTypeChild(nodes, members[k]).Some?
      ensures i < MemTypeChild(nodes, members[k]).value < |nodes|
      ensures CodeDefined(nodes, MemTypeChild(nodes, members[k]).value)
    {
      StructChild(nodes, i, members[k]);
      var t := MemTypeChild(nodes, members[k]).value;
      assert CodeDefined(nodes, t);
    }
  }

  /** The MemberType child of each listed Member of a Struct. */
  function MemTypes(nodes: seq<Node>, i: nat, members: seq<nat>): (r: seq<nat>)
    requires Linked(nodes) && i < |nodes| && nodes[i].kind == Struct && CodeDefined(nodes, i)
    requires forall k :: 0 <= k < |members| ==> members[k] in nodes[i].children && nodes[members[k]].kind == Member
    ensures |r| == |members|
    ensures Walkable(nodes, i, r)
    ensures forall k :: 0 <= k < |members| ==> MemTypeChild(nodes, members[k]) == W.Some(r[k])
  {
    MembersTyped(nodes, i, members);
    seq(|members|, k requires 0 <= k < |members| => MemTypeChild(nodes, members[k]).value)
  }

  /**
   * Struct: the nested types' declarations and the members' declarations inside the
   * struct template, with the operators, the extra members, `friend ` when nested
   * and the stream operator; the specialisations (qualified by text replacement,
   * as written), the nested types' implementations and the stream operator's body
   * as the implementation.
   */
  function StructCode(src: string, nodes: seq<Node>, i: nat): Code
    requires Ready(src, nodes) && i < |nodes| && nodes[i].kind == Struct && CodeDefined(nodes, i)
    decreases |nodes| - i, 1
  {
    var cs := nodes[i].children;
    var name := nodes[i].name;
    StructWalkable(nodes, i, {Member});
    StructWalkable(nodes, i, {Struct, Enum, EnumClass});
    var members := OfKinds(nodes, cs, {Member});
    var nested := ChildCodes(src, nodes, i, OfKinds(nodes, cs, {Struct, Enum, EnumClass}));
    var memberDecls := Decls(ChildCodes(src, nodes, i, members));
    var memberTypes := Decls(ChildCodes(src, nodes, i, MemTypes(nodes, i, members)));
    var memberNames := Names(nodes, members);
    var ostream := GenOstreamOp(FullName(nodes, i), memberNames);
    Code(StructTemplate(name,
                        Join(NonEmpty(Decls(nested)), "\n") + "\n" + Join(memberDecls, "\n"),
                        GenSerialize(memberNames),
                        StructExtra(name, memberTypes, memberNames),
                        Friend(nodes, i),
                        ostream.decl),
         GuardsAdditional(SpecializationsAsWritten(nodes, i, memberNames)) + "\n" + Join(NonEmpty(Impls(nested)), "\n") + ostream.impl)
  }

  /** The members of a struct only compiled with GBP_DECLARE_TYPE_GEN_ADDITIONALS. */
  function StructExtra(cls: string, memberTypes: seq<string>, names: seq<string>): string {
    "using types_as_tuple = std::tuple<" + Join(memberTypes, ", ") + ">;\n"
      + GenEqOperator(cls, names)
      + "inline bool operator!=(const " + cls + "& other) const { return !operator==(other); }\n"
      + "template <int N> typename std::tuple_element<N, types_as_tuple>::type& get_member();\n"
      + "template <int N> const typename std::tuple_element<N, types_as_tuple>::type& get_member() const;\n"
      + "template <int N> static const char* member_name();\n"
      + GenApplyMethod(names)
      + GenCompareMethod(cls, names)
  }

  /** The EnumItem children of an enum may be entered. */
  lemma ItemsWalkable(nodes: seq<Node>, i: nat)
    requires Linked(nodes) && i < |nodes|
    ensures Walkable(nodes, i, OfKinds(nodes, nodes[i].children, {EnumItem}))
  {
    var cs := nodes[i].children;
    var r := OfKinds(nodes, cs, {EnumItem});
    forall k | 0 <= k < |r|
      ensures i < r[k] < |nodes| && CodeDefined(nodes, r[k])
    {
      var m :| 0 <= m < |cs| && cs[m] == r[k];
    }
  }

  /** Enum: the items inside the enum template, with enum_cast and the stream operator for the qualified name. */
  function EnumCode(src: string, nodes: seq<Node>, i: nat): Code
    requires Ready(src, nodes) && i < |nodes| && nodes[i].kind == Enum
    decreases |nodes| - i, 1
  {
    ItemsWalkable(nodes, i);
    var items := Decls(ChildCodes(src, nodes, i, OfKinds(nodes, nodes[i].children, {EnumItem})));
    var ostream := GenOstreamOpEnum(FullName(nodes, i), items);
    Code(SimpleEnumTemplate(nodes[i].name, Join(items, ",\n"), Friend(nodes, i), ostream.decl), ostream.impl)
  }

  /** The underlying-type loop: starting from `acc`, each UnderlyingType child in turn replaces it with its text. */
  function UnderlyingFrom(src: string, nodes: seq<Node>, cs: seq<nat>, acc: string): string
    requires Ready(src, nodes) && forall k :: 0 <= k < |cs| ==> cs[k] < |nodes|
    decreases |cs|
  {
    if cs == [] then acc
    else UnderlyingFrom(src, nodes, cs[1..], if nodes[cs[0]].kind == UnderlyingType then Content(src, nodes, cs[0]) else acc)
  }

  /** EnumClass: the items inside the enum class template over the underlying type, gbp_u8 unless a child gives one. */
  function EnumClassCode(src: string, nodes: seq<Node>, i: nat): Code
    requires Ready(src, nodes) && i < |nodes| && nodes[i].kind == EnumClass
    decreases |nodes| - i, 1
  {
    ItemsWalkable(nodes, i);
    var cs := nodes[i].children;
    var items := Decls(ChildCodes(src, nodes, i, OfKinds(nodes, cs, {EnumItem})));
    var ostream := GenOstreamOpEnum(FullName(nodes, i), items);
    Code(EnumClassTemplate(nodes[i].name, UnderlyingFrom(src, nodes, cs, "gbp_u8"), Join(items, ",\n"), Friend(nodes, i), ostream.decl),
         ostream.impl)
  }

  /**
   * The member loop: starting from the type `memType` and the tail `memVal`, a
   * MemberType child replaces the type with its code and a MemberValue child
   * replaces the tail with ` = <its code>;`.
   */
  function MemberParts(nodes: seq<Node>, cs: seq<nat>, decls: seq<string>, memType: string, memVal: string): (string, string)
    requires forall k :: 0 <= k < |cs| ==> cs[k] < |nodes|
    requires |decls| == |cs|
    requires forall k :: 0 <= k < |cs| ==> nodes[cs[k]].kind == MemberType || nodes[cs[k]].kind == MemberValue
    decreases |cs|
  {
    if cs == [] then (memType, memVal)
    else if nodes[cs[0]].kind == MemberType then MemberParts(nodes, cs[1..], decls[1..], decls[0], memVal)
    else MemberParts(nodes, cs[1..], decls[1..], memType, " = " + decls[0] + ";")
  }

  /** The children of a Member may all be entered. */
  lemma MemberWalkable(nodes: seq<Node>, i: nat)
    requires Linked(nodes) && i < |nodes| && nodes[i].kind == Member && CodeDefined(nodes, i)
    ensures Walkable(nodes, i, nodes[i].children)
    ensures forall k :: 0 <= k < |nodes[i].children| ==>
      nodes[nodes[i].children[k]].kind == MemberType || nodes[nodes[i].children[k]].kind == MemberValue
  {
    assert HasConvertible(nodes, i);
  }

  /** Member: `type name` followed by `;` or ` = value;`, whitespace simplified. */
  function MemberCode(src: string, nodes: seq<Node>, i: nat): Code
    requires Ready(src, nodes) && i < |nodes| && nodes[i].kind == Member && CodeDefined(nodes, i)
    decreases |nodes| - i, 1
  {
    MemberWalkable(nodes, i);
    var decls := Decls(ChildCodes(src, nodes, i, nodes[i].children));
    var (memType, memVal) := MemberParts(nodes, nodes[i].children, decls, "", ";");
    FromText(Simplified(DeclMemberTemplate(nodes[i].name, memType, memVal)))
  }

  // ---------------------------------------------------------------------------
  // What the walk promises.

  /** Filtering the children one more child at a time: the filter is in order and keeps exactly the listed kinds. */
  lemma {:induction false} OfKindsSnoc(nodes: seq<Node>, cs: seq<nat>, c: nat, ks: set<Kind>)
    requires forall k :: 0 <= k < |cs| ==> cs[k] < |nodes|
    requires c < |nodes|
    ensures OfKinds(nodes, cs + [c], ks) == OfKinds(nodes, cs, ks) + (if nodes[c].kind in ks then [c] else [])
    decreases |cs|
  {
    if cs == [] {
      assert [c][1..] == [];
    } else {
      assert (cs + [c])[1..] == cs[1..] + [c];
      OfKindsSnoc(nodes, cs[1..], c, ks);
    }
  }

  /** The global scope's code: its children's non-empty declarations, one per line, and likewise their non-empty implementations. */
  lemma GlobalDecl(src: string, nodes: seq<Node>, i: nat)
    requires Ready(src, nodes) && i < |nodes| && nodes[i].kind == Global && CodeDefined(nodes, i)
    requires HasConvertible(nodes, i)
    ensures Walkable(nodes, i, nodes[i].children)
    ensures ContextToCode(src, nodes, i).decl == Join(NonEmpty(Decls(ChildCodes(src, nodes, i, nodes[i].children))), "\n")
    ensures ContextToCode(src, nodes, i).impl == Join(NonEmpty(Impls(ChildCodes(src, nodes, i, nodes[i].children))), "\n")
  {
    ScopeWalkable(nodes, i);
  }

  /** The global scope's declaration is empty exactly when every child's declaration is empty. */
  lemma GlobalDeclEmptyIff(src: string, nodes: seq<Node>, i: nat)
    requires Ready(src, nodes) && i < |nodes| && nodes[i].kind == Global && CodeDefined(nodes, i)
    requires HasConvertible(nodes, i)
    ensures Walkable(nodes, i, nodes[i].children)
    ensures ContextToCode(src, nodes, i).decl == ""
      <==> forall k :: 0 <= k < |nodes[i].children| ==> ChildCodes(src, nodes, i, nodes[i].children)[k].decl == ""
  {
    GlobalDecl(src, nodes, i);
    JoinNonEmptyIsEmpty(Decls(ChildCodes(src, nodes, i, nodes[i].children)), "\n");
  }

  /**
   * Empty child declarations leave no blank lines in the global scope: with exactly one
   * child that declares something, the global declaration is that child's.
   */
  lemma GlobalSingle(src: string, nodes: seq<Node>, i: nat, m: nat)
    requires Ready(src, nodes) && i < |nodes| && nodes[i].kind == Global && CodeDefined(nodes, i)
    requires HasConvertible(nodes, i) && m < |nodes[i].children|
    requires Walkable(nodes, i, nodes[i].children)
    requires ChildCodes(src, nodes, i, nodes[i].children)[m].decl != ""
    requires forall k :: 0 <= k < |nodes[i].children| && k != m ==> ChildCodes(src, nodes, i, nodes[i].children)[k].decl == ""
    ensures ContextToCode(src, nodes, i).decl == ChildCodes(src, nodes, i, nodes[i].children)[m].decl
  {
    GlobalDecl(src, nodes, i);
    var decls := Decls(ChildCodes(src, nodes, i, nodes[i].children));
    JoinNonEmptySingle(decls, m, "\n");
    assert Join([decls[m]], "\n") == decls[m];
  }

  /**
   * A namespace wraps its children's code: stripping the opening `namespace <name>` line
   * with its brace and the closing comment gives back the children's declarations
   * (and implementations), one per line, empty ones included.
   */
  lemma NamespaceWraps(src: string, nodes: seq<Node>, i: nat)
    requires Ready(src, nodes) && i < |nodes| && nodes[i].kind == Namespace && CodeDefined(nodes, i)
    requires HasConvertible(nodes, i)
    ensures
      var code := ContextToCode(src, nodes, i);
      var codes := ChildCodes(src, nodes, i, nodes[i].children);
      var open := "namespace " + nodes[i].name + "\n{\n";
      var close := "\n} //namespace " + nodes[i].name;
      && |code.decl| == |open| + |Join(Decls(codes), "\n")| + |close|
      && code.decl[..|open|] == open && code.decl[|code.decl| - |close|..] == close
      && code.decl[|open|..|code.decl| - |close|] == Join(Decls(codes), "\n")
      && |code.impl| == |open| + |Join(Impls(codes), "\n")| + |close|
      && code.impl[..|open|] == open && code.impl[|code.impl| - |close|..] == close
      && code.impl[|open|..|code.impl| - |close|] == Join(Impls(codes), "\n")
  {
    ScopeWalkable(nodes, i);
    var codes := ChildCodes(src, nodes, i, nodes[i].children);
    Unwrap(nodes[i].name, Join(Decls(codes), "\n"));
    Unwrap(nodes[i].name, Join(Impls(codes), "\n"));
  }

  lemma Unwrap(name: string, body: string)
    ensures var t := NamespaceTemplate(name, body);
      var open := "namespace " + name + "\n{\n";
      var close := "\n} //namespace " + name;
      && t == open + body + close
      && |t| == |open| + |body| + |close|
      && t[..|open|] == open && t[|t| - |close|..] == close && t[|open|..|t| - |close|] == body
  {
    var open := "namespace " + name + "\n{\n";
    var close := "\n} //namespace " + name;
    var t := open + body + close;
    assert t[..|open|] == open;
    assert t[|t| - |close|..] == close;
    assert t[|open|..|t| - |close|] == body;
  }

  /** The position of the last entry of `cs` of kind `kind`, if any. */
  function LastOfKind(nodes: seq<Node>, cs: seq<nat>, kind: Kind): (r: W.Option<nat>)
    requires forall k :: 0 <= k < |cs| ==> cs[k] < |nodes|
    ensures r.Some? ==> r.value < |cs| && nodes[cs[r.value]].kind == kind
    ensures r.Some? ==> forall j :: r.value < j < |cs| ==> nodes[cs[j]].kind != kind
    ensures r.None? ==> forall j :: 0 <= j < |cs| ==> nodes[cs[j]].kind != kind
    decreases |cs|
  {
    if cs == [] then W.None
    else match LastOfKind(nodes, cs[1..], kind)
      case Some(p) => W.Some(p + 1)
      case None => if nodes[cs[0]].kind == kind then W.Some(0) else W.None
  }

  /**
   * The underlying-type loop ends with the text of the last UnderlyingType child, or
   * with the starting value when there is none.
   */
  lemma {:induction false} UnderlyingLastWins(src: string, nodes: seq<Node>, cs: seq<nat>, acc: string)
    requires Ready(src, nodes) && forall k :: 0 <= k < |cs| ==> cs[k] < |nodes|
    ensures UnderlyingFrom(src, nodes, cs, acc)
      == match LastOfKind(nodes, cs, UnderlyingType)
         case None => acc
         case Some(k) => Content(src, nodes, cs[k])
    decreases |cs|
  {
    if cs != [] {
      var acc' := if nodes[cs[0]].kind == UnderlyingType then Content(src, nodes, cs[0]) else acc;
      UnderlyingLastWins(src, nodes, cs[1..], acc');
    }
  }

  /** An enum class without an UnderlyingType child is declared over gbp_u8; otherwise over the last one's text. */
  lemma EnumClassUnderlying(src: string, nodes: seq<Node>, i: nat)
    requires Ready(src, nodes) && i < |nodes| && nodes[i].kind == EnumClass
    ensures var cs := nodes[i].children;
      UnderlyingFrom(src, nodes, cs, "gbp_u8")
        == match LastOfKind(nodes, cs, UnderlyingType)
           case None => "gbp_u8"
           case Some(k) => Content(src, nodes, cs[k])
  {
    UnderlyingLastWins(src, nodes, nodes[i].children, "gbp_u8");
  }

  /** A member's type is the code of its last MemberType child, or the starting type when there is none. */
  lemma {:induction false} MemberTypeLastWins(nodes: seq<Node>, cs: seq<nat>, decls: seq<string>, memType: string, memVal: string)
    requires forall k :: 0 <= k < |cs| ==> cs[k] < |nodes|
    requires |decls| == |cs|
    requires forall k :: 0 <= k < |cs| ==> nodes[cs[k]].kind == MemberType || nodes[cs[k]].kind == MemberValue
    ensures MemberParts(nodes, cs, decls, memType, memVal).0
      == match LastOfKind(nodes, cs, MemberType)
         case None => memType
         case Some(k) => decls[k]
    decreases |cs|
  {
    if cs != [] {
      if nodes[cs[0]].kind == MemberType {
        MemberTypeLastWins(nodes, cs[1..], decls[1..], decls[0], memVal);
      } else {
        MemberTypeLastWins(nodes, cs[1..], decls[1..], memType, " = " + decls[0] + ";");
      }
    }
  }

  /** A member's tail is ` = <code>;` for its last MemberValue child, or the starting tail when there is none. */
  lemma {:induction false} MemberValueLastWins(nodes: seq<Node>, cs: seq<nat>, decls: seq<string>, memType: string, memVal: string)
    requires forall k :: 0 <= k < |cs| ==> cs[k] < |nodes|
    requires |decls| == |cs|
    requires forall k :: 0 <= k < |cs| ==> nodes[cs[k]].kind == MemberType || nodes[cs[k]].kind == MemberValue
    ensures MemberParts(nodes, cs, decls, memType, memVal).1
      == match LastOfKind(nodes, cs, MemberValue)
         case None => memVal
         case Some(k) => " = " + decls[k] + ";"
    decreases |cs|
  {
    if cs != [] {
      if nodes[cs[0]].kind == MemberType {
        MemberValueLastWins(nodes, cs[1..], decls[1..], decls[0], memVal);
      } else {
        MemberValueLastWins(nodes, cs[1..], decls[1..], memType, " = " + decls[0] + ";");
      }
    }
  }

  /**
   * A member renders as `<type> <name><tail>` with whitespace simplified: the words
   * of the type, then the words of the name and tail, one blank between each two
   * (so one blank between type and name); the declaration keeps every other
   * character of that text in order and holds whitespace only as single inner blanks.
   */
  lemma MemberRendering(src: string, nodes: seq<Node>, i: nat)
    requires Ready(src, nodes) && i < |nodes| && nodes[i].kind == Member && CodeDefined(nodes, i)
    ensures
      var cs := nodes[i].children;
      var decls := Decls(ChildCodes(src, nodes, i, cs));
      var memType := match LastOfKind(nodes, cs, MemberType) case None => "" case Some(k) => decls[k];
      var memVal := match LastOfKind(nodes, cs, MemberValue) case None => ";" case Some(k) => " = " + decls[k] + ";";
      var decl := ContextToCode(src, nodes, i).decl;
      && decl == Join(Words(memType) + Words(nodes[i].name + memVal), " ")
      && IsSimplified(decl)
      && NonSpace(decl) == NonSpace(memType + " " + nodes[i].name + memVal)
  {
    MemberWalkable(nodes, i);
    var cs := nodes[i].children;
    var decls := Decls(ChildCodes(src, nodes, i, cs));
    MemberTypeLastWins(nodes, cs, decls, "", ";");
    MemberValueLastWins(nodes, cs, decls, "", ";");
    var (memType, memVal) := MemberParts(nodes, cs, decls, "", ";");
    DeclWords(nodes[i].name, memType, memVal);
  }

  /** A simplified member declaration: type words, then name and tail words, single blanks, nothing else lost. */
  lemma DeclWords(name: string, memType: string, memVal: string)
    ensures var decl := Simplified(DeclMemberTemplate(name, memType, memVal));
      && decl == Join(Words(memType) + Words(name + memVal), " ")
      && IsSimplified(decl)
      && NonSpace(decl) == NonSpace(memType + " " + name + memVal)
  {
    SimplifiedCorrect(DeclMemberTemplate(name, memType, memVal));
    SimplifiedIsWords(DeclMemberTemplate(name, memType, memVal));
    assert DeclMemberTemplate(name, memType, memVal) == memType + [' '] + (name + memVal);
    WordsSplit(memType, ' ', name + memVal);
  }

  /** An enum item's declaration is its text with every comma turned into `=`: same length, no comma left. */
  lemma EnumItemAssigns(src: string, nodes: seq<Node>, i: nat)
    requires Ready(src, nodes) && i < |nodes| && nodes[i].kind == EnumItem
    ensures CodeDefined(nodes, i)
    ensures var decl := ContextToCode(src, nodes, i).decl;
      && |decl| == nodes[i].len
      && ',' !in decl
      && forall k :: 0 <= k < |decl| && Content(src, nodes, i)[k] != ',' ==> decl[k] == Content(src, nodes, i)[k]
  {
    assert HasConvertible(nodes, i);
  }

  /**
   * The conversion function of an enum switches over exactly its items, under its
   * qualified name, falls back to `return "";`, and is followed by the stream operator.
   */
  lemma EnumCastRendering(src: string, nodes: seq<Node>, i: nat)
    requires Ready(src, nodes) && i < |nodes| && nodes[i].kind == Enum
    ensures Walkable(nodes, i, OfKinds(nodes, nodes[i].children, {EnumItem}))
    ensures var items := Decls(ChildCodes(src, nodes, i, OfKinds(nodes, nodes[i].children, {EnumItem})));
      var code := EnumCode(src, nodes, i);
      var ipre := "const char* enum_cast(" + FullName(nodes, i) + " e, bool is_full_name) {\n" + "    switch (e) {\n" + "    ";
      var cases := Join(EnumCases(FullName(nodes, i), items), "\n");
      var ipost := "\n" + "    }\n" + "    return \"\";\n" + "}\n"
        + "std::ostream& operator<<(std::ostream& os, " + FullName(nodes, i) + " e) {\n" + "    os << enum_cast(e);\n" + "    return os;\n" + "}\n";
      && |code.impl| == |ipre| + |cases| + |ipost|
      && code.impl[..|ipre|] == ipre && code.impl[|ipre|..|ipre| + |cases|] == cases
      && code.impl[|code.impl| - |ipost|..] == ipost
  {
    ItemsWalkable(nodes, i);
    var items := Decls(ChildCodes(src, nodes, i, OfKinds(nodes, nodes[i].children, {EnumItem})));
    EnumCastCases(FullName(nodes, i), items);
  }

  /**
   * An enum is declared under its own name with the codes of exactly its EnumItem
   * children, in order, one per line, followed by `friend ` when nested and the
   * declarations of enum_cast and the stream operator for its qualified name.
   */
  lemma EnumDeclRendering(src: string, nodes: seq<Node>, i: nat)
    requires Ready(src, nodes) && i < |nodes| && nodes[i].kind == Enum
    ensures Walkable(nodes, i, OfKinds(nodes, nodes[i].children, {EnumItem}))
    ensures var items := Decls(ChildCodes(src, nodes, i, OfKinds(nodes, nodes[i].children, {EnumItem})));
      var decl := EnumCode(src, nodes, i).decl;
      var pre := "enum " + nodes[i].name + "\n{\n    ";
      var post := "\n};\n// related functions\n" + Friend(nodes, i) + GenOstreamOpEnum(FullName(nodes, i), items).decl;
      && |decl| == |pre| + |Join(items, ",\n")| + |post|
      && decl[..|pre|] == pre && decl[|decl| - |post|..] == post
      && decl[|pre|..|decl| - |post|] == Join(items, ",\n")
  {
    ItemsWalkable(nodes, i);
    var items := Decls(ChildCodes(src, nodes, i, OfKinds(nodes, nodes[i].children, {EnumItem})));
    EnumTemplatesWrap(nodes[i].name, "", Join(items, ",\n"), Friend(nodes, i), GenOstreamOpEnum(FullName(nodes, i), items).decl);
  }

  /**
   * An enum class is declared under its own name over its underlying type (gbp_u8
   * unless a child gives one) with the codes of exactly its EnumItem children, in
   * order, and its implementation is the enum_cast of those items.
   */
  lemma EnumClassRendering(src: string, nodes: seq<Node>, i: nat)
    requires Ready(src, nodes) && i < |nodes| && nodes[i].kind == EnumClass
    ensures Walkable(nodes, i, OfKinds(nodes, nodes[i].children, {EnumItem}))
    ensures var items := Decls(ChildCodes(src, nodes, i, OfKinds(nodes, nodes[i].children, {EnumItem})));
      var code := EnumClassCode(src, nodes, i);
      var pre := "enum class " + nodes[i].name + " : " + UnderlyingFrom(src, nodes, nodes[i].children, "gbp_u8") + "\n{\n    ";
      var post := "\n};\n// related functions\n" + Friend(nodes, i) + GenOstreamOpEnum(FullName(nodes, i), items).decl;
      && |code.decl| == |pre| + |Join(items, ",\n")| + |post|
      && code.decl[..|pre|] == pre && code.decl[|code.decl| - |post|..] == post
      && code.decl[|pre|..|code.decl| - |post|] == Join(items, ",\n")
      && code.impl == GenOstreamOpEnum(FullName(nodes, i), items).impl
  {
    ItemsWalkable(nodes, i);
    var items := Decls(ChildCodes(src, nodes, i, OfKinds(nodes, nodes[i].children, {EnumItem})));
    EnumTemplatesWrap(nodes[i].name, UnderlyingFrom(src, nodes, nodes[i].children, "gbp_u8"), Join(items, ",\n"),
                      Friend(nodes, i), GenOstreamOpEnum(FullName(nodes, i), items).decl);
  }

  /**
   * The walk never crashes on a tree the parser builds: below any context that is not
   * a Member, no Struct, Global or Namespace lists a Member child, so no crash path of
   * contextToCode is reached.
   */
  lemma {:induction false} ScopedDefined(nodes: seq<Node>, i: nat)
    requires Linked(nodes) && B.Scoped(nodes) && i < |nodes| && nodes[i].kind != Member
    ensures CodeDefined(nodes, i)
    decreases |nodes| - i
  {
    var cs := nodes[i].children;
    forall k | 0 <= k < |cs|
      ensures nodes[i].kind in {Global, Namespace, Struct} ==> nodes[cs[k]].kind != Member
      ensures nodes[cs[k]].kind != Member ==> CodeDefined(nodes, cs[k])
    {
      assert nodes[cs[k]].parent == W.Some(i);
      if nodes[cs[k]].kind != Member {
        ScopedDefined(nodes, cs[k]);
      }
    }
  }

  /** The generator can be run on the root of any parsed tree: its walk reaches no crash path. */
  lemma ParsedWalkDefined(src: string)
    ensures var t := B.Run(src, B.Initial(), B.FeedCount(|src|)).nodes;
      Ready(src, t) && CodeDefined(t, 0)
      && forall j :: 0 <= j < |t| && t[j].kind != Member ==> CodeDefined(t, j)
  {
    var t := B.Run(src, B.Initial(), B.FeedCount(|src|)).nodes;
    B.ParseScoped(src);
    forall j | 0 <= j < |t| && t[j].kind != Member
      ensures CodeDefined(t, j)
    {
      ScopedDefined(t, j);
    }
  }

  // ---------------------------------------------------------------------------
  // generateCode.

  /** The generator's state: the code it last produced. */
  class CodeGenerator {
    var code: Code

    constructor ()
      ensures code == NoCode
    {
      code := NoCode;
    }

    /**
     * generateCode for the chosen root context (None when there is no model or no
     * context): each part of the kept code is overwritten, and reported changed,
     * only when the new text differs from it.
     */
    method GenerateCode(src: string, nodes: seq<Node>, root: W.Option<nat>) returns (declChanged: bool, implChanged: bool)
      requires root.Some? ==> Ready(src, nodes) && root.value < |nodes| && CodeDefined(nodes, root.value)
      modifies this
      ensures code == (if root.Some? then ContextToCode(src, nodes, root.value) else NoCode)
      ensures declChanged <==> old(code).decl != code.decl
      ensures implChanged <==> old(code).impl != code.impl
    {
      var newCode := if root.Some? then ContextToCode(src, nodes, root.value) else NoCode;
      declChanged := false;
      implChanged := false;
      if newCode.decl != code.decl {
        code := code.(decl := newCode.decl);
        declChanged := true;
      }
      if newCode.impl != code.impl {
        code := code.(impl := newCode.impl);
        implChanged := true;
      }
    }
  }
}
