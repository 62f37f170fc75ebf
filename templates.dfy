/**
 * The text pieces the code generator emits: the Code pair, the per-member
 * generators (genEqOperator, genMemberName, genGetMember, genApplyMethod,
 * genCompareMethod, genSerialize, genOstreamOp, genOstreamOpEnum) and the fixed
 * templates a struct, an enum, a namespace and a member are poured into.
 *
 * Filling a template (QString::arg, one placeholder number at a time) is modelled
 * as concatenation: an inserted piece is taken never to hold a `%<digit>` marker of
 * its own, which QString::arg would substitute again.
 */
module Templates {
  import opened Text

  /** Generated code: the declaration text and the implementation text. */
  datatype Code = Code(decl: string, impl: string)

  /** Code(): both parts empty. */
  const NoCode: Code := Code("", "")

  /** A single text returned where a Code is expected becomes the declaration part; the implementation part stays empty. */
  function FromText(t: string): Code {
    Code(t, "")
  }

  /**
   * The list a for-loop over the members builds by appending `line(k, names[k])`
   * for k = 0, 1, …: one entry per member, in declaration order.
   */
  function Indexed(names: seq<string>, line: (nat, string) -> string): (r: seq<string>)
    ensures |r| == |names|
    ensures forall k :: 0 <= k < |names| ==> r[k] == line(k, names[k])
    decreases |names|
  {
    if names == [] then []
    else Indexed(names[..|names| - 1], line) + [line(|names| - 1, names[|names| - 1])]
  }

  // ---------------------------------------------------------------------------
  // The per-member generators.

  /** One comparison of operator==. */
  function EqTerm(m: string): string {
    m + " == other." + m
  }

  /** The comparisons of operator==, one per member, in order. */
  function EqTerms(names: seq<string>): (r: seq<string>)
    ensures |r| == |names|
    ensures forall k :: 0 <= k < |names| ==> r[k] == EqTerm(names[k])
  {
    Indexed(names, (k: nat, m: string) => EqTerm(m))
  }

  /** operator==: the members' comparisons joined with ` && `. */
  function GenEqOperator(cls: string, names: seq<string>): string {
    "inline bool operator==(const " + cls + "& other) const { return "
      + Join(EqTerms(names), " && ") + "; }\n"
  }

  /** The specialisation of member_name for index `k`, naming member `m`. */
  function MemberNameLine(cls: string, k: nat, m: string): string {
    ("template <> const char* " + cls + "::member_name<") + NatToString(k) + (">() { return \"" + m + "\"; }")
  }

  /** The member_name specialisations, one per member, in order. */
  function MemberNameLines(cls: string, names: seq<string>): (r: seq<string>)
    ensures |r| == |names|
    ensures forall k :: 0 <= k < |names| ==> r[k] == MemberNameLine(cls, k, names[k])
  {
    Indexed(names, (k: nat, m: string) => MemberNameLine(cls, k, m))
  }

  function GenMemberName(cls: string, names: seq<string>): string {
    Join(MemberNameLines(cls, names), "\n")
  }

  /** The mutable specialisation of get_member for index `k`, returning member `m`. */
  function GetMemberLine(cls: string, k: nat, m: string): string {
    "template <>       typename std::tuple_element<"
      + (NatToString(k) + ", " + cls + "::types_as_tuple>::type& " + cls + "::get_member<" + NatToString(k) + ">()       { return " + m + "; }")
  }

  /** The const specialisation of get_member for index `k`, returning member `m`. */
  function GetMemberConstLine(cls: string, k: nat, m: string): string {
    "template <> const typename std::tuple_element<" + NatToString(k) + ", " + cls + "::types_as_tuple>::type& "
      + cls + "::get_member<" + NatToString(k) + ">() const { return " + m + "; }"
  }

  /** Two lists of equal length merged pairwise: a[0], b[0], a[1], b[1], … */
  function Interleave(a: seq<string>, b: seq<string>): (r: seq<string>)
    requires |a| == |b|
    ensures |r| == 2 * |a|
    ensures forall k :: 0 <= k < |a| ==> r[2 * k] == a[k] && r[2 * k + 1] == b[k]
    decreases |a|
  {
    if a == [] then []
    else Interleave(a[..|a| - 1], b[..|b| - 1]) + [a[|a| - 1], b[|b| - 1]]
  }

  /** genGetMember's list: for each member in turn, its mutable then its const specialisation. */
  function GetMemberPairs(cls: string, names: seq<string>): (r: seq<string>)
    ensures |r| == 2 * |names|
    ensures forall k :: 0 <= k < |names| ==>
      r[2 * k] == GetMemberLine(cls, k, names[k]) && r[2 * k + 1] == GetMemberConstLine(cls, k, names[k])
  {
    Interleave(Indexed(names, (k: nat, m: string) => GetMemberLine(cls, k, m)),
               Indexed(names, (k: nat, m: string) => GetMemberConstLine(cls, k, m)))
  }

  function GenGetMember(cls: string, names: seq<string>): string {
    Join(GetMemberPairs(cls, names), "\n")
  }

  /** One visit of apply: the member's name and the member. */
  function ApplyCall(m: string): string {
    "f(\"" + m + "\", " + m + ");"
  }

  /** The visits of apply, one per member, in order. */
  function ApplyCalls(names: seq<string>): (r: seq<string>)
    ensures |r| == |names|
    ensures forall k :: 0 <= k < |names| ==> r[k] == ApplyCall(names[k])
  {
    Indexed(names, (k: nat, m: string) => ApplyCall(m))
  }

  /** apply, as a mutable and a const overload with the same calls. */
  function GenApplyMethod(names: seq<string>): string {
    var calls := Join(ApplyCalls(names), "\n");
    "\ntemplate <typename F> inline void apply(F&& f) {\n" + calls + "\n}\ntemplate <typename F> void apply(F&& f) const {\n" + calls + "\n}\n"
  }

  /** The comparison block of compare for index `k`. */
  function CompareBlock(k: nat): string {
    var i := NatToString(k);
    "if (get_member<" + i + (">() != obj.get_member<" + i + ">()) { f(member_name<" + i + ">(), get_member<"
      + i + ">(), obj.get_member<" + i + ">()); result = true; }")
  }

  /** The blocks of compare, one per member index, in order. */
  function CompareBlocks(names: seq<string>): (r: seq<string>)
    ensures |r| == |names|
    ensures forall k :: 0 <= k < |names| ==> r[k] == CompareBlock(k)
  {
    Indexed(names, (k: nat, m: string) => CompareBlock(k))
  }

  /** One overload of compare: the signature with the given qualifier, the result flag, the blocks, the return. */
  function CompareOverload(cls: string, qualifier: string, blocks: string): string {
    ("template <typename F> inline bool compare(const " + cls + "& obj, F&& f)" + qualifier + " {\nbool result = false;\n")
      + blocks + "\nreturn result;\n}\n"
  }

  /** compare, as a const and a mutable overload with the same blocks (the callCmpFunc text built beside it is never emitted). */
  function GenCompareMethod(cls: string, names: seq<string>): string {
    var blocks := Join(CompareBlocks(names), "\n");
    CompareOverload(cls, " const", blocks) + CompareOverload(cls, "", blocks)
  }

  function GenSerialize(names: seq<string>): string {
    "\ntemplate<typename Archive>\nvoid serialize(Archive &ar) { ar & " + Join(names, " & ") + "; }\n"
  }

  /** One field of the stream output: `"m: " << obj.m`. */
  function OstreamField(m: string): string {
    "\"" + m + ": \" << obj." + m
  }

  /** The fields of the stream output, one per member, in order. */
  function OstreamFields(names: seq<string>): (r: seq<string>)
    ensures |r| == |names|
    ensures forall k :: 0 <= k < |names| ==> r[k] == OstreamField(names[k])
  {
    Indexed(names, (k: nat, m: string) => OstreamField(m))
  }

  /** operator<< for a struct: declared in the header, defined in the implementation. */
  function GenOstreamOp(cls: string, names: seq<string>): Code {
    Code("std::ostream& operator<<(std::ostream& os, const " + cls + "& obj);\n",
         ("std::ostream& operator<<(std::ostream& os, const " + cls + "& obj) {\n" + "    os << \"{\" << ")
           + Join(OstreamFields(names), " << \", \" << ")
           + (" << \"}\";\n" + "    return os;\n" + "}\n"))
  }

  /** The case of enum_cast for item `m`: the qualified or the bare item name. */
  function EnumCase(cls: string, m: string): string {
    "case " + cls + "::" + m + ": return is_full_name ? \"" + cls + "::" + m + "\" : \"" + m + "\";"
  }

  /** The cases of enum_cast, one per item, in order. */
  function EnumCases(cls: string, items: seq<string>): (r: seq<string>)
    ensures |r| == |items|
    ensures forall k :: 0 <= k < |items| ==> r[k] == EnumCase(cls, items[k])
  {
    Indexed(items, (k: nat, m: string) => EnumCase(cls, m))
  }

  /** enum_cast and operator<< for an enum: declared in the header, defined in the implementation. */
  function GenOstreamOpEnum(cls: string, items: seq<string>): Code {
    Code("const char* enum_cast(" + cls + " e, bool is_full_name = false);\n"
           + "std::ostream& operator<<(std::ostream& os, " + cls + " e);\n",
         ("const char* enum_cast(" + cls + " e, bool is_full_name) {\n" + "    switch (e) {\n" + "    ")
           + Join(EnumCases(cls, items), "\n")
           + ("\n" + "    }\n" + "    return \"\";\n" + "}\n"
              + "std::ostream& operator<<(std::ostream& os, " + cls + " e) {\n" + "    os << enum_cast(e);\n" + "    return os;\n" + "}\n"))
  }

  // ---------------------------------------------------------------------------
  // The templates.

  function GuardsAdditional(body: string): string {
    "#ifdef GBP_DECLARE_TYPE_GEN_ADDITIONALS\n" + body + "\n#endif //GBP_DECLARE_TYPE_GEN_ADDITIONALS\n"
  }

  function NamespaceTemplate(name: string, body: string): string {
    "namespace " + name + "\n{\n" + body + "\n} //namespace " + name
  }

  function StructTemplate(name: string, members: string, operators: string, extra: string, friend: string, outside: string): string {
    ("struct " + name + "\n{\n")
      + StructBody(name, members, operators, extra)
      + ("};\n// related functions\n" + friend + outside)
  }

  /** The inside of the struct template: special members, members, operators and the guarded extra members. */
  function StructBody(name: string, members: string, operators: string, extra: string): string {
    "    // methods\n"
      + "    " + name + "() = default;\n"
      + "    " + name + "(const " + name + "&) = default;\n"
      + "    " + name + "& operator=(const " + name + "&) = default;\n"
      + "    " + name + "(" + name + "&&) = default;\n"
      + "\n\n\n"
      + "    // members\n"
      + "    " + members + "\n"
      + "    // operators\n"
      + "    " + operators + "\n"
      + "#ifdef GBP_DECLARE_TYPE_GEN_ADDITIONALS\n"
      + "    // extra\n"
      + "    " + extra + "\n"
      + "#endif //GBP_DECLARE_TYPE_GEN_ADDITIONALS\n"
  }

  function EnumClassTemplate(name: string, underlying: string, items: string, friend: string, outside: string): string {
    ("enum class " + name + " : " + underlying + "\n{\n    ") + items + ("\n};\n// related functions\n" + friend + outside)
  }

  function SimpleEnumTemplate(name: string, items: string, friend: string, outside: string): string {
    ("enum " + name + "\n{\n    ") + items + ("\n};\n// related functions\n" + friend + outside)
  }

  /** A member declaration before simplification: type, blank, name, then `;` or ` = value;`. */
  function DeclMemberTemplate(name: string, memType: string, memVal: string): string {
    memType + " " + name + memVal
  }

  // ---------------------------------------------------------------------------
  // What the generators promise.

  /** A rendered index is a run of decimal digits. */
  lemma {:induction false} NatToStringDigits(n: nat)
    ensures forall c :: c in NatToString(n) ==> '0' <= c <= '9'
    decreases n
  {
    if n >= 10 {
      NatToStringDigits(n / 10);
    }
  }

  /** The length of the run of decimal digits `u` starts with. */
  function LeadingDigits(u: string): nat
    decreases |u|
  {
    if u == [] || !('0' <= u[0] <= '9') then 0 else 1 + LeadingDigits(u[1..])
  }

  /** A digit run followed by a non-digit is exactly the leading digit run. */
  lemma {:induction false} LeadingDigitsOf(a: string, x: string)
    requires forall c :: c in a ==> '0' <= c <= '9'
    requires |x| > 0 && !('0' <= x[0] <= '9')
    ensures LeadingDigits(a + x) == |a|
    decreases |a|
  {
    if a != [] {
      assert a[0] in a;
      assert (a + x)[1..] == a[1..] + x;
      assert forall c :: c in a[1..] ==> c in a;
      LeadingDigitsOf(a[1..], x);
    }
  }

  /**
   * After a common prefix, two digit runs each followed by text that starts with the
   * same non-digit character can only agree as wholes.
   */
  lemma DigitsThenMark(p: string, a: string, b: string, x: string, y: string)
    requires forall c :: c in a ==> '0' <= c <= '9'
    requires forall c :: c in b ==> '0' <= c <= '9'
    requires |x| > 0 && |y| > 0 && x[0] == y[0] && !('0' <= x[0] <= '9')
    requires p + a + x == p + b + y
    ensures a == b
  {
    var s := p + a + x;
    assert s[|p|..] == a + x;
    assert (p + b + y)[|p|..] == b + y;
    LeadingDigitsOf(a, x);
    LeadingDigitsOf(b, y);
    assert a == s[|p|..|p| + |a|];
    assert b == (p + b + y)[|p|..|p| + |b|];
  }

  /** Two different indices never share a member_name specialisation, whatever the member names. */
  lemma MemberNameLinesDistinct(cls: string, j: nat, k: nat, mj: string, mk: string)
    requires j != k
    ensures MemberNameLine(cls, j, mj) != MemberNameLine(cls, k, mk)
  {
    if MemberNameLine(cls, j, mj) == MemberNameLine(cls, k, mk) {
      var x := ">() { return \"" + mj + "\"; }";
      var y := ">() { return \"" + mk + "\"; }";
      assert x[0] == '>' && y[0] == '>';
      NatToStringDigits(j);
      NatToStringDigits(k);
      DigitsThenMark("template <> const char* " + cls + "::member_name<", NatToString(j), NatToString(k), x, y);
      NatToStringInjective(j, k);
    }
  }

  /**
   * genMemberName emits exactly one specialisation per member: entry i is the one
   * for index i, naming the i-th member, and no index is specialised twice.
   */
  lemma MemberNameSpecs(cls: string, names: seq<string>)
    ensures var lines := MemberNameLines(cls, names);
      && |lines| == |names|
      && (forall k :: 0 <= k < |names| ==> lines[k] == MemberNameLine(cls, k, names[k]))
      && (forall j, k :: 0 <= j < k < |names| ==> lines[j] != lines[k])
  {
    var lines := MemberNameLines(cls, names);
    forall j, k | 0 <= j < k < |names|
      ensures lines[j] != lines[k]
    {
      MemberNameLinesDistinct(cls, j, k, names[j], names[k]);
    }
  }

  /** Two different indices never share a compare block. */
  lemma CompareBlocksDistinct(j: nat, k: nat)
    requires j != k
    ensures CompareBlock(j) != CompareBlock(k)
  {
    if CompareBlock(j) == CompareBlock(k) {
      var x := NatToString(j);
      var y := NatToString(k);
      var restJ := ">() != obj.get_member<" + x + ">()) { f(member_name<" + x + ">(), get_member<"
        + x + ">(), obj.get_member<" + x + ">()); result = true; }";
      var restK := ">() != obj.get_member<" + y + ">()) { f(member_name<" + y + ">(), get_member<"
        + y + ">(), obj.get_member<" + y + ">()); result = true; }";
      assert restJ[0] == '>' && restK[0] == '>';
      NatToStringDigits(j);
      NatToStringDigits(k);
      DigitsThenMark("if (get_member<", x, y, restJ, restK);
      NatToStringInjective(j, k);
    }
  }

  /** compare emits one block per member index, in index order, no index twice. */
  lemma CompareSpecs(names: seq<string>)
    ensures var blocks := CompareBlocks(names);
      && |blocks| == |names|
      && (forall k :: 0 <= k < |names| ==> blocks[k] == CompareBlock(k))
      && (forall j, k :: 0 <= j < k < |names| ==> blocks[j] != blocks[k])
  {
    var blocks := CompareBlocks(names);
    forall j, k | 0 <= j < k < |names|
      ensures blocks[j] != blocks[k]
    {
      CompareBlocksDistinct(j, k);
    }
  }

  /** Text made of a fixed opening, a body and a fixed closing gives the body back once both are stripped. */
  lemma Strip(pre: string, body: string, post: string)
    ensures var t := pre + body + post;
      && |t| == |pre| + |body| + |post|
      && t[..|pre|] == pre && t[|t| - |post|..] == post && t[|pre|..|t| - |post|] == body
  {
    var t := pre + body + post;
    assert t[..|pre|] == pre;
    assert t[|t| - |post|..] == post;
    assert t[|pre|..|t| - |post|] == body;
  }

  /**
   * operator== returns the conjunction of one comparison per member, in order: the
   * text between `return ` and `; }` is the members' `m == other.m` joined with ` && `.
   */
  lemma EqOperatorCompares(cls: string, names: seq<string>)
    ensures var t := GenEqOperator(cls, names);
      var pre := "inline bool operator==(const " + cls + "& other) const { return ";
      var post := "; }\n";
      && |t| == |pre| + |Join(EqTerms(names), " && ")| + |post|
      && t[..|pre|] == pre && t[|t| - |post|..] == post
      && t[|pre|..|t| - |post|] == Join(EqTerms(names), " && ")
      && forall k :: 0 <= k < |names| ==> EqTerms(names)[k] == names[k] + " == other." + names[k]
  {
    Strip("inline bool operator==(const " + cls + "& other) const { return ", Join(EqTerms(names), " && "), "; }\n");
  }

  /** serialize passes every member to the archive, in order: the archive expression is the names joined with ` & `. */
  lemma SerializeArchives(names: seq<string>)
    ensures var t := GenSerialize(names);
      var pre := "\ntemplate<typename Archive>\nvoid serialize(Archive &ar) { ar & ";
      var post := "; }\n";
      && |t| == |pre| + |Join(names, " & ")| + |post|
      && t[..|pre|] == pre && t[|t| - |post|..] == post
      && t[|pre|..|t| - |post|] == Join(names, " & ")
  {
    Strip("\ntemplate<typename Archive>\nvoid serialize(Archive &ar) { ar & ", Join(names, " & "), "; }\n");
  }

  /** Text holding the same body twice, between fixed pieces, gives the body back at both places. */
  lemma StripTwice(open1: string, body: string, open2: string, close: string)
    ensures var t := open1 + body + open2 + body + close;
      && t[|open1|..|open1| + |body|] == body
      && t[|open1| + |body| + |open2|..|t| - |close|] == body
  {
    Strip(open1, body, open2 + body + close);
    Strip(open1 + body + open2, body, close);
    assert open1 + body + (open2 + body + close) == open1 + body + open2 + body + close;
  }

  /**
   * The mutable and the const overload of apply visit the same members in the same
   * order: both bodies are the calls `f("m", m);`, one per member, one per line.
   */
  lemma ApplyOverloadsAgree(names: seq<string>)
    ensures var t := GenApplyMethod(names);
      var calls := Join(ApplyCalls(names), "\n");
      var open1 := "\ntemplate <typename F> inline void apply(F&& f) {\n";
      var open2 := "\n}\ntemplate <typename F> void apply(F&& f) const {\n";
      var close := "\n}\n";
      && t == open1 + calls + open2 + calls + close
      && t[|open1|..|open1| + |calls|] == calls
      && t[|open1| + |calls| + |open2|..|t| - |close|] == calls
      && forall k :: 0 <= k < |names| ==> ApplyCalls(names)[k] == "f(\"" + names[k] + "\", " + names[k] + ");"
  {
    StripTwice("\ntemplate <typename F> inline void apply(F&& f) {\n", Join(ApplyCalls(names), "\n"),
               "\n}\ntemplate <typename F> void apply(F&& f) const {\n", "\n}\n");
  }

  /**
   * The const and the mutable overload of compare check the same blocks, one per
   * member index, in order: the text is the const overload then the mutable one, and
   * each holds the joined blocks between its opening lines and its return.
   */
  lemma CompareOverloadsAgree(cls: string, names: seq<string>)
    ensures var t := GenCompareMethod(cls, names);
      var blocks := Join(CompareBlocks(names), "\n");
      var c := CompareOverload(cls, " const", blocks);
      var m := CompareOverload(cls, "", blocks);
      var openC := "template <typename F> inline bool compare(const " + cls + "& obj, F&& f)" + " const" + " {\nbool result = false;\n";
      var openM := "template <typename F> inline bool compare(const " + cls + "& obj, F&& f)" + "" + " {\nbool result = false;\n";
      var close := "\nreturn result;\n}\n";
      && |t| == |c| + |m| && t[..|c|] == c && t[|c|..] == m
      && |openC| + |close| <= |c| && c[|openC|..|c| - |close|] == blocks
      && |openM| + |close| <= |m| && m[|openM|..|m| - |close|] == blocks
  {
    var blocks := Join(CompareBlocks(names), "\n");
    var c := CompareOverload(cls, " const", blocks);
    var m := CompareOverload(cls, "", blocks);
    assert (c + m)[..|c|] == c;
    assert (c + m)[|c|..] == m;
    Strip("template <typename F> inline bool compare(const " + cls + "& obj, F&& f)" + " const" + " {\nbool result = false;\n", blocks, "\nreturn result;\n}\n");
    Strip("template <typename F> inline bool compare(const " + cls + "& obj, F&& f)" + "" + " {\nbool result = false;\n", blocks, "\nreturn result;\n}\n");
  }

  /**
   * A struct's stream operator is declared for the given (qualified) class name and
   * prints `{`, the fields `"m: " << obj.m` of every member in order separated by
   * `", "`, and `}`.
   */
  lemma OstreamPrintsFields(cls: string, names: seq<string>)
    ensures var c := GenOstreamOp(cls, names);
      var fields := Join(OstreamFields(names), " << \", \" << ");
      var pre := "std::ostream& operator<<(std::ostream& os, const " + cls + "& obj) {\n" + "    os << \"{\" << ";
      var post := " << \"}\";\n" + "    return os;\n" + "}\n";
      && c.decl == "std::ostream& operator<<(std::ostream& os, const " + cls + "& obj);\n"
      && |c.impl| == |pre| + |fields| + |post|
      && c.impl[..|pre|] == pre && c.impl[|c.impl| - |post|..] == post
      && c.impl[|pre|..|c.impl| - |post|] == fields
      && forall k :: 0 <= k < |names| ==> OstreamFields(names)[k] == "\"" + names[k] + ": \" << obj." + names[k]
  {
    var fields := Join(OstreamFields(names), " << \", \" << ");
    var pre := "std::ostream& operator<<(std::ostream& os, const " + cls + "& obj) {\n" + "    os << \"{\" << ";
    var post := " << \"}\";\n" + "    return os;\n" + "}\n";
    Strip(pre, fields, post);
  }

  /**
   * enum_cast switches over the items in order, one case per item, each case
   * qualified by the given class name and answering the qualified or the bare name;
   * any other value falls through to `return "";`, and the stream operator prints
   * enum_cast of the value.
   */
  lemma EnumCastCases(cls: string, items: seq<string>)
    ensures var c := GenOstreamOpEnum(cls, items);
      var cases := Join(EnumCases(cls, items), "\n");
      var pre := "const char* enum_cast(" + cls + " e, bool is_full_name) {\n" + "    switch (e) {\n" + "    ";
      var post := "\n" + "    }\n" + "    return \"\";\n" + "}\n"
        + "std::ostream& operator<<(std::ostream& os, " + cls + " e) {\n" + "    os << enum_cast(e);\n" + "    return os;\n" + "}\n";
      && |c.impl| == |pre| + |cases| + |post|
      && c.impl[..|pre|] == pre && c.impl[|pre|..|pre| + |cases|] == cases
      && c.impl[|c.impl| - |post|..] == post
      && forall k :: 0 <= k < |items| ==>
           EnumCases(cls, items)[k] == "case " + cls + "::" + items[k] + ": return is_full_name ? \"" + cls + "::" + items[k] + "\" : \"" + items[k] + "\";"
  {
    Strip("const char* enum_cast(" + cls + " e, bool is_full_name) {\n" + "    switch (e) {\n" + "    ",
          Join(EnumCases(cls, items), "\n"),
          "\n" + "    }\n" + "    return \"\";\n" + "}\n"
            + "std::ostream& operator<<(std::ostream& os, " + cls + " e) {\n" + "    os << enum_cast(e);\n" + "    return os;\n" + "}\n");
  }

  /** The additional-definitions guard wraps its body between the `#ifdef` line and the `#endif` line. */
  lemma GuardsWrap(body: string)
    ensures var t := GuardsAdditional(body);
      var pre := "#ifdef GBP_DECLARE_TYPE_GEN_ADDITIONALS\n";
      var post := "\n#endif //GBP_DECLARE_TYPE_GEN_ADDITIONALS\n";
      && |t| == |pre| + |body| + |post|
      && t[..|pre|] == pre && t[|t| - |post|..] == post && t[|pre|..|t| - |post|] == body
  {
    Strip("#ifdef GBP_DECLARE_TYPE_GEN_ADDITIONALS\n", body, "\n#endif //GBP_DECLARE_TYPE_GEN_ADDITIONALS\n");
  }

  /**
   * An enum (simple or class) declares its items between the opening brace line and
   * `};`, and is followed by the related functions: `friend ` when nested, then the
   * outside declarations.
   */
  lemma EnumTemplatesWrap(name: string, underlying: string, items: string, friend: string, outside: string)
    ensures var t := SimpleEnumTemplate(name, items, friend, outside);
      var pre := "enum " + name + "\n{\n    ";
      var post := "\n};\n// related functions\n" + friend + outside;
      && |t| == |pre| + |items| + |post|
      && t[..|pre|] == pre && t[|t| - |post|..] == post && t[|pre|..|t| - |post|] == items
    ensures var t := EnumClassTemplate(name, underlying, items, friend, outside);
      var pre := "enum class " + name + " : " + underlying + "\n{\n    ";
      var post := "\n};\n// related functions\n" + friend + outside;
      && |t| == |pre| + |items| + |post|
      && t[..|pre|] == pre && t[|t| - |post|..] == post && t[|pre|..|t| - |post|] == items
  {
    Strip("enum " + name + "\n{\n    ", items, "\n};\n// related functions\n" + friend + outside);
    Strip("enum class " + name + " : " + underlying + "\n{\n    ", items, "\n};\n// related functions\n" + friend + outside);
  }

  /**
   * A struct is declared under its own (unqualified) name with the four defaulted
   * special members, and is followed by the related functions: `friend ` when nested,
   * then the outside declarations.
   */
  lemma StructTemplateWraps(name: string, members: string, operators: string, extra: string, friend: string, outside: string)
    ensures var t := StructTemplate(name, members, operators, extra, friend, outside);
      var pre := "struct " + name + "\n{\n";
      var post := "};\n// related functions\n" + friend + outside;
      && |pre| + |post| <= |t|
      && t[..|pre|] == pre && t[|t| - |post|..] == post
  {
    Strip("struct " + name + "\n{\n", StructBody(name, members, operators, extra), "};\n// related functions\n" + friend + outside);
  }
}
