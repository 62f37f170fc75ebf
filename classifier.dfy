/**
 * The classifier: which child context the suffix of the deepest open node's content
 * opens (getStartContext), and where the new child's name lies in the source text
 * beyond what has been fed so far (getNameForward).
 */
module Classifier {
  import opened Text
  import opened Kinds

  // ---------------------------------------------------------------------------
  // Opening a child context.

  /** The triggers of the Struct / DeclStruct case of the switch, which Global and Namespace fall through to. */
  function DeclTrigger(ref: string): Kind {
    if EndsWith(ref, "GBP_DECLARE_TYPE(") then DeclStruct
    else if EndsWith(ref, "GBP_DECLARE_ENUM(") then EnumClass
    else if EndsWith(ref, "GBP_DECLARE_ENUM_SIMPLE(") then Enum
    else if EndsWith(ref, "typedef") then Typedef
    else None
  }

  /** The triggers of the Namespace case, falling through to the Struct case. */
  function ScopeTrigger(ref: string): Kind {
    if EndsWith(ref, "namespace ") then Namespace
    else if EndsWith(ref, "struct ") || EndsWith(ref, "class ") then Struct
    else DeclTrigger(ref)
  }

  /** The switch on the current kind, with its fall-through from Global to Namespace to Struct. */
  function SwitchTrigger(ref: string, current: Kind): Kind {
    match current
    case Global => if EndsWith(ref, "#") then Preproc else ScopeTrigger(ref)
    case Namespace => ScopeTrigger(ref)
    case Struct | DeclStruct => DeclTrigger(ref)
    case _ => None
  }

  /**
   * The kind of child that the content `ref` of an open, childless-or-not node of kind
   * `current` opens, or None. `noChildren` says whether the node has no finished child yet.
   */
  function StartContext(ref: string, current: Kind, noChildren: bool): Kind {
    if current == Comment || current == LineComment then None
    else if EndsWith(ref, "/*") then Comment
    else if EndsWith(ref, "//") then LineComment
    else if SwitchTrigger(ref, current) != None then SwitchTrigger(ref, current)
    else if current == EnumClass && noChildren && EndsWith(ref, ",") then UnderlyingType
    else if current == DeclStruct then (if EndsWith(ref, "(") then Member else None)
    else if current == EnumClass || current == Enum then (if EndsWith(ref, "(") then EnumItem else None)
    else if current == Member then
      (if EndsWith(ref, "(") then (if noChildren then MemberType else MemberValue) else None)
    else if current == MemberValue || current == ExtraCode then (if EndsWith(ref, "(") then ExtraCode else None)
    else None
  }

  /** The character `j` places from the end of a content that ends with `suffix`. */
  lemma CharFromEnd(s: string, suffix: string, j: nat)
    requires EndsWith(s, suffix) && j < |suffix|
    ensures j < |s| && s[|s| - 1 - j] == suffix[|suffix| - 1 - j]
  {
    EndsWithSlice(s, suffix);
    assert s[|s| - |suffix|..][|suffix| - 1 - j] == s[|s| - 1 - j];
  }

  /** Two suffixes that differ at the same distance from their ends cannot both end `s`. */
  lemma EndsWithMismatch(s: string, a: string, b: string, j: nat)
    requires j < |a| && j < |b| && a[|a| - 1 - j] != b[|b| - 1 - j]
    ensures !(EndsWith(s, a) && EndsWith(s, b))
  {
    if EndsWith(s, a) {
      CharFromEnd(s, a, j);
    }
    if EndsWith(s, b) {
      CharFromEnd(s, b, j);
    }
  }

  /** A content ending in `c` does not end in either comment opener unless `c` is `*` or `/`. */
  lemma NotCommentOpener(ref: string, suffix: string)
    requires |suffix| > 0 && suffix[|suffix| - 1] != '*' && suffix[|suffix| - 1] != '/'
    requires EndsWith(ref, suffix)
    ensures !EndsWith(ref, "/*") && !EndsWith(ref, "//")
  {
    EndsWithExclusive(ref, suffix, "/*");
    EndsWithExclusive(ref, suffix, "//");
  }

  /** The classifier never creates a root, and None stands for "no child". */
  lemma StartContextNeverGlobal(ref: string, current: Kind, noChildren: bool)
    ensures StartContext(ref, current, noChildren) != Global
  {
  }

  /** Inside a comment nothing opens; elsewhere the comment openers win over every other rule. */
  lemma CommentRules(ref: string, current: Kind, noChildren: bool)
    ensures current == Comment || current == LineComment ==> StartContext(ref, current, noChildren) == None
    ensures current != Comment && current != LineComment && EndsWith(ref, "/*") ==>
              StartContext(ref, current, noChildren) == Comment
    ensures current != Comment && current != LineComment && EndsWith(ref, "//") ==>
              StartContext(ref, current, noChildren) == LineComment
  {
    EndsWithExclusive(ref, "/*", "//");
  }

  /** `#` opens a preprocessor line, and only in the global scope. */
  lemma PreprocOnlyInGlobal(ref: string, current: Kind, noChildren: bool)
    ensures StartContext(ref, current, noChildren) == Preproc <==> current == Global && EndsWith(ref, "#")
  {
    if current == Global && EndsWith(ref, "#") {
      NotCommentOpener(ref, "#");
    }
  }

  /** `namespace ` opens a namespace, and only in the global scope or a namespace. */
  lemma NamespaceOnlyAtScope(ref: string, current: Kind, noChildren: bool)
    ensures StartContext(ref, current, noChildren) == Namespace <==>
              (current == Global || current == Namespace) && EndsWith(ref, "namespace ")
  {
    if (current == Global || current == Namespace) && EndsWith(ref, "namespace ") {
      NotCommentOpener(ref, "namespace ");
      EndsWithExclusive(ref, "namespace ", "#");
    }
  }

  /** `struct ` and `class ` open a struct, and only in the global scope or a namespace. */
  lemma StructOnlyAtScope(ref: string, current: Kind, noChildren: bool)
    ensures StartContext(ref, current, noChildren) == Struct <==>
              (current == Global || current == Namespace) && (EndsWith(ref, "struct ") || EndsWith(ref, "class "))
  {
    var opener := if EndsWith(ref, "struct ") then "struct " else "class ";
    if (current == Global || current == Namespace) && EndsWith(ref, opener) {
      NotCommentOpener(ref, opener);
      EndsWithExclusive(ref, opener, "#");
      EndsWithMismatch(ref, opener, "namespace ", 1);
    }
  }

  /** The scopes in which the declaration macros and `typedef` are recognised (by fall-through). */
  predicate DeclScope(current: Kind) {
    current == Global || current == Namespace || current == Struct || current == DeclStruct
  }

  /** Every declaration trigger ends in `(` or `f`. */
  lemma DeclTriggerLast(ref: string)
    requires DeclTrigger(ref) != None
    ensures |ref| > 0 && (ref[|ref| - 1] == '(' || ref[|ref| - 1] == 'f')
  {
    if EndsWith(ref, "GBP_DECLARE_TYPE(") {
      EndsWithLast(ref, "GBP_DECLARE_TYPE(");
    } else if EndsWith(ref, "GBP_DECLARE_ENUM(") {
      EndsWithLast(ref, "GBP_DECLARE_ENUM(");
    } else if EndsWith(ref, "GBP_DECLARE_ENUM_SIMPLE(") {
      EndsWithLast(ref, "GBP_DECLARE_ENUM_SIMPLE(");
    } else {
      EndsWithLast(ref, "typedef");
    }
  }

  /** The last character of a content that ends with one of the earlier triggers. */
  lemma EarlierTriggersLast(ref: string)
    ensures EndsWith(ref, "/*") ==> |ref| > 0 && ref[|ref| - 1] == '*'
    ensures EndsWith(ref, "//") ==> |ref| > 0 && ref[|ref| - 1] == '/'
    ensures EndsWith(ref, "#") ==> |ref| > 0 && ref[|ref| - 1] == '#'
    ensures EndsWith(ref, "namespace ") ==> |ref| > 0 && ref[|ref| - 1] == ' '
    ensures EndsWith(ref, "struct ") ==> |ref| > 0 && ref[|ref| - 1] == ' '
    ensures EndsWith(ref, "class ") ==> |ref| > 0 && ref[|ref| - 1] == ' '
  {
    if EndsWith(ref, "/*") { EndsWithLast(ref, "/*"); }
    if EndsWith(ref, "//") { EndsWithLast(ref, "//"); }
    if EndsWith(ref, "#") { EndsWithLast(ref, "#"); }
    if EndsWith(ref, "namespace ") { EndsWithLast(ref, "namespace "); }
    if EndsWith(ref, "struct ") { EndsWithLast(ref, "struct "); }
    if EndsWith(ref, "class ") { EndsWithLast(ref, "class "); }
  }

  /** In a declaration scope, a declaration-macro suffix or `typedef` wins over every rule but the comment openers. */
  lemma DeclTriggerReached(ref: string, current: Kind, noChildren: bool)
    requires DeclScope(current) && DeclTrigger(ref) != None
    ensures StartContext(ref, current, noChildren) == DeclTrigger(ref)
  {
    DeclTriggerLast(ref);
    EarlierTriggersLast(ref);
  }

  /** The kinds only the switch on the current kind produces come from it. */
  lemma SwitchOrigin(ref: string, current: Kind, noChildren: bool)
    ensures var k := StartContext(ref, current, noChildren);
      (k == Preproc || k == Namespace || k == Struct || k == DeclStruct || k == Enum || k == Typedef
        || (k == EnumClass && current != EnumClass)) ==> k == SwitchTrigger(ref, current)
  {
  }

  /** The declaration triggers are reached from the four declaration scopes only. */
  lemma DeclOrigin(ref: string, current: Kind)
    ensures var k := SwitchTrigger(ref, current);
      (k == DeclStruct || k == EnumClass || k == Enum || k == Typedef) ==> DeclScope(current) && k == DeclTrigger(ref)
  {
  }

  /** `GBP_DECLARE_TYPE(` opens a declared struct, and only in the four declaration scopes. */
  lemma DeclTypeMacro(ref: string, current: Kind, noChildren: bool)
    ensures StartContext(ref, current, noChildren) == DeclStruct <==>
              DeclScope(current) && EndsWith(ref, "GBP_DECLARE_TYPE(")
  {
    SwitchOrigin(ref, current, noChildren);
    DeclOrigin(ref, current);
    if DeclScope(current) && EndsWith(ref, "GBP_DECLARE_TYPE(") {
      DeclTriggerReached(ref, current, noChildren);
    }
  }

  /** `GBP_DECLARE_ENUM(` opens an enum class, and only in the four declaration scopes. */
  lemma DeclEnumMacro(ref: string, current: Kind, noChildren: bool)
    ensures (StartContext(ref, current, noChildren) == EnumClass && current != EnumClass) <==>
              DeclScope(current) && EndsWith(ref, "GBP_DECLARE_ENUM(")
  {
    SwitchOrigin(ref, current, noChildren);
    DeclOrigin(ref, current);
    if DeclScope(current) && EndsWith(ref, "GBP_DECLARE_ENUM(") {
      EndsWithMismatch(ref, "GBP_DECLARE_ENUM(", "GBP_DECLARE_TYPE(", 1);
      DeclTriggerReached(ref, current, noChildren);
    }
  }

  /** `GBP_DECLARE_ENUM_SIMPLE(` opens a plain enum, and only in the four declaration scopes. */
  lemma DeclEnumSimpleMacro(ref: string, current: Kind, noChildren: bool)
    ensures StartContext(ref, current, noChildren) == Enum <==>
              DeclScope(current) && EndsWith(ref, "GBP_DECLARE_ENUM_SIMPLE(")
  {
    SwitchOrigin(ref, current, noChildren);
    DeclOrigin(ref, current);
    if DeclScope(current) && EndsWith(ref, "GBP_DECLARE_ENUM_SIMPLE(") {
      EndsWithMismatch(ref, "GBP_DECLARE_ENUM_SIMPLE(", "GBP_DECLARE_TYPE(", 2);
      EndsWithMismatch(ref, "GBP_DECLARE_ENUM_SIMPLE(", "GBP_DECLARE_ENUM(", 1);
      DeclTriggerReached(ref, current, noChildren);
    }
  }

  /** `typedef` opens a typedef line, and only in the four declaration scopes. */
  lemma TypedefRule(ref: string, current: Kind, noChildren: bool)
    ensures StartContext(ref, current, noChildren) == Typedef <==>
              DeclScope(current) && EndsWith(ref, "typedef")
  {
    SwitchOrigin(ref, current, noChildren);
    DeclOrigin(ref, current);
    if DeclScope(current) && EndsWith(ref, "typedef") {
      DeclTriggerReached(ref, current, noChildren);
    }
  }

  /**
   * In a DeclStruct, `(` opens a Member only when no declaration macro matched first
   * (`GBP_DECLARE_TYPE(` itself ends in `(` and opens a nested DeclStruct instead).
   */
  lemma DeclStructMember(ref: string, noChildren: bool)
    ensures StartContext(ref, DeclStruct, noChildren) == Member <==>
              EndsWith(ref, "(") && DeclTrigger(ref) == None
  {
    if EndsWith(ref, "(") {
      NotCommentOpener(ref, "(");
    }
  }

  /** A Member opens only inside a GBP_DECLARE_TYPE, on a `(` that no declaration macro claims. */
  lemma MemberOnlyInDeclStruct(ref: string, current: Kind, noChildren: bool)
    ensures StartContext(ref, current, noChildren) == Member <==>
              current == DeclStruct && EndsWith(ref, "(") && DeclTrigger(ref) == None
  {
    if current == DeclStruct {
      DeclStructMember(ref, noChildren);
    }
  }

  /** In a Member, `(` opens the type when the Member has no child yet and a value otherwise. */
  lemma MemberOpens(ref: string, noChildren: bool)
    ensures StartContext(ref, Member, noChildren) == MemberType <==> EndsWith(ref, "(") && noChildren
    ensures StartContext(ref, Member, noChildren) == MemberValue <==> EndsWith(ref, "(") && !noChildren
    ensures !EndsWith(ref, "(") && !EndsWith(ref, "/*") && !EndsWith(ref, "//") ==>
              StartContext(ref, Member, noChildren) == None
  {
    if EndsWith(ref, "(") {
      NotCommentOpener(ref, "(");
    }
  }

  /** An EnumClass opens its underlying type on `,` only while it has no child. */
  lemma UnderlyingTypeRule(ref: string, current: Kind, noChildren: bool)
    ensures StartContext(ref, current, noChildren) == UnderlyingType <==>
              current == EnumClass && noChildren && EndsWith(ref, ",")
  {
    if EndsWith(ref, ",") {
      NotCommentOpener(ref, ",");
    }
  }

  /** `(` opens an item in either kind of enumeration, and code inside a member value. */
  lemma ParenRules(ref: string, current: Kind, noChildren: bool)
    ensures StartContext(ref, current, noChildren) == EnumItem <==>
              (current == Enum || current == EnumClass) && EndsWith(ref, "(")
    ensures StartContext(ref, current, noChildren) == ExtraCode <==>
              (current == MemberValue || current == ExtraCode) && EndsWith(ref, "(")
  {
    if EndsWith(ref, "(") {
      NotCommentOpener(ref, "(");
      EndsWithExclusive(ref, "(", ",");
    }
  }

  // ---------------------------------------------------------------------------
  // Locating the name of a new child (getNameForward). Every scan stops at the
  // end of the buffer; the source has no such check and would read past it.

  predicate IsLetter(c: char) {
    ('a' <= c <= 'z') || ('A' <= c <= 'Z')
  }

  predicate IsDigit(c: char) {
    '0' <= c <= '9'
  }

  predicate IsIdentStart(c: char) {
    IsLetter(c) || c == '_'
  }

  predicate IsIdentChar(c: char) {
    IsLetter(c) || IsDigit(c) || c == '_'
  }

  /** The characters of a type run: letters, digits and `_ : * & < >` and the blank. */
  predicate IsTypeChar(c: char) {
    IsLetter(c) || IsDigit(c) || c == '_' || c == ':' || c == ' ' || c == '*' || c == '&' || c == '<' || c == '>'
  }

  /** The kinds whose name is an identifier. */
  predicate NamedByIdentifier(kind: Kind) {
    kind == Struct || kind == DeclStruct || kind == Member || kind == Enum ||
    kind == EnumClass || kind == EnumItem || kind == Namespace
  }

  /** Where a name lies: its start may precede the buffer (see TypeNameShift). */
  datatype NameRef = NameRef(start: int, len: nat)

  function SkipNonIdent(s: string, i: nat): (j: nat)
    requires i <= |s|
    ensures i <= j <= |s|
    decreases |s| - i
  {
    if i < |s| && !IsIdentStart(s[i]) then SkipNonIdent(s, i + 1) else i
  }

  function IdentRunEnd(s: string, i: nat): (j: nat)
    requires i <= |s|
    ensures i <= j <= |s|
    decreases |s| - i
  {
    if i < |s| && IsIdentChar(s[i]) then IdentRunEnd(s, i + 1) else i
  }

  function SkipNewlines(s: string, i: nat): (j: nat)
    requires i <= |s|
    ensures i <= j <= |s|
    decreases |s| - i
  {
    if i < |s| && s[i] == '\n' then SkipNewlines(s, i + 1) else i
  }

  function TypeRunEnd(s: string, i: nat): (j: nat)
    requires i <= |s|
    ensures i <= j <= |s|
    decreases |s| - i
  {
    if i < |s| && IsTypeChar(s[i]) then TypeRunEnd(s, i + 1) else i
  }

  /**
   * The member-value scan as written: the counter starts at 1, goes up on `)` and
   * down on every other character, and the scan stops when it reaches 0.
   */
  function ValueScanEnd(s: string, i: nat, counter: nat): (j: nat)
    requires i <= |s|
    ensures i <= j <= |s|
    decreases |s| - i
  {
    if counter == 0 || i == |s| then i
    else ValueScanEnd(s, i + 1, if s[i] != ')' then counter - 1 else counter + 1)
  }

  /** The name of a new child of kind `kind`, looked for from absolute offset `e`. */
  function NameForward(s: string, e: nat, kind: Kind): NameRef
    requires e <= |s|
  {
    if NamedByIdentifier(kind) then
      var b := SkipNonIdent(s, e);
      var end := if b < |s| then IdentRunEnd(s, b + 1) else b;
      NameRef(b, end - b)
    else if kind == UnderlyingType || kind == MemberType then
      var b := SkipNewlines(s, e);
      NameRef(e + (e - b), TypeRunEnd(s, b) - b)
    else if kind == MemberValue then
      var b := SkipNewlines(s, e);
      NameRef(e + (e - b), ValueScanEnd(s, b, 1) - b)
    else NameRef(e, 0)
  }

  /** The character at an absolute offset; outside the buffer the model reads NUL. */
  function CharAt(s: string, i: int): char {
    if 0 <= i < |s| then s[i] else '\0'
  }

  /** The text of a name. */
  function NameText(s: string, r: NameRef): (t: string)
    ensures |t| == r.len
    ensures 0 <= r.start && r.start + r.len <= |s| ==> t == s[r.start..r.start + r.len]
  {
    var t := seq(r.len, k requires 0 <= k < r.len => CharAt(s, r.start + k));
    assert 0 <= r.start && r.start + r.len <= |s| ==> t == s[r.start..r.start + r.len] by {
      if 0 <= r.start && r.start + r.len <= |s| {
        var w := s[r.start..r.start + r.len];
        forall k | 0 <= k < r.len
          ensures t[k] == w[k]
        {
          assert w[k] == s[r.start + k];
        }
      }
    }
    t
  }

  /** getNameForward with its loops: proved to locate the name NameForward describes. */
  method ScanName(s: string, e: nat, kind: Kind) returns (r: NameRef)
    requires e <= |s|
    ensures r == NameForward(s, e, kind)
  {
    if NamedByIdentifier(kind) {
      r := ScanIdentifier(s, e);
    } else if kind == UnderlyingType || kind == MemberType {
      r := ScanType(s, e);
    } else if kind == MemberValue {
      r := ScanValue(s, e);
    } else {
      r := NameRef(e, 0);
    }
  }

  /** Skips to the first letter or `_`, then reads one run of letters, digits and `_`. */
  method ScanIdentifier(s: string, e: nat) returns (r: NameRef)
    requires e <= |s|
    ensures r == NameForward(s, e, Struct)
  {
    var it := e;
    while it < |s| && !IsIdentStart(s[it])
      invariant e <= it <= |s|
      invariant SkipNonIdent(s, it) == SkipNonIdent(s, e)
      decreases |s| - it
    {
      it := it + 1;
    }
    var begin := it;
    if it < |s| {
      it := it + 1;
      while it < |s| && IsIdentChar(s[it])
        invariant begin < it <= |s|
        invariant IdentRunEnd(s, it) == IdentRunEnd(s, begin + 1)
        decreases |s| - it
      {
        it := it + 1;
      }
    }
    r := NameRef(begin, it - begin);
  }

  /** Skips newlines, then reads one run of type characters. */
  method ScanType(s: string, e: nat) returns (r: NameRef)
    requires e <= |s|
    ensures r == NameForward(s, e, MemberType)
  {
    var it := e;
    while it < |s| && s[it] == '\n'
      invariant e <= it <= |s|
      invariant SkipNewlines(s, it) == SkipNewlines(s, e)
      decreases |s| - it
    {
      it := it + 1;
    }
    var begin := it;
    while it < |s| && IsTypeChar(s[it])
      invariant begin <= it <= |s|
      invariant TypeRunEnd(s, it) == TypeRunEnd(s, begin)
      decreases |s| - it
    {
      it := it + 1;
    }
    r := NameRef(e + (e - begin), it - begin);
  }

  /** Skips newlines, then runs the member-value counter loop as written. */
  method ScanValue(s: string, e: nat) returns (r: NameRef)
    requires e <= |s|
    ensures r == NameForward(s, e, MemberValue)
  {
    var it := e;
    while it < |s| && s[it] == '\n'
      invariant e <= it <= |s|
      invariant SkipNewlines(s, it) == SkipNewlines(s, e)
      decreases |s| - it
    {
      it := it + 1;
    }
    var begin := it;
    var counter := 1;
    while counter > 0 && it < |s|
      invariant begin <= it <= |s|
      invariant ValueScanEnd(s, it, counter) == ValueScanEnd(s, begin, 1)
      decreases |s| - it
    {
      if s[it] != ')' {
        counter := counter - 1;
      } else {
        counter := counter + 1;
      }
      it := it + 1;
    }
    r := NameRef(e + (e - begin), it - begin);
  }

  lemma {:induction false} SkipNonIdentSpec(s: string, i: nat)
    requires i <= |s|
    ensures forall j :: i <= j < SkipNonIdent(s, i) ==> !IsIdentStart(s[j])
    ensures SkipNonIdent(s, i) < |s| ==> IsIdentStart(s[SkipNonIdent(s, i)])
    decreases |s| - i
  {
    if i < |s| && !IsIdentStart(s[i]) {
      SkipNonIdentSpec(s, i + 1);
    }
  }

  lemma {:induction false} IdentRunEndSpec(s: string, i: nat)
    requires i <= |s|
    ensures forall j :: i <= j < IdentRunEnd(s, i) ==> IsIdentChar(s[j])
    ensures IdentRunEnd(s, i) < |s| ==> !IsIdentChar(s[IdentRunEnd(s, i)])
    decreases |s| - i
  {
    if i < |s| && IsIdentChar(s[i]) {
      IdentRunEndSpec(s, i + 1);
    }
  }

  /**
   * For the identifier kinds the name is the first identifier at or after `e`: the
   * characters skipped cannot start one, the name starts with a letter or `_`,
   * consists of letters, digits and `_`, and is not followed by another such
   * character. An empty name means the buffer ended first.
   */
  lemma IdentifierName(s: string, e: nat, kind: Kind)
    requires e <= |s| && NamedByIdentifier(kind)
    ensures var r := NameForward(s, e, kind);
      && e <= r.start && r.start + r.len <= |s|
      && (forall j :: e <= j < r.start ==> !IsIdentStart(s[j]))
      && (r.len == 0 <==> r.start == |s|)
      && (r.len > 0 ==> IsIdentStart(s[r.start]))
      && (forall j :: r.start <= j < r.start + r.len ==> IsIdentChar(s[j]))
      && (r.start + r.len < |s| ==> !IsIdentChar(s[r.start + r.len]))
      && NameText(s, r) == s[r.start..r.start + r.len]
  {
    var b := SkipNonIdent(s, e);
    SkipNonIdentSpec(s, e);
    if b < |s| {
      IdentRunEndSpec(s, b + 1);
    }
  }

  /** Kinds without a name get an empty one at the current end. */
  lemma UnnamedKinds(s: string, e: nat, kind: Kind)
    requires e <= |s|
    requires !NamedByIdentifier(kind) && kind != UnderlyingType && kind != MemberType && kind != MemberValue
    ensures NameForward(s, e, kind) == NameRef(e, 0) && NameText(s, NameForward(s, e, kind)) == ""
  {
  }

  lemma {:induction false} SkipNewlinesSpec(s: string, i: nat)
    requires i <= |s|
    ensures forall j :: i <= j < SkipNewlines(s, i) ==> s[j] == '\n'
    ensures SkipNewlines(s, i) < |s| ==> s[SkipNewlines(s, i)] != '\n'
    decreases |s| - i
  {
    if i < |s| && s[i] == '\n' {
      SkipNewlinesSpec(s, i + 1);
    }
  }

  lemma {:induction false} TypeRunEndSpec(s: string, i: nat)
    requires i <= |s|
    ensures forall j :: i <= j < TypeRunEnd(s, i) ==> IsTypeChar(s[j])
    ensures TypeRunEnd(s, i) < |s| ==> !IsTypeChar(s[TypeRunEnd(s, i)])
    decreases |s| - i
  {
    if i < |s| && IsTypeChar(s[i]) {
      TypeRunEndSpec(s, i + 1);
    }
  }

  /**
   * For MemberType and UnderlyingType the run of type characters begins after the
   * leading newlines, but the reported start is moved BACK from `e` by the number of
   * newlines skipped (start = end + (end - begin)); only without leading newlines is
   * the name text the type run itself.
   */
  lemma TypeNameShift(s: string, e: nat, kind: Kind)
    requires e <= |s| && (kind == MemberType || kind == UnderlyingType)
    ensures var r := NameForward(s, e, kind);
      var skipped := SkipNewlines(s, e) - e;
      && (forall j :: e <= j < e + skipped ==> s[j] == '\n')
      && (e + skipped < |s| ==> s[e + skipped] != '\n')
      && r.start == e - skipped
      && e + skipped + r.len <= |s|
      && (forall j :: e + skipped <= j < e + skipped + r.len ==> IsTypeChar(s[j]))
      && (e + skipped + r.len < |s| ==> !IsTypeChar(s[e + skipped + r.len]))
      && (skipped == 0 ==> NameText(s, r) == s[e..e + r.len])
  {
    SkipNewlinesSpec(s, e);
    TypeRunEndSpec(s, SkipNewlines(s, e));
  }

  /** How many characters of `t` are `)`, and how many are not. */
  function Closers(t: string): nat
    decreases |t|
  {
    if t == [] then 0 else Closers(t[..|t| - 1]) + (if t[|t| - 1] == ')' then 1 else 0)
  }

  /** The value scan's counter after reading `t`: 1, plus one per `)`, minus one per other character. */
  function ScanBalance(t: string): int {
    1 + Closers(t) - (|t| - Closers(t))
  }

  lemma ScanBalanceSnoc(t: string, c: char)
    ensures ScanBalance(t + [c]) == ScanBalance(t) + (if c == ')' then 1 else -1)
  {
    assert (t + [c])[..|t + [c]| - 1] == t;
  }

  lemma {:induction false} ValueScanEndSpec(s: string, b: nat, i: nat, counter: nat)
    requires b <= i <= |s| && counter as int == ScanBalance(s[b..i])
    requires forall j :: b <= j < i ==> ScanBalance(s[b..j]) > 0
    ensures var end := ValueScanEnd(s, i, counter);
      && (forall j :: b <= j < end ==> ScanBalance(s[b..j]) > 0)
      && (end < |s| ==> ScanBalance(s[b..end]) == 0)
    decreases |s| - i
  {
    if counter == 0 || i == |s| {
    } else {
      assert s[b..i + 1] == s[b..i] + [s[i]];
      ScanBalanceSnoc(s[b..i], s[i]);
      ValueScanEndSpec(s, b, i + 1, if s[i] != ')' then counter - 1 else counter + 1);
    }
  }

  /**
   * The member-value scan as written stops at the first point where the characters
   * read so far hold one more non-`)` character than `)` characters: on a value that
   * starts with anything but `)` it reads exactly one character, whatever the nesting.
   */
  lemma ValueScanInverted(s: string, e: nat)
    requires e <= |s|
    ensures var r := NameForward(s, e, MemberValue);
      var b := SkipNewlines(s, e);
      && b + r.len <= |s|
      && (forall j :: b <= j < b + r.len ==> ScanBalance(s[b..j]) > 0)
      && (b + r.len < |s| ==> ScanBalance(s[b..b + r.len]) == 0)
      && (b < |s| && s[b] != ')' ==> r.len == 1)
  {
    var b := SkipNewlines(s, e);
    assert s[b..b] == [];
    ValueScanEndSpec(s, b, b, 1);
  }
  /** How many `(` the text holds, minus how many `)`. */
  function Nesting(t: string): int
    decreases |t|
  {
    if t == [] then 0
    else Nesting(t[..|t| - 1]) + (if t[|t| - 1] == '(' then 1 else if t[|t| - 1] == ')' then -1 else 0)
  }

  /**
   * The member-value scan as evidently intended: starting one level inside the
   * value's `(`, one level deeper on `(`, one shallower on `)`, stopping when the
   * level reaches zero or the text ends.
   */
  function BalancedScanEnd(s: string, i: nat, depth: nat): (j: nat)
    requires i <= |s|
    ensures i <= j <= |s|
    decreases |s| - i
  {
    if depth == 0 || i == |s| then i
    else BalancedScanEnd(s, i + 1, if s[i] == '(' then depth + 1 else if s[i] == ')' then depth - 1 else depth)
  }

  lemma {:induction false} BalancedScanEndSpec(s: string, b: nat, i: nat, depth: nat)
    requires b <= i <= |s| && depth as int == 1 + Nesting(s[b..i])
    requires forall j :: b <= j < i ==> 1 + Nesting(s[b..j]) > 0
    ensures var end := BalancedScanEnd(s, i, depth);
      && (forall j :: b <= j < end ==> 1 + Nesting(s[b..j]) > 0)
      && (end == |s| || 1 + Nesting(s[b..end]) == 0)
      && 1 + Nesting(s[b..end]) >= 0
    decreases |s| - i
  {
    if depth != 0 && i != |s| {
      assert s[b..i + 1][..|s[b..i + 1]| - 1] == s[b..i];
      BalancedScanEndSpec(s, b, i + 1, if s[i] == '(' then depth + 1 else if s[i] == ')' then depth - 1 else depth);
    }
  }

  /**
   * The corrected value scan reads the whole value: every proper prefix of what it
   * reads is still inside the value's parentheses, and unless the text runs out it
   * stops just after the `)` that balances the opening one.
   */
  lemma BalancedValueScan(s: string, b: nat)
    requires b <= |s|
    ensures var end := BalancedScanEnd(s, b, 1);
      && (forall j :: b <= j < end ==> 1 + Nesting(s[b..j]) > 0)
      && (end == |s| || 1 + Nesting(s[b..end]) == 0)
      && (1 + Nesting(s[b..end]) == 0 ==> b < end && s[end - 1] == ')')
  {
    assert s[b..b] == [];
    BalancedScanEndSpec(s, b, b, 1);
    var end := BalancedScanEnd(s, b, 1);
    if 1 + Nesting(s[b..end]) == 0 {
      assert end != b;
      assert s[b..end][..|s[b..end]| - 1] == s[b..end - 1];
      assert 1 + Nesting(s[b..end - 1]) > 0;
    }
  }

  /**
   * The value `10)`: the scan as written reads one character, the corrected scan
   * reads the whole value up to and including its closing `)`.
   */
  lemma ValueScanStopsEarly()
    ensures NameForward("10)", 0, MemberValue).len == 1
    ensures BalancedScanEnd("10)", 0, 1) == 3
  {
    ValueScanInverted("10)", 0);
    assert SkipNewlines("10)", 0) == 0;
    assert BalancedScanEnd("10)", 2, 1) == 3;
  }

}
