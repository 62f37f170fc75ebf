/**
 * The kinds of context node (gbp::ContextType), the close test each kind applies to
 * its own content (isFinished) and the display name of each kind (typeString).
 */
module Kinds {
  import opened Text

  /**
   * Every kind the classifier can produce. DeclStruct (the context opened by
   * `GBP_DECLARE_TYPE(`) is used throughout the parser although the header's
   * enumeration does not list it; it is included here.
   */
  datatype Kind =
    | None
    | Comment
    | LineComment
    | Struct
    | DeclStruct
    | Member
    | MemberType
    | MemberValue
    | Enum
    | EnumClass
    | UnderlyingType
    | EnumItem
    | Namespace
    | Global
    | ExtraCode
    | Preproc
    | Typedef

  /**
   * The close test of a node of kind `kind` whose content so far is `content`.
   * Global's test is `endsWith("\0")`: as a C string that literal is empty, and
   * every content ends with the empty string.
   */
  predicate IsFinished(content: string, kind: Kind) {
    match kind
    case Comment => EndsWith(content, "*/")
    case LineComment | Preproc | Typedef => EndsWith(content, "\n")
    case UnderlyingType => EndsWith(content, ",")
    case Namespace => EndsWith(content, "}")
    case Global => EndsWith(content, "")
    case _ => EndsWith(content, ")")
  }

  /** How many characters of the close marker a finishing node drops from its length. */
  function TrimLength(kind: Kind): (n: nat)
    ensures n == 1 || n == 2
  {
    if kind == Comment then 2 else 1
  }

  /** The close tests, kind by kind. */
  lemma FinishTable(content: string)
    ensures IsFinished(content, Comment) <==> EndsWith(content, "*/")
    ensures IsFinished(content, LineComment) <==> EndsWith(content, "\n")
    ensures IsFinished(content, Preproc) <==> EndsWith(content, "\n")
    ensures IsFinished(content, Typedef) <==> EndsWith(content, "\n")
    ensures IsFinished(content, UnderlyingType) <==> EndsWith(content, ",")
    ensures IsFinished(content, Namespace) <==> EndsWith(content, "}")
    ensures forall k: Kind :: k in {Struct, DeclStruct, Member, MemberType, MemberValue, Enum, EnumClass, EnumItem, ExtraCode, None} ==>
              (IsFinished(content, k) <==> EndsWith(content, ")"))
  {
  }

  /** Global's close test holds of every content: only the missing parent keeps the root open. */
  lemma GlobalAlwaysFinished(content: string)
    ensures IsFinished(content, Global)
  {
  }

  /**
   * A finished non-root node's content ends with its marker, so it is at least as
   * long as the part that the close step trims, and its last character is the marker's.
   */
  lemma FinishedCoversTrim(content: string, kind: Kind)
    requires IsFinished(content, kind) && kind != Global
    ensures |content| >= TrimLength(kind)
    ensures kind == Comment ==> content[|content| - 2..] == "*/"
  {
  }

  /** The name shown for each kind; DeclStruct falls to the switch's default, the empty string. */
  function TypeString(kind: Kind): string {
    match kind
    case None => "None"
    case Comment => "Comment"
    case LineComment => "LineComment"
    case Struct => "Struct"
    case Member => "Member"
    case MemberType => "MemberType"
    case MemberValue => "MemberValue"
    case Enum => "Enum"
    case EnumClass => "EnumClass"
    case UnderlyingType => "UnderlyingType"
    case EnumItem => "EnumItem"
    case Namespace => "Namespace"
    case Global => "Global"
    case ExtraCode => "ExtraCode"
    case Preproc => "Preproc"
    case Typedef => "Typedef"
    case DeclStruct => ""
  }

  /**
   * Reads a kind back from its display name. The names differ in length or in one
   * of their first two characters, so those are all it looks at.
   */
  function KindOfName(s: string): Kind {
    var c0 := if |s| > 0 then s[0] else ' ';
    var c1 := if |s| > 1 then s[1] else ' ';
    match |s|
    case 4 => if c0 == 'N' then None else Enum
    case 6 => if c0 == 'S' then Struct else if c0 == 'M' then Member else Global
    case 7 => if c0 == 'C' then Comment else if c0 == 'P' then Preproc else Typedef
    case 8 => EnumItem
    case 9 => if c0 == 'N' then Namespace else if c1 == 'n' then EnumClass else ExtraCode
    case 10 => MemberType
    case 11 => if c0 == 'L' then LineComment else MemberValue
    case 14 => UnderlyingType
    case _ => DeclStruct
  }

  /** Every kind's display name identifies it. */
  lemma TypeStringRoundTrip(kind: Kind)
    ensures KindOfName(TypeString(kind)) == kind
  {
  }

  /** Distinct kinds have distinct display names. */
  lemma TypeStringInjective(a: Kind, b: Kind)
    ensures TypeString(a) == TypeString(b) ==> a == b
  {
    TypeStringRoundTrip(a);
    TypeStringRoundTrip(b);
  }
}
