/**
 * The context tree (gbp::Context) as an arena: node i's parent and children are
 * indices into one sequence, node 0 is the Global root, and a node's text is a
 * window onto the one shared source string, located by offsets relative to its
 * parent (Context::content).
 */
module Tree {
  import opened Kinds
  import W = Wrappers

  /**
   * One context: its fixed kind and name, its offset `pos` within its parent's
   * content and its length `len`, its parent link and its finished children in order.
   */
  datatype Node = Node(kind: Kind, name: string, pos: nat, len: nat, parent: W.Option<nat>, children: seq<nat>)

  /**
   * Node 0 is the parentless Global root; every other node has an earlier parent and
   * is not Global; every listed child is a later node whose parent link points back.
   */
  ghost predicate Linked(nodes: seq<Node>) {
    && |nodes| > 0
    && nodes[0].kind == Global && nodes[0].parent == W.None && nodes[0].pos == 0
    && (forall j {:trigger nodes[j].parent} :: 0 < j < |nodes| ==> nodes[j].parent.Some? && nodes[j].parent.value < j && nodes[j].kind != Global)
    && (forall j, m :: 0 <= j < |nodes| && 0 <= m < |nodes[j].children| ==>
          j < nodes[j].children[m] < |nodes| && nodes[nodes[j].children[m]].parent == W.Some(j))
  }

  /** Where a node's text ends, relative to its parent's text. */
  function End(nodes: seq<Node>, i: nat): nat
    requires i < |nodes|
  {
    nodes[i].pos + nodes[i].len
  }

  /** Every node's text lies inside its parent's text. */
  ghost predicate Nested(nodes: seq<Node>)
    requires Linked(nodes)
  {
    forall j :: 0 < j < |nodes| ==> End(nodes, j) <= nodes[nodes[j].parent.value].len
  }

  ghost predicate WellFormed(nodes: seq<Node>) {
    Linked(nodes) && Nested(nodes)
  }

  /** The absolute offset of a node's text in the source: the sum of the offsets up its parent chain. */
  function Start(nodes: seq<Node>, i: nat): nat
    requires Linked(nodes) && i < |nodes|
    decreases i
  {
    match nodes[i].parent
    case None => nodes[i].pos
    case Some(p) => Start(nodes, p) + nodes[i].pos
  }

  /** A node's text ends no later than the root's, since each lies inside its parent's. */
  lemma {:induction false} EndWithinRoot(nodes: seq<Node>, i: nat)
    requires WellFormed(nodes) && i < |nodes|
    ensures Start(nodes, i) + nodes[i].len <= nodes[0].len
    decreases i
  {
    if i > 0 {
      EndWithinRoot(nodes, nodes[i].parent.value);
    }
  }

  /** Two arenas that agree on every node's offset and parent place every node alike. */
  lemma {:induction false} StartAgrees(a: seq<Node>, b: seq<Node>, i: nat)
    requires Linked(a) && Linked(b) && i < |a| && |a| <= |b|
    requires forall j :: 0 <= j < |a| ==> a[j].pos == b[j].pos && a[j].parent == b[j].parent
    ensures Start(a, i) == Start(b, i)
    decreases i
  {
    if i > 0 {
      StartAgrees(a, b, a[i].parent.value);
    }
  }

  /**
   * The text of node `i`: a window of the shared source, never a copy. The window
   * lies inside the text fed so far, which is the root's.
   */
  function Content(src: string, nodes: seq<Node>, i: nat): (r: string)
    requires WellFormed(nodes) && nodes[0].len <= |src| && i < |nodes|
    ensures |r| == nodes[i].len
    ensures Start(nodes, i) + |r| <= nodes[0].len
    ensures r == src[Start(nodes, i)..Start(nodes, i) + nodes[i].len]
  {
    EndWithinRoot(nodes, i);
    src[Start(nodes, i)..Start(nodes, i) + nodes[i].len]
  }

  /** Dropping entries from children lists, and nothing else, keeps an arena well formed. */
  lemma FewerChildren(a: seq<Node>, b: seq<Node>)
    requires WellFormed(a) && |a| == |b|
    requires forall j :: 0 <= j < |a| ==>
      b[j].kind == a[j].kind && b[j].pos == a[j].pos && b[j].len == a[j].len && b[j].parent == a[j].parent
    requires forall j, m :: 0 <= j < |b| && 0 <= m < |b[j].children| ==> b[j].children[m] in a[j].children
    ensures WellFormed(b)
  {
    forall j, m | 0 <= j < |b| && 0 <= m < |b[j].children|
      ensures j < b[j].children[m] < |b| && b[b[j].children[m]].parent == W.Some(j)
    {
      var c := b[j].children[m];
      var m' :| 0 <= m' < |a[j].children| && a[j].children[m'] == c;
      assert j < c < |a| && a[c].parent == W.Some(j);
    }
    assert Linked(b);
    forall j | 0 < j < |b|
      ensures End(b, j) <= b[b[j].parent.value].len
    {
      assert End(a, j) <= a[a[j].parent.value].len;
    }
  }

  /** Appending a new childless node inside `parent`'s text and listing it last among parent's children keeps an arena well formed. */
  lemma AdoptNew(nodes: seq<Node>, parent: nat, n: Node)
    requires WellFormed(nodes) && parent < |nodes|
    requires n.parent == W.Some(parent) && n.kind != Global && n.children == [] && n.pos + n.len <= nodes[parent].len
    ensures WellFormed(nodes[parent := nodes[parent].(children := nodes[parent].children + [|nodes|])] + [n])
  {
    var b := nodes[parent := nodes[parent].(children := nodes[parent].children + [|nodes|])] + [n];
    forall j, m | 0 <= j < |b| && 0 <= m < |b[j].children|
      ensures j < b[j].children[m] < |b| && b[b[j].children[m]].parent == W.Some(j)
    {
      if j == parent && m == |nodes[parent].children| {
        assert b[j].children[m] == |nodes|;
      } else if j < |nodes| {
        assert b[j].children[m] == nodes[j].children[m];
      }
    }
    assert Linked(b);
    forall j | 0 < j < |b|
      ensures End(b, j) <= b[b[j].parent.value].len
    {
      if j < |nodes| {
        assert End(nodes, j) <= nodes[nodes[j].parent.value].len;
      }
    }
  }

  /** The kinds that are emitted as code of their own. */
  predicate ConvertibleKind(kind: Kind) {
    kind == Struct || kind == DeclStruct || kind == Member || kind == MemberType ||
    kind == MemberValue || kind == Enum || kind == EnumClass || kind == UnderlyingType ||
    kind == EnumItem || kind == Typedef || kind == Preproc
  }

  /**
   * hasConvertibleSymbols: a convertible kind, or (for None, the comments, Namespace,
   * Global and ExtraCode) some finished child that has convertible symbols.
   */
  predicate HasConvertible(nodes: seq<Node>, i: nat)
    requires Linked(nodes) && i < |nodes|
    decreases |nodes| - i
  {
    ConvertibleKind(nodes[i].kind) ||
    exists m :: 0 <= m < |nodes[i].children| && HasConvertible(nodes, nodes[i].children[m])
  }

  /** `path` descends from node `i` through finished children: each entry is listed among the previous one's children. */
  ghost predicate ChildPath(nodes: seq<Node>, i: nat, path: seq<nat>) {
    && |path| > 0 && path[0] == i
    && (forall k :: 0 <= k < |path| ==> path[k] < |nodes|)
    && (forall k :: 0 <= k < |path| - 1 ==> path[k + 1] in nodes[path[k]].children)
  }

  /** hasConvertibleSymbols holds exactly when some node reached through finished children, the node itself included, has a convertible kind. */
  lemma HasConvertibleIff(nodes: seq<Node>, i: nat)
    requires Linked(nodes) && i < |nodes|
    ensures HasConvertible(nodes, i) <==>
      exists path :: ChildPath(nodes, i, path) && ConvertibleKind(nodes[path[|path| - 1]].kind)
  {
    if HasConvertible(nodes, i) {
      var path := ConvertiblePath(nodes, i);
    }
    if exists path :: ChildPath(nodes, i, path) && ConvertibleKind(nodes[path[|path| - 1]].kind) {
      var path :| ChildPath(nodes, i, path) && ConvertibleKind(nodes[path[|path| - 1]].kind);
      PathConvertible(nodes, path);
    }
  }

  lemma {:induction false} ConvertiblePath(nodes: seq<Node>, i: nat) returns (path: seq<nat>)
    requires Linked(nodes) && i < |nodes| && HasConvertible(nodes, i)
    ensures ChildPath(nodes, i, path) && ConvertibleKind(nodes[path[|path| - 1]].kind)
    decreases |nodes| - i
  {
    if ConvertibleKind(nodes[i].kind) {
      path := [i];
    } else {
      var m :| 0 <= m < |nodes[i].children| && HasConvertible(nodes, nodes[i].children[m]);
      var c := nodes[i].children[m];
      var rest := ConvertiblePath(nodes, c);
      path := [i] + rest;
      assert path[|path| - 1] == rest[|rest| - 1];
      forall k | 0 <= k < |path|
        ensures path[k] < |nodes|
      {
        if k > 0 {
          assert path[k] == rest[k - 1];
        }
      }
      forall k | 0 <= k < |path| - 1
        ensures path[k + 1] in nodes[path[k]].children
      {
        if k > 0 {
          assert path[k] == rest[k - 1] && path[k + 1] == rest[k];
        } else {
          assert path[1] == c;
        }
      }
    }
  }

  lemma {:induction false} PathConvertible(nodes: seq<Node>, path: seq<nat>)
    requires Linked(nodes) && |path| > 0 && ChildPath(nodes, path[0], path)
    requires ConvertibleKind(nodes[path[|path| - 1]].kind)
    ensures HasConvertible(nodes, path[0])
    decreases |path|
  {
    if |path| > 1 {
      var rest := path[1..];
      assert ChildPath(nodes, rest[0], rest) by {
        forall k | 0 <= k < |rest| - 1
          ensures rest[k + 1] in nodes[rest[k]].children
        {
          assert rest[k] == path[k + 1] && rest[k + 1] == path[k + 2];
        }
      }
      PathConvertible(nodes, rest);
      var m :| 0 <= m < |nodes[path[0]].children| && nodes[path[0]].children[m] == path[1];
    }
  }

  /** hasConvertibleSymbols looks at finished children only: the same node with the same children answers the same. */
  lemma {:induction false} ConvertibleDependsOnSubtree(a: seq<Node>, b: seq<Node>, i: nat)
    requires Linked(a) && Linked(b) && i < |a| && |a| <= |b|
    requires forall j :: i <= j < |a| ==> a[j].kind == b[j].kind && a[j].children == b[j].children
    ensures HasConvertible(a, i) == HasConvertible(b, i)
    decreases |a| - i
  {
    forall m | 0 <= m < |a[i].children|
      ensures HasConvertible(a, a[i].children[m]) == HasConvertible(b, b[i].children[m])
    {
      ConvertibleDependsOnSubtree(a, b, a[i].children[m]);
    }
  }
}
