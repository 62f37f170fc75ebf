/**
 * The incremental builder: Context::forward feeds one more character of the shared
 * source to the root. Every node on the open-child chain grows by one, and only the
 * deepest open node classifies its own content: it opens a child, or it finishes,
 * is trimmed and is appended to its parent's children.
 */
module Builder {
  import opened Text
  import opened Kinds
  import opened Classifier
  import opened Tree
  import W = Wrappers

  /** The arena and the open chain: open[0] is the root and open[k + 1] is the current child of open[k]. */
  datatype State = State(nodes: seq<Node>, open: seq<nat>)

  /** The open chain starts at the root, follows parent links downwards and never revisits a node. */
  ghost predicate OpenChain(nodes: seq<Node>, open: seq<nat>) {
    && |open| > 0 && open[0] == 0
    && (forall k :: 0 <= k < |open| ==> open[k] < |nodes|)
    && (forall k :: 0 < k < |open| ==> nodes[open[k]].parent == W.Some(open[k - 1]))
    && (forall a, b :: 0 <= a < b < |open| ==> open[a] < open[b])
  }

  /** An open child's text reaches exactly to the end of its parent's text. */
  ghost predicate Tight(nodes: seq<Node>, open: seq<nat>)
    requires OpenChain(nodes, open)
  {
    forall k :: 0 < k < |open| ==> End(nodes, open[k]) == nodes[open[k - 1]].len
  }

  /** A finished child of an open node ends strictly before its parent's text does. */
  ghost predicate Slack(nodes: seq<Node>, open: seq<nat>)
    requires Linked(nodes)
  {
    forall j :: 0 < j < |nodes| && j !in open && nodes[j].parent.value in open ==>
      End(nodes, j) < nodes[nodes[j].parent.value].len
  }

  /** Every finished non-root node is listed among its parent's children. */
  ghost predicate Registered(nodes: seq<Node>, open: seq<nat>)
    requires Linked(nodes)
  {
    forall j :: 0 < j < |nodes| && j !in open ==> j in nodes[nodes[j].parent.value].children
  }

  /** The builder's invariant; the root has been fed no more characters than the source holds. */
  ghost predicate ValidState(src: string, st: State) {
    && WellFormed(st.nodes) && st.nodes[0].len <= |src|
    && OpenChain(st.nodes, st.open) && Tight(st.nodes, st.open)
    && Slack(st.nodes, st.open) && Registered(st.nodes, st.open)
  }

  /** The state a new GlobalContext starts in: the root alone, named "global", open and empty. */
  function Initial(): (st: State)
    ensures forall src :: ValidState(src, st)
    ensures |st.nodes| == 1 && st.nodes[0].kind == Global && st.nodes[0].name == "global"
    ensures st.nodes[0].len == 0 && st.nodes[0].children == [] && st.open == [0]
  {
    State([Node(Global, "global", 0, 0, W.None, [])], [0])
  }

  /** The deepest open node. */
  function Deepest(st: State): nat
    requires |st.open| > 0
  {
    st.open[|st.open| - 1]
  }

  /** Every node on the open chain one character longer, every other node as it was. */
  function Grow(nodes: seq<Node>, open: seq<nat>): (g: seq<Node>)
    ensures |g| == |nodes|
    ensures forall i :: 0 <= i < |nodes| && i in open ==> g[i] == nodes[i].(len := nodes[i].len + 1)
    ensures forall i :: 0 <= i < |nodes| && i !in open ==> g[i] == nodes[i]
  {
    seq(|nodes|, i requires 0 <= i < |nodes| => if i in open then nodes[i].(len := nodes[i].len + 1) else nodes[i])
  }

  /** The new Context(kind, name, parent): empty, placed at the end of the parent's text so far. */
  function NewContext(nodes: seq<Node>, kind: Kind, name: string, parent: nat): (n: Node)
    requires parent < |nodes|
    ensures n.kind == kind && n.name == name && n.parent == W.Some(parent)
    ensures n.len == 0 && n.pos == nodes[parent].len && n.children == []
  {
    Node(kind, name, nodes[parent].len, 0, W.Some(parent), [])
  }

  /** The deepest node gets a new current child. */
  function Push(g: seq<Node>, open: seq<nat>, kind: Kind, name: string): State
    requires |open| > 0 && open[|open| - 1] < |g|
  {
    State(g + [NewContext(g, kind, name, open[|open| - 1])], open + [|g|])
  }

  /**
   * The deepest node drops `trim` characters and its parent `p` resets its current
   * child: the node becomes the last of p's children and leaves the open chain.
   */
  function Pop(g: seq<Node>, open: seq<nat>, p: nat, trim: nat): State
    requires |open| > 0 && open[|open| - 1] < |g| && p < |g| && trim <= g[open[|open| - 1]].len
  {
    var d := open[|open| - 1];
    var trimmed := g[d := g[d].(len := g[d].len - trim)];
    State(trimmed[p := trimmed[p].(children := trimmed[p].children + [d])], open[..|open| - 1])
  }

  /** A parent of a node on the open chain is on the open chain. */
  lemma OpenParentOpen(src: string, st: State, j: nat)
    requires ValidState(src, st) && 0 < j < |st.nodes| && j in st.open
    ensures st.nodes[j].parent.value in st.open
  {
    var k :| 0 <= k < |st.open| && st.open[k] == j;
    assert k > 0;
    assert st.nodes[j].parent.value == st.open[k - 1];
  }

  /** The deepest open node has no open child. */
  lemma ChildOfDeepestClosed(src: string, st: State, j: nat)
    requires ValidState(src, st) && 0 < j < |st.nodes| && st.nodes[j].parent == W.Some(Deepest(st))
    ensures j !in st.open
  {
    var open := st.open;
    forall k | 0 <= k < |open|
      ensures open[k] != j
    {
      if k > 0 && k < |open| - 1 {
        assert open[k - 1] < open[|open| - 1];
      }
    }
  }

  /** Growing the chain keeps the arena linked and every node's absolute start. */
  lemma GrowLinked(nodes: seq<Node>, open: seq<nat>)
    requires Linked(nodes)
    ensures Linked(Grow(nodes, open))
    ensures forall i :: 0 <= i < |nodes| ==> Start(Grow(nodes, open), i) == Start(nodes, i)
  {
    var g := Grow(nodes, open);
    assert forall i :: 0 <= i < |nodes| ==>
      g[i].pos == nodes[i].pos && g[i].parent == nodes[i].parent && g[i].kind == nodes[i].kind && g[i].children == nodes[i].children;
    forall i | 0 <= i < |g|
      ensures Start(g, i) == Start(nodes, i)
    {
      StartAgrees(g, nodes, i);
    }
  }

  /** Growing the chain keeps every text inside its parent's and each open child flush with its parent. */
  lemma GrowNested(src: string, st: State)
    requires ValidState(src, st)
    ensures Linked(Grow(st.nodes, st.open))
    ensures Nested(Grow(st.nodes, st.open)) && Tight(Grow(st.nodes, st.open), st.open)
  {
    var g := Grow(st.nodes, st.open);
    GrowLinked(st.nodes, st.open);
    forall j | 0 < j < |g|
      ensures End(g, j) <= g[g[j].parent.value].len
    {
      if j in st.open {
        OpenParentOpen(src, st, j);
      }
    }
  }

  /** Growing the chain keeps finished children registered and leaves them further behind. */
  lemma GrowSlack(src: string, st: State)
    requires ValidState(src, st)
    ensures Linked(Grow(st.nodes, st.open))
    ensures Slack(Grow(st.nodes, st.open), st.open) && Registered(Grow(st.nodes, st.open), st.open)
    ensures var g := Grow(st.nodes, st.open);
      forall j :: 0 < j < |g| && g[j].parent == W.Some(Deepest(st)) ==> End(g, j) + 2 <= g[Deepest(st)].len
  {
    var g := Grow(st.nodes, st.open);
    GrowLinked(st.nodes, st.open);
    forall j | 0 < j < |g| && g[j].parent == W.Some(Deepest(st))
      ensures End(g, j) + 2 <= g[Deepest(st)].len
    {
      ChildOfDeepestClosed(src, st, j);
    }
  }

  /** The grown state is valid, with the root one character further into the source. */
  lemma GrowValid(src: string, st: State)
    requires ValidState(src, st) && st.nodes[0].len < |src|
    ensures ValidState(src, State(Grow(st.nodes, st.open), st.open))
    ensures Grow(st.nodes, st.open)[0].len == st.nodes[0].len + 1
    ensures var g := Grow(st.nodes, st.open);
      forall j :: 0 < j < |g| && g[j].parent == W.Some(Deepest(st)) ==> End(g, j) + 2 <= g[Deepest(st)].len
    ensures forall i :: 0 <= i < |st.nodes| ==> Start(Grow(st.nodes, st.open), i) == Start(st.nodes, i)
  {
    GrowLinked(st.nodes, st.open);
    GrowNested(src, st);
    GrowSlack(src, st);
  }

  /** Opening a child keeps the arena linked and places the child at the end of its parent's text. */
  lemma PushLinked(g: seq<Node>, open: seq<nat>, kind: Kind, name: string)
    requires Linked(g) && |open| > 0 && open[|open| - 1] < |g| && kind != Global
    ensures var g' := Push(g, open, kind, name).nodes;
      && Linked(g') && |g'| == |g| + 1
      && (forall i :: 0 <= i < |g| ==> g'[i] == g[i])
      && g'[|g|] == NewContext(g, kind, name, open[|open| - 1])
  {
  }

  lemma PushNested(g: seq<Node>, open: seq<nat>, kind: Kind, name: string)
    requires WellFormed(g) && |open| > 0 && open[|open| - 1] < |g| && kind != Global
    ensures WellFormed(Push(g, open, kind, name).nodes)
  {
    PushLinked(g, open, kind, name);
  }

  lemma PushChain(g: seq<Node>, open: seq<nat>, kind: Kind, name: string)
    requires Linked(g) && OpenChain(g, open) && Tight(g, open) && kind != Global
    ensures var r := Push(g, open, kind, name);
      OpenChain(r.nodes, r.open) && Tight(r.nodes, r.open)
  {
    PushLinked(g, open, kind, name);
    var r := Push(g, open, kind, name);
    var g', open' := r.nodes, r.open;
    assert OpenChain(g', open');
    forall k | 0 < k < |open'|
      ensures End(g', open'[k]) == g'[open'[k - 1]].len
    {
      if k < |open| {
        assert open'[k] == open[k] && open'[k - 1] == open[k - 1];
      }
    }
  }

  lemma PushSlack(g: seq<Node>, open: seq<nat>, kind: Kind, name: string)
    requires Linked(g) && OpenChain(g, open) && Slack(g, open) && Registered(g, open) && kind != Global
    ensures var r := Push(g, open, kind, name);
      Linked(r.nodes) && Slack(r.nodes, r.open) && Registered(r.nodes, r.open)
  {
    PushLinked(g, open, kind, name);
    var r := Push(g, open, kind, name);
    var g', open' := r.nodes, r.open;
    assert open' == open + [|g|];
    assert |g| in open' by {
      assert open'[|open|] == |g|;
    }
    forall j | 0 < j < |g'| && j !in open'
      ensures j < |g| && j !in open && g'[j] == g[j]
    {
    }
    forall j | 0 < j < |g'| && j !in open' && g'[j].parent.value in open'
      ensures End(g', j) < g'[g'[j].parent.value].len
    {
      var q := g[j].parent.value;
      assert q < j;
      assert q in open;
      assert End(g', j) == End(g, j) && g'[q] == g[q];
    }
    forall j | 0 < j < |g'| && j !in open'
      ensures j in g'[g'[j].parent.value].children
    {
      var q := g[j].parent.value;
      assert q < j && g'[q] == g[q];
    }
  }

  /** Opening a child keeps the invariant. */
  lemma PushValid(src: string, g: seq<Node>, open: seq<nat>, kind: Kind, name: string)
    requires ValidState(src, State(g, open)) && kind != Global
    ensures ValidState(src, Push(g, open, kind, name))
  {
    PushLinked(g, open, kind, name);
    PushNested(g, open, kind, name);
    PushChain(g, open, kind, name);
    PushSlack(g, open, kind, name);
  }

  /** What finishing the deepest node changes: its length, its parent's children and the chain. */
  lemma PopShape(g: seq<Node>, open: seq<nat>, p: nat, trim: nat)
    requires |open| > 1 && open[|open| - 1] < |g| && p < |g| && trim <= g[open[|open| - 1]].len
    requires forall a, b :: 0 <= a < b < |open| ==> open[a] < open[b]
    ensures var r := Pop(g, open, p, trim);
      var d := open[|open| - 1];
      && |r.nodes| == |g| && r.open == open[..|open| - 1] && d !in r.open
      && (forall i :: 0 <= i < |g| ==>
            r.nodes[i].pos == g[i].pos && r.nodes[i].parent == g[i].parent && r.nodes[i].kind == g[i].kind && r.nodes[i].name == g[i].name)
      && (forall i :: 0 <= i < |g| && i != d ==> r.nodes[i].len == g[i].len)
      && r.nodes[d].len == g[d].len - trim
      && (forall i :: 0 <= i < |g| && i != p ==> r.nodes[i].children == g[i].children)
      && r.nodes[p].children == g[p].children + [d]
  {
    var d := open[|open| - 1];
    forall k | 0 <= k < |open| - 1
      ensures open[k] != d
    {
      assert open[k] < open[|open| - 1];
    }
  }

  lemma PopLinked(g: seq<Node>, open: seq<nat>, p: nat, trim: nat)
    requires Linked(g) && |open| > 1 && open[|open| - 1] < |g| && trim <= g[open[|open| - 1]].len
    requires forall a, b :: 0 <= a < b < |open| ==> open[a] < open[b]
    requires g[open[|open| - 1]].parent == W.Some(p)
    ensures Linked(Pop(g, open, p, trim).nodes)
  {
    PopShape(g, open, p, trim);
    var d := open[|open| - 1];
    var g' := Pop(g, open, p, trim).nodes;
    forall j, m | 0 <= j < |g'| && 0 <= m < |g'[j].children|
      ensures j < g'[j].children[m] < |g'| && g'[g'[j].children[m]].parent == W.Some(j)
    {
      if j == p && m == |g[p].children| {
        assert g'[j].children[m] == d;
      } else {
        assert g'[j].children[m] == g[j].children[m];
      }
    }
  }

  lemma PopNested(src: string, g: seq<Node>, open: seq<nat>, p: nat, trim: nat)
    requires ValidState(src, State(g, open)) && |open| > 1
    requires var d := open[|open| - 1];
      && g[d].parent == W.Some(p) && 1 <= trim <= 2 && trim <= g[d].len
      && (forall j :: 0 < j < |g| && g[j].parent == W.Some(d) ==> End(g, j) + 2 <= g[d].len)
    ensures WellFormed(Pop(g, open, p, trim).nodes)
  {
    PopShape(g, open, p, trim);
    PopLinked(g, open, p, trim);
    var d := open[|open| - 1];
    assert p == open[|open| - 2];
    var g' := Pop(g, open, p, trim).nodes;
    forall j | 0 < j < |g'|
      ensures End(g', j) <= g'[g'[j].parent.value].len
    {
      assert g'[j].parent == g[j].parent;
      var q := g[j].parent.value;
      assert End(g, j) <= g[q].len;
      if j == d {
        assert p < d;
        assert End(g, d) == g[p].len;
        assert g'[p].len == g[p].len;
      } else if g[j].parent.value == d {
        assert End(g', j) == End(g, j);
      } else {
        assert End(g', j) == End(g, j);
        assert g'[g[j].parent.value].len == g[g[j].parent.value].len;
      }
    }
  }

  lemma PopChain(src: string, g: seq<Node>, open: seq<nat>, p: nat, trim: nat)
    requires ValidState(src, State(g, open)) && |open| > 1
    requires var d := open[|open| - 1];
      && g[d].parent == W.Some(p) && 1 <= trim <= 2 && trim <= g[d].len
    ensures var r := Pop(g, open, p, trim);
      Linked(r.nodes) && OpenChain(r.nodes, r.open) && Tight(r.nodes, r.open)
  {
    PopShape(g, open, p, trim);
    PopLinked(g, open, p, trim);
    var r := Pop(g, open, p, trim);
    var g', open' := r.nodes, r.open;
    assert OpenChain(g', open');
    forall k | 0 < k < |open'|
      ensures End(g', open'[k]) == g'[open'[k - 1]].len
    {
      assert open'[k] == open[k] && open'[k - 1] == open[k - 1];
    }
  }

  lemma PopSlack(src: string, g: seq<Node>, open: seq<nat>, p: nat, trim: nat)
    requires ValidState(src, State(g, open)) && |open| > 1
    requires var d := open[|open| - 1];
      && g[d].parent == W.Some(p) && 1 <= trim <= 2 && trim <= g[d].len
    ensures var r := Pop(g, open, p, trim);
      Linked(r.nodes) && Slack(r.nodes, r.open)
  {
    PopShape(g, open, p, trim);
    PopLinked(g, open, p, trim);
    var d := open[|open| - 1];
    assert p == open[|open| - 2];
    var r := Pop(g, open, p, trim);
    var g', open' := r.nodes, r.open;
    forall j | 0 < j < |g'| && j !in open' && g'[j].parent.value in open'
      ensures End(g', j) < g'[g'[j].parent.value].len
    {
      if j == d {
        assert End(g, d) == g[p].len;
      } else {
        assert j !in open;
      }
    }
  }

  lemma PopRegistered(src: string, g: seq<Node>, open: seq<nat>, p: nat, trim: nat)
    requires ValidState(src, State(g, open)) && |open| > 1
    requires var d := open[|open| - 1];
      && g[d].parent == W.Some(p) && 1 <= trim <= 2 && trim <= g[d].len
    ensures var r := Pop(g, open, p, trim);
      Linked(r.nodes) && Registered(r.nodes, r.open)
  {
    PopShape(g, open, p, trim);
    PopLinked(g, open, p, trim);
    var d := open[|open| - 1];
    var r := Pop(g, open, p, trim);
    var g', open' := r.nodes, r.open;
    forall j | 0 < j < |g'| && j !in open'
      ensures j in g'[g'[j].parent.value].children
    {
      if j == d {
        assert g'[p].children[|g[p].children|] == d;
      } else {
        assert j !in open;
        assert j in g[g[j].parent.value].children;
      }
    }
  }

  /** Finishing the deepest node keeps the invariant. */
  lemma PopValid(src: string, g: seq<Node>, open: seq<nat>, p: nat, trim: nat)
    requires ValidState(src, State(g, open)) && |open| > 1
    requires var d := open[|open| - 1];
      && g[d].parent == W.Some(p) && 1 <= trim <= 2 && trim <= g[d].len
      && (forall j :: 0 < j < |g| && g[j].parent == W.Some(d) ==> End(g, j) + 2 <= g[d].len)
    ensures ValidState(src, Pop(g, open, p, trim))
  {
    PopShape(g, open, p, trim);
    PopNested(src, g, open, p, trim);
    PopChain(src, g, open, p, trim);
    PopSlack(src, g, open, p, trim);
    PopRegistered(src, g, open, p, trim);
  }

  /** Where node `d`'s text ends in the source. */
  function TextEnd(g: seq<Node>, d: nat): (e: nat)
    requires WellFormed(g) && d < |g|
    ensures e <= g[0].len
  {
    EndWithinRoot(g, d);
    Start(g, d) + g[d].len
  }

  /** The name a new child of kind `kind` under node `d` gets: looked up from the end of d's text. */
  function ChildName(src: string, g: seq<Node>, d: nat, kind: Kind): string
    requires WellFormed(g) && d < |g| && g[0].len <= |src|
  {
    NameText(src, NameForward(src, TextEnd(g, d), kind))
  }

  /**
   * The deepest node `d` of a grown state classifies its own content: a child opens
   * (its name looked up beyond the fed text), or d finishes, drops its close marker
   * from its length and moves from the open chain to the end of its parent's
   * children. A parentless node never finishes. Either way the invariant holds after.
   */
  function Classify(src: string, g: seq<Node>, open: seq<nat>): (r: State)
    requires ValidState(src, State(g, open))
    requires var d := open[|open| - 1];
      forall j :: 0 < j < |g| && g[j].parent == W.Some(d) ==> End(g, j) + 2 <= g[d].len
    ensures ValidState(src, r)
    ensures r.nodes[0].len == g[0].len && |g| <= |r.nodes|
  {
    var d := open[|open| - 1];
    var text := Content(src, g, d);
    var kind := StartContext(text, g[d].kind, |g[d].children| == 0);
    if kind != None then
      var name := ChildName(src, g, d, kind);
      StartContextNeverGlobal(text, g[d].kind, |g[d].children| == 0);
      PushValid(src, g, open, kind, name);
      Push(g, open, kind, name)
    else if IsFinished(text, g[d].kind) && g[d].parent.Some? then
      FinishedCoversTrim(text, g[d].kind);
      PopValid(src, g, open, g[d].parent.value, TrimLength(g[d].kind));
      PopShape(g, open, g[d].parent.value, TrimLength(g[d].kind));
      Pop(g, open, g[d].parent.value, TrimLength(g[d].kind))
    else
      State(g, open)
  }

  /** When the deepest node's content starts a child, classifying opens it. */
  lemma ClassifyOpens(src: string, g: seq<Node>, open: seq<nat>)
    requires ValidState(src, State(g, open))
    requires var d := open[|open| - 1];
      forall j :: 0 < j < |g| && g[j].parent == W.Some(d) ==> End(g, j) + 2 <= g[d].len
    requires var d := open[|open| - 1];
      StartContext(Content(src, g, d), g[d].kind, |g[d].children| == 0) != None
    ensures var d := open[|open| - 1];
      var kind := StartContext(Content(src, g, d), g[d].kind, |g[d].children| == 0);
      Classify(src, g, open) == Push(g, open, kind, ChildName(src, g, d, kind))
  {
  }

  /** When the deepest node starts nothing, has a parent and passes its close test, classifying finishes it. */
  lemma ClassifyCloses(src: string, g: seq<Node>, open: seq<nat>)
    requires ValidState(src, State(g, open))
    requires var d := open[|open| - 1];
      forall j :: 0 < j < |g| && g[j].parent == W.Some(d) ==> End(g, j) + 2 <= g[d].len
    requires var d := open[|open| - 1];
      var text := Content(src, g, d);
      StartContext(text, g[d].kind, |g[d].children| == 0) == None && IsFinished(text, g[d].kind) && g[d].parent.Some?
    ensures var d := open[|open| - 1];
      && |open| > 1 && g[d].parent.value == open[|open| - 2] && TrimLength(g[d].kind) <= g[d].len
      && Classify(src, g, open) == Pop(g, open, open[|open| - 2], TrimLength(g[d].kind))
  {
    var d := open[|open| - 1];
    FinishedCoversTrim(Content(src, g, d), g[d].kind);
    assert |open| > 1;
  }

  /** Otherwise classifying changes nothing. */
  lemma ClassifyStays(src: string, g: seq<Node>, open: seq<nat>)
    requires ValidState(src, State(g, open))
    requires var d := open[|open| - 1];
      forall j :: 0 < j < |g| && g[j].parent == W.Some(d) ==> End(g, j) + 2 <= g[d].len
    requires var d := open[|open| - 1];
      var text := Content(src, g, d);
      StartContext(text, g[d].kind, |g[d].children| == 0) == None && !(IsFinished(text, g[d].kind) && g[d].parent.Some?)
    ensures Classify(src, g, open) == State(g, open)
  {
  }

  /** One call of forward() on the root, as a function of the state before it: the chain grows, then the deepest node classifies. */
  function Step(src: string, st: State): (r: State)
    requires ValidState(src, st) && st.nodes[0].len < |src|
    ensures ValidState(src, r)
    ensures r.nodes[0].len == st.nodes[0].len + 1 && |st.nodes| <= |r.nodes|
  {
    GrowValid(src, st);
    Classify(src, Grow(st.nodes, st.open), st.open)
  }

  /** The content the deepest node classifies in a step: its text after growing by one character. */
  function DeepText(src: string, st: State): (t: string)
    requires ValidState(src, st) && st.nodes[0].len < |src|
    ensures |t| == st.nodes[Deepest(st)].len + 1
  {
    GrowValid(src, st);
    Content(src, Grow(st.nodes, st.open), Deepest(st))
  }

  /** The kind of child the deepest node opens in a step, None when it opens none. */
  function OpenedKind(src: string, st: State): Kind
    requires ValidState(src, st) && st.nodes[0].len < |src|
  {
    var d := Deepest(st);
    StartContext(DeepText(src, st), st.nodes[d].kind, |st.nodes[d].children| == 0)
  }

  /** The deepest node finishes in a step: it opens nothing, its close test holds and it has a parent. */
  predicate Closes(src: string, st: State)
    requires ValidState(src, st) && st.nodes[0].len < |src|
  {
    var d := Deepest(st);
    OpenedKind(src, st) == None && IsFinished(DeepText(src, st), st.nodes[d].kind) && st.nodes[d].parent.Some?
  }

  /** The name a child opened in this step gets: looked up from the end of the deepest node's grown text. */
  function OpenedName(src: string, st: State): string
    requires ValidState(src, st) && st.nodes[0].len < |src|
  {
    GrowValid(src, st);
    ChildName(src, Grow(st.nodes, st.open), Deepest(st), OpenedKind(src, st))
  }

  lemma StepPushes(src: string, st: State)
    requires ValidState(src, st) && st.nodes[0].len < |src| && OpenedKind(src, st) != None
    ensures Step(src, st) == Push(Grow(st.nodes, st.open), st.open, OpenedKind(src, st), OpenedName(src, st))
  {
    GrowValid(src, st);
    var g := Grow(st.nodes, st.open);
    var d := Deepest(st);
    assert g[d] == st.nodes[d].(len := st.nodes[d].len + 1);
    assert OpenedKind(src, st) == StartContext(Content(src, g, d), g[d].kind, |g[d].children| == 0);
    ClassifyOpens(src, g, st.open);
  }

  lemma StepPops(src: string, st: State)
    requires ValidState(src, st) && st.nodes[0].len < |src| && Closes(src, st)
    ensures var d := Deepest(st);
      && |st.open| > 1 && st.nodes[d].parent.value == st.open[|st.open| - 2]
      && TrimLength(st.nodes[d].kind) <= st.nodes[d].len + 1
      && Step(src, st) == Pop(Grow(st.nodes, st.open), st.open, st.nodes[d].parent.value, TrimLength(st.nodes[d].kind))
  {
    GrowValid(src, st);
    var g := Grow(st.nodes, st.open);
    var d := Deepest(st);
    assert g[d] == st.nodes[d].(len := st.nodes[d].len + 1);
    ClassifyCloses(src, g, st.open);
  }

  lemma StepStays(src: string, st: State)
    requires ValidState(src, st) && st.nodes[0].len < |src| && OpenedKind(src, st) == None && !Closes(src, st)
    ensures Step(src, st) == State(Grow(st.nodes, st.open), st.open)
  {
    GrowValid(src, st);
    var g := Grow(st.nodes, st.open);
    var d := Deepest(st);
    assert g[d] == st.nodes[d].(len := st.nodes[d].len + 1);
    ClassifyStays(src, g, st.open);
  }

  /** The chain is a path of valid indices that strictly deepens. */
  ghost predicate Chain(nodes: seq<Node>, open: seq<nat>) {
    && |open| > 0
    && (forall k :: 0 <= k < |open| ==> open[k] < |nodes|)
    && (forall a, b :: 0 <= a < b < |open| ==> open[a] < open[b])
  }

  /**
   * What a step may change from `st` to `r`: every node keeps its kind, name, offset
   * and parent and only gains children at the end; at most one node is created;
   * every open node that has an open child grows by exactly one and stays on the
   * chain at the same depth; every finished node is left exactly as it was and
   * stays finished.
   */
  ghost predicate Framed(st: State, r: State) {
    && |st.nodes| <= |r.nodes| <= |st.nodes| + 1
    && (forall i :: 0 <= i < |st.nodes| ==>
          && r.nodes[i].kind == st.nodes[i].kind && r.nodes[i].name == st.nodes[i].name
          && r.nodes[i].pos == st.nodes[i].pos && r.nodes[i].parent == st.nodes[i].parent
          && st.nodes[i].children <= r.nodes[i].children)
    && |st.open| - 1 <= |r.open|
    && (forall k :: 0 <= k < |st.open| - 1 ==>
          && r.open[k] == st.open[k] && st.open[k] < |st.nodes|
          && r.nodes[st.open[k]].len == st.nodes[st.open[k]].len + 1)
    && (forall i :: 0 <= i < |st.nodes| && i !in st.open ==> r.nodes[i] == st.nodes[i] && i !in r.open)
  }

  lemma PushFramed(st: State, kind: Kind, name: string, r: State)
    requires Chain(st.nodes, st.open) && r == Push(Grow(st.nodes, st.open), st.open, kind, name)
    ensures Framed(st, r)
  {
    var g := Grow(st.nodes, st.open);
    assert forall i :: 0 <= i < |g| ==> r.nodes[i] == g[i];
    assert forall k :: 0 <= k < |st.open| ==> r.open[k] == st.open[k];
    forall i | 0 <= i < |st.nodes| && i !in st.open
      ensures i !in r.open
    {
      assert r.open == st.open + [|g|];
    }
  }

  lemma PopFramed(st: State, p: nat, trim: nat, r: State)
    requires Chain(st.nodes, st.open) && |st.open| > 1 && p == st.open[|st.open| - 2]
    requires trim <= st.nodes[st.open[|st.open| - 1]].len + 1
    requires r == Pop(Grow(st.nodes, st.open), st.open, p, trim)
    ensures Framed(st, r)
  {
    var g := Grow(st.nodes, st.open);
    var d := st.open[|st.open| - 1];
    PopShape(g, st.open, p, trim);
    forall i | 0 <= i < |st.nodes|
      ensures st.nodes[i].children <= r.nodes[i].children
    {
      assert g[i].children == st.nodes[i].children;
    }
    forall k | 0 <= k < |st.open| - 1
      ensures r.open[k] == st.open[k] && r.nodes[st.open[k]].len == st.nodes[st.open[k]].len + 1
    {
      assert st.open[k] < d;
      assert st.open[k] in st.open;
    }
    forall i | 0 <= i < |st.nodes| && i !in st.open
      ensures r.nodes[i] == st.nodes[i] && i !in r.open
    {
      assert i != p && i != d;
    }
  }

  lemma StayFramed(st: State, r: State)
    requires Chain(st.nodes, st.open) && r == State(Grow(st.nodes, st.open), st.open)
    ensures Framed(st, r)
  {
  }

  /**
   * forward() changes nothing but the chain's lengths, the deepest node's length,
   * children and place on the chain, and the node it creates: see Framed.
   */
  lemma StepFrame(src: string, st: State)
    requires ValidState(src, st) && st.nodes[0].len < |src|
    ensures Framed(st, Step(src, st))
  {
    assert Chain(st.nodes, st.open);
    if OpenedKind(src, st) != None {
      StepPushes(src, st);
      PushFramed(st, OpenedKind(src, st), OpenedName(src, st), Step(src, st));
    } else if Closes(src, st) {
      StepPops(src, st);
      var d := Deepest(st);
      PopFramed(st, st.nodes[d].parent.value, TrimLength(st.nodes[d].kind), Step(src, st));
    } else {
      StepStays(src, st);
      StayFramed(st, Step(src, st));
    }
  }

  /** A child opens: a new empty node at the end of the deepest node's grown text becomes the deepest open node. */
  lemma StepOpens(src: string, st: State)
    requires ValidState(src, st) && st.nodes[0].len < |src| && OpenedKind(src, st) != None
    ensures var r := Step(src, st);
      var d := Deepest(st);
      && |r.nodes| == |st.nodes| + 1 && r.open == st.open + [|st.nodes|]
      && r.nodes[|st.nodes|] == Node(OpenedKind(src, st), OpenedName(src, st), st.nodes[d].len + 1, 0, W.Some(d), [])
  {
    StepPushes(src, st);
  }

  /**
   * The deepest node finishes: it drops its close marker (two characters for a
   * comment, one otherwise) after growing, becomes the last of its parent's
   * children, and its parent becomes the deepest open node.
   */
  lemma StepCloses(src: string, st: State)
    requires ValidState(src, st) && st.nodes[0].len < |src| && Closes(src, st)
    ensures var r := Step(src, st);
      var d := Deepest(st);
      var p := st.nodes[d].parent.value;
      && |r.nodes| == |st.nodes| && r.open == st.open[..|st.open| - 1]
      && r.nodes[p].children == st.nodes[p].children + [d]
      && r.nodes[d].len == st.nodes[d].len + 1 - TrimLength(st.nodes[d].kind)
  {
    StepPops(src, st);
    var g := Grow(st.nodes, st.open);
    var d := Deepest(st);
    var p := st.nodes[d].parent.value;
    PopShape(g, st.open, p, TrimLength(st.nodes[d].kind));
    assert p in st.open;
  }

  /** Neither: the chain only grows. */
  lemma StepNeither(src: string, st: State)
    requires ValidState(src, st) && st.nodes[0].len < |src| && OpenedKind(src, st) == None && !Closes(src, st)
    ensures var r := Step(src, st);
      r.open == st.open && |r.nodes| == |st.nodes| && r.nodes[Deepest(st)].len == st.nodes[Deepest(st)].len + 1
  {
    StepStays(src, st);
  }

  /** A node is created exactly when a child opens; the chain shortens exactly when the deepest node finishes. */
  lemma StepOutcome(src: string, st: State)
    requires ValidState(src, st) && st.nodes[0].len < |src|
    ensures |Step(src, st).nodes| == |st.nodes| + 1 <==> OpenedKind(src, st) != None
    ensures |Step(src, st).open| < |st.open| <==> Closes(src, st)
  {
    if OpenedKind(src, st) != None {
      StepOpens(src, st);
    } else if Closes(src, st) {
      StepCloses(src, st);
    } else {
      StepNeither(src, st);
    }
  }

  /** A finished node's text never changes again: it is the same window of the source after a step. */
  lemma StepKeepsFinishedContent(src: string, st: State, i: nat)
    requires ValidState(src, st) && st.nodes[0].len < |src| && i < |st.nodes| && i !in st.open
    ensures var r := Step(src, st); Content(src, r.nodes, i) == Content(src, st.nodes, i)
  {
    var r := Step(src, st);
    StepFrame(src, st);
    assert Linked(st.nodes) && Linked(r.nodes);
    StartAgrees(st.nodes, r.nodes, i);
    assert r.nodes[i].len == st.nodes[i].len;
  }

  /** `n` calls of forward(). */
  function Run(src: string, st: State, n: nat): (r: State)
    requires ValidState(src, st) && st.nodes[0].len + n <= |src|
    ensures ValidState(src, r)
    ensures r.nodes[0].len == st.nodes[0].len + n
    decreases n
  {
    if n == 0 then st else Run(src, Step(src, st), n - 1)
  }

  lemma RunUnfold(src: string, st: State, n: nat)
    requires ValidState(src, st) && st.nodes[0].len + n <= |src| && n > 0
    ensures Run(src, st, n) == Run(src, Step(src, st), n - 1)
  {
  }

  /**
   * The feed loop's invariant after `read` characters have been read: the root holds
   * all but the last of them, and feeding the rest reaches the parse's final state.
   */
  ghost predicate FedSoFar(src: string, st: State, read: nat) {
    && 1 <= read <= |src| && ValidState(src, st) && st.nodes[0].len == read - 1
    && Run(src, st, |src| - read) == Run(src, Initial(), FeedCount(|src|))
  }

  lemma FeedStart(src: string)
    requires |src| > 0
    ensures FedSoFar(src, Initial(), 1)
  {
  }

  lemma FeedStep(src: string, st: State, read: nat)
    requires FedSoFar(src, st, read) && read < |src|
    ensures st.nodes[0].len < |src| && FedSoFar(src, Step(src, st), read + 1)
  {
    RunUnfold(src, st, |src| - read);
  }

  lemma FeedDone(src: string, st: State)
    requires FedSoFar(src, st, |src|)
    ensures st == Run(src, Initial(), FeedCount(|src|))
  {
  }

  /** A finished node is left exactly as it was by a step, and stays finished. */
  lemma StepKeepsFinished(src: string, st: State, i: nat)
    requires ValidState(src, st) && st.nodes[0].len < |src| && i < |st.nodes| && i !in st.open
    ensures var r := Step(src, st);
      i < |r.nodes| && r.nodes[i] == st.nodes[i] && i !in r.open
  {
    StepFrame(src, st);
  }

  /** Once finished, a node stays finished and unchanged however many characters follow. */
  lemma {:induction false} RunKeepsFinished(src: string, st: State, n: nat, i: nat)
    requires ValidState(src, st) && st.nodes[0].len + n <= |src| && i < |st.nodes| && i !in st.open
    ensures var r := Run(src, st, n);
      i < |r.nodes| && r.nodes[i] == st.nodes[i] && i !in r.open
    decreases n
  {
    if n > 0 {
      StepKeepsFinished(src, st, i);
      RunUnfold(src, st, n);
      RunKeepsFinished(src, Step(src, st), n - 1, i);
    }
  }

  /** How many times the feed loop calls forward() on an n-character buffer: once per character after the first. */
  function FeedCount(n: nat): (c: nat)
    ensures c <= n
    ensures n > 0 ==> c == n - 1
    ensures n == 0 ==> c == 0
  {
    if n == 0 then 0 else n - 1
  }

  /**
   * Parsing a buffer leaves the root holding all of it but the last character: the
   * loop reads one character ahead and stops once the stream is exhausted.
   */
  lemma ParseContent(src: string)
    ensures var r := Run(src, Initial(), FeedCount(|src|));
      Content(src, r.nodes, 0) == src[..FeedCount(|src|)]
    ensures |src| > 0 ==> |Content(src, Run(src, Initial(), FeedCount(|src|)).nodes, 0)| == |src| - 1
  {
    var r := Run(src, Initial(), FeedCount(|src|));
    assert Start(r.nodes, 0) == 0;
  }

  /**
   * Where a parse can place the kinds the generator nests: a Struct directly in the
   * global scope or in a namespace, a Member directly in a GBP_DECLARE_TYPE.
   */
  ghost predicate Scoped(nodes: seq<Node>)
    requires Linked(nodes)
  {
    forall j :: 0 < j < |nodes| ==>
      && (nodes[j].kind == Struct ==> nodes[nodes[j].parent.value].kind == Global || nodes[nodes[j].parent.value].kind == Namespace)
      && (nodes[j].kind == Member ==> nodes[nodes[j].parent.value].kind == DeclStruct)
  }

  /** Scoping survives keeping every node's kind and parent and appending at most one node that is itself well placed. */
  lemma ScopedExtend(a: seq<Node>, b: seq<Node>)
    requires Linked(a) && Linked(b) && Scoped(a) && |a| <= |b| <= |a| + 1
    requires forall j :: 0 <= j < |a| ==> b[j].kind == a[j].kind && b[j].parent == a[j].parent
    requires |b| == |a| + 1 ==>
      && (b[|a|].kind == Struct ==> b[b[|a|].parent.value].kind == Global || b[b[|a|].parent.value].kind == Namespace)
      && (b[|a|].kind == Member ==> b[b[|a|].parent.value].kind == DeclStruct)
    ensures Scoped(b)
  {
    forall j | 0 < j < |a|
      ensures b[b[j].parent.value].kind == a[a[j].parent.value].kind
    {
      assert a[j].parent.value < j;
    }
  }

  /** A step keeps every Struct at scope level and every Member in a GBP_DECLARE_TYPE. */
  lemma StepScoped(src: string, st: State)
    requires ValidState(src, st) && st.nodes[0].len < |src| && Scoped(st.nodes)
    ensures Scoped(Step(src, st).nodes)
  {
    var r := Step(src, st);
    StepFrame(src, st);
    StepOutcome(src, st);
    if OpenedKind(src, st) != None {
      var d := Deepest(st);
      StepOpens(src, st);
      StructOnlyAtScope(DeepText(src, st), st.nodes[d].kind, |st.nodes[d].children| == 0);
      MemberOnlyInDeclStruct(DeepText(src, st), st.nodes[d].kind, |st.nodes[d].children| == 0);
    }
    ScopedExtend(st.nodes, r.nodes);
  }

  /** However many characters are fed, Structs stay at scope level and Members in a GBP_DECLARE_TYPE. */
  lemma {:induction false} RunScoped(src: string, st: State, n: nat)
    requires ValidState(src, st) && st.nodes[0].len + n <= |src| && Scoped(st.nodes)
    ensures Scoped(Run(src, st, n).nodes)
    decreases n
  {
    if n > 0 {
      var next := Step(src, st);
      StepScoped(src, st);
      RunScoped(src, next, n - 1);
      RunUnfold(src, st, n);
    }
  }

  /** A parsed tree has no Struct nested in a Struct and no Member outside a GBP_DECLARE_TYPE. */
  lemma ParseScoped(src: string)
    ensures Scoped(Run(src, Initial(), FeedCount(|src|)).nodes)
  {
    RunScoped(src, Initial(), FeedCount(|src|));
  }

  /**
   * The context tree under construction: the shared source, the arena of nodes and
   * the chain of current children from the root down.
   */
  class ContextTree {
    const source: string
    var nodes: seq<Node>
    var open: seq<nat>

    ghost predicate Valid()
      reads this
    {
      ValidState(source, State(nodes, open))
    }

    /** A new GlobalContext over `source`: the root alone, nothing fed yet. */
    constructor (source: string)
      ensures this.source == source && State(nodes, open) == Initial()
      ensures Valid()
    {
      this.source := source;
      nodes := [Node(Global, "global", 0, 0, W.None, [])];
      open := [0];
    }

    /**
     * Feeds one more character: every context on the chain of current children
     * grows by one, then the deepest one classifies its content.
     */
    method Forward()
      requires Valid() && nodes[0].len < |source|
      modifies this
      ensures State(nodes, open) == Step(source, old(State(nodes, open)))
      ensures Valid()
    {
      ghost var st := State(nodes, open);
      GrowChain();
      GrowValid(source, st);
      OnLengthIncreased();
    }

    /**
     * The deepest context, just grown, opens a child, or finishes (drops its close
     * marker and is filed with its parent), or does neither.
     */
    method OnLengthIncreased()
      requires ValidState(source, State(nodes, open))
      requires var d := open[|open| - 1];
        forall j :: 0 < j < |nodes| && nodes[j].parent == W.Some(d) ==> End(nodes, j) + 2 <= nodes[d].len
      modifies this
      ensures State(nodes, open) == Classify(source, old(nodes), old(open))
    {
      var d := open[|open| - 1];
      var text := Content(source, nodes, d);
      var kind := StartContext(text, nodes[d].kind, |nodes[d].children| == 0);
      if kind != None {
        OpenChild(kind);
      } else {
        CloseDeepest();
      }
    }

    /** The branch of onLengthIncreased that opens a child of kind `kind` under the deepest context. */
    method OpenChild(kind: Kind)
      requires ValidState(source, State(nodes, open))
      requires var d := open[|open| - 1];
        forall j :: 0 < j < |nodes| && nodes[j].parent == W.Some(d) ==> End(nodes, j) + 2 <= nodes[d].len
      requires var d := open[|open| - 1];
        kind == StartContext(Content(source, nodes, d), nodes[d].kind, |nodes[d].children| == 0) && kind != None
      modifies this
      ensures State(nodes, open) == Classify(source, old(nodes), old(open))
    {
      var d := open[|open| - 1];
      var name := NewChildName(d, kind);
      ClassifyOpens(source, nodes, open);
      SetCurrentChildContext(kind, name);
    }

    /**
     * The branch of onLengthIncreased where no child opens: the deepest context
     * finishes if it has a parent and passes its close test, and otherwise stays.
     */
    method CloseDeepest()
      requires ValidState(source, State(nodes, open))
      requires var d := open[|open| - 1];
        forall j :: 0 < j < |nodes| && nodes[j].parent == W.Some(d) ==> End(nodes, j) + 2 <= nodes[d].len
      requires var d := open[|open| - 1];
        StartContext(Content(source, nodes, d), nodes[d].kind, |nodes[d].children| == 0) == None
      modifies this
      ensures State(nodes, open) == Classify(source, old(nodes), old(open))
    {
      var d := open[|open| - 1];
      var text := Content(source, nodes, d);
      if IsFinished(text, nodes[d].kind) && nodes[d].parent.Some? {
        FinishDeepest();
      } else {
        ClassifyStays(source, nodes, open);
      }
    }

    /** The deepest context passed its close test: it finishes and its parent becomes the deepest. */
    method FinishDeepest()
      requires ValidState(source, State(nodes, open))
      requires var d := open[|open| - 1];
        forall j :: 0 < j < |nodes| && nodes[j].parent == W.Some(d) ==> End(nodes, j) + 2 <= nodes[d].len
      requires var d := open[|open| - 1];
        var text := Content(source, nodes, d);
        StartContext(text, nodes[d].kind, |nodes[d].children| == 0) == None && IsFinished(text, nodes[d].kind) && nodes[d].parent.Some?
      modifies this
      ensures State(nodes, open) == Classify(source, old(nodes), old(open))
    {
      ClassifyCloses(source, nodes, open);
      Finish();
    }

    /** getNameForward from the end of context `d`'s text: the name a new child of kind `kind` gets. */
    method NewChildName(d: nat, kind: Kind) returns (name: string)
      requires WellFormed(nodes) && d < |nodes| && nodes[0].len <= |source|
      ensures name == ChildName(source, nodes, d, kind)
    {
      var r := ScanName(source, TextEnd(nodes, d), kind);
      name := NameText(source, r);
    }

    /** The deepest context gets a new empty current child of kind `kind` named `name`. */
    method SetCurrentChildContext(kind: Kind, name: string)
      requires |open| > 0 && open[|open| - 1] < |nodes|
      modifies this
      ensures State(nodes, open) == Push(old(nodes), old(open), kind, name)
    {
      var d := open[|open| - 1];
      nodes := nodes + [NewContext(nodes, kind, name, d)];
      open := open + [|nodes| - 1];
    }

    /** The deepest context drops its close marker (m_len--, once more for a comment) and its parent resets its current child. */
    method Finish()
      requires |open| > 1 && (forall i :: 0 <= i < |open| ==> open[i] < |nodes|)
      requires TrimLength(nodes[open[|open| - 1]].kind) <= nodes[open[|open| - 1]].len
      modifies this
      ensures State(nodes, open) == Pop(old(nodes), old(open), old(open)[|old(open)| - 2], TrimLength(old(nodes)[old(open)[|old(open)| - 1]].kind))
    {
      var d := open[|open| - 1];
      nodes := nodes[d := nodes[d].(len := nodes[d].len - 1)];
      if nodes[d].kind == Comment {
        nodes := nodes[d := nodes[d].(len := nodes[d].len - 1)];
      }
      ResetCurrentChildContext(|open| - 2);
    }

    /** m_len++ on each context from the root down the chain of current children. */
    method GrowChain()
      requires Chain(nodes, open)
      modifies this
      ensures nodes == Grow(old(nodes), old(open)) && open == old(open)
    {
      var k := 0;
      while k < |open|
        invariant 0 <= k <= |open| && open == old(open)
        invariant nodes == Grow(old(nodes), open[..k])
      {
        GrowOneMore(old(nodes), open, k);
        nodes := nodes[open[k] := nodes[open[k]].(len := nodes[open[k]].len + 1)];
        k := k + 1;
      }
      assert open[..|open|] == open;
    }

    /** The context at depth `k` of the chain files its current child, if it has one, as its last child. */
    method ResetCurrentChildContext(k: nat)
      requires k < |open| && forall i :: 0 <= i < |open| ==> open[i] < |nodes|
      modifies this
      ensures k + 1 < |old(open)| ==>
        && nodes == old(nodes)[old(open)[k] := old(nodes)[old(open)[k]].(children := old(nodes)[old(open)[k]].children + [old(open)[k + 1]])]
        && open == old(open)[..k + 1]
      ensures k + 1 >= |old(open)| ==> nodes == old(nodes) && open == old(open)
    {
      if k + 1 < |open| {
        var parent := open[k];
        nodes := nodes[parent := nodes[parent].(children := nodes[parent].children + [open[k + 1]])];
        open := open[..k + 1];
      }
    }

    /** createChild followed by addChild: a new empty child at the end of `parent`'s text, appended to its children. */
    method AddChild(parent: nat, kind: Kind, name: string) returns (child: nat)
      requires WellFormed(nodes) && parent < |nodes| && kind != Global
      modifies this
      ensures WellFormed(nodes)
      ensures child == |old(nodes)|
      ensures nodes == old(nodes)[parent := old(nodes)[parent].(children := old(nodes)[parent].children + [child])]
                       + [NewContext(old(nodes), kind, name, parent)]
      ensures open == old(open)
    {
      child := |nodes|;
      var created := NewContext(nodes, kind, name, parent);
      AdoptNew(nodes, parent, created);
      nodes := nodes[parent := nodes[parent].(children := nodes[parent].children + [child])] + [created];
    }

    /** Erases the first occurrence of `child` from `parent`'s children; reports whether there was one. */
    method RemoveChild(parent: nat, child: nat) returns (found: bool)
      requires WellFormed(nodes) && parent < |nodes|
      modifies this
      ensures WellFormed(nodes)
      ensures found <==> child in old(nodes)[parent].children
      ensures nodes == old(nodes)[parent := old(nodes)[parent].(children := RemoveFirst(old(nodes)[parent].children, child))]
      ensures open == old(open)
    {
      var cs := nodes[parent].children;
      var i := 0;
      while i < |cs|
        invariant 0 <= i <= |cs|
        invariant child !in cs[..i]
        invariant nodes == old(nodes) && open == old(open)
      {
        if cs[i] == child {
          RemoveFirstAt(cs, child, i);
          DropOneChild(nodes, parent, i);
          nodes := nodes[parent := nodes[parent].(children := cs[..i] + cs[i + 1..])];
          return true;
        }
        assert cs[..i + 1] == cs[..i] + [cs[i]];
        i := i + 1;
      }
      assert cs[..i] == cs;
      RemoveFirstAbsent(cs, child);
      return false;
    }

    /**
     * The parser's feed loop: one character is read ahead, and forward() is called
     * for each further character read, so the last character is never fed.
     */
    static method Parse(source: string) returns (t: ContextTree)
      ensures t.source == source && t.Valid()
      ensures State(t.nodes, t.open) == Run(source, Initial(), FeedCount(|source|))
    {
      t := new ContextTree(source);
      if |source| == 0 {
        return;
      }
      var read := 1;
      FeedStart(source);
      while read < |source|
        invariant t.source == source && FedSoFar(source, State(t.nodes, t.open), read)
        modifies t
      {
        FeedStep(source, State(t.nodes, t.open), read);
        t.Forward();
        read := read + 1;
      }
      FeedDone(source, State(t.nodes, t.open));
    }
  }

  /** Growing one more chain node: its length rises by one, the rest of the prefix is as it was. */
  lemma GrowOneMore(nodes: seq<Node>, open: seq<nat>, k: nat)
    requires k < |open| && (forall i :: 0 <= i < |open| ==> open[i] < |nodes|)
    requires forall a, b :: 0 <= a < b < |open| ==> open[a] < open[b]
    ensures var g := Grow(nodes, open[..k]);
      Grow(nodes, open[..k + 1]) == g[open[k] := g[open[k]].(len := g[open[k]].len + 1)]
  {
    var g := Grow(nodes, open[..k]);
    var h := Grow(nodes, open[..k + 1]);
    var e := g[open[k] := g[open[k]].(len := g[open[k]].len + 1)];
    PrefixTop(open, k);
    forall i | 0 <= i < |nodes| && i != open[k]
      ensures h[i] == e[i]
    {
      PrefixOther(open, k, i);
    }
    assert h == e;
  }

  /** A strictly increasing chain holds its k-th entry in its first k + 1 entries and not in its first k. */
  lemma PrefixTop(open: seq<nat>, k: nat)
    requires k < |open|
    requires forall a, b :: 0 <= a < b < |open| ==> open[a] < open[b]
    ensures open[k] in open[..k + 1] && open[k] !in open[..k]
  {
    assert open[..k + 1][k] == open[k];
    forall a | 0 <= a < k
      ensures open[..k][a] != open[k]
    {
      assert open[a] < open[k];
    }
  }

  /** Every other value is in the first k + 1 entries exactly when it is in the first k. */
  lemma PrefixOther(open: seq<nat>, k: nat, i: nat)
    requires k < |open| && i != open[k]
    ensures (i in open[..k + 1]) == (i in open[..k])
  {
    if i in open[..k + 1] {
      var a :| 0 <= a < k + 1 && open[..k + 1][a] == i;
      assert open[..k][a] == i;
    }
    if i in open[..k] {
      var a :| 0 <= a < k && open[..k][a] == i;
      assert open[..k + 1][a] == i;
    }
  }

  /** Erasing one entry of a children list keeps an arena well formed. */
  lemma DropOneChild(nodes: seq<Node>, parent: nat, i: nat)
    requires WellFormed(nodes) && parent < |nodes| && i < |nodes[parent].children|
    ensures var cs := nodes[parent].children;
      WellFormed(nodes[parent := nodes[parent].(children := cs[..i] + cs[i + 1..])])
  {
    var cs := nodes[parent].children;
    var b := nodes[parent := nodes[parent].(children := cs[..i] + cs[i + 1..])];
    forall j, m | 0 <= j < |b| && 0 <= m < |b[j].children|
      ensures b[j].children[m] in nodes[j].children
    {
      if j == parent {
        if m < i {
          assert b[j].children[m] == cs[m];
        } else {
          assert b[j].children[m] == cs[m + 1];
        }
      }
    }
    FewerChildren(nodes, b);
  }

  /** The list `cs` with the first occurrence of `x`, if any, erased. */
  function RemoveFirst(cs: seq<nat>, x: nat): (r: seq<nat>)
    decreases |cs|
  {
    if cs == [] then []
    else if cs[0] == x then cs[1..]
    else [cs[0]] + RemoveFirst(cs[1..], x)
  }

  lemma {:induction false} RemoveFirstAt(cs: seq<nat>, x: nat, i: nat)
    requires i < |cs| && cs[i] == x && x !in cs[..i]
    ensures RemoveFirst(cs, x) == cs[..i] + cs[i + 1..]
    decreases i
  {
    if i > 0 {
      assert cs[1..][..i - 1] == cs[1..i];
      RemoveFirstAt(cs[1..], x, i - 1);
      assert cs[..i] == [cs[0]] + cs[1..][..i - 1];
    }
  }

  /** The position of the first occurrence of `x` in `cs`. */
  lemma FirstIndex(cs: seq<nat>, x: nat) returns (i: nat)
    requires x in cs
    ensures i < |cs| && cs[i] == x && x !in cs[..i]
  {
    i := 0;
    while cs[i] != x
      invariant i < |cs| && x !in cs[..i] && x in cs[i..]
      decreases |cs| - i
    {
      assert cs[i..] == [cs[i]] + cs[i + 1..];
      assert cs[..i + 1] == cs[..i] + [cs[i]];
      i := i + 1;
    }
  }

  lemma {:induction false} RemoveFirstAbsent(cs: seq<nat>, x: nat)
    requires x !in cs
    ensures RemoveFirst(cs, x) == cs
    decreases |cs|
  {
    if cs != [] {
      RemoveFirstAbsent(cs[1..], x);
    }
  }

  /**
   * Erasing the first occurrence removes exactly one copy of `x` when there is one,
   * keeps the order of the others, and changes nothing otherwise.
   */
  lemma {:induction false} RemoveFirstCounts(cs: seq<nat>, x: nat)
    ensures x in cs ==> |RemoveFirst(cs, x)| == |cs| - 1 && multiset(RemoveFirst(cs, x)) == multiset(cs) - multiset{x}
    ensures x in cs ==> exists i :: 0 <= i < |cs| && cs[i] == x && x !in cs[..i] && RemoveFirst(cs, x) == cs[..i] + cs[i + 1..]
    ensures x !in cs ==> RemoveFirst(cs, x) == cs
    decreases |cs|
  {
    if cs == [] {
    } else if cs[0] == x {
      assert cs == [cs[0]] + cs[1..];
    } else {
      RemoveFirstCounts(cs[1..], x);
      assert cs == [cs[0]] + cs[1..];
    }
    if x in cs {
      var i := FirstIndex(cs, x);
      RemoveFirstAt(cs, x, i);
    }
  }
}
