/**
  The token trie of flashtext2, stored as an arena: a sequence of node records
  addressed by index, the root at index 0, every child edge a map entry from a
  token to the index of the child. The module also holds the abstract view of a
  trie: the dictionary `kw` from keyword (a token sequence) to its clean word,
  and the relation `Represents` between an arena and such a dictionary.
 */
module Trie {

  datatype Option<T> = None | Some(value: T)

  /** The abstract dictionary: each keyword (a token sequence) with its clean word. */
  type Dictionary = map<seq<string>, string>

  /** One trie node: whether the path to it spells a keyword, that keyword's
      clean word, and the arena index of the child reached by each token. */
  datatype Node = Node(endOfWord: bool, cleanWord: string, children: map<string, nat>)

  /** Arena index of the root node. */
  const Root: nat := 0

  /** A node as the source allocates it: not terminal, no clean word, no children. */
  function EmptyNode(): Node
  {
    Node(false, "", map[])
  }

  /** The text a token sequence was cut from: the tokens concatenate to it. */
  function Concat(ts: seq<string>): string
  {
    if ts == [] then "" else Concat(ts[..|ts| - 1]) + ts[|ts| - 1]
  }

  /** Following the edge labelled `t` out of node `m`, if there is one. */
  function Step(nodes: seq<Node>, m: nat, t: string): Option<nat>
  {
    if m < |nodes| && t in nodes[m].children then Some(nodes[m].children[t]) else None
  }

  /** The node reached from the root by following the tokens of `p` in order. */
  function Walk(nodes: seq<Node>, p: seq<string>): Option<nat>
    decreases |p|
  {
    if p == [] then Some(Root)
    else match Walk(nodes, p[..|p| - 1])
      case None => None
      case Some(m) => Step(nodes, m, p[|p| - 1])
  }

  /** The node at path `p`, as the representation invariant below refers to it.
      It is `Walk` under a name of its own, so that the invariant's quantifiers
      are instantiated only where a proof names `Reach` explicitly. */
  ghost function Reach(nodes: seq<Node>, p: seq<string>): Option<nat>
  {
    Walk(nodes, p)
  }

  /** The path `p` leads to a terminal node. */
  ghost predicate Terminal(nodes: seq<Node>, p: seq<string>)
  {
    Walk(nodes, p).Some? && Walk(nodes, p).value < |nodes| && nodes[Walk(nodes, p).value].endOfWord
  }

  /** Indices of the terminal nodes of the arena. */
  ghost function TerminalNodes(nodes: seq<Node>): set<nat>
  {
    set k | 0 <= k < |nodes| && nodes[k].endOfWord
  }

  /** There is a root, and every edge points into the arena. */
  ghost predicate WellFormed(nodes: seq<Node>)
  {
    && |nodes| > 0
    && forall k, t :: 0 <= k < |nodes| && t in nodes[k].children ==> nodes[k].children[t] < |nodes|
  }

  /** No node is reached by two different paths: the arena is a tree. */
  ghost predicate TreeShaped(nodes: seq<Node>)
  {
    forall p, q :: Reach(nodes, p).Some? && Reach(nodes, p) == Reach(nodes, q) ==> p == q
  }

  /** `p` is a token-prefix of `k`. */
  ghost predicate PrefixOf(p: seq<string>, k: seq<string>)
  {
    p <= k
  }

  /** `p` is the empty path or a token-prefix of some keyword of `kw`. The
      witness is looked for only among the keywords a proof names with
      `PrefixOf`. */
  ghost predicate IsNodePath(kw: Dictionary, p: seq<string>)
  {
    p == [] || exists k {:trigger PrefixOf(p, k)} :: k in kw && PrefixOf(p, k)
  }

  /** The arena is a tree whose nodes are exactly the prefixes of the keywords
      of `kw` and of `extra` (a keyword whose insertion is under way), whose
      terminal nodes are exactly the keywords of `kw`, carrying their clean
      words, and which has as many terminal nodes as `kw` has keywords. */
  ghost predicate Represents(nodes: seq<Node>, kw: Dictionary, extra: seq<string>)
  {
    && WellFormed(nodes)
    && TreeShaped(nodes)
    && (forall p :: Reach(nodes, p).Some? <==> IsNodePath(kw, p) || p <= extra)
    && (forall p {:trigger Terminal(nodes, p)} :: p in kw <==> Terminal(nodes, p))
    && (forall p {:trigger Terminal(nodes, p)} :: Terminal(nodes, p) ==> kw[p] == nodes[Walk(nodes, p).value].cleanWord)
    && |TerminalNodes(nodes)| == |kw|
  }

  /** The arena after `node.children[t] = child` with a freshly allocated child. */
  function AddChild(nodes: seq<Node>, m: nat, t: string): (r: seq<Node>)
    requires m < |nodes|
    ensures |r| == |nodes| + 1 && r[|nodes|] == EmptyNode()
    ensures forall k :: 0 <= k < |nodes| ==> r[k].endOfWord == nodes[k].endOfWord && r[k].cleanWord == nodes[k].cleanWord
    ensures Step(r, m, t) == Some(|nodes|)
  {
    nodes[m := nodes[m].(children := nodes[m].children[t := |nodes|])] + [EmptyNode()]
  }

  /** The arena after marking node `k` terminal with clean word `c`. */
  function Mark(nodes: seq<Node>, k: nat, c: string): (r: seq<Node>)
    requires k < |nodes|
    ensures |r| == |nodes| && r[k].endOfWord && r[k].cleanWord == c
    ensures forall j :: 0 <= j < |nodes| && j != k ==> r[j] == nodes[j]
    ensures forall j :: 0 <= j < |nodes| ==> r[j].children == nodes[j].children
  {
    nodes[k := Node(true, c, nodes[k].children)]
  }

  /** In a well-formed arena every path that exists ends inside the arena. */
  lemma {:induction false} WalkInRange(nodes: seq<Node>, p: seq<string>)
    requires WellFormed(nodes) && Walk(nodes, p).Some?
    ensures Walk(nodes, p).value < |nodes|
    decreases |p|
  {
    if p != [] {
      WalkInRange(nodes, p[..|p| - 1]);
    }
  }

  /** Walking `p + [t]` is walking `p` and then one step by `t`. */
  lemma WalkAppend(nodes: seq<Node>, p: seq<string>, t: string)
    ensures Walk(nodes, p + [t]) == match Walk(nodes, p) case None => None case Some(m) => Step(nodes, m, t)
  {
    assert (p + [t])[..|p|] == p;
  }

  /** Prefixes of `p + [t]` are the prefixes of `p` and `p + [t]` itself. */
  lemma PrefixOfAppend(q: seq<string>, p: seq<string>, t: string)
    ensures q <= p + [t] <==> q <= p || q == p + [t]
  {
    if q <= p + [t] && q != p + [t] {
      assert |q| <= |p|;
      assert q == (p + [t])[..|q|] == p[..|q|];
    }
    if q <= p {
      assert q == p[..|q|] == (p + [t])[..|q|];
    }
  }

  /** Two arenas with the same edges have the same paths. */
  lemma {:induction false} WalkSameEdges(a: seq<Node>, b: seq<Node>, p: seq<string>)
    requires |a| == |b|
    requires forall k :: 0 <= k < |a| ==> a[k].children == b[k].children
    ensures Walk(a, p) == Walk(b, p)
    decreases |p|
  {
    if p != [] {
      WalkSameEdges(a, b, p[..|p| - 1]);
    }
  }

  /** After `AddChild` the only new edge is `t` out of `m`, to the new node. */
  lemma StepAddChild(nodes: seq<Node>, m: nat, t: string, k: nat, x: string)
    requires m < |nodes| && t !in nodes[m].children
    ensures Step(AddChild(nodes, m, t), k, x) ==
              if k == m && x == t then Some(|nodes|) else if k < |nodes| then Step(nodes, k, x) else None
  {
  }

  /** Adding an edge `t` out of the node at path `p0` changes exactly one path:
      `p0 + [t]` now leads to the new node; every other path is as before. */
  lemma {:induction false} WalkAddChild(nodes: seq<Node>, m: nat, t: string, p0: seq<string>, q: seq<string>)
    requires WellFormed(nodes) && TreeShaped(nodes)
    requires Walk(nodes, p0) == Some(m) && m < |nodes| && t !in nodes[m].children
    ensures Walk(AddChild(nodes, m, t), q) == if q == p0 + [t] then Some(|nodes|) else Walk(nodes, q)
    decreases |q|
  {
    if q == [] {
      assert |q| != |p0 + [t]|;
    } else {
      var q0, x := q[..|q| - 1], q[|q| - 1];
      assert q == q0 + [x];
      WalkAddChild(nodes, m, t, p0, q0);
      var isNew := q == p0 + [t];
      assert isNew ==> q0 == p0 && x == t by {
        if isNew {
          assert q0 == (p0 + [t])[..|p0|] == p0;
        }
      }
      if q0 == p0 + [t] {
        assert !isNew by { assert |q| != |p0 + [t]|; }
        StepAddChild(nodes, m, t, |nodes|, x);
        WalkAppend(nodes, p0, t);
      } else {
        match Walk(nodes, q0)
        case None =>
        case Some(k) =>
          WalkInRange(nodes, q0);
          StepAddChild(nodes, m, t, k, x);
          if k == m && x == t {
            assert Reach(nodes, q0) == Reach(nodes, p0);
          }
      }
    }
  }

  /** Taking an existing edge during insertion: the tree now accounts for one
      more token of the keyword being inserted. */
  lemma DescendPreserves(nodes: seq<Node>, kw: Dictionary, extra: seq<string>, t: string)
    requires Represents(nodes, kw, extra)
    requires Walk(nodes, extra + [t]).Some?
    ensures Represents(nodes, kw, extra + [t])
  {
    forall p
      ensures Reach(nodes, p).Some? <==> IsNodePath(kw, p) || p <= extra + [t]
    {
      PrefixOfAppend(p, extra, t);
    }
  }

  /** Every path of the arena after `AddChild`, in terms of the paths before. */
  lemma AddChildWalks(nodes: seq<Node>, m: nat, t: string, p0: seq<string>)
    requires WellFormed(nodes) && TreeShaped(nodes)
    requires Walk(nodes, p0) == Some(m) && m < |nodes| && t !in nodes[m].children
    ensures forall q :: Walk(AddChild(nodes, m, t), q) == if q == p0 + [t] then Some(|nodes|) else Walk(nodes, q)
  {
    forall q
      ensures Walk(AddChild(nodes, m, t), q) == if q == p0 + [t] then Some(|nodes|) else Walk(nodes, q)
    {
      WalkAddChild(nodes, m, t, p0, q);
    }
  }

  /** `AddChild` keeps the arena a well-formed tree. */
  lemma AddChildTree(nodes: seq<Node>, m: nat, t: string, p0: seq<string>)
    requires WellFormed(nodes) && TreeShaped(nodes)
    requires Walk(nodes, p0) == Some(m) && m < |nodes| && t !in nodes[m].children
    ensures WellFormed(AddChild(nodes, m, t)) && TreeShaped(AddChild(nodes, m, t))
  {
    var r := AddChild(nodes, m, t);
    AddChildWalks(nodes, m, t, p0);
    forall k, x | 0 <= k < |r| && x in r[k].children
      ensures r[k].children[x] < |r|
    {
    }
    forall p, q | Reach(r, p).Some? && Reach(r, p) == Reach(r, q)
      ensures p == q
    {
      if p != p0 + [t] && q != p0 + [t] {
        assert Reach(nodes, p) == Reach(nodes, q);
      } else if p != p0 + [t] || q != p0 + [t] {
        var o := if p == p0 + [t] then q else p;
        assert Walk(nodes, o) == Some(|nodes|);
        WalkInRange(nodes, o);
      }
    }
  }

  /** `AddChild` creates no terminal node and moves no clean word. */
  lemma AddChildTerminals(nodes: seq<Node>, m: nat, t: string, p0: seq<string>)
    requires WellFormed(nodes) && TreeShaped(nodes)
    requires Walk(nodes, p0) == Some(m) && m < |nodes| && t !in nodes[m].children
    ensures forall p {:trigger Terminal(AddChild(nodes, m, t), p)} ::
              && Terminal(AddChild(nodes, m, t), p) == Terminal(nodes, p)
              && (Terminal(AddChild(nodes, m, t), p) ==>
                    AddChild(nodes, m, t)[Walk(AddChild(nodes, m, t), p).value].cleanWord == nodes[Walk(nodes, p).value].cleanWord)
    ensures TerminalNodes(AddChild(nodes, m, t)) == TerminalNodes(nodes)
  {
    var r := AddChild(nodes, m, t);
    AddChildWalks(nodes, m, t, p0);
    forall p
      ensures Terminal(r, p) == Terminal(nodes, p)
      ensures Terminal(r, p) ==> r[Walk(r, p).value].cleanWord == nodes[Walk(nodes, p).value].cleanWord
    {
      if p != p0 + [t] && Walk(nodes, p).Some? {
        WalkInRange(nodes, p);
      }
    }
    assert TerminalNodes(r) == TerminalNodes(nodes);
  }

  /** After `AddChild` at the end of `extra`, the paths of the arena are the
      prefixes of the keywords and of `extra + [t]`. */
  lemma AddChildPaths(nodes: seq<Node>, kw: Dictionary, extra: seq<string>, m: nat, t: string)
    requires Represents(nodes, kw, extra)
    requires Walk(nodes, extra) == Some(m) && m < |nodes| && t !in nodes[m].children
    ensures forall p :: Reach(AddChild(nodes, m, t), p).Some? <==> IsNodePath(kw, p) || p <= extra + [t]
  {
    forall p
      ensures Reach(AddChild(nodes, m, t), p).Some? <==> IsNodePath(kw, p) || p <= extra + [t]
    {
      WalkAddChild(nodes, m, t, extra, p);
      PrefixOfAppend(p, extra, t);
    }
  }

  /** After `AddChild` the terminal nodes are still exactly the keywords, with
      their clean words. */
  lemma AddChildKeywords(nodes: seq<Node>, kw: Dictionary, extra: seq<string>, m: nat, t: string)
    requires Represents(nodes, kw, extra)
    requires Walk(nodes, extra) == Some(m) && m < |nodes| && t !in nodes[m].children
    ensures forall p {:trigger Terminal(AddChild(nodes, m, t), p)} :: p in kw <==> Terminal(AddChild(nodes, m, t), p)
    ensures forall p {:trigger Terminal(AddChild(nodes, m, t), p)} ::
              Terminal(AddChild(nodes, m, t), p) ==> kw[p] == AddChild(nodes, m, t)[Walk(AddChild(nodes, m, t), p).value].cleanWord
    ensures |TerminalNodes(AddChild(nodes, m, t))| == |kw|
  {
    AddChildTerminals(nodes, m, t, extra);
    forall p
      ensures p in kw <==> Terminal(AddChild(nodes, m, t), p)
      ensures Terminal(AddChild(nodes, m, t), p) ==> kw[p] == AddChild(nodes, m, t)[Walk(AddChild(nodes, m, t), p).value].cleanWord
    {
      assert Terminal(AddChild(nodes, m, t), p) == Terminal(nodes, p);
    }
  }

  /** Creating a missing child during insertion keeps the tree a tree and makes
      it account for one more token of the keyword being inserted; no terminal
      node changes. */
  lemma AddChildPreserves(nodes: seq<Node>, kw: Dictionary, extra: seq<string>, m: nat, t: string)
    requires Represents(nodes, kw, extra)
    requires Walk(nodes, extra) == Some(m) && m < |nodes| && t !in nodes[m].children
    ensures Represents(AddChild(nodes, m, t), kw, extra + [t])
    ensures Walk(AddChild(nodes, m, t), extra + [t]) == Some(|nodes|)
  {
    WalkAddChild(nodes, m, t, extra, extra + [t]);
    AddChildTree(nodes, m, t, extra);
    AddChildPaths(nodes, kw, extra, m, t);
    AddChildKeywords(nodes, kw, extra, m, t);
  }

  /** The prefixes of the keywords of `kw[w := c]` are those of `kw` and of `w`. */
  lemma NodePathsAfterInsert(kw: Dictionary, w: seq<string>, c: string)
    ensures forall p :: IsNodePath(kw[w := c], p) <==> IsNodePath(kw, p) || p <= w
  {
    forall p
      ensures IsNodePath(kw[w := c], p) <==> IsNodePath(kw, p) || p <= w
    {
      if IsNodePath(kw[w := c], p) && p != [] {
        var k' :| k' in kw[w := c] && PrefixOf(p, k');
        assert k' == w || (k' in kw && PrefixOf(p, k'));
      }
      if IsNodePath(kw, p) && p != [] {
        var k' :| k' in kw && PrefixOf(p, k');
        assert k' in kw[w := c];
      }
      if p <= w {
        assert w in kw[w := c] && PrefixOf(p, w);
      }
    }
  }

  /** Trie paths are closed under taking prefixes. */
  lemma NodePathPrefix(kw: Dictionary, p: seq<string>, q: seq<string>)
    requires p <= q && IsNodePath(kw, q)
    ensures IsNodePath(kw, p)
  {
    if p != [] {
      var k :| k in kw && PrefixOf(q, k);
      assert PrefixOf(p, k);
    }
  }

  /** Every keyword is a trie path. */
  lemma KeywordIsNodePath(kw: Dictionary, k: seq<string>)
    requires k in kw
    ensures IsNodePath(kw, k)
  {
    assert PrefixOf(k, k);
  }

  /** Inserting a keyword adds one entry exactly when it was absent. */
  lemma InsertSize(kw: Dictionary, w: seq<string>, c: string)
    ensures |kw[w := c]| == if w in kw then |kw| else |kw| + 1
  {
    if w in kw {
      assert kw[w := c].Keys == kw.Keys;
    } else {
      assert kw[w := c].Keys == kw.Keys + {w};
    }
  }

  /** After marking the node of `w`, the terminal paths are the keywords of
      `kw[w := c]`, with their clean words. */
  lemma MarkTerminals(nodes: seq<Node>, kw: Dictionary, w: seq<string>, k: nat, c: string)
    requires WellFormed(nodes) && TreeShaped(nodes)
    requires forall p :: p in kw <==> Terminal(nodes, p)
    requires forall p :: p in kw ==> Terminal(nodes, p) && kw[p] == nodes[Walk(nodes, p).value].cleanWord
    requires Walk(nodes, w) == Some(k) && k < |nodes|
    ensures forall p :: p in kw[w := c] <==> Terminal(Mark(nodes, k, c), p)
    ensures forall p :: p in kw[w := c] ==> Terminal(Mark(nodes, k, c), p) && kw[w := c][p] == Mark(nodes, k, c)[Walk(Mark(nodes, k, c), p).value].cleanWord
  {
    var r := Mark(nodes, k, c);
    forall p
      ensures p in kw[w := c] <==> Terminal(r, p)
      ensures p in kw[w := c] ==> Terminal(r, p) && kw[w := c][p] == r[Walk(r, p).value].cleanWord
    {
      WalkSameEdges(r, nodes, p);
      if Walk(nodes, p).Some? {
        WalkInRange(nodes, p);
        if Walk(nodes, p).value == k {
          assert Reach(nodes, p) == Reach(nodes, w);
        }
      }
    }
  }

  /** Marking a node leaves the paths, and so the tree shape, unchanged. */
  lemma MarkTree(nodes: seq<Node>, k: nat, c: string)
    requires WellFormed(nodes) && TreeShaped(nodes) && k < |nodes|
    ensures forall p :: Walk(Mark(nodes, k, c), p) == Walk(nodes, p)
    ensures WellFormed(Mark(nodes, k, c)) && TreeShaped(Mark(nodes, k, c))
  {
    forall p
      ensures Walk(Mark(nodes, k, c), p) == Walk(nodes, p)
      ensures Reach(Mark(nodes, k, c), p) == Reach(nodes, p)
    {
      WalkSameEdges(Mark(nodes, k, c), nodes, p);
    }
  }

  /** Marking node `k` adds it to the terminal nodes and changes no other. */
  lemma MarkTerminalNodes(nodes: seq<Node>, k: nat, c: string)
    requires k < |nodes|
    ensures TerminalNodes(Mark(nodes, k, c)) == TerminalNodes(nodes) + {k}
  {
    var r := Mark(nodes, k, c);
    forall j
      ensures j in TerminalNodes(r) <==> j in TerminalNodes(nodes) + {k}
    {
      if 0 <= j < |nodes| && j != k {
        assert r[j] == nodes[j];
      }
    }
  }

  /** Marking node `k` counts one more terminal node exactly when the keyword
      it ends is new. */
  lemma MarkCount(nodes: seq<Node>, kw: Dictionary, w: seq<string>, k: nat, c: string)
    requires k < |nodes| && |TerminalNodes(nodes)| == |kw|
    requires (k in TerminalNodes(nodes)) == (w in kw)
    ensures |TerminalNodes(Mark(nodes, k, c))| == |kw[w := c]|
  {
    var before := TerminalNodes(nodes);
    MarkTerminalNodes(nodes, k, c);
    if k in before {
      assert before + {k} == before;
    } else {
      assert |before + {k}| == |before| + 1;
    }
    InsertSize(kw, w, c);
  }

  /** Marking the node at the end of the inserted keyword `w` terminal with
      clean word `c` makes the tree represent `kw[w := c]`. */
  lemma MarkPreserves(nodes: seq<Node>, kw: Dictionary, w: seq<string>, k: nat, c: string)
    requires Represents(nodes, kw, w)
    requires Walk(nodes, w) == Some(k) && k < |nodes|
    ensures Represents(Mark(nodes, k, c), kw[w := c], [])
    ensures (k in TerminalNodes(nodes)) == (w in kw)
  {
    var r := Mark(nodes, k, c);
    MarkTree(nodes, k, c);
    NodePathsAfterInsert(kw, w, c);
    forall p
      ensures Reach(r, p).Some? <==> IsNodePath(kw[w := c], p) || p <= []
    {
      assert Reach(r, p) == Reach(nodes, p);
    }
    MarkTerminals(nodes, kw, w, k, c);
    assert (k in TerminalNodes(nodes)) == (w in kw);
    MarkCount(nodes, kw, w, k, c);
  }

  /** The arena holding only an empty root represents the empty dictionary. */
  lemma EmptyRepresents()
    ensures Represents([EmptyNode()], map[], [])
  {
    var nodes := [EmptyNode()];
    forall p
      ensures Walk(nodes, p) == if p == [] then Some(Root) else None
    {
      if p != [] {
        assert Step(nodes, Root, p[|p| - 1]) == None;
      }
    }
    assert TerminalNodes(nodes) == {};
  }

  /** In a trie representing `kw`, the edge `t` out of the node at path `p`
      exists exactly when `p + [t]` is a prefix of a keyword, and the child is
      terminal exactly when `p + [t]` is a keyword, carrying its clean word. */
  lemma StepRepresents(nodes: seq<Node>, kw: Dictionary, p: seq<string>, m: nat, t: string)
    requires Represents(nodes, kw, []) && Walk(nodes, p) == Some(m)
    ensures m < |nodes|
    ensures (t in nodes[m].children) == IsNodePath(kw, p + [t])
    ensures t in nodes[m].children ==>
              var c := nodes[m].children[t];
              && Walk(nodes, p + [t]) == Some(c) && c < |nodes|
              && nodes[c].endOfWord == (p + [t] in kw)
              && (p + [t] in kw ==> kw[p + [t]] == nodes[c].cleanWord)
  {
    WalkInRange(nodes, p);
    WalkAppend(nodes, p, t);
    assert !(p + [t] <= []);
    if t in nodes[m].children {
      WalkInRange(nodes, p + [t]);
      assert Terminal(nodes, p + [t]) == nodes[nodes[m].children[t]].endOfWord;
    }
  }

  /** A slice one token longer is the slice and that token. */
  lemma SliceSnoc(toks: seq<string>, s: nat, i: nat)
    requires s <= i < |toks|
    ensures toks[s..i + 1] == toks[s..i] + [toks[i]]
  {
  }

  /** `StepRepresents` for the path `toks[s..i]` read from a text: the edge
      labelled by the next token `toks[i]`. */
  lemma StepSlice(nodes: seq<Node>, kw: Dictionary, toks: seq<string>, s: nat, i: nat, m: nat)
    requires Represents(nodes, kw, []) && s <= i < |toks| && Walk(nodes, toks[s..i]) == Some(m)
    ensures m < |nodes|
    ensures (toks[i] in nodes[m].children) == IsNodePath(kw, toks[s..i + 1])
    ensures toks[i] in nodes[m].children ==>
              var c := nodes[m].children[toks[i]];
              && Walk(nodes, toks[s..i + 1]) == Some(c) && c < |nodes|
              && nodes[c].endOfWord == (toks[s..i + 1] in kw)
              && (toks[s..i + 1] in kw ==> kw[toks[s..i + 1]] == nodes[c].cleanWord)
  {
    SliceSnoc(toks, s, i);
    StepRepresents(nodes, kw, toks[s..i], m, toks[i]);
  }

  /** In a trie representing `kw`, the node at path `p` is terminal exactly
      when `p` is a keyword. */
  lemma TerminalRepresents(nodes: seq<Node>, kw: Dictionary, p: seq<string>, m: nat)
    requires Represents(nodes, kw, []) && Walk(nodes, p) == Some(m)
    ensures m < |nodes| && nodes[m].endOfWord == (p in kw)
  {
    WalkInRange(nodes, p);
    assert Terminal(nodes, p) == nodes[m].endOfWord;
  }

  /** A path of the text that has left the trie is a prefix of no keyword, so
      the text itself is no keyword. */
  lemma MissingEdgeNoKeyword(kw: Dictionary, w: seq<string>, j: nat)
    requires j <= |w| && !IsNodePath(kw, w[0..j])
    ensures w !in kw
  {
    if w in kw {
      assert PrefixOf(w[0..j], w);
    }
  }

  /** `AddChild` keeps every edge inside the arena. */
  lemma AddChildWellFormed(nodes: seq<Node>, m: nat, t: string)
    requires WellFormed(nodes) && m < |nodes|
    ensures WellFormed(AddChild(nodes, m, t))
  {
    var r := AddChild(nodes, m, t);
    forall k, x | 0 <= k < |r| && x in r[k].children
      ensures r[k].children[x] < |r|
    {
    }
  }

  /** An arena together with a node in it. */
  datatype Inserted = Inserted(nodes: seq<Node>, node: nat)

  /** The arena after following the tokens of `w` from node `m`, creating each
      missing child on the way, with the node reached. */
  ghost function InsertPath(nodes: seq<Node>, m: nat, w: seq<string>): (r: Inserted)
    requires WellFormed(nodes) && m < |nodes|
    ensures WellFormed(r.nodes) && r.node < |r.nodes|
    decreases |w|
  {
    if w == [] then Inserted(nodes, m)
    else if w[0] in nodes[m].children then InsertPath(nodes, nodes[m].children[w[0]], w[1..])
    else
      AddChildWellFormed(nodes, m, w[0]);
      InsertPath(AddChild(nodes, m, w[0]), |nodes|, w[1..])
  }

  /** Inserting the path of `w` below the node at path `p` makes the tree
      account for `p + w`, leads `p + w` to the node reached, keeps every
      existing node and its terminal mark, and creates no node when `p + w`
      is already a trie path. */
  lemma {:induction false} InsertPathPreserves(nodes: seq<Node>, kw: Dictionary, p: seq<string>, m: nat, w: seq<string>)
    requires Represents(nodes, kw, p) && Walk(nodes, p) == Some(m) && m < |nodes|
    ensures var r := InsertPath(nodes, m, w);
            && Represents(r.nodes, kw, p + w)
            && Walk(r.nodes, p + w) == Some(r.node)
            && |nodes| <= |r.nodes|
            && (forall k :: 0 <= k < |nodes| ==> r.nodes[k].endOfWord == nodes[k].endOfWord)
            && (IsNodePath(kw, p + w) ==> |r.nodes| == |nodes|)
    decreases |w|
  {
    if w == [] {
      assert p + w == p;
    } else {
      var t := w[0];
      assert p + w == (p + [t]) + w[1..];
      WalkAppend(nodes, p, t);
      if t in nodes[m].children {
        DescendPreserves(nodes, kw, p, t);
        InsertPathPreserves(nodes, kw, p + [t], nodes[m].children[t], w[1..]);
      } else {
        assert Reach(nodes, p + [t]) == None;
        assert !IsNodePath(kw, p + w) by {
          if IsNodePath(kw, p + w) {
            NodePathPrefix(kw, p + [t], p + w);
          }
        }
        AddChildPreserves(nodes, kw, p, m, t);
        InsertPathPreserves(AddChild(nodes, m, t), kw, p + [t], |nodes|, w[1..]);
      }
    }
  }

  /** Inserting keyword `w` with clean word `c` into a trie representing `kw`
      (following and creating its path, then marking the node reached) gives
      a trie representing `kw[w := c]`. The node reached was terminal exactly
      when `w` was already a keyword; no existing node loses its terminal
      mark, and no node is created when `w` was already a trie path. */
  lemma InsertPreserves(nodes: seq<Node>, kw: Dictionary, w: seq<string>, c: string)
    requires Represents(nodes, kw, [])
    ensures var r := InsertPath(nodes, Root, w);
            && r.nodes[r.node].endOfWord == (w in kw)
            && Represents(Mark(r.nodes, r.node, c), kw[w := c], [])
            && |nodes| <= |r.nodes|
            && (forall k :: 0 <= k < |nodes| ==> r.nodes[k].endOfWord == nodes[k].endOfWord)
            && (IsNodePath(kw, w) ==> |r.nodes| == |nodes|)
  {
    var r := InsertPath(nodes, Root, w);
    InsertPathPreserves(nodes, kw, [], Root, w);
    assert [] + w == w;
    MarkPreserves(r.nodes, kw, w, r.node, c);
  }
}
