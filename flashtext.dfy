/**
  The keyword processor of flashtext2: a token trie kept in an arena of nodes,
  with a counter of the keywords it holds, and the operations that insert
  keywords, look one up, and scan a text for them.

  Tokenization is not modelled: every phrase and every text is given as its
  token sequence, and a (text, tokenizer state) pair is an index into the
  token sequence of the whole text.
 */
module Flashtext {
  import opened Trie
  import opened Scan
  import opened Runs

  class KeywordProcessor {
    /** The trie: `nodes[Root]` is the root node. */
    var nodes: seq<Node>
    /** The number of distinct keywords inserted. */
    var len: nat
    /** The dictionary the trie represents: each keyword with its clean word. */
    ghost var Keywords: Dictionary

    ghost predicate Valid()
      reads this
    {
      Represents(nodes, Keywords, []) && len == |Keywords|
    }

    /** An empty processor: a root without children and no keywords. */
    constructor ()
      ensures Valid()
      ensures Keywords == map[] && len == 0 && nodes == [EmptyNode()]
    {
      nodes := [EmptyNode()];
      len := 0;
      Keywords := map[];
      EmptyRepresents();
    }

    /** The number of distinct keywords, which is the number of terminal nodes. */
    function Len(): (n: nat)
      reads this
      requires Valid()
      ensures n == |Keywords| && n == |TerminalNodes(nodes)|
    {
      len
    }

    /** Inserts a keyword with itself, the text its tokens spell, as clean word. */
    method AddKeyword(w: seq<string>)
      requires Valid()
      modifies this
      ensures Valid()
      ensures Keywords == old(Keywords)[w := Concat(w)]
      ensures len == if w in old(Keywords) then old(len) else old(len) + 1
      ensures |old(nodes)| <= |nodes|
      ensures forall k :: 0 <= k < |old(nodes)| && old(nodes)[k].endOfWord ==> nodes[k].endOfWord
      ensures IsNodePath(old(Keywords), w) ==> |nodes| == |old(nodes)|
    {
      AddKeywordWithCleanWord(w, Concat(w));
    }

    /** Inserts keyword `w` with clean word `c`: a keyword not yet present is
        counted, one already present keeps its count and gets `c` as its new
        clean word; every other keyword and its clean word stay as they were,
        no terminal node is cleared, and a keyword whose path already exists
        creates no node. */
    method AddKeywordWithCleanWord(w: seq<string>, c: string)
      requires Valid()
      modifies this
      ensures Valid()
      ensures Keywords == old(Keywords)[w := c]
      ensures len == if w in old(Keywords) then old(len) else old(len) + 1
      ensures |old(nodes)| <= |nodes|
      ensures forall k :: 0 <= k < |old(nodes)| && old(nodes)[k].endOfWord ==> nodes[k].endOfWord
      ensures IsNodePath(old(Keywords), w) ==> |nodes| == |old(nodes)|
    {
      var trie := nodes;
      var node: nat := Root;
      var i := 0;
      ghost var inserted := InsertPath(trie, Root, w);
      while i < |w|
        invariant 0 <= i <= |w|
        invariant WellFormed(trie) && node < |trie|
        invariant InsertPath(trie, node, w[i..]) == inserted
        invariant unchanged(this)
      {
        var word := w[i];
        assert w[i..][1..] == w[i + 1..];
        if word !in trie[node].children {
          var child := |trie|;
          AddChildWellFormed(trie, node, word);
          trie := AddChild(trie, node, word);
          node := child;
        } else {
          node := trie[node].children[word];
        }
        i := i + 1;
      }
      assert w[i..] == [];
      InsertPreserves(nodes, Keywords, w, c);
      ghost var reached := trie;
      if !trie[node].endOfWord {
        len := len + 1;
        trie := trie[node := trie[node].(endOfWord := true)];
      }
      trie := trie[node := trie[node].(cleanWord := c)];
      assert trie == Mark(reached, node, c);
      nodes := trie;
      Keywords := Keywords[w := c];
    }

    /** Whether `w` is a keyword: a path that only leads to a non-terminal
        node, such as a strict prefix of a keyword, is not one. */
    method ContainsWord(w: seq<string>) returns (b: bool)
      requires Valid()
      ensures b == (w in Keywords)
    {
      var trie := nodes;
      ghost var kw := Keywords;
      var node: nat := Root;
      var i := 0;
      while i < |w|
        invariant i <= |w|
        invariant Walk(trie, w[0..i]) == Some(node)
      {
        var word := w[i];
        StepSlice(trie, kw, w, 0, i, node);
        if word !in trie[node].children {
          MissingEdgeNoKeyword(kw, w, i + 1);
          return false;
        }
        node := trie[node].children[word];
        i := i + 1;
      }
      assert w[0..i] == w;
      TerminalRepresents(trie, kw, w, node);
      return trie[node].endOfWord;
    }

    /** Scans `toks[i0..]` for the first keyword, as `FirstKeywordSpec` defines:
        the descent from the attempt start remembers the deepest terminal node
        it meets; a missing edge returns that match, or, without one, restarts
        the descent at the root one token after the attempt start. */
    method FirstKeyword(toks: seq<string>, i0: nat) returns (isMatch: bool, longestMatch: string, rest: nat)
      requires Valid() && i0 <= |toks|
      ensures ScanResult(isMatch, longestMatch, rest) == FirstKeywordSpec(Keywords, toks, i0)
    {
      var trie := nodes;
      var i: nat := i0;
      var start: nat := i0;
      var node: nat := Root;
      longestMatch := "";
      isMatch := false;
      var afterKeyword: nat := 0;
      ghost var goal := FirstKeywordSpec(Keywords, toks, i0);
      FirstKeywordRunSpec(trie, Keywords, toks, i0);
      while i < |toks|
        invariant start <= i <= |toks| && node < |trie|
        invariant FirstKeywordRun(trie, toks, start, i, node, isMatch, longestMatch, afterKeyword) == goal
        decreases |toks| - start, |toks| - i
      {
        var word := toks[i];
        if word in trie[node].children {
          node := trie[node].children[word];
          i := i + 1;
          if trie[node].endOfWord {
            isMatch := true;
            longestMatch := trie[node].cleanWord;
            afterKeyword := i;
          }
        } else if isMatch {
          rest := afterKeyword;
          return;
        } else {
          i := start + 1;
          start := i;
          node := Root;
          isMatch := false;
        }
      }
      rest := i;
    }

    /** The clean words of the successive matches of `FirstKeyword`, each scan
        resuming at the remaining text of the previous one. */
    method ExtractKeywordsAsSlice(toks: seq<string>) returns (found: seq<string>)
      requires Valid()
      ensures found == ExtractSpec(Keywords, toks, 0)
    {
      found := [];
      ghost var kw := Keywords;
      var isMatch, longestMatch, rest := FirstKeyword(toks, 0);
      ghost var pos := 0;
      while isMatch
        invariant pos <= rest <= |toks|
        invariant ScanResult(isMatch, longestMatch, rest) == FirstKeywordSpec(kw, toks, pos)
        invariant found + ExtractSpec(kw, toks, pos) == ExtractSpec(kw, toks, 0)
        decreases |toks| - pos
      {
        ExtractResumes(kw, toks, pos);
        ghost var tail := ExtractSpec(kw, toks, rest);
        assert found + ([longestMatch] + tail) == (found + [longestMatch]) + tail;
        found := found + [longestMatch];
        pos := rest;
        isMatch, longestMatch, rest := FirstKeyword(toks, rest);
      }
    }

    /** The text with its keywords replaced by their clean words, as
        `ReplaceSpec` defines. `lenAtStart` counts the tokens left when the
        current descent started (0 while none has started), so the text copied
        before a match is `toks[before..|toks| - lenAtStart]`. */
    method ReplaceKeywords(toks: seq<string>) returns (res: string)
      requires Valid()
      ensures res == ReplaceSpec(Keywords, toks)
    {
      var trie := nodes;
      var out := "";
      var i: nat := 0;
      var start: nat := 0;
      var before: nat := 0;
      var lenAtStart: nat := 0;
      var node: nat := Root;
      var isMatch := false;
      var longestMatch := "";
      ghost var goal := ReplaceSpec(Keywords, toks);
      ReplaceRunSpec(trie, Keywords, toks);
      while i < |toks|
        invariant before <= start <= i <= |toks| && node < |trie|
        invariant lenAtStart == if start < i then |toks| - start else 0
        invariant isMatch ==> start < i
        invariant ReplaceRun(trie, toks, out, before, start, i, node, isMatch, longestMatch) == goal
        decreases |toks| - start, |toks| - i
      {
        var prev := i;
        var word := toks[i];
        i := i + 1;
        if word in trie[node].children {
          node := trie[node].children[word];
          if lenAtStart == 0 {
            lenAtStart := |toks| - prev;
          }
          if trie[node].endOfWord {
            isMatch := true;
            longestMatch := trie[node].cleanWord;
          }
        } else {
          if isMatch {
            out := out + Concat(toks[before..|toks| - lenAtStart]) + longestMatch;
            before := prev;
          } else {
            i := start + 1;
          }
          start := i;
          node := Root;
          isMatch := false;
          lenAtStart := 0;
        }
      }
      if isMatch {
        out := out + Concat(toks[before..|toks| - lenAtStart]) + longestMatch;
      } else {
        out := out + Concat(toks[before..]);
      }
      res := out;
    }
  }
}
