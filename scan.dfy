/**
  Reference definitions of flashtext2's matching operations over the abstract
  dictionary, and what they guarantee.

  The text is a fixed token sequence `toks` (the tokens concatenate to the
  text); a position in the text, together with the tokenizer state that goes
  with it, is an index into `toks`. An attempt starts at index `s`: it descends
  the trie along `toks[s..]` for as long as the tokens read so far spell a
  prefix of some keyword (`Descent`), remembering the last point at which they
  spelled a whole keyword (`LastMatch`). An attempt DECIDES the scan when it
  finds a keyword or reaches the end of the text; otherwise the scan moves on
  to the attempt one token later (`FirstAttempt`).
 */
module Scan {
  import opened Trie

  /** What `FirstKeyword` returns: whether a keyword was found, its clean word
      (empty when none was), and the index where the remaining text starts. */
  datatype ScanResult = ScanResult(isMatch: bool, longestMatch: string, rest: nat)

  /** Where the descent of the attempt starting at `s`, having read
      `toks[s..e]`, stops: at the end of the text, or before the first token
      that has no edge in the trie. */
  ghost function Descent(kw: Dictionary, toks: seq<string>, s: nat, e: nat): (d: nat)
    requires s <= e <= |toks|
    ensures e <= d <= |toks|
    decreases |toks| - e
  {
    if e < |toks| && IsNodePath(kw, toks[s..e + 1]) then Descent(kw, toks, s, e + 1) else e
  }

  /** A descent that stops inside the text stops at a token that leaves the trie. */
  lemma {:induction false} DescentLeaves(kw: Dictionary, toks: seq<string>, s: nat, e: nat)
    requires s <= e <= |toks| && Descent(kw, toks, s, e) < |toks|
    ensures !IsNodePath(kw, toks[s..Descent(kw, toks, s, e) + 1])
    decreases |toks| - e
  {
    if e < |toks| && IsNodePath(kw, toks[s..e + 1]) {
      DescentLeaves(kw, toks, s, e + 1);
    }
  }

  /** The end of the longest keyword `toks[s..m]` with `s < m <= e`, if any:
      the deepest terminal node met so far by the attempt starting at `s`. */
  ghost function LastMatch(kw: Dictionary, toks: seq<string>, s: nat, e: nat): (m: Option<nat>)
    requires s <= e <= |toks|
    ensures m.Some? ==> s < m.value <= e && toks[s..m.value] in kw
    decreases e
  {
    if e == s then None
    else if toks[s..e] in kw then Some(e)
    else LastMatch(kw, toks, s, e - 1)
  }

  /** No keyword starting at `s` ends after the one `LastMatch` finds, up to `e`. */
  lemma {:induction false} LastMatchLongest(kw: Dictionary, toks: seq<string>, s: nat, e: nat, e': nat)
    requires s <= e <= |toks|
    requires (if LastMatch(kw, toks, s, e).Some? then LastMatch(kw, toks, s, e).value else s) < e' <= e
    ensures toks[s..e'] !in kw
    decreases e
  {
    if e != s && toks[s..e] !in kw && e' < e {
      LastMatchLongest(kw, toks, s, e - 1, e');
    }
  }

  /** The attempt starting at `s` ends the scan: the text is exhausted, or the
      descent runs to the end of the text, or it has met a keyword. */
  ghost predicate Decides(kw: Dictionary, toks: seq<string>, s: nat)
    requires s <= |toks|
  {
    s == |toks| || Descent(kw, toks, s, s) == |toks| || LastMatch(kw, toks, s, Descent(kw, toks, s, s)).Some?
  }

  /** The first attempt, from `s` on, that ends the scan; each failed attempt
      moves the start forward by exactly one token. */
  ghost function FirstAttempt(kw: Dictionary, toks: seq<string>, s: nat): (a: nat)
    requires s <= |toks|
    ensures s <= a <= |toks| && Decides(kw, toks, a)
    decreases |toks| - s
  {
    if Decides(kw, toks, s) then s else FirstAttempt(kw, toks, s + 1)
  }

  /** Every attempt before the one `FirstAttempt` finds fails. */
  lemma {:induction false} FirstAttemptFirst(kw: Dictionary, toks: seq<string>, s: nat, s': nat)
    requires s <= s' < |toks| && s' < FirstAttempt(kw, toks, s)
    ensures !Decides(kw, toks, s')
    decreases |toks| - s
  {
    if s < s' {
      FirstAttemptFirst(kw, toks, s + 1, s');
    }
  }

  /** Reference definition of `FirstKeyword` on the text `toks[s..]`. A match
      found while the descent went on to the end of the text leaves no
      remaining text. */
  ghost function FirstKeywordSpec(kw: Dictionary, toks: seq<string>, s: nat): (r: ScanResult)
    requires s <= |toks|
    ensures s <= r.rest <= |toks|
    ensures !r.isMatch ==> r.rest == |toks| && r.longestMatch == ""
    ensures r.isMatch ==> s < r.rest
    ensures s == |toks| ==> !r.isMatch
  {
    var a := FirstAttempt(kw, toks, s);
    if a == |toks| then ScanResult(false, "", |toks|)
    else
      var d := Descent(kw, toks, a, a);
      match LastMatch(kw, toks, a, d)
      case None => ScanResult(false, "", |toks|)
      case Some(e) => ScanResult(true, kw[toks[a..e]], if d == |toks| then |toks| else e)
  }

  /** Reference definition of `ExtractKeywordsAsSlice` on `toks[s..]`: the clean
      words of the successive scans, each resuming where the previous one left
      off. */
  ghost function ExtractSpec(kw: Dictionary, toks: seq<string>, s: nat): (xs: seq<string>)
    requires s <= |toks|
    ensures |xs| <= |toks| - s
    decreases |toks| - s
  {
    var r := FirstKeywordSpec(kw, toks, s);
    if r.isMatch then [r.longestMatch] + ExtractSpec(kw, toks, r.rest) else []
  }

  /** A scan that finds a keyword contributes its clean word, and extraction
      resumes at the remaining text. */
  lemma ExtractResumes(kw: Dictionary, toks: seq<string>, s: nat)
    requires s <= |toks| && FirstKeywordSpec(kw, toks, s).isMatch
    ensures var r := FirstKeywordSpec(kw, toks, s);
            ExtractSpec(kw, toks, s) == [r.longestMatch] + ExtractSpec(kw, toks, r.rest)
  {
  }

  /** The keyword spans `(start, end)` behind `ExtractSpec(kw, toks, s)`. */
  ghost function ExtractSpans(kw: Dictionary, toks: seq<string>, s: nat): seq<(nat, nat)>
    requires s <= |toks|
    decreases |toks| - s
  {
    var r := FirstKeywordSpec(kw, toks, s);
    if r.isMatch then
      var a := FirstAttempt(kw, toks, s);
      [(a, LastMatch(kw, toks, a, Descent(kw, toks, a, a)).value)] + ExtractSpans(kw, toks, r.rest)
    else []
  }

  /** The text of a run of tokens begins with the text of any shorter run
      starting at the same token. */
  lemma {:induction false} ConcatPrefix(toks: seq<string>, b: nat, a: nat, c: nat)
    requires b <= a <= c <= |toks|
    ensures Concat(toks[b..a]) <= Concat(toks[b..c])
    decreases c
  {
    if a < c {
      ConcatPrefix(toks, b, a, c - 1);
      assert toks[b..c][..c - b - 1] == toks[b..c - 1];
    }
  }

  /** Reference definition of the output of `ReplaceKeywords` from the scan
      position `s` on, where the text not yet copied starts at index `b`: the
      first attempt from `s` on that decides the scan says what comes next. */
  ghost function ReplaceFrom(kw: Dictionary, toks: seq<string>, b: nat, s: nat): (out: string)
    requires b <= s <= |toks|
    ensures Concat(toks[b..s]) <= out
    decreases |toks| - s, 1
  {
    var a := FirstAttempt(kw, toks, s);
    ConcatPrefix(toks, b, s, a);
    ReplaceAt(kw, toks, b, a)
  }

  /** The output from the deciding attempt at `a` on. A found keyword replaces
      everything from its start up to the token that ended the descent, that
      token itself is copied but never starts an attempt, and a match found
      while the descent went on to the end of the text drops the rest of the
      text. Without a keyword the uncopied text is copied through. */
  ghost function ReplaceAt(kw: Dictionary, toks: seq<string>, b: nat, a: nat): (out: string)
    requires b <= a <= |toks|
    ensures Concat(toks[b..a]) <= out
    decreases |toks| - a, 0
  {
    if a == |toks| then assert toks[b..] == toks[b..a]; Concat(toks[b..])
    else
      var d := Descent(kw, toks, a, a);
      match LastMatch(kw, toks, a, d)
      case None =>
        ConcatPrefix(toks, b, a, |toks|);
        assert toks[b..] == toks[b..|toks|];
        Concat(toks[b..])
      case Some(e) =>
        if d == |toks| then Concat(toks[b..a]) + kw[toks[a..e]]
        else Concat(toks[b..a]) + kw[toks[a..e]] + ReplaceFrom(kw, toks, d, d + 1)
  }

  /** Reference definition of `ReplaceKeywords` on the whole text. */
  ghost function ReplaceSpec(kw: Dictionary, toks: seq<string>): string
  {
    ReplaceFrom(kw, toks, 0, 0)
  }

  /** No keyword of `kw` occurs in `toks` as a non-empty run of tokens. */
  ghost predicate MatchFree(kw: Dictionary, toks: seq<string>)
  {
    forall x, y :: 0 <= x < y <= |toks| ==> toks[x..y] !in kw
  }

  /** No keyword starting at `s` is longer than the descent from `s`. */
  lemma NoKeywordPastDescent(kw: Dictionary, toks: seq<string>, s: nat, e: nat)
    requires s <= |toks| && Descent(kw, toks, s, s) < e <= |toks|
    ensures toks[s..e] !in kw
  {
    var d := Descent(kw, toks, s, s);
    if toks[s..e] in kw {
      DescentLeaves(kw, toks, s, s);
      KeywordIsNodePath(kw, toks[s..e]);
      NodePathPrefix(kw, toks[s..d + 1], toks[s..e]);
    }
  }

  /** An attempt that does not decide the scan has no keyword starting where it
      starts. */
  lemma NoKeywordAtFailedAttempt(kw: Dictionary, toks: seq<string>, s: nat)
    requires s <= |toks| && !Decides(kw, toks, s)
    ensures forall e :: s < e <= |toks| ==> toks[s..e] !in kw
  {
    forall e | s < e <= |toks|
      ensures toks[s..e] !in kw
    {
      if Descent(kw, toks, s, s) < e {
        NoKeywordPastDescent(kw, toks, s, e);
      } else {
        LastMatchLongest(kw, toks, s, Descent(kw, toks, s, s), e);
      }
    }
  }

  /** A match is the longest keyword at the start of the deciding attempt, no
      keyword starts earlier in the scanned text, and the clean word returned is
      that keyword's. The remaining text starts right after the keyword, unless
      the descent that found it ran to the end of the text. */
  lemma FirstKeywordMatch(kw: Dictionary, toks: seq<string>, s: nat)
    requires s <= |toks| && FirstKeywordSpec(kw, toks, s).isMatch
    ensures var a := FirstAttempt(kw, toks, s);
            var d := Descent(kw, toks, a, a);
            var r := FirstKeywordSpec(kw, toks, s);
            && LastMatch(kw, toks, a, d).Some?
            && var e := LastMatch(kw, toks, a, d).value;
            && s <= a < e <= d <= |toks|
            && toks[a..e] in kw && r.longestMatch == kw[toks[a..e]]
            && (forall e' :: e < e' <= |toks| ==> toks[a..e'] !in kw)
            && (forall s', e' :: s <= s' < a && s' < e' <= |toks| ==> toks[s'..e'] !in kw)
            && r.rest == (if d == |toks| then |toks| else e)
  {
    var a := FirstAttempt(kw, toks, s);
    var d := Descent(kw, toks, a, a);
    forall e' | LastMatch(kw, toks, a, d).value < e' <= |toks|
      ensures toks[a..e'] !in kw
    {
      if d < e' {
        NoKeywordPastDescent(kw, toks, a, e');
      } else {
        LastMatchLongest(kw, toks, a, d, e');
      }
    }
    forall s', e' | s <= s' < a && s' < e' <= |toks|
      ensures toks[s'..e'] !in kw
    {
      FirstAttemptFirst(kw, toks, s, s');
      NoKeywordAtFailedAttempt(kw, toks, s');
    }
  }

  /** Without a match, no keyword starts at or before the deciding attempt,
      whose descent ran to the end of the text. Keywords starting later are
      not looked for. */
  lemma FirstKeywordNoMatch(kw: Dictionary, toks: seq<string>, s: nat)
    requires s <= |toks| && !FirstKeywordSpec(kw, toks, s).isMatch
    ensures var a := FirstAttempt(kw, toks, s);
            && (a < |toks| ==> Descent(kw, toks, a, a) == |toks|)
            && (forall s', e' :: s <= s' <= a && s' < e' <= |toks| ==> toks[s'..e'] !in kw)
  {
    var a := FirstAttempt(kw, toks, s);
    forall s', e' | s <= s' <= a && s' < e' <= |toks|
      ensures toks[s'..e'] !in kw
    {
      if s' < a {
        FirstAttemptFirst(kw, toks, s, s');
        NoKeywordAtFailedAttempt(kw, toks, s');
      } else {
        LastMatchLongest(kw, toks, a, Descent(kw, toks, a, a), e');
      }
    }
  }

  /** A text in which no keyword occurs gives no match. */
  lemma FirstKeywordMatchFree(kw: Dictionary, toks: seq<string>, s: nat)
    requires s <= |toks| && MatchFree(kw, toks)
    ensures FirstKeywordSpec(kw, toks, s) == ScanResult(false, "", |toks|)
  {
    if FirstKeywordSpec(kw, toks, s).isMatch {
      FirstKeywordMatch(kw, toks, s);
      assert false;
    }
  }

  /** The extracted clean words are, in order, the clean words of keywords
      occurring at strictly increasing, non-overlapping spans of the text. */
  lemma {:induction false} ExtractSpansSound(kw: Dictionary, toks: seq<string>, s: nat)
    requires s <= |toks|
    ensures var xs, sp := ExtractSpec(kw, toks, s), ExtractSpans(kw, toks, s);
            && |sp| == |xs|
            && (forall j :: 0 <= j < |sp| ==>
                  s <= sp[j].0 < sp[j].1 <= |toks| && toks[sp[j].0..sp[j].1] in kw && xs[j] == kw[toks[sp[j].0..sp[j].1]])
            && (forall j :: 0 < j < |sp| ==> sp[j - 1].1 <= sp[j].0)
    decreases |toks| - s
  {
    var r := FirstKeywordSpec(kw, toks, s);
    if r.isMatch {
      FirstKeywordMatch(kw, toks, s);
      ExtractSpansSound(kw, toks, r.rest);
    }
  }

  /** Every extracted clean word is the clean word of some keyword. */
  lemma ExtractCleanWords(kw: Dictionary, toks: seq<string>, s: nat)
    requires s <= |toks|
    ensures forall c :: c in ExtractSpec(kw, toks, s) ==> c in kw.Values
  {
    ExtractSpansSound(kw, toks, s);
    var xs, sp := ExtractSpec(kw, toks, s), ExtractSpans(kw, toks, s);
    forall c | c in xs
      ensures c in kw.Values
    {
      var j :| 0 <= j < |xs| && xs[j] == c;
      assert toks[sp[j].0..sp[j].1] in kw;
    }
  }

  /** An empty text, or one in which no keyword occurs, extracts nothing. */
  lemma ExtractMatchFree(kw: Dictionary, toks: seq<string>)
    requires |toks| == 0 || MatchFree(kw, toks)
    ensures ExtractSpec(kw, toks, 0) == []
  {
    if |toks| > 0 {
      FirstKeywordMatchFree(kw, toks, 0);
    }
  }

  /** When the scan finds nothing, the uncopied text is copied through. */
  lemma ReplaceFromMatchFree(kw: Dictionary, toks: seq<string>, b: nat, s: nat)
    requires b <= s <= |toks| && MatchFree(kw, toks)
    ensures ReplaceFrom(kw, toks, b, s) == Concat(toks[b..])
  {
    var a := FirstAttempt(kw, toks, s);
    if a < |toks| {
      assert LastMatch(kw, toks, a, Descent(kw, toks, a, a)).None?;
    }
  }

  /** Replacement is the identity whenever the first scan of the whole text
      finds no keyword: a keyword occurring only after the point where that
      scan gave up does not change the text either. */
  lemma ReplaceNoMatch(kw: Dictionary, toks: seq<string>)
    requires !FirstKeywordSpec(kw, toks, 0).isMatch
    ensures ReplaceSpec(kw, toks) == Concat(toks)
  {
    var a := FirstAttempt(kw, toks, 0);
    assert ReplaceSpec(kw, toks) == ReplaceAt(kw, toks, 0, a);
    if a < |toks| {
      assert LastMatch(kw, toks, a, Descent(kw, toks, a, a)).None?;
    }
    assert toks[0..] == toks;
  }

  /** Replacement is the identity on a text in which no keyword occurs, in
      particular whenever the dictionary is empty. */
  lemma ReplaceMatchFree(kw: Dictionary, toks: seq<string>)
    requires MatchFree(kw, toks) || kw == map[]
    ensures ReplaceSpec(kw, toks) == Concat(toks)
  {
    assert MatchFree(kw, toks);
    FirstKeywordMatchFree(kw, toks, 0);
    ReplaceNoMatch(kw, toks);
  }

  /** Two dictionaries that differ at most in the empty keyword agree on every
      non-empty phrase: it is a keyword of both or of neither, with the same
      clean word. */
  lemma KeywordOffRoot(kw: Dictionary, kw': Dictionary, p: seq<string>)
    requires kw - {[]} == kw' - {[]} && p != []
    ensures (p in kw <==> p in kw') && (p in kw ==> kw[p] == kw'[p])
  {
    assert p in kw <==> p in kw - {[]};
    assert p in kw' <==> p in kw' - {[]};
    if p in kw {
      assert kw[p] == (kw - {[]})[p] == (kw' - {[]})[p] == kw'[p];
    }
  }

  /** ... and have the same non-empty node paths. */
  lemma NodePathOffRoot(kw: Dictionary, kw': Dictionary, p: seq<string>)
    requires kw - {[]} == kw' - {[]} && p != []
    ensures IsNodePath(kw, p) <==> IsNodePath(kw', p)
  {
    if IsNodePath(kw, p) {
      var k :| k in kw && PrefixOf(p, k);
      KeywordOffRoot(kw, kw', k);
    }
    if IsNodePath(kw', p) {
      var k :| k in kw' && PrefixOf(p, k);
      KeywordOffRoot(kw, kw', k);
    }
  }

  /** Every path a descent tests is non-empty, so the empty keyword does not
      change where it stops. */
  lemma {:induction false} DescentOffRoot(kw: Dictionary, kw': Dictionary, toks: seq<string>, s: nat, e: nat)
    requires kw - {[]} == kw' - {[]} && s <= e <= |toks|
    ensures Descent(kw, toks, s, e) == Descent(kw', toks, s, e)
    decreases |toks| - e
  {
    if e < |toks| {
      NodePathOffRoot(kw, kw', toks[s..e + 1]);
      DescentOffRoot(kw, kw', toks, s, e + 1);
    }
  }

  /** Every keyword an attempt can meet is non-empty, so the empty keyword does
      not change the match it remembers. */
  lemma {:induction false} LastMatchOffRoot(kw: Dictionary, kw': Dictionary, toks: seq<string>, s: nat, e: nat)
    requires kw - {[]} == kw' - {[]} && s <= e <= |toks|
    ensures LastMatch(kw, toks, s, e) == LastMatch(kw', toks, s, e)
    decreases e
  {
    if e != s {
      KeywordOffRoot(kw, kw', toks[s..e]);
      LastMatchOffRoot(kw, kw', toks, s, e - 1);
    }
  }

  /** The empty keyword does not change which attempt decides a scan. */
  lemma {:induction false} FirstAttemptOffRoot(kw: Dictionary, kw': Dictionary, toks: seq<string>, s: nat)
    requires kw - {[]} == kw' - {[]} && s <= |toks|
    ensures FirstAttempt(kw, toks, s) == FirstAttempt(kw', toks, s)
    decreases |toks| - s
  {
    if s < |toks| {
      DescentOffRoot(kw, kw', toks, s, s);
      LastMatchOffRoot(kw, kw', toks, s, Descent(kw, toks, s, s));
      FirstAttemptOffRoot(kw, kw', toks, s + 1);
    }
  }

  /** The empty keyword does not change the result of a scan. */
  lemma FirstKeywordOffRoot(kw: Dictionary, kw': Dictionary, toks: seq<string>, s: nat)
    requires kw - {[]} == kw' - {[]} && s <= |toks|
    ensures FirstKeywordSpec(kw, toks, s) == FirstKeywordSpec(kw', toks, s)
  {
    FirstAttemptOffRoot(kw, kw', toks, s);
    var a := FirstAttempt(kw, toks, s);
    if a < |toks| {
      DescentOffRoot(kw, kw', toks, a, a);
      var d := Descent(kw, toks, a, a);
      LastMatchOffRoot(kw, kw', toks, a, d);
      if LastMatch(kw, toks, a, d).Some? {
        KeywordOffRoot(kw, kw', toks[a..LastMatch(kw, toks, a, d).value]);
      }
    }
  }

  /** The empty keyword does not change what is extracted. */
  lemma {:induction false} ExtractOffRoot(kw: Dictionary, kw': Dictionary, toks: seq<string>, s: nat)
    requires kw - {[]} == kw' - {[]} && s <= |toks|
    ensures ExtractSpec(kw, toks, s) == ExtractSpec(kw', toks, s)
    decreases |toks| - s
  {
    FirstKeywordOffRoot(kw, kw', toks, s);
    var r := FirstKeywordSpec(kw, toks, s);
    if r.isMatch {
      ExtractOffRoot(kw, kw', toks, r.rest);
    }
  }

  /** The empty keyword does not change the output of a replacement. */
  lemma {:induction false} ReplaceFromOffRoot(kw: Dictionary, kw': Dictionary, toks: seq<string>, b: nat, s: nat)
    requires kw - {[]} == kw' - {[]} && b <= s <= |toks|
    ensures ReplaceFrom(kw, toks, b, s) == ReplaceFrom(kw', toks, b, s)
    decreases |toks| - s, 1
  {
    FirstAttemptOffRoot(kw, kw', toks, s);
    ReplaceAtOffRoot(kw, kw', toks, b, FirstAttempt(kw, toks, s));
  }

  /** The same, from a deciding attempt on. */
  lemma {:induction false} ReplaceAtOffRoot(kw: Dictionary, kw': Dictionary, toks: seq<string>, b: nat, a: nat)
    requires kw - {[]} == kw' - {[]} && b <= a <= |toks|
    ensures ReplaceAt(kw, toks, b, a) == ReplaceAt(kw', toks, b, a)
    decreases |toks| - a, 0
  {
    if a < |toks| {
      DescentOffRoot(kw, kw', toks, a, a);
      var d := Descent(kw, toks, a, a);
      LastMatchOffRoot(kw, kw', toks, a, d);
      if LastMatch(kw, toks, a, d).Some? {
        KeywordOffRoot(kw, kw', toks[a..LastMatch(kw, toks, a, d).value]);
        if d < |toks| {
          ReplaceFromOffRoot(kw, kw', toks, d, d + 1);
        }
      }
    }
  }

  /** Inserting the empty keyword, which marks the root, changes none of the
      scans: the first keyword, the extracted keywords and the replaced text
      are those of the dictionary without it. */
  lemma EmptyKeywordIgnored(kw: Dictionary, c: string, toks: seq<string>, s: nat)
    requires s <= |toks|
    ensures FirstKeywordSpec(kw[[] := c], toks, s) == FirstKeywordSpec(kw - {[]}, toks, s)
    ensures ExtractSpec(kw[[] := c], toks, s) == ExtractSpec(kw - {[]}, toks, s)
    ensures ReplaceSpec(kw[[] := c], toks) == ReplaceSpec(kw - {[]}, toks)
  {
    assert kw[[] := c] - {[]} == (kw - {[]}) - {[]};
    FirstKeywordOffRoot(kw[[] := c], kw - {[]}, toks, s);
    ExtractOffRoot(kw[[] := c], kw - {[]}, toks, s);
    ReplaceFromOffRoot(kw[[] := c], kw - {[]}, toks, 0, 0);
  }

  /** In particular a dictionary holding only the empty keyword finds nothing,
      whatever clean word it carries. */
  lemma EmptyKeywordNeverScanned(c: string, toks: seq<string>, s: nat)
    requires s <= |toks|
    ensures !FirstKeywordSpec(map[[] := c], toks, s).isMatch
  {
    var none: Dictionary := map[];
    EmptyKeywordIgnored(none, c, toks, s);
    assert none[[] := c] == map[[] := c];
    FirstKeywordMatchFree(none - {[]}, toks, s);
  }
}
