/**
  The loops of `FirstKeyword` and `ReplaceKeywords`, step by step. Each loop
  is described twice as a recursive function that takes one token per call:
  once asking the dictionary what the trie answers (`...Steps`), once
  following the arena's edges exactly as the loop does (`...Run`). The
  lemmas here show that on an arena representing the dictionary the two
  agree, and that the dictionary version computes the reference definitions
  of module `Scan`; the methods then only have to keep their state equal to
  the arena version.
 */
module Runs {
  import opened Trie
  import opened Scan

  /** The attempt starting at `start` has read `toks[start..i]`, all of it a
      trie path, and `isMatch` tells whether it has met a keyword. */
  ghost predicate Attempting(kw: Dictionary, toks: seq<string>, start: nat, i: nat, isMatch: bool)
  {
    && start <= i <= |toks|
    && IsNodePath(kw, toks[start..i])
    && Descent(kw, toks, start, start) == Descent(kw, toks, start, i)
    && isMatch == LastMatch(kw, toks, start, i).Some?
  }

  /** An attempt begins having read nothing. */
  lemma AttemptStart(kw: Dictionary, toks: seq<string>, s: nat)
    requires s <= |toks|
    ensures Attempting(kw, toks, s, s, false)
  {
    assert toks[s..s] == [];
  }

  /** Reading one more token that extends a trie path continues the attempt,
      and the keywords met are those met before and possibly the path read. */
  lemma AttemptExtend(kw: Dictionary, toks: seq<string>, start: nat, i: nat, isMatch: bool)
    requires Attempting(kw, toks, start, i, isMatch)
    requires i < |toks| && IsNodePath(kw, toks[start..i + 1])
    ensures Attempting(kw, toks, start, i + 1, isMatch || toks[start..i + 1] in kw)
    ensures LastMatch(kw, toks, start, i + 1) ==
              if toks[start..i + 1] in kw then Some(i + 1) else LastMatch(kw, toks, start, i)
  {
  }

  /** A token that leaves the trie ends the attempt where it stands. */
  lemma AttemptStop(kw: Dictionary, toks: seq<string>, start: nat, i: nat, isMatch: bool)
    requires Attempting(kw, toks, start, i, isMatch)
    requires i < |toks| && !IsNodePath(kw, toks[start..i + 1])
    ensures Descent(kw, toks, start, start) == i
    ensures Decides(kw, toks, start) == isMatch
  {
    assert Descent(kw, toks, start, i) == i;
  }

  /** An attempt that reads the text to its end decides the scan. */
  lemma AttemptEnd(kw: Dictionary, toks: seq<string>, start: nat, isMatch: bool)
    requires Attempting(kw, toks, start, |toks|, isMatch)
    ensures Decides(kw, toks, start) && Descent(kw, toks, start, start) == |toks|
  {
  }

  /** The state of `FirstKeyword`'s loop scanning `toks[i0..]`: an attempt is
      under way at `start`; `longestMatch` and `afterKeyword` record the
      deepest keyword it has met; and it decides the same scan as the one from
      `i0`. */
  ghost predicate Scanning(kw: Dictionary, toks: seq<string>, i0: nat, start: nat, i: nat,
                           isMatch: bool, longestMatch: string, afterKeyword: nat)
  {
    && i0 <= start
    && Attempting(kw, toks, start, i, isMatch)
    && (isMatch ==> afterKeyword == LastMatch(kw, toks, start, i).value && longestMatch == kw[toks[start..afterKeyword]])
    && (!isMatch ==> longestMatch == "")
    && FirstAttempt(kw, toks, i0) == FirstAttempt(kw, toks, start)
  }

  /** The scan from `i0` begins with an empty attempt at `i0`. */
  lemma ScanningStart(kw: Dictionary, toks: seq<string>, i0: nat)
    requires i0 <= |toks|
    ensures Scanning(kw, toks, i0, i0, i0, false, "", 0)
  {
    AttemptStart(kw, toks, i0);
  }

  /** Reading one more token that extends a trie path continues the attempt,
      recording the keyword it completes, if it completes one. */
  lemma ScanningExtend(kw: Dictionary, toks: seq<string>, i0: nat, start: nat, i: nat,
                       isMatch: bool, longestMatch: string, afterKeyword: nat)
    requires Scanning(kw, toks, i0, start, i, isMatch, longestMatch, afterKeyword)
    requires i < |toks| && IsNodePath(kw, toks[start..i + 1])
    ensures toks[start..i + 1] in kw ==>
              Scanning(kw, toks, i0, start, i + 1, true, kw[toks[start..i + 1]], i + 1)
    ensures toks[start..i + 1] !in kw ==>
              Scanning(kw, toks, i0, start, i + 1, isMatch, longestMatch, afterKeyword)
  {
    AttemptExtend(kw, toks, start, i, isMatch);
  }

  /** A token that leaves the trie ends the attempt: with a keyword recorded
      the scan is decided and returns it, otherwise the next attempt starts one
      token after this one. */
  lemma ScanningStop(kw: Dictionary, toks: seq<string>, i0: nat, start: nat, i: nat,
                     isMatch: bool, longestMatch: string, afterKeyword: nat)
    requires Scanning(kw, toks, i0, start, i, isMatch, longestMatch, afterKeyword)
    requires i < |toks| && !IsNodePath(kw, toks[start..i + 1])
    ensures isMatch ==> FirstKeywordSpec(kw, toks, i0) == ScanResult(true, longestMatch, afterKeyword)
    ensures !isMatch ==> Scanning(kw, toks, i0, start + 1, start + 1, false, "", afterKeyword)
  {
    AttemptStop(kw, toks, start, i, isMatch);
    AttemptStart(kw, toks, start + 1);
  }

  /** Reaching the end of the text decides the scan. */
  lemma ScanningEnd(kw: Dictionary, toks: seq<string>, i0: nat, start: nat,
                    isMatch: bool, longestMatch: string, afterKeyword: nat)
    requires Scanning(kw, toks, i0, start, |toks|, isMatch, longestMatch, afterKeyword)
    ensures FirstKeywordSpec(kw, toks, i0) == ScanResult(isMatch, longestMatch, |toks|)
  {
    AttemptEnd(kw, toks, start, isMatch);
  }

  /** An attempt that does not decide the scan outputs nothing. */
  lemma ReplaceFromSkip(kw: Dictionary, toks: seq<string>, b: nat, s: nat)
    requires b <= s < |toks| && !Decides(kw, toks, s)
    ensures ReplaceFrom(kw, toks, b, s) == ReplaceFrom(kw, toks, b, s + 1)
  {
    assert FirstAttempt(kw, toks, s) == FirstAttempt(kw, toks, s + 1);
  }

  /** An attempt that meets a keyword and then a token leaving the trie outputs
      the text before it and the keyword's clean word, and replacement goes on
      from that token. */
  lemma ReplaceFromMatch(kw: Dictionary, toks: seq<string>, b: nat, s: nat, d: nat, e: nat)
    requires b <= s < |toks| && Descent(kw, toks, s, s) == d < |toks|
    requires LastMatch(kw, toks, s, d) == Some(e)
    ensures ReplaceFrom(kw, toks, b, s) == Concat(toks[b..s]) + kw[toks[s..e]] + ReplaceFrom(kw, toks, d, d + 1)
  {
    assert Decides(kw, toks, s);
    assert FirstAttempt(kw, toks, s) == s;
  }

  /** The state of `ReplaceKeywords`'s loop: `out` is the output so far, the
      text from `before` on is not yet copied, and an attempt is under way at
      `start` with `longestMatch` the clean word of the deepest keyword it has
      met; `goal` is what the whole output is to be. */
  ghost predicate Replacing(kw: Dictionary, toks: seq<string>, goal: string, out: string, before: nat, start: nat, i: nat,
                            isMatch: bool, longestMatch: string)
  {
    && before <= start
    && Attempting(kw, toks, start, i, isMatch)
    && (isMatch ==> longestMatch == kw[toks[start..LastMatch(kw, toks, start, i).value]])
    && out + ReplaceFrom(kw, toks, before, start) == goal
  }

  /** Replacement begins with nothing copied and an empty attempt at the start. */
  lemma ReplacingStart(kw: Dictionary, toks: seq<string>)
    ensures Replacing(kw, toks, ReplaceSpec(kw, toks), "", 0, 0, 0, false, "")
  {
    AttemptStart(kw, toks, 0);
  }

  /** Reading one more token that extends a trie path continues the attempt. */
  lemma ReplacingExtend(kw: Dictionary, toks: seq<string>, goal: string, out: string, before: nat, start: nat, i: nat,
                        isMatch: bool, longestMatch: string)
    requires Replacing(kw, toks, goal, out, before, start, i, isMatch, longestMatch)
    requires i < |toks| && IsNodePath(kw, toks[start..i + 1])
    ensures toks[start..i + 1] in kw ==>
              Replacing(kw, toks, goal, out, before, start, i + 1, true, kw[toks[start..i + 1]])
    ensures toks[start..i + 1] !in kw ==>
              Replacing(kw, toks, goal, out, before, start, i + 1, isMatch, longestMatch)
  {
    AttemptExtend(kw, toks, start, i, isMatch);
  }

  /** A token that leaves the trie ends an attempt that has met a keyword:
      the text before the attempt and the keyword's clean word are output, and
      the token itself stays to be copied, the next attempt starting after it. */
  lemma ReplacingMatch(kw: Dictionary, toks: seq<string>, goal: string, out: string, before: nat, start: nat, i: nat,
                       longestMatch: string)
    requires Replacing(kw, toks, goal, out, before, start, i, true, longestMatch)
    requires i < |toks| && !IsNodePath(kw, toks[start..i + 1])
    ensures Replacing(kw, toks, goal, out + Concat(toks[before..start]) + longestMatch, i, i + 1, i + 1, false, longestMatch)
  {
    AttemptStop(kw, toks, start, i, true);
    AttemptStart(kw, toks, i + 1);
    ReplaceFromMatch(kw, toks, before, start, i, LastMatch(kw, toks, start, i).value);
    assert out + (Concat(toks[before..start]) + longestMatch + ReplaceFrom(kw, toks, i, i + 1))
        == out + Concat(toks[before..start]) + longestMatch + ReplaceFrom(kw, toks, i, i + 1);
  }

  /** A token that leaves the trie ends an attempt that has met no keyword:
      the next attempt starts one token after this one. */
  lemma ReplacingSkip(kw: Dictionary, toks: seq<string>, goal: string, out: string, before: nat, start: nat, i: nat,
                      longestMatch: string)
    requires Replacing(kw, toks, goal, out, before, start, i, false, longestMatch)
    requires i < |toks| && !IsNodePath(kw, toks[start..i + 1])
    ensures Replacing(kw, toks, goal, out, before, start + 1, start + 1, false, longestMatch)
  {
    AttemptStop(kw, toks, start, i, false);
    AttemptStart(kw, toks, start + 1);
    ReplaceFromSkip(kw, toks, before, start);
  }

  /** Reaching the end of the text completes the output: the clean word of a
      recorded keyword replaces the rest of the text, and without one the rest
      is copied. */
  lemma ReplacingEnd(kw: Dictionary, toks: seq<string>, goal: string, out: string, before: nat, start: nat,
                     isMatch: bool, longestMatch: string)
    requires Replacing(kw, toks, goal, out, before, start, |toks|, isMatch, longestMatch)
    ensures isMatch ==> out + Concat(toks[before..start]) + longestMatch == goal
    ensures !isMatch ==> out + Concat(toks[before..]) == goal
  {
    AttemptEnd(kw, toks, start, isMatch);
    assert FirstAttempt(kw, toks, start) == start;
    assert ReplaceFrom(kw, toks, before, start) == ReplaceAt(kw, toks, before, start);
    if start < |toks| {
      assert Descent(kw, toks, start, start) == |toks|;
    }
  }

  /** What `FirstKeyword`'s loop returns when it goes on from the state where
      the attempt starting at `start` has read `toks[start..i]`, taking one
      token at a time and asking the dictionary what the trie would answer. */
  ghost function FirstKeywordSteps(kw: Dictionary, toks: seq<string>, start: nat, i: nat,
                                   isMatch: bool, longestMatch: string, afterKeyword: nat): ScanResult
    requires start <= i <= |toks|
    decreases |toks| - start, |toks| - i
  {
    if i == |toks| then ScanResult(isMatch, longestMatch, i)
    else if IsNodePath(kw, toks[start..i + 1]) then
      if toks[start..i + 1] in kw then FirstKeywordSteps(kw, toks, start, i + 1, true, kw[toks[start..i + 1]], i + 1)
      else FirstKeywordSteps(kw, toks, start, i + 1, isMatch, longestMatch, afterKeyword)
    else if isMatch then ScanResult(true, longestMatch, afterKeyword)
    else FirstKeywordSteps(kw, toks, start + 1, start + 1, false, longestMatch, afterKeyword)
  }

  /** From any state of the loop, the token-by-token run ends in the result
      `FirstKeywordSpec` describes. */
  lemma {:induction false} FirstKeywordStepsScanning(kw: Dictionary, toks: seq<string>, i0: nat, start: nat, i: nat,
                                                     isMatch: bool, longestMatch: string, afterKeyword: nat)
    requires Scanning(kw, toks, i0, start, i, isMatch, longestMatch, afterKeyword)
    ensures FirstKeywordSteps(kw, toks, start, i, isMatch, longestMatch, afterKeyword) == FirstKeywordSpec(kw, toks, i0)
    decreases |toks| - start, |toks| - i, 1
  {
    if i == |toks| {
      ScanningEnd(kw, toks, i0, start, isMatch, longestMatch, afterKeyword);
    } else if IsNodePath(kw, toks[start..i + 1]) {
      FirstKeywordStepsExtend(kw, toks, i0, start, i, isMatch, longestMatch, afterKeyword);
    } else {
      FirstKeywordStepsStop(kw, toks, i0, start, i, isMatch, longestMatch, afterKeyword);
    }
  }

  /** `FirstKeywordStepsScanning` for a token that extends a trie path. */
  lemma {:induction false} FirstKeywordStepsExtend(kw: Dictionary, toks: seq<string>, i0: nat, start: nat, i: nat,
                                                   isMatch: bool, longestMatch: string, afterKeyword: nat)
    requires Scanning(kw, toks, i0, start, i, isMatch, longestMatch, afterKeyword)
    requires i < |toks| && IsNodePath(kw, toks[start..i + 1])
    ensures FirstKeywordSteps(kw, toks, start, i, isMatch, longestMatch, afterKeyword) == FirstKeywordSpec(kw, toks, i0)
    decreases |toks| - start, |toks| - i, 0
  {
    ScanningExtend(kw, toks, i0, start, i, isMatch, longestMatch, afterKeyword);
    if toks[start..i + 1] in kw {
      FirstKeywordStepsScanning(kw, toks, i0, start, i + 1, true, kw[toks[start..i + 1]], i + 1);
    } else {
      FirstKeywordStepsScanning(kw, toks, i0, start, i + 1, isMatch, longestMatch, afterKeyword);
    }
  }

  /** `FirstKeywordStepsScanning` for a token that leaves the trie. */
  lemma {:induction false} FirstKeywordStepsStop(kw: Dictionary, toks: seq<string>, i0: nat, start: nat, i: nat,
                                                 isMatch: bool, longestMatch: string, afterKeyword: nat)
    requires Scanning(kw, toks, i0, start, i, isMatch, longestMatch, afterKeyword)
    requires i < |toks| && !IsNodePath(kw, toks[start..i + 1])
    ensures FirstKeywordSteps(kw, toks, start, i, isMatch, longestMatch, afterKeyword) == FirstKeywordSpec(kw, toks, i0)
    decreases |toks| - start, |toks| - i, 0
  {
    ScanningStop(kw, toks, i0, start, i, isMatch, longestMatch, afterKeyword);
    if !isMatch {
      FirstKeywordStepsScanning(kw, toks, i0, start + 1, start + 1, false, longestMatch, afterKeyword);
    }
  }

  /** What `FirstKeyword`'s loop returns when it goes on from the state where
      the attempt starting at `start` has read `toks[start..i]` and stands at
      node `node` of the arena, following the arena's edges token by token. */
  ghost function FirstKeywordRun(nodes: seq<Node>, toks: seq<string>, start: nat, i: nat, node: nat,
                                 isMatch: bool, longestMatch: string, afterKeyword: nat): ScanResult
    requires start <= i <= |toks|
    decreases |toks| - start, |toks| - i
  {
    if i == |toks| then ScanResult(isMatch, longestMatch, i)
    else match Step(nodes, node, toks[i])
      case Some(c) =>
        if c < |nodes| && nodes[c].endOfWord then
          FirstKeywordRun(nodes, toks, start, i + 1, c, true, nodes[c].cleanWord, i + 1)
        else FirstKeywordRun(nodes, toks, start, i + 1, c, isMatch, longestMatch, afterKeyword)
      case None =>
        if isMatch then ScanResult(true, longestMatch, afterKeyword)
        else FirstKeywordRun(nodes, toks, start + 1, start + 1, Root, false, longestMatch, afterKeyword)
  }

  /** On an arena representing `kw`, following the arena's edges answers as
      the dictionary does. */
  lemma {:induction false} FirstKeywordRunSteps(nodes: seq<Node>, kw: Dictionary, toks: seq<string>,
                                                start: nat, i: nat, node: nat,
                                                isMatch: bool, longestMatch: string, afterKeyword: nat)
    requires Represents(nodes, kw, []) && start <= i <= |toks|
    requires Walk(nodes, toks[start..i]) == Some(node)
    ensures FirstKeywordRun(nodes, toks, start, i, node, isMatch, longestMatch, afterKeyword)
              == FirstKeywordSteps(kw, toks, start, i, isMatch, longestMatch, afterKeyword)
    decreases |toks| - start, |toks| - i, 1
  {
    if i < |toks| {
      if Step(nodes, node, toks[i]).Some? {
        FirstKeywordRunDescend(nodes, kw, toks, start, i, node, isMatch, longestMatch, afterKeyword);
      } else {
        FirstKeywordRunLeave(nodes, kw, toks, start, i, node, isMatch, longestMatch, afterKeyword);
      }
    }
  }

  /** `FirstKeywordRunSteps` for a token with an edge out of the current node. */
  lemma {:induction false} FirstKeywordRunDescend(nodes: seq<Node>, kw: Dictionary, toks: seq<string>,
                                                  start: nat, i: nat, node: nat,
                                                  isMatch: bool, longestMatch: string, afterKeyword: nat)
    requires Represents(nodes, kw, []) && start <= i < |toks|
    requires Walk(nodes, toks[start..i]) == Some(node) && Step(nodes, node, toks[i]).Some?
    ensures FirstKeywordRun(nodes, toks, start, i, node, isMatch, longestMatch, afterKeyword)
              == FirstKeywordSteps(kw, toks, start, i, isMatch, longestMatch, afterKeyword)
    decreases |toks| - start, |toks| - i, 0
  {
    StepSlice(nodes, kw, toks, start, i, node);
    var c := nodes[node].children[toks[i]];
    if nodes[c].endOfWord {
      FirstKeywordRunSteps(nodes, kw, toks, start, i + 1, c, true, nodes[c].cleanWord, i + 1);
    } else {
      FirstKeywordRunSteps(nodes, kw, toks, start, i + 1, c, isMatch, longestMatch, afterKeyword);
    }
  }

  /** `FirstKeywordRunSteps` for a token without an edge out of the current node. */
  lemma {:induction false} FirstKeywordRunLeave(nodes: seq<Node>, kw: Dictionary, toks: seq<string>,
                                                start: nat, i: nat, node: nat,
                                                isMatch: bool, longestMatch: string, afterKeyword: nat)
    requires Represents(nodes, kw, []) && start <= i < |toks|
    requires Walk(nodes, toks[start..i]) == Some(node) && Step(nodes, node, toks[i]).None?
    ensures FirstKeywordRun(nodes, toks, start, i, node, isMatch, longestMatch, afterKeyword)
              == FirstKeywordSteps(kw, toks, start, i, isMatch, longestMatch, afterKeyword)
    decreases |toks| - start, |toks| - i, 0
  {
    StepSlice(nodes, kw, toks, start, i, node);
    if !isMatch {
      assert toks[start + 1..start + 1] == [];
      FirstKeywordRunSteps(nodes, kw, toks, start + 1, start + 1, Root, false, longestMatch, afterKeyword);
    }
  }

  /** On an arena representing `kw`, the run from `i0` at the root computes
      `FirstKeywordSpec`. */
  lemma FirstKeywordRunSpec(nodes: seq<Node>, kw: Dictionary, toks: seq<string>, i0: nat)
    requires Represents(nodes, kw, []) && i0 <= |toks|
    ensures FirstKeywordRun(nodes, toks, i0, i0, Root, false, "", 0) == FirstKeywordSpec(kw, toks, i0)
  {
    ScanningStart(kw, toks, i0);
    FirstKeywordStepsScanning(kw, toks, i0, i0, i0, false, "", 0);
    assert toks[i0..i0] == [];
    FirstKeywordRunSteps(nodes, kw, toks, i0, i0, Root, false, "", 0);
  }

  /** The output `ReplaceKeywords`'s loop ends with when it goes on from the
      state where `out` has been written, the text from `before` on is not yet
      copied, and the attempt starting at `start` has read `toks[start..i]`,
      taking one token at a time and asking the dictionary what the trie would
      answer. */
  ghost function ReplaceSteps(kw: Dictionary, toks: seq<string>, out: string, before: nat, start: nat, i: nat,
                              isMatch: bool, longestMatch: string): string
    requires before <= start <= i <= |toks|
    decreases |toks| - start, |toks| - i
  {
    if i == |toks| then
      if isMatch then out + Concat(toks[before..start]) + longestMatch else out + Concat(toks[before..])
    else if IsNodePath(kw, toks[start..i + 1]) then
      if toks[start..i + 1] in kw then ReplaceSteps(kw, toks, out, before, start, i + 1, true, kw[toks[start..i + 1]])
      else ReplaceSteps(kw, toks, out, before, start, i + 1, isMatch, longestMatch)
    else if isMatch then
      ReplaceSteps(kw, toks, out + Concat(toks[before..start]) + longestMatch, i, i + 1, i + 1, false, longestMatch)
    else ReplaceSteps(kw, toks, out, before, start + 1, start + 1, false, longestMatch)
  }

  /** From any state of the loop, the token-by-token run ends with the output
      `ReplaceSpec` describes. */
  lemma {:induction false} ReplaceStepsReplacing(kw: Dictionary, toks: seq<string>, goal: string, out: string,
                                                 before: nat, start: nat, i: nat, isMatch: bool, longestMatch: string)
    requires Replacing(kw, toks, goal, out, before, start, i, isMatch, longestMatch)
    ensures ReplaceSteps(kw, toks, out, before, start, i, isMatch, longestMatch) == goal
    decreases |toks| - start, |toks| - i, 1
  {
    if i == |toks| {
      ReplacingEnd(kw, toks, goal, out, before, start, isMatch, longestMatch);
    } else if IsNodePath(kw, toks[start..i + 1]) {
      ReplaceStepsExtend(kw, toks, goal, out, before, start, i, isMatch, longestMatch);
    } else {
      ReplaceStepsStop(kw, toks, goal, out, before, start, i, isMatch, longestMatch);
    }
  }

  /** `ReplaceStepsReplacing` for a token that extends a trie path. */
  lemma {:induction false} ReplaceStepsExtend(kw: Dictionary, toks: seq<string>, goal: string, out: string,
                                              before: nat, start: nat, i: nat, isMatch: bool, longestMatch: string)
    requires Replacing(kw, toks, goal, out, before, start, i, isMatch, longestMatch)
    requires i < |toks| && IsNodePath(kw, toks[start..i + 1])
    ensures ReplaceSteps(kw, toks, out, before, start, i, isMatch, longestMatch) == goal
    decreases |toks| - start, |toks| - i, 0
  {
    ReplacingExtend(kw, toks, goal, out, before, start, i, isMatch, longestMatch);
    if toks[start..i + 1] in kw {
      ReplaceStepsReplacing(kw, toks, goal, out, before, start, i + 1, true, kw[toks[start..i + 1]]);
    } else {
      ReplaceStepsReplacing(kw, toks, goal, out, before, start, i + 1, isMatch, longestMatch);
    }
  }

  /** `ReplaceStepsReplacing` for a token that leaves the trie. */
  lemma {:induction false} ReplaceStepsStop(kw: Dictionary, toks: seq<string>, goal: string, out: string,
                                            before: nat, start: nat, i: nat, isMatch: bool, longestMatch: string)
    requires Replacing(kw, toks, goal, out, before, start, i, isMatch, longestMatch)
    requires i < |toks| && !IsNodePath(kw, toks[start..i + 1])
    ensures ReplaceSteps(kw, toks, out, before, start, i, isMatch, longestMatch) == goal
    decreases |toks| - start, |toks| - i, 0
  {
    if isMatch {
      ReplacingMatch(kw, toks, goal, out, before, start, i, longestMatch);
      ReplaceStepsReplacing(kw, toks, goal, out + Concat(toks[before..start]) + longestMatch, i, i + 1, i + 1, false, longestMatch);
    } else {
      ReplacingSkip(kw, toks, goal, out, before, start, i, longestMatch);
      ReplaceStepsReplacing(kw, toks, goal, out, before, start + 1, start + 1, false, longestMatch);
    }
  }

  /** The output `ReplaceKeywords`'s loop ends with when it goes on from the
      state where `out` has been written, the text from `before` on is not yet
      copied, and the attempt starting at `start` has read `toks[start..i]` and
      stands at node `node`, following the arena's edges token by token. */
  ghost function ReplaceRun(nodes: seq<Node>, toks: seq<string>, out: string, before: nat, start: nat, i: nat,
                            node: nat, isMatch: bool, longestMatch: string): string
    requires before <= start <= i <= |toks|
    decreases |toks| - start, |toks| - i
  {
    if i == |toks| then
      if isMatch then out + Concat(toks[before..start]) + longestMatch else out + Concat(toks[before..])
    else match Step(nodes, node, toks[i])
      case Some(c) =>
        if c < |nodes| && nodes[c].endOfWord then
          ReplaceRun(nodes, toks, out, before, start, i + 1, c, true, nodes[c].cleanWord)
        else ReplaceRun(nodes, toks, out, before, start, i + 1, c, isMatch, longestMatch)
      case None =>
        if isMatch then
          ReplaceRun(nodes, toks, out + Concat(toks[before..start]) + longestMatch, i, i + 1, i + 1, Root, false, longestMatch)
        else ReplaceRun(nodes, toks, out, before, start + 1, start + 1, Root, false, longestMatch)
  }

  /** On an arena representing `kw`, following the arena's edges answers as
      the dictionary does. */
  lemma {:induction false} ReplaceRunSteps(nodes: seq<Node>, kw: Dictionary, toks: seq<string>, out: string,
                                           before: nat, start: nat, i: nat, node: nat,
                                           isMatch: bool, longestMatch: string)
    requires Represents(nodes, kw, []) && before <= start <= i <= |toks|
    requires Walk(nodes, toks[start..i]) == Some(node)
    ensures ReplaceRun(nodes, toks, out, before, start, i, node, isMatch, longestMatch)
              == ReplaceSteps(kw, toks, out, before, start, i, isMatch, longestMatch)
    decreases |toks| - start, |toks| - i, 1
  {
    if i < |toks| {
      if Step(nodes, node, toks[i]).Some? {
        ReplaceRunDescend(nodes, kw, toks, out, before, start, i, node, isMatch, longestMatch);
      } else {
        ReplaceRunLeave(nodes, kw, toks, out, before, start, i, node, isMatch, longestMatch);
      }
    }
  }

  /** `ReplaceRunSteps` for a token with an edge out of the current node. */
  lemma {:induction false} ReplaceRunDescend(nodes: seq<Node>, kw: Dictionary, toks: seq<string>, out: string,
                                             before: nat, start: nat, i: nat, node: nat,
                                             isMatch: bool, longestMatch: string)
    requires Represents(nodes, kw, []) && before <= start <= i < |toks|
    requires Walk(nodes, toks[start..i]) == Some(node) && Step(nodes, node, toks[i]).Some?
    ensures ReplaceRun(nodes, toks, out, before, start, i, node, isMatch, longestMatch)
              == ReplaceSteps(kw, toks, out, before, start, i, isMatch, longestMatch)
    decreases |toks| - start, |toks| - i, 0
  {
    StepSlice(nodes, kw, toks, start, i, node);
    var c := nodes[node].children[toks[i]];
    if nodes[c].endOfWord {
      ReplaceRunSteps(nodes, kw, toks, out, before, start, i + 1, c, true, nodes[c].cleanWord);
    } else {
      ReplaceRunSteps(nodes, kw, toks, out, before, start, i + 1, c, isMatch, longestMatch);
    }
  }

  /** `ReplaceRunSteps` for a token without an edge out of the current node. */
  lemma {:induction false} ReplaceRunLeave(nodes: seq<Node>, kw: Dictionary, toks: seq<string>, out: string,
                                           before: nat, start: nat, i: nat, node: nat,
                                           isMatch: bool, longestMatch: string)
    requires Represents(nodes, kw, []) && before <= start <= i < |toks|
    requires Walk(nodes, toks[start..i]) == Some(node) && Step(nodes, node, toks[i]).None?
    ensures ReplaceRun(nodes, toks, out, before, start, i, node, isMatch, longestMatch)
              == ReplaceSteps(kw, toks, out, before, start, i, isMatch, longestMatch)
    decreases |toks| - start, |toks| - i, 0
  {
    StepSlice(nodes, kw, toks, start, i, node);
    if isMatch {
      assert toks[i + 1..i + 1] == [];
      ReplaceRunSteps(nodes, kw, toks, out + Concat(toks[before..start]) + longestMatch, i, i + 1, i + 1, Root, false, longestMatch);
    } else {
      assert toks[start + 1..start + 1] == [];
      ReplaceRunSteps(nodes, kw, toks, out, before, start + 1, start + 1, Root, false, longestMatch);
    }
  }

  /** On an arena representing `kw`, the run from the start of the text at the
      root outputs `ReplaceSpec`. */
  lemma ReplaceRunSpec(nodes: seq<Node>, kw: Dictionary, toks: seq<string>)
    requires Represents(nodes, kw, [])
    ensures ReplaceRun(nodes, toks, "", 0, 0, 0, Root, false, "") == ReplaceSpec(kw, toks)
  {
    ReplacingStart(kw, toks);
    ReplaceStepsReplacing(kw, toks, ReplaceSpec(kw, toks), "", 0, 0, 0, false, "");
    assert toks[0..0] == [];
    ReplaceRunSteps(nodes, kw, toks, "", 0, 0, 0, Root, false, "");
  }
}
