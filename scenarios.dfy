/**
  Concrete scans from the repository's tests and a few that show how the scan
  treats the end of the text, worked out on the reference definitions. Texts
  and keywords are written as the tokens the word tokenizer cuts them into:
  each word, space and punctuation mark is one token.

  The first lemmas below take one step of the reference definitions on a
  concrete text; each scenario chains them.
 */
module Scenarios {
  import opened Trie
  import opened Scan
  import opened Runs
  import opened Flashtext

  /** `p` is not a token-prefix of `k`: `k` ends first, or the two differ at
      some token. Unlike `<=` it is decided token by token on literals. */
  predicate Differs(p: seq<string>, k: seq<string>)
  {
    if p == [] then false else if k == [] then true else p[0] != k[0] || Differs(p[1..], k[1..])
  }

  /** `Differs` rules out the prefix relation. */
  lemma {:induction false} DiffersNotPrefix(p: seq<string>, k: seq<string>)
    requires Differs(p, k)
    ensures !(p <= k)
  {
    if p != [] && k != [] && p[0] == k[0] {
      assert p <= k ==> p[1..] <= k[1..];
      DiffersNotPrefix(p[1..], k[1..]);
    }
  }

  /** The descent from `s` goes on past `toks[e]`: `p`, which `toks[s..e + 1]`
      spells, is a prefix of keyword `k`. */
  lemma DescentGoes(kw: Dictionary, toks: seq<string>, s: nat, e: nat, p: seq<string>, k: seq<string>)
    requires s <= e < |toks| && toks[s..e + 1] == p && k in kw && p <= k
    ensures Descent(kw, toks, s, e) == Descent(kw, toks, s, e + 1)
  {
    assert PrefixOf(p, k);
  }

  /** The descent from `s` stops before `toks[e]`: `p`, which `toks[s..e + 1]`
      spells, is a prefix of no keyword. */
  lemma DescentStops(kw: Dictionary, toks: seq<string>, s: nat, e: nat, p: seq<string>)
    requires s <= e < |toks| && toks[s..e + 1] == p && forall k :: k in kw ==> Differs(p, k)
    ensures Descent(kw, toks, s, e) == e
  {
    forall k | k in kw
      ensures !PrefixOf(p, k)
    {
      DiffersNotPrefix(p, k);
    }
  }

  /** The attempt at `s` stops at once, meeting no keyword, when its first
      token starts no keyword. */
  lemma MissAt(kw: Dictionary, toks: seq<string>, s: nat)
    requires s < |toks| && forall k :: k in kw ==> Differs([toks[s]], k)
    ensures Descent(kw, toks, s, s) == s && LastMatch(kw, toks, s, s) == None
  {
    assert toks[s..s + 1] == [toks[s]];
    DescentStops(kw, toks, s, s, [toks[s]]);
  }

  /** With the one keyword "hello", the attempt at a "hello" followed by another
      token stops after it, having matched it. */
  lemma HelloBeforeOther(kw: Dictionary, toks: seq<string>, s: nat)
    requires kw == HelloOnly && s + 1 < |toks| && toks[s] == "hello"
    ensures Descent(kw, toks, s, s) == s + 1 && LastMatch(kw, toks, s, s + 1) == Some(s + 1)
  {
    assert toks[s..s + 1] == ["hello"];
    DescentGoes(kw, toks, s, s, ["hello"], ["hello"]);
    DescentStops(kw, toks, s, s + 1, ["hello", toks[s + 1]]);
    LastMatchHit(kw, toks, s, s + 1, ["hello"]);
  }

  /** `toks[s..e]`, spelled `p`, is a keyword. */
  lemma LastMatchHit(kw: Dictionary, toks: seq<string>, s: nat, e: nat, p: seq<string>)
    requires s < e <= |toks| && toks[s..e] == p && p in kw
    ensures LastMatch(kw, toks, s, e) == Some(e)
  {
  }

  /** `toks[s..e]`, spelled `p`, is not a keyword. */
  lemma LastMatchMiss(kw: Dictionary, toks: seq<string>, s: nat, e: nat, p: seq<string>)
    requires s < e <= |toks| && toks[s..e] == p && forall k :: k in kw ==> Differs(p, k) || Differs(k, p)
    ensures LastMatch(kw, toks, s, e) == LastMatch(kw, toks, s, e - 1)
  {
    if p in kw {
      if Differs(p, p) {
        DiffersNotPrefix(p, p);
      }
    }
  }

  /** An attempt at `s` whose descent stops at `d` having met the keyword
      ending at `e` decides the scan from `s`. */
  lemma MatchAt(kw: Dictionary, toks: seq<string>, s: nat, d: nat, e: nat)
    requires s < |toks| && Descent(kw, toks, s, s) == d && LastMatch(kw, toks, s, d) == Some(e)
    ensures FirstKeywordSpec(kw, toks, s) == ScanResult(true, kw[toks[s..e]], if d == |toks| then |toks| else e)
  {
    assert Decides(kw, toks, s);
  }

  /** An attempt at `s` whose descent runs to the end of the text having met
      the keyword ending at `e` ends replacement with that keyword's clean
      word. */
  lemma MatchAtEnd(kw: Dictionary, toks: seq<string>, b: nat, s: nat, e: nat)
    requires b <= s < |toks| && Descent(kw, toks, s, s) == |toks| && LastMatch(kw, toks, s, |toks|) == Some(e)
    ensures ReplaceFrom(kw, toks, b, s) == Concat(toks[b..s]) + kw[toks[s..e]]
  {
    assert Decides(kw, toks, s);
  }

  /** An attempt at `s` whose descent stops inside the text without a keyword
      hands the scan on to the next token. */
  lemma FailAt(kw: Dictionary, toks: seq<string>, s: nat, d: nat)
    requires s < |toks| && Descent(kw, toks, s, s) == d < |toks| && LastMatch(kw, toks, s, d) == None
    ensures FirstKeywordSpec(kw, toks, s) == FirstKeywordSpec(kw, toks, s + 1)
    ensures forall b: nat :: b <= s ==> ReplaceFrom(kw, toks, b, s) == ReplaceFrom(kw, toks, b, s + 1)
  {
    assert !Decides(kw, toks, s);
    forall b: nat | b <= s
      ensures ReplaceFrom(kw, toks, b, s) == ReplaceFrom(kw, toks, b, s + 1)
    {
      ReplaceFromSkip(kw, toks, b, s);
    }
  }

  /** An attempt at `s` whose descent runs to the end of the text without a
      keyword ends the scan without a match. */
  lemma EndAt(kw: Dictionary, toks: seq<string>, s: nat)
    requires s < |toks| && Descent(kw, toks, s, s) == |toks| && LastMatch(kw, toks, s, |toks|) == None
    ensures FirstKeywordSpec(kw, toks, s) == ScanResult(false, "", |toks|)
    ensures forall b: nat :: b <= s ==> ReplaceFrom(kw, toks, b, s) == Concat(toks[b..])
  {
    assert Decides(kw, toks, s);
  }

  /** The keyword "py", its own clean word. */
  ghost const PyKeywords: Dictionary :=
    map[["py"] := "py"]

  /** The keyword "py" with clean word "Python". */
  ghost const PythonKeywords: Dictionary :=
    map[["py"] := "Python"]

  /** "hello", "hello hello" and " world", each its own clean word. */
  ghost const HelloKeywords: Dictionary :=
    map[["hello"] := "hello", ["hello", " ", "hello"] := "hello hello", [" ", "world"] := " world"]

  /** The single keyword "hello". */
  ghost const HelloOnly: Dictionary :=
    map[["hello"] := "hello"]

  /** "hello" and "Hello". */
  ghost const CaseKeywords: Dictionary :=
    map[["hello"] := "hello", ["Hello"] := "Hello"]

  /** "hello", "Hello" and "hello world". */
  ghost const HelloWorldKeywords: Dictionary :=
    map[["hello"] := "hello", ["Hello"] := "Hello", ["hello", " ", "world"] := "hello world"]

  /** `HelloWorldKeywords` and "hey there". */
  ghost const HeyKeywords: Dictionary :=
    map[["hello"] := "hello", ["Hello"] := "Hello", ["hello", " ", "world"] := "hello world", ["hey", " ", "there"] := "hey there"]

  /** "hello " (with its trailing space) and "world". */
  ghost const TrailingSpaceKeywords: Dictionary :=
    map[["hello", " "] := "hello ", ["world"] := "world"]

  /** "hello" and " world" (with its leading space). */
  ghost const LeadingSpaceKeywords: Dictionary :=
    map[["hello"] := "hello", [" ", "world"] := " world"]

  /** "hello" with clean word "hey". */
  ghost const HeyForHello: Dictionary :=
    map[["hello"] := "hey"]

  /** "hello" and "hey", each with the other as clean word. */
  ghost const SwapKeywords: Dictionary :=
    map[["hello"] := "hey", ["hey"] := "hello"]

  /** "hello" and "hey", both with the empty clean word. */
  ghost const EraseKeywords: Dictionary :=
    map[["hello"] := "", ["hey"] := ""]

  /** "a b c" with clean word "abc". */
  ghost const AbcKeywords: Dictionary :=
    map[["a", " ", "b", " ", "c"] := "abc"]

  /** "a b c" with clean word "X" and its first token "a" with clean word "A". */
  ghost const PrefixKeywords: Dictionary :=
    map[["a", " ", "b", " ", "c"] := "X", ["a"] := "A"]

  /** "a b c" and "b". */
  ghost const InnerKeywords: Dictionary :=
    map[["a", " ", "b", " ", "c"] := "a b c", ["b"] := "b"]

  /** "hello" with clean word "hey" and "," with clean word ";". */
  ghost const CommaKeywords: Dictionary :=
    map[["hello"] := "hey", [","] := ";"]

  /** "a b c d x" and "d e f". */
  ghost const DefKeywords: Dictionary :=
    map[["a", " ", "b", " ", "c", " ", "d", " ", "x"] := "a b c d x", ["d", " ", "e", " ", "f"] := "d e f"]

  /** `DefKeywords` and " d e f" (with its leading space). */
  ghost const SpaceDefKeywords: Dictionary :=
    map[["a", " ", "b", " ", "c", " ", "d", " ", "x"] := "a b c d x", ["d", " ", "e", " ", "f"] := "d e f",
        [" ", "d", " ", "e", " ", "f"] := " d e f"]

  /** The text "a b c d e f". */
  const DefText: seq<string> := ["a", " ", "b", " ", "c", " ", "d", " ", "e", " ", "f"]

  /** "py" is found and reported by its own clean word. */
  lemma ExtractPy(kw: Dictionary, toks: seq<string>)
    requires kw == PyKeywords && toks == ["py"]
    ensures ExtractSpec(kw, toks, 0) == ["py"]
  {
    ExtractPyScan0(kw, toks);
    ExtractPyExtract1(kw, toks);
  }

  /** The descent of the attempt at token 0 runs to the end of the text, the last keyword it meets ending at token 1. */
  lemma ExtractPyAttempt0(kw: Dictionary, toks: seq<string>)
    requires kw == PyKeywords && toks == ["py"]
    ensures Descent(kw, toks, 0, 0) == |toks| && LastMatch(kw, toks, 0, |toks|) == Some(1)
  {
    assert toks[0..1] == ["py"];
    DescentGoes(kw, toks, 0, 0, ["py"], ["py"]);
    LastMatchHit(kw, toks, 0, 1, ["py"]);
  }

  /** The scan from token 0. */
  lemma ExtractPyScan0(kw: Dictionary, toks: seq<string>)
    requires kw == PyKeywords && toks == ["py"]
    ensures FirstKeywordSpec(kw, toks, 0) == ScanResult(true, "py", 1)
  {
    ExtractPyAttempt0(kw, toks);
    MatchAt(kw, toks, 0, 1, 1);
    assert kw[toks[0..1]] == "py" by {
      assert toks[0..1] == ["py"];
    }
  }

  /** The scan from token 1. */
  lemma ExtractPyScan1(kw: Dictionary, toks: seq<string>)
    requires kw == PyKeywords && toks == ["py"]
    ensures FirstKeywordSpec(kw, toks, 1) == ScanResult(false, "", 1)
  {
  }

  /** Extraction from token 1. */
  lemma ExtractPyExtract1(kw: Dictionary, toks: seq<string>)
    requires kw == PyKeywords && toks == ["py"]
    ensures ExtractSpec(kw, toks, 1) == []
  {
    ExtractPyScan1(kw, toks);
  }

  /** After its clean word is replaced, "py" is reported as "Python". */
  lemma ExtractPython(kw: Dictionary, toks: seq<string>)
    requires kw == PythonKeywords && toks == ["py"]
    ensures ExtractSpec(kw, toks, 0) == ["Python"]
  {
    ExtractPythonScan0(kw, toks);
    ExtractPythonExtract1(kw, toks);
  }

  /** The descent of the attempt at token 0 runs to the end of the text, the last keyword it meets ending at token 1. */
  lemma ExtractPythonAttempt0(kw: Dictionary, toks: seq<string>)
    requires kw == PythonKeywords && toks == ["py"]
    ensures Descent(kw, toks, 0, 0) == |toks| && LastMatch(kw, toks, 0, |toks|) == Some(1)
  {
    assert toks[0..1] == ["py"];
    DescentGoes(kw, toks, 0, 0, ["py"], ["py"]);
    LastMatchHit(kw, toks, 0, 1, ["py"]);
  }

  /** The scan from token 0. */
  lemma ExtractPythonScan0(kw: Dictionary, toks: seq<string>)
    requires kw == PythonKeywords && toks == ["py"]
    ensures FirstKeywordSpec(kw, toks, 0) == ScanResult(true, "Python", 1)
  {
    ExtractPythonAttempt0(kw, toks);
    MatchAt(kw, toks, 0, 1, 1);
    assert kw[toks[0..1]] == "Python" by {
      assert toks[0..1] == ["py"];
    }
  }

  /** The scan from token 1. */
  lemma ExtractPythonScan1(kw: Dictionary, toks: seq<string>)
    requires kw == PythonKeywords && toks == ["py"]
    ensures FirstKeywordSpec(kw, toks, 1) == ScanResult(false, "", 1)
  {
  }

  /** Extraction from token 1. */
  lemma ExtractPythonExtract1(kw: Dictionary, toks: seq<string>)
    requires kw == PythonKeywords && toks == ["py"]
    ensures ExtractSpec(kw, toks, 1) == []
  {
    ExtractPythonScan1(kw, toks);
  }

  /** The first scan of "hello hello world" prefers the longer keyword "hello hello" and leaves " world". */
  lemma FirstKeywordHelloFirst(kw: Dictionary, toks: seq<string>)
    requires kw == HelloKeywords && toks == ["hello", " ", "hello", " ", "world"]
    ensures FirstKeywordSpec(kw, toks, 0) == ScanResult(true, "hello hello", 3)
  {
    HelloTextAttempt0(kw, toks);
    MatchAt(kw, toks, 0, 3, 3);
    assert kw[toks[0..3]] == "hello hello" by {
      assert toks[0..3] == ["hello", " ", "hello"];
    }
  }

  /** The descent of the attempt at token 0 stops at token 3, the last keyword it meets ending at token 3. */
  lemma HelloTextAttempt0(kw: Dictionary, toks: seq<string>)
    requires kw == HelloKeywords && toks == ["hello", " ", "hello", " ", "world"]
    ensures Descent(kw, toks, 0, 0) == 3 && LastMatch(kw, toks, 0, 3) == Some(3)
  {
    assert toks[0..1] == ["hello"];
    DescentGoes(kw, toks, 0, 0, ["hello"], ["hello"]);
    assert toks[0..2] == ["hello", " "];
    DescentGoes(kw, toks, 0, 1, ["hello", " "], ["hello", " ", "hello"]);
    assert toks[0..3] == ["hello", " ", "hello"];
    DescentGoes(kw, toks, 0, 2, ["hello", " ", "hello"], ["hello", " ", "hello"]);
    DescentStops(kw, toks, 0, 3, ["hello", " ", "hello", " "]);
    LastMatchHit(kw, toks, 0, 3, ["hello", " ", "hello"]);
  }

  /** Scanning on from " world" finds " world", whose descent reaches the end of the text, so no text remains. */
  lemma FirstKeywordHelloSecond(kw: Dictionary, toks: seq<string>)
    requires kw == HelloKeywords && toks == ["hello", " ", "hello", " ", "world"]
    ensures FirstKeywordSpec(kw, toks, 3) == ScanResult(true, " world", 5)
  {
    HelloTextAttempt3(kw, toks);
    MatchAt(kw, toks, 3, 5, 5);
    assert kw[toks[3..5]] == " world" by {
      assert toks[3..5] == [" ", "world"];
    }
  }

  /** The descent of the attempt at token 3 runs to the end of the text, the last keyword it meets ending at token 5. */
  lemma HelloTextAttempt3(kw: Dictionary, toks: seq<string>)
    requires kw == HelloKeywords && toks == ["hello", " ", "hello", " ", "world"]
    ensures Descent(kw, toks, 3, 3) == |toks| && LastMatch(kw, toks, 3, |toks|) == Some(5)
  {
    assert toks[3..4] == [" "];
    DescentGoes(kw, toks, 3, 3, [" "], [" ", "world"]);
    assert toks[3..5] == [" ", "world"];
    DescentGoes(kw, toks, 3, 4, [" ", "world"], [" ", "world"]);
    LastMatchHit(kw, toks, 3, 5, [" ", "world"]);
  }

  /** Scanning the empty remainder finds nothing. */
  lemma FirstKeywordHelloDone(kw: Dictionary, toks: seq<string>)
    requires kw == HelloKeywords && toks == ["hello", " ", "hello", " ", "world"]
    ensures FirstKeywordSpec(kw, toks, 5) == ScanResult(false, "", 5)
  {
  }

  /** A text of one space holds no keyword. */
  lemma ExtractNothing(kw: Dictionary, toks: seq<string>)
    requires kw == HelloOnly && toks == [" "]
    ensures ExtractSpec(kw, toks, 0) == []
  {
    ExtractNothingScan0(kw, toks);
  }

  /** The scan from token 1. */
  lemma ExtractNothingScan1(kw: Dictionary, toks: seq<string>)
    requires kw == HelloOnly && toks == [" "]
    ensures FirstKeywordSpec(kw, toks, 1) == ScanResult(false, "", 1)
  {
  }

  /** The scan from token 0. */
  lemma ExtractNothingScan0(kw: Dictionary, toks: seq<string>)
    requires kw == HelloOnly && toks == [" "]
    ensures FirstKeywordSpec(kw, toks, 0) == ScanResult(false, "", 1)
  {
    MissAt(kw, toks, 0);
    FailAt(kw, toks, 0, 0);
    ExtractNothingScan1(kw, toks);
  }

  /** A token that is a strict prefix of a keyword's token is no match. */
  lemma ExtractShort(kw: Dictionary, toks: seq<string>)
    requires kw == HelloOnly && toks == ["hell"]
    ensures ExtractSpec(kw, toks, 0) == []
  {
    ExtractShortScan0(kw, toks);
  }

  /** The scan from token 1. */
  lemma ExtractShortScan1(kw: Dictionary, toks: seq<string>)
    requires kw == HelloOnly && toks == ["hell"]
    ensures FirstKeywordSpec(kw, toks, 1) == ScanResult(false, "", 1)
  {
  }

  /** The scan from token 0. */
  lemma ExtractShortScan0(kw: Dictionary, toks: seq<string>)
    requires kw == HelloOnly && toks == ["hell"]
    ensures FirstKeywordSpec(kw, toks, 0) == ScanResult(false, "", 1)
  {
    MissAt(kw, toks, 0);
    FailAt(kw, toks, 0, 0);
    ExtractShortScan1(kw, toks);
  }

  /** A text that is exactly a keyword yields it. */
  lemma ExtractAlone(kw: Dictionary, toks: seq<string>)
    requires kw == HelloOnly && toks == ["hello"]
    ensures ExtractSpec(kw, toks, 0) == ["hello"]
  {
    ExtractAloneScan0(kw, toks);
    ExtractAloneExtract1(kw, toks);
  }

  /** The descent of the attempt at token 0 runs to the end of the text, the last keyword it meets ending at token 1. */
  lemma ExtractAloneAttempt0(kw: Dictionary, toks: seq<string>)
    requires kw == HelloOnly && toks == ["hello"]
    ensures Descent(kw, toks, 0, 0) == |toks| && LastMatch(kw, toks, 0, |toks|) == Some(1)
  {
    assert toks[0..1] == ["hello"];
    DescentGoes(kw, toks, 0, 0, ["hello"], ["hello"]);
    LastMatchHit(kw, toks, 0, 1, ["hello"]);
  }

  /** The scan from token 0. */
  lemma ExtractAloneScan0(kw: Dictionary, toks: seq<string>)
    requires kw == HelloOnly && toks == ["hello"]
    ensures FirstKeywordSpec(kw, toks, 0) == ScanResult(true, "hello", 1)
  {
    ExtractAloneAttempt0(kw, toks);
    MatchAt(kw, toks, 0, 1, 1);
    assert kw[toks[0..1]] == "hello" by {
      assert toks[0..1] == ["hello"];
    }
  }

  /** The scan from token 1. */
  lemma ExtractAloneScan1(kw: Dictionary, toks: seq<string>)
    requires kw == HelloOnly && toks == ["hello"]
    ensures FirstKeywordSpec(kw, toks, 1) == ScanResult(false, "", 1)
  {
  }

  /** Extraction from token 1. */
  lemma ExtractAloneExtract1(kw: Dictionary, toks: seq<string>)
    requires kw == HelloOnly && toks == ["hello"]
    ensures ExtractSpec(kw, toks, 1) == []
  {
    ExtractAloneScan1(kw, toks);
  }

  /** A keyword after a space is found. */
  lemma ExtractAfterSpace(kw: Dictionary, toks: seq<string>)
    requires kw == HelloOnly && toks == [" ", "hello"]
    ensures ExtractSpec(kw, toks, 0) == ["hello"]
  {
    ExtractAfterSpaceScan0(kw, toks);
    ExtractAfterSpaceExtract2(kw, toks);
  }

  /** The descent of the attempt at token 1 runs to the end of the text, the last keyword it meets ending at token 2. */
  lemma ExtractAfterSpaceAttempt1(kw: Dictionary, toks: seq<string>)
    requires kw == HelloOnly && toks == [" ", "hello"]
    ensures Descent(kw, toks, 1, 1) == |toks| && LastMatch(kw, toks, 1, |toks|) == Some(2)
  {
    assert toks[1..2] == ["hello"];
    DescentGoes(kw, toks, 1, 1, ["hello"], ["hello"]);
    LastMatchHit(kw, toks, 1, 2, ["hello"]);
  }

  /** The scan from token 1. */
  lemma ExtractAfterSpaceScan1(kw: Dictionary, toks: seq<string>)
    requires kw == HelloOnly && toks == [" ", "hello"]
    ensures FirstKeywordSpec(kw, toks, 1) == ScanResult(true, "hello", 2)
  {
    ExtractAfterSpaceAttempt1(kw, toks);
    MatchAt(kw, toks, 1, 2, 2);
    assert kw[toks[1..2]] == "hello" by {
      assert toks[1..2] == ["hello"];
    }
  }

  /** The scan from token 0. */
  lemma ExtractAfterSpaceScan0(kw: Dictionary, toks: seq<string>)
    requires kw == HelloOnly && toks == [" ", "hello"]
    ensures FirstKeywordSpec(kw, toks, 0) == ScanResult(true, "hello", 2)
  {
    MissAt(kw, toks, 0);
    FailAt(kw, toks, 0, 0);
    ExtractAfterSpaceScan1(kw, toks);
  }

  /** The scan from token 2. */
  lemma ExtractAfterSpaceScan2(kw: Dictionary, toks: seq<string>)
    requires kw == HelloOnly && toks == [" ", "hello"]
    ensures FirstKeywordSpec(kw, toks, 2) == ScanResult(false, "", 2)
  {
  }

  /** Extraction from token 2. */
  lemma ExtractAfterSpaceExtract2(kw: Dictionary, toks: seq<string>)
    requires kw == HelloOnly && toks == [" ", "hello"]
    ensures ExtractSpec(kw, toks, 2) == []
  {
    ExtractAfterSpaceScan2(kw, toks);
  }

  /** A keyword before a space is found. */
  lemma ExtractBeforeSpace(kw: Dictionary, toks: seq<string>)
    requires kw == HelloOnly && toks == ["hello", " "]
    ensures ExtractSpec(kw, toks, 0) == ["hello"]
  {
    ExtractBeforeSpaceScan0(kw, toks);
    ExtractBeforeSpaceExtract1(kw, toks);
  }

  /** The scan from token 0. */
  lemma ExtractBeforeSpaceScan0(kw: Dictionary, toks: seq<string>)
    requires kw == HelloOnly && toks == ["hello", " "]
    ensures FirstKeywordSpec(kw, toks, 0) == ScanResult(true, "hello", 1)
  {
    HelloBeforeOther(kw, toks, 0);
    MatchAt(kw, toks, 0, 1, 1);
    assert kw[toks[0..1]] == "hello" by {
      assert toks[0..1] == ["hello"];
    }
  }

  /** The scan from token 2. */
  lemma ExtractBeforeSpaceScan2(kw: Dictionary, toks: seq<string>)
    requires kw == HelloOnly && toks == ["hello", " "]
    ensures FirstKeywordSpec(kw, toks, 2) == ScanResult(false, "", 2)
  {
  }

  /** The scan from token 1. */
  lemma ExtractBeforeSpaceScan1(kw: Dictionary, toks: seq<string>)
    requires kw == HelloOnly && toks == ["hello", " "]
    ensures FirstKeywordSpec(kw, toks, 1) == ScanResult(false, "", 2)
  {
    MissAt(kw, toks, 1);
    FailAt(kw, toks, 1, 1);
    ExtractBeforeSpaceScan2(kw, toks);
  }

  /** Extraction from token 1. */
  lemma ExtractBeforeSpaceExtract1(kw: Dictionary, toks: seq<string>)
    requires kw == HelloOnly && toks == ["hello", " "]
    ensures ExtractSpec(kw, toks, 1) == []
  {
    ExtractBeforeSpaceScan1(kw, toks);
  }

  /** A keyword between spaces is found. */
  lemma ExtractSurrounded(kw: Dictionary, toks: seq<string>)
    requires kw == HelloOnly && toks == [" ", "hello", " "]
    ensures ExtractSpec(kw, toks, 0) == ["hello"]
  {
    ExtractSurroundedScan0(kw, toks);
    ExtractSurroundedExtract2(kw, toks);
  }

  /** The scan from token 1. */
  lemma ExtractSurroundedScan1(kw: Dictionary, toks: seq<string>)
    requires kw == HelloOnly && toks == [" ", "hello", " "]
    ensures FirstKeywordSpec(kw, toks, 1) == ScanResult(true, "hello", 2)
  {
    HelloBeforeOther(kw, toks, 1);
    MatchAt(kw, toks, 1, 2, 2);
    assert kw[toks[1..2]] == "hello" by {
      assert toks[1..2] == ["hello"];
    }
  }

  /** The scan from token 0. */
  lemma ExtractSurroundedScan0(kw: Dictionary, toks: seq<string>)
    requires kw == HelloOnly && toks == [" ", "hello", " "]
    ensures FirstKeywordSpec(kw, toks, 0) == ScanResult(true, "hello", 2)
  {
    MissAt(kw, toks, 0);
    FailAt(kw, toks, 0, 0);
    ExtractSurroundedScan1(kw, toks);
  }

  /** The scan from token 3. */
  lemma ExtractSurroundedScan3(kw: Dictionary, toks: seq<string>)
    requires kw == HelloOnly && toks == [" ", "hello", " "]
    ensures FirstKeywordSpec(kw, toks, 3) == ScanResult(false, "", 3)
  {
  }

  /** The scan from token 2. */
  lemma ExtractSurroundedScan2(kw: Dictionary, toks: seq<string>)
    requires kw == HelloOnly && toks == [" ", "hello", " "]
    ensures FirstKeywordSpec(kw, toks, 2) == ScanResult(false, "", 3)
  {
    MissAt(kw, toks, 2);
    FailAt(kw, toks, 2, 2);
    ExtractSurroundedScan3(kw, toks);
  }

  /** Extraction from token 2. */
  lemma ExtractSurroundedExtract2(kw: Dictionary, toks: seq<string>)
    requires kw == HelloOnly && toks == [" ", "hello", " "]
    ensures ExtractSpec(kw, toks, 2) == []
  {
    ExtractSurroundedScan2(kw, toks);
  }

  /** Keywords match whole tokens only: "hellohello" is one token and holds no keyword. */
  lemma ExtractGlued(kw: Dictionary, toks: seq<string>)
    requires kw == HelloOnly && toks == ["hellohello"]
    ensures ExtractSpec(kw, toks, 0) == []
  {
    ExtractGluedScan0(kw, toks);
  }

  /** The scan from token 1. */
  lemma ExtractGluedScan1(kw: Dictionary, toks: seq<string>)
    requires kw == HelloOnly && toks == ["hellohello"]
    ensures FirstKeywordSpec(kw, toks, 1) == ScanResult(false, "", 1)
  {
  }

  /** The scan from token 0. */
  lemma ExtractGluedScan0(kw: Dictionary, toks: seq<string>)
    requires kw == HelloOnly && toks == ["hellohello"]
    ensures FirstKeywordSpec(kw, toks, 0) == ScanResult(false, "", 1)
  {
    MissAt(kw, toks, 0);
    FailAt(kw, toks, 0, 0);
    ExtractGluedScan1(kw, toks);
  }

  /** Both occurrences of a keyword are extracted. */
  lemma ExtractTwice(kw: Dictionary, toks: seq<string>)
    requires kw == HelloOnly && toks == ["hello", " ", "hello"]
    ensures ExtractSpec(kw, toks, 0) == ["hello", "hello"]
  {
    ExtractTwiceScan0(kw, toks);
    ExtractTwiceExtract1(kw, toks);
  }

  /** The scan from token 0. */
  lemma ExtractTwiceScan0(kw: Dictionary, toks: seq<string>)
    requires kw == HelloOnly && toks == ["hello", " ", "hello"]
    ensures FirstKeywordSpec(kw, toks, 0) == ScanResult(true, "hello", 1)
  {
    HelloBeforeOther(kw, toks, 0);
    MatchAt(kw, toks, 0, 1, 1);
    assert kw[toks[0..1]] == "hello" by {
      assert toks[0..1] == ["hello"];
    }
  }

  /** The descent of the attempt at token 2 runs to the end of the text, the last keyword it meets ending at token 3. */
  lemma ExtractTwiceAttempt2(kw: Dictionary, toks: seq<string>)
    requires kw == HelloOnly && toks == ["hello", " ", "hello"]
    ensures Descent(kw, toks, 2, 2) == |toks| && LastMatch(kw, toks, 2, |toks|) == Some(3)
  {
    assert toks[2..3] == ["hello"];
    DescentGoes(kw, toks, 2, 2, ["hello"], ["hello"]);
    LastMatchHit(kw, toks, 2, 3, ["hello"]);
  }

  /** The scan from token 2. */
  lemma ExtractTwiceScan2(kw: Dictionary, toks: seq<string>)
    requires kw == HelloOnly && toks == ["hello", " ", "hello"]
    ensures FirstKeywordSpec(kw, toks, 2) == ScanResult(true, "hello", 3)
  {
    ExtractTwiceAttempt2(kw, toks);
    MatchAt(kw, toks, 2, 3, 3);
    assert kw[toks[2..3]] == "hello" by {
      assert toks[2..3] == ["hello"];
    }
  }

  /** The scan from token 1. */
  lemma ExtractTwiceScan1(kw: Dictionary, toks: seq<string>)
    requires kw == HelloOnly && toks == ["hello", " ", "hello"]
    ensures FirstKeywordSpec(kw, toks, 1) == ScanResult(true, "hello", 3)
  {
    MissAt(kw, toks, 1);
    FailAt(kw, toks, 1, 1);
    ExtractTwiceScan2(kw, toks);
  }

  /** The scan from token 3. */
  lemma ExtractTwiceScan3(kw: Dictionary, toks: seq<string>)
    requires kw == HelloOnly && toks == ["hello", " ", "hello"]
    ensures FirstKeywordSpec(kw, toks, 3) == ScanResult(false, "", 3)
  {
  }

  /** Extraction from token 3. */
  lemma ExtractTwiceExtract3(kw: Dictionary, toks: seq<string>)
    requires kw == HelloOnly && toks == ["hello", " ", "hello"]
    ensures ExtractSpec(kw, toks, 3) == []
  {
    ExtractTwiceScan3(kw, toks);
  }

  /** Extraction from token 1. */
  lemma ExtractTwiceExtract1(kw: Dictionary, toks: seq<string>)
    requires kw == HelloOnly && toks == ["hello", " ", "hello"]
    ensures ExtractSpec(kw, toks, 1) == ["hello"]
  {
    ExtractTwiceScan1(kw, toks);
    ExtractTwiceExtract3(kw, toks);
  }

  /** Tokens are compared exactly: "helloHello" is one token, matching neither "hello" nor "Hello". */
  lemma ExtractCaseSensitive(kw: Dictionary, toks: seq<string>)
    requires kw == CaseKeywords && toks == ["helloHello"]
    ensures ExtractSpec(kw, toks, 0) == []
  {
    ExtractCaseSensitiveScan0(kw, toks);
  }

  /** The scan from token 1. */
  lemma ExtractCaseSensitiveScan1(kw: Dictionary, toks: seq<string>)
    requires kw == CaseKeywords && toks == ["helloHello"]
    ensures FirstKeywordSpec(kw, toks, 1) == ScanResult(false, "", 1)
  {
  }

  /** The scan from token 0. */
  lemma ExtractCaseSensitiveScan0(kw: Dictionary, toks: seq<string>)
    requires kw == CaseKeywords && toks == ["helloHello"]
    ensures FirstKeywordSpec(kw, toks, 0) == ScanResult(false, "", 1)
  {
    MissAt(kw, toks, 0);
    FailAt(kw, toks, 0, 0);
    ExtractCaseSensitiveScan1(kw, toks);
  }

  /** "HelloHello" is one token, matching neither "hello" nor "Hello". */
  lemma ExtractCaseSensitiveUpper(kw: Dictionary, toks: seq<string>)
    requires kw == CaseKeywords && toks == ["HelloHello"]
    ensures ExtractSpec(kw, toks, 0) == []
  {
    ExtractCaseSensitiveUpperScan0(kw, toks);
  }

  /** The scan from token 1. */
  lemma ExtractCaseSensitiveUpperScan1(kw: Dictionary, toks: seq<string>)
    requires kw == CaseKeywords && toks == ["HelloHello"]
    ensures FirstKeywordSpec(kw, toks, 1) == ScanResult(false, "", 1)
  {
  }

  /** The scan from token 0. */
  lemma ExtractCaseSensitiveUpperScan0(kw: Dictionary, toks: seq<string>)
    requires kw == CaseKeywords && toks == ["HelloHello"]
    ensures FirstKeywordSpec(kw, toks, 0) == ScanResult(false, "", 1)
  {
    MissAt(kw, toks, 0);
    FailAt(kw, toks, 0, 0);
    ExtractCaseSensitiveUpperScan1(kw, toks);
  }

  /** "hello world" is preferred to its prefix "hello". */
  lemma ExtractLongest(kw: Dictionary, toks: seq<string>)
    requires kw == HelloWorldKeywords && toks == ["hello", " ", "world"]
    ensures ExtractSpec(kw, toks, 0) == ["hello world"]
  {
    ExtractLongestScan0(kw, toks);
    ExtractLongestExtract3(kw, toks);
  }

  /** The descent of the attempt at token 0 runs to the end of the text, the last keyword it meets ending at token 3. */
  lemma ExtractLongestAttempt0(kw: Dictionary, toks: seq<string>)
    requires kw == HelloWorldKeywords && toks == ["hello", " ", "world"]
    ensures Descent(kw, toks, 0, 0) == |toks| && LastMatch(kw, toks, 0, |toks|) == Some(3)
  {
    assert toks[0..1] == ["hello"];
    DescentGoes(kw, toks, 0, 0, ["hello"], ["hello"]);
    assert toks[0..2] == ["hello", " "];
    DescentGoes(kw, toks, 0, 1, ["hello", " "], ["hello", " ", "world"]);
    assert toks[0..3] == ["hello", " ", "world"];
    DescentGoes(kw, toks, 0, 2, ["hello", " ", "world"], ["hello", " ", "world"]);
    LastMatchHit(kw, toks, 0, 3, ["hello", " ", "world"]);
  }

  /** The scan from token 0. */
  lemma ExtractLongestScan0(kw: Dictionary, toks: seq<string>)
    requires kw == HelloWorldKeywords && toks == ["hello", " ", "world"]
    ensures FirstKeywordSpec(kw, toks, 0) == ScanResult(true, "hello world", 3)
  {
    ExtractLongestAttempt0(kw, toks);
    MatchAt(kw, toks, 0, 3, 3);
    assert kw[toks[0..3]] == "hello world" by {
      assert toks[0..3] == ["hello", " ", "world"];
    }
  }

  /** The scan from token 3. */
  lemma ExtractLongestScan3(kw: Dictionary, toks: seq<string>)
    requires kw == HelloWorldKeywords && toks == ["hello", " ", "world"]
    ensures FirstKeywordSpec(kw, toks, 3) == ScanResult(false, "", 3)
  {
  }

  /** Extraction from token 3. */
  lemma ExtractLongestExtract3(kw: Dictionary, toks: seq<string>)
    requires kw == HelloWorldKeywords && toks == ["hello", " ", "world"]
    ensures ExtractSpec(kw, toks, 3) == []
  {
    ExtractLongestScan3(kw, toks);
  }

  /** In "hello worldhello world" only "hello" is found: "worldhello" is one token, and no keyword starts with the tokens after it. */
  lemma ExtractGluedTail(kw: Dictionary, toks: seq<string>)
    requires kw == HelloWorldKeywords && toks == ["hello", " ", "worldhello", " ", "world"]
    ensures ExtractSpec(kw, toks, 0) == ["hello"]
  {
    ExtractGluedTailScan0(kw, toks);
    ExtractGluedTailExtract1(kw, toks);
  }

  /** The descent of the attempt at token 0 stops at token 2, the last keyword it meets ending at token 1. */
  lemma ExtractGluedTailAttempt0(kw: Dictionary, toks: seq<string>)
    requires kw == HelloWorldKeywords && toks == ["hello", " ", "worldhello", " ", "world"]
    ensures Descent(kw, toks, 0, 0) == 2 && LastMatch(kw, toks, 0, 2) == Some(1)
  {
    assert toks[0..1] == ["hello"];
    DescentGoes(kw, toks, 0, 0, ["hello"], ["hello"]);
    assert toks[0..2] == ["hello", " "];
    DescentGoes(kw, toks, 0, 1, ["hello", " "], ["hello", " ", "world"]);
    DescentStops(kw, toks, 0, 2, ["hello", " ", "worldhello"]);
    LastMatchMiss(kw, toks, 0, 2, ["hello", " "]);
    LastMatchHit(kw, toks, 0, 1, ["hello"]);
  }

  /** The scan from token 0. */
  lemma ExtractGluedTailScan0(kw: Dictionary, toks: seq<string>)
    requires kw == HelloWorldKeywords && toks == ["hello", " ", "worldhello", " ", "world"]
    ensures FirstKeywordSpec(kw, toks, 0) == ScanResult(true, "hello", 1)
  {
    ExtractGluedTailAttempt0(kw, toks);
    MatchAt(kw, toks, 0, 2, 1);
    assert kw[toks[0..1]] == "hello" by {
      assert toks[0..1] == ["hello"];
    }
  }

  /** The scan from token 5. */
  lemma ExtractGluedTailScan5(kw: Dictionary, toks: seq<string>)
    requires kw == HelloWorldKeywords && toks == ["hello", " ", "worldhello", " ", "world"]
    ensures FirstKeywordSpec(kw, toks, 5) == ScanResult(false, "", 5)
  {
  }

  /** The scan from token 4. */
  lemma ExtractGluedTailScan4(kw: Dictionary, toks: seq<string>)
    requires kw == HelloWorldKeywords && toks == ["hello", " ", "worldhello", " ", "world"]
    ensures FirstKeywordSpec(kw, toks, 4) == ScanResult(false, "", 5)
  {
    MissAt(kw, toks, 4);
    FailAt(kw, toks, 4, 4);
    ExtractGluedTailScan5(kw, toks);
  }

  /** The scan from token 3. */
  lemma ExtractGluedTailScan3(kw: Dictionary, toks: seq<string>)
    requires kw == HelloWorldKeywords && toks == ["hello", " ", "worldhello", " ", "world"]
    ensures FirstKeywordSpec(kw, toks, 3) == ScanResult(false, "", 5)
  {
    MissAt(kw, toks, 3);
    FailAt(kw, toks, 3, 3);
    ExtractGluedTailScan4(kw, toks);
  }

  /** The scan from token 2. */
  lemma ExtractGluedTailScan2(kw: Dictionary, toks: seq<string>)
    requires kw == HelloWorldKeywords && toks == ["hello", " ", "worldhello", " ", "world"]
    ensures FirstKeywordSpec(kw, toks, 2) == ScanResult(false, "", 5)
  {
    MissAt(kw, toks, 2);
    FailAt(kw, toks, 2, 2);
    ExtractGluedTailScan3(kw, toks);
  }

  /** The scan from token 1. */
  lemma ExtractGluedTailScan1(kw: Dictionary, toks: seq<string>)
    requires kw == HelloWorldKeywords && toks == ["hello", " ", "worldhello", " ", "world"]
    ensures FirstKeywordSpec(kw, toks, 1) == ScanResult(false, "", 5)
  {
    MissAt(kw, toks, 1);
    FailAt(kw, toks, 1, 1);
    ExtractGluedTailScan2(kw, toks);
  }

  /** Extraction from token 1. */
  lemma ExtractGluedTailExtract1(kw: Dictionary, toks: seq<string>)
    requires kw == HelloWorldKeywords && toks == ["hello", " ", "worldhello", " ", "world"]
    ensures ExtractSpec(kw, toks, 1) == []
  {
    ExtractGluedTailScan1(kw, toks);
  }

  /** "hello world hello world" holds the longer keyword twice. */
  lemma ExtractRepeated(kw: Dictionary, toks: seq<string>)
    requires kw == HelloWorldKeywords && toks == ["hello", " ", "world", " ", "hello", " ", "world"]
    ensures ExtractSpec(kw, toks, 0) == ["hello world", "hello world"]
  {
    ExtractRepeatedScan0(kw, toks);
    ExtractRepeatedExtract3(kw, toks);
  }

  /** The descent of the attempt at token 0 stops at token 3, the last keyword it meets ending at token 3. */
  lemma ExtractRepeatedAttempt0(kw: Dictionary, toks: seq<string>)
    requires kw == HelloWorldKeywords && toks == ["hello", " ", "world", " ", "hello", " ", "world"]
    ensures Descent(kw, toks, 0, 0) == 3 && LastMatch(kw, toks, 0, 3) == Some(3)
  {
    assert toks[0..1] == ["hello"];
    DescentGoes(kw, toks, 0, 0, ["hello"], ["hello"]);
    assert toks[0..2] == ["hello", " "];
    DescentGoes(kw, toks, 0, 1, ["hello", " "], ["hello", " ", "world"]);
    assert toks[0..3] == ["hello", " ", "world"];
    DescentGoes(kw, toks, 0, 2, ["hello", " ", "world"], ["hello", " ", "world"]);
    DescentStops(kw, toks, 0, 3, ["hello", " ", "world", " "]);
    LastMatchHit(kw, toks, 0, 3, ["hello", " ", "world"]);
  }

  /** The scan from token 0. */
  lemma ExtractRepeatedScan0(kw: Dictionary, toks: seq<string>)
    requires kw == HelloWorldKeywords && toks == ["hello", " ", "world", " ", "hello", " ", "world"]
    ensures FirstKeywordSpec(kw, toks, 0) == ScanResult(true, "hello world", 3)
  {
    ExtractRepeatedAttempt0(kw, toks);
    MatchAt(kw, toks, 0, 3, 3);
    assert kw[toks[0..3]] == "hello world" by {
      assert toks[0..3] == ["hello", " ", "world"];
    }
  }

  /** The descent of the attempt at token 4 runs to the end of the text, the last keyword it meets ending at token 7. */
  lemma ExtractRepeatedAttempt4(kw: Dictionary, toks: seq<string>)
    requires kw == HelloWorldKeywords && toks == ["hello", " ", "world", " ", "hello", " ", "world"]
    ensures Descent(kw, toks, 4, 4) == |toks| && LastMatch(kw, toks, 4, |toks|) == Some(7)
  {
    assert toks[4..5] == ["hello"];
    DescentGoes(kw, toks, 4, 4, ["hello"], ["hello"]);
    assert toks[4..6] == ["hello", " "];
    DescentGoes(kw, toks, 4, 5, ["hello", " "], ["hello", " ", "world"]);
    assert toks[4..7] == ["hello", " ", "world"];
    DescentGoes(kw, toks, 4, 6, ["hello", " ", "world"], ["hello", " ", "world"]);
    LastMatchHit(kw, toks, 4, 7, ["hello", " ", "world"]);
  }

  /** The scan from token 4. */
  lemma ExtractRepeatedScan4(kw: Dictionary, toks: seq<string>)
    requires kw == HelloWorldKeywords && toks == ["hello", " ", "world", " ", "hello", " ", "world"]
    ensures FirstKeywordSpec(kw, toks, 4) == ScanResult(true, "hello world", 7)
  {
    ExtractRepeatedAttempt4(kw, toks);
    MatchAt(kw, toks, 4, 7, 7);
    assert kw[toks[4..7]] == "hello world" by {
      assert toks[4..7] == ["hello", " ", "world"];
    }
  }

  /** The scan from token 3. */
  lemma ExtractRepeatedScan3(kw: Dictionary, toks: seq<string>)
    requires kw == HelloWorldKeywords && toks == ["hello", " ", "world", " ", "hello", " ", "world"]
    ensures FirstKeywordSpec(kw, toks, 3) == ScanResult(true, "hello world", 7)
  {
    MissAt(kw, toks, 3);
    FailAt(kw, toks, 3, 3);
    ExtractRepeatedScan4(kw, toks);
  }

  /** The scan from token 7. */
  lemma ExtractRepeatedScan7(kw: Dictionary, toks: seq<string>)
    requires kw == HelloWorldKeywords && toks == ["hello", " ", "world", " ", "hello", " ", "world"]
    ensures FirstKeywordSpec(kw, toks, 7) == ScanResult(false, "", 7)
  {
  }

  /** Extraction from token 7. */
  lemma ExtractRepeatedExtract7(kw: Dictionary, toks: seq<string>)
    requires kw == HelloWorldKeywords && toks == ["hello", " ", "world", " ", "hello", " ", "world"]
    ensures ExtractSpec(kw, toks, 7) == []
  {
    ExtractRepeatedScan7(kw, toks);
  }

  /** Extraction from token 3. */
  lemma ExtractRepeatedExtract3(kw: Dictionary, toks: seq<string>)
    requires kw == HelloWorldKeywords && toks == ["hello", " ", "world", " ", "hello", " ", "world"]
    ensures ExtractSpec(kw, toks, 3) == ["hello world"]
  {
    ExtractRepeatedScan3(kw, toks);
    ExtractRepeatedExtract7(kw, toks);
  }

  /** A failed attempt restarts one token after its start, so "hey there" is found inside "hey hey there". */
  lemma ExtractRestart(kw: Dictionary, toks: seq<string>)
    requires kw == HeyKeywords && toks == ["hey", " ", "hey", " ", "there"]
    ensures ExtractSpec(kw, toks, 0) == ["hey there"]
  {
    ExtractRestartScan0(kw, toks);
    ExtractRestartExtract5(kw, toks);
  }

  /** The descent of the attempt at token 0 stops at token 2 and meets no keyword. */
  lemma ExtractRestartAttempt0(kw: Dictionary, toks: seq<string>)
    requires kw == HeyKeywords && toks == ["hey", " ", "hey", " ", "there"]
    ensures Descent(kw, toks, 0, 0) == 2 && LastMatch(kw, toks, 0, 2) == None
  {
    assert toks[0..1] == ["hey"];
    DescentGoes(kw, toks, 0, 0, ["hey"], ["hey", " ", "there"]);
    assert toks[0..2] == ["hey", " "];
    DescentGoes(kw, toks, 0, 1, ["hey", " "], ["hey", " ", "there"]);
    DescentStops(kw, toks, 0, 2, ["hey", " ", "hey"]);
    LastMatchMiss(kw, toks, 0, 2, ["hey", " "]);
    LastMatchMiss(kw, toks, 0, 1, ["hey"]);
  }

  /** The descent of the attempt at token 2 runs to the end of the text, the last keyword it meets ending at token 5. */
  lemma ExtractRestartAttempt2(kw: Dictionary, toks: seq<string>)
    requires kw == HeyKeywords && toks == ["hey", " ", "hey", " ", "there"]
    ensures Descent(kw, toks, 2, 2) == |toks| && LastMatch(kw, toks, 2, |toks|) == Some(5)
  {
    assert toks[2..3] == ["hey"];
    DescentGoes(kw, toks, 2, 2, ["hey"], ["hey", " ", "there"]);
    assert toks[2..4] == ["hey", " "];
    DescentGoes(kw, toks, 2, 3, ["hey", " "], ["hey", " ", "there"]);
    assert toks[2..5] == ["hey", " ", "there"];
    DescentGoes(kw, toks, 2, 4, ["hey", " ", "there"], ["hey", " ", "there"]);
    LastMatchHit(kw, toks, 2, 5, ["hey", " ", "there"]);
  }

  /** The scan from token 2. */
  lemma ExtractRestartScan2(kw: Dictionary, toks: seq<string>)
    requires kw == HeyKeywords && toks == ["hey", " ", "hey", " ", "there"]
    ensures FirstKeywordSpec(kw, toks, 2) == ScanResult(true, "hey there", 5)
  {
    ExtractRestartAttempt2(kw, toks);
    MatchAt(kw, toks, 2, 5, 5);
    assert kw[toks[2..5]] == "hey there" by {
      assert toks[2..5] == ["hey", " ", "there"];
    }
  }

  /** The scan from token 1. */
  lemma ExtractRestartScan1(kw: Dictionary, toks: seq<string>)
    requires kw == HeyKeywords && toks == ["hey", " ", "hey", " ", "there"]
    ensures FirstKeywordSpec(kw, toks, 1) == ScanResult(true, "hey there", 5)
  {
    MissAt(kw, toks, 1);
    FailAt(kw, toks, 1, 1);
    ExtractRestartScan2(kw, toks);
  }

  /** The scan from token 0. */
  lemma ExtractRestartScan0(kw: Dictionary, toks: seq<string>)
    requires kw == HeyKeywords && toks == ["hey", " ", "hey", " ", "there"]
    ensures FirstKeywordSpec(kw, toks, 0) == ScanResult(true, "hey there", 5)
  {
    ExtractRestartAttempt0(kw, toks);
    FailAt(kw, toks, 0, 2);
    ExtractRestartScan1(kw, toks);
  }

  /** The scan from token 5. */
  lemma ExtractRestartScan5(kw: Dictionary, toks: seq<string>)
    requires kw == HeyKeywords && toks == ["hey", " ", "hey", " ", "there"]
    ensures FirstKeywordSpec(kw, toks, 5) == ScanResult(false, "", 5)
  {
  }

  /** Extraction from token 5. */
  lemma ExtractRestartExtract5(kw: Dictionary, toks: seq<string>)
    requires kw == HeyKeywords && toks == ["hey", " ", "hey", " ", "there"]
    ensures ExtractSpec(kw, toks, 5) == []
  {
    ExtractRestartScan5(kw, toks);
  }

  /** A keyword ending in a space is followed directly by the next one. */
  lemma ExtractTrailingSpace(kw: Dictionary, toks: seq<string>)
    requires kw == TrailingSpaceKeywords && toks == ["hello", " ", "world"]
    ensures ExtractSpec(kw, toks, 0) == ["hello ", "world"]
  {
    ExtractTrailingSpaceScan0(kw, toks);
    ExtractTrailingSpaceExtract2(kw, toks);
  }

  /** The descent of the attempt at token 0 stops at token 2, the last keyword it meets ending at token 2. */
  lemma ExtractTrailingSpaceAttempt0(kw: Dictionary, toks: seq<string>)
    requires kw == TrailingSpaceKeywords && toks == ["hello", " ", "world"]
    ensures Descent(kw, toks, 0, 0) == 2 && LastMatch(kw, toks, 0, 2) == Some(2)
  {
    assert toks[0..1] == ["hello"];
    DescentGoes(kw, toks, 0, 0, ["hello"], ["hello", " "]);
    assert toks[0..2] == ["hello", " "];
    DescentGoes(kw, toks, 0, 1, ["hello", " "], ["hello", " "]);
    DescentStops(kw, toks, 0, 2, ["hello", " ", "world"]);
    LastMatchHit(kw, toks, 0, 2, ["hello", " "]);
  }

  /** The scan from token 0. */
  lemma ExtractTrailingSpaceScan0(kw: Dictionary, toks: seq<string>)
    requires kw == TrailingSpaceKeywords && toks == ["hello", " ", "world"]
    ensures FirstKeywordSpec(kw, toks, 0) == ScanResult(true, "hello ", 2)
  {
    ExtractTrailingSpaceAttempt0(kw, toks);
    MatchAt(kw, toks, 0, 2, 2);
    assert kw[toks[0..2]] == "hello " by {
      assert toks[0..2] == ["hello", " "];
    }
  }

  /** The descent of the attempt at token 2 runs to the end of the text, the last keyword it meets ending at token 3. */
  lemma ExtractTrailingSpaceAttempt2(kw: Dictionary, toks: seq<string>)
    requires kw == TrailingSpaceKeywords && toks == ["hello", " ", "world"]
    ensures Descent(kw, toks, 2, 2) == |toks| && LastMatch(kw, toks, 2, |toks|) == Some(3)
  {
    assert toks[2..3] == ["world"];
    DescentGoes(kw, toks, 2, 2, ["world"], ["world"]);
    LastMatchHit(kw, toks, 2, 3, ["world"]);
  }

  /** The scan from token 2. */
  lemma ExtractTrailingSpaceScan2(kw: Dictionary, toks: seq<string>)
    requires kw == TrailingSpaceKeywords && toks == ["hello", " ", "world"]
    ensures FirstKeywordSpec(kw, toks, 2) == ScanResult(true, "world", 3)
  {
    ExtractTrailingSpaceAttempt2(kw, toks);
    MatchAt(kw, toks, 2, 3, 3);
    assert kw[toks[2..3]] == "world" by {
      assert toks[2..3] == ["world"];
    }
  }

  /** The scan from token 3. */
  lemma ExtractTrailingSpaceScan3(kw: Dictionary, toks: seq<string>)
    requires kw == TrailingSpaceKeywords && toks == ["hello", " ", "world"]
    ensures FirstKeywordSpec(kw, toks, 3) == ScanResult(false, "", 3)
  {
  }

  /** Extraction from token 3. */
  lemma ExtractTrailingSpaceExtract3(kw: Dictionary, toks: seq<string>)
    requires kw == TrailingSpaceKeywords && toks == ["hello", " ", "world"]
    ensures ExtractSpec(kw, toks, 3) == []
  {
    ExtractTrailingSpaceScan3(kw, toks);
  }

  /** Extraction from token 2. */
  lemma ExtractTrailingSpaceExtract2(kw: Dictionary, toks: seq<string>)
    requires kw == TrailingSpaceKeywords && toks == ["hello", " ", "world"]
    ensures ExtractSpec(kw, toks, 2) == ["world"]
  {
    ExtractTrailingSpaceScan2(kw, toks);
    ExtractTrailingSpaceExtract3(kw, toks);
  }

  /** A keyword starting with a space is found right after the previous one. */
  lemma ExtractLeadingSpace(kw: Dictionary, toks: seq<string>)
    requires kw == LeadingSpaceKeywords && toks == ["hello", " ", "world"]
    ensures ExtractSpec(kw, toks, 0) == ["hello", " world"]
  {
    ExtractLeadingSpaceScan0(kw, toks);
    ExtractLeadingSpaceExtract1(kw, toks);
  }

  /** The descent of the attempt at token 0 stops at token 1, the last keyword it meets ending at token 1. */
  lemma ExtractLeadingSpaceAttempt0(kw: Dictionary, toks: seq<string>)
    requires kw == LeadingSpaceKeywords && toks == ["hello", " ", "world"]
    ensures Descent(kw, toks, 0, 0) == 1 && LastMatch(kw, toks, 0, 1) == Some(1)
  {
    assert toks[0..1] == ["hello"];
    DescentGoes(kw, toks, 0, 0, ["hello"], ["hello"]);
    DescentStops(kw, toks, 0, 1, ["hello", " "]);
    LastMatchHit(kw, toks, 0, 1, ["hello"]);
  }

  /** The scan from token 0. */
  lemma ExtractLeadingSpaceScan0(kw: Dictionary, toks: seq<string>)
    requires kw == LeadingSpaceKeywords && toks == ["hello", " ", "world"]
    ensures FirstKeywordSpec(kw, toks, 0) == ScanResult(true, "hello", 1)
  {
    ExtractLeadingSpaceAttempt0(kw, toks);
    MatchAt(kw, toks, 0, 1, 1);
    assert kw[toks[0..1]] == "hello" by {
      assert toks[0..1] == ["hello"];
    }
  }

  /** The descent of the attempt at token 1 runs to the end of the text, the last keyword it meets ending at token 3. */
  lemma ExtractLeadingSpaceAttempt1(kw: Dictionary, toks: seq<string>)
    requires kw == LeadingSpaceKeywords && toks == ["hello", " ", "world"]
    ensures Descent(kw, toks, 1, 1) == |toks| && LastMatch(kw, toks, 1, |toks|) == Some(3)
  {
    assert toks[1..2] == [" "];
    DescentGoes(kw, toks, 1, 1, [" "], [" ", "world"]);
    assert toks[1..3] == [" ", "world"];
    DescentGoes(kw, toks, 1, 2, [" ", "world"], [" ", "world"]);
    LastMatchHit(kw, toks, 1, 3, [" ", "world"]);
  }

  /** The scan from token 1. */
  lemma ExtractLeadingSpaceScan1(kw: Dictionary, toks: seq<string>)
    requires kw == LeadingSpaceKeywords && toks == ["hello", " ", "world"]
    ensures FirstKeywordSpec(kw, toks, 1) == ScanResult(true, " world", 3)
  {
    ExtractLeadingSpaceAttempt1(kw, toks);
    MatchAt(kw, toks, 1, 3, 3);
    assert kw[toks[1..3]] == " world" by {
      assert toks[1..3] == [" ", "world"];
    }
  }

  /** The scan from token 3. */
  lemma ExtractLeadingSpaceScan3(kw: Dictionary, toks: seq<string>)
    requires kw == LeadingSpaceKeywords && toks == ["hello", " ", "world"]
    ensures FirstKeywordSpec(kw, toks, 3) == ScanResult(false, "", 3)
  {
  }

  /** Extraction from token 3. */
  lemma ExtractLeadingSpaceExtract3(kw: Dictionary, toks: seq<string>)
    requires kw == LeadingSpaceKeywords && toks == ["hello", " ", "world"]
    ensures ExtractSpec(kw, toks, 3) == []
  {
    ExtractLeadingSpaceScan3(kw, toks);
  }

  /** Extraction from token 1. */
  lemma ExtractLeadingSpaceExtract1(kw: Dictionary, toks: seq<string>)
    requires kw == LeadingSpaceKeywords && toks == ["hello", " ", "world"]
    ensures ExtractSpec(kw, toks, 1) == [" world"]
  {
    ExtractLeadingSpaceScan1(kw, toks);
    ExtractLeadingSpaceExtract3(kw, toks);
  }

  /** The empty text gives the empty text. */
  lemma ReplaceEmpty(kw: Dictionary, toks: seq<string>)
    requires kw == HelloOnly && toks == []
    ensures ReplaceSpec(kw, toks) == ""
  {
    assert ReplaceSpec(kw, toks) == ReplaceFrom(kw, toks, 0, 0);
    assert FirstAttempt(kw, toks, 0) == 0;
    assert ReplaceFrom(kw, toks, 0, 0) == ReplaceAt(kw, toks, 0, 0);
    assert Concat(toks[0..]) == "" by {
      assert toks[0..] == [];
    }
  }

  /** A text without keywords is copied. */
  lemma ReplaceNone(kw: Dictionary, toks: seq<string>)
    requires kw == HelloOnly && toks == ["hey"]
    ensures ReplaceSpec(kw, toks) == "hey"
  {
    assert ReplaceSpec(kw, toks) == ReplaceFrom(kw, toks, 0, 0);
    MissAt(kw, toks, 0);
    FailAt(kw, toks, 0, 0);
    ReplaceNoneFrom0At1(kw, toks);
  }

  /** Replacement from token 1, with the text from token 0 on not yet copied. */
  lemma ReplaceNoneFrom0At1(kw: Dictionary, toks: seq<string>)
    requires kw == HelloOnly && toks == ["hey"]
    ensures ReplaceFrom(kw, toks, 0, 1) == ("hey")
  {
    assert FirstAttempt(kw, toks, 1) == 1;
    assert ReplaceFrom(kw, toks, 0, 1) == ReplaceAt(kw, toks, 0, 1);
    assert Concat(toks[0..]) == ("hey") by {
      assert toks[0..] == ["hey"];
      assert ["hey"][..0] == [];
    }
  }

  /** A keyword that is its own clean word gives the text back. */
  lemma ReplaceSelf(kw: Dictionary, toks: seq<string>)
    requires kw == HelloOnly && toks == ["hello"]
    ensures ReplaceSpec(kw, toks) == "hello"
  {
    assert ReplaceSpec(kw, toks) == ReplaceFrom(kw, toks, 0, 0);
    ExtractAloneAttempt0(kw, toks);
    assert Concat(toks[0..0]) == "" by {
      assert toks[0..0] == [];
    }
    assert kw[toks[0..1]] == "hello" by {
      assert toks[0..1] == ["hello"];
    }
    MatchAtEnd(kw, toks, 0, 0, 1);
  }

  /** A keyword that is its own clean word, followed by text, gives the text back. */
  lemma ReplaceSelfBeforeText(kw: Dictionary, toks: seq<string>)
    requires kw == HelloOnly && toks == ["hello", " ", "world"]
    ensures ReplaceSpec(kw, toks) == "hello world"
  {
    assert ReplaceSpec(kw, toks) == ReplaceFrom(kw, toks, 0, 0);
    HelloBeforeOther(kw, toks, 0);
    assert Concat(toks[0..0]) == "" by {
      assert toks[0..0] == [];
    }
    assert kw[toks[0..1]] == "hello" by {
      assert toks[0..1] == ["hello"];
    }
    ReplaceFromMatch(kw, toks, 0, 0, 1, 1);
    ReplaceSelfBeforeTextFrom1At2(kw, toks);
  }

  /** Replacement from token 3, with the text from token 1 on not yet copied. */
  lemma ReplaceSelfBeforeTextFrom1At3(kw: Dictionary, toks: seq<string>)
    requires kw == HelloOnly && toks == ["hello", " ", "world"]
    ensures ReplaceFrom(kw, toks, 1, 3) == (" " + "world")
  {
    assert FirstAttempt(kw, toks, 3) == 3;
    assert ReplaceFrom(kw, toks, 1, 3) == ReplaceAt(kw, toks, 1, 3);
    assert Concat(toks[1..]) == (" " + "world") by {
      assert toks[1..] == [" ", "world"];
      assert [" ", "world"][..1] == [" "];
      assert [" "][..0] == [];
    }
  }

  /** Replacement from token 2, with the text from token 1 on not yet copied. */
  lemma ReplaceSelfBeforeTextFrom1At2(kw: Dictionary, toks: seq<string>)
    requires kw == HelloOnly && toks == ["hello", " ", "world"]
    ensures ReplaceFrom(kw, toks, 1, 2) == (" " + "world")
  {
    MissAt(kw, toks, 2);
    FailAt(kw, toks, 2, 2);
    ReplaceSelfBeforeTextFrom1At3(kw, toks);
  }

  /** A keyword at the start is replaced and the rest copied. */
  lemma ReplaceOne(kw: Dictionary, toks: seq<string>)
    requires kw == HeyForHello && toks == ["hello", " ", "world"]
    ensures ReplaceSpec(kw, toks) == "hey world"
  {
    assert ReplaceSpec(kw, toks) == ReplaceFrom(kw, toks, 0, 0);
    ReplaceOneAttempt0(kw, toks);
    assert Concat(toks[0..0]) == "" by {
      assert toks[0..0] == [];
    }
    assert kw[toks[0..1]] == "hey" by {
      assert toks[0..1] == ["hello"];
    }
    ReplaceFromMatch(kw, toks, 0, 0, 1, 1);
    ReplaceOneFrom1At2(kw, toks);
  }

  /** The descent of the attempt at token 0 stops at token 1, the last keyword it meets ending at token 1. */
  lemma ReplaceOneAttempt0(kw: Dictionary, toks: seq<string>)
    requires kw == HeyForHello && toks == ["hello", " ", "world"]
    ensures Descent(kw, toks, 0, 0) == 1 && LastMatch(kw, toks, 0, 1) == Some(1)
  {
    assert toks[0..1] == ["hello"];
    DescentGoes(kw, toks, 0, 0, ["hello"], ["hello"]);
    DescentStops(kw, toks, 0, 1, ["hello", " "]);
    LastMatchHit(kw, toks, 0, 1, ["hello"]);
  }

  /** Replacement from token 3, with the text from token 1 on not yet copied. */
  lemma ReplaceOneFrom1At3(kw: Dictionary, toks: seq<string>)
    requires kw == HeyForHello && toks == ["hello", " ", "world"]
    ensures ReplaceFrom(kw, toks, 1, 3) == (" " + "world")
  {
    assert FirstAttempt(kw, toks, 3) == 3;
    assert ReplaceFrom(kw, toks, 1, 3) == ReplaceAt(kw, toks, 1, 3);
    assert Concat(toks[1..]) == (" " + "world") by {
      assert toks[1..] == [" ", "world"];
      assert [" ", "world"][..1] == [" "];
      assert [" "][..0] == [];
    }
  }

  /** Replacement from token 2, with the text from token 1 on not yet copied. */
  lemma ReplaceOneFrom1At2(kw: Dictionary, toks: seq<string>)
    requires kw == HeyForHello && toks == ["hello", " ", "world"]
    ensures ReplaceFrom(kw, toks, 1, 2) == (" " + "world")
  {
    MissAt(kw, toks, 2);
    FailAt(kw, toks, 2, 2);
    ReplaceOneFrom1At3(kw, toks);
  }

  /** Two keywords are replaced by each other's clean words and the text between them copied. */
  lemma ReplaceSwap(kw: Dictionary, toks: seq<string>)
    requires kw == SwapKeywords && toks == ["hey", " ", "jack", ",", " ", "hello", " ", "sarah"]
    ensures ReplaceSpec(kw, toks) == "hello jack, hey sarah"
  {
    assert ReplaceSpec(kw, toks) == ReplaceFrom(kw, toks, 0, 0);
    ReplaceSwapAttempt0(kw, toks);
    assert Concat(toks[0..0]) == "" by {
      assert toks[0..0] == [];
    }
    assert kw[toks[0..1]] == "hello" by {
      assert toks[0..1] == ["hey"];
    }
    ReplaceFromMatch(kw, toks, 0, 0, 1, 1);
    ReplaceSwapFrom1At2(kw, toks);
  }

  /** The descent of the attempt at token 0 stops at token 1, the last keyword it meets ending at token 1. */
  lemma ReplaceSwapAttempt0(kw: Dictionary, toks: seq<string>)
    requires kw == SwapKeywords && toks == ["hey", " ", "jack", ",", " ", "hello", " ", "sarah"]
    ensures Descent(kw, toks, 0, 0) == 1 && LastMatch(kw, toks, 0, 1) == Some(1)
  {
    assert toks[0..1] == ["hey"];
    DescentGoes(kw, toks, 0, 0, ["hey"], ["hey"]);
    DescentStops(kw, toks, 0, 1, ["hey", " "]);
    LastMatchHit(kw, toks, 0, 1, ["hey"]);
  }

  /** The descent of the attempt at token 3 stops at token 3 and meets no keyword. */
  lemma ReplaceSwapAttempt3(kw: Dictionary, toks: seq<string>)
    requires kw == SwapKeywords && toks == ["hey", " ", "jack", ",", " ", "hello", " ", "sarah"]
    ensures Descent(kw, toks, 3, 3) == 3 && LastMatch(kw, toks, 3, 3) == None
  {
    DescentStops(kw, toks, 3, 3, [","]);
  }

  /** The descent of the attempt at token 5 stops at token 6, the last keyword it meets ending at token 6. */
  lemma ReplaceSwapAttempt5(kw: Dictionary, toks: seq<string>)
    requires kw == SwapKeywords && toks == ["hey", " ", "jack", ",", " ", "hello", " ", "sarah"]
    ensures Descent(kw, toks, 5, 5) == 6 && LastMatch(kw, toks, 5, 6) == Some(6)
  {
    assert toks[5..6] == ["hello"];
    DescentGoes(kw, toks, 5, 5, ["hello"], ["hello"]);
    DescentStops(kw, toks, 5, 6, ["hello", " "]);
    LastMatchHit(kw, toks, 5, 6, ["hello"]);
  }

  /** Replacement from token 8, with the text from token 6 on not yet copied. */
  lemma ReplaceSwapFrom6At8(kw: Dictionary, toks: seq<string>)
    requires kw == SwapKeywords && toks == ["hey", " ", "jack", ",", " ", "hello", " ", "sarah"]
    ensures ReplaceFrom(kw, toks, 6, 8) == (" " + "sarah")
  {
    assert FirstAttempt(kw, toks, 8) == 8;
    assert ReplaceFrom(kw, toks, 6, 8) == ReplaceAt(kw, toks, 6, 8);
    assert Concat(toks[6..]) == (" " + "sarah") by {
      assert toks[6..] == [" ", "sarah"];
      assert [" ", "sarah"][..1] == [" "];
      assert [" "][..0] == [];
    }
  }

  /** Replacement from token 7, with the text from token 6 on not yet copied. */
  lemma ReplaceSwapFrom6At7(kw: Dictionary, toks: seq<string>)
    requires kw == SwapKeywords && toks == ["hey", " ", "jack", ",", " ", "hello", " ", "sarah"]
    ensures ReplaceFrom(kw, toks, 6, 7) == (" " + "sarah")
  {
    MissAt(kw, toks, 7);
    FailAt(kw, toks, 7, 7);
    ReplaceSwapFrom6At8(kw, toks);
  }

  /** Replacement from token 5, with the text from token 1 on not yet copied. */
  lemma ReplaceSwapFrom1At5(kw: Dictionary, toks: seq<string>)
    requires kw == SwapKeywords && toks == ["hey", " ", "jack", ",", " ", "hello", " ", "sarah"]
    ensures ReplaceFrom(kw, toks, 1, 5) == (" " + "jack" + "," + " ") + "hey" + ((" " + "sarah"))
  {
    ReplaceSwapAttempt5(kw, toks);
    assert Concat(toks[1..5]) == (" " + "jack" + "," + " ") by {
      assert toks[1..5] == [" ", "jack", ",", " "];
      assert [" ", "jack", ",", " "][..3] == [" ", "jack", ","];
      assert [" ", "jack", ","][..2] == [" ", "jack"];
      assert [" ", "jack"][..1] == [" "];
      assert [" "][..0] == [];
    }
    assert kw[toks[5..6]] == "hey" by {
      assert toks[5..6] == ["hello"];
    }
    ReplaceFromMatch(kw, toks, 1, 5, 6, 6);
    ReplaceSwapFrom6At7(kw, toks);
  }

  /** Replacement from token 4, with the text from token 1 on not yet copied. */
  lemma ReplaceSwapFrom1At4(kw: Dictionary, toks: seq<string>)
    requires kw == SwapKeywords && toks == ["hey", " ", "jack", ",", " ", "hello", " ", "sarah"]
    ensures ReplaceFrom(kw, toks, 1, 4) == (" " + "jack" + "," + " ") + "hey" + ((" " + "sarah"))
  {
    MissAt(kw, toks, 4);
    FailAt(kw, toks, 4, 4);
    ReplaceSwapFrom1At5(kw, toks);
  }

  /** Replacement from token 3, with the text from token 1 on not yet copied. */
  lemma ReplaceSwapFrom1At3(kw: Dictionary, toks: seq<string>)
    requires kw == SwapKeywords && toks == ["hey", " ", "jack", ",", " ", "hello", " ", "sarah"]
    ensures ReplaceFrom(kw, toks, 1, 3) == (" " + "jack" + "," + " ") + "hey" + ((" " + "sarah"))
  {
    ReplaceSwapAttempt3(kw, toks);
    FailAt(kw, toks, 3, 3);
    ReplaceSwapFrom1At4(kw, toks);
  }

  /** Replacement from token 2, with the text from token 1 on not yet copied. */
  lemma ReplaceSwapFrom1At2(kw: Dictionary, toks: seq<string>)
    requires kw == SwapKeywords && toks == ["hey", " ", "jack", ",", " ", "hello", " ", "sarah"]
    ensures ReplaceFrom(kw, toks, 1, 2) == (" " + "jack" + "," + " ") + "hey" + ((" " + "sarah"))
  {
    MissAt(kw, toks, 2);
    FailAt(kw, toks, 2, 2);
    ReplaceSwapFrom1At3(kw, toks);
  }

  /** Keywords with the empty clean word are deleted. */
  lemma ReplaceErase(kw: Dictionary, toks: seq<string>)
    requires kw == EraseKeywords && toks == ["hey", " ", "jack", ",", " ", "hello", " ", "sarah"]
    ensures ReplaceSpec(kw, toks) == " jack,  sarah"
  {
    assert ReplaceSpec(kw, toks) == ReplaceFrom(kw, toks, 0, 0);
    ReplaceEraseAttempt0(kw, toks);
    assert Concat(toks[0..0]) == "" by {
      assert toks[0..0] == [];
    }
    assert kw[toks[0..1]] == "" by {
      assert toks[0..1] == ["hey"];
    }
    ReplaceFromMatch(kw, toks, 0, 0, 1, 1);
    ReplaceEraseFrom1At2(kw, toks);
  }

  /** The descent of the attempt at token 0 stops at token 1, the last keyword it meets ending at token 1. */
  lemma ReplaceEraseAttempt0(kw: Dictionary, toks: seq<string>)
    requires kw == EraseKeywords && toks == ["hey", " ", "jack", ",", " ", "hello", " ", "sarah"]
    ensures Descent(kw, toks, 0, 0) == 1 && LastMatch(kw, toks, 0, 1) == Some(1)
  {
    assert toks[0..1] == ["hey"];
    DescentGoes(kw, toks, 0, 0, ["hey"], ["hey"]);
    DescentStops(kw, toks, 0, 1, ["hey", " "]);
    LastMatchHit(kw, toks, 0, 1, ["hey"]);
  }

  /** The descent of the attempt at token 3 stops at token 3 and meets no keyword. */
  lemma ReplaceEraseAttempt3(kw: Dictionary, toks: seq<string>)
    requires kw == EraseKeywords && toks == ["hey", " ", "jack", ",", " ", "hello", " ", "sarah"]
    ensures Descent(kw, toks, 3, 3) == 3 && LastMatch(kw, toks, 3, 3) == None
  {
    DescentStops(kw, toks, 3, 3, [","]);
  }

  /** The descent of the attempt at token 5 stops at token 6, the last keyword it meets ending at token 6. */
  lemma ReplaceEraseAttempt5(kw: Dictionary, toks: seq<string>)
    requires kw == EraseKeywords && toks == ["hey", " ", "jack", ",", " ", "hello", " ", "sarah"]
    ensures Descent(kw, toks, 5, 5) == 6 && LastMatch(kw, toks, 5, 6) == Some(6)
  {
    assert toks[5..6] == ["hello"];
    DescentGoes(kw, toks, 5, 5, ["hello"], ["hello"]);
    DescentStops(kw, toks, 5, 6, ["hello", " "]);
    LastMatchHit(kw, toks, 5, 6, ["hello"]);
  }

  /** Replacement from token 8, with the text from token 6 on not yet copied. */
  lemma ReplaceEraseFrom6At8(kw: Dictionary, toks: seq<string>)
    requires kw == EraseKeywords && toks == ["hey", " ", "jack", ",", " ", "hello", " ", "sarah"]
    ensures ReplaceFrom(kw, toks, 6, 8) == (" " + "sarah")
  {
    assert FirstAttempt(kw, toks, 8) == 8;
    assert ReplaceFrom(kw, toks, 6, 8) == ReplaceAt(kw, toks, 6, 8);
    assert Concat(toks[6..]) == (" " + "sarah") by {
      assert toks[6..] == [" ", "sarah"];
      assert [" ", "sarah"][..1] == [" "];
      assert [" "][..0] == [];
    }
  }

  /** Replacement from token 7, with the text from token 6 on not yet copied. */
  lemma ReplaceEraseFrom6At7(kw: Dictionary, toks: seq<string>)
    requires kw == EraseKeywords && toks == ["hey", " ", "jack", ",", " ", "hello", " ", "sarah"]
    ensures ReplaceFrom(kw, toks, 6, 7) == (" " + "sarah")
  {
    MissAt(kw, toks, 7);
    FailAt(kw, toks, 7, 7);
    ReplaceEraseFrom6At8(kw, toks);
  }

  /** Replacement from token 5, with the text from token 1 on not yet copied. */
  lemma ReplaceEraseFrom1At5(kw: Dictionary, toks: seq<string>)
    requires kw == EraseKeywords && toks == ["hey", " ", "jack", ",", " ", "hello", " ", "sarah"]
    ensures ReplaceFrom(kw, toks, 1, 5) == (" " + "jack" + "," + " ") + "" + ((" " + "sarah"))
  {
    ReplaceEraseAttempt5(kw, toks);
    assert Concat(toks[1..5]) == (" " + "jack" + "," + " ") by {
      assert toks[1..5] == [" ", "jack", ",", " "];
      assert [" ", "jack", ",", " "][..3] == [" ", "jack", ","];
      assert [" ", "jack", ","][..2] == [" ", "jack"];
      assert [" ", "jack"][..1] == [" "];
      assert [" "][..0] == [];
    }
    assert kw[toks[5..6]] == "" by {
      assert toks[5..6] == ["hello"];
    }
    ReplaceFromMatch(kw, toks, 1, 5, 6, 6);
    ReplaceEraseFrom6At7(kw, toks);
  }

  /** Replacement from token 4, with the text from token 1 on not yet copied. */
  lemma ReplaceEraseFrom1At4(kw: Dictionary, toks: seq<string>)
    requires kw == EraseKeywords && toks == ["hey", " ", "jack", ",", " ", "hello", " ", "sarah"]
    ensures ReplaceFrom(kw, toks, 1, 4) == (" " + "jack" + "," + " ") + "" + ((" " + "sarah"))
  {
    MissAt(kw, toks, 4);
    FailAt(kw, toks, 4, 4);
    ReplaceEraseFrom1At5(kw, toks);
  }

  /** Replacement from token 3, with the text from token 1 on not yet copied. */
  lemma ReplaceEraseFrom1At3(kw: Dictionary, toks: seq<string>)
    requires kw == EraseKeywords && toks == ["hey", " ", "jack", ",", " ", "hello", " ", "sarah"]
    ensures ReplaceFrom(kw, toks, 1, 3) == (" " + "jack" + "," + " ") + "" + ((" " + "sarah"))
  {
    ReplaceEraseAttempt3(kw, toks);
    FailAt(kw, toks, 3, 3);
    ReplaceEraseFrom1At4(kw, toks);
  }

  /** Replacement from token 2, with the text from token 1 on not yet copied. */
  lemma ReplaceEraseFrom1At2(kw: Dictionary, toks: seq<string>)
    requires kw == EraseKeywords && toks == ["hey", " ", "jack", ",", " ", "hello", " ", "sarah"]
    ensures ReplaceFrom(kw, toks, 1, 2) == (" " + "jack" + "," + " ") + "" + ((" " + "sarah"))
  {
    MissAt(kw, toks, 2);
    FailAt(kw, toks, 2, 2);
    ReplaceEraseFrom1At3(kw, toks);
  }

  /** Failed attempts along "a b" are copied, the keyword "a b c" is replaced, and the final "a b", whose descent runs to the end of the text without a keyword, is copied. */
  lemma ReplaceAfterFailedAttempt(kw: Dictionary, toks: seq<string>)
    requires kw == AbcKeywords && toks == ["a", " ", "b", " ", "a", " ", "b", " ", "c", " ", "a", " ", "b"]
    ensures ReplaceSpec(kw, toks) == "a b abc a b"
  {
    assert ReplaceSpec(kw, toks) == ReplaceFrom(kw, toks, 0, 0);
    ReplaceAfterFailedAttemptAttempt0(kw, toks);
    FailAt(kw, toks, 0, 4);
    ReplaceAfterFailedAttemptFrom0At1(kw, toks);
  }

  /** The descent of the attempt at token 0, having read up to token 3, stops at token 4. */
  lemma ReplaceAfterFailedAttemptDescent0From3(kw: Dictionary, toks: seq<string>)
    requires kw == AbcKeywords && toks == ["a", " ", "b", " ", "a", " ", "b", " ", "c", " ", "a", " ", "b"]
    ensures Descent(kw, toks, 0, 3) == 4
  {
    assert toks[0..4] == ["a", " ", "b", " "];
    DescentGoes(kw, toks, 0, 3, ["a", " ", "b", " "], ["a", " ", "b", " ", "c"]);
    DescentStops(kw, toks, 0, 4, ["a", " ", "b", " ", "a"]);
  }

  /** The last keyword from token 0 up to token 1. */
  lemma ReplaceAfterFailedAttemptMatch0From1(kw: Dictionary, toks: seq<string>)
    requires kw == AbcKeywords && toks == ["a", " ", "b", " ", "a", " ", "b", " ", "c", " ", "a", " ", "b"]
    ensures LastMatch(kw, toks, 0, 1) == None
  {
    LastMatchMiss(kw, toks, 0, 1, ["a"]);
  }

  /** The descent of the attempt at token 0 stops at token 4 and meets no keyword. */
  lemma ReplaceAfterFailedAttemptAttempt0(kw: Dictionary, toks: seq<string>)
    requires kw == AbcKeywords && toks == ["a", " ", "b", " ", "a", " ", "b", " ", "c", " ", "a", " ", "b"]
    ensures Descent(kw, toks, 0, 0) == 4 && LastMatch(kw, toks, 0, 4) == None
  {
    assert toks[0..1] == ["a"];
    DescentGoes(kw, toks, 0, 0, ["a"], ["a", " ", "b", " ", "c"]);
    assert toks[0..2] == ["a", " "];
    DescentGoes(kw, toks, 0, 1, ["a", " "], ["a", " ", "b", " ", "c"]);
    assert toks[0..3] == ["a", " ", "b"];
    DescentGoes(kw, toks, 0, 2, ["a", " ", "b"], ["a", " ", "b", " ", "c"]);
    ReplaceAfterFailedAttemptDescent0From3(kw, toks);
    LastMatchMiss(kw, toks, 0, 4, ["a", " ", "b", " "]);
    LastMatchMiss(kw, toks, 0, 3, ["a", " ", "b"]);
    LastMatchMiss(kw, toks, 0, 2, ["a", " "]);
    ReplaceAfterFailedAttemptMatch0From1(kw, toks);
  }

  /** The descent of the attempt at token 4, having read up to token 7, stops at token 9. */
  lemma ReplaceAfterFailedAttemptDescent4From7(kw: Dictionary, toks: seq<string>)
    requires kw == AbcKeywords && toks == ["a", " ", "b", " ", "a", " ", "b", " ", "c", " ", "a", " ", "b"]
    ensures Descent(kw, toks, 4, 7) == 9
  {
    assert toks[4..8] == ["a", " ", "b", " "];
    DescentGoes(kw, toks, 4, 7, ["a", " ", "b", " "], ["a", " ", "b", " ", "c"]);
    assert toks[4..9] == ["a", " ", "b", " ", "c"];
    DescentGoes(kw, toks, 4, 8, ["a", " ", "b", " ", "c"], ["a", " ", "b", " ", "c"]);
    DescentStops(kw, toks, 4, 9, ["a", " ", "b", " ", "c", " "]);
  }

  /** The descent of the attempt at token 4 stops at token 9, the last keyword it meets ending at token 9. */
  lemma ReplaceAfterFailedAttemptAttempt4(kw: Dictionary, toks: seq<string>)
    requires kw == AbcKeywords && toks == ["a", " ", "b", " ", "a", " ", "b", " ", "c", " ", "a", " ", "b"]
    ensures Descent(kw, toks, 4, 4) == 9 && LastMatch(kw, toks, 4, 9) == Some(9)
  {
    assert toks[4..5] == ["a"];
    DescentGoes(kw, toks, 4, 4, ["a"], ["a", " ", "b", " ", "c"]);
    assert toks[4..6] == ["a", " "];
    DescentGoes(kw, toks, 4, 5, ["a", " "], ["a", " ", "b", " ", "c"]);
    assert toks[4..7] == ["a", " ", "b"];
    DescentGoes(kw, toks, 4, 6, ["a", " ", "b"], ["a", " ", "b", " ", "c"]);
    ReplaceAfterFailedAttemptDescent4From7(kw, toks);
    LastMatchHit(kw, toks, 4, 9, ["a", " ", "b", " ", "c"]);
  }

  /** The descent of the attempt at token 10 runs to the end of the text and meets no keyword. */
  lemma ReplaceAfterFailedAttemptAttempt10(kw: Dictionary, toks: seq<string>)
    requires kw == AbcKeywords && toks == ["a", " ", "b", " ", "a", " ", "b", " ", "c", " ", "a", " ", "b"]
    ensures Descent(kw, toks, 10, 10) == |toks| && LastMatch(kw, toks, 10, |toks|) == None
  {
    assert toks[10..11] == ["a"];
    DescentGoes(kw, toks, 10, 10, ["a"], ["a", " ", "b", " ", "c"]);
    assert toks[10..12] == ["a", " "];
    DescentGoes(kw, toks, 10, 11, ["a", " "], ["a", " ", "b", " ", "c"]);
    assert toks[10..13] == ["a", " ", "b"];
    DescentGoes(kw, toks, 10, 12, ["a", " ", "b"], ["a", " ", "b", " ", "c"]);
    LastMatchMiss(kw, toks, 10, 13, ["a", " ", "b"]);
    LastMatchMiss(kw, toks, 10, 12, ["a", " "]);
    LastMatchMiss(kw, toks, 10, 11, ["a"]);
  }

  /** Replacement from token 10, with the text from token 9 on not yet copied. */
  lemma ReplaceAfterFailedAttemptFrom9At10(kw: Dictionary, toks: seq<string>)
    requires kw == AbcKeywords && toks == ["a", " ", "b", " ", "a", " ", "b", " ", "c", " ", "a", " ", "b"]
    ensures ReplaceFrom(kw, toks, 9, 10) == (" " + "a" + " " + "b")
  {
    ReplaceAfterFailedAttemptAttempt10(kw, toks);
    EndAt(kw, toks, 10);
    assert Concat(toks[9..]) == (" " + "a" + " " + "b") by {
      assert toks[9..] == [" ", "a", " ", "b"];
      assert [" ", "a", " ", "b"][..3] == [" ", "a", " "];
      assert [" ", "a", " "][..2] == [" ", "a"];
      assert [" ", "a"][..1] == [" "];
      assert [" "][..0] == [];
    }
  }

  /** Replacement from token 4, with the text from token 0 on not yet copied. */
  lemma ReplaceAfterFailedAttemptFrom0At4(kw: Dictionary, toks: seq<string>)
    requires kw == AbcKeywords && toks == ["a", " ", "b", " ", "a", " ", "b", " ", "c", " ", "a", " ", "b"]
    ensures ReplaceFrom(kw, toks, 0, 4) == ("a" + " " + "b" + " ") + "abc" + ((" " + "a" + " " + "b"))
  {
    ReplaceAfterFailedAttemptAttempt4(kw, toks);
    assert Concat(toks[0..4]) == ("a" + " " + "b" + " ") by {
      assert toks[0..4] == ["a", " ", "b", " "];
      assert ["a", " ", "b", " "][..3] == ["a", " ", "b"];
      assert ["a", " ", "b"][..2] == ["a", " "];
      assert ["a", " "][..1] == ["a"];
      assert ["a"][..0] == [];
    }
    assert kw[toks[4..9]] == "abc" by {
      assert toks[4..9] == ["a", " ", "b", " ", "c"];
    }
    ReplaceFromMatch(kw, toks, 0, 4, 9, 9);
    ReplaceAfterFailedAttemptFrom9At10(kw, toks);
  }

  /** Replacement from token 3, with the text from token 0 on not yet copied. */
  lemma ReplaceAfterFailedAttemptFrom0At3(kw: Dictionary, toks: seq<string>)
    requires kw == AbcKeywords && toks == ["a", " ", "b", " ", "a", " ", "b", " ", "c", " ", "a", " ", "b"]
    ensures ReplaceFrom(kw, toks, 0, 3) == ("a" + " " + "b" + " ") + "abc" + ((" " + "a" + " " + "b"))
  {
    MissAt(kw, toks, 3);
    FailAt(kw, toks, 3, 3);
    ReplaceAfterFailedAttemptFrom0At4(kw, toks);
  }

  /** Replacement from token 2, with the text from token 0 on not yet copied. */
  lemma ReplaceAfterFailedAttemptFrom0At2(kw: Dictionary, toks: seq<string>)
    requires kw == AbcKeywords && toks == ["a", " ", "b", " ", "a", " ", "b", " ", "c", " ", "a", " ", "b"]
    ensures ReplaceFrom(kw, toks, 0, 2) == ("a" + " " + "b" + " ") + "abc" + ((" " + "a" + " " + "b"))
  {
    MissAt(kw, toks, 2);
    FailAt(kw, toks, 2, 2);
    ReplaceAfterFailedAttemptFrom0At3(kw, toks);
  }

  /** Replacement from token 1, with the text from token 0 on not yet copied. */
  lemma ReplaceAfterFailedAttemptFrom0At1(kw: Dictionary, toks: seq<string>)
    requires kw == AbcKeywords && toks == ["a", " ", "b", " ", "a", " ", "b", " ", "c", " ", "a", " ", "b"]
    ensures ReplaceFrom(kw, toks, 0, 1) == ("a" + " " + "b" + " ") + "abc" + ((" " + "a" + " " + "b"))
  {
    MissAt(kw, toks, 1);
    FailAt(kw, toks, 1, 1);
    ReplaceAfterFailedAttemptFrom0At2(kw, toks);
  }

  /** A keyword is met and the descent then runs to the end of the text along a longer keyword's prefix: the tokens after the keyword are not copied, so "a b" becomes "A". */
  lemma ReplaceDropsTail(kw: Dictionary, toks: seq<string>)
    requires kw == PrefixKeywords && toks == ["a", " ", "b"]
    ensures ReplaceSpec(kw, toks) == "A"
  {
    assert ReplaceSpec(kw, toks) == ReplaceFrom(kw, toks, 0, 0);
    ReplaceDropsTailAttempt0(kw, toks);
    assert Concat(toks[0..0]) == "" by {
      assert toks[0..0] == [];
    }
    assert kw[toks[0..1]] == "A" by {
      assert toks[0..1] == ["a"];
    }
    MatchAtEnd(kw, toks, 0, 0, 1);
  }

  /** The descent of the attempt at token 0 runs to the end of the text, the last keyword it meets ending at token 1. */
  lemma ReplaceDropsTailAttempt0(kw: Dictionary, toks: seq<string>)
    requires kw == PrefixKeywords && toks == ["a", " ", "b"]
    ensures Descent(kw, toks, 0, 0) == |toks| && LastMatch(kw, toks, 0, |toks|) == Some(1)
  {
    assert toks[0..1] == ["a"];
    DescentGoes(kw, toks, 0, 0, ["a"], ["a", " ", "b", " ", "c"]);
    assert toks[0..2] == ["a", " "];
    DescentGoes(kw, toks, 0, 1, ["a", " "], ["a", " ", "b", " ", "c"]);
    assert toks[0..3] == ["a", " ", "b"];
    DescentGoes(kw, toks, 0, 2, ["a", " ", "b"], ["a", " ", "b", " ", "c"]);
    LastMatchMiss(kw, toks, 0, 3, ["a", " ", "b"]);
    LastMatchMiss(kw, toks, 0, 2, ["a", " "]);
    LastMatchHit(kw, toks, 0, 1, ["a"]);
  }

  /** A descent that runs to the end of the text without a keyword ends the scan: "b" inside "a b" is not found. */
  lemma ExtractMissesInner(kw: Dictionary, toks: seq<string>)
    requires kw == InnerKeywords && toks == ["a", " ", "b"]
    ensures ExtractSpec(kw, toks, 0) == []
  {
    ExtractMissesInnerScan0(kw, toks);
  }

  /** The descent of the attempt at token 0 runs to the end of the text and meets no keyword. */
  lemma ExtractMissesInnerAttempt0(kw: Dictionary, toks: seq<string>)
    requires kw == InnerKeywords && toks == ["a", " ", "b"]
    ensures Descent(kw, toks, 0, 0) == |toks| && LastMatch(kw, toks, 0, |toks|) == None
  {
    assert toks[0..1] == ["a"];
    DescentGoes(kw, toks, 0, 0, ["a"], ["a", " ", "b", " ", "c"]);
    assert toks[0..2] == ["a", " "];
    DescentGoes(kw, toks, 0, 1, ["a", " "], ["a", " ", "b", " ", "c"]);
    assert toks[0..3] == ["a", " ", "b"];
    DescentGoes(kw, toks, 0, 2, ["a", " ", "b"], ["a", " ", "b", " ", "c"]);
    LastMatchMiss(kw, toks, 0, 3, ["a", " ", "b"]);
    LastMatchMiss(kw, toks, 0, 2, ["a", " "]);
    LastMatchMiss(kw, toks, 0, 1, ["a"]);
  }

  /** The scan from token 0. */
  lemma ExtractMissesInnerScan0(kw: Dictionary, toks: seq<string>)
    requires kw == InnerKeywords && toks == ["a", " ", "b"]
    ensures FirstKeywordSpec(kw, toks, 0) == ScanResult(false, "", 3)
  {
    ExtractMissesInnerAttempt0(kw, toks);
    EndAt(kw, toks, 0);
  }

  /** The token that ends a successful descent is copied without starting an attempt, so "," after "hello" is not replaced. */
  lemma ReplaceSkipsStopToken(kw: Dictionary, toks: seq<string>)
    requires kw == CommaKeywords && toks == ["hello", ","]
    ensures ReplaceSpec(kw, toks) == "hey,"
  {
    assert ReplaceSpec(kw, toks) == ReplaceFrom(kw, toks, 0, 0);
    StopTokenTextAttempt0(kw, toks);
    assert Concat(toks[0..0]) == "" by {
      assert toks[0..0] == [];
    }
    assert kw[toks[0..1]] == "hey" by {
      assert toks[0..1] == ["hello"];
    }
    ReplaceFromMatch(kw, toks, 0, 0, 1, 1);
    StopTokenTextFrom1At2(kw, toks);
  }

  /** The descent of the attempt at token 0 stops at token 1, the last keyword it meets ending at token 1. */
  lemma StopTokenTextAttempt0(kw: Dictionary, toks: seq<string>)
    requires kw == CommaKeywords && toks == ["hello", ","]
    ensures Descent(kw, toks, 0, 0) == 1 && LastMatch(kw, toks, 0, 1) == Some(1)
  {
    assert toks[0..1] == ["hello"];
    DescentGoes(kw, toks, 0, 0, ["hello"], ["hello"]);
    DescentStops(kw, toks, 0, 1, ["hello", ","]);
    LastMatchHit(kw, toks, 0, 1, ["hello"]);
  }

  /** Replacement from token 2, with the text from token 1 on not yet copied. */
  lemma StopTokenTextFrom1At2(kw: Dictionary, toks: seq<string>)
    requires kw == CommaKeywords && toks == ["hello", ","]
    ensures ReplaceFrom(kw, toks, 1, 2) == (",")
  {
    assert FirstAttempt(kw, toks, 2) == 2;
    assert ReplaceFrom(kw, toks, 1, 2) == ReplaceAt(kw, toks, 1, 2);
    assert Concat(toks[1..]) == (",") by {
      assert toks[1..] == [","];
      assert [","][..0] == [];
    }
  }

  /** Extraction resumes right after the keyword, so it finds the "," that replacement copies. */
  lemma ExtractFindsStopToken(kw: Dictionary, toks: seq<string>)
    requires kw == CommaKeywords && toks == ["hello", ","]
    ensures ExtractSpec(kw, toks, 0) == ["hey", ";"]
  {
    StopTokenTextScan0(kw, toks);
    StopTokenTextExtract1(kw, toks);
  }

  /** The scan from token 0. */
  lemma StopTokenTextScan0(kw: Dictionary, toks: seq<string>)
    requires kw == CommaKeywords && toks == ["hello", ","]
    ensures FirstKeywordSpec(kw, toks, 0) == ScanResult(true, "hey", 1)
  {
    StopTokenTextAttempt0(kw, toks);
    MatchAt(kw, toks, 0, 1, 1);
    assert kw[toks[0..1]] == "hey" by {
      assert toks[0..1] == ["hello"];
    }
  }

  /** The descent of the attempt at token 1 runs to the end of the text, the last keyword it meets ending at token 2. */
  lemma StopTokenTextAttempt1(kw: Dictionary, toks: seq<string>)
    requires kw == CommaKeywords && toks == ["hello", ","]
    ensures Descent(kw, toks, 1, 1) == |toks| && LastMatch(kw, toks, 1, |toks|) == Some(2)
  {
    assert toks[1..2] == [","];
    DescentGoes(kw, toks, 1, 1, [","], [","]);
    LastMatchHit(kw, toks, 1, 2, [","]);
  }

  /** The scan from token 1. */
  lemma StopTokenTextScan1(kw: Dictionary, toks: seq<string>)
    requires kw == CommaKeywords && toks == ["hello", ","]
    ensures FirstKeywordSpec(kw, toks, 1) == ScanResult(true, ";", 2)
  {
    StopTokenTextAttempt1(kw, toks);
    MatchAt(kw, toks, 1, 2, 2);
    assert kw[toks[1..2]] == ";" by {
      assert toks[1..2] == [","];
    }
  }

  /** The scan from token 2. */
  lemma StopTokenTextScan2(kw: Dictionary, toks: seq<string>)
    requires kw == CommaKeywords && toks == ["hello", ","]
    ensures FirstKeywordSpec(kw, toks, 2) == ScanResult(false, "", 2)
  {
  }

  /** Extraction from token 2. */
  lemma StopTokenTextExtract2(kw: Dictionary, toks: seq<string>)
    requires kw == CommaKeywords && toks == ["hello", ","]
    ensures ExtractSpec(kw, toks, 2) == []
  {
    StopTokenTextScan2(kw, toks);
  }

  /** Extraction from token 1. */
  lemma StopTokenTextExtract1(kw: Dictionary, toks: seq<string>)
    requires kw == CommaKeywords && toks == ["hello", ","]
    ensures ExtractSpec(kw, toks, 1) == [";"]
  {
    StopTokenTextScan1(kw, toks);
    StopTokenTextExtract2(kw, toks);
  }


  /** The descent from `s` reads on past every token of `toks[s..e]`, all of
      it a prefix of keyword `k`. */
  lemma {:induction false} DescentAlong(kw: Dictionary, toks: seq<string>, s: nat, e: nat, k: seq<string>)
    requires s <= e <= |toks| && k in kw && toks[s..e] <= k
    ensures Descent(kw, toks, s, s) == Descent(kw, toks, s, e)
    decreases e - s
  {
    if s < e {
      assert toks[s..e - 1] <= k by {
        assert toks[s..e - 1] == toks[s..e][..e - 1 - s];
      }
      DescentAlong(kw, toks, s, e - 1, k);
      assert PrefixOf(toks[s..e], k);
    }
  }

  /** No keyword ends inside `toks[s..e]`, so the attempt at `s` has met none. */
  lemma {:induction false} LastMatchNone(kw: Dictionary, toks: seq<string>, s: nat, e: nat)
    requires s <= e <= |toks| && forall j :: s < j <= e ==> toks[s..j] !in kw
    ensures LastMatch(kw, toks, s, e) == None
    decreases e
  {
    if s < e {
      LastMatchNone(kw, toks, s, e - 1);
    }
  }

  /** The attempt at token 0 of "a b c d e f" follows "a b c d x" up to "e" and meets no keyword. */
  lemma DefTextAttempt0(kw: Dictionary, toks: seq<string>)
    requires (kw == DefKeywords || kw == SpaceDefKeywords) && toks == DefText
    ensures Descent(kw, toks, 0, 0) == 8 && LastMatch(kw, toks, 0, 8) == None
  {
    DefTextDescent0(kw, toks);
    forall j | 0 < j <= 8
      ensures toks[0..j] !in kw
    {
      DefTextPrefixNoKeyword(kw, toks, j);
    }
    LastMatchNone(kw, toks, 0, 8);
  }

  /** The descent of the attempt at token 0 of "a b c d e f" stops at "e". */
  lemma DefTextDescent0(kw: Dictionary, toks: seq<string>)
    requires (kw == DefKeywords || kw == SpaceDefKeywords) && toks == DefText
    ensures Descent(kw, toks, 0, 0) == 8
  {
    var k := ["a", " ", "b", " ", "c", " ", "d", " ", "x"];
    assert k in kw;
    assert toks[0..8] == k[..8];
    DescentAlong(kw, toks, 0, 8, k);
    assert !IsNodePath(kw, toks[0..9]) by {
      forall k' | k' in kw
        ensures !PrefixOf(toks[0..9], k')
      {
        if k' == k {
          assert k[8] != toks[8];
        } else {
          assert |k'| < 9;
        }
      }
    }
  }

  /** No keyword starts with "a" except the nine tokens of "a b c d x". */
  lemma DefTextPrefixNoKeyword(kw: Dictionary, toks: seq<string>, j: nat)
    requires (kw == DefKeywords || kw == SpaceDefKeywords) && toks == DefText && 0 < j <= 8
    ensures toks[0..j] !in kw
  {
    var p := toks[0..j];
    assert p[0] == "a";
    assert "a" != "d" && "a" != " " by {
      assert "a"[0] != "d"[0] && "a"[0] != " "[0];
    }
    assert p != ["a", " ", "b", " ", "c", " ", "d", " ", "x"] by {
      assert |p| == j;
    }
  }

  /** Attempts at tokens 1 to 5 of "a b c d e f" stop at once without a keyword. */
  lemma DefTextAttemptsBefore6(kw: Dictionary, toks: seq<string>, s: nat)
    requires kw == DefKeywords && toks == DefText && 1 <= s <= 5
    ensures Descent(kw, toks, s, s) == s && LastMatch(kw, toks, s, s) == None
  {
    assert toks[s..s + 1] == [toks[s]];
    DescentStops(kw, toks, s, s, [toks[s]]);
  }

  /** The attempt at token `s` of "a b c d e f", a keyword "d e f" or " d e f"
      starting there, reads to the end of the text and meets it. */
  lemma DefTextAttemptTail(kw: Dictionary, toks: seq<string>, s: nat)
    requires (kw == DefKeywords && s == 6) || (kw == SpaceDefKeywords && s == 5)
    requires toks == DefText
    ensures Descent(kw, toks, s, s) == |toks| && LastMatch(kw, toks, s, |toks|) == Some(|toks|)
    ensures kw[toks[s..]] == if s == 6 then "d e f" else " d e f"
  {
    assert toks[s..] == toks[s..|toks|];
    DescentAlong(kw, toks, s, |toks|, toks[s..]);
  }

  /** A failed descent along "a b c d x" rewinds to the token after its
      start, so "d e f" is found inside "a b c d e f". */
  lemma ExtractRewind(kw: Dictionary, toks: seq<string>)
    requires kw == DefKeywords && toks == DefText
    ensures ExtractSpec(kw, toks, 0) == ["d e f"]
  {
    DefTextAttempt0(kw, toks);
    FailAt(kw, toks, 0, 8);
    DefTextAttemptsBefore6(kw, toks, 1);
    FailAt(kw, toks, 1, 1);
    DefTextAttemptsBefore6(kw, toks, 2);
    FailAt(kw, toks, 2, 2);
    DefTextAttemptsBefore6(kw, toks, 3);
    FailAt(kw, toks, 3, 3);
    DefTextAttemptsBefore6(kw, toks, 4);
    FailAt(kw, toks, 4, 4);
    DefTextAttemptsBefore6(kw, toks, 5);
    FailAt(kw, toks, 5, 5);
    DefTextAttemptTail(kw, toks, 6);
    MatchAt(kw, toks, 6, |toks|, |toks|);
    assert FirstKeywordSpec(kw, toks, 0) == ScanResult(true, "d e f", |toks|);
    assert ExtractSpec(kw, toks, |toks|) == [];
  }

  /** With " d e f" added, the rewind finds the longer keyword one token
      earlier. */
  lemma ExtractRewindSpace(kw: Dictionary, toks: seq<string>)
    requires kw == SpaceDefKeywords && toks == DefText
    ensures ExtractSpec(kw, toks, 0) == [" d e f"]
  {
    DefTextAttempt0(kw, toks);
    FailAt(kw, toks, 0, 8);
    DefTextSpaceSkips(kw, toks);
    DefTextAttemptTail(kw, toks, 5);
    MatchAt(kw, toks, 5, |toks|, |toks|);
    assert FirstKeywordSpec(kw, toks, 0) == ScanResult(true, " d e f", |toks|);
    assert ExtractSpec(kw, toks, |toks|) == [];
  }

  /** With " d e f" a keyword, the attempts at tokens 1 to 4 of "a b c d e f"
      fail, each handing the scan on to the next token. */
  lemma DefTextSpaceSkips(kw: Dictionary, toks: seq<string>)
    requires kw == SpaceDefKeywords && toks == DefText
    ensures FirstKeywordSpec(kw, toks, 1) == FirstKeywordSpec(kw, toks, 5)
  {
    DefTextSpaceAttempt(kw, toks, 1);
    DefTextLetterAttempt(kw, toks, 2);
    DefTextSpaceAttempt(kw, toks, 3);
    DefTextLetterAttempt(kw, toks, 4);
  }

  /** With " d e f" a keyword, an attempt at the space before "b" or "c"
      reads that space and stops at the letter after it without a keyword. */
  lemma DefTextSpaceAttempt(kw: Dictionary, toks: seq<string>, s: nat)
    requires kw == SpaceDefKeywords && toks == DefText && (s == 1 || s == 3)
    ensures FirstKeywordSpec(kw, toks, s) == FirstKeywordSpec(kw, toks, s + 1)
  {
    var k := [" ", "d", " ", "e", " ", "f"];
    assert toks[s..s + 1] == k[..1];
    DescentAlong(kw, toks, s, s + 1, k);
    assert toks[s..s + 2] == [" ", toks[s + 1]];
    DescentStops(kw, toks, s, s + 1, [" ", toks[s + 1]]);
    LastMatchMiss(kw, toks, s, s + 1, [" "]);
    FailAt(kw, toks, s, s + 1);
  }

  /** With " d e f" a keyword, an attempt at "b" or "c" stops at once. */
  lemma DefTextLetterAttempt(kw: Dictionary, toks: seq<string>, s: nat)
    requires kw == SpaceDefKeywords && toks == DefText && (s == 2 || s == 4)
    ensures FirstKeywordSpec(kw, toks, s) == FirstKeywordSpec(kw, toks, s + 1)
  {
    assert toks[s..s + 1] == [toks[s]];
    DescentStops(kw, toks, s, s, [toks[s]]);
    FailAt(kw, toks, s, s);
  }

  /** The count of keywords as they are inserted: a keyword inserted again,
      with or without a new clean word, is not counted twice, and keywords
      differing only in case or sharing a prefix are distinct. */
  method LenTest() returns (counts: seq<nat>)
    ensures counts == [0, 1, 1, 1, 1, 2, 3, 4]
  {
    var kp := new KeywordProcessor();
    var c0 := kp.len;
    var c1, c2, c3, c4 := InsertHelloAgain(kp);
    var c5 := InsertUpper(kp);
    var c6, c7 := InsertLonger(kp);
    counts := [c0, c1, c2, c3, c4, c5, c6, c7];
  }

  /** Inserting "hello" again, with or without a new clean word, does not
      count it twice. */
  method InsertHelloAgain(kp: KeywordProcessor) returns (c1: nat, c2: nat, c3: nat, c4: nat)
    requires kp.Valid() && kp.Keywords == map[]
    modifies kp
    ensures kp.Valid() && kp.Keywords.Keys == {["hello"]}
    ensures c1 == 1 && c2 == 1 && c3 == 1 && c4 == 1
  {
    kp.AddKeyword(["hello"]);
    c1 := kp.len;
    kp.AddKeyword(["hello"]);
    c2 := kp.len;
    kp.AddKeywordWithCleanWord(["hello"], "new clean word");
    c3 := kp.len;
    kp.AddKeywordWithCleanWord(["hello"], "overwriting the clean word again ...");
    c4 := kp.len;
  }

  /** A keyword differing only in case is distinct. */
  method InsertUpper(kp: KeywordProcessor) returns (c5: nat)
    requires kp.Valid() && kp.Keywords.Keys == {["hello"]}
    modifies kp
    ensures kp.Valid() && kp.Keywords.Keys == {["hello"], ["HELLO"]}
    ensures c5 == 2
  {
    assert ["HELLO"] != ["hello"] by {
      assert "HELLO"[0] != "hello"[0];
    }
    kp.AddKeyword(["HELLO"]);
    c5 := kp.len;
  }

  /** Keywords that only share a prefix with others are distinct. */
  method InsertLonger(kp: KeywordProcessor) returns (c6: nat, c7: nat)
    requires kp.Valid() && kp.Keywords.Keys == {["hello"], ["HELLO"]}
    modifies kp
    ensures c6 == 3 && c7 == 4
  {
    kp.AddKeyword(["hello", ",", " ", "hey", "!"]);
    c6 := kp.len;
    assert kp.Keywords.Keys == {["hello"], ["HELLO"], ["hello", ",", " ", "hey", "!"]};
    kp.AddKeyword(["hello", ",", " "]);
    c7 := kp.len;
  }

  /** A keyword is reported by its clean word, and a new clean word for the
      same keyword replaces the old one. */
  method CleanWordTest() returns (first: seq<string>, second: seq<string>)
    ensures first == ["py"] && second == ["Python"]
  {
    var kp := new KeywordProcessor();
    kp.AddKeyword(["py"]);
    assert Concat(["py"]) == "py" by {
      assert ["py"][..0] == [];
    }
    assert kp.Keywords == PyKeywords;
    first := kp.ExtractKeywordsAsSlice(["py"]);
    ExtractPy(kp.Keywords, ["py"]);
    kp.AddKeywordWithCleanWord(["py"], "Python");
    assert kp.Keywords == PythonKeywords;
    second := kp.ExtractKeywordsAsSlice(["py"]);
    ExtractPython(kp.Keywords, ["py"]);
  }

  /** Membership of inserted keywords; the path of "hello world", a strict
      prefix of the keyword "hello world!", is not a keyword. */
  method ContainsWordTest() returns (answers: seq<bool>)
    ensures answers == [false, true, true, false, true]
  {
    var kp := new KeywordProcessor();
    var a := kp.ContainsWord(["hello"]);
    kp.AddKeyword(["hello"]);
    var b := kp.ContainsWord(["hello"]);
    var c, d, e := ContainsWorld(kp);
    answers := [a, b, c, d, e];
  }

  /** After "hello world!" is added to a processor holding "hello": it is a
      keyword, "hello world" is not, and adding it again changes neither. */
  method ContainsWorld(kp: KeywordProcessor) returns (c: bool, d: bool, e: bool)
    requires kp.Valid() && kp.Keywords.Keys == {["hello"]}
    modifies kp
    ensures c && !d && e
  {
    kp.AddKeyword(["hello", " ", "world", "!"]);
    c := kp.ContainsWord(["hello", " ", "world", "!"]);
    d := kp.ContainsWord(["hello", " ", "world"]);
    kp.AddKeyword(["hello", " ", "world", "!"]);
    e := kp.ContainsWord(["hello", " ", "world", "!"]);
  }

  /** The text the keyword "hello" spells. */
  lemma ConcatHello()
    ensures Concat(["hello"]) == "hello"
  {
    assert ["hello"][..0] == [];
  }

  /** The text the keyword "hello hello" spells. */
  lemma ConcatHelloHello()
    ensures Concat(["hello", " ", "hello"]) == "hello hello"
  {
    assert ["hello", " ", "hello"][..2] == ["hello", " "];
    assert ["hello", " "][..1] == ["hello"];
    ConcatHello();
    assert Concat(["hello", " "]) == "hello" + " ";
  }

  /** The text the keyword " world" spells. */
  lemma ConcatWorld()
    ensures Concat([" ", "world"]) == " world"
  {
    assert [" ", "world"][..1] == [" "];
    assert [" "][..0] == [];
  }

  /** The dictionary that inserting "hello", "hello hello" and " world"
      with their own text as clean words builds. */
  lemma HelloInserted()
    ensures map[][["hello"] := Concat(["hello"])][["hello", " ", "hello"] := Concat(["hello", " ", "hello"])][[" ", "world"] := Concat([" ", "world"])] == HelloKeywords
  {
    ConcatHello();
    ConcatHelloHello();
    ConcatWorld();
  }

  /** A processor holding "hello", "hello hello" and " world". */
  method HelloProcessor() returns (kp: KeywordProcessor)
    ensures fresh(kp) && kp.Valid() && kp.Keywords == HelloKeywords
  {
    kp := new KeywordProcessor();
    kp.AddKeyword(["hello"]);
    kp.AddKeyword(["hello", " ", "hello"]);
    kp.AddKeyword([" ", "world"]);
    HelloInserted();
  }

  /** Scanning "hello hello world" three times, each scan resuming at the
      remaining text of the previous one: "hello hello", then " world", then
      nothing. */
  method FirstKeywordTest() returns (r1: ScanResult, r2: ScanResult, r3: ScanResult)
    ensures r1 == ScanResult(true, "hello hello", 3)
    ensures r2 == ScanResult(true, " world", 5)
    ensures r3 == ScanResult(false, "", 5)
  {
    var kp := HelloProcessor();
    var toks := ["hello", " ", "hello", " ", "world"];
    var isMatch, longestMatch, rest := kp.FirstKeyword(toks, 0);
    FirstKeywordHelloFirst(kp.Keywords, toks);
    r1 := ScanResult(isMatch, longestMatch, rest);
    isMatch, longestMatch, rest := kp.FirstKeyword(toks, rest);
    FirstKeywordHelloSecond(kp.Keywords, toks);
    r2 := ScanResult(isMatch, longestMatch, rest);
    isMatch, longestMatch, rest := kp.FirstKeyword(toks, rest);
    FirstKeywordHelloDone(kp.Keywords, toks);
    r3 := ScanResult(isMatch, longestMatch, rest);
  }
}
