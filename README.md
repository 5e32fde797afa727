# flashtext2-go keyword processor, in Dafny

This project models the `KeywordProcessor` of flashtext2-go. It is a
multi-keyword matcher that works on whole words (tokens), not characters. A
keyword is a sequence of tokens with a *clean word*, the text that reports or
replaces it. The keywords are kept in a token trie: every edge is labelled by a
token, and a terminal node (`endOfWord`) ends a keyword and carries its clean
word. A counter `len` holds the number of distinct keywords.

On this trie the processor offers:

- insertion: `AddKeyword` and `AddKeywordWithCleanWord`;
- exact lookup: `ContainsWord`;
- a longest-match scan for the first keyword: `FirstKeyword`;
- extraction of every keyword found, by repeated scans: `ExtractKeywordsAsSlice`;
- a rewriting copy of the text: `ReplaceKeywords`.

## How it is modelled

- **Tokens.** A text is given as its token sequence `toks: seq<string>`. The
  tokens concatenate to the text (`Trie.Concat`). A (text, tokenizer state)
  pair is an index into `toks`, and "the remaining text" is the suffix from
  that index.
- **The trie** (`trie.dfy`, module `Trie`). It is an arena: a
  `seq<Node>` with the root at index 0, where each node maps a token to the
  index of its child. `Represents(nodes, kw, [])` relates an arena to the
  abstract dictionary `kw: map<seq<string>, string>` (keyword ↦ clean word).
  The arena is a tree. Its paths are exactly the prefixes of the keywords. Its
  terminal paths are exactly the keywords, carrying their clean words. It has
  exactly `|kw|` terminal nodes.
- **The processor** (`flashtext.dfy`, module `Flashtext`). It is a class with
  the fields `nodes` and `len` and a ghost field `Keywords`. `Valid()` is
  `Represents(nodes, Keywords, []) && len == |Keywords|`. Insertion is a cursor
  loop that creates missing children. The scans are loops over
  `i`/`start`/`node`/`isMatch`, as in the source, and each is proved equal to a
  reference definition over the dictionary.
- **Reference definitions** (`scan.dfy`, module `Scan`):
  - `Descent`: how far the attempt starting at a token can follow the trie.
  - `LastMatch`: the deepest keyword that attempt meets.
  - `FirstAttempt`: the first attempt that decides the scan. Each failed
    attempt moves the start forward by one token.
  - `FirstKeywordSpec`, `ExtractSpec` and `ReplaceSpec`: the results of the
    three operations.
  - The properties of the scan are proved over these definitions.
- **Loops, step by step** (`runs.dfy`, module `Runs`). Each loop is written as
  a recursive function twice. One version follows the arena's edges; the other
  asks the dictionary. The lemmas here prove that the two agree, and that
  both compute the reference definitions.
- **Concrete behaviour** (`scenarios.dfy`, module `Scenarios`). The
  repository's tests are worked out on the reference definitions, with each
  text written as the tokens the word tokenizer cuts it into. Methods there
  also drive the processor itself through the insertion, lookup and scan
  tests.

### Quirks of the code the model reproduces

- **A failed attempt restarts one token later.** An attempt that fails
  without a match restarts at the token after the attempt's start
  (flashtext2.go:82-85). So scanning "a b c d e f" with "a b c d x" and
  "d e f" finds "d e f" (`Scenarios.ExtractRewind`).
- **Replacement replaces more than the keyword.** A confirmed match replaces
  everything from the attempt start up to the token that ended the descent.
  This includes tokens walked past the last terminal node
  (flashtext2.go:131-133). The token that ended the descent is copied, but it
  never starts an attempt (flashtext2.go:133,138).
- **A match at the end of the text drops the tail.** If the text runs out
  during a longer descent after a match, the tokens after the match are not
  copied (flashtext2.go:146-148; `Scenarios.ReplaceDropsTail`, where "a b"
  becomes "A"). In that case `FirstKeyword` returns the exhausted text as the
  remaining text (flashtext2.go:90).
- **The end of the text ends the scan.** A descent that reaches the end of the
  text without a match ends the scan, and no later start is tried
  (flashtext2.go:67-90; `Scenarios.ExtractMissesInner`).
- **An empty keyword.** `AddKeyword` of the empty token sequence marks the
  root. `ContainsWord` sees that mark; the scans never do: every scan,
  extraction and replacement gives the same result with or without it
  (`Scan.EmptyKeywordIgnored`).

## Model

| member | source | states |
|---|---|---|
| Flashtext.KeywordProcessor.constructor | flashtext2.go:170-172 | a new processor is valid and holds no keywords: a single root node, `len == 0` |
| Flashtext.KeywordProcessor.Len | flashtext2.go:19-21 | the count equals the number of keywords in the dictionary and the number of terminal nodes in the trie |
| Flashtext.KeywordProcessor.AddKeyword | flashtext2.go:23-25 | inserts `w` with the text its tokens spell as its clean word; the rest is as for `AddKeywordWithCleanWord` |
| Flashtext.KeywordProcessor.AddKeywordWithCleanWord | flashtext2.go:27-53 | the dictionary becomes `old[w := c]`, so the last write wins and every other keyword keeps its clean word; `len` grows by one exactly when `w` was new; no terminal node is cleared; no node is created when `w`'s path already exists; the trie stays valid |
| Flashtext.KeywordProcessor.ContainsWord | flashtext2.go:155-168 | true exactly when `w` is a keyword, so a strict prefix of a keyword gives false unless it was inserted itself |
| Flashtext.KeywordProcessor.FirstKeyword | flashtext2.go:55-91 | the match flag, clean word and remaining-text index equal `FirstKeywordSpec` on the dictionary |
| Flashtext.KeywordProcessor.ExtractKeywordsAsSlice | flashtext2.go:93-100 | the clean words collected by repeated scans, each resuming at the previous remaining text, equal `ExtractSpec` |
| Flashtext.KeywordProcessor.ReplaceKeywords | flashtext2.go:102-153 | the output equals `ReplaceSpec` on the dictionary |
| Trie.AddChild | flashtext2.go:35-42 | a fresh empty node is appended, the edge `t` out of node `m` now leads to it, and no terminal mark or clean word changes |
| Trie.Mark | flashtext2.go:48-52 | the node becomes terminal with clean word `c`; every other node is unchanged and no edge changes |
| Trie.DescendPreserves | flashtext2.go:43-45 | following an existing edge during insertion keeps the trie representing the dictionary, with one more token of the keyword already laid out |
| Trie.AddChildPreserves | flashtext2.go:35-42 | creating a missing child keeps the arena a tree, adds exactly the path of one more token of the keyword, and changes no terminal node |
| Trie.InsertPathPreserves | flashtext2.go:32-46 | laying out the rest of a keyword below a node keeps every existing node and its terminal mark, leads the whole keyword's path to the node reached, and creates no node when that path existed |
| Trie.MarkPreserves | flashtext2.go:48-52 | marking the node reached makes the trie represent `kw[w := c]`; that node was terminal exactly when `w` was already a keyword |
| Trie.InsertPreserves | flashtext2.go:27-53 | the whole insertion turns a trie representing `kw` into one representing `kw[w := c]`, and the node reached was terminal exactly when `w` was already present |
| Trie.InsertSize | flashtext2.go:48-51 | inserting a keyword grows the dictionary by one exactly when the keyword is new |
| Trie.MarkCount | flashtext2.go:48-51 | after marking, the number of terminal nodes equals the size of the updated dictionary |
| Trie.EmptyRepresents | flashtext2.go:170-172 | a root with no children represents the empty dictionary |
| Trie.StepRepresents | flashtext2.go:69-71 | the child for token `t` exists exactly when `p + [t]` is a prefix of a keyword; it is terminal exactly when `p + [t]` is a keyword, and then it carries that keyword's clean word |
| Trie.TerminalRepresents | flashtext2.go:167 | the node at path `p` is terminal exactly when `p` is a keyword |
| Trie.MissingEdgeNoKeyword | flashtext2.go:162-165 | once a prefix of `w` has left the trie, `w` is not a keyword |
| Scan.DescentLeaves | flashtext2.go:69-77 | a descent that stops inside the text stops at a token that leaves the trie |
| Scan.Descent | flashtext2.go:67-77 | the descent of an attempt, having read up to a token, stops at or after that token and never past the end of the text |
| Scan.LastMatch | flashtext2.go:71-76 | the recorded match, if any, is a keyword that starts at the attempt start and ends within the part read so far |
| Scan.LastMatchLongest | flashtext2.go:71-76 | no keyword from the same start ends after the recorded one, up to what has been read: the deepest terminal node wins |
| Scan.FirstAttempt | flashtext2.go:80-86 | the attempt that decides the scan is at or after the start and within the text |
| Scan.FirstAttemptFirst | flashtext2.go:80-86 | every earlier attempt fails, each restart moving the start by exactly one token |
| Scan.FirstKeywordSpec | flashtext2.go:55-91 | the remaining text is a suffix of the input; with no match it is empty and the clean word is empty; with a match it is strictly shorter than the input; an empty input gives no match |
| Scan.ExtractSpec | flashtext2.go:93-100 | at most one clean word is extracted per token of the text scanned, since every match consumes at least one token |
| Scan.ReplaceFrom | flashtext2.go:117-151 | the output from a scan position begins with the uncopied text up to that position, unchanged: no text is rewritten before the scan reaches it |
| Scan.ReplaceAt | flashtext2.go:130-151 | the output from a deciding attempt begins with the uncopied text before that attempt, unchanged |
| Scan.NoKeywordPastDescent | flashtext2.go:69-79 | no keyword from an attempt start reaches past the token where the descent stopped |
| Scan.NoKeywordAtFailedAttempt | flashtext2.go:80-86 | an attempt that restarts has no keyword starting at its start |
| Scan.FirstKeywordMatch | flashtext2.go:69-79 | a match is the longest keyword at the deciding attempt; no keyword starts earlier in the scanned text; the clean word returned is that keyword's; the remaining text starts right after it, or is empty if the descent reached the end of the text |
| Scan.FirstKeywordNoMatch | flashtext2.go:67-90 | with no match, the deciding descent ran to the end of the text and no keyword starts at or before it |
| Scan.FirstKeywordMatchFree | flashtext2.go:67-90 | a text in which no keyword occurs gives no match and the empty remaining text |
| Scan.ExtractSpansSound | flashtext2.go:93-100 | the extracted clean words are, in order, the clean words of keywords at strictly increasing, non-overlapping spans of the text |
| Scan.ExtractCleanWords | flashtext2.go:93-100 | every extracted word is the clean word of some keyword |
| Scan.ExtractMatchFree | flashtext2.go:93-100 | an empty text, or one without keywords, extracts nothing |
| Scan.ReplaceFromMatchFree | flashtext2.go:134-150 | without any keyword in the text, the text not yet copied is copied through |
| Scan.ReplaceNoMatch | flashtext2.go:109-150 | replacement is the identity whenever the first scan of the whole text finds no keyword, even if a keyword occurs after the point where that scan gave up |
| Scan.ReplaceMatchFree | flashtext2.go:109-150 | replacement is the identity on a text without keywords, in particular for an empty dictionary |
| Scan.EmptyKeywordIgnored | flashtext2.go:48-150 | inserting the empty keyword, which marks the root, leaves the first keyword, the extracted keywords and the replaced text of every text exactly as without it |
| Scan.EmptyKeywordNeverScanned | flashtext2.go:48-69 | a dictionary holding only the empty keyword never finds a match |
| Runs.AttemptStop | flashtext2.go:69-88 | a token that leaves the trie ends the descent there, and the attempt decides the scan exactly when it has met a keyword |
| Runs.ScanningExtend | flashtext2.go:70-76 | a token with an edge continues the attempt, recording the keyword it completes as the new deepest match |
| Runs.ScanningStop | flashtext2.go:77-88 | on a missing edge, a recorded match is the scan's result; otherwise the next attempt starts exactly one token after this one, at the root, with nothing recorded |
| Runs.ScanningEnd | flashtext2.go:67-90 | the end of the text ends the scan with whatever was recorded and the exhausted text |
| Runs.FirstKeywordStepsScanning | flashtext2.go:67-90 | the dictionary-driven run of the loop, from any reachable state, ends with `FirstKeywordSpec` |
| Runs.FirstKeywordRunSteps | flashtext2.go:67-90 | on a trie representing the dictionary, the arena-driven run equals the dictionary-driven run |
| Runs.FirstKeywordRunSpec | flashtext2.go:55-91 | the loop's run from the root at the scan start computes `FirstKeywordSpec` |
| Runs.ReplaceFromSkip | flashtext2.go:134-137 | a failed attempt outputs nothing and replacement goes on from the next token |
| Runs.ReplaceFromMatch | flashtext2.go:130-133 | a matched attempt outputs the uncopied text before it and the clean word, and copying resumes at the token that ended the descent |
| Runs.ReplacingMatch | flashtext2.go:130-142 | after a match, the builder holds the text before the attempt and the clean word; the uncopied text starts at the failing token; the next attempt starts after it |
| Runs.ReplacingSkip | flashtext2.go:134-137 | after a failed attempt, the next attempt starts one token later and nothing is written |
| Runs.ReplacingEnd | flashtext2.go:146-151 | at the end of the text, a recorded match writes the text before the attempt and the clean word; otherwise the uncopied text is written |
| Runs.ReplaceStepsReplacing | flashtext2.go:117-151 | the dictionary-driven run of the replace loop, from any reachable state, ends with `ReplaceSpec` |
| Runs.ReplaceRunSteps | flashtext2.go:117-151 | on a trie representing the dictionary, the arena-driven replace run equals the dictionary-driven one |
| Runs.ReplaceRunSpec | flashtext2.go:102-153 | the replace loop's run from the start of the text computes `ReplaceSpec` |
| Scenarios.LenTest | flashtext2_test.go:26-51 | the counts after the inserts of the test are 0, 1, 1, 1, 1, 2, 3, 4 |
| Scenarios.CleanWordTest | flashtext2_test.go:53-64 | "py" extracts as "py"; after re-insertion with clean word "Python" it extracts as "Python" |
| Scenarios.ExtractPy | flashtext2_test.go:57-59 | with keyword "py", extracting from "py" gives ["py"] |
| Scenarios.ExtractPython | flashtext2_test.go:61-63 | with "py" ↦ "Python", extracting from "py" gives ["Python"] |
| Scenarios.ContainsWordTest | flashtext2_test.go:69-84 | the lookups of the test answer false, true, true, false, true; "hello world" is not a keyword after "hello world!" is inserted |
| Scenarios.FirstKeywordTest | flashtext2_test.go:86-109 | the processor's scans of "hello hello world" give "hello hello" with " world" remaining, then " world" with nothing remaining, then no match |
| Scenarios.FirstKeywordHelloFirst | flashtext2_test.go:92-95 | the longer keyword "hello hello" wins over "hello" and leaves " world" |
| Scenarios.FirstKeywordHelloSecond | flashtext2_test.go:97-100 | scanning " world" finds " world" and leaves the empty text |
| Scenarios.FirstKeywordHelloDone | flashtext2_test.go:102-108 | scanning the empty remainder gives no match and the empty text |
| Scenarios.ExtractNothing | flashtext2_test.go:120-121 | a single space extracts nothing |
| Scenarios.ExtractShort | flashtext2_test.go:123-124 | "hell" extracts nothing when "hello" is the keyword |
| Scenarios.ExtractAlone | flashtext2_test.go:126-127 | "hello" extracts ["hello"] |
| Scenarios.ExtractAfterSpace | flashtext2_test.go:129-130 | " hello" extracts ["hello"] |
| Scenarios.ExtractBeforeSpace | flashtext2_test.go:132-133 | "hello " extracts ["hello"] |
| Scenarios.ExtractSurrounded | flashtext2_test.go:135-136 | " hello " extracts ["hello"] |
| Scenarios.ExtractGlued | flashtext2_test.go:138-139 | "hellohello", a single token, extracts nothing |
| Scenarios.ExtractTwice | flashtext2_test.go:141-142 | "hello hello" extracts ["hello", "hello"] |
| Scenarios.ExtractCaseSensitive | flashtext2_test.go:146-147 | "helloHello" extracts nothing when the keywords are "hello" and "Hello" |
| Scenarios.ExtractCaseSensitiveUpper | flashtext2_test.go:149-150 | "HelloHello" extracts nothing |
| Scenarios.ExtractLongest | flashtext2_test.go:154-155 | "hello world" extracts ["hello world"], not "hello" |
| Scenarios.ExtractGluedTail | flashtext2_test.go:157-158 | "hello worldhello world" extracts ["hello"] |
| Scenarios.ExtractRepeated | flashtext2_test.go:160-161 | "hello world hello world" extracts ["hello world", "hello world"] |
| Scenarios.ExtractRestart | flashtext2_test.go:163-166 | "hey hey there" extracts ["hey there"] after a failed attempt |
| Scenarios.ExtractTrailingSpace | flashtext2_test.go:169-173 | with "hello " and "world", "hello world" extracts ["hello ", "world"] |
| Scenarios.ExtractLeadingSpace | flashtext2_test.go:175-179 | with "hello" and " world", "hello world" extracts ["hello", " world"] |
| Scenarios.ExtractRewind | flashtext2_test.go:183-188 | with "a b c d x" and "d e f", "a b c d e f" extracts ["d e f"]: the failed descent rewinds to the token after its start |
| Scenarios.ExtractRewindSpace | flashtext2_test.go:190-193 | with " d e f" added, the same text extracts [" d e f"] |
| Scenarios.ReplaceEmpty | flashtext2_test.go:203 | the empty text is replaced by the empty text |
| Scenarios.ReplaceNone | flashtext2_test.go:204 | "hey" is copied when "hello" is the only keyword |
| Scenarios.ReplaceSelf | flashtext2_test.go:205 | "hello" ↦ "hello" gives "hello" back |
| Scenarios.ReplaceSelfBeforeText | flashtext2_test.go:206 | "hello world" is given back unchanged |
| Scenarios.ReplaceOne | flashtext2_test.go:207 | with "hello" ↦ "hey", "hello world" becomes "hey world" |
| Scenarios.ReplaceSwap | flashtext2_test.go:208 | with "hello" ↦ "hey" and "hey" ↦ "hello", "hey jack, hello sarah" becomes "hello jack, hey sarah" |
| Scenarios.ReplaceErase | flashtext2_test.go:209 | with both keywords ↦ "", "hey jack, hello sarah" becomes " jack,  sarah" |
| Scenarios.ReplaceAfterFailedAttempt | flashtext2_test.go:210 | with "a b c" ↦ "abc", "a b a b c a b" becomes "a b abc a b" |
| Scenarios.ReplaceDropsTail | flashtext2.go:146-148 | with "a" ↦ "A" and "a b c", the text "a b" becomes "A": the tokens walked past the match at the end of the text are dropped |
| Scenarios.ExtractMissesInner | flashtext2.go:67-90 | with "a b c" and "b", "a b" extracts nothing: the descent reaches the end of the text and no later start is tried |
| Scenarios.ReplaceSkipsStopToken | flashtext2.go:130-138 | with "hello" ↦ "hey" and "," ↦ ";", "hello," becomes "hey,": the token that ended the descent is copied and never starts an attempt |
| Scenarios.ExtractFindsStopToken | flashtext2.go:74-79 | on the same text, extraction resumes right after the keyword and gives ["hey", ";"] |

## Left out

- Tokenization (`uniseg.FirstWordInString`, Unicode Standard Annex #29,
  section 4.1) is not part of this model. Every phrase and text is given as
  its token sequence. The tokenizer is assumed to be resumable, and its
  tokens are assumed to concatenate to the text.
- Tokenizer states and byte offsets become token indices. The byte slicing of
  `ReplaceKeywords` (flashtext2.go:131,147) becomes slicing of the token
  sequence followed by `Concat`. `lenTextAtStartTraversal` counts tokens, not
  bytes.
- `strings.Builder.Grow` (flashtext2.go:104) only reserves capacity. The
  builder is modelled as a string that is appended to.
- Go pointers and the `nil` child of a failed map lookup become arena indices
  and an explicit membership test. Nodes are never shared, so no aliasing is
  modelled.
- Flashtext.KeywordProcessor.Len: `len` is a Go `uint`; the model uses an
  unbounded `nat`, so wrap-around after 2^64 insertions is not modelled.
- Concurrency: there is none in the source.
