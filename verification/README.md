# Verified models of inet/common

This project models six components of INET's `inet/common` library in Dafny and proves what they promise.

- **Interval tree** (`inet/common/IntervalTree.cc`): the red-black tree of intervals with its two sentinels, parent
  links and `max_high`, as heap objects changed in place. Every insertion and deletion keeps the tree valid (order,
  black top, no red edge to a red node, equal black heights, consistent links, exact `max_high`) and changes the
  in-order list by exactly one node. The query, with its explicit stack, agrees with a linear scan for every low end
  above the smallest time if and only if no left side stores an interval that starts behind everything stored there
  ends, so always for proper intervals.
- **Pattern matcher** (`inet/common/PatternMatcher.cc`): the tokenizer and the backtracking matcher with its shortcuts.
  The matcher decides the language of the element list: a line matches if it can be cut into one suitable piece per
  element. In case-sensitive mode this is the documented meaning; ignoring case it is so for all lines if and only if
  the pattern does not end in an any-sequence and a literal with a letter. What a pattern text says is stated apart from
  the tokenizer, with sets as characters and spans: the text matches exactly the lines cut into pieces it means.
- **128-bit integer** (`inet/common/Int128.cc`): the operators on two 64-bit halves equal integer arithmetic modulo
  2^128; restoring division, order, bits, shifts, printing and parsing, each with its exact exceptions.
- **Hierarchical state machine** (`inet/common/Macho.cc`): for every state tree and run, the log of entries and exits
  is that of the run and well nested, the active states are the path of the current state, boxes exist as they should,
  the recorded histories are what the run says, and the chain of transitions that init actions ask for ends at or below
  the target.
- **Dispatchers** (`inet/common/MessageDispatcher.cc`): registrations flood any gate graph and end; a registration
  succeeds if and only if one gate per dispatcher can be recorded consistently, and records no more than it must;
  entries never change and lead back to a registrant, so whatever is dispatched is delivered, by a protocol's own
  entry to a module that registered the protocol itself.
- **Bit streams and bit vectors** (`inet/common/MemoryOutputStream.h`, `inet/common/MemoryInputStream.h`,
  `inet/common/BitVector.cc`, `inet/common/ShortBitVector.h`): packed bytes refine sequences of bits, the reader undoes
  the writer, and the word-parallel Hamming distance is the counted one.

## How the models are built

The classes keep the source's fields and change them in place. Where a function of the source is long, its branches are
methods of their own, in the same order and under the same conditions. Fixed-width arithmetic is written out on bounded
integers, with the bitwise operators defined on them (`MachineWords`).

*Interval tree.* Times are integers between `-MAX_TIME` and `MAX_TIME`. Links a new node does not have yet point to the
node itself. Each node has two ghost fields, the in-order list and the black height of its subtree. When a deleted
node's place is taken by its successor, the successor's colour is assigned before `max_high` is recomputed; neither
reads what the other writes. The stack of the query is a sequence that grows by one entry at a time.

*Pattern matcher.* Patterns and lines have no zero character. Characters are compared by code point, digits and letters
are those of ASCII. `atol` yields `LONG_MAX` for numbers beyond it. A backslash at the end of a pattern, behind which
the source would read on, is the outcome `ReadsPastEnd`; the exception for a set without closing brace is
`UnmatchedBrace`.

*128-bit integer.* The signed overflow of the high half wraps around. Division by zero yields no result. Division by the
smallest number does not end for any dividend (`Int128Division.ByMinNeverEnds`) and is excluded.

*State machine.* States are values: a name, a superstate, a kind of history and of box. Entry, exit and init actions are
entries of a log. What init actions ask for is an arbitrary function of the state and the length of the log, restricted
only to proper substates, which is what the assertion in `rattleOn` demands.

*Dispatchers.* Wiring is a fixed pairing of gates. The four handlers for services and protocols differ only in their
tables and in the identifier -1 for any protocol, so they are one method with the table and the protocol as parameters.
Modules other than dispatchers ignore registrations.

*Streams.* The fixed-width writers and readers of bytes are one method with the number of bytes as a parameter.

## Findings

- `operator<` of the 128-bit integer is not the order of the numbers for two negative ones with equal high halves and
  low halves that differ in the top bit, and is for all others.
- Dividing the smallest 128-bit number yields quotient zero; dividing by it does not end; printing it yields "-0".
- In decimal and hexadecimal, `Int128::set` reads the letter one behind the last digit of the radix as a digit that
  counts as the radix: "a" is read as 10 and "0xg" as 16. A text is read as its digits exactly if that letter is not
  the first character behind them. In octal no letter is read.
- Ignoring case, a pattern that ends in an any-sequence and a literal wants that literal letter by letter.
- A backslash does not take away the meaning of the bracket of a numeric range, against the class documentation
  (`inet/common/PatternMatcher.h:45`): `\[1..2]` is a range. Everywhere else it works as documented.
- A query with the smallest time as its low end misses intervals that start up to its high end exactly if some are
  stored to the right of a node without a left side. Other queries miss intervals exactly if some left side stores one
  that starts behind everything stored there ends, which takes an inverted interval.
- `writeByte` misplaces bits at every offset in a byte but 0 and 4. Fields of 32 bits leak higher bits.
- The check for a socket that is already registered in `handleMessage` can never fail; the first gate stays.
- `ShortBitVector` compares words only: a vector equals the same one followed by zeros, and that is the only mistake.
  Made with a size too small for its number, it keeps bits behind its size.

## Model

| member | source | states |
|---|---|---|
| IntervalTreeModel.IntervalTree.constructor | inet/common/IntervalTree.cc:58-77 | the empty tree is valid: both sentinels, nothing in order, query stack at its bottom |
| IntervalTreeModel.IntervalTree.LeftRotate | inet/common/IntervalTree.cc:110-132 | links stay consistent, `max_high` exact and the in-order list of the whole tree unchanged; only the lists of the two turned nodes change |
| IntervalTreeModel.IntervalTree.RightRotate | inet/common/IntervalTree.cc:134-155 | the mirror image: links consistent, `max_high` exact, in-order list unchanged |
| IntervalTreeModel.IntervalTree.FindPlace | inet/common/IntervalTree.cc:164-172 | the search ends at a node below which the key belongs between its in-order neighbours |
| IntervalTreeModel.IntervalTree.RecursiveInsert | inet/common/IntervalTree.cc:158-178 | the in-order list gets the new leaf behind all smaller or equal keys; only its parent's `max_high` may be off |
| IntervalTreeModel.IntervalTree.FixupMaxHigh | inet/common/IntervalTree.cc:180-186 | if `max_high` is off only at a node and above it, it is exact everywhere afterwards |
| IntervalTreeModel.IntervalTree.AddLeaf | inet/common/IntervalTree.cc:194-198 | the new red leaf at its place, everything exact, with at most one red-red edge, at the leaf |
| IntervalTreeModel.IntervalTree.Recolour | inet/common/IntervalTree.cc:203-208 | with a red uncle the only possible red-red edge moves up to the grandparent, black heights stay equal |
| IntervalTreeModel.IntervalTree.LineUpLeft | inet/common/IntervalTree.cc:210-213 | an inner red child is turned outside, with the violation and the black heights where they were |
| IntervalTreeModel.IntervalTree.LineUpRight | inet/common/IntervalTree.cc:228-231 | the mirror image |
| IntervalTreeModel.IntervalTree.LiftLeft | inet/common/IntervalTree.cc:214-216 | with a black uncle, recolouring and turning the grandparent removes the violation |
| IntervalTreeModel.IntervalTree.LiftRight | inet/common/IntervalTree.cc:232-234 | the mirror image |
| IntervalTreeModel.IntervalTree.RepairLeft | inet/common/IntervalTree.cc:201-218 | one round under a left parent: the violation moves strictly up or is gone; in-order list unchanged |
| IntervalTreeModel.IntervalTree.RepairRight | inet/common/IntervalTree.cc:219-236 | one round under a right parent: the violation moves strictly up or is gone; in-order list unchanged |
| IntervalTreeModel.IntervalTree.BlackenTop | inet/common/IntervalTree.cc:238 | a red top turns black: equal black heights and no red-red edge remain |
| IntervalTreeModel.IntervalTree.RepairUp | inet/common/IntervalTree.cc:199-238 | the loop ends and leaves a red-black tree with a black top, exact `max_high` and the same in-order list |
| IntervalTreeModel.IntervalTree.Insert | inet/common/IntervalTree.cc:188-240 | a valid tree stays valid and its in-order list is the old one with exactly the new node inserted at its place |
| IntervalInsertion.InsertedSorted | inet/common/IntervalTree.cc:158-178 | inserting behind smaller or equal keys keeps the list sorted and adds exactly the one node |
| IntervalInsertion.InsertedPlace | inet/common/IntervalTree.cc:158-178 | where the new node stands: keys before it are at most its own, keys behind it are greater |
| IntervalTreeModel.IntervalTree.GetMinimum | inet/common/IntervalTree.cc:242-247 | the first node in order of the subtree, which has no left child |
| IntervalTreeModel.IntervalTree.ClimbFromRight | inet/common/IntervalTree.cc:263-268 | climbing ends at the lowest node whose left side holds the start as its last, or at the root sentinel |
| IntervalTreeModel.IntervalTree.GetSuccessor | inet/common/IntervalTree.cc:256-270 | the next node in order, the root sentinel behind the last one |
| IntervalTreeModel.IntervalTree.FixRedSiblingRight | inet/common/IntervalTree.cc:332-337 | a red sibling is turned away: the sibling is black then, the missing black height where it was, and the cached top stays above |
| IntervalTreeModel.IntervalTree.FixBlackNephewsRight | inet/common/IntervalTree.cc:338-341 | with two black nephews the missing black height moves up to the parent |
| IntervalTreeModel.IntervalTree.FixInnerNephewRight | inet/common/IntervalTree.cc:343-348 | afterwards the outer nephew is red, with the missing black height where it was |
| IntervalTreeModel.IntervalTree.FixOuterNephewRight | inet/common/IntervalTree.cc:349-353 | with a red outer nephew nothing is missing afterwards, and the cached top is the top or a black node just below |
| IntervalTreeModel.IntervalTree.FillLeft | inet/common/IntervalTree.cc:330-355 | one round on the left side: the missing black height moves strictly up, or nothing is missing and the round ends at the cached top, which is black |
| IntervalTreeModel.IntervalTree.FixRedSiblingLeft | inet/common/IntervalTree.cc:358-363 | the mirror image for a red sibling |
| IntervalTreeModel.IntervalTree.FixBlackNephewsLeft | inet/common/IntervalTree.cc:364-367 | the mirror image for two black nephews |
| IntervalTreeModel.IntervalTree.FixInnerNephewLeft | inet/common/IntervalTree.cc:369-374 | the mirror image for a red inner nephew |
| IntervalTreeModel.IntervalTree.FixOuterNephewLeft | inet/common/IntervalTree.cc:375-379 | the mirror image for a red outer nephew |
| IntervalTreeModel.IntervalTree.FillRight | inet/common/IntervalTree.cc:356-381 | one round on the right side, likewise |
| IntervalTreeModel.IntervalTree.DeleteFixup | inet/common/IntervalTree.cc:324-384 | from one missing black height to a sound red-black tree with a black top, whichever nodes were turned past the cached top; in-order list unchanged |
| IntervalTreeModel.IntervalTree.FinishFill | inet/common/IntervalTree.cc:383 | the node the loop ends at turns black, which makes up for the missing black height |
| IntervalTreeModel.IntervalTree.SpliceOut | inet/common/IntervalTree.cc:417-428 | exactly the node is taken from the in-order list; black height is missing exactly if the node was black; the temporary parent of the nil sentinel is where it should be |
| IntervalTreeModel.IntervalTree.TakeOver | inet/common/IntervalTree.cc:434-441 | the links of the deleted node are taken over, also where its child is the node spliced out |
| IntervalTreeModel.IntervalTree.ReplaceBy | inet/common/IntervalTree.cc:432-449 | the successor stands in the in-order list where the deleted node stood, with its colour and black height |
| IntervalDeletion.SuccessorMoves | inet/common/IntervalTree.cc:416-441 | taking the successor out and putting it in the deleted node's place removes exactly the deleted node |
| IntervalDeletion.WithoutSorted | inet/common/IntervalTree.cc:410-460 | removing a node keeps the list sorted |
| IntervalTreeModel.IntervalTree.DeleteInPlace | inet/common/IntervalTree.cc:452-457 | deleting a node with a missing child leaves a sound tree without exactly that node |
| IntervalTreeModel.IntervalTree.TakeOutSuccessor | inet/common/IntervalTree.cc:416-428 | the successor is taken out of the in-order list, and the tree is mended but for the black height still missing |
| IntervalTreeModel.IntervalTree.PutInPlace | inet/common/IntervalTree.cc:432-449 | the successor stands where the deleted node stood: the list is the old one without exactly the deleted node |
| IntervalTreeModel.IntervalTree.DeleteThroughSuccessor | inet/common/IntervalTree.cc:432-451 | deleting a node with two children leaves a sound tree without exactly that node |
| IntervalTreeModel.IntervalTree.DeleteNode | inet/common/IntervalTree.cc:410-460 | a valid tree stays valid, its in-order list is the old one without exactly the given node, and the node's interval is returned |
| IntervalTreeModel.IntervalTree.RecursiveSearch | inet/common/IntervalTree.cc:393-408 | the first node in preorder that stores the interval, nil exactly if there is none |
| IntervalTreeModel.IntervalTree.DeleteInterval | inet/common/IntervalTree.cc:386-391 | removes exactly the first node in preorder that stores the interval, or nothing if there is none |
| IntervalTreeModel.IntervalTree.GlobalFacts | inet/common/IntervalTree.h:93-113 | the conditions on single nodes add up: the list is the in-order list, `max_high` the greatest high end, black heights equal on all paths, no red node under a red one |
| IntervalTreeModel.IntervalTree.TreeHeight | inet/common/IntervalTree.cc:188-240 | however a valid tree was built, its height is at most twice the binary logarithm of its size plus one |
| IntervalQuery.HeightBound | inet/common/IntervalTree.cc:188-240 | the same for trees as values: a red-black tree of height h has at least 2^((h+1)/2) - 1 nodes |
| IntervalQuery.OverlapIsCommonPoint | inet/common/IntervalTree.cc:463-471 | proper intervals overlap if and only if some time lies in both |
| IntervalTreeModel.IntervalTree.PushNode | inet/common/IntervalTree.cc:487-497 | the stack gets one more entry for the node's right side, growing if it is full |
| IntervalTreeModel.IntervalTree.PopNode | inet/common/IntervalTree.cc:505-507 | takes the top entry off, which remembers whether its left side had a hit |
| IntervalTreeModel.IntervalTree.VisitNode | inet/common/IntervalTree.cc:482-501 | one node: it is reported exactly if it overlaps, and the traversal goes on left or right with nothing lost from the stack |
| IntervalTreeModel.IntervalTree.Resume | inet/common/IntervalTree.cc:503-511 | going back up, what is left to visit stays the same, and either a right side is found or the stack is at its bottom |
| IntervalTreeModel.IntervalTree.Query | inet/common/IntervalTree.cc:473-514 | lists what the recursive traversal visits, leaves the tree as it was and the stack top back at 1, and never needs more than 1 plus height entries |
| IntervalTreeModel.IntervalTree.QueryIsScan | inet/common/IntervalTree.cc:473-514 | the query lists, in preorder and each node once, exactly what a linear scan finds, if and only if no side that is skipped has a hit, which is so for proper intervals and a low end above the smallest time |
| IntervalTreeModel.IntervalTree.QueryFinds | inet/common/IntervalTree.cc:463-514 | in a tree of proper intervals, a query from above the smallest time lists an interval if and only if it is stored and has a time in common with the query |
| IntervalTreeModel.IntervalTree.QueriesAreScansIff | inet/common/IntervalTree.cc:473-514 | every query from a low end above the smallest time lists what a scan finds if and only if, in the tree, nothing on a left side starts behind everything stored there ends; a query from the smallest time does if and only if nothing on the right of a node without a left side starts by the high end |
| IntervalQuery.NoHitOnTheRight | inet/common/IntervalTree.cc:504-510 | if the left side reaches the low end and has no hit, the right side has none |
| IntervalQuery.VisitAgrees | inet/common/IntervalTree.cc:473-514 | the traversal finds what the scan finds, or strictly less |
| IntervalQuery.VisitIsScan | inet/common/IntervalTree.cc:473-514 | one query: the traversal agrees with the scan if and only if no side that is skipped has a hit |
| IntervalQuery.AnswersAllIff | inet/common/IntervalTree.cc:486-501 | all queries above the smallest time: the traversal agrees with the scan if and only if every key on a left side is at most the highest end there |
| IntervalQuery.AnswersFromMinimumIff | inet/common/IntervalTree.cc:486-501 | a query from the smallest time: the two agree if and only if every key on the right of a node without a left side is behind the high end |
| IntervalQuery.ProperLosesNothing | inet/common/IntervalTree.cc:486-501 | with low at most high in every stored interval and a low end above the sentinel's `max_high` nothing is lost |
| IntervalQuery.LostAtMinimum | inet/common/IntervalTree.cc:486-501 | a query from the smallest time enters the nil sentinel on the left and misses the right side |
| IntervalQuery.LostWhenInverted | inet/common/IntervalTree.cc:486-501 | a stored interval with its ends exchanged is missed |
| PatternMatcherModel.Atol | inet/common/PatternMatcher.cc:306 | the number of the run of digits, at most `LONG_MAX` |
| PatternMatcherModel.SkipDigits | inet/common/PatternMatcher.cc:307-308 | skips exactly the maximal run of digits |
| PatternMatcherModel.ParseNumRange | inet/common/PatternMatcher.cc:163-190 | finds a range exactly if two optional numbers stand around exactly two dots before the closing character |
| PatternMatcherModel.ParseLiteralString | inet/common/PatternMatcher.cc:147-161 | the text up to a wildcard or the bracket of a numeric range, without the escaping backslashes |
| PatternMatcherModel.PatternMatcher.ParseSet | inet/common/PatternMatcher.cc:111-145 | the pairs of a set or negated set, or the error; what the pairs span is stated by PairsSpanItems |
| PatternMatcherModel.PatternMatcher.ScanElem | inet/common/PatternMatcher.cc:57-93 | the next element, given whether a literal is before it |
| PatternMatcherModel.PatternMatcher.TokenizeAll | inet/common/PatternMatcher.cc:53-95 | ends on every pattern, with all elements in order or the error |
| PatternMatcherModel.PatternMatcher.SetPattern | inet/common/PatternMatcher.cc:48-109 | the tokenized pattern, padded in substring mode; without an error it is proper; what it matches is stated by WrittenIsDocumented and WrittenMatchesPart |
| PatternTokens.TokensAreElements | inet/common/PatternMatcher.cc:53-95 | tokenizing yields elements only, with sets of whole pairs and ranges within bounds |
| PatternTokens.PatternIsProper | inet/common/PatternMatcher.cc:97-108 | exactly one END, the last element, whatever the pattern |
| PatternTokens.ElemProgress | inet/common/PatternMatcher.cc:55-95 | every element takes text, but for an empty literal at the bracket of a range, which the next element takes |
| PatternTokens.FailureHasCause | inet/common/PatternMatcher.cc:142-155 | tokenizing fails only for a set that nothing closes or a backslash at the end |
| PatternTokens.SetFailsUnclosed | inet/common/PatternMatcher.cc:119-144 | a set is an error if and only if no brace behind its first character closes it |
| PatternTokens.RangeEnds | inet/common/PatternMatcher.cc:163-190 | a range found ends within the text, behind at least its bracket and two dots |
| PatternTokens.WildcardFreeIsEquality | inet/common/PatternMatcher.cc:406-411 | a pattern that contains no wildcards matches, in full and case-sensitively, exactly itself |
| PatternRendering.EscapedMatchesItself | inet/common/PatternMatcher.h:45 | with a backslash before every character a text matches exactly itself |
| PatternRendering.RenderedTokenizes | inet/common/PatternMatcher.cc:48-109 | a text of literals with or without backslashes, question marks, sets of characters and spans, ranges and stars, none of which runs into the next, is tokenized to the elements for what is written |
| PatternRendering.WrittenIsDocumented | inet/common/PatternMatcher.h:33-78 | in full mode such a text documents, and in case-sensitive mode matches, exactly the lines that can be cut into one piece for each part that is written and meant by it |
| PatternRendering.WrittenMatchesPart | inet/common/PatternMatcher.h:56-58 | in substring mode, with case ignored or not, it matches exactly the lines some part of which can be cut so |
| PatternRendering.MeaningMeans | inet/common/PatternMatcher.cc:57-93 | an element suits exactly the pieces that the written part means: a star and a question mark by the mode of paths, a set by its characters and spans |
| PatternRendering.PairsSpanItems | inet/common/PatternMatcher.cc:119-141 | a character is in the stored set if and only if it is one of the characters written or lies in one of the spans, in either case where case is ignored |
| PatternRendering.ItemsRead | inet/common/PatternMatcher.cc:119-144 | a set is read as the characters and spans it was written with, a closing brace first and a hyphen first or last included |
| PatternRendering.SetIsItems | inet/common/PatternMatcher.cc:119-144 | every set that is closed was written as some characters and spans and is stored as their pairs |
| PatternRendering.ElementsCanBeWritten | inet/common/PatternMatcher.cc:48-109 | and every list of elements of the mode, literals and stars apart, is what some text is tokenized to |
| PatternRendering.RangeAtBounds | inet/common/PatternMatcher.cc:163-190 | the text of a range has exactly the bounds it was written for, up to `LONG_MAX`, in braces and in brackets |
| PatternRendering.RangeIsText | inet/common/PatternMatcher.cc:163-190 | and only two optional numbers around two dots are taken for a range |
| PatternRendering.BracketedRead | inet/common/PatternMatcher.cc:63-68 | in brackets behind a literal, a range ends in front of the closing one |
| PatternRendering.LettersRead | inet/common/PatternMatcher.cc:147-161 | a text of characters with or without backslashes is read as the one literal of these characters, up to a wildcard |
| PatternTokens.BracketNotEscaped | inet/common/PatternMatcher.cc:153-158 | wherever it stands, a backslash before the bracket of a numeric range is lost: the range is still a range |
| PatternTokens.EscapesIff | inet/common/PatternMatcher.cc:150-160 | the character behind a backslash becomes part of the literal, which goes on behind it, if and only if it is not the bracket of a numeric range |
| PatternTokens.EscapedRangeIsRange | inet/common/PatternMatcher.cc:153-158 | the pattern `\[1..2]` is the range from 1 to 2 between brackets, in every mode |
| PatternTokens.EscapedRangeFails | inet/common/PatternMatcher.h:45 | so it does not match the text it should escape |
| PatternMatcherModel.PatternMatcher.IsInSet | inet/common/PatternMatcher.cc:244-255 | whether some pair spans the character, in upper case if case is ignored |
| PatternMatcherModel.PatternMatcher.DoMatch | inet/common/PatternMatcher.cc:257-352 | true if and only if the rest of the line belongs to the language of the rest of the pattern; the backtracking ends |
| PatternMatcherModel.PatternMatcher.MatchElem | inet/common/PatternMatcher.cc:264-311 | one element but a sequence: the rest of the line belongs to the language if and only if the element takes its piece and what is left belongs to the rest of the pattern |
| PatternMatcherModel.PatternMatcher.MatchOneChar | inet/common/PatternMatcher.cc:277-302 | the same for the elements that take one character |
| PatternMatcherModel.PatternMatcher.MatchNumber | inet/common/PatternMatcher.cc:303-311 | the same for number ranges |
| PatternMatcherModel.PatternMatcher.MatchAnySeq | inet/common/PatternMatcher.cc:313-330 | the same for any-sequences, with both shortcuts at the end of the pattern |
| PatternMatcherModel.PatternMatcher.MatchCommonSeq | inet/common/PatternMatcher.cc:332-340 | the same for sequences without dots |
| PatternMatcherModel.PatternMatcher.Matches | inet/common/PatternMatcher.cc:354-378 | true if and only if the line belongs to the language of the pattern, with the shortcut on the last two characters |
| PatternMatching.SequenceThenLiteral | inet/common/PatternMatcher.cc:319-320 | behind an any-sequence, the last literal matches if and only if the line ends in it |
| PatternMatching.SequenceAtEnd | inet/common/PatternMatcher.cc:317-318 | an any-sequence at the end matches whatever is left |
| PatternMatching.LastLiteral | inet/common/PatternMatcher.cc:364-374 | a line in the language ends with the last literal |
| PatternMatching.LastTwo | inet/common/PatternMatcher.cc:364-374 | so in case-sensitive mode the shortcut rejects no line that matches |
| PatternMatching.NumberStep | inet/common/PatternMatcher.cc:303-311 | a number range takes exactly the maximal run of digits, and only if its value is in range |
| PatternLanguage.LanguageSteps | inet/common/PatternMatcher.cc:257-352 | a line belongs to the language of a list if and only if a suitable piece begins it and the rest belongs to the language of the other elements |
| PatternLanguage.SequenceSteps | inet/common/PatternMatcher.cc:322-340 | a sequence takes nothing, or one more character it may take and then goes on: the backtracking loop is complete |
| PatternModes.CaseSensitiveIsDocumented | inet/common/PatternMatcher.h:33-78 | in case-sensitive mode every pattern matches exactly its documented language |
| PatternModes.CaseInsensitiveExactly | inet/common/PatternMatcher.cc:319-320 | ignoring case: the documented language, less the lines that do not end in the last literal letter by letter if an any-sequence is before it |
| PatternModes.FlippedIsLost | inet/common/PatternMatcher.cc:319-320 | a line in the documented language with one letter of its end in the other case, which is rejected |
| PatternModes.CaseInsensitiveIsDocumentedIff | inet/common/PatternMatcher.h:59 | ignoring case, a pattern that some line should match behaves as documented for all lines if and only if it does not end in an any-sequence and a literal with a letter |
| PatternModes.CaseDoesNotMatter | inet/common/PatternMatcher.h:59 | ignoring case, the documented language does not tell apart lines that differ in case only |
| PatternModes.PaddedMeansPart | inet/common/PatternMatcher.cc:97-105 | the padded list is the language of the lines some part of which belongs to the unpadded one, where no digit follows a number at the end |
| PatternModes.SubstringIsDocumented | inet/common/PatternMatcher.h:56-58 | in substring mode the matcher accepts exactly the lines with a matching part, in both modes of case |
| Int128Model.Int128.Copy | inet/common/Int128.h:62 | the same halves |
| Int128Model.Int128.From | inet/common/Int128.h:64-74 | the number itself, sign extended |
| Int128Model.Int128.Less | inet/common/Int128.cc:382-392 | the order of the numbers if and only if not both are negative with equal high halves and different top bits below |
| Int128Arithmetic.LessIsOrderIff | inet/common/Int128.cc:382-392 | the same for all pairs of halves |
| Int128Model.Int128.Negated | inet/common/Int128.cc:162-168 | the negative number modulo 2^128 |
| Int128Arithmetic.NegateHalves | inet/common/Int128.cc:162-168 | negating halves, with and without a borrow, is negation modulo 2^128 |
| Int128Model.Int128.Increment | inet/common/Int128.cc:170-177 | one more, modulo 2^128 |
| Int128Model.Int128.Decrement | inet/common/Int128.cc:179-186 | one less, modulo 2^128 |
| Int128Model.Int128.Add | inet/common/Int128.cc:204-214 | the sum modulo 2^128, also when a number is added to itself |
| Int128Arithmetic.AddHalves | inet/common/Int128.cc:204-214 | adding halves with the carry is addition modulo 2^128 |
| Int128Arithmetic.CarryOut | inet/common/Int128.cc:206-211 | the low sum wrapped around if and only if it is less than the old low half |
| Int128Model.Int128.Subtract | inet/common/Int128.h:128-131 | the difference modulo 2^128 |
| Int128Model.Int128.ShiftLeft | inet/common/Int128.cc:352-380 | multiplication by 2^n modulo 2^128, for every n |
| Int128Arithmetic.ShiftLeftHalves | inet/common/Int128.cc:365-377 | moving bits over the word boundary is multiplication by 2^n modulo 2^128 |
| Int128Model.Int128.ShiftRight | inet/common/Int128.cc:321-350 | division by 2^n rounded down, for every n |
| Int128Arithmetic.ShiftRightHalves | inet/common/Int128.cc:335-347 | moving bits down over the word boundary is division by 2^n rounded down |
| Int128Model.Int128.TestBit | inet/common/Int128.cc:291-300 | bit n of the number in two's complement, the sign from bit 127 on |
| Int128Model.Int128.PutBit | inet/common/Int128.cc:302-319 | adds or takes away what the bit counts if it was different, also for the sign bit; nothing from 128 on |
| Int128Model.Int128.Multiply | inet/common/Int128.cc:216-237 | the product modulo 2^128 |
| Int128Model.Int128.MultiplyRound | inet/common/Int128.cc:229-234 | one round of shift and add |
| Int128Division.ProductStep | inet/common/Int128.cc:229-234 | each round accounts for one more bit of the multiplier |
| Int128Division.ProductDone | inet/common/Int128.cc:229-236 | 128 rounds make up the whole product modulo 2^128 |
| Int128Model.Int128.FirstBits | inet/common/Int128.cc:259-265 | the first loop ends with the highest bits of the dividend that make up at least the divisor, despite the counter wrapping around |
| Int128Model.Int128.FirstRound | inet/common/Int128.cc:259-265 | one round brings down one more bit, with the counter wrapping around below zero |
| Int128Division.FirstDone | inet/common/Int128.cc:259-267 | the first loop hands over to the second with the same remainder and the counter one up |
| Int128Division.ReachesDown | inet/common/Int128.cc:259-279 | bringing down a bit of the dividend in the machine is the round of either loop that is reached |
| Int128Model.Int128.TakeAway | inet/common/Int128.cc:276-279 | subtracting the divisor sets a quotient bit that was clear and keeps what is divided so far |
| Int128Model.Int128.DivideMagnitudes | inet/common/Int128.cc:255-279 | quotient and remainder of magnitudes; both loops end, by rounds of the loops and no others, and nothing overflows |
| Int128Division.RestoringShift | inet/common/Int128.cc:268-275 | bringing down a bit keeps the quotient so far times the divisor plus the remainder equal to the bits so far |
| Int128Division.RestoringSubtract | inet/common/Int128.cc:276-279 | so does subtracting |
| Int128Division.SignsCorrected | inet/common/Int128.cc:281-285 | correcting the signs makes it division rounded towards zero |
| Int128Division.DivisionUnique | inet/common/Int128.cc:239-289 | there is only one quotient and remainder of that kind |
| Int128Model.Int128.Div | inet/common/Int128.cc:239-289 | dividend = quotient * divisor + remainder always; the remainder is smaller than the divisor and has the dividend's sign if and only if the dividend is not the smallest number; no result exactly for zero |
| Int128Model.Int128.DivideSigned | inet/common/Int128.cc:255-289 | magnitudes divided and signs put back: division rounded towards zero for every dividend with a magnitude |
| Int128Model.Int128.Divide | inet/common/Int128.h:133-138 | the quotient rounded towards zero, also of a number by itself |
| Int128Model.Int128.Modulo | inet/common/Int128.h:140-144 | the remainder with the dividend's sign |
| Int128Division.ByMinNeverEnds | inet/common/Int128.cc:255-279 | whatever the dividend, with the smallest number as divisor no number of rounds of the two loops, compared by halves as `operator<` does, reaches their end |
| Int128Model.Int128.PrintDigits | inet/common/Int128.cc:52-56 | the digits of the magnitude stand at the end of the buffer, which never overflows |
| Int128Model.Int128.PrintDigit | inet/common/Int128.cc:53-55 | one digit: the character of the remainder before those printed, the quotient left to print |
| Int128Model.Int128.ToString | inet/common/Int128.cc:37-62 | "0" for zero, the numeral of a positive number in every radix from 2 to 37, with a sign for a negative one, and the error text if and only if the radix is out of range |
| Int128Text.PrintedIsText | inet/common/Int128.cc:37-62 | numbers above the smallest one are printed as their text, a sign and digits, and no number is printed as the error text in a valid radix |
| Int128Text.TextDetermines | inet/common/Int128.cc:37-62 | a text is that of one number only |
| Int128Text.NumeralIsDigits | inet/common/Int128.cc:52-56 | a number has one numeral without leading zeros, and it is the digits printed |
| Int128Text.LettersArePrinted | inet/common/Int128.cc:55 | 255 is printed as "FF" in radix 16 |
| Int128Text.DigitsEvaluate | inet/common/Int128.cc:52-56 | the digits printed in any valid radix evaluate to the number, without leading zero and with no more digits than it has bits |
| Int128Model.Int128.Set | inet/common/Int128.cc:64-109 | the number read from the text |
| Int128Model.Int128.ReadPrefix | inet/common/Int128.cc:70-90 | skips sign and prefix and finds the radix |
| Int128Model.Int128.ReadDigits | inet/common/Int128.cc:92-105 | digits are read up to the first character that is none |
| Int128Text.ParsedIsModular | inet/common/Int128.cc:64-109 | a numeral of any length is read modulo 2^128 |
| Int128Text.ReadsNumeral | inet/common/Int128.cc:64-109 | a number below 2^127 written in octal, decimal or hexadecimal with its prefix, negative or not, is read as that number |
| Int128Text.DigitReadIff | inet/common/Int128.cc:94-101 | a character is read as a digit if and only if it is one of the radix, with what it counts in either case of letters, or, in decimal and hexadecimal, the letter behind the last one, which counts as the radix |
| Int128Text.ReadsProperlyIff | inet/common/Int128.cc:92-105 | digits are read as their number if and only if the first character behind them is not that letter |
| Int128Text.ParsedProperlyIff | inet/common/Int128.cc:64-109 | the same for whole texts with sign and prefix, whose number is within range |
| Int128Text.ExtraLettersRead | inet/common/Int128.cc:96 | "a" is read as 10 and "0xg" as 16, where no digit stands |
| Int128Text.RoundTripIff | inet/common/Int128.cc:37-109 | a number is read back as it was printed in decimal if and only if it is not the smallest one |
| MachoStates.PathIsSuperstates | inet/common/Macho.h:789-792 | the states on the path of a state are exactly its superstates and itself, but the root |
| MachoStates.ExitsAreInnermost | inet/common/Macho.cc:156-173 | exits stop at the innermost state that the old state is inside of and the new one properly inside of |
| MachoStates.ExitsMeetEntries | inet/common/Macho.cc:139-173 | entries start exactly where exits stopped, for transitions to itself, up, down and across |
| MachoStates.ReplayMoves | inet/common/Macho.cc:354-371 | exits and entries of a transition are well nested and lead from the one state's path to the other's |
| MachoStates.MovesAreMotions | inet/common/Macho.cc:354-371 | but for init actions, the log of a run is the exits and entries of its transitions, one after another |
| MachoStates.SegmentsMakePath | inet/common/Macho.cc:354-371 | what was not exited together with what is entered is exactly the path of the new state |
| MachoStates.EntriesBalanceExits | inet/common/Macho.cc:139-173 | in a well-nested log every state was entered once more than exited if it is active, and as often otherwise |
| MachoMachine.Machine.Entry | inet/common/Macho.cc:139-154 | enters exactly the superstates below the meeting state, outermost first, each with a box |
| MachoMachine.Machine.Exit | inet/common/Macho.cc:156-173 | exits exactly the states up to the meeting state, innermost first, and deletes their own boxes |
| MachoMachine.Machine.DeleteBox | inet/common/Macho.h:299-303 | persistent boxes stay, others are deleted |
| MachoMachine.BoxesMoved | inet/common/Macho.cc:139-173 | after a transition every active state has a box, and boxes deleted on exit exist for active states only |
| MachoMachine.Machine.SetHistorySuper | inet/common/Macho.h:734-739 | every proper superstate with deep history records the state left, every one with shallow history the direct substate it is inside of, no other history changes |
| MachoMachine.Machine.SaveHistory | inet/common/Macho.h:276-297 | shallow history records the direct substate left, deep history the state left itself, passed on if any superstate keeps history |
| MachoHistory.ChildTowardIs | inet/common/Macho.h:685-689 | the direct substate on the way to the state left |
| MachoHistory.RecordIs | inet/common/Macho.h:276-297 | deep history is the state left, shallow history the direct substate it is inside of |
| MachoHistory.RecalledIsInside | inet/common/Macho.h:734-739 | a recorded history is always a proper substate of its owner, which keeps history |
| MachoHistory.RecordIsFound | inet/common/Macho.cc:175-187 | what was left last, with nothing using or clearing the history since, is found: by deep history itself, by shallow history the direct substate it is inside of |
| MachoHistory.OnlyLastLeftIsFound | inet/common/Macho.cc:175-187 | and nothing else is found |
| MachoMachine.HistoryMoved | inet/common/Macho.cc:355-382 | the histories of the machine are what the run of transitions says |
| MachoMachine.Machine.SetPending | inet/common/Macho.h:1518-1525 | the transition is pending, nothing else changes; the one pending may be asked for again, as the assertion allows, unless it has parameters |
| MachoMachine.Machine.InitAction | inet/common/Macho.cc:182-183 | the init action may ask for a proper substate and is logged, the root has none |
| MachoMachine.Machine.Init | inet/common/Macho.cc:175-187 | a history that is there is asked for in place of the init action, and history is used up either way |
| MachoMachine.Machine.Initialize | inet/common/Macho.h:1292-1311 | the target alone is initialized, by its history or by its init action |
| MachoMachine.Machine.Move | inet/common/Macho.cc:354-371 | leaving and entering keeps the log well nested, the boxes right and the histories recorded for exactly this leave |
| MachoMachine.Machine.MoveOn | inet/common/Macho.cc:354-371 | the same, with the run going on by this transition |
| MachoMachine.Machine.Transition | inet/common/Macho.cc:345-393 | one round keeps everything, performs exactly the pending transition, and what is pending then is a proper substate: for a history transition the state left last, or with shallow history the direct substate it is in |
| MachoMachine.Machine.RattleRound | inet/common/Macho.cc:345-393 | one round performs the pending transition; what is pending then is strictly further down in the finite state tree |
| MachoMachine.Machine.RattleOn | inet/common/Macho.cc:338-402 | the loop ends for every init behaviour the assertion allows, with nothing pending and a state at or below the one asked for; the log is still that of the run, persistent boxes survive; without a pending transition nothing changes |
| MachoMachine.Machine.SetState | inet/common/Macho.cc:236-240 | a transition ends at or below its target, the run only grows and each further transition goes down |
| MachoMachine.Machine.Start | inet/common/Macho.cc:248-256 | a started machine is valid and at or below its first state, its run starting with the transition there from the root |
| MachoMachine.Machine.Shutdown | inet/common/Macho.cc:268-278 | every active state is exited, innermost first; nothing is active and no deletable box is left |
| MachoMachine.Machine.ClearHistory | inet/common/Macho.h:2108-2114 | the state's history is cleared, no other |
| MachoMachine.Machine.ClearEach | inet/common/Macho.cc:299-306 | the loop clears exactly the histories of the state and its substates |
| MachoMachine.Machine.ClearHistoryDeep | inet/common/Macho.h:2116-2122 | the same, as a step of the run |
| DispatcherNetwork.Network.HandleRegister | inet/common/MessageDispatcher.cc:261-283 | the flood ends; entries only grow; without an error this gate is recorded and everything new is passed on; as long as any consistent plan can be followed there is no error, and nothing is recorded that is not in all such plans |
| DispatcherNetwork.Network.Record | inet/common/MessageDispatcher.cc:272 | one entry more, which leads to a registrant or to a dispatcher that recorded earlier |
| DispatcherNetwork.Network.PassOn | inet/common/MessageDispatcher.cc:273-281 | the loop over the other gates: without an error all that must hear of it have recorded it |
| DispatcherNetwork.Network.PassOnThrough | inet/common/MessageDispatcher.cc:277-280 | one gate, unless its path leads to the module the registration came from |
| DispatcherNetwork.Network.Register | inet/common/IProtocolRegistrationListener.cc:102-109 | the next listener on the path has recorded the registration, if it is another dispatcher |
| DispatcherNetwork.Network.RegisterTopic | inet/common/MessageDispatcher.cc:261-355 | a registration succeeds if and only if a consistent plan extends what is recorded, and then the least such plan is recorded: everything reached and nothing else; entries once set never change and only this topic's are added |
| DispatcherNetwork.Network.RegisterPrimitives | inet/common/IProtocolRegistrationListener.cc:38-48 | succeeds if and only if all given primitives are heard of at their gates and the network is consistent; entries once set never change; services take requests at input gates, protocols at output gates |
| DispatcherNetwork.PassedOnGrows | inet/common/MessageDispatcher.cc:276-281 | what one branch of the flood passed on stays passed on in the next |
| DispatcherNetwork.FloodDone | inet/common/MessageDispatcher.cc:261-355 | a flood without errors leaves a consistent network consistent |
| DispatcherNetwork.RegisteredIff | inet/common/MessageDispatcher.cc:261-355 | the network is consistent and has heard of the registration if and only if there was no error, which is if and only if there is a plan; what is recorded is in every plan |
| DispatcherNetwork.ConsistentIs | inet/common/MessageDispatcher.cc:273-281 | in terms of gates and paths: a plan is consistent if and only if whatever does not lead back to the module it came from is passed on and recorded where it arrives |
| DispatcherNetwork.AllPassOn | inet/common/MessageDispatcher.cc:276-281 | whatever the plan, what is recorded is passed on to the next dispatcher in it |
| DispatcherNetwork.FloodReaches | inet/common/MessageDispatcher.cc:273-281 | every dispatcher a registration can be passed on to along the gates has an entry, at the gate it came through |
| DispatcherNetwork.LoopFreeGrows | inet/common/MessageDispatcher.cc:272 | recording an entry that leads back keeps the whole network free of loops |
| DispatcherNetwork.Network.HandlePacket | inet/common/MessageDispatcher.cc:133-193 | the socket decides first, then the protocol, then the interface; requests go by the services, indications by the protocols, an unset primitive by whether the protocol is the packet's own; an error exactly if there is no entry, and what goes through is delivered |
| DispatcherNetwork.Network.DispatchFor | inet/common/MessageDispatcher.cc:155-181 | requests go by the services, indications by the protocols: the gate of the protocol's own entry, behind which a module registered it, or else of the one for any; an error for responses and confirms |
| DispatcherNetwork.Network.HandleMessage | inet/common/MessageDispatcher.cc:195-259 | a message teaches the gate of its socket once and for all, and is routed like a packet, an unset primitive as a request, an error exactly if there is no entry |
| DispatcherNetwork.Network.DeliveredByOwnEntry | inet/common/MessageDispatcher.cc:157-159 | following the entries of a protocol ends at a module that registered it, within the number of entries |
| DispatcherNetwork.Network.ReachedByOwnEntry | inet/common/MessageDispatcher.cc:157-159 | and to a module that registered the protocol itself, not only any |
| DispatcherNetwork.Network.DeliveredByAnyEntry | inet/common/MessageDispatcher.cc:161-163 | following the entries for any protocol ends at a module that takes it, also where some dispatcher knows the protocol itself |
| DispatcherNetwork.Network.DispatchedIsDelivered | inet/common/MessageDispatcher.cc:145-182 | what goes by the entry of a dispatcher comes to a module that registered the topic or any, without loops, and by an own entry to one that registered the topic itself |
| MemoryStreams.MemoryOutputStream.constructor | inet/common/MemoryOutputStream.h:61-65 | the empty stream |
| MemoryStreams.MemoryOutputStream.WriteBit | inet/common/MemoryOutputStream.h:102-111 | exactly the bit is appended to the bits the bytes show |
| MemoryStreams.BitIsAppended | inet/common/MemoryOutputStream.h:102-111 | setting the bit in the last or in a new byte shows one bit more, most significant first |
| MemoryStreams.MemoryOutputStream.WriteBitRepeatedly | inet/common/MemoryOutputStream.h:116-119 | the bit is appended as often as asked for |
| MemoryStreams.MemoryOutputStream.WriteBits | inet/common/MemoryOutputStream.h:125-129 | the bits are appended in order |
| MemoryStreams.MemoryOutputStream.WriteByte | inet/common/MemoryOutputStream.h:137-147 | at offset 0 or 4 in a byte the eight bits are appended, highest first |
| MemoryStreams.ByteIsAppended | inet/common/MemoryOutputStream.h:137-147 | whatever was written before, at these offsets nothing is misplaced |
| MemoryStreams.ByteIsAppendedIff | inet/common/MemoryOutputStream.h:141-144 | every byte is appended to everything if and only if the offset in the byte is 0 or 4 |
| MemoryStreams.ByteWrittenBits | inet/common/MemoryOutputStream.h:141-144 | which bits of the byte stand where at every offset that is not aligned |
| MemoryStreams.MemoryOutputStream.WriteByteRepeatedly | inet/common/MemoryOutputStream.h:153-156 | the byte is appended as often as asked for |
| MemoryStreams.MemoryOutputStream.WriteBytes | inet/common/MemoryOutputStream.h:162-180 | the bytes are appended at an aligned position |
| MemoryStreams.MemoryOutputStream.WriteUint2 | inet/common/MemoryOutputStream.h:189-192 | the two lowest bits are appended, highest first |
| MemoryStreams.MemoryOutputStream.WriteUint4 | inet/common/MemoryOutputStream.h:198-203 | the four lowest bits are appended, highest first |
| MemoryStreams.MemoryOutputStream.AppendBigByte | inet/common/MemoryOutputStream.h:217-220 | one more byte behind the higher ones |
| MemoryStreams.MemoryOutputStream.WriteUintBe | inet/common/MemoryOutputStream.h:217-286 | the 8k lowest bits of the number are appended, highest first |
| MemoryStreams.MemoryOutputStream.AppendLittleByte | inet/common/MemoryOutputStream.h:226-229 | one more byte behind the lower ones |
| MemoryStreams.MemoryOutputStream.WriteUintLe | inet/common/MemoryOutputStream.h:226-301 | the k lowest bytes are appended, lowest byte first |
| MemoryStreams.MemoryOutputStream.WriteString | inet/common/MemoryOutputStream.h:338-341 | the text and a zero byte are appended |
| MemoryStreams.MemoryOutputStream.WriteNBitsOfUint64Be | inet/common/MemoryOutputStream.h:347-355 | the n lowest bits are appended for n up to 31; zero and more than 64 bits are errors that write nothing |
| MemoryStreams.NBitsAreIff | inet/common/MemoryOutputStream.h:350 | the n lowest bits of every number are written if and only if n is at most 31 |
| MemoryStreams.HigherBitLeaks | inet/common/MemoryOutputStream.h:350 | the smallest example of a bit that is written but not among the lowest 32 |
| MemoryStreams.MemoryOutputStream.CopyData | inet/common/MemoryOutputStream.h:76-86 | the bits read from the bytes are the bits that were written |
| BitSequences.ShownOnce | inet/common/MemoryOutputStream.h:41-49 | bits are shown by one sequence of bytes only, the rest of the last byte is not set |
| MemoryInput.MemoryInputStream.constructor | inet/common/MemoryInputStream.h:69-85 | a reader at a position within the length |
| MemoryInput.MemoryInputStream.Seek | inet/common/MemoryInputStream.h:137-140 | the position is moved within the stream |
| MemoryInput.MemoryInputStream.ReadBit | inet/common/MemoryInputStream.h:148-162 | the bit at the position; at the end none, and the flag is set |
| MemoryInput.MemoryInputStream.ReadBits | inet/common/MemoryInputStream.h:178-186 | the next n bits in order if they are there; otherwise all that are left and one unset bit; nothing once the flag is set |
| MemoryInput.MemoryInputStream.ReadByte | inet/common/MemoryInputStream.h:194-213 | the next eight bits at any position; without them zero, the end and the flag |
| MemoryStreams.ByteIsRead | inet/common/MemoryInputStream.h:200-212 | the byte put together from two is made of the next eight bits, at every offset |
| MemoryInput.MemoryInputStream.ReadUint2 | inet/common/MemoryInputStream.h:267-272 | the number of the next two bits |
| MemoryInput.MemoryInputStream.ReadUint4 | inet/common/MemoryInputStream.h:278-285 | the number of the next four bits |
| MemoryInput.MemoryInputStream.ReadUintBe | inet/common/MemoryInputStream.h:299-382 | the number below 2^(8k) of the next 8k bits |
| MemoryInput.MemoryInputStream.ReadUintLe | inet/common/MemoryInputStream.h:310-399 | the number below 2^(8k) whose bytes come next, lowest first |
| MemoryInput.MemoryInputStream.ReadString | inet/common/MemoryInputStream.h:440-445 | the text up to the first zero byte; the flag is set if no terminated text stands there |
| MemoryInput.MemoryInputStream.ReadNBitsToUint64Be | inet/common/MemoryInputStream.h:451-462 | the number of the next n bits for n up to 31; zero and more than 64 bits are errors that read nothing |
| StreamFields.WriteField | inet/common/MemoryOutputStream.h:97-355 | a field written where it may be written is appended as its bits |
| StreamFields.ReadField | inet/common/MemoryInputStream.h:143-462 | a field that stands at the position is read as its value, whatever stands behind it |
| StreamFields.WriteAll | inet/common/MemoryOutputStream.h:97-355 | fields written one after another show their bits one after another |
| StreamFields.ReadAll | inet/common/MemoryInputStream.h:143-462 | fields that stand one after another are read in order |
| StreamFields.ReadNext | inet/common/MemoryInputStream.h:143-462 | with the first fields read, the next one is read as its value |
| StreamFields.RoundTrip | inet/common/MemoryInputStream.h:143-462 | any sequence of typed fields written where bytes may be written is read back as the same values, ending at the end of the stream and never beyond |
| StreamFields.FittingIsKept | inet/common/MemoryOutputStream.h:189-355 | a number that fits its field is kept whole |
| BitSequences.BitsDetermine | inet/common/MemoryInputStream.h:299-382 | the n lowest bits can be told from what was written |
| BitSequences.LittleDetermine | inet/common/MemoryInputStream.h:310-399 | so can the k lowest bytes in little-endian order |
| BitSequences.LittleBitsAt | inet/common/MemoryOutputStream.h:226-301 | in little-endian order a bit stands in the byte counted from the lowest, and there the highest comes first |
| BitVectors.BitVector.constructor | inet/common/BitVector.cc:24-28 | the empty vector |
| BitVectors.BitVector.FromNumber | inet/common/BitVector.cc:36-45 | the binary digits of the number without a zero at the end, one zero for zero |
| BitVectors.BitVector.Copy | inet/common/BitVector.cc:204-210 | the same bits |
| BitVectors.BitVector.SetBit | inet/common/BitVector.cc:60-71 | the one bit is set, filling up with zeros before it; stored bits behind the size are zero |
| BitVectors.BitVector.ToggleBit | inet/common/BitVector.cc:73-79 | exactly the one bit changes; out of range is an error |
| BitVectors.BitVector.GetBit | inet/common/BitVector.cc:81-87 | the bit at the position; out of range is an error |
| BitVectors.BitVector.AppendBit | inet/common/BitVector.cc:104-107 | the bit is appended |
| BitVectors.BitVector.AppendBits | inet/common/BitVector.cc:109-113 | the bit is appended n times |
| BitVectors.BitVector.ToDecimal | inet/common/BitVector.cc:146-156 | the number with these digits, modulo 2^32 |
| BitVectors.BitVector.ReverseToDecimal | inet/common/BitVector.cc:158-168 | the number with the reversed digits, modulo 2^32 |
| BitVectors.DecimalOneMore | inet/common/BitVector.cc:150-154 | the next digit counts twice as much as the one before |
| BitVectors.BitVector.ComputeHammingDistance | inet/common/BitVector.cc:170-179 | the number of positions that differ; different sizes are an error |
| BitVectors.Triangle | inet/common/BitVector.cc:170-179 | the distance is a metric |
| BitVectors.BitVector.Equals | inet/common/BitVector.cc:189-197 | true if and only if the bits are the same |
| ShortBitVectors.ShortBitVector.constructor | inet/common/ShortBitVector.cc:24-28 | the empty vector |
| ShortBitVectors.ShortBitVector.WithSize | inet/common/ShortBitVector.cc:54-60 | an error above 32 bits; otherwise the vector stands for the number if and only if it has no bits behind its size |
| ShortBitVectors.SizedIsNumberIff | inet/common/ShortBitVector.cc:54-60 | which is if and only if the number is below 2 to the power of the size |
| ShortBitVectors.ShortBitVector.SetBit | inet/common/ShortBitVector.h:79-91 | the one bit is set, filling up with zeros before it; an error from position 32 on |
| ShortBitVectors.ShortBitVector.GetBit | inet/common/ShortBitVector.h:70-77 | the bit at the position; out of range is an error |
| ShortBitVectors.ShortBitVector.ToggleBit | inet/common/ShortBitVector.h:93-100 | exactly the one bit changes; out of range is an error |
| ShortBitVectors.ShortBitVector.AppendBit | inet/common/ShortBitVector.h:66 | the bit is appended unless the word is full |
| ShortBitVectors.ShortBitVector.ToDecimal | inet/common/ShortBitVector.h:48 | the number with these digits |
| ShortBitVectors.ShortBitVector.ReverseToDecimal | inet/common/ShortBitVector.h:50-60 | the number with the reversed digits, for all sizes up to the word's |
| ShortBitVectors.ShortBitVector.ComputeHammingDistance | inet/common/ShortBitVector.h:106-116 | the number of positions that differ |
| ShortBitVectors.ParallelCounts | inet/common/ShortBitVector.h:113-115 | the masked sums and the multiplication count the ones of every word |
| ShortBitVectors.XorCountsDistance | inet/common/ShortBitVector.h:112 | the ones of the exclusive or are the positions that differ |
| ShortBitVectors.DistancesAgree | inet/common/ShortBitVector.h:106-116 | both kinds of vector have the same distance for the same bits |
| ShortBitVectors.ShortBitVector.Equals | inet/common/ShortBitVector.h:126 | true if and only if the numbers are equal; that tells whether the bits are the same if and only if the sizes are the same or the numbers differ |
| ShortBitVectors.ZerosDiffer | inet/common/ShortBitVector.h:126 | no bits and one unset bit are different vectors with the same number |

## Left out

- MemoryStreams.MemoryOutputStream.WriteNBitsOfUint64Be: fields of 33 to 64 bits, where the source shifts an int by at least its width, which C++ leaves undefined.
- MemoryInput.MemoryInputStream.ReadNBitsToUint64Be: the same fields, and the value of a field of 32 bits, whose mask is sign extended.
- StreamFields.RoundTrip: byte-based fields at offsets other than 0 and 4 in a byte, where `writeByte` misplaces bits, and fields of more than 31 bits.
- Int128Model.Int128.Div: the smallest number as divisor, for which the loop does not end.
- DispatcherNetwork.Network.DispatchedIsDelivered: topics other than requests of services and indications of protocols, by which nothing is ever dispatched.
- DispatcherNetwork.Network.RegisterTopic: a first gate of the other kind, such as the input gate given for indications at inet/protocolelement/selectivity/ReceiveAtPort.cc:35-36; tables keep the index of a gate without its kind, so what is recorded for such a registration is not what packets are sent through.
- DispatcherNetwork.Network.RegisterPrimitives: gates of the other kind for the same reason.
- MachoMachine.Machine.RattleOn: the outer loop over pending events, which start further transitions.
- MachoMachine.Machine.SetPending: a request with parameters repeated while it is pending, which compares initializers by address.
- PatternMatcherModel.PatternMatcher.SetPattern: what is read behind a backslash at the end of a pattern.
- PatternRendering.RenderedTokenizes: a range in brackets, whose brackets belong to the literals around it; BracketedRead and LettersInFront read it.
- MachoMachine.Machine.Start: init actions that break the assertion on proper substates.
- Interval tree: the calls with a null interval, `getPredecessor`, `getMaximum`, printing, freeing of memory, and the pointer to a node after its deletion.
- Pattern matcher: `patternPrefixMatches` with its suffix length, and debug output.
- 128-bit integer: conversions to and from floating point, assignment from negative machine integers, the bitwise operators on whole numbers, and the reuse of the static text buffer.
- State machine: events and pending events, snapshots, boxes given by the deprecated calls or for the top state, aliases that adapt to history, and the parameters of parametrised initializers.
- Dispatchers: the flood of `handleRegisterInterface`, whose table is only read here, protocol groups, transparent listeners, and the queueing calls.
- Streams: addresses, buffers given by pointer, the partial copies with offset and length, and the repeated and bulk reads of bits and bytes.
- Bit vectors: conversions from and to text, bytes, the constructor of `BitVector` with a size, shifts, and the constructor of `ShortBitVector` that uses logarithms.
