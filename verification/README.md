# Verified models of four text tools and three smaller programs

The repository is a collection of Unix user programs. This project models the algorithms in it
that are hardest to get right and proves what they compute:

- **awk's regular expressions** (`bin/awk/b.c`): a recursive descent builds a tree, leaves are
  numbered, follow sets are found by climbing parent pointers, a deterministic automaton with at
  most 32 states is built while it runs and forgotten when it is full, and three drivers look for a
  match, the leftmost longest match and the leftmost longest non-empty match. Modules `Positions`,
  `Repetition`, `Climbing`, `AwkTree`, `AwkRuns`, `AwkTable`, `AwkCalls`, `AwkMachine`, `AwkMatch`,
  `AwkLeaves`, `AwkFailures`, `AwkRestarts`, `AwkSyntax`, `AwkParse`, `AwkVerdict`, `AwkLanguage`.
- **agrep's approximate search** (`bin/agrep/sgrep.c`): one bit row per number of errors, run only
  in windows around places where a block of the pattern occurs unchanged. Modules `AgrepEdit`,
  `AgrepRows`, `AgrepFilter`, `AgrepScan`, `AgrepCarets`.
- **agrep's regular expressions** (`bin/agrep/parse.c`, `follow.c`, `utilities.c`): a stack parser
  that computes first and last sets as it builds the tree, and follow sets computed from the top
  down. Modules `AgrepSyntax`, `AgrepVerdict`, `AgrepParse`, `AgrepFollow`, `AgrepLanguage`.
- **bison's LR(0) construction** (`bin/bison/LR0.c`, `closure.c`, `derives.c`, `warshall.c`): bit
  matrices, closures as merged sorted lists, hash-consed states found by a worklist, chains of
  shifts and reductions, and the augmentation for the start symbol. Modules `BisonWarshall`,
  `BisonGrammar`, `BisonClosure`, `BisonKernels`, `BisonMachine`, `BisonStates`, `BisonUnique`,
  `BisonPaths`, `BisonAugment`, `BisonFinal`.
- **awk's symbol table** (`bin/awk/tran.c`), **ar's member format, move and delete** (`bin/ar`) and
  **branch and bound** (`benchmarks/tsp/tsp.c`). Modules `AwkSymtab`, `ArFormat`, `ArMembers`,
  `ArLayout`, `ArEdit`, `ArNames`, `ArDelete`, `ArCommands`, `TspSearch`; `Wrappers` holds the option type and
  `Slices` a lemma on sequences.

Code that changes things step by step is a class or a method with loops and invariants; each such
method is tied to a specification that does not mention it: the words of a regular expression, edit
scripts, runs of the item automaton, a finite map, a list of members.

## Main results

- Every call of `match`, `pmatch` and `nematch` is a function of the table it starts with and the
  text, whatever happened in earlier calls. A step *slips* if it takes an entry that recycling
  left in the row of state 2 and that does not lead to the successor set; the machine is in the
  right set after every prefix if and only if no step slips (`AwkTable.RightIff`), and whether a
  call slips is determined before it (`AwkCalls.MatchSlips`, `AwkMatch.CallSlips`).
- If no step slips, `match` finds out whether some factor of HAT·text·NUL is a word of the tree
  (`AwkMatch.Match`), and `pmatch` and `nematch` return the leftmost start and the longest length
  there, with `^` possible only at index 0 (section 9.1 of XBD, IEEE Std 1003.1), if and only if the
  call began in the state after HAT or no match that uses the HAT is needed for the best one
  (`AwkMatch.CallRight`, `AwkMatch.Pmatch`, `AwkMatch.Nematch`). With fewer than 32 reachable sets
  no step slips.
- Both conditions fail on real inputs: for any literal w of 30 or more different characters a new
  automaton for `w|cc` returns 0 on a text in which cc occurs (`AwkFailures.RecyclingLosesMatch`),
  and the third of three calls with an automaton for `^x|w` misses x at the start of its text
  (`AwkRestarts.ThirdCallMisses`).
- `cgoto` keeps the transition table exact in every case but one: recycling the full table while
  in state 2, where it is exact if and only if the new state is its own successor on the same
  character (`AwkMachine.Fa.Cgoto`, `AwkMachine.Fa.Recycle`).
- awk's parser returns a tree exactly for the token strings of its grammar, and their only tree
  (`AwkSyntax.ReparseIff`); what it builds node by node is that tree (`AwkParse.Reparser.Reparse`),
  and `mkdfa` makes a ready automaton for it (`AwkParse.MkDfaOf`). The tree denotes the language of
  the token string, which is defined on tokens and words without any tree (`AwkLanguage.AltIff`), so
  the pattern matches a text exactly if a factor of 256·text·0 is a word of its tokens
  (`AwkLanguage.TokensMatch`). One pass that counts parentheses says which token strings are
  accepted and which error the others get (`AwkVerdict.ReparseVerdict`).
- agrep prints exactly the lines that have a factor within D edits of the pattern, once each and
  in order, if the pattern has neither `^` nor `$`; otherwise every line printed is within D edits of
  the pattern with newlines in their place (`AgrepScan.Agrep`). No line is lost, whatever the text,
  if and only if there is neither (`AgrepCarets.LosslessIff`).
- agrep's parser accepts exactly the token strings of its grammar, gives each its only tree, and
  its follow table is what awk's climb finds on the same tree (`AgrepParse.Parser.Parse`,
  `AgrepSyntax.AltUnique`, `AgrepFollow.Init`, `AgrepFollow.DownIsUp`). On the others it returns
  null, or follows a null pointer: one pass that counts parentheses says which
  (`AgrepVerdict.Crashes`).
- On every symbol string bison's machine is in the state whose closure is the set of active items
  of the nondeterministic item automaton, and nowhere exactly when no item is active
  (`BisonMachine.MachineFollowsItems` for what `BisonStates.GenerateStates` returns); every state
  is reached by some string, and there are at most 2^nitems; the rules it can reduce are recorded in
  the order of their ends (`BisonMachine.ReductionsInOrder`). The construction succeeds if and only
  if the kernels reachable from the empty one lie in a closed family of at most 32767. States are
  numbered in the order in which they are met, and no other machine with the same properties exists:
  states, numbers, shifts and reductions are determined by the grammar (`BisonUnique.MachineUnique`);
  the augmentation adds three
  transitions and changes nothing else (`BisonAugment.Automaton.AugmentAutomaton`), which fixes
  where the augmented machine is on every string (`BisonAugment.AugmentedPath`). Two strings lead to
  the same state exactly if the same items are active after them (`BisonFinal.SameStateIff`), so the
  final state is reached by two end-of-files after exactly the strings with the active items of the
  start symbol (`BisonFinal.FinalItems`).
- Members written to an archive are read back as they were (`ArMembers.FilesBack`), and `move`
  permutes them (`ArEdit.MovePermutes`). Headers are given byte by byte, with the exact condition
  for a header to be read and for a file to be written (`ArLayout.ReadableIff`,
  `ArLayout.CanWriteIff`); a path names the members called like its last component
  (`ArNames.NamesExactly`). On an archive that can be read, `delete` leaves exactly the
  unselected members if and only if no selected member other than the last is empty with an odd
  long name; otherwise it reports a bad format and changes nothing (`ArDelete.DeleteExact`,
  `ArCommands.DeleteCommand`).
- The branch and bound returns the shortest path and counts, for every length, the different
  beginnings it has gone into: all that are shorter than the final bound, and none that is not
  shorter than the first (`TspSearch.Solve`).

## Where the code differs from its comments or expectations

- `bin/awk/b.c:376` describes the result of `first` the wrong way round: it is 0 for a nullable
  subtree. The model follows the code.
- `bin/awk/b.c:811-825`: when the table is recycled from state 2, the entry for the character just
  read is written into the row of the fresh state 2 and is wrong unless that state is its own
  successor. The model keeps this: the table remembers the character. An instance of
  `AwkFailures.RecyclingLosesMatch` is the pattern `abcdefghijklmnopqrstuvwxyzABCDEF|11` on the text
  `abcdefghijklmnopqrstuvwxyzABC911`.
- `bin/awk/b.c:518` and `568` set `initstat` to 2 when the table was recycled. The call itself is
  still right, and so is the next one, which rebuilds the starting states; a call after that begins
  in state 2, where `^` cannot match, unless the table has been recycled again.
- `bin/awk/b.c:649` leaves `^` out of what continues a concatenation, so `a^b` is a syntax error: a
  `^` may stand only first, after a left parenthesis or after an alternation sign
  (`AwkSyntax.AltCarets`).
- `bin/agrep/parse.c:278` reads one more token after a failure inside parentheses and does not look
  whether there is one. The pattern `[-[*`, a regular expression because of its star
  (`bin/agrep/preprocess.c:36`), becomes `.*(.([-[*).)`, whose first bracket fails at the hyphen and
  whose second fails on the way out (`AgrepVerdict.BracketsCrash`).
- `bin/agrep/sgrep.c:192-195` turns `^` and `$` into newlines after `prep` has made the filter's tables,
  and `bin/agrep/main.c:981` lets a pattern taken literally (option k) through with them. For every
  such pattern that does not begin with one there is a line within the allowed errors that is not
  printed (`AgrepCarets.LostLine`).
- The final state of bison's augmented machine may be reached by other strings than the start symbol
  and two end-of-files: for the rules S: C y, S: x C z and C: S by x S and two end-of-files
  (`BisonFinal.NestedAccepts`).
- `bin/bison/closure.c:159` gives the indices of the bit matrix in the opposite order from the code.
- `bin/bison/LR0.c:617-632`, the branch for an initial state without shifts in a machine that has
  some, is never taken: the other states are all reached from state 0.
- `bin/ar/archive.c:291` returns before padding an empty member while `archive.c:330` skips a
  padding byte after one with an odd long name. The header after that is read one byte late and
  its magic is not found, so `ar -d` cannot delete such a member unless it is the last
  (`ArDelete.CannotDelete` has an archive of two files).
- `benchmarks/tsp/tsp.c:29-31` prints `path`, not `best_path`; the optimum is in `best_path`.

## Model

| member | source | states |
|---|---|---|
| Positions.NullableIn | bin/awk/b.c:375-415 | the empty word is denoted exactly by the trees `first` reports nullable |
| Positions.BeginsIff | bin/awk/b.c:375-415 | a word is in the language iff its first letter is read at a first position from which the rest completes a word |
| Positions.ContinuesIff | bin/awk/b.c:417-446 | what completes a word after position p is exactly what begins at a follow position of p |
| Positions.LastAfter | bin/agrep/parse.c:185-249 | a position can end a word exactly when it is a last position |
| Positions.FirstMeaning | bin/awk/b.c:375-415 | first positions are exactly the letters that begin words of the linearised tree |
| Positions.AfterMeaning | bin/awk/b.c:417-446 | completing after p is the right quotient of the linearised language by p |
| Positions.FollowMeaning | bin/awk/b.c:417-446 | follow positions of p are exactly the letters that come right after p in some linearised word |
| Climbing.ClimbFollow | bin/awk/b.c:417-446 | the follow set in the whole tree is the one inside any enclosing subtree plus what climbing from it collects |
| Climbing.LeafClimb | bin/awk/b.c:417-446 | climbing from a leaf collects exactly its follow set in the whole tree |
| AwkTree.Penter | bin/awk/b.c:181-203 | leaves get consecutive numbers from left to right, parent pointers lead back up, and the count is returned |
| AwkTree.PenterBoth | bin/awk/b.c:192-198 | the same for CAT and OR nodes |
| AwkTree.NumberedLinear | bin/awk/b.c:181-203 | a tree so numbered uses no position twice |
| AwkTree.PosSet.CollectFirst | bin/awk/b.c:375-415 | adds exactly the first positions to the set and returns 0 iff the subtree is nullable |
| AwkTree.PosSet.CollectFirstCat | bin/awk/b.c:405-407 | the same for a concatenation, whose right part counts only if the left one is nullable |
| AwkTree.PosSet.CollectFirstOr | bin/awk/b.c:408-411 | the same for an alternation |
| AwkTree.PosSet.FollowStep | bin/awk/b.c:417-446 | one level of the climb: what the parent adds and whether to go on |
| AwkTree.PosSet.CollectFollow | bin/awk/b.c:417-446 | adds exactly what climbing from the node collects, terminates, and never steps above the root thanks to the FINAL leaf |
| AwkTree.SetToList | bin/awk/b.c:354-360 | the marked positions as a list from the largest down, each once |
| AwkTree.CfollLeaf | bin/awk/b.c:340-361 | a leaf's row is its symbol and its follow list in the whole tree |
| AwkTree.Cfoll | bin/awk/b.c:334-373 | every leaf below gets the right row and no other row changes |
| AwkRuns.RunAccepts | bin/awk/b.c:745-833 | running the position sets over a word reaches the accept position iff the word completes one from the starting set |
| AwkRuns.SearchCompletes | bin/awk/b.c:126-128 | from the searching start, a text is accepted iff a suffix of it is a word of the pattern |
| AwkRuns.AnchorCompletes | bin/awk/b.c:168-177 | from the anchored start, exactly the words of the pattern are accepted |
| AwkRuns.AnchorInitCompletes | bin/awk/b.c:168-177 | from the anchored state after HAT, a word is accepted iff it is one of the pattern with or without HAT in front |
| AwkRuns.AcceptedIffMatches | bin/awk/b.c:456-473 | some prefix of text·NUL is accepted from the state after HAT iff a factor of HAT·text·NUL is a word of the pattern |
| AwkTable.SoundIff | bin/awk/b.c:811-832 | a sound table stays sound iff the step does not recycle it from state 2 for a state that is not its own successor on the character |
| AwkTable.TakeSet | bin/awk/b.c:465-468 | one step goes to the successor set iff it does not slip |
| AwkTable.RightIff | bin/awk/b.c:464-471 | the machine is in the set of the position automaton after every prefix iff no step slips |
| AwkCalls.BeginConf | bin/awk/b.c:461 | a call begins with both starting states in place, in the state after HAT iff the table was recycled or `initstat` is still its number |
| AwkCalls.MatchIsAccepts | bin/awk/b.c:456-473 | without slips the loop of `match` returns whether some prefix of text·NUL is accepted |
| AwkCalls.ScanIsLongest | bin/awk/b.c:486-507 | without slips the inner loop finds the longest accepted length from an index, a `$` not counted |
| AwkCalls.AtTheEnd | bin/awk/b.c:485-536 | at the end of the text `nematch` stops with the automaton as it is, and `pmatch` makes one more attempt |
| AwkCalls.SearchIsResult | bin/awk/b.c:485-523 | without slips the outer loop finds the leftmost start with a long enough match and its longest length, or there is none |
| AwkCalls.MatchEndOk | bin/awk/b.c:456-473 | after `match` the automaton is ready for the next call |
| AwkCalls.SearchEndOk | bin/awk/b.c:509-522 | after `pmatch` and `nematch` the automaton is ready, and begins right next time iff the table was recycled or it began with the right `initstat` |
| AwkCalls.SmallStep | bin/awk/b.c:811 | with fewer than 32 reachable sets no step overflows the table or slips |
| AwkCalls.SmallMatch | bin/awk/b.c:456-473 | so no call of `match` slips |
| AwkCalls.SmallSearch | bin/awk/b.c:485-523 | nor does a call of `pmatch` or `nematch` |
| AwkMachine.Successor | bin/awk/b.c:760-795 | the list built from the rows is the successor set, largest position first |
| AwkMachine.GatherIsDelta | bin/awk/b.c:764-788 | gathering the follow lists of the leaves that accept c gives exactly the successor positions |
| AwkMachine.Fa.FindState | bin/awk/b.c:796-808 | returns the live state with the given positions, or 0 exactly if there is none |
| AwkMachine.Fa.Append | bin/awk/b.c:817-832 | a new last state with the given positions, an empty row, and the right acceptance; all others unchanged |
| AwkMachine.Fa.StartOver | bin/awk/b.c:153-166 | the table holds only state 2, exactly |
| AwkMachine.Fa.Insert | bin/awk/b.c:817-832 | the successor becomes the last state, with one entry leading to it |
| AwkMachine.Fa.Recycle | bin/awk/b.c:811-832 | a full table is reduced to the new state 2, the character remembered iff it was recycled from state 2; it is exact iff it was not, or the new state is its own successor |
| AwkMachine.Fa.NoteRecycled | bin/awk/b.c:811-825 | the entry written after recycling: remembered if it is in the row of state 2, and the table is exact iff it is not or the state is its own successor |
| AwkMachine.Fa.Cgoto | bin/awk/b.c:745-833 | the state with the true successor set is found, added, or made the new state 2; the entries are exact iff the table is sound; the row of the state changes in one entry unless the table overflows |
| AwkMachine.Fa.MakeSearching | bin/awk/b.c:153-167 | state 2 is the start and the returned state the successor on HAT, in an exact table |
| AwkMachine.Fa.AfterHat | bin/awk/b.c:167 | the state after HAT is 2 or 3, with no other entry made |
| AwkMachine.Fa.LeaveOutZero | bin/awk/b.c:168-177 | position 0 is dropped from the starting states and the saved copy is theirs |
| AwkMachine.Fa.MakeInit | bin/awk/b.c:149-179 | both starting states are in place, in either mode, whatever the table held, and there are no others |
| AwkMachine.Fa.Advance | bin/awk/b.c:465-468 | the cached or computed transition is the step of the table as a value, and the flag of the new state is right |
| AwkMachine.Fa.Begin | bin/awk/b.c:461 | a call begins where `BeginConf` says |
| AwkMachine.Fa.NextStart | bin/awk/b.c:509-522 | the next start is state 2 with the saved starting set, and `initstat` becomes 2 if the table was recycled |
| AwkMatch.TakeText | bin/awk/b.c:462-472 | the loop of `match` from any state: the result and the table left, slips included |
| AwkMatch.MatchRun | bin/awk/b.c:456-473 | the result and the table left are functions of the table before and the text, slips included |
| AwkMatch.Match | bin/awk/b.c:456-473 | the result as such a function; true iff a factor of HAT·text·NUL is a word of the pattern, if no step slips or fewer than 32 sets are reachable |
| AwkMatch.MatchMeaning | bin/awk/b.c:456-473 | the same for every automaton ready for a call, as a statement about values |
| AwkMatch.ScanStep | bin/awk/b.c:487-501 | one character of the inner loop: a match that ends here is noted, and the step taken |
| AwkMatch.ScanOne | bin/awk/b.c:487-501 | the length and the table the scan will come to are the same after one more character |
| AwkMatch.Scan | bin/awk/b.c:486-507 | the length found from one index and the table left, slips included |
| AwkMatch.TryStarts | bin/awk/b.c:483-524 | the outer loop from any state: the outcome and what the automaton keeps, slips included |
| AwkMatch.Search | bin/awk/b.c:475-525 | the same from where a call begins, ready for the next |
| AwkMatch.SpansMeaning | bin/awk/b.c:482-507 | the lengths the machine accepts from an index are the lengths the pattern matches there |
| AwkMatch.ResultMeaning | bin/awk/b.c:485-523 | the leftmost longest accepted span is the leftmost longest match of the pattern, with `^` possible at index 0 or not |
| AwkMatch.BestWithoutHat | bin/awk/b.c:482 | the best match without `^` is the best match iff every match that uses the HAT has one as long at index 0 that does not |
| AwkMatch.CallMeaning | bin/awk/b.c:475-525 | without slips a call returns the best match for the state it began in |
| AwkMatch.CallRight | bin/awk/b.c:475-576 | without slips a call is right iff it began in the state after HAT or the HAT is not needed |
| AwkMatch.SmallCall | bin/awk/b.c:811 | with fewer than 32 reachable sets no call slips |
| AwkMatch.Pmatch | bin/awk/b.c:475-525 | outcome and automaton left as functions of the automaton before and the text; without slips the leftmost longest match or none, iff it began right or the HAT is not needed |
| AwkMatch.Nematch | bin/awk/b.c:527-576 | the same with the leftmost longest non-empty match |
| AwkMatch.Extend | bin/awk/b.c:126-128 | the tree with ALL STAR in front and FINAL behind |
| AwkMatch.Tables | bin/awk/b.c:131-136 | one right row per leaf |
| AwkMatch.AllSetsClosed | bin/awk/b.c:745-833 | the sets of positions are closed under successors, so there is always a bound on the reachable ones |
| AwkMatch.Initial | bin/awk/b.c:138-146 | an automaton for the tree with a fresh table, ready for a call |
| AwkMatch.MkDfa | bin/awk/b.c:119-147 | from a pattern's tree, an automaton for it that is ready for a call |
| AwkLeaves.LeafMatches | bin/awk/b.c:767-771 | a leaf other than an empty class matches a text iff it consumes one character of 256·text·0 |
| AwkLeaves.ClassMatches | bin/awk/b.c:770 | a class of characters matches a text iff one of its characters is in the class |
| AwkLeaves.NotClassMatches | bin/awk/b.c:771 | a negated class matches a text iff one of its characters is not in the class |
| AwkLeaves.DotMatches | bin/awk/b.c:768 | a dot matches every text but the empty one |
| AwkLeaves.CharMatches | bin/awk/b.c:767 | a character matches a text iff it occurs there |
| AwkLeaves.EndsMatch | bin/awk/b.c:767-770 | `^`, `$` and an empty class match every text |
| AwkLeaves.BestUnique | bin/awk/b.c:475-576 | a pattern and a text have only one leftmost longest match |
| AwkLeaves.CaretPlace | bin/awk/b.c:475-525 | the leftmost longest match of `^` is at index 0 with length 0 |
| AwkLeaves.DollarPlace | bin/awk/b.c:475-525 | that of `$` is at the end of the text with length 0 |
| AwkLeaves.ClassPlace | bin/awk/b.c:475-525 | that of a class is the first character of the text in the class |
| AwkFailures.RootRun | bin/awk/b.c:811-825 | the run of the pattern w or cc on 29 letters of w, another character and cc: the step on the first c spoils the table, the next one slips, and `match` returns 0 |
| AwkFailures.RecyclingLosesMatch | bin/awk/b.c:456-473 | with a new automaton for that pattern `match` returns 0 although the pattern matches the text |
| AwkRestarts.ThirdCallMisses | bin/awk/b.c:509-522 | three calls of `pmatch` on the pattern ^x or w: the first recycles the table and overwrites `initstat`, the second rebuilds the table, the third misses `^x`; no step slips |
| AwkSyntax.RegexpSound | bin/awk/b.c:593-679 | what is parsed is a tree of the tokens passed over |
| AwkSyntax.AltParses | bin/awk/b.c:593-679 | every tree of a stretch of tokens is found, if nothing follows that would continue it |
| AwkSyntax.ReparseIff | bin/awk/b.c:578-591 | the parser returns a tree iff the whole token string has it |
| AwkSyntax.TreeUnique | bin/awk/b.c:578-679 | no token string has two trees |
| AwkSyntax.AltCarets | bin/awk/b.c:646-653 | in a token string with a tree a `^` stands only first, after a left parenthesis or after an alternation sign |
| AwkParse.Reparser.Regexp | bin/awk/b.c:593-596 | the nodes built are the tree of the specification, all of them new, or its error |
| AwkParse.Reparser.Primary | bin/awk/b.c:598-644 | the same for a primary: leaf, caret, `()`, a group or an illegal primary |
| AwkParse.Reparser.InParens | bin/awk/b.c:633-639 | the same for what follows a left parenthesis, which must be closed |
| AwkParse.Reparser.Unary | bin/awk/b.c:664-679 | the operators that follow are put on top of the tree |
| AwkParse.Reparser.Concat | bin/awk/b.c:646-653 | the operands that follow are concatenated to the left, unless one fails |
| AwkParse.Reparser.Alt | bin/awk/b.c:655-662 | the same for alternatives |
| AwkParse.Reparser.Reparse | bin/awk/b.c:578-591 | the tree of the whole string, or the error: empty, illegal primary, syntax or lexical |
| AwkParse.MkDfaOf | bin/awk/b.c:119-147 | from the tokens of a pattern a new automaton for their tree, ready for a call, or an error iff they have none |
| AwkVerdict.ReparseVerdict | bin/awk/b.c:578-679 | the parser accepts exactly what one pass over the tokens accepts, and reports the error that pass stops with |
| AwkVerdict.ErrorMeaning | bin/awk/b.c:588-644 | the error is lexical iff the token where the pass stops could not be read, otherwise an illegal primary iff an operand was due there, otherwise a syntax error |
| Repetition.StarIff | bin/awk/b.c:667-669 | a starred tree denotes the concatenations of any number of its words |
| Repetition.PlusIff | bin/awk/b.c:670-672 | with a plus, of one or more |
| AwkLanguage.LeafWords | bin/awk/b.c:767-771 | the words of a symbol: one character, or the empty word for an empty class |
| AwkLanguage.AltIff | bin/awk/b.c:578-679 | the tree of a token string denotes its language: operators repeat or drop words, concatenation joins them, alternation unites, `()` is the empty word and `^` the word 256 |
| AwkLanguage.TokensMatch | bin/awk/b.c:456-473 | the parsed tree matches a text iff a factor of 256·text·0 is a word of the tokens |
| AwkLanguage.ParsedIff | bin/awk/b.c:578-591 | a token string is parsed iff it is an expression |
| AgrepEdit.NearStep | bin/agrep/sgrep.c:320-323 | the edit-distance recurrence over one more text character, as an equivalence |
| AgrepEdit.Pigeonhole | bin/agrep/sgrep.c:205-219 | an edit script of at most d steps leaves one of the d+1 trailing blocks untouched |
| AgrepRows.InitMask | bin/agrep/sgrep.c:182-203 | the pattern's `^` and `$` become newlines; bit j of a character's mask is 0 exactly where the pattern then has it; the end position is the last one |
| AgrepRows.RowZero | bin/agrep/sgrep.c:321 | the row without errors after a character |
| AgrepRows.RowMore | bin/agrep/sgrep.c:322-323 | the row with k errors after a character, from the rows before and the row with k-1 |
| AgrepRows.StartRows | bin/agrep/sgrep.c:311-313 | the first rows stand for an empty text |
| AgrepRows.ForgetRows | bin/agrep/sgrep.c:317-319 | rows of ones, from which the next step makes the rows of a fresh start |
| AgrepRows.NextRows | bin/agrep/sgrep.c:316-323 | after each character bit j of row k is 0 iff the first j+1 pattern characters are within k edits of a suffix of the text since the last newline |
| AgrepFilter.PrepShift | bin/agrep/sgrep.c:214-219 | SHIFT is the least distance from a character to the end of a block that has it, or the block length |
| AgrepFilter.PrepShiftOne | bin/agrep/sgrep.c:224-236 | shift_1 is the least distance at which a block's last character can occur again before a block's end |
| AgrepFilter.CompareWithEnds | bin/agrep/sgrep.c:228-230 | one character compared with the ends of all blocks |
| AgrepFilter.PrepMember | bin/agrep/sgrep.c:237-249 | the hash of every block's end is marked, and nothing else |
| AgrepFilter.Prep | bin/agrep/sgrep.c:205-250 | all three tables |
| AgrepFilter.Skip | bin/agrep/sgrep.c:277-281 | the skip loop stops, inside the buffer, and no block ends in between |
| AgrepFilter.IsMember | bin/agrep/sgrep.c:282-285 | the table entry of the hash of the last characters |
| AgrepFilter.Record | bin/agrep/sgrep.c:286-290 | the windows cover the new place, lose nothing they covered, and stay apart |
| AgrepFilter.Stop | bin/agrep/sgrep.c:282-293 | no block ending before the next place to look is left uncovered |
| AgrepFilter.Candidates | bin/agrep/sgrep.c:269-294 | the windows cover every block in the text and are in order and apart; with the program's buffer they fit the array |
| AgrepFilter.FilterComplete | bin/agrep/sgrep.c:269-294 | every factor within d edits of the pattern lies in one window |
| AgrepScan.SOutput | bin/agrep/sgrep.c:360-375 | the line around a place is printed and the place moves to its end |
| AgrepScan.Report | bin/agrep/sgrep.c:327-333 | a line is printed at its first match only; afterwards all its matches are accounted for |
| AgrepScan.Feed | bin/agrep/sgrep.c:316-324 | a character fed to the rows, and whether a match ends there |
| AgrepScan.Jump | bin/agrep/sgrep.c:324-335 | a match is reported, the rows forgotten, and the scan goes on at the end of its line |
| AgrepScan.Half | bin/agrep/sgrep.c:316-335 | one half of the loop body keeps the rows and the printed lines right |
| AgrepScan.Pair | bin/agrep/sgrep.c:314-355 | both halves, the second possibly beyond the window |
| AgrepScan.ScanWindow | bin/agrep/sgrep.c:305-355 | every line with a match inside the window has been printed |
| AgrepScan.ScanAll | bin/agrep/sgrep.c:301-356 | the same for all windows, each line once and in order |
| AgrepScan.Agrep | bin/agrep/sgrep.c:253-358 | every line printed is within d edits of the pattern with newlines for `^` and `$`, every line with a factor within d edits of both is printed, once each and in order; without `^` and `$` exactly the lines within d edits |
| AgrepCarets.MustPay | bin/agrep/sgrep.c:320-323 | an edit script costs at least the pattern characters that the text does not share |
| AgrepCarets.LosslessIff | bin/agrep/sgrep.c:192-195 | no line within d edits of the pattern is lost iff it has neither `^` nor `$` |
| AgrepCarets.LostLine | bin/agrep/sgrep.c:192-195 | for every pattern with one of them, a buffer whose only line is within d edits of it and not of the pattern the rows look for |
| AgrepCarets.PatternIff | bin/agrep/sgrep.c:182-203 | patterns are 1 to 32 bytes of which the first is not 10 |
| AgrepCarets.NewlinedIff | bin/agrep/sgrep.c:192-195 | every 94 and 36 becomes 10 and nothing else changes; the pattern is unchanged iff it has neither |
| AgrepSyntax.AltShape | bin/agrep/parse.c:257-312 | every derivable token string is balanced, begins with an operand, has a derivable string in each pair of parentheses, and its leaves are numbered consecutively |
| AgrepSyntax.AltUnique | bin/agrep/parse.c:257-312 | no token string has two trees |
| AgrepSyntax.AfterAlt | bin/agrep/parse.c:292-296 | what follows an alternation sign outside parentheses is derivable itself |
| AgrepSyntax.FailsAtBad | bin/agrep/parse.c:267-268 | where no token can be read there is no tree |
| AgrepSyntax.FailsAtEnd | bin/agrep/parse.c:270-274 | at the wrong end there is no tree |
| AgrepSyntax.FailsAtStart | bin/agrep/parse.c:286-293 | an expression that begins with an operator or an end has no tree |
| AgrepSyntax.FailsInside | bin/agrep/parse.c:275-278 | if what is in parentheses has no tree, neither has the whole |
| AgrepSyntax.FailsAfterAlt | bin/agrep/parse.c:292-296 | if what follows an alternation sign has no tree, neither has the whole |
| AgrepVerdict.PassOn | bin/agrep/parse.c:275-278 | one token read on the way out of a parenthesis: the failure is passed on, or the program crashes |
| AgrepVerdict.BracketsCrash | bin/agrep/parse.c:275-278 | the tokens of the pattern `[-[*`, extended as agrep does, make the parser crash |
| AgrepParse.OccursIn | bin/agrep/utilities.c:65-73 | membership in a position set |
| AgrepParse.PsetUnion | bin/agrep/utilities.c:77-98 | the union, without repetition if the operands have none, ending in the second operand |
| AgrepParse.LeafNode | bin/agrep/parse.c:35-55 | a leaf has its own position as first and last and is not nullable |
| AgrepParse.MakeCat | bin/agrep/parse.c:192-204 | nullable, first and last of a concatenation are those of its tree |
| AgrepParse.MakeAlt | bin/agrep/parse.c:241-249 | nullable, first and last of an alternation are those of its tree |
| AgrepParse.Cat2 | bin/agrep/parse.c:185-206 | the two topmost nodes become one concatenation, in the right order |
| AgrepParse.Condense | bin/agrep/parse.c:185-206 | all operands so far become one tree |
| AgrepParse.WrapTop | bin/agrep/parse.c:212-228 | the operator is applied to the last operand; it fails exactly on an empty stack |
| AgrepParse.PushOperand | bin/agrep/parse.c:298-305 | the stack stands for one more operand and holds at most two nodes |
| AgrepParse.Parser.GetToken | bin/agrep/parse.c:131-178 | the next token, with a leaf at the next position for a literal; nothing where none can be read, which is passed over too |
| AgrepParse.Parser.LeaveGroup | bin/agrep/parse.c:278 | after a failure in a parenthesis one more token is read, and the parser crashes iff there is none to read |
| AgrepParse.Parser.CloseGroup | bin/agrep/parse.c:276-285 | what was in parentheses becomes one operand |
| AgrepParse.Parser.ReadGroup | bin/agrep/parse.c:275-285 | a group becomes one operand, or there is no tree and the failure is passed on or crashes |
| AgrepParse.Parser.ReadAlt | bin/agrep/parse.c:292-297 | the rest becomes the other alternative, or there is no tree |
| AgrepParse.Parser.OtherSide | bin/agrep/parse.c:293-296 | what follows an alternation sign becomes the other alternative, or the failure is passed on |
| AgrepParse.Parser.ReadOther | bin/agrep/parse.c:286-306 | a literal or an operator is taken, or there is no tree |
| AgrepParse.Parser.ReadToken | bin/agrep/parse.c:275-306 | any token but an end is taken as the one-pass verdict says, or there is no tree |
| AgrepParse.Parser.Finish | bin/agrep/parse.c:270-274 | at the right end the stack is the whole expression, unless it is empty; at the wrong end there is no tree |
| AgrepParse.Parser.ReadEnd | bin/agrep/parse.c:267-274 | at an end, or where no token can be read, the expression is complete or there is no tree |
| AgrepParse.Parser.ParseRe | bin/agrep/parse.c:257-312 | a tree for the tokens up to the end, with right attributes in every node, exactly when there is one; otherwise null, with as many tokens read as the verdict says, or a crash exactly when one of them cannot be read |
| AgrepParse.Parser.Parse | bin/agrep/parse.c:319-331 | a tree iff the tokens have one, iff the one-pass verdict accepts them, with the end-of-string leaf last; a crash iff a token that cannot be read is among those read on the way out of the parentheses open at the failure; null otherwise |
| AgrepFollow.JoinAll | bin/agrep/follow.c:49-54 | the set of each listed position gains exactly the given set |
| AgrepFollow.MkFollowpos1 | bin/agrep/follow.c:39-79 | every position gains exactly its follow set in the subtree |
| AgrepFollow.MkFollowpos | bin/agrep/follow.c:81-94 | the table of follow sets of the whole tree |
| AgrepFollow.Init | bin/agrep/follow.c:103-112 | for every token string with a tree, and only for those, a table of the follow sets of its tree; when the parser crashes |
| AgrepFollow.DownIsUp | bin/agrep/follow.c:39-94 | an entry of the table is what awk's climb from that leaf collects, and the positions that can come right after it |
| AgrepLanguage.CharLanguage | bin/agrep/parse.c:35-55 | a literal character denotes itself |
| AgrepLanguage.StarLanguage | bin/agrep/parse.c:286-289 | a star after an operand denotes any number of its words one after the other |
| AgrepLanguage.OptLanguage | bin/agrep/parse.c:289-291 | an option adds the empty word |
| AgrepLanguage.GroupLanguage | bin/agrep/parse.c:275-285 | parentheses change nothing |
| AgrepLanguage.ThenLanguage | bin/agrep/parse.c:298-305 | an operand after others: words of the one followed by words of the other |
| AgrepLanguage.BarLanguage | bin/agrep/parse.c:292-297 | an alternation sign unites the words of both sides |
| BisonWarshall.ViaIsReachPlus | bin/bison/warshall.c:51-82 | paths through all intermediate points are all non-empty paths |
| BisonWarshall.OrRow | bin/bison/warshall.c:60-64 | a row gains the bits of another and the rest stays |
| BisonWarshall.TC | bin/bison/warshall.c:29-83 | the matrix becomes its transitive closure |
| BisonWarshall.RTC | bin/bison/warshall.c:89-119 | the matrix becomes its reflexive transitive closure |
| BisonGrammar.InitialClosure | bin/bison/closure.c:220-225 | the closure of the empty kernel is the set of items active before reading |
| BisonGrammar.NextClosure | bin/bison/closure.c:226-243 | the closure of the kernel reached by a symbol is the set of items active after it |
| BisonGrammar.NothingActive | bin/bison/LR0.c:198-238 | if no kernel is reached nothing is active |
| BisonGrammar.DeadStays | bin/bison/LR0.c:198-238 | once nothing is active nothing will be |
| BisonClosure.SetDerives | bin/bison/derives.c:35-74 | each variable's list holds exactly its live rules, in increasing order |
| BisonClosure.SetFirsts | bin/bison/closure.c:160-197 | a bit is set iff the one variable can begin what the other derives |
| BisonClosure.SetFirstsRow | bin/bison/closure.c:178-187 | one row before the closure: the first symbols of the variable's rules |
| BisonClosure.SetFderives | bin/bison/closure.c:100-151 | a bit is set iff the rule can help derive the beginning of the variable |
| BisonClosure.SetFderivesRow | bin/bison/closure.c:121-141 | the same for one row |
| BisonClosure.SetBits | bin/bison/closure.c:128-132 | the rules of a variable are set in a row and nothing else |
| BisonClosure.Ruleset | bin/bison/closure.c:216-243 | exactly the rules that the kernel makes active |
| BisonClosure.MergeRule | bin/bison/closure.c:264-267 | a rule's start goes in after the kernel items before it |
| BisonClosure.Merge | bin/bison/closure.c:245-276 | a strictly increasing list of the kernel's items and the rules' starts |
| BisonClosure.Closure | bin/bison/closure.c:200-281 | the closure of the kernel as a strictly increasing list |
| BisonKernels.CountSymbols | bin/bison/LR0.c:89-102 | how often each symbol occurs as an item |
| BisonKernels.AllocateItemsets | bin/bison/LR0.c:80-122 | one region per symbol, as large as its number of occurrences |
| BisonKernels.KernelFits | bin/bison/LR0.c:104-108 | a kernel is never larger than the number of occurrences of its symbol |
| BisonKernels.KernelMember | bin/bison/LR0.c:218-235 | an item is in the kernel after x iff the item before it is in the list and stands before x |
| BisonKernels.KernelIncreasing | bin/bison/LR0.c:218-235 | kernels of an increasing list are increasing |
| BisonKernels.PutItem | bin/bison/LR0.c:224-233 | an item goes to its own region, inside its bounds, and no other kernel changes |
| BisonKernels.TakeItem | bin/bison/LR0.c:218-235 | one item of the closure taken, its symbol noted once |
| BisonKernels.NewItemsets | bin/bison/LR0.c:198-238 | all kernels of the closure, and the symbols that have one, each once |
| BisonMachine.MachineFollowsItems | bin/bison/LR0.c:152-187 | on every symbol string the state reached has exactly the active items as its closure, and there is none iff nothing is active |
| BisonMachine.ReductionsInOrder | bin/bison/LR0.c:464-488 | after every string the recorded reductions are the rules whose ends are active, in strictly increasing order of these ends, each once |
| BisonMachine.ReductionsFollowItems | bin/bison/LR0.c:449-501 | after every string the recorded reductions are exactly the rules whose end is active |
| BisonMachine.EveryStateReached | bin/bison/LR0.c:152-187 | every state is where some string leads |
| BisonMachine.StateCount | bin/bison/LR0.c:159-179 | there are at most 2^nitems states, which bounds the worklist |
| BisonStates.HashKey | bin/bison/LR0.c:306-311 | the sum of the items modulo 1009 |
| BisonStates.SameItems | bin/bison/LR0.c:320-331 | true iff the kernels are equal |
| BisonStates.InsertSymbol | bin/bison/LR0.c:261-268 | the symbol is put in its place among the sorted ones |
| BisonStates.SortSymbols | bin/bison/LR0.c:259-269 | the same symbols in strictly increasing order |
| BisonStates.Builder.constructor | bin/bison/LR0.c:398-409 | one state with an empty kernel and an empty table |
| BisonStates.Builder.SearchBucket | bin/bison/LR0.c:313-350 | the state with this kernel, or none exactly if no state has it |
| BisonStates.Builder.NewState | bin/bison/LR0.c:359-395 | one more state with this kernel, unless there are too many |
| BisonStates.Builder.GetState | bin/bison/LR0.c:285-353 | the state with the symbol's kernel, new exactly if no state had it; no two states share a kernel |
| BisonStates.Builder.AppendState | bin/bison/LR0.c:271-275 | one target found; it is an old state or gets the next number |
| BisonStates.Builder.AppendStates | bin/bison/LR0.c:246-276 | the targets for all symbols, sorted; new states are numbered in the order of their symbols; it fails only when there are 32767 states and one more kernel |
| BisonStates.FindReductions | bin/bison/LR0.c:464-471 | the rules that end among the items, in the order of the items |
| BisonStates.Builder.SaveReductions | bin/bison/LR0.c:449-501 | the rules that end in the closure are recorded at the end of the chain, in the order of their ends |
| BisonStates.Builder.SaveShifts | bin/bison/LR0.c:412-444 | the targets of one more state and their record, if there are any; it fails only if every closed family of kernels has more than 32767 |
| BisonStates.Builder.TreatState | bin/bison/LR0.c:164-178 | shifts and reductions are complete for one more state |
| BisonStates.Builder.TreatAll | bin/bison/LR0.c:159-179 | the worklist ends with all states treated |
| BisonStates.GenerateStates | bin/bison/LR0.c:152-183 | the LR(0) machine of the grammar with all the properties above, its states numbered in the order they are met; it succeeds iff some family of kernels closed under the symbols has at most 32767 members |
| BisonStates.MachineFamily | bin/bison/LR0.c:159-179 | the kernels of a finished machine are closed under the symbols, and as many as the states |
| BisonStates.TooManyKernels | bin/bison/LR0.c:373-374 | if the construction fails every such family has more than 32767 kernels |
| BisonStates.BornStep | bin/bison/LR0.c:164-178 | after one more state the numbers still follow the order in which states are met: from an earlier state, or from the same one by a smaller symbol |
| BisonUnique.NextSame | bin/bison/LR0.c:285-353 | two such machines that agree on the first n states agree on the next |
| BisonUnique.MachineUnique | bin/bison/LR0.c:152-183 | two such machines of one grammar are equal: states, shifts and reductions |
| BisonAugment.MachineIsPlain | bin/bison/LR0.c:521-534 | what the augmentation relies on holds of every generated machine |
| BisonAugment.AcceptingPath | bin/bison/LR0.c:505-509 | start symbol, end-of-file and one more shift lead from state 0 to the final state |
| BisonPaths.FollowIs | bin/bison/LR0.c:510-677 | where a machine with the three transitions added is on every string, in terms of the machine without them |
| BisonAugment.AugmentedPath | bin/bison/LR0.c:510-677 | the same for the augmented machine: every path of the machine is kept, and the others end with new transitions |
| BisonAugment.FinalReached | bin/bison/LR0.c:505-509 | the final state is reached iff two end-of-files follow a string that leads to the next-to-final state |
| BisonAugment.AugmentedFollowsItems | bin/bison/LR0.c:510-677 | an item is active after a string iff the augmented machine is then in an old state and the item in its closure |
| BisonFinal.SameStateIff | bin/bison/LR0.c:285-353 | two strings that lead anywhere lead to the same state iff the same items are active after them |
| BisonFinal.FinalItems | bin/bison/LR0.c:505-509 | the final state is reached by u and two end-of-files iff u is the start symbol or has its active items |
| BisonFinal.NestedAccepts | bin/bison/LR0.c:505-509 | a grammar for which another string than the start symbol does |
| BisonAugment.Automaton.InsertStartShift | bin/bison/LR0.c:683-704 | one state for the start symbol and its shift, at the end of the chain |
| BisonAugment.Automaton.FindStart | bin/bison/LR0.c:527-536 | finds the state reached by the start symbol, exactly if there is one |
| BisonAugment.Automaton.ShiftEof | bin/bison/LR0.c:540-578 | only that state's vector changes, by a first entry; the chain stays increasing |
| BisonAugment.Automaton.PutStart | bin/bison/LR0.c:591-601 | the vector with the new shift where the start symbol belongs |
| BisonAugment.Automaton.ShiftStart | bin/bison/LR0.c:582-645 | only the vector of state 0 changes |
| BisonAugment.Automaton.AddStart | bin/bison/LR0.c:580-650 | all is prepared but the final states |
| BisonAugment.Automaton.AddFinal | bin/bison/LR0.c:652-676 | two more states and one more shift |
| BisonAugment.Automaton.Prepare | bin/bison/LR0.c:519-650 | the start symbol leads from state 0 to a next-to-final state, old or new; all is prepared but the final states |
| BisonAugment.Automaton.AugmentAutomaton | bin/bison/LR0.c:510-677 | the old transitions and three new ones, chains increasing, vectors sorted by accessing symbol |
| BisonAugment.Generate | bin/bison/LR0.c:152-187 | the machine of the grammar and its augmented form |
| AwkSymtab.Hash | bin/awk/tran.c:232-239 | the 32-bit hash modulo the size |
| AwkSymtab.HashClosed | bin/awk/tran.c:232-239 | the hash is the sum of the characters times powers of 31, modulo 4294967296 and then the size |
| AwkSymtab.FiledInsert | bin/awk/tran.c:224-226 | a new cell at the head of its bucket extends the map by its name |
| AwkSymtab.FiledRemove | bin/awk/tran.c:187-198 | a cell taken out of its bucket removes its name from the map |
| AwkSymtab.MoveCell | bin/awk/tran.c:253-255 | one cell goes to the head of its new chain |
| AwkSymtab.MoveBucket | bin/awk/tran.c:251-256 | the cells of one more bucket are in the new table, each put at the head of its chain |
| AwkSymtab.MoveAll | bin/awk/tran.c:250-257 | the new table holds the same map, its chains in the reverse of the order in which the cells were met |
| AwkSymtab.Symtab.constructor | bin/awk/tran.c:139-152 | an empty map |
| AwkSymtab.Symtab.Lookup | bin/awk/tran.c:263-273 | the cell of the name, or null exactly if it is not in the map |
| AwkSymtab.Symtab.Rehash | bin/awk/tran.c:241-261 | the map is unchanged, in a table four times as large whose chains are the cells in reverse order, or in the same one without memory |
| AwkSymtab.Symtab.Enter | bin/awk/tran.c:221-226 | one more name, at the head of its chain, with the load at most 2 if there is memory; the table grows exactly if it held twice its size |
| AwkSymtab.Symtab.Setsymtab | bin/awk/tran.c:202-230 | the cell there is and nothing changed, or a new one with the given values entered |
| AwkSymtab.Symtab.Position | bin/awk/tran.c:186-188 | where the name is in its chain, or nowhere exactly if it is not in the map |
| AwkSymtab.Symtab.Remove | bin/awk/tran.c:187-198 | a cell taken out of its chain and of the map |
| AwkSymtab.Symtab.Freeelem | bin/awk/tran.c:179-200 | the name is removed from the map, its cell from its chain, and nothing else |
| ArFormat.FieldBack | bin/ar/archive.c:125-129 | a number is read back from its field |
| ArFormat.DecodeMade | bin/ar/archive.c:152-193 | the header made for a file decodes to its numbers and its name, or the length of its long name |
| ArLayout.ShortLayout | bin/ar/archive.h:92 | a short name stands first; date, owner, group, mode in octal and size begin at 16, 28, 34, 40 and 48, blanks after each; bytes 58 and 59 are a grave accent and a newline |
| ArLayout.LongLayout | bin/ar/archive.h:91 | a long name is replaced by #1/ and its length, which is added to the size |
| ArLayout.ReadableIff | bin/ar/archive.c:150-193 | a header can be read iff it has 60 bytes, ends in a grave accent and a newline, does not begin with a blank and, after #1/, has a length from 1 to 255 |
| ArLayout.FieldRead | bin/ar/archive.c:125-129 | a number is read after any white space, with its sign, up to the first other character |
| ArLayout.NoNumber | bin/ar/archive.c:125-129 | a blank field, or a sign without a digit, is read as 0 |
| ArLayout.FitsIff | bin/ar/archive.h:91-92 | a number fits a field of w digits iff it is less than the base to the power w |
| ArLayout.CanWriteIff | bin/ar/archive.c:212-252 | the files that can be written, in numbers |
| ArLayout.ImageLayout | bin/ar/archive.c:250-318 | after the header come a long name, the contents, and a newline if the member is not empty and its length odd |
| ArLayout.ImageEven | bin/ar/archive.c:282-318 | a member has an even length iff it is not empty with an odd long name |
| ArLayout.SampleHeader | include/ar.h:59-68 | one header of 60 bytes written out, with the file it is written for and what is read from it |
| ArMembers.GetImage | bin/ar/archive.c:136-195 | a member is read back wherever it stands, and copying it ends at the next header |
| ArMembers.MembersBack | bin/ar/archive.c:136-195 | any list of members is read back as it was written |
| ArMembers.FilesBack | bin/ar/archive.c:204-265 | files written to an archive are read back with their names, sizes, metadata and bytes |
| ArEdit.Files | bin/ar/misc.c:98-112 | the first argument that names the member is removed |
| ArNames.RnameAfterSlash | bin/ar/misc.c:122-129 | only what follows the last slash counts |
| ArNames.NamesExactly | bin/ar/misc.c:131-140 | an argument names the members with its last component |
| ArNames.NamesTruncated | bin/ar/misc.c:131-140 | with truncated names, the members that agree with it in their first 15 characters |
| ArNames.SelectedOne | bin/ar/misc.c:98-112 | one argument selects the first member it names and no other |
| ArNames.PathSelects | bin/ar/misc.c:98-140 | a path selects the first member called like its last component |
| ArEdit.SelectionSplits | bin/ar/misc.c:98-112 | every member is selected or not, and none is lost |
| ArEdit.SelectionCounts | bin/ar/delete.c:79-87 | one member is selected per argument found |
| ArEdit.SplitMeaning | bin/ar/move.c:95-115 | the selected members in order, and the others cut before or after the key; the key is missing iff no unselected member has its name |
| ArEdit.MovePermutes | bin/ar/move.c:95-115 | the three parts together are a permutation of the members |
| ArEdit.KeySide | bin/ar/move.c:103-110 | the key is first after the moved members, or last before them, as the option asks |
| ArEdit.MoveReadsBack | bin/ar/move.c:122-139 | the archive after a move reads as the three parts |
| ArDelete.LateHeader | bin/ar/archive.c:152-154 | a header read one byte late is a bad format |
| ArDelete.SkipReadsOn | bin/ar/archive.c:291-333 | after skipping a member what is read is what is read after copying it, unless it is empty with an odd long name and not the last, when it is a bad format |
| ArDelete.DeleteExact | bin/ar/delete.c:79-87 | on an archive that can be read the loop ends with exactly the unselected members kept iff no selected member but the last is empty with an odd long name, and otherwise at a bad format |
| ArDelete.KeptReadsBack | bin/ar/delete.c:89-95 | whatever the archive, if the loop ends the result reads as the members kept |
| ArDelete.CannotDelete | bin/ar/delete.c:79-87 | an archive of two files that can be read, but from which the first cannot be deleted |
| ArCommands.CopyBlocks | bin/ar/archive.c:296-307 | all bytes are copied, or it is reported how many are missing |
| ArCommands.CopyAr | bin/ar/archive.c:282-318 | bytes and padding as the flags say; it fails exactly when they are not there |
| ArCommands.Ar.GetArobj | bin/ar/archive.c:136-195 | the header at the position, the end, or a bad format |
| ArCommands.Ar.PutArobj | bin/ar/archive.c:250-264 | the member's image goes to the end of the other file, if it is all there |
| ArCommands.Ar.SkipArobj | bin/ar/archive.c:325-333 | the position after the contents and the padding byte, also backwards; a seek to before the beginning fails |
| ArCommands.MoveOne | bin/ar/move.c:96-114 | the member goes to its part |
| ArCommands.MoveRound | bin/ar/move.c:95-115 | one more member read and placed, or the end, or a bad format |
| ArCommands.Rejoin | bin/ar/move.c:122-139 | the parts follow the magic and nothing else does |
| ArCommands.Move | bin/ar/move.c:69-147 | the archive becomes the three parts, unless the key is missing or the format bad, when it is unchanged |
| ArCommands.DropOrKeep | bin/ar/delete.c:80-86 | the member is skipped or copied as the walk over the bytes says |
| ArCommands.DeleteRound | bin/ar/delete.c:79-87 | one round of the loop is one step of the walk, its ends included |
| ArCommands.Delete | bin/ar/delete.c:65-103 | the members the walk keeps are left, on every archive; where the walk fails the archive is unchanged and the failure reported |
| ArCommands.OpenArchive | bin/ar/archive.c:103-110 | an archive is opened iff it begins with the eight bytes of the magic |
| ArCommands.MoveCommand | bin/ar/move.c:69-147 | from opening the archive on, with the program's decoder and comparison: it reads as the three parts, or is unchanged if the key is missing or the format bad; the exit status |
| ArCommands.DeleteCommand | bin/ar/delete.c:65-103 | from opening the archive on, with the program's decoder and comparison: exactly the unselected members are read back iff no selected member but the last is empty with an odd long name; otherwise a bad format and no change; the exit status |
| TspSearch.Search.Present | benchmarks/tsp/tsp.c:58-66 | whether the town is on the path so far |
| TspSearch.PrefixShorter | benchmarks/tsp/tsp.c:41 | pruning is safe: a path is no longer than any that extends it |
| TspSearch.RowSearched | benchmarks/tsp/tsp.c:48-54 | when all towns of a row have been tried, so have all ways to go on |
| TspSearch.Search.TakeRoad | benchmarks/tsp/tsp.c:49-53 | one more town tried |
| TspSearch.Search.Enter | benchmarks/tsp/tsp.c:42 | one more path of this length is counted |
| TspSearch.Search.GoTo | benchmarks/tsp/tsp.c:51-52 | the path with one more town is searched |
| TspSearch.Search.Tsp | benchmarks/tsp/tsp.c:37-56 | the bound is at most every tour with the current beginning, and attained if it improved; every extension shorter than the new bound has been gone into, and no other than those shorter than the old one |
| TspSearch.Solve | benchmarks/tsp/tsp.c:18-26 | the smaller of the bound and the shortest path through all towns from town 0, with a path that attains it if it improved; the counts of the different beginnings gone into, by length |

## Left out

- awk: `relex`, escapes and character classes, which only produce the tokens the model starts from; the cache of compiled patterns (`makedfa`); memory, the growth of `setvec`, and characters above 127 in classes, which `member` compares as signed.
- AwkMachine.Fa.Cgoto: the entry for HAT of an anchored state 2 keeps the successor of the searching one; the drivers never read it, and the invariant is about the other characters there.
- agrep's approximate search: counting, silent and file-name-only modes, `num_of_matched` (it can count a line twice), reading by blocks in `sgrep`, and the other search functions of the file.
- AgrepScan.Agrep: patterns are up to 32 bytes and do not begin with a newline, which `sgrep` makes of a `^` or `$` there. The text is one buffer that ends in a newline and has the sentinel `sgrep` puts behind it, so lines cut by the block size are not covered.
- AgrepCarets.LosslessIff: the pattern has no newline but possibly its last character, where `sgrep` puts one for a final `^` or `$`.
- AgrepParse.Parser.GetToken: characters are already grouped into tokens, so sets and escapes are data, and so is what is read after a place where no token can be read.
- AgrepFollow.Init: neither `extend_re` nor the copy of the table into a 32 by 32 array is modelled.
- The trees and cells that the parsers and tables build once and never change are values; memory is never released and allocation succeeds, except in `Rehash`.
- bison: words of bits are Boolean rows, vectors ended by -1 are sequences, linked chains of states, shifts and reductions are sequences in order; reading grammars, look-ahead, conflicts and output are not modelled.
- BisonStates.GenerateStates: that state numbers fit a short is checked as in the code, but the three states the augmentation adds after the last check are not limited.
- ar: option parsing, locking, temporary files, times, `extract`, `print`, `replace` and truncated names on writing; reads and writes are complete, as `copy_ar` assumes.
- ArFormat.DecodeMade: asks that the numbers fit their fields, the name is at most 255 long and is the last component of a path.
- TspSearch.Search.Tsp: lengths and counts are unbounded integers.
- awk's interpreter, field splitting and printf, arpd, the C headers and the other benchmarks: input and output, or easy.
