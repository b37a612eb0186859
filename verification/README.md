# System V commands: matchers, archives, merges, indexes and calendars

This project models eleven algorithms of the System V commands in Dafny and proves what they are for. Each source file
has its own modules. Code that changes state is written as methods over classes and arrays and is tied to a
specification function or to a predicate; the theorems are about those specifications.

| source | modules | what is proved |
|---|---|---|
| usr/src/cmd/awk/b.c | `AwkRegex`, `AwkFollow`, `AwkDfa`, `AwkFlush` | The follow sets that `cfoll` computes give an automaton for the language of the parse tree; `cgoto` keeps the 16-slot table of transitions exact, except when a flush recycles the slot it is leaving, and it is said exactly when that happens; while the table is exact `match`, `pmatch` and `nematch` find what they promise, and for expressions with a small family of reachable states that is always. |
| usr/src/head/regexp.h | `EdCode`, `EdMatch`, `EdClass`, `EdCompile`, `EdPattern` | `compile` translates the text of a pattern into code, and `step` on that code reports the first start with a match and the preferred match there, or that there is none, or does not end, and it is said exactly when. Captures that backtracking leaves behind do no harm. |
| usr/src/cmd/cpio/cpio.c | `CpioFormat`, `CpioIo`, `Cpio` | What the OUT loop writes in records, the IN loop reads back, for both header formats, any record size and any pattern of short reads. |
| usr/src/cmd/join.c | `Join` | The merge loop ends for any two files, and for sorted ones it outputs their join: each pair once, each line without a partner once, all in the order of the keys. |
| usr/src/cmd/frec.c | `FrecTape`, `FrecRing`, `FrecWork`, `FrecOrder`, `Frec`, `FrecFile` | Logical blocks come off the tape in order; the work list stays a sorted doubly linked ring; recovery ends on every tape, and what it writes, reports and leaves is what the files lead to. Nothing is lost exactly when no two blocks that come up one after the other are the same one, and then each block of a file is written once at its own place. |
| usr/src/cmd/bfs/bfs.c | `Bfs` | `bigread` returns the line that is asked for, whichever lines were read before, exactly for files in which no line but the last is too long to be counted. |
| usr/src/cmd/acct/acctmerg.c | `Acctmerg` | The merge of sorted streams has one record for each key, in order, which is the sum of all records with that key; the running total is that of all input. |
| usr/src/cmd/cflow/dag.c | `DagWalk`, `Dag` | The listing of any graph, cyclic or not, ends, expands every node that can be reached once, cites it elsewhere, and has the shape of the graph. |
| usr/src/cmd/awk/tran.c, usr/src/cmd/awk/run.c | `AwkSymtab` | Hash chains with move-to-front are a plain map; a for-in loop visits each name that was there once. |
| usr/src/cmd/bbh/dconv.c, usr/src/cmd/cal.c | `Calendar`, `Cal` | Day numbers and dates correspond one to one for all years, and the page of `cal` has every date in the column of its weekday. |
| usr/src/cmd/newform.c | `Tabs`, `Newform` | Expanding what was contracted gives the line again, and no shorter line would do. `inputtabs` in its work area expands a line exactly when its output never reaches what is still to be read. What a line expands to depends on the memory behind the specification exactly when it has a tab there. |

`CStrings` (strings that end with NUL, `strcmp`), `Bytes`, `Numbers` and `Sequences` (a sequence with one element more or
less) are shared.

## Findings

Some things the code does not do, each with the exact condition or a concrete input.

- awk (usr/src/cmd/awk/b.c:740-757): the transition that `cgoto` stores after a flush goes into the row of the recycled
  slot when it came from slot 2, the slot that is taken first. `AwkDfa.Fa.Recycles` is the condition, which can be tested
  before the call, and `AwkDfa.Fa.Cgoto` says that an exact table stays exact if and only if it does not hold.
  `AwkFlush.Missed` goes through all turns of `pmatch` for the expression aa|bb|cc|... of 14 to 26 words and the subject
  abcdefghijklmnn: no match is reported, although nn is one. An expression for which there is a family of at most 15
  position sets with the start sets in it, closed under all bytes, never comes to that (`AwkDfa.Fa.NeverFull`).
- cpio (usr/src/cmd/cpio/cpio.c:1083-1092 and 955-971): an archive of no files cannot be read back, as the link count of
  its trailer is 0 and the header is taken for a bad one (`Cpio.EmptyArchive`); a binary archive of less than 76 bytes ends
  before the reader has looked at its first header (`Cpio.ShortArchive`). A member named TRAILER!!! ends the archive for
  the reader (usr/src/cmd/cpio/cpio.c:676): what is read back is the list up to such a member (`Cpio.RoundTrip`).
- bfs (usr/src/cmd/bfs/bfs.c:27, 80, 242 and 287-298): the length of a line is stored as a short. A line of 32767 bytes or
  more that is stepped over leads to a wrong place, which may be in front of the file (`Bfs.LongLine`). All reads after all
  histories are right if and only if no line but the last is so long (`Bfs.RightExactly`).
- bfs (usr/src/cmd/bfs/bfs.c:309-324): of a line of more than 512 bytes `bigread` returns the first 512, as for a file of
  one such line (`Bfs.CutLine`). Reads are of whole lines if and only if none of the lines is longer (`Bfs.WholeExactly`).
- frec (usr/src/cmd/frec.c:439-455): `Vrecover` rewinds only for a block in front of the one read last. A node with the
  number of the one read last is looked for behind it, and is reported as lost, or the tape ends and the program with it.
  Of two files of one block that share it only the one requested last is written (`FrecFile.SharedBlockFiles`). Nothing
  is lost if and only if each block is found behind the one in front of it (`FrecFile.RunFlawless`): within a reel, no two
  neighbours in the order of the run have one number (`FrecOrder.GoodMeans`). That is so when no block is shared
  (`FrecFile.UnsharedIsFlawless`) and never so when two inodes have an address in common (`FrecFile.SharedIsFlawed`).
- frec (usr/src/cmd/frec.c:802-812): `size` is counted down by blocks present. A direct block up to the last one gets its
  right count if and only if it is not the last one, or the last one is full, or no hole is in front of it
  (`FrecFile.DirectBytes`). For a file of a hole and part of a block a whole block is written (`FrecFile.BehindHole`).
- cflow (usr/src/cmd/cflow/dag.c:248-249): `addlink` does not count the link of a node to itself, so that a node that only
  calls itself is still a root; nodes on a cycle that nothing else calls are not listed, as they cannot be reached from a
  root (`Dag.Graph.Print`). Nothing at all is listed if and only if every node is called by another one
  (`Dag.NothingListed`), as for two functions that call each other (`Dag.Mutual`).
- acctmerg (usr/src/cmd/acct/acctmerg.c:115-116): a record with an empty name hides all that comes behind it in its stream
  (`Acctmerg.LiveExactly`). The merge is one of all records if and only if no name is empty (`Acctmerg.StreamsExactly`).
  Of two records of which the first has none, the other one is neither in the output nor in the total (`Acctmerg.Hidden`).
- newform (usr/src/cmd/newform.c:704): the loop of `inputtabs` steps over the zero that ends a tab specification and goes on
  in the memory behind it. A tab there expands to what it finds (`Tabs.TabBehind`). What a line without backspaces expands
  to is the same for all memories with the specification if and only if it has no such tab (`Tabs.MemoryMatters`).
- newform (usr/src/cmd/newform.c:690-726): nothing keeps the output of `inputtabs` behind what is still to be read; spaces
  that go beyond replace it (`Newform.Overtaken`), and then all that comes out are spaces, without the newline. What comes
  out is what the line expands to if and only if each part of the line expands to at most 512 characters more than it has
  (`Newform.Form.Inputtabs`, `Newform.WrittenExactly`, `Newform.KeepsMeans`). With a stop beyond the middle of the work area
  a tab and two letters come out as spaces alone (`Newform.Form.Damaged`).
- regexp.h (usr/src/head/regexp.h:436-447): a starred back-reference that stands for an empty text makes `advance` go on for
  ever; that is the outcome `Loops`. The pattern `\(a*\)\1*` does so on the empty line (`EdMatch.EmptyGroupLoops`). A search
  goes on for ever if and only if a way to such a reference is tried before all ways to match (`EdCode.LoopsExactly`), and
  never when each group with a starred reference takes a character (`EdMatch.SteadyNeverLoops`).

## Model

| member | source | states |
|---|---|---|
| AwkRegex.PenterKeepsLanguage | usr/src/cmd/awk/b.c:133-156 | Numbering the leaves does not change the language of a tree |
| AwkRegex.StarMeans | usr/src/cmd/awk/b.c:264-299 | A star stands for any number of words one after the other, cut at ascending places |
| AwkRegex.PlusMeans | usr/src/cmd/awk/b.c:264-299 | A plus stands for one such word at least |
| AwkRegex.NullableMeans | usr/src/cmd/awk/b.c:253-284 | `first` returns 0 exactly for the trees whose language has the empty word |
| AwkRegex.FirstMeans | usr/src/cmd/awk/b.c:253-317 | A run through the table from the leaves that `first` collects, over any text, exists exactly when a word of the subtree can be read and the run goes on from its follow set |
| AwkRegex.LoopMeans | usr/src/cmd/awk/b.c:294-299 | The same for the loops of `*` and `+`: going round is reading another word |
| AwkRegex.EntryMeans | usr/src/cmd/awk/b.c:264-317 | The same with the empty word taken into account, as `[]` and `()` are |
| AwkFollow.First | usr/src/cmd/awk/b.c:253-284 | setvec gains the first set of the tree and no more; the result says whether the empty word is out |
| AwkFollow.Follow | usr/src/cmd/awk/b.c:286-317 | setvec gains the leaves that can come behind a node, found through the parent pointers |
| AwkFollow.Scan | usr/src/cmd/awk/b.c:237-238 | A bit vector becomes a descending list of exactly its members |
| AwkFollow.Cfoll | usr/src/cmd/awk/b.c:218-251 | The rows of all leaves below a node hold their symbol and follow set, and other rows are left alone |
| AwkFollow.StepsAccept | usr/src/cmd/awk/b.c:692-714 | Stepping a set of positions accepts exactly when some position has an accepting run |
| AwkFollow.AnchoredMeans | usr/src/cmd/awk/b.c:118-128 | From the anchored start set the texts accepted are exactly the words of the expression |
| AwkFollow.FreeMeans | usr/src/cmd/awk/b.c:61-64 | From the free start set the texts accepted are exactly those that end with a word, with no NUL in front of it |
| AwkFollow.UnanchoredCorrect | usr/src/cmd/awk/b.c:54-131 | Stepping the start set over HAT, the subject and NUL accepts after some prefix exactly when a substring of it is a word, for every tree and every subject without NUL |
| AwkFollow.AnchoredCorrect | usr/src/cmd/awk/b.c:96-131 | Stepping the anchored start set from byte j accepts after a length exactly when there is a match of that length at j, where `^` may come before byte 0 |
| AwkFollow.ClassFinds | usr/src/cmd/awk/b.c:700-704 | A class matches at each of its characters, with length 1, and is found in a subject if and only if one of them is there |
| AwkFollow.OthersFind | usr/src/cmd/awk/b.c:700-704 | A class with `^` matches at each other byte of the subject, and nowhere else |
| AwkFollow.DotFinds | usr/src/cmd/awk/b.c:700-704 | A dot matches at each byte of the subject, and is found if and only if there is one |
| AwkFollow.CharFinds | usr/src/cmd/awk/b.c:700-704 | A character matches where it is, and nowhere else |
| AwkFollow.EndsFind | usr/src/cmd/awk/b.c:692-714 | `^` matches in front of byte 0 only, `$` behind the last byte only, and `[]` the empty text everywhere |
| AwkFollow.HatStart | usr/src/cmd/awk/b.c:117-128 | What `makeinit` puts into its two states in anchored mode is the set a scan begins in |
| AwkDfa.MakeTable | usr/src/cmd/awk/b.c:54-71 | `makedfa` fills the table of the whole tree, ALL STAR in front and FINAL behind |
| AwkDfa.Fa.constructor | usr/src/cmd/awk/b.c:86-93 | The new automaton is ready: an exact table with its start states |
| AwkDfa.Fa.MakeInit | usr/src/cmd/awk/b.c:96-131 | The automaton is restarted with an exact table, the start set and in anchored mode its copy in slot 0 |
| AwkDfa.Fa.Cgoto | usr/src/cmd/awk/b.c:685-766 | The state returned holds exactly the successor set; what changes in the table is told slot by slot; an exact table stays exact if and only if the call does not recycle the source slot |
| AwkDfa.Fa.Successors | usr/src/cmd/awk/b.c:692-724 | The list made for a state and a symbol is that of the successor set |
| AwkDfa.Fa.Lookup | usr/src/cmd/awk/b.c:725-738 | An old state with the same list is found if there is one |
| AwkDfa.Fa.AddState | usr/src/cmd/awk/b.c:740-765 | The next slot, or after a flush slot 2, takes the new state with its accepting bit |
| AwkDfa.Fa.Step | usr/src/cmd/awk/b.c:387-390 | A step by the cache or by `cgoto` leads to the successor set |
| AwkDfa.Fa.NeverFull | usr/src/cmd/awk/b.c:725-743 | While the live slots hold different members of a family of at most 15 position sets that no byte leads out of, no new state needs a flush, and the successor is in the family |
| AwkDfa.TwoLeavesFit | usr/src/cmd/awk/b.c:725-743 | Anchored expressions with at most two leaves have such a family |
| AwkDfa.Fa.Match | usr/src/cmd/awk/b.c:329-360 | True exactly when the subject contains a word of the expression, unless a write was misplaced in this call, which does not happen when the family given with the expression is small and closed |
| AwkDfa.Fa.ScanFrom | usr/src/cmd/awk/b.c:374-405 | The longest match at one byte, the terminator counting as a character |
| AwkDfa.Fa.NextIn | usr/src/cmd/awk/b.c:406-420 | Back to the anchored start set in slot 2, rebuilt from slot 0 after a flush |
| AwkDfa.Fa.TakeByte | usr/src/cmd/awk/b.c:384-391 | One turn of the inner loop: the new length, the next state, and what becomes of the table, with room or by a flush |
| AwkDfa.Fa.Pmatch | usr/src/cmd/awk/b.c:362-423 | The least start with a match and the longest match there, or that there is none, also across flushes; under the same condition |
| AwkDfa.Fa.Nematch | usr/src/cmd/awk/b.c:425-476 | The least start with a nonempty match and the longest one there, or that there is none; under the same condition |
| AwkFlush.PairsMean | usr/src/cmd/awk/b.c:54-93 | The language of the example is the words with one of n letters twice |
| AwkFlush.TableIs | usr/src/cmd/awk/b.c:218-317 | The rows that the example is compiled to: a letter leads to its second leaf, and that to the end |
| AwkFlush.AfterLetter | usr/src/cmd/awk/b.c:692-714 | Behind one letter of the example the same letter and no other leads to acceptance |
| AwkFlush.AllDifferent | usr/src/cmd/awk/b.c:725-738 | The states behind the letters are new and all different |
| AwkFlush.Spoil | usr/src/cmd/awk/b.c:740-757 | An expression and the calls after which the table is wrong: the state behind a letter leads to itself on that letter and not to acceptance |
| AwkFlush.SampleMatches | usr/src/cmd/awk/b.c:362-423 | The only match of the example in its subject is that of the last letter with itself |
| AwkFlush.Missed | usr/src/cmd/awk/b.c:362-423 | All turns of `pmatch` for that subject: no match is reported, although there is one |
| EdCode.SpanMeans | usr/src/head/regexp.h:450-478 | How far a starred or counted operation can go is exactly how many characters in a row it accepts |
| EdCode.CountAllows | usr/src/head/regexp.h:493-499 | In lines of up to 20000 characters a counted operation takes at least its lower and at most its upper bound of characters, where 255 is no bound |
| EdCode.ChoicesMean | usr/src/head/regexp.h:308-478 | The ends that one operation may have are exactly those that its meaning allows |
| EdCode.TryPrefers | usr/src/head/regexp.h:299-491 | The backtracking search finds the preferred way to match, longer repetitions first; it fails only when there is no way, and goes on for ever only at a starred reference to an empty text that is tried before all ways |
| EdCode.LoopsExactly | usr/src/head/regexp.h:436-447 | A search goes on for ever exactly when a way to a starred reference to an empty text is tried before all ways to match, and fails exactly when there is neither such a way nor a match |
| EdMatch.TryAgree | usr/src/head/regexp.h:247-253 | Captures that are set before they are used do not influence the search, whatever backtracking left in them |
| EdMatch.TestIsHas | usr/src/head/regexp.h:331-348 | The test of a byte against an operand in the code is membership in the class |
| EdMatch.Matcher.ScanStar | usr/src/head/regexp.h:450-478 | The scan of a starred operation goes one past the first character refused |
| EdMatch.Matcher.ScanLow | usr/src/head/regexp.h:361-363 | The first scan of a counted operation succeeds exactly when enough characters are there |
| EdMatch.Matcher.ScanSize | usr/src/head/regexp.h:364-369 | The second scan goes as far as the count and the characters allow |
| EdMatch.Matcher.GetRnge | usr/src/head/regexp.h:493-499 | The two bytes of a count as the number required and the number more, 255 standing for 20000 |
| EdMatch.Matcher.Ecmp | usr/src/head/regexp.h:426-447 | The captured text stands at the place |
| EdMatch.Matcher.ScanBacks | usr/src/head/regexp.h:440-441 | How many copies of the captured text follow one another |
| EdMatch.Matcher.Straight | usr/src/head/regexp.h:312-356 | The operations without a choice, with their effect on the captures |
| EdMatch.Matcher.Descend | usr/src/head/regexp.h:480-487 | The loop that tries the rest of the code from the longest end down is the search down those ends |
| EdMatch.Matcher.Advance | usr/src/head/regexp.h:299-491 | The loop and its recursion compute the search on the operations the code encodes, set loc2, and change only captures that these operations open or close |
| EdMatch.Matcher.FastFails | usr/src/head/regexp.h:276-288 | A start with another first character fails, so that the fast check loses nothing |
| EdMatch.Matcher.FastStep | usr/src/head/regexp.h:276-288 | The first start at which the code matches, by the fast check |
| EdMatch.Matcher.PlainStep | usr/src/head/regexp.h:289-296 | The same by the regular algorithm |
| EdMatch.Matcher.Step | usr/src/head/regexp.h:266-297 | The outcome is that of the first start, or with `^` of the first byte, which does not fail |
| EdMatch.StepMeans | usr/src/head/regexp.h:266-297 | A start succeeds exactly when there is a way to match, and ends where the preferred way does |
| EdMatch.EmptyGroupLoops | usr/src/head/regexp.h:436-447 | A pattern and a subject for which the search goes on for ever |
| EdMatch.SteadyNeverLoops | usr/src/head/regexp.h:436-447 | When some operation in each group with a starred reference takes a character, the search ends on every subject |
| EdMatch.NeverLoops | usr/src/head/regexp.h:436-447 | So it does without starred references, from any start and with any captures |
| EdClass.PlaceHolds | usr/src/head/regexp.h:154-160 | PLACE adds one character to the set that a bitmap holds |
| EdClass.FlipMeans | usr/src/head/regexp.h:168-178 | Complementing a byte of the bitmap exchanges the members |
| EdClass.Element | usr/src/head/regexp.h:129-161 | One element of a bracket adds its characters, or the range that it ends |
| EdClass.CompileClass | usr/src/head/regexp.h:114-182 | The bitmap of a bracket holds exactly the characters that it names, or for `[^` the others except NUL |
| EdClass.MembersMean | usr/src/head/regexp.h:129-161 | The members of a bracket are the characters that it names, those of its ranges with both ends, and a dash at its end |
| EdCompile.Number | usr/src/head/regexp.h:208-219 | The number in a count, and the error when it is greater than 255 |
| EdCompile.ValueMeans | usr/src/head/regexp.h:208-219 | The digits of a number in a count are the decimal ones of its value |
| EdCompile.Count | usr/src/head/regexp.h:203-237 | Both bounds of a count, and its errors |
| EdCompile.StarCase | usr/src/head/regexp.h:102-106 | A star patches the operation before it, or is a character |
| EdCompile.CountCase | usr/src/head/regexp.h:203-237 | A count patches the operation before it and adds its bounds |
| EdCompile.BracketCase | usr/src/head/regexp.h:114-182 | A bracket adds its operation |
| EdCompile.GroupCase | usr/src/head/regexp.h:187-201 | Groups are numbered as they open and closed innermost first, or it is an error |
| EdCompile.RefCase | usr/src/head/regexp.h:246-253 | A reference to the number of a group that as many groups as that have been closed for, or an error |
| EdPattern.OneToken | usr/src/head/regexp.h:86-262 | Every token of a pattern extends the code by its operation or gives its error |
| EdPattern.Compile | usr/src/head/regexp.h:41-264 | The code is that of the operations which the tokens of the text assemble to, up to the delimiter or newline, or the error is the one that they give |
| EdPattern.CompiledIsBalanced | usr/src/head/regexp.h:187-201 | In compiled code every group is opened before it is closed and closed before it is referred to |
| EdPattern.WayIsParse | usr/src/head/regexp.h:299-491 | A way to match the parts of a pattern is a way to match its operations |
| EdPattern.CountMeans | usr/src/head/regexp.h:493-499 | The same of a counted part of the pattern |
| EdPattern.CountTexts | usr/src/head/regexp.h:203-237 | A character with a count is taken exactly m times, at least m times, or m to n times; a number above 255 is error 11, and n below m error 46 |
| EdPattern.GroupErrors | usr/src/head/regexp.h:187-200 | A group that is not closed or not open is error 42, a tenth one error 43, a reference to none error 25 |
| EdPattern.Search | usr/src/head/regexp.h:41-297 | Compiling a text and stepping over a subject: loc1 is the first start with a way to match, loc2 the end of the preferred way; failure means there is no way at any start; the search goes on for ever only where a starred reference to an empty text comes before all ways to match, and never when the groups of starred references take a character |
| EdPattern.OneReport | usr/src/head/regexp.h:266-297 | Of the three reports at most one is right |
| CpioFormat.MkShortIsPortable | usr/src/cmd/cpio/cpio.c:33-36 | The high half of a long comes first, in either byte order |
| CpioFormat.MkLongBack | usr/src/cmd/cpio/cpio.c:174-183 | `mklong` undoes MKSHORT |
| CpioFormat.BinaryBack | usr/src/cmd/cpio/cpio.c:979-989 | The shorts of a binary header are read back |
| CpioFormat.OctalBack | usr/src/cmd/cpio/cpio.c:651-654 | A number printed in octal with a fixed width is read back |
| CpioFormat.AsciiScanned | usr/src/cmd/cpio/cpio.c:647-666 | `chartobin` reads the header that `bintochar` prints |
| CpioFormat.FixedBack | usr/src/cmd/cpio/cpio.c:972-1003 | The fixed part of a header is recognized exactly when it passes the checks of `hdck` |
| CpioFormat.HeadBack | usr/src/cmd/cpio/cpio.c:966-1050 | A header with its name and alignment byte is read as what was written |
| CpioFormat.AsciiLayout | usr/src/cmd/cpio/cpio.c:647-654 | The places and widths of the eleven fields of an ASCII header, digit by digit |
| CpioFormat.BinaryLayout | usr/src/cmd/cpio/cpio.c:71-84 | The places of the thirteen shorts of a binary header, byte by byte in both byte orders |
| CpioFormat.MemberLayout | usr/src/cmd/cpio/cpio.c:342-369 | The places of header, name, NUL and contents of a member, and its size with the bytes that make both parts even |
| CpioFormat.MembersAre | usr/src/cmd/cpio/cpio.c:1083-1092 | Which files can be in an archive: the bounds of links, size and name that the reader checks |
| CpioFormat.TrailerText | usr/src/cmd/cpio/cpio.c:379 | The name of the trailer |
| CpioIo.Writer.Bwrite | usr/src/cmd/cpio/cpio.c:1094-1145 | The bytes, rounded up for binary archives, are appended to the stream, of which whole records are out |
| CpioIo.Reader.Bread | usr/src/cmd/cpio/cpio.c:852-938 | The next bytes of the stream are returned and the rest is kept, whatever the reads return; or the buffer is filled and the expansion area left alone |
| CpioIo.Reader.Rstbuf | usr/src/cmd/cpio/cpio.c:1058-1076 | What is left moves in front of Cbuf, more is read behind it, and the stream stays the same |
| CpioIo.Reader.FillTo | usr/src/cmd/cpio/cpio.c:968-971 | As many bytes as are wanted are in one piece, and the stream stays the same |
| CpioIo.Reader.Locate | usr/src/cmd/cpio/cpio.c:961-1003 | The header found is the one that the stream begins with |
| CpioIo.Reader.Synch | usr/src/cmd/cpio/cpio.c:948-1051 | The header and name at the front of the stream, and the stream behind them |
| CpioIo.Reader.ReadData | usr/src/cmd/cpio/cpio.c:411-447 | The contents of a member, and the stream behind its padding |
| Cpio.WriteHead | usr/src/cmd/cpio/cpio.c:345-361 | Header and name are written in the form that is read |
| Cpio.WriteData | usr/src/cmd/cpio/cpio.c:362-370 | The contents are written with one byte of padding if need be |
| Cpio.CopyOut | usr/src/cmd/cpio/cpio.c:338-390 | The records written begin with all members and the trailer |
| Cpio.CopyOne | usr/src/cmd/cpio/cpio.c:399-447 | One turn of the IN loop reads one member |
| Cpio.CopyIn | usr/src/cmd/cpio/cpio.c:392-463 | The IN loop reads the members up to the trailer |
| Cpio.RoundTrip | usr/src/cmd/cpio/cpio.c:338-463 | Reading back a written archive gives the same members in order; its length is computed from the members and the record size, and it can be read exactly when that is at least 76 |
| Cpio.EmptyArchive | usr/src/cmd/cpio/cpio.c:1083-1092 | An archive of no files is rejected |
| Cpio.ShortArchive | usr/src/cmd/cpio/cpio.c:955-971 | The smallest binary archives are shorter than what the reader waits for |
| CStrings.LessMeans | usr/src/cmd/join.c:226-230 | Strings are in the order of a dictionary: behind a common part the first one has ended, or has the smaller character |
| Join.MergedIsJoin | usr/src/cmd/join.c:112-148 | What the loop outputs for sorted files is their join: every pair with equal keys once, in the order of file 1 and then of file 2, with -a every line without a partner once, and all in the order of the keys |
| Join.Merge.Run | usr/src/cmd/join.c:112-148 | The loop ends for any two files with the output of the specification, and with the join for sorted ones |
| Join.Merge.Groups | usr/src/cmd/join.c:123-147 | Two groups of lines with equal keys, file 2 being read again for each line of file 1 |
| Join.Merge.FirstLine | usr/src/cmd/join.c:124-128 | The first line of a group is joined with the group of file 2 |
| Join.Merge.OtherLines | usr/src/cmd/join.c:132-146 | The other lines of the group, up to the last rewind |
| FrecRing.Ring.Find | usr/src/cmd/frec.c:965-966 | The first node whose block number is not smaller, or the head |
| FrecRing.Ring.Addnod | usr/src/cmd/frec.c:954-975 | The ring with one node more, in front of the first whose number is not smaller |
| FrecRing.Ring.Delnode | usr/src/cmd/frec.c:978-988 | The ring without that node, which is still sorted and doubly linked |
| FrecWork.WorkIsChildren | usr/src/cmd/frec.c:532-571 | An indirect block that can be read leads to what the nodes made for its words lead to |
| FrecWork.ChildrenWeight | usr/src/cmd/frec.c:407-424 | The nodes made for an indirect block weigh less than its own |
| FrecOrder.BesideWhole | usr/src/cmd/frec.c:965-972 | A node made while another is at the cursor comes to be in front of it or behind it, where `addnod` puts it |
| FrecOrder.RunBalance | usr/src/cmd/frec.c:399-426 | What a run writes, what the nodes it reports lead to and what those it leaves lead to make up what the list leads to |
| FrecOrder.FlawlessExactly | usr/src/cmd/frec.c:399-456 | A run reports and leaves nothing exactly when each node is found where the one in front of it leaves the tape |
| FrecOrder.GoodMeans | usr/src/cmd/frec.c:439-455 | Within the reel that is so exactly when each block can be read and no two neighbours have one number |
| FrecOrder.OnceEach | usr/src/cmd/frec.c:439-455 | It is so when no block occurs twice among those that the list leads to |
| FrecOrder.TwinsNeverGood | usr/src/cmd/frec.c:439-455 | It is never so when two nodes of the list have one number |
| FrecOrder.SharedBlock | usr/src/cmd/frec.c:439-455 | Of two data blocks with one number only the first is written |
| Frec.Recovery.Scan | usr/src/cmd/frec.c:443-455 | Reading forward comes to the block, or gives up at the end of the reels or the file system, or the tape ends |
| Frec.Recovery.Find | usr/src/cmd/frec.c:435-456 | The search for a block from where the last one was read, with the rewind |
| Frec.WordsBack | usr/src/cmd/frec.c:522-542 | The addresses in an indirect block are those whose bytes it holds, the most significant one first |
| Frec.Recovery.Ptrblk | usr/src/cmd/frec.c:522-573 | A node for every word that is not zero, up to the last block of the file, each where the order wants it while the block itself is in the ring |
| Frec.Recovery.Turn | usr/src/cmd/frec.c:407-424 | A turn of the loop is the next step of the run over the list, and the measure goes down |
| Frec.Recovery.Recover | usr/src/cmd/frec.c:399-426 | The loop ends on every tape; what is written, reported and left is that of the run over the list |
| FrecFile.Saveblks | usr/src/cmd/frec.c:751-844 | The nodes of the file are entered in the list; a triple indirect file is refused |
| FrecFile.SinglePart | usr/src/cmd/frec.c:814-822 | The single indirect block of an intact file leads to its blocks once each |
| FrecFile.DoublePart | usr/src/cmd/frec.c:823-831 | So does the double indirect one |
| FrecFile.EachBlockOnce | usr/src/cmd/frec.c:751-844 | An intact file leads to exactly one write for each block that is not a hole, at its own index, and to no other |
| FrecFile.DirectBytes | usr/src/cmd/frec.c:802-812 | The byte count of a direct block is right if and only if it is not the last block, or that one is full, or no hole is in front of it |
| FrecFile.BehindHole | usr/src/cmd/frec.c:802-812 | A file of a hole and part of a block leads to one write, of a whole block |
| FrecFile.RecoverFiles | usr/src/cmd/frec.c:399-426 | From the inodes and the tape to what is written and reported: that of the run for these files |
| FrecFile.RunFlawless | usr/src/cmd/frec.c:399-456 | Nothing is reported or left exactly when each block is found behind the one in front of it |
| FrecFile.RunConserves | usr/src/cmd/frec.c:399-426 | Whatever the tape, what was written, reported and left make up what the files lead to |
| FrecFile.UnsharedIsFlawless | usr/src/cmd/frec.c:399-456 | When no block occurs twice among those of the files, each can be read on the reel and none is the one read last, nothing is lost |
| FrecFile.SharedIsFlawed | usr/src/cmd/frec.c:439-455 | When two addresses in the inodes are the same, something is lost on every tape |
| FrecFile.SharedBlockFiles | usr/src/cmd/frec.c:439-455 | Of two files of one block that share it only the one requested last is written |
| FrecFile.RunIsExact | usr/src/cmd/frec.c:751-844 | In a run that loses nothing each block of an intact file is written once, at its own place, and nothing else |
| FrecTape.Tape.Getblk | usr/src/cmd/frec.c:990-1033 | The next logical block of the tape, also across tape blocks, or the exit exactly when the last whole tape block ends first |
| FrecTape.Tape.Blocks | usr/src/cmd/frec.c:990-1046 | The k-th block behind `clrbuf` is bytes k times the size of what follows |
| Calendar.DatesAre | usr/src/cmd/bbh/dconv.c:49-81 | The dates that there are, from the number of days in each month, the leap years and the gap |
| Calendar.GapDays | usr/src/cmd/bbh/dconv.c:370-382 | The numbers of 2 and 14 September 1752, a Wednesday and a Thursday |
| Calendar.Consecutive | usr/src/cmd/bbh/dconv.c:91-148 | Consecutive dates have consecutive numbers, across September 1752 and all leap rules |
| Calendar.OrdinalOrder | usr/src/cmd/bbh/dconv.c:91-148 | Numbers are in the order of dates |
| Calendar.SameOrdinal | usr/src/cmd/bbh/dconv.c:91-148 | No two dates have the same number |
| Calendar.ToDay | usr/src/cmd/bbh/dconv.c:91-148 | The number of a date, or -1 exactly when it is not one or its year is greater than the cap |
| Calendar.DoLeap | usr/src/cmd/bbh/dconv.c:272-307 | Year and day of the year in a Julian calendar |
| Calendar.Do100 | usr/src/cmd/bbh/dconv.c:316-331 | The same in a calendar of common centuries |
| Calendar.Do400 | usr/src/cmd/bbh/dconv.c:340-369 | The same with the rule of 400 years |
| Calendar.FindYear | usr/src/cmd/bbh/dconv.c:182-244 | The year of a day, the day in it and the table of its months |
| Calendar.ToDate | usr/src/cmd/bbh/dconv.c:156-263 | A valid date with the given number, for every positive number |
| Calendar.BackAndForth | usr/src/cmd/bbh/dconv.c:91-263 | `to_day` and `to_date` undo each other on all dates and all numbers |
| Cal.Jan1 | usr/src/cmd/cal.c:195-226 | The day of the week of New Year's Day is the one dconv gives |
| Cal.YearMod | usr/src/cmd/cal.c:146-167 | The weekdays of two New Year's Days tell the length of the year |
| Cal.Lengths | usr/src/cmd/cal.c:142-167 | The month lengths chosen are those of the year |
| Cal.FirstColumn | usr/src/cmd/cal.c:168-170 | The column of the first of the month is its weekday |
| Cal.ColumnIsWeekday | usr/src/cmd/cal.c:171-187 | The column in which a date belongs is weekday(to_day(date)), and six rows are enough |
| Cal.FirstPlace | usr/src/cmd/cal.c:168-171 | The first of the month stands in the first row, three characters further for each day since Sunday |
| Cal.NextPlace | usr/src/cmd/cal.c:172-187 | The next date stands three characters further, or at the beginning of the next row |
| Cal.Month | usr/src/cmd/cal.c:135-188 | Every date of the month stands in that column, and the buffer is left alone elsewhere |
| AwkSymtab.ComputeHash | usr/src/cmd/awk/tran.c:182-190 | The loop computes the hash of a name |
| AwkSymtab.HashMeans | usr/src/cmd/awk/tran.c:182-190 | The hash is the value of the name as a number to the base 31, modulo 50 |
| AwkSymtab.Table.Lookup | usr/src/cmd/awk/tran.c:192-212 | What the map has for a name; the map stays the same though the chain may be reordered, and not even that inside a for-in loop |
| AwkSymtab.Table.Setsymtab | usr/src/cmd/awk/tran.c:152-180 | The cell of the name, or the map with a new one |
| AwkSymtab.Table.Freeelem | usr/src/cmd/awk/tran.c:129-150 | The map without the name |
| AwkSymtab.Bucket | usr/src/cmd/awk/run.c:1183-1199 | The cells of one chain that were there are visited once each |
| AwkSymtab.Instat | usr/src/cmd/awk/run.c:1168-1203 | Every name that was there at the beginning is visited exactly once, or at most once if the loop is broken off, though the body reads and adds elements |
| Bfs.LineAt | usr/src/cmd/bfs/bfs.c:298-329 | Where a line begins is the sum of the lengths before it |
| Bfs.Browser.Bigopen | usr/src/cmd/bfs/bfs.c:217-265 | The index: the length of every line as a short holds it, and block and offset of every 64th; too many lines are refused |
| Bfs.Browser.Seek | usr/src/cmd/bfs/bfs.c:287-300 | Whichever of the four ways is taken, block and offset are the place that the stored lengths lead to |
| Bfs.LandsRight | usr/src/cmd/bfs/bfs.c:287-298 | From a right place they lead to a right place, when no line but the last is too long for a short |
| Bfs.RightExactly | usr/src/cmd/bfs/bfs.c:287-298 | The place is right after every history of reads if and only if no line but the last is too long |
| Bfs.LongLine | usr/src/cmd/bfs/bfs.c:242-298 | Behind a first line that is too long the place is in front of the file, and what is read is part of that line |
| Bfs.Browser.NextByte | usr/src/cmd/bfs/bfs.c:309-328 | The next byte of the file, through the one-block cache |
| Bfs.Browser.Bigread | usr/src/cmd/bfs/bfs.c:278-329 | The line asked for, cut off if it is too long, when the place is right; position and cache are right again afterwards |
| Bfs.Browser.Readlines | usr/src/cmd/bfs/bfs.c:278-329 | Any reads one after the other: each record is the right line as long as the places are right |
| Bfs.WholeExactly | usr/src/cmd/bfs/bfs.c:309-324 | The records of these reads are whole lines if and only if none of the lines has more than 512 bytes |
| Bfs.CutLine | usr/src/cmd/bfs/bfs.c:309-324 | A file of one line with more than 512 bytes, whose end is not returned |
| Acctmerg.AddAssoc | usr/src/cmd/acct/acctmerg.c:152-166 | Adding records up is associative, with the wrap-around of the counts |
| Acctmerg.TotalCounts | usr/src/cmd/acct/acctmerg.c:152-166 | The total of each count is the plain sum, modulo its word |
| Acctmerg.TotalTimes | usr/src/cmd/acct/acctmerg.c:152-166 | The total of each time and usage is the plain sum, field by field |
| Acctmerg.SumMeans | usr/src/cmd/acct/acctmerg.c:131-150 | The record of a group has the user of its first record and the total of all of them |
| Acctmerg.KeysMean | usr/src/cmd/acct/acctmerg.c:109-144 | Records are of one group by number and, but for -u, by name, and groups are ordered by number, then by name |
| Acctmerg.TotalPop | usr/src/cmd/acct/acctmerg.c:137-138 | A record taken from a stream is one less in the total of what is left |
| Acctmerg.SumUpTotal | usr/src/cmd/acct/acctmerg.c:131-150 | Summing a group moves its records out of the streams, none lost and none counted twice, of all records in front of an empty name |
| Acctmerg.SumsGroup | usr/src/cmd/acct/acctmerg.c:131-150 | For sorted streams and the least record, the sum is that of all records with its key, and these and no others are gone |
| Acctmerg.GroupDone | usr/src/cmd/acct/acctmerg.c:99-100 | After each group the output is in order and right for all keys it has, and what is left comes behind |
| Acctmerg.Merge.Getnext | usr/src/cmd/acct/acctmerg.c:179-208 | The next record of a stream becomes the current one |
| Acctmerg.Merge.Getleast | usr/src/cmd/acct/acctmerg.c:109-125 | The first of the least current records, or none when all streams have ended |
| Acctmerg.Merge.Sumcurr | usr/src/cmd/acct/acctmerg.c:131-150 | The sum of the group is put out and added to the running total |
| Acctmerg.Merge.Run | usr/src/cmd/acct/acctmerg.c:95-103 | For sorted streams the output has one record for each key, in strictly increasing order, which is the sum of all records with that key; the total is that of all records, sorted or not; each stream goes as far as its first empty name |
| Acctmerg.LiveExactly | usr/src/cmd/acct/acctmerg.c:115-116 | What is merged of a stream is all in front of its first empty name, and the whole stream if and only if there is none |
| Acctmerg.StreamsExactly | usr/src/cmd/acct/acctmerg.c:95-116 | All records of all files are merged if and only if no name is empty |
| Acctmerg.Hidden | usr/src/cmd/acct/acctmerg.c:115-116 | A file of two records, the first without a name: the second is neither in the output nor in the total |
| DagWalk.MarkCounts | usr/src/cmd/cflow/dag.c:276 | A visit raises the number of nodes visited by one and the number of their links by those of the node |
| DagWalk.WalkedOn | usr/src/cmd/cflow/dag.c:279-286 | What holds of two walks one after the other |
| DagWalk.Marked | usr/src/cmd/cflow/dag.c:264-276 | The line that expands a node keeps all lines right |
| DagWalk.Cited | usr/src/cmd/cflow/dag.c:268-271 | So does one that cites it |
| DagWalk.AllReached | usr/src/cmd/cflow/dag.c:278-286 | When all links of visited nodes lead to visited nodes, everything that can be reached is visited |
| Dag.PutTree | usr/src/cmd/cflow/dag.c:189-199 | A node put where the search for its name ended can be found, and the others still can |
| Dag.ChunkedMore | usr/src/cmd/cflow/dag.c:227-250 | A link put into the next place of the chunks extends the list of links |
| Dag.Graph.Getnode | usr/src/cmd/cflow/dag.c:180-217 | The node with a name, or a new one without links at the end |
| Dag.Graph.Findlink | usr/src/cmd/cflow/dag.c:227-237 | Whether there is such a link, or the place for it |
| Dag.Graph.Addlink | usr/src/cmd/cflow/dag.c:219-252 | The list of links with one more unless it was there; no link is there twice and every node counts who else links to it |
| Dag.WalkIsWalked | usr/src/cmd/cflow/dag.c:254-287 | A walk from a node reaches everything new behind it, expands it once, and its lines show the node with its links one level in |
| Dag.Graph.Dfs | usr/src/cmd/cflow/dag.c:254-287 | The recursion ends on every graph and is the walk |
| Dag.RootsMean | usr/src/cmd/cflow/dag.c:71-76 | The roots are, in the order of the nodes, those that no other node links to |
| Dag.ListingOf | usr/src/cmd/cflow/dag.c:71-76 | The walks from all roots make a listing: the nodes expanded are those that can be reached, with one line for each root and each link of an expanded node |
| Dag.Graph.Print | usr/src/cmd/cflow/dag.c:71-76 | The listing of the whole graph; all lines are numbered, and every citation is of the earlier line that expands the node |
| Dag.NothingListed | usr/src/cmd/cflow/dag.c:71-76 | The listing is empty if and only if every node is called by another one |
| Dag.Mutual | usr/src/cmd/cflow/dag.c:248-249 | Two functions that call each other, and an empty listing |
| Tabs.NotLonger | usr/src/cmd/newform.c:763-805 | A contracted line is not longer, whatever the line and the stops |
| Tabs.RoundTrip | usr/src/cmd/newform.c:690-805 | Expanding a contracted line gives the line, for any increasing stops from 1, any line without tabs and backspaces and whatever is behind the specification |
| Tabs.RoundTripBack | usr/src/cmd/newform.c:690-805 | The same with backspaces, for a line whose columns are in front of the last stop |
| Tabs.ExpandedNext | usr/src/cmd/newform.c:703-726 | Each character is put out as it is, and each tab as the spaces up to the first stop behind the column reached, where a backspace is a column less |
| Tabs.MemoryMatters | usr/src/cmd/newform.c:704-726 | What a line without backspaces expands to depends on the specification alone exactly when no tab of it is behind the last stop |
| Tabs.TabBehind | usr/src/cmd/newform.c:704 | A line with such a tab, and two memories for which it expands differently |
| Tabs.Shortest | usr/src/cmd/newform.c:763-805 | No line whose tabs lead to those stops and that expands to the same is shorter |
| Newform.Form.Center | usr/src/cmd/newform.c:213-237 | The line is moved to the middle of the work area, or it is too long |
| Newform.Form.Outputtabs | usr/src/cmd/newform.c:763-805 | The line in the work area is contracted in place |
| Newform.KeepsMeans | usr/src/cmd/newform.c:690-726 | The output never reaches what is still to be read exactly when each part of the line expands to at most so many characters more than it has |
| Newform.Overtaken | usr/src/cmd/newform.c:713-719 | Spaces that go beyond what was read: the rest of the line stays what it is exactly when it was spaces |
| Newform.WrittenExactly | usr/src/cmd/newform.c:690-726 | What the loop writes is what the line expands to, and ends with its newline, if and only if the output never reaches what is still to be read |
| Newform.WrittenLeaves | usr/src/cmd/newform.c:703-726 | The turns of the loop in the work area leave just that in front, also when the reader is overtaken |
| Newform.Form.Inputtabs | usr/src/cmd/newform.c:690-726 | Any line whose output stays in the work area: what comes out in front of it, which is the line expanded, with its newline, if and only if the output never reaches what is still to be read; too long a line is refused |
| Newform.Form.Damaged | usr/src/cmd/newform.c:690-726 | With a stop far away a tab and two letters come out as spaces alone, without the newline |
| Newform.Form.OutAndIn | usr/src/cmd/newform.c:591-642 | The options -o and -i with one specification one after the other give the line in the work area again |

## Left out

- Command lines, messages, signals, opening of files and the other surroundings of every command.
- Integers are unbounded except where their width matters: the counts of accounting records, the fields of cpio headers, the stored lengths of lines in bfs and the bytes of patterns. Times and usage in accounting records are reals.
- awk: `relex` and the parser, the caches of compiled expressions in the callers, and freeing of memory. A tree has leaves with a character, a class as the list of its members, or one of the special symbols; classes are already expanded as by `cclenter`. The trees are those with less than MAXLIN positions: a state with MAXLIN of them would be written beyond the end of `tmpset` (usr/src/cmd/awk/b.c:43, 718-724).
- AwkDfa.Fa.Match: for expressions without a small closed family it says nothing of a call in which a transition was written into a recycled row, which `faults` counts; what the code answers then depends on what was there, as in `AwkFlush.Missed`.
- AwkDfa.Fa.Pmatch: the same.
- AwkDfa.Fa.Nematch: the same.
- regexp.h: `locs` is null, characters are unsigned, and 255 as an upper bound of a count is no bound, as in the code, so that a count of 255 has none either. A count before any other token is a character there and is not one of the tokens here. Counts on groups and references are not tokens.
- EdPattern.Compile: says which code comes out when the buffer has room for it with 34 bytes to spare; closer to its end the code answers with error 50 at a point that depends on the operation.
- EdPattern.Search: for patterns without references to groups that are still open. The code itself only compares the number of a reference with how many groups have been closed, and would read a capture that was not set.
- EdMatch.Matcher.Advance: a search that does not end is an outcome of its own, and the method returns it at once.
- cpio: reel changes, short writes, read errors and the resynchronization of -k, links, renaming, swapping and extraction to files. A header whose octal digits are malformed is taken for a bad header. Running out of input ends the model where the reader would ask for another reel.
- join: the splitting of lines into fields and the output format; a line is its key and its text. Keys are compared as unsigned characters.
- frec: the mounting of tapes and further reels (a block of another reel ends the run, as it does for a dump of one reel), finc tapes, on which `Frecover` looks blocks up in a list first, the reading of the inodes, making of files and directories, triple indirect blocks, and errors of the files that are written. Addresses are not negative, and their most significant byte comes first.
- FrecFile.UnsharedIsFlawless: a sufficient condition on the blocks alone; a block may be shared harmlessly when it comes up in different rounds through the list, and `FrecFile.RunFlawless` has the exact condition on the order of the run.
- bfs: all but opening and reading a file, which is supposed to end with a newline.
- acctmerg: the ASCII form of records. Names are compared whole, as they have at most eight characters.
- dag: the reading of input, nodes named on the command line, and `n_next`, which links the nodes in the order in which they were made. Pointers to nodes and chunks are numbers in that order, so that a node is spread over sequences by field.
- Dag.Graph.Print: when lvmax is smaller than the number of nodes the walk may be cut off, and then only the lines themselves are said to be right.
- newform: the other options, the reading of tab specifications and of lines.
- Newform.Form.Inputtabs: for lines whose output stays in the work area, as those for which it never reaches what is still to be read always do; the code does not look at its end, and what is written beyond it is not part of this model.
- cal: the frame around the months, and dconv's conversions to times.
