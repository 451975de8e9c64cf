# A verified model of lex.cpp

lex.cpp compiles a list of lex patterns into a table-driven C scanner. This project models that compiler and the
scanner it emits, and proves that together they do what POSIX.1-2017 asks of `lex` (Shell & Utilities, `lex` utility,
EXTENDED DESCRIPTION): the longest match, ties to the earlier rule, `^` and `$` at line ends only.

The stages, one module or more each:

| stage | modules | source |
|---|---|---|
| languages denoted by regexes | `Bytes`, `Languages`, `Regex` | `src/regex.hpp` |
| pattern text to tree | `RegexText`, `RegexAtoms`, `RegexGrammar`, `RegexParser`, `RegexReadback`, `RegexLocality`, `AtomReads`, `Slash`, `SlashTokens`, `MacroReads`, `PatternParser`, `SlashCases` | `src/regex.cpp` |
| trees to one NFA | `NfaGraph`, `Fragments`, `RuleNfa`, `Thompson` | `src/nfa.cpp` |
| byte equivalence classes | `Eclass` | `src/eclass.cpp` |
| subset construction | `SortedSets`, `Closure`, `Subset` | `src/dfa.cpp` |
| comb packing | `Comb` | `src/dfa.cpp` |
| tables and `YY_TRANSITION` | `ScanTables` | `src/codegen.cpp` |
| the emitted matching loops | `Matching`, `Scanner`, `Trailing`, `Reject` | `src/codegen.cpp` |
| the buffer and the run | `Runs`, `Runtime` | `runtime/runtime.c.in`, `src/codegen.cpp` |
| the table file and its loader | `TableBytes`, `TableFile`, `TableLoader` | `src/tables.cpp`, `src/codegen.cpp` |
| all of it | `Pipeline` | `src/main.cpp` |

What is modelled of `src/codegen.cpp` is the C program its strings spell out, not the printing.

The specification has three parts. `Regex.Meaning` gives a tree its set of words, and `Regex.Marks` the words after
which an r/s marker may stand. `RegexGrammar` says by an inductive relation which tree a text stands for. `Matching`
and `Pipeline.PosixPick` say which rule and length the words call for. The code appears as methods over the same
mutable state as in the source. Each stage has one interface predicate (`PatternParser.ReadAs`, `RuleNfa.NfaFor`,
`Subset.DfaFor`, `ScanTables.Implements`, `Runs.Walk`) that its builder establishes and the next stage uses.

## Where the code departs from the plain statement

* The slash of r/s is looked for by a scan that leaves a class at the first bracket that is not escaped
  (`src/regex.cpp:389-394`), while the parser takes a leading `]` and the `]` of `[:name:]` as part of the class
  (`src/regex.cpp:249-256`). `Slash.SlashAt` is the slash by the grammar: the first one that stands for itself, outside
  bracket expressions, quoted strings, escapes and parentheses. `Slash.LeavesIffNeat` shows that the scan leaves a
  bracket expression where it ends iff no unescaped bracket stands before its end, `Slash.RightIffArrives` exactly when
  the slash found is the grammar's, and `Slash.FoundIsSlash`, bracket expression by bracket expression, that the
  slash found is the grammar's in every source whose bracket expressions are all crossed, that is, hold no slash for
  the scan and leave it as it was. Those without such a bracket are (`NeatCrossed`), and so are some others, such as
  `[[:alpha:]_]` (`SlashCases.AlphaLineCrossed`). For a slash right after a bracket expression the condition is exact
  (`FoundIffCrossed`). Where it fails, `[]/]` and `[[:alpha:]/]` are refused though the grammar derives them
  (`SlashClassRefused`, `AlphaSlashRefused`), and `[](]/b` is accepted with its trailing context read as text to be
  matched (`LostTailAccepted`). `PatternParser.Derives` is what the grammar gives a source, `ReadAs` what the code
  makes of it; `ParsePattern`, `ParseRules` and `CompileText` speak of both.
* In r/s a $ at the end of s calls for a newline after it, except where s begins with ^: there the code does not see the
  $ (`src/regex.cpp:411-427`), so `a/^b$` is read as `a/b`. `Regex.TailWords` says so, and `Regex.LowerMeaning` that
  this is exactly what the lowered rule asks for.
* A macro definition that ends in a lone backslash stands for nothing, since the backslash takes the parenthesis that
  the driver puts after it (`src/main.cpp:286-290`). Every other one stands for what it derives by itself
  (`MacroReads.MacroStandsFor`).
* An NFA edge with an empty byte set is an epsilon edge (`src/dfa.cpp:23`), so an empty class matches the empty word.
  `Regex.Effective` is the tree in effect compiled. `Regex.EffectiveIffNonempty` shows that every part of a tree is
  compiled to what it denotes exactly when no class in it is empty. For the whole tree that check is sufficient and not
  necessary (`Regex.FaithfulWithEmptyClass`); in any case matches are only added (`Regex.EffectiveContains`). The
  comparisons with `Meaning` in `Pipeline` ask only that whole bodies are compiled to what they denote;
  `Pipeline.EmptyClassExample` is a pattern and an input for which the scanner takes a token and POSIX lex would not.
  `ScanTables.Implements` has no such hypothesis.
* The plain loop tests only the longest `$` match for the line end (`src/codegen.cpp:586-589`).
  `Matching.PlainIffNotHidden` gives the exact condition under which it still obeys the lexing rule,
  `Matching.NewlineFreeHidesNothing` a check on the patterns that ensures it, `Pipeline.HiddenEolExample` a rule and an
  input for which it fails. The REJECT loop needs no condition.
* A token that its trailing context leaves empty clears yy_at_bol, even at a line beginning (`src/codegen.cpp:658`), and
  consumes nothing. `Runs.WalkBol` says exactly when yy_at_bol means a line beginning; `Runs.Stuck` that the scanner
  then stays where it is for ever, unless an action changes the condition; `Runs.EmptyHeadExample` is the rule `x*/b`
  before "b". It cannot happen if no r of an r/s rule matches the empty word (`Runs.NeverCleared`), which can be read
  off the pattern (`Trailing.HeadCheck`); then every run ends (`Runtime.Lexer.Run`, `Pipeline.LexAll`).
* `yy_text_seal` loses the saved byte when yytext is already sealed: `Runtime.Lexer.TextSeal` states exactly when,
  `Runtime.SealTwice` is a case. Nothing in the repository calls it.
* The table loader reads the number of rules and the layout flag from the file and compares neither.
  `TableLoader.Takes` says which files it takes, of either layout: a scanner with packed tables takes no dense file
  (`PackedTakesNoDense`), one with dense tables takes a packed file iff the integer found where the number of
  conditions is expected happens to be that number and integers enough follow (`DenseTakesPacked`). So it is for the
  scanner of the rules `a` and `a?`, whose dense tables are overwritten by the file of its packed ones
  (`WrongLayoutTaken`).
  A scanner without rules cannot load its own file, since it asks for one trailing-context entry and none was written
  (`OwnFileTaken`, `NoRulesExample`).
* {n,m} with m < n means exactly n copies (`src/nfa.cpp:143`); `Regex.Copies` says so.

## Model

| member | source | states |
|---|---|---|
| Regex.EffectiveIffNonempty | src/dfa.cpp:22-24 | every part of a tree is compiled to the language it denotes iff the tree has no empty class |
| Regex.EffectiveContains | src/dfa.cpp:22-24 | compiling an empty class as the empty word only adds words |
| Regex.FaithfulWithEmptyClass | src/dfa.cpp:22-24 | a tree with an empty class that is nevertheless compiled to what it denotes |
| Regex.FixedLengthSound | src/regex.cpp:440-472 | a nonnegative fixed_length is the length of every word of the tree |
| Regex.FixedLengthExact | src/regex.cpp:440-472 | fixed_length finds the length that all words have exactly when there is one, in a tree without empty classes and idle repetitions |
| Regex.UnwrapAnchored | src/nfa.cpp:29-49 | unwrap_anchors recovers exactly the anchors and the body that parse_top wrapped |
| Regex.LowerMeaning | src/regex.cpp:474-591 | r/s is lowered to a tree denoting the words of r, then those of s, then one newline iff s ends in $ and does not begin with ^; it is anchored as r; the trail length is the fixed length of s, plus one for the newline, and that of every such tail, or else the marker stands exactly after the words of r |
| Regex.LowerRefuses | src/regex.cpp:508-511 | a $ on r is an error, and nothing else is |
| Regex.NoMarkerNoMarks | src/nfa.cpp:159-165 | a tree without the marker never stands at one |
| Regex.NullableSound | src/regex.hpp:27-45 | a tree matches the empty word iff the check on its shape says so |
| RegexText.FoldClass | src/regex.cpp:17-28 | ignoring case, a class holds each of its bytes in both cases; respecting case, itself |
| RegexText.FoldRespectingCase | src/regex.cpp:17-28 | respecting case changes no tree |
| AtomReads.FoldedIs | src/regex.cpp:17-23 | ignoring case a byte stands for itself and the other case of an ASCII letter, and for nothing else |
| RegexGrammar.WholeUnique | src/regex.cpp:42-133 | the grammar is unambiguous: a source derives at most one tree |
| RegexGrammar.AlternationPlain | src/regex.cpp:165-186 | a derived body has no anchor and no marker inside, macros included |
| RegexGrammar.WholeShaped | src/regex.cpp:42-62 | a derived tree has its anchors at the root only |
| RegexGrammar.GroupCloses | src/regex.cpp:165-175 | whatever is derived at an open parenthesis, a closing one follows |
| RegexGrammar.UnclosedGroup | src/regex.cpp:165-175 | a regex that opens with a parenthesis and closes none derives nothing |
| RegexGrammar.UnclosedClass | src/regex.cpp:244-275 | a regex that opens with a bracket expression that is not closed derives nothing |
| RegexGrammar.OrdinaryPattern | src/regex.cpp:90-133 | one ordinary text, with a concatenation, a star and a bar, derives the tree its reader expects |
| RegexParser.Parser.ReadEscape | src/regex.cpp:339-382 | an escape reads as the byte it stands for and ends where the specification says: octal, hex or one character |
| AtomReads.CharEscape | src/regex.cpp:339-382 | an escape of one character is one of the seven of C, or that character |
| AtomReads.OctalEscape | src/regex.cpp:356-364 | three octal digits are the byte they spell, modulo 256 |
| AtomReads.OneOctalEscape | src/regex.cpp:356-364 | one octal digit before anything else |
| AtomReads.TwoOctalEscape | src/regex.cpp:356-364 | two octal digits before anything else |
| AtomReads.HexEscapeReads | src/regex.cpp:365-377 | two hexadecimal digits of either case are the byte they spell |
| RegexParser.Parser.ParseClass | src/regex.cpp:244-275 | a bracket expression reads as the set of its elements, ranges and POSIX classes, complemented after ^, and is an error iff it is not closed |
| AtomReads.SingleReads | src/regex.cpp:256-266 | an element that no dash follows is one character |
| AtomReads.LastDash | src/regex.cpp:256-266 | a dash before the closing bracket makes no range |
| AtomReads.NamedReads | src/regex.cpp:281-327 | [:name:] is the class of that name |
| AtomReads.RangeReads | src/regex.cpp:258-262 | a range is every byte between its ends, whichever is the greater, in both cases if case is ignored |
| AtomReads.NegatedReads | src/regex.cpp:271-275 | after ^ a class is the complement of what the same elements make without it |
| AtomReads.PosixLetters | src/regex.cpp:298-300 | alpha, upper and lower by their ASCII ranges |
| AtomReads.PosixDigits | src/regex.cpp:301-303 | digit, xdigit and alnum by their ASCII ranges |
| AtomReads.PosixOthers | src/regex.cpp:304-308 | space, blank and cntrl by their ASCII codes |
| AtomReads.PosixVisible | src/regex.cpp:309-314 | print, graph and punct by their ASCII ranges |
| AtomReads.PosixNames | src/regex.cpp:298-326 | there are these twelve classes and no other |
| AtomReads.DotReads | src/regex.cpp:188-192 | a dot is every byte but a newline |
| AtomReads.QuotedReads | src/regex.cpp:194-210 | a quoted string of plain characters is matched by what spells it, in either case if case is ignored, and by nothing else |
| AtomReads.PlainReads | src/regex.cpp:176-186 | any other character stands for itself, in either case if case is ignored |
| AtomReads.EscapedReads | src/regex.cpp:334-337 | an escape as an atom stands for the byte that it spells, likewise |
| RegexParser.Parser.ParseRepeat | src/regex.cpp:135-163 | bounds make a repetition; anything else leaves the position where it was |
| RegexParser.Parser.ParseOperator | src/regex.cpp:118-133 | a postfix operator applies to the primary before it |
| RegexParser.Parser.ParsePrimary | src/regex.cpp:165-186 | reads exactly the primary that the grammar derives, and fails iff there is none, as for a group that is not closed; one that is not null consumes a byte |
| RegexParser.Parser.ParseConcat | src/regex.cpp:107-116 | reads exactly the concatenation that the grammar derives, and fails iff there is none |
| RegexParser.Parser.ParseAlt | src/regex.cpp:90-101 | ends on every source, reads exactly the alternation that the grammar derives, and fails iff there is none |
| RegexParser.Parser.ParseMacro | src/regex.cpp:212-242 | {name} reads as what its definition derives; an unknown name, or one being expanded, is an error; ends for every, even mutually recursive, macro table |
| RegexParser.Parser.ParseTop | src/regex.cpp:42-62 | succeeds iff the grammar derives a tree from the whole source, and then returns it |
| RegexReadback.ClassReads | src/regex.cpp:244-275 | the text of any class, the empty one included, reads back as that class |
| RegexReadback.BoundsRead | src/regex.cpp:135-163 | {lo,hi} and {lo,} read back as these bounds |
| AtomReads.ExactBounds | src/regex.cpp:135-163 | {n} is exactly n |
| RegexReadback.Precedence | src/regex.cpp:90-133 | repetition binds tighter than concatenation, and that tighter than alternation, for any primaries, operator and alternative |
| RegexReadback.ShowDerives | src/regex.cpp:90-186 | every tree without anchors has a text that derives it |
| RegexReadback.TopDerives | src/regex.cpp:42-62 | ^r$ as written derives r with these anchors |
| RegexLocality.AtomInside | src/regex.cpp:176-186 | an atom is read alike in every larger text in which an end, a slash or a closing parenthesis follows |
| MacroReads.AlternationEmbeds | src/regex.cpp:90-186 | what a text derives it derives inside a larger one, up to the end or a closing parenthesis |
| MacroReads.MacroStandsFor | src/regex.cpp:212-242 | a macro whose definition derives n by itself and in full stands for exactly n, iff the definition does not end in a lone backslash |
| MacroReads.ReferenceDerives | src/regex.cpp:212-242 | {name} derives what the definition of the name in the table derives, and nothing else |
| MacroReads.ReferenceFails | src/regex.cpp:226-233 | {name} derives nothing if the name is unknown or being expanded |
| MacroReads.ReferenceOperated | src/regex.cpp:118-133 | an operator after {name} applies to all that it stands for |
| Slash.FindTopLevelSlash | src/regex.cpp:385-409 | ends; finds the slash that the grammar has iff the scan arrives there outside parentheses, classes and quotes, hence in every source whose bracket expressions are all crossed, or all without an unescaped bracket before their end |
| Slash.FoundIsSlash | src/regex.cpp:385-409 | from any token and at any depth of parentheses, the slash found is the grammar's if the bracket expressions before that are crossed; quoted strings and escapes need no condition |
| Slash.RightIffArrives | src/regex.cpp:385-409 | the slash found is the grammar's iff the scan comes to that, or to the end if there is none, without another, and to a slash outside parentheses, classes and quotes |
| Slash.FoundIffCrossed | src/regex.cpp:385-409 | the slash right after a bracket expression is found iff that is crossed |
| Slash.LeavesIffNeat | src/regex.cpp:385-409 | the scan leaves a bracket expression no later than it ends, and where it ends iff no unescaped bracket stands before |
| Slash.NeatCrossed | src/regex.cpp:385-409 | then it is crossed, at any depth |
| SlashTokens.WholeTokens | src/regex.cpp:42-186 | every derived regex is a row of whole tokens with its parentheses matched |
| SlashTokens.GroupPassed | src/regex.cpp:165-175 | a slash inside a group of a derived regex is never the grammar's |
| SlashTokens.SlashBetween | src/regex.cpp:474-502 | the grammar's slash in r/s is the one between r and s, for every regex r that has none of its own and does not end in a lone backslash, whatever s is |
| PatternParser.SkipsShow | src/regex.cpp:385-409 | the scan finds no slash in the text of a tree and is left as it was |
| PatternParser.SlashFound | src/regex.cpp:385-409 | in a pattern written out with every byte in hexadecimal, the slash found is the grammar's, and is the one between r and s; without s there is none |
| PatternParser.ReadIsDerived | src/regex.cpp:474-502 | if every bracket expression is crossed, the code reads a source exactly as the grammar derives it |
| PatternParser.ParsePattern | src/regex.cpp:474-591 | ends on every source and macro table; accepts iff the source, split at the slash found, derives a pattern, and returns that; if every bracket expression is crossed, accepts iff the grammar derives a pattern from the source, and returns that |
| PatternParser.DerivesUnique | src/regex.cpp:474-591 | a source derives at most one pattern, and is read as at most one |
| PatternParser.WrittenDerives | src/regex.cpp:474-591 | every pattern ^r$ or ^r/s$ has a text that derives what it says and is read so |
| PatternParser.WrittenMeaning | src/regex.cpp:474-591 | and what it says denotes the words of r, then those of s and a newline for its $ |
| PatternParser.SplitMeaning | src/regex.cpp:474-591 | what a pattern denotes, in terms of the body of r and the body of s derived from the two sides of its source as split: its anchors, its words with a newline for the $ of s, and where its token ends |
| PatternParser.AcceptedMeaning | src/regex.cpp:474-591 | the same for an accepted pattern; the split is the one at the slash found, and the grammar's if every bracket expression is crossed |
| SlashCases.SlashClassRefused | src/regex.cpp:385-409 | the class []/] is refused though the grammar derives it |
| SlashCases.AlphaSlashRefused | src/regex.cpp:385-409 | the class [[:alpha:]/] is refused though the grammar derives it |
| SlashCases.AlphaLineCrossed | src/regex.cpp:385-409 | the class [[:alpha:]_] seems to the scan to end early, and is crossed all the same |
| SlashCases.LostTailAccepted | src/regex.cpp:385-409 | [](]/b is accepted as a pattern without trailing context, which the grammar does not derive from it |
| NfaGraph.Exit | src/nfa.cpp:53-187 | a path into grown states leaves them only by the edges that were added |
| NfaGraph.PathLocal | src/nfa.cpp:53-187 | states appended later never change the paths of a closed region |
| Fragments.LeafFrag | src/nfa.cpp:53-58 | the two-state fragments read a class, the empty word, or the empty word with the marker |
| Fragments.JoinFrags | src/nfa.cpp:60-65 | two fragments joined by an epsilon edge read the concatenation |
| Fragments.AltFrags | src/nfa.cpp:67-77 | a fork and a join around two fragments read the union |
| Fragments.WrapFrag | src/nfa.cpp:79-108 | the star, plus and question wirings read the repetitions they stand for |
| Fragments.ReadsLocal | src/nfa.cpp:9-23 | a fragment keeps its language when states are appended |
| Thompson.Builder.constructor | src/nfa.cpp:215-230 | two bare start states per condition and no rule |
| Thompson.Builder.Compile | src/nfa.cpp:167-187 | only appends states; the new fragment reads exactly the language of the tree, and its markers exactly the tree's |
| Thompson.Builder.CompileRepeat | src/nfa.cpp:117-157 | the unrolled loop reads lo to hi copies, lo or more, or exactly lo when hi is less |
| Thompson.Builder.ConnectToConds | src/nfa.cpp:189-211 | the BOL start of each condition gains an edge to the entry iff the rule has <*>, names the condition, or names none and the condition is INITIAL or inclusive; the normal start iff moreover the rule is not anchored; no other state changes |
| Thompson.Builder.AddRule | src/nfa.cpp:232-255 | appends one rule, numbered as the driver numbers them, and keeps the layout of all earlier ones |
| RuleNfa.RuleAccepts | src/nfa.cpp:189-255 | from a condition's entry, rule r accepts w iff r is linked there, not held back by ^, and w is a word of its body |
| RuleNfa.RuleMarks | src/nfa.cpp:248-253 | the same for standing at the rule's marker |
| RuleNfa.LayoutKeepsPromise | src/nfa.cpp:232-255 | the finished NFA accepts, for every entry and word, exactly the rules that denote it |
| RuleNfa.LaterRulesDoNotInterfere | src/nfa.cpp:232-255 | adding rules changes neither what earlier rules accept nor where they are marked |
| Eclass.Pigeonhole | src/eclass.cpp:29-29 | classes that are all inhabited number at most 256, so the saturated return is never taken |
| Eclass.Refine | src/eclass.cpp:15-38 | in place, splits exactly the classes that the byte set cuts, keeping ids dense and all inhabited |
| Eclass.ComputeEclasses | src/eclass.cpp:41-53 | two bytes share a class iff every NFA edge covers both or neither, also after the early exit |
| SortedSets.SortedUnique | src/dfa.cpp:30-31 | a sorted list without duplicates is determined by its elements |
| Closure.EpsClosure | src/dfa.cpp:14-32 | ends with the sorted list of exactly the states reachable by epsilon edges |
| Closure.ClosureIdempotent | src/dfa.cpp:14-32 | closing twice changes nothing |
| Closure.Step | src/dfa.cpp:34-44 | the sorted list of exactly the states reachable by one byte and epsilon edges |
| Closure.StepUnique | src/dfa.cpp:34-44 | the result of a step is determined |
| Closure.ReachUnique | src/dfa.cpp:88-91 | equal reachable sets have equal keys, whatever start and word they come from |
| Closure.ReachStep | src/dfa.cpp:34-44 | stepping the set reachable on w by b gives the set reachable on wb |
| Subset.AcceptFor | src/dfa.cpp:53-86 | the accept slots are the least accepting rules without and with $, the lists the sorted accepting and marked rules |
| Subset.ClassReps | src/dfa.cpp:106-113 | the first byte of each class |
| Subset.Construction.GetState | src/dfa.cpp:166-182 | gives a new set the next id and keeps ids and sets in bijection |
| Subset.Construction.Drain | src/dfa.cpp:198-218 | the worklist ends with every row right |
| Subset.InSubsets | src/dfa.cpp:198-218 | every indexed set is one of the finitely many subsets, the bound the worklist's measure needs |
| Subset.BuildDfa | src/dfa.cpp:150-222 | ends for every well-formed NFA; ids and distinct canonical sets in bijection; every transition on every byte leads to exactly the set reached, -1 iff it is empty |
| Subset.RunReach | src/dfa.cpp:150-222 | after any word from any start the DFA is in the state of the reachable set |
| Subset.SubsetConstructionCorrect | src/dfa.cpp:150-222 | from each condition's entries the state reached stands for exactly the reachable NFA states, and is -1 iff there are none |
| Comb.PackingOrder | src/dfa.cpp:249-258 | each state with exceptions once, longest first |
| Comb.Packer.FirstFit | src/dfa.cpp:289-293 | the least base that fits; the search always succeeds |
| Comb.Packer.PlaceAt | src/dfa.cpp:271-283 | stores one row and disturbs no row stored before |
| Comb.PackedLossless | src/dfa.cpp:298-306 | a packed and padded pool answers every lookup as the rows do, whatever the packing order |
| Comb.CompressDfa | src/dfa.cpp:224-308 | for every state and class the lookup is inside the pool and gives the row's entry |
| ScanTables.Flatten | src/codegen.cpp:891-904 | offset and pool hold exactly the lists |
| ScanTables.TransitionsAgree | src/codegen.cpp:951-958 | YY_TRANSITION gives the DFA's transition, dense or packed |
| ScanTables.EmitTables | src/codegen.cpp:776-904 | the emitted arrays hold what the DFA holds, in each mode; they are packed iff the mode is Compress, every byte is a class of its own in Full, and in the other modes two bytes share a class iff no NFA edge tells them apart |
| ScanTables.TablesImplement | src/codegen.cpp:776-958 | after every word, from every entry, the state the tables reach knows exactly which rules denote the word and which may stand at their marker |
| Matching.PickUnique | src/codegen.cpp:584-602 | the pick is unique |
| Matching.PlainIffNotHidden | src/codegen.cpp:586-602 | the plain loop's pick is the lexing rule's iff no shorter $ match is hidden by a longer one |
| Matching.NewlineFreeSound | src/codegen.cpp:586-589 | a body without newline in its classes denotes words without newline |
| Matching.NewlineFreeHidesNothing | src/codegen.cpp:586-589 | with newline-free $ bodies nothing is hidden on any input |
| Scanner.Scan | src/codegen.cpp:540-582 | the loop ends knowing the longest plain and the longest $ match with their least rules, and each rule's last marker |
| Scanner.DeadBeyond | src/codegen.cpp:568-568 | once the lookup is dead no longer word matches |
| Scanner.Select | src/codegen.cpp:584-602 | the selection is the longest eligible match of nonzero length, the earliest rule among equals |
| Scanner.SelectOk | src/codegen.cpp:584-602 | the branch taken is right for every pair of remembered matches |
| Scanner.Match | src/codegen.cpp:540-639 | picks as the rules call for, and trims the trailing context |
| Trailing.FixedTrailSplits | src/codegen.cpp:626-630 | with trailing context of fixed length the token is the one and only split into r and its tail |
| Trailing.SafeTrailSplits | src/codegen.cpp:549-577 | with r of fixed length and s variable the marker is recorded exactly at the end of r, even if the scan ran on, and the token is the one and only split |
| Trailing.HeadCheck | src/codegen.cpp:626-638 | the trailing context of an r/s rule can be all that it matches iff r can match the empty word and the tail is not always empty |
| Trailing.RejectTokenIs | src/codegen.cpp:405-409 | under REJECT the token of a rule without trailing context is the whole match, and with one of fixed length the one split of the match into r and the tail |
| Reject.ScanLens | src/codegen.cpp:342-374 | the longest length of each rule that is valid for its $ flag |
| Reject.FindBest | src/codegen.cpp:375-382 | the longest remaining, the earliest rule among equals |
| Reject.ChainComplete | src/codegen.cpp:375-395 | when no positive length is left, the rules tried are exactly those with a valid match of positive length |
| Reject.ChainUnique | src/codegen.cpp:375-395 | the rules determine what is tried and in what order |
| Reject.FirstIsPick | src/codegen.cpp:342-382 | the first choice is the lexing rule's, without condition |
| Reject.LoopsAgree | src/codegen.cpp:584-602 | the two loops agree on the first choice iff no shorter $ match is hidden |
| Runs.FollowsUnique | src/codegen.cpp:502-658 | the rules determine each event, trailing context or not |
| Runs.WalksAgree | src/codegen.cpp:951-958 | runs of as many turns from the same place under the same rules and actions are equal and end at the same place |
| Runs.InCondition | src/codegen.cpp:502-658 | each event is what the rules call for in the condition that the actions have set before it |
| Runs.WalkText | src/codegen.cpp:540-658 | the lexemes and echoed bytes of any run are exactly what lies between its ends |
| Runs.WalkBol | src/codegen.cpp:658-658 | yy_at_bol means position 0 or after a newline, unless a token left empty by its trailing context has just cleared it |
| Runs.NeverCleared | src/codegen.cpp:626-658 | if no head of a trailing context matches the empty word, no token is empty |
| Runs.Stuck | src/codegen.cpp:626-658 | after an empty token with yy_at_bol off, and as long as no action changes the condition, every run is that token for ever |
| Runs.EmptyHeadExample | src/codegen.cpp:626-658 | the rule x*/b before "b": the empty token clears yy_at_bol at position 0, and no number of turns gets further |
| Runtime.Lexer.constructor | runtime/runtime.c.in:329-348 | the buffer holds the given bytes, at a line beginning |
| Runtime.Lexer.TextSeal | runtime/runtime.c.in:431-436 | sealing keeps the contents iff no live saved byte is overwritten |
| Runtime.SealTwice | runtime/runtime.c.in:431-436 | a sealed token whose second sealing loses a byte |
| Runtime.Lexer.TextUnseal | runtime/runtime.c.in:437-442 | unsealing never changes the contents |
| Runtime.Lexer.BufGrow | runtime/runtime.c.in:356-366 | room as asked for, same contents |
| Runtime.Lexer.Unput | runtime/runtime.c.in:446-458 | the byte comes next, before all that was still to come, also after growing and shifting |
| Runtime.Lexer.Input | runtime/runtime.c.in:460-469 | removes the head of what remains, 0 at the end |
| Runtime.Lexer.Yyless | runtime/runtime.c.in:471-479 | gives back exactly the token's tail, keeping yytext and position together |
| Runtime.Lexer.Next | src/codegen.cpp:502-658 | one turn of the loop consumes exactly the text of the event the rules call for, sets yy_at_bol after it, and leaves the contents alone |
| Runtime.Lexer.Turns | src/codegen.cpp:502-658 | any number of turns, trailing context or not: every event is what the rules call for, the text is what was consumed, and when yy_at_bol means a line beginning |
| Runtime.Lexer.Run | src/codegen.cpp:502-658 | if no head of a trailing context matches the empty word the run ends, its lexemes and echoed bytes are the whole rest of the buffer, and yy_at_bol always means position 0 or after a newline |
| Runtime.Lexer.Reject | src/codegen.cpp:440-446 | the sealed byte and the position go back and the contents are as before |
| Runtime.Lexer.RejectAll | src/codegen.cpp:375-446 | with REJECT in every action each rule with a positive length is tried once, by length descending then rule ascending; each action sees the whole match, or of an r/s rule with fixed trailing context exactly the part that r matches; and then the default rule echoes the next byte of the untouched buffer |
| Runtime.Lexer.RejectTimes | src/codegen.cpp:375-446 | actions that reject j times: they see the first j of the rules that would be tried if all rejected, then the next one keeps its token and the position is after that; all tokens are as for RejectAll; with fewer rules the default rule echoes a byte |
| TableBytes.Be32RoundTrip | src/tables.cpp:9-15 | every 32-bit integer, negative ones included, reads back |
| TableBytes.BigEndian | src/tables.cpp:9-15 | the most significant byte of an integer comes first, and negative ones are in two's complement |
| TableBytes.Reader.ReadInts | src/codegen.cpp:1003-1007 | reads back an array of 32-bit integers, or fails iff the integers run out |
| TableFile.FlatAt | src/tables.cpp:62-67 | a cell of the dense rows is where a two-dimensional array has it |
| TableFile.HeadBytes | src/tables.cpp:24-46 | the first bytes of a table file, one by one |
| TableFile.SerialiseTables | src/tables.cpp:20-79 | the bytes written are the image of the file, in both layouts |
| TableLoader.Loader.Fload | src/codegen.cpp:1009-1052 | accepts a well-formed file of either layout iff the dimensions and the integer read as the number of conditions are as expected and integers enough follow; then every array holds its part of the file; a wrong magic or shape changes no array |
| TableLoader.TakesOwnLayout | src/codegen.cpp:1009-1052 | a file of the loader's own layout is taken iff the dimensions and the number of conditions are equal and it has rules enough |
| TableLoader.PackedTakesNoDense | src/codegen.cpp:1031-1032 | a scanner with packed tables takes no dense file |
| TableLoader.WrongLayoutTaken | src/codegen.cpp:1009-1052 | the scanner of the rules a and a?, with dense tables, takes the file of its own packed tables, and then no longer has the transitions of its DFA |
| TableLoader.OwnFileTaken | src/codegen.cpp:991-992 | a scanner's own file is taken iff there is a rule |
| TableLoader.NoRulesExample | src/codegen.cpp:991-992 | a scanner without rules whose own file is refused |
| TableLoader.FilledIsRestored | src/tables.cpp:20-79 | loading its own file gives a scanner back every array it was emitted with |
| TableLoader.LoadedTables | src/codegen.cpp:1009-1052 | after that the scanner's tables hold what the DFA holds |
| Pipeline.ParseRules | src/main.cpp:292-322 | rules parsed in order: accepted iff every text can be read as a pattern, each rule what its text is read as; and if every bracket expression is crossed, accepted iff the grammar derives a pattern from every text, each rule the one derived |
| Pipeline.BuildNfa | src/main.cpp:281-322 | the NFA of a rule list accepts exactly what the rules denote |
| Pipeline.CompileNfa | src/codegen.cpp:776-904 | the tables of one NFA in each mode are those of the mode and implement the rules |
| Pipeline.CompileScanner | src/main.cpp:281-344 | in each table mode the tables are those of the mode and implement the rules |
| Pipeline.TakesPart | src/nfa.cpp:189-255 | from a condition's entry the tables accept a rule on w iff the rule has <*>, names the condition, or names none and that is INITIAL or inclusive, it is not held back by ^, and w is a word of its body |
| Pipeline.UnnamedRule | src/nfa.cpp:202-209 | a rule naming no condition matches nothing and is never picked in an exclusive condition other than INITIAL, and matches the words of its body in all others |
| Pipeline.CompileSaveLoad | src/tables.cpp:20-79 | a scanner's tables, packed iff the mode says so, written to a file and loaded back: accepted iff there is a rule, and then they still implement the rules |
| Pipeline.CompileText | src/main.cpp:281-344 | from pattern text to tables of the given mode that implement the rules so parsed; refused iff they are |
| Pipeline.WrittenRule | src/nfa.cpp:29-49 | a rule written ^r$ has exactly these anchors and this body |
| Pipeline.AcceptedIsWritten | src/regex.cpp:551-590 | every r/s pattern without empty classes, as its source is split, satisfies what the trailing-context theorems need |
| Pipeline.MatchesKept | src/dfa.cpp:22-24 | whatever the patterns can match, the compiled rules can |
| Pipeline.PickIsPosix | src/codegen.cpp:540-602 | if the bodies are compiled to what they denote, the compiled pick is the POSIX pick |
| Pipeline.PickFits | src/codegen.cpp:540-602 | what is picked belongs to the condition, and if it ends in $ a newline or the end follows |
| Pipeline.LexOnce | src/codegen.cpp:540-639 | end to end: the scanner obeys the POSIX rule iff no shorter $ match is hidden, hence always with newline-free $ patterns; and what it picks belongs to the condition and has its line end |
| Pipeline.LexRejecting | src/codegen.cpp:342-446 | end to end with REJECT: every rule that can match, longest first, earlier first, beginning with the POSIX pick, each action seeing exactly what its trailing context leaves of the match, and then the next byte echoed |
| Pipeline.LexInEveryMode | src/dfa.cpp:150-154 | the tables of the three modes, of which only the third are packed and only the first have every byte in a class of its own, give the same events turn by turn, for every rule list, and leave the scanner at the same place |
| Pipeline.LexAll | src/codegen.cpp:502-658 | if no head of a trailing context matches the empty word then, in every mode, scanning ends and the events' text is the whole input |
| Pipeline.HiddenEolExample | src/codegen.cpp:586-589 | a rule and an input for which the plain loop misses the POSIX pick |
| Pipeline.EmptyClassText | src/regex.cpp:244-275 | the pattern a[^\x00-\xff] derives, and is read as, a followed by an empty class |
| Pipeline.EmptyClassExample | src/dfa.cpp:22-24 | that pattern denotes nothing, and the scanner takes a for it |

## Left out

- Thompson.Builder.AddRule: rules are numbered consecutively, as the driver numbers them; ids out of sequence, which the code would pad, are not modelled.
- Runtime.Lexer.Yyless: only for the token just matched; after unput or input the code no longer keeps yytext and position together.
- Runtime.Lexer.Turns: actions are abstract and may change the start condition only; no yymore, no unput from actions.
- Trailing.SafeTrailSplits: r and s both of variable length ("dangerous") are not covered, since the code's split is then only heuristic.
- RegexParser.Parser.ParseMacro: what follows the readable part of a definition is ignored by the code and in the grammar.
- TableLoader.Loader.Fload: says nothing of the arrays after a failure later than the dimensions.
- Warnings, such as the one about an unknown POSIX class name, and the texts of errors; an error is only that the source is refused.
- A ^ inside s, and the $ after it, are compiled as the empty word, as in the code.
- REJECT together with variable trailing context, which the driver refuses.
- Meta-classes: computed and emitted, but the lookup never reads them; here they are bytes copied through the table file.
- End-of-file rules and the `<<EOF>>` dispatch; the no-default option; yylineno; `%option array`.
- Reading input: refill, YY_INPUT, yywrap, restart and the buffer stack; the buffer is fully loaded.
- The `.l` section parser, the command line, diagnostics and the printing of C text.
- 32-bit overflow of state ids, counts, bounds and lengths, and allocation failure; only the table file is about 32-bit values.
- The hash table of build_dfa is a map; std::sort is an insertion sort.
- A null subtree is Empty, as every function of the source treats it.
