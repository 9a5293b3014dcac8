# Vyatta configuration client: model and proofs

A Dafny model of the parts of the Vyatta configuration client that compute something: the difference between
two configurations, the template expression engine, the resolver for variable references, the responses of
`configd` and the errors they carry, and the printers and parsers of paths, shell text and messages.
`dafny verify dfyconfig.toml` checks all of it.

## Layout

| files | what they model |
|---|---|
| `ValueLists` | comparison of the ordered values of a multi-value leaf |
| `ConfigTree`, `ConfigDiff`, `DiffContents` | schemas, configuration trees, the meaning of `delete` and `set`, the difference of two trees; which commands exactly it has |
| `ConfigHierarchy`, `StatementOrder`, `RankSort` | the hierarchy a file is loaded into, the order of its statements |
| `RepeatedStatements` | what repeated statements do to the order of values |
| `ConfigLoad` | the walks that produce the two command lists, over a shared object with a level |
| `Ipv6Text`, `Ipv6Expansion`, `Ipv6Scan`, `Ipv6Nets` | IPv6 text (section 3.2.2 of RFC 3986, section 2.2 of RFC 4291), its scanner, and nets |
| `LexOrder`, `ValueCompare`, `Spellings`, `ValueOrder` | typed comparison of values and of lists of values; different spellings; what the order means for texts and numbers |
| `ExpandString`, `ValueArrays` | `$VAR(...)` expansion into a growing buffer; growing value arrays, line and word splitting |
| `VarRef`, `RefValues` | variable references, and what each component and each value of one is |
| `Cpath`, `CpathText` | percent-encoded paths, as a whole and character by character |
| `CstoreVarRef`, `RefTexts` | references as text, and the saved and restored global path |
| `Rpc`, `RpcClient`, `RpcGet`, `RightResponses` | responses and runs; ownership of everything allocated; typed requests; which document a request gets and what the caller sees |
| `CText`, `ErrorText` | character buffers; the text of management errors |
| `ShellWords`, `CompletionEnv` | how a shell reads quoted words; the shell assignments for completion |
| `SlashPath`, `RenamePaths` | slash-separated paths; the two paths of rename and copy |
| `BlankText`, `PathText`, `Options`, `Sequences` | blank-separated words; the level string and the quoting of command components; missing values; concatenation |

## Properties that do not hold, and when they do

* **Applying the difference gives the new configuration.** Deletions for which the server reports a default value are
  dropped from the list (`lib/Vyatta/ConfigLoad.pm:391-405`), so a leaf with a default survives when it is missing
  from the new tree. Whether the server also reports the default for a path that ends in a value is not visible in the
  repository: the comment at `lib/Vyatta/Config.pm:497-498` says that such a path has no template, while
  `src/compat/cstore-compat.cpp:346-368` passes on whatever the server answers. The model leaves it open for each leaf
  (`valueDefault`); where the default is reported, the deletions of single values are dropped too.
  `ConfigDiff.DroppedDefaultStays` and `ConfigDiff.DroppedValueStays` have an example of either kind;
  `ConfigDiff.DiffReachesNewIff` has the exact condition: no leaf with a default is missing from a node that stays, and
  a multi-value leaf whose values report a default has its old values in front of the new ones.
* **Loading a file gives what executing its statements gives.** A statement that is repeated takes the place of
  the last one (`lib/Vyatta/ConfigLoad.pm:164-168`), so a repeated value of a multi-value leaf moves to the end.
  `RepeatedStatements.RepeatedValueMoves` has an example; `RepeatedStatements.LoadIsExecutionIff` has the exact
  condition: in every such leaf the values are first mentioned in the order in which they are last mentioned.
* **A configuration compared with itself gives nothing to do.** The smallest changed index of a value list starts
  at 2^31, which caps the part that is kept. `ValueLists.TooLongList` is the first list that is too long;
  `ValueLists.CompareWithItself` and `ConfigDiff.DiffIsEmptyIffEqual` have the exact conditions.
* **The IPv6 scanner leaves the groups and the prefix length.** With both a dotted quad and a prefix length the
  last two numbers are merged twice (`src/cliexec/cli_new.c:1307`). `Ipv6Scan.QuadWithPrefixGoesWrong` has an
  example; `Ipv6Scan.ScanIsCorrectIff` has the exact condition.
* **Different spellings of one IPv6 net are equal.** For the same reason `1::2.3.4.5/64` and `1::203:405/64` differ
  (`Spellings.SameNetComparesUnequal`), and the different nets `1::2.3.0.0/16` and `1::203/16` are equal
  (`Spellings.DifferentNetsCompareEqual`). `Spellings.SameNetIsEqualIff` has the exact condition for one net, and
  `Spellings.NetsCompareByReading` says what any two nets are compared by.
* **Parsing a printed path gives the path.** An empty first component is lost, and line breaks come back as CR LF;
  `Cpath.PathRoundTripIff` has the exact condition. As a consequence, every restoration of an empty global path
  makes it longer until its buffer is full (`CstoreVarRef.EmptyPathGrows`).
* **The escaped component fits its buffer.** The buffer has six characters for each one of the component
  (`src/client/cpath.hpp:140`). `Cpath.EscapeFitsIff`: there is room for the terminator if and only if some character
  takes less than six, which leaves out the empty component and those of line breaks that are each written out (but not
  those of CR LF pairs). A path whose saving and restoring is otherwise faithful may have an empty component inside
  (`CstoreVarRef.StablePathMayOverflow`).
* **A response with an invalid id is refused**, as a unit test (`cpputest/connectTester.cpp:213-238`) has it for
  an error. A result or an error list whose id is no integer is accepted, since the status is already that of
  success when the id is looked at (`src/client/connect.c:566,590-594`). `Rpc.ResultWithTextIdIsAccepted` has an
  example; `Rpc.AcceptedCarriesIdIff` has the exact condition for one document, and
  `Rpc.DeliveriesCarryTheirNumberIff` the one for whole runs.
* **Formatting an error for commit keeps no more than one text.** Freeing an error leaves its flag set, and formatting
  it then loses the buffer of the failure line: `RpcGet.FormatAfterFree` does so for every error list received, such as
  that of `RpcGet.OneErrorIsDelivered`. The contract of `RpcGet.FormatForCommit` says exactly when.

## Model

| member | source | states |
|---|---|---|
| `ValueLists.DeletedIsOldTail` | lib/Vyatta/Config.pm:709-764 | for duplicate-free lists, the deleted values are exactly the old values behind the common prefix, each once |
| `ValueLists.CompareIsCorrect` | lib/Vyatta/Config.pm:709-764 | old values minus the deleted ones are the common prefix, and with the added ones appended they are the new list in its order |
| `ValueLists.CompareWithItself` | lib/Vyatta/Config.pm:709-764 | comparing a list with itself gives nothing to delete or add, if and only if it has at most 2^31 values |
| `ValueLists.TooLongList` | lib/Vyatta/Config.pm:721-721 | of 2^31 + 1 distinct values compared with themselves, the last is deleted and added again |
| `ValueLists.IndexValues` | lib/Vyatta/Config.pm:717-720 | the hash maps exactly the values of the list to their positions |
| `ValueLists.FindGone` | lib/Vyatta/Config.pm:721-731 | collects the old values that are gone in order, and an index not above any of theirs |
| `ValueLists.FindMoved` | lib/Vyatta/Config.pm:732-740 | the smallest index at which a value is gone or has moved |
| `ValueLists.CollectChanges` | lib/Vyatta/Config.pm:741-762 | adds every new value behind the cut and deletes first those that are in the old list |
| `ValueLists.CompareValueLists` | lib/Vyatta/Config.pm:709-764 | the two lists of the loops: deleted values each once and exactly those behind the cut, and removing then appending gives the new list |
| `ConfigDiff.DeletesPrune` | lib/Vyatta/ConfigLoad.pm:259-305 | executing the delete list, without the deletions for which a default is reported, leaves exactly the part of the active tree that the new tree shares, plus the leaves and values so kept |
| `ConfigDiff.SetsReach` | lib/Vyatta/ConfigLoad.pm:313-376 | executing the set list on the pruned tree gives the new tree with the values of multi leaves in their new order, behind the values that were kept |
| `ConfigDiff.DiffReachesResult` | lib/Vyatta/ConfigLoad.pm:382-418 | for every schema, active and new tree and every way to list a set of keys, the two lists lead to the new tree plus the leaves and values whose deletion was dropped |
| `ConfigDiff.ResultIsNewIff` | lib/Vyatta/ConfigLoad.pm:391-405 | that result is the new tree if and only if no defaulted leaf is missing from a node that stays and every multi leaf whose values report a default has its old values in front |
| `ConfigDiff.DiffReachesNewIff` | lib/Vyatta/ConfigLoad.pm:382-418 | executing the two lists gives exactly the new tree under exactly that condition, whatever the server reports for values |
| `ConfigDiff.DefaultFreeDiffReachesNew` | lib/Vyatta/ConfigLoad.pm:382-418 | for a schema without defaults, executing the two lists always gives exactly the new tree |
| `ConfigDiff.DroppedDefaultStays` | lib/Vyatta/ConfigLoad.pm:391-405 | a concrete tree whose defaulted leaf survives the difference |
| `ConfigDiff.DroppedValueStays` | lib/Vyatta/ConfigLoad.pm:391-405 | with a default reported for values, the active values u, v stay when only v is in the new tree |
| `ConfigDiff.DiffIsEmptyIffEqual` | lib/Vyatta/ConfigLoad.pm:259-389 | both lists are empty if and only if the two trees are equal and have no list of more than 2^31 values |
| `DiffContents.DeletedIff` | lib/Vyatta/ConfigLoad.pm:259-305 | a path is deleted if and only if it is a child that only the active tree has, of a node that both have, or a value of a multi leaf that is not at the same place behind the same values |
| `DiffContents.SetIff` | lib/Vyatta/ConfigLoad.pm:313-376 | a path is set if and only if it is a new child without anything below, a value of a new leaf, or a value that is not at the same place behind the same values |
| `DiffContents.DiffIsExactly` | lib/Vyatta/ConfigLoad.pm:382-405 | no command comes twice, and after the filter the deletions are exactly those of such paths for which no default is reported |
| `ConfigHierarchy.GenerateHierarchy` | lib/Vyatta/ConfigLoad.pm:159-178 | the loop builds the hierarchy and the statement order of the whole file |
| `ConfigHierarchy.GetSortedMultiValues` | lib/Vyatta/ConfigLoad.pm:237-249 | exactly the values of the node, in strict order of their statements |
| `ConfigHierarchy.TargetConforms` | lib/Vyatta/ConfigLoad.pm:155-178 | a well-formed hierarchy stands for a tree that follows the schema |
| `RankSort.SortedIsRanked` | lib/Vyatta/ConfigLoad.pm:237-249 | sorting keeps the values and puts them into strict order of rank |
| `RankSort.RankedIsUnique` | lib/Vyatta/ConfigLoad.pm:237-249 | there is only one such order, so the order of hash keys does not matter |
| `StatementOrder.LatestValueIsLast` | lib/Vyatta/ConfigLoad.pm:155-178 | the value of the latest statement, new or repeated, comes last among the sorted values, and the others keep their order |
| `StatementOrder.InsertIsPut` | lib/Vyatta/ConfigLoad.pm:159-178 | inserting a statement changes what the hierarchy stands for exactly as a `set` command does, except that a repeated value moves to the end |
| `StatementOrder.LoadedFile` | lib/Vyatta/ConfigLoad.pm:159-178 | the hierarchy of a file, repeated statements included, stands for the tree that its statements give one after the other |
| `StatementOrder.LoadedFileConforms` | lib/Vyatta/ConfigLoad.pm:159-178 | that tree follows the schema and its values have distinct ranks |
| `StatementOrder.LoadingReachesFileIff` | lib/Vyatta/ConfigLoad.pm:159-418 | loading a file and applying the difference to any active tree gives what the file means, if and only if the filter drops no deletion that matters |
| `RepeatedStatements.ExecutedIsSets` | lib/Vyatta/ConfigLoad.pm:159-178 | the tree that loading is compared with is that of executing the statements as `set` commands |
| `RepeatedStatements.LoadIsExecutionIff` | lib/Vyatta/ConfigLoad.pm:159-249 | loading a file gives what executing it gives, if and only if the values of every multi-value leaf are first mentioned in the order in which they are last mentioned |
| `RepeatedStatements.DistinctFileKeepsOrder` | lib/Vyatta/ConfigLoad.pm:159-249 | which is so for every file that repeats no statement |
| `RepeatedStatements.RepeatedValueMoves` | lib/Vyatta/ConfigLoad.pm:164-168 | with the values u, v, u of one leaf, loading gives v, u where execution gives u, v |
| `RepeatedStatements.ResultIsExecutionIff` | lib/Vyatta/ConfigLoad.pm:159-418 | loading a file over any active tree leads to what executing the file gives, if and only if no defaulted leaf is dropped and first and last mentions agree; where value deletions are dropped, the old values are mentioned first and the others agree |
| `RepeatedStatements.LeadsToExecutionIff` | lib/Vyatta/ConfigLoad.pm:159-418 | where no default is reported for values, that is: no defaulted leaf is dropped and no repeated value changes the order |
| `PathText.LevelDenotesPath` | lib/Vyatta/Config.pm:49-66 | splitting the level string gives the components it was joined from |
| `PathText.UnquoteOfQuote` | lib/Vyatta/ConfigLoad.pm:41-60 | quoting plain components and unwrapping the quotes gives the components |
| `PathText.BlankIff` | src/client/completion_env.cpp:254-266 | the blanks are those of `isspace` |
| `PathText.EscapedCharacters` | lib/Vyatta/ConfigLoad.pm:41-60 | every single quote is written as quote, backslash, quote, quote, and nothing else is changed |
| `ShellWords.ReadQuotedName` | lib/Vyatta/ConfigLoad.pm:41-60 | a shell reads a quoted plain component as one word, which is the component |
| `ConfigLoad.ConfigLoader.FindDeletedValues` | lib/Vyatta/ConfigLoad.pm:259-282 | pushes exactly the deletions of a leaf, quoted and with the whole path |
| `ConfigLoad.ConfigLoader.FindDeletedNodes` | lib/Vyatta/ConfigLoad.pm:287-305 | pushes exactly the delete list of the subtree, behind what was there |
| `ConfigLoad.ConfigLoader.FindSetValues` | lib/Vyatta/ConfigLoad.pm:313-343 | pushes exactly the settings of a leaf |
| `ConfigLoad.ConfigLoader.FindSetNodes` | lib/Vyatta/ConfigLoad.pm:348-376 | pushes exactly the set list of the subtree, behind what was there |
| `ConfigLoad.ConfigLoader.FilterDefaulted` | lib/Vyatta/ConfigLoad.pm:391-405 | keeps exactly the deletions, of nodes and of values, for whose path no default is reported |
| `ConfigLoad.ConfigLoader.GetConfigDiff` | lib/Vyatta/ConfigLoad.pm:382-418 | a shell reads each component of the returned commands as one word; executing the deletions so read and then the settings turns the active tree into the new one plus what the filter kept; no command comes twice, and there is exactly one for each path that has to go and is not kept or has to come |
| `ConfigLoad.LoadAndDiff` | lib/Vyatta/ConfigLoad.pm:182-418 | from the statements of a file to the two lists of commands: executing these, as a shell reads them, gives what the file means if and only if the filter drops no deletion that matters, and what the statements give if and only if the condition on first and last mentions holds as well |
| `Ipv6Expansion.ExpandsToAll` | src/cliexec/cli_new.c:1315-1325 | filling the gap of `::` gives the eight groups and the prefix length |
| `Ipv6Expansion.MergedExpansion` | src/cliexec/cli_new.c:1306-1325 | with a dotted quad, a prefix length and `::`, it does so if and only if the numbers hide the extra merge |
| `Ipv6Expansion.MergedLastGroup` | src/cliexec/cli_new.c:1306-1310 | the same without `::` |
| `Ipv6Scan.RepairedReading` | src/cliexec/cli_new.c:1265-1274 | the first octet, read as hexadecimal, is turned back into its decimal value |
| `Ipv6Text.DigitAtPlace` | src/cliexec/cli_new.c:1286-1295 | the value of a hexadecimal digit, in either case, is its place among the digits |
| `Ipv6Text.PlaceOfDigit` | src/cliexec/cli_new.c:1286-1295 | and no other character is a digit |
| `Ipv6Text.NumeralStep` | src/cliexec/cli_new.c:1286-1295 | one more digit multiplies the number by the base and adds the place of the digit |
| `Ipv6Text.RecasedNumbers` | src/cliexec/cli_new.c:1286-1295 | letters of the other case give the same numbers |
| `Ipv6Scan.ScanText` | src/cliexec/cli_new.c:1247-1314 | for every text of the grammar, no write leaves the array, and the counters allow the gap to be filled |
| `Ipv6Scan.ScanIsCorrectIff` | src/cliexec/cli_new.c:1247-1326 | the scanned numbers are the eight groups and the prefix length, if and only if there are not both a dotted quad and a prefix length, or the numbers hide the extra merge |
| `Ipv6Scan.QuadWithPrefixGoesWrong` | src/cliexec/cli_new.c:1307-1307 | `1::2.3.4.5/64` is scanned wrongly |
| `Ipv6Scan.SpellingsAgree` | src/cliexec/cli_new.c:1247-1326 | two spellings of addresses give the same numbers if and only if they are the same address |
| `Ipv6Nets.ScannedNet` | src/cliexec/cli_new.c:1247-1326 | the nine numbers that any spelling of a net leaves, those with the extra merge included |
| `Ipv6Nets.ReadsAllIffSound` | src/cliexec/cli_new.c:1307-1307 | they are the groups and the prefix length if and only if there is no extra merge or the numbers hide it |
| `Ipv6Nets.SameNetIsReadAlikeIff` | src/cliexec/cli_new.c:1247-1326 | two spellings of one net leave the same numbers if and only if both are read rightly, or both wrongly with only zero groups between their `::` |
| `Ipv6Scan.ScanIpv6` | src/cliexec/cli_new.c:1247-1326 | the loops leave the scanned numbers in the array, which are the groups and the prefix length unless both tail and prefix are there |
| `Ipv6Scan.ScanNumbers` | src/cliexec/cli_new.c:1263-1314 | the loop over the text leaves the array and the counters of the specification |
| `Ipv6Scan.CloseInArray` | src/cliexec/cli_new.c:1303-1310 | writes a number and merges the second octet of a pair |
| `Ipv6Scan.FillGap` | src/cliexec/cli_new.c:1315-1325 | moves the numbers behind `::` to the end and puts zeros between |
| `LexOrder.LexIsTransitive` | src/cliexec/cli_new.c:606-617 | the order on scanned parts is transitive |
| `LexOrder.LexTells` | src/cliexec/cli_new.c:606-617 | of two sequences of one length the one that is less at the first difference is less |
| `ValueCompare.TableMeansCondition` | src/cliexec/cli_new.c:70-71 | the two tables mean EQ, NE, LT, LE, GT, GE and IN |
| `ValueCompare.ConditionOnLists` | src/cliexec/cli_new.c:513-645 | outside the count branch, a condition other than IN holds of two lists if and only if some compatible pair exists and all compatible pairs satisfy it |
| `ValueCompare.MembershipInList` | src/cliexec/cli_new.c:513-645 | IN holds if and only if some compatible right value equals the left value, of several the last one |
| `ValueCompare.RelatedByKey` | src/cliexec/cli_new.c:491-646 | on single values, a condition is that relation of the lexicographic order of what was scanned |
| `ValueCompare.ConditionsAreOfOneOrder` | src/cliexec/cli_new.c:491-646 | the conditions that hold of two values are LT, LE, NE or EQ, LE, GE, IN or GT, GE, NE; the second if and only if the same was scanned, and the third if and only if the first holds of the exchanged values |
| `ValueCompare.OrderIsTransitive` | src/cliexec/cli_new.c:491-646 | LE is transitive, strictly so where a step is strict |
| `ValueOrder.TextsDiffer` | src/cliexec/cli_new.c:599-602 | of two text or boolean values with a common prefix, the one with the smaller next character is less |
| `ValueOrder.PrefixIsLess` | src/cliexec/cli_new.c:599-602 | a text is less than one that goes on behind it, and equal to itself |
| `ValueOrder.NumbersDecide` | src/cliexec/cli_new.c:572-617 | integers, IPv4 addresses and nets and hardware addresses, as they are written, are compared by their numbers, of which the first difference decides |
| `ValueOrder.UnreadableIsLess` | src/cliexec/cli_new.c:584-597 | a value without a number at its front is less than one with, and equal to another one without |
| `ValueOrder.CountDecides` | src/cliexec/cli_new.c:528-544 | a list is compared with a single integer by the number of its values |
| `ValueOrder.CompatibleIff` | src/cliexec/cli_new.c:546-553 | a right value is left out if and only if it carries another type |
| `ValueOrder.ValuesOfList` | src/cliexec/cli_new.c:501-526 | a list has its values, and a single value is one |
| `ValueCompare.SpellingsAreEqualIff` | src/cliexec/cli_new.c:491-646 | two spellings of IPv6 addresses compare as equal if and only if they spell the same address |
| `Spellings.FieldsOfNumerals` | src/cliexec/cli_new.c:572-583 | numerals below 2^32 with the separators of the format are read as exactly their values, whatever else follows |
| `Spellings.KeyOfNumerals` | src/cliexec/cli_new.c:72-90 | numbers, IPv4 addresses and nets and hardware addresses of numerals below 2^32 are compared by their numbers, missing ones as zero |
| `Spellings.NumeralsAreEqualIff` | src/cliexec/cli_new.c:572-583 | two numerals have the same value if and only if they have the same characters apart from zeros in front and the case of letters |
| `Spellings.NumericSpellingsAreEqualIff` | src/cliexec/cli_new.c:491-646 | two such values, of numerals below 2^32, are equal if and only if all their numerals are, and every condition is that relation of the numbers |
| `Spellings.NetsCompareByReading` | src/cliexec/cli_new.c:556-565 | two IPv6 nets are equal if and only if the scanner leaves the same nine numbers |
| `Spellings.SameNetIsEqualIff` | src/cliexec/cli_new.c:491-646 | two spellings of one net are equal if and only if they are read alike; against a spelling without a dotted quad, if and only if the extra merge is hidden |
| `Spellings.SoundNetsAreEqualIff` | src/cliexec/cli_new.c:491-646 | where both are read rightly, they are equal if and only if they are the same net |
| `Spellings.RecasedScansAlike` | src/cliexec/cli_new.c:1247-1326 | an address or net written in letters of the other case leaves the same scanned numbers |
| `Spellings.RecasedIsEqual` | src/cliexec/cli_new.c:491-646 | and compares as equal |
| `Spellings.UpperCaseIsRead` | src/cliexec/cli_new.c:1286-1295 | `FE80::1` is scanned as 0xFE80, six zeros and 1 |
| `Spellings.SameNetComparesUnequal` | src/cliexec/cli_new.c:1307-1307 | `1::2.3.4.5/64` and `1::203:405/64` are one net and compare as different |
| `Spellings.DifferentNetsCompareEqual` | src/cliexec/cli_new.c:1307-1307 | `1::2.3.0.0/16` and `1::203/16` are different nets and compare as equal |
| `ValueCompare.KeyOfSpelling` | src/cliexec/cli_new.c:556-565 | what a text is compared by is what the scanner makes of it |
| `ValueCompare.CompareParts` | src/cliexec/cli_new.c:606-617 | the loop over the parts computes the lexicographic order |
| `ValueCompare.CompareWithRight` | src/cliexec/cli_new.c:519-643 | the loop over the right values, with the count branch |
| `ValueCompare.ValCmp` | src/cliexec/cli_new.c:491-646 | the two loops compute the specified outcome, of which the laws above are proved |
| `ExpandString.ExpandIsSubstitution` | src/cliexec/cli_new.c:1068-1190 | expanding a template, ordinary dollar signs included, substitutes every reference once and does not look at what was put in |
| `ExpandString.PlainTextIsCopied` | src/cliexec/cli_new.c:1093-1102 | text without `$VAR(` is copied, and so is text shorter than `$VAR(@)` |
| `ExpandString.CharacterIsCopied` | src/cliexec/cli_new.c:1093-1102 | a character other than a dollar sign is copied |
| `ExpandString.ReferenceIsReplaced` | src/cliexec/cli_new.c:1103-1182 | `$VAR(path)` is the value of the path, `$VAR(@)` the at-string, and what follows is expanded likewise |
| `ExpandString.BadReference` | src/cliexec/cli_new.c:1126-1136 | a reference without an end, or without a path, is an error of its kind |
| `ExpandString.PrintOfPieces` | src/cliexec/cli_new.c:1093-1160 | every text whose references are closed and not empty is the print of its pieces |
| `ExpandString.PiecesOfPrint` | src/cliexec/cli_new.c:1093-1160 | and pieces are those of their print, so that a text can be taken apart in one way only |
| `ExpandString.ExpandsIffClosed` | src/cliexec/cli_new.c:1068-1190 | expansion succeeds if and only if every reference that the scan comes to is closed and not empty, and is then substitution |
| `ExpandString.LookUp` | src/cliexec/cli_new.c:1124-1160 | looks up the text in front of the parenthesis, and the overwritten character is back afterwards |
| `ExpandString.Expander.Append` | src/cliexec/cli_new.c:1162-1182 | appends a value, growing the buffer so that there is room for the terminator |
| `ExpandString.Expander.Step` | src/cliexec/cli_new.c:1080-1183 | one round appends what the consumed text expands to |
| `ExpandString.Expander.ExpandInto` | src/cliexec/cli_new.c:1068-1190 | for every template, at-string, lookup and earlier buffer: success if and only if the references are closed and not empty; then the buffer holds exactly the substituted text and its terminator, no write leaves it, and the template is unchanged |
| `ValueArrays.LineCountIsRight` | src/cliexec/cli_new.c:430-441 | the counted number of lines is the number of lines |
| `ValueArrays.LinesAre` | src/cliexec/cli_new.c:430-479 | the lines of a text are what is between its newlines; an empty last line does not count |
| `ValueArrays.Constants` | src/cliexec/cli_val.h:28-28 | capacities are multiples of five, and values are split at blanks only |
| `ValueArrays.ValueList.AddVal` | src/cliexec/cli_new.c:141-173 | appends one value and its type inside storage whose capacity is the count rounded up to MULTI_ALLOC, and keeps the others |
| `ValueArrays.ValueList.SetLines` | src/cliexec/cli_new.c:419-482 | stores exactly the lines, with rounded capacity, and restores the text |
| `ValueArrays.FillLines` | src/cliexec/cli_new.c:464-479 | the loop stores exactly as many lines as were counted |
| `ValueArrays.ValueList.SetWords` | src/cliexec/cli_new.c:969-995 | stores the words of a text; a text without a word stays one value |
| `ValueArrays.JoinedValuesSplit` | src/cliexec/cli_new.c:969-995 | joined values without blanks split into the same values |
| `Cpath.UnescapeEscape` | src/client/cpath.hpp:139-152 | unescaping escaped text gives the text with line breaks as CR LF |
| `Cpath.ComponentRoundTripIff` | src/client/cpath.hpp:139-152 | a component survives if and only if its line breaks are CR LF pairs |
| `CpathText.UnreservedIff` | src/client/cpath.hpp:139-145 | the unreserved characters are those of section 2.3 of RFC 3986 |
| `CpathText.HexDigits` | src/client/cpath.hpp:139-152 | digits are written in upper case and read in either |
| `CpathText.UnreservedIsKept` | src/client/cpath.hpp:139-145 | an unreserved character stands for itself |
| `CpathText.OtherIsEncoded` | src/client/cpath.hpp:139-145 | any other character but a line break is written as its code |
| `CpathText.BreakIsEncoded` | src/client/cpath.hpp:139-145 | a line break is written as CR LF |
| `CpathText.CodeIsRead` | src/client/cpath.hpp:146-152 | a code is read as its character, and any other character as itself |
| `CpathText.LeadIsSkipped` | src/client/cpath.hpp:34-38 | blanks, tabs and slashes in front are skipped |
| `CpathText.OtherIsNotSkipped` | src/client/cpath.hpp:34-38 | and nothing else |
| `CpathText.SplitAtSlash` | src/client/cpath.hpp:39-45 | the text is split at its slashes |
| `Cpath.EscapeFitsIff` | src/client/cpath.hpp:139-145 | the escaped text fits the buffer, and its terminator does if and only if some character of the text takes less than six |
| `Cpath.PrintFitsIff` | src/client/cpath.hpp:116-145 | a whole path is printed within its buffers if and only if that is so of every component |
| `Cpath.ComponentOfEscape` | src/client/cpath.hpp:146-152 | no escaped text has an encoded zero byte, at which a component would end |
| `Cpath.PathRoundTripIff` | src/client/cpath.hpp:30-125 | parsing a printed path gives the path, if and only if it has a non-empty first component and paired line breaks |
| `Cpath.BadStartIsLost` | src/client/cpath.hpp:34-38 | a path that is empty or starts with an empty component is read with another number of components |
| `Cpath.ConfigPath.FromText` | src/client/cpath.hpp:30-46 | the loop pushes the unescaped components of the text, each up to an encoded zero byte |
| `Cpath.ConfigPath.Pop` | src/client/cpath.hpp:63-69 | takes off the last component and returns it |
| `Cpath.ConfigPath.PathString` | src/client/cpath.hpp:116-125 | the loop prints the path that parsing reads back |
| `VarRef.AtMostOnePath` | src/cliexec/cstore-varref.cpp:108-290 | a reference without `@@` yields at most one path |
| `VarRef.NeverTheRoot` | src/cliexec/cstore-varref.cpp:108-290 | a reference that ends in a name or `@@`, or in `@` while the root has no typeless template, never resolves to the root |
| `VarRef.ResolveDots` | src/cliexec/cstore-varref.cpp:168-190 | leading `..` steps move up, or give nothing |
| `VarRef.ResolveSteps` | src/cliexec/cstore-varref.cpp:166-190 | a reference of nothing but `.` and `..` resolves to the path that many steps up, or to nothing |
| `VarRef.UpTimesIsPrefix` | src/cliexec/cstore-varref.cpp:168-190 | after steps up, the path is a proper prefix that is not a list entry |
| `VarRef.StepsUpThenName` | src/cliexec/cstore-varref.cpp:168-258 | and the next name leads into the list entry of the original path |
| `VarRef.CollectedOnce` | src/cliexec/cstore-varref.cpp:292-322 | a non-empty value is collected once unless several are asked for |
| `VarRef.MultiValuesComeBack` | src/cliexec/cstore-varref.cpp:74-96 | the values of a multi leaf, joined, passed through `getValue` and split, are the same values in order |
| `RefValues.SingleLeafValue` | src/cliexec/cstore-varref.cpp:274-287 | `@` and `@@` on a single leaf are its value with its type, and empty text without a value |
| `RefValues.AtItself` | src/cliexec/cstore-varref.cpp:146-155 | `@` at the node of the reference is the value under validation with the type of the node |
| `RefValues.AtInside` | src/cliexec/cstore-varref.cpp:156-163 | `@` on the way to it is the component of that path, and elsewhere nothing |
| `RefValues.AtUntyped` | src/cliexec/cstore-varref.cpp:131-145 | `@` on a node without type changes nothing, and without a node there is nothing |
| `RefValues.Stay` | src/cliexec/cstore-varref.cpp:166-167 | `.` stays |
| `RefValues.StepUp` | src/cliexec/cstore-varref.cpp:168-190 | `..` drops a component, of a list entry two, and fails without a template or at the root |
| `RefValues.StepDown` | src/cliexec/cstore-varref.cpp:241-258 | a name goes down, in a list through the entry of the original path or the value under validation, and not at all below it |
| `RefValues.AllOnList` | src/cliexec/cstore-varref.cpp:215-236 | `@@` on a list is all its entries in order, and on a value nothing |
| `RefValues.AllUntyped` | src/cliexec/cstore-varref.cpp:196-240 | `@@` on a node without type is its children, and then falls through to the list or the leaf |
| `RefValues.ValueOfOne` | src/cliexec/cstore-varref.cpp:292-341 | one path has its last component as value, with its type; empty text without type if it does not exist; the root has none |
| `RefValues.AllCollected` | src/cliexec/cstore-varref.cpp:298-322 | of several paths, all values in their order when several are asked for |
| `RefValues.RepeatedIsLeftOut` | src/cliexec/cstore-varref.cpp:303-306 | a value that was collected is left out when they are not |
| `VarRef.Resolver.ProcessRef` | src/cliexec/cstore-varref.cpp:108-290 | terminates, and pushes exactly the paths of the recursive resolver, with its multi flag |
| `VarRef.Resolver.ProcessAll` | src/cliexec/cstore-varref.cpp:191-240 | the same for `@@` |
| `VarRef.Resolver.ProcessUp` | src/cliexec/cstore-varref.cpp:168-190 | the same for `..` |
| `VarRef.Resolver.ProcessAt` | src/cliexec/cstore-varref.cpp:131-165 | the same for `@` |
| `VarRef.Resolver.HandleLeaf` | src/cliexec/cstore-varref.cpp:260-289 | pushes the value of a leaf, or the joined values |
| `VarRef.Resolver.GetValue` | src/cliexec/cstore-varref.cpp:292-341 | the loops give the collected values, joined, and their type |
| `CstoreVarRef.ResolveRef` | src/cliexec/cstore-varref.cpp:29-71 | splits the text of a reference and resolves it against the global path |
| `RefTexts.CompsOfText` | src/cliexec/cstore-varref.cpp:52-63 | the components of a reference are what is between its slashes; one in front makes it absolute, one behind is ignored |
| `RefTexts.LeafIsRead` | src/cliexec/cstore-varref.cpp:29-71 | `name/@`, from the global path or the root, is the value of a single leaf in the configuration that is asked for |
| `RefTexts.NameIsRead` | src/cliexec/cstore-varref.cpp:307-315 | a name alone is itself if the node exists in that configuration, and empty otherwise |
| `RefTexts.AtIsRead` | src/cliexec/cstore-varref.cpp:146-155 | `@` alone is the value under validation |
| `RefTexts.ContextIs` | src/cliexec/cstore-varref.cpp:74-80 | the flag selects the configuration that is looked at |
| `CstoreVarRef.SettableIffResolved` | src/cliexec/cstore-varref.cpp:343-359 | a reference without `@@` has a path for setting if and only if it resolves below the root, and if it ends below the root, if and only if it resolves |
| `CstoreVarRef.Cli.SettableIff` | src/cliexec/cstore-varref.cpp:343-359 | a reference that ends below the root never makes `getSetPath` pop from an empty path, and one of nothing but `.` and `..` does so if and only if its steps lead to the root |
| `CstoreVarRef.Cli.SlashIsNotSettable` | src/cliexec/cstore-varref.cpp:343-359 | the reference `/` always does |
| `CstoreVarRef.RestoredDenotesSameIff` | src/cliexec/cstore-c.cpp:44-69 | when the printed path fits its buffer, restoring keeps the components if and only if the path is stable |
| `CstoreVarRef.StableStaysStable` | src/cliexec/cstore-c.cpp:44-69 | restoring a stable path again changes nothing |
| `CstoreVarRef.StablePathMayOverflow` | src/client/cpath.hpp:139-145 | a path that is restored as it was may have an empty component, for whose terminator there is no room |
| `CstoreVarRef.SlashesGrow` | src/cliexec/cstore-c.cpp:44-69 | a path of n slashes has n + 1 empty components and is restored as n + 1 slashes, as long as these fit |
| `CstoreVarRef.EmptyPathGrows` | src/cliexec/cstore-c.cpp:44-69 | k restorations of the empty path give k slashes, until the buffer is full |
| `CstoreVarRef.Cli.GetVarRef` | src/cliexec/cstore-c.cpp:37-71 | gives the value of the reference and restores the path on every exit behind its change |
| `RefTexts.NodeIsRead` | src/cliexec/cstore-c.cpp:44-53 | a reference is resolved from the global path, without the value at its end if there is one |
| `RefTexts.ParentPathIsRead` | src/cliexec/cstore-c.cpp:102-109 | a reference to be set is resolved from the global path without its last component |
| `RefTexts.FitIs` | src/cliexec/cli_objects.c:72-78 | the buffer of the global path holds 4095 characters |
| `CstoreVarRef.Cli.SetVarRef` | src/cliexec/cstore-c.cpp:91-134 | hands the value to the server if and only if one path resolves, below the root, to a leaf and the candidate is meant, tells whether the server accepted it, and restores the path |
| `CstoreVarRef.Cli.RunCalls` | src/cliexec/cstore-c.cpp:37-134 | any sequence of calls leaves a stable global path denoting the same components |
| `Rpc.AcceptedCarriesIdIff` | src/client/connect.c:564-600 | a document is accepted only under the id it carries, if and only if it is no result or error list without an integer id |
| `Rpc.ResultWithTextIdIsAccepted` | src/client/connect.c:590-594 | a result whose id is a string is accepted by every request |
| `Rpc.RunDeliveries` | src/client/connect.c:153-184 | over every run, what is delivered comes from the stream and was accepted under the number of its request |
| `Rpc.RunCarriesIdsIff` | src/client/connect.c:540-653 | over a run, all deliveries carry the id of their request if and only if no received document is a result or error list without an integer id |
| `Rpc.DeliveriesCarryTheirNumberIff` | src/client/connect.c:540-653 | in a run of fewer than 2^32 requests, late responses and garbage included, every delivery carries the number of its own request under exactly that condition |
| `Rpc.LateResponseIsNotDelivered` | src/client/connect.c:540-653 | a response that carries the id of another request of the run is never delivered, whatever else is in the stream |
| `RightResponses.ReceivedInOrder` | src/client/connect.c:553-560 | the written requests of a run get the documents of the stream one after the other, garbage left out |
| `RightResponses.EveryRequestCounts` | src/client/connect.c:153-184 | every request counts that has its arguments, also one that cannot be written |
| `RightResponses.DeliveredIff` | src/client/connect.c:540-600 | in any run, the document that a request receives is delivered if and only if it carries the number of that request and says something readable or nothing, or has no integer id and a readable result or error list |
| `RightResponses.ExtractedIff` | src/client/connect.c:562-588 | what can be extracted is a string error, a readable result, a readable error list, or nothing; the status is that of success for the second and third |
| `RightResponses.RightResponseIsDelivered` | src/client/connect.c:540-600 | in particular, a readable document that carries the number of the request that receives it |
| `RightResponses.ResultIsExtracted` | src/client/connect.c:497-538 | a result is its number, string, vector or map |
| `RightResponses.NumberIsReduced` | src/client/connect.c:509-512 | a number is reduced to 32 bits |
| `RightResponses.ErrorIsExtracted` | src/client/connect.c:570-577 | a string error is its text |
| `RightResponses.OneErrorIsExtracted` | src/client/connect.c:372-458 | each field of a management error is that of its key, and of its info the last entry of each key |
| `RightResponses.ErrorsAreExtracted` | src/client/connect.c:392-495 | an error list is all its errors in order |
| `RightResponses.CallerSeesError` | src/client/connect.c:607-647 | the caller of a request gets the error text of the server |
| `RightResponses.CallerSeesErrors` | src/client/error.c:408-445 | or all its errors in order, with the only message or all messages as text |
| `RightResponses.CallerSeesResult` | src/client/connect.c:614-776 | or the result, if it is of the kind that was asked for |
| `RightResponses.CallerSeesFailure` | src/client/connect.c:623-635 | or what went wrong |
| `RpcClient.FreeFields` | src/client/error.c:34-66 | frees every object of an error once and nothing else |
| `RpcClient.FreeList` | src/client/error.c:366-377 | frees every object of a list once and nothing else |
| `RpcClient.SetFromMaps` | src/client/error.c:111-142 | copies the fields and takes over the info |
| `RpcClient.ArrayToMap` | src/client/connect.c:234-286 | the entries of all objects of an array, or nothing when one is no string |
| `RpcClient.ReadInfo` | src/client/connect.c:371-388 | the info of an error, none when it has none |
| `RpcClient.ReadErrors` | src/client/connect.c:392-462 | the error list is complete and in order, or empty with everything freed |
| `RpcClient.ArrayToVector` | src/client/connect.c:186-230 | the strings of an array, or nothing when one is no string |
| `RpcClient.ExtractResult` | src/client/connect.c:497-538 | the response holds the result and owns what was allocated for it |
| `RpcClient.ExtractErrors` | src/client/connect.c:464-495 | the response holds the whole error list, or an empty one |
| `RpcClient.FreeResponse` | src/client/connect.c:52-73 | frees exactly what the response owns |
| `RpcClient.Conn.SendRequest` | src/client/connect.c:153-184 | the id goes up by one, modulo 2^32, unless the request is rejected |
| `RpcClient.Conn.LoadDocument` | src/client/connect.c:553-560 | skips garbage to the first document or the end |
| `RpcClient.Conn.RecvResponse` | src/client/connect.c:540-600 | succeeds if and only if the document is accepted; in any case the response owns exactly what was allocated |
| `RpcGet.TakeOver` | src/client/error.c:408-445 | the list changes its owner, with a text for it |
| `RpcGet.SummaryText` | src/client/error.c:430-444 | a fixed text, the only message, or all messages line by line |
| `RpcGet.Get` | src/client/connect.c:614-776 | every object allocated for a request is freed or owned by exactly one of the answer and the error; the answer is the delivered content if it has the wanted kind, otherwise the error says what arrived |
| `RpcGet.FreeError` | src/client/error.c:319-330 | frees exactly what the error owns, and leaves its flag set |
| `RpcGet.FormatError` | src/client/error.c:190-221 | the formatted error is all that stays allocated; the copied path is freed |
| `RpcGet.PrependErrors` | src/client/error.c:289-311 | the formatted errors in reverse order in front of the failure line; of all the buffers of the loop exactly the last output stays |
| `RpcGet.FormatForCommit` | src/client/error.c:262-317 | the commit text takes the place of the old text, and of everything allocated on the way exactly one buffer is lost if the error has no list, and none otherwise |
| `RpcGet.FormatAfterFree` | src/client/error.c:262-330 | formatting an error that has been freed loses a buffer, for every error list received |
| `RpcGet.OneErrorIsDelivered` | src/client/connect.c:464-495 | a response with one empty error is such a list |
| `RpcGet.RunRequests` | src/client/connect.c:614-776 | after any run of requests whose errors are freed, the answers are those of the run and exactly they are allocated |
| `CText.StrCat` | src/client/error.c:396-401 | appends inside the buffer |
| `ErrorText.PathIsShownAsComponents` | src/client/error.c:146-178 | a path of components, with or without a slash at either end, is shown as the components with single blanks |
| `ErrorText.ShownPathCanBeRead` | src/client/error.c:146-178 | the words of a shown path are its components |
| `ErrorText.SpaceSeparated` | src/client/error.c:146-178 | the edits in the buffer give the shown path |
| `ErrorText.FormatBlock` | src/client/error.c:199-216 | path, message and path in their places, and the computed length does not truncate |
| `ErrorText.BlockTellsApart` | src/client/error.c:190-221 | two formatted texts are equal if and only if path and message are, as long as paths have no closing bracket |
| `ErrorText.TextOfOneError` | src/client/error.c:179-317 | the text of a single error, letter by letter |
| `ErrorText.TextOfEmptyError` | src/client/error.c:190-317 | that of an error without path and message, and without an operation |
| `ErrorText.TextOfNoError` | src/client/error.c:262-317 | and that without errors |
| `ErrorText.Prepend` | src/client/error.c:291-303 | one text in front of another, and the computed length does not truncate |
| `ErrorText.LaterErrorsFirst` | src/client/error.c:289-311 | the text of a list is the text of its end followed by the text of its beginning |
| `ErrorText.MergeMessages` | src/client/error.c:381-404 | all messages, one per line, in a buffer that fits exactly |
| `ErrorText.MergedCanBeRead` | src/client/error.c:381-404 | the lines of the merged text are the messages in order |
| `CompletionEnv.ShellEscape` | src/client/completion_env.cpp:43-50 | finding and replacing from left to right escapes every quote of the text once |
| `CompletionEnv.EscapeTrim` | src/client/completion_env.cpp:249-266 | escaping commutes with trimming |
| `CompletionEnv.TrimIsCore` | src/client/completion_env.cpp:254-266 | the trimmed string is what stands between the blanks at both ends |
| `CompletionEnv.EraseBlanks` | src/client/completion_env.cpp:254-266 | the loops trim |
| `CompletionEnv.ReadItems` | src/client/completion_env.cpp:214-219 | the shell reads an emitted array as exactly its strings |
| `CompletionEnv.ReadHelpText` | src/client/completion_env.cpp:239-270 | the shell reads the flag, the help text and the two help arrays back |
| `CompletionEnv.EnvironmentText` | src/client/completion_env.cpp:30-34 | the environment letter by letter, with the names of its variables |
| `CompletionEnv.ItemsText` | src/client/completion_env.cpp:216-219 | each item in quotes and with a blank behind it |
| `CompletionEnv.EnvironmentCanBeRead` | src/client/completion_env.cpp:214-271 | without a command in the template, the shell reads back every string of the environment |
| `CompletionEnv.EmitPairs` | src/client/completion_env.cpp:245-269 | the loop emits the two arrays of trimmed strings |
| `CompletionEnv.EmitEnvironment` | src/client/completion_env.cpp:203-271 | the emitted text is that environment, so that without a command the shell reads back the values and, in two arrays of equal length, the trimmed items and help strings of the pairs in order |
| `RenamePaths.Argz.Pop` | src/client/transaction.c:19-28 | takes off the last element, if there is one |
| `RenamePaths.SplitPath` | src/client/transaction.c:31-66 | fails if and only if there are fewer than three elements; otherwise splits off the qualifier and the new name |
| `RenamePaths.MakePaths` | src/client/transaction.c:68-92 | the two paths of the fields of the text |
| `RenamePaths.PathsAreRight` | src/client/transaction.c:31-92 | p/x/q/y gives the paths of p/x and p/y, which read back as their components |
| `RenamePaths.TooFewComponents` | src/client/transaction.c:31-66 | a path of components gives no paths if and only if it has fewer than three |
| `RenamePaths.LastSlashIsEmptyTarget` | src/client/transaction.c:68-92 | a slash at the end counts as an empty new name |

## Left out

- XorpConfigParser, comments, and the activate and deactivate lists of ConfigLoad.pm: not part of this model.
- Components with blanks or quotes in the diff: quoting rewrites the caller's strings there; plain components only.
- The order of hash keys and of listed children: any function of the key set, given as a parameter; two nodes with the same keys are listed alike.
- ConfigHierarchy.GenerateHierarchy: the walk through nested hash references is a recursive insertion; aliasing is not captured.
- ValueLists.CompareValueLists: for duplicate-free lists, as values of a node are.
- StatementOrder.LoadedFile: files that give two different values to one single-value leaf, of which the hash order picks one.
- Ipv6Scan.ScanIpv6: for texts of the grammar; what other texts leave in the array is not stated.
- ValueCompare.ValCmp: `sscanf` on signs, blanks, 0x prefixes and numbers of 2^32 and more is not modelled.
- Spellings.FieldsOfNumerals: numerals of 2^32 and more, for which the conversion is not defined.
- Spellings.KeyOfNumerals: the same numerals.
- Spellings.NumericSpellingsAreEqualIff: the same numerals.
- ExpandString.Expander.ExpandInto: the empty template, for which the source copies the terminator and reads on behind it.
- CstoreVarRef.Cli.SetVarRef: a reference that resolves to the root, on which the source pops from an empty vector; `SettableIff` says which references do.
- CstoreVarRef.RestoredDenotesSameIff: paths that do not fit the 4096 characters of the buffer.
- RpcGet.Get: a list of several errors with a missing message, on which the source dereferences a null pointer.
- RpcGet.Get: the contents of an answer to a document without result and error, whose type is uninitialised; ownership is covered.
- JSON documents themselves, and the buffers inside vectors and maps: one object each.
- Out-of-memory branches.
- Sockets, stdio, fork/exec, popen and regular expressions; uriparser, jansson, argz and vyatta-util internals.
- CompletionEnv.EnvironmentCanBeRead: a command of the template inside the first array, whose meaning is up to the shell.
- RenamePaths.MakePaths: its allocations.
- The thin RPC wrappers, the flex and bison files, scripts, YANG modules and bindings: they add no computation.
