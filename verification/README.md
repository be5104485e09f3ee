# Verified models of the template linter, the search indexer and three smaller state machines

This project models parts of the edX platform in Dafny and proves properties of them. Each part of the
repository's code that changes state step by step is a class or a method with loops, proved against a
specification written as functions and predicates; what the code is for is then proved about the specification.

* **The safe-template linter** (`scripts/safe_template_linter.py`): lines and indexes (`StringLines.dfy`), string
  literals (`ParseStrings.dfy`), bracket matching that skips strings and commented lines (`ClosingChar.dfy`), the
  Mako expression finder (`MakoExpressions.dfy`), HTML and JavaScript contexts (`MakoContexts.dfy`), violations moved
  from a slice into the template (`ShiftedViolations.dfy`), merged HTML concatenations (`ConcatHtml.dfy`), repeated
  preparation of a violation and the pragma that disables it (`ViolationLines.dfy`), and the visitors of Python syntax trees (`PythonVisitors.dfy`).
* **The linter's summary and the build that reads it** (`SummaryReport.dfy`, `SafelintBuild.dfy`).
* **Incremental search indexing**: one run (`CourseIndex.dfy`), its documents by the items' places
  (`IndexedItems.dfy`), runs that are triggered and executed at any time
  against a changing course (`IndexSchedule.dfy`), and the changes of the course tree (`CourseChanges.dfy`).
* **Course creators** (`CourseCreators.dfy`), **the passthrough option parser** (`PassthroughOpts.dfy`) and
  **exam registration** (`Proctoring.dfy`).

`dafny verify dfyconfig.toml` checks everything.

## What turned out

* `_find_mako_expressions` does not return on every template. When every line from a start delimiter to the end of
  the template is commented out, `_uncommented_start_index` gives None, and the search for the next delimiter starts
  again at the beginning (lines 2453-2461). `MakoExpressions.LoopFinishesIff` shows that the loop finishes if and only
  if no start delimiter lies in such a commented tail; `CommentedTailExample` names a template on which it does not.
  On all other templates the result is the one list of expressions that is sound, ordered and complete.
* The comment at line 873 says that a second start delimiter makes an expression unparseable. The code never does
  that: the search for it begins at the opening character it is compared with. `NestedStartDelimiterExample` shows
  an expression with another one inside. The model follows the code.
* An incremental run refreshes exactly the documents none of whose ancestors fails the age test, so the index catches
  up with every interleaving of changes and late tasks in which each change is followed by a task triggered within
  the look-back period; `CourseChanges.LateTriggerExample` shows that a later trigger is not enough, and
  `IndexSchedule.UpToDateIff` says between two changes exactly which documents are up to date.
* A full reindex gives what a rebuild from nothing gives if and only if the engine it starts from has no document of
  the course whose id is kept although the item has no document any more (`IndexSchedule.ReindexRebuildsIff`);
  otherwise exactly these documents stay beside it (`ReindexIsRebuildAndRetained`). That takes a container with
  children whose index dictionary was not empty and becomes so (`RetainedDocumentExample`). The containers of the
  repository that have one (common/lib/xmodule/xmodule/seq_module.py:446-464,
  common/lib/xmodule/xmodule/vertical_block.py:163-183) always return a non-empty one, so it takes another block type
  for this to happen.
* The creator group does not always follow the table, even when only staff make grants: adding a user who is not
  active to a role is silently left out (common/djangoapps/student/roles.py:148-160), while the row becomes granted
  and the user is notified (`CourseCreators.InactiveGrantExample`). An operation keeps the group consistent if and
  only if whoever asks may change the group, or need not, and a grant is about an active user
  (`OperationKeepsConsistentIff`); without the permission the row is written before the check refuses.
  `RunKeepsConsistentIff` says the same of whole runs. Saving an instance loaded before somebody else's grant breaks it
  too (`StaleInstanceExample`), and `SaveKeepsConsistentIff` says for which instances saving is safe.
* Parsing the passed-through options again gives the same list if and only if none of them that begins with two dashes
  is "--" or a known option (`PassthroughOpts.ReparseIff`); a dash inside a cluster of letters can produce one.

## Model

| member | source | states |
|---|---|---|
| StringLines.StringLines.ProcessLineBreaks | scripts/safe_template_linter.py:36-56 | the loop over found line breaks gives the starts of all lines |
| StringLines.StartsComplete | scripts/safe_template_linter.py:36-56 | every index at which a line begins is listed, under the number that line numbering gives it |
| StringLines.StringLines.IndexToLineNumber | scripts/safe_template_linter.py:64-82 | the line number is one more than the line breaks before the index |
| StringLines.StringLines.IndexToColumnNumber | scripts/safe_template_linter.py:84-99 | line start plus column, less one, is the index again |
| StringLines.StringLines.IndexToLineStartIndex | scripts/safe_template_linter.py:101-113 | gives the last line start at or before the index |
| StringLines.StringLines.IndexToLineEndIndex | scripts/safe_template_linter.py:115-127 | gives the end of the line that holds the index |
| StringLines.StartOfLineNumber | scripts/safe_template_linter.py:101-141 | looking the start up by line number agrees with walking back to the last line break |
| StringLines.Located | scripts/safe_template_linter.py:64-141 | the numbered line holds the index between its start and its end |
| StringLines.LinesPartition | scripts/safe_template_linter.py:129-160 | the line ranges are consecutive, cover the text and hold exactly the indexes of their line |
| StringLines.LineTextHasNoBreak | scripts/safe_template_linter.py:162-179 | the text of a line has no line break |
| StringLines.StringLines.LineNumberToLine | scripts/safe_template_linter.py:162-179 | gives the text of the line without its break |
| StringLines.JoinRestoresText | scripts/safe_template_linter.py:162-179 | joining all lines with line breaks gives the original text |
| ParseStrings.ParseLiteral | scripts/safe_template_linter.py:703-744 | the literal found is the one a character-by-character lexer finds, with its quote length and texts |
| ParseStrings.FindLiteralEnd | scripts/safe_template_linter.py:726-744 | the find-and-skip loop refines the lexer |
| ParseStrings.FindAndSkip | scripts/safe_template_linter.py:727-733 | one round of the loop makes the same progress as the lexer |
| ParseStrings.LiteralEndsAtFirstUnescapedQuote | scripts/safe_template_linter.py:703-744 | a literal ends at its first quote preceded by an even number of backslashes, and not at all without one |
| ParseStrings.LiteralTextRebuilds | scripts/safe_template_linter.py:734-744 | the text is the stretch of the template and is quote, inner text, quote |
| ParseStrings.OpeningQuoteIs | scripts/safe_template_linter.py:720-725 | three equal quotes open with three, anything else with one |
| ParseStrings.BackslashRunIs | scripts/safe_template_linter.py:726-733 | the backslashes counted before a quote are all those in a row before it, within the literal |
| ParseStrings.ParsedFromFirstQuote | scripts/safe_template_linter.py:682-701 | the literal begins at the first single or double quote of the range, if there is one |
| ParseStrings.Parse | scripts/safe_template_linter.py:659-701 | parses the literal at the first quote in the range, if there is one |
| ClosingChar.UncommentedStartIndex | scripts/safe_template_linter.py:893-922 | gives the first index, from the given one on, that is on an uncommented line |
| ClosingChar.NextUncommentedLineIsFirstLive | scripts/safe_template_linter.py:908-910 | the search for an uncommented line start finds the first uncommented index |
| ClosingChar.CommentedIff | scripts/safe_template_linter.py:908 | a line is commented out if and only if the delimiter follows its start after white space alone, line breaks included |
| ClosingChar.LiveIff | scripts/safe_template_linter.py:893-922 | an index is on a commented line if and only if the line that holds it begins like that |
| ClosingChar.FindUseful | scripts/safe_template_linter.py:836-859 | the loop over commented places changes nothing that the one-pass lexer would see |
| ClosingChar.FindClosingCharIndex | scripts/safe_template_linter.py:808-891 | returns what the one-pass lexer returns: the closing index and the literals on the way, or None; terminates |
| ClosingChar.ScanAtUseful | scripts/safe_template_linter.py:861-891 | what the lexer does at the first place found is what the matcher does there |
| ClosingChar.ScanFindsFirstUnmatched | scripts/safe_template_linter.py:808-891 | the result is the first bracket that closes more than was open, among live brackets outside literals, and None exactly when no bracket does |
| ClosingChar.ScanCollectsLiterals | scripts/safe_template_linter.py:861-880 | the strings returned are, in order, the literals before the closing character: each opens at a live quote outside the others, and every live quote opens one or is inside one |
| ClosingChar.BracketsOutsideLiterals | scripts/safe_template_linter.py:836-891 | the brackets that are counted are, in order, the live ones outside the literals, up to the first quote that opens no literal |
| MakoExpressions.FindMakoExpressions | scripts/safe_template_linter.py:2436-2485 | the loop finds the expressions that visiting every index finds |
| MakoExpressions.ExpressionsOrdered | scripts/safe_template_linter.py:2452-2484 | each expression begins at a live start delimiter, is the one that begins there, and no two overlap |
| MakoExpressions.ExpressionsComplete | scripts/safe_template_linter.py:2452-2484 | every start delimiter on an uncommented line is a reported start or inside a parsed expression |
| MakoExpressions.ExpressionsUnique | scripts/safe_template_linter.py:2452-2484 | no other list is sound, ordered and complete |
| MakoExpressions.ParsedExpressionText | scripts/safe_template_linter.py:2471-2481 | a parsed expression has its text, from the start delimiter to a closing brace on an uncommented line |
| MakoExpressions.BeginsAtIff | scripts/safe_template_linter.py:2452-2466 | an expression begins exactly where "${" stands on a line that "##" does not comment out |
| MakoExpressions.ExpressionEndsAtBrace | scripts/safe_template_linter.py:2466-2481 | an expression ends after the first live closing brace that closes more than was opened behind its start delimiter, and is not parsed exactly when there is none |
| MakoExpressions.ExpressionStrings | scripts/safe_template_linter.py:2466-2481 | the strings of a parsed expression are the literals between its delimiters; an unparsed one has neither strings nor text |
| MakoExpressions.NestedStartDelimiterExample | scripts/safe_template_linter.py:872-876 | an expression with a second start delimiter inside is not rejected |
| MakoExpressions.TurnKeepsTotal | scripts/safe_template_linter.py:2452-2484 | each turn of the loop moves forward and keeps found and remaining expressions together |
| MakoExpressions.LoopStays | scripts/safe_template_linter.py:2453-2461 | with a start delimiter in the commented tail no number of turns finishes |
| MakoExpressions.LoopFinishesIff | scripts/safe_template_linter.py:2452-2484 | the loop finishes if and only if no start delimiter has only commented lines at and after it |
| MakoExpressions.DelimiterInCommentedTailIff | scripts/safe_template_linter.py:2453-2461 | what a start delimiter in a commented tail is, in the characters of the template |
| MakoExpressions.CommentedTailExample | scripts/safe_template_linter.py:2453-2461 | a template on which no number of turns of the loop is enough |
| MakoExpressions.LiveLastLineFinishes | scripts/safe_template_linter.py:2452-2484 | an uncommented last line is enough for it to finish |
| MakoContexts.GetContexts | scripts/safe_template_linter.py:2362-2411 | one context per tag after the initial one, by kind and media type, with indexes that do not go back |
| MakoContexts.GetContext | scripts/safe_template_linter.py:2413-2434 | the context is that of the last entry at or before the index |
| MakoContexts.ContextByLastTag | scripts/safe_template_linter.py:2362-2434 | the context of an index is HTML before any tag, and otherwise what the last tag that ends before it, or the last end tag that starts before it, opens: JavaScript, HTML or unknown by kind and media type |
| MakoContexts.SlicesHoldJavaScript | scripts/safe_template_linter.py:2095-2108 | the linted slices hold exactly the indexes whose context is JavaScript |
| MakoContexts.SlicesOrdered | scripts/safe_template_linter.py:2095-2108 | the slices lie in the template, in order and without overlap |
| ShiftedViolations.Results.ShiftAndAdd | scripts/safe_template_linter.py:2198-2220 | every violation is added, and each expression object moves once for each violation that holds it |
| ShiftedViolations.ShiftCounts | scripts/safe_template_linter.py:2213-2220 | the distance an object moves is the offset times the number of violations that hold it |
| ShiftedViolations.CheckJavascriptContext | scripts/safe_template_linter.py:2110-2127 | what is added is what the linter found, moved by the offset |
| ShiftedViolations.CheckJavascriptContexts | scripts/safe_template_linter.py:2082-2108 | the violations added are those of all slices, at their places in the template |
| ShiftedViolations.FindingOfSlice | scripts/safe_template_linter.py:2082-2127 | nothing is lost or reordered: every finding of every slice is added once, with its rule and at its place |
| ShiftedViolations.FindingsPointIntoJavaScript | scripts/safe_template_linter.py:2082-2127 | a moved violation points at the same text as in its slice, and only at JavaScript; one without an end, up to the end of the slice |
| ConcatHtml.CheckConcatWithHtml | scripts/safe_template_linter.py:1366-1417 | the loop merges each match into the last violation of its line or starts a new one |
| ConcatHtml.ViolationLinesIncrease | scripts/safe_template_linter.py:1392-1417 | violations start on strictly increasing lines |
| ConcatHtml.ViolationIsMaximalRun | scripts/safe_template_linter.py:1392-1417 | a violation is a maximal run of matches that start on one line |
| ConcatHtml.ViolationsByLineNumber | scripts/safe_template_linter.py:1392-1417 | the same by the line numbers of the starts, with violations on increasing lines |
| ConcatHtml.EachMatchInOneViolation | scripts/safe_template_linter.py:1392-1417 | every match is inside exactly one violation and outside all others |
| ViolationLines.ExpressionRuleViolation.PrepareResults | scripts/safe_template_linter.py:442-465 | sets lines and columns, appends the texts of the lines once more, and marks the violation as disabled if and only if a pragma says so |
| ViolationLines.ExpressionRuleViolation.MarkDisabled | scripts/safe_template_linter.py:294-327 | a violation becomes disabled by the first pragma of a line that names its rule, near enough to the start if it must be |
| ViolationLines.ExpressionRuleViolation.MarkExpressionDisabled | scripts/safe_template_linter.py:391-428 | looks at the start of the line before the violation and anywhere on its first line |
| ViolationLines.DisablesIff | scripts/safe_template_linter.py:294-327 | a line disables a rule if and only if the first text "safe-lint: disable=names" in it lists the rule, with at most five characters other than spaces before it where it must be at the start |
| ViolationLines.SplitHasListed | scripts/safe_template_linter.py:324-327 | a rule is one of the names if and only if it stands between commas or the ends |
| ViolationLines.ExpressionRuleViolation.LineToPrint | scripts/safe_template_linter.py:484-496 | after any number of preparations each line of the expression is at the place where printing looks for it |
| ViolationLines.ExpressionRuleViolation.LinesToPrint | scripts/safe_template_linter.py:467-497 | after any number of preparations exactly the lines of the expression are printed |
| ViolationLines.RepeatedBegins | scripts/safe_template_linter.py:463-464 | repeated lines begin with the lines in their order |
| PythonVisitors.FormatInterpolateVisitor.Visit | scripts/safe_template_linter.py:1568-1623 | stopping early does not change whether a wrapped call is found |
| PythonVisitors.InterpolatesMeans | scripts/safe_template_linter.py:1589-1623 | it finds a wrapped call as the caller or anywhere in the arguments |
| PythonVisitors.OccursStep | scripts/safe_template_linter.py:1468-1477 | occurrence below a node, outside __repr__, unfolds along the children |
| PythonVisitors.ContainsFormatVisitor.Visit | scripts/safe_template_linter.py:1533-1565 | finds a format attribute anywhere below the node outside __repr__ |
| PythonVisitors.AllNodeVisitor.Visit | scripts/safe_template_linter.py:1656-1740 | reports, in order, every node that breaks one of its five rules |
| PythonVisitors.HtmlStringVisitor.Visit | scripts/safe_template_linter.py:1480-1530 | collects, in order, the strings that look like HTML and those with entities, passing over wrapped ones or not |
| PythonVisitors.FindsHtmlStrings | scripts/safe_template_linter.py:1728-1735 | without passing over anything it finds a string if and only if one occurs |
| PythonVisitors.HasHtmlString | scripts/safe_template_linter.py:1728-1735 | whether one side of an operation holds a string that looks like HTML |
| PythonVisitors.OuterFormatVisitor.Visit | scripts/safe_template_linter.py:1626-1653 | reports, in order, what the string visitor collects in each outermost format() call |
| PythonVisitors.ReportedOnce | scripts/safe_template_linter.py:1420-1653 | a node is reported as often as the visitor that reaches it reports it, and not at all if none does |
| PythonVisitors.FormatCallsReportedOnce | scripts/safe_template_linter.py:1679-1705 | a format() call is reported once if and only if its arguments hold a wrapped call and its left-hand side is not wrapped, outside __repr__ |
| PythonVisitors.WrapperCallsReportedOnce | scripts/safe_template_linter.py:1706-1712 | an HTML() or Text() call is reported once if and only if a format attribute occurs inside |
| PythonVisitors.DeprecatedNamesReportedOnce | scripts/safe_template_linter.py:1666-1677 | each use of the deprecated name is reported once, outside __repr__ |
| PythonVisitors.HtmlOperationsReportedOnce | scripts/safe_template_linter.py:1716-1740 | each "+" and each "%" outside __repr__ is reported once, as a concatenation and as an interpolation, if and only if a string that looks like HTML is on either side; nothing else is |
| PythonVisitors.NoStringsReported | scripts/safe_template_linter.py:1656-1740 | this visitor reports nothing under the rules about strings in format() calls |
| PythonVisitors.ReportsInOrder | scripts/safe_template_linter.py:1420-1740 | every visitor reports in the order of the code: a node before those below it, and from left to right |
| PythonVisitors.LooksLikeHtmlIff | scripts/safe_template_linter.py:1511-1513 | a string looks like HTML if and only if it holds '<' and nowhere "(?P<" |
| PythonVisitors.HasEntityIff | scripts/safe_template_linter.py:1514-1515 | a string has an entity if and only if an ampersand, perhaps a number sign, letters or digits and a semicolon follow each other in it |
| PythonVisitors.UnwrappedStringsListedOnce | scripts/safe_template_linter.py:2184-2194 | in a Mako expression a string that looks like HTML, or holds an entity, is listed once if and only if it is not wrapped |
| PythonVisitors.HtmlStringsReportedOnce | scripts/safe_template_linter.py:1634-1653 | a string that looks like HTML is reported once if and only if it is inside a format() call and not wrapped below the outermost one |
| SummaryReport.DecimalValue | pavelib/quality.py:534-541 | reading a printed number gives the number, and none has leading zeros |
| SummaryReport.MatchCountIff | pavelib/quality.py:532 | what a match of the rules' expression is, part by part |
| SummaryReport.NextMatchIsFirst | pavelib/quality.py:532-537 | the search stops at the first place, at the start of a line, with a match |
| SummaryReport.CountsLastMatch | pavelib/quality.py:535-539 | a rule has a count if and only if it is matched, and its last match counts |
| SummaryReport.TotalIsFirst | pavelib/quality.py:533-541 | the total is the number at the first line that begins with digits and " violations total" |
| SummaryReport.SummaryText | scripts/safe_template_linter.py:538-548 | the lines that are printed, character by character: the rules aligned as the longest demands, and the total after two empty lines |
| SummaryReport.BeforeIff | scripts/safe_template_linter.py:542 | the order of the rules is that of their first different characters |
| SummaryReport.GetSafelintCounts | pavelib/quality.py:517-546 | the loop over the matches gives the counts by rule and the total |
| SummaryReport.ReadRuleLine | scripts/safe_template_linter.py:541-543 | a printed rule line is read as that rule and count |
| SummaryReport.SortedIsAscending | scripts/safe_template_linter.py:541 | the rules are printed in ascending order, each as often as it is there |
| SummaryReport.HarmlessLine | pavelib/quality.py:531-532 | a line at whose start neither expression matches changes nothing, whatever follows it |
| SummaryReport.ViolationLineIsHarmless | scripts/safe_template_linter.py:491-497 | the line printed for a violation of a file is such a line, if the file's path has no space and no colon |
| SummaryReport.FileLineIsHarmless | scripts/safe_template_linter.py:354-362 | so is the line printed for a violation of a file as a whole |
| SummaryReport.ReportReadsBack | pavelib/quality.py:517-546 | reading a printed report gives back the totals by rule and the total |
| SafelintBuild.SummaryResults.AddViolation | scripts/safe_template_linter.py:514-523 | counts the violation in the total and under its rule |
| SafelintBuild.SummaryResults.TotalIsSum | scripts/safe_template_linter.py:514-523 | the total is the sum of the counts by rule |
| SafelintBuild.SummaryResults.PrintResults | scripts/safe_template_linter.py:525-548 | prints the aligned totals of all rules in sorted order and the total |
| SafelintBuild.RunSafelint | pavelib/quality.py:344-405 | fails if and only if a count read exceeds its limit or a limit names a rule that is not in the report, and says exactly which |
| SafelintBuild.CheckRules | pavelib/quality.py:380-396 | names every rule that was not found and every rule with too many violations, and no other |
| SafelintBuild.LineForIsHarmless | scripts/safe_template_linter.py:491-497 | the line printed for a violation does not disturb the reading, for a path without spaces and colons |
| SafelintBuild.LineForText | scripts/safe_template_linter.py:354-497 | the lines printed for violations in full |
| SafelintBuild.PrintAndAdd | scripts/safe_template_linter.py:605-609 | each reported violation is printed and counted once, in order |
| SafelintBuild.LintAndDecide | pavelib/quality.py:333-405 | from the reported violations to the decision: the build fails if and only if their number, in all or of a rule, exceeds a limit or a limit names an unknown rule |
| CourseIndex.Indexer.PrepareItemIndex | cms/djangoapps/contentstore/courseware_index.py:166-243 | keeps the ids of the whole visible subtree, whatever the times; sends the documents without a too old ancestor; counts them |
| CourseIndex.Indexer.PrepareChildren | cms/djangoapps/contentstore/courseware_index.py:216-224 | the same for a list of children, of which unpublished ones are passed over |
| CourseIndex.SearchEngine.Index | cms/djangoapps/contentstore/courseware_index.py:249-274 | sends the selected documents, removes those of the course that are not kept, and returns how many were sent |
| CourseIndex.SearchEngine.RemoveDeletedItems | cms/djangoapps/contentstore/courseware_index.py:102-114 | removes exactly the documents of the course whose id is not kept |
| CourseIndex.FullRunSendsAll | cms/djangoapps/contentstore/courseware_index.py:126-131 | a run without a trigger time sends every document |
| IndexedItems.DocumentsByPath | cms/djangoapps/contentstore/courseware_index.py:166-243 | a full run sends one document for each path through published children to an item with a non-empty dictionary, children before parents, with the item's fields and the times of the items above it |
| IndexedItems.DocumentIff | cms/djangoapps/contentstore/courseware_index.py:184-235 | a document is sent if and only if such a path leads to its item |
| IndexedItems.KeptIff | cms/djangoapps/contentstore/courseware_index.py:184-210 | an id is kept if and only if a path leads to an item of that id that has a non-empty dictionary or may have children |
| IndexedItems.SelectedPicks | cms/djangoapps/contentstore/courseware_index.py:212-229 | an incremental run sends those documents whose ancestors all changed within the look-back period, each once and in the same order |
| IndexedItems.RunAtId | cms/djangoapps/contentstore/courseware_index.py:249-274 | what the engine holds under an id after a run: the document sent, or else what it held before, unless that is the course's and not kept |
| IndexSchedule.EntryIsKept | cms/djangoapps/contentstore/courseware_index.py:209-210 | every document that may be sent has a kept id and the course |
| IndexSchedule.RunRefreshesIffRecent | cms/djangoapps/contentstore/courseware_index.py:212-214 | a run brings a document up to date if and only if it was, or none of its ancestors fails the age test |
| IndexSchedule.RunRemovesDeleted | cms/djangoapps/contentstore/courseware_index.py:102-114 | after a run no document of a deleted item remains |
| IndexSchedule.RunKeepsOtherCourses | cms/djangoapps/contentstore/courseware_index.py:108-114 | documents of other courses stay as they are |
| IndexSchedule.FullRunAgrees | cms/djangoapps/contentstore/courseware_index.py:126-131 | a full reindex makes the engine agree with the course, from any engine |
| IndexSchedule.UpToDateIff | cms/djangoapps/contentstore/courseware_index.py:116-274 | between two changes a document is up to date if and only if it was before or some run took none of its ancestors for too old |
| IndexSchedule.ReindexIsRebuildAndRetained | cms/djangoapps/contentstore/courseware_index.py:209-229 | what a full reindex leaves of the course, from any engine: a rebuild, and the documents whose id is kept without having a document |
| IndexSchedule.ReindexRebuildsIff | cms/djangoapps/contentstore/courseware_index.py:125-158 | a full reindex equals a rebuild from nothing if and only if the engine before it has no such document |
| IndexSchedule.ContainerKeepsOldDocument | cms/djangoapps/contentstore/courseware_index.py:209-229 | such a document stays as it was through every run, of any structure |
| IndexSchedule.RetainedDocumentExample | cms/djangoapps/contentstore/courseware_index.py:184-229 | an engine and a structure with one |
| IndexSchedule.ChangeKeepsInvariant | cms/djangoapps/contentstore/courseware_index.py:125-131 | a change leaves out-of-date documents only where some change is still waiting for a run |
| IndexSchedule.RunKeepsInvariant | cms/djangoapps/contentstore/tasks.py:94-99 | a late run keeps that invariant |
| IndexSchedule.TriggeredTaskHasRun | cms/djangoapps/contentstore/signals.py:35-39 | a task that was triggered and is not pending has been run since |
| IndexSchedule.IncrementalIndexingCatchesUp | cms/djangoapps/contentstore/courseware_index.py:116-274 | whatever the order of changes, triggers and late runs, with no task pending and each change covered the engine agrees with the course |
| CourseChanges.OperationsStamp | cms/djangoapps/contentstore/courseware_index.py:212-214 | edits, publications, insertions and deletions anywhere in the tree stamp what the age test relies on |
| CourseChanges.ItemChanged | cms/djangoapps/contentstore/courseware_index.py:212-214 | what an edit, a publication or an unpublication leaves at its place and below it |
| CourseChanges.ListChanged | cms/djangoapps/contentstore/courseware_index.py:212-214 | what an insertion or a deletion leaves in its list |
| CourseChanges.OthersStay | cms/djangoapps/contentstore/courseware_index.py:212-214 | items on the way to the place get a stamp and nothing else; items beside it stay |
| CourseChanges.OperationSchedulesAreLegal | cms/djangoapps/contentstore/signals.py:35-39 | schedules made of such operations are ones the main theorem speaks of |
| CourseChanges.LateTriggerExample | cms/djangoapps/contentstore/courseware_index.py:22-27 | a trigger later than the look-back period leaves an item out of date for good |
| CourseCreators.Site.Save | cms/djangoapps/course_creators/models.py:60-99 | saving writes the row, runs the hook and comes to the stated rows, group, notifications and number of writes |
| CourseCreators.Site.PostSave | cms/djangoapps/course_creators/models.py:60-99 | the hook changes the group, notifies and saves exactly once more when the state changed, and does nothing otherwise |
| CourseCreators.Site.UpdateCourseCreatorGroup | cms/djangoapps/course_creators/views.py:39-48 | adds the member if active, silently leaves out others, removes the member, or is refused |
| CourseCreators.Site.AddUser | cms/djangoapps/course_creators/views.py:83-99 | adds a row for a user who has none and is not staff |
| CourseCreators.Site.AddUserWithStatusUnrequested | cms/djangoapps/course_creators/views.py:9-19 | adds a row without touching the group |
| CourseCreators.Site.AddUserWithStatusGranted | cms/djangoapps/course_creators/views.py:22-36 | adds a granted row and then the member, who is left out if not active |
| CourseCreators.Site.UserRequestedAccess | cms/djangoapps/course_creators/views.py:70-80 | sets the state to pending unless it is granted |
| CourseCreators.Site.SaveModel | cms/djangoapps/course_creators/admin.py:67-70 | saves an instance for the staff user |
| CourseCreators.Site.ChangeView | cms/djangoapps/course_creators/admin.py:64-83 | an edit of a row by a staff user |
| CourseCreators.SaveLeaves | cms/djangoapps/course_creators/models.py:60-99 | the row, the time, the instance, the outcome and the notifications any save leaves, also one that is refused |
| CourseCreators.AddingLeaves | cms/djangoapps/course_creators/views.py:9-99 | adding leaves a row of the state with an empty note for a user who is not staff and has none, without notifications, and a member if active and asked for by active staff |
| CourseCreators.RequestLeaves | cms/djangoapps/course_creators/views.py:70-80 | a request leaves a granted row, makes any other pending with its note, and tells the administrators if it was not pending |
| CourseCreators.EditLeaves | cms/djangoapps/course_creators/admin.py:64-83 | an edit leaves the form's state and note; what becomes of the time, the group and the notifications for every old and new state, and when it is refused |
| CourseCreators.SaveKeepsConsistentIff | cms/djangoapps/course_creators/models.py:60-99 | saving any instance keeps the group consistent if and only if the hook may update it, for an active user if it adds one, or membership already is as the state says |
| CourseCreators.StaleInstanceExample | cms/djangoapps/course_creators/models.py:51-57 | an instance loaded before a grant breaks it |
| CourseCreators.OperationKeepsConsistentIff | cms/djangoapps/course_creators/views.py:22-99 | an operation passes all checks if and only if whoever asks may change the group or need not; it keeps the group consistent if and only if, besides, a grant is about an active user |
| CourseCreators.InactiveGrantExample | common/djangoapps/student/roles.py:148-160 | a grant by staff that passes all checks and leaves a granted user out of the group |
| CourseCreators.RunKeepsConsistentIff | cms/djangoapps/course_creators/views.py:9-99 | through a run, with users becoming staff or active and ceasing to be, the group follows the table all the time if and only if each operation is such a one when its turn comes |
| CourseCreators.RunsKeepConsistent | cms/djangoapps/course_creators/views.py:9-99 | in every run in which grants are made by staff and to active users the group follows the table and no check fails |
| CourseCreators.OnlyRealChangesShow | cms/djangoapps/course_creators/models.py:66-99 | times, second writes and notifications move only with a real change of state |
| PassthroughOpts.PassthroughOptionParser.ProcessLongOpt | pavelib/utils/passthrough_opts.py:38-85 | takes the argument and its values off the front, or passes an unknown one through as it was |
| PassthroughOpts.PassthroughOptionParser.ProcessShortOpts | pavelib/utils/passthrough_opts.py:87-134 | takes a cluster apart as specified and takes the values it needs off the front |
| PassthroughOpts.SplitLongRebuilds | pavelib/utils/passthrough_opts.py:47-53 | a long argument is cut at its first equals sign into its name and its value |
| PassthroughOpts.LongLeavesSuffix | pavelib/utils/passthrough_opts.py:38-85 | what is left is a suffix; an unknown long option is passed through verbatim and takes nothing else |
| PassthroughOpts.LongTakesValues | pavelib/utils/passthrough_opts.py:63-85 | a known long option takes the attached value, if any, and then the arguments behind it, as many as it needs, and leaves the rest; exactly when it fails |
| PassthroughOpts.ClusterIsCut | pavelib/utils/passthrough_opts.py:87-134 | every letter of a cluster is passed through, processed, or part of the last option's first value, in order; what is left is a suffix |
| PassthroughOpts.ClusterTakesValues | pavelib/utils/passthrough_opts.py:93-134 | up to the first letter that needs a value unknown letters are passed together and flags processed in order; that letter takes the rest of the cluster, if any, and then arguments, and leaves the rest; exactly when it fails |
| PassthroughOpts.ReparseIff | pavelib/utils/passthrough_opts.py:55-61 | parsing the passed-through options gives them back if and only if none with two dashes is the end mark or a known option |
| PassthroughOpts.PassedHasForm | pavelib/utils/passthrough_opts.py:87-134 | what is passed through is a cluster of unknown letters or an unknown long option |
| PassthroughOpts.ReparseUnchanged | pavelib/utils/passthrough_opts.py:25-134 | without a dash inside a cluster, parsing the passed-through options changes nothing |
| PassthroughOpts.InnerDashExample | pavelib/utils/passthrough_opts.py:133-134 | with one it may |
| Proctoring.ExamService.RegisterSequence | cms/djangoapps/contentstore/proctoring.py:68-129 | updates or creates the one record of a sequence, and its review policy |
| Proctoring.ExamService.RetireOthers | cms/djangoapps/contentstore/proctoring.py:131-152 | marks active records without a sequence as inactive, and changes nothing else |
| Proctoring.ExamService.RegisterSpecialExams | cms/djangoapps/contentstore/proctoring.py:30-152 | with the features on, old records become their successors, sequences get records, and policies follow; otherwise nothing changes |
| Proctoring.ActiveIffSequence | cms/djangoapps/contentstore/proctoring.py:66-152 | after a run a record is active if and only if its content is an in-tree time-limited sequence |
| Proctoring.OneRecordEach | cms/djangoapps/contentstore/proctoring.py:66-105 | each sequence has exactly one record, with its fields |
| Proctoring.PolicyOfSequence | cms/djangoapps/contentstore/proctoring.py:106-129 | a sequence's exam has a policy if and only if it is proctored, not for practice, and had one or has review rules; then it holds the editor and the rules |
| Proctoring.OtherPoliciesStay | cms/djangoapps/contentstore/proctoring.py:106-129 | all other policies stay |
| Proctoring.OldRecordBecomes | cms/djangoapps/contentstore/proctoring.py:75-152 | a record keeps its id: with a sequence it takes its fields, without one an active one becomes inactive and not proctored and nothing else; other courses' records stay |
| Proctoring.SecondRunChangesNothing | cms/djangoapps/contentstore/proctoring.py:30-152 | a second run changes nothing |

## Left out

- Loading files, walking directories, command lines and log messages, and the setting of paths: input and output only.
- The regular expressions for contexts, HTML concatenation, jQuery, escaping and filters: their matches are parameters, in order and without overlap; a context tag's kind and media type are given with it. Pragmas for a file as a whole, the filter for commented violations and leaving out disabled violations when printing are not modelled.
- The stripped inner text of a Mako expression, the checks of its filters, `_find_string_wrapping_expression` and the positions after `textwrap.dedent`: not modelled.
- Python's recursion limit in `_find_closing_char_index` and in the visitors: the model's recursion has no limit.
- The syntax tree is a value with an identity in each node; parsing Python and positions of nodes are not modelled. Python 2 shares the nodes of contexts and operators (`Load()`, `Add()`) between trees; they are left out, so that no node occurs twice, and no visitor does anything with them. A report names the node it is about, not its column.
- MakoExpressions.FindMakoExpressions: requires that no start delimiter lies in a commented tail, because the source does not return on the other templates; the loop on those is modelled by `Turn` and `LoopStays`.
- Start dates, course names, location paths, content groups and location fields other than the course: documents hold only the id, the course and the item's own fields, since the age test looks only at changes below an item.
- IndexSchedule.IncrementalIndexingCatchesUp: a run reads the course and updates the engine in one step, the search in `remove_deleted_items` returns all its hits, and no item raises an exception.
- CourseChanges.Apply: stands for the module store; every operation stamps the items it changes and their ancestors, publishing stamps the whole published subtree, and an inserted item is stamped throughout. Ids are assumed to stay distinct. Moving an item is a deletion and an insertion.
- E-mail texts, the translation of states and the admin page's layout; sending a notification is recorded in a list and never fails.
- Database transactions: an exception leaves what was written before it. Where each request is a transaction (cms/envs/dev.py:58) a refused request takes its row back, so the refused half of `CourseCreators.OperationKeepsConsistentIff` shows only outside of one.
- The option parser of the standard library: how it matches abbreviated long options is a parameter, converting values and running callbacks are not modelled, and its loop over the arguments is modelled only by `PassthroughOpts.ParseArgs`.
- The roles that a user object caches are not modelled: membership is what the database says.
- The exam service is a table of records by id with a unique course and content, and stores the fields as it is given them. A sequence's time limit and due date may be None; what the service makes of that, its own checks, attempts and the meaning of fields that are left at their defaults are not part of this model.
- The metrics file and the text of the build's error message: the message is a list of problems, the keys of the limits are given in sorted order.
- SafelintBuild.LintAndDecide: the lines printed for the violations must not themselves begin like a rule's count or a total. They do not, for files whose path has no space and no colon (`SafelintBuild.LineForIsHarmless`). Printing is not verbose, as the build asks for it.
- Course-update lists, release dates, staff locks, the prerequisite cache, `debounce` and the release script: not modelled.
