# HyperDoc and its libraries: a verified model

This project models the parts of OpenAxiom's HyperDoc browser in which state, order and
arithmetic interact, and of two libraries it shares with the compiler, and proves what
they keep, compute and undo.

- `Scheduling.dfy`: the commands of a page are sent to an interpreter buffer after the
  commands they depend on. `LostBuffers.dfy`: when that order survives buffers that die
  in the middle of a call.
- `InputText.dfy`, `InputEdits.dfy`, `InputViews.dfy`, `InputLines.dfy`,
  `InputDeletion.dfy`, `InputSlipping.dfy`, `InputJoining.dfy`, `InputBreaking.dfy`,
  `InputEditing.dfy`, `InputLoading.dfy`, `InputPrinting.dfy`, `InputRemnants.dfy`,
  `InputSessions.dfy`: an input area is a doubly linked list of fixed-width lines that
  hold wrapped text. The first two are about rows and the text they stand for; the others
  are the lines themselves, their arrays, links, numbers and terminators, and prove each
  editing key, and runs of keys, against that text.
- `Scrolling.dfy`, with `CArithmetic.dfy`: the scroll bar, its truncating arithmetic and
  its state machine.
- `TableLayout.dfy` and `LineFilling.dfy`: tables in columns, and greedy filling of lines.
- `Hashing.dfy`: the chained hash table, as stacks of bindings.
- `Navigation.dfy`: the memo and downlink stacks of a window.
- `Fragments.dfy`: source text cut into fragments by indentation.
- `MacroArguments.dfy`: arguments of macros, captured between braces with references
  replaced.
- `PageDatabase.dfy`: the page database, rewritten record by record.
- `Untex.dfy`: titles and bodies cleaned of markup in place.
- `Wrappers.dfy` and `Characters.dfy`: what several of these share.

Where the code does not do what its comments or its names say, the model follows the code,
a lemma states the exact condition under which the two agree, and another gives an input
for which they do not:

| condition | failing input |
|---|---|
| `LostBuffers.NeverBreaksExactly`, `PageNeverBreaksExactly` | `LossBreaksOrder` |
| `InputEdits.DeletedText` | `DeletionAddsNewline` |
| `InputEditing.BackJoins`, `PulledFirstText` | `BackspaceLosesLast`, `FrontLosesLast` |
| `InputSessions.DeleteExactly`, `BackspaceExactly` | the same, and `SlipDoubles` |
| `InputSlipping.SlippedViewsText` | `SlipDoubles` |
| `InputBreaking.ToughViewsKeep` | `SpillMisnumbers` |
| `InputJoining.JoinedViewsKeep`, `InputPrinting.PrintString` | `PrintsRemnant` |
| `Scrolling.EmptyBarOverhang` | `EmptyBarOverhangs` |
| `Navigation.UpButtonBelowMark`, `ReturnRestoresExactly` | `UpButtonLosesPage` |
| `Hashing.StringHashInRange` | `NegativeHash` |
| `Fragments.SourceInput.Get` | `DedentIsUndefined` |

`dafny verify dfyconfig.toml` checks the whole project.

## Model

| member | source | states |
|---|---|---|
| `Scheduling.Graph.NeedsRank` | src/hyper/spadint.c:162-182 | a label that a command needs, however indirectly, is bound by a command of lower rank: the reason why the mutual recursion ends |
| `Scheduling.Graph.InOrderAt` | src/hyper/spadint.c:115-133 | in a log in order, every defined free label of the i-th command is bound by some earlier command of the log |
| `Scheduling.Graph.DoneIsClosed` | src/hyper/spadint.c:154-207 | whatever a label bound in an ordered log needs is bound in that log too |
| `Scheduling.Graph.IssueWithoutLoss` | src/hyper/spadint.c:103-135 | a call that loses no buffer, from a log in order: the log grows by the binders of the needed labels that were not done, sent as immediate and as a pile if they are source, and, last, the command, nothing else and none of them twice, and stays in order |
| `Scheduling.Graph.ProvidesBoth` | src/hyper/spadint.c:162-182 | providing one set of labels and then another provides both, with each command sent once over the two together |
| `Scheduling.Graph.PendingWithout` | src/hyper/spadint.c:154-183 | a command never waits for itself |
| `Scheduling.Graph.ProvidesFrom` | src/hyper/spadint.c:162-182 | in a new buffer, the labels of a command from some position on provide all of its labels exactly when the binders of the earlier ones are sent again for them; otherwise some label it needs is missing |
| `Scheduling.Graph.IssueAnswers` | src/hyper/spadint.c:103-135 | any call, with any buffers lost at any probes of it and of the calls it makes: without a loss the log grows by exactly what the command needed, in order, and the command; otherwise the new buffer has received exactly all that the command needs, in order, and the command, or its order is broken, as the page and the place of the last loss decide |
| `Scheduling.Graph.IssueOrder` | src/hyper/spadint.c:103-135 | when the order of the log survives a call: without a loss, exactly if it was in order before; otherwise exactly if, for every command on the way to the last loss, what it had asked for before is sent again for the labels it asks for from there on |
| `Scheduling.Graph.SurvivesExactly` | src/hyper/spadint.c:103-135 | and any sequence of calls: exactly as the last call with a loss left it |
| `LostBuffers.NeverBreaksExactly` | src/hyper/spadint.c:103-135 | for every command: no buffers lost at any probes of a call for it, from any log in order, can break the order, if and only if, for it and every command it needs and every label of these where a loss can strike, all labels asked for before are sent again for the labels from there on |
| `LostBuffers.PageNeverBreaksExactly` | src/hyper/spadint.c:103-207 | and for every page: no sequence of requests with any losses can break the order, if and only if that holds of all its commands |
| `LostBuffers.Strike` | src/hyper/spadint.c:115-133 | every label where a loss is said to be able to strike is the place of the last loss of some run: probes are given that lose the buffer there and leave any further probes unread |
| `LostBuffers.AskStruck` | src/hyper/spadint.c:154-183 | and no loss strikes elsewhere, as long as what the losses before left out has been sent again |
| `LostBuffers.IssueAlive` | src/hyper/spadint.c:103-135 | a call takes one live probe for each command it sends, and leaves the others unread |
| `LostBuffers.LossBreaksOrder` | src/hyper/spadint.c:115-121 | a page and a run that breaks it: a command that needs two labels is sent without the first when the buffer is lost at the second |
| `Scheduling.BoundInExactly` | src/hyper/parse-aux.c:457-467 | a command binds a label if and only if it is one of the words of a \bound in its body, whichever word of whichever |
| `Scheduling.FreeInExactly` | src/hyper/spadint.c:154-183 | and needs one if and only if it is one of the words of a \free after the first node of its body |
| `Scheduling.NodeLabels` | src/hyper/spadint.c:162-182 | the labels are asked for in the order in which they are written: those of a node word by word, after those of the nodes before it |
| `Scheduling.NewestIsBinder` | src/hyper/parse-aux.c:457-467 | with unique labels, the newest binding of each label is by the one command that declares it |
| `Scheduling.NewestIsValid` | src/hyper/parse-aux.c:429-468 | the table that parsing builds, of an acyclic page with unique labels, is a graph the scheduler can rely on |
| `Scheduling.AddDependencies` | src/hyper/parse-aux.c:457-467 | the labels of one \bound now point at the current command, unexecuted, and all others are as before |
| `Scheduling.ParseCommands` | src/hyper/parse-aux.c:429-468 | the table of a whole page holds exactly the words of its \bound nodes, each unmarked and with the last command that has it in one |
| `Scheduling.Page.MarkedIsClosed` | src/hyper/spadint.c:154-207 | while the log is in order, a marked label has everything its command needs marked |
| `Scheduling.Page.ConnectSpad` | src/hyper/spadint.c:71-88 | succeeds exactly when the menu server is open and a socket exists or can be had |
| `Scheduling.Page.ClearExecutionMarks` | src/hyper/spadint.c:272-285 | no label is marked afterwards, and the table is otherwise intact |
| `Scheduling.Page.MarkAsExecuted` | src/hyper/spadint.c:185-207 | the labels that are marked afterwards are those marked before and every word of every \bound of the command |
| `Scheduling.Page.IssueSpadcommand` | src/hyper/spadint.c:103-135 | without a connection nothing changes; otherwise the log and the probes are those of the call, whatever buffers are lost in it, and the marks are always the labels that the buffer has received |
| `Scheduling.Page.IssueDependentCommands` | src/hyper/spadint.c:154-183 | every free label is asked for in its turn, if it is defined and not marked at that time, whatever buffers are lost meanwhile |
| `Scheduling.Page.Session` | src/hyper/spadint.c:103-207 | over any sequence of requests with buffers lost at any probes, the marks stay the labels of the log, and the log is in order exactly as the last request with a loss left it |
| `InputText.SplitText` | src/hyper/dialog.c:279-1236 | the text is what stands before any row followed by what stands from it on |
| `InputText.WrapText` | src/hyper/parse-input.c:132-155 | the rows of a wrapped paragraph read as its text and one newline |
| `InputText.WrapIsWrapped` | src/hyper/parse-input.c:132-155 | wrapping fills every soft row, ends in a hard one, and leaves a row empty only for an empty paragraph |
| `InputText.ParaFrom` | src/hyper/dialog.c:783-790 | reading on from a row gives the rest of its paragraph, a newline, and the paragraphs after it |
| `InputText.TypedText` | src/hyper/dialog.c:279-364 | a character typed on a hard row is inserted into the text at the cursor, also when the row was full and spills |
| `InputText.JoinedText` | src/hyper/dialog.c:948-1014 | wrapping two paragraphs together removes exactly the newline between them from the text |
| `InputText.BrokenText` | src/hyper/dialog.c:1079-1158 | breaking a paragraph inside a row and wrapping the rest again adds exactly one newline at the cursor |
| `InputText.HardenedText` | src/hyper/dialog.c:1175-1181 | Return at the front of a continuation row adds exactly one newline there |
| `InputText.BlankText` | src/hyper/dialog.c:1182-1197 | Return at the front of a paragraph adds exactly one newline there |
| `InputEdits.PulledText` | src/hyper/dialog.c:665-697 | pulling a paragraph back through any number of soft rows loses exactly its first character, if the last row holds two |
| `InputEdits.PulledEmpties` | src/hyper/dialog.c:688-695 | if the last row holds one character, it is left empty behind a hardened row, which reads as a newline too many |
| `InputEdits.PulledLoses` | src/hyper/dialog.c:665-697 | either way exactly one character that is not a newline is gone |
| `InputEdits.PulledLosesAt` | src/hyper/dialog.c:665-697 | what that makes of the text, in every case: the first character after the row is gone, and a newline is added at the end of the paragraph unless its last row holds two characters |
| `InputEdits.DeletedText` | src/hyper/dialog.c:1016-1069 | deleting within a row removes that character and nothing else exactly when the row is hard or the last row of its paragraph holds two characters |
| `InputEdits.DeletedLosesAt` | src/hyper/dialog.c:1016-1069 | and what it makes of the text in every case: that character is gone, and a newline is added at the end of the paragraph unless the row is hard or the last row holds two |
| `InputEdits.DeletionAddsNewline` | src/hyper/dialog.c:688-695 | an input for which it does not: taking a from abc, wrapped at two, leaves bc and an empty line |
| `InputEdits.SameLayout` | src/hyper/parse-input.c:120-161 | two well wrapped layouts with the same text from some row on have the same rows from there on |
| `InputEdits.OneLayout` | src/hyper/parse-input.c:120-161 | whatever edits led to it, a text stands in exactly the rows that loading it would give |
| `InputLines.Line.constructor` | src/hyper/mem.c:636-648 | a new line has a blanked buffer of two more than its width, no text and no neighbours |
| `InputLines.CopyUp` | src/hyper/dialog.c:100-112 | moves n characters one place up within a buffer, overlap and all, and nothing else |
| `InputLines.CopyWithin` | src/hyper/dialog.c:338-340 | moves n characters within a buffer as if the source had been set aside first |
| `InputLines.LinkedPut` | src/hyper/dialog.c:311-316 | a line with the right four pointers around it is part of a correctly doubly linked list |
| `InputLines.LinkedCut` | src/hyper/dialog.c:829-836 | and a list is correctly linked without a line that its neighbours pass over |
| `InputLines.InputItem.IncLineNumbers` | src/hyper/dialog.c:115-119 | adds one to the numbers from a line to the end of the list, and to no other |
| `InputLines.InputItem.DecLineNumbers` | src/hyper/dialog.c:122-127 | takes one from the numbers from a line to the end of the list, and from no other |
| `InputLines.InputItem.InsertBuffer` | src/hyper/dialog.c:279-364 | on a hard line, full or not: the text gains the character at the cursor, the cursor follows it, and the links, wraps, line count, line numbers and terminators stay right |
| `InputLines.InputItem.EnterHard` | src/hyper/dialog.c:1212-1235 | Return at any column but the first of a hard line inserts one newline at the cursor; the columns of the old line past the cursor keep what they held |
| `InputLines.InputItem.EnterAtWrap` | src/hyper/dialog.c:1176-1181 | Return at the front of a continuation line inserts one newline, without a new line |
| `InputLines.InputItem.EnterBlank` | src/hyper/dialog.c:1182-1197 | Return at the front of a paragraph inserts one newline, and the lines after it are renumbered |
| `InputViews.TypedFullViews` | src/hyper/dialog.c:306-361 | what a full line does to rows, numbers and terminators inserts exactly the character, and leaves numbers consecutive |
| `InputDeletion.MoveRestBack` | src/hyper/dialog.c:665-697 | the paragraph from a continuation line on is pulled back by one character in place, and that character is returned |
| `InputDeletion.PulledViewsRows` | src/hyper/dialog.c:675-695 | what the loop leaves in the lines is the pulled layout of the rows |
| `InputDeletion.DeleteInLine` | src/hyper/dialog.c:1022-1069 | Delete takes the character under the cursor (the one before it, after the last column of a soft line); the text loses it, and gains a newline at the end of the paragraph exactly when a last line of one character is emptied; the lines stay well wrapped exactly when the line itself is not emptied behind a soft one |
| `InputDeletion.BackInLine` | src/hyper/dialog.c:917-941 | Backspace within a line does the same to the character before the cursor, and moves the cursor a column back |
| `InputDeletion.BackAcrossWrap` | src/hyper/dialog.c:862-941 | Backspace at the front of the last line of a wrapped paragraph does the same to the character before it, in the line above, and the cursor goes to its last column |
| `InputDeletion.DeletedViewsText` | src/hyper/dialog.c:1016-1069 | the lines a deletion leaves: their text in every case, right exactly with an ample tail; well wrapped exactly when no continuation line was emptied, which otherwise is all that changes; numbers and terminators kept |
| `InputSlipping.BackIntoSoft` | src/hyper/dialog.c:882-891 | Backspace at the front of a soft continuation line copies one character short: the text loses the character as in any deletion, and the last character of the line is overwritten by the one before it unless the line is hardened; that is right exactly when those two are equal and the tail is ample |
| `InputSlipping.SlippedViewsText` | src/hyper/dialog.c:882-891 | the same, as a property of the lines before and after |
| `InputSlipping.SlipDoubles` | src/hyper/dialog.c:882-891 | an input for which it does not: taking b from abcdef, wrapped at two, leaves accef |
| `InputSlipping.SlippedIs` | src/hyper/dialog.c:845-941 | the lines that this path leaves, told apart from what deleting the character would leave in one character only |
| `InputJoining.WrapRoom` | src/hyper/dialog.c:965-1000 | a text as long as a paragraph and up to one line more wraps into the lines of the paragraph, or one more: the re-wrap never runs past the list |
| `InputJoining.Gather` | src/hyper/dialog.c:959-969 | copies a paragraph into a buffer without passing its end, and finds its last line |
| `InputJoining.PourRest` | src/hyper/dialog.c:987-999 | pours the buffer over the following lines, each full and marked but the last |
| `InputJoining.LastTaken` | src/hyper/dialog.c:1001-1010 | the last line of the second paragraph is left empty exactly when the joined text needs one line less |
| `InputJoining.JoinedViewsRows` | src/hyper/dialog.c:948-1014 | what is left in the lines is the two paragraphs wrapped as one |
| `InputJoining.JoinedViewsKeep` | src/hyper/dialog.c:948-1014 | the numbers stay consecutive whether or not a line is dropped; all lines stay terminated exactly when the joined line is |
| `InputJoining.JoinHere` | src/hyper/dialog.c:948-1014 | at the end of a hard line with one after it: the text loses exactly the newline at the cursor, and every line is terminated afterwards exactly when the joined text fills its line or meets an old terminator; the columns past a text that fits its line keep what they held |
| `InputBreaking.ToughEnter` | src/hyper/dialog.c:1079-1158 | Return strictly inside a soft line inserts one newline at the cursor, the cursor goes to the front of the next line, a line is added exactly when the rest needs one more, with the number after the one before it, and all other lines keep their numbers, so that these stay consecutive exactly when none was added before others |
| `InputBreaking.ToughViewsKeep` | src/hyper/dialog.c:1136-1157 | a line is added exactly when the shifted rest of the paragraph needs one more than it had; the numbers of all lines |
| `InputBreaking.SpillMisnumbers` | src/hyper/dialog.c:1136-1157 | lines for which the numbers go wrong: breaking abcd inside its first line, wrapped at two, with a paragraph after it |
| `InputBreaking.ToughViewsRows` | src/hyper/dialog.c:1115-1154 | what is left in the lines is the paragraph broken at the cursor, its rest wrapped again |
| `InputEditing.EnterNewLine` | src/hyper/dialog.c:1161-1236 | Return, in each of its cases, adds exactly one newline at the cursor and moves past it, to the front of a line |
| `InputEditing.DeleteOneChar` | src/hyper/dialog.c:1017-1069 | Delete removes a character within a line, joins paragraphs at the end of one, and does nothing at the end of the text; the cursor stays |
| `InputEditing.BackOverEoln` | src/hyper/dialog.c:769-842 | the cursor goes to the end of the line before, the text loses exactly the newline there, and the columns past a joined text that fits its line keep what they held |
| `InputEditing.BackJoins` | src/hyper/dialog.c:853-868 | Backspace at the front of a paragraph, first line wrapped: the text loses the first character after that line, as when it is deleted, and the newline before the paragraph; not wrapped: it loses that newline, and only then is this what the key stands for |
| `InputEditing.BackspaceLosesLast` | src/hyper/dialog.c:853-868 | lines for which it does not: x and then abc, wrapped at two, become xab and an empty line |
| `InputEditing.PulledFirstText` | src/hyper/dialog.c:853-863 | Backspace at the very front of the text, first line wrapped: the text loses the first character after that line, as when it is deleted; not wrapped: it is left alone, and only then |
| `InputEditing.FrontLosesLast` | src/hyper/dialog.c:853-863 | a text for which it does not: abc, wrapped at two, becomes ab and an empty line |
| `InputEditing.MoveBackOneChar` | src/hyper/dialog.c:845-945 | Backspace, over all its cases: the text and the terminators that it leaves, where it leaves the cursor, and exactly when this is what the key stands for |
| `InputSessions.PressFrom` | src/hyper/dialog.c:1017-1236 | any sequence of the four kinds of keys, up to the first that does not work: the text and the caret are those of the keys, and the rows the only ones with that text |
| `InputSessions.Press` | src/hyper/dialog.c:845-1236 | a key that the methods cover leaves a valid area with the text and the caret that it stands for if and only if it works |
| `InputSessions.DeleteExactly` | src/hyper/dialog.c:1022-1069 | Delete within a line does what it stands for exactly when the tail is ample, the line is not emptied behind a soft one and, after the last column of a soft line, the characters on both sides of the wrap are the same |
| `InputSessions.BackspaceExactly` | src/hyper/dialog.c:845-945 | Backspace does exactly when, by case, the tail is ample, the line is not emptied, the two characters of the slip are the same, or the line is not soft |
| `InputSessions.LoadAndEdit` | src/hyper/dialog.c:1017-1236 | so for any text that is loaded and then edited |
| `InputSessions.CanPress` | src/hyper/dialog.c:845-1236 | tells from the lines whether the conditions for a key hold |
| `InputSessions.Measure` | src/hyper/dialog.c:783-790 | the length of the rest of a paragraph and of its last line |
| `InputLoading.LoadEnd` | src/hyper/parse-input.c:132-160 | once every character is loaded, the rows are well wrapped and read as the text and a newline |
| `InputLoading.InitializeDefault` | src/hyper/parse-input.c:120-161 | ends for every width from one and every text, with the text in consecutively numbered, full, terminated lines and the cursor at its end |
| `InputLoading.EditedIsLoaded` | src/hyper/parse-input.c:120-161 | an area that the keys have kept valid has the rows that loading its text would give |
| `InputPrinting.PrintRow` | src/hyper/spadint.c:545-549 | a line prints as its text if it is terminated or full, and as more than its text otherwise |
| `InputPrinting.PrintString` | src/hyper/spadint.c:541-554 | each line is printed up to its first terminator; that is the text, one newline between paragraphs, exactly when every line is terminated |
| `InputPrinting.UnescapedIsSame` | src/hyper/spadint.c:420-421 | undoing the escapes changes nothing exactly in texts without the two marks |
| `InputPrinting.UnescapedAt` | src/hyper/spadint.c:412-421 | by character codes: 127 becomes a quote and 128 a backslash, and nothing else changes |
| `InputPrinting.EscapesUndone` | src/hyper/spadint.c:412-421 | escaped text has neither quotes nor backslashes; undoing escapes gives back exactly the texts without marks, and escaping again those without these two |
| `InputPrinting.EscapeString` | src/hyper/spadint.c:844-851 | escapes a string in place, up to its terminator |
| `InputPrinting.UnescapeString` | src/hyper/spadint.c:852-859 | and undoes it in place |
| `InputPrinting.LoadAndPrint` | src/hyper/parse-input.c:120-161 | a text that is loaded and printed comes back with its escapes undone: unchanged exactly when it has neither of the two marks |
| `InputRemnants.PrintsRemnant` | src/hyper/dialog.c:948-1014 | an input for which it is not: abcdef in a width of ten, Return after its third character, Delete twice and Backspace leave the text abcf, a line without terminator, and abcfef in print |
| `Scrolling.FittingPressNeedsBar` | src/hyper/scrollbar.c:643-655 | a press that leaves room for the scroller never divides by an empty bar |
| `Scrolling.ShareAbovePress` | src/hyper/scrollbar.c:478-479 | the one extra pixel of the scroller makes up for what the truncated share loses |
| `Scrolling.ClickBound` | src/hyper/scrollbar.c:651-658 | such a press scrolls to a whole number of lines, at least zero and strictly before the last view |
| `Scrolling.StepKeepsSettled` | src/hyper/scrollbar.c:523-663 | every action keeps the offset between zero and less than one line past the last view |
| `Scrolling.RunKeepsSettled` | src/hyper/scrollbar.c:523-663 | so does any sequence of actions |
| `Scrolling.RoundUpFixesLines` | src/hyper/scrollbar.c:683-691 | rounding up to lines leaves the measured view height alone |
| `Scrolling.PageDownsReach` | src/hyper/scrollbar.c:604-622 | n page-downs scroll n views less n lines, or to the bottom |
| `Scrolling.BottomReached` | src/hyper/scrollbar.c:604-622 | n page-downs are at the bottom exactly when n views less n lines make up the distance; with a view of more than one line some number does |
| `Scrolling.PageUpsReach` | src/hyper/scrollbar.c:549-562 | n page-ups scroll back n views less n lines, or to the top |
| `Scrolling.PagesUndo` | src/hyper/scrollbar.c:549-622 | a page up undoes a page down exactly when that began at the top or was not cut short at the bottom; a page down undoes a page up exactly when that was not cut short at the top |
| `Scrolling.HomeIsTop` | src/hyper/scrollbar.c:565-573 | after going to the first page the first line shows and the scroller is at the top |
| `Scrolling.PressAbove` | src/hyper/scrollbar.c:637-642 | a press above the bar leaves the scroller at the top, and shows the first line unless the scroller was at the top of a page that was scrolled |
| `Scrolling.PressBelow` | src/hyper/scrollbar.c:643-650 | a press where the scroller does not fit below scrolls to the last whole number of lines that is not past the last view, unless the scroller was as low as it goes |
| `Scrolling.LinesUndo` | src/hyper/scrollbar.c:523-600 | a line up undoes a line down; a line down undoes a line up exactly when that was a whole line |
| `Scrolling.MeasuredIsScrollable` | src/hyper/scrollbar.c:428-497 | what is measured of a page higher than its view satisfies all that the bounds rest on |
| `Scrolling.MeasuredFills` | src/hyper/scrollbar.c:428-479 | the view is as many whole lines as there is room for, the bar what arrows and borders leave, and the scroller the share of the bar that the view is of the page, but for the corrections |
| `Scrolling.ScrollerOverhang` | src/hyper/scrollbar.c:478-496 | after measuring, the scroller overhangs a bar that is not empty by at most twice the top margin |
| `Scrolling.EmptyBarOverhang` | src/hyper/scrollbar.c:478-496 | a bar that is empty or of negative height keeps that bound exactly when what truncation gives back of the two shares makes up for it; never for a page longer than ten views, and always for an empty bar and a page that is not |
| `Scrolling.EmptyBarOverhangs` | src/hyper/scrollbar.c:478-496 | windows whose measures do not keep it, with an empty bar and with one of negative height |
| `Scrolling.ScrollerFollowsPage` | src/hyper/scrollbar.c:372-381 | a redraw puts the scroller at the page's share of the bar, to the pixel: at the top exactly while less than a pixel's worth is scrolled, and never higher for a page that is scrolled further |
| `Scrolling.PressMovesScroller` | src/hyper/scrollbar.c:644-662 | after a fitting press the scroller is not below the press, and above it by less than the share of one line and a pixel; drawing it again does not move it |
| `Scrolling.ScrollWindow.CalculateMeasures` | src/hyper/scrollbar.c:428-497 | measures view, bar and scroller, resets the offset of a page that fits and clamps it otherwise |
| `Scrolling.ScrollWindow.ScrollUp` | src/hyper/scrollbar.c:523-546 | is the LineUp step of the state machine |
| `Scrolling.ScrollWindow.ScrollUpPage` | src/hyper/scrollbar.c:549-562 | is the PageUp step |
| `Scrolling.ScrollWindow.ScrollToFirstPage` | src/hyper/scrollbar.c:565-573 | is the Home step |
| `Scrolling.ScrollWindow.ScrollDown` | src/hyper/scrollbar.c:576-600 | is the LineDown step |
| `Scrolling.ScrollWindow.ScrollDownPage` | src/hyper/scrollbar.c:604-622 | is the PageDown step |
| `Scrolling.ScrollWindow.ScrollScroller` | src/hyper/scrollbar.c:625-663 | is the Click step |
| `TableLayout.Shape` | src/hyper/extent1.c:1261-1273 | the second division never gives more columns than the first; the columns hold all entries and none is empty |
| `TableLayout.FewestLines` | src/hyper/extent1.c:1261-1273 | no grid of any number of columns that each have room on the screen for the widest entry and the inter-column space has fewer lines |
| `TableLayout.LayoutFits` | src/hyper/extent1.c:1261-1273 | the grid is itself one of these, or, if there is none, a single column |
| `TableLayout.Widths` | src/hyper/extent1.c:1274-1274 | columns fit the screen and leave less than a pixel each, and are wider than the widest entry by the inter-column space whenever one such column fits |
| `TableLayout.WidestIsMaximum` | src/hyper/extent1.c:1250-1256 | the scanned width is attained by an entry and exceeded by none |
| `TableLayout.ColumnsApart` | src/hyper/extent1.c:1275-1286 | entries of one row are at least the inter-column space apart |
| `TableLayout.RowsApart` | src/hyper/extent1.c:1275-1286 | entries of one column are on different lines, in order; in a single column, what an entry grew by is added |
| `TableLayout.NextCell` | src/hyper/extent1.c:1275-1286 | the first entry is at the top of the first column, and each of the others a line below the one before it (and, in a single column, what that grew by), or at the top of the next column when the lines are used up |
| `TableLayout.CellOnScreen` | src/hyper/extent1.c:1275-1286 | every entry starts within the screen |
| `TableLayout.Formatter.ComputeTableExtent` | src/hyper/extent1.c:1239-1296 | places each entry in exactly one cell of that grid and leaves the pen below the table |
| `TableLayout.Formatter.FillColumn` | src/hyper/extent1.c:1276-1286 | fills one column from top to bottom and stops at the last entry |
| `LineFilling.RunsStayTogether` | src/hyper/extent1.c:256-263 | an unspaced word never starts a line if from the word before it on its run fits, whatever other runs do |
| `LineFilling.RunsSplitExactly` | src/hyper/extent1.c:256-263 | and in a stream that starts within the margins it starts one exactly when that run does not fit |
| `LineFilling.WordEndsByMargin` | src/hyper/extent1.c:256-283 | a word from which on its run fits ends by the right margin |
| `LineFilling.WordsEndByMargin` | src/hyper/extent1.c:256-283 | if all runs fit, so does every word |
| `LineFilling.WordsInOrder` | src/hyper/extent1.c:272-283 | a later word is on a later line or starts where an earlier one ended, or after |
| `LineFilling.GreedyStaysAhead` | src/hyper/extent1.c:233-284 | after every word the greedy layout is no further along than any other layout that fits |
| `LineFilling.FewestLines` | src/hyper/extent1.c:233-284 | no layout that respects runs and fits uses fewer lines, even if some run would not fit on a line of its own |
| `LineFilling.GreedyCompetes` | src/hyper/extent1.c:233-284 | the greedy layout is itself one of the layouts it is compared with |
| `LineFilling.TotalWidthIs` | src/hyper/extent2.c:397-488 | the look-ahead is the sum of the widths up to the next word that has space, or to the last |
| `LineFilling.LinesApart` | src/hyper/extent1.c:233-284 | words do not go up, and a word that starts a line is, with those after it, below all before it |
| `LineFilling.Formatter.WidthAhead` | src/hyper/extent2.c:397-488 | the look-ahead is the width of the unspaced words that follow |
| `LineFilling.Formatter.ComputeWordExtent` | src/hyper/extent1.c:233-284 | places a word where the greedy rule says |
| `LineFilling.Formatter.LayoutFlows` | src/hyper/extent1.c:233-284 | in the greedy layout every word is told from the one before it: behind it, with the space it has, on the same line, or, when its run would then go beyond the margin, at the left margin and below it by the height of the line that is left |
| `LineFilling.Formatter.ComputeTextExtent` | src/hyper/extent1.c:373-690 | places a stream of words at the coordinates of that layout, and the pen behind the last |
| `Hashing.Table.InsertPushes` | src/lib/hash.c:88-102 | an insertion pushes on the stack of bindings of equal keys and leaves all other stacks alone |
| `Hashing.Table.FindSeesNewest` | src/lib/hash.c:105-114 | a lookup gives the top of the stack of bindings |
| `Hashing.Table.ReplaceActsOnNewest` | src/lib/hash.c:117-128 | a replacement changes the top of the stack only, if there is one |
| `Hashing.Table.DeletePopsNewest` | src/lib/hash.c:131-142 | a deletion pops the stack and exposes the binding below |
| `Hashing.Table.EqualKeysShareStack` | src/lib/hash.c:88-142 | equal keys share one stack |
| `Hashing.Table.InsertKeepsValid` | src/lib/hash.c:88-102 | an insertion keeps every entry in the chain of its hash code |
| `Hashing.Table.ReplaceKeepsValid` | src/lib/hash.c:117-128 | so does a replacement |
| `Hashing.Table.DeleteKeepsValid` | src/lib/hash.c:131-142 | and a deletion, which lowers the number of entries by one exactly when it finds one |
| `Hashing.DeleteUndoesInsert` | src/lib/hash.c:88-142 | deleting an inserted key gives back the very table |
| `Hashing.Table.InItsChain` | src/lib/hash.c:88-102 | every entry is in the chain that the remainder of its hash code picks |
| `Hashing.StringHashIs` | src/lib/hash.c:191-200 | the string hash is the sum of the characters but for a multiple of the size, smaller than the size and of the sign of the sum; their order does not matter |
| `Hashing.StringHashInRange` | src/lib/hash.c:191-200 | the string hash is an index exactly when the sum of the characters is not negative or is a multiple of the size |
| `Hashing.NegativeHash` | src/lib/hash.c:191-200 | a string whose hash is negative |
| `Hashing.HashTable.constructor` | src/lib/hash.c:49-62 | an empty table of the given size |
| `Hashing.HashTable.Insert` | src/lib/hash.c:88-102 | refines the push, in place, on mutable chains |
| `Hashing.HashTable.Find` | src/lib/hash.c:105-114 | refines the lookup |
| `Hashing.HashTable.Replace` | src/lib/hash.c:117-128 | refines the replacement, in place |
| `Hashing.HashTable.Delete` | src/lib/hash.c:131-142 | refines the pop: one entry is passed over and no other entry touched |
| `Hashing.HashTable.Copy` | src/lib/hash.c:158-187 | a copy has the same meaning and shares no entry |
| `Hashing.CopiesAreIndependent` | src/lib/hash.c:158-187 | after a copy, any operations on the one and on the other, in any order, act as if each table had been alone |
| `Fragments.DressedBlank` | src/io/InputFragment.cxx:120-121 | a line is passed over exactly when it has nothing but blanks |
| `Fragments.DressedExactly` | src/io/InputFragment.cxx:56-103 | a line is blanks, a text that neither begins nor ends with one, and blanks: it is indented by the former, loses the latter, and is one to ignore after two hyphens, a description after two plus signs, a line for the reader after a parenthesis in column 0, and ordinary otherwise |
| `Fragments.KeptExactly` | src/io/InputFragment.cxx:117-121 | the lines that are delivered are those of the input that are not blank, each once, in order and numbered as in the input |
| `Fragments.MeasuredExactly` | src/io/InputFragment.cxx:122-134 | the lines whose indentation counts are the ordinary ones and the indented descriptions that are not spliced |
| `Fragments.AsideDoesNotMatter` | src/io/InputFragment.cxx:122-129 | comments to ignore, lines for the reader and descriptions in column 0 do not matter, unless they splice: without one, the other lines open fragments and are measured as before |
| `Fragments.PropUp` | src/io/InputFragment.cxx:69-103 | trims and dresses a line as specified |
| `Fragments.PopToKeepsBottom` | src/io/InputFragment.cxx:143-146 | popping keeps an increasing stack increasing and keeps its bottom, or runs it empty exactly when the line is indented less than the bottom |
| `Fragments.JudgeFits` | src/io/InputFragment.cxx:122-147 | a line stops a fragment exactly when it opens a new one, and asks an empty stack for its top exactly when indented less than the first line that was measured |
| `Fragments.ScanEnds` | src/io/InputFragment.cxx:117-148 | a scan stops exactly at the next opener, and becomes undefined only when some line is indented less than the first that was measured |
| `Fragments.SplitConserves` | src/io/InputFragment.cxx:107-150 | no line is lost, repeated or moved by cutting at openers |
| `Fragments.SplitAtOpeners` | src/io/InputFragment.cxx:107-150 | an ordinary line in column 0 is first in its fragment or spliced on, and every fragment but the first starts with one |
| `Fragments.OpenerKeepsIndented` | src/io/InputFragment.cxx:111-115 | a fragment that starts with a line held back never empties the stack |
| `Fragments.SourceInput.Get` | src/io/InputFragment.cxx:107-150 | delivers the lines up to the next opener, which it holds back; defined exactly when no measured line is indented less than the first |
| `Fragments.DedentIsUndefined` | src/io/InputFragment.cxx:143-146 | two lines for which it is not defined |
| `Fragments.SourceInput.GetAll` | src/io/InputFragment.cxx:107-150 | calling until nothing is held back delivers the whole input, cut at its openers |
| `Fragments.SourceInput.GetAtEnd` | src/io/InputFragment.cxx:111-117 | an unterminated last line is delivered again by every further call |
| `Navigation.StepKeeps` | src/hyper/event.c:287-374 | no step that stays above the recorded top disturbs what the stacks held at the memolink |
| `Navigation.RunKeeps` | src/hyper/event.c:287-374 | nor does any well nested run |
| `Navigation.ReturnRestores` | src/hyper/event.c:287-307 | returning after any such run restores the page and both stacks |
| `Navigation.UpUndoesDown` | src/hyper/event.c:312-363 | an uplink undoes a downlink, or on a full stack goes to the page that filled it |
| `Navigation.StepIsSeen` | src/hyper/event.c:287-374 | a step shows the page that it should and pushes on and pops from two stacks, with nothing pushed on a full one, unless it is a return after uplinks that went below the memolink |
| `Navigation.RunIsSeen` | src/hyper/event.c:287-374 | so does any run |
| `Navigation.UpButtonBelowMark` | src/hyper/node.h:430-433 | the test for the up button offers an uplink that pops at or below the recorded top exactly when there is a memolink and nothing has been downlinked since |
| `Navigation.ReturnRestoresExactly` | src/hyper/event.c:287-374 | returning after any run that stays in the memolink, however far its uplinks pop, restores the page, the memo stack and the downlink index, and the downlink stack exactly when each slot below the top that was pushed into last received the page it had held |
| `Navigation.UpButtonLosesPage` | src/hyper/event.c:287-374 | a run of four steps, each uplink of which the button offers, after which a page of the stack is another |
| `Navigation.HDWindow.Downlink` | src/hyper/event.c:357-363 | pushes the page, or nothing on a full stack |
| `Navigation.HDWindow.Memolink` | src/hyper/event.c:366-374 | pushes the page and records the downlink index, or nothing on a full stack |
| `Navigation.HDWindow.AbandonedExactly` | src/hyper/event.c:293-300 | the pages that a return closes are the one on display and those that the downlink stack holds from the recorded top on |
| `Navigation.HDWindow.ReturnLink` | src/hyper/event.c:287-307 | pops the memo stack, cuts the downlink stack back, and closes exactly the pages abandoned |
| `Navigation.HDWindow.UpLink` | src/hyper/event.c:312-320 | pops the downlink stack, or returns when it is empty |
| `Navigation.HDWindow.Follow` | src/hyper/event.c:507-547 | each event is one step of the state machine, and closes the pages it leaves behind and no others |
| `MacroArguments.MatchingCloses` | src/hyper/macro.c:309-322 | the matching brace brings the depth to zero |
| `MacroArguments.MatchingIsFirst` | src/hyper/macro.c:309-322 | and no brace before it does |
| `MacroArguments.ExpandKeepsDepth` | src/hyper/macro.c:324-353 | substituting balanced parameters changes no brace depth |
| `MacroArguments.CapturedIsBalanced` | src/hyper/macro.c:309-365 | a captured argument is balanced if the parameters of the caller are |
| `MacroArguments.ExpandIsIdentity` | src/hyper/macro.c:327-330 | outside a macro, or without a reference in it, an argument is captured as written |
| `MacroArguments.ExpandOfWritten` | src/hyper/macro.c:324-353 | a text put together from literal pieces, references, and number signs that a backslash before them, written or from a parameter, escapes, is captured as the literal pieces and number signs with the parameters referred to in between |
| `MacroArguments.CapturedExactly` | src/hyper/macro.c:324-353 | and a text is captured, as that, exactly when it can be put together so |
| `MacroArguments.CaptureExactly` | src/hyper/macro.c:309-365 | inside a macro an argument ends before the brace that closes the one before it, and is captured as what its pieces stand for |
| `MacroArguments.CaptureOutside` | src/hyper/macro.c:309-330 | outside one as it is written |
| `MacroArguments.CaptureFails` | src/hyper/macro.c:331-353 | it is a bad reference exactly when the text cannot be put together so |
| `MacroArguments.CaptureUnclosed` | src/hyper/macro.c:313-315 | and an unexpected end only when no brace closes the argument |
| `MacroArguments.OpenBraceExactly` | src/hyper/macro.c:302-308 | an opening brace is the next token exactly when only blanks, line ends and comments come before it, and no blank line |
| `MacroArguments.ArgumentsInOrder` | src/hyper/macro.c:301-365 | the arguments come in the order in which they are written, each captured after the brace that comes next |
| `MacroArguments.CaptureArgument` | src/hyper/macro.c:309-365 | consumes exactly through the matching brace and yields the text with each unescaped reference replaced, or says what is wrong |
| `MacroArguments.ArgumentsAreBalanced` | src/hyper/macro.c:301-365 | all arguments of a call are balanced |
| `MacroArguments.GetArgument` | src/hyper/macro.c:302-365 | one argument, after the opening brace that must come first |
| `MacroArguments.ReadArguments` | src/hyper/macro.c:301-365 | the arguments of a call in order, or failure at the first that fails |
| `MacroArguments.Parser.GetParameterStrings` | src/hyper/macro.c:284-368 | pushes the arguments it reads; every parameter on the stack stays balanced, at any nesting depth |
| `PageDatabase.AtoiOfNumeral` | src/hyper/htadd.c:322-334 | a time read back from its digits is the same number |
| `PageDatabase.AtoiLast` | src/hyper/htadd.c:322-322 | a time is read in decimal |
| `PageDatabase.HeaderMissing` | src/hyper/htadd.c:416-447 | the error exit is taken exactly when nothing but white space is left, or a percent sign, a backslash or a brace comes first after it |
| `PageDatabase.HeaderOfWords` | src/hyper/htadd.c:319-322 | otherwise the name is the first word and the time the number that the second one starts with |
| `PageDatabase.ParseOfRender` | src/hyper/htadd.c:317-345 | a database written from records reads back as these records |
| `PageDatabase.ParsedIsGood` | src/hyper/htadd.c:416-447 | what is read are names and bodies that can be written again |
| `PageDatabase.UpdatedInPlace` | src/hyper/htadd.c:323-331 | a record with that name is replaced where it stands, all others staying as they are |
| `PageDatabase.UpdatedAtEnd` | src/hyper/htadd.c:346-348 | a new name is appended |
| `PageDatabase.UpdatedKeepsUnique` | src/hyper/htadd.c:300-349 | names stay unique |
| `PageDatabase.UpdatedTwice` | src/hyper/htadd.c:300-349 | adding a file again replaces what adding it did |
| `PageDatabase.DeletedUpdated` | src/hyper/htadd.c:481-514 | deleting after an update is deleting |
| `PageDatabase.EntriesOfRender` | src/hyper/htadd.c:300-349 | the entries of a written database are its records |
| `PageDatabase.UpdateTextTwice` | src/hyper/htadd.c:300-349 | re-adding the same file leaves the database file as it is |
| `PageDatabase.DeleteTextUpdated` | src/hyper/htadd.c:481-514 | as texts too, deleting after an update is deleting |
| `PageDatabase.DeleteTextAbsent` | src/hyper/htadd.c:481-514 | deleting a name that is not there copies the database byte for byte |
| `PageDatabase.UpdateTextInPlace` | src/hyper/htadd.c:323-331 | byte for byte: with unique names, only the record of the added file changes, where it stands |
| `PageDatabase.UpdateTextAtEnd` | src/hyper/htadd.c:346-348 | byte for byte: the record of a new file is appended |
| `PageDatabase.DeleteTextInPlace` | src/hyper/htadd.c:481-514 | byte for byte: with unique names, only the record of the deleted file goes |
| `PageDatabase.Rewriter.UpdateExisting` | src/hyper/htadd.c:314-348 | the streaming copy yields the updated database, or fails exactly where a name is missing or reserved |
| `PageDatabase.Rewriter.DeleteDb` | src/hyper/htadd.c:481-514 | the streaming copy yields the database without the record, or fails exactly where a name is missing or reserved |
| `PageDatabase.UpdateDb` | src/hyper/htadd.c:300-349 | the three ways to add a file: afresh, without a database, into one |
| `Untex.PlainIsMarkupFree` | src/hyper/hthits.c:99-128 | the result has none of the five markup characters and is no longer than the text |
| `Untex.PlainFixesMarkupFree` | src/hyper/hthits.c:124-125 | a text without markup is left alone |
| `Untex.PlainIdempotent` | src/hyper/hthits.c:99-128 | a second pass changes nothing |
| `Untex.PlainIsLineLocal` | src/hyper/hthits.c:112-117 | markup never reaches past the end of its line |
| `Untex.PlainExactly` | src/hyper/hthits.c:99-128 | every text can be taken apart into ordinary characters, braces and number signs, backslashes with the letters after them, and percent signs with the rest of their line, and is cleaned to the ordinary characters with a blank for each of the others |
| `Untex.UntexBuf` | src/hyper/hthits.c:99-128 | the string is rewritten in place to its plain text, the write position never passing the read position |

## Left out

- X11 windows, drawing, fonts and colours: not modelled; widths and heights are parameters.
- Sockets, temporary files and waiting for output: a buffer is a log of what was sent, and its death is what the test line finds.
- Integers are unbounded, so overflow of C ints is not modelled; division and remainder truncate toward zero as in C.
- Scheduling.Page.IssueSpadcommand: a buffer is found dead by the test line only; one that dies between the test and what is sent after it is not noticed by the code and not modelled. Waiting for the end of the output of a dependency is left out.
- Scheduling.Page.IssueDependentCommands: a \free in the first body node is not looked at, as in the code, which starts after it; only later ones count as needs.
- Scheduling.Page.ConnectSpad: a busy server is never reported, as in the code, where that test is commented out.
- InputEditing.EnterNewLine: the last column of a soft line is outside it, because the code leaves the new line without a successor there and drops the lines after it; the front of the first line is outside it, because the code follows a null pointer there.
- InputLines.InputItem.InsertBuffer: soft lines are outside it; move_sym_forward, which is used there, overwrites characters and copies beyond what it should.
- InputEditing.MoveBackOneChar: a width of one at the front of a soft continuation line is outside it, because the count of the copy is negative there.
- InputLines.CopyWithin: strncpy is taken to be a copy that is safe for overlapping ranges, which the C standard does not promise; the ranges it is used on have no terminator before their last character.
- InputJoining.JoinHere: the paragraph that is gathered must be shorter than the 1024 characters of the buffer, and so must what follows the cursor in the one that InputBreaking.ToughEnter breaks; the code does not check.
- InputPrinting.PrintString: a line can keep an old character where its terminator should be, as PrintsRemnant shows. The theorems say exactly when this happens and do not repair it.
- InputSessions.PressFrom: stops at the first key that the editing methods do not cover or that would not do what it stands for; the code looks for neither and goes on.
- Overwriting (overwrite_buffer), deletion to the end of a line, and cursor movement in dialog.c: left out; they would add easier members.
- Untex.UntexBuf: letters are those of the C locale.
- Navigation.HDWindow.ReturnLink: which pages are closed is modelled, freeing their memory is not.
- Fragments.SourceInput.Get: asking an empty stack for its top is undefined in C++; the model reports it and says exactly when it happens.
- MacroArguments.CaptureArgument: a reference to a parameter that does not exist reads beyond an array in the code and is an error result here; the 4096 characters of the buffer and the 4 digits of a reference are not bounded.
- MacroArguments.GetOpenBrace: of the scanner only what can precede an opening brace is modelled, white space and comments.
- PageDatabase.Rewriter.UpdateExisting: the word after a name is read as a time as far as it is digits; the other kinds of token that the scanner knows, and a sign before a number, are not modelled.
- PageDatabase.Rewriter.AddNewPages: the pages found in an added file are a given text; scanning the file for them is not modelled, nor is the limit of 256 characters for a name.
- TableLayout.Formatter.ComputeTableExtent: the layout inside an entry is a given growth of the pen.
- LineFilling.Formatter.ComputeTextExtent: streams of words only; other nodes, indentation inside commands and centring are left out.
- LineFilling.Formatter.WidthAhead: word nodes only, for the same reason.
- LineFilling.Formatter.ComputeWordExtent: the extra indentation after a break inside a command is left out.
- TableLayout.RowsApart: with several columns the code steps by the height of a line whatever an entry grew by, so nothing is promised about entries that take more than one line.
- Navigation.HDWindow.Follow: special pages, for which the code pushes nothing, are not told apart.
- Scrolling.ScrollWindow.CalculateMeasures: the hidden windows of a page without scroll bar are left out.
- Small members such as path names, palette lookups, group stacks and font tables: left out, as they would only add easy members.
