# A browser code editor's workspace, terminal, palette and assistant views

This project models the core of a small code editor that runs in the browser.
It has an in-memory file tree, editor tabs, a mock git staging area, a pretend
shell, a command palette and an AI assistant panel. The model covers:

- **The workspace state kept by the application context.** This is the file
  tree, the open tabs, the active tab, the staged and unstaged path sets, the
  commit message, the active side view and the sidebar/terminal toggles. It is
  a Dafny class whose methods update these fields the way the context's
  callbacks update React state.
- **The file tree.** It is an ordered list of named entries. Each entry is a
  file with content or a folder with children. The model has path lookup
  (`getFileContent`) and the save step that writes one file's content.
- **The line-by-line diff.** This covers `generateDiff` and the assembly of
  the staged diff that `generateCommitMessage` builds.
- **Fence stripping.** `runAiCodeCommand` cleans the assistant's
  refactor/add-comments reply before pasting it.
- **The terminal panel.** It splits a command line into tokens, resolves paths
  with `findNode`, and defines the reply of each command (help, ls, cat, code,
  echo, clear, exit, unknown). It also models the line buffer fed by key
  events, with its echo and backspace erase sequences, and the welcome text
  and prompt.
- **The command palette.** This covers its five commands, the
  case-insensitive filter, the arrow keys with JavaScript's `%` (including the
  NaN it produces on an empty list), Enter, Escape, the open/close shortcut,
  the effect that resets the search and selection, and clicking a row.
- **The assistant view.** This covers the markdown renderer, which splits on
  fenced code blocks and turns each piece into a code block, a paragraph or
  nothing, and the submit guard of the chat input box.
- **The two language mappers.** The editor pane maps a tab name to a Monaco
  language id and the status bar maps it to a display name. Both use the last
  dot-separated piece of the name, lower-cased.

Modules: `Wrappers` (Option), `Strings` (JavaScript's split, join, trim,
toLowerCase, includes and replace on `seq<char>`), `FileSystem`, `Workspace`,
`Diff`, `Fences`, `Terminal`, `Palette`, `Assistant` (in `markdown.dfy`) and
`Languages`.

The calls to the language model, the clock-free UI effects (alerts, DOM
classes, scrolling), the Monaco editor and the xterm widget are not modelled.
Where their result matters it is a parameter. The commit-message reply is an
`Option<string>` (None for a failed request). "Is the editor mounted" is a
`bool`. The terminal's output and its request to open a file are returned as
values (`Output`, `Effect`) instead of being written to a widget.

## Model

| member | source | states |
|---|---|---|
| Strings.Split | context/AppContext.tsx:35 | `split(c)` gives at least one piece and no piece contains the separator |
| Strings.JoinSplit | context/AppContext.tsx:35 | joining the pieces of `split(c)` with `c` gives back the original text |
| Strings.SplitJoin | components/TerminalPanel.tsx:147 | splitting a join of separator-free pieces gives back exactly those pieces |
| Strings.SplitWithoutSeparator | components/EditorPane.tsx:32 | a text without the separator splits into itself alone |
| Strings.SplitAfterHead | context/AppContext.tsx:369 | splitting `x + c + y` with `c` not in `x` yields `x` followed by the pieces of `y` |
| Strings.LastPiece | components/EditorPane.tsx:32 | `split(c).pop()` contains no separator |
| Strings.LastPieceIsSuffix | components/EditorPane.tsx:32 | the last piece is a suffix of the text, and is the whole text when the separator is absent |
| Strings.LastPieceAfterSeparator | components/TerminalPanel.tsx:140 | after the last separator, `pop()` returns exactly the text that follows it |
| Strings.NonEmpty | context/AppContext.tsx:35 | `filter(p => p)` keeps no empty piece and never grows the list |
| Strings.NonEmptyKeeps | context/AppContext.tsx:35 | a piece survives the filter exactly when it was present and non-empty |
| Strings.NonEmptyKeepsAll | components/TerminalPanel.tsx:64 | a list with no empty piece passes the filter unchanged |
| Strings.TrimStartDropsBlank | context/AppContext.tsx:199 | the start-trimmed text is a suffix with no white space in front and only white space removed |
| Strings.TrimEndDropsBlank | context/AppContext.tsx:199 | the end-trimmed text is a prefix with no white space at its end and only white space removed |
| Strings.TrimIsInfix | context/AppContext.tsx:199 | `trim()` returns a contiguous part of the text that neither starts nor ends with white space |
| Strings.TrimEmptyIffBlank | context/AppContext.tsx:199 | `trim()` is empty exactly when the text is all white space, so `commitMessage.trim() !== ''` is "not blank" |
| Strings.TrimKeepsTrimmed | context/AppContext.tsx:283 | a text that starts and ends with non-space is left as it is by `trim()` |
| Strings.JoinStart | components/TerminalPanel.tsx:147 | a join starts with the first piece's first character |
| Strings.JoinEnd | components/TerminalPanel.tsx:147 | a join ends with the last piece's last character |
| Strings.Lower | components/CommandPalette.tsx:24 | `toLowerCase()` keeps the length and lowers each character on its own |
| Strings.Utf16Length | components/TerminalPanel.tsx:200 | JavaScript's `length` counts at least one code unit per character |
| Strings.Utf16LengthOne | components/TerminalPanel.tsx:200 | a text is one code unit long exactly when it is one character of the Basic Multilingual Plane |
| Strings.LowerTwice | components/CommandPalette.tsx:24 | lowering an already lowered text changes nothing |
| Strings.LowerAll | components/CommandPalette.tsx:24 | lowering a list of texts lowers each one in place |
| Strings.LowerCommutesWithSplit | components/EditorPane.tsx:32 | lowering before or after splitting on a non-letter gives the same pieces |
| Strings.LowerLastPiece | components/EditorPane.tsx:32 | the last piece of a lowered text is the lowered last piece |
| Strings.ContainsEmpty | components/CommandPalette.tsx:24 | every text includes the empty search |
| Strings.ReplaceAll | components/TerminalPanel.tsx:128 | after replacing every `c` by a text without `c`, no `c` is left |
| Strings.ReplaceAllIsSplitJoin | components/TerminalPanel.tsx:128 | `replace(/\n/g, r)` is splitting on the line break and joining with `r` |
| FileSystem.Lookup | context/AppContext.tsx:40 | a found node is the node of an entry of that name in the directory |
| FileSystem.Replace | context/AppContext.tsx:109 | replacing a node keeps the directory's length and every entry's name |
| FileSystem.LookupReplace | context/AppContext.tsx:109 | after replacing the node of a present name, that name finds the new node and every other name finds what it found before |
| FileSystem.Segments | context/AppContext.tsx:35 | the path's segments are all non-empty |
| FileSystem.NodeAtSnoc | context/AppContext.tsx:37-48 | extending a path by one name takes one more step from the node reached, and only from a folder |
| FileSystem.NodeAtStopped | context/AppContext.tsx:41-47 | once a prefix of the path is missing or is a file, the whole path finds nothing |
| FileSystem.GetFileContent | context/AppContext.tsx:34-50 | the loop over the segments returns the content of the file the path leads to, or nothing (a folder, a missing name, a step through a file, or the empty path) |
| FileSystem.FileAtStep | context/AppContext.tsx:37-40 | a file found through a multi-segment path is found through the first folder's children |
| FileSystem.FileAtWithContent | context/AppContext.tsx:101-112 | writing content at a file's path changes what that path holds and no other file path |
| FileSystem.FileAtWithContentHere | context/AppContext.tsx:109 | writing a top-level file changes only that file |
| FileSystem.FileAtWithContentBeside | context/AppContext.tsx:106-109 | writing a nested file leaves paths through other top-level names unchanged |
| FileSystem.FileAtWithContentBelow | context/AppContext.tsx:106-109 | writing a nested file changes only that file among the paths through the same top-level folder |
| FileSystem.NodeAtWithContent | context/AppContext.tsx:101-112 | writing a file leaves every node not on the written path unchanged |
| FileSystem.WithContentKeepsRootNames | context/AppContext.tsx:101-112 | saving neither adds nor removes top-level entries |
| FileSystem.DescentStep | context/AppContext.tsx:106-108 | each step of the save loop's descent goes into the children of a folder named by the next segment |
| FileSystem.SaveFile | context/AppContext.tsx:101-112 | the save loop returns the tree with the file at the path holding the new content |
| FileSystem.ContentAfterSave | context/AppContext.tsx:101-112 | after a save the path reads back the new content, and every other path reads what it read before |
| FileSystem.ContentOfFirstFile | constants.ts:4-8 | a top-level file listed first reads back its content |
| FileSystem.InitialReadmeContent | constants.ts:5-8 | the initial tree's README.md holds its welcome text |
| Workspace.FindTab | context/AppContext.tsx:115 | `openTabs.find(tab => tab.id === activeTabId)` finds a tab exactly when one with that id is open, and the tab it finds has that id |
| Workspace.WithoutTab | context/AppContext.tsx:73 | the filter keeps exactly the tabs with a different id and never grows the list |
| Workspace.UniqueTail | context/AppContext.tsx:54-61 | with unique ids the first tab's id does not reappear in the rest |
| Workspace.WithoutOpenTab | context/AppContext.tsx:73 | closing an open tab removes just that tab and keeps the order of the others |
| Workspace.WithoutAbsentTab | context/AppContext.tsx:73 | closing an id that is not open leaves the tabs as they are |
| Workspace.WithoutTabKeepsUnique | context/AppContext.tsx:73 | closing a tab keeps the ids unique |
| Workspace.Edited | context/AppContext.tsx:92-98 | the map over the tabs gives the edited tab the new content and dirty flag and leaves the others unchanged |
| Workspace.MarkedClean | context/AppContext.tsx:118 | the map over the tabs clears the dirty flag of the saved tab only |
| Workspace.SameIdsKeepUnique | context/AppContext.tsx:92-98 | a per-tab update that keeps every id keeps them unique |
| Workspace.CloseKeepsOpenable | context/AppContext.tsx:72-78 | closing a tab keeps every remaining tab's path leading to a file |
| Workspace.SaveKeepsTabsOpenable | context/AppContext.tsx:114-118 | saving the active tab's content keeps every tab's path leading to a file, and the saved path reads back the tab's content |
| Workspace.SaveKeepsValid | context/AppContext.tsx:114-118 | a save followed by marking the tab clean keeps the ids unique and every tab's path leading to a file |
| Workspace.SameIdsKeepOpenable | context/AppContext.tsx:92-98 | a per-tab update that keeps every id keeps every tab's path leading to a file |
| Workspace.Workspace.constructor | context/AppContext.tsx:13-28 | the initial state: the initial tree, no tabs, no active tab, nothing staged, an empty message, the explorer view with the sidebar shown and the terminal closed |
| Workspace.Workspace.OpenFile | context/AppContext.tsx:53-64 | an open path is only focused; a path that leads to a file gets a new clean tab with that content at the end, which is focused; any other path changes nothing |
| Workspace.Workspace.CloseTab | context/AppContext.tsx:66-79 | the tab and its decorations go; when it was active, the last remaining tab becomes active (or none); otherwise the active tab stays |
| Workspace.Workspace.SetActiveTab | context/AppContext.tsx:81-83 | the active id becomes the given id |
| Workspace.Workspace.UpdateTabContent | context/AppContext.tsx:85-99 | the tab with that id gets the new content and is dirty exactly when it differs from the saved content (the empty text if none); other tabs are unchanged; its decorations are emptied when the editor is mounted |
| Workspace.Workspace.SaveActiveFile | context/AppContext.tsx:114-124 | a dirty active tab is written to the tree, reads back, becomes clean, and its path becomes unstaged unless already staged; otherwise nothing changes |
| Workspace.Workspace.StageChange | context/AppContext.tsx:170-177 | the path moves from the unstaged set to the staged set |
| Workspace.Workspace.UnstageChange | context/AppContext.tsx:179-186 | the path moves from the staged set to the unstaged set |
| Workspace.Workspace.StageAllChanges | context/AppContext.tsx:188-191 | every unstaged path is staged and nothing is left unstaged |
| Workspace.Workspace.UnstageAllChanges | context/AppContext.tsx:193-196 | every staged path is unstaged and nothing is left staged |
| Workspace.Workspace.SetCommitMessage | context/AppContext.tsx:426 | the message becomes the given text |
| Workspace.Workspace.Commit | context/AppContext.tsx:198-206 | the commit succeeds exactly when something is staged and the message is not blank; success empties the staged set and the message, failure changes nothing |
| Workspace.Workspace.GenerateCommitMessage | context/AppContext.tsx:264-291 | it starts exactly when something is staged; then the message becomes the trimmed reply, or the error text when the request failed |
| Workspace.Workspace.RecordDecorations | context/AppContext.tsx:329-330 | new decoration ids are appended to the active tab's list; without an active tab nothing is recorded |
| Workspace.Workspace.SetActiveView | context/AppContext.tsx:148-155 | choosing the view already shown with the sidebar visible hides the sidebar; any other choice shows the sidebar with that view |
| Workspace.Workspace.ToggleSidebar | context/AppContext.tsx:157-159 | the sidebar's visibility flips |
| Workspace.Workspace.ToggleTerminal | context/AppContext.tsx:161-163 | the terminal's visibility flips |
| Workspace.EditSaveScenario | context/AppContext.tsx:53-124 | open, edit and save a file: one clean tab holding the edit, the tree holding the edit, and the path unstaged |
| Workspace.StageCommitScenario | context/AppContext.tsx:170-206 | staging the saved path and committing with a message leaves nothing staged or unstaged and an empty message |
| Diff.DiffKeepsBothSides | context/AppContext.tsx:367-389 | the diff keeps both texts: its removed and context lines are the original's lines in order, its added and context lines the modified text's lines |
| Diff.DiffKeepsOriginal | context/AppContext.tsx:373-386 | the context and removed lines of the diff are exactly the original lines |
| Diff.DiffKeepsModified | context/AppContext.tsx:373-386 | the context and added lines of the diff are exactly the modified lines |
| Diff.DiffLength | context/AppContext.tsx:373-386 | the diff has at least as many lines as either side and at most both together |
| Diff.DiffOfSame | context/AppContext.tsx:374-376 | a text compared with itself gives only context lines, one per line |
| Diff.DiffStep | context/AppContext.tsx:373-386 | the diff is the lines of one loop turn followed by the diff of what remains |
| Diff.StepLinesSides | context/AppContext.tsx:377-385 | a turn on differing lines takes one line off each side that still has one |
| Diff.Lines | context/AppContext.tsx:369-370 | `split('\n')` gives at least one line and no line holds a break |
| Diff.RenderAppend | context/AppContext.tsx:375-383 | printing two runs of diff lines one after the other prints their concatenation |
| Diff.OriginalsAppend | context/AppContext.tsx:375-379 | the original side of two runs is the two original sides in order |
| Diff.ModifiedsAppend | context/AppContext.tsx:375-383 | the modified side of two runs is the two modified sides in order |
| Diff.Shown | context/AppContext.tsx:375-383 | each printed line is its marker (space, minus or plus) followed by its text |
| Diff.SplitRendered | context/AppContext.tsx:375-383 | the printed diff splits back into one printed line per diff line |
| Diff.RenderSplitsIntoLines | context/AppContext.tsx:375-383 | the printed diff is one line per diff line, each ended by a break |
| Diff.DiffStepKeep | context/AppContext.tsx:374-376 | equal current lines print one context line and the loop moves on in both texts |
| Diff.DiffStepReplace | context/AppContext.tsx:377-385 | differing current lines print a removal if the original has a line and then an addition if the modified text has one |
| Diff.GenerateDiff | context/AppContext.tsx:367-389 | the loop's text is the printed positional diff of the two texts' lines |
| Diff.SectionLines | context/AppContext.tsx:277 | a file's section splits into the two header lines naming the path, one line per diff line, and two empty pieces |
| Diff.DiffLineFrom | context/AppContext.tsx:373-386 | every diff line's text is a line of one of the two sides |
| Diff.StagedDiff | context/AppContext.tsx:273-278 | the loop over the staged paths builds one section per path in order, comparing the initial tree's content with the current content |
| Fences.WordRun | context/AppContext.tsx:352 | `\w+` matches the longest prefix of word characters |
| Fences.StripFencesIsTrimmed | context/AppContext.tsx:350-352 | the cleaned code neither starts nor ends with white space |
| Fences.ClosingFenceGoes | context/AppContext.tsx:352 | a fence at the very end of the text is removed |
| Fences.OpeningFenceGoes | context/AppContext.tsx:352 | a leading fence goes, and with it a word tag followed by a line break |
| Fences.FencedBlockUnwraps | context/AppContext.tsx:352 | both fences of a block go, and the opening one takes its tag along |
| Fences.FencedBlockYieldsBody | context/AppContext.tsx:350-352 | a reply that is one fenced block, with or without a language tag, yields the trimmed body |
| Fences.UnfencedReplyIsTrimmed | context/AppContext.tsx:350-352 | a reply with no fence at either end is only trimmed |
| Fences.TagWithoutBreakStays | context/AppContext.tsx:352 | a tag not followed by a line break is kept; only the backticks go |
| Fences.WordRunPrefix | context/AppContext.tsx:352 | the word run of a word followed by a non-word character is that word |
| Terminal.Tokens | components/TerminalPanel.tsx:64 | `trim().split(' ').filter(Boolean)` gives non-empty tokens without spaces |
| Terminal.TokensOfJoin | components/TerminalPanel.tsx:64 | words joined by single spaces tokenize back to exactly those words |
| Terminal.JoinedWordsAreTrimmed | components/TerminalPanel.tsx:64 | words joined by single spaces are unchanged by `trim()` |
| Terminal.NoTokensIffBlank | components/TerminalPanel.tsx:64 | a line has no command exactly when it is blank |
| Terminal.FindNode | components/TerminalPanel.tsx:66-79 | the loop over the segments finds what the walk from the root finds, stopping at the first name it cannot follow |
| Terminal.WalkInFolder | components/TerminalPanel.tsx:69-77 | below a folder the walk finds what the tree lookup finds among its children |
| Terminal.ResolveIsNodeAt | components/TerminalPanel.tsx:66-79 | an empty path is the root; a non-empty path finds the node the editor's tree walk finds |
| Terminal.CatAgreesWithEditor | components/TerminalPanel.tsx:126-127 | when the root has no "type" entry, the terminal reaches a file with content `c` exactly when `getFileContent` returns `c` |
| Terminal.Labels | components/TerminalPanel.tsx:113-116 | one label per entry in key order, folders in bold blue with a slash |
| Terminal.ExecuteCommand | components/TerminalPanel.tsx:63-160 | the command's output lines and its effect (open a file, toggle the terminal, or none) are the reply the command table defines |
| Terminal.BlankLineIsSilent | components/TerminalPanel.tsx:155-156 | a blank line writes nothing and has no effect |
| Terminal.CatWritesLines | components/TerminalPanel.tsx:121-132 | `cat` of a file writes its lines joined by CR LF, and of anything else the error line |
| Terminal.CodeRequestsOpen | components/TerminalPanel.tsx:133-145 | `code` asks to open a file exactly when its argument leads to one (the same files `getFileContent` finds), with that path and its last segment as the tab name |
| Terminal.ExitTogglesTerminal | components/TerminalPanel.tsx:152-154 | a line toggles the terminal exactly when its first token is `exit` |
| Terminal.EchoWritesArgs | components/TerminalPanel.tsx:146-148 | `echo` writes its arguments joined by single spaces and nothing else |
| Terminal.EchoRoundTrip | components/TerminalPanel.tsx:146-148 | echoing space-free words writes back exactly those words |
| Terminal.LsListsRoot | components/TerminalPanel.tsx:91-119 | `ls` without an argument lists the root's entries in order joined by two spaces; when the root has an entry named `type` it prints the empty target path instead |
| Terminal.LsShowsPath | components/TerminalPanel.tsx:91-119 | `ls` with a path prints the error line when nothing is found, the path itself for a file, the folder's entries for a folder, and the root's entries (or the path, when the root has a `type` entry) for a path of slashes only; it never has an effect |
| Terminal.LsOnWord | components/TerminalPanel.tsx:91-119 | the line `ls p` for a word `p` prints the error line, the path, or the folder's entries according to what `p` resolves to |
| Terminal.UsageWithoutArgument | components/TerminalPanel.tsx:121-137 | `cat` and `code` with no argument print their usage line and do nothing else |
| Terminal.HelpAndClear | components/TerminalPanel.tsx:82-90 | `help` prints the seven help lines and `clear` clears the screen, without an effect |
| Terminal.UnknownCommand | components/TerminalPanel.tsx:157-158 | any other first word prints `command not found: ` and the word, without an effect |
| Terminal.Typed | components/TerminalPanel.tsx:200 | what typing a text leaves in the buffer is never longer than the text |
| Terminal.TypedIsBmp | components/TerminalPanel.tsx:200 | every typed character is one UTF-16 code unit long |
| Terminal.TypedBmpText | components/TerminalPanel.tsx:200-203 | a text of Basic Multilingual Plane characters is typed whole |
| Terminal.AstralNotTyped | components/TerminalPanel.tsx:200 | a character outside the Basic Multilingual Plane is not typed, because its key is two code units long |
| Terminal.Echoes | components/TerminalPanel.tsx:200-202 | typing a text echoes each character as its own write |
| Terminal.LineEditor.constructor | components/TerminalPanel.tsx:184-185 | a new terminal shows the welcome text and then the prompt, with an empty line buffer |
| Terminal.LineEditor.HandleKey | components/TerminalPanel.tsx:187-204 | Enter writes a break, runs the buffered line, clears it and writes the prompt; Backspace erases one character if there is one; a key without Alt, Ctrl or Meta whose name is one UTF-16 code unit long is echoed and appended, so a character outside the Basic Multilingual Plane (two code units) is not; anything else is ignored |
| Terminal.LineEditor.TypeChar | components/TerminalPanel.tsx:200-203 | the key of one character is typed and echoed exactly when the character is one UTF-16 code unit long, and is otherwise ignored |
| Terminal.LineEditor.TypeText | components/TerminalPanel.tsx:200-203 | typing a text key by key appends its typeable characters (`Typed`) to the buffer and echoes each of them |
| Terminal.LineEditor.EnterLine | components/TerminalPanel.tsx:187-204 | typing a line and pressing Enter runs its typeable characters, writes the command's reply between the break and the next prompt, and leaves the buffer empty |
| Palette.Filter | components/CommandPalette.tsx:23-25 | the filtered list is no longer than the command list and every listed command matches |
| Palette.FilterOne | components/CommandPalette.tsx:24 | a single command is listed exactly when its lowered title includes the lowered search |
| Palette.FilterAppend | components/CommandPalette.tsx:23-25 | the filter of two lists one after the other is the two filtered lists in the same order, so the palette lists exactly the matching commands in their original order (which decides the command Enter or a click runs) |
| Palette.FilterKeeps | components/CommandPalette.tsx:23-25 | a command is listed exactly when it is a command whose lowered title includes the lowered search |
| Palette.EmptySearchShowsAll | components/CommandPalette.tsx:23-25 | an empty search lists every command in order |
| Palette.FilterIgnoresCase | components/CommandPalette.tsx:24 | the case of the search makes no difference |
| Palette.TypingNarrows | components/CommandPalette.tsx:23-25 | extending the search never adds a command |
| Palette.JsRem | components/CommandPalette.tsx:37-40 | JavaScript's `%` takes the sign of the dividend and stays below the divisor in size |
| Palette.ArrowsInverse | components/CommandPalette.tsx:35-40 | on a listed row both arrows stay on listed rows and undo each other |
| Palette.ArrowsWrap | components/CommandPalette.tsx:35-40 | down from the last row is the first, up from the first is the last |
| Palette.ArrowOnEmptyList | components/CommandPalette.tsx:35-46 | on an empty list an arrow makes the selection NaN and nothing is highlighted |
| Palette.Highlighted | components/CommandPalette.tsx:43 | a command is highlighted exactly when the selection is a listed row, and it is one of the listed commands |
| Palette.Palette.constructor | components/CommandPalette.tsx:12-21 | a closed palette with the five commands, an empty search and the first row selected |
| Palette.Palette.Toggle | components/CommandPalette.tsx:56-64 | opening or closing flips the palette, resets the selection, and closing clears the search |
| Palette.Palette.SetSearch | components/CommandPalette.tsx:56-64 | typing into an open palette sets the search and selects the first row |
| Palette.Palette.MoveDown | components/CommandPalette.tsx:35-37 | ArrowDown moves the selection one row down with wrap-around |
| Palette.Palette.MoveUp | components/CommandPalette.tsx:38-40 | ArrowUp moves the selection one row up with wrap-around |
| Palette.Palette.RunHighlighted | components/CommandPalette.tsx:41-46 | Enter runs the highlighted command and closes the palette; with no row highlighted nothing happens |
| Palette.Palette.HandleKey | components/CommandPalette.tsx:27-64 | the shortcut toggles the palette and resets the selection (closing also clears the search); on a closed palette other keys change nothing; on an open one Escape closes it with the search cleared and the first row selected, the arrows move the selection, Enter runs the highlighted command and closes with the same reset (or does nothing without a row), and any other key changes nothing; a command runs only on Enter |
| Palette.Palette.Click | components/CommandPalette.tsx:83-86 | clicking a row runs its command and closes the palette |
| Assistant.FenceAtIsFence | components/AiAssistantView.tsx:7 | a fence at a position is three backticks there |
| Assistant.FirstFence | components/AiAssistantView.tsx:7 | the search finds the first fence from a position, or reports that there is none |
| Assistant.SplitOnBlocks | components/AiAssistantView.tsx:7 | the split gives at least one piece |
| Assistant.SplitOnBlocksJoin | components/AiAssistantView.tsx:7 | the pieces of the split concatenate back to the message |
| Assistant.SplitOnBlocksShape | components/AiAssistantView.tsx:7 | the pieces alternate between text with no complete block and a block from one fence to the nearest next fence |
| Assistant.MiddleIsBlock | components/AiAssistantView.tsx:7 | a span from a fence to the nearest next fence is one code block |
| Assistant.HeadHasNoFence | components/AiAssistantView.tsx:7 | the text before the first fence holds no fence |
| Assistant.LoneText | components/AiAssistantView.tsx:7 | a text without two fences holds no closed block |
| Assistant.Inner | components/AiAssistantView.tsx:14 | `slice(3, -3)` is the part between the two fences, and empty for a piece shorter than six |
| Assistant.IndexOf | components/AiAssistantView.tsx:15 | `indexOf` returns the first position of the character, or -1 exactly when it is absent |
| Assistant.PlainTextRender | components/AiAssistantView.tsx:24-28 | a message without fences is one paragraph, or nothing when blank |
| Assistant.WholeBlockPieces | components/AiAssistantView.tsx:7 | a message that is one block splits into an empty text, the block and an empty text |
| Assistant.SingleBlockCode | components/AiAssistantView.tsx:14-17 | the code of a block is its body after the tag line, trimmed |
| Assistant.SingleBlockRender | components/AiAssistantView.tsx:5-32 | a message that is one fenced block with a word tag renders as one code block holding the trimmed body |
| Assistant.RendererAgreesWithStripFences | components/AiAssistantView.tsx:12-17 | for one fenced block, the chat view shows the same code that the editor's fence stripping keeps |
| Assistant.LoneFenceIsEmptyBlock | components/AiAssistantView.tsx:12-17 | a message of just three backticks renders as one empty code block |
| Assistant.ShouldSend | components/AiAssistantView.tsx:50 | a message is sent exactly when it is not blank and no request is in flight |
| Assistant.ChatInput.constructor | components/AiAssistantView.tsx:37 | the input starts empty with nothing sent |
| Assistant.ChatInput.Type | components/AiAssistantView.tsx:37 | typing sets the input |
| Assistant.ChatInput.Submit | components/AiAssistantView.tsx:48-54 | a sendable input is sent as typed and cleared; otherwise nothing changes |
| Languages.Extension | components/EditorPane.tsx:32 | the extension is the lowered last dot-separated piece and holds no dot |
| Languages.DisplayName | components/StatusBar.tsx:14-31 | every language id has a non-empty display name |
| Languages.EditorLanguageIsKnown | components/EditorPane.tsx:31-51 | the editor always gets one of the seven language ids |
| Languages.SwitchesAgree | components/StatusBar.tsx:14-31 | the status bar's switch names the language the editor's switch picks |
| Languages.StatusBarAgreesWithEditor | components/StatusBar.tsx:11-32 | for a non-empty tab name the status bar shows the name of the editor's language; for an empty or missing name it shows nothing while the editor uses plain text |
| Languages.LanguageIgnoresCase | components/EditorPane.tsx:32 | the case of the tab name does not change the extension or either language |
| Languages.ExtensionAfterLastDot | components/EditorPane.tsx:32 | the extension is the lowered text after the last dot, and both languages follow from it |
| Languages.TsxIsTypeScript | components/EditorPane.tsx:37-39 | a name ending in `.tsx`, in any of the listed cases, is TypeScript in both places |
| Languages.NameWithoutDot | components/EditorPane.tsx:32 | a name without a dot is its own extension, lowered |

## Left out

- The calls to the language model (`sendChatMessage`, the explain/refactor/add-comments requests, the commit-message request) are not modelled as network calls. Their replies are parameters, and the loading flag is a parameter of `ShouldSend` and `Submit`.
- The chat history and its streaming updates are not modelled. They are React state fed by the model's stream.
- The theme handler (AppContext.tsx:138-146) is left out because it only adds or removes a CSS class. Its only call is the palette's `SetTheme` action, which the model records as a value.
- The save shortcut (AppContext.tsx:126-135) is left out because it only routes Ctrl/Cmd+S to `saveActiveFile`, which is modelled.
- The command palette's open flag (`toggleCommandPalette`) is a field of the `Palette` class, not of the workspace.
- `pushChanges` is left out because it is an alert.
- `alert` messages are not modelled. The outcome of `Commit` and `GenerateCommitMessage` is returned as a boolean instead.
- Workspace.Workspace.GenerateCommitMessage: the staged diff built at AppContext.tsx:273-278 is never put into the prompt, so this method does not call `Diff.StagedDiff`. The diff is modelled on its own by `Diff.StagedDiff`.
- Diff.StagedDiff: the source takes the paths in a `Set`'s insertion order. The model takes them as a sequence in whatever order the caller gives.
- Workspace.Workspace.RecordDecorations: the explanation's text and the Monaco decoration options are not modelled. Only the bookkeeping of the decoration ids per tab is.
- Monaco, the editor widget, selections and `executeEdits` are not modelled. Fence stripping is modelled as the function from the reply to the pasted text.
- React batching, stale closures and effect ordering are not modelled. Each callback runs against the current state. The terminal's key handler is created once at mount and so reads the file tree of the first render; the model passes the current tree.
- Workspace.Workspace.SaveActiveFile: it requires the workspace invariant (every open tab's path leads to a file). The source's save loop would throw on a path that does not. The file explorer (renaming, deleting, creating files) is not part of this model, so nothing in the model can break the invariant.
- FileSystem.SaveFile: it requires that the path lead to a file, for the same reason.
- The file explorer, menu bar, activity bar, tab bar and layout components are not part of this model.
- Terminal.Step: when the walk reaches a file before the last segment, `findNode` reads a property of the file object (`currentNode[part]`), so a segment `type` or `content` after a file yields a string. For `ls` on such a path the source then throws a TypeError at TerminalPanel.tsx:102 (`'type' in node` on a string), where the model prints the not-found line. For `cat` and `code` the source prints the not-found line, as the model does.
- JavaScript object lookups also find inherited property names such as `constructor`. This is not modelled: a name is found only when it is an entry.
- `Object.keys` lists integer-like names first. The model lists entries in their stored order.
- The xterm widget, its fit add-on, the panel resizing and the theme colours are not modelled.
- The terminal screen is the list of writes and line writes. Cursor movement is not rendered.
- Strings.Lower: only ASCII letters are lowered. The JavaScript `toLowerCase` of other scripts is not modelled.
- Palette.Palette.SetSearch: typing into a closed palette is modelled as no change. The source's input is not rendered while the palette is closed.
