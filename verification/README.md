# Verification of lssh's diff table, streams, panes, sessions and parsers

These modules model the parts of lssh (a family of SSH tools written in Go) whose results are easy to state and hard to
see from the code, and prove what users of those parts rely on.  Code that changes things in place is modelled by
classes, arrays and loops and tied to functions on values; the properties are proved about those functions, for every
input, every way of cutting a stream, every run and every interleaving.

- `DiffAlign`, `DiffTable`, `DiffViewer`: lsdiff aligns any number of documents with the first one.  Whatever valid edit
  scripts the matcher returns, each column of the table reads back as its document, and every scroll or search leaves
  the viewer's slices in range.
- `Bytes`, `MarkerFilter`, `LineWriters`: three stateful writers.  Their output is a function of the whole stream, not
  of how it was cut into writes; where that fails, the exact condition is proved.
- `LayoutTree`, `Layout`, `LayoutBuild`, `Pages`, `PaneManager`: the lsmux pane tree, rewritten in place, in step with
  the pane list of its page over every run.
- `SessionDaemon`, `AttachClient`: the attach/detach protocol, as atomic steps in any order, and the prefix-key input
  loop.
- `Options`, `Strings`, `ProcessSubst`, `QuoteGrammar`, `ShellQuote`, `PipeLine`, `HostPath`: the pshell scanner against
  a definition of balanced substitutions and a grammar of quoting, shell quoting against the word splitting and quote
  removal of the POSIX Shell Command Language (section 2.2), pipeline joining and wiring, and the `hosts:path` parser.
- `ExpandSubst`, `SubstPlaces`, `ExpandCommand`, `ExpandSamples`: the loop that puts the results of process substitutions
  into a command, against replacing each of them where it stands.
- `MatchConfig`, `Highlight`, `ConnPool`: conditional overrides under Go's arbitrary map order, merging of highlight
  spans, and the connection pool of the pipe daemon.

What the code does not do, each with its exact condition:

- A row of the diff table can be scrolled to if and only if it lies within the longest document or the first screen
  (`DiffViewer.RowReachable`, with `UnreachableRow` as an example).
- The marker filter gives the same output as for one single write if and only if the write that completes the marker
  brings all of the newline after it (`MarkerFilter.ChunkingShows`, with `NewlineSplitShows` as an example).
- The replay buffer holds the most recent bytes if and only if no chunk is larger than the whole buffer
  (`SessionDaemon.AppendKeepsLast`); the reader's chunks never are.
- After a transient pane is removed the focus is on the page if and only if the fallback was on it and is not the pane
  removed; the current page is in the session after a page is removed under the same condition on pages
  (`PaneManager.Manager.RemoveTransientPane`, `RemovePage`).  `PaneManager.LoseFocus` is a run that ends with a lost
  focus; none does in which, while a selector is open, no page is made, dropped or changed to, no pane ends and no other
  selector opens (`PaneManager.Manager.Run`).
- The expanded command has every process substitution replaced where it stood if and only if no substitution has its
  text occurring, quoted or not, before its place in the line as it is at its turn (`ExpandCommand.ExpandedInPlaceIff`);
  under the same condition the line is as it should be after every turn (`EveryTurnInPlaceIff`).  For quoted paths that
  hold neither `<` nor `)` and are not mentioned in a later substitution, that is: if and only if the text does not stand
  before it in the command as typed, clear of the substitutions before it (`TypedInPlaceIff`), so `'<(a)' <(a)` is not
  expanded in place (`ExpandSamples.QuotedCopyIsReplaced`), while a repeated `<(a 'b') <(a 'b')` meets the condition
  (`RepeatedTextIsNoCopy`).
- The expansion indexes an empty list if and only if a `+<(...)` without results is reached while all before it have
  some (`ExpandCommand.ExpandLocalProcessSubstitutions`, `OutcomeOnce`); the shell runs only with a connection and every
  target needs one, so no such list is received.
- `hosts:path` round-trips if and only if no colon further right ends a selector of known hosts (`HostPath.RoundTrip`).
- The outcome of conditional overrides depends on the iteration order of the map if and only if two topmost branches
  disagree (`MatchConfig.OrderMattersIffTopsDisagree`).  Branches read from a file never do: each has an order of its own.
- A connection of the pool stays open whatever happens from now on, Close included, if and only if another one took its
  place while it was open and no request has looked it up and is still to check it (`ConnPool.NeverClosedIff`).  Two
  requests that dial the same host at once bring that about (`RaceAbandons`), and so does a host listed twice at startup
  (`BootTwiceAbandons`); nothing does when neither happens (`AloneAbandonsNothing`).  After Close and with all requests
  over, everything is closed if and only if, besides, no request has pooled a connection after the last Close that no
  failure has taken out again (`AllClosedAtRestIff`, with `LatePoolStays` as an example).
- Every pipe has a reader if and only if the command line does not end in `|` (`PipeLine.EveryPipeIsRead`); the parser
  gives the last stage no operator, so a typed line never does.

## Model

| member | source | states |
|---|---|---|
| DiffAlign.AlignToBase | internal/lsdiff/align.go:65-125 | for any valid script the base rows and insert segments, read in table order, are exactly the other document: line j with its text and the number j + 1 |
| DiffAlign.ApplyOp | internal/lsdiff/align.go:72-118 | one opcode writes only its own base rows and its own insert segment, and appends to the latter |
| DiffAlign.ApplyReplace | internal/lsdiff/align.go:94-117 | a replace pairs lines as far as both ranges reach, blanks the rest of the base range, and inserts the lines left over after it |
| DiffAlign.OpReads | internal/lsdiff/align.go:72-118 | paired and inserted cells of one opcode together are its range of the other document, in order |
| DiffAlign.ExtendReads | internal/lsdiff/align.go:65-125 | consuming one more opcode appends what it shows to what has been read so far |
| DiffAlign.AlignPrefixReads | internal/lsdiff/align.go:65-125 | at every point of the script the other document is read back up to where the script stands |
| DiffTable.AlignDocuments | internal/lsdiff/align.go:14-63 | every row has a cell per document and shows a line of at least one; column d without padding is document d, each line with its text and its number, counted from 1; a row is flagged exactly if its documents disagree |
| DiffTable.TableIsFaithful | internal/lsdiff/align.go:14-63 | the table of any valid scripts keeps that promise for all columns and rows at once |
| DiffTable.TableColumn | internal/lsdiff/align.go:31-63 | padding and other documents never show in a column |
| DiffTable.TableRow | internal/lsdiff/align.go:31-63 | every row is complete and no row is all padding |
| DiffTable.TableLength | internal/lsdiff/align.go:31-63 | the row count is the base line count plus, per segment, the largest insertion of any document there |
| DiffTable.InsertedLength | internal/lsdiff/align.go:86-117 | a segment is as long as the excess lines of the opcodes that end at its base line |
| DiffTable.PairedLinesShareRow | internal/lsdiff/align.go:72-118 | the line that the script pairs with a base line stands in its row, with its own text and number; an unpaired base line meets a blank |
| DiffTable.MergeInsertedRows | internal/lsdiff/align.go:127-152 | the merged segment is as long as the longer of the two, existing rows gain one cell and new rows are padded on the left |
| DiffTable.FoldDocument | internal/lsdiff/align.go:34-46 | folding in document d turns the table of the first d documents into the table of d + 1 |
| DiffTable.Flatten | internal/lsdiff/align.go:48-53 | rows come out as segment, base row, segment, to the end |
| DiffTable.MarkChanged | internal/lsdiff/align.go:55-57 | flags every row and changes no cell |
| DiffTable.RowChanged | internal/lsdiff/align.go:154-187 | true exactly if some present line is missing or different in another document |
| DiffTable.FaithfulIsLongEnough | internal/lsdiff/align.go:14-63 | no document is longer than the table |
| DiffViewer.RowReachable | internal/lsdiff/view.go:272-293 | exactly which rows some scroll position shows |
| DiffViewer.UnreachableRow | internal/lsdiff/view.go:272-293 | three documents whose last table row no scrolling shows on two lines |
| DiffViewer.Viewer.constructor | internal/lsdiff/view.go:32-98 | a viewer of an aligned comparison starts at the top, within range |
| DiffViewer.LeastHeight | internal/lsdiff/view.go:295-307 | positive heights are at least it, and it is one of them unless it is 0 |
| DiffViewer.Viewer.VisibleHeight | internal/lsdiff/view.go:295-307 | the loop finds that smallest positive pane height |
| DiffViewer.Viewer.MaxRowOffset | internal/lsdiff/view.go:272-293 | the limit follows from the longest document and the visible height |
| DiffViewer.Viewer.ScrollVertical | internal/lsdiff/view.go:255-263 | the offset is the requested one, clamped to the limit |
| DiffViewer.Viewer.ScrollHorizontal | internal/lsdiff/view.go:265-270 | the column never becomes negative |
| DiffViewer.Viewer.JumpToFirstMatch | internal/lsdiff/view.go:236-253 | goes to the first row with a match, as far down as the limit allows, or stays |
| DiffViewer.Viewer.Render | internal/lsdiff/view.go:193-204 | clamps the offset and shows, for every document d, its cells in the rows between the offset and the end of the screen; all indices in range |
| DiffViewer.Viewer.RenderDocument | internal/lsdiff/view.go:206-234 | the pane of document d shows cell d of each of those rows |
| MarkerFilter.HeldBackSuffices | internal/mux/remote.go:151-158 | holding back a marker's length misses no marker: the search in the pending bytes finds the stream's first one |
| MarkerFilter.StartupMarkerFilter.Write | internal/mux/remote.go:124-161 | keeps what was written tied to all input so far; stripped exactly once the marker has occurred; at most marker length + 4 bytes are pending |
| MarkerFilter.StartupMarkerFilter.Search | internal/mux/remote.go:128-160 | the same while the marker is still sought |
| MarkerFilter.StartupMarkerFilter.StripFound | internal/mux/remote.go:131-149 | the first marker and the newline bytes after it are cut out of everything sought so far |
| MarkerFilter.StartupMarkerFilter.Flush | internal/mux/remote.go:163-170 | without a marker everything pending goes out unchanged |
| MarkerFilter.NewlineLength | internal/mux/remote.go:133-138 | 0, 1 or 2 bytes: an optional CR and an optional LF |
| MarkerFilter.SearchedIsPrefix | internal/mux/remote.go:124-161 | the marker is found by some write exactly if it occurs in the stream, wherever the cuts are |
| MarkerFilter.FilterStartupMarkerReader | internal/mux/remote.go:172-187 | for every way of cutting the stream: unchanged without a marker; otherwise the first marker is cut out where it stands, and with it the CR and LF after it, as far as the write that completed it brought them |
| MarkerFilter.ChunkingShows | internal/mux/remote.go:131-149 | for every list of writes, the result is that of one single write exactly if the write that completes the marker brings all of its newline |
| MarkerFilter.NewlineSplitShows | internal/mux/remote.go:131-149 | a marker and CR in one write and LF in the next leave the LF |
| LineWriters.SplitResumes | internal/mux/remote.go:262-278 | lines after a cut need only the unfinished line before it |
| LineWriters.LinesConcat | internal/mux/remote.go:262-286 | the lines of a stream, the last one perhaps unfinished, lose no byte |
| LineWriters.TerminalLogWriter.Write | internal/mux/remote.go:246-286 | the file holds the finished lines so far, one stamp each, and the rest is pending; a closed log takes nothing |
| LineWriters.TerminalLogWriter.Close | internal/mux/remote.go:288-311 | the unfinished line is written as well; closing twice changes nothing |
| LineWriters.LogSession | internal/mux/remote.go:246-311 | without stripping, the file of a whole session is the same for every cutting: the lines of the text, the k-th right after the k-th stamp, or the text itself |
| LineWriters.EventWriter.Write | internal/lspipe/daemon.go:531-565 | the events sent are the finished lines so far, rendered, and the rest is buffered |
| LineWriters.EventWriter.WriteRaw | internal/lspipe/daemon.go:532-543 | raw output passes unchanged, on stderr without the noise pieces of this write |
| LineWriters.EventWriter.Flush | internal/lspipe/daemon.go:567-575 | an unfinished line goes out with its newline added |
| LineWriters.EventWriter.FlushLocked | internal/lspipe/daemon.go:577-611 | one event with the rendered pieces of the buffer, or none for an empty buffer |
| LineWriters.EventWriter.FilterNoise | internal/lspipe/daemon.go:613-623 | drops exactly the empty and the noise pieces |
| LineWriters.EventWriter.QuietDropsNoise | internal/lspipe/daemon.go:613-623 | piece by piece, noise is dropped and anything else is kept in order |
| LineWriters.EventSession | internal/lspipe/daemon.go:531-611 | for every cutting the events are the lines of the whole input: host, ` :: `, the line and one newline, without the header if that is off, empty for noise on stderr |
| LayoutTree.SplitTree | internal/mux/layout.go:95-115 | succeeds exactly if the pane is shown; the new panes stand right after it; the tree stays well-formed |
| LayoutTree.SplitReplacesLeaf | internal/mux/layout.go:95-115 | the pair stands where the pane was, in the given direction, and nothing else in the tree changes |
| LayoutTree.RemoveTree | internal/mux/layout.go:117-154 | succeeds exactly if the pane is shown; only that pane goes; every inner node keeps two children |
| LayoutTree.RemoveUndoesSplit | internal/mux/layout.go:91-154 | at any depth, removing a freshly split-off pane gives back the same tree node for node |
| LayoutTree.SplitAtNothing | internal/mux/layout.go:95-108 | splitting with a lost focus would hit the root and drop all its panes |
| Layout.LayoutNode.SplitAt | internal/mux/layout.go:91-93 | in place, what splitting the value with one new pane gives |
| Layout.LayoutNode.SplitLayout | internal/mux/layout.go:95-115 | in place, what splitting the value gives; untouched when the pane is not found |
| Layout.LayoutNode.RemovePane | internal/mux/layout.go:117-137 | in place, what removing from the value gives; no new nodes; untouched when not found |
| Layout.LayoutNode.CompactNode | internal/mux/layout.go:139-154 | a node with one child becomes it, a node with none becomes void |
| LayoutBuild.BuildLinearLayout | internal/mux/layout.go:187-199 | one leaf per pane, in order, in the given direction |
| LayoutBuild.BuildBalancedLayout | internal/mux/layout.go:156-185 | up to three panes a line; from four on a grid of the fewest rows that hold them with at most ceil(sqrt(n)) panes each, no row more than one pane longer than another, the longer ones first |
| LayoutBuild.BuildGrid | internal/mux/layout.go:166-184 | the rows add up to all panes and no slice is out of range |
| LayoutBuild.RowSizes | internal/mux/layout.go:166-184 | no row is empty or longer than the number of columns |
| LayoutBuild.BalancedIsWellFormed | internal/mux/layout.go:156-199 | every layout built this way is a well-formed tree of exactly those panes |
| Pages.SplitAgrees | internal/mux/layout.go:91-115 | splitting keeps tree and pane list in agreement and fails only for a focus off the page |
| Pages.RemoveAgrees | internal/mux/layout.go:117-154 | removing keeps them in agreement, down to the void root of an emptied page |
| Pages.Page.Attach | internal/mux/manager.go:443-470 | new panes become the layout or join it right after the focus |
| Pages.Page.AddPanes | internal/mux/manager.go:443-470 | list, tree and focus grow together, or nothing changes |
| Pages.Page.InsertTransient | internal/mux/manager.go:324-341 | the same for one transient pane |
| Pages.Page.RemoveTransient | internal/mux/manager.go:343-367 | list and tree lose that pane only; the focus is the fallback if there is one |
| Pages.Page.Close | internal/mux/manager.go:702-738 | list and tree lose the pane; if it had the focus, the pane that took its place in the list has it now, or else the last one |
| Pages.Page.Cycle | internal/mux/manager.go:669-676 | the focus moves to the next pane, round and round; a stale focus counts as the first pane |
| Pages.Page.Restorable | internal/mux/manager.go:324-367 | a fresh pane put beside the focus can be taken out without a trace |
| PaneManager.Manager.CreatePage | internal/mux/manager.go:403-427 | a page of one pane per host, balanced, focused on the first, becomes current; no hosts, no page |
| PaneManager.Manager.AddPanesToCurrentPage | internal/mux/manager.go:429-472 | grows the current page or makes the first one, with a pane per host in order; fails exactly with a stale focus, and then changes no page |
| PaneManager.Manager.NewPendingPanes | internal/mux/manager.go:437-441 | one fresh pane per host, in order, with consecutive ids |
| PaneManager.Manager.InsertTransientPane | internal/mux/manager.go:324-341 | fails exactly without a page or with a stale focus; other pages are untouched |
| PaneManager.Manager.RemoveTransientPane | internal/mux/manager.go:343-367 | list and tree lose that pane; the focus is then on the page exactly if the fallback was on it and is another pane |
| PaneManager.Manager.RemovePage | internal/mux/manager.go:369-386 | only that page leaves the session; the current page is listed exactly if the fallback survives |
| PaneManager.Manager.RemovePane | internal/mux/manager.go:698-743 | closes the pane on the page it was opened on, current or not; the focus moves on to the pane that took its place, or else the last one; an emptied page leaves the session |
| PaneManager.Manager.SwitchPage | internal/mux/manager.go:651-663 | the page at the index, wrapping below to the last and above to the first |
| PaneManager.Manager.CyclePane | internal/mux/manager.go:665-678 | the focus moves on to the next pane, round and round, or to the second one if it was stale, and nothing else changes |
| PaneManager.Manager.ClickPane | internal/mux/manager_input.go:15-56 | the focus goes onto the listed pane that is hit, if any, and nothing else changes |
| PaneManager.Manager.NewSelectorPane | internal/mux/manager.go:308-322 | a fresh pane with the next id |
| PaneManager.Manager.OpenSelector | internal/mux/manager.go:197-205 | opens exactly with the focus on the page; removing the selector's pane would then give back list and tree |
| PaneManager.Manager.OpenAndCancelSelector | internal/mux/manager.go:197-278 | opening and cancelling the selector restores panes, focus and tree node for node, and every other page |
| PaneManager.Manager.Run | internal/mux/manager.go:324-743 | after any requests in any order every page ever made has a duplicate-free pane list that its tree shows exactly, and pages share no nodes; if only adding, cycling, clicking and closing happens while a selector is open, every page with panes has its focus on one of them |
| PaneManager.LoseFocus | internal/mux/manager.go:343-367 | a run from an empty manager that leaves the focus on a pane that has gone |
| SessionDaemon.AppendKeepsLast | internal/lsmuxsession/daemon.go:145-160 | the buffer keeps the most recent bytes exactly if the chunk fits the buffer |
| SessionDaemon.Daemon.BroadcastOutput | internal/lsmuxsession/daemon.go:131-143 | buffers only when nobody is attached, and names the client to send to |
| SessionDaemon.Daemon.AppendBufferedOutput | internal/lsmuxsession/daemon.go:145-160 | the in-place trim is the trimming function |
| SessionDaemon.Daemon.AttachConn | internal/lsmuxsession/daemon.go:196-208 | only with nobody attached; takes the whole buffer and empties it |
| SessionDaemon.Daemon.DetachClient | internal/lsmuxsession/daemon.go:246-253 | only the client itself is detached |
| SessionDaemon.Daemon.Close | internal/lsmuxsession/daemon.go:255-266 | only the first call tears down |
| SessionDaemon.StepKeepsInv | internal/lsmuxsession/daemon.go:118-253 | every step of every goroutine keeps the protocol invariant |
| SessionDaemon.RunKeepsInv | internal/lsmuxsession/daemon.go:118-253 | so every interleaving does: a client attached means an empty buffer, and every client got the last bytes before it and then everything |
| SessionDaemon.BufferInEveryRun | internal/lsmuxsession/daemon.go:131-160 | detached, the buffer is exactly the last 1048576 bytes of the output since the last client left, or all of it; attached, it is empty |
| SessionDaemon.EveryClientServed | internal/lsmuxsession/daemon.go:118-208 | in every run each client was sent that buffer on entry and then everything read while it was attached |
| SessionDaemon.NothingTwiceOrSkipped | internal/lsmuxsession/daemon.go:118-253 | gaps and handed chunks, in client order, make up the output up to the last client's end |
| SessionDaemon.AllAccounted | internal/lsmuxsession/daemon.go:118-253 | in every interleaving that accounts for every byte of the output |
| SessionDaemon.LetInOnce | internal/lsmuxsession/daemon.go:196-208 | no connection is attached twice |
| SessionDaemon.OnlyItselfEnds | internal/lsmuxsession/daemon.go:131-253 | an attached client stays attached unless it leaves or a send to it fails: a late detach of an earlier one never evicts it |
| AttachClient.AttachInput | internal/lsmuxsession/client.go:103-139 | bytes read are bytes forwarded plus a pending prefix; it detaches exactly at the first prefix and detach pair and forwards neither |
| AttachClient.FirstChord | internal/lsmuxsession/client.go:103-139 | no input can be read past its first such pair |
| AttachClient.HarmlessAppend | internal/lsmuxsession/client.go:103-139 | what may be forwarded does not depend on where the input is cut |
| ProcessSubst.ReadBalancedCommand | internal/pshell/local_process_subst.go:152-201 | the body ends at the first unquoted parenthesis that balances it, or there is none |
| ProcessSubst.ReadLocalProcessSubstitution | internal/pshell/local_process_subst.go:122-150 | found, unterminated or nothing, each exactly when it should be, with the right text, command and kind |
| ProcessSubst.ParseLocalProcessSubstitutions | internal/pshell/local_process_subst.go:63-120 | sound and complete: disjoint balanced spans in order, no opener outside them, an error exactly if some opener is never closed |
| ProcessSubst.ParsedOnce | internal/pshell/local_process_subst.go:63-120 | a command has only one such list of spans |
| ProcessSubst.NestedTerminates | internal/pshell/local_process_subst.go:63-201 | whatever opens inside a balanced substitution is itself balanced |
| QuoteGrammar.UnquotedIff | internal/pshell/local_process_subst.go:74-108 | a character is unquoted for the scanner exactly if whole pieces end before it: bare characters, backslashed ones, single-quoted and double-quoted text |
| QuoteGrammar.ClosesIff | internal/pshell/local_process_subst.go:152-201 | a parenthesis closes a body exactly if what stands between is made of such pieces and of parentheses in pairs |
| QuoteGrammar.TakenApart | internal/pshell/local_process_subst.go:63-120 | a command put together from text and substitutions is taken apart into just these substitutions, and nothing else is a parse of it |
| QuoteGrammar.QuotedTextHides | internal/pshell/local_process_subst.go:74-108 | any string in double quotes with its quotes and backslashes escaped, or with each character escaped, holds no substitution, and one that follows it is found |
| ShellQuote.QuotedReads | internal/pshell/local_process_subst.go:340-346 | the shell reads any quoted string back as that one string |
| ShellQuote.ShellFollowsScanner | internal/pshell/local_process_subst.go:63-120 | on a line of words the shell takes the same characters as quoted as the scanner |
| ShellQuote.JoinRoundTrip | internal/pshell/local_process_subst.go:331-346 | splitting joined words as the shell does gives the same words |
| ShellQuote.JoinedWordsAreInert | internal/pshell/local_process_subst.go:63-120 | the scanner finds no substitution in joined words and reads on unquoted after them |
| ExpandSubst.ReplacedInPlace | internal/pshell/local_process_subst.go:57 | one replacement hits its place exactly if the text does not occur earlier |
| ExpandSubst.EachTurnInPlaceIff | internal/pshell/local_process_subst.go:43-58 | the line is as it should be after each of the first n turns exactly if none of their texts occurs before its place |
| ExpandSubst.StaysAstray | internal/pshell/local_process_subst.go:43-58 | a misplaced replacement is not repaired by a later one |
| ExpandSubst.EndsInPlaceIff | internal/pshell/local_process_subst.go:43-58 | the loop ends as it should exactly if no text occurs before its place |
| SubstPlaces.MeantToBe | internal/pshell/local_process_subst.go:43-58 | replacing the spans one by one where they stand is what the loop is compared with |
| SubstPlaces.CopyIsInCommand | internal/pshell/local_process_subst.go:43-58 | for quoted words without `<` and `)` that the text does not mention: a copy stands before the place at that turn exactly if one does in the command, clear of earlier substitutions |
| SubstPlaces.NotInWords | internal/pshell/local_process_subst.go:43-58 | no copy of the text overlaps such words once they are put in |
| ExpandCommand.ExpandLocalProcessSubstitutions | internal/pshell/local_process_subst.go:26-61 | an unterminated substitution, or the first one without paths if it failed, gives an error; no paths at all there index out of range; otherwise the loop over all substitutions has run with words for each that the shell splits into its paths |
| ExpandCommand.GivenReads | internal/pshell/local_process_subst.go:50-55 | what is put in for `+<(...)` reads back as the paths of all its servers, and for `<(...)` as the one path |
| ExpandCommand.OutcomeOnce | internal/pshell/local_process_subst.go:26-61 | that determines the outcome and the expanded line |
| ExpandCommand.EveryTurnInPlaceIff | internal/pshell/local_process_subst.go:43-58 | the line is as it should be after every turn exactly if no text occurs before its place in the line as it is then |
| ExpandCommand.ExpandedInPlaceIff | internal/pshell/local_process_subst.go:26-61 | so is what the function returns, under the same condition |
| ExpandCommand.TypedInPlaceIff | internal/pshell/local_process_subst.go:26-61 | the same in terms of the command as typed, for words with neither `<` nor `)` that no later substitution mentions |
| ExpandCommand.PlainPathsGivePlainWords | internal/pshell/local_process_subst.go:50-53 | paths without these characters give such words |
| ExpandSamples.QuotedCopyIsReplaced | internal/pshell/local_process_subst.go:57 | a quoted copy before the substitution is replaced and the substitution stays |
| ExpandSamples.RepeatedTextIsNoCopy | internal/pshell/local_process_subst.go:57 | the same text twice, quotes in it, is no such copy |
| Strings.FirstIndex | internal/pshell/parse.go:88-95 | the first place of the colon that decides about a target, or -1 |
| PipeLine.JoinPipeLine | internal/pshell/parse.go:39-86 | every argument and operator is kept in order, after one empty token for a leading remote stage; exactly the longest runs of untargeted remote stages are joined |
| PipeLine.NoTwoSideBySide | internal/pshell/parse.go:39-86 | no two neighbouring stages of the result are untargeted remote stages |
| PipeLine.CountPipeSet | internal/pshell/executor.go:328-336 | the number of stages ending in a pipe |
| PipeLine.WireStages | internal/pshell/executor.go:93-139 | exactly the stages ending in `\|` write a pipe, the pipes are numbered in that order and all have a writer, the next stage reads it; all indices in range |
| PipeLine.IsTargetedRemote | internal/pshell/parse.go:88-95 | exactly `@hosts:command` with hosts that are not empty |
| PipeLine.IsLocal | internal/pshell/parse.go:53-54 | a built-in command or one that starts with `+` |
| PipeLine.PipeJoinsNeighbours | internal/pshell/executor.go:109-139 | no pipe has two writers, and exactly the next stage reads it |
| PipeLine.EveryPipeIsRead | internal/pshell/executor.go:109-139 | every pipe has a reader exactly if the line does not end in a pipe |
| Strings.SplitJoin | internal/common/common.go:571-573 | splitting joined parts gives the parts back when none holds the separator |
| Strings.LastIndex | internal/common/common.go:599 | the last place of a character, or -1 |
| HostPath.ParseHostPath | internal/common/common.go:565-576 | without a colon all is path; otherwise the hosts, joined again, the first colon and the path are the value |
| HostPath.MatchParts | internal/common/common.go:606-621 | matches exactly if every part names a known host, and then holds their names |
| HostPath.KnownHostSet | internal/common/common.go:586-593 | the trimmed, non-empty names |
| HostPath.ParseHostPathWithHosts | internal/common/common.go:580-629 | terminates; the rightmost colon that ends a selector of known hosts decides, otherwise the first colon |
| HostPath.ParsedOnce | internal/common/common.go:580-629 | that determines the result |
| HostPath.RoundTrip | internal/common/common.go:580-629 | `h1,...,hn:path` of known hosts, colons in them or not, each typed with or without an `@`, comes back without the `@` exactly if no colon further right ends another known selector |
| HostPath.RoundTripPlainPath | internal/common/common.go:580-629 | always when the path has no colon |
| MatchConfig.SortedMatches | internal/config/match.go:451-467 | for any iteration order of the map, that order sorted stably |
| MatchConfig.StableSortSorts | internal/config/match.go:457-464 | no branch has a higher rank than one after it: the priority, 100 if omitted, then the order |
| MatchConfig.MergeServerMatchConfig | internal/config/match.go:885-904 | exactly the fields whose key the branch defines take its value |
| MatchConfig.ResolveServer | internal/config/match.go:391-402 | the branches that hold, merged in sorted order: each field comes from a branch of the highest rank among those that give it one; the branch table itself stays |
| MatchConfig.ValidateMatchConfigs | internal/config/match.go:407-440 | accepted exactly if every branch of every server is valid; nothing needed means no branches |
| MatchConfig.ResolveConditionalMatches | internal/config/match.go:374-405 | a branch without conditions or with a bad network changes nothing anywhere; otherwise each field of each server comes from a branch of the highest (priority, order) among those that hold and define it, or stays |
| MatchConfig.OutcomeHighestWin | internal/config/match.go:391-402 | that holds for every iteration order of the map |
| MatchConfig.TheHighestWins | internal/config/match.go:451-467 | with no other branch of the same rank the highest one decides |
| MatchConfig.LastOverrideWins | internal/config/match.go:391-402 | a field is the value of the last matching branch that defines it, or the base value |
| MatchConfig.TopDecides | internal/config/match.go:374-405 | for every iteration order, that branch is one no other overriding branch sorts after |
| MatchConfig.ListedLastDecides | internal/config/match.go:451-467 | any such branch wins in some iteration order |
| MatchConfig.OrderMattersIffTopsDisagree | internal/config/match.go:374-405 | the result is the same for every iteration order exactly if the topmost branches of each field agree |
| MatchConfig.DistinctRanksAgree | internal/config/match.go:451-467 | distinct (priority, order) pairs make the result independent of the map |
| Highlight.SortAscends | internal/list/tview.go:306-311 | spans ascend by start, those with the same start by end |
| Highlight.MergeSpans | internal/list/tview.go:313-327 | the merged spans are in order, disjoint, not touching, and cover exactly the same characters |
| Highlight.Render | internal/list/tview.go:329-344 | plain and marked pieces alternate, none empty, and together show the line with exactly the covered characters marked |
| Highlight.HighlightLine | internal/list/tview.go:278-345 | for matches in any order, overlapping or empty: no character lost, a character stands between `[#ff69b4]` and `[-]` exactly if some match holds it, no tags between marked neighbours |
| Highlight.GapIsPlain | internal/list/tview.go:329-344 | nothing outside the merged spans is marked |
| ConnPool.Daemon.Connected | internal/lspipe/daemon.go:467-470 | pool and record change together |
| ConnPool.Daemon.SetHealth | internal/lspipe/daemon.go:498-508 | a host recorded as down loses its connection, which is closed |
| ConnPool.Daemon.Close | internal/lspipe/daemon.go:163-178 | every pooled connection is closed and the pool is empty |
| ConnPool.StepKeepsInv | internal/lspipe/daemon.go:445-508 | every step of every request keeps the pool's invariant |
| ConnPool.PooledIsConnected | internal/lspipe/daemon.go:163-178 | in every interleaving a host with a pooled connection is recorded as connected |
| ConnPool.EachHostItsOwn | internal/lspipe/daemon.go:445-496 | no request runs over another host's connection and no two hosts share one |
| ConnPool.ReusesOpen | internal/lspipe/daemon.go:445-459 | a request for a host whose pooled connection is alive uses it and changes nothing in the pool |
| ConnPool.ReplacesDead | internal/lspipe/daemon.go:445-470 | one found dead is closed and the new one takes its place |
| ConnPool.FailureTakesOut | internal/lspipe/daemon.go:498-508 | a command that ends with its host down takes the host's connection out and closes it |
| ConnPool.EveryoneSomewhere | internal/lspipe/daemon.go:432-508 | every connection dialled is pooled, on its way there, closed or displaced |
| ConnPool.AbandonedForGood | internal/lspipe/daemon.go:163-178 | no request, dial or Close ever closes an abandoned connection |
| ConnPool.NeverClosedIff | internal/lspipe/daemon.go:432-508 | a connection stays open in every continuation exactly if it was displaced while open and no request has it in hand; at rest, exactly if it was displaced and is open |
| ConnPool.PooledIffTaken | internal/lspipe/daemon.go:445-508 | after a Close a host has a connection exactly if a later step gave it one and none since took it out |
| ConnPool.AllClosedAtRestIff | internal/lspipe/daemon.go:163-178 | after a Close and at rest everything is closed exactly if no open connection was displaced and none was pooled since to stay |
| ConnPool.AloneAbandonsNothing | internal/lspipe/daemon.go:432-496 | no open connection is displaced while no host is dialled twice at startup and requests to one host connect one after the other |
| ConnPool.BootTwiceAbandons | internal/lspipe/daemon.go:432-443 | a host listed twice leaves one connection open without any request |
| ConnPool.LatePoolStays | internal/lspipe/daemon.go:460-496 | a request that pools its connection after Close leaves it open |
| ConnPool.RaceAbandons | internal/lspipe/daemon.go:460-496 | two requests dialling the same host at once leave one open for good |
| ConnPool.ShutClosesThePool | internal/lspipe/daemon.go:163-178 | what is in the pool when the daemon closes is closed |

## Left out

- SSH, PTYs, processes, sockets, files, JSON, drawing, colours and focus callbacks: writers are sinks that never fail, a dial or a send is an event with an outcome.
- DiffViewer.Viewer.Render: the cells shown are stated, not their text: prefixes, line numbers, cropping at the column offset and syntax highlighting are left out.
- DiffViewer.Viewer.RenderDocument: the same for one pane.
- The diff library's search: any script meeting its contract is allowed.  Regular expressions, trimming, lower-casing, escape stripping, the stty-noise detector, text escaping and the clock are parameters.
- The shell parser behind `parsePipeLine`: pipelines start from parsed stages with at least one argument.  The list of built-in commands is a predicate that rejects the empty name.
- LineWriters.TerminalLogWriter.Write: escape sequences are stripped from each write on its own, as the code does, so with stripping on the log is not claimed to be independent of the cutting.
- LineWriters.EventWriter.WriteRaw: noise filtering sees one write at a time, as the code does; for raw stderr no independence of the cutting is claimed.
- MarkerFilter.StartupMarkerFilter.Write: errors of the destination.
- PaneManager.Manager.RemoveTransientPane: without a fallback, on a page that is left empty, no pane has the focus, and the later operations are not claimed for such a page; every caller passes the previous focus, and `LayoutTree.SplitAtNothing` shows what the next split would do.
- PaneManager.Manager.OpenSelector: the selector on a page of its own, and the connecting, activating and failing of panes.
- SessionDaemon.RunKeepsInv: the replay is sent after the lock is released, so its order against live output is not claimed; nor is anything about messages other than output.
- ConnPool.PooledIsConnected: the converse, that a host recorded as connected has a pooled connection, is not claimed; hosts reached without the pool are recorded too.
- ExpandCommand.TypedInPlaceIff: for paths that hold `<` or `)`, or that a later substitution mentions, the condition on the command as typed is not claimed; `ExpandedInPlaceIff` covers them.
- ExpandCommand.ExpandLocalProcessSubstitutions: making the temporary directory, running the commands and writing their output are parameters: the paths of each substitution, or a failure.
- PaneManager.Manager.ClickPane: which pane stands under the mouse is a parameter; scrolling is left out.
- PipeLine.WireStages: what the stages do with their pipes, per-host pipelines (`++`), and the signalling of completion.
- MatchConfig.ResolveConditionalMatches: how conditions are looked up and compared (`whenMatches` and its list matchers) is a parameter; a branch that defines the key `match` itself is covered, as the branch table is restored.
- Highlight.HighlightLine: tags inside the line's own text are the escaping function's business.
- Command-line wrappers, option structs, copying tools, providers, monitor panels, completion: they would only add easy members.
