# telnet_debug: line editor, telnet filter, linked list

A Dafny model of the interactive part of telnet_debug, with proofs. The server
lets a user telnet into a running process and type commands; this project covers
what happens between the socket and the committed command line.

| file | what it holds |
|---|---|
| `LineEditor.dfy` | one read, classified as a key; the editing state; `Press` (its effect) and `Echo` (the bytes sent back), on values |
| `Effects.dfy` | what each key does and sends, in pieces of lines and byte values |
| `TelnetMgr.dfy` | the manager structure and the line buffer in memory; every editing routine as a method on arrays, against `Press` and `Echo` |
| `Bounds.dfy` | the cells each routine touches, and `Defined` as staying inside the buffers |
| `Shell.dfy` | the input loop: read buffer, filter over it, key, next read |
| `EditorLaws.dfy` | cursor, inverses, buffer contents, history browsing |
| `Zipper.dfy` | the reference editor: text left and right of the cursor and a log of committed lines |
| `Terminal.dfy` | the client's terminal, byte by byte, for the ECMA-48 functions the server uses |
| `Screen.dfy` | what the terminal shows against what the buffer holds |
| `Session.dfy` | memory, reference editor and terminal together |
| `Witnesses.dfy` | sessions from a fresh connection that reach the code's shortcomings |
| `IacFilter.dfy` | the in-place telnet filter, its decoder and the grammar of its input |
| `CrLf.dfy` | the sending side, and filter after sender |
| `SllLinkList.dfy` | the intrusive singly linked list |
| `Bytes.dfy`, `CStrings.dfy`, `Seqs.dfy` | bytes and control strings, C strings and libc calls, facts about sequences |

`dafny verify dfyconfig.toml` checks everything.

## How the pieces fit

Three layers describe one session. At the bottom `Manager` holds arrays, counters
and the bytes sent. Its methods are proved to keep `Represents(cmd, s)`, which
says that the memory is exactly the editing state `s`: the line buffer and the
recall buffer are the string followed by zeros to the end, the slots are the
history in order with the stored sizes and untouched slots behind, both counters
are the number of entries. `ShellThread` runs a whole session of reads and ends
with the memory representing `Run(FRESH, keys)` and with exactly
`BANNER + Sent(FRESH, keys)` on the socket.

`Effects.dfy`, `Dispatch`, `DecodeByNumbers` and `RepresentedMemory` fix the ground the
layers stand on: which bytes are which key, what a key does to the line, the history
and the session, every byte that is sent, and what each cell of the memory holds,
told with lengths, pieces and numbers and without the helpers used elsewhere.

In the middle `Press` and `Echo` say what a key does on values. Two independent
observers check them. The reference editor of `Zipper.dfy` keeps the text on both
sides of the cursor, the log of committed lines and a place in it. It knows one
size, the number of lines the history offers for browsing; it has no line length,
no distance from the end and no second copy of a line. Every key follows it except
under five conditions, which are exact for each key and over whole runs. The
terminal of `Terminal.dfy` interprets the bytes that were sent; for every key the
prompt row agrees with the buffer afterwards if and only if the key's condition
`KeepsScreen` holds, and again so over whole runs.

`Serve` in `Session.dfy` joins the layers from raw reads to memory and terminal.

## Results where the code falls short

Each has its exact condition and, in `Witnesses.dfy`, a session of reads a client can
cause, or an input of the filter, that meets it.

- Ctrl-C and Ctrl-L empty the line but keep the cursor's distance from the end.
  The cursor leaves the line exactly then (`CursorStep`, `CursorRun`). Of two bytes
  typed next the second comes out first or is lost (`StrandedTyping`). Enter, Up and
  Down put the cursor back (`CursorHeals`). Witness: `CursorIsStranded`.
- Of several bytes that arrive in one read with the cursor inside the line, only the
  first is inserted (`LosesBytes`). Witness: `BytesAreLost`.
- Up and Down with no entry to go to load the recall buffer over the line and drop
  the cursor's place, which changes the line unless it is that copy already and the
  cursor is at its end (`LoadsStaleCopy`). Witness: `StaleCopyIsLoaded`.
- A line that starts with CR is not committed by Enter (`RefusesCommit`). Witness:
  `CommitIsRefused`.
- A commit into a full history does not take browsing back to the end
  (`KeepsBrowsing`). Witness: `BrowsingIsKept`.
- These five are exactly the reads at which the editor departs from the reference
  editor (`RepresentsStep`, `RunRefinesZipper`).
- Up and Down clear the row only up to the cursor, so painting a shorter entry with
  the cursor inside the line leaves old text behind; without an entry to go to they
  replace the buffer and paint nothing; and `?` and TAB print a fresh prompt and keep
  the buffer. `KeepsScreen` is the exact condition for each (`ScreenStep`,
  `ScreenRun`). Whatever was lost, Enter brings row and line together again, and so do
  Ctrl-C and Ctrl-L with the cursor at the end (`ScreenHeals`). Witnesses: `OldTextStays`, `StaleCopyIsLoaded`, `HelpHidesLine`.
- `insert_char` does not write a terminator. It leaves a string, one byte longer,
  exactly when there is room for the terminator and the byte behind the old one is
  zero, which the zeroed tail of the buffer provides (`InsertedIsTerminated`). The
  code's own length guard admits a line of 255 bytes, which loses its terminator
  (`FullLineLosesTerminator`). Witness: `FullLineIsReached`.
- A read of several bytes is appended as it is, so control bytes can enter the line;
  one key per read never does it (`CleanStep`, exact for every read). Witness:
  `CrIsAdmitted`.
- Cutting the input between a CR and its LF or NUL delivers one byte more
  (`ChunksCompose`, exact; `SplitPair`). Witness: `PairIsCut`.
- The filter's returned length is ignored. What is read afterwards is the filter's
  result exactly when the filter had nothing to do (`ReceivedIsDecoded`). A read of
  commands alone does no harm (`CommandsAreIgnored`). Witness: `TailIsReadTwice`.
- What `out_n_to_rn` writes comes through the filter with LF turned into CR exactly
  when the text holds no IAC byte (`SenderThenFilter`). Witness:
  `CommandIsSwallowed`.

## Reading the model

- Bytes are unsigned, 0..255. The filter's comparison with IAC is meant that way;
  the later test for -1 and -3 is read as 255 and 253. With a signed `char` the first
  comparison would never find IAC, with an unsigned one the second would never match.
- One read is a non-empty C string of at most 255 bytes. `Text` carries everything
  such a read holds, since the code appends all of it at the end of the line and only
  its first byte inside the line.
- `Defined` lists the reads for which the C code stays inside its buffers: room for
  the text; prompt and entry fitting the 256-byte print buffer of Up and Down; no
  step down into slot 500, which lies behind the array; no Backspace with the cursor
  beyond a non-empty line; and an open connection. Inserting into a line of 255 bytes
  is excluded with them: it stays in bounds but leaves no terminator for the next
  `strlen`. `DefinedExactly` states this cell by cell, in both directions.
- `Enter` carries the output of the command it starts. `OutputSettles` is what the
  screen results ask of that output: no unfinished control sequence and nothing below
  the cursor. Over a whole run, output without ESC always meets it
  (`PlainOutputsSettle`, `PlainSessionSettles`).
- The terminal has rows without a right margin and any number of them. Control
  sequences the server does not send have no effect there. Screen results are for
  graphic characters 32..126.
- The NAWS branch reads the window size before it checks that it has arrived; the
  value is unused, so the model checks first.

## Model

| member | source | states |
|---|---|---|
| IacFilter.RemoveIac | src/telnet_server.c:250-328 | in one array, overwritten while parsed: the first n bytes are the decoded input, everything behind is unchanged, n is at most the length; terminates |
| IacFilter.PassPlain | src/telnet_server.c:260-274 | a plain byte takes the LF or NUL behind a CR with it |
| IacFilter.PassCommand | src/telnet_server.c:278-319 | how far a command reaches, or that it is incomplete |
| IacFilter.DecodeByNumbers | src/telnet_server.c:260-319 | with byte values: 13 10 and 13 0 become 13, 255 255 becomes 255, 255 241, three-byte commands and the nine bytes of 255 250 31 disappear, every other byte stays |
| IacFilter.DecodeWaits | src/telnet_server.c:276-312 | a command that misses bytes delivers nothing |
| IacFilter.ParseIsSound | src/telnet_server.c:258-320 | every byte sequence is well-formed tokens plus an incomplete command of at most 8 bytes, and the decoder delivers exactly the payload of the tokens |
| IacFilter.ParseIsUnique | src/telnet_server.c:258-320 | no other canonical tokens spell the same bytes: parsing inverts serializing |
| IacFilter.DecodeSerialize | src/telnet_server.c:258-320 | serialized plain bytes, CR LF, CR NUL, doubled IAC, NOP, three-byte commands and NAWS blocks come back as exactly their payload |
| IacFilter.ChunksCompose | src/telnet_server.c:258-320 | decoding chunk after chunk with the residue carried over equals decoding the whole if and only if the cut does not split a CR from its LF or NUL |
| IacFilter.SplitPair | src/telnet_server.c:267-272 | what a split pair yields: the same bytes with the second half added |
| CrLf.OutNToRn | src/telnet_redirect_io.c:61-80 | when it is large enough the destination starts with the expansion and a terminator, and the rest of it is unchanged |
| CrLf.ExpandFirst | src/telnet_redirect_io.c:65-76 | byte 10 becomes 13 10, every other byte stays |
| CrLf.ExpandConcat | src/telnet_redirect_io.c:65-76 | expanding distributes over concatenation |
| CrLf.ExpandLength | src/telnet_redirect_io.c:65-76 | the expansion is longer by the number of LF bytes |
| CrLf.CollapseExpand | src/telnet_redirect_io.c:65-76 | collapsing CR LF to LF undoes the expansion for every text, one with CR LF included |
| CrLf.SenderThenFilter | src/telnet_redirect_io.c:61-80 | the filter turns the expansion into the text with each LF a CR, if and only if the text has no IAC |
| SllLinkList.ChainUnique | inc/sll_linklist.h:13-23 | the heap determines which nodes a list holds |
| SllLinkList.ChainHasNoRepeats | inc/sll_linklist.h:13-23 | a list that ends is acyclic and duplicate-free |
| SllLinkList.RemovedIsGone | src/sll_linklist.c:201-235 | removal keeps every other node and no trace of the removed one |
| SllLinkList.Inserted | src/sll_linklist.c:61-65 | one element more: the new one at its place, the old ones before and behind it in order |
| SllLinkList.RemovedFrom | src/sll_linklist.c:201-235 | what removal leaves: the chain without that place, or the chain itself |
| SllLinkList.RemoveUndoesInsert | src/sll_linklist.c:42-67 | removing a node undoes its insertion at any position |
| SllLinkList.LinkList.InsertAtHead | src/sll_linklist.c:22-39 | the new node comes first; `tail` is set only when it was null |
| SllLinkList.LinkList.InsertAtIndex | src/sll_linklist.c:42-67 | the node goes behind node `index` counted from one, smaller counts meaning one; nothing happens behind the end, with success; error on the empty list |
| SllLinkList.LinkList.InsertAtTail | src/sll_linklist.c:70-91 | the new node comes last, found by walking; `tail` changes only for the empty list |
| SllLinkList.LinkList.Empty | src/sll_linklist.c:94-101 | true exactly for the empty list |
| SllLinkList.LinkList.GetTail | src/sll_linklist.c:120-139 | the last node or null, whatever `tail` says |
| SllLinkList.LinkList.HeadRemove | src/sll_linklist.c:163-176 | drops the first node; error on the empty list |
| SllLinkList.LinkList.TailRemove | src/sll_linklist.c:179-198 | drops the last node of a list that does not have exactly one; error on the empty list |
| SllLinkList.LinkList.NodeRemove | src/sll_linklist.c:201-235 | removes exactly the node and keeps the order of the rest; error and no change when it is absent; the tail case always has a predecessor |
| SllLinkList.LinkList.UnlinkInner | src/sll_linklist.c:222-234 | the search loop for a node that is neither first nor last |
| LineEditor.Classify | src/telnet_server.c:368-472 | every non-empty string is one key; text that is left over starts with no byte the earlier tests take |
| LineEditor.Dispatch | src/telnet_server.c:368-472 | by byte values and whatever follows in the same read: 8 and 127 erase, 12, 63, 9, 13, 255, 253 and 27 91 65 to 68 are told by their first bytes, 3 only alone |
| LineEditor.DispatchText | src/telnet_server.c:466-535 | every other read is text as a whole |
| LineEditor.ClassifyKeyBytes | src/telnet_server.c:368-472 | the test cascade tells every key's bytes from every other's |
| LineEditor.InvStep | src/telnet_server.c:355-557 | every defined read keeps lines and entries terminated within 256 bytes, entries non-empty, at most 500 of them, and the browsing index among them |
| LineEditor.InvRun | src/telnet_server.c:355-557 | the same over whole runs |
| LineEditor.Leaves | src/telnet_server.c:499 | exactly the lines quit and exit leave |
| Effects.FreshState | src/telnet_server.c:187-202 | a new connection has nothing in any buffer; 256 bytes a line, 500 slots |
| Effects.TextEffect | src/telnet_server.c:466-535 | text is appended whole at the end of the line, its first byte inserted in front of the cursor inside it, and dropped with the cursor beyond it; nothing else changes |
| Effects.EraseEffect | src/telnet_server.c:602-626 | the byte in front of the cursor goes, if there is one; nothing else changes |
| Effects.MoveEffect | src/telnet_server.c:654-677 | Left and Right move by one and stop at start and end, in every state |
| Effects.ClearEffect | src/telnet_server.c:374-394 | Ctrl-C and Ctrl-L empty the line and keep the distance and everything else |
| Effects.NoEffect | src/telnet_server.c:368-462 | ignored reads, `?` and TAB change nothing |
| Effects.BrowseEffect | src/telnet_server.c:560-599 | which entry Up and Down put into line and recall buffer, the empty line behind the last, the recall buffer when there is nowhere to go |
| Effects.EnterEffect | src/telnet_server.c:472-557 | recall buffer, history, index, line and connection after Enter on a line: stored last while there is room, closed exactly by quit and exit |
| Effects.EnterOnEmpty | src/telnet_server.c:486-491 | Enter on the empty line only puts the cursor at the end |
| Effects.DefinedByNumbers | src/telnet_server.c:529-651 | defined reads in numbers: 255 bytes of text, entries of 240 bytes, slots below 500 |
| Effects.PromptBytes | src/telnet_server.c:35 | the bytes of the prompt |
| Effects.MoveBytes | src/telnet_server.c:654-677 | the control strings of Left and Right, sent when they move |
| Effects.BrowseBytes | src/telnet_server.c:567-577 | clear to the left, return, prompt and the line that is loaded, or nothing |
| Effects.EraseBytes | src/telnet_server.c:425-446 | the bytes of Backspace at the end, inside and with nothing to delete |
| Effects.TextBytes | src/telnet_server.c:466-534 | text is echoed as it is, an inserted byte behind one blank, and a step back follows a byte that is not printable |
| Effects.EnterBytes | src/telnet_server.c:472-516 | line break, the command's output, line break and prompt |
| Effects.NoticeBytes | src/telnet_server.c:374-462 | the bytes of Ctrl-C, Ctrl-L and TAB |
| Effects.TextsSent | src/telnet_server.c:699-709 | the help text and the greeting character by character |
| Effects.DecimalIsNumber | src/telnet_server.c:524 | the digits sent are the number's, without leading zeros |
| Effects.StepBackMoves | src/telnet_server.c:520-527 | the step back moves the terminal's cursor by the whole distance |
| EditorLaws.CursorStep | src/telnet_server.c:374-394 | the cursor stays in the line after a read if and only if the read is not Ctrl-C or Ctrl-L with the cursor left of the end |
| EditorLaws.CursorHeals | src/telnet_server.c:472-474 | Enter, Up and Down put the cursor at the end from any state |
| EditorLaws.CursorRun | src/telnet_server.c:355-536 | the cursor is in the line before every read of a run and at its end if and only if no read strands it |
| EditorLaws.StrandedTyping | src/telnet_server.c:466-470 | with a stranded cursor two typed bytes come out reversed or the second is lost |
| Witnesses.CursorIsStranded | src/telnet_server.c:374-382 | a byte, Left and Ctrl-C on a fresh connection strand the cursor, and the next two bytes come out reversed |
| Witnesses.CrIsAdmitted | src/telnet_server.c:529-534 | a two-byte first read puts a CR into the line |
| Witnesses.CommitIsRefused | src/telnet_server.c:495-516 | three reads after which Enter refuses the line |
| Witnesses.BytesAreLost | src/telnet_server.c:466-470 | two bytes read inside a line of one: only the first is inserted |
| Witnesses.StaleCopyIsLoaded | src/telnet_server.c:403-409 | Down after the first command puts it back into the line and sends nothing |
| Witnesses.OldTextStays | src/telnet_server.c:567-577 | Up with the cursor inside a longer line leaves its last byte on the row |
| Witnesses.HelpHidesLine | src/telnet_server.c:448-462 | `?` and TAB on a line with text |
| Witnesses.BrowsingIsKept | src/telnet_server.c:545-546 | 500 commands, Up and Enter: browsing stays at the last entry; Down there reads slot 500 |
| Witnesses.SessionEnds | src/telnet_server.c:499-504 | quit and exit end a fresh session, quits does not |
| Witnesses.FullLineIsReached | src/telnet_server.c:632-647 | a read of 255 bytes and Left: the next insertion leaves no terminator |
| Witnesses.PairIsCut | src/telnet_server.c:267-272 | CR and LF in separate chunks come out as two bytes |
| Witnesses.CommandIsSwallowed | src/telnet_server.c:278-283 | IAC NOP in sent text does not come through |
| Witnesses.TailIsReadTwice | src/telnet_server.c:365-368 | a CR LF inside a read makes its last byte appear twice |
| EditorLaws.TypeThenErase | src/telnet_server.c:602-651 | a typed byte and Backspace restore the whole state, at the end and inside the line |
| EditorLaws.EraseThenType | src/telnet_server.c:602-651 | typing the removed byte undoes Backspace |
| EditorLaws.LeftThenRight | src/telnet_server.c:654-677 | Left then Right is the identity when the cursor can move left |
| EditorLaws.CleanStep | src/telnet_server.c:425-535 | a CR, TAB, ?, BS, DEL, Ctrl-C or Ctrl-L byte gets into a buffer if and only if the part of the read that is admitted holds one; a one-byte read never does |
| EditorLaws.CleanRun | src/telnet_server.c:425-535 | with one key per read none of them is ever in line, recall buffer or history |
| EditorLaws.EnterCommits | src/telnet_server.c:472-516 | after any such run Enter records every non-empty line, copies it to the recall buffer, and empties it unless it is quit or exit |
| EditorLaws.HistoryIsCommitted | src/telnet_server.c:541-557 | after any defined run from any state the history is the first 500 of what it held and the lines committed since, in order |
| EditorLaws.HistoryGrows | src/telnet_server.c:541-557 | no run changes or drops a stored entry |
| EditorLaws.Navigation | src/telnet_server.c:560-599 | between commits the index is the saturating walk of the vertical arrows alone and the recall buffer is its entry, whatever else is typed |
| EditorLaws.Recalled | src/telnet_server.c:396-409 | what the line is after a vertical arrow that follows any other keys |
| EditorLaws.UpsThenDowns | src/telnet_server.c:560-599 | k Ups and j Downs after a commit show entry n-k+j, and the empty line for j = k |
| EditorLaws.DownAfterCommit | src/telnet_server.c:403-409 | Down on the prompt after a command loads that command again and sends nothing |
| Zipper.DepartsExactly | src/telnet_server.c:355-557 | the five departures told on the state alone |
| Zipper.RepresentsStep | src/telnet_server.c:355-536 | one read follows the reference editor, which loses nothing that is typed, if and only if it is none of: Ctrl-C or Ctrl-L left of the end, an Enter refused for a leading CR, several bytes inside the line, a vertical arrow that loads a stale copy, a commit into a full history while browsing |
| Zipper.RunRefinesZipper | src/telnet_server.c:355-536 | a run follows the reference editor before every read and at the end if and only if none of its reads departs |
| Zipper.OneKeyRunsAreFaithful | src/telnet_server.c:466-516 | with one key per read only a stranded cursor and browsing can make a run depart |
| Zipper.SessionRefinesZipper | src/telnet_server.c:332-538 | the run result from the zeroed state of a new connection, for reads of any length |
| Zipper.LogHoldsCommitted | src/telnet_server.c:472-516 | the reference editor's log is exactly the lines its Enters committed, in order |
| Zipper.CommittedIsWholeText | src/telnet_server.c:472-516 | every line a faithful run commits is the text on both sides of the cursor |
| Zipper.HistoryIsEnteredText | src/telnet_server.c:541-557 | the history of a faithful session is the first 500 texts entered |
| Screen.EditStep | src/telnet_server.c:417-535 | typing, inserting, Backspace, Left and Right keep the prompt row and cursor in agreement with the buffer and touch no other row |
| Screen.BrowseStep | src/telnet_server.c:560-599 | Up and Down keep the agreement if and only if old text behind the cursor is painted over or blank, or, with nowhere to go, the recalled line was already on the row; no other row changes |
| Screen.ClearsEverything | src/telnet_server.c:384-394 | after Ctrl-L the prompt is in the second row and every other row of the terminal is blank |
| Screen.InterruptShows | src/telnet_server.c:374-382 | Ctrl-C writes `^C` at the cursor and prompts in the row below; no other row changes |
| Screen.PromptStep | src/telnet_server.c:374-462 | on any settled terminal Ctrl-C and Ctrl-L establish the agreement if and only if the cursor is at the end, `?` and TAB if and only if the line is blank with the cursor at its start |
| Screen.EnterStep | src/telnet_server.c:472-516 | on any settled terminal Enter establishes the agreement, whatever a settled command printed, if and only if the line is not refused |
| Screen.ScreenStep | src/telnet_server.c:374-535 | for every key: agreement afterwards if and only if the key's condition holds |
| Screen.ScreenRun | src/telnet_server.c:355-536 | over whole runs: agreement before every read if and only if every key meets its condition, and then all bytes together leave it |
| Screen.BannerShows | src/telnet_server.c:342-354 | the greeting shows the empty prompt |
| Screen.SessionScreen | src/telnet_server.c:332-536 | both over a session from the connection on |
| Screen.DownOnFreshPrompt | src/telnet_server.c:582-588 | Down right after a command fails the screen condition |
| Screen.PlainOutputSettles | src/telnet_server.c:507-513 | command output without ESC leaves the terminal settled |
| Screen.EchoSettles | src/telnet_server.c:374-535 | whatever the row shows, no read leaves the terminal inside a control sequence or with text below the cursor |
| Screen.PlainOutputsSettle | src/telnet_server.c:507-513 | over any run, commands that print no ESC meet the condition on their output |
| Screen.ScreenHeals | src/telnet_server.c:374-516 | after any run of ordinary reads, agreeing or not, Enter, Ctrl-C and Ctrl-L bring row and line together if and only if they do not strand the cursor |
| Session.GraphicRunsAreFaithful | src/telnet_server.c:355-536 | runs of graphic characters depart only by a stranded cursor, browsing, or several bytes read inside the line |
| Session.TerminalShowsReference | src/telnet_server.c:332-536 | for reads of any length the terminal row reads prompt, left and right text of the reference editor, the cursor between the two |
| Session.Serve | src/telnet_server.c:332-538 | from raw reads: the input loop leaves line buffer, counter and slots holding the reference editor's text, cursor and log, and the bytes it sent show that text |
| Session.PlainSessionSettles | src/telnet_server.c:507-513 | a session whose commands print no ESC meets the condition on their output |
| Bounds.DefinedExactly | src/telnet_server.c:529-651 | a read is defined if and only if append, insertion, Backspace, print buffer and history slot are touched inside their bounds and the line stays terminated |
| TelnetMgr.InsertedIsTerminated | src/telnet_server.c:629-651 | after inserting, the buffer holds a string one byte longer if and only if there is room for its terminator and the byte behind the old one is zero |
| TelnetMgr.FullLineLosesTerminator | src/telnet_server.c:632-647 | inserting into a line of 255 bytes, which the guard admits, leaves no terminator at all |
| TelnetMgr.RepresentedMemory | inc/telnet_com.h:31-56 | cell by cell: both line buffers, every slot with its size, the slots behind the history, the counters, the cursor and the connection of a represented state |
| TelnetMgr.SlotSizes | src/telnet_server.c:541-557 | every stored size is its string's length, untouched slots are zero |
| TelnetMgr.Slot | src/telnet_server.c:547-548 | the size stored with a line |
| TelnetMgr.Manager.constructor | src/telnet_server.c:187-202 | the zeroed structures are the fresh state |
| TelnetMgr.Manager.UpdateHistoryCmd | src/telnet_server.c:541-557 | the line and its size go into the next slot, both counters and the index follow; a full history changes nothing |
| TelnetMgr.Manager.Recall | src/telnet_server.c:567-577 | prints control string, prompt and slot and leaves the slot's line in the zeroed recall buffer |
| TelnetMgr.Manager.KeyboardMoveUp | src/telnet_server.c:560-579 | computes `Press` and `Echo` of Up on the manager |
| TelnetMgr.Manager.KeyboardMoveDown | src/telnet_server.c:582-599 | computes `Press` and `Echo` of Down on the manager |
| TelnetMgr.Manager.KeyboardMoveLeft | src/telnet_server.c:654-663 | computes `Press` and `Echo` of Left on the manager |
| TelnetMgr.Manager.KeyboardMoveRight | src/telnet_server.c:666-677 | computes `Press` and `Echo` of Right on the manager |
| TelnetMgr.Manager.KeyboardBackspace | src/telnet_server.c:602-626 | the buffer is the line without the byte left of the cursor and zeros to the end; redraws what is right of it |
| TelnetMgr.Manager.InsertChar | src/telnet_server.c:629-651 | which cells are written, for every length and cursor, guards included |
| TelnetMgr.Manager.OnErase | src/telnet_server.c:425-446 | line and bytes sent for Backspace, the loop of cursor moves included |
| TelnetMgr.Manager.OnEnter | src/telnet_server.c:472-516 | memory and bytes sent for Enter on empty, refused, committed and leaving lines |
| TelnetMgr.Manager.OnCommit | src/telnet_server.c:495-516 | records the line; quit and exit close the connection, other lines run and are cleared |
| TelnetMgr.Manager.OnSubmit | src/telnet_server.c:475-517 | copies the line to the recall buffer, then commits it unless it starts with CR |
| TelnetMgr.Manager.OnBrowse | src/telnet_server.c:396-409 | after a vertical arrow the line buffer is a zero-padded copy of the recall buffer |
| TelnetMgr.Manager.OnNotice | src/telnet_server.c:374-462 | line and bytes sent for Ctrl-C, Ctrl-L, `?` and TAB |
| TelnetMgr.Manager.OnText | src/telnet_server.c:466-470 | line and bytes sent for text at the end and inside the line, printable or not |
| TelnetMgr.Manager.Append | src/telnet_server.c:529-534 | the loop that appends byte by byte keeps the tail of the buffer zero |
| TelnetMgr.Manager.HandleKey | src/telnet_server.c:368-535 | the session's memory follows `Press` and the socket sees `Echo` for every key |
| Shell.Received | src/telnet_server.c:365-368 | what the ignored length leaves: a string as long as the read, with no NUL |
| Shell.ArrivesMeans | src/telnet_server.c:357-365 | the reads covered: 1 to 255 bytes, the first not NUL |
| Shell.KeyOfRead | src/telnet_server.c:365-368 | each read is acted on by the filter's result and the bytes left behind it |
| Shell.DecodeIdentity | src/telnet_server.c:258-274 | the filter leaves a string alone if and only if it has no IAC and no CR LF pair |
| Shell.ReceivedIsDecoded | src/telnet_server.c:365-368 | the string left in the read buffer is the filter's result if and only if the read has no IAC and no CR LF pair |
| Shell.CommandsAreIgnored | src/telnet_server.c:365-371 | a read of nothing but telnet commands leaves the editor alone |
| Shell.KeyArrives | src/telnet_server.c:357-368 | a key sent whole in one read is the key acted on |
| Shell.EnterArrives | src/telnet_server.c:267-272 | Return arrives as CR, CR LF or CR NUL and is Enter each time |
| Shell.ReadChunk | src/telnet_server.c:357-365 | clearing the read buffer, reading and filtering in place leave `Received` |
| Shell.OneRead | src/telnet_server.c:355-536 | one turn of the loop on memory and socket |
| Shell.ShellThread | src/telnet_server.c:332-538 | after a whole session the memory is the state the keys lead to, the socket has seen exactly the greeting and their echoes, both counters are the number of entries and every stored size is its line's length |

## Left out

- Sockets, `select`, threads, option negotiation, descriptor redirection and the retry loops of read and write: output is the sequence of bytes sent, input the sequence of reads.
- End of file and reads that begin with NUL: the code takes them for a NUL key; every read here is a non-empty string.
- Reads that fill all 256 bytes: the read buffer then has no terminator.
- Running the command, symbol lookup, the ELF reader and the log: command output is a parameter, and the editor state does not depend on the rest.
- Reads after quit or exit: the connection is closed and the structures are freed.
- `sll_link_list_init`, `sll_link_list_get_index` and `sll_link_list_destory`: the first assigns to its parameter only, the second walks past the index, the third frees one node.
- Freeing of removed list nodes, and the aborting `assert(0)` in front of the error returns of the list.
- `tel_printf`: formatting and its fixed-size write; `CrLf.OutNToRn` states the size its destination needs.
- Telnet features the filter lacks: doubled 255 inside NAWS, other subnegotiation payloads, and two-byte commands other than NOP, which it skips as three bytes.
- Screen results for bytes outside 32..126, whose effect depends on the client's terminal.
- The 32-bit width of the counters: each is bounded by the line length or by 500 here.
