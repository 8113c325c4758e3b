# A small kernel and its programs, verified

This project models the stateful algorithms of an x86 teaching kernel and of the
programs that run on it, and proves what they keep. Each algorithm appears twice: as
functions over values, about which the theorems are stated, and as methods over
arrays and fields that change in place as the C code does and are proved equal to
those functions. What the functions do is in turn said without them, in the terms of a
user: `Moves`, `LineEditor`, `Roll`, `Commands`, `Descriptors`, `RtcTime`, `Layout`,
`Printing`, `Formats` and `SignalNames`.

- **2048** (`Basics`, `Tiles`, `Slide`, `Game`, `Moves`). The in-place passes of a move are
  the usual compress, merge, compress of each line. Every game keeps the board sum at most
  2^18 - 4 and ties the score to the tiles; the end of the game is detected exactly.
- **Terminals** (`Chars`, `Screen`, `Roll`, `Editor`, `LineEditor`, `Escape`, `Commands`,
  `Sessions`, `Terminal`, `Multiplex`). The line editor redraws a scrolling 80x25 screen
  piece by piece; after every key the screen shows the buffer. The escape parser can stop
  anywhere. Three terminals share one hardware screen and never notice one another.
- **Processes** (`Process`, `Calls`, `Descriptors`, `Kernel`). Execute, halt and timer
  ticks act on pids, parents and terminals; abstractly they are pushes and pops on three
  stacks and a turn of a rotor. RTC descriptors stay registered exactly while they are open.
- **Heap** (`Heap`, `HeapCode`). `Heap` is the allocator that `syscall.h` describes,
  with the slips of the code repaired: the left merge adds the left neighbour's size,
  the right merge looks at live entries only, a split leaves no empty entry and shifts
  live entries only, and free checks that the entry exists and is used. `HeapCode` is
  the code as written, over the memory it really reads and writes. It agrees with the
  repaired one under exact conditions, and every slip has a concrete input.
- **Real-time clock** (`Rtc`, `RtcRates`, `RtcTime`, `RtcDriver`). Per-file frequencies
  are counted down from one hardware rate, with packed fields and an alarm accumulator.
- **File system** (`FileSys`, `Layout`). Block-wise reads are reads of a flat file; program
  loading and directory lookup rest on it.
- **Formatting** (`Numerals`, `Printf`, `Format`, `Alternate`, `Directives`, `Printing`,
  `Formats`, `Vsnprintf`, `RoundTrip`). Numerals and their readers, printf's integer conversions
  against the C standard, truncation, and the way from a program's printf to the cursor
  of its terminal.
- **Signals** (`Signals`, `SignalNames`, `Delivery`). Contexts pushed on the user stack
  and popped by sigreturn, in any nesting.

## Where the code does not do what it says

- `syscall_malloc` and `syscall_free` depart from the intended heap exactly in the cases
  given by `HeapCode.EmptySplit` and `HeapCode.Freeable`; free also accepts free entries
  and the heap's end. A split that fills the table writes behind it
  (`HeapCode.MallocOverruns`). The comment in `syscall.h` says that size 0 means one
  block; the code takes sizes as they are, and the model follows it.
- `rtc.c` describes the hardware rate as the largest registered one; closing a file
  never lowers it, so it is the highest ever accepted (`RtcRates.RunRates`); when that is
  the largest open one is `RtcRates.RateIsLargestExactly`.
- `atoi` computes in 32 signed bits while `itoa` prints unsigned values; values from 2^31
  on do not come back (`Numerals.ReadBackExact`).
- printf's `#` flag can overwrite digits (`Printf.PrefixEatsDigits`), and zeros beyond
  the 32-byte buffer, a sign beside 32 digits, and the precision of a left-justified
  number are dropped (`Printf.Fits`, `Alternate.FitsAlt`). A negative `*` precision is
  taken for 0, which can lose a zero value, a string or the 0 flag
  (`Directives.IntegerDirectiveExact`, `Directives.StringDirectiveExact`).
- `read_data` accepts an inode number equal to the count (`FileSys.CountIsAccepted`).
- `_syscall_sigreturn` does not restore the flags it saved (`Signals.FlagsNotRestored`).
- A tick between an RTC read's check and its decrement can lose a period
  (`Rtc.TickCanBeLost`, `Rtc.LostByLateTicks`), but no read returns early.

## Model

| member | source | states |
|---|---|---|
| `Slide.PassesSlideLine` | syscalls/2048.c:178-268 | four shifting passes, one merging pass and one more shift turn any line into: blanks dropped, equal neighbours merged once from the wall, blanks dropped; the gain is the sum of the merged tiles |
| `Slide.FourShiftsPack` | syscalls/2048.c:178-268 | four sweeps are enough to pack any line of four towards the wall |
| `Slide.ShiftPass` | syscalls/2048.c:178-268 | one in-place pass over the 16 cells is one shifting sweep of each of the four lines, in all four directions |
| `Slide.MergePass` | syscalls/2048.c:178-268 | the in-place merging pass is one merging sweep of each line, and adds up exactly what the merges earn |
| `Slide.MoveTile` | syscalls/2048.c:174-271 | the whole in-place move equals the specified slide of all four lines, and returns its gain |
| `Game.SlideTotals` | syscalls/2048.c:174-271 | a move conserves the sum of the board, keeps every tile a power of two, and adds its gain to what the tiles are worth ((k-1)*2^k for 2^k) |
| `Tiles.OnesOfSum` | syscalls/2048.c:402-467 | adding two numbers never makes more 1 bits than they have together; with it a sum of n powers of two has at most n |
| `Game.OnesOfBoard` | syscalls/2048.c:402-467 | the board sum has at most as many 1 bits as the board has tiles |
| `Game.SpawnStaysBelow` | syscalls/2048.c:273-295 | a new tile in a blank cell keeps the sum at most 2^18 - 4, because at most 15 tiles were on the board |
| `Game.StepLawful` | syscalls/2048.c:402-467 | every key keeps: powers of two only, sum at most 2^18 - 4, and score + 4 * (number of 4s placed) = worth of the tiles |
| `Game.GamesLawful` | syscalls/2048.c:402-467 | that invariant holds in every state of every game, restarts included |
| `Game.NoOverflow` | syscalls/2048.c:402-467 | hence every tile is at most 2^17 and the score stays inside a 32-bit int |
| `Game.SlideCases` | syscalls/2048.c:362-387 | a full board without an equal pair along the move stays; every other board has a blank afterwards |
| `Game.ChangeLeavesRoom` | syscalls/2048.c:452-465 | a move that changes the board leaves room for the new tile |
| `Moves.MoveExact` | syscalls/2048.c:413-465 | said of lines and cells: a move that slides no line leaves board, score and tiles as they were; any other slides every line, adds what the lines earn, and puts a 2, or a 4 for every tenth random number, in the blank cell with as many blanks before it as the other number says, and changes no other cell |
| `Moves.LinesFromTheWall` | syscalls/2048.c:174-271 | the lines of a board are its rows and columns, read from the wall that the tiles slide to |
| `Moves.RestartExact` | syscalls/2048.c:398-414 | a new game has score 0 and two such tiles on a blank board |
| `Moves.OtherKeysExact` | syscalls/2048.c:416-479 | after the end, and for other keys, nothing happens |
| `Game.TrialMoves` | syscalls/2048.c:374-381 | the four trial moves leave a full board alone if and only if no two neighbours are equal |
| `Game.CheckEnd` | syscalls/2048.c:362-387 | the game is over if and only if the board is full and no two orthogonal neighbours are equal; the board is left as it was found |
| `Game.PlaceTile` | syscalls/2048.c:273-295 | the in-place spawn puts a 2 or a 4 into the chosen blank cell and changes nothing else |
| `Game.Game.PlayMove` | syscalls/2048.c:413-465 | one move on the fields of the program is one move of the specified game: score added, new tile only if the board changed |
| `Game.Game.Play` | syscalls/2048.c:402-484 | the loop over the keys computes the specified run, of which the invariant is proved |
| `Editor.AddChAgrees` | student-distrib/term.c:393-411 | inserting a character anywhere in the line keeps screen and buffer in agreement, the line origin moving up exactly one row when the line reaches the last cell |
| `Editor.DelChAgrees` | student-distrib/term.c:414-432 | deleting before the cursor keeps the agreement with the same origin: the redraw never scrolls |
| `Editor.KillLeftAgrees` | student-distrib/term.c:292-312 | word and line kill keep the agreement |
| `Editor.KillLeftCutsRun` | student-distrib/term.c:292-312 | a kill removes exactly the maximal run left of the cursor |
| `Editor.MoveLeftFindsRun` | student-distrib/term.c:337-353 | a word move left changes no text and stops at the start of the run |
| `Editor.MoveRightFindsRun` | student-distrib/term.c:355-373 | a word move right changes no text and stops at the end of the run |
| `Editor.LineToTopAgrees` | student-distrib/term.c:252-262 | scrolling the line to the top keeps the agreement at the same column of row 0 |
| `Editor.KeyAgrees` | student-distrib/term.c:240-390 | every editing key keeps the agreement, at an origin that the key and the state determine |
| `LineEditor.KeyRefines` | student-distrib/term.c:240-411 | every key does to the line what an editor of two lists, left and right of the cursor, says: which key inserts, erases, moves or kills what, which does nothing, and when a character is refused |
| `LineEditor.KeysRefine` | student-distrib/term.c:240-411 | and so does every sequence of keys |
| `LineEditor.ReadReturnsTyped` | student-distrib/term.c:67-85 | a line read returns exactly the line typed and a line feed, cut to what was asked for, and leaves an empty line |
| `LineEditor.NothingShown` | student-distrib/term.c:67-85 | characters typed without echo, and the end of their read, leave no trace on the screen |
| `LineEditor.ReadEndsLine` | student-distrib/term.c:73-75 | with echo the end of a read moves to the next line |
| `LineEditor.CanonicalKey` | student-distrib/term.c:393-411 | in canonical mode every key is a character for the end of the line, drawn at the cursor if echoed |
| `LineEditor.InterruptShown` | student-distrib/term.c:318-322 | the interrupt key shows as ^C and leaves the line alone |
| `Sessions.StepFaithful` | student-distrib/term.c:49-86 | keys, line reads starting and ending, and output between reads, escape sequences and mode switches included, keep: unless a line is read without echo the screen shows the buffer and the cursor is at its place |
| `Sessions.SessionsFaithful` | student-distrib/term.c:49-86 | the agreement holds in every state of every session |
| `Sessions.FreshFaithful` | student-distrib/term.c:435-457 | a terminal as set up is such a state, so sessions can start there |
| `Screen.PutAllToTheEnd` | student-distrib/term.c:722-756 | text that ends on the last cell scrolls exactly one row and stays visible one row higher |
| `Roll.TextFollows` | student-distrib/term.c:684-756 | after any output, line feeds, returns, backspaces and scrolls included, the screen is the window on a roll of paper that never scrolls, cell by cell and with the cursor |
| `Roll.LinesAppear` | student-distrib/term.c:722-756 | plain lines with line feeds stand one below another, each from column 0, moved up by as many rows as ran off the bottom, with what stood above kept |
| `Roll.ControlCharacters` | student-distrib/term.c:722-756 | return, backspace and line feed on cells and positions |
| `Roll.ReturnOverwrites` | student-distrib/term.c:733-735 | after a return text overwrites its row from the start and leaves the rest |
| `Terminal.Term.Putc` | student-distrib/term.c:722-756 | in-place drawing on video memory equals the character on the abstract screen |
| `Terminal.Term.Scroll` | student-distrib/term.c:684-702 | the copying and blanking loops move every row up by one and blank the last |
| `Terminal.Term.AddCh` | student-distrib/term.c:393-411 | the in-place insertion equals the specified one, buffer and screen |
| `Terminal.Term.DelCh` | student-distrib/term.c:414-432 | the in-place deletion equals the specified one, buffer and screen |
| `Terminal.Term.HandleKey` | student-distrib/term.c:240-390 | each key changes buffer, cursor and screen as specified |
| `Terminal.Term.EndRead` | student-distrib/term.c:67-85 | a finished line read copies the line up to the asked length and empties the buffer |
| `Terminal.Term.EndReadCanonical` | student-distrib/term.c:63-66 | a canonical read takes the first character and leaves the rest |
| `Terminal.Term.EscParse` | student-distrib/term.c:161-206 | the in-place parser moves as the specified one; its indices never exceed 3 |
| `Terminal.Term.Write` | student-distrib/term.c:208-219 | writing bytes to the terminal equals the specified run of parser and screen |
| `Escape.EscParse` | student-distrib/term.c:161-206 | from any state and on any byte the parser keeps at most three digits and three arguments |
| `Commands.TextIsDrawn` | student-distrib/term.c:208-219 | output without escapes is drawn as it is |
| `Commands.EscapeWaits` | student-distrib/term.c:161-206 | after an escape, too, characters are drawn until a bracket comes |
| `Commands.Colours` | student-distrib/term.c:91-109 | each colour command, with and without a number, sets its own half of the attribute and nothing else |
| `Commands.Clears` | student-distrib/term.c:132-137 | clear blanks every cell in the attribute in force and keeps the cursor |
| `Commands.Modes` | student-distrib/term.c:139-156 | each mode command changes one mode, and S takes back what s did |
| `Commands.SaveAndRestore` | student-distrib/term.c:118-130 | save, any text, and restore leave the text and bring the cursor back |
| `Multiplex.Screens.SwitchTerm` | student-distrib/term.c:221-238 | switching the shown terminal changes no terminal's logical screen, cursor, line or parser |
| `Multiplex.Screens.Do` | student-distrib/term.c:221-238 | an operation changes its own terminal as if that were alone, and no other terminal |
| `Multiplex.Screens.DoAll` | student-distrib/term.c:221-238 | for any interleaving of output, keys and switches, each terminal is what it would be had it received only its own operations on its own screen |
| `Multiplex.Screens.FunctionKey` | student-distrib/term.c:333-335 | Alt and a function key show a terminal and change nothing else |
| `Multiplex.Screens.TypeOn` | student-distrib/term.c:240-390 | keys typed after that edit that terminal's line as its user expects and reach no other terminal |
| `Process.ExecuteRefines` | student-distrib/syscall.c:72-220 | execute pushes the first free pid on the running terminal's stack, or changes nothing |
| `Process.HaltRefines` | student-distrib/syscall.c:16-66 | halt pops the running process and resumes its parent; a root shell stays |
| `Process.TickRefines` | student-distrib/scheduling.c:37-72 | a tick advances the rotor and runs the head of the next stack, starting a root shell on an empty one |
| `Process.RunsRefineStacks` | student-distrib/syscall.c:16-66 | over every run of execute, halt, tick, open and close the used pids are the disjoint union of the acyclic parent chains of the three terminals, members carry their terminal, the running process heads the rotor's chain, and user page and kernel stack are its own |
| `Process.ParentsLive` | student-distrib/syscall.c:167-175 | the parent of a live process is live and on the same terminal |
| `Process.UnstackedIsFree` | student-distrib/syscall.c:74-79 | the pid the table search finds is the least on no stack |
| `Process.RotorCountsTicks` | student-distrib/scheduling.c:49 | the terminal served is the number of ticks modulo 3 |
| `Calls.CalleeRests` | student-distrib/syscall.c:165-188 | as long as a started program lives, whatever runs on any terminal, it stays on the stack that called it, and what lies below it stays as it was |
| `Calls.HaltReturns` | student-distrib/syscall.c:16-66 | when that program halts, over any run in between, its caller runs again and the terminal's stack is the one at the execute |
| `Process.StepSound` | student-distrib/rtc.c:377-432 | every step keeps the registered RTC descriptors equal, without duplicates, to the used RTC descriptors of live processes |
| `Process.HaltRegistered` | student-distrib/syscall.c:28-33 | closing a halting process's files removes exactly its descriptors, so a reused pid starts clean |
| `Process.OpenRegistered` | student-distrib/syscall.c:267-293 | open registers the new descriptor if and only if it is an RTC file |
| `Process.CloseRegistered` | student-distrib/syscall.c:295-311 | close unregisters exactly the closed descriptor |
| `Descriptors.OpenExact` | student-distrib/syscall.c:267-293 | open takes the first free descriptor from 2 on for a file of any kind and touches no other descriptor of any process; it fails exactly when all six are taken |
| `Descriptors.CloseExact` | student-distrib/syscall.c:295-311 | close takes exactly the named file away, and fails for a descriptor that is not open or the terminal |
| `Descriptors.CloseUndoesOpen` | student-distrib/syscall.c:267-311 | closing what an open returned gives back the files there were |
| `Descriptors.OpensDistinct` | student-distrib/syscall.c:267-293 | opens without a close in between return different descriptors |
| `Descriptors.LaunchFiles` | student-distrib/syscall.c:152-162 | a new process has the terminal as 0 and 1 and no other file; no other process' files change |
| `Descriptors.FilesStep` | student-distrib/syscall.c:16-311 | the effect of every event on the files of every process |
| `Kernel.Kernel.Execute` | student-distrib/syscall.c:72-220 | the in-place pid search and PCB set-up equal the specified execute; the pid or -1 is returned |
| `Kernel.Kernel.Halt` | student-distrib/syscall.c:16-66 | the in-place halt, with its loop closing files, equals the specified one |
| `Kernel.Kernel.Tick` | student-distrib/scheduling.c:37-72 | the timer interrupt's updates equal the specified tick |
| `Kernel.Kernel.Open` | student-distrib/syscall.c:267-293 | open in place equals the specified one and returns the first free descriptor from 2 on, or -1 |
| `Kernel.Kernel.Close` | student-distrib/syscall.c:295-311 | close in place equals the specified one; it fails if and only if nothing changes |
| `Kernel.Kernel.DoAll` | student-distrib/syscall.c:16-311 | any run of events from boot, in place, goes through the states of the specified run, which refine the three stacks |
| `Heap.AllocAdds` | student-distrib/syscall.h:8-13 | the intended allocation keeps the tiling and adds exactly one object at the returned address with at least the requested bytes; it returns null, changing nothing, if and only if no free entry is large enough or the first that is must be split in a full table |
| `Heap.AllocExact` | student-distrib/syscall.c:366-402 | the object takes the free stretch with the lowest address that has room, with less than a block to spare unless it fits exactly; null means that none has room or the table is full |
| `Heap.FreeRemoves` | student-distrib/syscall.h:8-13 | the intended free succeeds if and only if the pointer is that of a live object, removes exactly that one, and coalesces |
| `Heap.CoalesceRemoves` | student-distrib/syscall.c:416-436 | merging with free neighbours keeps the tiling, with no two free entries adjacent |
| `Heap.ObjectsDisjoint` | student-distrib/syscall.h:8-13 | live objects never overlap |
| `HeapCode.RunsTiled` | student-distrib/syscall.h:8-13 | over every sequence of intended calls the entries tile the 8192 blocks and live objects are disjoint and inside the heap |
| `HeapCode.RequestsHeld` | student-distrib/syscall.h:8-13 | over every sequence of intended calls the live objects are exactly those asked for and not released, and each holds at least the bytes it was asked for |
| `HeapCode.MallocAgrees` | student-distrib/syscall.c:366-402 | malloc as written agrees with the intended one, and keeps the tiling, if and only if the fit does not split off an empty entry |
| `HeapCode.FreeAgrees` | student-distrib/syscall.c:404-439 | freeing a live object as written keeps the tiling if and only if: the entry after a last one reads as used, and a left merge has an equally large right neighbour; it then agrees with the intended free |
| `HeapCode.FreeExact` | student-distrib/syscall.c:404-439 | for the offset of any entry, live or free, and for the heap's end: the call returns 0, and the heap stays tiled, and is the intended one, exactly when the neighbours allow it |
| `HeapCode.FreeAgreesExactly` | student-distrib/syscall.c:404-439 | for every pointer: result and table are the intended ones if and only if it is null, or no entry and not the end lies there, or a live object does whose neighbours satisfy the guard; and exactly when the tiling survives |
| `HeapCode.FreeMiscounts` | student-distrib/syscall.c:416-436 | otherwise blocks of the heap are lost or counted twice |
| `HeapCode.LeftMergeSlip` | student-distrib/syscall.c:426 | a concrete table on which the left merge adds the wrong size |
| `HeapCode.RightMergeSlip` | student-distrib/syscall.c:420 | a concrete table on which the entry past the last is merged |
| `HeapCode.EmptySplitSlip` | student-distrib/syscall.c:383-385 | a concrete table on which an exact fit leaves an empty entry and the object cannot be freed |
| `HeapCode.FreeTwiceSlip` | student-distrib/syscall.c:411-415 | a concrete table on which freeing a free entry succeeds and breaks the tiling |
| `HeapCode.FreeEndSlip` | student-distrib/syscall.c:411-415 | a concrete table on which freeing the end of the heap succeeds and breaks the tiling |
| `HeapCode.SoundStep` | student-distrib/syscall.c:366-439 | a call does as written what is intended, result included, if and only if it avoids the slips |
| `HeapCode.RunAgreesExactly` | student-distrib/syscall.c:366-439 | over every run, with the memory behind the table changing at will, tables and results are the intended ones exactly as long as the calls avoid the slips |
| `HeapCode.HeapTable.Malloc` | student-distrib/syscall.c:366-402 | the in-place probe, shift and split equal malloc as written |
| `HeapCode.HeapTable.Free` | student-distrib/syscall.c:404-439 | the in-place search, merges and shift equal free as written, past-the-end reads included |
| `Rtc.PackFields` | student-distrib/rtc.c:67-88 | the packed fields are read back independently |
| `Rtc.SetCountLaws` | student-distrib/rtc.c:83-88 | setting the count changes no other field |
| `Rtc.TickGood` | student-distrib/rtc.c:334-342 | a tick keeps 1 <= pos <= 2^ratio and the balance ticks = periods * 2^ratio + (2^ratio - pos), periods = count + taken + dropped |
| `Rtc.ReadGood` | student-distrib/rtc.c:355-367 | an atomic read takes one period from the count and keeps the balance |
| `Rtc.NoSpuriousWakeup` | student-distrib/rtc.c:355-367 | with check and decrement as separate steps and ticks and resets between, reads returned plus the pending count never exceed the periods elapsed |
| `Rtc.TickCanBeLost` | student-distrib/rtc.c:355-367 | a concrete interleaving in which a period is lost |
| `Rtc.NoPeriodLostExactly` | student-distrib/rtc.c:355-367 | over every interleaving: each ended period is read, pending, dropped at the cap or dropped by a rate change in every state, if and only if no decrement meets a count other than the one its read looked at |
| `Rtc.LossIsFinal` | student-distrib/rtc.c:355-367 | without rate changes that is decided state by state: no period is lost so far if and only if no decrement so far met a larger count |
| `Rtc.AlarmExact` | student-distrib/rtc.c:324-330 | every accumulator meets 81920 exactly: it is a multiple of the step below the limit, and the next one resets to 0 exactly on it |
| `RtcTime.RingsAfterTenSeconds` | student-distrib/rtc.c:324-330 | with each tick counted as its own length, a slot rings on exactly the tick that completes 10 seconds since its last restart, through any rate changes |
| `RtcTime.AlarmIsRing` | student-distrib/rtc.c:324-330 | the alarm is raised exactly when some slot rings |
| `RtcTime.AtMost32Pending` | student-distrib/rtc.c:338-342 | at most 32 periods are pending, and below that none is dropped |
| `Rtc.MultipleMeans` | student-distrib/rtc.c:136-138 | the halving test used for the accumulators is divisibility by the step |
| `Rtc.RaiseSound` | student-distrib/rtc.c:216-255 | raising the rate resets every registered file consistently, and the new step divides the old |
| `Rtc.WriteSound` | student-distrib/rtc.c:267-292 | a write succeeds if and only if the frequency is a power of two from 2 to 1024; it sets that frequency, never lowers the rate, and keeps every invariant |
| `Rtc.IsrSound` | student-distrib/rtc.c:300-345 | the interrupt keeps every invariant of the driver and every file's balance |
| `Rtc.OpenSound` | student-distrib/rtc.c:377-403 | open keeps the invariants and starts the file's ledger afresh |
| `Rtc.CloseSound` | student-distrib/rtc.c:412-432 | close keeps the invariants and every ledger |
| `Rtc.RunsSound` | student-distrib/rtc.c:193-432 | over every run: rate 2^pow, at least each registered frequency, ratio = pow - freq, pos in range, ledgers balanced, accumulators on the step; the rate never falls |
| `Rtc.LostByLateTicks` | student-distrib/rtc.c:300-367 | in terms of the steps alone: without rate changes no period is lost if and only if no read that has returned had a tick end a period, below the cap, between its check and its decrement |
| `Rtc.NoPeriodLostBySteps` | student-distrib/rtc.c:300-367 | the same over all runs, rate changes included: every ended period is accounted for in every state if and only if, between each read's check and its decrement, no period ended below the cap, or after a rate change as many ended since the last as the read saw |
| `RtcRates.RunRates` | student-distrib/rtc.c:267-292 | over every run the rate is the highest ever accepted, and each open file asks for what was last written to it since its open, or 2 Hz |
| `RtcRates.WantedMeansLargest` | student-distrib/rtc.c:94-104 | no open file asks for more than the rate, and one asks for it exactly when the rate is the largest open one |
| `RtcRates.RateIsLargestExactly` | student-distrib/rtc.c:94-104 | the rate is the largest open one if and only if some file open now was last asked for the highest rate ever accepted |
| `RtcRates.CloseExact` | student-distrib/rtc.c:412-432 | a close leaves the rate; it is still the largest open one if and only if another open file asks for it |
| `RtcRates.RateStaysHigh` | student-distrib/rtc.c:412-432 | the concrete case: 1024 Hz stay after the only file that wants them is closed beside one that wants 2 Hz |
| `RtcRates.HighRateReached` | student-distrib/rtc.c:377-432 | that case is reached: open, write 1024, open another, close the first |
| `RtcDriver.RtcDriver.Write` | student-distrib/rtc.c:267-292 | the in-place write, with its loop over the files, equals the specified one |
| `RtcDriver.RtcDriver.Isr` | student-distrib/rtc.c:300-345 | the in-place interrupt loop equals the specified tick and reports the alarm |
| `RtcDriver.RtcDriver.FinishRead` | student-distrib/rtc.c:361-366 | the end of a read in place equals the specified one |
| `RtcDriver.RtcDriver.Open` | student-distrib/rtc.c:377-403 | open in place equals the specified one |
| `RtcDriver.RtcDriver.Close` | student-distrib/rtc.c:412-432 | close in place equals the specified one |
| `FileSys.ReadLenExact` | student-distrib/file_sys.c:208-276 | a read inside the file has the asked length up to the end of the file if and only if offset + length does not wrap; otherwise it returns 0 |
| `FileSys.ReadData` | student-distrib/file_sys.c:208-276 | exactly the bytes content[offset..offset + n] of the flat file are copied, across any block boundaries, and the rest of the buffer is left alone; inode numbers out of range give 0 |
| `FileSys.CopyBytes` | student-distrib/file_sys.c:246-272 | the byte loop with its block index and cursor copies the flat file |
| `FileSys.FileRead` | student-distrib/file_sys.c:70-74 | a file read returns the next bytes and advances the position by what it returned |
| `FileSys.ReadsJoin` | student-distrib/file_sys.c:70-74 | successive reads of any lengths join to the file from the first position on |
| `Layout.ContentIsFile` | student-distrib/file_sys.c:208-276 | on an image with given files laid out in it, byte by byte, inodes, block lists and 4096-byte pieces, what the kernel reads as a file is that file |
| `Layout.ReadFile` | student-distrib/file_sys.c:208-276 | and read_data copies exactly the bytes asked for of that file |
| `Layout.LoadFile` | student-distrib/syscall.c:114-145 | and the loader puts that whole file in memory |
| `Layout.FindFile` | student-distrib/file_sys.c:145-198 | and a name leads to the first entry with it, its type and its file |
| `Layout.ImageLaidOut` | student-distrib/file_sys.c:208-276 | any files and names can be laid out so |
| `FileSys.LoadImage` | student-distrib/syscall.c:114-145 | the loader's read-until-zero loop ends with the whole file in memory and nothing else changed |
| `FileSys.DentryByName` | student-distrib/file_sys.c:145-171 | the entry found is the first whose name agrees in its 32 bytes; one is found if and only if the name is not empty and listed |
| `FileSys.DentryByIndex` | student-distrib/file_sys.c:179-198 | the entry of an index below the count, and an error otherwise |
| `FileSys.DirRead` | student-distrib/file_sys.c:110-118 | a directory read returns the name at the position and advances, or 0 at the end |
| `FileSys.DirReads` | student-distrib/file_sys.c:110-118 | any number of reads in a row return the names in order and then nothing |
| `FileSys.CountIsAccepted` | student-distrib/file_sys.c:225-227 | a concrete image without inodes of which inode 0 is read |
| `FileSys.NameLength` | student-distrib/file_sys.c:283-291 | a name ends at its NUL or after 32 bytes |
| `FileSys.SameName` | student-distrib/lib.c:278-292 | the bounded comparison decides equality of the names up to their NULs |
| `Numerals.EvalNumeral` | student-distrib/lib.c:26-80 | reading a numeral in any base from 2 to 36 gives back its number |
| `Numerals.NumeralFits` | syscalls/printf.c:295-315 | a 32-bit number has at most 32 digits in any base, so the buffer never loses one |
| `Numerals.Strrev` | student-distrib/lib.c:86-99 | the in-place reversal reverses the string and leaves the rest alone |
| `Numerals.Itoa` | student-distrib/lib.c:26-56 | itoa leaves the NUL-terminated numeral in the buffer |
| `Numerals.Atoi` | student-distrib/lib.c:61-80 | atoi returns the number the characters stand for, reduced to an int32_t: exactly that number if and only if it is below 2^31 |
| `Numerals.ReadBackExact` | student-distrib/lib.c:26-80 | the numeral of a 32-bit value is read back as the value if and only if it is below 2^31, and else as a negative number |
| `Numerals.LargestReadsMinusOne` | student-distrib/lib.c:61-80 | 4294967295 is read back as -1 |
| `Numerals.PrintThenRead` | student-distrib/lib.c:26-80 | atoi after itoa returns the value if and only if it is below 2^31 |
| `Printf.NtoaStandard` | syscalls/printf.c:241-315 | without # the conversion is the one of section 7.19.6.1 of ISO/IEC 9899:1999 if and only if the field fits: at most 32 digits and zeros, 31 with a sign, and no precision that pads a left-justified number |
| `Printf.DroppedZerosAndSign` | syscalls/printf.c:241-291 | three concrete fields that lose zeros or the sign |
| `Printf.NtoaReads` | syscalls/printf.c:212-291 | a field is blanks, sign, prefix, digits and blanks, as wide as asked |
| `Printf.NumeralSurvives` | syscalls/printf.c:241-315 | the digits printed evaluate back to the value if and only if no # prefix takes the place of a digit; they never exceed it |
| `Printf.PrefixEatsDigits` | syscalls/printf.c:257-263 | a concrete number that # prints as another: 0xABCD in a field of 4 |
| `Format.IntegerStandard` | syscalls/printf.c:672-744 | an integer directive without #, its width and precision read and the precision not a negative star, prints the argument, cast as the directive says, as the standard asks if and only if the field fits; the digits evaluate back to it |
| `Alternate.AlternateExact` | syscalls/printf.c:241-315 | with # for hexadecimal and octal numbers the conversion is the standard's if and only if: no digit is lost to the prefix, prefix and zeros fit the buffer, octal gets no second leading zero, and zero is not left out |
| `Alternate.DirectiveExact` | syscalls/printf.c:672-744 | the same for the directives x, X and o and their cast arguments, their precision not a negative star |
| `Directives.IntegerDirectiveExact` | syscalls/printf.c:589-744 | for every integer directive and its arguments, read from the characters: the text is the one the standard means if and only if, with a negative star for a precision, the value is not 0 and the 0 flag has nothing to fill, and otherwise the field fits |
| `Directives.StarExact` | syscalls/printf.c:627-631 | with # or without, precision 0 in place of none changes nothing exactly under that condition |
| `Directives.StringDirectiveExact` | syscalls/printf.c:784-808 | a string directive prints what the standard means, except that a negative star clips the string: then if and only if it is blanks within the width |
| `Directives.DroppedZeroFlag` | syscalls/printf.c:705-707 | a concrete directive whose 0 flag a negative star drops: %05.*d of -1 and 7 |
| `Printing.IntegerPrinted` | syscalls/printf.c:589-744 | % flags * length letter, character by character: sign, blanks or zeros and digits, on the side, in the base and in the case that the flags and the letter mean |
| `Printing.PrecisePrinted` | syscalls/printf.c:589-744 | the same with a precision up to 31 |
| `Printing.HashPrinted` | syscalls/printf.c:257-276 | %#x, %#X and %#o of any value but 0 |
| `Printing.StringPrinted` | syscalls/printf.c:784-808 | strings, with their blanks before or behind |
| `Printing.ClippedStringPrinted` | syscalls/printf.c:784-808 | strings cut to a precision |
| `Printing.CharactersPrinted` | syscalls/printf.c:761-782 | characters, the percent sign, and letters that are no conversion |
| `Printing.LetterPrinted` | syscalls/printf.c:828-837 | after a percent sign every character that is no part of a directive prints itself |
| `Printing.LongLongPrinted` | syscalls/printf.c:710-733 | as compiled, integers of length ll and j print nothing |
| `Printing.PointerPrinted` | syscalls/printf.c:810-826 | pointers as eight capital digits |
| `Printing.DigitCase` | syscalls/printf.c:303-308 | digits beyond 9 are capitals exactly when asked for |
| `Formats.FormatsJoin` | syscalls/printf.c:565-838 | a format that uses up its arguments and another one after it print the one text and then the other |
| `Formats.WidthWritten` | syscalls/printf.c:601-617 | a width in digits prints, whatever follows, what that width in an argument prints |
| `Formats.PrecisionWritten` | syscalls/printf.c:619-631 | and so does a precision in digits |
| `Formats.PointAlone` | syscalls/printf.c:619-631 | and a point alone is precision 0 |
| `Alternate.NegativePrecisionIsZero` | syscalls/printf.c:627-631 | a concrete directive whose negative precision is taken for 0, where the standard has none |
| `Format.Cast` | syscalls/printf.c:710-741 | hh and h narrow the argument to the residue in range, and unsigned conversions read it modulo 2^32 |
| `Format.ReadNumberEvals` | syscalls/printf.c:201-208 | a run of digits is read as its number modulo 2^32 |
| `Vsnprintf.DigitLoop` | syscalls/printf.c:295-311 | the digit loop leaves the reversed numeral in the buffer and never stops early |
| `Vsnprintf.HashPart` | syscalls/printf.c:257-276 | the prefix part strips and appends in place as specified |
| `Vsnprintf.Sink.OutReversed` | syscalls/printf.c:212-237 | padding and the reversed buffer reach the sink in order |
| `Vsnprintf.Directive` | syscalls/printf.c:589-668 | the loops over the format pointer read the directive that the format stands for |
| `Vsnprintf.Characters` | syscalls/printf.c:565-838 | the whole formatting loop puts exactly the rendered text |
| `Vsnprintf.Snprintf` | syscalls/printf.c:871-878 | as section 7.19.6.5 asks: for a count of at least 1, the first min(n, count - 1) characters and a NUL are stored, the rest of the buffer is untouched, and n is returned; for 0 nothing is written |
| `Vsnprintf.PrintfTo` | syscalls/printf.c:850-858 | the terminal receives the rendered text without its NULs |
| `RoundTrip.PrintedSequence` | syscalls/printf.c:565-845 | the cursor format prints ESC [ row ; col p |
| `RoundTrip.FeedDigits` | student-distrib/term.c:185-189 | digits only fill the three-character buffer |
| `RoundTrip.WritePerforms` | student-distrib/term.c:208-219 | a write is the parser's run and the drawing and calls that come out of it |
| `RoundTrip.SequenceFeeds` | student-distrib/term.c:161-206 | from any state of the parser the sequence draws nothing, makes exactly one call and ends idle |
| `RoundTrip.HeardExact` | student-distrib/term.c:185-195 | a number survives three digits and one byte if and only if it is at most 255 |
| `RoundTrip.CursorRoundTrip` | student-distrib/term.c:483-506 | the cursor is where the program put it if and only if 1 <= row <= 25 and 1 <= col <= 80; nothing else changes |
| `RoundTrip.CursorExact` | student-distrib/term.c:483-506 | that condition is exact over all 32-bit numbers, negative ones included |
| `Signals.CheckExact` | student-distrib/signals.c:6-43 | the lowest pending signal with a handler is delivered unless a fatal one without a handler comes first, which ends the process or, without a parent, restarts it; pending bits up to the delivered one are cleared and no others |
| `SignalNames.OneSignal` | student-distrib/signals.c:6-43 | for each signal by its name: entering its handler, ending the process or starting its program again at the entry word of its image, or nothing |
| `SignalNames.NotFromKernel` | student-distrib/signals.c:12-15 | nothing is delivered on the way back into the kernel |
| `SignalNames.FrameFields` | student-distrib/signals.c:23-33 | byte by byte, where the frame holds the linkage, the number and every field of the interrupted context |
| `SignalNames.ReturnReads` | student-distrib/syscall.c:354-364 | sigreturn takes registers, address and stack pointer from there, also where a handler has changed them, and nothing else |
| `Signals.DeliverFrame` | student-distrib/signals.c:23-35 | the frame holds the linkage, the signal number and the whole context, and nothing above the old stack pointer changes |
| `Signals.HandlerReturns` | student-distrib/idt_asm.S:94-97 | a handler that returns gets to the linkage, and from there sigreturn restores registers, stack pointer and address |
| `Signals.RunKeepsAbove` | student-distrib/signals.c:6-43 | however deeply it is interrupted, a run leaves the memory above its limit alone |
| `Signals.NestedReturn` | student-distrib/syscall.c:354-364 | last in, first out: after any properly nested handler run, sigreturn restores the ten registers, the stack pointer and the address, and the interrupted stack is intact; the flags are the handler's |
| `Signals.SparedKeeps` | student-distrib/signals.c:23-35 | a run whose frames and code, nested handlers included, miss a set of addresses leaves the memory there alone |
| `Signals.SignalsTransparent` | student-distrib/syscall.c:354-364 | a program interrupted at any points ends where it would have ended uninterrupted: registers, address, stack, and all other data that the handlers spare |
| `Signals.FlagsNotRestored` | student-distrib/syscall.c:354-364 | the saved flags are not restored: a handler can hand any flags to the interrupted code |
| `Delivery.UserTask.CheckSignals` | student-distrib/signals.c:6-43 | the in-place loop, stack writes included, equals the specified check |
| `Delivery.UserTask.Return` | student-distrib/syscall.c:354-364 | the in-place sigreturn equals the specified one |

## Left out

- Assembly: context switches, interrupt frames, page-table reloads, port input and output. Steps are atomic; saved kernel stack pointers are not modelled.
- A tick that must start a root shell when no pid is free: the source then uses an uninitialised pid. `Process.Possible` assumes a free one.
- `rtc_open` with all ten slots taken, where the source searches without end: not an enabled step.
- The hardware rate before the first rate change, which the source programs and records differently: time is counted in ticks.
- `rtc_write` is one step, although it lets interrupts in before its reset loop; reads are also modelled interleaved.
- RTC bit fields are divisions and remainders by powers of two, not machine words.
- Delivery of the alarm to a process: the interrupt reports it, the pending signal is set elsewhere.
- Display in canonical or no-echo mode and the `^C` echo are not part of the screen agreement, nor are sessions with canonical reads, which can leave characters in the buffer; the interrupt key's signal is not raised; the functions model what the code does to buffer and screen.
- Keys come as ASCII codes or F-keys; the keyboard maps never make backspace, line feed or carriage return into text. `kb.c` is not part of this model.
- Video memory is cells of character and attribute, not bytes; the hardware cursor and its shape are left out, and so are user writes through `vidmap` and the user video page.
- `snprintf` and its relatives with a null buffer or an external output function, floating point, and outputs of 2^31 characters or more. `%lld` prints nothing, as compiled. A format that ends inside a directive or lacks an argument has no rendering.
- Formats and string arguments of printf are the characters before a NUL; a precision that protects an unterminated string is not modelled.
- File-system words are read as four bytes; reads stay inside the image. Names and paths come as byte sequences. `fs_open` is a lookup by name.
- Signals are pending as booleans, one for each bit; user memory is bytes up to the end of the user page, and a check needs room for a frame on the stack.
- `syscall_set_handler` and other single-branch argument checks.
- 2048: drawing, messages, the quit key and the random generator, whose results are parameters; the score counter and tiles are unbounded integers that are proved to stay in range.
- Printf.NumeralSurvives: it is about the digits after the prefix; what the standard asks of the whole field with # is `Alternate.AlternateExact`. The b conversion is the library's own, so no standard form is compared.
- The heap's table lies in the program's own page; only what lies behind it is taken to change between calls.
- RTC reads by two processes of one descriptor do not occur: each file has one reader.
- Signals.SignalsTransparent: a program step may depend on registers, address, stack and spared data, not on flags.
- Other programs (`grep`, `fish`), the serial and tux drivers, and start-up code.
