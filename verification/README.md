# HarambeOS in Dafny

HarambeOS is a three-terminal, six-process x86 teaching kernel with a small user land. This
project models the parts of it that carry state over unbounded runs and proves what holds of
every run. Each part has two layers. One is a plain reference: per-terminal call stacks, three
independent screens, wrapped text, the flat view of a file, the lines of a text, a sequence of
blinking elements. The other is the imperative code as the repository writes it, over the tables,
buffers and links it updates in place. Methods of the second layer are proved to take the steps of
the first, and the theorems about runs are proved of the first.

| file | part |
|---|---|
| `ProcessMachine.dfy`, `Kernel.dfy` | execute, halt, the PIT scheduler and first-time terminal launches |
| `TextScreen.dfy`, `Desk.dfy`, `Console.dfy` | terminal output, scrolling, the paged video memory and terminal switches |
| `SystemMachine.dfy`, `Computer.dfy` | processes and screens together, over complete runs from boot |
| `FileSystem.dfy`, `Directory.dfy`, `Strings.dfy` | read_data, file_read and cat, name lookup, directory listing |
| `Layout.dfy`, `DiskImage.dfy`, `DiskDirectory.dfy` | the same in terms of the parts of a disk image |
| `Grep.dfy`, `KernelGrep.dfy` | the chunked line scanner of grep, over a plain reader and over the kernel's file_read |
| `BlinkTiming.dfy`, `BlinkRuns.dfy`, `BlinkList.dfy` | the blink list of the fish program and its slot allocator |
| `LineEditor.dfy`, `FdTable.dfy`, `Numbers.dfy` | keyboard line buffers and terminal_read, file descriptors, itoa and strrev |
| `Base.dfy` | bytes, shared sizes, facts about products |

System calls and interrupt handlers are single steps. Register contents (ESP and EBP) are opaque
values passed in as `cpu`; whether a command names an executable is the parameter `valid`; a file
being read is a byte sequence or a memory image; uninitialised buffers are parameters.

Where code and comments of the repository differ the model follows the code. read_data and
terminal_write return byte counts, not the 0 their headers announce; read_data collects as many
bytes as the file is long, starting at the offset, so that it can run past the end of the file; the
kernel stack of process p starts below its PCB, at 8MB-8KB*p-4; mp1_ioctl_sync always redraws the
off character.

Properties that turn out false of the code are stated with the exact condition under which they hold:

- A terminal displaced by a first-time launch is resumed with stale registers
  (`LaunchAfterBootLosesContext`); it continues correctly exactly when its slot already held them
  (`LaunchResumesStaleContext`). Displacement by a tick is always correct.
- A carriage return leaves the grid exactly near the bottom (`EmitStaysOnGrid`); from the bottom
  row the next character is lost and output goes on in the top row (`ReturnOnBottomRow`).
- On text whose lines have at most 1024 bytes grep is right about a pattern exactly when the pattern
  starts with an ASCII byte or no line contains it (`GrepIsPlainGrepIffSearchable`); the empty
  pattern is always missed (`EmptyPatternIsMissed`). On ASCII text it is right about every pattern
  that starts with an ASCII byte exactly when no line is longer (`GrepIsPlainGrepIffLinesFit`,
  `LongLineIsMissed`).
- The kernel's file_read pads the last chunk of a longer file with NULs. grep over it is right if one
  read takes the file or full buffers end exactly at its end (`DoOneStoredFile`); otherwise it can
  print a line for bytes of an earlier chunk (`PaddedTailIsMisread`).
- A process's kernel stack lies in the same 8KB as the PCB of the next slot and keeps clear of it
  exactly up to 8028 bytes (`StackKeepsClearOfPcbsIff`).
- Chunked reading delivers the whole file exactly when no chunk starts with a NUL
  (`WholeFileIsRead`, `NulAtChunkStartEndsReading`).
- An existing file name is found exactly when no earlier unterminated name extends it
  (`LookupFindsUnlessHidden`); a 33-byte argument can succeed (`LongNameLookup`).
  `FullNameHidesItsPrefix` is a directory where both happen.
- The blink list stays a chain exactly when no element is added at location 0 (`BlinkList.Add`): one
  such add leaves its slot looking free, and the next add of anything makes the cycle
  (`AddAfterZeroLocationCycles`).
- A sync leaves the wrong character in the cell exactly when the element is left on and its two
  characters differ (`SyncedCell`).
- All terminals share one read buffer: terminal_read gets the line its terminal entered exactly when
  nothing has changed the buffer since, or what last changed it left the same line
  (`ReadGetsItsLineIff`, `SecondEnterReplacesUnreadLine`, `EarlierReaderTakesTheLine`).

## Model

| member | source | states |
|---|---|---|
| `ProcessMachine.LeastFree` | student-distrib/system_calls.c:336-348 | the PID an execute claims is free and every smaller one is in use; 7 when all six are |
| `ProcessMachine.NextIsCyclicallyFirst` | student-distrib/pit.c:38-47 | the scheduler's choice is the first started terminal going round from the current one |
| `ProcessMachine.StepKeepsInv` | student-distrib/system_calls.c:336-396 | every execute, halt, tick and launch keeps the three process stacks disjoint, duplicate-free and within PIDs 1..6, and the active terminal is empty only if nothing has started |
| `ProcessMachine.WaitingTerminalIsUntouched` | student-distrib/pit.c:24-71 | over any run in which a started terminal is not active, its stack and the registers saved for its top process stay as they were, whatever PIDs are freed and reused |
| `ProcessMachine.TickResumesPreemptedContext` | student-distrib/pit.c:29-71 | the tick that next selects a terminal preempted by a tick loads exactly the registers stored then, for every run in between |
| `ProcessMachine.LoneTerminalResumesAtOnce` | student-distrib/pit.c:29-71 | a tick with one started terminal resumes what it interrupted |
| `ProcessMachine.LaunchResumesStaleContext` | student-distrib/keyboard.c:872-878 | a terminal displaced by a first-time launch resumes where it was if and only if its slot already held those registers |
| `ProcessMachine.LaunchAfterBootLosesContext` | student-distrib/keyboard.c:872-878 | boot, launch, tick: terminal 0 resumes with zeroed registers whatever it was doing |
| `ProcessMachine.HaltReturnsToItsExecute` | student-distrib/system_calls.c:190-238 | the halt that removes a child continues in the context its parent called execute in, with the parent's stack as it was, whatever ran in between |
| `ProcessMachine.SelectedWithinDistance` | student-distrib/pit.c:38-51 | with no launch in between, a started terminal is selected within as many ticks as it is places away |
| `ProcessMachine.ThreeTicksSelectEveryStartedTerminal` | student-distrib/pit.c:33-51 | three ticks with no first-time launch select every started terminal, executes and halts in between included |
| `KernelTables.Kernel.constructor` | student-distrib/system_calls.c:701-717 | three empty stacks, terminal 0 active, no PID marked |
| `KernelTables.Kernel.ClaimPid` | student-distrib/system_calls.c:335-348 | marks the least free PID in PID_arr; a full table yields slot 7 and is left unchanged |
| `KernelTables.Kernel.Install` | student-distrib/system_calls.c:382-402 | linking a claimed slot pushes one frame on the active terminal and maps its page and kernel stack |
| `KernelTables.Kernel.Execute` | student-distrib/system_calls.c:262-441 | a bad command returns -1 and changes nothing; on a full table the caller is resumed with stacks, PID_arr, term_arr, page and esp0 as before; otherwise the least free PID is pushed on the active terminal with page 4MB*(p+1) and esp0 8MB-8KB*p-4 |
| `KernelTables.Kernel.Unlink` | student-distrib/system_calls.c:190-197 | takes the top process off the active terminal and frees its PID, so that the table has room |
| `KernelTables.Kernel.Halt` | student-distrib/system_calls.c:169-252 | pops the top process and resumes its execute on the parent's page and kernel stack; a root is replaced by a new shell; with the flag set every stack and table stays and the execute that overflowed is resumed |
| `ProcessMachine.EmptyActiveMeansRoom` | student-distrib/system_calls.c:347-380 | the too-many-processes path is never entered from a terminal without processes |
| `KernelTables.Kernel.NextTerminal` | student-distrib/pit.c:38-47 | the search loop ends, at the first started terminal going round |
| `KernelTables.Kernel.Tick` | student-distrib/pit.c:18-74 | stores the interrupted registers for the top process, activates the next started terminal, loads the registers of its top process and maps that process's page and kernel stack; nothing before the first process |
| `KernelTables.Kernel.UniversalCount` | student-distrib/system_calls.c:727-737 | true exactly when a PID is free |
| `KernelTables.Kernel.Launch` | student-distrib/keyboard.c:837-881 | a first switch with a free PID makes the terminal active with one process, the least free PID; any other switch changes no table |
| `KernelTables.ChainIsStack` | student-distrib/system_calls.c:382-396 | following Parent_PID from the top walks down the stack and ends below its root |
| `KernelTables.Kernel.ParentChainIsAStack` | student-distrib/system_calls.c:382-396 | each terminal's Parent_PID chain is acyclic, ends in a root, its members carry their own PID and terminal, and the terminal's flag says whether it is empty |
| `KernelTables.Kernel.ParentChainsPartitionLivePids` | student-distrib/system_calls.c:336-345 | the three chains are disjoint and hold exactly the PIDs marked in PID_arr |
| `KernelTables.StackKeepsClearOfPcbsIff` | student-distrib/system_calls.h:66-79 | the kernel stack of a process keeps clear of every PCB if and only if it is at most 8KB-4-160 bytes deep; then it reaches the PCB of the next slot |
| `KernelTables.Kernel.ProcessesDoNotShareMemory` | student-distrib/system_calls.c:351-402 | any two processes, running or waiting, have disjoint user frames above 8MB, disjoint PCBs and, up to that depth, disjoint kernel stacks; page-directory entry and esp0 are those of the active terminal's top process |
| `KernelTables.Kernel.Dispatch` | student-distrib/pit.c:18-74 | any run of system calls, ticks and launches on the tables is a run of the process machine, and the processor goes where that run takes it at every event |
| `KernelTables.Kernel.PreemptAndResume` | student-distrib/pit.c:29-71 | on the tables, a terminal preempted by a tick continues in the interrupted context at the tick that next selects it, whatever runs in between |
| `KernelTables.Kernel.CallAndReturn` | student-distrib/system_calls.c:190-238 | on the tables, the halt that removes a child continues in the context its parent called execute in, with the parent's stack as it was |
| `TextScreen.EmitStaysOnGrid` | student-distrib/keyboard.c:588-653 | a printed byte leaves the 25x80 grid exactly if it is a carriage return near the bottom |
| `TextScreen.ReturnOnBottomRow` | student-distrib/lib.c:199-261 | after a carriage return on the bottom row the next character is stored behind the grid and the cursor goes on in the top row; after a second one it would be stored outside the page |
| `TextScreen.ReturnAboveBottom` | student-distrib/lib.c:199-261 | elsewhere a carriage return is a newline, or two from the last column |
| `TextScreen.ScrolledMovesUp` | student-distrib/lib.c:639-666 | scrolling moves every row up by one and blanks the last |
| `TextScreen.WrapKeepsEveryByte` | student-distrib/keyboard.c:588-653 | the wrapped text has every character in order in rows of at most 80, and a new row exactly for each newline and after each full row |
| `TextScreen.PlainTextIsPrintable` | student-distrib/keyboard.c:588-653 | text without carriage returns keeps the cursor on the grid throughout |
| `TextScreen.NewlineShows` | student-distrib/lib.c:639-666 | a newline, with or without scrolling, shows the rows with an empty row appended |
| `TextScreen.EmitShows` | student-distrib/keyboard.c:588-653 | printing a byte on a screen that shows the last 25 rows of a text over some background shows the last 25 rows of the extended text, the background moving up with it |
| `TextScreen.EmitAllShows` | student-distrib/keyboard.c:565-657 | the same for any text without carriage returns, with the cursor at its end |
| `TextScreen.HomeShowsNothing` | student-distrib/lib.c:865-873 | a screen with its cursor home shows the empty text over whatever it holds |
| `TextScreen.ShownOverBlank` | student-distrib/lib.c:28-42 | over a cleared page every cell is a character of the text or a blank, with the standard attribute |
| `Desk.EachTerminalShowsItsText` | student-distrib/keyboard.c:565-657 | however output, scheduling and switches interleave, each terminal shows the last 25 rows of what its own processes wrote |
| `Desk.TerminalsShowWrappedText` | student-distrib/keyboard.c:565-657 | with all cursors home at first that is the text wrapped at 80 columns, NUL shown as a space, over what the screen held, cursor at its end and on the grid |
| `Desk.LastSwitchIsOnView` | student-distrib/keyboard.c:797-827 | after any run the terminal of the last switch is on view |
| `ConsoleDriver.FrameIsPrivate` | student-distrib/paging.c:145-203 | changing the frame behind one terminal changes that terminal's screen and no other |
| `ConsoleDriver.SwitchKeepsScreens` | student-distrib/keyboard.c:797-827 | the save, load and remap of a switch leave all three screens as they were |
| `ConsoleDriver.Console.constructor` | student-distrib/paging.c:31-51 | init_paging maps only terminal 0 to the display; every cursor is home and each screen is the memory behind it |
| `ConsoleDriver.Console.CopyPage` | student-distrib/lib.c:459-499 | copies one whole frame onto another and touches nothing else |
| `ConsoleDriver.Console.PutVia` | student-distrib/lib.c:199-261 | writes one cell of one terminal's screen through the page table and moves its cursor |
| `ConsoleDriver.Console.EchoChar` | student-distrib/lib.c:883-898 | an echoed character appears in the cursor's cell of the display and the cursor moves on, a line break moves it down; every other screen stays |
| `ConsoleDriver.Console.ScrollVia` | student-distrib/lib.c:639-666 | moves every row of one screen up by one and blanks the last |
| `ConsoleDriver.Console.ScrollView` | student-distrib/lib.c:908-938 | the display's rows move up by one, the last is blank, the cursor is on row 23; every other screen stays |
| `ConsoleDriver.Console.ClearView` | student-distrib/lib.c:28-42 | every cell of the display is blank and its cursor home; every other screen stays |
| `ConsoleDriver.Console.SwitchTo` | student-distrib/keyboard.c:797-869 | the chosen terminal is on view, the display shows its screen, and no screen has changed; only that terminal maps to the display |
| `ConsoleDriver.Console.WriteByte` | student-distrib/keyboard.c:594-652 | the case split over byte and cursor prints exactly one byte with eager wrapping and scrolling, below the grid too as long as the store is inside the page |
| `ConsoleDriver.Console.TerminalWrite` | student-distrib/keyboard.c:565-657 | prints the buffer on the active terminal, returns the byte count (-1 for a null buffer), replaces its NULs by spaces, and leaves the display alone unless the terminal is on view |
| `ConsoleDriver.Console.Session` | student-distrib/keyboard.c:797-936 | any run of switches, scheduling, output, echo, scrolls and clears on frames and page table is a run of three independent screens, and the display shows the terminal switched to last |
| `ConsoleDriver.Console.ResetCursor` | student-distrib/lib.c:865-873 | homes the cursor of the viewed terminal and changes nothing else |
| `SystemMachine.PrintsOnlyWhenStarted` | student-distrib/system_calls.c:374-380 | kernel messages and output only ever go to a terminal that has processes |
| `SystemMachine.StepIsHappened` | student-distrib/keyboard.c:837-881 | what each event comes to: an execute adds a process, does nothing or prints that the table is full; an Alt-F key brings a terminal on view, starts it or is refused with a message; output and keys change one screen and no process; a halt no screen; a tick only the active terminal |
| `SystemMachine.LastAltFIsOnView` | student-distrib/keyboard.c:797-881 | after any run the terminal of the last accepted Alt-F key is on view |
| `SystemMachine.StepShows` | student-distrib/keyboard.c:837-881 | every execute, halt, tick, output and Alt-F key, and every key typed elsewhere, keeps a screen showing its terminal's text |
| `SystemMachine.RunShows` | student-distrib/keyboard.c:837-881 | the same over any run in which nothing is typed on that terminal |
| `SystemMachine.KeyFreeRunIsSafe` | student-distrib/keyboard.c:565-657 | without keyboard echo no run stores anything outside a video page |
| `SystemMachine.LegalWhateverIsShown` | student-distrib/system_calls.c:262-441 | which runs are possible depends on the processes alone |
| `SystemMachine.UntouchedTerminalShowsItsOwnOutput` | student-distrib/pit.c:49-55 | from boot with anything in video memory, whatever is executed, halted, preempted, launched and viewed, and whatever is echoed, scrolled and cleared elsewhere, a terminal on which nothing was typed shows the last 25 rows of what was printed while its own processes had the processor, over what the memory held |
| `SystemMachine.EveryTerminalShowsItsOwnOutput` | student-distrib/pit.c:49-55 | if nothing is typed, that holds of every terminal and run, and all stores are inside the pages |
| `WholeSystem.Computer.Execute` | student-distrib/system_calls.c:371-380 | a bad command changes nothing; on a full table the message is printed on the active terminal and no process changes; otherwise one process is added and no screen changes |
| `WholeSystem.Computer.Handle` | student-distrib/keyboard.c:837-881 | every event on tables, frames and page table comes to what `StepIsHappened` says |
| `WholeSystem.Computer.StartTerminal` | student-distrib/keyboard.c:872-878 | a first switch homes the cursor, makes the terminal active and starts its shell |
| `WholeSystem.Computer.AltF` | student-distrib/keyboard.c:837-881 | an Alt-F key is refused with a message when the terminal cannot be started; otherwise the terminal is on the display with its screen as it was, and the first time active with one process and its cursor home; all other screens stay |
| `WholeSystem.Computer.Type` | student-distrib/lib.c:883-938 | an echoed, scrolling or clearing key changes the viewed screen as the system's step says and no process |
| `WholeSystem.Computer.Operate` | student-distrib/pit.c:18-74 | any run of the tables, frames and page table together, keys included, is a run of the system of process stacks and screens, and the display shows the terminal of the last accepted Alt-F key |
| `WholeSystem.Boot` | student-distrib/kernel.c:159-162 | after init_paging and clear() terminal 0 is blank, the others show the memory behind them, and all cursors are home |
| `WholeSystem.BootAndOperate` | student-distrib/kernel.c:159-240 | from power-on with any video memory, after any legal run of tables, frames and page table each screen on which nothing was typed is its own terminal's text over what it started from |
| `FileSystem.WordBytes` | student-distrib/file_system_driver.c:323-326 | splitting a loaded word into bytes gives back the bytes it was loaded from |
| `FileSystem.CopyPointers` | student-distrib/file_system_driver.c:323-326 | copying each block number of an inode onto itself leaves the image unchanged |
| `FileSystem.LocateBlock` | student-distrib/file_system_driver.c:335-343 | a block pointer is accepted exactly when it names a data block of the image, and gives that block's address |
| `FileSystem.Walk` | student-distrib/file_system_driver.c:328-372 | succeeds exactly when every block number met is in range, the one loaded at a final block boundary included, and then collects the flat view |
| `FileSystem.ReadData` | student-distrib/file_system_driver.c:307-382 | returns min(size, length) bytes of the flat view from the offset, or -1 exactly for a bad inode or walk; the image is unchanged |
| `FileSystem.OpenFile.FileRead` | student-distrib/file_system_driver.c:24-43 | returns read_data's bytes and advances the position, except that a buffer starting with NUL reads as the end of the file |
| `FileSystem.ReadWhole` | syscalls/ece391cat.c:21-28 | reading in chunks ends and delivers the file up to the first chunk starting with NUL, padded with fewer NULs than a chunk |
| `FileSystem.WholeFileIsRead` | student-distrib/file_system_driver.c:35-42 | that is the whole file if and only if no chunk starts with a NUL |
| `FileSystem.StopsAtFirstNul` | student-distrib/file_system_driver.c:35-42 | reading stops at the first chunk that starts with a NUL, or past the end |
| `FileSystem.NulAtChunkStartEndsReading` | student-distrib/file_system_driver.c:35-42 | a three-byte file read byte by byte ends at the NUL in its middle |
| `Directory.EntryIsShort` | student-distrib/file_system_driver.c:225-236 | an entry read as a string has at most 33 bytes, the last being its type |
| `Directory.ReadDentryByName` | student-distrib/file_system_driver.c:211-256 | yields type and inode of the entry the scan settles on, and leaves the directory unchanged |
| `Directory.FoundNameIsExact` | student-distrib/file_system_driver.c:211-256 | a name of at most 32 bytes is only found as the full name of an entry |
| `Directory.LookupFindsUnlessHidden` | student-distrib/file_system_driver.c:231-243 | with distinct names, an existing name is found if and only if no earlier unterminated name has it as a proper prefix |
| `Directory.LongNameLookup` | student-distrib/file_system_driver.c:231-252 | longer arguments succeed exactly when they are a 32-byte name followed by its type byte |
| `Directory.FullNameHidesItsPrefix` | student-distrib/file_system_driver.c:231-252 | a two-entry directory in which an existing name is not found and a 33-byte argument is |
| `Directory.ReadDentryByIndex` | student-distrib/file_system_driver.c:270-292 | copies the entry's string, type and inode, even when the terminator spills into the type |
| `Directory.OpenDirectory.DirectRead` | student-distrib/file_system_driver.c:99-118 | reads the next entry's string up to the byte count and advances, or returns 0 at the end |
| `Directory.List` | syscalls/ece391ls.c:18-27 | 32-byte reads list every name once and in order |
| `Directory.ListedNameLooksUpItself` | student-distrib/file_system_driver.c:211-256 | a listed name opens its own entry if and only if no earlier unterminated name hides it |
| `DiskImage.ReadFile` | student-distrib/file_system_driver.c:307-382 | on an image of boot block, inode blocks and data blocks, read_data of inode i delivers the data blocks listed in the i-th inode block, limited by the length in its first word; -1 exactly when a listed number is out of range |
| `DiskImage.ContainedFileIsStored` | student-distrib/file_system_driver.c:322-342 | a file of the image is what file_read takes it to be |
| `DiskImage.Cat` | syscalls/ece391cat.c:21-28 | cat of a NUL-free file of the image prints the file, then fewer NULs than a chunk |
| `DiskDirectory.Load` | student-distrib/file_system_driver.c:172-182 | fs_init copies the 64-byte records of the boot block into the table of entries |
| `DiskDirectory.EntryIsThere` | student-distrib/file_system_driver.h:16-22 | an entry of the table has the name, type and inode number its record was written with |
| `DiskDirectory.LookupIsThere` | student-distrib/file_system_driver.c:211-256 | the name of a record is found as that record if and only if no earlier full-length name extends it |
| `DiskDirectory.FindByName` | student-distrib/file_system_driver.c:211-256 | looking up the name of a record yields its type and inode number |
| `DiskDirectory.ReadNamedFile` | student-distrib/file_system_driver.c:172-382 | from the image: fs_init, lookup and read_data deliver the blocks of the inode the named record points to |
| `Grep.Strncmp` | syscalls/ece391support.c:35-46 | equality exactly when the pattern stands at that place before the terminator |
| `Grep.ShiftDown` | syscalls/ece391support.c:14-17 | the overlapping copy moves the unfinished line to the front of the buffer |
| `Grep.LineMatches` | syscalls/ece391grep.c:40-51 | found exactly when the line contains the pattern and the pattern starts with an ASCII byte, or the pattern is empty and the line contains a NUL |
| `Grep.HandleLine` | syscalls/ece391grep.c:40-52 | prints the line exactly if it matches and moves on to the rest of the file |
| `Grep.CarryOver` | syscalls/ece391grep.c:33-39 | an unfinished line is kept for the next chunk without losing a byte |
| `Grep.ScanBuffer` | syscalls/ece391grep.c:28-57 | handles every finished line in the buffer and keeps what follows the last newline of a full one, so that output so far and output of the rest make up the whole |
| `Grep.DoOneFile` | syscalls/ece391grep.c:10-66 | ends and prints, wherever the chunk boundaries fall, the lines (cut at 1024 bytes) that contain the pattern, once each and in order; a failing read leaves a prefix of that and a message, a failing open or close its message |
| `Grep.FittingLinesAreAllFound` | syscalls/ece391grep.c:29-57 | without longer lines, for a pattern that starts with an ASCII byte, that is exactly the lines of the file containing it |
| `Grep.LongLineIsMissed` | syscalls/ece391grep.c:33-52 | a longer line that starts with an ASCII byte is not found even by itself |
| `Grep.LinesRoundTrip` | syscalls/ece391grep.c:29-32 | the lines, joined with newlines, are the text, and none contains a newline |
| `Grep.PiecesKeepEveryByte` | syscalls/ece391grep.c:29-57 | cutting long lines loses no byte and changes no order |
| `Grep.MatchingIsFilter` | syscalls/ece391grep.c:42-51 | the reference keeps exactly the lines that contain the pattern, in order |
| `Grep.ReportIsLineByLine` | syscalls/ece391grep.c:45-48 | each found line is reported as name, colon, line, newline |
| `Grep.GrepIsPlainGrepIffSearchable` | syscalls/ece391grep.c:42-44 | without longer lines the output is that of a plain grep if and only if the pattern starts with an ASCII byte or no line contains it |
| `Grep.EmptyPatternIsMissed` | syscalls/ece391grep.c:42-44 | for the empty pattern nothing is printed although every line contains it |
| `Grep.GrepIsPlainGrepIffLinesFit` | syscalls/ece391grep.c:10-66 | on ASCII text the scanner is right about every pattern that starts with an ASCII byte if and only if no line exceeds 1024 bytes |
| `KernelGrep.Refill` | student-distrib/file_system_driver.c:24-43 | while full buffers end at the end of the file, file_read fills the buffer behind the carried-over bytes without padding |
| `KernelGrep.DoOneStoredFile` | syscalls/ece391grep.c:10-66 | over file_read, grep prints what it should of every NUL-free stored file that one read takes or full buffers cover exactly |
| `KernelGrep.SpoiledIsPadded` | student-distrib/file_system_driver.c:374-382 | a file of 1029 bytes that is neither |
| `KernelGrep.PaddedTailIsMisread` | syscalls/ece391grep.c:21-60 | on that file the line `c` is printed for the pattern `b`, which only stale bytes contain |
| `BlinkTiming.TicksArePeriodic` | fish/blink.S:64-90 | the state after n ticks is the state n modulo the period into a cycle, for all sixteen-bit lengths |
| `BlinkTiming.OnDuringFirstPart` | fish/blink.S:64-90 | after n ticks an element is on exactly when n modulo the period is below the length of its on phase |
| `BlinkTiming.PhaseLengths` | fish/blink.S:64-90 | for lengths 1..0x8000 an element is on for exactly onLength ticks, off for offLength, and then back where it started |
| `BlinkTiming.SyncedStaySynced` | fish/blink.S:267-275 | two elements with equal timing fields have equal countdown and status after every later tick |
| `BlinkRuns.DrawnShows` | fish/blink.S:68-86 | a cell showing the right character of the only element there still does after a tick, and does again when a phase ends |
| `BlinkRuns.SparedElement` | fish/blink.S:187-237 | an add, remove or sync elsewhere leaves the first element at a location as it is and alone if it was; a tick ticks it |
| `BlinkRuns.SparedOverRun` | fish/blink.S:49-300 | over any run of operations sparing its location the first element there ticks once per tick, and stays alone and rightly drawn if it was |
| `BlinkRuns.BlinksInPeriod` | fish/blink.S:49-184 | an element added where no other is, after any run with n ticks that spares its location, is on and shows its on character exactly when n modulo the period is below the length of its on phase |
| `BlinkRuns.SyncKeepsPace` | fish/blink.S:240-300 | after a sync the two list elements have equal lengths, countdown and status after any run that spares both, and the second keeps its place and characters |
| `BlinkRuns.SyncedCell` | fish/blink.S:277-285 | a sync leaves the right character exactly when the element is off or its two characters are equal; the end of the phase puts it right |
| `BlinkElements.FullWhenAllUsed` | fish/fish.c:161-171 | the list has 2000 elements exactly when every slot is on it |
| `BlinkElements.BlinkList.Malloc` | fish/fish.c:161-171 | the first slot with location 0, or null when there is none |
| `BlinkElements.BlinkList.AddRaw` | fish/blink.S:105-184 | writes the started element to the first free slot, links it in front and draws it; fails exactly for a location of 2000 or more or when no slot is free |
| `BlinkElements.BlinkList.Add` | fish/blink.S:105-184 | on a well-formed list the element comes first, add fails exactly when off screen or full, and the list stays well-formed if and only if the location is not 0 |
| `BlinkElements.BlinkList.AddAfterZeroLocationCycles` | fish/blink.S:140-162 | after an add at location 0 the next add, wherever, takes the same slot and links it to itself |
| `BlinkElements.BlinkList.Find` | fish/blink.S:351-379 | the most recently added element at a location, or null |
| `BlinkElements.BlinkList.Remove` | fish/blink.S:187-237 | takes out the most recently added element at a location and keeps the order of the rest; -1 exactly when there is none |
| `BlinkElements.BlinkList.Sync` | fish/blink.S:240-300 | the second element takes over lengths, countdown and status of the first, keeps place and characters, and is redrawn with its off character |
| `BlinkElements.BlinkList.Tasklet` | fish/blink.S:49-99 | every element ticks once and the elements whose phase ends are redrawn in list order |
| `BlinkElements.BlinkList.Perform` | fish/blink.S:49-300 | any run of adds, removes, syncs and ticks keeps the chain acyclic and on exactly the used slots, and computes the plain sequence and the screen it draws |
| `BlinkElements.BlinkList.AddThenPerform` | fish/blink.S:49-300 | on slots and video memory: an added element's cell shows its on character after any such run exactly in the first part of its period |
| `LineEditor.LineIsFoldOfOwnKeys` | student-distrib/keyboard.c:443-504 | a terminal's line is the bounded push/pop fold of its own keys, whatever is typed elsewhere |
| `LineEditor.CharsAppend` | student-distrib/keyboard.c:453-481 | typed characters are appended in order, up to 128 of them |
| `LineEditor.BackspacesRemove` | student-distrib/keyboard.c:443-451 | each backspace takes the last character off while there is one |
| `LineEditor.BackspaceUndoes` | student-distrib/keyboard.c:443-481 | a backspace undoes a character if and only if there was room for it |
| `LineEditor.EnterDeliversTheLine` | student-distrib/keyboard.c:482-503 | Enter hands over exactly that fold since the previous Enter, padded with NULs, and empties the line |
| `LineEditor.LastWriteDecides` | student-distrib/keyboard.c:485-550 | after any run of keys, switches and reads the shared buffer holds the line folded for the last Enter, nothing after a later read, or what it held at first |
| `LineEditor.ReadGetsItsLineIff` | student-distrib/keyboard.c:529-550 | a terminal_read after an Enter returns, and with that line if and only if nothing has changed the shared buffer since or what last changed it left the same line |
| `LineEditor.SecondEnterReplacesUnreadLine` | student-distrib/keyboard.c:485-493 | an Enter on another terminal replaces an unread line, whose flag stays set, by its own; the reader gets its line only if both are equal |
| `LineEditor.EarlierReaderTakesTheLine` | student-distrib/keyboard.c:529-550 | a read by another terminal that entered earlier takes an unread line away and leaves NULs |
| `LineEditor.Keyboard.Handle` | student-distrib/keyboard.c:443-504 | one key takes the editor's step, each buffer staying its typed stack followed by NULs |
| `LineEditor.Keyboard.TypeLine` | student-distrib/keyboard.c:443-504 | characters, n backspaces and Enter leave in the read buffer the first characters, at most 128 less n, then NULs |
| `LineEditor.Keyboard.TerminalRead` | student-distrib/keyboard.c:518-554 | copies the asked bytes of the shared buffer, fills the caller's 128 bytes with NULs, empties the shared buffer, clears the flag and returns 128 |
| `LineEditor.Keyboard.Type` | student-distrib/keyboard.c:443-554 | any interleaving of keys, switches and reads is a run of the editor, counts staying within 0..128 |
| `FdTable.Process.constructor` | student-distrib/system_calls.c:128-158 | descriptors 0 and 1 are keyboard and screen, 2..7 unused |
| `FdTable.Process.Open` | student-distrib/system_calls.c:70-117 | fails exactly when the name is not found or no descriptor is free; otherwise the least free one in 2..7 gets the table of the file's type, for a regular file the entry's inode, and position 0 |
| `FdTable.Process.Close` | student-distrib/system_calls.c:511-523 | frees an open descriptor in 2..7 and refuses all else |
| `FdTable.Process.Read` | student-distrib/system_calls.c:452-459 | refuses exactly the listed errors, otherwise calls an existing read entry |
| `FdTable.Process.Write` | student-distrib/system_calls.c:471-478 | refuses exactly the listed errors, otherwise calls an existing write entry |
| `FdTable.Process.CloseOpenOnes` | student-distrib/system_calls.c:215-221 | halt calls the close entry of exactly the open descriptors, in ascending order, and each exists |
| `FdTable.AnswerIsProper` | student-distrib/system_calls.c:452-523 | an open takes the least unused descriptor of 2..7 and fails exactly when the name is absent or none is unused; reads, writes and closes are refused exactly for bad descriptors and buffers, and go through existing entries |
| `FdTable.EveryReplyIsProper` | student-distrib/system_calls.c:70-158 | the same of every request in every run from a new process's table, descriptors 0 and 1 staying keyboard and screen |
| `FdTable.OpenFileStays` | student-distrib/system_calls.c:452-523 | an open descriptor keeps table, inode and flags until it is closed, whatever else is requested; reads move its position |
| `FdTable.OpenedFileIsRead` | student-distrib/system_calls.c:488-501 | an open changes one descriptor, which stands for the entry the name looks up to; until it is closed it has that entry's inode and is read and written through the table of its type |
| `FdTable.ClosedIsUnused` | student-distrib/system_calls.c:511-523 | a close frees its descriptor and touches no other |
| `FdTable.Process.Serve` | student-distrib/system_calls.c:452-523 | table and replies after any sequence of requests are those of the run on the plain sequence of descriptors |
| `Numbers.DigitsDenote` | student-distrib/lib.c:293-298 | the digits read back as the number and do not start with a zero |
| `Numbers.NumeralDenotes` | student-distrib/lib.c:272-305 | for 32-bit values and radix 2..36 the numeral reads back as the value, has at most 32 digits (8 in hexadecimal) and a leading zero only for 0 |
| `Numbers.Strrev` | student-distrib/lib.c:314-330 | exact reversal of the string in place, nothing else changed |
| `Numbers.Itoa` | student-distrib/lib.c:272-305 | leaves exactly the value's numeral, terminated, in the buffer |
| `Numbers.HexDigits` | student-distrib/lib.c:104-113 | %#x yields exactly eight digits that read back as the value |

## Left out

- Port I/O, the PIC, RTC and PIT programming, segment and interrupt tables, boot code: hardware plumbing.
- Stack switching and iret: registers are opaque values that steps store and load.
- vidmap: its mapping is not refreshed by a switch, so it lies outside the isolation of screens.
- Keyboard echo at the pending-wrap position and backspace drawing: the cursor movement there keeps no grid invariant; echo is modelled as single characters stored inside the page.
- getargs and its accumulating argument size.
- The spinning of terminal_read: a read before its flag is set is a step that changes nothing.
- Descriptor isolation between processes: the global PCB variable is not restored by halt or tick; file_read is modelled with that variable naming the active process.
- Ctrl-1 to Ctrl-5, scancode tables, remove_exit and its relatives, the signal stubs, add_frames and the other user programs: drivers or finite tables.
- KernelTables.Kernel.Execute: parsing of the command and the ELF check are the parameter `valid`; the shell is taken to be a valid executable in halt and launch.
- KernelTables.Kernel.Halt: takes for granted that a process of the active terminal makes the call; the descriptors it closes are `FdTable.Process.CloseOpenOnes`.
- ConsoleDriver.Console.TerminalWrite: text whose carriage returns bring the cursor so far below the grid that a character would be stored outside the page is excluded; the code then writes into the next terminal's page.
- SystemMachine.UntouchedTerminalShowsItsOwnOutput: runs in which no echo or output on a typed-on terminal is stored outside its page, where it would reach the next one's; nothing is said about the screen of a terminal on which something was typed.
- SystemMachine.EveryTerminalShowsItsOwnOutput: output without carriage returns, which keep no rows (`TextScreen.EmitStaysOnGrid`).
- FileSystem.ReadData: the temporary buffer on the kernel stack is unbounded here, and a byte is loaded without the three bytes behind it.
- DiskImage.ReadFile: the walk stays within the 1023 block numbers of an inode block.
- DiskDirectory.FindByName: names are not empty and at most 32 bytes long, types are 0, 1 or 2.
- FileSystem.OpenFile.FileRead: strlen of the buffer is only compared with 0, so it is the test of its first byte.
- Directory.ReadDentryByName: entries have types 0, 1 or 2; with other types the string functions run on into the inode number.
- Grep.DoOneFile: the file has no NUL and the byte behind the buffer is not a newline beforehand; a successful read returns what was asked for or what is left, as the Linux layer does (syscalls/ece391emulate.c:180-188).
- KernelGrep.DoOneStoredFile: the condition is sufficient, not necessary; the padding does no harm if the last buffer holds no newline or its stale bytes no match.
- FdTable.Process.Open: the scan for a free descriptor stops at the end of the table, where the code reads on into the fields behind it before it returns -1.
- FdTable.Process.Serve: the position a read leaves in its descriptor is part of the request, not computed from the file.
- LineEditor.Keyboard.TerminalRead: the caller's buffer has room for the 128 bytes that are always cleared, and at most 128 are asked for.
- BlinkElements.BlinkList.AddThenPerform: no add, remove or sync at the element's own location; there a shared cell can be wrong until the next phase.
