# A verified model of DtCyber and Pterm

DtCyber emulates a CDC Cyber mainframe with its consoles, its disks and its network of PLATO
terminals; Pterm is the terminal. This project models the parts of both that have an exact
meaning and real loops and state behind it, and proves that the code does what it is for. Where
it does so only sometimes, the exact condition is proved.

| file | part | main result |
|---|---|---|
| Screen, Walker, Pixels, Frame | flood fill (`ptermPaint`) | the two passes paint exactly one component; the stack of bytes never overflows; no mark is left |
| Line, Frame | `ptermDrawLine` | the incremental loop plots the rounded line; endpoints, connectedness and distance from the true line |
| OnesComplement | 18-bit adder | laws of ones-complement addition; GE and LT decide a total order |
| FieldLength, Cpu | field length protection | no run of a program changes memory outside its field, except the exit word |
| Words, Characters, Cpu | compare/move unit | moves refine a character-level forward copy; comparisons find the first difference |
| ExtendedStorage, Cpu | extended core storage | blocks are copied exactly; past the end a read gives zeros, a write stops, and both exit with an error; selected flags exclude one another |
| Exchange, Cpu | exchange jump | exchanging twice restores everything; only the package changes |
| Arbitration | exchange requests | accepted once, never overwritten, carried out once by the right processor |
| HostRing | display ring with erase aborts | every interleaving of the two threads is FIFO, and delivers a word exactly when no abort has overtaken it |
| NiuFraming | three-byte frames | self-synchronising, for any garbage and any arrival in pieces |
| BlackBox | message sender and `plotChar` | what is sent is what is shown, through packing, framing and the ring between the terminal's threads |
| DisplayCycles, Console | console display buffer | polls partition the buffer; displays get disjoint slices in order, whole |
| Nibbles, Cftp | file transfer | packing round trip; the receiver has exactly the file's whole pairs of words |
| Z80Block | repeated block instructions | stopping by a budget makes no difference |
| Floppy | sectors and check words | what is read, which changes are detected, and that writing it back copies the disk |

Code that changes things step by step is a class whose methods change fields and arrays, proved
against functions on values; the theorems are about those functions. Concurrent parts are state
machines over atomic steps, with theorems over every run.

Some things hold only under a condition. Each has its exact condition as a lemma:

- Drawing a line from its other end gives a different line when some point lies exactly between
  two pixels (`Line.LineReversed`), such as from (0, 0) to (2, 1) (`Line.ReversedDiffers`).
- Some address below FL lands outside the field when RA is not zero and RA + FL goes beyond memory
  or reaches 2^18, where the adder carries around (`FieldLength.ConfinedExactly`,
  `FieldLength.CarriesAround`).
- A pending exchange can be carried out if and only if the thread that steps its processor is not at
  an XJ inside an instruction word; such an XJ is refused for ever, and the PP that asked waits for
  ever (`Arbitration.CarriedOutIff`, `Arbitration.BlockedForEver`). That never happens to processor 0
  when the others have threads, nor in a system of one processor (`Arbitration.ZeroNeverBlocked`). It
  can happen to processor 1 when it has a thread (`Arbitration.BlockedWithThreads`), and also when it
  has none, by an XJ of processor 0 (`Arbitration.BlockedWithoutThreads`).
- A flood fill starts at the current point, which a code leaves on the screen unless it is a form feed
  in reverse or vertical writing, or a carriage return to a margin that is not on the screen
  (`BlackBox.StaysInsideIff`, `BlackBox.FormFeedStrays`).
- An erase abort that finds the ring full is counted but not stored, after which the display
  discards all output for ever (`HostRing.ShowsIff`; told from the cells,
  `HostRing.ShowsByCellsIff`); that happens (`HostRing.LossReachable`).
- The frame decoder treats the end of its buffer as a byte of all ones. What has arrived can be
  decoded before the rest comes if and only if the buffer has fewer than three bytes or, at one of
  its last three byte boundaries, does not end inside a frame, which its last four bytes tell
  (`NiuFraming.SameEitherWayIff`); otherwise a wrong word can result
  (`NiuFraming.StrayByteLosesWord`).
- A message that holds a semicolon is not shown as intended: its code is the uncover code
  (`BlackBox.MessageShownIff`).
- Four stored polls stop the search for display cycles until the refresh timer sends them
  (`DisplayCycles.PollSendsIff`, `DisplayCycles.FullReachable`).
- The documentation of cftp says that data is rounded up to an even number of words; the code drops
  the bytes that do not make a whole pair, and sends nothing when the MTU is below two words
  (`Cftp.ArrivesWholeIff`).
- LDIR with a count register of zero copies more than 65536 bytes unless its first call is stopped
  before that (`Z80Block.ZeroCountIff`), which the terminal's budget does not do
  (`Z80Block.ZeroCountOverruns`). The same holds for a CPIR that finds nothing
  (`Z80Block.ZeroSearchIff`).
- A seek does not clear the floppy's check word (`Floppy.SeekCheckIff`,
  `Floppy.SeekAfterReading`), and changes of two bytes can cancel out
  (`Floppy.TwoBytesUndetectedIff`, `Floppy.EightApartUndetected`).

## Model

| member | source | states |
|---|---|---|
| `TerminalFrame.PtermFrame.PtermPaint` | FrameCanvas.cpp:3775-3785 | From a current point on the screen, and with no mark on the bitmap, the component of non-background pixels that holds the current point becomes the foreground colour where the pattern, upright in the terminal's coordinates, has a dot; every other pixel, and every alpha, is as before |
| `TerminalFrame.PtermFrame.PtermPaintWalker` | FrameCanvas.cpp:3808-3987 | A pass ends, and rewrites exactly the component of its start among the pixels at which it would not stop; the stack assertion always holds |
| `TerminalFrame.PtermFrame.Turn` | FrameCanvas.cpp:3866-3985 | One turn of the loop keeps the walk and either visits one more open pixel or uses up fuel |
| `TerminalFrame.PtermFrame.Arrive` | FrameCanvas.cpp:3884-3929 | Case 0 keeps the walk and either visits one more open pixel or uses up fuel |
| `TerminalFrame.PtermFrame.Explore` | FrameCanvas.cpp:3930-3953 | Cases 1 to 3 keep the walk and use up fuel |
| `TerminalFrame.PtermFrame.Backtrack` | FrameCanvas.cpp:3954-3984 | Popping recovers the coordinate of the level below from its byte alone |
| `WalkerState.Walk.DepthBounded` | FrameCanvas.cpp:3801-3806 | The entries below the top stand for distinct visited pixels, so that there are at most 512 * 512 + 1 entries |
| `WalkerState.Walk.FinishedExactly` | FrameCanvas.cpp:3865-3984 | When the stack is empty the visited pixels are exactly the start's component |
| `Pixels.Ink.TwoPassesPaint` | FrameCanvas.cpp:3787-3798 | Marking a component and then painting or unmarking it changes exactly what the design promises |
| `Pixels.Ink.SecondPassOpensMarked` | FrameCanvas.cpp:3796-3798 | On an unmarked image, what the first pass marked is exactly what the second may enter |
| `Pixels.Ink.PaintedKeepsAlpha` | FrameCanvas.cpp:3793-3794 | A fill keeps the full alpha that the next one needs |
| `Pixels.InkedUpright` | FrameCanvas.cpp:3895-3909 | A character fill has a dot at (x, y) if and only if the column word x modulo 8 has bit y modulo 16, counted from the bottom row |
| `Pixels.Ink.PaintedUpright` | FrameCanvas.cpp:3775-3798 | So what is painted, in the terminal's coordinates |
| `TerminalFrame.PtermFrame.PtermUpdatePoint` | PtermFrame.h:604-624 | A point, cut to nine bits and turned upside down, is replaced or combined; nothing else changes |
| `TerminalFrame.PtermFrame.PtermDrawPoint` | FrameCanvas.cpp:3615-3629 | The drawing mode chooses the pen |
| `Pixels.Pen.PlotAllKeepsAlpha` | PtermFrame.h:615-623 | Drawing keeps full alpha everywhere |
| `Pixels.Pen.RedrawErases` | PtermFrame.h:615-618 | In exclusive-or mode drawing the same points twice restores the picture |
| `Pixels.XorOnBlack` | PtermFrame.h:615-618 | In exclusive-or mode the ink is drawn on black, and black on the ink |
| `TerminalFrame.PtermFrame.PtermDrawLine` | FrameCanvas.cpp:3631-3678 | The loop of additions plots, in order, exactly the points of the true line rounded to the nearest pixel |
| `Line.LineEnds` | FrameCanvas.cpp:3631-3678 | The line begins and ends exactly where asked |
| `Line.LineIsConnected` | FrameCanvas.cpp:3651-3677 | Every step goes to one of the eight neighbours |
| `Line.LineIsClose` | FrameCanvas.cpp:3631-3678 | Every plotted point is within half a pixel of the true line along the shorter direction |
| `Line.LineReversed` | FrameCanvas.cpp:3648-3677 | Drawn from the other end a point is the same if and only if it is not a tie |
| `Line.ReversedDiffers` | FrameCanvas.cpp:3648-3677 | The line from (0, 0) to (2, 1) differs from the one drawn back |
| `Line.FractionDecides` | FrameCanvas.cpp:3651-3677 | The sign of the decision variable tells whether the rounded coordinate moves |
| `OnesComplement.Add18` | cpu.c:400-416 | The subtractive adder computes the ones-complement sum of two 18-bit values |
| `OnesComplement.AddMeaning` | cpu.c:400-416 | Addition agrees with addition modulo 2^18 - 1 and with signed addition when it fits; negative zero comes only from two negative zeros |
| `OnesComplement.AddCommutes` | cpu.c:400-416 | Addition commutes |
| `OnesComplement.AddAssociates` | cpu.c:400-416 | Addition is associative |
| `OnesComplement.SubtractAddsComplement` | cpu.c:418-436 | Subtracting is adding the complement |
| `OnesComplement.JumpsDecideRank` | cpu.c:2614-2675 | GE and LT are exact complements and decide one order |
| `OnesComplement.RankExtendsValue` | cpu.c:2614-2675 | That order is total, extends the order of values, and puts -0 below +0 |
| `FieldLength.AbsoluteInField` | cpu.c:311-356 | An address below FL of a confined program is a word of its field, in order |
| `FieldLength.ConfinedExactly` | cpu.c:344-356 | All addresses below FL land in the field if and only if the field is confined |
| `FieldLength.CarriesAround` | cpu.c:344-356 | With RA 770000 and FL 20000 octal the address 7777 lands at 0 |
| `FieldLength.ExitWordIs` | cpu.c:954-975 | An address error sets the lowest bit of the exit condition and no other; the exit word has the condition from bit 48 and P + 1 from bit 30 |
| `Cpu.CpuContext.FlError` | cpu.c:954-975 | An address error notes the condition and, in exit mode, stores the exit word at RA and goes to 0 |
| `Cpu.CpuContext.ReadMem` | cpu.c:311-332 | A read gives the word at RA plus the address; out of range it fails in exit mode and gives word 0 otherwise |
| `Cpu.CpuContext.WriteMem` | cpu.c:344-356 | A write changes that word alone; out of range it changes at most the exit word |
| `Cpu.CpuContext.SetA` | cpu.c:368-390 | The sum or difference of the operands that the opcode names goes to Ai; A1 to A5 load and A6 and A7 store, through the protected accesses |
| `Cpu.CpuContext.SetValueSets` | cpu.c:3085-3366 | Each set instruction adds K or Bk to Aj, Bj or Xj, or subtracts Bk, modulo 2^18 - 1; negative zero only from two negative zeros |
| `Cpu.CpuContext.NextWord` | cpu.c:1176-1181 | The next word is fetched through the protected read, which stops the processor in exit mode |
| `Cpu.CpuContext.Compute` | cpu.c:3165-3366 | SB and SX give the sums and differences of the operands that the opcode names, sign extended, with either zero kept; all else computes some word |
| `Cpu.CpuContext.ReturnJump` | cpu.c:2403-2411 | RJ stores its word through the protected access and goes to K + 1 |
| `Cpu.CpuContext.ReturnWord` | cpu.c:2403-2411 | The word that RJ stores is a jump to the word after the RJ |
| `Cpu.CpuContext.Jump` | cpu.c:2588-2675 | Conditional jumps go where, and only when, the order of B registers or the sign class of X says |
| `Cpu.CpuContext.ConditionsMean` | cpu.c:2498-2577 | The conditions on X are zero, negative, infinite and indefinite, the last two by the exponent whatever the sign, and their opposites |
| `Cpu.CpuContext.ExchangeInstruction` | cpu.c:2427-2476 | XJ asks to leave monitor mode for K + Bj, or to enter it at MA, and sets up its continuation, or points back at itself when refused |
| `Cpu.CpuContext.DecodeParcel` | cpu.c:1072-1113 | The decoded fields make up the parcels taken; a long instruction in the last parcel is invalid packing |
| `Cpu.CpuContext.Execute` | cpu.c:224-290 | Each opcode does what its instruction does: jumps, set instructions, the CMU, or the arithmetic unit's word for Xi and Bj; registers that it does not name are kept |
| `Cpu.CpuContext.Execute01` | cpu.c:2391-2492 | Opcode 01 is RJ, RE, WE, XJ, RX, WX, an external operation or a pass, by i |
| `Cpu.CpuContext.Execute46` | cpu.c:3002-3056 | Opcode 46 is a CMU instruction by i, and a pass if i is below 4 or it is not in the first parcel |
| `Cpu.LongInstructions` | cpu.c:219-290 | The instructions that take two parcels |
| `Cpu.CpuContext.Parcel` | cpu.c:1072-1182 | One instruction keeps protection and is a turn of the arbitration between processors, and the step goes on unless the processor stops or a new word begins |
| `Cpu.CpuContext.Step` | cpu.c:1054-1184 | One step keeps everything outside the field but the exit word, however its XJs are answered, and is a sequence of turns of the arbitration |
| `Cpu.CpuContext.Run` | cpu.c:1037-1184 | Any number of steps of any program changes memory only within its field and at RA |
| `Words.GetAfterPut` | cpu.c:1774-1800 | Putting a character in a word changes that position and no other |
| `Words.CharacterBits` | cpu.c:1794-1800 | Position 0 is the highest six bits of a word, and each next one the six bits below |
| `Characters.PutFieldChar` | cpu.c:1815-1871 | Writing a character changes one place of the field seen as a string |
| `Characters.FieldDetermined` | cpu.c:1815-1871 | A field seen as a string determines its words |
| `Cpu.CpuContext.GetByte` | cpu.c:1755-1803 | A fetch gives the character of the field, or the CMU's address error |
| `Cpu.CpuContext.PutByte` | cpu.c:1815-1871 | A store changes that character alone, or is the address error |
| `Cpu.CpuContext.CmuError` | cpu.c:1762-1788 | The CMU's address error also stops the processor in exit mode |
| `Cpu.CpuContext.CmuTransfer` | cpu.c:1945-1976 | The loop performs a character-level forward copy of the characters that stay in range, then stops with the error if one did not |
| `Cpu.CpuContext.CmuMove` | cpu.c:1920-1989 | A move with an impossible character position moves nothing; otherwise as above, and then X0 is cleared and the next word fetched |
| `Cpu.CpuContext.CmuMoveIndirect` | cpu.c:1882-1989 | The move whose descriptor is at Bj + K: exactly the prefix in range is copied and nothing else changes |
| `Cpu.CpuContext.CmuMoveDirect` | cpu.c:2000-2095 | The move whose descriptor is in the instruction word, likewise |
| `Cpu.DecodesFields` | cpu.c:2012-2016 | The layout of descriptors: K1, C1, K2, C2 and both parts of the length are decoded from their own bits |
| `Cpu.DecodesInstance` | cpu.c:2012-2016 | K1 = 1, C1 = 2, K2 = 9, C2 = 3 moves from character 12 to character 93 |
| `Characters.CopyBackwardsOverlap` | cpu.c:1945-1976 | The forward copy is a simultaneous copy unless the destination begins inside the source |
| `Characters.CopyForwardsOverlap` | cpu.c:1945-1976 | If it does, the characters between the two starts are repeated |
| `Characters.CopyKeepsRest` | cpu.c:1945-1976 | No other character changes |
| `Cpu.CpuContext.CompareUncollated` | cpu.c:2300-2345 | The loop computes the comparison, or stops with the error if a string runs out first |
| `Cpu.CpuContext.CompareCollated` | cpu.c:2158-2225 | Likewise when differing characters are looked up |
| `Cpu.CpuContext.CmuCompareUncollated` | cpu.c:2254-2363 | X0 becomes the ones-complement verdict on the two strings, memory is kept |
| `Cpu.CpuContext.CmuCompareCollated` | cpu.c:2106-2243 | The same under the collating table at A0, also where the table ends at FL |
| `Characters.ComparisonMeaning` | cpu.c:2106-2363 | The verdict is 0 exactly for equal strings; otherwise it counts from the first difference and its sign tells the smaller; it is 0 where an address runs out of range |
| `Characters.InRangeNeverRunsOut` | cpu.c:2165-2210 | With both strings and the table in range no access fails |
| `ExtendedStorage.SelectExcludes` | cpu.c:1195-1270 | A selected flag is refused to others until it is cleared, which restores the register |
| `ExtendedStorage.FlagAddress` | cpu.c:1195-1215 | The layout of an address of the flag register: its function in bits 21 to 23, its flags in the low 18 bits |
| `ExtendedStorage.FlagByFlag` | cpu.c:1215-1262 | Select and set add exactly the flags asked for, clear takes exactly those away, and select and test fail if one of them is set |
| `ExtendedStorage.PutWordsFit` | cpu.c:905-945 | A block write that does not get to the flag register's addresses stores the words that fit, wherever it starts, and fails if there are others |
| `Cpu.CpuContext.EcsRegister` | cpu.c:1586-1741 | RX and WX move one word between Xj and ECS or the flag register; past its end a read gives zero and a write changes nothing |
| `Cpu.CpuContext.EcsTransfer` | cpu.c:1586-1741 | RE and WE copy a block word by word; past the end of ECS a read fills with zeros and a write stops at the first word that fails, and both exit to the lower half; transfers that are not allowed do nothing but note it |
| `Cpu.CpuContext.EcsReadBlock` | cpu.c:1700-1741 | The loop copies the block, zeros beyond ECS, and tells whether it went beyond |
| `Cpu.CpuContext.EcsWriteBlock` | cpu.c:1676-1741 | The loop writes the words in order until one fails |
| `Cpu.CpuContext.EcsAccess` | cpu.c:841-945 | One word to or from ECS, failing beyond its end, or the flag register's answer |
| `Cpu.CpuContext.EcsPrologue` | cpu.c:1586-1676 | Transfers go on exactly when they pass the checks of count and both field lengths and do not address the flag register; otherwise the flag's answer or the address error decides where execution goes on |
| `Cpu.CpuContext.AllowedStays` | cpu.c:1640-1676 | A transfer that passes the checks stays between RAE and RAE + FLE and between RA and RA + FL |
| `Exchange.UnpackPack` | cpu.c:1353-1486 | Saving a canonical context and loading it restores every register |
| `Exchange.PackUnpack` | cpu.c:1353-1486 | Loading a package and saving it again canonicalises each word |
| `Exchange.SwapTwice` | cpu.c:1336-1486 | Exchanging twice at one address restores the context and leaves the package canonicalised, also where it wraps |
| `Exchange.SwapElsewhere` | cpu.c:1353-1486 | An exchange changes only the sixteen package words |
| `Exchange.UnpackLoads` | cpu.c:1373-1430 | Each register is loaded from its own word and bits of the package |
| `Exchange.PackSaves` | cpu.c:1440-1486 | Each register is saved in its own word and bits |
| `Cpu.CpuContext.StorePackage` | cpu.c:1438-1486 | The sixteen stores write the package, wrapping at the top of memory |
| `Cpu.CpuContext.ExchangeJump` | cpu.c:1336-1532 | Every register is loaded from its own word and bits of the package, whose words keep the old ones in the same places; the program then starts at its P, or counts as stopped if it only idles. In the middle of a word nothing happens |
| `Cpu.SkipPasses` | cpu.c:1510-1527 | The shifts skip the Cxi instructions that an idle loop begins with, of which a word holds at most four |
| `Cpu.IdleIff` | cpu.c:1510-1527 | A word is taken for an idle loop if and only if its parcels are an EQ to itself behind up to two Cxi instructions, or behind three its upper half with zeros below |
| `Cpu.CpuContext.constructor` | cpu.c:505-520 | A processor begins stopped, between instructions |
| `Arbitration.ExchangeControl.IssueExchange` | cpu.c:675-723 | A request is accepted only if none is pending and, to enter monitor mode, nobody is in it |
| `Arbitration.StepKeeps` | cpu.c:675-723 | Every action of processors and PPs keeps the order of requests and exchanges |
| `Arbitration.RunsAreSafe` | cpu.c:1047-1050 | In every run an accepted request is carried out once, by its processor, at a word boundary or when stopped, and monitor mode has one holder |
| `Arbitration.PendingKept` | cpu.c:698-704 | A pending request is never overwritten |
| `Arbitration.PpGetsWhatItAsks` | cpu.c:698-704 | An accepted request of a PP is the next to be carried out, by the processor and at the address it asked for |
| `Arbitration.XjGetsWhatItAsks` | cpu.c:2427-2476 | So is an accepted XJ, at K + Bj from monitor mode, which it leaves, and at MA into monitor mode |
| `Arbitration.EntriesAlternate` | cpu.c:690-723 | Between two entries to monitor mode there is an exit by the first one's processor |
| `Arbitration.BlockedForEver` | cpu.c:2427-2476 | An XJ inside a word, while an exchange is pending for a processor of its thread, is refused for ever, and the exchange and the PP that asked for it wait for ever |
| `Arbitration.CarriedOutIff` | cpu.c:1346-1349 | With threads or without, a pending request can still be carried out if and only if the thread of its processor is not in that position |
| `Arbitration.ZeroNeverBlocked` | cpu.c:814-826 | Processor 0, stepped by the thread that runs the PPs, never comes into that position when the others have threads, nor does the only processor |
| `Arbitration.LoneXjAccepted` | cpu.c:690-723 | In a system of one processor an XJ is never refused |
| `Arbitration.BlockedWithThreads` | cpu.c:505-520 | Processor 1 with a thread of its own: a PP starts it, it comes to an XJ inside a word, and a PP asks for another exchange on it, and waits |
| `Arbitration.BlockedWithoutThreads` | cpu.c:818-823 | Without threads: a PP asks for an exchange on processor 1, and processor 0, whose turn is first, comes to an XJ inside its word |
| `Arbitration.RefusedForEver` | cpu.c:2427-2476 | Without threads an XJ inside a word that is refused for any reason is all that ever happens from then on |
| `Arbitration.XjIsTurn` | cpu.c:2427-2476 | An XJ of a step and its answer are the two actions of deciding and issuing, in every system where they get that answer |
| `HostRing.StepKeeps` | PtermConnection.cpp:295-308 | Every atomic step of either thread keeps the ring FIFO and the abort counters in step |
| `HostRing.EveryInterleaving` | PtermConnection.cpp:474-501 | So does every interleaving |
| `HostRing.RingKept` | PtermConnection.cpp:707-721 | The ring holds exactly the words published and not yet taken |
| `HostRing.CountKept` | PtermConnection.cpp:295-308 | The counters differ by the aborts on their way and those lost |
| `HostRing.DeliveredIff` | PtermConnection.cpp:474-501 | A word is delivered if and only if no abort received so far is that word, lies after it, is still to be stored, or was lost |
| `HostRing.CaughtUp` | PtermConnection.cpp:474-501 | When the display has caught up, the words after the last abort were delivered, each once and in order |
| `HostRing.DeliversReceived` | PtermConnection.cpp:474-501 | Without aborts and with room for all words, the display is given exactly what was received |
| `HostRing.StoresReceived` | PtermConnection.cpp:707-721 | A run stores what it receives in order, but for what finds the ring full |
| `HostRing.LostForEver` | PtermConnection.cpp:474-501 | After an abort was lost nothing is delivered any more |
| `HostRing.ShowsIff` | PtermConnection.cpp:707-721 | Anything can still be shown if and only if no abort was lost to a full ring |
| `HostRing.ShowsByCellsIff` | PtermConnection.cpp:474-501 | That is, if and only if the two counters differ by just the aborts queued, being stored or being counted off |
| `HostRing.LossReachable` | PtermConnection.cpp:295-308 | While the display is still, the ring fills, and then an abort is counted and lost |
| `HostRing.HostConnection.StoreWord` | PtermConnection.cpp:707-721 | Storing is a run of the steps, and appends the word or finds the ring full |
| `HostRing.HostConnection.NextRingWord` | PtermConnection.cpp:474-501 | Taking a word is a run of the steps, and gives the first word that is not discarded |
| `HostRing.HostConnection.constructor` | PtermConnection.cpp:474-501 | A connection begins with an empty ring and equal counters |
| `NiuFraming.NetFet.AssembleNiuWord` | PtermConnection.cpp:332-380 | The nested loops compute the byte-level decoder |
| `NiuFraming.AnyStateSyncs` | PtermConnection.cpp:349-379 | From any state a whole frame is read as its word |
| `NiuFraming.ThroughGarbage` | PtermConnection.cpp:349-379 | Garbage before a frame yields words that take three bytes of it each, or lets the frame through |
| `NiuFraming.Synchronises` | PtermConnection.cpp:332-380 | Garbage and then frames decode to words of garbage and then exactly the list, with nothing lost |
| `NiuFraming.DecodesExactly` | blackbox.c:297-299 | Without garbage exactly the list |
| `NiuFraming.FrameLayout` | blackbox.c:297-299 | A frame is seven bits, six behind a mark of 10 and six behind a mark of 11 |
| `NiuFraming.CutOffAnywhere` | PtermConnection.cpp:336-341 | Frames cut off anywhere give the complete ones and leave the bytes of the last |
| `NiuFraming.AnySegmentation` | PtermConnection.cpp:338-348 | In step, the words do not depend on how the bytes arrive in pieces |
| `NiuFraming.DecodeExtends` | PtermConnection.cpp:336-341 | What was decoded without running dry does not change when more arrives |
| `NiuFraming.DecodeDry` | PtermConnection.cpp:352-377 | When it ran dry, some continuation would have been decoded differently |
| `NiuFraming.DryIff` | PtermConnection.cpp:349-379 | The decoder runs dry inside a frame if and only if the last four bytes say so |
| `NiuFraming.SameEitherWayIff` | PtermConnection.cpp:332-380 | Out of step, they do not if and only if the buffer is not cut inside a frame at each of its last three byte boundaries |
| `NiuFraming.StrayByteLosesWord` | dtnetsubs.h:76-103 | One stray byte and a frame cut after two bytes are such a buffer, and give a wrong word |
| `BlackBox.Sender.NiuSendstr` | blackbox.c:200-266 | The words sent, unpacked, are the start, the message's codes with their selects, and padding |
| `BlackBox.AsciiToCdc` | charset.c:30-48 | Display codes have six bits, and only the semicolon has the uncover code |
| `BlackBox.TablesInvert` | charset.c:30-60 | Every character comes back from its display code as itself, lower case letters as capitals, and what has no code as a colon |
| `BlackBox.IntendedCharacter` | blackbox.c:207-256 | What is meant to be shown for a letter is that letter, from memory 1 if it is a capital, and any other printing character itself from memory 0 |
| `BlackBox.Sender.Put` | blackbox.c:213-256 | A code is put in the word, and the word is sent when it is full |
| `BlackBox.Terminal.PlotChar` | FrameCanvas.cpp:5857-5995 | One code changes the bits of the control byte and the position as the character set says, or shows a character |
| `BlackBox.PutBit` | PtermFrame.h:479-530 | Setting one bit of the control byte leaves the others |
| `BlackBox.PutCharsetBits` | PtermFrame.h:512-515 | Setting the character memory leaves the other bits |
| `BlackBox.Terminal.Mode3` | FrameCanvas.cpp:6086-6104 | A word plots its three codes |
| `BlackBox.StartAgrees` | blackbox.c:203-204 | The start of a message makes the terminal agree with the sender, whatever it was doing |
| `BlackBox.CodesShown` | blackbox.c:207-256 | From agreement, codes without a semicolon show the message |
| `BlackBox.Fewer` | FrameCanvas.cpp:5886-5893 | From any state, at most the characters that are not semicolons are shown |
| `BlackBox.MessageShownIff` | FrameCanvas.cpp:5886-5995 | From any prior state a message is shown as intended, each character from its memory and one step on, if and only if it has no semicolon |
| `BlackBox.SessionShows` | blackbox.c:258-265 | So is any sequence of messages, across the padding that leaves uncover set |
| `BlackBox.EndToEnd` | blackbox.c:200-299 | And so through the frames and any arrival in pieces |
| `BlackBox.EndToEndThroughRing` | PtermConnection.cpp:295-308 | And through the ring between the terminal's threads, in any interleaving, when all words find room |
| `BlackBox.ControlsMove` | FrameCanvas.cpp:5895-5957 | Where each control function that moves leads in normal writing |
| `BlackBox.ControlsUndo` | FrameCanvas.cpp:5895-5957 | In any writing backspace undoes a character and a tab, vertical tab a line feed, and subscript a superscript |
| `BlackBox.StaysInsideIff` | FrameCanvas.cpp:5857-5995 | One code leaves the position on the screen if and only if it is not a form feed in reverse or vertical writing, or a return to a margin off the screen |
| `BlackBox.FormFeedStrays` | FrameCanvas.cpp:5923-5948 | A form feed in reverse writing leaves the position at 520, in vertical writing at -17 |
| `BlackBox.MessageStaysInside` | blackbox.c:200-266 | A message without a semicolon leaves the position on the screen |
| `BlackBox.IntendedPlace` | FrameCanvas.cpp:5860-5884 | The n-th character stands n steps along the line |
| `DisplayCycles.StepKeeps` | console.c:972-1026 | Every action keeps the polls a partition and the frames and displays in order |
| `DisplayCycles.ServeKeeps` | console.c:1315-1355 | A display that is served has got one more whole slice, in order |
| `DisplayCycles.RunsKeep` | console.c:448-508 | Over every run: frames are disjoint slices in order; every display got only whole such slices with their trace lines and end marks, and what was sent at once; and nothing accepted or sent is taken back |
| `DisplayCycles.PollsPartition` | console.c:1138-1195 | Stored polls and the current one hold exactly the bytes accepted and not yet shown |
| `DisplayCycles.InitiallyInv` | console.c:387-393 | The bookkeeping starts in order |
| `DisplayCycles.PollSendsIff` | console.c:1138-1175 | A poll sends a cycle if and only if fewer than four are stored and one has its checksums; the cycle is the polls from the latest such one |
| `DisplayCycles.SendTakesRoom` | console.c:1208-1238 | What is sent to a display takes up the room there is, and is sent whole or not at all |
| `DisplayCycles.CheckSkipsNothing` | console.c:466-506 | The timer's frame starts where the last one ended |
| `DisplayCycles.SumsMean` | console.c:1118-1128 | The checksums of a poll are the sum of its coordinates, and the sum weighted by their distance from the end |
| `DisplayCycles.OrderDetected` | console.c:1118-1128 | Two different coordinates in the other order have other checksums |
| `DisplayCycles.CoordinateBytes` | console.c:1118-1128 | The highest of nine bits is added to the code, and the others are the second byte |
| `DisplayCycles.FullReachable` | console.c:1138-1146 | Four polls of coordinates that the channel passes on have different checksums and are stored, and the next one is ignored |
| `Console.ConsoleChannel.ConsoleByte1` | console.c:972-991 | A byte is accepted, or dropped when the ring is full, and in either case sent at once to displays that want everything |
| `Console.ConsoleChannel.ConsoleByte2` | console.c:1000-1026 | Two bytes are accepted together or not at all, and in either case sent at once to displays that want everything |
| `Console.ConsoleChannel.CheckImmediate` | console.c:942-960 | Displays with an interval of zero, and no others, get the bytes at once |
| `Console.ConsoleChannel.ConsoleSetXY` | console.c:1118-1128 | A coordinate is summed and sent in two bytes |
| `Console.ConsoleChannel.ConsolePoll` | console.c:1138-1180 | The ring's poll refines the poll on the unbounded stream |
| `Console.ConsoleChannel.LatestMatch` | console.c:1155-1172 | The backwards search finds the latest stored poll with the current checksums |
| `Console.ConsoleChannel.ConsoleReinitPoll` | console.c:1191-1195 | The next poll begins where the last one ended |
| `Console.ConsoleChannel.ConsoleSendFrame` | console.c:1208-1238 | A slice is sent whole or not at all, also across the end of the ring |
| `Console.ConsoleChannel.ConsoleSendOutput` | console.c:1315-1364 | Every display that is due gets the trace line if there is one, the frame and the end mark, and the frame's end becomes the start of what is left |
| `Console.ConsoleChannel.ConsoleCheckOutput` | console.c:448-508 | The timer refines the timer on the unbounded stream |
| `Console.SliceInRing` | console.c:1216-1237 | A slice lies in the ring in one piece, or in two |
| `Cftp.Words2bytes` | cftp.py:215-231 | The bytes are the words' digits, with one more if their number is odd |
| `Cftp.Bytes2words` | cftp.py:233-258 | The words are those of the bytes' digits; less than a word is dropped |
| `Cftp.RoundTrip` | cftp.py:215-258 | Unpacking undoes packing for every list of words |
| `Cftp.BytesAreNumber` | cftp.py:215-231 | The bytes as one number, first byte highest, are the words as one number, with four bits more if their number is odd |
| `Cftp.CountsInPairs` | cftp.py:203-213 | A count of words is rounded up to whole pairs, one of bytes down |
| `Cftp.Connection.Read` | cftp.py:152-159 | Exactly the bytes asked for, however they arrive, or the end of the stream |
| `Cftp.Connection.ReadWords` | cftp.py:186-193 | Exactly the bytes of so many words, unpacked |
| `Cftp.Connection.ReadChunk` | cftp.py:324-337 | A header and what it announces, or the end of the stream |
| `Cftp.Connection.TransferIn` | cftp.py:324-337 | The receiver writes what the chunks hold until the end of information, and then answers |
| `Cftp.Connection.SendChunk` | cftp.py:339-344 | A header and the whole pairs of words of the data |
| `Cftp.Connection.TransferOut` | cftp.py:338-353 | The sender sends the file's chunks, the end marks, and reads the status |
| `Cftp.TransferDelivers` | cftp.py:319-353 | For any file and MTU the receiver stops at the end of information, having written the file's whole pairs of words |
| `Cftp.ChunkRead` | cftp.py:324-344 | A chunk is received as the whole pairs of words it was made from |
| `Cftp.ArrivesWholeIff` | cftp.py:203-213 | The file arrives whole if and only if it is empty, or its length is a multiple of 15 and the MTU at least two |
| `Z80Block.Z80.LdiLdd` | Z80.cpp:821-851 | LDI and LDD are one round |
| `Z80Block.Z80.LdirLddr` | Z80.cpp:853-940 | A call does the rounds its budget allows and puts the program counter back if some are left |
| `Z80Block.Z80.CopyRounds` | Z80.cpp:867-917 | The loop does the rounds of a call on local copies of the registers |
| `Z80Block.Z80.CpiCpd` | Z80.cpp:942-971 | CPI and CPD are one round |
| `Z80Block.Z80.CpirCpdr` | Z80.cpp:973-1037 | Likewise for the comparing instructions |
| `Z80Block.Z80.ResumeCopy` | Z80.cpp:2872-2918 | Calls with one budget after another, each fetching the instruction again, end as one call would, if the block does not overwrite the instruction |
| `Z80Block.Z80.ResumeCompare` | Z80.cpp:2872-2918 | Likewise for the comparing instructions, always |
| `Z80Block.Z80.CompareRounds` | Z80.cpp:983-1012 | Likewise for the comparing instructions |
| `Z80Block.Z80.Dispatch` | Z80.cpp:2872-2918 | Behind an ED prefix bit 4 of the opcode repeats, bit 3 goes downwards and bit 0 compares |
| `Z80Block.CopyFlagsMean` | Z80.cpp:821-851 | After a copy sign, zero and carry are kept, half carry and subtract clear, parity tells whether bytes are left, and bits 3 and 5 come from A plus the byte |
| `Z80Block.CompareFlagsMean` | Z80.cpp:942-971 | After a comparison zero tells whether the byte is A, parity whether bytes are left, and carry is kept |
| `Z80Block.CompareFlagsMore` | Z80.cpp:942-971 | Sign is that of the difference, half carry its borrow from the low digit, and bits 3 and 5 come from the difference less that |
| `Z80Block.ChunkIsPart` | Z80.cpp:867-917 | A stopped call leaves exactly the rest of the rounds |
| `Z80Block.StoppingDoesNotMatter` | Z80.cpp:2906-2918 | Any budgets give the same memory, registers, flags, refresh count and cycles as one call, and as many calls as the count are enough |
| `Z80Block.InstructionKept` | Z80.cpp:867-917 | The instruction is still there to be resumed if the block does not overwrite it |
| `Z80Block.RepeatedCopyIsSingles` | Z80.cpp:853-940 | LDIR is as many LDIs as the count, but for cycles |
| `Z80Block.CopiesBlock` | Z80.cpp:853-940 | The block as it was is copied and nothing else changes, when no byte is overwritten before it is read |
| `Z80Block.CopyEnds` | Z80.cpp:853-940 | When a copy is done the count and parity are zero and sign, zero and carry as before |
| `Z80Block.StopsPastFirst` | Z80.cpp:973-1037 | CPIR stops just past the first byte equal to A, or past the block; the flags tell which |
| `Z80Block.ZeroCountIff` | Z80.cpp:853-940 | A count of zero stands for 65536 rounds if and only if the first budget stops it before |
| `Z80Block.ZeroSearchIff` | Z80.cpp:973-1037 | So it does for a search if and only if some byte equals A or the first budget stops it before |
| `Z80Block.ZeroCountOverruns` | PtermFrame.h:45 | The terminal's budget lets a count of zero copy more than 65536 bytes |
| `Floppy.MtFile.CalcCheck` | MTFile.cpp:356-373 | The shifts rotate both halves of the check word |
| `Floppy.CheckIsCombined` | MTFile.cpp:356-373 | The check word is the combination of the bytes rotated by their distance from the end |
| `Floppy.SameCheckIff` | MTFile.cpp:356-373 | Two sequences have one check word if and only if their differences combine to nothing |
| `Floppy.OneByteDetected` | MTFile.cpp:356-373 | A change of one byte changes both halves |
| `Floppy.TwoBytesUndetectedIff` | MTFile.cpp:356-373 | Changes of two bytes go unnoticed if and only if the rotated differences agree in both directions |
| `Floppy.EightApartUndetected` | MTFile.cpp:356-373 | The same change of two bytes eight apart is never noticed |
| `Floppy.MtFile.ReadRam` | MTFile.cpp:207-214 | A read gives the next byte of the image, or a half of the check word after 128 |
| `Floppy.MtFile.Seek` | MTFile.cpp:148-155 | A seek sets the place and both counts, and leaves the check word |
| `Floppy.MtFile.ReadReset` | MTFile.cpp:182-188 | A reset clears the check word and starts a sector |
| `Floppy.SectorReads` | MTFile.h:59-70 | The rest of a sector is read as its bytes and then the check word, from any check word |
| `Floppy.ReadsSectors` | MTFile.h:59-70 | From a seek with a clear check word, reading gives sector after sector, each with its check word |
| `Floppy.SeekCheckIff` | MTFile.cpp:148-155 | After a seek the first sector's check word is right if and only if it was clear |
| `Floppy.SeekAfterReading` | MTFile.cpp:148-155 | After a byte 1 has been read, a seek leaves the next sector with a wrong check word |
| `Floppy.MtFile.WriteByte` | MTFile.cpp:276-331 | 128 bytes are stored and the next two dropped |
| `Floppy.SectorWrites` | MTFile.cpp:281-292 | A sector's bytes are stored and its two check bytes dropped |
| `Floppy.CopiesSectors` | MTFile.cpp:276-331 | Writing what was read from one image copies its sectors to another and changes nothing else |

## Left out

- Windows, menus, dialogs, timers, printing, the clipboard and profiles of Pterm: user interface and library calls.
- Font drawing and window save and restore: they go through the bitmap library and need not keep full alpha.
- Sockets, files, locks and time of day: byte sequences, pieces of a stream, or a parameter.
- GSW audio and its ring, keyboard tables, titles, ASCII mode of the host connection: not modelled; the host ring is in NIU mode.
- Glyph tables: the flood fill's pattern is no character, a solid fill, or any eight columns of dots.
- Cpu.CpuContext.Compute: the arithmetic units (10 to 47 octal), external operations (016) and the clock are any function of the registers.
- PPs: steps that may issue exchange requests. They write memory at any place, so that protection is stated between them.
- Tracing and debugging of the CPU.
- cpuRatio other than 1, and memory sizes that are not a power of two (`&` with the mask is a remainder).
- DDP transfers through ECS and the ECS access from PPs.
- The host ring's steps are atomic and seen in order by both threads; its counters do not wrap.
- Cpu.CpuContext.Step: the step's answers come from outside; a refused XJ in a later parcel is tried again within the step, as in the code, for as long as answers are given.
- Cpu.CpuContext.Parcel: states what every instruction keeps; what an instruction does is stated of Execute, and Parcel and Step do not put that together over the clearing of B0 and the fetch of the next word.
- TerminalFrame.PtermFrame.PtermPaint: does not say what is filled from a current point off the screen, where the pixels read are those at other addresses of the bitmap.
- The 32-bit wrap-around of poll checksums, which could only change which cycles are found, and what the trace line says.
- The display's key ring and the auto date entry.
- Cftp.Connection.SendAll: partial sends are retried until all is sent, as one step here.
- The `readmin` of cftp, names and commands of its protocol, and its servers.
- BlackBox.Terminal.PlotChar: font mode draws through the library; the emulated character memory is modelled.
- The rest of the Z80 and its interrupts; the patches of levels of microTutor.
- Z80Block.InstructionKept: a block that overwrites its own instruction is left out, since what is then resumed is another instruction.
- Floppy errors and retries, and images held by the operating system: the image is an array.
- channel.c, cr3447.c, cp3446.c, cc545.cpp, the character generators and the build helpers.
