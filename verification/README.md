# Verified model of the Dart runtime's hard core

This Dafny project models the parts of the Dart runtime whose correctness cannot be read off one
function, and proves what they promise. `dafny verify dfyconfig.toml` checks all of it.

The components, and the main theorem of each:

- **Hash table** (`HashTable.dfy`). Linear probing, growth at about 80% load, and removal that
  shifts entries back across the wrap-around instead of leaving tombstones. For every sequence of
  operations the table answers as a finite map does (`HashMap.Replay`).
- **One-pass assembler** (`Labels.dfy`, `LabelReference.dfy`, `Finalization.dfy`, `Assembler.dfy`).
  Unresolved jumps are threaded through the code bytes and patched when their label is bound; the
  buffer grows underneath; fixups are applied at the end. The result equals, byte for byte, what an
  assembler that knows every position from the start would write (`OnePassIsReference`,
  `FinalizedIsReference`, `Assembler.Assemble`).
- **Operand encodings** (`OperandsIA32.dfy`, `OperandsX64.dfy`). A decoder written from sections
  2.1.5 and 2.2.1 of volume 2 of the Intel 64 and IA-32 Architectures Software Developer's Manual
  recovers every address that the encoder was given.
- **JSON scanner and debugger framing** (`Json.dfy`, `JsonGrammar.dfy`, `JsonReader.dfy`,
  `Framing.dfy`, `DebuggerConnection.dfy`). The scanner recognizes exactly a grammar. Every
  NUL-free stream is cut into the same messages and the same rest however its bytes arrive; that
  every message is examined, however they arrive, holds exactly if none without a command can meet
  its successor in the buffer.
- **Integers** (`Integers.dfy`). Three representations, two word sizes; every result is exact and
  in its most compact form.
- **Windows sockets** (`WindowsClients.dfy`, `WindowsSocket.dfy`, `WindowsListeners.dfy`). Over every
  interleaving: buffers have one owner, sockets are deleted once, no completion names a deleted one;
  and the socket object with its buffers on the heap carries out every such run.
- **Windows monitor** (`WindowsMonitor.dfy`, `WaiterList.dfy`). Over every interleaving: the waiter
  list is the waiting threads in order, and no wake-up is missed, exactly as long as no thread
  queues up with its event still set from a signal that came too late.
- **Exit codes on Linux** (`ProcessExit.dfy`, `ProcessInfoList.dfy`). Over every interleaving: no exit
  is forgotten, and each child's exit reaches its own pipe, at most once, exactly as long as no
  entry of another child with the same pid gets in front of the one being handled.
- **epoll handler** (`Epoll.dfy`, `EpollHandler.dfy`). The kernel watches exactly the tracked
  descriptors through live pointers, and one event at a time is posted for each.

`BitMath.dfy`, `Words.dfy` and `Options.dfy` hold what they share. Code that works by changing state is
modelled by classes and loops, each method proved against a function on values; concurrent
protocols are state machines over their interleaved steps, and their theorems are about every
possible run.

## What the code does that its users may not expect

Each of these is proved with the exact condition, and shown to happen:

- A backward `call` to a label lands one byte before the label (`Finalization.CallLands`,
  `Finalization.BackwardCall`).
- A jump that was promised to be near lands on its label exactly if the distance fits a signed byte
  (`Finalization.JumpLands`, `Finalization.NearJumpRange`).
- A debugger message without `command` is removed twice, so that its successor is lost if both are
  in the buffer (`Framing.FramingIndependence`, `DebuggerConnection.CommandlessExample`).
- When the rest of a stream, behind its complete messages, has 255 bytes or more, the debugger's
  read loop spins (`Framing.SessionCuts`, `DebuggerConnection.HandleMessages`, `Framing.Jammed`).
- After a failed read completion the data length is -1, and a Read is asked to copy that many bytes
  (`WindowsClients.NegativeRead`, `WindowsClients.NegativeReadHappens`).
- Connections that a closing listener had accepted but not handed out are closed and never deleted
  (`WindowsListeners.SystemIsSafe`, `WindowsListeners.UnclaimedIsNeverDeleted`,
  `WindowsListeners.UnclaimedHappens`).
- If a timed wait gives up while it is being notified, its event stays set; when the thread then
  queues up again, the waiter list can become a cycle. The event is shared by all monitors, so the
  signal may also come from another one (`WindowsMonitor.RunInv`,
  `WindowsMonitor.LateSignalMakesCycle`, `WindowsMonitor.LateSignalElsewhere`).
- If a pid is reused while its old owner is being handled, or after a child was killed before it was
  listed, a child can receive another's exit (`ProcessExit.RunDelivers`, `ProcessExit.EarlyReuse`,
  `ProcessExit.LeftoverEntry`).
- A registration with port 0 for a watched descriptor leads to a post to no port (`Epoll.HandleInv`,
  `Epoll.PortDropped`).
- A descriptor that is left with nothing to ask for stays watched for what it asked before
  (`Epoll.HandleCurrent`, `Epoll.StaleInterest`).
- `HighestBit` negates the smallest 64-bit integer, which overflows; the bits it then reads are
  still those of the magnitude (`Integers.MagnitudeIsAbs`).

## Model

| member | source | states |
|---|---|---|
| `BitMath.MaskIsMod` | runtime/bin/hashmap.cc:144 | masking with capacity - 1 is the remainder modulo a capacity that is a power of two |
| `HashTable.HashMap.constructor` | runtime/bin/hashmap.cc:160-170 | a new table stands for the empty map |
| `HashTable.HashMap.Clear` | runtime/bin/hashmap.cc:113-120 | afterwards the table stands for the empty map, whatever it was before |
| `HashTable.HashMap.Probe` | runtime/bin/hashmap.cc:140-157 | stops at the entry for the key if and only if the map has it, else at an empty slot; every slot walked over is in use; terminates because some slot is empty |
| `HashTable.HashMap.Lookup` | runtime/bin/hashmap.cc:22-47 | finds what the map holds, adds a NULL binding only when asked, keeps every other binding, and grows only at the documented load |
| `HashTable.HashMap.Resize` | runtime/bin/hashmap.cc:173-190 | doubles the capacity and keeps the map; its termination measure shows that no reinsertion resizes again |
| `HashTable.HashMap.Reinsert` | runtime/bin/hashmap.cc:181-186 | one more old entry is in the new table, in the same array |
| `HashTable.HashMap.SetValue` | runtime/bin/hashmap.h:24-31 | writing through a returned entry changes that binding and no other |
| `HashTable.HashMap.Remove` | runtime/bin/hashmap.cc:50-110 | the map loses exactly the removed key, every other entry stays findable, and the load stays below the limit |
| `HashTable.MoveKeeps` | runtime/bin/hashmap.cc:96-104 | a move that the circular-range test allows keeps every search succeeding, with the hole at the new place |
| `HashTable.ClearKeeps` | runtime/bin/hashmap.cc:84-109 | clearing the last candidate breaks no search once all slots up to the next empty one were examined |
| `HashTable.InsertKeeps` | runtime/bin/hashmap.cc:30-34 | an entry written where a probe ended keeps all searches and adds one binding |
| `HashTable.CountIsSize` | runtime/bin/hashmap.h:46-49 | the number of used slots is the size of the map |
| `HashTable.HashMap.Next` | runtime/bin/hashmap.cc:123-137 | the first used slot after a position, or none if there is none |
| `HashTable.HashMap.VisitAll` | runtime/bin/hashmap.h:51-60 | the documented loop visits each binding exactly once |
| `HashTable.HashMap.Perform` | runtime/bin/hashmap.cc:22-120 | one operation answers as the finite map over keys does, given that hashes are a function of the key |
| `HashTable.HashMap.Replay` | runtime/bin/hashmap.cc:22-157 | any sequence of operations answers as a finite map does, and iteration then visits each live key exactly once |
| `LabelReference.FarSitesAre` | runtime/vm/assembler_ia32.cc:1521-1526 | the pending 32-bit sites of a label are strictly decreasing in position |
| `LabelReference.LinkedIsChain` | runtime/vm/assembler_ia32.cc:1439-1444 | the chain threaded through the code bytes lists exactly the pending sites of the label |
| `LabelReference.PatchFarAt` | runtime/vm/assembler_ia32.cc:1439-1444 | each pending 32-bit site gets the distance from its end to the bound position |
| `LabelReference.PatchNearAt` | runtime/vm/assembler_ia32.cc:1445-1450 | each pending short site gets the low byte of its distance |
| `LabelReference.BindElsewhere` | runtime/vm/assembler_ia32.cc:1436-1452 | binding changes no byte outside the sites of its label |
| `LabelReference.BindAt` | runtime/vm/assembler_ia32.cc:1436-1452 | binding fills every site of its label with the right displacement |
| `LabelReference.ApartSites` | runtime/vm/assembler_ia32.cc:1521-1534 | sites of all labels are disjoint |
| `LabelReference.BindOthers` | runtime/vm/assembler_ia32.cc:1436-1452 | binding one label leaves the chains and near lists of all others intact |
| `LabelReference.BindStep` | runtime/vm/assembler_ia32.cc:1436-1452 | after a bind the code agrees with the reference except at sites of labels still unbound |
| `LabelReference.StepSimulates` | runtime/vm/assembler_ia32.cc:1194-1265 | every instruction keeps that agreement |
| `LabelReference.RunSimulates` | runtime/vm/assembler_ia32.cc:1194-1257 | so does every program |
| `LabelReference.OnePassIsReference` | runtime/vm/assembler_ia32.cc:1194-1257 | for every program whose labels are bound once, the one-pass code is the code of an assembler that knows all positions, and the fixups are those of the program |
| `Finalization.InstructionAt` | runtime/vm/assembler_ia32.cc:1194-1257 | each instruction's encoding stands in the final code at its position |
| `Finalization.FinishedAt` | runtime/vm/assembler.cc:88-98 | in the finished region each instruction's final encoding stands at its position |
| `Finalization.JumpLands` | runtime/vm/assembler_ia32.cc:1194-1257 | in the finished region every jump decodes to its label, if and only if it is not a near jump emitted before a label out of byte range |
| `Finalization.NearJumpRange` | runtime/vm/assembler_ia32.cc:1445-1450 | a near jump over k blocks of 32 bytes lands on its label if and only if k is at most 3 |
| `Finalization.CallLands` | runtime/vm/assembler_ia32.cc:49-54 | in the finished region a forward call decodes to its label, a backward one to the byte before it |
| `Finalization.BackwardCall` | runtime/vm/assembler_ia32.cc:1510-1518 | a call back to the start of the code lands at -1, before the code |
| `Finalization.RelocationStores` | runtime/vm/assembler_ia32.cc:19-27 | a relocated slot holds the address relative to the end of the slot, modulo 2^32 |
| `Finalization.FixProgram` | runtime/vm/assembler.cc:79-85 | processing the fixups of a program rewrites its slots and nothing else |
| `Finalization.FinalizedIsReference` | runtime/vm/assembler.cc:79-98 | the final region is the code of an assembler that knows label positions and start address |
| `Finalization.ExternalLands` | runtime/vm/assembler_ia32.cc:57-64 | every external call or jump decodes to its absolute address modulo 2^32 |
| `Finalization.SlotIsRecorded` | runtime/vm/assembler.cc:126-153 | every object slot is among the pointer offsets |
| `Finalization.RecordedIsSlot` | runtime/vm/assembler.cc:126-153 | every pointer offset is an object slot |
| `Finalization.PointersAreSlots` | runtime/vm/assembler.cc:133-139 | the pointer offsets are exactly the object slots, each once |
| `Assembler.Assembler.constructor` | runtime/vm/assembler.cc:57-72 | an empty buffer without fixups |
| `Assembler.Assembler.EnsureCapacity` | runtime/vm/assembler.cc:29-43 | afterwards any instruction fits, and the code is unchanged |
| `Assembler.Assembler.ExtendCapacity` | runtime/vm/assembler.cc:101-123 | the capacity grows as documented and the code is unchanged |
| `Assembler.Assembler.EmitByte` | runtime/vm/assembler.h:77-81 | appends one byte |
| `Assembler.Assembler.LoadWord` | runtime/vm/assembler.h:83-86 | reads the signed word stored at a position |
| `Assembler.Assembler.StoreBytes` | runtime/vm/assembler.h:88-91 | overwrites bytes in place and no others |
| `Assembler.Assembler.EmitLabelLink` | runtime/vm/assembler_ia32.cc:1521-1526 | appends the previous link and makes this site the head of the chain |
| `Assembler.Assembler.EmitNearLabelLink` | runtime/vm/assembler_ia32.cc:1529-1534 | appends a placeholder and pushes its position |
| `Assembler.Assembler.Jmp` | runtime/vm/assembler_ia32.cc:1194-1257 | emits the short, long, near-linked or chained form as the label's state demands |
| `Assembler.Assembler.Call` | runtime/vm/assembler_ia32.cc:49-54 | emits a call with the displacement that the code computes |
| `Assembler.Assembler.PatchLinks` | runtime/vm/assembler_ia32.cc:1439-1444 | the loop terminates and patches exactly the chain |
| `Assembler.Assembler.PatchNearLinks` | runtime/vm/assembler_ia32.cc:1445-1450 | the loop empties the near stack and patches exactly its positions |
| `Assembler.Assembler.Bind` | runtime/vm/assembler_ia32.cc:1436-1452 | patches chain and near sites and binds the label at the current size |
| `Assembler.LinkedIsSound` | runtime/vm/assembler_ia32.cc:1439-1444 | a chain of decreasing sites can be walked to its end |
| `Assembler.Assembler.EmitExternal` | runtime/vm/assembler_ia32.cc:1220-1265 | emits the absolute address and records its relocation |
| `Assembler.Assembler.EmitWithObject` | runtime/vm/assembler.cc:147-153 | reserves a word and records the handle to be patched in |
| `Assembler.Assembler.ProcessFixup` | runtime/vm/assembler_ia32.cc:21-26 | applies one fixup in place; a handle's position is recorded |
| `Assembler.Assembler.ProcessFixups` | runtime/vm/assembler.cc:79-85 | applies each fixup once, last emitted first |
| `Assembler.Assembler.FinalizeInstructions` | runtime/vm/assembler.cc:88-98 | the region is the code with all fixups applied, and the buffer is unchanged |
| `Assembler.Assembler.EmitProgram` | runtime/vm/assembler_ia32.cc:1194-1265 | emitting a program leaves the code and fixups of the value model, across any growth of the buffer |
| `Assembler.Assembler.Assemble` | runtime/vm/assembler.cc:79-123 | for every acceptable program the emitted code and the final region are those of the reference assembler |
| `OperandsIA32.PlainMeans` | runtime/vm/assembler_ia32.h:149-162 | base plus displacement without SIB decodes to itself |
| `OperandsIA32.SIBMeans` | runtime/vm/assembler_ia32.h:164-185 | every SIB form decodes to its base, index, scale and displacement |
| `OperandsIA32.EmittedDecodes` | runtime/vm/assembler_ia32.cc:1470-1481 | an operand emitted with a register field decodes to that register and the operand's meaning, whatever follows |
| `OperandsIA32.Operand.SetModRM` | runtime/vm/assembler_ia32.h:102-106 | the operand is the one ModRM byte |
| `OperandsIA32.Operand.SetSIB` | runtime/vm/assembler_ia32.h:108-113 | appends the SIB byte |
| `OperandsIA32.Operand.SetDisp8` | runtime/vm/assembler_ia32.h:115-118 | appends a byte displacement |
| `OperandsIA32.Operand.SetDisp32` | runtime/vm/assembler_ia32.h:120-125 | appends a word displacement |
| `OperandsIA32.Operand.Register` | runtime/vm/assembler_ia32.h:132 | means the register |
| `OperandsIA32.Operand.Base` | runtime/vm/assembler_ia32.h:149-162 | means base plus displacement, ESP and EBP included |
| `OperandsIA32.Operand.Index` | runtime/vm/assembler_ia32.h:164-169 | means scaled index plus displacement |
| `OperandsIA32.Operand.BaseIndex` | runtime/vm/assembler_ia32.h:171-185 | means base plus scaled index plus displacement, EBP included |
| `OperandsIA32.Operand.Absolute` | runtime/vm/assembler_ia32.h:187-192 | means the absolute address |
| `OperandsX64.PrefixRoundTrip` | runtime/vm/assembler_x64.h:601-606 | the emitted REX prefix, or its absence, decodes to the bits it was made from |
| `OperandsX64.PlainMeans64` | runtime/vm/assembler_x64.h:167-186 | base plus displacement without SIB, with REX.B |
| `OperandsX64.SIBMeans64` | runtime/vm/assembler_x64.h:188-209 | every SIB form with REX.X and REX.B |
| `OperandsX64.EmittedDecodes64` | runtime/vm/assembler_x64.h:601-606 | REX prefix and operand together decode to the register and the operand's meaning |
| `OperandsX64.Operand.SetModRM` | runtime/vm/assembler_x64.h:104-111 | the ModRM byte, with REX.B unless R12 will take a SIB byte |
| `OperandsX64.Operand.SetSIB` | runtime/vm/assembler_x64.h:113-123 | the SIB byte with REX.B and REX.X |
| `OperandsX64.Operand.Register` | runtime/vm/assembler_x64.h:141 | means the register, of all sixteen |
| `OperandsX64.Operand.Base` | runtime/vm/assembler_x64.h:167-186 | means base plus displacement, RSP, RBP, R12 and R13 included |
| `OperandsX64.Operand.Index` | runtime/vm/assembler_x64.h:188-193 | means scaled index plus displacement |
| `OperandsX64.Operand.BaseIndex` | runtime/vm/assembler_x64.h:195-209 | means base plus scaled index plus displacement |
| `Json.ScanAdvances` | runtime/platform/json.cc:137-199 | every legal token is a non-empty piece of the text further on |
| `JsonGrammar.NestingIsSkipped` | runtime/platform/json.cc:68-82 | a properly nested sequence is skipped to its own closing token |
| `JsonGrammar.SkippedIsNesting` | runtime/platform/json.cc:68-82 | whatever is skipped to a legal end was properly nested |
| `JsonGrammar.SkipIsNesting` | runtime/platform/json.cc:68-82 | Skip ends with the matching token if and only if a nested sequence closes there, and otherwise in Illegal or EOM |
| `JsonGrammar.ObjectIsSought` | runtime/platform/json.cc:214-277 | on an object of the grammar, Seek finds a name exactly if it is a member, else ends at the closing brace |
| `JsonGrammar.SoughtIsObject` | runtime/platform/json.cc:214-277 | if Seek ends without error and without finding the name, the text starts with an object without that name |
| `JsonGrammar.EndOfObjectIsGrammar` | runtime/platform/json.cc:280-289 | the answer is position k if and only if the text starts with an object without the key `***` whose brace is at k |
| `JsonGrammar.ScanAgrees` | runtime/platform/json.cc:137-199 | a token depends only on the text up to the character after it, a closing one only on the text up to itself |
| `JsonGrammar.EndOfObjectAgrees` | runtime/platform/json.cc:280-289 | a found end, and what Seek finds in the object, depend only on the text up to the closing brace |
| `JsonGrammar.EndOfObjectStable` | runtime/platform/json.cc:280-289 | a found end and what Seek finds stay the same when any text is appended |
| `JsonGrammar.EndOfObjectInTime` | runtime/platform/json.cc:280-289 | conversely, an object at the front of a longer text is found as soon as its closing brace is there |
| `JsonReader.JSONScanner.SetText` | runtime/platform/json.cc:19-24 | the scanner is at the start of the text |
| `JsonReader.JSONScanner.IsLiteral` | runtime/platform/json.cc:43-53 | recognizes a keyword that no letter follows, and then moves past it |
| `JsonReader.JSONScanner.IsStringLiteral` | runtime/platform/json.cc:56-65 | the current string is exactly the given name |
| `JsonReader.JSONScanner.ScanString` | runtime/platform/json.cc:85-109 | scans to the closing quote, and says when an escape makes the original abort |
| `JsonReader.JSONScanner.ScanNumber` | runtime/platform/json.cc:112-134 | scans an integer and refuses fractions and exponents |
| `JsonReader.JSONScanner.Scan` | runtime/platform/json.cc:137-199 | the next token is that of the scanning function |
| `JsonReader.JSONScanner.Skip` | runtime/platform/json.cc:68-82 | the mutually nested recursion computes the skipping function and terminates |
| `JsonReader.JSONReader.Seek` | runtime/platform/json.cc:214-277 | answers, reports errors and ends where the seeking function does |
| `JsonReader.JSONReader.EndOfObject` | runtime/platform/json.cc:280-289 | the position that the grammar gives, or none |
| `Framing.TurnConserves` | runtime/bin/dbg_connection.cc:286-313 | one turn of the loop only moves bytes from the buffer to the popped messages |
| `Framing.SessionConserves` | runtime/bin/dbg_connection.cc:268-315 | popped messages, buffer and unread bytes together are always the bytes sent, for NUL-free streams |
| `Framing.CutConserves` | runtime/bin/dbg_connection.cc:87-93 | a stream is its messages, each complete and small enough, followed by a rest that starts with none |
| `Framing.CutIsUnique` | runtime/bin/dbg_connection.cc:87-93 | messages that a sender puts one behind the other are the ones cut off again, and there is no other way to cut |
| `Framing.SessionCuts` | runtime/bin/dbg_connection.cc:118-130 | however a NUL-free stream arrives, the popped messages are those it is cut into, and the rest stays; the buffer ends up full, where the original spins, if and only if the rest has 255 bytes or more |
| `Framing.SessionIs` | runtime/bin/dbg_connection.cc:268-315 | popped messages, buffer and unread bytes are functions of the stream, for every way it can arrive |
| `Framing.SafeSession` | runtime/bin/dbg_connection.cc:268-315 | if no message without a command fits the buffer with its successor, every message is examined, however the bytes arrive |
| `Framing.UnsafeSession` | runtime/bin/dbg_connection.cc:291-313 | otherwise some arrival of the bytes drops a message unexamined |
| `Framing.ByteByByte` | runtime/bin/dbg_connection.cc:279-314 | read byte by byte, every message of any stream is examined, with or without a command |
| `Framing.FramingIndependence` | runtime/bin/dbg_connection.cc:268-315 | for every NUL-free stream, any two ways to arrive have the same outcome if and only if no message without a command fits the buffer with its successor |
| `Framing.WhenStuck` | runtime/bin/dbg_connection.cc:118-130 | any session, with or without NULs, ends with everything read, or with a full buffer that holds no message |
| `Framing.Jammed` | runtime/bin/dbg_connection.cc:118-130 | bytes after a closing bracket fill the buffer, however they arrive, and nothing beyond is read |
| `DebuggerConnection.MessageBuffer.constructor` | runtime/bin/dbg_connection.cc:64-77 | an empty buffer of a live connection |
| `DebuggerConnection.MessageBuffer.IsValidMessage` | runtime/bin/dbg_connection.cc:87-93 | the buffer starts with a complete object |
| `DebuggerConnection.MessageBuffer.ReadData` | runtime/bin/dbg_connection.cc:118-142 | appends what arrived, and notices the end of the stream |
| `DebuggerConnection.MessageBuffer.PopMessage` | runtime/bin/dbg_connection.cc:145-159 | shifts in place to what follows the first object |
| `DebuggerConnection.HandleMessage` | runtime/bin/dbg_connection.cc:286-313 | one turn of the dispatch loop |
| `DebuggerConnection.HandleMessages` | runtime/bin/dbg_connection.cc:268-315 | the loop, whatever the sizes of the reads, yields the session's messages, buffer and unread bytes; for a NUL-free stream it is stuck, where the original spins, if and only if what remains behind the complete messages has 255 bytes or more; otherwise it ends with the connection |
| `DebuggerConnection.CommandlessExample` | runtime/bin/dbg_connection.cc:291-313 | two messages without a command: byte by byte both are examined, read together the second is dropped |
| `Integers.WrapExact` | runtime/lib/integers.cc:210-307 | a machine operation is exact if and only if the result fits the type |
| `Integers.AsIntegerCompacts` | runtime/lib/integers.cc:21-42 | any representable integer becomes the canonical, most compact one, which is unique |
| `Integers.RemainderToModulus` | runtime/lib/integers.cc:248-258 | the adjusted C remainder is the Euclidean modulus, for every sign |
| `Integers.FastPathExact` | runtime/lib/integers.cc:210-300 | no fast path overflows its machine type |
| `Integers.BinopExact` | runtime/lib/integers.cc:210-307 | add, subtract, multiply, truncating divide and modulo of canonical operands are exact and canonical, on both word sizes |
| `Integers.MagnitudeIsAbs` | runtime/lib/integers.cc:414-421 | the negation overflows exactly for the smallest integer, and its bits are the magnitude even then |
| `Integers.HighestBit` | runtime/lib/integers.cc:414-421 | the loop returns the index of the highest bit of the magnitude |
| `Integers.SmiShlExact` | runtime/lib/integers.cc:425-463 | a small integer shifted left is exact in all three branches |
| `Integers.SmiShrExact` | runtime/lib/integers.cc:425-463 | a small integer shifted right is the floor, also beyond the word |
| `Integers.ShiftExact` | runtime/lib/integers.cc:466-509 | shifts of any canonical integer are exact and canonical; a negative amount throws |
| `WindowsClients.NextInv` | runtime/bin/eventhandler_win.cc:617-784 | every event, in any order, keeps the buffer, data, queue and deletion clauses |
| `WindowsClients.RunInv` | runtime/bin/eventhandler_win.cc:617-784 | so does every run |
| `WindowsClients.DeletionIsSafe` | runtime/bin/eventhandler_win.cc:603-784 | a socket is deleted at most once; nothing in flight names a deleted socket; a closed one is deleted exactly when nothing is in flight |
| `WindowsClients.DestructorAssertions` | runtime/bin/eventhandler_win.h:315-320 | the step that deletes finds no pending operation and no ready data |
| `WindowsClients.BuffersAndBytes` | runtime/bin/eventhandler_win.cc:185-205 | each buffer has exactly one holder, a pending read excludes ready data, and the bytes handed out are a prefix of those received |
| `WindowsClients.NegativeRead` | runtime/bin/eventhandler_win.cc:736-755 | Read is asked for a negative count if and only if a read completion failed while the socket was not closing, and since then no Read was called and no close message handled |
| `WindowsClients.NegativeReadHappens` | runtime/bin/eventhandler_win.cc:71-78 | such a run: a read is asked for, issued, and fails |
| `WindowsSocket.IOBuffer.Read` | runtime/bin/eventhandler_win.cc:71-78 | hands out the next bytes in order and keeps the rest; after a failed completion it returns -1 and is empty |
| `WindowsSocket.IOBuffer.Complete` | runtime/bin/eventhandler_win.cc:736-739 | what is left to read is exactly what the system stored, and a failure is the length -1 |
| `WindowsSocket.ClientSocket.constructor` | runtime/bin/eventhandler_win.h:308-314 | a fresh socket is in the model's first state and holds no buffer |
| `WindowsSocket.ClientSocket.Read` | runtime/bin/eventhandler_win.cc:484-493 | one step of the model: the bytes handed out extend those before, and an emptied buffer is dropped |
| `WindowsSocket.ClientSocket.Write` | runtime/bin/eventhandler_win.cc:496-508 | one step of the model: unless a write is pending, the system holds the first 4096 of the caller's bytes, or all if fewer, or nothing if it refused |
| `WindowsSocket.ClientSocket.HandleInterrupt` | runtime/bin/eventhandler_win.cc:649-695 | one step of the model, which keeps its invariant: the socket is deleted exactly when the message leaves it closing with nothing in flight, and then no ready buffer is left either |
| `WindowsSocket.ClientSocket.HandleRead` | runtime/bin/eventhandler_win.cc:185-196 | the source's assertions, that this is the pending read and no data is ready, hold for every buffer the system can name; it becomes ready data exactly if the socket is not closing and the completion was not empty |
| `WindowsSocket.ClientSocket.HandleWrite` | runtime/bin/eventhandler_win.cc:199-205 | the source's assertion, that this is the pending write, holds for every buffer the system can name; the next write may start |
| `WindowsSocket.ClientSocket.FinishCompletion` | runtime/bin/eventhandler_win.cc:748-760 | one step of the model: the socket is deleted exactly when it is closing with nothing in flight, and then no ready buffer is left either |
| `WindowsSocket.ClientSocket.Run` | runtime/bin/eventhandler_win.cc:617-784 | whatever run of events the model allows, the methods carry out on the heap, and end in the model's state |
| `WindowsSocket.Serve` | runtime/bin/eventhandler_win.cc:603-784 | a new socket through any run is deleted at most once, then the system holds nothing of it and no buffer is left; the bytes handed out are a prefix of those received |
| `WindowsListeners.NextInv` | runtime/bin/eventhandler_win.cc:352-473 | the accept counter is the number of accepts in flight, each owning its buffer, and a closing listener holds no connection |
| `WindowsListeners.DeletedIsDone` | runtime/bin/eventhandler_win.h:272-276 | the destructor's assertions hold, and nothing can happen to a deleted listener |
| `WindowsListeners.SocketsStay` | runtime/bin/eventhandler_win.cc:390-473 | every step of any number of sockets keeps every socket's invariant |
| `WindowsListeners.ListsStay` | runtime/bin/eventhandler_win.cc:390-468 | every step keeps the waiting lists right |
| `WindowsListeners.SystemIsSafe` | runtime/bin/eventhandler_win.cc:390-473 | in every run no socket is deleted twice; of the closing clients with nothing in flight exactly those that a Dart program knows are deleted; and a connection waits in exactly one list, once, exactly while it is open and unclaimed |
| `WindowsListeners.UnclaimedIsNeverDeleted` | runtime/bin/eventhandler_win.cc:457-468 | a connection closed by its listener is never deleted, whatever happens later |
| `WindowsListeners.UnclaimedHappens` | runtime/bin/eventhandler_win.cc:457-468 | a run that ends with such a connection |
| `WaiterList.MonitorData.constructor` | runtime/platform/thread_win.cc:143-148 | an empty list |
| `WaiterList.MonitorData.AddWaiter` | runtime/platform/thread_win.cc:167-179 | queues up at the end |
| `WaiterList.MonitorData.RemoveWaiter` | runtime/platform/thread_win.cc:182-208 | takes the node out wherever it is, and changes nothing if it is not listed |
| `WaiterList.MonitorData.SignalAndRemoveFirstWaiter` | runtime/platform/thread_win.cc:211-228 | wakes and removes the oldest, and nobody else |
| `WaiterList.MonitorData.SignalAndRemoveAllWaiters` | runtime/platform/thread_win.cc:231-246 | wakes everyone listed, follows the links to the end, and empties the list |
| `WindowsMonitor.NextInv` | runtime/platform/thread_win.cc:167-330 | a step of any thread keeps the invariant, late signals included, if and only if it does not queue up a thread whose event is set |
| `WindowsMonitor.RunInv` | runtime/platform/thread_win.cc:167-330 | the list is right in every state of a run if and only if no thread queues up with its event set |
| `WindowsMonitor.UntimedIsFresh` | runtime/platform/thread_win.cc:291-297 | with untimed waits here and no signals in other monitors, no thread queues up with its event set |
| `WindowsMonitor.ListIsWaiting` | runtime/platform/thread_win.h:91-95 | the list is acyclic and holds exactly the waiting threads that are not signalled, and those giving up, in the order of their arrival |
| `WindowsMonitor.NotifyWakesOldest` | runtime/platform/thread_win.cc:318-320 | Notify signals the thread that has been listed longest and no other |
| `WindowsMonitor.NotifyAllWakesAll` | runtime/platform/thread_win.cc:323-330 | although woken threads run meanwhile, NotifyAll signals exactly those it found, and afterwards nobody is listed |
| `WindowsMonitor.NotMissed` | runtime/platform/thread_win.cc:276-315 | a thread that queued up behind k others waits through at most k Notify calls and through no complete NotifyAll |
| `WindowsMonitor.LateSignalMakesCycle` | runtime/platform/thread_win.cc:298-312 | a run in which a thread queues up with its event set and becomes its own successor |
| `WindowsMonitor.LateSignalElsewhere` | runtime/platform/thread_win.cc:249-273 | a run without timed waits here in which a signal from another monitor has the same effect, because the event is the thread's |
| `ProcessExit.WatchedStays` | runtime/bin/process_linux.cc:217-285 | an exited, unreaped child is always behind a signal, a wake-up byte or a reap pass |
| `ProcessExit.NoExitForgotten` | runtime/bin/process_linux.cc:181-285 | in every run: once its SIGCHLD handler has run, an unreaped child finds a wake-up byte or a reap pass, until termination is requested |
| `ProcessExit.FindOwn` | runtime/bin/process_linux.cc:58-68 | the lookup finds a child's own pipe, or nothing if it is not listed, if and only if no entry of another child with its pid comes first |
| `ProcessExit.EntriesStay` | runtime/bin/process_linux.cc:50-88 | in every step, whatever pids the system gives out, the list holds exactly the children added and not removed |
| `ProcessExit.NextInv` | runtime/bin/process_linux.cc:48-97 | a step keeps the lookup and the books right if and only if it neither adds another child with the pid of the one being handled nor reaps a child behind a leftover entry with its pid |
| `ProcessExit.Harm` | runtime/bin/process_linux.cc:184-209 | after such a step, the thread breaks the promise to some child by the time it has finished with the one it handles |
| `ProcessExit.RunDelivers` | runtime/bin/process_linux.cc:181-212 | delivery is right in every state of a run, and stays so when the thread finishes, if and only if the run has no such step |
| `ProcessExit.Delivery` | runtime/bin/process_linux.cc:181-212 | then each child gets at most one message, its own status, into its own pipe, and is off the list; nothing is found only for a child killed before the handshake |
| `ProcessExit.ListIsActive` | runtime/bin/process_linux.cc:45-97 | in every run the list is exactly the children added and not removed, and without a misleading step a child is removed only when its own pipe was found for it |
| `ProcessExit.RunPids` | runtime/bin/process_linux.cc:184-209 | every run keeps the pids of unreaped children different, as the system promises |
| `ProcessExit.WhoMisleads` | runtime/bin/process_linux.cc:184-209 | in every run, the first step that misleads the thread reuses the pid of the reaped child it is handling, or reaps a child with the pid of one that was reaped before it was added |
| `ProcessExit.EarlyReuse` | runtime/bin/process_linux.cc:184-209 | a run in which a new child receives the exit of the one being handled |
| `ProcessExit.LeftoverEntry` | runtime/bin/process_linux.cc:50-55 | a run in which a leftover entry receives a later child's exit |
| `ProcessExit.LeftoverInFront` | runtime/bin/process_linux.cc:50-55 | a run after which a listed child is about to be reaped behind a leftover entry added later |
| `ProcessInfoList.ProcessList.AddProcess` | runtime/bin/process_linux.cc:50-55 | adds in front |
| `ProcessInfoList.ProcessList.LookupProcessExitFd` | runtime/bin/process_linux.cc:58-68 | the pipe of the first entry with the pid, or 0 |
| `ProcessInfoList.ProcessList.RemoveProcess` | runtime/bin/process_linux.cc:71-88 | removes the first entry with the pid, and nothing else |
| `Epoll.HandleInv` | runtime/bin/eventhandler_linux.cc:190-224 | a message keeps the invariant, if and only if it does not take the port from a watched descriptor |
| `Epoll.DeliverInv` | runtime/bin/eventhandler_linux.cc:328-344 | a reported event keeps it, and unregisters before it posts |
| `Epoll.RunInv` | runtime/bin/eventhandler_linux.cc:328-346 | so does every run of the poll loop |
| `Epoll.OnePostAtATime` | runtime/bin/eventhandler_linux.cc:57-95 | the kernel watches exactly the tracked descriptors, no epoll_ctl call is refused, posts carry ports, and between two posts for a descriptor a message for it was processed |
| `Epoll.PortsGiven` | runtime/bin/eventhandler_linux.cc:217-221 | registrations that carry ports meet the condition |
| `Epoll.OneOutcome` | runtime/bin/eventhandler_linux.cc:246-325 | data comes before trouble; an error is reported alone; closing is always reported |
| `Epoll.PortDropped` | runtime/bin/eventhandler_linux.cc:217-221 | a registration without a port for a watched descriptor leads to a post to no port |
| `Epoll.HandleCurrent` | runtime/bin/eventhandler_linux.cc:73-95 | a message keeps the kernel watching for what the sockets ask, and the ports in place, if and only if it neither takes the port of a watched descriptor nor leaves one with nothing to ask for |
| `Epoll.RunCurrent` | runtime/bin/eventhandler_linux.cc:328-346 | over every run that keeps the ports, the kernel watches for what the sockets ask in every state, if and only if no message leaves a watched descriptor with nothing to ask for |
| `Epoll.StaleInterest` | runtime/bin/eventhandler_linux.cc:196-201 | a socket that asked only for input, shut down for reading, is still watched for input |
| `EpollHandler.SocketData.GetPollEvents` | runtime/bin/eventhandler_linux.cc:38-53 | asks for what the mask wants and the socket can still do |
| `EpollHandler.EventHandlerImplementation.GetSocketData` | runtime/bin/eventhandler_linux.cc:135-149 | the live object of the descriptor, made if there is none |
| `EpollHandler.EventHandlerImplementation.RemoveFromEpollInstance` | runtime/bin/eventhandler_linux.cc:57-68 | unregisters a tracked descriptor |
| `EpollHandler.EventHandlerImplementation.UpdateEpollInstance` | runtime/bin/eventhandler_linux.cc:73-95 | registers the object itself, if it has a port and asks for events |
| `EpollHandler.EventHandlerImplementation.Close` | runtime/bin/eventhandler_linux.cc:207-216 | unregisters, drops the entry, and leaves no pointer to the object |
| `EpollHandler.EventHandlerImplementation.HandleInterrupt` | runtime/bin/eventhandler_linux.cc:193-222 | one message is one step of the model, and all pointers in the kernel stay live |
| `EpollHandler.EventHandlerImplementation.HandleInterruptFd` | runtime/bin/eventhandler_linux.cc:190-224 | all waiting messages, in order |
| `EpollHandler.EventHandlerImplementation.GetPollEvents` | runtime/bin/eventhandler_linux.cc:246-325 | the events to post and the marks on the socket |
| `EpollHandler.EventHandlerImplementation.HandleEvents` | runtime/bin/eventhandler_linux.cc:328-346 | a turn of the poll loop is a step of the model; no pointer of the batch dangles |

## Left out

- Hash tables with a match function other than pointer equality, 32-bit overflow of the capacity, and allocation failure.
- Per-opcode emitters, `Align`, `EmitComplex` and immediates: they only add constant bytes; an instruction without labels is any sequence of at most 32 bytes.
- Assembler.Assembler.Jmp: more than 20 near jumps pending on one label are excluded, as the original's fixed array demands.
- Assembler.Assembler.Assemble: programs whose code exceeds 0x7FFFFF00 bytes are excluded, so that positions stay signed 32-bit integers.
- The file assembler_x64.cc is not part of this model: x64 covers operand encodings only, without `IsRegister`. ARM is unimplemented in the original.
- JSON escape sequences: the original aborts on them; the model marks the scan as aborted and goes on as for an illegal token.
- The debugger's command handlers, replies, and the early return after a resume command.
- Bigint routines, which are taken as exact, and the bit-wise operators and comparisons of integers.
- Windows: base `Handle` and `FileHandle`, the synchronous read thread, posts to Dart ports, and writes attempted before a socket is attached to the completion port, which change nothing. A Dart program is taken to send one close command and not to use a socket after it.
- WindowsSocket.Serve: a completed read stores at most the 1024 bytes that were asked for, as the system promises.
- WindowsListeners.NextInv: the listener is modelled on values, its list of accepted connections as a sequence, since the theorem is about interleavings of many sockets.
- Monitors: recursive entry, and the mutex and thread classes beside them. Notifiers hold the monitor, as the interface demands.
- DebuggerConnection.HandleMessages: returns where the original spins forever, on a full buffer without a message, and reports that it is stuck.
- Framing.SessionCuts: streams with NULs are excluded, because a pop drops the buffered text behind a NUL, and how much that is depends on how the bytes arrived.
- WindowsMonitor.NextInv: other monitors signal a thread only while it waits there, that is, not between its queueing up here and its taking this monitor again.
- WindowsMonitor.NotMissed: says how many notifications a waiting thread can outlast, not that the scheduler lets a woken thread run.
- Process start: the pipes for standard streams, exec and its error report, and the effect of a descriptor 0 for an exit pipe, which the original takes for "not found".
- The epoll timer and its timeout; macOS, whose kqueue batches can report one descriptor twice.
- File, directory and socket natives, floating point, dates, regular expressions, mirrors and isolates: thin wrappers around the system or the virtual machine.
