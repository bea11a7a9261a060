# Boot firmware, modelled and proved

A Dafny model of the parts of this tree with the most state: the Trusted
Firmware-A boot code under `imx-atf` and the i.MX8 boot image tool under
`imx-mkimage`. `dafny verify dfyconfig.toml` checks all of it.

Code that changes things in place is modelled by classes and array loops
(`BlockIo`, `FdtSw`, `FwuMachine`, `Ehf.Cpu`, `DcdTable`, `ContainerBuild`,
`AuthModule`, `RuntimeSvc`, `Divmod`, `Memmove`). Each of them is proved against
functions on values (`Fwu`, `FdtWriter`, `Dcd`, `Container`, `ChainOfTrust`), and
the lemmas about whole runs are about those functions.

| modules | what they model | main results |
|---|---|---|
| `Fdt`, `FdtWriter`, `FdtSw`, `FdtFinish`, `FdtWalk`, `FdtRoundTrip`, `FdtRoom`, `FdtDriver`, `FdtHeader`, `FdtWild`, `FdtSubnodes`, `FdtTree` | libfdt's sequential writer and its token walker, on bytes laid out as in sections 5.2 to 5.6 of the Devicetree Specification v0.2 | `FdtRoundTrip.RoundTrip`, `FdtRoom.CallsSucceed`, `FdtDriver.WriteAndRead`, `FdtWriter.StepKeepsFits`, `FdtTree.WriterSubnodes` |
| `BlockIo` | byte-granular reads and writes over a block driver that may transfer less than asked | `BlockIo.BlockDevice.Write`, `BlockIo.BlockDevice.Read` |
| `Fwu`, `FwuSafety`, `FwuMachine`, `FwuProgress`, `FwuAsserts`, `FwuSecureAuth` | BL1's firmware update SMCs as a state machine, with the platform's answers as inputs | `FwuSafety.ExecutedImageIsAuthentic`, `FwuMachine.Bl1.Serve`, `FwuSafety.LoadedImagesDisjoint`, `FwuSafety.TableAndProgress`, `FwuProgress.UpdateSucceeds`, `FwuAsserts.OverlapCheckHalts` |
| `Ehf`, `EhfMask` | EL3 exception priorities: a bitmap of active levels and the interrupt priority mask | `Ehf.BitmapIsStack`, `Ehf.MaskWhileActive`, `EhfMask.ActivationUndone`, `Ehf.MaskRestored`, `Ehf.NormalWorldMaskRestored` |
| `Dcd`, `DcdTable`, `DcdFormat` | the DCD table encoder | `Dcd.RoundTrip`, `DcdFormat.CommandsStand`, `DcdFormat.LinesFit`, `DcdTable.Encoder.ParseCfgFile` |
| `Container`, `ContainerPlan`, `ContainerHeader`, `ContainerBuild` | the container layout of i.MX8QM/QXP B0 images | `ContainerBuild.Builder.Build`, `ContainerPlan.AcceptedOptions`, `ContainerHeader.HeaderReadBack`, `ContainerBuild.ImageFound` |
| `ChainOfTrust`, `TrustKeys`, `AuthModule`, `DerInteger` | recursive image authentication and non-volatile counters | `AuthModule.Loader.LoadAuthImage`, `TrustKeys.RootOfTrust`, `ChainOfTrust.AncestorsFlagged`, `ChainOfTrust.CheckedWithAcceptedData`, `DerInteger.CounterRoundTrip` |
| `RuntimeSvc` | the SMC dispatch table | `RuntimeSvc.Services.Handle` |
| `Divmod`, `Memmove` | shift-subtract division; overlapping moves | `Divmod.DivisionQr`, `Memmove.Move` |
| `Bits`, `Bytes`, `Options` | C's bitwise operators and `ALIGN`; byte strings and stored integers; optional values | |

## What the proofs show about the code

Where the code does not do what its comments or callers suggest, the model
follows the code, and the lemma named here gives the failing input or the exact
condition.

- `fdt_create` accepts buffers of 40 to 47 bytes, though the reserve map starts
  at byte 48; the unsigned test of `_fdt_grab_space` then lets every token
  through (`FdtWriter.SmallBufferHasNoTest`). From 48 bytes on it is exact
  (`FdtWriter.GrabIsSpaceTest`).
- `_fdt_find_add_string` subtracts before it compares. Its test is right exactly
  for names that are not longer than the buffer minus the strings already there
  (`FdtWriter.StringRoomTest`); for longer ones (`FdtWild.LongNameGoesWild`) the C
  code writes in front of the buffer, and the model's runs end there (code `Wild`).
- The room test of `fdt_add_reservemap_entry` forgets the strings. An entry that
  it lets through spares them exactly when 16 bytes are free
  (`FdtWild.ReserveSparesStrings`); `FdtWild.ReserveMeetsStrings` is a damaged name.
  This happens only behind a property that found no room
  (`FdtWild.WildReserveFollowsNoRoom`), and runs end there too.
- Both are avoided by lists of calls that write the reserve map before the
  properties and use names shorter than 48 bytes (`FdtWild.TameCallsRun`).
- The bounds check of `fdt_offset_ptr` takes the offset as unsigned
  (`FdtWalk.OffsetPtrUnsigned`). Below 2^31 bytes that refuses negative offsets
  (`FdtWalk.OffsetPtrIsBounds`); a larger blob lets some through
  (`FdtWalk.NegativeOffsetPasses`).
- `fdt_next_tag` advances by at least four bytes exactly unless a property's
  length word is 0xFFFFFFF4 (`FdtWalk.AdvancesUnlessStuck`); `FdtWalk.StuckBlob`
  is a blob on which a walk never ends.
- The comment of `ehf_deactivate_priority` promises the mask of the next level.
  With levels still active the code keeps the mask of the level that was left, so
  that activating the same level again panics; without, all is as before
  (`EhfMask.ActivationUndone`, `EhfMask.Reactivation`, `EhfMask.NestedTwicePanics`).
- The firmware update guarantee needs the rule that the secure world does not
  authenticate secure images. `FwuSecureAuth.SecureAuthEffect` says exactly what
  such a call does: the image can be executed at once, with the accepted bytes if
  and only if its load region held the same bytes as the place that was
  authenticated. `FwuSecureAuth.SecureAuthBreaksTheGuarantee` is a run, every call
  of which comes from the world that runs, in which it even harms an image that
  had been copied and accepted long before.
- The overlap check of IMAGE_COPY asserts that a listed image is loaded and that
  its end lies behind its base. Both fail in runs of the normal world: a copy
  whose pre-load hook fails keeps its slot (`FwuAsserts.LeakedSlotHalts`), and an
  image may have one byte (`FwuAsserts.OneByteImageHalts`).
  `FwuAsserts.OverlapCheckHalts` gives the exact condition for every allowed run.
- Certificates with a counter of 2^31 or more are refused
  (`DerInteger.CounterRoundTrip`), although the code speaks of 32-bit counters.
- A certificate counter without contents octets, which DER does not have, is read
  as 0 (`DerInteger.EmptyContentsRead`).
- A counter may rise for an image that is then refused: its signature and counter
  pass, but a parameter for its children does not fit
  (`AuthModule.RefusedImageRaisesCounter`). It rises exactly if some counter check
  finds a higher value while all checks listed before it pass
  (`AuthModule.Loader.VerifyImg`).
- A DCD line with fewer than three numbers leaves nothing in the finished table
  (`Dcd.RoundTrip` decodes to the complete lines only).
- The limit of 359 DCD entries does not keep the table within its bounds: any 239
  lines fit (`Dcd.FewLinesFit`), 240 checks do not (`DcdFormat.ChecksFit`), and
  `DcdFormat.LinesFit` has the exact condition for complete lines.
- A runtime service with an initialiser and no handler is let through, and calls
  reach it (`RuntimeSvc.NoHandlerReached`).
- A sector size above 0x4000, which the tool itself sets for NAND, makes every
  image copy fail (`ContainerBuild.Builder.Build`).

## Model

| member | source | states |
|---|---|---|
| `FdtWriter.GrabIsSpaceTest` | imx-atf/lib/libfdt/fdt_sw.c:73-86 | while the blocks fit the buffer, the unsigned comparison grants a request if and only if structure, request and strings still fit |
| `FdtWriter.SmallBufferHasNoTest` | imx-atf/lib/libfdt/fdt_sw.c:73-108 | for buffers of 40 to 47 bytes the same comparison grants every request, whatever was written before |
| `FdtWild.ReserveSparesStrings` | imx-atf/lib/libfdt/fdt_sw.c:142-168 | an entry that the room test lets through leaves the strings alone, whatever it holds, if and only if 16 bytes are free |
| `FdtWild.ReserveMeetsStrings` | imx-atf/lib/libfdt/fdt_sw.c:142-168 | two calls on a buffer of 64 bytes after which an entry changes a name |
| `FdtWild.WildReserveFollowsNoRoom` | imx-atf/lib/libfdt/fdt_sw.c:142-243 | in every run, an entry that reaches into the strings comes behind a property that found no room |
| `FdtWild.LongNameGoesWild` | imx-atf/lib/libfdt/fdt_sw.c:200-221 | a name of 64 bytes that the room test of a buffer of 64 bytes lets through |
| `FdtWild.TameCallsRun` | imx-atf/lib/libfdt/fdt_sw.c:88-243 | every list of calls with the reserve map before the properties and names shorter than 48 bytes is a run: no call leaves its place |
| `FdtWriter.StringRoomTest` | imx-atf/lib/libfdt/fdt_sw.c:200-221 | the string room test is right if and only if the new string does not reach in front of the buffer |
| `FdtWriter.FindStringFirst` | imx-atf/lib/libfdt/fdt.c:230-240 | the search finds the first occurrence of the NUL-terminated name, and reports none only if there is none |
| `FdtWriter.StepKeepsFits` | imx-atf/lib/libfdt/fdt_sw.c:73-243 | space invariant over every call: the blocks never meet, tokens, entries and strings already written stay, a failing call adds no token and no entry |
| `FdtRoom.CallSucceeds` | imx-atf/lib/libfdt/fdt_sw.c:142-243 | a call succeeds if and only if the bytes it adds, with the name of a property unless that occurs already, fit the free space, and for a reserve entry no token was written; it takes just that space |
| `FdtRoom.CallsSucceed` | imx-atf/lib/libfdt/fdt_sw.c:88-243 | all calls of a list succeed on an empty buffer if and only if the reserve entries come first and 48 bytes, the sizes and each name once are not more than the buffer |
| `FdtWriter.AppendLayout` | imx-atf/lib/libfdt/fdt_sw.c:170-243 | writing a token's bytes at the grabbed place and the new size into the header gives exactly the layout with that token appended |
| `FdtWriter.StringLayout` | imx-atf/lib/libfdt/fdt_sw.c:200-221 | copying a string below the others and updating its size field gives exactly the layout with that string in front |
| `FdtWriter.ReserveLayout` | imx-atf/lib/libfdt/fdt_sw.c:142-168 | storing an entry and moving the structure offset gives exactly the layout with that entry appended |
| `FdtSw.SwBlob.Create` | imx-atf/lib/libfdt/fdt_sw.c:88-108 | fewer than 40 bytes are refused; otherwise the buffer holds the header of an empty tree and zeros, which from 48 bytes on is the empty layout |
| `FdtSw.SwBlob.GrabSpace` | imx-atf/lib/libfdt/fdt_sw.c:73-86 | grants exactly the requests that fit, at the end of the structure block, and adds to its size |
| `FdtSw.SwBlob.AddReservemapEntry` | imx-atf/lib/libfdt/fdt_sw.c:142-168 | the buffer goes from the layout of one writer state to that of the next, with the code the specification gives; where the entry reaches into the strings, the bytes are still stated |
| `FdtSw.SwBlob.BeginNode` | imx-atf/lib/libfdt/fdt_sw.c:170-184 | same, for a node with its padded name |
| `FdtSw.SwBlob.EndNode` | imx-atf/lib/libfdt/fdt_sw.c:186-198 | same, for the end of a node |
| `FdtSw.SwBlob.FindAdd` | imx-atf/lib/libfdt/fdt_sw.c:200-221 | finds the name among the strings or adds it; the offset counts back from the end of the buffer |
| `FdtSw.SwBlob.SetProperty` | imx-atf/lib/libfdt/fdt_sw.c:223-243 | same as the other calls, for a property; a failure after the string was added keeps the string |
| `FdtSw.SwBlob.FixNames` | imx-atf/lib/libfdt/fdt_sw.c:267-279 | walking the tokens turns every property's name offset, and nothing else, into one from the start of the strings |
| `FdtSw.SwBlob.Relocate` | imx-atf/lib/libfdt/fdt_sw.c:261-265 | the memmove of the strings down to the end of the structure block leaves that block alone |
| `FdtSw.SwBlob.Finish` | imx-atf/lib/libfdt/fdt_sw.c:245-288 | succeeds exactly when four bytes are left, and then the buffer starts with the finished blob of the writer's state |
| `FdtFinish.FixOne` | imx-atf/lib/libfdt/fdt_sw.c:267-279 | patching one name offset in place is encoding the list with that one token fixed |
| `FdtFinish.MoveStrings` | imx-atf/lib/libfdt/fdt_sw.c:261-265 | moving the strings down over the gap leaves everything in front of them alone |
| `FdtFinish.StagedStep` | imx-atf/lib/libfdt/fdt_sw.c:267-279 | at every stage of the fixing loop the walker still finds the next token and its name offset |
| `FdtWalk.OffsetPtrUnsigned` | imx-atf/lib/libfdt/fdt.c:77-92 | for every header, the wrapping comparisons accept exactly the ranges inside the blob and, from version 17 on, the structure block, with the offset taken as unsigned |
| `FdtWalk.NegativeOffsetPasses` | imx-atf/lib/libfdt/fdt.c:77-92 | a header of more than 2^31 bytes and a negative offset that is accepted |
| `FdtWalk.OffsetPtrIsBounds` | imx-atf/lib/libfdt/fdt.c:77-92 | for every blob below 2^31 bytes, a plain bounds check: no negative offset, and nothing behind the blob or the structure block |
| `FdtWalk.AdvancesUnlessStuck` | imx-atf/lib/libfdt/fdt.c:94-142 | a token step advances by at least four bytes unless, and only unless, it is a property with length word 0xFFFFFFF4 |
| `FdtWalk.StuckBlob` | imx-atf/lib/libfdt/fdt.c:94-142 | a concrete blob with a consistent header on which the step returns its own offset |
| `FdtWalk.FdtNextTag` | imx-atf/lib/libfdt/fdt.c:94-142 | on every blob below 2^31 bytes, the loop over name bytes and the length arithmetic compute the specified tag and next offset, errors included |
| `FdtWalk.TokenAccepted` | imx-atf/lib/libfdt/fdt.c:94-142 | for any bytes below 2^31: which tokens are accepted, NOP among them, and which of the two errors the others give |
| `FdtWalk.NextTagAt` | imx-atf/lib/libfdt/fdt.c:94-142 | at the offset of an encoded token the step returns its tag and the offset of the following one |
| `FdtRoundTrip.RunKeepsInv` | imx-atf/lib/libfdt/fdt_sw.c:142-243 | after every run of calls the tokens and strings stand for exactly the calls that succeeded |
| `FdtRoundTrip.WalkFinal` | imx-atf/lib/libfdt/fdt_sw.c:245-288 | walking any buffer that starts with the finished blob, from offset 0, reads the calls its tokens stand for, with every name found through its patched offset |
| `FdtRoundTrip.RoundTrip` | imx-atf/lib/libfdt/fdt_sw.c:88-288 | for every run of calls with room for the terminator, the walk yields exactly the successful structure calls in order, names and values included, and the reserve map lists the successful entries |
| `FdtDriver.WriteTree` | imx-atf/lib/libfdt/fdt_sw.c:88-288 | making the calls on a buffer and finishing succeeds exactly when no call goes wild and four bytes are left, and the buffer then starts with the finished blob |
| `FdtDriver.WriteAndRead` | imx-atf/lib/libfdt/fdt_sw.c:88-288 | on one buffer: create, any calls, finish and a walk with `fdt_next_tag` return exactly the structure calls that succeeded, and all structure calls of a list that fits the buffer |
| `FdtRoundTrip.ReserveEntryAt` | imx-atf/lib/libfdt/fdt_sw.c:142-168 | reserve entry k stands at byte 48 + 16k of the finished blob |
| `FdtHeader.FinalHeader` | imx-atf/lib/libfdt/fdt.c:58-75 | the finished blob passes the header check, and its header places reserve map, structure block and strings one behind the other up to its size |
| `FdtHeader.UnfinishedHeader` | imx-atf/lib/libfdt/fdt.c:58-75 | a blob still being written is refused by the check exactly as long as it has no token |
| `FdtHeader.ReserveReadBack` | imx-atf/lib/libfdt/fdt_ro.c:117-123 | reserve entry k is read back through the offset in the header |
| `FdtHeader.ReservesCounted` | imx-atf/lib/libfdt/fdt_ro.c:125-132 | a map that ends with its only entry of size 0 is counted right |
| `FdtHeader.FdtNumMemRsv` | imx-atf/lib/libfdt/fdt_ro.c:125-132 | the loop finds the first entry of size 0 |
| `FdtSubnodes.CheckNodeOffset` | imx-atf/lib/libfdt/fdt.c:144-151 | on every blob below 2^31 bytes and for any offset, returns where the walker goes from an aligned node start, and an error for every other offset |
| `FdtSubnodes.NodeAccepted` | imx-atf/lib/libfdt/fdt.c:144-151 | on any bytes below 2^31: the check accepts exactly the aligned offsets of a begin word with a name that ends in the block |
| `FdtSubnodes.NodeEndAt` | imx-atf/lib/libfdt/fdt.c:144-151 | among token offsets it accepts exactly the starts of nodes and returns the offset behind the name |
| `FdtSubnodes.FdtNextNode` | imx-atf/lib/libfdt/fdt.c:162-200 | finds the next node start and the depth there, or the end, as the token list says; from the first token for a negative offset; an error for an offset that is refused |
| `FdtSubnodes.FdtFirstSubnode` | imx-atf/lib/libfdt/fdt.c:202-211 | returns the first node one level down, or not found, also for an offset that is refused |
| `FdtSubnodes.FdtNextSubnode` | imx-atf/lib/libfdt/fdt.c:213-228 | returns the next node at the same level, or not found, also for an offset that is refused |
| `FdtSubnodes.ScanOver` | imx-atf/lib/libfdt/fdt.c:213-228 | whole subtrees are passed over without stopping at deeper nodes |
| `FdtSubnodes.ChildrenChain` | imx-atf/lib/libfdt/fdt.c:202-228 | for a node that stands as a whole tree, first and next lead through its direct children in order and then to none |
| `FdtSubnodes.NodeStands` | imx-atf/lib/libfdt/fdt.c:162-200 | in balanced tokens every node start begins a whole tree |
| `FdtTree.WriterNodeStands` | imx-atf/lib/libfdt/fdt_sw.c:170-198 | after balanced begin and end calls every node of the finished blob is such a tree |
| `FdtSubnodes.Subnodes` | imx-atf/lib/libfdt/fdt.c:202-228 | first subnode, then next subnode until not found, returns exactly the offsets of the children of the tree that stands there, in order |
| `FdtTree.ChildrenByCalls` | imx-atf/lib/libfdt/fdt_sw.c:170-198 | the children of that tree are the nodes begun one level deeper while the node is open |
| `FdtTree.WriterSubnodes` | imx-atf/lib/libfdt/fdt.c:202-228 | for every run whose successful calls balance and every node it begins, the two calls on the finished buffer return exactly the offsets of the direct children, in order |
| `BlockIo.BlockOf` | imx-atf/drivers/io/io_block.c:240-343 | with an aligned base, the block number and the masked position locate the current byte |
| `BlockIo.RequestFits` | imx-atf/drivers/io/io_block.c:240-343 | every request is a multiple of the block size, fits the bounce buffer and reaches beyond the skipped bytes |
| `BlockIo.BlockDevice.Open` | imx-atf/drivers/io/io_block.c:123-144 | the region is set and the position is 0 |
| `BlockIo.BlockDevice.Read` | imx-atf/drivers/io/io_block.c:240-343 | for any short driver reads: the bytes delivered are the device's bytes from the old position on, success means all of them, the position advances by as many, the rest of the user buffer is untouched; it fails only if some driver call moved less than one block |
| `BlockIo.BlockDevice.ReadBlocks` | imx-atf/drivers/io/io_block.c:240-343 | one iteration delivers a stretch of device bytes, or none |
| `BlockIo.BlockDevice.Write` | imx-atf/drivers/io/io_block.c:351-486 | for any short driver reads and writes: the device is the old one with the first bytes of user data in place, success means all of them, and no byte outside changes on success or failure; it fails only if some driver call moved less than one block |
| `BlockIo.BlockDevice.WriteBlocks` | imx-atf/drivers/io/io_block.c:351-486 | one iteration writes a stretch of user bytes and restores every other byte of the blocks it touches |
| `BlockIo.BlockDevice.Stage` | imx-atf/drivers/io/io_block.c:351-486 | before the write, the bounce buffer holds the device's own bytes except where user bytes go |
| `FwuMachine.Bl1.AddLoadedId` | imx-atf/bl1/bl1_fwu.c:118-137 | the id takes the first free slot unless it is listed; full if and only if neither exists |
| `FwuMachine.Bl1.RemoveLoadedId` | imx-atf/bl1/bl1_fwu.c:143-156 | the first slot with the id is freed; missing if and only if there is none |
| `FwuMachine.Bl1.ImageCheckOverlaps` | imx-atf/bl1/bl1_fwu.c:162-217 | the loop gives the specified verdict, failed assertions included |
| `FwuMachine.Bl1.ImageCopy` | imx-atf/bl1/bl1_fwu.c:222-359 | code, new state or halt are those of the specified step |
| `FwuMachine.Bl1.ImageCopyBlock` | imx-atf/bl1/bl1_fwu.c:318-359 | its second half: the block is clipped to what remains, and the phase follows from what is then copied |
| `FwuMachine.CopyInArray` | imx-atf/bl1/bl1_fwu.c:348-355 | what a copy puts into memory is what memcpy leaves in an array, for every overlap |
| `FwuMachine.Bl1.ImageAuth` | imx-atf/bl1/bl1_fwu.c:364-494 | same, for authentication of a copied image or of one in place |
| `FwuMachine.Bl1.ImageExecute` | imx-atf/bl1/bl1_fwu.c:499-542 | same, for execution |
| `FwuMachine.Bl1.ImageResume` | imx-atf/bl1/bl1_fwu.c:548-610 | same, for switching between the worlds |
| `FwuMachine.Bl1.SecImageDone` | imx-atf/bl1/bl1_fwu.c:615-667 | same, for the end of a secure image |
| `FwuMachine.Bl1.ImageReset` | imx-atf/bl1/bl1_fwu.c:688-740 | same, for reset, with the copied memory zeroed |
| `FwuMachine.Bl1.Serve` | imx-atf/bl1/bl1_fwu.c:222-740 | serving a list of SMCs is the specified run, and after every allowed one from boot each executing secure image has in memory its copied blocks, which are the bytes accepted for it |
| `FwuSafety.ClearMeansSeparate` | imx-atf/bl1/bl1_fwu.c:162-217 | a clear overlap check separates the image from every loaded image in the table |
| `FwuSafety.StepKeepsInv` | imx-atf/bl1/bl1_fwu.c:222-740 | every allowed step keeps table, progress, disjointness and the agreement of memory with copied and accepted bytes |
| `FwuSafety.ExecutedImageIsAuthentic` | imx-atf/bl1/bl1_fwu.c:222-542 | in every allowed run, an image started by IMAGE_EXECUTE has in memory exactly its copied blocks, and these are the bytes last accepted for it |
| `FwuSafety.LoadedImagesDisjoint` | imx-atf/bl1/bl1_fwu.c:162-316 | in every allowed run, two copied images not in RESET share no address |
| `FwuSafety.TableAndProgress` | imx-atf/bl1/bl1_fwu.c:118-355 | in every allowed run, images under way are in the table exactly once, COPYING means partly copied, later phases wholly copied, never beyond the maximum |
| `FwuSafety.LookupsSucceed` | imx-atf/bl1/bl1_fwu.c:615-740 | in every allowed run, the id lookups of reset and image-done succeed, and image-done halts exactly when no secure image runs |
| `FwuProgress.CopySucceeds` | imx-atf/bl1/bl1_fwu.c:222-359 | in every reached state, a copy succeeds if and only if caller, range, mapping, slot, hook, size and the listed images allow it, and it then advances by its block, clipped to the image |
| `FwuProgress.RefusedCopyHarmless` | imx-atf/bl1/bl1_fwu.c:222-346 | a refused copy moves no byte and no phase, and a slot is taken only where the pre-load hook then fails |
| `FwuProgress.RefusedCopySizes` | imx-atf/bl1/bl1_fwu.c:270-316 | a refused copy leaves a fresh image the size asked for, or 0 if a listed image was in the way |
| `FwuProgress.AuthAnswers` | imx-atf/bl1/bl1_fwu.c:364-494 | in every reached state: the answer to IMAGE_AUTH from phase, caller's world, range, slot and verdict |
| `FwuProgress.AuthAccepts` | imx-atf/bl1/bl1_fwu.c:452-494 | an accepted image is authenticated, listed and flagged, and memory stays |
| `FwuProgress.AuthRefuses` | imx-atf/bl1/bl1_fwu.c:452-476 | a refused image is in RESET and off the table, and its copied bytes are zero |
| `FwuProgress.ExecuteAnswers` | imx-atf/bl1/bl1_fwu.c:499-542 | exactly the authenticated secure executable images are started, and only by the normal world |
| `FwuProgress.ResumeUndone` | imx-atf/bl1/bl1_fwu.c:548-610 | each direction of IMAGE_RESUME is possible exactly for an image that runs, or that waits, and gives back the state before the other |
| `FwuProgress.ResumedCanFinish` | imx-atf/bl1/bl1_fwu.c:548-667 | in every reached state, an image that was interrupted and resumed runs and can be finished |
| `FwuProgress.DoneAnswers` | imx-atf/bl1/bl1_fwu.c:615-667 | SEC_IMAGE_DONE ends exactly the running image, which is then in RESET and off the table |
| `FwuProgress.ResetAnswers` | imx-atf/bl1/bl1_fwu.c:688-740 | every image that is not executing can be reset, and is then as if it had never been loaded, its copied bytes zero |
| `FwuProgress.BlocksAddUp` | imx-atf/bl1/bl1_fwu.c:256-355 | once the first block is copied, the rest of an image may come in blocks of any sizes |
| `FwuProgress.UpdateSucceeds` | imx-atf/bl1/bl1_fwu.c:222-667 | from every reached state, an update that keeps to the protocol succeeds in all its calls, and leaves the executing id and the table without the image |
| `FwuAsserts.OverlapCheckHalts` | imx-atf/bl1/bl1_fwu.c:162-217 | in every allowed run, an assertion of the overlap check fails exactly when the check comes to another listed image that is in RESET, has one byte or wraps; BL1 then halts; a listed id always has a descriptor |
| `FwuAsserts.LeakedSlotHalts` | imx-atf/bl1/bl1_fwu.c:334-346 | from boot, a copy refused by the pre-load hook and a copy of another image halt BL1 |
| `FwuAsserts.OneByteImageHalts` | imx-atf/bl1/bl1_fwu.c:192-203 | from boot, a copy of a one-byte image and a copy of another image halt BL1 |
| `FwuSecureAuth.SecureAuthEffect` | imx-atf/bl1/bl1_fwu.c:364-542 | a secure image that the secure world authenticates in place can be executed, with the accepted bytes if and only if its load region held the bytes at the authenticated place |
| `FwuSecureAuth.SecureAuthBreaksTheGuarantee` | imx-atf/bl1/bl1_fwu.c:364-494 | a run of calls each from the world that runs, with one such IMAGE_AUTH, after which another image is executed with bytes other than the accepted ones |
| `Ehf.ClearLowest` | imx-atf/bl31/ehf.c:79-217 | `x & (x - 1)` removes exactly the lowest set bit, which is what counting trailing zeros returns |
| `Ehf.SetBelow` | imx-atf/bl31/ehf.c:98-153 | setting a bit below all set bits makes it the lowest one and keeps the others |
| `Ehf.BitmapIsStack` | imx-atf/bl31/ehf.c:79-217 | in every run without panic, the bitmap is exactly the stack of levels activated and not deactivated, strictly ordered, with the latest as its lowest bit |
| `Ehf.MaskRestored` | imx-atf/bl31/ehf.c:98-217 | in every run without panic, from an activation with no level active to the next moment when none is, whatever is called in between, the mask is again what it was just before that activation |
| `Ehf.NormalWorldMaskRestored` | imx-atf/bl31/ehf.c:230-358 | leaving the normal world, any calls, and returning with no level active restores the mask, with or without preemption allowed |
| `Ehf.ActivationMasks` | imx-atf/bl31/ehf.c:98-153 | in every run, an activation programs the mask to its priority, below the mask before |
| `Ehf.MaskWhileActive` | imx-atf/bl31/ehf.c:98-358 | in every run, while levels are active the mask is the priority of the last activation or deactivation |
| `EhfMask.LevelOfPriority` | imx-atf/include/bl31/ehf.h:22-24 | a level is a stretch of neighbouring priorities, counted by the platform's priority bits |
| `EhfMask.ActivationAllowed` | imx-atf/bl31/ehf.c:98-153 | an activation goes through if and only if its level is registered and lies above the running priority, every active level and the mask |
| `EhfMask.DeactivationAllowed` | imx-atf/bl31/ehf.c:165-217 | a deactivation goes through if and only if it names the highest active level, with a mask not below it |
| `EhfMask.ActivationUndone` | imx-atf/bl31/ehf.c:98-217 | an activation can always be undone, which gives back the levels, and the mask if and only if no level was active before |
| `EhfMask.Reactivation` | imx-atf/bl31/ehf.c:98-217 | activating the same level again then succeeds if and only if no level was active before |
| `EhfMask.NestedTwicePanics` | imx-atf/bl31/ehf.c:98-217 | four calls with matching deactivations of which the last panics |
| `EhfMask.LeavingMasks` | imx-atf/bl31/ehf.c:230-260 | leaving the normal world stashes its mask and masks it, and panics exactly for a second stash or a secure mask |
| `EhfMask.ReturningRestores` | imx-atf/bl31/ehf.c:273-358 | returning, or allowing preemption, puts the stashed mask in force and drops it; which states make either panic |
| `EhfMask.CrossingsSucceed` | imx-atf/bl31/ehf.c:230-358 | from leaving the normal world on, whatever is called, returning never panics, and preemption can be allowed once, with no level active, which puts the normal world's mask in force |
| `Ehf.Cpu.ActivatePriority` | imx-atf/bl31/ehf.c:98-153 | the per-CPU data changes by the specified step; panic where the specification has none |
| `Ehf.Cpu.DeactivatePriority` | imx-atf/bl31/ehf.c:165-217 | same, for deactivation |
| `Ehf.Cpu.ExitedNormalWorld` | imx-atf/bl31/ehf.c:230-260 | same, for leaving the normal world |
| `Ehf.Cpu.EnteringNormalWorld` | imx-atf/bl31/ehf.c:273-312 | same, for returning to it |
| `Ehf.Cpu.AllowNsPreemption` | imx-atf/bl31/ehf.c:325-358 | same, for allowing preemption |
| `Ehf.Cpu.Serve` | imx-atf/bl31/ehf.c:98-358 | any list of calls is the specified run; the bitmap is then the stack of active levels, and after the last deactivation the mask register is what it was |
| `Dcd.RoundTrip` | imx-mkimage/src/mkimage_imx8.c:216-441 | for every list of lines that stays inside the table, decoding the finished table gives exactly the complete (command, address, value) lines in order |
| `Dcd.TableDecodes` | imx-mkimage/src/mkimage_imx8.c:322-340 | the first `header.length` bytes of a finished table decode to what its groups list |
| `Dcd.LinesCoalesce` | imx-mkimage/src/mkimage_imx8.c:216-296 | for complete lines, neighbouring writes of one kind share a header and every check has its own |
| `Dcd.EndIsLength` | imx-mkimage/src/mkimage_imx8.c:298-340 | the bytes of the groups end at 4 plus the sum of 4 + 8k over commands with k entries |
| `Dcd.FewLinesFit` | imx-mkimage/src/mkimage_imx8.c:391-441 | any 239 lines stay inside the table |
| `DcdFormat.CommandsStand` | imx-mkimage/src/mkimage_imx8.c:216-340 | every byte of a finished table: header with tag 0xD2 and version 0x43, and each command with tag, length, parameter and entries where those before it end |
| `DcdFormat.LinesFit` | imx-mkimage/src/mkimage_imx8.c:216-441 | complete lines are accepted if and only if their table has at most 2880 bytes and they are at most 359 |
| `DcdFormat.ChecksFit` | imx-mkimage/src/mkimage_imx8.c:424-432 | a list of complete checks stays inside if and only if it has at most 239, although the limit is 359 entries |
| `DcdTable.ReuseTest` | imx-mkimage/src/mkimage_imx8.c:216-296 | the test on the stored tag and parameter bytes is true exactly when the last group is of this write command |
| `DcdTable.GroupsAreFlat` | imx-mkimage/src/mkimage_imx8.c:216-340 | headers and entries written one by one are the encoding of the list of groups |
| `DcdTable.Encoder.SetDcdParam` | imx-mkimage/src/mkimage_imx8.c:216-296 | the table holds the groups of the specification afterwards, and is unchanged if they are |
| `DcdTable.Encoder.SetAddress` | imx-mkimage/src/mkimage_imx8.c:298-320 | the address waits behind the last entry, and the groups still stand |
| `DcdTable.Encoder.SetValue` | imx-mkimage/src/mkimage_imx8.c:298-320 | the last group has one more entry: the waiting address and this value |
| `DcdTable.Encoder.AddValue` | imx-mkimage/src/mkimage_imx8.c:407-437 | the same, counted against the limit of 359 entries |
| `DcdTable.Encoder.ParseCfgFld` | imx-mkimage/src/mkimage_imx8.c:391-441 | one number of a line makes the progress the specification of the line asks for, or the line fails |
| `DcdTable.Encoder.ParseLine` | imx-mkimage/src/mkimage_imx8.c:466-488 | a line succeeds exactly when the specification does, with the same groups and count |
| `DcdTable.Encoder.SetDcdRst` | imx-mkimage/src/mkimage_imx8.c:322-340 | the table starts with the encoding of the groups that have entries, length field included |
| `DcdTable.Encoder.ParseCfgFile` | imx-mkimage/src/mkimage_imx8.c:443-492 | the file is accepted exactly when its lines fit, and the table then decodes to its complete lines |
| `Container.LayoutSound` | imx-mkimage/src/imx8qxb0.c:585-671 | for every accepted option list, images lie behind byte 0x2000 in order without overlap, and every entry tells the place and size of its image |
| `Container.EveryImageListed` | imx-mkimage/src/imx8qxb0.c:383-491 | every image has an entry with its reserved size |
| `Container.SpanCovers` | imx-mkimage/src/imx8qxb0.c:599-641 | the span reserved for an image covers its file and less than one sector more: the file itself for SECO, whole sectors for the others |
| `ContainerPlan.AcceptedOptions` | imx-mkimage/src/imx8qxb0.c:585-671 | a list is accepted if and only if each option can follow those before it, by containers begun, entries counted, and sizes and file offsets added up |
| `ContainerPlan.EntriesByCount` | imx-mkimage/src/imx8qxb0.c:383-671 | each image stands where sizes and file offsets before it say, with its entry, and a DCD entry for SCFW, at the place counted in its container |
| `ContainerHeader.PaddedHeader` | imx-mkimage/src/imx8qxb0.c:262-322 | a header of at most six entries fills exactly 0x400 bytes |
| `ContainerHeader.ContainerAt` | imx-mkimage/src/imx8qxb0.c:293-319 | container c stands at byte 0x400 c of the flattened headers |
| `ContainerHeader.EntryReadBack` | imx-mkimage/src/imx8qxb0.c:293-319 | the offset stored in an entry plus its container's position is the image's place, read back from the file's bytes, as are its size and the bytes behind |
| `ContainerHeader.HeaderReadBack` | imx-mkimage/src/imx8qxb0.c:262-322 | from any file that starts with the headers: every header field as given, the signature block behind the last entry where the offset says, the length at its end, and zeros up to the next container |
| `ContainerBuild.CopyKeeps` | imx-mkimage/src/imx8qxb0.c:133-198 | copying the next image puts it in place and keeps headers and earlier images, though its padding may spill over later spans |
| `ContainerBuild.Builder.SetImageArrayEntry` | imx-mkimage/src/imx8qxb0.c:383-491 | one entry is added, and a DCD entry of size 0 at the same place for SCFW; refused exactly past six entries |
| `ContainerBuild.Builder.PlaceOption` | imx-mkimage/src/imx8qxb0.c:585-671 | one turn of the loop is the specified placement, or fails where it does |
| `ContainerBuild.Builder.Flatten` | imx-mkimage/src/imx8qxb0.c:262-322 | the buffer filled through the moving pointer is exactly the concatenated headers with adjusted offsets |
| `ContainerBuild.Builder.CopyFileAligned` | imx-mkimage/src/imx8qxb0.c:133-198 | the two writes put the file and zeros up to the next sector at the offset; refused exactly for sectors above 0x4000 |
| `ContainerBuild.Builder.Build` | imx-mkimage/src/imx8qxb0.c:548-721 | succeeds exactly when the options can follow each other and the sector is allowed, and the file then has the headers in front and every image, padded with zeros to its entry's size, at its place |
| `ContainerBuild.ImageFound` | imx-mkimage/src/imx8qxb0.c:262-721 | a reader who follows any entry of a finished file finds the image it was made for |
| `DerInteger.ReadCounter` | imx-atf/drivers/auth/auth_mod.c:243-268 | the reading loop computes the specified value and refuses what the specification refuses |
| `DerInteger.CounterRoundTrip` | imx-atf/drivers/auth/auth_mod.c:243-268 | a value is read back from its encoding (section 8.3 of ITU-T X.690) if and only if it is below 2^31 |
| `DerInteger.EmptyContentsRead` | imx-atf/drivers/auth/auth_mod.c:243-268 | an integer without contents octets is read as 0 |
| `ChainOfTrust.AncestorsFlagged` | imx-atf/drivers/auth/auth_mod.c:298-415 | flags are closed under parent: all ancestors of a flagged image are flagged |
| `ChainOfTrust.BuffersFromAccepted` | imx-atf/drivers/auth/auth_mod.c:389-409 | a parameter buffer starts with the parameter of the last accepted image of its own descriptor that filled it, and is untouched before there is one |
| `ChainOfTrust.CheckedWithAcceptedData` | imx-atf/drivers/auth/auth_mod.c:44-64 | in every history, whatever an accepted image was checked with had been taken from an accepted image of its parent |
| `ChainOfTrust.CopiedSlot` | imx-atf/drivers/auth/auth_mod.c:389-409 | after the copy each buffer whose parameter was extracted starts with it |
| `ChainOfTrust.ClaimsAccepted` | imx-atf/drivers/auth/auth_mod.c:270-281 | one more accepted image keeps counters at or above all accepted values and keeps acceptance free of rollback |
| `TrustKeys.RootSignature` | imx-atf/drivers/auth/auth_mod.c:158-219 | without a parent, the signature check passes if and only if the root key vouches for the image: by verifying its signature, or as the hash of a key from the image that does; a key not deployed takes any key of the image |
| `TrustKeys.ChildSignature` | imx-atf/drivers/auth/auth_mod.c:158-219 | with a parent, it passes if and only if the signature verifies under what the parent's first buffer for the key holds |
| `TrustKeys.ChildHash` | imx-atf/drivers/auth/auth_mod.c:90-117 | the hash check passes if and only if the image's data matches what the parent's first buffer for the hash holds |
| `TrustKeys.OtherChecks` | imx-atf/drivers/auth/auth_mod.c:361-387 | no method passes, an unknown one does not, and neither does a hash without a parent |
| `TrustKeys.ExtractsIfItFits` | imx-atf/drivers/auth/auth_mod.c:389-409 | a parameter can be taken if and only if some contents of its buffer start with it |
| `TrustKeys.RootOfTrust` | imx-atf/drivers/auth/auth_mod.c:44-415 | in every history, every check of every accepted image rests on the platform's root key, directly or through accepted images of all its ancestors |
| `TrustKeys.AcceptedUnderRootHash` | imx-atf/drivers/auth/auth_mod.c:158-219 | where the platform holds the hash of a deployed key, an accepted image without a parent carries a key with this hash that verifies its signature |
| `AuthModule.Loader.AuthGetParam` | imx-atf/drivers/auth/auth_mod.c:48-64 | the loop finds the first buffer for the parameter |
| `AuthModule.Loader.AuthHash` | imx-atf/drivers/auth/auth_mod.c:90-117 | the steps of the hash check give the specified verdict |
| `AuthModule.Loader.AuthSignature` | imx-atf/drivers/auth/auth_mod.c:145-222 | the steps of the signature check give the specified verdict, with the key from the parent, the platform or the image |
| `AuthModule.Loader.GetParentId` | imx-atf/drivers/auth/auth_mod.c:298-321 | a parent is returned exactly when there is one that is not flagged |
| `AuthModule.Loader.AuthNvctr` | imx-atf/drivers/auth/auth_mod.c:227-284 | success means the certificate's value was not below the counter and is the counter now; other counters stay; failure changes nothing |
| `AuthModule.Loader.RunChecks` | imx-atf/drivers/auth/auth_mod.c:361-387 | success means every check passed; a refusal has a failed check or a counter that is too old; a counter rises exactly if a counter check finds a higher value while all checks before it pass; all but a failing platform |
| `AuthModule.Loader.CopyParams` | imx-atf/drivers/auth/auth_mod.c:389-409 | parameters are copied up to the first that is missing or too long |
| `AuthModule.Loader.VerifyImg` | imx-atf/drivers/auth/auth_mod.c:343-415 | the history of accepted images stays sound; success flags the image, and all its checks passed and all its parameters were taken; a refusal has a reason and flags nothing; counters rise under exactly the condition of the checks |
| `AuthModule.Loader.TakeParams` | imx-atf/drivers/auth/auth_mod.c:389-412 | the image is flagged if and only if every parameter can be taken from it |
| `AuthModule.RefusedImageRaisesCounter` | imx-atf/drivers/auth/auth_mod.c:227-409 | an image with its signature before its counter that is refused over a parameter and yet raises the counter |
| `AuthModule.Loader.VerifyOrWipe` | imx-atf/common/bl_common.c:254-269 | an accepted image stays in memory as it was loaded; a refused one is zeroed, and there was a reason to refuse it |
| `AuthModule.Loader.LoadInternal` | imx-atf/common/bl_common.c:227-284 | the recursion ends and no counter falls; success flags the image and all its ancestors and leaves in memory the content that was accepted; other results have a failed load, or a load refused with reason as the image or an ancestor |
| `AuthModule.Loader.LoadAuthImage` | imx-atf/common/bl_common.c:293-302 | the same for the last boot source that was tried; without success all of them were |
| `AuthModule.Loader.LoadAll` | imx-atf/common/bl_common.c:293-302 | over any sequence of loads the history stays sound, no counter falls, every image that was loaded has itself and all its ancestors flagged, and every image that was accepted rests on the platform's root key |
| `RuntimeSvc.UniqueOenValue` | imx-atf/include/common/runtime_svc.h:154-157 | the masks, shift and or give owning entity plus 64 times call type |
| `RuntimeSvc.FidIndex` | imx-atf/include/common/runtime_svc.h:154-166 | a function id's table index is made of its bits 29 to 24 and bit 31 |
| `RuntimeSvc.RangeCovers` | imx-atf/common/runtime_svc.c:144-165 | a valid descriptor's index range contains an id's index exactly when type and entity range match |
| `RuntimeSvc.ValidMeansSound` | imx-atf/common/runtime_svc.c:58-84 | exactly those descriptors are let through that have a function and all of whose entities some id can name |
| `RuntimeSvc.NoHandlerReached` | imx-atf/common/runtime_svc.c:32-84 | a descriptor without a handler that is let through and chosen for a given id |
| `RuntimeSvc.Services.Init` | imx-atf/common/runtime_svc.c:96-167 | panics exactly on an invalid descriptor; else the table agrees with a search of the descriptors for every id |
| `RuntimeSvc.Services.Handle` | imx-atf/common/runtime_svc.c:32-56 | the chosen descriptor is the last initialised one that matches the id; unknown exactly when none does |
| `Divmod.DivisionQr` | imx-atf/lib/aarch32/arm32_aeabi_divmod.c:61-86 | n = q p + r with r < p for every nonzero p; remainder 0xFFFFFFFF and untouched quotient for zero |
| `Divmod.UintDivQr` | imx-atf/lib/aarch32/arm32_aeabi_divmod.c:88-98 | the same quotient and remainder, negated as asked |
| `Divmod.Uidivmod` | imx-atf/lib/aarch32/arm32_aeabi_divmod.c:100-125 | quotient and remainder of the integers |
| `Divmod.Idivmod` | imx-atf/lib/aarch32/arm32_aeabi_divmod.c:127-203 | the quotient is cut toward zero and the remainder has the numerator's sign |
| `Divmod.TruncationUnique` | imx-atf/lib/aarch32/arm32_aeabi_divmod.c:184-203 | only one pair does so: the quotient of the magnitudes under the right sign, and its remainder |
| `Memmove.DirectionTest` | imx-atf/lib/libc/memmove.c:9-19 | the wrapping unsigned test is true exactly when the destination does not start inside the source |
| `Memmove.Memcpy` | imx-atf/lib/libc/memcpy.c:9-18 | what an upward byte copy leaves for every overlap: the source's bytes, or its first stretch repeated |
| `Memmove.Move` | imx-atf/lib/libc/memmove.c:9-31 | the destination holds the original source bytes and nothing else changes |

## Left out

- `fdt_resize`, `fdt_move` and the property lookup functions of libfdt.
- `__aeabi_imod`: its shortcut for powers of two does not compute a remainder.
- `block_seek`, `block_size` and the closing of a device; they add only easy members.
- Hashing, signature checks and certificate parsing are functions of the bytes they get; cache maintenance and register contexts are absent.
- Platform hooks of the firmware update (memory mapping, image loading hooks, authentication) are inputs of each step; other software's stores are steps that avoid live images.
- The 32-bit build of the firmware update code; addresses are 64 bits wide.
- `load_image`: how much of a file reaches memory; any content and any result are possible.
- Truncation of priorities by the interrupt controller in `ehf.c`.
- Appended containers, SCD images, destination addresses, flags, hashes and metadata of container entries, which are opaque bytes of an entry here; the checks of core ids are not made.
- The tokenizer of the DCD file, its comments, and the commands that do not write the table.
- The iMX8M, iMX8DV and A0 builders and the CSF parser of the image tool.
- SMC Calling Convention version 2.
- AuthModule.Loader.LoadInternal: does not model a build or run with authentication disabled.
- AuthModule.Loader.RunCheck: a missing parent or an unused parameter slot met in a lookup is a failed check here, where the C code would read through a null pointer.
- BlockIo.BlockDevice.DriverRead: assumes that a driver which reports r bytes delivered exactly the first r.
- BlockIo.BlockDevice.DriverWrite: assumes that a driver which reports r bytes wrote exactly the first r.
- BlockIo.BlockDevice.Read: does not model block numbers beyond a C int.
- BlockIo.BlockDevice.Write: does not model block numbers beyond a C int.
- ContainerBuild.Builder.SetImageArrayEntry: a seventh entry, which the C code does not check, is a failure here.
- ContainerBuild.Builder.PlaceOption: a seventh entry or a third container is a failure here.
- ContainerBuild.Builder.Build: files and offsets stay below 2^31; a larger layout, a seventh entry or a third container, which the C code does not check, is a failure here.
- DcdTable.Encoder.SetDcdParam: a header past the table, which the C code does not check, is a failure here.
- DcdTable.Encoder.SetAddress: an address past the table, which the C code does not check, is a failure here.
- DcdTable.Encoder.SetValue: a value past the table, which the C code does not check, is a failure here.
- DcdTable.Encoder.AddValue: the same; the limit of 359 counts entries and not headers.
- DcdTable.Encoder.ParseLine: the same, for a line.
- DcdTable.Encoder.ParseCfgFile: the same, for a file.
- DerInteger.ReadCounter: an encoding cut short is a refusal here, where the C code reads on.
- Divmod.Idivmod: excludes the most negative integer, whose negation overflows.
- FdtSw.SwBlob.AddReservemapEntry: an entry that reaches into the strings ends the run, where the C code reports success.
- FdtSw.SwBlob.FindAdd: a name longer than the buffer ends the run, where the C code stores in front of the buffer.
- FdtSw.SwBlob.SetProperty: the same, for a property.
- FdtWalk.OffsetPtrIsBounds: excludes blobs of 2^31 bytes or more, where it is false.
- FdtWalk.FdtNextTag: excludes blobs of 2^31 bytes or more.
- FdtWalk.TokenAccepted: excludes blobs of 2^31 bytes or more.
- FdtSubnodes.NodeAccepted: excludes blobs of 2^31 bytes or more.
- FdtHeader.FdtNumMemRsv: a map without an entry of size 0 ends with the buffer here, where the C code reads on.
- FdtSubnodes.CheckNodeOffset: excludes blobs of 2^31 bytes or more.
- FdtSubnodes.FdtNextNode: excludes offsets into a token whose bytes look like a node (a walk from there need not end) and a null depth.
- FdtSubnodes.FdtFirstSubnode: excludes the same offsets.
- FdtSubnodes.FdtNextSubnode: excludes the same offsets.
- Memmove.Move: source and destination ranges do not wrap around the address space.
