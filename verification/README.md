# Spike and libfdt in Dafny

A model, with proofs, of the parts of the RISC-V ISA simulator in
`cva6-sdk/riscv-isa-sim` whose correctness is not plain from reading one
function.

**libfdt.** A flattened device tree is one byte array and a header. A structure
block is read as a sequence of tokens, tokens with their names resolved against
the strings block are what the blob *says*, and a balanced sequence of tokens
spells a tree (`Hedges`: lists of properties, no-ops and nodes). Every function
is a method on the bytes, proved against that reading.

| file | about |
|---|---|
| `Bytes`, `Tokens`, `Blob`, `StringTable`, `Reader`, `Probe` | cells, token walker, names, what a blob says, which blobs are accepted |
| `SeqWriter`, `SeqFinish` | the sequential writer, any run of its calls, and fdt_finish |
| `Hedges`, `TreeRead` | trees, and lookups against them |
| `Splice`, `ReadWrite`, `Nodes`, `Wip` | edits in place as updates of the tree |
| `Pack` | repacking with overlapping moves |
| `Paths` | printing a path and resolving it again |
| `Inplace`, `Overlay`, `References` | renumbering the phandles of an overlay |

**The simulator.**

| file | about |
|---|---|
| `Pmp`, `PmpCsr` | protection checks, the page test, locks over runs of writes |
| `Walk`, `WalkLaws`, `Tlb` | the page table walk, by the loop and by the book, and the TLB against it |
| `DecodeCache` | opcode cache and move-to-front list against a linear scan |
| `CacheSim` | the cache simulator against the history of accesses |
| `MemIf` | chunked access against a flat memory |
| `AbstractCode`, `DebugBus`, `DebugModule`, `CommandRuns` | abstract commands: generated code, and the command machine over all interleavings |
| `Arith` | wide multiplication and saturation |

`dafny verify dfyconfig.toml` (Dafny 4.11) checks the whole project.

Some properties hold only under a condition, and the condition is stated exactly,
beside an input that fails: the room test for property names (`RoomTestExact`,
`RoomTestWraps`), the path round trip (`PathRoundTrip`, `ShadowedPath`), the
renumbering of an overlay, where a phandle of zero lands on the largest phandle
of the base (`ConflictFree`, `ZeroCollides`), the decoding of the all-zero word
(`ZeroAfter`, `ZeroWord`), and the end of an abstract command, which may come
without its hart when another hart is selected meanwhile (`CommandEnds`,
`CommandEndsAny`, `EndsWithoutItsHart`), or without any hart when the debugger
stores over the system bus (`HartsOnly`, `DataOverwritten`, `EndsByDebugger`),
packing in place (`PackSafeExact`, `PackDamages`) and the size test of
fdt_open_into (`SizeTestExact`, `SizeTestWraps`). An abstract access to `dscratch0` does
not reach that register (`ScratchClobbered`), and fdt_add_subnode with the parent
-1 damages the blob (`InsertAstray`).

Conventions. Machine integers are mathematical integers with the conversions of
the C code written out (`U32`, `Int32`, `ToI64`), or bit-vectors in `Pmp`,
`Walk`, `WalkLaws`, `Tlb`, `PmpCsr` and `DecodeCache`. Ghost parameters of methods (`cs`, `t`, `k`) name
what the blob says and which token an offset is that of; they are erased from the compiled code.

## Model

| member | source | states |
|---|---|---|
| `Blob.OffsetPtrExact` | cva6-sdk/riscv-isa-sim/fdt/fdt.c:114-129 | the wrap-around comparisons of fdt_offset_ptr accept an offset and length exactly when the range lies inside the blob and, from version 17 on, inside the structure block |
| `Blob.FdtNextTag` | cva6-sdk/riscv-isa-sim/fdt/fdt.c:131-182 | the tag at any 32-bit offset and the next offset or error, from the bytes of the blob |
| `Blob.NextTagAt` | cva6-sdk/riscv-isa-sim/fdt/fdt.c:131-182 | stepping fdt_next_tag over a structure block visits its tokens in order, each exactly once |
| `Tokens.ParseConcat` | cva6-sdk/riscv-isa-sim/fdt/fdt.c:131-182 | reading tokens is a homomorphism: a block laid after another reads as the tokens of both |
| `Tokens.ParseSplice` | cva6-sdk/riscv-isa-sim/fdt/fdt_rw.c:80-93 | replacing the bytes of a run of tokens replaces just those tokens |
| `StringTable.FindString` | cva6-sdk/riscv-isa-sim/fdt/fdt.c:270-280 | the first occurrence of a name with its terminator, or proof that there is none |
| `StringTable.DenotesUnique` | cva6-sdk/riscv-isa-sim/fdt/fdt_ro.c:34-87 | structure and strings blocks together say at most one sequence of named tokens |
| `TreeRead.SpellsOne` | cva6-sdk/riscv-isa-sim/fdt/fdt.c:131-182 | a blob spells at most one tree |
| `Reader.GetStringAt` | cva6-sdk/riscv-isa-sim/fdt/fdt_ro.c:34-87 | fdt_get_string returns exactly the name that stands at an offset of the strings block |
| `Reader.GetStringIff` | cva6-sdk/riscv-isa-sim/fdt/fdt_ro.c:34-87 | BADOFFSET exactly outside the strings block, TRUNCATED exactly where no terminator follows in it, and otherwise the name |
| `Reader.ReadBack` | cva6-sdk/riscv-isa-sim/fdt/fdt.c:131-182 | in a finished blob every step of fdt_next_tag yields the next recorded token, with its node name, property name and value bytes |
| `Probe.RoAccepts` | cva6-sdk/riscv-isa-sim/fdt/fdt.c:18-42 | in numbers, which headers readers go on with, and that the probe then yields the total size |
| `Probe.RoComplete` | cva6-sdk/riscv-isa-sim/fdt/fdt.c:18-42 | a complete blob is refused only for its last compatible version or a size of 2^31-1 |
| `Probe.RwComplete` | cva6-sdk/riscv-isa-sim/fdt/fdt_rw.c:10-38 | a complete blob can be edited exactly when, besides, there is room for one reserve entry between header and structure |
| `SeqWriter.Create` | cva6-sdk/riscv-isa-sim/fdt/fdt_sw.c:105-137 | the error for each bad argument, and the header of a fresh buffer otherwise |
| `SeqWriter.AddReserve` | cva6-sdk/riscv-isa-sim/fdt/fdt_sw.c:180-198 | the entry is appended to the reserve map, or nothing changes, with the exact error |
| `SeqWriter.FinishReserve` | cva6-sdk/riscv-isa-sim/fdt/fdt_sw.c:200-209 | a terminating zero entry, after which the buffer is ready for tokens |
| `SeqWriter.GrabSpace` | cva6-sdk/riscv-isa-sim/fdt/fdt_sw.c:90-103 | space is granted exactly when structure and names still fit together |
| `SeqWriter.BeginNodeCall` | cva6-sdk/riscv-isa-sim/fdt/fdt_sw.c:211-226 | the node is recorded after all earlier calls, or the call fails with the exact error and changes nothing |
| `SeqWriter.EndNodeCall` | cva6-sdk/riscv-isa-sim/fdt/fdt_sw.c:228-240 | the same for the end of a node |
| `SeqWriter.RoomTestExact` | cva6-sdk/riscv-isa-sim/fdt/fdt_sw.c:242-258 | the unsigned room test for names means what it should exactly when the name is no longer than the buffer less the names already in it |
| `SeqWriter.RoomTestWraps` | cva6-sdk/riscv-isa-sim/fdt/fdt_sw.c:242-258 | in a full buffer of 64 bytes the test reports room for every name of 64 bytes or more |
| `SeqWriter.FullBuffer` | cva6-sdk/riscv-isa-sim/fdt/fdt_sw.c:105-209 | the calls that lead to that buffer |
| `SeqWriter.AddString` | cva6-sdk/riscv-isa-sim/fdt/fdt_sw.c:242-258 | a name put below the names at the end of the buffer, which all stay readable, or no change when there is no room |
| `SeqWriter.FindAddString` | cva6-sdk/riscv-isa-sim/fdt/fdt_sw.c:268-283 | an offset at which the name reads back, found or added |
| `SeqWriter.PropertyCall` | cva6-sdk/riscv-isa-sim/fdt/fdt_sw.c:285-327 | the property is recorded with its name and value, or the call fails and nothing, not even a name, has been added; it succeeds exactly when value and, unless it is found, name fit |
| `SeqWriter.TwoMoves` | cva6-sdk/riscv-isa-sim/fdt/fdt_sw.c:160-169 | of two overlapping moves made in the order that the relative position calls for, neither destroys what the other needs |
| `SeqWriter.Resize` | cva6-sdk/riscv-isa-sim/fdt/fdt_sw.c:144-178 | head and names arrive unharmed in a buffer that may overlap the old one in any way; exact errors |
| `SeqFinish.WalkNames` | cva6-sdk/riscv-isa-sim/fdt/fdt_sw.c:352-367 | every name offset, counted from the end while writing, is turned into one counted from the start, and nothing else changes |
| `SeqFinish.Finish` | cva6-sdk/riscv-isa-sim/fdt/fdt_sw.c:329-376 | the finished blob says exactly the recorded calls and END, and ends where its strings end; the reserve map is untouched |
| `SeqFinish.Step` | cva6-sdk/riscv-isa-sim/fdt/fdt_sw.c:144-327 | one call of a run: what is recorded, and when it succeeds |
| `SeqFinish.Replay` | cva6-sdk/riscv-isa-sim/fdt/fdt_sw.c:144-327 | after any run of calls, failures and moves included, the buffer holds exactly the calls that succeeded, in order; it stops only at a property whose name would fool the room test |
| `SeqFinish.WriteBlob` | cva6-sdk/riscv-isa-sim/fdt/fdt_sw.c:105-376 | from creation to fdt_finish: the blob reads as the successful calls in order, then END, and its reserve map holds the entries that were added and their terminator |
| `TreeRead.CheckNodeOffset` | cva6-sdk/riscv-isa-sim/fdt/fdt.c:184-191 | an offset is accepted exactly when it is that of a node |
| `TreeRead.NextProp` | cva6-sdk/riscv-isa-sim/fdt/fdt_ro.c:187-209 | the next property past no-ops, or which error |
| `TreeRead.GetProperty` | cva6-sdk/riscv-isa-sim/fdt/fdt_ro.c:379-407 | the first property of that name before the first subnode, with its length, or which error |
| `TreeRead.FindProp` | cva6-sdk/riscv-isa-sim/fdt/fdt_ro.c:427-433 | on a tree: found exactly when the node has the property, at the place of its token |
| `TreeRead.NextNode` | cva6-sdk/riscv-isa-sim/fdt/fdt.c:202-240 | the next node and its depth, the end of the enclosing node, or the end |
| `TreeRead.CloseAtNode` | cva6-sdk/riscv-isa-sim/fdt/fdt_wip.c:73-81 | counting depth finds the end of the very node one started in, for any nesting |
| `TreeRead.NodeEndOffset` | cva6-sdk/riscv-isa-sim/fdt/fdt_wip.c:73-81 | the offset just past the END_NODE of the node |
| `Splice.SpliceAt` | cva6-sdk/riscv-isa-sim/fdt/fdt_rw.c:52-65 | the tail moves by the difference, or an exact error and no change |
| `Splice.SpliceStruct` | cva6-sdk/riscv-isa-sim/fdt/fdt_rw.c:80-93 | a gap opens or closes in the structure block, the strings follow, and the rest says what it said |
| `Splice.Edited` | cva6-sdk/riscv-isa-sim/fdt/fdt_rw.c:80-93 | an edit on token boundaries, in bytes, is the same edit on named tokens |
| `ReadWrite.FindAddName` | cva6-sdk/riscv-isa-sim/fdt/fdt_rw.c:115-139 | an offset at which the name reads back, while all tokens keep their meaning, or NOSPACE and no change |
| `ReadWrite.ResizeProp` | cva6-sdk/riscv-isa-sim/fdt/fdt_rw.c:170-186 | the value of one property is replaced, every other token is kept, exactly when there is room |
| `ReadWrite.AddProperty` | cva6-sdk/riscv-isa-sim/fdt/fdt_rw.c:188-218 | the property becomes the first of its node; a failure takes back a name it had added |
| `ReadWrite.SetProperty` | cva6-sdk/riscv-isa-sim/fdt/fdt_rw.c:243-274 | the blob spells the old tree with just that property changed in place, or put first if new, exactly when there is room; all else, reserve map included, is unchanged |
| `Hedges.SetPropLookup` | cva6-sdk/riscv-isa-sim/fdt/fdt_rw.c:243-274 | after setting a property a lookup finds the new value, and lookups of other names find what they found |
| `ReadWrite.DelProperty` | cva6-sdk/riscv-isa-sim/fdt/fdt_rw.c:303-316 | the tree without the property, found exactly when it was there |
| `ReadWrite.DelNode` | cva6-sdk/riscv-isa-sim/fdt/fdt_rw.c:364-376 | the tree without the node; the structure block loses just the bytes of the node |
| `Hedges.FlatReplace` | cva6-sdk/riscv-isa-sim/fdt/fdt_rw.c:364-376 | replacing a node in the tree replaces its tokens and nothing else |
| `Hedges.FlatInjective` | cva6-sdk/riscv-isa-sim/fdt/fdt.c:202-240 | a token sequence spells at most one tree |
| `Wip.NopRegion` | cva6-sdk/riscv-isa-sim/fdt/fdt_wip.c:51-57 | every cell of a region becomes a NOP and nothing outside changes |
| `Wip.NopProperty` | cva6-sdk/riscv-isa-sim/fdt/fdt_wip.c:59-71 | the property is replaced by no-ops of the same size; exact errors |
| `Wip.NopNode` | cva6-sdk/riscv-isa-sim/fdt/fdt_wip.c:83-94 | the node is replaced by no-ops of the same size |
| `Wip.NodeDeletionsAgree` | cva6-sdk/riscv-isa-sim/fdt/fdt_wip.c:83-94 | with no-ops ignored, fdt_nop_node and fdt_del_node leave the same tree |
| `Wip.PropDeletionsAgree` | cva6-sdk/riscv-isa-sim/fdt/fdt_wip.c:59-71 | with no-ops ignored, fdt_nop_property and fdt_delprop leave the same tree |
| `Nodes.NodeNameEq` | cva6-sdk/riscv-isa-sim/fdt/fdt_ro.c:13-32 | a name matches when equal, or equal up to a unit address that was not asked for |
| `Nodes.MatchesAnswers` | cva6-sdk/riscv-isa-sim/fdt/fdt_ro.c:13-32 | a node name matches exactly when it is the name asked for, or that name, an at sign and any unit address, when no at sign was asked for |
| `Nodes.FindChildIff` | cva6-sdk/riscv-isa-sim/fdt/fdt_ro.c:211-228 | the child found is the first that answers to the name, and none is found exactly when no child does |
| `Nodes.SubFrom` | cva6-sdk/riscv-isa-sim/fdt/fdt_ro.c:211-228 | the first child that matches, never a deeper node |
| `Nodes.SubnodeOffset` | cva6-sdk/riscv-isa-sim/fdt/fdt_ro.c:211-234 | the same on a tree, with each error |
| `Nodes.AddSubnode` | cva6-sdk/riscv-isa-sim/fdt/fdt_rw.c:318-362 | an empty node after the properties of the parent at the returned offset; nodes before it keep their offsets; exact errors, and what happens for the parent -1 |
| `Nodes.InsertAstray` | cva6-sdk/riscv-isa-sim/fdt/fdt_rw.c:329-357 | the parent -1 is not refused: the node is put in eight bytes before the structure block and an error is returned all the same |
| `Nodes.AddFindDelete` | cva6-sdk/riscv-isa-sim/fdt/fdt_rw.c:318-376 | the lookup finds exactly the returned offset and fdt_del_node there restores header, structure and strings |
| `Pack.NumMemRsv` | cva6-sdk/riscv-isa-sim/fdt/fdt_ro.c:175-185 | the number of entries before the terminator, or TRUNCATED |
| `Pack.StageStep` | cva6-sdk/riscv-isa-sim/fdt/fdt_rw.c:378-398 | a move whose target stays clear of what is still to be read keeps every later block intact |
| `Pack.PackBlocks` | cva6-sdk/riscv-isa-sim/fdt/fdt_rw.c:378-398 | reserve map, structure and strings arrive side by side, also when old and new blob are the same memory |
| `Pack.PackInPlace` | cva6-sdk/riscv-isa-sim/fdt/fdt_rw.c:464-476 | the moves that are made; when the reserve map, moved up to the header, ends before the structure block, the same tokens, strings and reserve map, in a total size that is exactly the end of the strings and never larger than before |
| `Pack.PackSafeExact` | cva6-sdk/riscv-isa-sim/fdt/fdt_rw.c:378-398 | no block is overwritten before it was moved if and only if the reserve map, moved up to the header, ends before the structure block |
| `Pack.PackDamages` | cva6-sdk/riscv-isa-sim/fdt/fdt_rw.c:464-476 | a blob that the probe accepts and whose packed structure block begins with a property |
| `Pack.StructSize` | cva6-sdk/riscv-isa-sim/fdt/fdt_rw.c:415-423 | for a version 16 blob the walk to END measures the structure block |
| `Pack.OpenInto` | cva6-sdk/riscv-isa-sim/fdt/fdt_rw.c:400-462 | a version 17 blob with blocks in order in a buffer that may overlap the old blob, with the same tokens, strings and reserve map, exactly when there is room |
| `Pack.SizeTestExact` | cva6-sdk/riscv-isa-sim/fdt/fdt_rw.c:435-440 | the room test, on a size kept in an int, means what it should exactly when the size is below 2^31 or what is left of it still exceeds the buffer |
| `Pack.SizeTestWraps` | cva6-sdk/riscv-isa-sim/fdt/fdt_rw.c:435-440 | overlapping blocks of a gigabyte each, for which every buffer is taken for large enough |
| `Paths.PopName` | cva6-sdk/riscv-isa-sim/fdt/fdt_ro.c:538-543 | the do-while takes off exactly the last name |
| `Paths.PrintNode` | cva6-sdk/riscv-isa-sim/fdt/fdt_ro.c:535-555 | one round: as much of the path of this node as fits stands in the buffer |
| `Paths.GetPath` | cva6-sdk/riscv-isa-sim/fdt/fdt_ro.c:521-571 | the path of the node and its terminator when they fit, else NOSPACE; the buffer is not overrun |
| `Paths.PathOffset` | cva6-sdk/riscv-isa-sim/fdt/fdt_ro.c:236-284 | the node that following the components leads to, or NOTFOUND |
| `Paths.PathRoundTrip` | cva6-sdk/riscv-isa-sim/fdt/fdt_ro.c:236-279 | resolving a printed path leads back to its node if and only if no name below the root on it is empty and no earlier sibling of it or of an ancestor answers to its name |
| `Paths.ShadowedPath` | cva6-sdk/riscv-isa-sim/fdt/fdt_ro.c:211-279 | with subnodes a@1 and a, the path of the second leads to the first |
| `Paths.PathOffsetRoundTrip` | cva6-sdk/riscv-isa-sim/fdt/fdt_ro.c:521-571 | the same on offsets: fdt_path_offset of what fdt_get_path printed is the offset one started with, under exactly that condition |
| `Paths.TreePaths` | cva6-sdk/riscv-isa-sim/fdt/fdt_ro.c:521-571 | the blob of every tree with one root and slash-free names meets what printing and resolving rely on |
| `Inplace.TooShortExact` | cva6-sdk/riscv-isa-sim/fdt/fdt_wip.c:26-27 | the 32-bit size test of the partial setter means that the bytes fit exactly when the sum does not wrap, or wraps to more than the length |
| `Inplace.ValueStored` | cva6-sdk/riscv-isa-sim/fdt/fdt_wip.c:29-30 | bytes stored inside a value change that value and no other token |
| `Inplace.SetPartial` | cva6-sdk/riscv-isa-sim/fdt/fdt_wip.c:13-31 | the value patched in place, or which error and no change, a bad offset included |
| `Inplace.FirstSubnode` | cva6-sdk/riscv-isa-sim/fdt/fdt.c:242-251 | the first subnode |
| `Inplace.NextSubnode` | cva6-sdk/riscv-isa-sim/fdt/fdt.c:253-268 | the next subnode after the end of this one, never a deeper node |
| `Inplace.TreeNested` | cva6-sdk/riscv-isa-sim/fdt/fdt_overlay.c:156-308 | the blob of every tree meets what the walks over an overlay rely on |
| `Overlay.GetPhandle` | cva6-sdk/riscv-isa-sim/fdt/fdt_ro.c:487-502 | the phandle from either property, or 0 |
| `Overlay.FindMaxPhandle` | cva6-sdk/riscv-isa-sim/fdt/fdt_ro.c:103-129 | no node has a larger phandle, and some node has this one unless it is 0 |
| `Overlay.PhandleAddOffset` | cva6-sdk/riscv-isa-sim/fdt/fdt_overlay.c:116-138 | the property moved by the offset, or which error, overflow and the reserved value included |
| `Overlay.AdjustNodePhandles` | cva6-sdk/riscv-isa-sim/fdt/fdt_overlay.c:156-178 | exactly the nodes of the subtree are adjusted, each once, in order, up to the first failure |
| `Overlay.Renumbered` | cva6-sdk/riscv-isa-sim/fdt/fdt_overlay.c:156-197 | a successful walk adds the offset to the phandle of every node that has one and gives none to the others |
| `Overlay.ConflictFree` | cva6-sdk/riscv-isa-sim/fdt/fdt_overlay.c:156-197 | with the base maximum as offset, an overlay phandle comes to exceed every base phandle if and only if it was not zero, and different phandles stay different |
| `Overlay.ZeroCollides` | cva6-sdk/riscv-isa-sim/fdt/fdt_overlay.c:116-197 | an overlay phandle of 0 renumbered against a base whose largest is 5 becomes 5 |
| `References.UpdateCells` | cva6-sdk/riscv-isa-sim/fdt/fdt_overlay.c:257-286 | the offset is added to each listed cell in turn, up to the first that lies outside the value |
| `References.UpdateNode` | cva6-sdk/riscv-isa-sim/fdt/fdt_overlay.c:220-308 | the whole walk over a fixup node, properties then subnodes, with its errors |
| `References.NodeRun` | cva6-sdk/riscv-isa-sim/fdt/fdt_overlay.c:220-308 | when the fixups list no cell of their own, the walk succeeds exactly when the list is well formed and every cell lies in its value, and then it has moved just the listed cells, in their order |
| `References.NodeTraced` | cva6-sdk/riscv-isa-sim/fdt/fdt_overlay.c:220-308 | the walk, even one that changes fixups that it has still to read, moves the cells of its trace one after the other and nothing else, whatever its outcome |
| `References.PhandlesSpared` | cva6-sdk/riscv-isa-sim/fdt/fdt_overlay.c:156-308 | after phandles were moved by a positive offset, the walk over the fixups moves no cell of a phandle property, whatever its outcome |
| `References.ListedPhandleFails` | cva6-sdk/riscv-isa-sim/fdt/fdt_overlay.c:220-285 | fixups that list a phandle: their own offset is moved as a phandle first, and the walk then fails with BADOVERLAY |
| `References.BumpAllAt` | cva6-sdk/riscv-isa-sim/fdt/fdt_overlay.c:266-286 | a cell listed once and overlapped by no other moves by the offset |
| `References.ReferencesKept` | cva6-sdk/riscv-isa-sim/fdt/fdt_overlay.c:116-341 | a cell that the walk over the fixups moves exactly once names a node of the overlay after both walks if and only if it named that node before |
| `References.UpdateLocalReferences` | cva6-sdk/riscv-isa-sim/fdt/fdt_overlay.c:324-341 | the walk from /__local_fixups__, or nothing when there is none |
| `References.Renumber` | cva6-sdk/riscv-isa-sim/fdt/fdt_overlay.c:829-849 | the renumbering steps of fdt_overlay_apply in sequence |
| `Pmp.MatchSectors` | cva6-sdk/riscv-isa-sim/riscv/mmu.cc:236-246 | whether any and whether all sectors of the access lie in the entry |
| `Pmp.PmpOk` | cva6-sdk/riscv-isa-sim/riscv/mmu.cc:217-263 | the first entry that covers any part of the access decides, and has to cover all of it |
| `Pmp.FirstDecides` | cva6-sdk/riscv-isa-sim/riscv/mmu.cc:217-263 | the first entry that is on and covers any part of an access decides: it has to cover all of it, and be unlocked in machine mode or have the bit of the access set |
| `Pmp.NoneDecides` | cva6-sdk/riscv-isa-sim/riscv/mmu.cc:217-263 | where no entry covers any part, only machine mode passes |
| `Pmp.EntryCovers` | cva6-sdk/riscv-isa-sim/riscv/mmu.cc:222-242 | the addresses that an entry covers, by its mode |
| `Pmp.PmpHomogeneous` | cva6-sdk/riscv-isa-sim/riscv/mmu.cc:265-302 | every active entry passes the page test |
| `Pmp.NapotRegion` | cva6-sdk/riscv-isa-sim/riscv/mmu.cc:231-232 | the mask trick compares all but as many low bits as the address has ones at its end, and two more |
| `Pmp.UniformMatch` | cva6-sdk/riscv-isa-sim/riscv/mmu.cc:280-294 | an entry that passes the page test covers all of the page or none of it, TOR, NA4 and NAPOT alike |
| `Pmp.HomogeneousSound` | cva6-sdk/riscv-isa-sim/riscv/mmu.cc:217-302 | if the page test accepts a page, pmp_ok gives one answer for all non-empty accesses in it, for any number of entries |
| `Walk.WalkTable` | cva6-sdk/riscv-isa-sim/riscv/mmu.cc:377-455 | the loop finds the leaf, or the fault, that the page tables prescribe |
| `Walk.TranslateAddr` | cva6-sdk/riscv-isa-sim/riscv/mmu.cc:51-78 | page and offset, checked by PMP, or which trap |
| `WalkLaws.LeafIff` | cva6-sdk/riscv-isa-sim/riscv/mmu.cc:411-449 | a leaf passes exactly when it is valid, accessed, open to the mode and the access by its U, R, W, X and D bits with SUM and MXR, and aligned or one of sixteen pages |
| `WalkLaws.SearchIff` | cva6-sdk/riscv-isa-sim/riscv/mmu.cc:393-449 | the search ends at the word that the tables lead to exactly when that permits the access and is well formed |
| `WalkLaws.TranslateIff` | cva6-sdk/riscv-isa-sim/riscv/mmu.cc:51-78 | an access is mapped exactly when that word permits it, it is well formed and physical memory protection passes, and then to the base of the leaf plus the low bits; otherwise the fault |
| `WalkLaws.SatpFields` | cva6-sdk/riscv-isa-sim/riscv/mmu.h:500-520 | the scheme that each mode field of satp selects; machine mode does not translate |
| `WalkLaws.Slots64` | cva6-sdk/riscv-isa-sim/riscv/mmu.cc:393-397 | levels, and the table entry of each level that the address bits select |
| `WalkLaws.SignExtended` | cva6-sdk/riscv-isa-sim/riscv/mmu.cc:385-391 | canonical addresses are those sign extended from the top bit of the virtual address |
| `WalkLaws.SixteenPages` | cva6-sdk/riscv-isa-sim/riscv/mmu.cc:436-449 | base and span of a leaf of sixteen pages |
| `Walk.CtzThree` | cva6-sdk/riscv-isa-sim/riscv/mmu.cc:438-440 | the Svnapot test accepts exactly the encoding of sixteen pages |
| `Walk.LeafLinear` | cva6-sdk/riscv-isa-sim/riscv/mmu.cc:435-446 | the page computed from a leaf, with the offset, is the leaf base plus the low bits of the address, superpages and Svnapot alike |
| `Walk.TranslateLinear` | cva6-sdk/riscv-isa-sim/riscv/mmu.cc:51-78 | translate yields the leaf base plus the address modulo the size that the leaf spans |
| `Walk.SharedLeaf` | cva6-sdk/riscv-isa-sim/riscv/mmu.cc:377-455 | every address under a leaf ends its walk at that leaf and is mapped by the same base |
| `Walk.PageUniform` | cva6-sdk/riscv-isa-sim/riscv/mmu.cc:377-455 | the walk depends on the virtual page alone |
| `Walk.AccessSame` | cva6-sdk/riscv-isa-sim/riscv/mmu.cc:377-455 | accesses of two kinds that are both mapped are mapped to one page |
| `Tlb.NewServes` | cva6-sdk/riscv-isa-sim/riscv/mmu.cc:206-214 | an entry made for one access in a page that PMP treats uniformly answers every access of that kind in the page as the slow path would |
| `Tlb.SharedEntry` | cva6-sdk/riscv-isa-sim/riscv/mmu.cc:194-214 | data written for one kind of access equals the data that a tag of another kind for the same page relies on |
| `Tlb.KeptSound` | cva6-sdk/riscv-isa-sim/riscv/mmu.cc:189-215 | overwriting the shared data keeps all three tag arrays right |
| `Tlb.Mmu.FlushTlb` | cva6-sdk/riscv-isa-sim/riscv/mmu.cc:32-39 | no tag is left |
| `Tlb.Mmu.RefillTlb` | cva6-sdk/riscv-isa-sim/riscv/mmu.cc:189-215 | every tag in the three arrays still answers as the slow path |
| `Tlb.Mmu.Access` | cva6-sdk/riscv-isa-sim/riscv/mmu.h:97-191 | load, store and fetch, hit or miss: the host address, physical address or trap of the slow path |
| `Tlb.Mmu.SetPrivilege` | cva6-sdk/riscv-isa-sim/riscv/processor.cc:645-649 | the TLB stays right for the new mode |
| `Tlb.Mmu.WriteSatp` | cva6-sdk/riscv-isa-sim/riscv/processor.cc:1054-1066 | the TLB stays right for the new page table, and an unsupported mode changes nothing |
| `Tlb.SatpArrives` | cva6-sdk/riscv-isa-sim/riscv/processor.cc:835-845 | after a valid write translation has the scheme and root table that were written, and the address space identifier is dropped |
| `Tlb.SatpModes` | cva6-sdk/riscv-isa-sim/riscv/processor.cc:817-833 | which values are valid, by the scheme they select and those that are supported |
| `Tlb.Mmu.WriteStatus` | cva6-sdk/riscv-isa-sim/riscv/processor.cc:932-964 | the TLB stays right; without paging SUM and MXR do not change |
| `Tlb.Mmu.WritePmp` | cva6-sdk/riscv-isa-sim/riscv/processor.cc:871-904 | the TLB stays right for the new protection |
| `Tlb.Mmu.RewriteTables` | cva6-sdk/riscv-isa-sim/riscv/insns/sfence_vma.h:9 | page tables may be rewritten if sfence.vma follows |
| `PmpCsr.LocksHold` | cva6-sdk/riscv-isa-sim/riscv/processor.cc:871-904 | over every run of writes a locked entry keeps its configuration and address, and a locked TOR entry its lower bound |
| `PmpCsr.RunLegal` | cva6-sdk/riscv-isa-sim/riscv/processor.cc:894-898 | no reachable entry has W set with R clear, nor NA4 at coarse granularity |
| `PmpCsr.CfgArrives` | cva6-sdk/riscv-isa-sim/riscv/processor.cc:891-907 | a configuration write arrives in every implemented unlocked entry that it covers, and nowhere else |
| `PmpCsr.AddrArrives` | cva6-sdk/riscv-isa-sim/riscv/processor.cc:873-886 | an address write arrives, unless the entry or the next one with it as its lower bound is locked |
| `PmpCsr.BytesStand` | cva6-sdk/riscv-isa-sim/riscv/processor.cc:895-897 | which byte of the value belongs to which entry |
| `PmpCsr.LegalizeBits` | cva6-sdk/riscv-isa-sim/riscv/processor.cc:897-901 | what becomes of each bit of a configuration byte |
| `PmpCsr.Hart.WriteAddr` | cva6-sdk/riscv-isa-sim/riscv/processor.cc:871-887 | the write to an address register |
| `PmpCsr.Hart.WriteCfg` | cva6-sdk/riscv-isa-sim/riscv/processor.cc:889-904 | the loop over the bytes of a configuration register |
| `DecodeCache.SortedContiguous` | cva6-sdk/riscv-isa-sim/riscv/processor.cc:1827-1836 | the sort order puts entries with equal match bits side by side |
| `DecodeCache.MovedArranged` | cva6-sdk/riscv-isa-sim/riscv/processor.cc:1806-1813 | moving an entry between neighbours of other groups to the front keeps groups together and their order |
| `DecodeCache.ScanSame` | cva6-sdk/riscv-isa-sim/riscv/processor.cc:1799-1804 | a scan finds the same entry in every order that keeps the groups |
| `DecodeCache.AcceptsBits` | cva6-sdk/riscv-isa-sim/riscv/processor.cc:1802 | an entry accepts a word exactly when their bits agree under the mask and it has a handler for the register width |
| `DecodeCache.Decoder.MoveToFront` | cva6-sdk/riscv-isa-sim/riscv/processor.cc:1808-1811 | the shifting loop moves one entry to the front |
| `DecodeCache.Decoder.Search` | cva6-sdk/riscv-isa-sim/riscv/processor.cc:1799-1804 | the first entry that accepts the word |
| `DecodeCache.Decoder.DecodeInsn` | cva6-sdk/riscv-isa-sim/riscv/processor.cc:1792-1820 | after any history a word other than zero gets the handler that a scan of the sorted table gives it, and zero gets that one or illegal_instruction |
| `DecodeCache.ZeroFirst` | cva6-sdk/riscv-isa-sim/riscv/processor.cc:1792-1839 | on a fresh map zero gets illegal_instruction, whatever the table |
| `DecodeCache.ZeroAfter` | cva6-sdk/riscv-isa-sim/riscv/processor.cc:1792-1820 | after any history zero agrees with the scan if that gives illegal_instruction; with ZeroFirst: after every history if and only if |
| `DecodeCache.ZeroWord` | cva6-sdk/riscv-isa-sim/riscv/processor.cc:1792-1839 | a table on which the decoder answers zero with illegal_instruction although an entry accepts it |
| `CacheSim.TouchKeeps` | cva6-sdk/riscv-isa-sim/riscv/cachesim.cc:130-135 | a hit keeps: dirty exactly when the last store is later than the last write-back; write-backs plus dirty lines at most stores |
| `CacheSim.ReplaceKeeps` | cva6-sdk/riscv-isa-sim/riscv/cachesim.cc:137-160 | a miss keeps both |
| `CacheSim.ReplaceRepresents` | cva6-sdk/riscv-isa-sim/riscv/cachesim.cc:114-121 | after a replacement no line is in two ways and every valid tag is in the set of its index bits |
| `CacheSim.StaysResident` | cva6-sdk/riscv-isa-sim/riscv/cachesim.cc:103-165 | over every run of accesses, a resident line stays until an access goes to another line of the same index |
| `CacheSim.ConsecutiveResident` | cva6-sdk/riscv-isa-sim/riscv/cachesim.cc:103-165 | as many consecutive lines as there are sets are resident together, even with one way |
| `CacheSim.NextRandomUndone` | cva6-sdk/riscv-isa-sim/riscv/cachesim.h:12-20 | steps of the shift register can be undone |
| `CacheSim.LineStart` | cva6-sdk/riscv-isa-sim/riscv/cachesim.cc:156-157 | the line number times the line size is the address with the offset bits clear, which is what is passed on |
| `CacheSim.SetCache.CheckTag` | cva6-sdk/riscv-isa-sim/riscv/cachesim.cc:103-112 | the way that holds the line, or the line is not resident |
| `CacheSim.SetCache.Victimize` | cva6-sdk/riscv-isa-sim/riscv/cachesim.cc:114-121 | the line that made way, in the same set, with its dirty flag |
| `CacheSim.SetCache.Access` | cva6-sdk/riscv-isa-sim/riscv/cachesim.cc:123-161 | lines, history, counters and requests to the next level, the write-back at the address of the evicted line |
| `CacheSim.FullCache.Victimize` | cva6-sdk/riscv-isa-sim/riscv/cachesim.cc:174-185 | a line makes way exactly when the cache is full |
| `CacheSim.FullCache.Access` | cva6-sdk/riscv-isa-sim/riscv/cachesim.cc:123-185 | the same account for the fully associative cache |
| `MemIf.Read` | cva6-sdk/riscv-isa-sim/fesvr/memif.cc:9-39 | exactly the addressed bytes, at the start of the buffer, through aligned chunks only |
| `MemIf.Write` | cva6-sdk/riscv-isa-sim/fesvr/memif.cc:41-84 | exactly the addressed bytes change, by chunks or by clearing, through aligned chunks only |
| `MemIf.WriteThenRead` | cva6-sdk/riscv-isa-sim/fesvr/memif.cc:9-84 | what was written is read back and nothing else has changed |
| `AbstractCode.CodeFits` | cva6-sdk/riscv-isa-sim/riscv/debug_module.cc:591-739 | the code for every register access, with its last word, fits twelve words |
| `AbstractCode.PlanKinds` | cva6-sdk/riscv-isa-sim/riscv/debug_module.cc:590-731 | which register accesses are carried out by code, which take effect at once and which are refused, in numbers |
| `AbstractCode.CodeCorrect` | cva6-sdk/riscv-isa-sim/riscv/debug_module.cc:591-739 | run on a hart, the code transfers the register, does not trap on account of FS whatever that is, and restores s0, mstatus and all else but dscratch0 and, for floating point, dscratch1 |
| `AbstractCode.TransferValues` | cva6-sdk/riscv-isa-sim/riscv/debug_module.cc:640-705 | what a word or doubleword access leaves in the data registers and takes from them, and that what fits comes back |
| `AbstractCode.ScratchClobbered` | cva6-sdk/riscv-isa-sim/riscv/debug_module.cc:606-642 | the scratch register that the code uses itself reads as s0, and writing it changes s0 |
| `DebugModule.FieldWidth` | cva6-sdk/riscv-isa-sim/riscv/debug_module.cc:21-30 | the least number of bits that tells the harts apart |
| `DebugModule.WidthBound` | cva6-sdk/riscv-isa-sim/riscv/debug_module.cc:35-48 | the hart states cover all harts, number at most 1024 and less than twice the harts |
| `DebugModule.Module.EmitTransfer` | cva6-sdk/riscv-isa-sim/riscv/debug_module.cc:591-731 | the words written for a transfer |
| `DebugModule.Module.PerformAbstractCommand` | cva6-sdk/riscv-isa-sim/riscv/debug_module.cc:571-750 | every command by its bits: nothing after an error, each refusal with its error, custom registers at once, and otherwise a command started without error |
| `DebugModule.CommandOutcome` | cva6-sdk/riscv-isa-sim/riscv/debug_module.cc:571-750 | the same of the function that the method is proved against |
| `DebugModule.CustomRoundTrip` | cva6-sdk/riscv-isa-sim/riscv/debug_module.cc:707-721 | after a custom register is written, reading another gives the value shifted by their distance |
| `DebugModule.Module.ReadDmi` | cva6-sdk/riscv-isa-sim/riscv/debug_module.cc:356-386 | all ones while busy, otherwise the word; busy error and automatic execution; the load that a read of sbdata0 makes |
| `DebugModule.Module.WriteDmi` | cva6-sdk/riscv-isa-sim/riscv/debug_module.cc:752-931 | the effect of each register write on commands, hart states and system bus, which writes are accepted, and which do not return |
| `DebugModule.RegisterMap` | cva6-sdk/riscv-isa-sim/riscv/debug_module.cc:760-868 | in numbers, what writing command, abstractcs, abstractauto, a data register or a word of the program buffer does, automatic execution included |
| `DebugModule.BusyAccess` | cva6-sdk/riscv-isa-sim/riscv/debug_module.cc:356-386 | while a command is in progress, access to a data register is an error and access to the program buffer is not |
| `DebugModule.ControlMap` | cva6-sdk/riscv-isa-sim/riscv/debug_module.cc:787-836 | dmcontrol by its bits: reset of the module, selection of harts, and resets of harts, after which they are not halted |
| `DebugModule.BusMap` | cva6-sdk/riscv-isa-sim/riscv/debug_module.cc:869-912 | the system bus registers by their addresses |
| `DebugModule.SbcsMap` | cva6-sdk/riscv-isa-sim/riscv/debug_module.cc:869-875 | the fields of sbcs; a pending error can only be cleared |
| `DebugModule.LoadsOnDemand` | cva6-sdk/riscv-isa-sim/riscv/debug_module.cc:516-527 | the loads that writing sbaddress0 and reading sbdata0 make, and the next address; none while an error is pending |
| `DebugModule.WindowMap` | cva6-sdk/riscv-isa-sim/riscv/debug_module.cc:847-857 | a write to the hart array window sets 32 bits of the mask |
| `DebugModule.OtherRegisters` | cva6-sdk/riscv-isa-sim/riscv/debug_module.cc:913-925 | authentication by the challenge plus one, and the other registers |
| `DebugModule.KnownMap` | cva6-sdk/riscv-isa-sim/riscv/debug_module.cc:752-931 | the addresses that can be written |
| `DebugModule.Module.RunTestIdle` | cva6-sdk/riscv-isa-sim/riscv/debug_module.cc:555-563 | the idle count, and the end of a completed command |
| `DebugModule.Module.Store` | cva6-sdk/riscv-isa-sim/riscv/debug_module.cc:165-251 | what a store at an address means: data, program buffer, or a report |
| `DebugBus.StoreMap` | cva6-sdk/riscv-isa-sim/riscv/debug_module.cc:190-250 | the map of the module by addresses: reports, exceptions, the program buffer right below the data registers, and those; all else is refused |
| `DebugModule.HearMap` | cva6-sdk/riscv-isa-sim/riscv/debug_module.cc:201-246 | what each report does |
| `DebugModule.Module.SbWrite` | cva6-sdk/riscv-isa-sim/riscv/debug_module.cc:338-354 | the store that the debugger makes over the system bus reaches the module as a store of a hart would, byte by byte where it is misaligned |
| `DebugBus.StoreFields` | cva6-sdk/riscv-isa-sim/riscv/debug_module.cc:338-354 | address, size and bytes of a store by the debugger, and the sizes that are supported |
| `DebugBus.LoadResult` | cva6-sdk/riscv-isa-sim/riscv/debug_module.cc:316-336 | what a load leaves in the data registers, or the error |
| `DebugBus.StoreResult` | cva6-sdk/riscv-isa-sim/riscv/debug_module.cc:338-354 | sizes that are not supported are error 3; a store is made only without an error, and the address then moves on unless it traps |
| `DebugModule.ResetBus` | cva6-sdk/riscv-isa-sim/riscv/debug_module.cc:100-115 | a reset turns everything off on the system bus but keeps address and data |
| `DebugModule.Module.SbAutoincrement` | cva6-sdk/riscv-isa-sim/riscv/debug_module.cc:296-314 | only the low word of the address moves: the carry that the code tries to pass on is always zero |
| `DebugBus.DecodeInside` | cva6-sdk/riscv-isa-sim/riscv/debug_module.cc:190-199 | no store goes outside the data registers and the program buffer |
| `DebugModule.CommandStarts` | cva6-sdk/riscv-isa-sim/riscv/debug_module.cc:571-750 | a command starts only without error and on a halted hart, and then its code is in place |
| `DebugModule.BusyStep` | cva6-sdk/riscv-isa-sim/riscv/debug_module.cc:165-563 | while a command is in progress, no operation has a part in its data, program buffer, code and progress but by what the module hears: stores of harts, stores over the system bus and idle cycles; and short of a reset nothing else ends it |
| `DebugModule.CommandOverwritten` | cva6-sdk/riscv-isa-sim/riscv/debug_module.cc:839-841 | a command written while one is in progress is refused, and yet the command register takes the new value |
| `DebugModule.RunValid` | cva6-sdk/riscv-isa-sim/riscv/debug_module.cc:356-931 | over every interleaving hartsel indexes the hart states |
| `DebugModule.RunSticky` | cva6-sdk/riscv-isa-sim/riscv/debug_module.cc:571-578 | over every interleaving an error keeps its value and keeps commands from starting until abstractcs is written or the module is reset |
| `CommandRuns.RunProtected` | cva6-sdk/riscv-isa-sim/riscv/debug_module.cc:165-784 | over every interleaving, while a command is in progress, data and program buffer are what the stores that the module hears, from harts or over the system bus, make of them, and the code stays |
| `CommandRuns.HartsOnly` | cva6-sdk/riscv-isa-sim/riscv/debug_module.cc:338-354 | without bus mastering, or as long as sbdata0 is written with an error pending or an address beyond the first page, the module hears harts and idle cycles only |
| `CommandRuns.ProtectedFromDebugger` | cva6-sdk/riscv-isa-sim/riscv/debug_module.cc:338-784 | on such a run the stores of harts alone make data and program buffer what they are |
| `CommandRuns.DataOverwritten` | cva6-sdk/riscv-isa-sim/riscv/debug_module.cc:338-354 | with word accesses on the bus, four writes of the debugger change the data of a command in progress |
| `CommandRuns.CommandEnds` | cva6-sdk/riscv-isa-sim/riscv/debug_module.cc:201-232 | on every run in which the hart stays selected and nothing is reset, a command ends exactly when the module heard, from the hart or over the system bus, that its hart has taken it up and has come back after that, and an idle cycle follows with those asked for passed |
| `CommandRuns.CommandEndsAny` | cva6-sdk/riscv-isa-sim/riscv/debug_module.cc:201-232 | on every run without a reset, whatever is selected, a command ends exactly when the module heard that some hart came back while selected with no command waiting, and an idle cycle follows with those asked for passed |
| `CommandRuns.EndsWithoutItsHart` | cva6-sdk/riscv-isa-sim/riscv/debug_module.cc:217-223 | a run in which a command ends although its hart has not taken it up, because another hart was selected |
| `CommandRuns.EndsByDebugger` | cva6-sdk/riscv-isa-sim/riscv/debug_module.cc:338-354 | with word accesses on the bus, the debugger ends a command by itself, without any store of a hart |
| `Arith.Mulhu` | cva6-sdk/riscv-isa-sim/riscv/arith.h:11-30 | the floor of the product over 2^64, without intermediate overflow |
| `Arith.Mulh` | cva6-sdk/riscv-isa-sim/riscv/arith.h:32-37 | the floor of the signed product over 2^64, for all operands |
| `Arith.Mulhsu` | cva6-sdk/riscv-isa-sim/riscv/arith.h:39-44 | the same with one unsigned operand |
| `Arith.SatAdd` | cva6-sdk/riscv-isa-sim/riscv/arith.h:47-66 | the clamp of the exact sum at every width, with sat exactly when it is out of range |
| `Arith.SatAdd3` | cva6-sdk/riscv-isa-sim/riscv/arith.h:68-87 | the clamp of the exact sum of three, with sat exactly when that sum is out of range |
| `Arith.SatSub` | cva6-sdk/riscv-isa-sim/riscv/arith.h:89-108 | the clamp of the exact difference |

## Left out

- The header of a device tree is a record beside the bytes, not forty bytes of the buffer; the byte order of its fields and boot_cpuid_phys are not modelled, and fdt_open_into does not claim the latter.
- Device trees before version 16, whose values are realigned to eight bytes, and property values of 2^31 bytes or more.
- fdt_check_header and fdt_check_full as tests of untrusted blobs: the readers and editors are proved on blobs whose structure block is a whole number of tokens, as fdt_check_full would accept them.
- Structure offsets that are aligned but point inside a token: the offset checks of the library do not tell them from node offsets, so an offset argument is negative, misaligned, or that of a token.
- SeqWriter.AddString: a name longer than the buffer less its names is excluded, because the room test then wraps around; RoomTestExact states when.
- SeqWriter.FindAddString: not for such a name, unless it is found.
- SeqWriter.PropertyCall: not for such a name, unless it is found.
- SeqFinish.Replay: a run ends before a property call with such a name, which would write below the buffer; SeqFinish.WriteBlob then reports OVERLONG.
- Paths.GetPath: the node offset is negative or that of a node, names have no slashes, and there is one root, as the Devicetree Specification, version 0.3, asks.
- Paths.PathOffset: only absolute paths; a path that starts with an alias goes through a property lookup and a second resolution, which need not end when aliases refer to each other.
- Pack.PackInPlace: a reserve map without terminator, and one so long, over other blocks, that the packed blob would not fit the old one.
- Pack.OpenInto: not for a size that the wrapped room test accepts although it does not fit (SizeTestExact), where the code writes past the buffer.
- AbstractCode.CodeCorrect: not for dscratch0 (ScratchClobbered); a trap because a register does not exist, or because RV32 has no doubleword access, is not modelled. fcsr, frm and fflags are taken as independent registers.
- Aliases, string lists, compatible lookup, fdt_set_name, fdt_appendprop, and the editing of single reserve entries: they only compose the lookups and edits above.
- fdt_get_string on a blob that is still being written.
- References.UpdateCells: the cell is read only when it lies inside its value; the code reads it first and then tests.
- References.Renumber: no listed offset comes within four bytes of 2^32, where the size test of the partial setter wraps around (TooShortExact).
- Inplace.SetPartial: an index and a length whose sum wraps around (TooShortExact), where the code writes outside the value.
- References.UpdateNode: likewise.
- References.UpdateLocalReferences: likewise.
- References to symbols of the base tree, and the merge of an overlay into the base, of which only fdt_find_max_phandle and the two local walks are modelled.
- Pmp.PmpHomogeneous: only for pages, the one size it is called with.
- Two-stage translation, MPRV, triggers, Sv64, and an XLEN that differs from the maximum XLEN; A and D bits are checked and not set, as in the default build.
- Tlb.Mmu.Access: the copying of data, the memory tracer and the instruction cache; a TLB hit is followed up to the host address. Host memory is a map of pages, since a page keeps its place once allocated.
- Tlb.Num: offsets in TLB entries are integers; the wrap-around of pointer subtraction cancels in the sum.
- std::sort in build_opcode_map: the constructor of Decoder takes the sorted table. XLEN is fixed, as it is after construction.
- The pseudo-random choice of a victim in FullCache is any entry, instead of the one at a random position of the map.
- Counters of the cache simulator do not wrap around, and its statistics are not printed.
- The chunk memory of MemIf is specified by reading, writing and zeroing; the hex writer, whose clearing does nothing, does not meet that.
- Halt requests, halt groups, resume acknowledgement and the havereset flag of the debug module, which abstract commands do not depend on; harts are numbered from 0, and no device other than the debug module is mapped into the first page. What loads over the system bus return, and whether other devices take stores, is a parameter of each access. Stores are little-endian. Instructions are given by meaning instead of by encoding.
- DebugModule.Module.WriteDmi: not for a store to the debug module that fails the length assertions of the code or names a hart that it has no state for.
- sat_addu and sat_subu, popcount and the other one-line helpers of arith.h.
- Instruction semantics, the disassembler, sockets, terminals, the system call proxy, ELF loading and threads.
