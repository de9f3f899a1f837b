# NetWalk data plane: model and proofs

This project models the flow unit, the packet buffers and the pre-processor of the
NetWalk OpenFlow data plane, and proves properties of the model with Dafny 4.11.
`dafny verify dfyconfig.toml` verifies the whole project.

## What is modelled

**The flow table.** Four flat byte arrays hold flow rows, masks, action sets and flag
words. No flow row says which mask it belongs to: the first row of every mask group but
the first carries a marker bit, and a row's mask is the number of markers up to it. Adding
a rule finds or creates a group, moves rows down, and moves actions and flags separately;
deleting moves everything up, and drops a mask or hands the marker on.

* `Tcam` has the code's loops on the flat arrays. Each method is proved to make of the
  arrays what a function of `FlowModel` or `ModifyModel` says about the four tables as one value.
* `RuleList` is the reference: a plain list of rules, each with its own mask, with add,
  delete, modify and search on it. It knows no markers, tails, stale rows or counters.
* `Refinement` and `TableTheorems` prove that the tables and the list return the same
  results over every legal run, and say exactly when an add does what its caller means.
* `Duplicates` says what keeps equal rules out of the list, and what the scan for them does as
  it is written.
* `FailingRuns` and `BrokenTables` have runs from an empty table into the states in which their
  conditions fail, and in which an add or a search leaves the tables.
* `TableMachine` drives the arrays themselves through any legal run, with or without the cache.
* `Priority` and `MaskGroups` hold the two arguments everything rests on: who wins among
  the matching rules, and how counts of markers change when a row is put in or taken out.
* `CacheModel` and `FlowUnit` are the cache in front of the tables; `CacheChanges` says exactly which
  deletions and additions, none of which looks at the cache, leave it sound, over single steps and
  whole runs, and `CacheRecords` which rows it holds after a run.

**Bit fields.** `Bytes`, `Fields`, `Matching`, `RowTables` and `ModifyModel`: single bits of
byte arrays, unaligned fields as a lawful lens, and `modify_entry` as the inverse of dense packing.
`ActionFields` says the same without any table of offsets, bit by bit, and has the lines that
`apply_action` prints.

**The packet pipeline.** `PacketBuffers` is the ring with three cursors, `MatchFieldBuffers`
the ring of match fields, `Packets` the framing of packets and its round trip through both readers,
`MatchFieldLayout` the placing of the fifteen header fields, `MatchFieldMeaning` what a match field
has to be for the bytes of a packet, `PreProcessing` the composing of match fields and the two buffers
working in step, and `Pipeline` whole runs of the pre-processor.

Bytes are `bv8`, so counters wrap at 256 and priorities compare unsigned.

## Where the code and its intent part

The model keeps the code's behaviour in each of these, unless the line says otherwise.

* `flow-processing-unit/flow_unit.h:221` compares the new entry's byte *i* (the row number)
  with byte *l* of the row. The parameter `Line221` selects that (`ByRow`) or byte *l*
  (`ByByte`); everything is proved for both. A run stays free of duplicates exactly when its scans
  catch every one (`RunKeepsNoDuplicates`), which `ByByte` always does. `ByRow` answers every add to a
  given group as `ByByte` does exactly when the bytes it uses agree with the whole entry under
  the mask (`ScanAsWrittenIsRightExactly`); in `ScanAsWrittenAdmitsDuplicates` they do not.
* A deletion never drops mask 0 (line 493, because row 0 has no marker). After the only rule
  of the first group is gone its mask stays behind. `AddWorksExactly` proves that the answer to an
  add, refusals included, is then wrong exactly when the add uses that mask or the table is empty.
  After the last rule of all has been deleted the next add is answered wrongly whatever its mask
  (`EmptiedTableMisplacesAdd`), most simply by refusing the rule just deleted (`ReAddIsRefused`).
* Masks are compared (line 255) before bits 357..359 are cleared (lines 86-88), so stored
  masks stay distinct exactly under the condition of `AddKeepsDistinctExactly`;
  `UncleanMaskIsStoredTwice` is a run without it. Bit 356, the marker, is not cleared, so a mask that
  selects it matches on the marker (`MarkerSeen`). Legal runs add clean masks only.
* A search without a match is not handled by `delete_flow_entry` (line 489) and
  `modify_entry` (line 518), which then index rows by -1. A matching rule is a precondition of both.
* Line 498 reads row `flow_pos + 1` even when the array has none. The model has the missing
  bound; the read is outside the table, so there is no behaviour to model.
* An add can leave the tables: a new mask is written beyond a full mask table, and under a stored mask whose
  group `locate_mask_group` does not find the scan begins at row -10 (lines 203 and 263-266). `MaskRoom` is the
  precondition, and `AddLeavesTheTables` says exactly when it fails. Both states are reached from an
  empty table: `MaskTableOverflows` with one row still free, `StoredMaskIsNotFound` after a rule has been
  added to an emptied table. Under the group invariant there is only the first, exactly when one row is free,
  no two rows share a mask and the first mask has lost its group (`AddLeavesTheTablesExactly`);
  while the first group has its rules, neither (`EveryMaskOwnsAGroup`, `StoredMaskHasPlace`).
* A rule added to an emptied table can bring back a row whose mask is gone
  (`AddToEmptiedIsSoundExactly`); every search of such a table returns STR_ERR (`EverySearchFails`).
* The cache search (line 304) begins one slot beyond those written. In the first lap that slot
  is unwritten and its mask -1 would index the mask table; the model skips it. After every
  full lap the code does not look at the cache at all until the next write, and so does the model.
* A lookup prefers the cache, even where the tables hold a better rule (`CachedHidesBetter`) or the
  rule cached has been deleted (`DeletedRuleIsStillFound`).
* Neither ring lowers its full flag. `PacketBuffer.Add` says so: once full, nothing is accepted.
* A ring whose 1000 bytes are all pre-processed looks to `PacketBuffer.Dequeue` like one with none.
  So the pre-processing reader gives back every frame that fits the ring, the transmission reader
  only if they leave one slot free (`FramedRoundTrip`, `TenPacketsAreStuck`), and a match field
  returned in that state leaves without its packet (`ReturnMatchFieldAndPacket`,
  `FieldLeavesItsPacketBehind`).
* The pre-processing readers do not look at the tail. `DequeueForPreprocessing` and
  `ReadAPacketForPreprocessing` say exactly when the ring's invariant survives them.
* `packet-buffer/match_field_buffer.h:13` declares 900 bytes and line 51 wraps at 1000. The
  model's array has the length of the wrap.
* `set_match_field_bits_as_zeros` sets ones, in the model too.
* Packet-side offsets of `prepare_match_field` are taken as they are; they are not those of the
  IPv4, IEEE 802.1Q or MPLS headers.

## Model

| member | source | states |
|---|---|---|
| Bytes.PutBitAt | flow-processing-unit/bit_operations.h:11-43 | set_bit and reset_bit change the addressed bit and no other, as read_bit sees it |
| Bytes.BitsOfByte | flow-processing-unit/bit_operations.h:32-43 | the eight bits of a byte, most significant first, by their values 128 to 1 |
| Bytes.SetBit | flow-processing-unit/bit_operations.h:11-19 | the array afterwards, bit by bit |
| Bytes.ResetBit | flow-processing-unit/bit_operations.h:21-30 | the array afterwards, bit by bit |
| Bytes.ReadBit | flow-processing-unit/bit_operations.h:32-43 | reads bit pos counted from the most significant bit of byte 0 |
| Fields.ExtractField | flow-processing-unit/modify_field.h:20-28 | copies an unaligned bit range of an entry to the front of a buffer and leaves the rest of the buffer |
| Fields.ReplaceField | flow-processing-unit/modify_field.h:32-40 | overwrites an unaligned bit range of an entry and leaves the rest of the table |
| Fields.ReplaceAt | flow-processing-unit/modify_field.h:32-40 | value of every bit after a replacement, inside and outside the range |
| Fields.PutGet | flow-processing-unit/modify_field.h:20-40 | a field reads back as written, at every unaligned range |
| Fields.GetPut | flow-processing-unit/modify_field.h:20-40 | writing back what was read changes nothing |
| Fields.PutPut | flow-processing-unit/modify_field.h:32-40 | the second write of a field hides the first |
| Fields.DisjointWritesCommute | flow-processing-unit/modify_field.h:32-40 | writes of disjoint ranges commute |
| Fields.DisjointWriteUnseen | flow-processing-unit/modify_field.h:20-40 | a write is invisible to a disjoint read |
| Fields.DifferentEntriesCommute | flow-processing-unit/modify_field.h:32-40 | writes inside different entries of one table commute, and neither is seen by a read of the other entry |
| Matching.MarkerUnseen | flow-processing-unit/flow_unit.h:355-368 | under a mask without bit 356 the marker takes no part in matching |
| Matching.MarkerSeen | flow-processing-unit/flow_unit.h:83-88 | under a mask with bit 356 it does: some match fails by the marker alone |
| Matching.AgreeIsBits | flow-processing-unit/flow_unit.h:355-368 | two match fields agree exactly when they are equal in every one of the 360 bits whose own mask bit is set |
| Matching.NormalisedBits | flow-processing-unit/flow_unit.h:83-88 | a stored mask is the one supplied with bits 357, 358 and 359 cleared |
| Matching.UnusedBitsUnseen | flow-processing-unit/flow_unit.h:83-88 | so those three bits of a packet have no part in what a stored mask matches |
| Matching.NormalisedIdempotent | flow-processing-unit/flow_unit.h:83-100 | normalising a stored mask again changes nothing |
| Matching.StoredBytes | flow-processing-unit/flow_unit.h:103-120 | a row is written as the 46 bytes supplied, counter 0 and timeout 255 |
| RuleList.CleanMaskBits | flow-processing-unit/flow_unit.h:83-88 | a clean mask is one that selects none of bits 356 to 359 |
| MaskGroups.MaskOfLocatedGroup | flow-processing-unit/flow_unit.h:173-206 | get_mask_pos undoes locate_mask_group for every mask from that of row 0 to the last |
| MaskGroups.LocatedGroupOfRow | flow-processing-unit/flow_unit.h:173-206 | locate_mask_group of get_mask_pos of a row is the last group start not after the row |
| MaskGroups.LocateMarkerSpec | flow-processing-unit/flow_unit.h:185-206 | STR_ERR exactly when there are too few markers, otherwise the row with the k-th marker |
| MaskGroups.GroupExtent | flow-processing-unit/flow_unit.h:211-239 | the rows scanned for duplicates are exactly those of one mask |
| MaskGroups.IndexAfterInsert | flow-processing-unit/flow_unit.h:142-153 | what an inserted row does to every other row's mask number |
| MaskGroups.IndexAfterDelete | flow-processing-unit/flow_unit.h:486-505 | what a deletion, with or without handing over the marker, does to every survivor's mask number |
| Priority.BestWins | flow-processing-unit/flow_unit.h:369-385 | the pass finds the lowest-index match of maximal priority, and nothing exactly when nothing matches |
| Priority.BestAfterInsert | flow-processing-unit/flow_unit.h:369-385 | the winner after an insertion from the winner before it |
| Priority.BestAfterRemove | flow-processing-unit/flow_unit.h:369-385 | removing a loser leaves the winner |
| FlowModel.GroupInvIsSound | flow-processing-unit/flow_unit.h:349-353 | under the group invariant no row is without a mask, so search_tcam never returns STR_ERR |
| FlowModel.StoredMaskHasPlace | flow-processing-unit/flow_unit.h:263-266 | under the group invariant the group of a stored mask is located |
| FlowModel.SearchKeeps | flow-processing-unit/flow_unit.h:369-385 | a search changes counters only: markers, masks, priorities and invariants stay |
| FlowModel.SearchFinds | flow-processing-unit/flow_unit.h:340-391 | -1 exactly when every row differs from the packet in some bit its mask selects; otherwise the first such row of highest priority byte |
| FlowModel.ScanHitsBits | flow-processing-unit/flow_unit.h:218-230 | what the scan compares, bit by bit: as written the bits of the entry's byte r, over and over; read by byte the bits of its own number |
| Tcam.TcamUnit.SearchTcam | flow-processing-unit/flow_unit.h:340-391 | counts the packet on every matching row, returns the winner and its own mask number, -1 exactly when every row differs in some bit its mask selects, STR_ERR exactly when a row lacks a mask, the rows before it being counted |
| Tcam.TcamUnit.CountMismatch | flow-processing-unit/flow_unit.h:355-368 | 0 exactly when two match fields are equal in every bit that the mask selects |
| Tcam.TcamUnit.GetMaskPos | flow-processing-unit/flow_unit.h:173-182 | the mask number of a row |
| Tcam.TcamUnit.LocateMaskGroup | flow-processing-unit/flow_unit.h:185-206 | the first row of a mask's group |
| Tcam.TcamUnit.FindMask | flow-processing-unit/flow_unit.h:253-260 | whether a mask is stored, and first where |
| Tcam.TcamUnit.SearchWithinMaskGroup | flow-processing-unit/flow_unit.h:211-239 | RDNDNT exactly when the scan takes a row of the group for a duplicate, otherwise the end of the group |
| Tcam.TcamUnit.WriteNewMask | flow-processing-unit/flow_unit.h:83-100 | the mask table, its tail and, bit by bit, the caller's mask afterwards |
| Tcam.TcamUnit.WriteNewFlowEntry | flow-processing-unit/flow_unit.h:103-120 | one row written with counter 0 and timeout 255 |
| Tcam.TcamUnit.WriteNewAction | flow-processing-unit/flow_unit.h:124-138 | one action set and flag word written |
| Tcam.TcamUnit.RestructureFlowTable | flow-processing-unit/flow_unit.h:142-153 | every row from pos on moved down by one by the overlapping copy loop |
| Tcam.TcamUnit.RestructureActionTables | flow-processing-unit/flow_unit.h:156-169 | actions and flags moved down in step |
| Tcam.TcamUnit.AddNewFlowEntry | flow-processing-unit/flow_unit.h:245-295 | flow and mask tables, returned position and both caller arrays afterwards |
| Tcam.TcamUnit.AddNewEntry | flow-processing-unit/flow_unit.h:470-483 | all four tables, the result and both caller arrays afterwards; refined by Refinement.AddRefines |
| Tcam.TcamUnit.DeleteRestructureMask | flow-processing-unit/flow_unit.h:418-430 | masks after pos moved up by one |
| Tcam.TcamUnit.DeleteRestructureFlow | flow-processing-unit/flow_unit.h:435-446 | rows after pos moved up by one |
| Tcam.TcamUnit.DeleteRestructureAction | flow-processing-unit/flow_unit.h:451-464 | actions and flags moved up in step |
| Tcam.TcamUnit.DeleteFlowEntry | flow-processing-unit/flow_unit.h:486-505 | all four tables and the result afterwards; refined by Refinement.DeleteRefines |
| Tcam.TcamUnit.ModifyEntry | flow-processing-unit/flow_unit.h:511-644 | all four tables and the result afterwards; its meaning is ModifyModel.ModifyUnpacks |
| Refinement.SearchRefines | flow-processing-unit/flow_unit.h:340-391 | a search of the tables is a lookup in the list of rules and changes no rule |
| Refinement.AddRefines | flow-processing-unit/flow_unit.h:470-483 | a safe add gives the list's answer (full, redundant or position) and inserts exactly the new rule at the end of its group, all other rules keeping every component |
| Refinement.GroupOfMask | flow-processing-unit/flow_unit.h:261-266 | the group the code locates is where the rules with that mask are, and its end is just after the last of them |
| Refinement.RemoveRefines | flow-processing-unit/flow_unit.h:490-504 | removing row p removes rule p, and drops a mask exactly when no rule needs it and it is not the first |
| Refinement.SoleMeansUnowned | flow-processing-unit/flow_unit.h:493-496 | the code's test for dropping a mask, by markers, is the right one |
| Refinement.RemovedMask | flow-processing-unit/flow_unit.h:493-503 | no surviving row changes its mask, in the weak invariant already |
| Refinement.RemoveKeepsInv | flow-processing-unit/flow_unit.h:486-505 | every deletion keeps the weak group invariant |
| Refinement.RemoveKeepsFirstGroup | flow-processing-unit/flow_unit.h:493-500 | the strong invariant survives a deletion exactly when it is not that of the sole rule of the first group |
| Refinement.DeleteRefines | flow-processing-unit/flow_unit.h:486-505 | a delete returns and removes the rule that the list's lookup finds |
| Refinement.DeleteTakesTheWinner | flow-processing-unit/flow_unit.h:486-505 | a delete returns what the search returns and the rules are those before and after it |
| Refinement.ModifyRefines | flow-processing-unit/flow_unit.h:511-644 | a modify changes exactly that rule, in action, priority and flag |
| TableTheorems.RunRefines | flow-processing-unit/flow_unit.h:466-644 | over every legal run of adds, deletes, modifies and searches, tables and list return the same results and end in corresponding states |
| TableTheorems.EmptyTable | flow-processing-unit/test_flow_processing_unit.c:23-25 | an empty table, whatever its arrays hold, is the empty list and satisfies every invariant |
| TableTheorems.EveryMaskOwnsAGroup | flow-processing-unit/flow_unit.h:18-22 | under the strong invariant each mask owns a non-empty contiguous group and masks are no more than rows |
| TableTheorems.ScanByByteIsExact | flow-processing-unit/flow_unit.h:208-239 | with line 221 read by byte, an add under a stored mask is refused exactly when some rule of that mask agrees with the entry on all masked bits, or, if the mask owns no rule, when one of the rows taken for its group does, in an emptied table the deleted row 0 |
| Duplicates.AddKeepsNoDuplicates | flow-processing-unit/flow_unit.h:208-239 | with either reading of line 221, an add leaves no two rules that agree under their common mask exactly when the table is full, the scan hits, or there is no duplicate to hit |
| Duplicates.RunKeepsNoDuplicates | flow-processing-unit/flow_unit.h:208-239 | with either reading, no state of a legal run holds such a pair exactly when every duplicate offered is caught; read by byte, none ever does |
| Duplicates.ScanAsWrittenIsRightExactly | flow-processing-unit/flow_unit.h:218-230 | as written, an add to a given arrangement of groups gives, for every possible content of the rules, the answer and table of one read by byte exactly when the byte used for each row of the group agrees with all bytes of the entry under the mask |
| Duplicates.MissedAt | flow-processing-unit/flow_unit.h:218-230 | where the byte for row r does not agree, some content of the group has an exact duplicate in row r that the scan as written misses |
| Duplicates.FittingRunIsMeant | flow-processing-unit/flow_unit.h:218-230 | a run whose adds all meet that condition is the run read by byte, results included, and free of duplicates |
| TableTheorems.AddWorksExactly | flow-processing-unit/flow_unit.h:245-295 | an add of a clean mask is answered rightly (full, redundant, or the intended rule inserted where it says) exactly when the table is full, or its mask has a rule or is new and the table is not emptied |
| TableTheorems.AddedAtGroupEnd | flow-processing-unit/flow_unit.h:261-280 | an accepted safe add puts the rule just behind the last of its mask, or last of all if the mask is new |
| TableTheorems.AddedRow | flow-processing-unit/flow_unit.h:103-138 | the slot of an accepted add: the entry bit for bit but bit 356, which says whether a new group but the first begins; counter 0, timeout 255, action set and flag word |
| TableTheorems.CountersAfterAdd | flow-processing-unit/flow_unit.h:142-153 | rows that make room restart at counter 0 and timeout 255, the others keep theirs |
| TableTheorems.CountersAfterDelete | flow-processing-unit/flow_unit.h:435-446 | so do the rows that move up |
| TableTheorems.AddLeavesTheTables | flow-processing-unit/flow_unit.h:245-295 | for any table, an add works outside the tables exactly when a row is free and the mask is new to a full mask table, or stored with too few markers to be located |
| TableTheorems.AddLeavesTheTablesExactly | flow-processing-unit/flow_unit.h:245-295 | under the group invariant, exactly when one row is free, the mask is new and every live row carries a marker |
| TableTheorems.AddToLeftover | flow-processing-unit/flow_unit.h:211-239 | in an emptied table an accepted add of the left-over mask revives the deleted row and hides the new one |
| TableTheorems.AddToUnowned | flow-processing-unit/flow_unit.h:263-280 | under an emptied first mask the new rule joins the next mask's group |
| TableTheorems.EmptiedTableMisplacesAdd | flow-processing-unit/flow_unit.h:486-505 | after the last rule is deleted the next add of any clean mask, accepted or refused, is answered wrongly |
| TableTheorems.DeletedRowRefusesAdd | flow-processing-unit/flow_unit.h:211-239 | after the last rule is deleted an add of the left-over mask is refused exactly when its entry agrees with the deleted row, although there is no rule |
| TableTheorems.AddKeepsGroupInv | flow-processing-unit/flow_unit.h:245-295 | every add, of any mask, keeps the weak and the strong group invariant; in an emptied table the weak one exactly when the left-over mask is added again and is refused or revives an unmarked row |
| TableTheorems.AddToEmptiedIsSoundExactly | flow-processing-unit/flow_unit.h:211-239 | after an accepted add to an emptied table the row has a mask exactly when a mask was stored or the revived row has no marker |
| TableTheorems.AddKeepsDistinctExactly | flow-processing-unit/flow_unit.h:253-291 | stored masks stay distinct exactly when normalising does not meet a stored one |
| TableTheorems.AddThenDelete | flow-processing-unit/flow_unit.h:470-505 | add then delete gives back the rules, and the masks exactly when the table was not empty |
| TableTheorems.LookupAfterAdd | flow-processing-unit/flow_unit.h:340-391 | the lookup after an add, with its action set, from the lookup before it |
| TableTheorems.LookupAfterDelete | flow-processing-unit/flow_unit.h:340-391 | a deletion changes no lookup that another rule wins |
| TableTheorems.CountersCountHits | flow-processing-unit/flow_unit.h:370-372 | over any run of searches a row's counter grows by the packets it matched, modulo 256 |
| TableTheorems.ModifyKeepsCounter | flow-processing-unit/flow_unit.h:624-638 | a modify leaves the chosen row's counter as it was, or as supplied |
| ModifyModel.ModifyUnpacks | flow-processing-unit/flow_unit.h:530-641 | for every flag word, selected fields read at apply_action's offsets become their packed values, unselected fields and other rules stay |
| ModifyModel.EditedField | flow-processing-unit/flow_unit.h:530-615 | each action field after the editing, for any values |
| ModifyModel.PackedFieldAt | flow-processing-unit/flow_unit.h:522-636 | val_pos is where the dense packing has the field |
| ActionFields.ModifyTakes | flow-processing-unit/flow_unit.h:511-644 | with the values packed densely in flag order, each of the fifteen fields, at its own bit numbers and flag bit, becomes its value if selected; nothing else of the rule changes but the flags, which are united with the new ones |
| ActionFields.DenseIsPacked | flow-processing-unit/flow_unit.h:522-636 | the dense packing written out field by field is the one ModifyModel counts offsets in |
| ActionFields.ShowActions | flow-processing-unit/flow_unit.h:685-757 | the lines printed: drop alone, or the selected fields in order, each with the bytes of its own bits, and the output port always |
| ActionFields.LinesInOrder | flow-processing-unit/flow_unit.h:685-757 | unless the packet is dropped, no field is printed twice, out of order or without its flag bit, and the output port comes last |
| ActionFields.ModifiedIsPrinted | flow-processing-unit/flow_unit.h:511-757 | for the rule modified, unless it drops packets, apply_action prints every selected field with the value given for it |
| CacheModel.HitIsBestCached | flow-processing-unit/flow_unit.h:298-334 | a hit is a live matching rule of the highest priority among the cached ones; a miss means no cached rule matches |
| CacheModel.HitIsFirstOfBest | flow-processing-unit/flow_unit.h:304-330 | a hit stands in the first visited slot among those of the cached matches of its priority, and that priority is the highest |
| CacheModel.LookupIsSearchExactly | flow-processing-unit/flow_unit.h:657-667 | a lookup is the full search exactly when the cache misses, or holds the winner in a slot visited before those of other matches of its priority |
| CacheModel.LookupOfDistinctPriorities | flow-processing-unit/flow_unit.h:657-667 | with distinct priorities, exactly when the cache misses or holds the winner |
| CacheModel.LookupOfUniqueMatch | flow-processing-unit/flow_unit.h:657-667 | if at most one rule matches, the cache never changes the answer |
| CacheModel.QuietRunKeepsSound | flow-processing-unit/flow_unit.h:405-411 | over any run of packets and modifies since init every written slot is the (mask, row) pair of a live row |
| CacheModel.ClearedIsSound | flow-processing-unit/flow_unit.h:73-79 | init leaves a sound cache |
| CacheModel.CacheCounts | flow-processing-unit/flow_unit.h:318-319 | a cache search counts the packet, modulo 256, once for every slot visited that names the row and matches |
| CacheRecords.RecordsInSlots | flow-processing-unit/flow_unit.h:405-411 | after n records since init the cursor is n % 5 + 1 and each of the last five is in slot 4 - k % 5 |
| CacheRecords.VisitedRecords | flow-processing-unit/flow_unit.h:303-304 | a cache search looks at record n - 5 or an unwritten slot, then at those of the present lap, the latest first; at nothing after every full lap |
| CacheRecords.CachedAfterRun | flow-processing-unit/flow_unit.h:405-411 | which rows are cached after any run of packets and modifies since init |
| CacheRecords.LookupAnswers | flow-processing-unit/flow_unit.h:657-667 | for any cache, sound or not, a lookup gives the row of the first visited pair of highest priority that matches, if there is one, and otherwise what the search finds |
| CacheChanges.DeleteKeepsCacheExactly | flow-processing-unit/flow_unit.h:486-505 | a deletion leaves every written slot the (mask, row) pair of a live row exactly when each is of an earlier row, or of one whose successor moves by as many masks as are dropped |
| CacheChanges.AddKeepsCacheExactly | flow-processing-unit/flow_unit.h:245-295 | after an accepted add every row has a mask unless a marked row is revived in an emptied table, and then the slots are those of live rows exactly when each is of an earlier row or of one that begins no group |
| CacheChanges.RunKeepsCacheExactly | flow-processing-unit/flow_unit.h:405-411 | over any run of packets, modifies, adds and deletes the cache is sound at every point exactly when every add and delete meets its condition |
| FailingRuns.ScanAsWrittenAdmitsDuplicates | flow-processing-unit/flow_unit.h:218-230 | a run in which the scan as written accepts the same rule twice |
| FailingRuns.AnswersOfRun | flow-processing-unit/flow_unit.h:208-391 | the numbers returned in a run of every kind of answer: -1, 0, -2, 0, 0, -1 |
| FailingRuns.UncleanMaskIsStoredTwice | flow-processing-unit/flow_unit.h:253-291 | any mask with a bit of 357..359, supplied twice to an empty table, is stored twice with the same rule |
| FailingRuns.UncleanMask | flow-processing-unit/flow_unit.h:86-88 | there is such a mask |
| FailingRuns.ReAddIsRefused | flow-processing-unit/flow_unit.h:211-239 | a rule added to an empty table and deleted is refused as redundant when added again |
| FailingRuns.RuleJoinsNextMask | flow-processing-unit/flow_unit.h:263-280 | a run of accepted adds and one deletion after which a rule belongs to another mask than it was added under |
| FailingRuns.RuleJoinsNextMaskOfBytes | flow-processing-unit/flow_unit.h:263-280 | the same with bytes written out |
| FailingRuns.CachedHidesBetter | flow-processing-unit/flow_unit.h:657-667 | a run from a cleared cache after which a lookup gives a rule of lower priority than the search |
| FailingRuns.CachedHidesBetterOfBytes | flow-processing-unit/flow_unit.h:657-667 | the same with bytes written out |
| FailingRuns.DeletedRuleIsStillFound | flow-processing-unit/flow_unit.h:657-667 | a run after which a lookup finds row 0 of a table without rows |
| BrokenTables.StoredMaskIsNotFound | flow-processing-unit/flow_unit.h:185-206 | add, delete, add under another mask, all accepted: the second mask is stored and locating its group gives STR_ERR |
| BrokenTables.StoredMaskIsNotFoundOfBytes | flow-processing-unit/flow_unit.h:185-206 | the same with bytes written out |
| BrokenTables.MaskTableOverflows | flow-processing-unit/flow_unit.h:83-100 | twenty adds and one deletion: the mask table is full, a row is free, and an add under any mask that is not stored writes outside |
| BrokenTables.TwentyOneAdds | flow-processing-unit/flow_unit.h:248-250 | twenty adds return 0 to 19, the next -3 |
| BrokenTables.EverySearchFails | flow-processing-unit/flow_unit.h:349-353 | five accepted operations after which the only row has no mask, so that every search returns STR_ERR |
| BrokenTables.EverySearchFailsOfBytes | flow-processing-unit/flow_unit.h:349-353 | the same with bytes written out |
| TableMachine.Drive | flow-processing-unit/flow_unit.h:466-644 | the methods on the arrays, driven through any legal run, return what the list of rules returns and end standing for its rules |
| TableMachine.RunOnTables | flow-processing-unit/flow_unit.h:466-644 | the same from new tables |
| TableMachine.LookupFindsARule | flow-processing-unit/flow_unit.h:651-673 | a lookup through a sound cache finds nothing exactly when no rule matches, otherwise a rule that matches, and the winner if there is no other; rules and soundness stay |
| TableMachine.LookupOnTables | flow-processing-unit/flow_unit.h:651-673 | after any legal run from new tables, any sequence of lookups through the cache finds such rules, with their action sets |
| TableMachine.ApplyOnTables | flow-processing-unit/flow_unit.h:651-757 | after any legal run from new tables, packets are answered with -1 and no line exactly when no rule matches, otherwise with 1 and the actions of a rule that matches, the winner if there is no other |
| FlowUnit.FlowUnit.SearchCache | flow-processing-unit/flow_unit.h:298-334 | counters, cache and result afterwards |
| FlowUnit.FlowUnit.SearchFlow | flow-processing-unit/flow_unit.h:396-413 | tables, cache, result and the copied action set |
| FlowUnit.FlowUnit.Lookup | flow-processing-unit/flow_unit.h:651-673 | cache first, tables otherwise; the action set is that of the rule found |
| FlowUnit.FlowUnit.ApplyAction | flow-processing-unit/flow_unit.h:651-757 | tables and cache as after a lookup; returns the search's answer and prints nothing without a rule, otherwise returns 1 and prints the rule's actions |
| PacketBuffers.PacketBuffer.Add | packet-buffer/packet_buffer.h:45-68 | a byte is accepted unless the ring has ever been full; no byte waiting is overwritten |
| PacketBuffers.PacketBuffer.Dequeue | packet-buffer/packet_buffer.h:76-106 | bytes leave in the order accepted, none before it is pre-processed |
| PacketBuffers.PacketBuffer.DequeueForPreprocessing | packet-buffer/packet_buffer.h:253-274 | the next unread byte; the invariant survives exactly when there was one or the buffer was empty |
| PacketBuffers.PacketBuffer.ReadAPacket | packet-buffer/packet_buffer.h:142-164 | the bytes of the oldest frame as far as they are pre-processed, zeros for the rest, and nothing else of the buffer changes |
| PacketBuffers.PacketBuffer.ReadAPacketForPreprocessing | packet-buffer/packet_buffer.h:277-296 | exactly the bytes of the next unread frame, left in the buffer; the invariant survives exactly when the buffer is empty or the frame is there as a whole |
| PacketBuffers.SlotsDiffer | packet-buffer/packet_buffer.h:55-66 | two bytes of the history share a slot only a whole lap apart |
| MatchFieldBuffers.MatchFieldBuffer.Add | packet-buffer/match_field_buffer.h:40-63 | a byte is accepted unless the ring has ever been full |
| MatchFieldBuffers.MatchFieldBuffer.Dequeue | packet-buffer/match_field_buffer.h:67-94 | bytes leave in the order accepted |
| MatchFieldBuffers.MatchFieldBuffer.ReadAMatchField | packet-buffer/match_field_buffer.h:101-118 | the next 45 bytes, filled up with zeros at the end of the data |
| MatchFieldLayout.EachBitWrittenOnce | pre-composer/pre_processing.h:76-191 | for each recognised EtherType every bit 0..355 is written by exactly one call |
| MatchFieldLayout.FieldInPlace | pre-composer/pre_processing.h:28-191 | every header field ends up at its place in the order of pkt_headers, with its value; both are spelt out in bits by MatchFieldMeaning.ComposedIsFaithful |
| MatchFieldLayout.FieldsIgnoreBuffer | pre-composer/pre_processing.h:63-191 | those bits do not depend on what the buffer held before |
| MatchFieldLayout.OtherKindsLeaveBits | pre-composer/pre_processing.h:102-151 | for any other EtherType bits 318..355 are not written at all |
| PreProcessing.SetMatchFieldBits | pre-composer/pre_processing.h:243-254 | copies an unaligned bit range of the packet |
| PreProcessing.SetMatchFieldBitsAsZeros | pre-composer/pre_processing.h:256-262 | sets a bit range to ones |
| PreProcessing.ComposeMatchField | pre-composer/pre_processing.h:68-191 | the running offsets come out as the calls of MatchFieldLayout, for all four kinds |
| Packets.FrameDecodes | packet/packet.h:311-340 | a frame gives back port, metadata and data; its length byte is right exactly when the packet is well framed |
| Packets.WholePacketIsWellFramed | packet/packet.h:315-316 | a packet captured whole is well framed exactly when its length and the twelve bytes added fit a byte |
| Packets.LoadAPacketToThePacketBuffer | packet/packet.h:311-340 | appends the frame, cut off where the ring becomes full |
| Packets.FrameInFrames | packet-buffer/packet_buffer.h:142-164 | the k-th frame lies between its boundaries in the history of whole frames |
| Packets.LoadFrame | packet/packet.h:311-340 | one more frame joins those waiting exactly when it is well framed and fits the ring |
| Packets.ReadForPreprocessing | packet-buffer/packet_buffer.h:277-296 | the next frame of a buffer of frames, of any length up to 256, at any interleaving |
| Packets.ReadForTransmission | packet-buffer/packet_buffer.h:142-164 | the oldest frame, exactly when one is pre-processed and the pre-processed ones do not fill the ring; otherwise nothing changes |
| Packets.FramedRoundTrip | packet-buffer/packet_buffer.h:142-296 | for any list of well framed packets, loaded and read by both readers: every frame that fits is pre-processed byte for byte, and transmitted byte for byte exactly when the frames leave a slot free |
| Packets.TenPacketsFillTheRing | packet-buffer/packet_buffer.h:12-66 | a list of packets whose frames take exactly the ring |
| Packets.TenPacketsAreStuck | packet-buffer/packet_buffer.h:76-106 | that list is pre-processed completely and none of it can be transmitted |
| MatchFieldMeaning.ComposedIsFaithful | pre-composer/pre_processing.h:61-191 | for every packet: port, metadata, MAC addresses and EtherType in bits 0..207, and by the packet's own EtherType bytes 0x0800, 0x8100, 0x8847 or any other, the bits from 208 on, each from its numbered bits of the frame or all ones |
| MatchFieldMeaning.FaithfulInOrder | pre-composer/pre_processing.h:28-191 | so a recognised packet that is long enough has all fifteen header fields in the order of pkt_headers |
| PreProcessing.PreProcessor.Load | pre-composer/pre_processing.h:48-50 | one more packet in the history; the buffers stay in step exactly when it is well framed and fits the ring |
| PreProcessing.PreProcessor.PrepareMatchField | pre-composer/pre_processing.h:61-199 | the next packet's match field joins the history, faithful to that packet; the buffers stay in step exactly when the match field ring has room |
| PreProcessing.PreProcessor.ReturnMatchFieldAndPacket | pre-composer/pre_processing.h:202-207 | the k-th pair returned is the k-th packet loaded and the match field composed from it; the buffers fall out of step exactly when the ring is full of pre-processed packets |
| Pipeline.RunPipeline | pre-composer/pre_processing.h:48-207 | over any run of loads, preparations and returns that stays in step, the k-th pair that comes out is the k-th packet loaded, byte for byte, and a match field faithful to it |
| Pipeline.InTurnStaysInStep | pre-composer/pre_processing.h:48-207 | loading, preparing and returning one packet after another stays in step for any number of packets of at most 100 bytes each |
| Pipeline.EveryPacketInTurn | pre-composer/pre_processing.h:48-207 | so every packet of any such list comes back with its match field |
| Pipeline.FieldLeavesItsPacketBehind | packet-buffer/packet_buffer.h:76-106 | ten packets that fill the ring: the first match field is returned and no packet with it |

## Left out

- Log files, pcap reading, and console output other than the actions that `apply_action` prints.
- `processor/`, `ceyloniac-processor/`, `include/` and `flow-manager/`: dispatch over fixed buffers, declarations and stubs.
- The timeout byte as behaviour: it is stored, but nothing expires rules.
- Tcam.TcamUnit.SearchTcam: the mask number is an out-parameter here, where the code writes it through a pointer and leaves it alone without a match.
- Tcam.TcamUnit.AddNewFlowEntry: a new mask for a full mask table and a stored mask whose group is not located are excluded, because the code then writes or reads outside the tables.
- Tcam.TcamUnit.AddNewEntry: the same two cases.
- TableTheorems.AddWorksExactly: the same two cases; `AddLeavesTheTablesExactly` says when they arise.
- TableTheorems.AddKeepsGroupInv: the same two cases.
- Tcam.TcamUnit.DeleteFlowEntry: a packet that matches no rule, and a table with a row that has no mask, are excluded, because the code would then index every table by -1 or by STR_ERR.
- Tcam.TcamUnit.ModifyEntry: a match field that no rule matches is excluded, for the same reason.
- FlowUnit.FlowUnit.SearchCache: a slot that nothing has written is skipped, where the code indexes the mask table by -1.
- PreProcessing.PreProcessor.PrepareMatchField: there is an unread packet and its frame fits the code's 100-byte buffer, because the code would otherwise write outside it; bits 356..359, and header fields beyond the end of a short packet, come from uninitialised memory and are not described.
