# Models of the ACL, attribute, traversal, catalogue and hashing code of xfstests-bld

xfstests-bld vendors the C programs and libraries its test runs need. This
project models the parts of them that carry state or invariants and proves
what they promise, in Dafny. Each module follows one component.

**POSIX ACLs** (`Acl*`, `SetFacl*`). An ACL is a ring of entry nodes with a
sentinel and a cursor, kept in (tag, id) order by re-insertion. `AclRing` is the
ring as heap objects with inverse links; `AclEntry`, `AclOps`, `AclTools` say
what each operation does to the list of entries. `AclCheck` proves the one-pass
checker equal to the definition of a valid ACL (POSIX 1003.1e draft 17),
`AclRuns` covers whole runs of the library calls, `AclMode` and `AclXattr` the
conversions to mode bits and attribute bytes, `AclText*` the printer and the two
parsers. `AclMap` and `AclCommands` reduce setfacl's commands to updates of a
finite map, `SetFacl` and `SetFaclRing` are `do_set` on values and on rings, and
`AclRestore` is the round trip of getfacl's dump through `setfacl --restore`.

**Extended attributes** (`Attr*`). The three notations of values, the growing
buffers they are written to, quoting of names, and dump and restore of files.

**Directory traversal** (`WalkTree`, `WalkBudget`, `WalkHandles`). The walk of a
finite, possibly cyclic directory graph: without handles, with the number of
streams it may keep open, and with the list of handles whose outermost streams
are closed when the budget or the descriptors run out.

**Message catalogues** (`Probing`, `Gettext`). Double hashing against binary search.

**postmark** (`Mersenne`, `Postmark`, `PostmarkTable`). The in-place random number
generator, a whole run on values, and the file table updated in place.

**lookup3** (`Lookup3`). The three ways of reading a key.

Conventions. C `int` counts and positions are unbounded integers; ids are below
2^32, permissions and hashes are bit vectors of their C width, `long` has 64
bits. What system calls answer, random numbers, the locale and account lookups are
parameters. Bytes of text are characters below 256.

What the models show about the code:

- Giving an entry inside a ring a named tag while its qualifier is missing can
  leave the ring unsorted; filling in an entry appended last cannot (`AclRuns`).
- `acl_check` reports a second OTHER entry as a missing entry, although the
  documentation has an error for repeated entries (`AclCheck.Diagnosis`).
- `snprint_uint` stores a NUL one byte past its size exactly when one byte is
  left for the number zero. `__acl_to_any_text` can be led there; the exact
  condition and an input are stated, and the text returned is not affected
  (`AclTextBuffer.ToAnyText`, `StrayReached`).
- Permission bits beyond rwx survive neither text nor mode bits, and those beyond
  the low 16 not the attribute bytes; the exact conditions are stated.
- A text whose last line has a comment and a newline after it is refused by
  `acl_from_text`; a printed valid ACL never ends so.
- Removing the extended entries works on the access ACL whatever the command
  addresses, so a default ACL keeps its extended entries
  (`SetFacl.ExtendedRemoveDefault`); keys with a superfluous or missing qualifier
  do not behave as keys.
- Restoring with mask recalculation changes masks that were not the group union.
- `walk_tree` descends into a link to be followed even if the walk is not
  recursive, which its comment denies; `WalkTree.OneCall` says exactly when.
- Base64 asks for two bytes less than it writes; chunked growth makes room.
- setfattr refuses an empty value that is the first it decodes, since its buffer
  is still null then; getfattr never writes one (`AttrRestore.EmptyValueFirst`).
- A lookup by hash table runs for ever exactly for a message that is not in the
  catalogue and has no empty slot in its first round: with a prime size only if
  the table is full (`Gettext.EndsIff`, `CompositeLoops`, `FullLoops`). Adding a
  system-dependent string runs for ever exactly if its first round has no empty
  slot (`Gettext.GapIff`, `CompositeInsertion`).
- postmark divides by zero when fewer than ten transactions are asked for.

## Model

| member | source | states |
|---|---|---|
| AclEntry.Compare | fstests-bld/acl/libacl/__acl_reorder_obj_p.c:27-41 | the comparison is negative, zero or positive exactly as the first (tag, id) pair precedes, equals or follows the second |
| AclEntry.SortedUnique | fstests-bld/acl/libacl/__acl_reorder_obj_p.c:101-133 | a collection of entries with distinct keys has only one canonical order |
| AclEntry.AppendReorder | fstests-bld/acl/libacl/__acl_reorder_obj_p.c:57-92 | appending a filled-in entry and re-inserting it is insertion before the first greater entry |
| AclRing.AclObj.constructor | fstests-bld/acl/libacl/acl_init.c:26-54 | an empty ring with its cursor on the sentinel and the requested number of preallocated entries |
| AclRing.AclObj.CreateEntry | fstests-bld/acl/libacl/acl_create_entry.c:25-50 | one blank entry more at the end, the cursor where it was, one preallocated entry fewer if there were any, links still inverse |
| AclRing.AclObj.DeleteEntry | fstests-bld/acl/libacl/acl_delete_entry.c:26-43 | exactly that entry goes; a cursor on it moves to the entry before it or to the sentinel, any other cursor stays |
| AclRing.AclObj.GetFirst | fstests-bld/acl/libacl/acl_get_entry.c:26-57 | the cursor goes to the first entry, or to the sentinel of an empty ring |
| AclRing.AclObj.GetNext | fstests-bld/acl/libacl/acl_get_entry.c:26-57 | the cursor goes one entry on, and from the last entry to the sentinel |
| AclRing.AclObj.ReorderEntry | fstests-bld/acl/libacl/__acl_reorder_obj_p.c:57-92 | the ring stays well formed and holds the other entries in their order with this one before the first greater one; an entry not yet filled in does not move |
| AclRing.AclObj.ReorderAll | fstests-bld/acl/libacl/__acl_reorder_obj_p.c:101-133 | a well-formed ring of the same entries, sorted |
| AclRing.SortRing | fstests-bld/acl/libacl/__acl_reorder_obj_p.c:101-133 | relinking a sorted vector forwards and backwards gives a ring through exactly the same nodes |
| AclRing.AclObj.PutEntry | fstests-bld/acl/libacl/acl_copy_entry.c:27-39 | an overwritten entry is re-inserted at its place |
| AclRing.AclObj.SetTagType | fstests-bld/acl/libacl/acl_set_tag_type.c:27-46 | a known tag is stored and the entry re-inserted, an unknown one changes nothing |
| AclRing.AclObj.SetQualifier | fstests-bld/acl/libacl/acl_set_qualifier.c:27-47 | a qualifier is stored and the entry re-inserted if the entry is a named one, else nothing changes |
| AclOps.Dup | fstests-bld/acl/libacl/acl_dup.c:27-53 | a ring sharing no node with the original, with equal entries in equal order |
| AclOps.Cmp | fstests-bld/acl/libacl/acl_cmp.c:26-52 | zero exactly when the rings agree entry by entry in tag, permissions and, where it counts, id |
| AclOps.UpdateMask | fstests-bld/acl/libacl/acl_calc_mask.c:27-66 | the mask entry, created at its place if absent, gets the group-class union; a ring with an unknown tag is refused untouched |
| AclOps.GroupPermsUpper | fstests-bld/acl/libacl/acl_calc_mask.c:27-66 | the computed mask contains the permissions of every group-class entry |
| AclOps.GroupPermsLeast | fstests-bld/acl/libacl/acl_calc_mask.c:27-66 | and is contained in every bound of them |
| AclRuns.StepOrdered | fstests-bld/acl/libacl/__acl_reorder_obj_p.c:57-92 | an operation keeps the settled entries in order if and only if it does not write an unfinished value in front of a smaller settled entry |
| AclRuns.RunOrdered | fstests-bld/acl/libacl/__acl_reorder_obj_p.c:57-92 | so every run of harmless operations ends in canonical order once all entries are settled |
| AclRuns.RetagBreaksOrder | fstests-bld/acl/libacl/acl_set_tag_type.c:27-46 | a concrete run of legal calls that retags an entry inside the ring and ends unsorted |
| AclRuns.Perform | fstests-bld/acl/libacl/acl_create_entry.c:25-50 | each operation on the ring does what it does on the list of entries, and keeps the ring well formed |
| AclRuns.Execute | fstests-bld/acl/libacl/acl_create_entry.c:25-50 | any run from an empty ACL leaves a well-formed ring with the entries the list model predicts |
| AclCheck.ValidListIff | fstests-bld/acl/libacl/acl_check.c:43-126 | validity of the multiset of entries, read off the positions of any listing of it |
| AclCheck.FeedPrefix | fstests-bld/acl/libacl/acl_check.c:43-126 | the automaton survives exactly the prefixes that are ordered and complete so far, and its state is a function of the prefix |
| AclCheck.AcceptsExactly | fstests-bld/acl/libacl/acl_check.c:43-126 | zero exactly for strictly ordered listings of a valid multiset, so the id plus one never wraps |
| AclCheck.AcceptsSorted | fstests-bld/acl/libacl/acl_check.c:43-126 | on a canonically ordered ring: zero if and only if the multiset of entries is a valid ACL |
| AclCheck.ExtendablePrefix | fstests-bld/acl/libacl/acl_check.c:43-126 | a prefix can be completed to an accepted ACL if and only if the automaton survives it |
| AclCheck.Longest | fstests-bld/acl/libacl/acl_check.c:43-126 | the count of entries survived is the length of the longest completable prefix |
| AclCheck.Diagnosis | fstests-bld/acl/libacl/acl_check.c:43-126 | on a sorted ring each error code holds exactly for its fault, except that a second OTHER is called a missing entry |
| AclCheck.Check | fstests-bld/acl/libacl/acl_check.c:43-126 | the loop over the ring returns that code and, in `last`, that length |
| AclMode.EquivMode | fstests-bld/acl/libacl/acl_equiv_mode.c:30-71 | -1 exactly on an unknown tag, 1 exactly when a named or mask entry is present, and the mode bits |
| AclMode.ModeOfValid | fstests-bld/acl/libacl/acl_equiv_mode.c:30-71 | for a valid ACL the mode shows owner, mask or owning group, and other |
| AclMode.AclFromMode | fstests-bld/acl/libacl/acl_from_mode.c:38-72 | the ring of the three base entries of a mode |
| AclMode.ModeRoundTrip | fstests-bld/acl/libacl/acl_from_mode.c:38-72 | a mode made into an ACL is valid, mode-equivalent and gives back its nine permission bits |
| AclMode.AclModeRoundTrip | fstests-bld/acl/libacl/acl_equiv_mode.c:30-71 | a mode-equivalent ACL made into a mode and back compares equal exactly when it has rwx bits only |
| AclMode.UnextendedIsMinimal | fstests-bld/acl/libacl/acl_equiv_mode.c:30-71 | a valid ACL is mode-equivalent exactly when it has three entries |
| AclXattr.ToXattr | fstests-bld/acl/libacl/__acl_to_xattr.c:30-62 | the buffer is filled with the encoding of the entries, no byte more or less |
| AclXattr.FromXattr | fstests-bld/acl/libacl/__acl_from_xattr.c:28-92 | null exactly for malformed bytes, else a well-formed sorted ring of the decoded entries |
| AclXattr.XattrRoundTrip | fstests-bld/acl/libacl/__acl_from_xattr.c:28-92 | decoding an encoded valid ACL compares equal if and only if its permissions fit the 16 bits stored |
| AclXattr.BytesRoundTrip | fstests-bld/acl/libacl/__acl_to_xattr.c:30-62 | encoding what canonical bytes decode to gives the same bytes |
| AclXattr.EncodedCanonical | fstests-bld/acl/libacl/__acl_to_xattr.c:30-62 | encodings of valid ACLs are canonical bytes |
| AclXattr.SizeTest | fstests-bld/acl/libacl/__acl_extended_file.c:31-50 | the size exceeds that of three entries if and only if the ACL is not mode-equivalent |
| AclXattr.ExtendedFileMeans | fstests-bld/acl/libacl/__acl_extended_file.c:31-50 | looking at the sizes of the two attributes answers 1 exactly when the access ACL is not mode-equivalent or there is a default ACL, as decoding them would |
| AclXattr.ExtendedFileFails | fstests-bld/acl/libacl/__acl_extended_file.c:31-50 | an unreadable attribute is an error unless the access ACL has already decided |
| AclTools.FindEntry | fstests-bld/acl/tools/do_set.c:49-81 | the first entry with the tag and, for named tags, the id; none exactly when there is none |
| AclTools.HasExecutePerms | fstests-bld/acl/tools/do_set.c:83-102 | whether some entry grants execution |
| AclTools.WithPermMeans | fstests-bld/acl/tools/do_set.c:146-166 | setting permissions replaces the three rwx bits and keeps the others |
| AclTools.ReplaceEntry | fstests-bld/acl/tools/do_set.c:298-363 | the ring form of replacing or adding an entry, in place |
| AclTools.RemoveEntry | fstests-bld/acl/tools/do_set.c:298-363 | the ring form of removing an entry, nothing allocated |
| AclTools.CloneEntry | fstests-bld/acl/tools/do_set.c:104-122 | the first entry of any tag copied to its place in the target ring and then moved under the new tag if that is known, the source ring unchanged; 1 exactly when there is no such entry |
| AclTools.CloneUnnamed | fstests-bld/acl/tools/do_set.c:104-122 | between tags without qualifier that is insertion of the retagged entry at its canonical place |
| AclTools.MaskedMeans | fstests-bld/acl/tools/do_set.c:199-251 | the owning group is cut down to what the mask allowed, in the rwx bits only |
| AclTools.DropExtended | fstests-bld/acl/tools/do_set.c:199-251 | deleting under the cursor visits every original entry once, in order, and leaves the base entries |
| AclTools.RemoveExtendedEntries | fstests-bld/acl/tools/do_set.c:199-251 | the ring is left with what the list model keeps |
| AclExtended.RemoveExtendedMeans | fstests-bld/acl/tools/do_set.c:199-251 | a valid ACL becomes exactly its three base entries, valid and mode-equivalent, owner, other and effective owning-group permissions unchanged |
| AclMap.MapInjective | fstests-bld/acl/tools/do_set.c:298-363 | a canonical ACL is determined by its map from (tag, id) to permissions |
| AclMap.InsertMap | fstests-bld/acl/tools/do_set.c:298-363 | canonical insertion is a map update |
| AclMap.RemoveMap | fstests-bld/acl/tools/do_set.c:298-363 | removal is removal from the map |
| AclMap.KeepMap | fstests-bld/acl/tools/do_set.c:199-251 | dropping the extended entries restricts the map to the base keys |
| AclCommands.EffectAgrees | fstests-bld/acl/tools/do_set.c:298-363 | one command on a canonical ACL is the same command on the map, `X` resolved against that map |
| AclCommands.EffectsAgree | fstests-bld/acl/tools/do_set.c:298-363 | any command list on a canonical duplicate-free ACL yields the one canonical ACL of the map obtained by folding the commands |
| SetFaclRing.ApplyAll | fstests-bld/acl/tools/do_set.c:298-363 | the same for a list run through the ring operations in place: the ring ends with the ACL of the folded map |
| SetFacl.AccessSteps | fstests-bld/acl/tools/do_set.c:298-363 | a list of any commands addressing the access ACL makes the loop fail exactly when the ACL is unreadable or a command invalid, and else leaves the effects of the list on the ACL read, and nothing else changed |
| SetFacl.AccessStepsMap | fstests-bld/acl/tools/do_set.c:298-363 | so the loop leaves the one canonical ACL of the map folded from the map of the ACL read |
| AclCommands.ReplaceAgreesIff | fstests-bld/acl/tools/do_set.c:298-363 | replacing agrees with the map if and only if the key has a qualifier exactly when its tag needs one |
| AclCommands.RemoveAgreesIff | fstests-bld/acl/tools/do_set.c:298-363 | removing agrees with the map if and only if the key is proper or matches nothing |
| SetFacl.ExtendedRemoveDefault | fstests-bld/acl/tools/do_set.c:298-363 | removing the extended entries of a default ACL fails only if that cannot be read, leaves it as it is, and edits the access ACL exactly when an earlier command loaded it |
| SetFacl.DefaultSurvives | fstests-bld/acl/tools/do_set.c:298-363 | on its own such a command marks the default ACL modified and changes no entry of any ACL |
| SetFacl.LoopKeeps | fstests-bld/acl/tools/do_set.c:298-363 | after the command loop an ACL is loaded only if marked modified, and marked only by a command addressing it |
| SetFacl.FillKeeps | fstests-bld/acl/tools/do_set.c:368-391 | completing a default ACL never marks the access ACL modified |
| SetFacl.WritesChecked | fstests-bld/acl/tools/do_set.c:368-498 | for every command list, file and system-call result, what is written was accepted by the check in this run and was addressed by a command; an access ACL read only to complete a default ACL is never written |
| SetFaclRing.Session.LoadAcl | fstests-bld/acl/tools/do_set.c:169-196 | an ACL is read once, with a separate copy kept for comparison |
| SetFaclRing.Session.Execute | fstests-bld/acl/tools/do_set.c:298-363 | one command on the rings refines the command on lists, errors included |
| SetFaclRing.Session.FillDefault | fstests-bld/acl/tools/do_set.c:368-391 | missing base entries of a default ACL are copied from the access ACL, as on lists |
| SetFaclRing.Session.CheckAccess | fstests-bld/acl/tools/do_set.c:393-417 | mask repair and check of the access ACL, as on lists |
| SetFaclRing.Session.CheckDefault | fstests-bld/acl/tools/do_set.c:419-445 | mask repair and check of the default ACL, as on lists |
| SetFaclRing.Session.DropUnchanged | fstests-bld/acl/tools/do_set.c:454-470 | an ACL equal to the one read is not written |
| SetFaclRing.DoSetOnRings | fstests-bld/acl/tools/do_set.c:260-527 | the whole of `do_set` on rings makes the same writes and errors as on lists |
| AclTextBuffer.SnprintUint | fstests-bld/acl/libacl/__acl_to_any_text.c:300-325 | the digits that fit, the full length returned, nothing written elsewhere except one NUL past the end exactly when one byte was left for a zero |
| AclTextBuffer.EntryToAnyStr | fstests-bld/acl/libacl/__acl_to_any_text.c:124-286 | as much of the entry's text as fits, its full length, and no store outside except that NUL, which is stored whenever an id zero meets one last cell |
| AclTextBuffer.FitEntry | fstests-bld/acl/libacl/__acl_to_any_text.c:64-102 | growing and retrying ends with the whole entry in the buffer, what was there before kept, and tells exactly when the first try stored behind the buffer |
| AclTextBuffer.ToAnyText | fstests-bld/acl/libacl/__acl_to_any_text.c:38-102 | the text does not depend on how often the buffer was grown; a store falls behind the buffer if and only if some entry with id zero is reached when its id has exactly one cell left at the size grown so far |
| AclTextBuffer.StrayReached | fstests-bld/acl/libacl/__acl_to_any_text.c:38-102 | a valid ACL of five entries, with any prefix of sixteen characters, for which that happens |
| AclText.GetIdDecimal | fstests-bld/acl/libacl/acl_from_text.c:127-145 | the decimal notation of an id, read with `strtol`, is that id |
| AclTextScanner.Entry1 | fstests-bld/acl/libacl/acl_from_text.c:193-313 | the moving text pointer reads the entry, and stops, where the grammar says |
| AclTextScanner.AclFromText | fstests-bld/acl/libacl/acl_from_text.c:43-73 | null exactly for text outside the grammar, else a well-formed ring of the entries inserted in turn |
| AclTextRoundTrip.EntryParsed | fstests-bld/acl/libacl/acl_from_text.c:193-313 | a printed entry, in any style, is read back with its tag, id and rwx bits and nothing after it consumed |
| AclTextRoundTrip.LinesParsed | fstests-bld/acl/libacl/acl_from_text.c:43-73 | any list of printed lines, with effective-rights comments or not, is read back, unless a newline follows a comment at the very end |
| AclTextRoundTrip.AnyOrderParsed | fstests-bld/acl/libacl/acl_from_text.c:43-73 | parsing any permutation of the lines gives the same ACL, under the same condition |
| AclTextRoundTrip.TextRoundTrip | fstests-bld/acl/libacl/__acl_to_any_text.c:38-102 | printing and parsing a valid ACL, in every style, compares equal if and only if it has rwx bits only |
| AclTextScanner.CommandAt | fstests-bld/acl/tools/parse.c:184-353 | the moving text pointer of the second parser reads the command, and stops, where its grammar says |
| AclTextScanner.ReadAclSeq | fstests-bld/acl/tools/parse.c:535-590 | the commands of a list of lines, none if some line is malformed |
| AclRestore.CoreCommand | fstests-bld/acl/tools/parse.c:184-353 | a printed entry, prefixed or not, is read as the command replacing it |
| AclRestore.LinesRead | fstests-bld/acl/tools/parse.c:535-590 | printed lines with their comments are read as the replacing commands in order |
| AclRestore.ReplacementsBuild | fstests-bld/acl/tools/do_set.c:298-363 | the commands of a valid ACL, run on an empty one, rebuild it in rwx bits |
| AclRestore.DumpRestore | fstests-bld/acl/tools/setfacl.c:161-171 | for every valid access and default ACL and every readable file: the printed lines, read after the two clearing commands and run, leave ACLs that compare equal to the restored ones without error |
| AclRestore.RestoredSame | fstests-bld/acl/tools/setfacl.c:161-171 | the restored ACL compares equal to the dumped one if and only if it had rwx bits only and, when masks are to be recomputed, its mask was the group-class union |
| AttrCodec.HexRoundTrip | fstests-bld/attr/setfattr/setfattr.c:292-325 | hexadecimal digits decode to the bytes they came from |
| AttrCodec.Base64RoundTrip | fstests-bld/attr/setfattr/setfattr.c:326-394 | base64 decodes to the bytes it came from, for every length and padding |
| AttrCodec.TextRoundTrip | fstests-bld/attr/setfattr/setfattr.c:395-431 | quoted text decodes to the value less one NUL in last place, whatever stands around it |
| AttrCodec.EncodedDecoded | fstests-bld/attr/getfattr/getfattr.c:119-224 | decoding undoes encoding under every option, automatic choice included; only quoted text drops a final NUL |
| AttrBuffer.HighWater.Alloc | fstests-bld/attr/libmisc/high_water_alloc.c:24-44 | the capacity is a multiple of 256 and at least what was asked, never shrinks, and the contents stay; the buffer is null exactly while nothing has been asked for |
| AttrBuffer.WellEnoughPrintable | fstests-bld/attr/getfattr/getfattr.c:108-117 | whether at most an eighth of the bytes are unprintable, whatever the locale takes for printable |
| AttrBuffer.WriteText | fstests-bld/attr/getfattr/getfattr.c:133-167 | all of the quoted text and its NUL inside the size asked for |
| AttrBuffer.WriteHex | fstests-bld/attr/getfattr/getfattr.c:168-185 | all of the digits and the NUL inside the size asked for |
| AttrBuffer.WriteBase64 | fstests-bld/attr/getfattr/getfattr.c:186-222 | two bytes more than asked for are written, and fit because the capacity is a multiple of 256 |
| AttrBuffer.EncodeValue | fstests-bld/attr/getfattr/getfattr.c:119-224 | after any earlier calls the buffer holds the whole encoding and its NUL |
| AttrBuffer.ReadHex | fstests-bld/attr/setfattr/setfattr.c:292-325 | the buffer holds what the digits denote, white space skipped, or the text is refused |
| AttrBuffer.ReadBase64 | fstests-bld/attr/setfattr/setfattr.c:326-394 | the buffer holds what the groups denote, or the text is refused; the capacity suffices for any text |
| AttrBuffer.ReadText | fstests-bld/attr/setfattr/setfattr.c:395-431 | the buffer holds the text without its quotes and escapes; the capacity suffices for any text |
| AttrBuffer.DecodeValue | fstests-bld/attr/setfattr/setfattr.c:287-433 | the leading characters pick the decoder, and its whole output is in the buffer; a text that needs no byte is refused exactly while no buffer has been allocated |
| AttrCodec.RequestNothing | fstests-bld/attr/setfattr/setfattr.c:287-433 | the texts that need no byte are the empty one and base64 prefixes shorter than four characters |
| AttrCodec.EncodedRequests | fstests-bld/attr/getfattr/getfattr.c:119-224 | an encoded value always needs a byte, so it is never refused so |
| AttrDump.QuoteUndone | fstests-bld/attr/libmisc/unquote.c:25-54 | unquoting undoes quoting for every string and every set of quoted characters |
| AttrDump.NameRestored | fstests-bld/attr/libmisc/quote.c:26-58 | so a C string comes back whole, not cut at a NUL |
| AttrDump.QuoteFree | fstests-bld/attr/libmisc/quote.c:26-58 | no quoted character is left in the result |
| AttrDump.EncodedFree | fstests-bld/attr/getfattr/getfattr.c:119-224 | an encoded value contains no line break |
| AttrDump.LinesJoined | fstests-bld/attr/libmisc/next_line.c:26-57 | lines free of line breaks are read back one for one |
| AttrDump.DumpLinesFree | fstests-bld/attr/getfattr/getfattr.c:273-286 | every line of a dump is free of line breaks |
| AttrQuote.QuoteName | fstests-bld/attr/libmisc/quote.c:26-58 | the quoted string and its NUL fit the size counted beforehand; an unchanged string is returned as it is |
| AttrQuote.UnquoteInPlace | fstests-bld/attr/libmisc/unquote.c:25-54 | the two pointers over one string leave the unquoted string, NUL-terminated, reading nothing already overwritten |
| AttrRestore.AttrLineRead | fstests-bld/attr/setfattr/setfattr.c:146-153 | a printed attribute line is split at the right `=` and gives back name and value, as the first line or a later one |
| AttrRestore.EmptyValueFirst | fstests-bld/attr/setfattr/setfattr.c:262-285 | an empty value after `=` is refused as the first value of a run and set as a later one |
| AttrRestore.SetLine | fstests-bld/attr/setfattr/setfattr.c:262-285 | one line through the decoder's buffer: the setting made, and whether a buffer is there afterwards |
| AttrRestore.DumpRestored | fstests-bld/attr/setfattr/setfattr.c:97-172 | restoring the dump of any list of files makes exactly the dumped settings in order, values less a final NUL in text mode, with status zero |
| AttrRestore.Restore | fstests-bld/attr/setfattr/setfattr.c:116-156 | the nested loops, starting without a decoding buffer, make the calls and end with the status the line grammar says |
| WalkTree.OneCall | fstests-bld/acl/libmisc/walk_tree.c:133-240 | a walk that is not recursive makes one call unless its path is a link to be followed whose target is a directory that cannot be read or lists an entry: exactly then it goes on |
| WalkTree.WalkedUnasked | fstests-bld/acl/tools/setfacl.c:591-594 | such a walk, with the option -L alone and a link to a directory of one file |
| WalkTree.VisitUncut | fstests-bld/acl/libmisc/walk_tree.c:92-242 | where entries and links form no loop, remembering the directories above changes nothing: it only ever breaks loops |
| WalkHandles.Walker.Visited | fstests-bld/acl/libmisc/walk_tree.c:82-90 | whether an inode is on the handle list |
| WalkHandles.Walker.CloseAnother | fstests-bld/acl/libmisc/walk_tree.c:155-163 | the outermost open stream is closed with its offset kept; budget plus open streams unchanged |
| WalkBudget.RefusedMeans | fstests-bld/acl/libmisc/walk_tree.c:155-181 | a directory is refused for want of descriptors exactly when one `opendir` more fails than there are streams to close |
| WalkBudget.BudgetUnseen | fstests-bld/acl/libmisc/walk_tree.c:92-242 | if no directory is refused the calls made are those of the walk without handles, for every budget and every pattern of descriptor shortage |
| WalkBudget.NoneRefused | fstests-bld/acl/libmisc/walk_tree.c:155-181 | where descriptors never run out no directory is refused |
| WalkHandles.Walker.OpenDir | fstests-bld/acl/libmisc/walk_tree.c:155-181 | streams are closed until `opendir` has descriptors or none is left; the tries made, the streams closed and the outcome are exactly those of the given shortage; budget plus open streams stays between one and the limit, and a success leaves budget for the new stream |
| WalkHandles.Walker.Reopen | fstests-bld/acl/libmisc/walk_tree.c:219-229 | a directory that lost its stream is opened where it was left off, within the budget |
| WalkHandles.Walker.WalkDir | fstests-bld/acl/libmisc/walk_tree.c:193-239 | a directory is listed once, read to its end and unlisted; the list is as before, every other directory read as far as before; the calls made and the streams left are exactly those of the walk on values |
| WalkHandles.Walker.WalkRec | fstests-bld/acl/libmisc/walk_tree.c:92-242 | the walk terminates on every finite graph, never lists an inode twice, keeps budget plus open streams between one and the limit, and makes exactly the calls, with the sum of their results, of the walk on values |
| WalkHandles.WalkTreeFrom | fstests-bld/acl/libmisc/walk_tree.c:244-265 | where descriptors never run out, and whenever no directory is refused, the calls are those of the walk without handles, so they do not depend on the number of streams allowed |
| Probing.NextSlot | fstests-bld/e2fsprogs-libs/intl/dcigettext.c:782-785 | the step without overflow keeps the index at start plus k increments modulo the size |
| Probing.Euclid | fstests-bld/e2fsprogs-libs/intl/dcigettext.c:748-751 | a prime size divides no product of an increment and a smaller step count |
| Probing.SlotsDistinct | fstests-bld/e2fsprogs-libs/intl/dcigettext.c:748-785 | so no slot is visited twice within one round |
| Probing.SlotsCover | fstests-bld/e2fsprogs-libs/intl/dcigettext.c:748-785 | and every slot is visited within one round |
| Gettext.HashString | fstests-bld/e2fsprogs-libs/intl/hash-string.h:28-48 | the hash cut to 32 bits is the same for 32-bit and 64-bit `unsigned long` |
| Gettext.HashSmall | fstests-bld/e2fsprogs-libs/intl/hash-string.h:28-48 | the hash occupies 28 bits |
| Gettext.HitMeans | fstests-bld/e2fsprogs-libs/intl/dcigettext.c:764-776 | the length tests never reject a string that compares equal, plural and system-dependent ones included |
| Probing.SlotPeriodic | fstests-bld/e2fsprogs-libs/intl/dcigettext.c:748-785 | whatever the size, after as many steps as there are slots the same slots come again |
| Gettext.GapIff | fstests-bld/e2fsprogs-libs/intl/loadmsgcat.c:1328-1343 | whatever the size, a probe meets an empty slot at all, and an insertion ends, if and only if one of the first round's slots is empty |
| Gettext.PrimeGap | fstests-bld/e2fsprogs-libs/intl/loadmsgcat.c:1328-1343 | with a prime size, if and only if any slot is empty |
| Gettext.EndsIff | fstests-bld/e2fsprogs-libs/intl/dcigettext.c:745-788 | whatever the size, the probe for a message ends if and only if the catalogue holds it or a slot of the probe's first round is empty |
| Gettext.PrimeEndsIff | fstests-bld/e2fsprogs-libs/intl/dcigettext.c:745-788 | with a prime size, if and only if the catalogue holds it or any slot is empty |
| Gettext.CompositeLoops | fstests-bld/e2fsprogs-libs/intl/dcigettext.c:745-788 | a table of four slots, two of them empty, in which a probe runs for ever |
| Gettext.FullLoops | fstests-bld/e2fsprogs-libs/intl/dcigettext.c:745-788 | a full table of three slots in which a probe runs for ever |
| Gettext.Probe | fstests-bld/e2fsprogs-libs/intl/dcigettext.c:745-788 | whatever the size of the table, wherever that condition holds the probe finds an equal original if there is one and reports none only if there is none |
| Gettext.BinarySearch | fstests-bld/e2fsprogs-libs/intl/dcigettext.c:789-814 | the index of the equal original among sorted ones, none exactly when there is none |
| Gettext.FindMsg | fstests-bld/e2fsprogs-libs/intl/dcigettext.c:744-814 | with a hash table and that condition or without a table, the same answer, that of a plain search |
| Gettext.FilledPlaced | fstests-bld/e2fsprogs-libs/intl/loadmsgcat.c:1321-1343 | filling the first empty slot of its probe makes a string findable and disturbs no other |
| Gettext.InsertedAll | fstests-bld/e2fsprogs-libs/intl/loadmsgcat.c:1317-1343 | where every insertion ends all strings are findable afterwards and each new one has filled one slot |
| Gettext.PrimeInsertable | fstests-bld/e2fsprogs-libs/intl/loadmsgcat.c:1317-1343 | with a prime size every insertion ends if and only if there are as many empty slots as new strings |
| Gettext.CompositeInsertion | fstests-bld/e2fsprogs-libs/intl/loadmsgcat.c:1317-1343 | a table of four slots, two of them empty, in which an insertion runs for ever |
| Gettext.InsertOne | fstests-bld/e2fsprogs-libs/intl/loadmsgcat.c:1321-1343 | whatever the size, with an empty slot in its first round a string goes to the first one |
| Gettext.Augment | fstests-bld/e2fsprogs-libs/intl/loadmsgcat.c:1317-1343 | whatever the size, where each insertion meets an empty slot the table in place ends as the insertions in turn leave it and all strings are findable; with a prime size every lookup ends then if and only if there was a slot to spare |
| Mersenne.TemperBijective | fstests-bld/misc/postmark.c:1485-1488 | tempering is a bijection of words |
| Mersenne.TemperSmall | fstests-bld/misc/postmark.c:1485-1488 | that keeps 32-bit words apart from others |
| Mersenne.TermSmall | fstests-bld/misc/postmark.c:1457-1491 | from 32-bit words only 32-bit words follow |
| Mersenne.SeededSmall | fstests-bld/misc/postmark.c:1421-1434 | seeding gives 32-bit words, so every number does fit 32 bits |
| Mersenne.LowBitsDiscarded | fstests-bld/misc/postmark.c:1436-1455 | the low 31 bits of the first word of a state influence nothing |
| Mersenne.Generator.Sgenrand | fstests-bld/misc/postmark.c:1421-1434 | the state is two congruential steps to a word from the seed |
| Mersenne.Generator.Lsgenrand | fstests-bld/misc/postmark.c:1445-1455 | the state is the array given |
| Mersenne.Generator.Regenerate | fstests-bld/misc/postmark.c:1470-1479 | two loops and the wrap-around step replace 624 terms of the recurrence by the next 624, in place |
| Mersenne.Generator.Genrand | fstests-bld/misc/postmark.c:1457-1491 | the k-th number drawn is the tempered k-th term of the plain recurrence from the seeded state, default seed included |
| Lookup3.MixReversible | fstests-bld/popt/lookup3.c:107-115 | the mixing of three words is a bijection |
| Lookup3.FinalReversible | fstests-bld/popt/lookup3.c:142-151 | so is the final mixing |
| Lookup3.RoundsReversible | fstests-bld/popt/lookup3.c:448-636 | for a fixed key the whole hash is a bijection of its starting state |
| Lookup3.PathWords | fstests-bld/popt/lookup3.c:461-521 | reading words, up to three bytes beyond the key, gives the hash of the key's bytes |
| Lookup3.PathHalves | fstests-bld/popt/lookup3.c:525-586 | so does reading half words |
| Lookup3.PathBytes | fstests-bld/popt/lookup3.c:588-628 | and reading bytes |
| Lookup3.Jlu32lpair | fstests-bld/popt/lookup3.c:448-636 | the pair depends on the key's bytes and the two seeds only, not on alignment, byte order or what follows the key; a null key gives the initial value twice |
| Postmark.UsedUpdated | fstests-bld/misc/postmark.c:672-718 | taking or giving back a slot changes the number in use by one |
| Postmark.FreeSlot | fstests-bld/misc/postmark.c:591-606 | -1 exactly when the table is full, else a free slot |
| Postmark.Created | fstests-bld/misc/postmark.c:672-702 | one slot more in use unless the table is full, counted as created, under a new name, whether the file opens or not |
| Postmark.CreatedSize | fstests-bld/misc/postmark.c:672-702 | only a free slot changes, to a size within the bounds configured |
| Postmark.Deleted | fstests-bld/misc/postmark.c:705-718 | a slot in use costs one removal and is freed and counted exactly if that succeeds; a free slot is left alone |
| Postmark.Appended | fstests-bld/misc/postmark.c:765-796 | a file below the largest size that can be opened grows by at least a byte, not beyond that size; else nothing changes |
| Postmark.Search | fstests-bld/misc/postmark.c:799-807 | a search for a file in use ends at the first number drawn that hits one, if any will |
| Postmark.FairEnds | fstests-bld/misc/postmark.c:799-807 | where every slot is drawn again and again a search ends if and only if a file is in use |
| Postmark.FairSearches | fstests-bld/misc/postmark.c:823-864 | files created less files deleted is the number of slots in use throughout, so with such numbers every search of a run has something to find and ends |
| Postmark.Transactions | fstests-bld/misc/postmark.c:823-864 | given that its searches end, files created less files deleted is the number of slots in use throughout; it stops early only when none is in use, and divides by zero if and only if fewer than ten transactions are asked for and a file exists |
| Postmark.DeletedMeans | fstests-bld/misc/postmark.c:999-1006 | deleting every slot removes each file in use once; what stays in use is what could not be removed |
| Postmark.RunEnds | fstests-bld/misc/postmark.c:943-1045 | all files asked for are created first, and at the end created equals deleted if and only if every removal of the last pass succeeded |
| PostmarkTable.Table.FindFreeFile | fstests-bld/misc/postmark.c:591-606 | the search with its hint finds that slot and moves the hint behind it |
| PostmarkTable.Table.CreateFile | fstests-bld/misc/postmark.c:672-702 | the table in place is left as the value model says, random numbers for the name included |
| PostmarkTable.Table.DeleteFile | fstests-bld/misc/postmark.c:705-718 | the table in place is left as the value model says |
| PostmarkTable.Table.AppendFile | fstests-bld/misc/postmark.c:765-796 | the table in place is left as the value model says |
| PostmarkTable.Table.FindUsedFile | fstests-bld/misc/postmark.c:799-807 | the drawing loop ends at the first hit, if any will come |
| PostmarkTable.Table.RunTransactions | fstests-bld/misc/postmark.c:823-864 | the loop leaves the table, the number left undone and the trap as the value model says |
| PostmarkTable.Table.Run | fstests-bld/misc/postmark.c:943-1045 | so does a whole run, for any configuration the set commands allow and whatever opening or removal fails, for all numbers with which its searches end |

## Left out

- Command lists (fstests-bld/acl/tools/sequence.c): commands are a sequence; the linked list would only add easy members.
- `parse_acl_seq`, `read_acl_comments`, `print_test` and option handling of setfacl: the same parsers again, or printing.
- The part of `do_set` before its command loop (walk flags, symbolic links): no state of its own.
- Account names: printing uses numeric ids, parsing looks names up in given maps.
- Object magic numbers, `errno`, failing allocations, `acl_free`, `acl_valid`: plumbing.
- AclRing.Qsort: stands for the C library's `qsort`; any sort with this contract serves.
- AclTextScanner.AclFromText: names are looked up in given maps, not in the system's databases.
- AclTextBuffer.ToAnyText: the array has one cell more than the buffer it stands for, marked, so that a store behind the buffer shows.
- File types in modes: only the permission bits are modelled.
- Bit operations of the attribute encoders are written as division and remainder of byte values.
- AttrDump.LinesJoined: the file is NUL-free and read in one piece; `next_line`'s growth by `fgets` pieces is not modelled.
- Stripping of leading slashes, `--match` and symbolic-link options of getfattr.
- AttrQuote.UnquoteInPlace: the length is a ghost argument; the code finds the end by its NUL.
- WalkHandles.Walker.WalkRec: reopening a directory always succeeds, and the graph does not change during the walk; the list is a sequence, outermost first, with the `closed` pointer as a count.
- The path buffer of `walk_tree` is a string value, lengthened and cut back.
- Conversion of translations, locale selection and locking in gettext; byte order of the catalogue file.
- Gettext.Probe: a probe that runs for ever has no result to state; it is excluded by the condition that `Gettext.EndsIff` proves exact.
- Gettext.FindMsg: the same probes are excluded, by the same condition.
- Gettext.Augment: insertions that run for ever are excluded in the same way, each by the condition that `Gettext.GapIff` proves exact.
- jlu32w, jlu32l, jlu32b, and the VALGRIND variant of the last block: the same shape again.
- Lookup3.PathWords: memory reaches to the end of the word that holds the last byte of the key, as on any machine with word-aligned pages.
- PostmarkTable.Table.FindUsedFile: numbers that never hit a file in use are excluded; the search does not end with them.
- Reports of postmark, the making of its subdirectories and the bytes it writes.
- attr_list paging, popt's option and alias machinery, dbench, the Android wrappers: input and output, or known not to keep their promise.
