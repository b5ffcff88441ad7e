# kvspace-durable in Dafny

A model of kvspace-durable, the path-keyed value store, with proofs of what its layers
promise one another. Paths are strings of characters, so `/`, `·` (member separator) and
`‥` (runtime separator) are single characters; wires are byte strings; a store is a map
from keys to wires.

- **Wire codec** (`ByteStrings`, `Utf8`, `Decimal`, `Text`, `Wire`, `WireBuild`,
  `XValues`): the 16-byte head with TLV attrs and the LENGTH and CAPACITY layouts, as a
  parser, builders that fill a buffer, and a declarative grammar; the typed codec above it
  with shapes printed as decimal text. The head follows `src/headlenpow.rs:1-15`;
  `README.md:42` of the repository still shows the older eight-byte head.
- **Path, link and overlay engine** (`Paths`, `Links`, `CleanPaths`, `Resolution`,
  `Overlays`, `Trees`, `Containers`, `Coord`, `Sorting`, `Listing`, `Backends`,
  `PartReads`): link resolution cut at 16 hops, parent-only resolution for writes, read-only extensions, subtree deletion and
  copies, listings derived from physical keys. Each operation is a function of the store;
  the class `Backends.Backend` runs the original loops and is proved to compute it.
- **Handle** (`PlainMachine`, `Handles`): the read cache, the control-key rings, the
  retired list, the lazy write and the list snapshot as one class over a backend. It is
  proved to look like a plain map with immediate writes over every run of admissible
  calls. Admissible arguments are canonical keys, bare or with a trailing `/` or `·`, with
  no link on their way (for a `/` directory its own component included) and no extension
  on their directory; `PlainMachine.Admissible` says it exactly. A caller that stores no
  pointers and no extensions has only such keys (`PlainMachine.PlainWithoutReferences`), and
  may call anything with them (`PlainMachine.OrdinaryIsAdmissible`).
  Listings need no condition on the store.
- **File tree** (`FsNames`, `FsTree`): the same keys on files, directories, markers and
  escaped names, as a data refinement of the flat map.
- **Signing and framing** (`Civil`, `Percent`, `Resp`): calendar dates and time stamps,
  percent-encoding and canonical queries, RESP requests and replies on a connection that
  is dropped when a read fails.

Where the original changes state step by step, so do the methods here, and each `ensures`
ties the new state to a function of the old one; the lemmas are about those functions.
What the caller of a lazy write stores through the returned pointer before its next call
is a parameter (`fill`). The order in which a scan returns keys is arbitrary. The network,
clocks and the operating system are left out.

## Laws that hold only under a condition

Each of these has a lemma that gives the exact condition, and an input on the failing
side.

- A positional write has no lower bound and may reach into the head; it keeps the value's
  geometry exactly when it rewrites the head bytes it covers with themselves
  (`WireBuild.PatchGeometryIff`, `WireBuild.PatchCanBreakHead`).
- A positional write is read back under the same key whenever the value written plays no
  part in locating the key: no pointer its directory resolves through, and not the
  extension that led to it (`PartReads.PartReadsBack`). Inline values and plain keys of
  any kind are such (`PartReads.InlineDetached`, `PartReads.PlainDetached`). Where the
  value has room for a path longer than every stored key, this is also the only case in
  which all its body writes read back (`PartReads.ReadsBackIff`); in a shorter value it
  depends on the few targets that fit. With `/a` pointing to the root, a write of one byte
  through `/a/a` leaves that key nowhere (`PartReads.PartWriteCanMoveReader`).
- A write and a read of a leaf key address the same place in every store exactly when the
  key's parent does not end in a separator of its own (`Links.SameAddress`); `/a·/b` is
  written to `/a·b` (`Links.SameAddressFails`).
- A tree copy deletes the destination first and guards one direction of nesting only; it is
  an exact graft in every scan order exactly when the subtrees are disjoint or nothing is
  stored under the destination (`Trees.GraftIff`, `Trees.CpTreeGrafts`). Copying `/a/b`
  onto `/a` succeeds and leaves nothing (`Trees.CpTreeCanLose`).
- A plain deletion does not look at members; it keeps the container invariant exactly when
  no member of a key it takes away stays behind (`Containers.DelKeepsIff`,
  `Containers.DelOrphansMember`).
- Tree invalidation covers a tree operation for every spelling of the prefix except those
  whose stripped base is the root, such as `//` (`Paths.InvalidationCovers`,
  `Paths.InvalidationMisses`).
- The cache is invalidated under the caller's spelling; a matching cache stays matching
  exactly when the write lands on that spelling or changes no present value
  (`Handles.SpellingMatters`). With `/p` linked to `/q`, a write through `/p/x` leaves a
  cached `/q/x` stale (`Handles.OtherSpellingGoesStale`).
- Coordinate names tie exactly when they are equal or spell the same integers, so `[1]` and
  `[01]` do (`Coord.TieIff`, `Coord.TieExists`).
- Typed values survive the wire exactly when their type text is unambiguous
  (`XValues.TypedRoundTrip`); an opaque value of kind `int64` does not
  (`XValues.NamedLikeElements`).
- A file-tree write is refused exactly when a regular file stands strictly above the node
  of the key's parent (`FsTree.WriteExact`), as one at `/a` for `/a/b/c`
  (`FsTree.FileInTheWay`).
- A reply cut short by the end of the stream is taken for a value exactly as
  `Resp.Taken` says (`Resp.ClosedTaken`): a line once it has begun, a bulk or an array
  behind its first byte, an array also when its last item is cut and taken. While the
  stream is open no cut reply is (`Resp.CutReplyFails`).
- The file tree and the flat store read every leaf key alike, and a plain directory key
  that no link stands in for (`FsTree.TreeReadsAsStore`). With `/a` linked to `/b` the tree
  finds `/a·` at `/b·` and the flat store does not (`FsTree.TreeReadsElsewhere`).
- Time stamps sort in time order up to the year 9999 and not beyond
  (`Civil.StampsSort`, `Civil.YearTenThousandBreaksOrder`).

## Model

| member | source | states |
|---|---|---|
| Wire.ParserIsGrammar | src/headlenpow.rs:80-133 | the parser accepts a byte string exactly when it has a legal derivation (bounds, zero padding, TLV records with at most two stray bytes, tag 2 once and within the body if and only if CAPACITY), and reports that derivation's fields |
| Wire.GrammarUnambiguous | src/headlenpow.rs:80-133 | a wire has only one derivation |
| WireBuild.ScanReallen | src/headlenpow.rs:173-194 | the scan loop finds a malformed region, no record, or the one eight-byte tag 2 record |
| WireBuild.FindAttr | src/headlenpow.rs:237-248 | the loop finds the data of the first record with the tag, or nothing |
| WireBuild.Fill | src/headlenpow.rs:250-295 | the buffer filled in place is head, body and attrs in a row |
| WireBuild.Reserve | src/headlenpow.rs:280-295 | the reserved buffer is the wire of a zeroed body, refused exactly when that wire is |
| WireBuild.BuildVarlen | src/headlenpow.rs:259-275 | the buffer is the CAPACITY wire with its recorded length, refused exactly when that is |
| WireBuild.ToWireParses | src/headlenpow.rs:250-254 | what `to_wire` builds parses back to its body and langtype, inline |
| WireBuild.ToWireVarlenParses | src/headlenpow.rs:259-275 | what `to_wire_varlen` builds parses back to its capacity, recorded length and langtype |
| WireBuild.WireExample | src/headlenpow.rs:250-254 | a small value byte by byte |
| WireBuild.GrowingExample | src/headlenpow.rs:259-275 | a small growing value byte by byte |
| WireBuild.TrimKeepsHead | src/backend.rs:379-388 | cutting a wire to 16 + bodylen + attrslen changes no parsed field and no effective length |
| WireBuild.PatchKeepsHead | src/backend.rs:341-360 | an accepted positional write from offset 16 on changes only that window of the body |
| WireBuild.PatchGeometryIff | src/backend.rs:341-360 | for every accepted offset, the geometry stays exactly when the covered head bytes are rewritten as they were |
| WireBuild.PatchCanBreakHead | src/backend.rs:341-360 | an accepted write that leaves an unreadable value |
| WireBuild.BuiltWindows | src/backend.rs:341-360 | a window of a built value is accepted exactly when it ends within 16 + body length |
| WireBuild.GrowingWindows | src/backend.rs:341-360 | of a growing value, within 16 + recorded length, not its capacity |
| XValues.TypedRoundTrip | src/xvalue.rs:255-277 | a typed value that fits is read back as itself exactly when its type text is unambiguous: shape, elements, targets and map type |
| XValues.NamedLikeElements | src/xvalue.rs:103-157 | an opaque value of kind `int64` is read back as another value |
| XValues.ShapeRoundTrip | src/xvalue.rs:24-51 | a printed shape in front of a kind parses back to the same dimensions and kind |
| XValues.ShapesRead | src/xvalue.rs:24-51 | `[?]` is one unknown dimension, `[]` none, and a bracket that holds no number belongs to the kind |
| XValues.BlanksAre | src/xvalue.rs:31-33 | the blanks around a dimension are the white space of Unicode |
| XValues.ElemsRoundTrip | src/xvalue_int.rs:13-71 | every list of in-range elements of a kind survives its little-endian form |
| XValues.ElementLayout | src/xvalue_int.rs:47-71 | each kind is a little-endian two's complement number of one, two, four or eight bytes |
| XValues.ElementTypes | src/xvalue.rs:418-428 | shapes stand in brackets in front of the kind |
| XValues.OpaqueTypes | src/xvalue.rs:430-439 | characters always carry a length, other opaque values from two up |
| XValues.ReferenceTypes | src/xvalue.rs:449-462 | one `*` in front of a pointer type, an `@` in front of an extension type |
| XValues.HeadOfWire | src/xvalue.rs:465-491 | the head read from a value's wire has the value's reference, langtype, shape, kind and body |
| Paths.SubtreesLaminar | src/store.rs:1-9 | two subtrees that share a key are nested |
| Paths.SubtreeTransitive | src/store.rs:1-9 | a subtree of a subtree is part of it |
| Paths.SubtreeIs | src/store.rs:1-9 | a subtree is its root and what follows it behind `/`, `·` or `‥` |
| Paths.InvalidatedAre | src/ffi.rs:152-176 | which keys a prefix invalidates, for each way it may end |
| Paths.InvalidationCovers | src/ffi.rs:144-176 | invalidation by prefix covers every key a tree operation can touch, exactly when the stripped base is not the root |
| Paths.InvalidationMisses | src/ffi.rs:144-176 | `/a` is in the subtree `//` stands for, and invalidation by `//` misses it |
| Links.SameAddress | src/backend.rs:52-123 | the address a write uses and the one `get_raw` uses agree in every store, cycles and hop limit included, exactly for keys whose parent carries no separator of its own |
| Links.SameAddressFails | src/backend.rs:52-69 | `/a·/b` is written to `/a·b` and read from `/a·/b` |
| Links.WriteIsRead | src/backend.rs:257-281 | after an accepted write that touches no link, every key resolving to the address written reads the trimmed wire |
| Links.ReadYourWrite | src/backend.rs:362-413 | the writer reads back exactly the trimmed wire it wrote |
| Links.ContainerIsIndexBase | src/kvspace_common.rs:85-104 | the container of a member is its index directory without the separator |
| Links.LinksArePointers | src/backend.rs:100-118 | a link is a stored value that decodes to a pointer, and leads to its target |
| Resolution.HopLeads | src/backend.rs:71-123 | the first pointer on a path is replaced by its target, the components behind it follow, and the suffix stays unless the result ends in a separator |
| Resolution.OuterSlashes | src/backend.rs:71-90 | slashes repeated at either end of a path make no difference to a hop |
| Resolution.ChainLeads | src/backend.rs:40-50 | a chain of at most sixteen pointers leads to its end, a longer one to where the sixteenth leads |
| Overlays.SetAcceptedIff | src/backend.rs:362-413 | a write is accepted exactly when nothing is reserved, the address has no empty component, the value is readable and fit, its container is stored and no extension holds the address (but for pointers in operand slots); it lands trimmed |
| Overlays.DelAcceptedIff | src/backend.rs:458-484 | a deletion is refused exactly for reserved keys and what only an extension holds, and takes exactly the address, a directory's with its leaf key |
| Overlays.CpTreeAcceptedIff | src/backend.rs:541-572 | a tree copy is accepted exactly when nothing is reserved, something is stored in the source and the destination is not inside it; onto itself it does nothing |
| Overlays.CpListAcceptedIff | src/backend.rs:586-614 | the same for a one-level copy, which has no guard against nesting |
| Overlays.ReadsOverlay | src/backend.rs:257-281 | a read finds the value in the resolved directory, else under its extension's locator, else nothing |
| Overlays.ListedAre | src/backend.rs:415-456 | a listing is that of the directory as given or as resolved, with its extension's entries on demand; nothing for reserved paths and paths that are no directories |
| Overlays.FrameSlots | src/kvspace_common.rs:48-60 | operand slots are `[row,col]` under `/vthread/` with a positive row and a column other than zero |
| Overlays.KindBehindBrackets | src/kvspace_common.rs:221-229 | the base kind is what follows a bracketed part |
| CleanPaths.FixedIffNoLinks | src/backend.rs:71-123 | a canonical path is a fixed point of resolution exactly when none of its prefixes is a link |
| CleanPaths.PlainAddress | src/backend.rs:52-69 | without links above it, a canonical key is its own read and write address |
| Trees.ClearsSubtree | src/backend.rs:486-519 | deleting a link-free unreserved subtree removes exactly its unreserved keys |
| Trees.LiveKeysAre | src/backend.rs:505-513 | which keys a tree operation takes: the root and what follows it behind a separator, without the reserved area |
| Trees.GraftIff | src/backend.rs:541-583 | clearing the destination and copying is an exact graft in every scan order exactly when the subtrees are disjoint or the destination is empty |
| Trees.CpTreeGrafts | src/backend.rs:541-583 | the whole `cp_tree`, accepted: for every tail the destination holds what the source held, and nothing else changed, under the same condition |
| Trees.CpTreeCanLose | src/backend.rs:561-580 | copying `/a/b` onto `/a` is accepted and leaves an empty store |
| Trees.DelTreeOfLink | src/backend.rs:486-500 | a tree deletion whose root is a link deletes the link alone |
| Trees.CpListExact | src/backend.rs:586-632 | between disjoint roots the destination becomes exactly the root and its direct members, and nothing else changes |
| Trees.CpListMembers | src/backend.rs:615-630 | the root's value and, for every member name, its value and its directory value are carried over, and nothing else lies below the destination |
| Containers.SetKeeps | src/backend.rs:389-398 | a write in any store keeps every member's container stored |
| Containers.DelTreeKeeps | src/backend.rs:486-519 | so does a tree deletion whose root is no link |
| Containers.CpTreeKeeps | src/backend.rs:541-583 | so does a tree copy between disjoint canonical subtrees onto a link-free destination |
| Containers.CpListKeeps | src/backend.rs:586-632 | so does a one-level copy |
| Containers.RunKeepsContainers | docs/strkeymapindex-ndarray.md:7 | along every run of these, each stored member outside `/lib` has its container |
| Containers.DelKeepsIff | src/backend.rs:458-484 | a single deletion keeps it exactly when, before the call, no other stored key is a member of one it takes away |
| Containers.DelOrphansMember | src/backend.rs:458-484 | deleting `/a` orphans `/a·b` |
| Coord.FormatCoord | src/coord.rs:7-17 | the loop prints the bracketed list of coordinates |
| Coord.CoordRoundTrip | src/coord.rs:20-35 | parsing inverts printing on non-empty lists of non-negative coordinates |
| Coord.TotalPreorder | src/coord.rs:48-60 | the comparator is connected and transitive |
| Coord.TieIff | src/coord.rs:48-60 | names tie exactly when equal or spelling the same integer coordinates |
| Coord.TieExists | src/coord.rs:48-60 | two different names that tie |
| Coord.OrderIs | src/coord.rs:48-60 | integer coordinates come first, by their numbers, then other bracketed names, then plain names, by their bytes, a shorter one before what it begins |
| Coord.CoordIs | src/coord.rs:20-44 | which names are coordinates, and which are integer ones |
| Coord.SortSorts | src/backend.rs:167-169 | sorting gives the same names in comparator order |
| Coord.SortedAscends | src/backend.rs:167-169 | a sorted listing runs upward in that order |
| Coord.SortedUnique | src/backend.rs:167-169 | without ties a collection of names has one sorted order |
| Sorting.SortedOnce | src/s3/sigv4.rs:72 | the same for any order without ties |
| Listing.TallyIsNames | src/backend.rs:127-169 | folding the scanned keys in any order finds each visible first component, and whether its directory key is stored |
| Listing.DisplayReversible | src/backend.rs:127-169 | the shown entry determines the component |
| Listing.ShownAre | src/backend.rs:127-169 | a name is shown exactly when some stored key continues the directory with it and it is neither a runtime name nor the reserved area, with a `/` exactly when its directory key is stored |
| Listing.ListingUnique | src/backend.rs:415-456 | without ties there is one listing of a set of entries |
| Backends.Backend.FirstLink | src/backend.rs:91-123 | the one-shot prefix fetch finds the link the step-by-step walk meets first, with the same redirection |
| Backends.Backend.ResolveOneHop | src/backend.rs:71-123 | one hop of resolution |
| Backends.Backend.Resolve | src/backend.rs:40-50 | at most sixteen hops |
| Backends.Backend.ResolveForWrite | src/backend.rs:52-69 | links are followed on parent components only |
| Backends.Backend.Find | src/backend.rs:257-281 | where a read finds its value: its own address, else its directory's extension |
| Backends.Backend.ReadRaw | src/backend.rs:257-281 | the stored bytes at that place, else nothing |
| Backends.Backend.ReadPart | src/backend.rs:283-307 | the window of those bytes |
| Backends.Backend.Get | src/backend.rs:194-255 | the batched read with its lazy second request answers every key of the list, duplicates included, as the per-key reading does |
| Backends.GetDecodesRaw | src/backend.rs:194-281 | for a leaf key that reading is the decoded `get_raw` |
| Backends.Backend.Set | src/backend.rs:362-413 | the writes of a batch land one after another up to the first refused one |
| Backends.SetAllInTurn | src/backend.rs:362-364 | a batch of writes is its first part and then, if that went through, the rest |
| Backends.Backend.WritePart | src/backend.rs:309-360 | an accepted window write patches the located value, a refused one changes nothing |
| PartReads.PartWriteIsLocal | src/backend.rs:309-360 | an accepted write from offset 16 on puts the bytes in the window; geometry, attrs, reference, effective length and all other keys stay |
| PartReads.PartReadsBack | src/backend.rs:283-360 | the same key reads the window back and the old bytes elsewhere, for every reference kind, when the value plays no part in locating the key |
| PartReads.InlineDetached | src/backend.rs:283-307 | an inline value never does |
| PartReads.PlainDetached | src/backend.rs:283-307 | nor does the value of a plain key, whatever its kind |
| PartReads.ReadsBackIff | src/backend.rs:283-360 | with room for a path longer than every stored key, all body writes read back exactly when the value plays no part in locating the key |
| PartReads.PartWriteCanMoveReader | src/backend.rs:283-360 | a write of one byte through a pointer to the root that leaves its key without a value |
| Backends.Backend.Del | src/backend.rs:458-484 | deletions up to the first refused one; a directory key takes its leaf key along |
| Backends.DelAllInTurn | src/backend.rs:458-460 | so is a batch of deletions |
| Backends.Backend.RemoveTree | src/backend.rs:486-519 | the subtree's unreserved keys, or only the link when the root is one |
| Backends.Backend.Copy | src/backend.rs:522-537 | a copy is a read and a write |
| Backends.Backend.CopyTree | src/backend.rs:541-583 | the tree copy in the order the scan returned |
| Backends.Backend.CopyOneLevel | src/backend.rs:586-632 | the one-level copy in the order the scan returned |
| Backends.Backend.MakeIndex | src/backend.rs:638-651 | an absent directory gets the directory marker |
| Backends.Backend.ReadDirIndex | src/backend.rs:127-169 | for any scan order, each visible first component once, with `/` exactly when its directory key is stored, in coordinate order |
| Backends.Backend.List | src/backend.rs:415-456 | the listing of the resolved directory, merged with its extension's |
| PlainMachine.ChaseExact | src/ffi.rs:464-502 | the walk finds a key exactly when a non-pointer ends the chain there within the hop limit |
| PlainMachine.ChaseOutcome | src/ffi.rs:464-502 | with sixteen hops: a terminal key, nothing exactly for a missing or empty target in reach, an error otherwise |
| PlainMachine.CycleFails | src/ffi.rs:464-502 | a chain that meets a key twice is an error for every hop limit |
| PlainMachine.HopIs | src/ffi.rs:482-496 | a value without a `*` type ends a chase, a pointer leads to the text of its body, an unreadable value or target breaks it |
| PlainMachine.RowFetched | src/ffi.rs:464-502 | at most sixteen stored pointers in a row lead to the value or the gap at their end, seventeen are an error |
| PlainMachine.GetSees | src/ffi.rs:508-557 | what a caller sees at the start of a row of pointers, with and without following them |
| PlainMachine.WriteSees | src/ffi.rs:560-625 | a write is reported done exactly when the store accepted it, and changes nothing when reported as an error |
| PlainMachine.RefusalReportedOnce | src/ffi.rs:78-96 | a refused lazy write leaves the store as it was, makes the next call an error, and is then forgotten |
| PlainMachine.PartAcceptedIff | src/backend.rs:309-360 | a positional write is accepted exactly when the key is located and the window ends within 16 + effective length |
| PlainMachine.NewValueIs | src/ffi.rs:237-281 | the head of a new value carries its reference as a `*` or `@` type, its room and its content, and when it is refused |
| PlainMachine.RewritesWholeBody | src/ffi.rs:812-839 | a value can be rewritten in place exactly when the new body fills its own |
| PlainMachine.RewriteChangesBody | src/ffi.rs:812-839 | and then only its body changes |
| PlainMachine.CpCopies | src/backend.rs:522-537 | a copied key holds the trimmed value of its source |
| PlainMachine.MarkerIs | src/backend.rs:638-651 | a directory marker is an empty value of type `lib`, written where nothing is |
| PlainMachine.WindowIs | src/store.rs:26-32 | a window is the bytes from its offset on, as many as asked for and there |
| PlainMachine.DelTreeChanges | src/ffi.rs:1018-1037 | a tree deletion changes only keys the handle invalidates for it |
| PlainMachine.CpTreeChanges | src/ffi.rs:1064-1085 | so does a tree copy |
| PlainMachine.CpListChanges | src/ffi.rs:1088-1109 | so does a one-level copy |
| PlainMachine.DelAllChanges | src/ffi.rs:979-1015 | deleting plain keys changes no key the call does not name, when the leaf key of a directory is named too or not stored |
| PlainMachine.PlainAddresses | src/backend.rs:40-69 | a plain key, directory keys included, is its own write and read address |
| PlainMachine.PlainWithoutReferences | src/backend.rs:182-190 | where no pointer and no extension is stored, every canonical unreserved key is plain, directory keys included |
| PlainMachine.OrdinaryIsAdmissible | src/backend.rs:182-190 | in such a store every call on canonical unreserved keys (for deletions, bare ones) is admissible |
| Handles.ControlViewSurvives | src/ffi.rs:181-223 | a control key's buffer keeps its slot and bytes over three further observed changes |
| Handles.FourChangesReuse | src/ffi.rs:181-223 | and loses the slot at the fourth |
| Handles.ControlKeysAre | src/ffi.rs:43-47 | which keys are control keys |
| Handles.CtimeDirIs | src/ffi.rs:196-206 | a creation time is recorded in `/‥ctime` below a function's directory under `/lib/` |
| Handles.HandoffKeysAre | src/ffi.rs:1000-1006 | which deletions hand a process over |
| Handles.CoveredAre | src/ffi.rs:139-176 | which buffers each call may drop: those of the keys it writes or deletes |
| Handles.ViewsSurvive | src/ffi.rs:423-461 | over every run, a buffer of a key no call covers is still cached or retired, and in its ring slot after at most three observed changes |
| Handles.ReturnedViewSurvives | src/ffi.rs:508-557 | the bytes a read returned lie in the buffer of the key it read (its argument, or the end of its pointer chain), which is still there when the run ends if no later call covers that key |
| Handles.SpellingMatters | src/ffi.rs:139-142 | an accepted write keeps every matching cache matching exactly when it lands on the caller's spelling or changes no present value |
| Handles.OtherSpellingGoesStale | src/ffi.rs:139-142 | a write through a linked spelling leaves the other spelling's buffer stale |
| Handles.Handle.Flush | src/ffi.rs:78-96 | lands the pending write, reports its refusal once and then forgets it; a refused one leaves the store as it was |
| Handles.Handle.Refresh | src/ffi.rs:181-223 | the ring's current slot holds the stored bytes; an unchanged reading keeps its slot; a changed creation time retires exactly what is cached under the function |
| Handles.Handle.FetchOne | src/ffi.rs:423-441 | makes a value available exactly when there is one, with the stored bytes |
| Handles.Handle.Follow | src/ffi.rs:464-502 | the loop over cached values computes the sixteen-hop walk over the store |
| Handles.Handle.Get | src/ffi.rs:508-557 | a read returns what the plain map would; its bytes are those of the buffer of its argument, or of the key its pointers end at |
| Handles.Handle.GetPart | src/ffi.rs:630-686 | the same for a window of the value its pointers end at |
| Handles.Handle.SetValue | src/ffi.rs:560-625 | a write acts at once, as on the plain map |
| Handles.Handle.SetRange | src/ffi.rs:690-741 | a positional write at the end of the pointer chain |
| Handles.Handle.WriteInPlace | src/ffi.rs:779-849 | what the caller stores through the pointer lands as an immediate write of the patched value would |
| Handles.Handle.WriteNewPlace | src/ffi.rs:854-898 | the same for a new value with a built head |
| Handles.Handle.Del | src/ffi.rs:979-1015 | deletes as on the plain map; a hand-over retires every cached buffer |
| Handles.Handle.RemoveTree | src/ffi.rs:1018-1037 | a tree deletion as on the plain map |
| Handles.Handle.CopyKey | src/ffi.rs:1040-1061 | a copy as on the plain map |
| Handles.Handle.CopyTree | src/ffi.rs:1064-1085 | a tree copy as on the plain map |
| Handles.Handle.CopyOneLevel | src/ffi.rs:1088-1109 | a one-level copy as on the plain map |
| Handles.Handle.MakeIndex | src/ffi.rs:1112-1131 | a new directory marker disturbs no cached buffer |
| Handles.Handle.Clear | src/ffi.rs:1229-1244 | an empty map afterwards |
| Handles.Handle.ListNames | src/ffi.rs:102-137 | the snapshot is reused only for the same listing past its cursor, and is current while the handle is the only writer |
| Handles.Handle.ListLen | src/ffi.rs:902-929 | the number of entries of the current store with the pending write applied |
| Handles.Handle.ListAt | src/ffi.rs:935-976 | the i-th entry of a fresh listing; with other writers still so for any index not above the cursor, and for every index while a write is pending |
| Handles.Handle.Traverse | src/ffi.rs:61-73 | the length and then each index in turn, without a write between, give every entry of one listing exactly once, ties included |
| Handles.Handle.Do | src/ffi.rs:227-232 | any admissible call is a step of the plain machine, and any listing call in any store; the invariants stay |
| Handles.Handle.Run | src/ffi.rs:49-63 | every run of admissible calls is a run of the plain machine, and can be continued; every listing call of any run is a fresh listing; each call drops only the buffers of keys it covers, and each read returns its bytes in one |
| Handles.Handle.Close | src/ffi.rs:408-417 | the pending write lands or is lost, nothing else changes |
| FsNames.Expand | src/fs/kvspace.rs:93-107 | the loop opens a directory behind every member separator |
| FsNames.EscapeRoundTrip | src/fs/kvspace.rs:107-140 | unescaping a name gives back the component |
| FsNames.EscapeIsSafe | src/fs/kvspace.rs:107-123 | no escaped name is a marker or a temp file's |
| FsNames.EscapesAre | src/fs/kvspace.rs:107-118 | ordinary components are their own names, the others `~` and their bytes in lower-case hex |
| FsNames.MarkersAre | src/fs/kvspace.rs:146-152 | directory keys keep their value in `__dir__`, others in `__self__` |
| FsNames.KeyOfComponents | src/fs/kvspace.rs:93-123 | a canonical key is determined by its components |
| FsNames.SharedNode | src/fs/kvspace.rs:93-123 | two canonical keys share a node only as a key and its directory |
| FsTree.MemberKeyExample | src/fs/kvspace.rs:93-123 | `/a·x` is the node `a·`, `x`, and `/a/` the node `a` |
| FsTree.SlotsDistinct | src/fs/kvspace.rs:146-164 | no two canonical keys share a file, in any tree |
| FsTree.ConvertKeeps | src/fs/kvspace.rs:255-267 | turning a file into a directory changes no reading |
| FsTree.EnsureDirKeeps | src/fs/kvspace.rs:255-267 | ensuring a directory changes no reading, and succeeds unless a file stands above |
| FsTree.ParentShapeHolds | src/fs/kvspace.rs:587-606 | the parent made sure of lies on the key's own node, with only member directories between |
| FsTree.WriteExact | src/fs/kvspace.rs:207-221 | a write is a map update of its key alone; refused exactly when a file stands strictly above the parent's node, and then no reading changes |
| FsTree.FileInTheWay | src/fs/kvspace.rs:207-221 | a file at `/a` refuses a write to `/a/b/c` |
| FsTree.RemoveExact | src/fs/kvspace.rs:223-230 | a removal takes away its own key's reading and no other |
| FsTree.RunRefines | src/fs/kvspace.rs:154-230 | over every run of writes and removals, some cut off before their rename, the tree reads as the flat map |
| FsTree.RunFromEmpty | src/fs/kvspace.rs:84-90 | so does a run from a new root |
| FsTree.TempInvisible | src/fs/kvspace.rs:28-39 | a temp file, finished or left behind, changes no reading and leaves the tree well-formed |
| FsTree.TempNamesAre | src/fs/kvspace.rs:19-22 | temp files are those whose name begins with `~~tmp.` |
| FsTree.AbandonedKeeps | src/fs/kvspace.rs:28-39 | so does a whole write that stops before its rename |
| FsTree.InPlaceIsExact | src/fs/kvspace.rs:42-64 | rewriting the body of a value with the same size, head and attrs gives the new value |
| FsTree.FileTree.OverwriteBodyInPlace | src/fs/kvspace.rs:42-64 | acts exactly on such values, and leaves others alone |
| FsTree.FileTree.WriteAtomic | src/fs/kvspace.rs:28-39 | in place or by rename, the path holds the value and nothing else differs, except that a stale temp file of the same name goes |
| FsTree.FileTree.MakeDir | src/fs/kvspace.rs:255-267 | a file in the way moves to `__self__` inside the directory |
| FsTree.FileTree.WriteLeaf | src/fs/kvspace.rs:207-221 | the value goes to the marker of a directory node, else to the node |
| FsTree.FileTree.SetLeaf | src/fs/kvspace.rs:602-606 | the end of a `set`: only the key's own reading changes, exactly unless a file is in the way |
| FsTree.FileTree.ReadLeaf | src/fs/kvspace.rs:154-164 | the reading of a key; none for keys with an empty component |
| FsTree.FileTree.RemoveLeaf | src/fs/kvspace.rs:223-230 | only the key's own reading goes |
| FsTree.FileTree.ResolveOneHop | src/fs/kvspace.rs:302-346 | reading one component at a time takes the same hop as the flat store's prefix fetch |
| FsTree.FileTree.Resolve | src/fs/kvspace.rs:271-281 | and at most sixteen of them lead to the same path |
| FsTree.FileTree.ReadRaw | src/fs/kvspace.rs:462-492 | the whole read of a key, links and extension included, is a function of the map the tree reads like |
| FsTree.TreeReadsAsStore | src/fs/kvspace.rs:462-492 | for leaf keys, and plain directory keys no link stands in for, it is what the flat store reads |
| FsTree.TreeReadsElsewhere | src/fs/kvspace.rs:466-471 | a member directory the two stores read differently |
| FsTree.CanonicalReadsLike | src/fs/kvspace.rs:154-164 | on canonical keys a tree reads like the map it represents |
| Civil.CivilSuccession | src/s3/sigv4.rs:84-95 | day 0 is 1970-01-01, every day is a valid date, the next day is the calendar's next date |
| Civil.CivilCounts | src/s3/sigv4.rs:84-95 | the date's Gregorian day count is the day number |
| Civil.CivilInverse | src/s3/sigv4.rs:84-95 | every valid date is the date of its own count |
| Civil.CivilMonotone | src/s3/sigv4.rs:84-95 | later days have later dates |
| Civil.StampsSort | src/s3/sigv4.rs:98-107 | through the year 9999 stamps compare exactly as their times, and dates as their days |
| Civil.StampExample | src/s3/sigv4.rs:97-107 | second 1369353600 is 20130524T000000Z |
| Civil.WrappedStamp | src/s3/sigv4.rs:98-107 | the last unsigned second is a day before the epoch |
| Civil.YearTenThousandBreaksOrder | src/s3/sigv4.rs:98-107 | the first stamp of the year 10000 sorts before the last of 9999 |
| Percent.UriEncode | src/s3/sigv4.rs:48-63 | the byte loop writes kept characters and `%HH` groups |
| Percent.UriTextsAre | src/s3/sigv4.rs:48-63 | the outputs for strings are exactly the decodable texts of unreserved characters (and, when asked, slashes) and upper-case `%HH` groups for all other bytes |
| Percent.KeptCharacters | src/s3/sigv4.rs:44-63 | which ASCII characters stay as they are |
| Percent.PercentDecode | src/s3/dsn.rs:36-58 | the index loop undoes the groups, refusing a broken group or bytes that are no text |
| Percent.PercentRoundTrip | src/s3/dsn.rs:36-58 | decoding an encoded string gives it back, for every string and either flag |
| Percent.CanonicalQuery | src/s3/sigv4.rs:67-77 | encodes, sorts and joins the pairs |
| Percent.SortedParamsAscend | src/s3/sigv4.rs:72 | the pairs run upward by the bytes of the name, then of the value |
| Percent.QueryReads | src/s3/sigv4.rs:73-76 | the text is `name=value` for each pair with `&` between |
| Percent.QueryIffSameParams | src/s3/sigv4.rs:67-77 | two queries have the same canonical text exactly when they have the same parameters as multisets |
| Resp.RespReads | src/redis/store.rs:95-138 | every reply, nested ones included, with anything behind it reads back as itself and leaves the rest |
| Resp.FrameRoundTrip | src/redis/store.rs:62-75 | a framed command reads as exactly its binary arguments and consumes exactly the frame |
| Resp.FrameExample | src/redis/store.rs:66-71 | a request byte by byte |
| Resp.UnreadableNumbers | src/redis/store.rs:104-130 | an unreadable integer counts as 0, a bulk of unreadable length as nil, an array as empty |
| Resp.RespMore | src/redis/store.rs:95-138 | what a read has returned does not change when more bytes arrive |
| Resp.CutReplyFails | src/redis/store.rs:45-60 | a reply of which anything is still missing is never read as something else |
| Resp.ClosedTaken | src/redis/store.rs:78-138 | on an ended stream any reply cut at any byte is read as a value exactly when it is one that is taken |
| Resp.Conn.Line | src/redis/store.rs:78-93 | a line without its end, and the input behind it |
| Resp.Conn.Resp | src/redis/store.rs:95-138 | the recursive reader consumes exactly what the reading function says |
| Resp.Client.Framed | src/redis/store.rs:66-71 | the loop builds the frame of the arguments |
| Resp.Client.Cmd | src/redis/store.rs:45-75 | whatever part of a reply is late, or the write fails, a command gets its own reply or fails; on a closed stream it gets a value exactly when the cut reply is taken; no leftover reaches the next command |

## Left out

- `kvspaceWatch`, its polling and its cached re-encoded value: depends on outside writers and real time.
- `ext_index` and `del_ext_index`: extensions are read as stored values, but calls that create or remove them are no part of a run; they also leave the read cache as it is.
- Deletions of a directory key through the handle whose leaf key is stored and not named by the same call: they remove the leaf key while only the named keys are invalidated, so `PlainMachine.Admissible` excludes them.
- `kvspaceGetHead`, the `kvspaceNew*` constructors and the view stubs: only easy claims.
- Backend failures and caught panics inside a handle call; error texts and error buffers.
- Raw pointers and alignment: a borrowed view is a buffer identity with its bytes.
- Handles.Handle.ListAt: does not model the capacity of the caller's buffer, only the entry.
- Handles.Handle.SetRange: window offsets and lengths are natural numbers; the 32-bit arguments of the C call are all covered, their conversion is not modelled.
- WireBuild.Fill: running out of memory is not modelled beyond the size limits of the builders.
- XValues.TypedRoundTrip: floats are bit patterns; `value_string` and `code_string` are not modelled.
- The default `set_part` and `get_part` of the store trait are modelled on the store map; other overrides are not.
- FsNames.Unescape: a name with characters outside ASCII behind its `~` is read by characters, where the original slices bytes and can panic; escaped names never look like that.
- FsTree.WriteExact: limits of the operating system on names (length, NUL, case folding, symbolic links) are not modelled, and keys with `.` or `..` components are not canonical.
- The file tree's own `list`, `del_tree`, `cp_tree`, `cp_list` and `set_part`: its listing suffixes implicit directories differently from the flat store's.
- FsTree.FileTree.WriteAtomic: rename is one atomic step; durability across crashes is not modelled.
- FsTree.FileTree.SetLeaf: the checks `set` makes before it writes are those of the flat store and modelled there (`Links.SetOne`).
- Civil.CivilSuccession: stated for all integers; day numbers within 719468 of the i64 limit would overflow in the original, and no time stamp has such a day.
- Requests to S3 (HTTP, TLS, retries, hashing, XML paging), Redis sockets and SCAN cursors: a scan is any listing of the subtree's keys.
- Parsing and redaction of connection strings, `grow_coord_dims`, `validate_ptr`, `langtype_of`: side helpers with only easy claims.
