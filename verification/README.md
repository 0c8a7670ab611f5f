# The ykern browser, modelled and proved

ykern shows the kernel's netlink, sysfs and related interfaces as a tree of objects that can be browsed
and invoked. This project models its computing core: the netlink attribute codec, the loops that drain
dump replies, the metadata overlay with its event parser and its in-place merge, and the object tree with
its paths. Sockets, files and libyaml appear as the sequences of datagrams, directory entries, read
results and events they deliver.

The modules follow the program:

- `Wire`, `AttrTree`, `AttrBuffer`: attributes and messages as bytes (sections 2.2 and 2.3.2 of RFC 3549),
  the tree of nested attributes, and the writer that back-patches nested lengths in a fixed buffer.
- `Schema`, `TextBuffer`, `Render`: attribute sets and aliases, the growing text buffer, and the recursive
  printer over arbitrary bytes.
- `Ctrl`, `Drain`: parsing a family description of the generic netlink controller, and the enumeration of
  families from a dump.
- `Invoke`, `Packing`, `OpSchema`, `Request`: draining replies in the three invoke paths, what their output
  depends on, choosing the attribute set of an operation, and packing a request from arguments.
- `OverlayFile`, `Loader`, `Save`, `Growth`, `Merge`, `Family`: the event grammar, the reader that fills an
  overlay from it, a writer that it undoes, the capacities of its arrays, the merge of curated into
  generated rows with string ownership, and what a family shows in the end.
- `Objects`, `Guards`, `Runs`, `Paths`: lazily populated objects, ownership and destruction, when the
  operations keep the tree, whole runs of them, and paths up and down it.
- `Sysfs`: listing a directory and reading a file.

Methods that change state are specified by functions over the old state; the theorems are about those
functions. In `Merge` a string is a pointer into a heap that records which strings are live, so a double
free, a leak or a read of a freed name would not verify. In `Objects` the set of live objects is passed
along as a ghost value, and destroying returns the objects in the order they are freed.

Some things the code does that its documentation or its names do not suggest are stated as they are: a row
whose id is 0 counts as curated, so a generated row with that id is dropped by the merge (a generated macsec
operation has it); a curated row that gives only `short` also clears `long`; a root that was refreshed has
lost its transports for good (`Objects.BrowseAgain`); the attribute sets of a second file can be appended
past the allocated array (`Growth.SecondFile`, `Family.LoadOverlay`); the drains read the errno of an error
message and the fixed header of a route answer without looking at the length, so that a short one is read
from the message or the leftovers behind it (`Packing.ShownWhateverThePacking`, `Packing.PackingShows`); and
an operation that metadata names no longer answers to `cmd-<id>`, contrary to
docs/metadata-schema.md:117-121, unless that is its name (`Family.AnswersToNumber`).

## Model

| member | source | states |
|---|---|---|
| `Wire.WalkEncAttrs` | src/ykern/ynetlink/genl-operation.c:31-46 | walking a written list of attributes gives back that list |
| `Wire.CursorStep` | src/ykern/ynetlink/genl-operation.c:31-46 | for any bytes, the pointer-and-remaining-length macros agree with the walk over the bytes the cursor still covers, and never read outside them |
| `Wire.WalkStep` | src/ykern/ynetlink/genl-namespace.c:28-43 | one turn of an NLA_OK/NLA_NEXT loop takes the first attribute off the walk of the window; the loop ends exactly when the walk is empty |
| `Wire.WalkEncMsgs` | src/ykern/ynetlink/genl-namespace.c:406-439 | walking a written list of netlink messages (lengths below 2^32) gives back that list |
| `Wire.MsgCursorStep` | src/ykern/ynetlink/genl-namespace.c:406-439 | NLMSG_OK/NLMSG_NEXT on a cursor agree with the message walk over the bytes left |
| `Wire.AttrBytes` | src/ykern/ynetlink/genl-operation.c:386-440 | an attribute as bytes: a little-endian 16-bit length of header and payload, a 16-bit type, the payload at offset 4, zeros up to a multiple of four |
| `Wire.WalkBytes` | src/ykern/ynetlink/genl-namespace.c:28-43 | an attribute is there if and only if its length field is at least 4 and at most what is left; type and payload stand where they should and the next one at the next multiple of four |
| `Wire.TypeBits` | src/ykern/ynetlink/genl-namespace.c:28-43 | the type is the lower 14 bits of the field and the nest flag its top bit |
| `Wire.MsgBytes` | src/ykern/ynetlink/genl-namespace.c:406-439 | a message as bytes: length, type, flags, sequence number and port id at offsets 0, 4, 6, 8 and 12, the payload at 16, zeros up to a multiple of four |
| `Wire.MsgWalkBytes` | src/ykern/ynetlink/genl-namespace.c:406-439 | a message is there if and only if its length field is at least 16 and at most what is left, with its fields at those offsets |
| `AttrTree.RoundTrip` | src/ykern/ynetlink/genl-operation.c:386-440 | encoding a tree of attributes and walking it recursively gives the same tree if and only if every type, at every level, is below 2^14 |
| `AttrTree.DecodeEncAll` | src/ykern/ynetlink/genl-operation.c:386-440 | types below 2^14 and 16-bit lengths suffice for the nested round trip |
| `AttrTree.DecodedTypesFit` | src/ykern/ynetlink/genl-operation.c:31-46 | no walk, over any bytes, ever reports a type of 2^14 or more |
| `AttrBuffer.AttrBuf.PutString` | src/ykern/ynetlink/genl-operation.c:397-408 | ab_string succeeds exactly when the aligned attribute fits, then adds one string attribute at the current nesting level: its bytes with the NUL, behind everything before them, which stays |
| `AttrBuffer.AttrBuf.PutU32` | src/ykern/ynetlink/genl-operation.c:410-420 | ab_u32 succeeds exactly when 8 bytes are left, then adds one number at the current level, its eight bytes behind everything before them |
| `AttrBuffer.AttrBuf.BeginNested` | src/ykern/ynetlink/genl-operation.c:422-432 | ab_begin_nested opens one level at the current offset, a header with length 0 and the type with its top bit set, or changes nothing when the header does not fit |
| `AttrBuffer.AttrBuf.EndNested` | src/ykern/ynetlink/genl-operation.c:434-440 | ab_end_nested closes the innermost level: only the two length bytes change, and make its bytes those of the nest around what was put since |
| `AttrBuffer.AttrBuf.Finished` | src/ykern/ynetlink/genl-operation.c:386-440 | after any well-bracketed run of the four writers on a buffer below 64 KiB: the bytes are the encoded tree, the offset is 4-aligned, everything behind it is still zero, and the recursive walk gives the tree back exactly when its types are below 2^14 |
| `Schema.SetNamed` | src/ykern/ynetlink/genl-overlay.c:644-655 | the set found by name is one of the sets and has that name; none is found only when there is none |
| `Schema.FindSet` | src/ykern/ynetlink/genl-overlay.c:644-655 | the scan returns the first set of that name |
| `Schema.FindName` | src/ykern/ynetlink/genl-overlay.c:657-667 | the scan returns the name of the first entry with that id |
| `Schema.FindId` | src/ykern/ynetlink/genl-overlay.c:669-681 | the scan returns the id of the first entry with that name |
| `Schema.IdOf` | src/ykern/ynetlink/genl-overlay.c:669-681 | lookup_id succeeds exactly when some entry has the name, with the id of such an entry |
| `Schema.IdNamesKey` | src/ykern/ynetlink/genl-overlay.c:657-681 | with unique ids, lookup_name of the id found for a key is that key |
| `Schema.ResolveAlias` | src/ykern/ynetlink/genl-operation.c:610-620 | the alias scan returns the first row for that parent set and attribute |
| `TextBuffer.TextBuf.Grow` | src/ykern/ynetlink/genl-operation.c:451-461 | growth keeps the text, makes room for the piece and its NUL, and keeps both the capacity (at most 256 or below twice the need) and the characters copied so far (at most the capacity) bounded |
| `TextBuffer.TextBuf.Append` | src/ykern/ynetlink/genl-operation.c:463-479 | after any run of appends the buffer holds the concatenation of the pieces, with the same bounds |
| `Render.DepthBound` | src/ykern/ynetlink/genl-operation.c:678-738 | whatever the schema, even one whose sets name each other in a circle, nesting is at most a quarter of the byte length deep |
| `Render.ItemPerAttr` | src/ykern/ynetlink/genl-operation.c:678-738 | what is shown for any bytes is one item per attribute of the walk, in order |
| `Render.WrittenThenInterpreted` | src/ykern/ynetlink/genl-operation.c:678-738 | a list of attributes that was written is shown as one item for each of them, in order |
| `Render.RenderAttrs` | src/ykern/ynetlink/genl-operation.c:678-738 | on arbitrary bytes and any schema the in-place cursor recursion terminates (by bytes left), reads only its window, and prints the pretty-print of the window's tree; along every path of attributes inside one another, each read under the set that the name or alias of the one above leads to, the last is printed as deep as the path is long, under the name its own set gives it: as a value, a heading, an undeclared nest or a compact bit |
| `Render.RenderOne` | src/ykern/ynetlink/genl-operation.c:686-736 | one loop body prints the item of its attribute, which OneShown spells out |
| `Render.OneShown` | src/ykern/ynetlink/genl-operation.c:686-736 | in terms of the lookups alone: a payload with a set is a heading over what is shown of it under that set, one level deeper; without a set a nest is a heading over a note of its size and anything else is its name and value; a full BITSET_BIT is one line |
| `Render.AllShown` | src/ykern/ynetlink/genl-operation.c:684-737 | the attributes of a byte string are shown one after the other, each once, and nothing else is |
| `Render.PathTold` | src/ykern/ynetlink/genl-operation.c:678-738 | the end of every path of attributes inside one another is shown at its depth under its own set |
| `Render.ScalarShown` | src/ykern/ynetlink/genl-operation.c:509-561 | by the bytes: empty is a flag; printable text behind which one NUL stands is quoted without it; 1, 2, 4 and 8 bytes are little-endian numbers; anything else is its size, its first 32 bytes and an ellipsis if there are more |
| `Render.BitScanSays` | src/ykern/ynetlink/genl-operation.c:633-676 | the index is the last of four bytes or more, the name the last one less its NUL, and the flag whether VALUE occurs |
| `Render.FindChildSet` | src/ykern/ynetlink/genl-operation.c:691-704 | the set a payload is read under: by the attribute's own name first, then by its alias |
| `Render.TryRenderBit` | src/ykern/ynetlink/genl-operation.c:633-676 | the compact form is used exactly when BITSET_BIT declares INDEX, NAME and VALUE, and then prints the last well-sized index, the last name and whether VALUE occurred |
| `Render.CheckString` | src/ykern/ynetlink/genl-operation.c:496-507 | true exactly when the last byte is NUL and every earlier one is a tab or at least 0x20 and not 0x7f |
| `Render.RenderScalar` | src/ykern/ynetlink/genl-operation.c:509-561 | the branch by size and by string-likeness, with blobs cut at 32 bytes |
| `Render.Printer.WriteTo` | src/ykern/ynetlink/genl-operation.c:463-479 | carrying the recorded appends out on a text buffer leaves the concatenation of the formatted pieces |
| `Merge.Heap.Free` | src/ykern/ynetlink/genl-overlay.c:786-826 | free demands a live pointer (or NULL) and ends its life |
| `Merge.Overlay.MergeCurated` | src/ykern/ynetlink/genl-overlay.c:786-826 | the in-place compaction equals the clean join: the rows with cmd_id != 0, in order, id and name kept, the first of each name described by the last curated row of that name; afterwards every live string has exactly one owner among the surviving rows and the rest of the overlay |
| `Merge.Places` | src/ykern/ynetlink/genl-overlay.c:789-798 | the generated rows are those with an id, each once and in order |
| `Merge.JoinIs` | src/ykern/ynetlink/genl-overlay.c:799-823 | row for row: the k-th row of the join is the k-th row with an id, described by the last row without an id that has its name if no row with an id before it has the name, and by itself otherwise |
| `Merge.Owners` | src/ykern/ynetlink/genl-overlay.c:786-826 | what the ownership invariant means: every string of a row is allocated and says what it said, and nothing else is allocated but what belongs to others |
| `Merge.Overlay.MergeRows` | src/ykern/ynetlink/genl-overlay.c:789-824 | the loop invariant over stale and already freed rows: compacted prefix, untouched suffix, and single ownership at every step |
| `Merge.Overlay.FindGenerated` | src/ykern/ynetlink/genl-overlay.c:799-804 | the inner search reads live names only, never those of stale or freed rows, and stops at the first described row |
| `Merge.Overlay.MatchRow` | src/ykern/ynetlink/genl-overlay.c:805-823 | a curated row's descriptions replace those of its match, whose old strings and the curated name are freed once each |
| `Merge.Overlay.DropRow` | src/ykern/ynetlink/genl-overlay.c:816-823 | a curated row without a match is dropped and its three strings freed once each |
| `Merge.MatchStep` | src/ykern/ynetlink/genl-overlay.c:800-823 | absorbing one curated row keeps the merge invariant for all later rows, although stale copies of earlier rows stay in the array |
| `Merge.KeepStep` | src/ykern/ynetlink/genl-overlay.c:791-798 | moving a generated row down keeps the merge invariant, although its old slot still names the same strings |
| `Merge.NameLive` | src/ykern/ynetlink/genl-overlay.c:801-804 | every row the search compares still owns a live name |
| `Merge.Overlay.Destroy` | src/ykern/ynetlink/genl-overlay.c:613-642 | overlay_destroy frees every string the overlay owns exactly once and nothing else |
| `OverlayFile.DecimalParses` | src/ykern/ynetlink/genl-overlay.c:44-53 | every number below 2^32, written in decimal, is read back as itself |
| `OverlayFile.NumberText` | src/ykern/ynetlink/genl-overlay.c:44-53 | digits behind optional white space and an optional sign are read as the number they spell, wrapped at 2^64 behind a minus, if both fit their widths, and refused otherwise |
| `OverlayFile.OnlyNumbers` | src/ykern/ynetlink/genl-overlay.c:44-53 | every accepted text is of that shape |
| `OverlayFile.Places` | src/ykern/ynetlink/genl-overlay.c:44-53 | digits count in base ten |
| `OverlayFile.CStrIs` | src/ykern/ynetlink/genl-overlay.c:39-42 | a scalar is taken up to its first NUL |
| `Save.SavedLoadsBack` | src/ykern/ynetlink/genl-overlay.c:86-607 | an overlay written down, each operation in the chosen key flavour, loads back as the same overlay if and only if texts are NUL-free, ids fit 32 bits, and an operation keyed by name has the id 0 and a name that reads as no number |
| `Save.ReadBack` | src/ykern/ynetlink/genl-overlay.c:522-607 | read_top on the serialised events of an overlay stops right behind them, and has rebuilt the overlay under exactly that condition |
| `Save.WrittenOut` | src/ykern/ynetlink/genl-overlay.c:86-607 | the format in full: an overlay with an operation of either flavour, a group and a set, event by event |
| `Save.OpBack` | src/ykern/ynetlink/genl-overlay.c:186-230 | one operation, in either flavour, comes back if and only if it is of that kind |
| `Save.AttrBack` | src/ykern/ynetlink/genl-overlay.c:362-462 | one attribute comes back if and only if its id fits 32 bits and its texts are NUL-free |
| `Save.CleanIsKept` | src/ykern/ynetlink/genl-overlay.c:39-42 | a text survives take_scalar if and only if it has no NUL |
| `Save.DecimalKey` | src/ykern/ynetlink/genl-overlay.c:44-53 | a decimal key reads back as its number if that fits 32 bits, and as no number otherwise |
| `OverlayFile.ParsesExactly` | src/ykern/ynetlink/genl-overlay.c:86-607 | an event stream parses to a document and a rest if and only if the document is well-formed and the stream is its serialisation followed by that rest |
| `OverlayFile.FieldsThere` | src/ykern/ynetlink/genl-overlay.c:96-155 | serialised inner fields parse back, consuming through their MAPPING_END |
| `OverlayFile.EntriesThere` | src/ykern/ynetlink/genl-overlay.c:186-230 | serialised entries parse back, numeric keys required only for attributes |
| `OverlayFile.SetsThere` | src/ykern/ynetlink/genl-overlay.c:464-517 | serialised attribute sets parse back |
| `Loader.Reader.ReadTop` | src/ykern/ynetlink/genl-overlay.c:522-607 | read_top accepts exactly the well-formed documents, consumes through the closing event, leaves the overlay the document describes, and has appended each row to its array; on a malformed stream it has appended one set for each set begun, and every sound array of operations or groups is still sound |
| `Loader.Reader.ReadOperations` | src/ykern/ynetlink/genl-overlay.c:186-230 | appends one operation per entry, with id 0 and the key as name when the key is no number, growing the array by its own check |
| `Loader.Reader.ReadOpInner` | src/ykern/ynetlink/genl-overlay.c:86-177 | each field takes the last value given, unknown fields are skipped, and one row is appended |
| `Loader.Reader.ReadMcastEntry` | src/ykern/ynetlink/genl-overlay.c:235-316 | appends one group, called by its key, with the last descriptions given |
| `Loader.Reader.ReadMcastGroups` | src/ykern/ynetlink/genl-overlay.c:318-352 | appends one multicast group per entry, growing the array by its own check |
| `Loader.Reader.ReadSet` | src/ykern/ynetlink/genl-overlay.c:496-515 | one set takes its slot under its name, whether or not the slot exists, and then its attributes |
| `Loader.Reader.ReadAttributeSets` | src/ykern/ynetlink/genl-overlay.c:464-517 | appends one set per entry with its attributes in order, and records in the array whether each append found a slot, also for the set in which it breaks off; a key that is no number is refused |
| `Loader.Reader.ReadAttrEntries` | src/ykern/ynetlink/genl-overlay.c:362-462 | reads one attribute per entry, in order, with the last name and type given |
| `Loader.Reader.ReadFields` | src/ykern/ynetlink/genl-overlay.c:96-155 | the inner mapping loop shared by operations, groups and attributes: scalar pairs until the mapping ends |
| `Loader.TopOrderIrrelevant` | src/ykern/ynetlink/genl-overlay.c:522-607 | swapping neighbouring top-level keys that differ does not change the overlay that is loaded |
| `Loader.RowOfSwapped` | src/ykern/ynetlink/genl-overlay.c:96-155 | exchanging neighbouring fields with different keys changes no operation, group or attribute read from the entry |
| `Loader.FieldOrderIrrelevant` | src/ykern/ynetlink/genl-overlay.c:522-607 | exchanging neighbouring fields with different keys, in any entry of any section of a document, does not change the overlay that is loaded |
| `Loader.LoadConcat` | src/ykern/ynetlink/genl-overlay.c:522-607 | what more top-level keys say behind others is added to what those said |
| `Loader.LaterKey` | src/ykern/ynetlink/genl-overlay.c:586-604 | a later family, short or long replaces an earlier one, an unknown key changes nothing, and a later section adds its rows behind those loaded |
| `Loader.LastIs` | src/ykern/ynetlink/genl-overlay.c:96-155 | the last field of a name counts |
| `Loader.NinthRow` | src/ykern/ynetlink/genl-overlay.c:157-175 | the arrays of rows start with eight slots and double |
| `Growth.SecondFile` | src/ykern/ynetlink/genl-overlay.c:756-761 | with n sets in the first file and m in the second, every set is written to a slot that exists if and only if n is 0 or n + m is at most the slots of the first file's array |
| `Growth.SlotsAreLeast` | src/ykern/ynetlink/genl-overlay.c:495-506 | those slots are the least of 16, 32, 64, … that hold n sets |
| `Growth.FitIff` | src/ykern/ynetlink/genl-overlay.c:495-512 | a run of appends finds a slot each time if and only if the capacity covers the count at the start or the slots cover the count at the end |
| `Growth.SeventeenthSet` | src/ykern/ynetlink/genl-overlay.c:495-512 | the concrete failure: sixteen sets in the first file and one in the second |
| `Family.MergeByValue` | src/ykern/ynetlink/genl-overlay.c:786-826 | the pointer-level merge, read as texts, is the value-level join |
| `Family.MergeInMemory` | src/ykern/ynetlink/genl-overlay.c:786-826 | the rows the in-place merge leaves, read in memory as it is after the frees, are the value-level join of the rows as they were read before |
| `Family.FindOp` | src/ykern/ynetlink/genl-overlay.c:707-718 | the scan returns the first row with that id |
| `Family.FindMcast` | src/ykern/ynetlink/genl-overlay.c:720-731 | the scan returns the first group of that name |
| `Family.FoundAfterMerge` | src/ykern/ynetlink/genl-overlay.c:707-826 | after the merge an id is found exactly when it is not 0 and some row had it, and what is found is the first such row's name with its joined descriptions |
| `Family.LoadedOps` | src/ykern/ynetlink/genl-overlay.c:186-230 | the operations loaded are those of the document in order |
| `Family.TwoFilesFit` | src/ykern/ynetlink/genl-overlay.c:742-778 | over both files every operation and every group finds a slot, and every set does if and only if the first file has none or the slack of its array takes those of the second |
| `Family.LoadFile` | src/ykern/ynetlink/genl-overlay.c:742-778 | a missing file leaves overlay and arrays alone, a malformed one is an error, any other is appended to the arrays as the seeded capacities have it; a malformed one too has taken a slot for each set it begins |
| `Family.SetsCounted` | src/ykern/ynetlink/genl-overlay.c:464-517 | the sets a file begins are, if it can be read, those of its document |
| `Family.LoadOverlay` | src/ykern/ynetlink/genl-overlay.c:828-894 | no overlay exactly when both files are missing, an error exactly when one is malformed; for any files loading stays in bounds if and only if the first is malformed, begins no set, or has slack for the sets the second begins; in bounds, readable files leave generated then curated rows with the operations joined |
| `Family.GenlFamily.PopulateChildren` | src/ykern/ynetlink/genl-family.c:80-127 | appends one child per kernel operation in kernel order, then one per multicast group, each with what the overlay has for it |
| `Family.ShowFamily` | src/ykern/ynetlink/genl-namespace.c:348-371 | end to end, from the events of both files and what the kernel reported to the children: in bounds exactly under the condition of LoadOverlay, and then each operation named by the first generated row of its non-zero id and described by the last curated row of that name if no earlier generated row has it, by its own row otherwise, bare without a row or when a file is malformed; each group described by the first row of its name |
| `Family.ShownAfterMerge` | src/ykern/ynetlink/genl-family.c:80-111 | what the populate loop finds in the joined rows is what the rows of both files say directly |
| `Family.OpShownIs` | src/ykern/ynetlink/genl-family.c:80-111 | by places among the rows of both files: the operation has the name of the first row of its non-zero id, and the short and long of the last row without an id of that name if no row with an id before it has the name, else its own |
| `Family.OthersShown` | src/ykern/ynetlink/genl-family.c:80-127 | an operation with id 0 or without a row is bare; a group has the short and long of the first row of its name, or none |
| `Family.ShownUnder` | src/ykern/ynetlink/genl-operation.c:93-101 | a kernel operation is named by the first row of its non-zero id in generated-then-curated order, else cmd-<id>, and bare of descriptions without such a row |
| `Family.AnswersToNumber` | src/ykern/ynetlink/genl-operation.c:93-101 | an operation answers to cmd-<id> if and only if it has that id and no name from metadata, or metadata gives it that very name |
| `Family.GroupAnswersToNumber` | src/ykern/ynetlink/genl-mcast-group.c:20-28 | a group answers to group-<id> if and only if it has that id and no name, or that very name |
| `Family.FindChild` | tools/ykern/main.c:155-169 | the first child that answers to a name, or none exactly when no child does |
| `Ctrl.CountAttrs` | src/ykern/ynetlink/genl-namespace.c:105-125 | the count pass counts exactly the attributes of the walk |
| `Ctrl.ParseOpsAttr` | src/ykern/ynetlink/genl-namespace.c:105-160 | the fill pass never indexes past the count and leaves one entry per outer attribute, in order, with the last number of type 1 as its id and the last of type 2 as its flags, or 0 |
| `Ctrl.FillOp` | src/ykern/ynetlink/genl-namespace.c:126-158 | one slot receives the last well-sized ID and FLAGS of its entry; the others stay |
| `Ctrl.ParseMcastAttr` | src/ykern/ynetlink/genl-namespace.c:166-235 | the same for multicast groups: the last non-empty name of type 1, up to its NUL, and the last number of type 2 as the id |
| `Ctrl.ProcessFamilyMsg` | src/ykern/ynetlink/genl-namespace.c:251-380 | under four bytes are an error and any command but 1 is passed over; else there is a family if and only if a name of 1 to 17 bytes (type 2) and an id of two or more (type 1) occur, and it has the last of each, the last version, header size and highest attribute (types 3, 4, 5) of four bytes or more, and an entry for each in the last lists of operations and groups (types 6, 7) |
| `Ctrl.FamilyFolded` | src/ykern/ynetlink/genl-namespace.c:281-339 | after any attributes the name, the id, the numbers and the lists are those of the last well-sized attribute of their type |
| `Ctrl.OpFolded` | src/ykern/ynetlink/genl-namespace.c:126-158 | an operation entry has the last well-sized id and flags |
| `Ctrl.GroupFolded` | src/ykern/ynetlink/genl-namespace.c:197-224 | a group entry has the last well-sized id and the last non-empty name |
| `Ctrl.UnknownAttrIgnored` | src/ykern/ynetlink/genl-namespace.c:281-339 | inserting an attribute of unknown type anywhere at top level leaves the parsed family unchanged |
| `Ctrl.UnknownInEntryIgnored` | src/ykern/ynetlink/genl-namespace.c:126-158 | inserting an unknown attribute anywhere inside an operation or group entry leaves the entry unchanged |
| `Ctrl.UnknownInMessageIgnored` | src/ykern/ynetlink/genl-namespace.c:251-380 | inserting an unknown attribute into any entry of the operations or groups, anywhere in a family message, leaves the family parsed from the message unchanged |
| `Ctrl.FamilyRoundTrip` | src/ykern/ynetlink/genl-namespace.c:251-380 | a NEWFAMILY message that describes a family parses back to that family, operations and groups included |
| `Drain.GenlNamespace.PopulateChildren` | src/ykern/ynetlink/genl-namespace.c:382-445 | the recv loop over any datagrams appends the families that running over the message stream gives, and ends at the first message of its sequence that is of type 3 (DONE), of type 2 (error) or too short, or else at an empty datagram, or else when recv fails |
| `Drain.GenlNamespace.WalkDatagram` | src/ykern/ynetlink/genl-namespace.c:403-440 | one datagram appends the families of its messages up to the first that ends the dump |
| `Drain.PackedMessages` | src/ykern/ynetlink/genl-namespace.c:403-440 | messages packed into datagrams any way that fits the receive buffer are walked back as the same stream |
| `Drain.PackingIrrelevant` | src/ykern/ynetlink/genl-namespace.c:403-440 | two packings of the same messages enumerate the same families in the same order and end alike |
| `Drain.StrayIgnored` | src/ykern/ynetlink/genl-namespace.c:403-440 | messages with another sequence number, of whatever type, have no effect |
| `Drain.Enumerated` | src/ykern/ynetlink/genl-namespace.c:403-440 | what is appended are exactly the families of the matching messages before the first matching DONE, ERROR or truncated one |
| `Drain.NsEnds` | src/ykern/ynetlink/genl-namespace.c:403-440 | behind messages of another sequence and well-sized ones of other types, type 3 finishes the loop, type 2 is an error, and a payload below four bytes is refused |
| `Invoke.DrainReply` | src/ykern/ynetlink/genl-operation.c:1106-1161 | the receive loop over any datagrams, into a buffer with any contents, prints and counts what running over the message stream gives; a dump that is shown ends in the number of its entries, which are numbered from one, with every answer before its end behind such a number; the first message that is neither a zero-error acknowledgement nor, in a dump, an answer decides: type 3 shows the reply, type 2 gives its errno, and a one-shot answer is shown alone; of a message too short for its errno field or its fixed header, what is missing is read from the bytes behind it in the buffer, as earlier datagrams left them |
| `Invoke.PrintDatagram` | src/ykern/ynetlink/genl-operation.c:914-951 | one datagram in the buffer: acknowledgements skipped, DONE and errors end it, each answer printed behind its entry number; a short error message or route answer is read on into what follows it |
| `Invoke.PrintBody` | src/ykern/ynetlink/rtnl.c:585-601 | one answer: attributes under their set, a note for want of one, or the fixed header's fields, read whatever the length, and then the attributes flat |
| `Invoke.BodyShows` | src/ykern/ynetlink/genl-operation.c:1133-1150 | the attributes of an answer start four bytes into its payload and are shown one level deep, each under the set its path leads to; without a set the note gives their length |
| `Invoke.RouteBodyShows` | src/ykern/ynetlink/rtnl.c:585-601 | a route answer is its fixed header and then each attribute behind it, in order, with the name the table has for its type |
| `Invoke.HeaderStructs` | src/ykern/ynetlink/rtnl.c:370-414 | the printed header fields are those of ifinfomsg, ifaddrmsg, rtmsg and ndmsg, field after field, without the padding |
| `Invoke.PrintRoute` | src/ykern/ynetlink/rtnl.c:589-601 | the route attribute loop prints name or number and value of each attribute of its window, in order |
| `Invoke.LookupRoute` | src/ykern/ynetlink/rtnl.c:257-263 | the table scan returns the first row of that id |
| `Invoke.SeenAllAsSent` | src/ykern/ynetlink/genl-operation.c:1106-1131 | datagrams without a message shorter than what is read of it are seen as the messages that were sent, whatever the buffer held |
| `Invoke.DumpShows` | src/ykern/ynetlink/genl-operation.c:908-957 | a dump prints exactly the answers before the first DONE or non-zero ERROR, skips zero-error acknowledgements, and counts the entries it printed |
| `Invoke.RunEnds` | src/ykern/ynetlink/genl-operation.c:914-951 | behind zero-error messages and, in a dump, answers: type 3 ends the loop, type 2 ends it with the negated signed first four bytes, and without dump mode an answer ends it |
| `Invoke.OneShotShows` | src/ykern/ynetlink/genl-operation.c:941-949 | without dump mode the first answer after acknowledgements is printed alone and ends the call |
| `Packing.BufferDecides` | src/ykern/ynetlink/rtnl.c:562-607 | for any datagrams at all and all three drains: what is shown depends on what the buffer held before them if and only if the drain, before it ends, reads the errno of an error message behind everything received so far, or reads the fixed header of a route answer there and then ends with DONE |
| `Packing.Unreached` | src/ykern/ynetlink/rtnl.c:569-604 | one datagram into two buffers that agree on what was written so far: without an error message read behind that, the loop ends the same after as many answers, and prints the same if and only if no answer is read there either (the bytes there being ones and twos); with one, the two errnos differ |
| `Packing.SeenPacked` | src/ykern/ynetlink/rtnl.c:562-573 | of messages packed into datagrams the drain sees each in order as it was sent, with its padding where it is short of what is read; only a message short even then gets the bytes that stand behind it |
| `Packing.ShownWhateverThePacking` | src/ykern/ynetlink/rtnl.c:562-607 | two packings of the same messages show the same, whatever stands behind the too short messages of the one and of the other, if and only if no too short error message comes before the end of the drain nor, if that is DONE, a too short answer |
| `Packing.ShownWhateverTheBuffer` | src/ykern/ynetlink/rtnl.c:562-607 | under that condition all three drains show the same for any two packings of the same messages and any two contents of the buffer |
| `Packing.OneDatagram` | src/ykern/ynetlink/genl-operation.c:919-937 | an error message without payload in front of another message in one datagram ends the drain with the negated length of the other as the errno |
| `Packing.PackingShows` | src/ykern/ynetlink/genl-operation.c:919-937 | the failing inputs: any two error messages without payload end the drain with errno -16 in one datagram, and pass for acknowledgements in two when the buffer holds zeros behind them |
| `OpSchema.StripsTheSuffix` | src/ykern/ynetlink/genl-operation.c:750-771 | whichever recognised suffix a name has, that one is stripped, and the result is refused exactly when it does not fit the buffer |
| `OpSchema.OneSuffix` | src/ykern/ynetlink/genl-operation.c:750-771 | no name has two of the recognised suffixes, so the table order does not matter |
| `OpSchema.StripSuffix` | src/ykern/ynetlink/genl-operation.c:750-771 | whatever the name ends in of the ten suffixes is stripped, refused if the rest does not fit, and nothing else is |
| `OpSchema.StripPrefix` | src/ykern/ynetlink/genl-operation.c:776-790 | the same at the front for the four prefixes |
| `OpSchema.BrowseSet` | src/ykern/ynetlink/genl-operation.c:303-332 | a set called ATTRS if there is one; else, for an operation called x and a suffix, with x of 1 to 127 characters, a set called x; else the same for a prefix and x; else, for ethtool only, HEADER; and no set but these |
| `OpSchema.InvokeSet` | src/ykern/ynetlink/genl-operation.c:1003-1023 | the separately written selection of invoke makes the same choices, without the HEADER fallback |
| `OpSchema.ShowChildren` | src/ykern/ynetlink/genl-operation.c:338-367 | the children shown are the named attributes of the browsed set, in order, and a name is among them if and only if an attribute of the set has it |
| `OpSchema.BrowseMatchesInvoke` | src/ykern/ynetlink/genl-operation.c:303-367 | the keys shown are exactly the keys invoke accepts, unless the family is ethtool, has no set for the operation and falls back to a non-empty HEADER set: an exact condition |
| `Request.CheckUint` | src/ykern/ynetlink/genl-operation.c:989-996 | true exactly for non-empty strings of digits |
| `Request.PackGeneric` | src/ykern/ynetlink/genl-operation.c:1025-1080 | packs exactly when there is metadata or nothing to pack, every key is known and all arguments fit 1024 bytes, and names the first argument that stops it otherwise; the bytes are one message with the family's type, flags 0x1, or 0x301 without arguments, the sequence number, command and version, and one attribute per argument in order, of the type found for its key, numbers up to 2^32-1 in four bytes and everything else as its string |
| `Request.PackArg` | src/ykern/ynetlink/genl-operation.c:1060-1077 | one argument appends one attribute or, when it does not fit, none |
| `Request.KeysComeBack` | src/ykern/ynetlink/genl-operation.c:1044-1080 | with unique ids below 2^14, looking up the type a receiver decodes gives each argument's key back |
| `Request.KernelReads` | src/ykern/ynetlink/genl-operation.c:1025-1080 | a finished request, read by the message and attribute walks, is one message with the intended header and attributes |
| `Request.PackEthtool` | src/ykern/ynetlink/genl-operation.c:831-883 | refuses exactly an index, without a name, that is no u32, or a name over 227 bytes; otherwise the bytes are one message with flags 0x1, or 0x301 with neither name nor index, and one HEADER nest with the name if one is given, else the index if one is given, else nothing |
| `Objects.Push` | src/ykern/ycore/object.c:233-244 | adds the pointer at the end and sets the child's parent; capacity doubles from 8 when full, and fewer than two pointer copies per child have been made |
| `Objects.AppendChild` | src/ykern/ycore/object.c:223-245 | appending a child nobody owns, with everything below it, to any object outside its subtree keeps the forest and takes just that child from the unowned |
| `Objects.GetChildren` | src/ykern/ycore/object.c:137-157 | populates on the first call only: behind the children there were come the pending transports of a root, or new children for what the kernel offers now; the tree is still a forest, nothing became unowned, and no other object's children changed |
| `Objects.HandOver` | src/ykern/ycore/root.c:46-69 | the pending transports are appended to the children, in order, with the root as parent, and the pending list is empty: none is on both |
| `Objects.RootPopulate` | src/ykern/ycore/root.c:46-69 | handing over keeps the forest and every unowned object, and changes no other object's children |
| `Objects.KindPopulate` | src/ykern/ynetlink/genl-family.c:80-127 | a populate of any other kind appends one new child for each thing offered at that moment, in order, and keeps the forest |
| `Objects.RootCreate` | src/ykern/ycore/root.c:93-114 | the new root owns the transports through its pending list; the tree is a forest with the root in their place among the unowned |
| `Objects.Destroy` | src/ykern/ycore/object.c:197-207 | the recursion frees in the order of FreeOrder: the subtrees of the children, then those of pending transports, then the object |
| `Objects.DestroyKids` | src/ykern/ycore/root.c:71-83 | the loop over children and, for a root, the loop over the pending transports it never handed over |
| `Objects.FreedOnce` | src/ykern/ycore/object.c:197-221 | what is freed is exactly the subtree, and no object is freed twice |
| `Objects.OwnerLater` | src/ykern/ycore/object.c:197-221 | every object is freed before its owner, so nothing that is still to be visited hangs from a freed object |
| `Objects.Refresh` | src/ykern/ycore/object.c:159-221 | frees the subtrees of the children, each object once; what remains is a forest with the same unowned objects, and the next browse populates again |
| `Objects.BrowseAgain` | src/ykern/ycore/object.c:137-167 | with the kernel offering the same both times, browse, refresh, browse shows the same if and only if the object is a root that owned nothing, or is no root and had, before, the offered children if it was populated and none if it was not |
| `Objects.KidsApart` | src/ykern/ycore/object.c:209-221 | subtrees of different children never meet |
| `Objects.DestroyKeeps` | src/ykern/ycore/object.c:197-207 | destroying an unowned object leaves a forest of the others |
| `Objects.NothingLeaks` | src/ykern/ycore/object.c:197-207 | when one root is all that nobody owns, destroying it frees every live object |
| `Runs.Session.Run` | src/ykern/ycore/object.c:137-245 | over any sequence of creating, root_create, append, get_children, refresh and destroy, what was created is, counted with multiplicity, what was freed and what is live: each object is destroyed at most once; what is live is a forest; and once no unowned object is left, everything was freed |
| `Runs.Session.Do` | src/ykern/ycore/object.c:137-245 | each command does what its operation does if its objects are live and it leaves the tree a tree, and then changes the children of no other object; otherwise it changes nothing |
| `Guards.AppendUnchecked` | src/ykern/ycore/object.c:223-245 | object_append_child on any two live objects leaves a tree if and only if the child has no owner and the new parent is not below it |
| `Guards.RootUnchecked` | src/ykern/ycore/root.c:93-114 | root_create on any live objects leaves a tree if and only if they are distinct and none has an owner |
| `Guards.DestroyGuard` | src/ykern/ycore/object.c:197-207 | destroying a live object leaves a tree of the others if and only if nothing owns it |
| `Guards.TreeIsForest` | src/ykern/ycore/object.c:71-77 | a tree, in which every way up from owner to owner ends, is a forest with the depths for ranks |
| `Guards.ForestIsTree` | src/ykern/ycore/object.c:71-77 | in a forest every way up from owner to owner ends |
| `Paths.GetPath` | src/ykern/ycore/object.c:66-132 | two upward walks, segments filled backwards and a buffer of exactly the computed size: the text is the names joined from the top, its length one less than the buffer, the NUL last; a root's path is / |
| `Paths.PathGrows` | src/ykern/ycore/object.c:66-132 | a slash for the root, and a slash and its name for each object below it |
| `Paths.FillSegments` | src/ykern/ycore/object.c:89-103 | filling from the end upwards leaves the names in order from the top |
| `Paths.JoinSegments` | src/ykern/ycore/object.c:105-131 | the computed total is exact and every store is in bounds |
| `Paths.PathJoin` | src/ykern/ycore/path.c:7-23 | trims all trailing slashes of the parent, then adds one slash and the segment |
| `Paths.JoinExtends` | src/ykern/ycore/path.c:7-23 | path_join of a path and a name is the path with that name added if and only if it is the root path or does not end in a slash |
| `Paths.PathOfChild` | src/ykern/ycore/object.c:66-132 | get_path of a child is path_join of its parent's path and its name if and only if the parent is a root or its path does not end in a slash |
| `Paths.TokensOfJoined` | tools/ykern/main.c:190-204 | splitting a path built from non-empty slash-free names gives the names back |
| `Paths.NextToken` | tools/ykern/main.c:190-204 | each strtok_r call yields the next token and leaves the others |
| `Paths.FindChild` | tools/ykern/main.c:155-169 | the first child of that name after populating with whatever the kernel offers, or none exactly when no child has it |
| `Paths.ResolvePath` | tools/ykern/main.c:175-207 | success ends at the walk along all tokens, a miss at the deepest object of the walk along the tokens before the missing one, none of whose children has that name |
| `Paths.MissIsReal` | tools/ykern/main.c:175-207 | after a miss no object that a path can come back to lies beyond the missing segment: deepest ends the longest resolvable prefix |
| `Paths.Rediscover` | tools/ykern/main.c:175-207 | resolving an object's own path finds it, whatever the kernel offers below objects not yet browsed, if and only if every name on the way is non-empty and slash-free and belongs to no earlier sibling |
| `Paths.DistinctAreFirst` | tools/ykern/main.c:155-169 | siblings with distinct names meet that condition |
| `Sysfs.SortNames` | src/ykern/ysys/ysys.c:170-170 | the names array is left with the same names in it, each before the next in strcmp order: the start of it, or smaller in the first character that differs |
| `Sysfs.SortingSorts` | src/ykern/ysys/ysys.c:125-128 | that arrangement is sorted in strcmp order, written out |
| `Sysfs.StrcmpOrder` | src/ykern/ysys/ysys.c:125-128 | the order is that of strcmp: one name is the start of the other, or they first differ in a character and the smaller one goes first |
| `Sysfs.OneArrangement` | src/ykern/ysys/ysys.c:125-128 | a list of names has only one sorted arrangement |
| `Sysfs.PopulateFromDir` | src/ykern/ysys/ysys.c:130-213 | collecting, sorting and classifying yields, in strcmp order, a node for an entry other than . and .. exactly if its path is under 4096 characters and it is neither a socket nor unknown, a directory if it is one and else a file, which tells whether it is a link; or an error when the directory cannot be opened |
| `Sysfs.OrderIrrelevant` | src/ykern/ysys/ysys.c:141-176 | two readdir orders of the same entries give the identical children |
| `Sysfs.ListingIs` | src/ykern/ysys/ysys.c:146-211 | the children are, sorted by name, exactly the nodes of the entries other than . and .. whose path fits and whose type is supported |
| `Sysfs.ListingShows` | src/ykern/ysys/ysys.c:146-211 | the listing written out: order, entries, path length and kinds |
| `Sysfs.ListingDistinct` | src/ykern/ysys/ysys.c:146-211 | for distinct entry names the children are strictly sorted |
| `Sysfs.ReadFile` | src/ykern/ysys/ysys.c:419-441 | the read loop returns the bytes of the reads before the first end of file, at most 65535 of them and less one trailing newline, or the error if it came before so many |
| `Sysfs.CutIrrelevant` | src/ykern/ysys/ysys.c:419-432 | how the bytes are cut into reads and where signals interrupt does not matter |

## Left out

- Allocation failure: every malloc, calloc, realloc and strdup succeeds, and the error paths behind them are absent.
- Sockets, sendto, recv errors, opendir/stat/read, YAML scanning and getenv: their results are input sequences or parameters.
- Byte order: a little-endian host is fixed.
- Format strings: each formatted piece is one opaque text, chosen by branch and arguments.
- Render.Printer.WriteTo: the appends of a rendering are recorded first and carried out on the text buffer afterwards, so their interleaving with the cursor loop is not modelled.
- Loader.Reader.ReadTop: the overlay's arrays are sequences, with count, capacity and allocated slots beside them, and its strings are values; ownership of strings is treated from the merge on, in Merge.
- Family.LoadOverlay: where an append has no slot nothing is said of the overlay.
- Loader.Reader.ReadFields: the three nearly identical inner mapping loops for operations, groups and attributes are one method.
- Invoke.DrainReply: one loop with a decoder parameter stands for the ethtool, generic and rtnl loops; what the receive buffer, and the sixteen bytes behind it, hold before the first datagram is a parameter, and nothing but recv writes to them.
- Invoke.PrintRoute: the value formats of render_attr_value in rtnl.c are one opaque piece; of render_msg_header the fields are modelled and their labels and formats are not.
- Request.PackEthtool: the ids of HEADER, DEV_NAME and DEV_INDEX are parameters; their lookups and the refusals around them are not modelled.
- OpSchema.BrowseMatchesInvoke: about the generic invoke path; the ethtool path takes ifname and ifindex instead of attribute keys.
- Repeated OPS or MCAST_GROUPS attributes in one family message: the last one wins in the model as in the code; the memory of the earlier array is not tracked.
- Ownership of the arrays that genl-family.c replaces in set_ops, set_mcast_groups and set_overlay.
- Objects.GetChildren: populate succeeds; one that fails half way is not modelled.
- Runs.Session.Run: destroying an object that something still owns, and appending an object that has an owner already or to something below itself, are skipped in a run; `Guards` shows that exactly these break the tree, and no caller in the repository does any of it.
- Objects.Destroy: the stores into objects that are about to be freed are not modelled.
- Sysfs.SortNames: the loop inside the C library's qsort is not modelled.
- Sysfs.ReadFile: symbolic links and the labelled block around the text are not modelled.
- The /proc transport (yproc.c), which nearly repeats ysys.c, and text.c, result.c, genl-attribute.c, genl-mcast-group.c but for the name of a group, color.c, ytrace.c.
- The printing and option parsing of the command-line tool, and the static attribute tables and YAML metadata, which are parameters.
