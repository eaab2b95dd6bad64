# ramen core, modelled in Dafny

This project models three pieces of the ramen stream processor and its
administration GUI, rmadmin, and proves properties about them.

- **The shared ring buffer** (`src/ringbuf/ringbuf.h`), module `RingBuf`,
  file `ringbuf.dfy`. The class `RingBuffer` holds the header fields
  `num_words`, `wrap`, the four cursors `prod_head`, `prod_tail`, `cons_head`
  and `cons_tail`, `num_allocs`, and the word array. Beside them are ghost
  fields: the committed records, oldest first, and the lengths of the three
  cursor intervals.
  - The occupancy and free-space arithmetic are pure functions in `uint32_t`
    arithmetic.
  - The two-phase protocol is modelled with a body: reserve (`*_alloc`), then
    publish (`*_commit`).
  - The `ringbuf_enqueue`/`ringbuf_dequeue` wrappers copy words in or out of
    the array between the two phases. They are proved against the invariant.
    That invariant says the records are laid out back to back, from the
    consumer head to the producer tail, each as a length word followed by its
    payload.
  - Repair is modelled too.
- **The tuple decoder and its renderers** (`rmadmin/serValue.cpp`).
  - Module `SerValue` (`serValue.dfy`) defines the schema datatype
    `RamenType` and the `Value` sum type. It specifies `unserialize` as the
    function `Decode`, which maps a word buffer, a cursor and a bound to a
    value and the new cursor, along with `roundUpWords` and `bitSet`.
  - Module `SerUnserialize` (`serUnserialize.dfy`) holds the imperative
    decoder. Its loops over the children, the record's serialisation order
    and the string bytes are each proved equal to `Decode`.
  - Module `SerRender` (`serRender.dfy`) holds `toQString`. The `Tuple`,
    `Vec` and `Record` loops are proved equal to a recursive definition
    `Show`.
- **The site / program / function tree of the graph model**
  (`rmadmin/GraphModel.cpp`).
  - Module `Options` (`options.dfy`) holds the `Option` datatype the graph
    modules share. It stands for a null pointer or an empty `std::optional`.
  - Module `GraphKeys` (`graphKeys.dfy`) models the key classifier
    `ParsedKey`: the anchored regular expression, with PCRE's greedy `.+`,
    `[^/]+` and `$`.
  - Module `GraphTree` (`graphTree.dfy`) models the tree as values, `find`,
    `reorder`, and the get-or-create walk of `updateKey`.
  - Module `GraphSpec` (`graphSpec.dfy`) holds what each operation does to
    the tree and to the list of pending parent connections, as functions, with
    the lemmas about them.
  - Module `GraphModel` (`graphModel.dfy`) holds the `GraphModel` class. Its
    fields `sites` and `pending` are updated in place by methods with the
    source's loops. Each method is proved to leave the state the matching
    `GraphSpec` function describes.

The address of a function item (a `FunctionItem *`) becomes its `Loc`: the site, program and function
indices. This is sound because items are only ever appended and never freed.

## Model

| member | source | states |
|---|---|---|
| RingBuf.NumEntries | src/ringbuf/ringbuf.h:194-199 | for cursors below num_words: the count is below num_words, the consumer head plus the count is the producer tail modulo num_words, and the count is 0 exactly when prod_tail == cons_head (empty) |
| RingBuf.NumFree | src/ringbuf/ringbuf.h:201-206 | for cursors below num_words: at most num_words - 1 (one word kept free), prod_head + free + 1 is cons_tail modulo num_words, and it is 0 exactly when prod_head == cons_tail - 1 modulo num_words (full) |
| RingBuf.EntriesPlusFree | src/ringbuf/ringbuf.h:195-206 | num_entries(x, y) + num_free(y, x) == num_words - 1 for cursors below num_words |
| RingBuf.RingBuffer.constructor | src/ringbuf/ringbuf.h:50-82 | a new buffer has all four cursors and num_allocs at 0, holds no record, and satisfies the invariant |
| RingBuf.RingBuffer.EmptyIff | src/ringbuf/ringbuf.h:64-67 | the buffer holds no committed record exactly when cons_head == prod_tail |
| RingBuf.RingBuffer.CursorCounts | src/ringbuf/ringbuf.h:58-69 | num_entries(prod_tail, cons_head) is the number of committed, unread words; num_free(cons_tail, prod_head) is the capacity less one word less every reserved or stored word |
| RingBuf.RingBuffer.RoomIff | src/ringbuf/ringbuf.h:248 | a reservation of n words is granted exactly when its frame fits in what the readers, the data and the writers leave free, and, for a non-wrapping buffer, before the end of the array |
| RingBuf.RingBuffer.EnqueueAlloc | src/ringbuf/ringbuf.h:248 | succeeds exactly when there is room; on failure returns NoMoreRoom and changes nothing; on success the tx starts right after the length word at the observed head, prod_head moves to tx.next, num_allocs grows by one modulo 2^32, and the invariant is kept |
| RingBuf.RingBuffer.EnqueueCommit | src/ringbuf/ringbuf.h:250 | committing the oldest reservation moves prod_tail to tx.next and appends the reserved payload words to the committed records |
| RingBuf.RingBuffer.CopyIn | src/ringbuf/ringbuf.h:267 | the memcpy puts exactly the source words at data[record_start ..] and keeps the reservation and the invariant |
| RingBuf.RingBuffer.FillWords | src/ringbuf/ringbuf.h:267 | after the word-by-word copy the array holds the source words from record_start on and its old words everywhere else |
| RingBuf.RingBuffer.Publish | src/ringbuf/ringbuf.h:267-272 | copying then committing appends exactly the source words as the newest record |
| RingBuf.RingBuffer.Enqueue | src/ringbuf/ringbuf.h:257-275 | returns 0 exactly when the alloc grants room; then the source words become the newest record and one more allocation is counted; otherwise returns the alloc's error with no copy, no commit and no change |
| RingBuf.RingBuffer.DequeueAlloc | src/ringbuf/ringbuf.h:252 | an empty buffer returns -1 and changes nothing; otherwise returns the oldest record's size in bytes, removes it from the committed records, moves cons_head to tx.next and leaves the record framed at the observed head |
| RingBuf.RingBuffer.DequeueCommit | src/ringbuf/ringbuf.h:254 | releasing the oldest read reservation moves cons_tail to tx.next and keeps the invariant |
| RingBuf.RingBuffer.CopyOut | src/ringbuf/ringbuf.h:291 | the memcpy puts the reserved words in the destination's first n words and leaves the rest of it alone |
| RingBuf.RingBuffer.Finish | src/ringbuf/ringbuf.h:291-293 | copying out then committing delivers exactly the reserved record and moves cons_tail to tx.next |
| RingBuf.RingBuffer.Dequeue | src/ringbuf/ringbuf.h:277-296 | empty: returns -1 and changes nothing; a record larger than max_size: returns -1 with no copy, and the record stays consumed while cons_tail stays behind cons_head; otherwise: returns its size in bytes, the destination starts with exactly the oldest record, and both consumer cursors meet again |
| RingBuf.RingBuffer.DequeueRollingBack | src/ringbuf/ringbuf.h:277-296 | the same, except that a too-large record is put back: records and consumer cursors are as before the call |
| RingBuf.RingBuffer.Repair | src/ringbuf/ringbuf.h:319-325 | returns true exactly when a read or a write reservation was outstanding; afterwards cons_tail == cons_head and prod_head == prod_tail, the committed records are kept, and the invariant holds |
| RingBuf.RepairTwice | src/ringbuf/ringbuf.h:319-325 | a second repair right after a first one returns false |
| RingBuf.RoundTrip | src/ringbuf/ringbuf.h:257-296 | on an idle buffer, a record enqueued successfully is dequeued unchanged, with its size in bytes, leaving the buffer empty |
| SerValue.RoundUpWordsLeast | rmadmin/serValue.cpp:39-43 | roundUpWords(sz) words hold sz bytes, and no fewer words do |
| SerValue.BitSetDirect | rmadmin/serValue.cpp:223-228 | the recursive bitSet tests bit i mod 8 of byte i div 8 of the nullmask |
| SerValue.DecodeFixed | rmadmin/serValue.cpp:243-297 | a fixed-width scalar is an Error, with the cursor not moved, exactly when fewer than its width of words remain before max; otherwise it is the value its constructor reads and the cursor moves by exactly its width (1 word for bool, u8-u32, i8-i32; 2 for float, u64, i64, eth, ipv4; 4 for u128, i128, ipv6) |
| SerValue.DecodeScalarAsWritten | rmadmin/serValue.cpp:277-279 | the fixed-width case with the source's guards: it agrees with the corrected decoder on every tag but ipv4 |
| SerValue.Ipv4GuardOverrun | rmadmin/serValue.cpp:277-279 | with one word left before max, the ipv4 case as written reads two words and moves the cursor past max, and its result changes with the word at max; the corrected guard gives an Error |
| SerValue.DecodeStringWords | rmadmin/serValue.cpp:246-255 | a string needs a length word (else Error, no move), then roundUpWords(len) payload words (else Error after the length word was consumed); on success it holds exactly len bytes, read little-endian from the buffer, and consumes 1 + roundUpWords(len) words |
| SerValue.DecodeUnsupported | rmadmin/serValue.cpp:298-303 | the ip and cidr tags, and likewise the list tag (lines 368-370) and unknown tags (lines 414-415), yield an Error and consume nothing |
| SerValue.DecodeMask | rmadmin/serValue.cpp:304-382 | a composite whose schema node has the wrong shape is an Error with no move; otherwise it skips roundUpWords(nullmaskWidth) words (roundUpWords((nullmaskWidth + 7) / 8) for a record) and is an Error exactly when the cursor is then past max |
| SerValue.ChildrenShape | rmadmin/serValue.cpp:316-333 | the children loop yields one value per child, after those already collected; a nullable child whose nullmask bit is clear is Null; the bit index counts the nullable children before it |
| SerValue.RecordPlacement | rmadmin/serValue.cpp:383-411 | the i-th wire field is decoded in serOrder sequence and stored at index serOrder[i] with its schema name; slots not reached keep their value; the output has fields.size() entries |
| SerValue.DecodeComposite | rmadmin/serValue.cpp:304-413 | a tuple has exactly fields.size() values in declaration order, a vector exactly dim, a record one entry per field with each wire value at its serOrder index; a child Error is stored in place and the siblings are still decoded; cleared nullmask bits give Null |
| SerValue.RecordNames | rmadmin/serValue.cpp:385-400 | in a decoded record, entry k carries the name of schema field k |
| SerValue.DecodeReadsBelowMax | rmadmin/serValue.cpp:230-417 | when every nullmask covers its nullable children, decoding reads nothing at or past max: the value and the cursor decoded from the buffer are those decoded from its words before max alone |
| SerValue.DecodeBounds | rmadmin/serValue.cpp:230-417 | the decoder never moves the cursor back, and a value decoded without an Error node anywhere ends at or before max |
| SerValue.CompositeChildren | rmadmin/serValue.cpp:317-333 | a composite ends where its children end, and one without Error nodes has children without Error nodes |
| SerUnserialize.Unserialize | rmadmin/serValue.cpp:230-417 | the imperative decoder returns exactly the value and the cursor of Decode |
| SerUnserialize.UnserializeComposite | rmadmin/serValue.cpp:304-413 | the tuple, vector and record cases, with their loops, return exactly what Decode gives for them |
| SerUnserialize.UnserializeString | rmadmin/serValue.cpp:246-255 | the byte-by-byte copy of String's constructor (lines 80-88) returns exactly Decode's string value and cursor |
| SerUnserialize.UnserializeChildren | rmadmin/serValue.cpp:316-333 | the push_back loop with its null_i counter yields exactly the specified children and end cursor |
| SerUnserialize.UnserializeRecord | rmadmin/serValue.cpp:383-411 | the loop storing each field at fieldValues[serOrder[i]] yields exactly the specified record slots and end cursor |
| SerRender.ToQString | rmadmin/serValue.cpp:49-52 | NULL, the booleans and the composites render as Show defines them |
| SerRender.TupleToQString | rmadmin/serValue.cpp:184-193 | the loop with "; " before every field but the first gives "(" + the fields' texts joined by "; " + ")" |
| SerRender.VecToQString | rmadmin/serValue.cpp:198-207 | the same for a vector, between "[" and "]" |
| SerRender.RecordToQString | rmadmin/serValue.cpp:212-221 | the same for a record, each field as name:value, between "{" and "}" |
| SerRender.JoinHeadFirst | rmadmin/serValue.cpp:187-190 | putting "; " before every part but the first gives the same text as the first part followed by "; " and each further part |
| SerRender.JoinLength | rmadmin/serValue.cpp:187-190 | the joined text is the parts' lengths plus two characters for each separator, one fewer separator than parts |
| SerRender.ShowTuplePair | rmadmin/serValue.cpp:184-193 | a two-field tuple renders as (a; b) |
| SerRender.ShowVecPair | rmadmin/serValue.cpp:198-207 | a two-element vector renders as [a; b] |
| SerRender.ShowRecordPair | rmadmin/serValue.cpp:212-221 | a two-field record renders as {n:a; m:b} |
| SerRender.Brackets | rmadmin/serValue.cpp:184-221 | a composite's text opens and closes with its brackets; the empty ones are (), [] and {} |
| GraphKeys.ParseSound | rmadmin/GraphModel.cpp:226-262 | a key that parses is sites/<site>/is_master (perhaps before a final newline), with program and function empty and property is_master; or it is sites/<site>/workers/<program>/<function>/<prop>, where site and function hold no slash, program no newline and prop is one of the function properties; the signature capture is always empty |
| GraphKeys.ParseComplete | rmadmin/GraphModel.cpp:228-244 | every key of the function form parses, to its own site and to a program at least as long as the one it was built from (the greedy program group may take more slashes) |
| GraphKeys.ParseSiteKey | rmadmin/GraphModel.cpp:228-260 | every key of the site form parses to its site and the property is_master |
| GraphKeys.PropSound | rmadmin/GraphModel.cpp:233-241 | what the function_property group and $ accept is a fixed property, perhaps before a final newline, or instances/<sig>/<p> running to the end of the key |
| GraphKeys.PropComplete | rmadmin/GraphModel.cpp:233-241 | every such property is accepted |
| GraphKeys.SplitSound | rmadmin/GraphModel.cpp:231-237 | the split the greedy program group settles on leaves program / function / property + tail, with no newline in the program |
| GraphKeys.SplitComplete | rmadmin/GraphModel.cpp:231-237 | when the split at a slash matches, the greedy search from any later point finds a split at least that far right |
| GraphTree.IndexOf | rmadmin/GraphModel.cpp:580-585 | the name loop finds an index holding the name exactly when the name occurs |
| GraphTree.IndexOfAt | rmadmin/GraphModel.cpp:580-585 | the loop answers with the first index that holds the name |
| GraphTree.FindSound | rmadmin/GraphModel.cpp:265-293 | find answers only with an item whose site, program and function names are the three asked for |
| GraphTree.FindComplete | rmadmin/GraphModel.cpp:265-293 | in a tree without duplicate sibling names, find answers with the item carrying the three names |
| GraphTree.MisplacedExactly | rmadmin/GraphModel.cpp:211-220 | reorder signals exactly the sites whose row is not their index |
| GraphTree.MisplacedIncreasing | rmadmin/GraphModel.cpp:211-220 | it signals them in increasing order |
| GraphTree.ReorderSettles | rmadmin/GraphModel.cpp:211-220 | after reorder every site's row is its index, and a second reorder signals nothing |
| GraphTree.EnsureSite | rmadmin/GraphModel.cpp:579-597 | the site lookup gives an index holding a site of that name, and keeps every existing item in place under its name |
| GraphTree.EnsureSiteSpec | rmadmin/GraphModel.cpp:579-597 | a site is created only when no site has the name; it is appended at the end with its row in place, and the invariant is kept |
| GraphTree.EnsureProgram | rmadmin/GraphModel.cpp:599-621 | the program lookup gives an index holding a program of that name in the site, keeping every existing item |
| GraphTree.EnsureProgramSpec | rmadmin/GraphModel.cpp:599-621 | a program is created only when the site has none of that name; it is appended with its row in place, and the invariant is kept |
| GraphTree.EnsureFunction | rmadmin/GraphModel.cpp:623-646 | the function lookup gives a function of that name in the program, keeping every existing item |
| GraphTree.EnsureFunctionSpec | rmadmin/GraphModel.cpp:623-646 | a function is created, and reported as created, exactly when the program has none of that name; it is appended with its row in place; the invariant is kept |
| GraphTree.EnsureLocSpec | rmadmin/GraphModel.cpp:579-646 | the three lookups keep the invariant; find then answers with the item looked up; they create the function exactly when find did not locate it before, and otherwise change nothing |
| GraphSpec.AddParentAt | rmadmin/GraphModel.cpp:295-299 | addFunctionParent appends the parent to the child's parents |
| GraphSpec.AddParentOther | rmadmin/GraphModel.cpp:295-299 | and leaves every other function item as it was |
| GraphSpec.RetrySpec | rmadmin/GraphModel.cpp:338-351 | retryAddParents removes exactly the entries whose parent find now locates and keeps the others in order; each child gains, in list order, the parents its resolved entries name; nothing else changes |
| GraphSpec.RetryConsistent | rmadmin/GraphModel.cpp:338-351 | retryAddParents keeps the tree invariant and every waiting child an item of the tree |
| GraphSpec.WithoutSpec | rmadmin/GraphModel.cpp:321-328 | removeParents' list walk keeps exactly the entries of other children, each child's entries in their order, and none of the removed child |
| GraphSpec.DelFieldSpec | rmadmin/GraphModel.cpp:487-512 | deleting a property other than the worker signals exactly when it was set; the property is then unset; an unset property changes nothing; deleting twice is deleting once |
| GraphSpec.SetThenDelete | rmadmin/GraphModel.cpp:406-453 | a set that signals makes the property set, and deleting it then signals the same bit; a set that does not signal changes nothing |
| GraphSpec.AddRefsSpec | rmadmin/GraphModel.cpp:379-403 | the parent-reference loop appends to the function's parents the items its targets name, in order, and to the pending list an entry for each missing target, in order; a reference on the function's own site names the parent itself, one on another site names the same program and function there; nothing else changes |
| GraphSpec.FoundOrWaiting | rmadmin/GraphModel.cpp:392-402 | no reference is dropped: the parents connected and the entries left waiting together number the targets; each connected parent carries a target's names, and each waiting entry is for this child and a target find does not locate |
| GraphSpec.SetPropertySpec | rmadmin/GraphModel.cpp:353-465 | setFunctionProperty keeps the invariant and the tree, changes no other function, signals exactly when a worker is set or a known property gets a value of its type, and then the property is set; an unsignalled call changes nothing; setting a worker connects its found targets |
| GraphSpec.DelPropertySpec | rmadmin/GraphModel.cpp:467-524 | delFunctionProperty signals exactly when the property was set, changes nothing exactly when it signals nothing, leaves the property unset, and deleting the worker leaves the function without parents or waiting entries |
| GraphSpec.WorkerSetTwice | rmadmin/GraphModel.cpp:368-405 | setting the same worker twice appends the found parents twice: setFunctionProperty does not clear the parents first |
| GraphSpec.SitePropertySpec | rmadmin/GraphModel.cpp:534-567 | setSiteProperty changes only is_master, and only for a boolean RamenValueValue, and signals exactly then; delSiteProperty resets is_master to false; neither touches another site or any function |
| GraphSpec.LocateSpec | rmadmin/GraphModel.cpp:623-651 | locating a function item, and retrying the pending list when it was created, keeps the invariant, only appends to the tree, and find then answers with the located item |
| GraphSpec.UpdateSpec | rmadmin/GraphModel.cpp:569-659 | updateKey keeps the invariant, so repeated updates never create two siblings of one name; it only appends to the tree; a key that does not parse changes nothing; after a function key, find locates its function |
| GraphSpec.UpdateKnown | rmadmin/GraphModel.cpp:579-646 | updateKey creates no item when every item its key names exists |
| GraphSpec.DeleteSpec | rmadmin/GraphModel.cpp:661-707 | deleteKey never creates an item and keeps the invariant; a key that does not parse, or names a missing site, program or function, changes nothing |
| GraphModel.FirstNamed | rmadmin/GraphModel.cpp:580-585 | the search loop returns the first index holding the name, or none |
| GraphModel.GraphModel.Reorder | rmadmin/GraphModel.cpp:211-220 | the loop rewrites every site's row to its index and returns the sites it signalled, exactly those whose row was not their index, in increasing order |
| GraphModel.GraphModel.Find | rmadmin/GraphModel.cpp:265-293 | the nested loops return exactly what FindIn gives |
| GraphModel.GraphModel.AddFunctionParent | rmadmin/GraphModel.cpp:295-299 | the child's parents grow by the parent; nothing else changes |
| GraphModel.GraphModel.DelayAddFunctionParent | rmadmin/GraphModel.cpp:331-336 | one entry is appended to the pending list; the tree is unchanged |
| GraphModel.GraphModel.RetryAddParents | rmadmin/GraphModel.cpp:338-351 | the erase-while-iterating loop leaves exactly the state Retry describes, and keeps the invariant |
| GraphModel.GraphModel.RemoveParents | rmadmin/GraphModel.cpp:314-329 | the child's parents are cleared and the pending list keeps exactly the other children's entries, in order |
| GraphModel.GraphModel.AddWorkerRefs | rmadmin/GraphModel.cpp:379-403 | the loop over a worker's parent references leaves exactly the state AddRefs describes |
| GraphModel.GraphModel.SetFunctionProperty | rmadmin/GraphModel.cpp:353-465 | leaves the tree, list and changed bits SetProperty describes |
| GraphModel.GraphModel.DelFunctionProperty | rmadmin/GraphModel.cpp:467-524 | leaves the tree, list and changed bits DelProperty describes |
| GraphModel.GraphModel.SetSiteProperty | rmadmin/GraphModel.cpp:534-554 | leaves the tree and the signal SiteSet describes; the pending list is unchanged |
| GraphModel.GraphModel.DelSiteProperty | rmadmin/GraphModel.cpp:556-567 | leaves the tree SiteDel describes; the pending list is unchanged |
| GraphModel.GraphModel.SiteItemFor | rmadmin/GraphModel.cpp:579-597 | the site loop and the insertion at the end leave the tree and index EnsureSite describes |
| GraphModel.GraphModel.ProgramItemFor | rmadmin/GraphModel.cpp:599-621 | the same for the program, as EnsureProgram describes |
| GraphModel.GraphModel.FunctionItemFor | rmadmin/GraphModel.cpp:623-646 | the same for the function, as EnsureFunction describes, including whether it was created |
| GraphModel.GraphModel.UpdateFunction | rmadmin/GraphModel.cpp:623-652 | the function-key branch of updateKey: locate or create the function, retry the pending list when it was created, then set the property |
| GraphModel.GraphModel.UpdateKey | rmadmin/GraphModel.cpp:569-659 | leaves exactly the state UpdateState describes, and keeps the invariant |
| GraphModel.GraphModel.DeleteKey | rmadmin/GraphModel.cpp:661-707 | leaves exactly the state DeleteState describes, and keeps the invariant |

## Left out

- Concurrency in the ring buffer is left out: locking, `lockf`, the spinlock,
  atomics, memory barriers and cache flushes. The model has one sequential
  client.
- The bodies of `ringbuf_enqueue_alloc`, `ringbuf_enqueue_commit`,
  `ringbuf_dequeue_alloc`, `ringbuf_dequeue_commit` and `ringbuf_repair` are
  not in `ringbuf.h`, so the model gives them their own:
  - a record is a length word and its payload, contiguous;
  - a record that does not fit before the end of the array gets a wrap-mark
    word at the head and restarts at word 0;
  - a non-wrapping buffer refuses it;
  - repair drops both kinds of reservation.
- RingBuf.RingBuffer.EnqueueCommit, RingBuf.RingBuffer.DequeueCommit: the
  source waits until the tail reaches the observed head. That wait is a
  precondition here: commits happen in reservation order.
- RingBuf.RingBuffer.Enqueue, RingBuf.RingBuffer.Dequeue: these ask for no
  other reservation to be outstanding, since the source would block in the
  commit otherwise.
- Record sizes are kept in words. `ringbuf_dequeue` returns bytes, so the model
  returns 4 × words and compares that with `max_size`.
- File functions are left out: `ringbuf_create`, `ringbuf_load`,
  `ringbuf_unload`, `rotate_file`, `ringbuf_read_first` and
  `ringbuf_read_next`. They are mmap and file I/O, with no body in the header.
- The header fields `version`, `first_seq`, `lock`, `tmin` and `tmax` are
  left out, as are the `t_start`/`t_stop` arguments. They are floating point
  or file management, and do not bear on the cursors.
- RingBuf.RingBuffer.EnqueueAlloc and RingBuf.RingBuffer.Enqueue: the header
  field `timeout` (ringbuf.h:75-77) is how many seconds a wrapping buffer
  keeps retrying a write that got NoMoreRoom. The model drops that retry: when
  there is no room it returns NoMoreRoom at once and changes nothing. The
  retry waits for readers on other processes, and concurrency and clocks are
  not part of this model.
- `PRINT_RB`/`ASSERT_RB` are debug output and are left out. `PRINT_RB` passes
  `prod_tail, cons_head` to `ringbuf_file_num_free` in the opposite roles, so
  the free count it prints is not the buffer's.
- Debug printing to `std::cout` in `unserialize` and the constructors is left
  out.
- Floats stay the two words that hold them. Their `double` value and
  `QString::number` are floating point.
- The schema classes (`conf::RamenType` and its `nullmaskWidth`) are not part
  of this model. The schema is an input datatype that carries its nullmask
  width for the top-level and the nested case.
- `unserialize`'s `assert(!topLevel || !type->nullable)` becomes a
  precondition.
- The decoder reads the buffer through `WordAt`, which gives 0 outside the
  buffer. The source reads raw memory there. SerValue.DecodeReadsBelowMax
  shows that the corrected decoder never reads a word at or past `max`, so
  for `max` within the buffer this choice does not affect what it decodes.
- SerValue.DecodeReadsBelowMax requires every nullmask to have a bit for each
  nullable child (SerValue.MasksCover). `nullmaskWidth` is defined with the
  schema classes, which are not part of this model.
- SerValue.WellFormed: a record's `serOrder` is required to be a permutation
  of its field indices. The schema that builds it is not part of this model.
- QString and QChar are modelled as sequences of characters and bytes. A
  string value is its bytes.
- `toQString` of the scalars other than NULL and the booleans is a parameter
  `leaf`. Only the float case calls `QString::number` in serValue.cpp
  (lines 62-64), and floats are floating point. The strings, errors,
  integers, Ethernet and IP addresses render through their own `toQString`
  members, declared in serValue.h, which is not part of this model. The Qt
  translation of "true"/"false" is taken as the identity.
- In `GraphModel.cpp`, the Qt model interface is left out: `index`, `parent`,
  `rowCount`, `data`, headers, `beginInsertRows`, `setPos` and the connection
  wiring.
- Qt signals are returned as values where the source decides them: reorder's
  moved rows, the changed bits, and whether a site was signalled.
  `relationAdded`/`relationRemoved`, `functionAdded`, and `delSiteProperty`'s
  unconditional `dataChanged` are not returned.
- Item addresses are modelled as `Loc` positions.
- The static `pendingAddParents` list becomes the field `pending` of the
  object.
- `SiteItem::reorder` and `ProgramItem::reorder` are not in the core files.
  The model takes them to set each program's and function's row to its index,
  as `GraphModel::reorder` does for sites.
- A new item's row before reordering is taken as -1.
- `setProgramProperty` and `delProgramProperty` have empty bodies, and they
  change nothing here either.
- The function's `fqName`, the `verbose` printing and `settings` are left
  out. Configuration payloads that are only stored become opaque tokens.
- `VI64` values are unbounded integers. Nothing in the core computes with
  them.
- Strings are compared as sequences, so QString's UTF-16 storage is not
  modelled. The regular expression's `.` and `$` follow PCRE's default
  newline, a line feed.
- GraphKeys.ParseComplete: it promises a program at least as long as the one
  the key was built from, not the same one. For a program containing
  `/<name>/<prop>` the greedy group really does capture more.

## Findings

| source | as written | input that shows it | evidently intended | confidence | as-written member | corrected member |
|---|---|---|---|---|---|---|
| rmadmin/serValue.cpp:277-279 | the ipv4 case checks `start + 1 > max`, but `Ipv4::Ipv4` reads a 64-bit word and advances `start` by 2 (lines 167-172) | buffer [7, 9], start 0, max 1: the value 7 + 9·2^32 is decoded and the cursor ends at 2, past max | the guard checks 2 words, as for u64 and eth, and gives "Cannot unserialize ipv4" | high (not executed) | SerValue.Ipv4GuardOverrun | SerValue.DecodeFixed |
| src/ringbuf/ringbuf.h:285-289 | a record larger than `max_size` returns -1 after `ringbuf_dequeue_alloc` reserved it. Nothing copies it, commits it or puts it back | one committed record of 2 words and max_size 4: the call returns -1, cons_head has moved past the record and cons_tail has not. The next commit waits for a tail that never arrives, the case the repair comment (lines 319-324) describes | the reservation is released or rolled back, so that the buffer stays usable and the record is not silently lost | medium (not executed) | RingBuf.RingBuffer.Dequeue | RingBuf.RingBuffer.DequeueRollingBack |
