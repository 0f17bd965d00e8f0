# mcrange in Dafny

A model of the core of mcrange, a memcached-style server and tap client written for
node.js, together with proofs about it. It covers five parts:

- **treap.js**: the persistent treap. It is the `Treap` datatype with `Count`, `IsEmpty`,
  `IsLeaf`, `FirstKey`, `LastKey`, `Lookup`, `Split`, `Join` and the four set-operation
  stubs. The lemmas prove the binary-search-tree and heap invariants, that `split`
  partitions around its key, and that `join` of ordered treaps keeps every binding.
- **items_ht.js**: the callback-driven hashtable store. It is the class `ItemsHt.Items`.
  Its `ht` object becomes a `map` together with the enumeration order of a JavaScript
  object. Each callback stream becomes the returned sequence of `Note`s. A callback's
  `false` answer becomes the `keepGoing` function.
- **server_ascii.js**: the text protocol.
  - Module `ServerAscii` defines it as pure functions over a `Session` value: the mutation
    policies of `mkCmdsValue`, the simple commands of `mkCmdsSimple`, and the framing done
    by `new_cmd`, `read_more` and the `data` event.
  - Module `ServerConnection` holds the per-connection closure of `mkServer` as classes:
    `ServerCtx`, the socket `Transport` and `Connection`. Each event handler is proved to
    move the connection exactly as the functions say.
  - Across any number of `drain` and `data` events, no output is lost or reordered.
- **mc.js**: the binary protocol helpers. Headers are packed into an `array<byte>` by
  methods and unpacked by functions. Requests are packed into a buffer. Messages are
  decoded from a 'binary' string, one character per byte.
- **tap.js**: the tap client.
  - The reframing loop of `makeResponseProcessor` is a class with a `leftOver` field,
    proved against the function `Reframe`.
  - Also modelled: the TAP_CONNECT request that `tapStream` writes on connect, and the
    `emit` formatter.

The main results:

- Chunking does not matter, on both sides, once two defects listed under "## Findings"
  are corrected:
  - `ServerAscii.FeedAllIsFeedOfConcat`: however the client's byte stream is cut into
    `data` events, the server ends in the state it reaches on the whole stream. This
    holds with the corrected byte count, which answers CLIENT_ERROR to a negative or
    non-numeric count. On every non-negative count the source's intake is the same
    (`ServerAscii.ReadValueAsWrittenOnCounts`).
  - `Tap.FramesAppend`: the same holds for the tap client. This holds with the
    corrected decoder, which cuts a message's parts inside its frame. The source's
    `unpackMsgStr` is the same whenever key and extras fit in the body
    (`Mc.UnpackMsgStrAgreesWhenPartsFit`).
- `ServerAscii.FeedKeepsCount`: `curr_items` always equals the number of stored items.
  This holds for a table of own properties. The source's plain object also answers
  for names inherited from `Object.prototype`, and then the count goes wrong
  (`ServerAscii.DeleteAsWrittenMiscounts`, under "## Findings").
- Round trips:
  - `Mc.HeaderRoundTrip`: a packed header unpacks to its fields.
  - `Mc.PackRequestRoundTrip`: a packed request decodes to its parts.
  - `Text.SplitJoinWith`: `split(' ')` inverts joining separator-free words.
- `Tap.EmitIsStored`: the text that tap's `emit` prints is one complete `set` command for
  the server.

## Model

| member | source | states |
|---|---|---|
| KeyOrder.Compare | treap.js:101-111 | the three-way comparison is 0 exactly on equal keys, negative exactly when the first key sorts first, positive exactly when the second does |
| KeyOrder.LessIrreflexive | items_ht.js:59-71 | no key sorts strictly before itself |
| KeyOrder.LessAsymmetric | items_ht.js:59-71 | two keys never each sort before the other |
| KeyOrder.LessTotal | items_ht.js:59-71 | any two keys are equal or one sorts before the other |
| KeyOrder.LessTransitive | items_ht.js:59-71 | the string order used by the range bounds and the treap is transitive |
| Text.NatToString | server_ascii.js:32-36 | the decimal form of a length is a non-empty string of digits |
| Text.IntToString | server_ascii.js:63-65 | a counter printed into a STAT line is non-empty text |
| Text.ParseInt | server_ascii.js:257-258 | `parseInt` is NaN exactly when no digits follow the optional sign; a negative result needs a leading '-' |
| Text.ParseIntOfNatToString | server_ascii.js:258 | `parseInt` reads back the decimal form of every non-negative integer |
| Text.ParseIntOfIntToString | server_ascii.js:257-258 | `parseInt` reads back the printed form of every integer, negative ones included |
| Text.JsSlicePrefixSuffix | server_ascii.js:271-291 | `d.slice(0, n)` is the prefix up to JavaScript's index of `n`, and `d.slice(n)` the suffix from it |
| Text.FindCrlf | server_ascii.js:232 | `indexOf('\r\n')` finds a CR LF and none before it; -1 means there is none at all |
| Text.FindCrlfAppend | server_ascii.js:231-236 | later bytes never move a line terminator already found |
| Text.Split | server_ascii.js:241 | `split(' ')` never returns an empty list, no part holds a space, and joining the parts with spaces gives back the line |
| Text.SplitJoinWith | server_ascii.js:241 | splitting words joined by single spaces gives the words back |
| Text.JsSlice | server_ascii.js:271-291 | `s.slice(a, b)`: both ends made indices by JavaScript's rule (NaN is 0, a negative index counts from the end, both clamped); empty when the end is not after the start |
| Treap.Bindings | treap.js:69-72 | the key-value map a treap stands for has exactly its keys |
| Treap.Count | treap.js:77-79 | `count()` is 0 exactly for the empty treap |
| Treap.CountIsNumberOfKeys | treap.js:77-79 | in a binary search tree `count()` equals the number of distinct keys |
| Treap.IsEmpty | treap.js:81 | `isEmpty()` holds exactly when the treap has no keys |
| Treap.IsLeaf | treap.js:83-85 | `isLeaf()` throws on the empty treap; in a BST a node is a leaf exactly when its key is the only one |
| Treap.FirstKey | treap.js:87-92 | `firstKey()` throws on the empty treap, else returns one of its keys |
| Treap.FirstKeyIsLeast | treap.js:87-92 | under the BST invariant `firstKey()` is the least key |
| Treap.LastKey | treap.js:94-99 | `lastKey()` throws on the empty treap, else returns one of its keys |
| Treap.LastKeyIsGreatest | treap.js:94-99 | under the BST invariant `lastKey()` is the greatest key |
| Treap.Lookup | treap.js:101-112 | `lookup(s)` returns the node holding `s` or the empty treap |
| Treap.LookupFinds | treap.js:101-112 | in a BST, `lookup(s)` finds a node exactly when `s` is a key, and that node carries the binding of `s` |
| Treap.Split | treap.js:114-135 | `split(s)` loses and invents no key, priority or node; X is the node holding `s` when there is one |
| Treap.SplitBindings | treap.js:33-41 | in a BST, the two sides and X of `split(s)` together carry exactly the original key-value map, and X carries the value bound to `s` |
| Treap.SplitPartitions | treap.js:33-41 | in a BST, every key of the left part is below `s` and every key of the right part above it; both parts are BSTs; X is present exactly when `s` is a key |
| Treap.SplitPartitionsBelow | treap.js:120-126 | the same partition when `s` sorts before the root key, including the leaf shortcut |
| Treap.SplitPartitionsAbove | treap.js:127-133 | the same partition when `s` sorts after the root key, including the leaf shortcut |
| Treap.RootHasTopPriority | treap.js:142 | in a heap-ordered treap the root carries the highest priority |
| Treap.SplitKeepsHeap | treap.js:114-135 | both parts of a split of a heap-ordered treap are heap-ordered |
| Treap.Join | treap.js:137-147 | `join` keeps exactly the keys and priorities of both sides; the root is that of the side with the strictly higher priority, and `that` wins ties |
| Treap.JoinKeepsBst | treap.js:43-46 | when every key of `this` sorts before every key of `that`, the join is a BST |
| Treap.JoinKeepsHeap | treap.js:137-147 | the join of two heap-ordered treaps is heap-ordered |
| Treap.JoinBindings | treap.js:137-147 | the join of ordered BSTs carries the union of their bindings |
| Treap.SplitThenJoin | treap.js:114-147 | in a treap, joining the two sides of `split(s)` gives a treap whose map is the original one without `s`; putting the found node's binding back gives the original map |
| Treap.SplitThenJoinLookups | treap.js:101-147 | after splitting at `s` and joining, `lookup` of every other key finds a node exactly when it did before, with the same value |
| Treap.EmptyTreapOperations | treap.js:25-65 | what each method of the empty-treap sentinel answers |
| Treap.StubSetOperations | treap.js:149-153 | the `union`/`intersect`/`diff`/`del` stubs keep one operand whole: union drops the keys only in `this`, and `del` deletes nothing |
| Treap.Union | treap.js:149 | the `union` stub: returns `that` |
| Treap.Intersect | treap.js:150 | the `intersect` stub: returns `this` |
| Treap.Diff | treap.js:151 | the `diff` stub: returns `this` |
| Treap.Del | treap.js:153 | the `del` stub: returns `this` |
| ItemsHt.Assign | items_ht.js:44 | `ht[k] = v` changes the binding of `k` only, and keeps each property listed once |
| ItemsHt.Delete | items_ht.js:49 | `delete ht[k]` removes `k` and no other property |
| ItemsHt.Get | items_ht.js:36 | `ht[k]` over own properties: the binding, or undefined for a missing property |
| ItemsHt.Without | items_ht.js:49 | the enumeration order with `k` taken out: every other key stays, in order, and no key is listed twice |
| ItemsHt.GetAsWritten | items_ht.js:25-48 | `ht[k]` on the plain object finds an own property, else an `Object.prototype` member, never null, on exactly the inherited names the table does not hold; on other names it agrees with the own-property lookup |
| ItemsHt.AssignPresent | items_ht.js:44 | assigning an item adds `k` to the stored keys; assigning null or undefined removes it |
| ItemsHt.DeletePresent | items_ht.js:49 | deleting removes exactly `k` from the stored keys |
| ItemsHt.Entries | items_ht.js:34-39 | one entry per requested key, in the caller's order, with its current binding |
| ItemsHt.Deliver | items_ht.js:34-39 | hands the pending entries to the callback one by one and stops after the first one the callback answers false |
| ItemsHt.LookupNotes | items_ht.js:29-42 | the calls `lookup` makes: the entries of the requested keys delivered until a false answer, then `cb(null)` |
| ItemsHt.StartPasses | items_ht.js:59-64 | the start predicate of `range`: a falsy start key lets every key pass; otherwise `k >= startKey` or `k > startKey` by the inclusion flag |
| ItemsHt.EndPasses | items_ht.js:66-71 | the end predicate of `range`: a falsy end key lets every key pass; otherwise `k <= endKey` or `k < endKey` by the inclusion flag |
| ItemsHt.RangeNotes | items_ht.js:54-82 | the calls `range` makes: the entries of the keys passing both predicates, in enumeration order, delivered until a false answer, then `cb(null)` |
| ItemsHt.RangeEntries | items_ht.js:73-79 | each candidate entry of `range` is a table key that passes both bounds, with its binding |
| ItemsHt.DeliverStopsAtFirstFalse | items_ht.js:34-39 | a callback receives a prefix of the pending entries in order; it answered true to each but the last; when entries were left, it answered false to the last |
| ItemsHt.LookupReportsInOrder | items_ht.js:29-42 | `lookup` calls back once per key, in order, with the key's binding, until a callback answers false; then a single `cb(null)` follows |
| ItemsHt.RangeEntriesExact | items_ht.js:73-79 | the keys `range` may report are exactly the table keys between the bounds, each once |
| ItemsHt.RangeReportsBetweenBounds | items_ht.js:54-82 | `range` reports only keys between the bounds, never twice, with their bindings. It reports every such key unless a callback answered false, and ends with a single `cb(null)` |
| ItemsHt.Items.constructor | items_ht.js:24-25 | `mkItems()` starts with an empty table |
| ItemsHt.Items.Lookup | items_ht.js:29-42 | the loop of `lookup` delivers exactly the notes `LookupNotes` specifies |
| ItemsHt.Items.Update | items_ht.js:43-46 | `update` hands the old binding to the callback, stores the callback's result and ends with `cb(null)` |
| ItemsHt.Items.Remove | items_ht.js:47-52 | `remove` reports the previous binding, unbinds the key and ends with `cb(null)` |
| ItemsHt.Items.Reset | items_ht.js:53 | `reset` empties the table and calls `cb(null)` |
| ItemsHt.Items.Range | items_ht.js:54-82 | the `for..in` loop of `range` delivers exactly the notes `RangeNotes` specifies |
| ServerAscii.Policy | server_ascii.js:117-157 | each mutation handler answers STORED or NOT_STORED. NOT_STORED keeps the previous binding. STORED commits an item under the new key and flags. The item count grows only when a new key gets an item. Exactly `set`, `add` of a new key, and `replace`/`append`/`prepend` of an existing key are stored |
| ServerAscii.PolicyCommittedValue | server_ascii.js:140-155 | a stored `append` commits the old value followed by the new one, a stored `prepend` the new value followed by the old one, and the other commands the new value |
| ServerAscii.ValueLine | server_ascii.js:32-36 | the `VALUE <key> <flg> <length>` block of one item, followed by its value |
| ServerAscii.RgetKeepGoing | server_ascii.js:103-105 | the `rget` callback's answer: go on while `maxItems` is 0 or more VALUE blocks may still be sent; a NaN `maxItems` stops after the first entry delivered |
| ServerAscii.GetCmd | server_ascii.js:24-42 | `get`: a lookup of every key after the command name, emitting a VALUE block per found item and then END |
| ServerAscii.DeleteCmd | server_ascii.js:43-61 | `delete`: CLIENT_ERROR unless there are exactly two words; else removes the key, answering DELETED and counting down when it was bound, NOT_FOUND otherwise |
| ServerAscii.DeleteCmdAsWritten | server_ascii.js:43-61 | the source's `delete` over the plain object, whose read also finds `Object.prototype` members: such a name answers DELETED and counts down |
| ServerAscii.StatsCmd | server_ascii.js:62-67 | `stats`: the num_conns, tot_conns and curr_items lines, then END |
| ServerAscii.FlushAllCmd | server_ascii.js:68-73 | `flush_all`: empties the store, sets the item count to 0, answers OK |
| ServerAscii.QuitCmd | server_ascii.js:74-76 | `quit`: `emit(null)`, which ends the stream |
| ServerAscii.RgetCmd | server_ascii.js:77-111 | `rget`: CLIENT_ERROR unless there are five or six words; else a range between the bounds with the inclusion flags, VALUE blocks up to `maxItems`, then END |
| ServerAscii.SimpleCmd | server_ascii.js:244-246 | the lookup of a simple command by name and its call |
| ServerAscii.ParseLine | server_ascii.js:238-258 | a line names a simple command, a mutation with five words and a byte count, or is invalid, in exactly those cases; the byte count is the corrected one of `ParseCount` |
| ServerAscii.ParseCount | server_ascii.js:258 | the corrected byte count: `parseInt` of the fifth word when that is a non-negative number, and nothing otherwise (the source takes `parseInt` unchecked) |
| ServerAscii.ReadValue | server_ascii.js:262-272 | `read_more` waits exactly while fewer than `nval + 2` bytes are buffered, then takes `nval` bytes, skips two and resumes after them |
| ServerAscii.ReadValueAppend | server_ascii.js:262-272 | more data never changes a value already complete |
| ServerAscii.ReadValueAsWritten | server_ascii.js:258-291 | `read_more` with the count `parseInt(args[4])` unchecked: waits only while a numeric count is not buffered, and slices by JavaScript's rules for negative and NaN indices |
| ServerAscii.ReadValueAsWrittenOnCounts | server_ascii.js:258-272 | on a non-negative count, the source's unchecked intake and the corrected one agree |
| ServerAscii.ReadValueAsWrittenDependsOnChunking | server_ascii.js:258-272 | with the count -1, the stored value depends on how the input was cut; with a NaN count, the value bytes are parsed as commands |
| ServerAscii.CommitValue | server_ascii.js:272-294 | the `update` of a complete value: the handler's decision is stored, the count grows when a new item is added, the answer is emitted and `handler` returns to `new_cmd` |
| ServerAscii.Run | server_ascii.js:230-302 | `new_cmd(data)`: an unterminated tail waits in `leftOver`; each complete line is dispatched and the loop goes on after it |
| ServerAscii.Dispatch | server_ascii.js:238-300 | one complete line: a simple command, CLIENT_ERROR, or the start of a value read; then the rest of the data |
| ServerAscii.ReadMoreStep | server_ascii.js:262-296 | `read_more(d)`: wait in `leftOver` with `handler = read_more` while the value is incomplete, else commit it and parse what follows |
| ServerAscii.Feed | server_ascii.js:221-228 | the `data` event: what was left over is prepended and everything goes to the current handler |
| ServerAscii.FeedAll | server_ascii.js:221-228 | a sequence of `data` events, one after the other |
| ServerAscii.RunExtendsOutput | server_ascii.js:230-302 | `new_cmd` only appends to what was emitted |
| ServerAscii.RunAppend | server_ascii.js:230-302 | between commands, handling `x`, then feeding `y` as the next `data` event, is handling `x + y` at once |
| ServerAscii.RunAppendNoLine | server_ascii.js:233-236 | an unterminated tail waits in `leftOver` and is prepended to the next chunk |
| ServerAscii.RunSplitsAtLine | server_ascii.js:232-239 | the first complete line of `x` is the first line of `x + y`, with the same rest before `y` |
| ServerAscii.DispatchAppend | server_ascii.js:241-300 | dispatching a line and going on with `rest` commutes with a later chunk |
| ServerAscii.ReadMoreAppend | server_ascii.js:262-296 | a value split across events is read as if it had arrived whole |
| ServerAscii.FeedChunkInvariant | server_ascii.js:221-228 | two `data` events with `a` and `b` end in the state of one event with `a + b` |
| ServerAscii.FeedAllIsFeedOfConcat | server_ascii.js:221-228 | any cut of the stream into events gives the outcome of the whole stream in one event |
| ServerAscii.CommitValueKeepsCount | server_ascii.js:276-294 | a committed mutation keeps `ctx.nitems` equal to the number of stored items |
| ServerAscii.SimpleCmdKeepsCount | server_ascii.js:43-73 | `delete` and `flush_all` keep `ctx.nitems` equal to the number of stored items |
| ServerAscii.DeleteCmdAsWrittenOnOwnNames | server_ascii.js:43-61 | for every key that is not an `Object.prototype` name, the source's `delete` on the plain object is the modelled one |
| ServerAscii.DeleteAsWrittenMiscounts | server_ascii.js:43-61 | on a fresh server the source's `delete toString` answers DELETED and leaves `curr_items` at -1; the own-property `delete` answers NOT_FOUND and keeps the count |
| ServerAscii.RunKeepsCount | server_ascii.js:230-302 | `new_cmd` keeps `ctx.nitems` equal to the number of stored items |
| ServerAscii.ReadMoreKeepsCount | server_ascii.js:262-296 | `read_more` keeps `ctx.nitems` equal to the number of stored items |
| ServerAscii.FeedKeepsCount | server_ascii.js:221-228 | every `data` event keeps `curr_items` equal to the number of stored items |
| ServerAscii.RunSettles | server_ascii.js:230-236 | after `new_cmd`, what is buffered is a line without its terminator, or a value shorter than its count plus two |
| ServerAscii.ReadMoreSettles | server_ascii.js:262-270 | after `read_more`, only an incomplete request is buffered |
| ServerAscii.FeedSettles | server_ascii.js:221-228 | after any `data` event, only an incomplete request is buffered |
| ServerAscii.FeedEmptyIsIdle | server_ascii.js:221-228 | an empty chunk after a settled event changes nothing |
| ServerConnection.ServerCtx.constructor | server_ascii.js:161-167 | `mkServerCtx()` starts all counters at 0 |
| ServerConnection.Transport.Write | server_ascii.js:203 | `stream.write` queues the data and answers whether the socket is below its high-water mark |
| ServerConnection.Transport.Flush | server_ascii.js:209 | the network takes the socket's buffer, after which `drain` is raised; nothing written is lost |
| ServerConnection.Transport.End | server_ascii.js:196 | `stream.end()`: the stream is marked ended and nothing written changes |
| ServerConnection.Connection.constructor | server_ascii.js:187-192 | a connection starts with no `leftOver`, `handler = new_cmd` and no `emitQueue` |
| ServerConnection.Connection.Emit | server_ascii.js:194-207 | `emit(null)` ends the stream. Otherwise data goes behind a non-null `emitQueue`, or is written, and a full socket starts a queue. Socket text followed by queued text stays exactly what was emitted |
| ServerConnection.Connection.OnDrain | server_ascii.js:209-219 | `drain` writes a prefix of the queue in order. It keeps the rest queued when the socket fills, and clears the queue once all of it is written. No output is lost and the session is unchanged |
| ServerConnection.Connection.OnConnect | server_ascii.js:178-181 | `connect` increments `num_conns` and `tot_conns` |
| ServerConnection.Connection.OnEnd | server_ascii.js:182-185 | `end` closes the stream and decrements `num_conns` |
| ServerConnection.Connection.EmitNotes | server_ascii.js:26-41 | the `get`/`rget` callbacks emit a VALUE block per found item and END at the terminal call |
| ServerConnection.Connection.EmitNote | server_ascii.js:27-40 | one callback call emits a VALUE block, nothing on a miss, or END |
| ServerConnection.Connection.Get | server_ascii.js:24-42 | `get` moves the connection as `GetCmd` says |
| ServerConnection.Connection.Delete | server_ascii.js:43-61 | `delete` moves the connection as `DeleteCmd` says |
| ServerConnection.Connection.Stats | server_ascii.js:62-67 | `stats` emits the three STAT lines and END |
| ServerConnection.Connection.FlushAll | server_ascii.js:68-73 | `flush_all` empties the store, zeroes `nitems` and answers OK |
| ServerConnection.Connection.Quit | server_ascii.js:74-76 | `quit` emits null, which ends the stream |
| ServerConnection.Connection.Rget | server_ascii.js:77-111 | `rget` moves the connection as `RgetCmd` says |
| ServerConnection.Connection.RunSimple | server_ascii.js:244-246 | dispatching a simple command moves the connection as `SimpleCmd` says |
| ServerConnection.Connection.Commit | server_ascii.js:276-294 | the `update` callback commits as `Policy` decides, counts a new item and emits the answer |
| ServerConnection.Connection.NewCmd | server_ascii.js:230-302 | the `new_cmd` loop moves the connection exactly as `Run` says |
| ServerConnection.Connection.HandleLine | server_ascii.js:238-300 | one turn of the `new_cmd` loop is `Dispatch` of the line |
| ServerConnection.Connection.ReadMore | server_ascii.js:262-296 | `read_more` waits or commits as `ReadMoreStep` says. Called from the `data` handler it restarts `new_cmd`; inside the loop it hands the rest back |
| ServerConnection.Connection.OnData | server_ascii.js:221-228 | a `data` event moves the connection exactly as `Feed` says |
| Mc.U16 | mc.js:118 | `htons` writes two bytes |
| Mc.U32 | mc.js:122 | `htonl` writes four bytes |
| Mc.U16Value | mc.js:118 | two bytes written by `htons` read back as the value modulo 2^16 |
| Mc.U32Value | mc.js:122 | four bytes written by `htonl` read back as the value modulo 2^32 |
| Mc.Ntohs | mc.js:138-140 | `ntohs`: the big-endian unsigned value of two bytes at an offset |
| Mc.Ntohl | mc.js:141-142 | `ntohl`: the big-endian unsigned value of four bytes at an offset |
| Mc.StrBytes | mc.js:156 | the bytes of a 'binary' string are the low eight bits of each character code |
| Mc.AsString | tap.js:155 | a buffer as a 'binary' string has one character per byte with the same code |
| Mc.StrBytesOfAsString | tap.js:155 | taking a buffer to a 'binary' string and back gives the buffer |
| Mc.AsStringOfStrBytes | mc.js:156 | a string of byte-sized characters survives the trip to bytes and back |
| Mc.HeaderBytes | mc.js:111-128 | `packHeader` writes 24 header bytes |
| Mc.UnpackHeader | mc.js:130-148 | `unpackHeader` is -1 exactly when fewer than 24 bytes remain; `datalen` is the body length less key and extras |
| Mc.UnpackHeaderSameBytes | mc.js:130-148 | the header read at `start` depends on the 24 bytes there and nothing else |
| Mc.HeaderRoundTrip | mc.js:111-148 | unpacking a packed header gives back every field that fits its width, whatever bytes follow |
| Mc.HeaderBytesRead | mc.js:130-148 | the 24 packed bytes read back as their fields |
| Mc.Htons | mc.js:118 | `htons` writes the two bytes and leaves every other byte of the buffer alone |
| Mc.Htonl | mc.js:122 | `htonl` writes the four bytes and leaves every other byte alone |
| Mc.WriteHeader | mc.js:116-126 | the writes of `packHeader` put exactly the header bytes in front and touch nothing after them |
| Mc.PackHeader | mc.js:111-128 | `packHeader` allocates 24 + extlen + keylen bytes and fills the header |
| Mc.UnpackHeaderStr | mc.js:150-172 | `unpackHeaderStr` is -1 until the 24 header bytes and the whole body are in the string; otherwise it reads the header `unpackHeader` reads |
| Mc.UnpackMsgStr | mc.js:199-221 | `unpackMsgStr` finds a message exactly when the header and body are complete, and carries that header |
| Mc.UnpackMsgStrAsWritten | mc.js:199-221 | the source's `unpackMsgStr`: -1 until header and body are complete, then the parts sliced from the whole string |
| Mc.Parts | mc.js:206-217 | the extras, key and data after a header at `start`, each null when its length is not positive |
| Mc.UnpackMsgStrAgreesWhenPartsFit | mc.js:199-221 | when key and extras fit in the body, the corrected decoder and the source's agree |
| Mc.UnpackMsgStrPrefixStable | mc.js:199-221 | a complete frame decodes the same whatever arrives after it |
| Mc.UnpackMsgStrShift | mc.js:199-221 | decoding at offset `cur` is decoding the text from `cur` on |
| Mc.SliceIsJsSlice | mc.js:206-217 | the slices of the decoder are JavaScript's `slice` at non-negative indices |
| Mc.FrameIncomplete | mc.js:167-169 | a frame whose body has not all arrived is not decoded |
| Mc.RequestBytesAsWritten | mc.js:176-195 | the buffer `packRequest` returns holds the header, extras and key, and nothing else |
| Mc.RequestBytes | mc.js:176-195 | the corrected request holds the header, extras, key and data |
| Mc.RequestBytesWithoutData | mc.js:176-195 | without data, the source's packing and the corrected one give the same bytes |
| Mc.PackRequestAsWrittenLosesData | mc.js:176-195 | a request packed by the source with data is never decoded, because its header announces more body than the buffer holds |
| Mc.PackRequestRoundTrip | mc.js:176-221 | a packed request decodes to its header fields, extras, key and data; each empty part is null |
| Mc.UnpackMsgStrAsWrittenReadsPastFrame | mc.js:206-217 | the source's decoder takes a key byte from the next frame when key and extras claim more than the body holds |
| Mc.CopyInto | mc.js:186-188 | `ext.copy(b, 24)` writes the extras at offset 24 and leaves the other bytes alone |
| Mc.WriteChars | mc.js:190-192 | the key loop writes each character's low byte after the extras and leaves other bytes alone |
| Mc.WriteExtAndKey | mc.js:186-192 | after the header come the extras, then the key |
| Mc.PackRequestAsWritten | mc.js:176-195 | `packRequest` as written returns exactly `RequestBytesAsWritten` |
| Mc.PackRequest | mc.js:176-195 | the corrected `packRequest` returns exactly `RequestBytes` |
| Tap.ReframeLeftover | tap.js:125-139 | the processor passes on only TAP_MUTATION messages, and keeps a tail of its input that is empty or holds no complete message |
| Tap.ReframeStep | tap.js:126-138 | a message found at the cursor lies within the input, and the cursor moves past its 24 + bodylen bytes |
| Tap.ReframeAppend | tap.js:119-140 | reading `s`, then `b` after the tail `s` left, passes on the messages of `s + b` in the same order and leaves the same tail |
| Tap.ReframeWhole | tap.js:138 | a whole frame in front of `t` yields its message, then what `t` yields |
| Tap.Reframe | tap.js:125-139 | the loop of the response processor for a decoder: the decoded messages from the start, passing on only TAP_MUTATION ones, and the tail from where no complete message is found |
| Tap.MsgAt | tap.js:127 | the decoder at the cursor: the corrected `unpackMsgStr` on the text from the cursor on |
| Tap.Frames | tap.js:119-140 | what the tap stream's processor makes of its text: `Reframe` with the corrected decoder |
| Tap.MsgAtFits | tap.js:127 | the corrected decoder at the cursor never reaches past the text |
| Tap.MsgAtPrefixStable | tap.js:127 | with the corrected decoder, a message once decoded at the cursor stays the same when more bytes arrive |
| Tap.FramesLeftover | tap.js:125-139 | with the corrected decoder, only mutations are passed on, and the kept tail holds no complete message |
| Tap.FramesAppend | tap.js:119-140 | with the corrected decoder, the outcome does not depend on how the stream is cut |
| Tap.FramesOfFrame | tap.js:138 | a complete frame is consumed by exactly its length |
| Tap.FramesOfWholeFrames | tap.js:125-139 | a stream of whole frames passes on their mutations in stream order and leaves nothing over |
| Tap.PackedRequestIsFrame | tap.js:133-136 | a packed request is one frame; it is passed on exactly when it is a TAP_MUTATION, with its key and data |
| Tap.ResponseProcessor.constructor | tap.js:116-117 | a processor starts with no `leftOver` and decodes with the corrected decoder |
| Tap.ResponseProcessor.OnData | tap.js:119-140 | one `data` event passes on the messages `Reframe` gives for the old tail plus the chunk, and keeps the tail it gives |
| Tap.TapProcessorIsFrames | tap.js:127 | the tap stream's processor, with the corrected decoder, computes `Frames` |
| Tap.ConnectRequestContents | tap.js:150-164 | the connect request has 28 bytes: a TAP_CONNECT header with body length 4, then the DUMP flag 0,0,0,2. It decodes to that, and the source packs the same bytes |
| Tap.ConnectBytes | tap.js:150-164 | the bytes of the TAP_CONNECT request with the DUMP flag as four bytes of extras |
| Tap.ConnectRequest | tap.js:150-164 | the connect listener builds exactly those bytes |
| Tap.Console.Print | tap.js:43-48 | `sys.print` appends its text to standard output |
| Tap.SetCommandText | tap.js:41-49 | the text `emit` prints: `set <key> 0 0 <length>`, CR LF, the value, CR LF, with a missing value empty and the length counted in characters |
| Tap.Emit | tap.js:41-49 | `emit(key, value)` prints `set <key> 0 0 <len>` CR LF, the value and CR LF; a missing value prints as empty |
| Tap.EmitIsStored | tap.js:41-49 | fed to the server between commands, the printed text stores the value under the key with flags "0", answers STORED, touches no other key and leaves the connection idle |
| Tap.EmitRunsSet | tap.js:41-49 | the printed text runs exactly one `set` to completion |
| Tap.SetLineRequest | tap.js:43-45 | the printed request line parses as a `set` of the key with flags "0", expiration 0 and the value's length |
| Tap.SetLineParses | tap.js:43-45 | `split(' ')` of the printed line gives the five words |

## Left out

- Sockets and the network are not modelled. `net.createServer`, `net.createConnection`,
  `setEncoding` and `setNoDelay` are absent. `Transport` stands for a writable socket:
  `Write` always accepts the data, and `Flush` is the network taking the buffer. Events are
  method calls in the order node.js delivers them; there is no concurrency.
- Writes after `stream.end()` are still recorded by `Transport.Write`; node.js would
  refuse them.
- The tap client's command line is not modelled: argument parsing, `usage`, `eval` of the
  `-b`/`-e`/`-a` code, the `actionBefore`/`actionAfter` calls, `dump`/`dumpAll` and the
  loop over servers. The `actionDuring` callback is modelled as the sequence of messages
  `OnData` returns.
- main.js is not part of this model.
- ntoh.js is not part of this model. `htons`, `htonl`, `ntohs` and `ntohl` are taken as
  big-endian unsigned conversions.
- `parseInt` is modelled on decimal text with an optional sign. Leading whitespace, the
  `0x` prefix and numbers beyond the exactly representable range are left out.
- `for (var k in ht)` is modelled in insertion order. JavaScript engines list
  integer-like keys first, in numeric order; that is left out.
- `cmds_simple[cmd]` also finds inherited properties such as `constructor` or `toString`.
  Only the six commands are modelled.
- The item's expiration is `parseInt` of its word and is never used. Flags are kept as the
  client's text.
- treap.js's `TreapNode` calls `this.key()`, `this.priority()`, `mkNode` and a free
  `compare`, none of which the file defines. They are modelled as the node's own fields,
  the obvious node constructor, and the fixed string comparison `KeyOrder.Compare`.
- Treap.Join: the code keeps `this` on top only when its priority is strictly higher, so
  ties go to `that`. The model follows the code. A description of the algorithm that
  compares with "greater than or equal" would give ties to `this` instead.
- Tap.ResponseProcessor.OnData is proved for any decoder that never reads past its input.
  `Tap.TapProcessorIsFrames` connects it to the corrected decoder `Tap.MsgAt`.
- Tap.MsgAt is the corrected `unpackMsgStr`, which slices key, extras and data inside
  the frame. The source slices them from the whole string (`Mc.UnpackMsgStrAsWritten`),
  so a header whose key and extras claim more than its body reads into the next frame.
  The tap results are therefore proved for the corrected decoder only. The two decoders
  agree whenever key and extras fit in the body (`Mc.UnpackMsgStrAgreesWhenPartsFit`).
- ServerAscii.ParseCount is the corrected byte count: a negative or non-numeric count is
  answered CLIENT_ERROR. The source passes `parseInt(args[4])` on unchecked
  (`ServerAscii.ReadValueAsWritten`). The server's chunking and counting results are
  therefore proved for the corrected count only. The two agree on every non-negative
  count (`ServerAscii.ReadValueAsWrittenOnCounts`).
- Tap.Emit prints the length of the value as its number of characters. JavaScript's
  `value.length` counts UTF-16 code units, so the two agree for characters up to
  U+FFFF and differ for any character above it. The encoding `sys.print` uses on
  standard output is not modelled either, so when a character is 0x80 or above the
  number of bytes the server reads may differ from the printed count.
  `Tap.EmitIsStored` and `Tap.EmitRunsSet` are proved for the text as a sequence of
  characters that the server reads one for one.
- ItemsHt.Get reads own properties only. The source's `ht` is a plain `{}`, so `ht[k]`
  also finds the members inherited from `Object.prototype`. The model therefore does
  not capture these behaviours of the source:
  - `delete toString` answers DELETED and lowers `curr_items`, below 0 on a fresh
    server. This is modelled separately as `ServerAscii.DeleteCmdAsWritten`.
  - `add constructor ...` answers NOT_STORED.
  - A `set` of such a name stores the item without counting it.
  - `replace toString ...` answers STORED, because the inherited function is not null.
  - `append toString ... x` stores "undefinedx" and answers STORED, because the
    function has no `val`; `prepend` stores "xundefined" the same way.
  - Assigning the key `__proto__` replaces the prototype instead of adding a property.
  `ServerAscii.FeedKeepsCount` and the other count results hold for the own-property
  table only.

## Findings

| source | as written | input that shows it | evidently intended | confidence | as-written member | corrected member |
|---|---|---|---|---|---|---|
| server_ascii.js:258-272 | the byte count is `parseInt(args[4])` unchecked; a negative or NaN count reaches `read_more`, whose slices then follow JavaScript's negative-index rules | `set k 0 0 -1` then the value bytes "xy": in one chunk the item stores "x"; with "x" alone the read completes with "", and "y" is left to parse as a command | a count that is not a non-negative number is answered CLIENT_ERROR, so chunking cannot change what is stored | not executed | ServerAscii.ReadValueAsWrittenDependsOnChunking | ServerAscii.FeedChunkInvariant |
| mc.js:176-195 | `bodylen` counts the data, but the buffer holds only header, extras and key, and the data is never written | any request with non-empty data: the header announces more body than the buffer holds, so `unpackMsgStr` never decodes it | the buffer holds 24 + bodylen bytes with the data after the key (`Mc.PackRequest`) | not executed | Mc.PackRequestAsWrittenLosesData | Mc.PackRequestRoundTrip |
| items_ht.js:47-52 | `remove` reads `ht[k]` on a plain object, so a name inherited from `Object.prototype` reads as a non-null item; `delete ht[k]` leaves it in place | `delete toString` on a fresh server: the answer is DELETED and `curr_items` becomes -1, although nothing was stored | only keys the store holds count as items (an own-property lookup), so `delete` of such a name answers NOT_FOUND and the count stays right | not executed | ServerAscii.DeleteAsWrittenMiscounts | ServerAscii.SimpleCmdKeepsCount |
| mc.js:206-217 | key, extras and data are sliced from the whole string, not from the frame | a header with keylen 1 and bodylen 0: alone it decodes with key "", followed by "z" with key "z", taken from the next frame | parts are sliced within the frame's own 24 + bodylen bytes | not executed | Mc.UnpackMsgStrAsWrittenReadsPastFrame | Mc.UnpackMsgStrPrefixStable |
