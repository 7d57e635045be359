# mod_perl's core, verified

A Dafny model of the C core of mod_perl 2: the state machines in `src/modules/perl` and in
APR::Pool that do not depend on the insides of Perl or httpd. Code that updates things in place is
modelled with classes, nodes, arrays and loops, and each such method is proved against a
specification on values; the theorems over all inputs and all runs are proved of the specification.

| files | what they model |
|---|---|
| `TipoolSpec`, `Tipool`, `TipoolProtocol`, `TipoolRuns` | the thread item pool: linked lists, and any number of threads between lock, wait and unlock |
| `Bits`, `SvptrTable`, `SvptrLife` | the pointer hash table: chains, split in place, clone, destruction |
| `CgiHeader`, `WriteBuffer`, `FilterReader`, `OutputFilter`, `InputFilter`, `FilterStreams` | the write buffer, the CGI header cut, the brigade reader, filters and their EOS |
| `InterpSpec`, `InterpRuns`, `Interp`, `InterpPool` | which interpreter a request tree gets, when it goes back, and its place in the item pool |
| `AprPool` | Perl objects that own APR pools |
| `Options`, `ConfigVars` | PerlOptions and PerlSetVar/PerlAddVar: merging containers against replaying directives |
| `MgvSpec`, `Mgv` | compiled symbol names |
| `HandlerSpec`, `HandlerStack` | pushed and set handlers, and the phase runner |

`dafny verify dfyconfig.toml` checks all of it.

What comes from outside is a parameter: the verdicts of `ap_pass_brigade`, the header parser's
status, `sv_dup`, `PERL_HASH`, what a handler does and returns, the address an allocator gives, the
interpreter a pop hands out, whether the pool's grow hook is set. Runs are sequences of steps of
any length in any order that the callers' own rules allow.

## Where the code falls short

The model follows the code. Each of these has a concrete input and the exact condition, proved for
all inputs:

- The merge of options means an explicit setting to override all earlier modifiers
  (`modperl_options.c`, lines 137 to 142), but setting an option without a sign leaves the marker bit
  on, so the other branch is taken and the option is forgotten: `Options.UnsignedOptionIsLost`, and
  `Options.MergeAgainstReplay` and `Options.NestAgainstReplay` for the condition. The marker has a
  name, `Unset`; a container that removes it does reach that branch, and with it everything outside
  is forgotten (`Options.UnsetForgetsTheBase`, `Options.MergeAgainstReplay`).
- Clone and destroy of the pointer table leave out the last bucket. A clone is complete exactly if
  no key hashes there (`SvptrLife.Clone`); destroying decrements every value exactly if no key there
  has one (`SvptrLife.DestroyMissesNothing`). Inputs: `SvptrLife.CloneLosesLastBucket`,
  `SvptrLife.DestroyLosesLastBucket`. Aligned pointers never hash there
  (`SvptrLife.AlignedKeysMissNothing`).
- Compiling a symbol drops a leading `::` and the third of three colons, and appending is not
  always compiling the whole (`MgvSpec.ColonsAreLost`, `MgvSpec.PrintIsInverse`,
  `MgvSpec.AppendIsCompile`).
- Printing the package of a symbol writes in front of its buffer for a name in which no `::` lies
  behind a character other than a colon (`MgvSpec.TerminatorInFront`, `MgvSpec.TerminatorInside`).
- The FLUSH that a flush of the write buffer is asked to add is lost if the buffer holds a response's
  first chunk and nothing of it is left behind its headers (`WriteBuffer.HeaderSwallowsFlush`,
  `WriteBuffer.WBucket.Flush`).
- One interpreter per request tree needs the requests of that tree to ask with per-request scope
  (`InterpRuns.MixedScopesPartATree`, `InterpRuns.SharesWithTop`).
- An APR::Pool object that does not own its pool, such as one from `parent_get`, keeps the address
  when the pool is gone, and what is done through it then hits whatever lives there
  (`AprPool.ClearedByStrayName`, `AprPoolSpec.ActsOnOwnPool`). Even on its own pool, a `clear` through
  it takes the ownership away from the owner, and the pool never has one again (`AprPool.Perl.Clear`,
  `AprPool.Continue`).
- A pool object keeps the pools above its own alive if and only if it holds every object that owns one
  of them (`AprPool.KeepAlive`, `AprPool.LetOthersGo`, `AprPool.ChildKeepsParent`). A `clear` lets go of
  the parent object and does not take hold of it again; a pool made from the cleared one is destroyed
  while its object is in use (`AprPool.ClearedParentIsNotKept`).
- Putting an item back by its node is not checked as putting it back by its data is
  (`TipoolProtocol.NodePutBackTwice`, `TipoolProtocol.NodeFormIsDataForm`), and a node that is idle
  already makes a ring of the idle list (`TipoolList.PrependListed`).

The bound on idle items holds for every configuration, also for one with `start` above `max`.

## Model

| member | source | states |
|---|---|---|
| `TipoolList.Append` | src/modules/perl/modperl_tipool.c:60-77 | the node ends up last of a well-formed doubly linked list, and the other nodes stay in place |
| `TipoolList.Prepend` | src/modules/perl/modperl_tipool.c:79-97 | the node ends up first, in front of the unchanged list |
| `TipoolList.PrependListed` | src/modules/perl/modperl_tipool.c:79-97 | prepending a node of the list itself makes a ring of it and what was in front of it, from which no walk is a list |
| `TipoolList.Remove` | src/modules/perl/modperl_tipool.c:99-132 | exactly the node at its position leaves a doubly linked list; a node that is not in the list changes nothing |
| `TipoolList.RemoveData` | src/modules/perl/modperl_tipool.c:134-161 | the first node with the data leaves the list and is returned; none, and no change, if the data is not there |
| `Tipool.Pool.Init` | src/modules/perl/modperl_tipool.c:181-190 | the linked pool holds the `start` items grown, in order, and counts them |
| `Tipool.Pool.Destroy` | src/modules/perl/modperl_tipool.c:198-220 | every idle node is destroyed, head first, and size counts what is still lent |
| `Tipool.Pool.Add` | src/modules/perl/modperl_tipool.c:222-236 | one more item at the end of the idle list, and in size |
| `Tipool.Pool.Pop` | src/modules/perl/modperl_tipool.c:249-288 | the locked stretch of a pop: grow if all is lent and growing is allowed, then wait or move the head of idle to busy |
| `Tipool.Pool.Retake` | src/modules/perl/modperl_tipool.h:63-71 | one test of the wait loop and the rest of the pop behind it |
| `Tipool.Pool.PutbackData` | src/modules/perl/modperl_tipool.c:290-383 | the locked stretch of a putback: busy to the front of idle, the hurry-up return, the spare and request shrinks and the regrowth; nothing for data that is not busy |
| `Tipool.Pool.PutbackNode` | src/modules/perl/modperl_tipool.c:290-383 | the same for a node instead of its data, which is not asked whether it is on loan: it goes to the front of idle and in_use drops in any case |
| `TipoolProtocol.NodeFormIsDataForm` | src/modules/perl/modperl_tipool.c:302-317 | giving the node does what giving the data does exactly if the item is on loan |
| `TipoolProtocol.NodePutBackTwice` | src/modules/perl/modperl_tipool.c:302-365 | a worn-out item whose node is put back twice is destroyed twice, and in_use becomes -1 |
| `TipoolProtocol.EnterPopKeeps` | src/modules/perl/modperl_tipool.c:249-288 | a pop keeps the accounts and bounds, never panics, and blocks exactly if nothing is idle and the pool may not grow |
| `TipoolProtocol.RetestKeeps` | src/modules/perl/modperl_tipool.h:63-71 | a thread that leaves the wait loop finds an idle item: the empty-idle panic cannot happen |
| `TipoolProtocol.PutbackKeeps` | src/modules/perl/modperl_tipool.c:290-383 | a putback keeps the accounts and bounds, takes exactly that item off the busy ones, and is void for an item not on loan |
| `TipoolProtocol.PopTakesTheHead` | src/modules/perl/modperl_tipool.c:249-288 | a pop lends the first idle item, which goes to the end of busy; if none is idle it lends a new one where it may grow, and otherwise waits and changes nothing |
| `TipoolProtocol.WokenPopTakesTheHead` | src/modules/perl/modperl_tipool.h:63-71 | a woken pop lends the first idle item or waits on, and grows nothing |
| `TipoolProtocol.PutbackDoes` | src/modules/perl/modperl_tipool.c:329-383 | an item put back is destroyed exactly if in_use is not max - 1 afterwards and the spare items exceed max_spare or the positive num_requests exceeds max_requests; otherwise it is at the front of idle and nothing else changes; a new item is grown, at the end of idle, exactly if it was destroyed, was worn out, too few spare ones were left and the pool may grow |
| `TipoolProtocol.StepKeeps` | src/modules/perl/modperl_tipool.c:249-383 | every step of any thread keeps the whole safety invariant |
| `TipoolProtocol.EveryRunIsSafe` | src/modules/perl/modperl_tipool.c:181-383 | over every interleaving: idle, busy and destroyed partition the items grown, each once; size and in_use count the lists; size and idle keep their bounds; no item has two holders; no pop panics |
| `TipoolProtocol.DestroyEnds` | src/modules/perl/modperl_tipool.c:198-220 | destroying the pool after any run destroys the idle items in order and no other, leaves size equal to in_use, and every item accounted for once |
| `TipoolRuns.Execute` | src/modules/perl/modperl_tipool.c:181-383 | the linked-list pool driven through any legal interleaving is, at its end, the pool of the protocol |
| `Bits.MaskIsMod` | src/modules/perl/modperl_svptr_table.c:182-194 | masking with a power of two less one is the remainder, so the bucket of a key is key mod (tbl_max + 1) |
| `Bits.WiderMask` | src/modules/perl/modperl_svptr_table.c:228-256 | with one more mask bit a key stays in its bucket or moves up by the old size: the two targets of a split |
| `SvptrTable.Table.constructor` | src/modules/perl/modperl_svptr_table.c:169-178 | a new table is a valid, empty map of 512 buckets |
| `SvptrTable.Table.Fetch` | src/modules/perl/modperl_svptr_table.c:182-194 | answers the map's value, 0 if the key is missing |
| `SvptrTable.Table.Store` | src/modules/perl/modperl_svptr_table.c:198-224 | the map with this key set, whichever of overwriting, inserting and splitting happens; no other key changes, no value is decremented |
| `SvptrTable.Table.Delete` | src/modules/perl/modperl_svptr_table.c:140-157 | the map without the key; a non-null value is decremented once |
| `SvptrTable.Table.SplitBucket` | src/modules/perl/modperl_svptr_table.c:228-256 | relinks one chain in place into the entries that stay and those that move to the twin bucket, losing none |
| `SvptrTable.Table.Split` | src/modules/perl/modperl_svptr_table.c:228-256 | doubles the bucket array without changing the map, the item count or the set of nodes |
| `SvptrLife.Drive` | src/modules/perl/modperl_svptr_table.c:140-256 | any run of store, fetch and delete on a new table answers and ends as a plain map does, with the same decrements |
| `SvptrLife.NodesCountedAndPlaced` | src/modules/perl/modperl_svptr_table.c:198-256 | tbl_items counts the nodes, and every node is in bucket key mod (tbl_max + 1) |
| `SvptrLife.Clone` | src/modules/perl/modperl_svptr_table.c:53-103 | the clone has the dup'ed entries of all buckets but the last; it is a valid table exactly if no key hashes to the last bucket |
| `SvptrLife.Destroy` | src/modules/perl/modperl_svptr_table.c:110-133 | the values of all buckets but the last are decremented once each; these are all values exactly if no key in the last bucket has one; every node is freed exactly once |
| `SvptrLife.DestroyMissesNothing` | src/modules/perl/modperl_svptr_table.c:110-133 | what is decremented is everything exactly if every key that hashes to the last bucket has a null value |
| `SvptrLife.DecrementsPerKey` | src/modules/perl/modperl_svptr_table.c:110-133 | as a multiset, what is decremented is the non-null value of every key outside the last bucket, once per key |
| `SvptrLife.CloneLosesLastBucket` | src/modules/perl/modperl_svptr_table.c:53-103 | a table with the one key 511 has a clone that counts one item and holds none |
| `SvptrLife.DestroyLosesLastBucket` | src/modules/perl/modperl_svptr_table.c:110-133 | that table is destroyed without decrementing its value |
| `SvptrLife.Clear` | src/modules/perl/modperl_svptr_table.c:260-292 | the clear loop ends and frees every node, bucket by bucket |
| `SvptrLife.AlignedKeysMissNothing` | src/modules/perl/modperl_svptr_table.c:53-133 | with even keys the last bucket is empty: a clone has the same keys with dup'ed values, and destroying covers every entry |
| `Bits.EvenKeyMissesLast` | src/modules/perl/modperl_svptr_table.c:73 | an even key never hashes to the last bucket, the one the loops up to tbl_max leave out |
| `CgiHeader.HeaderScan` | src/modules/perl/modperl_cgi.c:39-65 | the scan stops behind the shortest prefix that ends in LF CR* LF, at the end if there is none |
| `CgiHeader.CutIsUnique` | src/modules/perl/modperl_cgi.c:39-65 | there is only one such cut |
| `WriteBuffer.WBucket.PassChunk` | src/modules/perl/modperl_filter.c:149-221 | all that was accepted and not passed on goes out as one brigade, less the header block if one is due |
| `WriteBuffer.WBucket.Flush` | src/modules/perl/modperl_filter.c:232-246 | the buffer goes out as one chunk, a FLUSH that is due rides with it or goes alone; if the buffer is the first chunk and a header is due, what goes out is what is left of it, and if nothing is, the FLUSH is lost: exactly then nothing goes out |
| `WriteBuffer.HeaderSwallowsFlush` | src/modules/perl/modperl_filter.c:189-191 | one header line and a blank line, then a flush with FLUSH: nothing goes out |
| `WriteBuffer.WBucket.Write` | src/modules/perl/modperl_filter.c:248-272 | takes all of the bytes, or none if emptying the buffer failed; what goes out is, each as a chunk without FLUSH and the first less a due header: what was buffered, if the bytes do not fit behind it, and the bytes themselves, if they fill the buffer alone; the counter stays within MP_IOBUFSIZE; what is buffered afterwards, and which chunk was the first to be passed on, is as computed from the write |
| `WriteBuffer.StreamLessHeader` | src/modules/perl/modperl_filter.c:149-272 | in every valid state, what went downstream and then what is buffered is the concatenation of the writes; once the header that was due is parsed, that without one header block at the start of the first chunk |
| `WriteBuffer.RunOps` | src/modules/perl/modperl_filter.c:149-272 | any sequence of writes and flushes keeps the buffer valid and, if no pass fails, accepts every write in order; no more FLUSHes go out than were asked for, and if no header is due, exactly as many; a header that is due has been cut exactly if some chunk was passed on, off the first one, which like the buffer is as computed from the sequence |
| `FilterReader.NextMore` | src/modules/perl/modperl_filter.c:586-631 | the bucket found next holds the next stretch of the data before the first EOS |
| `FilterReader.NextStop` | src/modules/perl/modperl_filter.c:586-631 | no bucket is found only at EOS, at a FLUSH and at the end, and at EOS and the end everything has been read |
| `FilterReader.LeftoverComesNext` | src/modules/perl/modperl_filter.c:656-737 | a nonzero leftover lies in the current bucket, still in the brigade, directly behind what was read |
| `FilterReader.ReadLeftoverUnvisited` | src/modules/perl/modperl_filter.c:586-737 | in every state of the reader: what has been read, then the leftover, then the data of the unvisited buckets is the brigade's data before its first EOS |
| `FilterReader.Reader.GetBucket` | src/modules/perl/modperl_filter.c:586-631 | moves the reader as the bucket walk does, cleaning up at the brigade's end |
| `FilterReader.Reader.Read` | src/modules/perl/modperl_filter.c:634-752 | answers the next stretch of the data before the first EOS; fewer bytes than wanted only at FLUSH, EOS or the end |
| `FilterReader.RunReads` | src/modules/perl/modperl_filter.c:634-752 | any sequence of reads answers a prefix of the brigade's data before its first EOS, in order, and ends early only at a bucket that cannot be read |
| `OutputFilter.Filter.Print` | src/modules/perl/modperl_filter.c:880-888 | a print is accepted in full, in order, or reports failure |
| `OutputFilter.Filter.AfterRead` | src/modules/perl/modperl_filter.c:790-808 | an empty read at a FLUSH empties the buffer and passes the FLUSH on; any other leaves downstream alone |
| `OutputFilter.Filter.Flush` | src/modules/perl/modperl_filter.c:831-861 | the buffer and the FLUSH that is due go out, everything printed is downstream, and the EOS goes out last and only if it was due |
| `OutputFilter.Filter.SendEos` | src/modules/perl/modperl_filter.c:122-133 | one EOS brigade, with nothing generated behind it |
| `OutputFilter.Filter.Finish` | src/modules/perl/modperl_filter.c:525-564 | the end of an invocation: everything printed is out, and the EOS follows it exactly if one was seen and passes succeed |
| `OutputFilter.LastReadIs` | src/modules/perl/modperl_filter.c:790-808 | the last read of a handler, whatever it prints behind it, decides on the EOS and on the FLUSH at the end; without a read there is neither |
| `OutputFilter.Handle` | src/modules/perl/modperl_filter.c:890-919 | one invocation: the handler is called once before the EOS, and while passes succeed all it prints goes out, with one FLUSH for each empty read at one and for the one its last read left, and the EOS follows exactly if that read left seen_eos set; after the EOS the brigade goes through as it is; what a declining handler left goes through, and nothing else does |
| `OutputFilter.RunInvocations` | src/modules/perl/modperl_filter.c:890-919 | over any invocations with any handlers: the handler runs for the first k, and every later brigade passes through unchanged; while passes succeed all these k print goes out, and the k-th is the first that left seen_eos set, if any did |
| `OutputFilter.OneEosBehindEverything` | src/modules/perl/modperl_filter.c:101-133 | at most one EOS is generated, and everything printed lies in front of it |
| `FilterStreams.CopyBrigade` | src/modules/perl/modperl_filter.c:475-564 | a handler that repeats read(n) and print copies the brigade's data, for every n, and the EOS follows it exactly if the brigade had one |
| `FilterStreams.CopyStream` | src/modules/perl/modperl_filter.c:248-272 | for every stream of FLUSH-free brigades and every n, such a filter is byte-transparent: what it writes and what it forwards is all the data in order, with the EOS right behind the data before it, and no FLUSH is added |
| `InputFilter.Filter.Print` | src/modules/perl/modperl_filter.c:863-878 | the bytes are appended to the caller's brigade |
| `InputFilter.Filter.AfterRead` | src/modules/perl/modperl_filter.c:754-787 | a read never sends the EOS; an empty one at a FLUSH appends the FLUSH, and no other read anything |
| `InputFilter.Filter.Flush` | src/modules/perl/modperl_filter.c:811-829 | the pending FLUSH and then, if due, the one EOS are appended |
| `InputFilter.Filter.SendEos` | src/modules/perl/modperl_filter.c:101-110 | the context remembers that its EOS is out, behind everything written |
| `InputFilter.Handle` | src/modules/perl/modperl_filter.c:921-957 | one invocation leaves exactly the handler's chunks, a FLUSH for each empty read at one and for the one that is pending, the EOS exactly if its last read saw it, and the next filter's brigade last if it declined; one that declines after a read croaks, and the last three are not sent; once the EOS is out, only that brigade and no call |
| `InputFilter.RunInvocations` | src/modules/perl/modperl_filter.c:921-957 | over any invocations: the handler runs for the first k, and every later brigade comes straight from the next filter |
| `InterpSpec.LookupIn` | src/modules/perl/modperl_interp.c:426-480 | the search for an interpreter stays in the pools of its own connection, and ends at an empty pool if it finds none |
| `InterpSpec.StepKeeps` | src/modules/perl/modperl_interp.c:271-520 | every step keeps: pools and interpreters name each other, and the count of an interpreter on loan is one less than the unselects still to come; an idle one is not referred to at all |
| `InterpRuns.EveryRunIsSound` | src/modules/perl/modperl_interp.c:271-520 | that holds over every run |
| `InterpRuns.BackAtLastUnselect` | src/modules/perl/modperl_interp.c:271-299 | in any order of registrations and releases an interpreter goes back exactly at the unselect that is one more than the references there were and came |
| `InterpRuns.NeverBackTwice` | src/modules/perl/modperl_interp.c:271-299 | nothing unselects an interpreter that is back until a selection lends it again |
| `InterpRuns.LookupAtTop` | src/modules/perl/modperl_interp.c:440-480 | if no subrequest of a tree has an interpreter of its own, a per-request selection in it looks in the top request's pool, then in the connection's, and fills the former |
| `InterpRuns.SelectPerConnection` | src/modules/perl/modperl_interp.c:426-437 | per connection: the interpreter in the connection's pool, or a new loan into it, for whatever request |
| `InterpRuns.SelectPerSubrequest` | src/modules/perl/modperl_interp.c:453-480 | per subrequest, or without the connection: the interpreter in the request's own pool, else the one in the connection's, else a new loan into the former |
| `InterpRuns.SelectPerRequest` | src/modules/perl/modperl_interp.c:440-480 | per request, in a tree where no subrequest has one of its own: the interpreter in the top request's pool, else the one in the connection's, else a new loan into the former |
| `InterpRuns.TreeBegins` | src/modules/perl/modperl_interp.c:440-480 | a tree of requests that begins with a pool of its own is in that state |
| `InterpRuns.OneInterpreterPerTree` | src/modules/perl/modperl_interp.c:426-517 | PerlInterpScope request: from the first selection in a tree of requests until the top request's pool ends, every selection in it returns the same interpreter and lends no other, if the requests of this tree ask per request; those of other trees may ask as they like |
| `InterpRuns.TreeKeepsItsInterpreter` | src/modules/perl/modperl_interp.c:426-517 | the same over the life of a tree, from any sound state on: the top request begins in a pool of its own, anything happens that leaves that pool there, and the first selection settles what all later ones return |
| `InterpRuns.OneInterpreterPerConnection` | src/modules/perl/modperl_interp.c:426-437 | PerlInterpScope connection: from the first selection with the connection until its pool ends, whatever else is selected, every such selection, for any request, returns the same interpreter and lends no other |
| `InterpRuns.SharesWithTop` | src/modules/perl/modperl_interp.c:440-480 | in any mix of scopes, a subrequest that asks per request gets the top request's interpreter exactly if no request between the two has one of its own |
| `InterpRuns.MixedScopesPartATree` | src/modules/perl/modperl_interp.c:440-452 | a run of six steps after which a request gets another interpreter than the main request, because the one between them asked per subrequest |
| `InterpRuns.ConnectionsNeverShare` | src/modules/perl/modperl_interp.c:159-184 | while an interpreter is on loan to one connection, no selection for another returns it |
| `InterpLoans.Server.Unselect` | src/modules/perl/modperl_interp.c:271-299 | on the object: one reference less, or it is back; in the state of all objects that is the unselect of the specification |
| `InterpLoans.Server.SearchMains` | src/modules/perl/modperl_interp.c:440-452 | the loop along the main links finds the first pool with an interpreter, or ends at the top one's |
| `InterpLoans.Server.Select` | src/modules/perl/modperl_interp.c:375-520 | a selection over linked requests, connections and pools is exactly the specified step, and returns the interpreter found or newly lent |
| `InterpLoans.Server.Register` | xs/APR/Pool/APR__Pool.h:330-354 | registering a cleanup counts the interpreter object up, which is the specified step |
| `InterpLoans.Server.RunCleanup` | xs/APR/Pool/APR__Pool.h:272-322 | a cleanup that has run unselects the interpreter object, which is the specified step |
| `InterpLoans.Server.EndPool` | src/modules/perl/modperl_interp.c:308-331 | the end of a pool takes along the requests and the connection in it, leaves no pointer to them, and unselects the interpreter in its userdata |
| `InterpLoans.Execute` | src/modules/perl/modperl_interp.c:271-520 | every legal run can be carried out on the linked objects and ends soundly, as specified |
| `InterpPool.PopIsFree` | src/modules/perl/modperl_interp.c:159-184 | a pop for a selection never panics, and hands out an interpreter that is not on loan |
| `InterpPool.AskIsSelect` | src/modules/perl/modperl_interp.c:375-520 | a selection together with its pop is the specified step, which needs no assumption about what is handed out; one that finds an interpreter pops nothing, and one that has to wait changes nothing |
| `InterpPool.BackAfterItsLoans` | src/modules/perl/modperl_interp.c:271-299 | the cleanup or pool end that takes the last reference takes the interpreter off the busy list; it is destroyed exactly if the pool lets it go for its count of requests or for too many spare ones, and is idle again otherwise |
| `InterpPool.EveryRunMatches` | src/modules/perl/modperl_interp.c:271-299 | over every run an interpreter is on loan exactly while it is on the item pool's busy list, where the last unselect is a putback with its count of requests |
| `AprPool.Perl.RunCleanups` | xs/APR/Pool/APR__Pool.h:59-68 | when no pool below is left: the pool's owner loses magic and address, the parent object it held is the one new mortal, and no other object changes |
| `AprPool.Perl.TakeOwnership` | xs/APR/Pool/APR__Pool.h:84-105 | object and pool name each other, and the object is made for this pool |
| `AprPool.Perl.DestroyPool` | xs/APR/Pool/APR__Pool.h:141-147 | exactly the pool and all below it are gone; exactly their owners are disowned |
| `AprPool.Perl.Create` | xs/APR/Pool/APR__Pool.h:154-227 | a new pool at any free address below the parent's (a top one without a parent object), one new owner, whose magic holds the parent object exactly if that is an owner; nothing, where the program would follow a stale address, exactly if the parent names one where no pool lives |
| `AprPool.Perl.AddPoolMagic` | xs/modperl_xs_util.h:141-157 | the child's magic holds the parent object |
| `AprPool.Perl.Clear` | xs/APR/Pool/APR__Pool.h:229-253 | refused without a pool; at a live address exactly the pools below are gone, their owners disowned, and an owner owns its pool again, no longer holding a parent object; the pool cleared is the one the object was made for exactly if it owns it or that pool still lives there |
| `AprPoolSpec.ActsOnOwnPool` | xs/APR/Pool/APR__Pool.h:195-216 | whatever is done through an object acts on the pool it was made for exactly if it owns it or that pool still lives at its address; otherwise on a later pool there, or on none |
| `AprPool.ClearedByStrayName` | xs/APR/Pool/APR__Pool.h:229-253 | a name from parent_get that outlives its pool clears the next pool at that address, whose owner loses it |
| `AprPool.Continue` | xs/APR/Pool/APR__Pool.h:229-253 | from any valid state on, over every run: a pool that has no owner, or lost it to a clear through another object, never gets one again, and what is destroyed stays so |
| `AprPool.Perl.Destroy` | xs/APR/Pool/APR__Pool.h:376-384 | an owner destroys exactly the pool it was made for and what is below it, and that pool is on record as destroyed; another object destroys nothing |
| `AprPool.Perl.Forget` | xs/APR/Pool/APR__Pool.h:376-384 | an object is freed exactly at its last reference; then exactly the pool it owned and what was below it are gone, and their owners disowned |
| `AprPool.Perl.FreeTemps` | xs/APR/Pool/APR__Pool.h:51-68 | releasing the mortals, and those that this brings, ends: every object left is referred to, and the pools gone are exactly those of freed owners and what was below them |
| `AprPool.KeepAlive` | xs/modperl_xs_util.h:130-157 | as long as a variable refers to an object that holds every owner of a pool above its own, no run in which others' variables and mortals go and anything is created changes that object, what it holds, or their pools |
| `AprPool.LetOthersGo` | xs/modperl_xs_util.h:130-157 | and only so: when all other variables and the mortals are gone, its pool is there as before if and only if it held every owner of a pool above it |
| `AprPool.ChildKeepsParent` | xs/APR/Pool/APR__Pool.h:154-227 | a pool made from an owner, and that owner's pool, are both there when all variables but the child's and the mortals are gone, if and only if the parent object held every owner of a pool above its own |
| `AprPool.ParentGoes` | xs/APR/Pool/APR__Pool.h:216-227 | the variables of the parent and the mortals gone: a child that so keeps its pools still has its pool, and the parent object lives and owns its own |
| `AprPool.ClearedParentIsNotKept` | xs/APR/Pool/APR__Pool.h:229-253 | three pools, one below the other, the middle one cleared before the last was made: when the variable of the first goes, the last pool goes, with its object still in a variable |
| `AprPool.Run` | xs/APR/Pool/APR__Pool.h:59-384 | over every run from nothing, with any reuse of addresses: an owner names a live pool, the very one made for it, and is its only owner; no pool is destroyed twice; all are alive or destroyed |
| `AprPoolSpec.NothingLeaks` | xs/APR/Pool/APR__Pool.h:51-68 | when no variable and no mortal is left, no object is left and no pool has an owner |
| `Options.Record.Set` | src/modules/perl/modperl_options.c:64-118 | the error and no change, or: +opt is on and added, -opt is off and removed, opt without a sign is on and neither added nor removed; each is seen; opts_add and opts_remove stay disjoint |
| `Options.MergeDisjoint` | src/modules/perl/modperl_options.c:120-150 | merging keeps opts_add and opts_remove disjoint and consistent with opts |
| `Options.MergeAssociative` | src/modules/perl/modperl_options.c:120-150 | merging may be grouped either way, across both branches, if the marker bit is never added or removed |
| `Options.MergeAssociativeIfMarked` | src/modules/perl/modperl_options.c:120-150 | it may be grouped either way whenever the inner merge is marked exactly if both its parts are |
| `Options.MergeAgainstReplay` | src/modules/perl/modperl_options.c:64-150 | merging a container against replaying its directives on a consistent base, for all directives: while the container is marked as not set explicitly they are equal exactly if what it gives without a sign is on in the base and not removed; once it has taken the marker off, exactly if it gives or takes away itself all that the base has |
| `Options.MarkerTakenOff` | src/modules/perl/modperl_options.c:64-118 | the marker is off exactly if the directives remove it and do not turn it on again, as -Unset does |
| `Options.UnmarkedForgets` | src/modules/perl/modperl_options.c:137-145 | a container that has taken the marker off counts alone, whatever it is merged into |
| `Options.UnsetForgetsTheBase` | src/modules/perl/modperl_options.c:64-150 | with -Unset and +SetupEnv inside, the merge forgets +GlobalRequest outside |
| `Options.MergeIsReplay` | src/modules/perl/modperl_options.c:64-150 | with + and - directives only that leave the marker on, merging is replaying |
| `Options.NestIsReplay` | src/modules/perl/modperl_options.c:64-150 | merging any nest of such containers is replaying all their directives, outermost first |
| `Options.NestAgainstReplay` | src/modules/perl/modperl_options.c:64-150 | for any nest of containers that leave the marker on: the merge lacks exactly the lost options of what replaying turns on, agrees in all else, and equals it exactly if none is lost |
| `Options.UnsignedOptionIsLost` | src/modules/perl/modperl_options.c:111-150 | a concrete unsigned option that the merge forgets |
| `ConfigVars.Container.AddVar` | src/modules/perl/modperl_cmd.c:274-281 | the key has one more value, at the end; every other key, and what was set, is as before |
| `ConfigVars.Container.SetVar` | src/modules/perl/modperl_cmd.c:283-289 | the key, however its case, has this one value in both tables; every other key is as before |
| `ConfigVars.MergeAddVars` | src/modules/perl/modperl_config.c:70-93 | the base without every key the child has set, then the child's entries |
| `ConfigVars.UnsetAllIsWithout` | src/modules/perl/modperl_config.c:70-93 | unsetting the keys one by one leaves exactly the entries whose key is not among them |
| `ConfigVars.OverlapAssociative` | src/modules/perl/modperl_config.c:38-65 | overlapping tables may be grouped either way |
| `ConfigVars.MergeAssociative` | src/modules/perl/modperl_config.c:127-131 | merging containers may be grouped either way, entry for entry |
| `ConfigVars.MergeIsReplay` | src/modules/perl/modperl_config.c:301-305 | for every case-folded key the merge has the values, in order, that replaying the child's directives on the parent gives |
| `ConfigVars.MergedValues` | src/modules/perl/modperl_config.c:70-93 | a key the child set keeps nothing of the base; any other has the base's values and then the child's |
| `MgvSpec.PrintIsInverse` | src/modules/perl/modperl_mgv.c:69-101 | as_string(compile(n)) = n exactly if n neither begins with '::' nor has three colons in a row |
| `MgvSpec.CompileIsSplit` | src/modules/perl/modperl_mgv.c:69-101 | names of non-empty colon-free parts compile to these parts, and print as they were |
| `MgvSpec.EqualityIsSound` | src/modules/perl/modperl_mgv.c:36-52 | although the comparison stops at the shorter list, compiled names are equal exactly if they print the same; for clean names, exactly if they are the same |
| `MgvSpec.AppendIsCompile` | src/modules/perl/modperl_mgv.c:103-117 | append(compile(P), f) = compile(P::f) exactly if P is not empty and does not end in a colon, and f does not begin with a single one |
| `MgvSpec.ColonsAreLost` | src/modules/perl/modperl_mgv.c:69-117 | '::A' and 'A:::b' do not survive, and appending ':f' to 'A' is not compiling 'A:::f' |
| `MgvSpec.PackageOfAppended` | src/modules/perl/modperl_mgv.c:385-411 | the package string of P::f is what P prints as, so P exactly if P is clean |
| `MgvSpec.PackageOfLonger` | src/modules/perl/modperl_mgv.c:385-411 | if f has several segments, it is what P prints as, '::', and the package string of f |
| `MgvSpec.TerminatorInside` | src/modules/perl/modperl_mgv.c:403-405 | in package mode the terminator of a compiled name is written inside the buffer exactly if the name has more than one segment, which is exactly if some '::' lies behind a character other than a colon; otherwise two characters in front of it |
| `MgvSpec.TerminatorInFront` | src/modules/perl/modperl_mgv.c:403-405 | 'handler' and '::handler' are such names |
| `Mgv.Compile` | src/modules/perl/modperl_mgv.c:69-101 | the linked list built spells the segments of the name |
| `Mgv.Append` | src/modules/perl/modperl_mgv.c:103-117 | the list extended in place spells the appended segments, with hash and length of the changed node renewed |
| `Mgv.Equal` | src/modules/perl/modperl_mgv.c:36-52 | true exactly if the segments agree up to the shorter list |
| `Mgv.AsString` | src/modules/perl/modperl_mgv.c:385-411 | the index of the terminator; if it is not negative, the buffer holds the printed name or the package string up to there, and the terminator |
| `Mgv.PackageOf` | src/modules/perl/modperl_mgv.c:414-419 | the package of a name is printed exactly if some '::' in the name lies behind a character other than a colon |
| `HandlerSpec.EffectiveIsSetPlusPushes` | src/modules/perl/modperl_handler.c:359-470 | after any pushes and sets the list in force is the configured or last set one, and behind it what was pushed since |
| `HandlerSpec.EffectiveExists` | src/modules/perl/modperl_handler.c:406-470 | a list is in force exactly if there was one or one was made |
| `HandlerSpec.MadeInOrder` | src/modules/perl/modperl_handler.c:601-633 | each argument that is a handler makes one, in order, and any other none |
| `HandlerSpec.FirstOfRequest` | src/modules/perl/modperl_handler.c:406-470 | a request starts with the configured lists; its first push in a directory or server phase copies the configured list and extends the copy, its first set replaces it, and in any other phase both change nothing |
| `HandlerSpec.AtStartup` | src/modules/perl/modperl_handler.c:406-470 | without a request a push extends, and a set replaces, the configured list of any phase |
| `HandlerSpec.RequestLeavesConfiguration` | src/modules/perl/modperl_handler.c:406-470 | corollary for the lists: no sequence of pushes and sets of a request changes the configured ones; that the arrays behind them are not shared is what HandlerStack proves |
| `HandlerSpec.RunLeavesConfiguration` | src/modules/perl/modperl_callback.c:261-356 | the same for those that the handlers of a running phase make |
| `HandlerSpec.RunsTheGrowingList` | src/modules/perl/modperl_callback.c:261-356 | with pushes only, even onto the running phase, the handlers run are the list as it is in the end, in index order: all of it unless a final status came first |
| `HandlerSpec.FirstAnswerEnds` | src/modules/perl/modperl_callback.c:311-335 | RUN_FIRST: all callbacks before the last declined; the run is over exactly if the last did not, or the list is used up; it returns OK, DECLINED if all declined, or the error, which is 0 after an exit |
| `HandlerSpec.ErrorEnds` | src/modules/perl/modperl_callback.c:271-310 | RUN_ALL: all callbacks before the last answered OK, or DECLINED where that is allowed; the run is over exactly if the last answered anything else, or the list is used up; it returns the last status, or the error, which is 0 after an exit |
| `HandlerSpec.NothingEnds` | src/modules/perl/modperl_callback.c:336-343 | VOID: the run is over at the end of the list only, with the last status |
| `HandlerSpec.NothingRun` | src/modules/perl/modperl_callback.c:167-261 | no list returns DECLINED, an empty one OK |
| `HandlerStack.Lookup` | src/modules/perl/modperl_handler.c:370-470 | the slot in force: the request's in a directory or server phase, else the configured one, made if a push or set finds none, with a copy of the configured list for a push, emptied for a set; too late exactly for a modification at request time of a phase that requests have no lists for |
| `HandlerStack.AddHandlers` | src/modules/perl/modperl_handler.c:601-633 | too late, and no change, exactly at request time in a phase that requests have no lists for; otherwise the list pushed onto or set is as specified, and at request time no configured or shared array changes |
| `HandlerStack.Judge` | src/modules/perl/modperl_callback.c:261-343 | RUN_FIRST ends at any status but DECLINED, RUN_ALL at any but OK, and DECLINED where that is allowed, VOID never; the status is returned as it is, but 0 for an error that comes from an exit |
| `HandlerStack.RunHandlers` | src/modules/perl/modperl_callback.c:167-364 | each callback is the handler at its index in the list of its time; the run ends exactly at the first final status or at the end of the list, with the right status; arrays that are not the request's own never change |

## Left out

- Liveness of blocked pops: a woken thread only tests again and does not grow, so whether it goes on depends on the spare settings.
- PerlInterpScope handler: the nested selection through `rcfg->interp` and the inner putback share one flag, so exclusive loans are no invariant there. The non-threaded MPM, which always uses the parent, is left out with it, and so is `modperl_interp_pool_select`.
- A selection from a pool whose userdata cleanup has already run: the stale pointer in a dying pool is not modelled.
- Several interpreter pools, one per virtual host: there is one set of interpreters.
- `modperl_handler_array_merge`: it pushes an added handler once per unequal base entry, so it is no union.
- Resolving and duplicating handlers before the call, and the arguments they get.
- A load factor for the pointer table, and its reuse after clear.
- FilterStreams.CopyStream: leaves out FLUSH buckets and failing passes; a read may answer nothing at a FLUSH, which ends the usual loop. FLUSH buckets are in the reader's own properties.
- FilterStreams.CopyBrigade: the same for one brigade.
- The header parser of httpd behind the CGI scan, and the redirect it can cause: their outcome is a parameter.
- InterpPool.EveryRunMatches: a selection that waited looks again when it is woken, and the code does not; the pools it looks in are those of its own thread, so that it finds what it found before.
- When the write buffer of a filter is allocated: it is there from the start.
- What a handler makes of `seen_eos`: any change of the flags at any read.
- Bucket deletion, setaside and brigade memory.
- Flag words are sets of bit positions; integers do not wrap around; symbol names hold no NUL.
- Grow and shrink hooks of the item pool: the destroy hook is taken to be set, and the pool's items are numbered in the order of their growth, so that an address used again is another item.
- Perl cleanup callbacks that themselves destroy pools while a pool is being destroyed, and an object for the global pool.
- A Perl interpreter cloned with pool objects in it, which the source itself declares broken.
- Mgv.AsString: writes nothing where the code writes in front of its buffer; what that destroys is not modelled.
- AprPool.Perl.Clear: does nothing where the code follows an address at which no pool lives; what that does is not modelled.
- AprPool.Perl.Create: creates nothing in the same case.
- Tipool.Pool.PutbackNode: leaves out a node that is on the idle list already; what that does to the list is `TipoolList.PrependListed`, and what the pool does with a ring is not modelled.
- Options.NestAgainstReplay: leaves out nests in which a container takes the marker off; such a container counts alone (`Options.UnmarkedForgets`).
- Options.NestIsReplay: the same.
- Perl and httpd glue: magic, tie, taint, %ENV, PerlIO, CORE::GLOBAL, module loading, the XS wrappers over APR and httpd, tracing, and start and exit.
