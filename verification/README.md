# libevent 2.0.22: a verified model of its buffers, queues and codecs

Dafny models of seven parts of the libevent 2.0.22 that is vendored in this
repository, each proved against a plain reference: a byte queue, a map, the
interest of registered events, the names that were given, one timer heap. Code that
updates fields in place is modelled by classes and loops; what is promised of it is
stated on sequences, maps and multisets.

`dafny verify dfyconfig.toml` checks the whole project.

| files | part |
|---|---|
| `Bytes`, `Chain`, `EvBuffer`, `EvBufferRuns` | evbuffers: chains of chunks, the slot `last_with_datap`, and whole runs over two buffers |
| `EvReserve`, `Search` | reserve and commit; positions, search, ends of lines |
| `EvMap`, `EvMapRuns` | fd map, changelist, epoll backend, and an abstract kernel |
| `DnsNames`, `DnsCompress`, `DnsResponse` | reading and writing compressed names (sections 3.1 and 4.1.4 of RFC 1035), and whole replies of the DNS server |
| `DnsRequestLists`, `DnsRequests` | the resolver's requests in flight and waiting, and its name servers |
| `EventLists`, `EventTimers`, `EventBase` | active queues, timer heap, common timeouts, flags and counts, the loop |
| `Buckets`, `HashTable` | the hash table with its two ways to grow |
| `RateLimit`, `RateGroups` | token buckets and the suspending and waking of what they limit, alone and in groups |
| `Tagging`, `TagStream` | tagged data: nibble integers, 7-bit tags, marshalling |

## Main results

* Any run of add, prepend, drain, remove, pullup, add_buffer, prepend_buffer,
  remove_buffer and freezing over two buffers gives what two byte queues give, loses
  and copies no byte, and keeps the documented invariant (`EvBufferRuns.Calls`,
  `RunConserves`, `PipeKeepsOrder`).
* After any run of adds and deletes the kernel watches what it would watch if every
  change had been told at once, which is what the registered events want
  (`EvMapRuns.Compare`).
* `name_parse` accepts exactly the names that end and fit: its limit on jumps rejects
  none of them (`DnsNames.NameParse`, `JumpsAreFew`). A compressed name reads back as
  itself exactly when it has no empty label (`DnsCompress.NameRoundTrip`), also for a
  reader that knows nothing but lengths up to 63 and pointers from 192 on
  (`StrictlyWritten`), and a reply whose truncated bit is clear holds all that was asked
  of it, each number big-endian (`DnsResponse.WholeReply`, `FormatResponse`).
* Common timeouts and the heap together do what one heap would do
  (`EventBases.EventBase.FireDue`). Every run of the event loop is a chain of rounds in
  which events become ready, timers fire and callbacks run, each step as its relation
  says (`EventBases.EventBase.Loop`); whenever a callback starts it is that of the head
  of its queue, nothing more urgent is active, and once one of a user has run only its
  priority is served in that round (`EventBases.UrgentFirst`). An event fires at the time
  it was added for and not before (`EventBases.AddAndWait`), and one that persists stays
  registered however often its callback runs (`EventBases.StaysRegistered`).
* The hash table answers every run like a finite map, whichever way it grows
  (`HashTable.Run`).
* A direction that is suspended for bandwidth, and the members that a group holds, are
  let go exactly when the ticks that count have filled the bucket, for any times of
  firing (`RateLimit.Bufferevent.WakeUp`, `RateGroups.Group.WakeUp`, `RateLimit.BelowIff`).
  In every run an exhausted bucket suspends exactly until a limit wraps around, which none
  does unless bytes are given back (`RateLimit.RunKeeps`, `NextExhausts`); without
  contention exactly the members of a suspended group are held
  (`RateGroups.GroupKeeps`); spending is bounded by the rate however the tick count wraps
  (`RateLimit.SpendingIsBounded`).
* In every run of the resolver, with sending that works, waits or fails, the requests
  there are those that were submitted and not finished since: none is lost or there
  twice, and no more are in flight than the largest cap allowed (`DnsRequests.Run`).
  Nothing waits that could go out, but for two kinds of steps (`DnsRequests.StaysQuiet`).
* Tagged items come back in order, and exactly those whose length fits an int, but for
  strings, which must be a byte shorter (`TagStream.SendAndReceive`, `RawBack`).

## Where the code does not do what it is for

Each of these is stated with its exact condition and with an input that shows it.

* `evbuffer_add` writes to the last chain without moving `last_with_datap`
  (buffer.c:1561), and `evbuffer_chain_insert` does not move it when it replaces empty
  chains (buffer.c:303-308). `AddTracks` says when the slot is still right afterwards,
  `AddAborts` when an assertion fails, and `EvBuffers.AddFails` gives buffers of both
  kinds. Even adding nothing behind a read-only chain prepares for that
  (`EvBuffers.NothingLoses`).
* `evbuffer_prepend` counts too few bytes as added when it makes a new chain
  (buffer.c:1708): `EvBuffers.PrependCounts` says when the number is right, and
  `PrependMiscounts` gives a buffer. `PrependTracks` says when the slot stays right, and
  `PrependLoses` gives a buffer for which it does not.
* `evbuffer_remove_buffer` loses the slot of its source when it passes empty chains only,
  and that of its target when there is a gap in what it moves; a rest that does not fit
  then fails an assertion (`EvBuffers.EvBuffer.RemoveBuffer`, `RemoveLoses`,
  `RemoveAborts`; `RemoveKeeps` says when nothing goes wrong).
* After `evbuffer_reserve_space` with one vector, `evbuffer_commit_space` fails exactly
  when a partly filled chain was passed over for the empty one behind it and that is
  not the last (`PassesOver`); `EvReserves.PassedOver` gives such a buffer.
* `evbuffer_commit_space` to the last chain only loses track of the last chain with
  data when an empty chain stands before it (`EvReserves.CommitSpace`, `CommitLoses`).
* `evbuffer_strspn` leaves a position at the start of the last chain when it has counted
  to its end (`Searches.Strspn`, `StrspnLoses`).
* `name_parse` takes the reserved label types, bytes from 64 to 191, for pointers
  (`DnsNames.ReservedIsPointer`).
* A name with an empty label is written so that the reader stops there
  (`DnsCompress.CanonText`, `EmptyLabelCuts`), and the final zero byte of a name goes
  behind the buffer when its last label fills it (`DnsCompress.EndsBehind`, `OneBehind`).
* Tagged data of 2 GiB and more does not come back, nor does a string that is a byte
  shorter (`TagStream.RawBack`, `ConsumedBack`, `TooLong`, `StringTooLong`).
* When ticks become longer or the clock is set back, the last update lies ahead, and what
  is suspended stays so until the clock has caught up (`RateLimit.ConfiguredSticks`,
  `BehindWaits`, `LongerTick`, `StaysStuck`; `RateGroups.GroupSetCfgSticks`,
  `GroupStaysStuck`).
* `HT_REPLACE` of an element by itself counts it twice (`HashTable.Table.Replace`,
  `ReplaceTwice`).
* The division-based bucket update is the plain one only while the bucket is not
  overfull, or so many ticks went by that they fill it past 64 bits
  (`RateLimit.RefillIsCredit`). The limit of an overfull bucket may wrap around and leave
  it empty with nothing suspended (`RateLimit.WrapsEmpties`, `RunOverflows`).
* A group whose minimal share is zero is woken with an empty bucket
  (`RateGroups.GroupNextExhausts`, `WokenEmpty`).
* Rescheduling a timeout also takes back a pending activation for I/O exactly when it
  came together with one for the timeout (`EventTimers.ReadyIsKept`,
  `EventBases.LoseReady`).
* Raising the cap on requests in flight, and adding the first server, send none of those
  that wait: `DnsRequests.StepQuiet` says when some are left that could go out, and
  `DnsRequests.RaisedCap` leaves one behind.

## Model

| member | source | states |
|---|---|---|
| Chains.NewChain | libevent-2.0.22-stable/buffer.c:155-189 | a new chain has at least the size asked for, is empty and writable, and there is none exactly for sizes beyond the limit; with its header it takes 1024 bytes at least and less than twice what is needed |
| EvBuffers.EvBuffer.ChainInsert | libevent-2.0.22-stable/buffer.c:291-319 | the new chain replaces the empty chains from the first one on, the contents grow by its data, the slot moves only if nothing was replaced, and the assertion fails exactly if one of the chains to free has data |
| EvBuffers.EvBuffer.Add | libevent-2.0.22-stable/buffer.c:1544-1634 | appends exactly the data; when it is refused, when it fails an assertion and when the slot still finds the last chain with data, each as an if and only if, also for a slot before a gap; in the tight state it always succeeds and keeps it |
| EvBuffers.AddFails | libevent-2.0.22-stable/buffer.c:1561-1600 | buffers that keep the documented invariant for which an add loses the slot, or fails an assertion |
| EvBuffers.NothingLoses | libevent-2.0.22-stable/buffer.c:1566-1625 | a read-only chain behind which nothing is added as an empty chain, so that the next byte loses the slot |
| EvBuffers.SpillShape | libevent-2.0.22-stable/buffer.c:291-319 | for every list of chains, when putting the rest into a new chain keeps the slot and when it meets chains that are not empty |
| EvBuffers.EvBuffer.Prepend | libevent-2.0.22-stable/buffer.c:1637-1716 | prepends exactly the data; how many bytes it counts; the slot stays right exactly unless the first chain is read-only, empty and the slot's |
| EvBuffers.PrependShape | libevent-2.0.22-stable/buffer.c:1693-1702 | a chain in front of the list moves the slot by one, and when that is the last chain with data |
| EvBuffers.PrependCounts | libevent-2.0.22-stable/buffer.c:1637-1716 | the number of bytes counted is right exactly if all of them fit before the first chain, or it is read-only and begins that far in |
| EvBuffers.PrependMiscounts | libevent-2.0.22-stable/buffer.c:1704-1708 | a buffer for which ten bytes are put in front and one is counted |
| EvBuffers.PrependLoses | libevent-2.0.22-stable/buffer.c:1671-1702 | a buffer whose slot is lost when bytes are put in front |
| EvBuffers.EvBuffer.Drain | libevent-2.0.22-stable/buffer.c:959-1026 | drops exactly the first bytes, counts them, and keeps both the documented and the tight invariant; refused exactly when frozen and not empty |
| EvBuffers.DrainContent | libevent-2.0.22-stable/buffer.c:990-1016 | what is left after whole chains and part of the next are gone is the contents without their first bytes |
| EvBuffers.EvBuffer.CopyOut | libevent-2.0.22-stable/buffer.c:1044-1088 | the first bytes of the contents, as many as there are up to the number asked for, and nothing changes |
| EvBuffers.EvBuffer.Remove | libevent-2.0.22-stable/buffer.c:1030-1041 | returns the first bytes and leaves exactly the others |
| EvBuffers.EvBuffer.AddBuffer | libevent-2.0.22-stable/buffer.c:867-910 | the contents of the second buffer follow those of the first, the second is empty, and the invariants are kept |
| EvBuffers.EvBuffer.PrependBuffer | libevent-2.0.22-stable/buffer.c:913-956 | the contents of the second buffer come before those of the first, the second is empty, and the invariants are kept |
| EvBuffers.EvBuffer.RemoveBuffer | libevent-2.0.22-stable/buffer.c:1094-1181 | for any two buffers: moves exactly the first bytes from the front of one buffer to the end of the other, as many as there are; when each slot is right afterwards and when an assertion fails, as if and only if |
| EvBuffers.RemoveKeeps | libevent-2.0.22-stable/buffer.c:1094-1181 | both slots stay right and no assertion fails if no empty chain precedes data in the source and the slot of the target is at its end |
| EvBuffers.RemoveLoses | libevent-2.0.22-stable/buffer.c:1121-1134 | a buffer whose slot is lost when its first byte is moved |
| EvBuffers.RemoveAborts | libevent-2.0.22-stable/buffer.c:1136-1158 | a buffer for which moving three bytes to an empty one fails an assertion |
| EvBuffers.EvBuffer.Receive | libevent-2.0.22-stable/buffer.c:1136-1154 | the chains follow what is left of the target, and its slot goes on to the end of the data or to a gap |
| EvBuffers.EvBuffer.AdvanceLastWithData | libevent-2.0.22-stable/buffer.c:654-667 | the slot goes on over chains with data and stops before an empty one |
| EvBuffers.EvBuffer.FreeTrailing | libevent-2.0.22-stable/buffer.c:273-285 | only empty chains behind the slot go, and the contents stay |
| EvBuffers.EvBuffer.Pullup | libevent-2.0.22-stable/buffer.c:1184-1293 | contents unchanged, the first bytes in one chain afterwards, the bytes returned are those, and the invariants are kept |
| EvBuffers.EvBuffer.PullInto | libevent-2.0.22-stable/buffer.c:1224-1286 | the chain that is written to is never read-only, although its flag is not tested, and ends up holding the first bytes |
| EvBuffers.PullContent | libevent-2.0.22-stable/buffer.c:1253-1277 | putting whole chains and part of the next into one chain changes no content |
| EvBuffers.PullShape | libevent-2.0.22-stable/buffer.c:1277-1286 | where the slot is after chains were pulled into one |
| EvBufferRuns.CallOne | libevent-2.0.22-stable/buffer.c:959-1716 | a call on one buffer does to its view what it does to a byte queue |
| EvBufferRuns.CallTwo | libevent-2.0.22-stable/buffer.c:867-1181 | a call that moves bytes between buffers does to both views what it does to two byte queues |
| EvBufferRuns.Calls | libevent-2.0.22-stable/buffer.c:834-1716 | every run over two buffers gives the contents, the removed bytes and the freezing that two byte queues give, and keeps the invariants |
| EvBufferRuns.RunConserves | libevent-2.0.22-stable/buffer.c:834-1716 | over any run the bytes held and taken out are, as a multiset, those held before and those accepted |
| EvBufferRuns.PipeKeepsOrder | libevent-2.0.22-stable/buffer.c:834-1716 | when bytes enter one end and leave the other, what was taken, what the second buffer holds and what the first holds is the input in order |
| EvReserves.InsertNew | libevent-2.0.22-stable/buffer.c:322-329 | the new empty chain is the last and the first or second from the slot on; contents and slot stay |
| EvReserves.ExpandSingle | libevent-2.0.22-stable/buffer.c:1745-1853 | one chain with room for the size, contents unchanged; a commit finds it exactly unless a partly filled chain was passed over |
| EvReserves.CountRoom | libevent-2.0.22-stable/buffer.c:1883-1903 | the room counted is what the first chains with room offer, and contents and lengths stay |
| EvReserves.ExpandFast | libevent-2.0.22-stable/buffer.c:1858-1965 | afterwards the first n chains with room offer at least the size; contents and invariant stay |
| EvReserves.SetupVecs | libevent-2.0.22-stable/buffer.c:2032-2065 | the vectors are the room of consecutive chains, at least the size in all, and not one more than needed |
| EvReserves.ReserveSpace | libevent-2.0.22-stable/buffer.c:621-651 | at least the size in at most n vectors, each of which begins behind the data of its chain and ends where its buffer ends; contents unchanged; a commit finds them but for one case, which is named |
| EvReserves.PassedOver | libevent-2.0.22-stable/buffer.c:1800-1816 | a buffer for which that case comes about |
| EvReserves.TakeOne | libevent-2.0.22-stable/buffer.c:719-726 | taking one more vector appends its bytes and moves the slot to its chain if there are any |
| EvReserves.CommitSpace | libevent-2.0.22-stable/buffer.c:670-737 | all vectors or none, with the exact condition; the contents grow by exactly the bytes in the vectors; the invariant is kept exactly unless an empty chain stands before the only one committed to |
| EvReserves.CommitLoses | libevent-2.0.22-stable/buffer.c:681-692 | a buffer and a vector for which a commit loses the last chain with data |
| EvReserves.ReserveWriteCommit | libevent-2.0.22-stable/buffer.c:621-737 | reserving, writing and committing appends the parts in order, and fails although all fits exactly in that one case |
| Searches.PtrInside | libevent-2.0.22-stable/buffer.c:2450-2494 | a chain and an offset that denote a position see the contents from there on |
| Searches.PtrSet | libevent-2.0.22-stable/buffer.c:2450-2494 | succeeds exactly for positions inside the buffer, and then chain and offset denote the position; a sum that overflows leaves the position as it was |
| Searches.PtrMemcmp | libevent-2.0.22-stable/buffer.c:2501-2534 | the sign of the first byte that differs from the position on, across chains, and -1 when there are not so many; zero exactly where they occur |
| Searches.SearchRange | libevent-2.0.22-stable/buffer.c:2543-2605 | the least occurrence at or after the start that ends by the end, with chain and offset that denote it; -1 exactly when every occurrence ends later or there is none |
| Searches.FindEolChar | libevent-2.0.22-stable/buffer.c:1328-1352 | the scan by chunks finds what a plain scan finds |
| Searches.FindChar | libevent-2.0.22-stable/buffer.c:1306-1374 | the first line feed, or line feed or carriage return, across chains |
| Searches.Strspn | libevent-2.0.22-stable/buffer.c:1377-1413 | how many bytes in a row end lines, across chains; -1 without a chain; when the position afterwards is right |
| Searches.StrspnLoses | libevent-2.0.22-stable/buffer.c:1401-1408 | one chain for which the position afterwards is wrong |
| Searches.SearchCrlf | libevent-2.0.22-stable/buffer.c:1460-1477 | the first line feed or pair; a carriage return alone is passed over |
| Searches.SearchEol | libevent-2.0.22-stable/buffer.c:1426-1498 | for each style the least line end at or after the start: in bytes, 13 and 10 for a strict pair, 10 for a line feed, either for a pair, and for any end a run of both that cannot go on; no byte before it begins one; and -1 exactly when there is none |
| Searches.Readln | libevent-2.0.22-stable/buffer.c:1501-1537 | the old contents are the line, its end and the new contents, the end being these bytes for each style and the first there is; nothing changes when there is no whole line |
| EvMap.EventBase.Ctl | libevent-2.0.22-stable/epoll.c:174-330 | what the kernel does with an add, a change and a delete of interest |
| EvMap.EventBase.ApplyOneChange | libevent-2.0.22-stable/epoll.c:174-330 | the kernel watches the target of the change afterwards whatever it watched before, and no other fd is touched |
| EvMap.EventBase.ApplyChanges | libevent-2.0.22-stable/epoll.c:333-349 | every fd with a change is watched for its target, and every other as before |
| EvMap.EventBase.MakeSpace | libevent-2.0.22-stable/evmap.c:202-223 | the table has an entry for the slot and keeps all it had |
| EvMap.EventBase.GetOrConstruct | libevent-2.0.22-stable/evmap.c:616-644 | the change for the fd, a new one only if there was none; `idxplus1` and the changes stay inverses |
| EvMap.EventBase.ChangelistAdd | libevent-2.0.22-stable/evmap.c:647-675 | only the entry of the fd changes, and an add replaces a delete |
| EvMap.EventBase.ChangelistDel | libevent-2.0.22-stable/evmap.c:678-726 | only the entry of the fd changes, and a delete takes back an add unless the event was set before |
| EvMap.EventBase.RemoveAll | libevent-2.0.22-stable/evmap.c:560-578 | no change is left, no fd refers to one, and nothing else of the table differs |
| EvMap.EventBase.Tell | libevent-2.0.22-stable/evmap.c:315-324 | queued or told at once, the interest aimed at is the old one with the events added or taken away |
| EvMap.SettleQueued | libevent-2.0.22-stable/evmap.c:616-726 | a queued change keeps every entry in step: counters, targets and kernel |
| EvMap.SettleTold | libevent-2.0.22-stable/epoll.c:352-383 | a change told at once keeps every entry in step |
| EvMap.EventBase.IoAdd | libevent-2.0.22-stable/evmap.c:263-331 | the event is appended to its fd; the result is -1 exactly if it reads and 0xffff events of the fd do already, or the same for writing, and 1 exactly if it is the first to read or to write; all invariants hold |
| EvMap.EventBase.IoDel | libevent-2.0.22-stable/evmap.c:336-387 | exactly one occurrence of the event is gone from its fd; the result is 1 exactly if no other reads, or writes, as it did; all invariants hold |
| EvMap.EventBase.Dispatch | libevent-2.0.22-stable/epoll.c:386-457 | no change is left, and every fd not closed behind the library's back is watched for what its counters say |
| EvMap.Dispatched | libevent-2.0.22-stable/epoll.c:333-349 | applying all changes and unlinking them brings every entry in step with the kernel |
| EvMapRuns.WantedByCount | libevent-2.0.22-stable/evmap.c:263-387 | the counters are positive exactly when an event wants reading or writing |
| EvMapRuns.Calls | libevent-2.0.22-stable/evmap.c:263-387 | over any run the registered events are those added and not deleted |
| EvMapRuns.KernelIsWanted | libevent-2.0.22-stable/evmap.c:263-387 | with no change queued the kernel watches exactly what the registered events want |
| EvMapRuns.Compare | libevent-2.0.22-stable/epoll.c:333-383 | for any run, coalesced changes and immediate ones leave the kernel the same: what the events want |
| EvMapRuns.Reopen | libevent-2.0.22-stable/epoll.c:240-310 | an fd that was closed and opened again is watched after a delete, an add and a dispatch |
| DnsNames.EndsOnce | libevent-2.0.22-stable/evdns.c:944-997 | a name ends after one number of steps only |
| DnsNames.JumpsAreFew | libevent-2.0.22-stable/evdns.c:966-977 | a name that ends makes no more jumps than the packet has bytes, by pigeonhole on the targets |
| DnsNames.StrictIsRead | libevent-2.0.22-stable/evdns.c:944-997 | whatever a reader finds that takes lengths up to 63 and pointers from 192 on only, the parser finds too |
| DnsNames.ReservedIsPointer | libevent-2.0.22-stable/evdns.c:966-977 | every byte from 64 on is taken for a pointer by its lower six bits and the next byte, also those below 192, at which such a reader stops |
| DnsNames.NameParse | libevent-2.0.22-stable/evdns.c:944-997 | on every packet it ends; it returns the text and the end of the name at the index exactly when there is one that is shorter than the output |
| DnsNames.WalkLoops | libevent-2.0.22-stable/evdns.c:973-976 | when the limit on jumps is passed, no name ends there |
| DnsCompress.LabelTable.GetPos | libevent-2.0.22-stable/evdns.c:1546-1554 | the position of the first entry for the name, if any |
| DnsCompress.LabelTable.Add | libevent-2.0.22-stable/evdns.c:1558-1572 | the entry is the last one; a full table stays as it is |
| DnsCompress.DnsnameToLabels | libevent-2.0.22-stable/evdns.c:1586-1649 | the bytes before the index stay; bytes, index, table and error are those of the encoding defined on values, and without a table those of an empty one; a strict reader finds the labels of the name at the index |
| DnsCompress.EndsExtend | libevent-2.0.22-stable/evdns.c:944-997 | bytes behind a packet change no name that ends in it |
| DnsCompress.Resolve | libevent-2.0.22-stable/evdns.c:1610-1640 | once what follows the written labels is known, each of them starts a name |
| DnsCompress.EndWithPointer | libevent-2.0.22-stable/evdns.c:1612-1615 | ending a name by a pointer makes it and all new table entries read as their names |
| DnsCompress.EndWithZero | libevent-2.0.22-stable/evdns.c:1642-1646 | so does ending it by a zero byte, or by an empty last label |
| DnsCompress.EncodeRest | libevent-2.0.22-stable/evdns.c:1610-1646 | in any state of the loop, the rest is written so that the name and every entry of the table reads back |
| DnsCompress.NameIsWritten | libevent-2.0.22-stable/evdns.c:1586-1649 | behind any packet for which the table is right, an encoded name reads back and the table is right |
| DnsCompress.StrictlyWritten | libevent-2.0.22-stable/evdns.c:1610-1649 | such a reader finds every name that is written, with the same labels and the same end |
| DnsCompress.EncodeFits | libevent-2.0.22-stable/evdns.c:1607-1640 | names of up to 255 bytes whose labels are short are written when there is room for them and two bytes, in no more than that; each error only for its cause |
| DnsCompress.EndsBehind | libevent-2.0.22-stable/evdns.c:1642-1646 | the name ends one byte behind the buffer exactly when no ending of it is in the table, its last label is not empty, and it fills the buffer |
| DnsCompress.OneBehind | libevent-2.0.22-stable/evdns.c:1642-1646 | a name that ends one byte behind the buffer |
| DnsCompress.CanonText | libevent-2.0.22-stable/evdns.c:1616-1645 | the text that is read back is the name exactly when it has no empty label or is empty, and shorter otherwise |
| DnsCompress.EmptyLabelCuts | libevent-2.0.22-stable/evdns.c:1616-1645 | a name that is cut at its empty label |
| DnsCompress.NameRoundTrip | libevent-2.0.22-stable/evdns.c:1586-1649 | a written name parses to itself and its end exactly when it has no empty label or is empty, whatever follows; a strict reader finds its labels |
| DnsResponse.AddNameDataLaid | libevent-2.0.22-stable/evdns.c:1933-1943 | a name as data stands behind its own length, and the table stays right |
| DnsResponse.AddItemLaid | libevent-2.0.22-stable/evdns.c:1924-1952 | a record that was written stands where it should: name, and read as big-endian numbers type, class, time to live and length, and the data |
| DnsResponse.AddItemsLaid | libevent-2.0.22-stable/evdns.c:1915-1955 | all records of a section stand one behind the other |
| DnsResponse.ComposeLaid | libevent-2.0.22-stable/evdns.c:1877-1955 | a reply that was written as a whole is header, questions and three sections in order, with the flags and true counts in the header |
| DnsResponse.ComposeFails | libevent-2.0.22-stable/evdns.c:1903-1913 | the only errors are -1, for a label that is too long, and -2, for a question that does not fit |
| DnsResponse.WriteNameData | libevent-2.0.22-stable/evdns.c:1933-1943 | writing the length afterwards gives the same bytes as knowing it before |
| DnsResponse.WriteItem | libevent-2.0.22-stable/evdns.c:1924-1952 | the buffer mirrors the record defined on values, or is as before the piece that did not fit |
| DnsResponse.FormatResponse | libevent-2.0.22-stable/evdns.c:1877-1971 | the reply is the composed one if it has at most 512 bytes, and otherwise 512 bytes that start like it with the truncated bit set; either way its first bytes, read as big-endian numbers, are the transaction id, the response bit, the code and the four counts; if the bit is clear everything is there in order; errors for bad codes and questions |
| DnsResponse.HeaderMeans | libevent-2.0.22-stable/evdns.c:1893-1901 | transaction id, response bit, code and the four counts, each read at its own place |
| DnsResponse.FlagBits | libevent-2.0.22-stable/evdns.c:1892-1897 | the flags have the response bit set, and the code in the lowest bits if the caller left them clear |
| DnsResponse.WholeReply | libevent-2.0.22-stable/evdns.c:1954-1958 | a reply whose truncated bit is clear holds everything, in order |
| DnsResponse.NameReadsBack | libevent-2.0.22-stable/evdns.c:944-997 | every name of a reply parses to the name that was given and to its end, and a strict reader finds the same |
| DnsRequests.DnsBase.NameserverPick | libevent-2.0.22-stable/evdns.c:1321-1353 | the first server that is up from the head on, which then is the last in turn, the others following in order; with none up the next one; none exactly when there is none |
| DnsRequests.DnsBase.Find | libevent-2.0.22-stable/evdns.c:479-493 | the request with the id if any is in flight, although one bucket only is searched |
| DnsRequests.DnsBase.TransactionIdPick | libevent-2.0.22-stable/evdns.c:1304-1315 | an id below 0xffff that no request in flight has, which the cap makes sure exists |
| DnsRequests.DnsBase.InsertInflight | libevent-2.0.22-stable/evdns.c:2671-2684 | one request more, in its bucket, with ids still unique |
| DnsRequests.DnsBase.Transmit | libevent-2.0.22-stable/evdns.c:2190-2260 | for each outcome of sending: the flag and the number of tries of the request, and that a server that cannot be sent to counts as failed; every other request keeps all but its server |
| DnsRequests.DnsBase.TransmitAll | libevent-2.0.22-stable/evdns.c:2323-2341 | sending again whatever could not be sent keeps every request in its place |
| DnsRequests.DnsBase.Pump | libevent-2.0.22-stable/evdns.c:734-759 | the first requests that wait go out in order, each sent once, whatever becomes of the sending, and the others wait as they did; never more in flight than the cap or than before; it stops only when the cap is reached, none wait or there is no server |
| DnsRequests.DnsBase.Submit | libevent-2.0.22-stable/evdns.c:2697-2788 | one request more, in flight exactly when the cap allows and there is a server, and then sent once or to be sent again; otherwise last of those that wait, untried and at no server |
| DnsRequests.DnsBase.FinishInflight | libevent-2.0.22-stable/evdns.c:648-697 | exactly that request is gone, and others that wait take its place |
| DnsRequests.DnsBase.FinishWaiting | libevent-2.0.22-stable/evdns.c:648-697 | exactly that request is gone from those that wait |
| DnsRequests.DnsBase.Cancel | libevent-2.0.22-stable/evdns.c:2792-2824 | whether it has a server tells in which list a request is |
| DnsRequests.DnsBase.SetMaxInflight | libevent-2.0.22-stable/evdns.c:3330-3358 | the same requests are in flight, each in its new bucket; requests that could go out are left waiting exactly when there is a server, some wait and the new cap is above the number in flight |
| DnsRequests.DnsBase.ClearNameserversAndSuspend | libevent-2.0.22-stable/evdns.c:2374-2436 | no request is lost; those in flight wait before the others, the last of them first, untried, without a transaction id, at no server and not to be sent again |
| DnsRequestLists.SuspendedTag | libevent-2.0.22-stable/evdns.c:2405-2430 | suspending keeps every request, once |
| DnsRequests.DnsBase.NameserverFailed | libevent-2.0.22-stable/evdns.c:557-614 | the server is down, requests not sent yet are no longer at it, and nothing else of any request differs |
| DnsRequests.DnsBase.NameserverUp | libevent-2.0.22-stable/evdns.c:617-635 | the server counts as good again |
| DnsRequests.DnsBase.AddNameserver | libevent-2.0.22-stable/evdns.c:2463-2542 | a server not known yet goes behind the first and counts as good; requests that could go out are left waiting exactly when it is the first |
| DnsRequests.DnsBase.Timeout | libevent-2.0.22-stable/evdns.c:2147-2181 | the request is given up after enough tries, and otherwise is sent to a server that is up if one is; its number of tries and its flag for each outcome of sending |
| DnsRequests.Run | libevent-2.0.22-stable/evdns.c:648-2788 | in every run each state follows from the one before by its operation, with what waits, how many are in flight and which servers there are, and is right; the requests there are exactly those submitted and not finished since, and no more are in flight than the largest cap so far |
| DnsRequests.NoneLost | libevent-2.0.22-stable/evdns.c:648-2788 | at every point of a run a request is there if and only if it was submitted and none of the steps since has finished it |
| DnsRequests.FinishedOne | libevent-2.0.22-stable/evdns.c:648-697 | a step finishes at most one request, and only a reply, a cancel or a timeout does |
| DnsRequests.NeverAbove | libevent-2.0.22-stable/evdns.c:734-759 | at every point no more are in flight than the largest cap there was |
| DnsRequests.StepQuiet | libevent-2.0.22-stable/evdns.c:734-759 | a step leaves something waiting that could go out if and only if it raises the cap above the number in flight or adds the first server |
| DnsRequests.StaysQuiet | libevent-2.0.22-stable/evdns.c:734-759 | in every run without such a step nothing ever waits that could go out |
| DnsRequests.RaisedCap | libevent-2.0.22-stable/evdns.c:3330-3358 | a resolver that leaves a request waiting although the raised cap would let it out |
| EventLists.ListsInsert | libevent-2.0.22-stable/event.c:2591-2630 | a list keeps holding exactly the events with its flag when one is added |
| EventLists.ListsRemove | libevent-2.0.22-stable/event.c:2521-2557 | so it does when one is removed |
| EventLists.MinusIs | libevent-2.0.22-stable/event.c:2521-2557 | only the one event goes, and the others stay in their order |
| EventLists.TotalUpdate | libevent-2.0.22-stable/event.c:2531-2534 | how the number of memberships changes with one event |
| EventTimers.KeptInsert | libevent-2.0.22-stable/event.c:2591-2630 | setting a flag and adding to the list it is about keeps every list exact |
| EventTimers.KeptRemove | libevent-2.0.22-stable/event.c:2521-2557 | clearing a flag and removing from the list it is about keeps every list exact |
| EventBases.EventBase.InsertActive | libevent-2.0.22-stable/event.c:2591-2630 | the event is last in the queue of its priority; both counts stay right |
| EventBases.EventBase.InsertTimeout | libevent-2.0.22-stable/event.c:2561-2630 | the event is in the heap, or in its queue behind those not due later |
| EventBases.EventBase.RemoveActive | libevent-2.0.22-stable/event.c:2521-2557 | the event is out of the queue of its priority; both counts stay right |
| EventBases.EventBase.RemoveTimeout | libevent-2.0.22-stable/event.c:2521-2557 | the event is out of the heap, or of its queue |
| EventTimers.SortedPlace | libevent-2.0.22-stable/event.c:2561-2588 | the place that is searched from the end keeps a queue sorted |
| EventTimers.FlagsKeep | libevent-2.0.22-stable/event.c:2215-2286 | when an event leaves its queue the timer still comes no later than the head |
| EventTimers.AddKeeps | libevent-2.0.22-stable/event.c:2146-2183 | when an event joins its queue the timer has to be set only if it comes first |
| EventBases.EventBase.DelInternal | libevent-2.0.22-stable/event.c:2215-2286 | the event is not inserted, not active and not timed, and on no list, all others as before, and every other queue is still armed |
| EventBases.EventBase.ActiveNolock | libevent-2.0.22-stable/event.c:2307-2345 | a new activation is last in its queue, a second one only adds its reason, and more urgent ones set event_continue |
| EventBases.EventBase.Schedule | libevent-2.0.22-stable/event.c:1145-1151 | the timer of the queue is set to the time of its head, leaves the active queue it was on, and afterwards every queue is armed |
| EventBases.EventBase.AddInternal | libevent-2.0.22-stable/event.c:2045-2192 | nothing changes exactly when the backend refuses a new event; otherwise the event is registered unless it is active, and with a time it is timed for that, or for so much later than now, its interval is kept if it persists, and a timeout that made it active is taken back; no other event but the timer it leads changes; all invariants hold |
| EventBases.AddedFields | libevent-2.0.22-stable/event.c:2045-2192 | the same field by field, for every add in a run |
| EventBases.AddAndWait | libevent-2.0.22-stable/event.c:2146-2517 | an event that is added for a time later than now is still timed and has not fired before that time, and has fired from then on |
| EventTimers.ReadyIsKept | libevent-2.0.22-stable/event.c:2123-2138 | an event that is active for I/O and added again stays active if and only if it has not timed out as well or no time is given |
| EventBases.LoseReady | libevent-2.0.22-stable/event.c:2123-2138 | a base in which an event that is ready for I/O is not active any more after it was added again |
| EventBases.EventBase.TimeoutProcess | libevent-2.0.22-stable/event.c:2494-2517 | exactly the events of the heap that are due have fired, field by field, each once, in the order of their times, and stand behind what was active |
| EventTimers.FiredOrder | libevent-2.0.22-stable/event.c:2494-2517 | after events have fired each active queue holds those that have not, and behind them those that have, in their order |
| EventBases.EventBase.CommonTimeoutCallback | libevent-2.0.22-stable/event.c:1157-1177 | exactly the due events at the front of the queue have fired, in their order, behind what was active; the rest stays and the queue is armed for it |
| EventTimers.RipeIs | libevent-2.0.22-stable/event.c:1166-1173 | the events that the loop takes are those at the front that are due, up to the first that is not |
| EventTimers.QuietQueue | libevent-2.0.22-stable/event.c:1142-1177 | a queue whose timer is neither active nor due has nothing due |
| EventBases.EventBase.FireDue | libevent-2.0.22-stable/event.c:1142-1177 | together these fire exactly the events that are due, field by field, as one heap of all events would |
| EventBases.EventBase.InitCommonTimeout | libevent-2.0.22-stable/event.c:1182-1253 | a queue for the duration, a new and empty one only if there was none, and none only at 256 |
| EventBases.EventBase.Reschedule | libevent-2.0.22-stable/event.c:1257-1320 | a persistent event is timed for an interval after its time if it had timed out and that has not gone by, and otherwise for an interval after now, in the same queue, unless the backend refuses it |
| EventBases.EventBase.Do | libevent-2.0.22-stable/event.c:2045-2345 | what each call of a callback makes of the events, the active queues, the common queues and the flags of the base; all invariants hold |
| EventBases.DidFields | libevent-2.0.22-stable/event.c:2045-2345 | the same field by field |
| EventBases.DidUrgent | libevent-2.0.22-stable/event.c:2307-2345 | no call makes anything more urgent active without setting event_continue, and at priority 0 none sets it |
| EventBases.StartUrgent | libevent-2.0.22-stable/event.c:1257-1388 | after a whole callback nothing more urgent is active unless event_continue is set, which internal events never do |
| EventBases.EventBase.ProcessQueue | libevent-2.0.22-stable/event.c:1330-1388 | the callbacks that ran are a chain of steps from the old to the new base, each of the head of this queue with nothing more urgent active; when one starts, an event that persists is not active but registered as it was, and timed as it was or for its interval again, and one that does not is on no list; the count is that of events that are not internal; why it stopped |
| EventBases.StartBegins | libevent-2.0.22-stable/event.c:1257-1376 | how every callback begins, field by field: what is left of its event, that no other changes, and for the timer of a queue which events it has fired |
| EventBases.EventBase.ProcessActive | libevent-2.0.22-stable/event.c:1428-1453 | the same over all priorities; nothing is active when the count is zero, and after an event of a user only its priority is served |
| EventBases.EventBase.Loop | libevent-2.0.22-stable/event.c:1555-1656 | over any run, the rounds as a chain from the old to the new base: what became ready, what fired, which callbacks ran, how each began, field by field, and why they stopped; it ends early only when broken or when nothing is left to wait for; all lists, counts and timers are right |
| EventBases.ReadiedFields | libevent-2.0.22-stable/event.c:2307-2345 | what is ready and registered for I/O becomes active, and nothing else |
| EventBases.StaysRegistered | libevent-2.0.22-stable/event.c:1330-1656 | in every run in which no callback deletes an event that persists, is registered and has no time, or gives it one, it stays registered and becomes active in every round in which it is ready |
| EventBases.PrioritiesRise | libevent-2.0.22-stable/event.c:1428-1453 | in one round callbacks run in the order of urgency |
| EventBases.UrgentFirst | libevent-2.0.22-stable/event.c:1428-1453 | in every run, whenever a callback starts nothing more urgent is active, urgency only falls within a round, and an event of a user is followed by its own priority only |
| HashTable.NextPrime | libevent-2.0.22-stable/ht-internal.h:323-327 | the least prime of the list, behind the present one, whose load limit is above the size |
| HashTable.Rehash | libevent-2.0.22-stable/ht-internal.h:328-345 | every element is in its bucket of the new table, and none is lost or copied |
| HashTable.RehashInPlace | libevent-2.0.22-stable/ht-internal.h:346-366 | the same for the table that is made longer in place |
| HashTable.MoveBetween | libevent-2.0.22-stable/ht-internal.h:354-363 | moving an element between buckets keeps all elements |
| HashTable.ScanFinds | libevent-2.0.22-stable/ht-internal.h:139-152 | the bucket of a key holds the element of the map, if there is one, and no other with that key |
| HashTable.Table.Grow | libevent-2.0.22-stable/ht-internal.h:312-371 | the map stays the same either way, and the size is the least prime of the list, behind the present one, whose half is above what is asked for |
| HashTable.Table.Find | libevent-2.0.22-stable/ht-internal.h:155-163 | what the map holds for the key |
| HashTable.Table.Insert | libevent-2.0.22-stable/ht-internal.h:166-178 | the map with the element, and a table that is not overfull unless it is the largest, the same one while it has fewer elements than half its size |
| HashTable.Table.Replace | libevent-2.0.22-stable/ht-internal.h:181-199 | the map with the element and what was there; the count is right exactly unless an element replaces itself |
| HashTable.ReplaceTwice | libevent-2.0.22-stable/ht-internal.h:181-199 | a table with one element whose count is two |
| HashTable.Table.Remove | libevent-2.0.22-stable/ht-internal.h:202-215 | the map without the key and what was there |
| HashTable.Table.Start | libevent-2.0.22-stable/ht-internal.h:246-256 | the first element in the order of iteration |
| HashTable.Table.Next | libevent-2.0.22-stable/ht-internal.h:262-276 | the next element in that order |
| HashTable.Table.NextRmv | libevent-2.0.22-stable/ht-internal.h:277-294 | the element is out of the map and the rest of the iteration is the same |
| HashTable.Table.Foreach | libevent-2.0.22-stable/ht-internal.h:120-123 | iteration visits every element of the map once |
| HashTable.Table.RemoveWhere | libevent-2.0.22-stable/ht-internal.h:277-294 | iteration that removes visits every element once and leaves exactly those not removed |
| HashTable.Table.RepIsBad | libevent-2.0.22-stable/ht-internal.h:384-417 | zero exactly when all it looks for is right |
| HashTable.Table.ValidLooksGood | libevent-2.0.22-stable/ht-internal.h:384-417 | it is zero for every map below the load limit of the last prime, and in all exactly when the table is not overfull |
| HashTable.Run | libevent-2.0.22-stable/ht-internal.h:139-417 | any run of allowed operations answers as a finite map does; the table checks as good if the map is below the load limit of the last prime |
| RateLimit.RefillIsCredit | libevent-2.0.22-stable/bufferevent_ratelim.c:87-105 | the overflow-free form is the minimum of maximum and limit with credit exactly when the bucket is not overfull or the credit passes 64 bits |
| RateLimit.WrapsEmpties | libevent-2.0.22-stable/bufferevent_ratelim.c:87-105 | an update empties a bucket that has bytes exactly when it is overfull and the credit takes its limit past 63 but not past 64 bits |
| RateLimit.CreditSplits | libevent-2.0.22-stable/bufferevent_ratelim.c:87-93 | a span of ticks credited in two parts is the same |
| RateLimit.UpdateSplits | libevent-2.0.22-stable/bufferevent_ratelim.c:73-110 | an update in between changes nothing, even when the tick count wraps |
| RateLimit.SpendingIsBounded | libevent-2.0.22-stable/bufferevent_ratelim.c:73-110 | over any run that keeps the limit in its type, the bytes spent less those given back are at most the limit at the start and the rate for each tick, less the limit at the end, as the code computes it and also for overfull buckets |
| RateLimit.Bucket.Init | libevent-2.0.22-stable/bufferevent_ratelim.c:49-70 | a new bucket starts at its rates; a changed configuration only clips |
| RateLimit.Bucket.Update | libevent-2.0.22-stable/bufferevent_ratelim.c:73-110 | for any limits of the type: both are what the code's 64-bit arithmetic gives; unless the bucket is overfull that is the rate for each tick gone by, up to the maximum, and nothing happens when none or more than 0x7fffffff went by |
| RateLimit.Bufferevent.SetRateLimit | libevent-2.0.22-stable/bufferevent_ratelim.c:559-635 | what the limits and flags are for each change of configuration: a new one starts at its rates, a changed one clips, a direction is suspended exactly if its bucket is exhausted; the timer is set up only while it is not pending; at which times it then does nothing when the clock is behind |
| RateLimit.Bufferevent.DecrementReadBuckets | libevent-2.0.22-stable/bufferevent_ratelim.c:275-310 | reading is suspended exactly when the bucket is exhausted, writing is not touched, and the timer is pending exactly while something is suspended |
| RateLimit.Bufferevent.DecrementWriteBuckets | libevent-2.0.22-stable/bufferevent_ratelim.c:313-348 | the same for writing |
| RateLimit.Bufferevent.DecrementReadLimit | libevent-2.0.22-stable/bufferevent_ratelim.c:901-925 | for positive and negative numbers: the flag changes only when the limit crosses zero, and the timer follows |
| RateLimit.Bufferevent.DecrementWriteLimit | libevent-2.0.22-stable/bufferevent_ratelim.c:928-954 | the same for writing |
| RateLimit.Bufferevent.GetMax | libevent-2.0.22-stable/bufferevent_ratelim.c:200-260 | the smaller of the updated limit, or 16384 bytes without one, and the share of the group, or nothing, and then the direction is suspended |
| RateLimit.Bufferevent.Fire | libevent-2.0.22-stable/bufferevent_ratelim.c:396-441 | a direction stays suspended exactly while its bucket is exhausted, and the timer pending for it |
| RateLimit.Bufferevent.WakeUp | libevent-2.0.22-stable/bufferevent_ratelim.c:396-441 | for any limits and any times of firing: a direction stays suspended, and the timer pending, exactly as long as no firing brings its limit above zero; what the limits are then |
| RateLimit.ThroughIs | libevent-2.0.22-stable/bufferevent_ratelim.c:73-110 | whatever the times of the updates, a bucket that is not overfull gets the credit for exactly the ticks that count |
| RateLimit.BelowIff | libevent-2.0.22-stable/bufferevent_ratelim.c:73-110 | whatever the times, it stays below a level if and only if the ticks that count, times the rate, are too few |
| RateLimit.WokenInTime | libevent-2.0.22-stable/bufferevent_ratelim.c:396-441 | if every firing takes effect, as many as the limit is below the level are enough |
| RateLimit.TicksCompare | libevent-2.0.22-stable/bufferevent_ratelim.c:122-135 | between ticks of two lengths an update takes effect if and only if the new tick is ahead of the old one, as numbers, by at most INT_MAX |
| RateLimit.BehindWaits | libevent-2.0.22-stable/bufferevent_ratelim.c:79-84 | when the clock is behind the last update, updates take effect if and only if it has caught up, and for INT_MAX ticks |
| RateLimit.NoneWhileBehind | libevent-2.0.22-stable/bufferevent_ratelim.c:79-84 | any number of updates before that give nothing |
| RateLimit.LongerTick | libevent-2.0.22-stable/bufferevent_ratelim.c:122-135 | from ticks of a second to ticks of two: nothing is credited until the time since 1970 has doubled |
| RateLimit.StuckIff | libevent-2.0.22-stable/bufferevent_ratelim.c:396-441 | the timer changes nothing of what is exhausted if and only if its update takes no effect |
| RateLimit.ConfiguredSticks | libevent-2.0.22-stable/bufferevent_ratelim.c:559-635 | after a change of configuration with the clock behind, the timer does nothing exactly until it has caught up |
| RateLimit.StaysStuck | libevent-2.0.22-stable/bufferevent_ratelim.c:559-635 | a run after which the timer wakes nobody for a million ticks |
| RateLimit.Run | libevent-2.0.22-stable/bufferevent_ratelim.c:275-954 | in every run of reading, writing, decrements either way, configurations and timer firings the state is the one that the plain steps reach |
| RateLimit.RunKeeps | libevent-2.0.22-stable/bufferevent_ratelim.c:275-954 | in every run the timer is pending exactly while something is suspended; as long as no limit wraps an exhausted bucket suspends, and none wraps if nothing is given back |
| RateLimit.NextExhausts | libevent-2.0.22-stable/bufferevent_ratelim.c:73-441 | a step keeps exhausted buckets suspended exactly unless a limit of a direction that is not suspended wraps |
| RateLimit.NextWithin | libevent-2.0.22-stable/bufferevent_ratelim.c:73-954 | only bytes that are given back make a bucket overfull |
| RateLimit.RunOverflows | libevent-2.0.22-stable/bufferevent_ratelim.c:87-105 | a run after which the bucket is empty and reading is not suspended |
| RateGroups.Side.Suspend | libevent-2.0.22-stable/bufferevent_ratelim.c:352-391 | every member whose lock is free is held |
| RateGroups.Side.Unsuspend | libevent-2.0.22-stable/bufferevent_ratelim.c:487-522 | every member whose lock is free is let go, wherever the random start is, and another try is noted exactly if a lock was taken |
| RateGroups.Group.SetMinShare | libevent-2.0.22-stable/bufferevent_ratelim.c:700-718 | the share is cut to both rates |
| RateGroups.Group.SetCfg | libevent-2.0.22-stable/bufferevent_ratelim.c:669-697 | limits are only clipped, the share is cut anew, and an exhausted group stays suspended |
| RateGroups.Group.Join | libevent-2.0.22-stable/bufferevent_ratelim.c:732-776 | a member that joins a suspended group is held, and nothing happens for one that is in it already |
| RateGroups.Group.Leave | libevent-2.0.22-stable/bufferevent_ratelim.c:785-806 | a member that leaves is let go |
| RateGroups.Group.GetShare | libevent-2.0.22-stable/bufferevent_ratelim.c:226-250 | a member of a suspended group is held and gets nothing; otherwise the shares of all members are no more than there is, unless the share is the minimal one |
| RateGroups.Group.DecrementReadBuckets | libevent-2.0.22-stable/bufferevent_ratelim.c:295-307 | the group is suspended exactly when its bucket is exhausted, and its whole state, with who is held and let go |
| RateGroups.Group.DecrementRead | libevent-2.0.22-stable/bufferevent_ratelim.c:957-974 | the direction changes only when its limit crosses zero, and the whole state then |
| RateGroups.Group.DecrementWriteBuckets | libevent-2.0.22-stable/bufferevent_ratelim.c:333-345 | the same for writing |
| RateGroups.Group.DecrementWrite | libevent-2.0.22-stable/bufferevent_ratelim.c:977-994 | the same for writing |
| RateGroups.Group.Refill | libevent-2.0.22-stable/bufferevent_ratelim.c:528-556 | a group is let go exactly when its share is reached, and who is held then; an exhausted group stays suspended exactly unless the share is zero and the bucket just empty, or a limit wraps |
| RateGroups.WokenEmpty | libevent-2.0.22-stable/bufferevent_ratelim.c:528-556 | a run after which a group is let go although its bucket is empty |
| RateGroups.Group.WakeUp | libevent-2.0.22-stable/bufferevent_ratelim.c:528-556 | for any limits and any times of firing: who is held stays held exactly if no firing brings the limit to the share and no other try was noted |
| RateGroups.GroupRun | libevent-2.0.22-stable/bufferevent_ratelim.c:644-994 | over any run, wherever the random starts are, the group is in the state that the plain steps reach |
| RateGroups.GroupKeeps | libevent-2.0.22-stable/bufferevent_ratelim.c:644-994 | in every run only members are held, by a group that is suspended or will try again; if no lock is ever taken exactly the members of a suspended group are held; an exhausted bucket suspends as long as the group does not slip, which it does not if nothing is given back and the share is not set to zero |
| RateGroups.GroupNextOk | libevent-2.0.22-stable/bufferevent_ratelim.c:644-994 | each step keeps what is right of a group, and that exactly the members of a suspended one are held |
| RateGroups.GroupNextExhausts | libevent-2.0.22-stable/bufferevent_ratelim.c:528-556 | a step keeps an exhausted group suspended exactly unless it is woken with a share of zero or a limit wraps |
| RateGroups.GroupNextWithin | libevent-2.0.22-stable/bufferevent_ratelim.c:528-994 | only what is given back or a share of zero can lead to that |
| RateGroups.GroupStuckIff | libevent-2.0.22-stable/bufferevent_ratelim.c:528-556 | the timer changes nothing of a group that waits for its share if and only if its update takes no effect |
| RateGroups.GroupSetCfgSticks | libevent-2.0.22-stable/bufferevent_ratelim.c:669-697 | after a change of configuration with the clock behind, that is so exactly until it has caught up |
| RateGroups.GroupStaysStuck | libevent-2.0.22-stable/bufferevent_ratelim.c:669-697 | a run after which the timer lets go of nobody for a million ticks |
| Tagging.EncodeInt | libevent-2.0.22-stable/event_tagging.c:115-148 | writes the digits of the number to base 16 behind their count less one, the lowest first and each even one in the lower half of its byte, in n/2 + 1 bytes for n digits |
| Tagging.NibblesFit | libevent-2.0.22-stable/event_tagging.c:115-148 | a number has at most k nibbles exactly when it is below the k-th power of 16 |
| Tagging.DecodeInt | libevent-2.0.22-stable/event_tagging.c:306-364 | the integer at the offset and its length; an error exactly if there is no byte, the count is above the maximum, or not all bytes are there |
| Tagging.DigitsRead | libevent-2.0.22-stable/event_tagging.c:306-364 | the digits of what is read are those of the bytes, as many as the first one says |
| Tagging.IntRoundTrip | libevent-2.0.22-stable/event_tagging.c:115-364 | an integer is read back as written, whatever follows, and its length found |
| Tagging.EncodeTag | libevent-2.0.22-stable/event_tagging.c:172-192 | writes the groups of seven bits, lowest first, all but the last with the high bit set, in five bytes at most |
| Tagging.DecodeTag | libevent-2.0.22-stable/event_tagging.c:195-233 | the tag and its length, in 32-bit arithmetic |
| Tagging.TagRead | libevent-2.0.22-stable/event_tagging.c:195-233 | for any bytes: the groups up to the first without a high bit, of the fifth four bits only, and an error exactly if the first five have none |
| Tagging.TagRoundTrip | libevent-2.0.22-stable/event_tagging.c:172-233 | a tag is read back as written, whatever follows |
| TagStream.Stream.Marshal | libevent-2.0.22-stable/event_tagging.c:248-295 | appends the tag, the length and the data, in this order |
| TagStream.Stream.MarshalInt | libevent-2.0.22-stable/event_tagging.c:268-288 | appends the integer as an item, the same for both widths |
| TagStream.Stream.MarshalTimeval | libevent-2.0.22-stable/event_tagging.c:298-304 | appends both integers as one item |
| TagStream.HeaderBack | libevent-2.0.22-stable/event_tagging.c:429-442 | tag and length of an item are read back and the data comes next; the header is returned as it was if and only if the length fits an int |
| TagStream.Stream.UnmarshalHeader | libevent-2.0.22-stable/event_tagging.c:429-442 | what is returned, with lengths from 2 GiB on as negative numbers, and what is left, for each error too |
| TagStream.Stream.Consume | libevent-2.0.22-stable/event_tagging.c:445-453 | takes what the header says, which is everything for a negative length |
| TagStream.ConsumedBack | libevent-2.0.22-stable/event_tagging.c:429-453 | exactly the first item is taken if its length fits an int; otherwise everything behind it too, or nothing for the length that reads as -1 |
| TagStream.Stream.Unmarshal | libevent-2.0.22-stable/event_tagging.c:458-471 | the tag and the data, and what is left, for each error too |
| TagStream.Stream.UnmarshalInt | libevent-2.0.22-stable/event_tagging.c:476-525 | the integer behind the tag, and what is left, for each error too |
| TagStream.Stream.UnmarshalFixed | libevent-2.0.22-stable/event_tagging.c:530-546 | the data if tag and length are right, and otherwise only the header is gone |
| TagStream.Stream.UnmarshalString | libevent-2.0.22-stable/event_tagging.c:549-568 | the data if the tag is right and the size to allocate is not negative as an int, and otherwise only the header is gone |
| TagStream.Stream.UnmarshalTimeval | libevent-2.0.22-stable/event_tagging.c:571-596 | both integers, and the item is gone either way |
| TagStream.Stream.PeekLength | libevent-2.0.22-stable/event_tagging.c:393-408 | the whole length of the first item, and nothing changes |
| TagStream.PeekIsConsume | libevent-2.0.22-stable/event_tagging.c:393-453 | the length that a peek tells is the number of bytes that consuming takes, if and only if the length fits an int or happens to end the stream |
| TagStream.RawBack | libevent-2.0.22-stable/event_tagging.c:458-568 | data comes back as such and as data of fixed length if and only if its length fits an int, and as a string if and only if a byte more does too; what follows is left; otherwise the data stays on the stream |
| TagStream.TooLong | libevent-2.0.22-stable/event_tagging.c:429-471 | an item of 2 GiB that no call gives back |
| TagStream.StringTooLong | libevent-2.0.22-stable/event_tagging.c:549-568 | an item of INT_MAX bytes that the raw and the fixed call give back and the one for strings refuses |
| TagStream.Int32Back | libevent-2.0.22-stable/event_tagging.c:476-499 | a 32-bit integer comes back, and what follows is left |
| TagStream.Int64Back | libevent-2.0.22-stable/event_tagging.c:502-525 | a 64-bit integer comes back, and what follows is left |
| TagStream.TimevalBack | libevent-2.0.22-stable/event_tagging.c:571-596 | a time comes back, and what follows is left |
| TagStream.OtherTag | libevent-2.0.22-stable/event_tagging.c:476-596 | every item is refused under every other tag: of integers the tag is gone, of data the header, and of times the item |
| TagStream.OtherSize | libevent-2.0.22-stable/event_tagging.c:530-546 | data of another length than the one asked for stays on the stream |
| TagStream.TooWide | libevent-2.0.22-stable/event_tagging.c:476-499 | an integer of more than 32 bits is not read as one of 32, and is gone |
| TagStream.SendAndReceive | libevent-2.0.22-stable/event_tagging.c:248-596 | any list of items whose lengths fit an int is read back in order, and exactly what follows is left |

## Left out

- System calls and descriptors, reading and writing files and sockets, and the system's configuration; the kernel is a map from fd to interest.
- Locks, threads and condition variables: each locked section is one step. Locks that a group fails to take are the set `busy`.
- Allocation failure, but for sizes that the code refuses, and for the hash table's choice between a new and a longer array.
- Pinned chains, references to foreign memory with clean-up callbacks, evbuffer callbacks beyond the two counters, and everything for Windows.
- Chains, requests and elements of buckets are values in sequences: that lists are linked through pointers, and what aliasing that would allow, is not captured. The slot `last_with_datap` is the head or the `next` field of a numbered chain.
- EvBufferRuns.Calls: reserving and committing are not among the calls, because they may leave empty chains at the end, with which `evbuffer_add` does not cope; all chains are writable, as they are when no foreign memory is referenced, for behind read-only ones a call that adds nothing leaves an empty chain too.
- EvBuffers.EvBuffer.Remove: the number of bytes is returned as an int, which cuts it from 2 GiB on; that is not modelled.
- EvBuffers.EvBuffer.RemoveBuffer: the same is left out of its result.
- EvBuffers.EvBuffer.Add: data of more than a chain can hold, for which allocation fails half way, is not modelled.
- EvReserves.ReserveSpace: sizes are not negative, and empty chains are not read-only.
- The edge-triggered bit, and events for signals with their repeated calls.
- EvMap.EventBase.IoDel: an event that is deleted was added before, as the library makes sure.
- DnsCompress.DnsnameToLabels: the buffer has room for one byte behind its length, which the final zero byte may need.
- DnsNames.NameParse: a label that runs past the packet is refused at once instead of at the next byte.
- Search domains, reissuing a request after an odd answer, retries under other names, name server probes, and the case that is varied at random.
- DnsRequests.DnsBase.TransactionIdPick: searches for an id instead of drawing one at random.
- DnsRequests.DnsBase.Timeout: whether a server has timed out too often is given from outside.
- DnsRequests.DnsBase.Transmit: what becomes of each sending is given from outside; a server whose socket would block is one for which it can only be tried later.
- The min-heap itself, whose header is not part of this model: it is a collection with a least element.
- EventBases.EventBase.ProcessActive: deferred callbacks are left out; priorities are not changed in number.
- EventBases.EventBase.Loop: callbacks are scripts of adds, deletes, activations, priorities and breaks; the clock does what the run says, with the cached time while callbacks run, and its correction when it goes back is left out, as are the flags for one round only and for not waiting, and a set time to stop.
- EventBases.EventBase.InitCommonTimeout: times are microseconds, so that a duration with a million of them in its second field is the same as one second.
- HashTable.Table.Insert: elements come without a successor, and cached hash values are always those of the key.
- HashTable.Table.Grow: a size beyond the load limit of the last prime, for which the code reads past the list of primes, is asked for only when the table has the last prime already.
- RateGroups.Group.Join: a member of another group leaves that one first, which is Leave.
- RateGroups.Group.SetCfg: the new schedule of the master timer is left out; the length of ticks shows only in the times that are given.
- RateLimit.Run: a step that would make a limit leave its 64-bit type is not made.
- Tagging.DecodeTag: a tag of more than five bytes is refused; the code reads on past the bytes it has made contiguous.
