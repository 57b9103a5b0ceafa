# A verified model of IP Filter's core

IP Filter keeps its rules, timeouts, destinations and pending authentications in mutable
linked structures, and most of what it promises rests on those structures staying
consistent. This project models the hard parts and proves what they promise, over every
input, every reachable state and every run of the modelled operations:

- **Rule engine** (`RuleScan`, `RuleMeaning`, `RuleFlatten`): the loop and recursion of
  `ipf_scanlist`, refined to a declarative meaning on any graph of groups, cyclic or not;
  which rule `fin_fr` is left at; flattening every head that is not quick preserves every
  verdict.
- **Rule lists and groups** (`RuleOrder`, `RuleList`, `Filter`, `FilterVerdict`): list
  placement by `fr_collect`, on the linked list itself and as an invariant of the rule sets;
  exact group reference counts; the separation of the two rule sets, and from it that
  editing one set changes no verdict of the other.
- **Timeout queues** (`TimeoutQueues`, `TimerRuns`, `QueueFlush`, `QueueWalk`):
  pointer-to-pointer tail queues with their order and counts, the shrinking window of the
  flush, and its walk over a queue that is being taken apart.
- **Destination lists** (`DstList`, `DstSelect`): an array and a linked list over the same
  nodes, and the scheduling guarantee of the connection policy.
- **Authentication ring** (`AuthRing`): circular buffer, slot states and two counters.
- **Arithmetic and tables** (`Checksum`, `MaskTable`, `RateLimit`).
- **DNS proxy** (`DnsAnswers`, `DnsName`): greedy question matching against multisets, and
  the name decoder including compression pointers.

Code that updates objects in place is a class or a method with loops here, each proved
against a specification; ghost sequences and sets beside the heap say what the links mean.
Each function is one atomic step under its lock; ticks and clocks are unbounded naturals.
`dafny verify dfyconfig.toml` checks everything.

## What the proofs found

Where a natural property is false of the code, the model keeps the code and states exactly
when the property holds.

- Within 16 levels `fin_fr` is left at a rule that matched, and the flags returned are that
  rule's exactly when it decided: it does not only log, and did not ask for state that could
  not be kept (`RuleMeaning.ReportedRule`; an input where it did is
  `RuleMeaning.StateNotKept`). Such a rule counts as "no match" for the flags but not for
  `fin_fr` (`RuleMeaning.MatchedRuleReported`). With 17 levels `fin_fr` is left at a rule of the
  list that was not scanned, whether it matches or not (`RuleMeaning.TooDeep`).
- A rule that only logs decides nothing in a list entered with flags that are not quick
  (`RuleMeaning.ScanVerdict`, `RuleMeaning.FlatVerdict`); in one entered with quick flags, as a
  group under a quick head is, the first match that only logs ends the list
  (`RuleMeaning.LogEndsQuickList`).
- A quick head cannot be flattened: unfolding it decides alike exactly when its group met
  nothing or decides, stopping, for the head's own flags (`RuleFlatten.QuickHead`, with an
  input in `RuleFlatten.QuickHeadDiffers`). So flattening leaves quick heads their groups.
- A rule that names a group `ipf_group_add` refuses makes `frrequest` dereference NULL. This is
  the status `Fault`, given exactly then and with nothing changed (`Filter.Softc.AddRule`); a
  group without a name is enough (`Filter.NamelessGroupFaults`).
- `ipf_queueflush` returns 0 when no more than 90 ticks have passed and the load is still high,
  although its first step may have removed entries (`QueueFlush.Table.Flush`,
  `QueueFlush.RemovesUnreported` on any such table, `QueueFlush.EarlyTable` for one).
- `ipf_queuefront` keeps the order exactly when the entry was not touched after the old head
  (`TimeoutQueues.FrontOrder`). Dropping holds never brings `ifq_ref` to 0, so it never marks a
  queue for deletion (`TimeoutQueues.Release`).
- A reply keeps the ring's counters right exactly when its slot still holds a packet
  (`AuthRing.ReplyOk`). When the oldest slot expires the start of the ring stops moving until
  a flush (`AuthRing.Ring.Expire`, `AuthRing.Ring.Check`, `AuthRing.ExpiredWedges`). A flush returns the number of slots
  in use exactly when every slot outside the live region is done with; it counts slots never
  used (`AuthRing.FlushCount`, `AuthRing.FlushOfNothing`). The scan of `ipf_auth_wait` ends
  exactly when more slots are in use than replied to (`AuthRing.WaitEnds`,
  `AuthRing.AllReplied`).
- `ipf_cksum` and `ipf_pcksum` differ exactly for odd lengths on big-endian hosts with a last
  byte that is not zero (`Checksum.RoutinesAgree`). For any length an `int` can give, the 32-bit
  sum folds right exactly when it does not overflow (`Checksum.OverflowExact`); 65538 words
  can overflow it (`Checksum.OverflowLosesOne`).
- The connection policy keeps the previous node when every other one is at the largest `int`
  (`DstSelect.ConnectionPick`, `DstSelect.AllAtLimit`).
- `get_name` returns 2 at a pointer, which is the length of the name in the packet exactly when
  no label stands before it (`DnsName.ReturnsWireLength`, `DnsName.LabelThenPointer`), and returns 2 whether or not the rest
  of the name could be read (`DnsName.PointerStep`). It does not count length bytes against
  the packet, so what it returns stays within the bytes it was given exactly when those fit
  too (`DnsName.StaysWithin`, `DnsName.ReadsPast`). The labels can be told from the text
  exactly when none holds a dot (`DnsName.SplitJoined`, `DnsName.DotLost`,
  `DnsName.DottedLabelConfused`).
- The comment on `ipf_cksum` speaks of a two's complement checksum; the code computes the one's
  complement of section 1 of RFC 1071, and that is what is modelled.

## Model

| member | source | states |
|---|---|---|
| `RuleScan.PacketInfo.ScanList` | ipfilter/fil.c:2453-2684 | the loop and recursion end on every group graph, restore `fin_depth`, and compute `Scan` |
| `RuleScan.PacketInfo.VisitRule` | ipfilter/fil.c:2592-2656 | a matching rule is counted, its flags taken unless it only logs, and its group scanned; an unmatched group leaves the rule's own result |
| `RuleMeaning.SettleIsVerdict` | ipfilter/fil.c:2616-2680 | choosing one decision after another gives the last that holds up to the first quick one that holds, and reports the last one taken |
| `RuleMeaning.SettleFacts` | ipfilter/fil.c:2642-2656 | a nested scan's outcome does not depend on the flags handed in if some decision of it holds, and is those flags if none does |
| `RuleMeaning.GroupMeaning` | ipfilter/fil.c:2635-2656 | descending into a group gives the group's settled verdict, or the head's own flags when nothing in it holds |
| `RuleMeaning.VisitMeaning` | ipfilter/fil.c:2592-2680 | one rule with its group and keep-state test settles the decisions that stand for it |
| `RuleMeaning.ScanFromMeaning` | ipfilter/fil.c:2483-2682 | from any rule of a list on, at any depth, flags, `fin_fr` and FI_STATE are those of the settled decisions |
| `RuleMeaning.ScanMeaning` | ipfilter/fil.c:2465-2684 | the same for a whole list, with the empty list and the depth limit |
| `RuleMeaning.ScanVerdict` | ipfilter/fil.c:2453-2684 | on every graph of groups, rules that only log included unless a list is entered with quick flags, the verdict and `fin_fr` are the declarative ones and the depth ends at 0 |
| `RuleMeaning.MatchedRuleReported` | ipfilter/fil.c:2658-2680 | `fin_fr` is NULL exactly when no rule of the list matched, state kept or not |
| `RuleMeaning.ReportedRule` | ipfilter/fil.c:2453-2684 | within 16 levels `fin_fr` is a rule that matched, and the verdict is its flags if and only if it does not only log and did not fail to keep state |
| `RuleMeaning.StateNotKept` | ipfilter/fil.c:2658-2680 | a rule set where state fails: `fin_fr` is the rule, the verdict the default |
| `RuleMeaning.TooDeep` | ipfilter/fil.c:2465-2469 | 17 levels leave `fin_fr` at any given last rule, matching or not |
| `RuleMeaning.FlatVerdict` | ipfilter/fil.c:2453-2684 | on a flat list the first quick match that decides, else the last that does, else the default, rules passed over that only log or lose their state; `fin_fr` is the last match and the hits are the matches in order |
| `RuleMeaning.LogEndsQuickList` | ipfilter/fil.c:2616-2680 | a match that only logs ends a list entered with quick flags |
| `RuleFlatten.AttemptsMet` | ipfilter/fil.c:2453-2684 | on simple rules the flags met are those of the decisions the scan settles |
| `RuleFlatten.ScanMet` | ipfilter/fil.c:2453-2684 | a scan of simple rules nested within 16 levels decides by the flags the packet meets, in order |
| `RuleFlatten.FlatDecides` | ipfilter/fil.c:2635-2680 | nested and flat rules decide alike, whatever levels are left to either, by induction over nesting |
| `RuleFlatten.FlattenPreservesVerdict` | ipfilter/fil.c:2635-2680 | flattening every head that is not quick, in every list, keeps the verdict of every packet; only what the list reaches has to be simple and nested within 16 levels |
| `RuleFlatten.FlatStoreHeads` | ipfilter/fil.c:2635-2656 | the heads left in any flattened list are quick |
| `RuleFlatten.QuickHead` | ipfilter/fil.c:2635-2680 | unfolding a matching quick head decides alike if and only if its group met nothing or decides, stopping, for the head's flags |
| `RuleFlatten.QuickHeadDiffers` | ipfilter/fil.c:2635-2680 | a rule set with a quick head where unfolding it changes the verdict |
| `RuleOrder.PlacedUnique` | ipfilter/fil.c:5009-5048 | there is one place behind the block, or `fr_hits` into it, and the list is in order around it; linked list and rule sets both use it |
| `RuleOrder.PlaceInPlaced` | ipfilter/fil.c:5009-5048 | one walk over an ordered list finds that place |
| `RuleList.SkipBelow` | ipfilter/fil.c:4943-4951 | stops before the first rule not below the collection number, or one slot short of the end |
| `RuleList.FindTwin` | ipfilter/fil.c:4953-4956 | finds an equal rule at or after a slot exactly when there is one |
| `RuleList.AfterBlock` | ipfilter/fil.c:5009-5028 | the slot behind every rule with a collection number up to the given one |
| `RuleList.ToBlock` | ipfilter/fil.c:5031-5036 | the slot of the first rule not below the collection number |
| `RuleList.IntoBlock` | ipfilter/fil.c:5029-5048 | the slot up to `fr_hits` rules into the block, stopping at its end |
| `RuleList.LinkAt` | ipfilter/fil.c:5115-5119 | splices a rule in at a slot with every forward and back link right |
| `RuleList.Unlink` | ipfilter/fil.c:5194-5199 | takes a rule out with every link of the rest right |
| `RuleList.Place` | ipfilter/fil.c:5009-5049 | an added rule lands behind its whole block, an inserted one min(`fr_hits`, block length) into it, and the list stays sorted |
| `RuleList.InsertedOrder` | ipfilter/fil.c:5009-5049 | a rule put between lower and higher collection numbers keeps the list sorted and free of equal rules |
| `RuleList.WithoutOrder` | ipfilter/fil.c:5194-5199 | removal keeps it sorted and leaves no rule equal to the removed one |
| `RuleList.FrRequest` | ipfilter/fil.c:4937-5119 | add, insert and remove on a list: exact status, exact new list, sorted, linked, no two equal rules |
| `Filter.Softc.GroupAdd` | ipfilter/fil.c:3581-3626 | one more reference to the group of that name, refused exactly for an empty name or another direction; the other set is untouched |
| `Filter.Softc.GroupDel` | ipfilter/fil.c:3641-3676 | drops a reference; the group goes only when no rule belongs to it or heads it |
| `Filter.DropRef` | ipfilter/fil.c:3641-3676 | dropping a counted reference keeps counts exact, and the last one leaves no member |
| `Filter.NoMembers` | ipfilter/fil.c:3652-3654 | a group without references has an empty list and no rule referring to it |
| `Filter.RefsChange` | ipfilter/fil.c:5121-5134 | how changing or removing a rule changes the number of references to each group |
| `Filter.InstallOk` | ipfilter/fil.c:5112-5119 | linking a rule keeps every list ordered and free of equal rules, and turns the reference taken for membership into the rule's own |
| `Filter.StoreOk` | ipfilter/fil.c:5121-5134 | storing a head group turns the taken reference into the rule's own |
| `Filter.RetireOk` | ipfilter/fil.c:5176-5202 | a rule leaving keeps every list ordered and owes exactly the references it held |
| `Filter.PlaceIsRight` | ipfilter/fil.c:5009-5048 | in a list of the rule sets, ordered by the invariant, the place found is behind the block or `fr_hits` into it |
| `Filter.Softc.Install` | ipfilter/fil.c:5112-5119 | the new rule at its place in the block of its list, the order kept; the other set is untouched |
| `Filter.Softc.SetHead` | ipfilter/fil.c:5121-5134 | the head group is the one of that name, and NULL exactly without a name or when refused |
| `Filter.HeadsGot` | ipfilter/fil.c:5121-5134 | taking the ICMP head first changes neither which heads are refused nor any group's name |
| `Filter.Softc.NewRule` | ipfilter/fil.c:5097-5134 | the rule linked in place with its three group references, each head by name or refused, all counted |
| `Filter.Softc.JoinGroup` | ipfilter/fil.c:4655-4692 | the group a rule names, taken by one reference; a fault exactly when it is refused |
| `Filter.Softc.Enter` | ipfilter/fil.c:5097-5153 | an equal rule in the list it would go to refuses it, and the reference goes back; else it is in place with its heads |
| `Filter.Softc.DropAll` | ipfilter/fil.c:5534-5541 | giving up the three references one after the other leaves every count exact |
| `Filter.Softc.Retire` | ipfilter/fil.c:5176-5202 | the rule leaves its list, nothing else in the lists moves, and every group count stays exact |
| `Filter.Softc.AddRule` | ipfilter/fil.c:4655-5153 | status by case; the equal rule found is in the list searched; the new rule is at its place in its block, in the group it names, heading the groups it names unless refused |
| `Filter.NamelessGroupFaults` | ipfilter/fil.c:3596-3597 | a rule in a group without a name faults in every state, and nothing changes |
| `Filter.Softc.GiveBack` | ipfilter/fil.c:5150-5153 | the membership reference of a refused rule is returned |
| `Filter.Softc.RemoveRule` | ipfilter/fil.c:4655-5091 | removes the equal rule of the list searched unless it is busy, and finds none only if there is none |
| `Filter.Softc.Request` | ipfilter/fil.c:4481-5160 | a removal succeeds if and only if the list searched has an equal rule nobody else refers to, and then it has none; an accepted rule is at the place of its request with its groups; a request that fails changes no rule |
| `Filter.RemovalExact` | ipfilter/fil.c:5054-5091 | what each outcome of a removal says about the rules there were and are |
| `Filter.Softc.ListToSearch` | ipfilter/fil.c:4655-4720 | which list a removal searches, and that it belongs to the set of the request |
| `Filter.KeptTrans` | ipfilter/fil.c:8300-8323 | leaving a set alone step by step leaves it alone altogether |
| `FilterVerdict.ScanFromLocal` | ipfilter/fil.c:2453-2684 | a scan depends only on lists closed under group heads |
| `FilterVerdict.EditKeepsVerdict` | ipfilter/fil.c:2759-2761 | an edit that keeps a set keeps every verdict reached through it |
| `FilterVerdict.FrRequest` | ipfilter/fil.c:8300-8323 | a request on one set leaves the verdict of every packet by the other set unchanged, and does to its own what the request says |
| `FilterVerdict.EditInactive` | ipfilter/fil.c:8313-8323 | after any run of requests on the inactive set, cut short only by a fault, the active set decides every packet as before |
| `FilterVerdict.TryOut` | ipfilter/fil.c:8313-8341 | editing the inactive set, swapping and swapping back leaves every decision as it was before the edits |
| `FilterVerdict.AddedDecides` | ipfilter/fil.c:2759-2761 | an accepted quick inbound rule that comes first decides the matching inbound packets, and no outbound one is decided otherwise |
| `FilterVerdict.GroupDecides` | ipfilter/fil.c:2635-2656 | a quick rule of the group headed by the first rule decides the packets that match both |
| `FilterVerdict.AddThenRemove` | ipfilter/fil.c:4481-5160 | removing a rule just accepted succeeds, and rules, lists and every verdict are as before |
| `TimeoutQueues.Queue.constructor` | ipfilter/ip_fil.h:1344-1351 | a new queue is empty, well-formed, and counted as 1 |
| `TimeoutQueues.SortedByDie` | ipfilter/fil.c:5961-5962 | a queue in order of `tqe_touched` is in order of `tqe_die` |
| `TimeoutQueues.Unlink` | ipfilter/fil.c:5839-5848 | takes an entry out of the tail queue with links and tail right |
| `TimeoutQueues.Release` | ipfilter/fil.c:5763-5774 | dropping a hold leaves a positive count and no delete mark |
| `TimeoutQueues.QueueAppend` | ipfilter/fil.c:5947-5965 | the entry is last, due `ifq_ttl` from now, queue well-formed, sorted and counted |
| `TimeoutQueues.DeleteQueueEntry` | ipfilter/fil.c:5830-5854 | the entry is orphaned and the assertion on `ifq_ref` holds |
| `TimeoutQueues.QueueBack` | ipfilter/fil.c:5902-5931 | the entry is touched and last, and an orphan is left alone |
| `TimeoutQueues.QueueFront` | ipfilter/fil.c:5865-5888 | the entry is first, links and tail right |
| `TimeoutQueues.FrontOrder` | ipfilter/fil.c:5865-5888 | moving to the front keeps the order if and only if the entry was not touched after the old head |
| `TimeoutQueues.OrderedInPlace` | ipfilter/fil.c:6006-6012 | staying put before an entry due at the same time keeps the order |
| `TimeoutQueues.MoveQueue` | ipfilter/fil.c:5980-6050 | moves between queues or within one keep both well-formed, sorted and counted, with exact contents |
| `TimerRuns.Timers.AddSystemQueue` | ipfilter/ip_fil.h:1344-1351 | a system queue joins a run, empty and counted as 1 |
| `TimerRuns.Timers.AddTimeoutQueue` | ipfilter/fil.c:5704-5750 | reuses the user queue of that period or makes a new one; every queue stays valid |
| `TimerRuns.Timers.Drop` | ipfilter/fil.c:5763-5774 | giving up a hold keeps every queue valid and its count positive |
| `TimerRuns.Timers.Append` | ipfilter/fil.c:5947-5965 | over all queues of a run, everything stays valid |
| `TimerRuns.Timers.Delete` | ipfilter/fil.c:5830-5854 | over all queues of a run, everything stays valid and the count positive |
| `TimerRuns.Timers.Back` | ipfilter/fil.c:5902-5931 | over all queues of a run, everything stays valid |
| `TimerRuns.Timers.Move` | ipfilter/fil.c:5980-6050 | over all queues of a run, everything stays valid |
| `QueueFlush.FirstWindow` | ipfilter/fil.c:9072-9091 | the scan starts four days, half a day or half an hour back, or as far as the system goes back in whole steps of the tier; there is one exactly after 90 ticks |
| `QueueFlush.NextWindow` | ipfilter/fil.c:9120-9133 | it moves on by half a day, within half a day by half an hour, within half an hour by half a minute, and ends exactly at 60 ticks |
| `QueueFlush.Floor` | ipfilter/fil.c:9084-9089 | rounding down gives a positive multiple not beyond now |
| `QueueFlush.TrimmedCompose` | ipfilter/fil.c:9093-9134 | removals by several passes compose, keeping the order of what stays |
| `QueueFlush.WalkCovers` | ipfilter/fil.c:9099-9105 | stopping at the first recent entry of a sorted queue misses none |
| `QueueFlush.Table.Walk` | ipfilter/fil.c:9099-9105 | offers all entries up to the end or the first recent one; what stays is exactly what the delete function did not take |
| `QueueFlush.WalkStep` | ipfilter/fil.c:9099-9105 | a walk of one queue keeps all queues trimmed and sorted, and offers only old enough entries |
| `QueueWalk.Walk` | ipfilter/fil.c:9099-9105 | the linked queue, while `ipf_deletequeueentry` takes entries out of it, is left showing what the walk leaves of the sequence; it stays well-formed, sorted and counted |
| `QueueWalk.ShownSorted` | ipfilter/fil.c:5961-5962 | a valid linked queue shows the sorted sequence the coverage of a flush needs |
| `QueueFlush.Table.FinishedQueues` | ipfilter/fil.c:9049-9061 | the first step offers everything in CLOSED, and in TIME_WAIT exactly if the load is still above low; what stays in CLOSED is what the delete function did not take |
| `QueueFlush.Table.Pass` | ipfilter/fil.c:9096-9118 | one pass offers every remaining entry not touched since the limit, and only such |
| `QueueFlush.Table.WindowScan` | ipfilter/fil.c:9093-9134 | the scan ends; its limits are the schedule, oldest first; every pass began with the load above low; nothing later than the last limit is offered, and all before it unless the load fell |
| `QueueFlush.Table.Flush` | ipfilter/fil.c:9037-9137 | safety, schedule and coverage of the whole flush, and the value returned: 0 within 90 ticks under load, else the number of deletions |
| `QueueFlush.RemovesUnreported` | ipfilter/fil.c:9078-9083 | on every table up for at most 90 ticks whose deletions succeed while the load stays high, CLOSED is emptied and 0 returned |
| `QueueFlush.EarlyTable` | ipfilter/fil.c:9049-9083 | such a table with one closed connection |
| `AuthRing.Ring.New` | ipfilter/ip_auth.c:525-585 | succeeds exactly with room, never overwrites a live slot, counters exact |
| `AuthRing.Ring.Reply` | ipfilter/ip_auth.c:1190-1217 | exact error condition and effect; counters stay exact if and only if the slot held a packet |
| `AuthRing.ReplyOk` | ipfilter/ip_auth.c:1212-1216 | the ring invariant survives a reply if and only if the slot holds a packet |
| `AuthRing.Ring.Check` | ipfilter/ip_auth.c:400-496 | takes the first matching reply from the start on and hands its verdict on, counters exact; none exactly if none matches |
| `AuthRing.Authorised` | ipfilter/ip_auth.c:400-496 | a packet that waits, is replied to and comes again gets the verdict replied, or a block for none or "auth" |
| `AuthRing.Ring.SkipDone` | ipfilter/ip_auth.c:464-482 | the start moves past slots done with and an empty ring restarts at 0 |
| `AuthRing.TakeOk` | ipfilter/ip_auth.c:461-463 | taking a reply keeps both counters exact |
| `AuthRing.NewOk` | ipfilter/ip_auth.c:536-580 | adding a packet keeps the invariant |
| `AuthRing.AgeOk` | ipfilter/ip_auth.c:719-734 | ageing one slot keeps the invariant |
| `AuthRing.Ring.Expire` | ipfilter/ip_auth.c:704-734 | every slot aged or dropped, counters exact; the ring wedges exactly when its oldest slot expires |
| `AuthRing.ExpireTimes` | ipfilter/ip_auth.c:719-734 | after n turns a slot with at most n to go is done with, and no other |
| `AuthRing.ExpiredWedges` | ipfilter/ip_auth.c:719-734 | in an empty ring of two a packet that expires leaves nothing in use and no room |
| `AuthRing.HeldCount` | ipfilter/ip_auth.c:1071-1076 | packets held are used slots minus replies |
| `AuthRing.Ring.Wait` | ipfilter/ip_auth.c:1071-1076 | with more used slots than replies the scan ends, on the next live slot holding a packet |
| `AuthRing.WaitEnds` | ipfilter/ip_auth.c:1071-1076 | the scan comes to a packet if and only if used exceeds replies |
| `AuthRing.AllReplied` | ipfilter/ip_auth.c:1071-1076 | a ring where it does not |
| `AuthRing.Ring.Flush` | ipfilter/ip_auth.c:858-893 | empties the ring, frees a wedged start; counts the slots in use exactly when none outside the live region is open |
| `AuthRing.FlushCount` | ipfilter/ip_auth.c:871-884 | the count is at least the slots in use, and equal if and only if every slot outside is done with |
| `AuthRing.FlushOfNothing` | ipfilter/ip_auth.c:871-892 | a ring of any size with nothing in it is valid with nothing used, and a flush counts its size |
| `DstList.Table.Grow` | ipfilter/ip_dstlist.c:558-575 | growing the array keeps array and list in agreement, the first back pointer following the array |
| `DstList.Table.Attach` | ipfilter/ip_dstlist.c:576-584 | a new node is last in both |
| `DstList.Table.Compact` | ipfilter/ip_dstlist.c:739-746 | the array without the node, in order |
| `DstList.Table.Detach` | ipfilter/ip_dstlist.c:739-753 | the node is out of both, everything else linked and in order |
| `DstList.NodeAdd` | ipfilter/ip_dstlist.c:514-599 | exact success and error conditions, and the node last in both structures; nothing listed changes on failure |
| `DstList.NodeDeref` | ipfilter/ip_dstlist.c:616-638 | the node is freed with its last reference and both statistics stay exact |
| `DstList.NodeFree` | ipfilter/ip_dstlist.c:728-761 | out of the table, allocated on only while held; `ipls_numderefnodes` counts flagged nodes |
| `DstList.ClearNodes` | ipfilter/ip_dstlist.c:1022-1035 | ends with an empty list, freeing exactly the nodes nobody holds |
| `DstSelect.LeastConnected` | ipfilter/ip_dstlist.c:1161-1179 | the cyclic scan ends on the first least loaded node after the previous one |
| `DstSelect.ScanOne` | ipfilter/ip_dstlist.c:1167-1178 | one step of the scan keeps the best so far, and an idle node may end it |
| `DstSelect.ScanEnd` | ipfilter/ip_dstlist.c:1166-1179 | a finished scan has the cyclically first least loaded node |
| `DstSelect.AllAtLimit` | ipfilter/ip_dstlist.c:1162-1179 | with every other counter at the largest `int` exactly the previous node is kept |
| `DstSelect.Select` | ipfilter/ip_dstlist.c:1124-1230 | the position each policy picks, and NULL exactly for another address family or an empty list |
| `DstSelect.SelectNode` | ipfilter/ip_dstlist.c:1247-1292 | the same, with exactly the chosen node's states one higher |
| `DstSelect.RoundStep` | ipfilter/ip_dstlist.c:1155-1179 | in a partly served round only the next node in turn can be picked |
| `DstSelect.RunIsCyclic` | ipfilter/ip_dstlist.c:1155-1179 | in every run from zero loads pick k is node k mod n and loads differ by at most one |
| `DstSelect.ServeOne` | ipfilter/ip_dstlist.c:1262-1287 | on the linked table, each selection serves the next node in turn |
| `Checksum.IpfCksum` | ipfilter/fil.c:3385-3405 | the complement of the one's complement sum, an odd byte being one more word, and 0 exactly on data that verifies |
| `Checksum.IpfPcksum` | ipfilter/ip_fil.c:821-843 | the loop fold of the same sum, with an odd byte in its half of the word by host order, and 0 exactly on data that verifies |
| `Checksum.FoldStep` | ipfilter/fil.c:3402-3403 | folding once keeps the one's complement sum |
| `Checksum.NoOverflow` | ipfilter/fil.c:3392-3397 | up to 65537 words the 32-bit sum is exact |
| `Checksum.OverflowExact` | ipfilter/fil.c:3392-3397 | for every length an `int` can give the folded sum is right if and only if it stays below 2^32 |
| `Checksum.OverflowLosesOne` | ipfilter/fil.c:3392-3393 | 65538 words for which it is not |
| `Checksum.RoutinesAgree` | ipfilter/ip_fil.c:834-840 | on an odd length the two routines agree exactly on little-endian hosts or with a zero last byte |
| `Checksum.StoredChecksumVerifies` | ipfilter/fil.c:3385-3405 | storing the checksum in its zeroed word makes the data verify |
| `Checksum.OnlyChecksumVerifies` | ipfilter/fil.c:3385-3405 | no other value does, 0xffff and 0 apart |
| `Checksum.ByteOrderIndependent` | ipfilter/fil.c:3385-3405 | whether data verifies does not depend on byte order |
| `Checksum.SumdIsDifference` | ipfilter/ip_nat.h:616-625 | CALC_SUMD is new minus old modulo 65535 |
| `Checksum.UpdateIpId` | ipfilter/fil.c:6085-6097 | the new id stored, and the header valid exactly if it was |
| `Checksum.UpdatedVerifies` | ipfilter/fil.c:6090-6096 | the incremental update of section 3 of RFC 1624 keeps the header verifying, or not |
| `MaskTable.MaskIsShift` | ipfilter/fil.c:10188-10191 | the mask is 32 ones shifted left |
| `MaskTable.MaskValues` | ipfilter/fil.c:10188-10191 | the masks of 0, 8, 16, 24 and 32 bits |
| `MaskTable.ActiveList` | ipfilter/fil.c:10193-10201 | the table is the strictly descending list of exactly the masks in use |
| `MaskTable.TableUnique` | ipfilter/fil.c:10176-10236 | the use counts determine the table |
| `MaskTable.Raised` | ipfilter/fil.c:10193-10201 | shifting a mask in at its place gives the table of the raised count |
| `MaskTable.Lowered` | ipfilter/fil.c:10227-10234 | shifting it out gives the table of the lowered count |
| `MaskTable.MaskTab.Add` | ipfilter/fil.c:10176-10202 | one more use, table right |
| `MaskTable.MaskTab.Del` | ipfilter/fil.c:10214-10236 | one use less, table right, the assertion on `imt4_max` holds |
| `MaskTable.MaskTab.AddDel` | ipfilter/fil.c:10176-10236 | a delete undoes the add before it |
| `RateLimit.Limiter.PpsRateCheck` | ipfilter/fil.c:5444-5484 | seconds and microseconds compared as a single clock; who passes and the next state |
| `RateLimit.WindowsApart` | ipfilter/fil.c:5470-5474 | windows begin at least a second apart |
| `RateLimit.WindowBound` | ipfilter/fil.c:5470-5481 | a window passes at most max(1, maxpps) calls |
| `RateLimit.WindowExact` | ipfilter/fil.c:5470-5481 | exactly which calls of a window pass: the first max(1, maxpps), or all without a limit |
| `RateLimit.SpanBound` | ipfilter/fil.c:5444-5484 | any span under a second passes at most twice that |
| `DnsAnswers.CheckAnswers` | dns-proxy/main.c:807-842 | blocks if and only if the multisets of question names differ; only questions get marked |
| `DnsAnswers.MatchReply` | dns-proxy/main.c:810-832 | the greedy pairing takes the same name off both sides each time, and stops only at a name the query lacks |
| `DnsAnswers.PairOff` | dns-proxy/main.c:817-821 | marking one pair keeps what was taken off both sides equal |
| `DnsAnswers.LeftOver` | dns-proxy/main.c:824-841 | the multisets were equal exactly when what is left over is |
| `DnsName.GetName` | dns-proxy/main.c:1344-1428 | value returned and every byte written, the rest of the buffer untouched; ends on any packet |
| `DnsName.DecodeFits` | dns-proxy/main.c:1353-1428 | at most `buflen` bytes are written whatever the packet holds |
| `DnsName.PlainName` | dns-proxy/main.c:1371-1427 | an uncompressed name is read whole, with its full wire length, exactly when it fits, and 0 is returned otherwise |
| `DnsName.OnlyNames` | dns-proxy/main.c:1366-1427 | a value other than 0 and 2 comes only from labels that lie there, and they are what was written |
| `DnsName.StaysWithin` | dns-proxy/main.c:1398-1427 | the value returned stays within the bytes given if and only if length bytes and zero byte fit in them |
| `DnsName.ReadsPast` | dns-proxy/main.c:1398-1427 | a packet of one byte of which three are read |
| `DnsName.PointerStep` | dns-proxy/main.c:1375-1396 | when a pointer is followed, and what is written before it |
| `DnsName.PointsTo` | dns-proxy/main.c:1380-1389 | a pointer leads to its 14-bit offset from the start of the packet |
| `DnsName.ChainText` | dns-proxy/main.c:1371-1427 | a compressed name whose pieces fit is read as its labels joined by dots |
| `DnsName.ReturnsWireLength` | dns-proxy/main.c:1366-1427 | the value returned is the wire length exactly without labels before a pointer |
| `DnsName.LabelThenPointer` | dns-proxy/main.c:1375-1396 | a name of one label and a pointer: 2 returned for four bytes |
| `DnsName.SplitJoined` | dns-proxy/main.c:1416-1426 | splitting the text at dots recovers the labels if and only if none holds a dot |
| `DnsName.SameTextSameName` | dns-proxy/main.c:1416-1426 | two dot-free names read alike only if they are the same |
| `DnsName.DotLost` | dns-proxy/main.c:1416-1426 | a label with a dot reads like the two labels around it, in value and text |
| `DnsName.DottedLabelConfused` | dns-proxy/main.c:1416-1426 | two packets with different names that are read alike |

## Left out

- Packet fields and the per-rule match tests: a rule is a set of atomic conditions on the packet.
- Rules that call functions, BPF and match-array rules, `ipf_log_pkt` and its block on failure, and decapsulation through `ipf_decaps`; "log"-only rules are in the meaning but not in the flattening theorem.
- `fin_rule`, `fin_icode`, `fin_group` and `fr_bytes`, which no decision here reads.
- `ipf_state_add` and the delete function of the flush are oracles: they answer freely, and the delete function unlinks at most its own entry.
- Filter.Softc.AddRule: the source's checks on interfaces, lookups and the IPL_LOGAUTH unit are not in it, and memory always suffices; what follows a fault is not modelled.
- `fg_head`, which is written but not read by any modelled function, and FR_COPIED: all rules are loaded from user space.
- Filter keeps rule lists as sequences; `RuleList` has the links. Both put a rule at the place `RuleOrder.PlacedUnique` shows to be the only one.
- Rule expiry lists, `ipf_apply_timeout`, zeroing of statistics, and flushing whole rule lists and groups.
- `ipf_freetimeoutqueue`: in the modelled runs no count reaches 0, so it has nothing to free.
- Locks, SPL levels, sleeping and wake-ups, and wrap-around of ticks and of `curpps`.
- AuthRing.Ring.Wait: requires more used slots than replies, as the source loops without end otherwise (`AuthRing.WaitEnds`).
- AuthRing.Ring.Reply: the packet is injected without error; the path that puts it back on ENOBUFS is not modelled.
- Pre-authentication rules and the dummy rule made for state.
- DstSelect.SelectNode: the same requirement as `DstSelect.Select`.
- DstSelect.Select: the table's selected node is one of its nodes; freeing the selected node leaves a stale pointer in the source. The `default` policy, which dereferences NULL, is left out; hashing and random numbers are a parameter, so the three hash policies are one.
- Destination list names, copying from user space and `ipf_dstlist_sync`.
- MaskTable.MaskTab.Del: requires 1 to 32 bits and a matching add; with 0 bits the source shifts by 32, which C leaves undefined. Byte order in the table is not modelled; the IPv6 table is the same again.
- Fragment lookups and id allocation in `ipf_updateipid`: the new id is a parameter.
- Checksum.UpdateIpId: the header's first word is not zero, as in every IPv4 header.
- RateLimit.SpanBound: needs a clock that does not go back and is never zero.
- DnsAnswers.CheckAnswers: the branch on the reply's header, which changes nothing it returns.
- The rest of the DNS proxy: sockets, query ids, access lists, `server_determine`.
- The lexer, variables, ARC4, NAT, state, fragment and hash-table internals, and platform files.
