# The Cloud control plane: a Dafny model

The Cloud is a control plane written in Go. This project models the parts of it whose guarantees only make sense
over whole runs: the auto-scaling control loop, IPv4 address management, the WebSocket hub, the login lockout,
stack orchestration with rollback, the deployment reconciler, and the port-mapping strings that several services
parse independently. `dafny verify dfyconfig.toml` checks everything.

How the model is built:

- Code that mutates objects or loops over them is a class with mutable fields or a method with loops
  (`ScalingWorker`, `HubServer`, `InstanceRecords`, `Deployments`, `Stacks`, `Lockout`, `Links`, `Subnets`,
  `NetworkPool`, `ByteCarry`, `PortMappings`). Each such method is proved equal to a specification function on values;
  the lemmas about runs are about those functions.
- Every external call (container backend, repository, metrics, clock) is an oracle indexed by the number of the call,
  so a statement "for every environment" covers every pattern of failures. The clock is any nondecreasing
  function. Fresh identifiers are call numbers.
- A service call, a worker tick of one group or deployment, and the direct termination of a linked instance are atomic
  steps. The hub, its writers and the critical sections of logins interleave step by step.
- `net.IPNet.Contains` is modelled as agreement on the prefix bits, `net.IP.String` as dotted decimal text, `fmt.Sscanf`,
  `strings.TrimSpace` and `strconv.Atoi` by their documented behaviour. A used-address set is a set of texts, as in
  the code.

Where the code and its documentation or schema disagree, the model follows the code, and the exact condition under
which the promise holds is proved:

- The documented pause after five failed launches (docs/guides/autoscaling.md) needs a repository that stores the
  counter columns. The Postgres repository's `UpdateGroup` writes neither `failure_count` nor `last_failure_at`,
  and no query reads them back (internal/repositories/postgres/autoscaling_repo.go:158-230):
  `ScalingFailures.BackoffIffCountersStored`, and for that repository `ScalingFailures.NothingEverPauses`. The
  convergence results hold for both kinds of repository.
- The cooldown of a policy holds after a firing whose time was stored. The worker ignores a failure to store it
  (internal/core/services/autoscaling_worker.go:214-234), and then nothing keeps the policy from firing again:
  `ScalingCooldown.FiringsHonourCooldown`, `ScalingCooldown.UnstoredFiresAgain`.
- Private addresses stay unshared only if the store returns them as written. The columns are of type INET and are read
  with a cast to text, which PostgreSQL renders with a netmask (internal/repositories/postgres/instance_repo.go:141-167):
  `AddressReadBack.SafeIffReadBackPlain`; what then happens in every run is `AddressReadBack.SafeIff`.
- The load balancer's port map agrees with the validator exactly when no port text starts with white space that
  contains a newline, a container port of 0 excepted: `PortMappings.ParsePortsExact`.
- A login that succeeds clears its email's failure counter but not a lockout set while it was under way, so the lockout
  outlives the counter and forgets failures when it runs out: `LockoutRuns.WindowIsBounded` is the rate limit that is
  left, and it is exact.
- An accepted subnet lies in its VPC exactly when its prefix is at least as long: `Subnets.AcceptedSubnetNests`.
- The deployment worker indexes out of range for a negative replica count, which the service accepts:
  `DeploymentRuns.PanicsIff`.
- Scaling a deployment that is being deleted brings it back; nothing else does: `DeploymentRuns.DeletionHoldsIff`,
  `DeploymentRuns.ScalingUndoesDeletion`.
- A deployment can say READY with links missing, because deleting an instance deletes its link
  (internal/repositories/postgres/migrations/023_create_containers.up.sql:23): `DeploymentRuns.ReadyUntilVanish`,
  `DeploymentRuns.ReadyWithoutLinks`.
- A stack's references among instances are resolved or not by the order of a map iteration:
  `StackRuns.InstanceReferenceDependsOnOrder`.
- The libvirt pool never consults its end: `NetworkPool.PoolHolds101`.
- The address search on a /0 block with every address used does not end: `Allocation.SearchTerminatesIff`.

## Model

| member | source | states |
|---|---|---|
| ScalingSafety.LinksNeverExceedMax | internal/core/services/autoscaling_worker.go:138-181 | in every run of group creation, capacity changes, deletion, policy creation and ticks, with any steps and any failures, links <= MaxInstances <= 20 and 0 <= min <= max |
| ScalingSafety.TickNeverOvershoots | internal/core/services/autoscaling_worker.go:138-181 | a tick of a live group under any failures never passes the clamped desired count, never unlinks below the minimum, keeps a leading prefix when it removes, and never increases the distance to the target |
| ScalingSafety.ActiveTickEffect | internal/core/services/autoscaling_worker.go:93-115 | a tick keeps bounds, status and link freshness, moves the links towards the target, and fires at most one policy |
| ScalingSafety.ScaleOutByEffect | internal/core/services/autoscaling_worker.go:158-168 | scale-out only appends new links, at most as many as needed, and exactly as many when no call fails |
| ScalingSafety.ScaleInByEffect | internal/core/services/autoscaling_worker.go:169-181 | scale-in from the tail leaves a prefix, all but `excess` when no unlink fails |
| ScalingSafety.DeletingTickEffect | internal/core/services/autoscaling_worker.go:118-136 | a cleanup tick only unlinks, changes nothing else, and removes the record only when no links remain |
| ScalingSafety.ApplySafe | internal/core/services/autoscaling.go:29-163 | every service call and tick keeps the fleet invariant that the worker relies on |
| ScalingSteps.OnlyNamedGroupChanges | internal/core/services/autoscaling.go:29-163 | no step touches another group; only creation adds one, under a new identifier |
| ScalingSteps.CreationStoresRequest | internal/core/services/autoscaling.go:37-86 | a group is created exactly for 0 <= min <= desired <= max <= 20 and stored with just those numbers |
| ScalingSteps.ServiceCallsStore | internal/core/services/autoscaling.go:103-163 | each service call writes only the field it is about, and only if its calls succeed; deleting a policy or losing an instance takes away exactly that one |
| ScalingSteps.GroupAsCreated | internal/core/services/autoscaling.go:65-86 | in every run every group keeps the maximum, and while live the minimum, it was created with, so its links never exceed the maximum asked for |
| ScalingSteps.PolicyAsCreated | internal/core/services/autoscaling.go:139-163 | in every run every policy is one that was asked for, unchanged but for the time it last fired |
| ScalingSteps.PolicyStays | internal/core/services/autoscaling.go:139-163 | and stays until it is deleted or its group removed |
| ScalingSteps.ScaleOutByExact | internal/core/services/autoscaling_worker.go:158-168 | under any failures: exactly the instances launched and linked before the first failing attempt are linked |
| ScalingSteps.AttemptsOnRecord | internal/core/services/autoscaling_worker.go:158-168 | and every attempt is followed by the bookkeeping of its outcome |
| ScalingSteps.ScaleInByExact | internal/core/services/autoscaling_worker.go:169-181 | under any failures: exactly the unlinks before the first failing one are done |
| ScalingSteps.CleanupTickExact | internal/core/services/autoscaling_worker.go:118-136 | under any failures: a link of a deleting group stays exactly when its own unlink fails, and the record goes exactly when there is no link and its removal succeeds |
| ScalingFailures.FailureCountIsExact | internal/core/services/autoscaling_worker.go:321-350 | in every run: with a repository that stores the counter columns and whose updates succeed, the failure count is the number of failures since the last success, the failure time is set exactly when it is positive, and from the fifth failure on the next attempt is at least five minutes later; with one that does not store them, both columns stay blank |
| ScalingFailures.BackoffIffCountersStored | internal/repositories/postgres/autoscaling_repo.go:205-230 | the pause is honoured in every run if and only if the repository stores the counter columns |
| ScalingFailures.NoFailureOnRecord | internal/repositories/postgres/autoscaling_repo.go:158-230 | without the columns no group has a failure on record in any run, whatever fails |
| ScalingFailures.NothingEverPauses | internal/core/services/autoscaling_worker.go:151-168 | without the columns every tick of a live group below its target attempts a launch, in every run, however many have just failed |
| ScalingFailures.SixthAttemptAtOnce | internal/repositories/postgres/autoscaling_repo.go:158-230 | a run without the columns in which the sixth attempt follows five failures at once |
| ScalingCooldown.FiringsHonourCooldown | internal/core/services/autoscaling_worker.go:196-238 | in every run, whatever fails, a policy whose firing time was stored does not fire again within its cooldown, of at least 60 seconds |
| ScalingCooldown.FiringsAreSpaced | internal/core/services/autoscaling.go:144-146 | the same with 60 seconds, also for policies since deleted |
| ScalingCooldown.UnstoredFiresAgain | internal/core/services/autoscaling_worker.go:214-234 | when the time cannot be stored, a run in which the policy fires in every tick, at one moment |
| ScalingCooldown.RewritesAreBounded | internal/core/services/autoscaling_worker.go:196-238 | in every run P policies rewrite the desired count at most P * (T / 60s + 1) times in any window of length T, besides the rewrites in it whose time could not be stored |
| ScalingCooldown.FirstWillingFires | internal/core/services/autoscaling_worker.go:196-238 | the first policy that never fired or whose cooldown is over, and that the average calls on, fires; the count it calls for becomes the desired count, in the repository too if that write succeeds; if there is none nothing changes |
| ScalingCooldown.TickFiresFirstWilling | internal/core/services/autoscaling_worker.go:184-239 | every tick of a live group whose metric call succeeds consults its policies so, judged by the number of links it began with; without policies or metric the tick ends as it was |
| ScalingCooldown.WishMeaning | internal/core/services/autoscaling_worker.go:204-236 | a policy asks for a count exactly when the average is above its target with room below the maximum, or more than ten below with room above the minimum, and then for one step in that direction within the bound |
| ScalingProgress.TickConverges | internal/core/services/autoscaling_worker.go:102-181 | with no active back-off and launch, link and unlink succeeding, one tick makes the number of links the in-bounds count nearest to the desired one, whatever the updates, the stored columns and the policies do; survivors of a scale-in are exactly the leading prefix |
| ScalingProgress.TickStoresTarget | internal/core/services/autoscaling_worker.go:138-150 | with updates succeeding and no policies the converging tick leaves the clamped desired count stored |
| ScalingProgress.SecondTickOnlyCounts | internal/core/services/autoscaling_worker.go:102-114 | the next tick changes only the recorded count: to the exact number of links if the repository stores it, not at all otherwise |
| ScalingProgress.CapacityIsReached | internal/core/services/autoscaling.go:125-137 | a capacity within bounds, once written, is reached by the next tick whose launch, link and unlink calls succeed, whatever the repository stores |
| ScalingProgress.NewGroupIsFilled | internal/core/services/autoscaling.go:65-86 | a new group has its desired count after the first such tick |
| ScalingProgress.WishIsReached | internal/core/services/autoscaling_worker.go:138-239 | the tick after the one in which a policy fires has brought the group to the count the policy called for, or to the minimum if that is more |
| ScalingProgress.StepKeepsDeleting | internal/core/services/autoscaling_worker.go:97-100 | no step brings a deleting group back, launches for it or adds links |
| ScalingProgress.DeletionIsFinal | internal/core/services/autoscaling_worker.go:97-136 | whatever follows in a run, a deleting group never launches again, never leaves that status, and its links only shrink |
| ScalingProgress.RemovedStaysRemoved | internal/core/services/autoscaling_worker.go:118-127 | a removed group record never comes back |
| ScalingProgress.TwoTicksDelete | internal/core/services/autoscaling_worker.go:118-136 | two ticks whose unlink and record-delete calls succeed finish a deletion, whatever the terminate calls do |
| ScalingProgress.DeletedGroupIsGone | internal/core/services/autoscaling.go:103-122 | the same from the service call on |
| Links.RemoveLink | internal/repositories/postgres/autoscaling_repo.go:335-338 | deleting a link row leaves the others, in order |
| ScalingWorker.Worker.LaunchUpTo | internal/core/services/autoscaling_worker.go:158-168 | the scale-out loop with its failure bookkeeping equals its specification |
| ScalingWorker.Worker.RemoveExcess | internal/core/services/autoscaling_worker.go:169-181 | the scale-in loop equals its specification and its tail index stays in range |
| ScalingWorker.Worker.ReconcileInstances | internal/core/services/autoscaling_worker.go:138-182 | clamping, back-off check and both loops together |
| ScalingWorker.Worker.EvaluateScalingPolicies | internal/core/services/autoscaling_worker.go:184-239 | the policy loop with cooldown check and early return |
| ScalingWorker.Worker.CleanupGroup | internal/core/services/autoscaling_worker.go:118-136 | removal of the record or one scale-in per link, errors skipped |
| ScalingWorker.Worker.EvaluateGroup | internal/core/services/autoscaling_worker.go:93-115 | one group's turn in an evaluation |
| ScalingWorker.AutoScaling.EvaluateAll | internal/core/services/autoscaling_worker.go:69-116 | an evaluation whose three list calls succeed is the run of one tick per listed group, each from the copy fetched up front; one whose list calls fail does nothing |
| ScalingWorker.RunContinues | internal/core/services/autoscaling_worker.go:69-116 | such a stretch of ticks is part of the run it happens in |
| ScalingWorker.AutoScaling.CreateGroup | internal/core/services/autoscaling.go:29-93 | a known idempotency key returns its group and changes nothing; otherwise a group with just the requested numbers is added exactly for 0 <= min <= desired <= max <= 20 with the repository calls succeeding |
| ScalingWorker.AutoScaling.SetDesiredCapacityOf | internal/core/services/autoscaling.go:125-137 | an in-bounds capacity is written back; not-found, invalid-input and write errors exactly when each occurs, changing nothing |
| ScalingWorker.AutoScaling.DeleteGroup | internal/core/services/autoscaling.go:103-122 | marks the group, with minimum and desired count zero and the links kept, exactly when lookup and write succeed |
| ScalingWorker.AutoScaling.CreatePolicyFor | internal/core/services/autoscaling.go:139-163 | a policy is added, as requested and last, exactly when the group is found, the cooldown is at least 60 seconds and the insert succeeds; the error, and no change, in each other case |
| ByteCarry.PlusValue | internal/repositories/libvirt/adapter.go:671-677 | the byte-carry loop is addition modulo 256^length |
| ByteCarry.Increment | internal/core/services/instance.go:586-592 | the in-place increment is the carry addition of 1 |
| ByteCarry.AddOffset | internal/repositories/libvirt/adapter.go:671-677 | the in-place offset loop is the carry addition of the offset |
| Ipv4.TextInjective | internal/core/services/instance.go:598-599 | different addresses have different texts, so a set of texts identifies addresses |
| Ipv4.TextIsDotted | internal/core/services/instance.go:598-599 | the text is the four bytes in decimal with dots between, the highest first |
| Ipv4.BlockIsInterval | internal/core/services/instance.go:594-596 | prefix agreement is membership of the interval from the network address |
| Allocation.FindAvailableIP | internal/core/services/instance.go:581-603 | the search ends with the first free candidate, also when the carry wraps |
| Allocation.AvailableIsFirstFree | internal/core/services/instance.go:581-603 | the result is the unused address of the block whose turn comes first: the least above the network address, and on a /0 block that one last; there is none iff all of those are used |
| Allocation.SearchTerminatesIff | internal/core/services/instance.go:585-601 | the search ends iff the prefix is not 0 or some address is unused |
| Allocation.AllocateIP | internal/core/services/instance.go:458-483 | the allocator avoids exactly the recorded addresses and the gateway |
| InstanceRecords.InstanceService.ListBySubnet | internal/core/services/instance.go:464-474 | the texts listed for a subnet |
| InstanceRecords.InstanceService.ResolveNetworkConfig | internal/core/services/instance.go:491-521 | the address of a launch whose search ends, or the error paths before it |
| InstanceRecords.SearchEndsWhileFew | internal/core/services/instance.go:585-601 | with fewer than 2^32 - 1 records every launch comes to an end, into a /0 block too |
| InstanceRecords.InstanceService.LaunchInstance | internal/core/services/instance.go:68-158 | what each failing call leaves in the record, for every launch that ends; it returns an instance exactly when the record says running |
| InstanceRecords.InstanceService.TerminateInstance | internal/core/services/instance.go:294-332 | that record and no other goes, exactly when lookup, container removal and delete succeed |
| InstanceRecords.LaunchOutcome | internal/core/services/instance.go:68-158 | a launch adds at most its own record; it is running iff every call succeeds, in error iff only the container failed, and holds an address iff it got one and the second save succeeded; without a subnet it needs none |
| InstanceRecords.TerminationOutcome | internal/core/services/instance.go:294-332 | a termination removes its own record iff its three calls succeed, and no other |
| InstanceRecords.RecordStays | internal/core/services/instance.go:294-332 | in every run a record stays as it is until a termination of that instance |
| AddressReadBack.SafeIff | internal/core/services/instance.go:100-142 | in every run with any failures: a store that returns addresses as written keeps them unshared, in their block, and neither the gateway nor, /0 excepted, the network address; one that appends a netmask does so exactly while no canonical block has an address held and no other block has two |
| AddressReadBack.FirstAddressAlways | internal/repositories/postgres/instance_repo.go:141-167 | behind a netmask every allocation, whatever is on record, gives network address + 1; a one-address block has none |
| AddressReadBack.RunHoldsFirst | internal/repositories/postgres/instance_repo.go:141-167 | so in every run every address held is the first of its block |
| AddressReadBack.TerminationFreesAddress | internal/core/services/instance.go:320-323 | in every run, with either store, a termination that goes through makes the address available again |
| AddressReadBack.AllocationSucceedsIff | internal/core/services/instance.go:458-483 | in every run allocation succeeds exactly while fewer addresses are held than the block has to give; behind a netmask, exactly for prefixes up to 31 |
| AddressReadBack.LaunchSucceedsIff | internal/core/services/instance.go:68-158 | in every run a launch in which no call fails ends running with an address exactly while allocation has room, with either store |
| AddressReadBack.FailedLaunchHoldsAddress | internal/core/services/instance.go:113-127 | a launch whose container cannot be created leaves its record in error, still holding the address, with any store |
| AddressRuns.CanonicalCapacity | internal/core/services/subnet.go:115-126 | a canonical block of prefix p in 1..31 has 2^(32-p) - 2 addresses to give |
| AddressReadBack.SafeIffReadBackPlain | internal/repositories/postgres/instance_repo.go:141-167 | addresses stay unshared in every run iff the store returns them as written |
| AddressReadBack.TwoLaunchesShare | internal/repositories/postgres/instance_repo.go:141-167 | with anything appended, two launches in a row into a /24 get one address, the gateway's |
| Subnets.CalculateGatewayIP | internal/core/services/subnet.go:115-126 | the gateway bytes are the address bytes plus one |
| Subnets.SubnetService.CreateSubnet | internal/core/services/subnet.go:33-87 | a subnet is stored exactly when both blocks parse, the VPC contains its address and the insert succeeds |
| Subnets.AcceptedSubnetNests | internal/core/services/subnet.go:42-54 | an accepted subnet and its VPC are nested, the subnet inside iff its prefix is at least as long |
| Subnets.AcceptedSubnetMayStickOut | internal/core/services/subnet.go:52-54 | 10.0.0.0/8 is accepted in 10.0.0.0/16 |
| Subnets.GatewayPlacement | internal/core/services/subnet.go:115-126 | the gateway is network address + 1 iff the CIDR is canonical, and in the block iff the address written is not its last |
| Subnets.CanonicalGateway | internal/core/services/subnet.go:56-57 | for a canonical CIDR of prefix at most 31 the gateway is network address + 1 and in the block |
| Subnets.MappedPlus | internal/core/services/subnet.go:117-124 | carrying into a sixteen-byte address adds to the IPv4 address and leaves IPv4 exactly at 2^32 |
| NetworkPool.LibvirtPool.GetNextNetworkRange | internal/repositories/libvirt/adapter.go:663-695 | the n-th call gives gateway base+1 and range base+2..base+254 for base = start + 256n below 2^32 |
| NetworkPool.NetworksDisjoint | internal/repositories/libvirt/adapter.go:671-679 | different calls give disjoint /24 blocks |
| NetworkPool.PoolHolds101 | internal/repositories/libvirt/adapter.go:71-73 | exactly the first 101 calls stay inside 192.168.100.0 - 192.168.200.255 |
| Hub.RunNeverPanics | internal/handlers/ws/hub.go:34-67 | no interleaving sends on a closed channel or closes one twice, and every reachable state keeps the hub invariant |
| Hub.OpenIffInMap | internal/handlers/ws/hub.go:37-52 | a registered client's channel is open iff it is in the map; the gauge is registrations less unregistrations and at least the map size |
| HubMembership.RegisterEntersMap | internal/handlers/ws/hub.go:37-42 | in any reachable state a client that registers enters the map with an open, empty channel, and nobody else is touched |
| HubMembership.LeavesMapIff | internal/handlers/ws/hub.go:44-62 | a step takes a client out of the map iff it is its unregistration, or its turn in a broadcast with 256 messages queued |
| HubMembership.InMapIff | internal/handlers/ws/hub.go:34-67 | in every run a client is in the map iff it registered, has not unregistered, and was never full at its turn |
| HubMembership.HubCanMove | internal/handlers/ws/hub.go:34-67 | in every reachable state the hub can serve any request, or deliver to each client it has still to serve |
| Hub.EnqueuedIsSegment | internal/handlers/ws/hub.go:54-64 | what is enqueued for a client is one contiguous in-order stretch of the broadcasts from its registration, up to the last due while it is in the map |
| Hub.SegmentEndsWithMembership | internal/handlers/ws/hub.go:44-62 | once dropped or unregistered, the stretch never grows again |
| Hub.WrittenIsPrefix | internal/handlers/ws/client.go:71-95 | what the writer puts into frames, with the hub sending or closing at any point between its receive, its reading of the queue length and each further receive, is a prefix of that stretch |
| Hub.ReaderSeesPrefix | internal/handlers/ws/client.go:84-91 | splitting frames at newlines gives a prefix of the stretch when messages contain none |
| HubMembership.WriterCanMove | internal/handlers/ws/client.go:71-103 | a writer that has not stopped and has something queued or a closed channel can go on |
| HubMembership.WriterStopsIff | internal/handlers/ws/client.go:71-103 | a writer stops iff opening or flushing a frame fails, a ping fails, or its channel is closed and empty, losing just the messages in hand |
| HubMembership.StoppedWritesNothing | internal/handlers/ws/client.go:71-103 | and then never writes again |
| HubServer.Server.Broadcast | internal/handlers/ws/hub.go:54-64 | each client in the map gets the message or, with a full buffer, is closed and dropped, whatever the map order |
| HubServer.Server.WriteFrame | internal/handlers/ws/client.go:73-91 | the writer empties the queue into one frame, in order |
| Lockout.AuthService.Login | internal/core/services/auth.go:83-128 | refused exactly while locked; accepted exactly with a known user and matching password; the maps in each case |
| LockoutRuns.LockedIffFiveFailures | internal/core/services/auth.go:109-138 | in every run of overlapping logins an email is in the lockout map iff its counter has reached five or a login under way when a lockout was set has succeeded since, which one login at a time rules out; with at most K under way the counter never exceeds K + 4 |
| LockoutRuns.RefusedIff | internal/core/services/auth.go:85-89 | a login is refused exactly with five failures or more on record, the last under fifteen minutes old, or a lockout left behind by a success and not run out |
| LockoutRuns.WindowIsBounded | internal/core/services/auth.go:83-139 | in every run with at most K logins of an email under way, any window shorter than fifteen minutes touches at most K + 4 + min(4, max(0, K - 2)) evaluated attempts since the email last logged in |
| LockoutRuns.BoundIsReached | internal/core/services/auth.go:83-139 | for every K some run reaches that bound |
| LockoutRuns.AtMostFivePerWindow | internal/core/services/auth.go:83-139 | with one login at a time the bound is five |
| LockoutRuns.LockoutOutlivesSuccess | internal/core/services/auth.go:109-112 | a run in which a success clears the counter and leaves the lockout |
| Stacks.StackService.ResolveReferences | internal/core/services/stack.go:192-208 | the same keys; a table with a known string under Ref becomes that resource's identifier, every other value stays |
| Stacks.StackService.Create | internal/core/services/stack.go:210-324 | creating and recording one resource, or an error with nothing created |
| Stacks.StackService.Pass | internal/core/services/stack.go:96-107 | one pass creates the resources of one kind up to the first failure |
| Stacks.StackService.RollbackStack | internal/core/services/stack.go:162-175 | the recorded resources are deleted in reverse |
| Stacks.StackService.ProcessStack | internal/core/services/stack.go:81-160 | the four passes, the rollback and the final status together; a template that does not parse fails with nothing created |
| StackRuns.CreationFollowsTemplate | internal/core/services/stack.go:91-148 | for every iteration order and failure: each entry at most once, VPC, Volume, Instance, Snapshot in that order, CREATE_COMPLETE iff every entry of those types was created, recorded exactly what was created and recordable |
| StackRuns.RollbackReverses | internal/core/services/stack.go:150-175 | rollback visits each recorded resource once in exact reverse order and fails only if listing or clearing does |
| StackRuns.ReferencesResolve | internal/core/services/stack.go:122-145 | every reference of a created instance or snapshot to a VPC or volume of the template is resolved to the resource created for it, for every iteration order |
| StackRuns.ReferenceResolvedIff | internal/core/services/stack.go:192-208 | a reference of a created instance or snapshot is resolved iff a resource of that name, not a snapshot, was created before it, to that resource; otherwise it is left as written |
| StackRuns.InstanceReferenceDependsOnOrder | internal/core/services/stack.go:122-134 | a reference to another instance of the template is resolved iff the iteration of the instance pass comes to that one first |
| StackRuns.SnapshotReferenceStays | internal/core/services/stack.go:192-208 | a reference to a snapshot is never resolved |
| StackRuns.OtherPropertiesStay | internal/core/services/stack.go:192-208 | every created resource has the keys of its template entry, with every value that is not a reference, and every value of a VPC or volume, as written |
| StackRuns.CompletesIff | internal/core/services/stack.go:264-269 | a stack completes iff the creation call of each entry succeeds and each snapshot's VolumeID is a reference to a VPC, volume or instance of the template |
| DeploymentRuns.ReadyMeansExact | internal/core/services/container_worker.go:101-111 | in every run a stored READY means replicas = recorded count >= links, and links fall short by what vanished through direct termination less what was added since READY was stored |
| DeploymentRuns.ReadyUntilVanish | internal/core/services/container_worker.go:101-111 | when row updates succeed, under READY the links match the replica count iff no linked instance has vanished since READY was stored |
| DeploymentRuns.ReadyWithoutLinks | internal/repositories/postgres/migrations/023_create_containers.up.sql:20-26 | a run that ends READY with one replica and no link |
| DeploymentRuns.EveryInstanceAccounted | internal/core/services/container_worker.go:114-139 | in every run each launched instance is linked, terminated by the worker, had its terminate call fail, or was terminated by its owner, exactly one of these; a removed row leaves no links |
| DeploymentRuns.TwoTicksConverge | internal/core/services/container_worker.go:83-111 | one tick whose calls succeed reaches the replica count, keeping old links when launching and new ones when terminating; the next moves nothing and reports READY if rows can be updated |
| DeploymentRuns.ServiceCallsStore | internal/core/services/container.go:77-112 | whatever the status, a scale request whose calls succeed stores the requested count with SCALING, a deletion only the status; failing ones store nothing |
| DeploymentRuns.CountIsReached | internal/core/services/container.go:77-95 | a count so scaled to is the number of links after the next tick whose calls succeed |
| DeploymentRuns.NewDeploymentIsFilled | internal/core/services/container.go:28-60 | the same for the count a deployment is created with |
| DeploymentRuns.TickReports | internal/core/services/container_worker.go:101-111 | when rows can be updated, a tick stores the number of links it began with, and READY iff that is the replica count |
| DeploymentRuns.LaunchUpToExact | internal/core/services/container_worker.go:83-90 | under any failures: exactly the instances before the first that cannot be launched and linked are linked, and one launched but not linked is terminated again |
| DeploymentRuns.TerminateFirstExact | internal/core/services/container_worker.go:91-99 | under any failures: a scale-down stops at the first unlink or terminate that fails; an instance whose terminate fails is unlinked all the same |
| DeploymentRuns.CleanupExact | internal/core/services/container_worker.go:77-80 | under any failures: a link of a deleting deployment stays exactly when its own unlink fails |
| DeploymentRuns.RowGoesIff | internal/core/services/container_worker.go:72-76 | a row goes iff it is being deleted, has no links, and the list and delete calls succeed |
| DeploymentRuns.TickNeverOvershoots | internal/core/services/container_worker.go:83-99 | whatever fails, a tick at or below the replica count only appends links, up to it; a tick above it drops oldest links only, and no more than the excess |
| DeploymentRuns.TwoTicksDelete | internal/core/services/container_worker.go:72-81 | a cleanup tick whose list call succeeds leaves no link iff every unlink succeeds, whatever the terminate calls do; the next tick removes the row if its list and delete calls succeed |
| DeploymentRuns.PanicsIff | internal/core/services/container_worker.go:91-98 | a tick indexes out of range exactly for a negative replica count with every unlink and terminate succeeding |
| DeploymentRuns.NegativeCreationPanics | internal/handlers/container_handler.go:22-33 | a deployment created with any negative count panics the worker at its first tick, unless the list call fails |
| DeploymentRuns.NaturalCountsNeverPanic | internal/core/services/container_worker.go:83-99 | no run panics whose replica counts are all at least zero |
| DeploymentRuns.DeletionUndoneIff | internal/core/services/container.go:77-112 | a step takes a deployment out of deletion iff it is a scale request whose lookup and write succeed on an existing row; no step launches for it |
| DeploymentRuns.DeletionHoldsIff | internal/core/services/container.go:77-112 | a deletion holds throughout a continuation of a run iff no scale request goes through in it |
| DeploymentRuns.ScalingUndoesDeletion | internal/core/services/container.go:84-86 | a run in which a scale request brings a deployment under deletion back |
| DeploymentRuns.DeletionSticks | internal/core/services/container_worker.go:72-81 | with no scale request in the continuation the row stays DELETING until it is gone, nothing is launched and the links only get fewer |
| Deployments.Worker.ReconcileDeployment | internal/core/services/container_worker.go:60-112 | one tick equals its specification |
| Deployments.Worker.ScaleDeployment | internal/core/services/container.go:77-95 | reports success exactly when lookup and write succeed, and then the row has the requested count and SCALING; otherwise nothing changes |
| Deployments.Worker.DeleteDeployment | internal/core/services/container.go:97-112 | likewise, with only the status changed to DELETING |
| PortMappings.ParseAndValidatePorts | internal/core/services/instance.go:160-194 | accepts exactly at most ten mappings of two in-range ports, returning them, and reports too many exactly for more than ten |
| PortMappings.ParsePortOfDecimal | internal/core/services/instance.go:196-206 | decimal text with any white space around it is read back as its number if that fits 64 bits |
| PortMappings.ParsePortText | internal/core/services/instance.go:196-206 | white space, an optional sign, digits and white space are read as the number they denote, if it fits 64 bits |
| PortMappings.ParsePortShape | internal/core/services/instance.go:196-206 | and nothing else is accepted |
| PortTexts.AcceptedIff | internal/core/services/instance.go:160-194 | a list of mappings written out in decimal is accepted iff it has at most ten and no port above 65535 |
| PortMappings.ToDynamicPorts | internal/core/services/autoscaling_worker.go:303-319 | the rewriting loop equals its specification |
| PortMappings.DynamicPortsStayValid | internal/core/services/autoscaling_worker.go:303-319 | an accepted string stays accepted, with the same container ports in the same order and host port 0 |
| PortMappings.DynamicPortsExact | internal/core/services/autoscaling_worker.go:303-319 | on every string each piece with exactly one colon gets host "0" and keeps the rest, every other piece stays |
| PortMappings.DynamicPortsIdempotent | internal/core/services/autoscaling_worker.go:303-319 | the rewrite is idempotent on every string |
| PortMappings.SplitOn | internal/core/services/lb_worker.go:228-260 | the accumulating splitters are a split that forgets a trailing empty piece |
| PortMappings.SplittersAgree | internal/core/services/lb_worker.go:212-217 | on accepted strings they return exactly the pieces the validator checked |
| PortMappings.ParsePorts | internal/core/services/lb_worker.go:212-226 | the map built from the scanned pairs, later pairs winning |
| PortMappings.ParsePortsExact | internal/core/services/lb_worker.go:212-226 | with distinct host ports the map holds exactly the validated pairs iff no port text starts with white space holding a newline, except that a container port of 0 may |
| PortTexts.ReadAsWritten | internal/core/services/lb_worker.go:212-226 | an accepted list written out in decimal with distinct host ports is read as just that list |
| PortMappings.SingleMappingMisread | internal/core/services/lb_worker.go:220-222 | every accepted single mapping whose host text starts that way is misread |
| PortMappings.NewlineBeforeHostPort | internal/core/services/lb_worker.go:220-222 | the accepted string "\n80:80" is one |
| Strings.SplitThenJoin | internal/core/services/autoscaling_worker.go:308-318 | joining the pieces of a split restores the string |
| Strings.JoinThenSplit | internal/core/services/autoscaling_worker.go:308-318 | splitting a join of separator-free pieces restores the pieces |

## Left out

- FailureCountIsExact: needs group updates to succeed when the counter columns are stored, since the worker ignores their errors.
- SafeIff: a store that appends text without a slash to addresses is covered by SafeIffReadBackPlain only.
- HTTP handlers, router, SDK, CLI, web console, Docker, OVS and the rest of libvirt: plumbing and foreign calls.
- SQL: repositories are maps with atomic operations whose calls may fail, except for the two column behaviours above.
- CreateGroup: the VPC lookup and the five-groups-per-VPC limit are folded into one oracle with the insert, since they only refuse.
- LaunchInstance: is for launches that end; one into a /0 block with every address of the space used does not, and runs leave its record as that of a launch that found no address.
- ResolveNetworkConfig: likewise, for address searches that end.
- Subnet blocks are any that subnet creation accepts; the CIDR-typed column (internal/repositories/postgres/migrations/031_create_subnets.up.sql:7) refuses those with host bits set, so for that store only the canonical cases arise.
- Stale worker copies overwriting concurrent service calls, and several workers at once: ticks and service calls are atomic.
- A WebSocket client that registers twice: the server creates a new client per connection.
- Load-balancer targets, events, audit records and metrics other than the hub's connection gauge.
- CPU averages are arbitrary real inputs; floating-point rounding is not modelled.
- IPv6: an address that leaves IPv4 through a carry has no modelled text.
- Strings are sequences of characters; invalid UTF-8 in port strings is not modelled.
- Stack listing is assumed to return resources in insertion order; the query has no ordering clause.
- DeleteStack, ValidateTemplate, names and sizes of stack resources: single-branch code that would only add easy members.
- Queue, notify, cache, database, secret, storage, RBAC, cron and dashboard services: mostly pass-through.
