# Verified models of the concurrent and arithmetic core

This project states and proves what the trickier parts of the repository promise: the leader
election, the cached AWS clients and access tokens, memory quantities and their text form, the
estimated bill of materials and the bookkeeping of job runs, listing and batching against the AWS
API, the classification of instance types, the order-insensitive equalities, and the API
authorization decision. `dafny verify dfyconfig.toml` checks everything.

## How the models are built

**Protocols.** `LeaderElection`, `ClientCache` and `TokenCache` are state machines in which one
action lets one thread take its next atomic statement: one read or write of shared state, or one
external call, which may return or raise. A run is any finite sequence of actions over any number
of threads. Every theorem about runs therefore covers all interleavings and all patterns of
failure. `LeaderElectionService`, `ClientProviderService` and `TokenService` are the same programs
as objects that update their fields in place; each statement is proved to be the step of the state
machine, and executing any schedule on them to be one of its runs.

| state machine | statements of |
|---|---|
| `LeaderElection.LoopStep`, `LeaderElection.StopStep` | `leader_election.py`, the loop (54-74) and stop (82-91), with the lock's acquire and release (`distributed_lock.py`, 125-138) |
| `ClientCache.Step` | `aws_client_provider.py`, `get_client` (249-252) and `_get_or_build_aws_client` (143-204) |
| `TokenCache.Step` | `token_service.py`, the two cached-grant methods (160-203 and 217-257), which share one shape |

**Objects.** `BomCost` and `JobExecution` are the scheduler's classes, with lists of objects changed
in place. Every method is tied to an operation on values in `Ledger` and `JobRuns`, where the
properties over whole sequences of operations are proved. `CloudPages` has the loops over pages
and batches against an API object that logs what it is asked, and `Authorization` the invocation
with its two memoised fields.

**Values.** `Memory`, `MemoryText`, `Scopes`, `ListEquality` and `InstanceClasses` are pure like the
code they model. Memory values are exact reals; truncation is toward zero and rounding to one
decimal is half to even. Scope lists follow section 3.3 of RFC 6749. `Text` and `Lists` hold
the operations on strings and lists they share.

## Where code and documentation disagree

The models follow the code.

- Renewal: the documentation of the refresh-token grant promises to renew an expired token
  (`token_service.py`, 207). Decoding turns the expiry into another exception (288-292), which the
  expiry test does not catch (329-333; `TokenCache.ExpiryEscapes`), so calls that do not force a
  renewal raise instead (`TokenCacheReachability.ExpiredGrantFailsNextCall`) and the grant stays for as
  long as no call forces its renewal (`TokenCacheReachability.RenewalPossibleExactly`).
- One leader: `stop` releases the lock before it clears the flag and does not wait for the loop in
  between, so a node can be flagged without holding the lock, and can be elected after it was
  stopped. `AtMostOneLiveLeader` states what does hold, the module `LeaderElectionScenarios` gives
  the runs that show no more does, and `LeaderElectionReachability` says exactly when a cleared flag
  can come back and when a leader is possible at all.
- A comment marks the h branch of the instance classes as standard (`aws_util.py`, 134); the code
  answers non-standard (135; `InstanceClasses.StandardExactly`).
- The comment on run registration promises no more than ten runs (`scheduler_model.py`, 638-639).
  That holds, but an id that is refused is counted again each time it is asked for
  (`JobRuns.CountIsDistinctExactly`, `JobRuns.RefusedTwiceCountsTwice`).
- In test mode the account named by the header need not be enabled, unlike one named by a token
  (`Authorization.DecisionExactly`, `Authorization.DisabledAccountAllowedInTestMode`).
- Savings may be added before any line item, but the totals then fail, and there is no grand total
  until a line item is accepted (`Ledger.ApplyKeepsConsistent`, `Ledger.TotalExactly`).
- An execution is called complete when there are as many runs with a status as hosts, whichever
  hosts they are on (`JobRuns.CompleteIsAllFinishedExactly`, `JobRuns.CompleteWithoutAllFinished`).

## Model

| member | source | states |
|---|---|---|
| `LeaderElection.AtMostOneLiveLeader` | containres/ideasdk/clustering/leader_election.py:46-91 | in every run of any number of nodes, a node whose flag is set and whose exit event is clear holds the lock, so there is at most one such node |
| `LeaderElection.AtMostTwoAppointments` | containres/ideasdk/clustering/leader_election.py:46-91 | in every run, a node publishes LEADER_APPOINTED at most once before its exit event is set and at most once after, also over repeated stop calls |
| `LeaderElection.LoopStepKeepsInvariant` | containres/ideasdk/clustering/leader_election.py:54-74 | every statement of the loop, succeeding or raising, keeps flag, events, lock and announcements in agreement |
| `LeaderElection.StopStepKeepsInvariant` | containres/ideasdk/clustering/leader_election.py:82-91 | every statement of stop, succeeding or raising, keeps that agreement |
| `LeaderElection.RunKeepsInvariant` | containres/ideasdk/clustering/leader_election.py:54-91 | so does every interleaving of all nodes |
| `LeaderElection.ExitEndsLoop` | containres/ideasdk/clustering/leader_election.py:55-74 | once the exit event is set it stays set, and the loop finishes its current iteration within a bounded number of statements and starts no other |
| `LeaderElection.IterationExactly` | containres/ideasdk/clustering/leader_election.py:57-74 | what an iteration does, for every call in it that may raise: it does nothing for a leader or when acquiring raises, blocks while the lock is taken, and otherwise keeps the lock, with the flag set unless the host name lookup raises, and announced unless that raises |
| `LeaderElection.StopExactly` | containres/ideasdk/clustering/leader_election.py:82-91 | a stop call sets the exit event, gives back a lock on record, clears the flag in any case and announces the dismissal unless that raises |
| `LeaderElection.FlagStaysUntilStop` | containres/ideasdk/clustering/leader_election.py:46-91 | a set flag stays set, whatever fails, until a stop call of its node |
| `LeaderElectionReachability.FlagReturnsExactly` | containres/ideasdk/clustering/leader_election.py:54-91 | from every state that satisfies the invariant, a flag that stop has cleared is set again in some continuation if and only if the loop is between its leader check and the flag and has the lock or can still get it: the lock is free, or its holder has it on record or is about to, a holder that is the node itself not waiting for its own loop |
| `LeaderElectionReachability.LiveLeaderPossibleExactly` | containres/ideasdk/clustering/leader_election.py:54-91 | for every set of nodes that may be stopped, none or all included: some continuation has a live leader if and only if the lock is free and a node is live, or its holder is live and leads or is being elected, or its holder may be stopped and can still release it while another node is live |
| `LeaderElectionReachability.OrphanedLockPreventsLeaders` | containres/ideasdk/clustering/leader_election.py:61-74 | it follows that after a failure between the grant of the lock and the flag, no run without a stop of that node ever has a live leader |
| `LeaderElectionScenarios.TwoFlagsSet` | containres/ideasdk/clustering/leader_election.py:82-91 | a run in which two nodes have their flag set, because stop releases before it clears; the condition "exit event clear" in the safety theorem is needed |
| `LeaderElectionScenarios.LeaderAfterStopReturned` | containres/ideasdk/clustering/leader_election.py:54-91 | a run after which stop has returned, the loop has ended, and the node still has its flag set and the lock |
| `LeaderElectionScenarios.TwoAppointments` | containres/ideasdk/clustering/leader_election.py:46-91 | a run with both announcements that the bound allows |
| `LeaderElectionScenarios.StoppedFollowerBehindLeader` | containres/ideasdk/clustering/leader_election.py:54-91 | a stopped follower that waits for the lock of a live leader is reached, and its flag can come back |
| `LeaderElectionScenarios.LookupFailureOrphansLock` | containres/ideasdk/clustering/leader_election.py:61-74 | a failing host name lookup reaches the state in which the lock is held by a node that does not lead |
| `LeaderElectionService.Execute` | containres/ideasdk/clustering/leader_election.py:54-91 | any schedule executed on the objects is a run of the state machine |
| `LeaderElectionService.ExecuteFromStart` | containres/ideasdk/clustering/leader_election.py:54-91 | from freshly started services, every live leader holds the lock, whatever the schedule |
| `ClientCache.EffectiveRegion` | containres/ideasdk/aws/aws_client_provider.py:145-151 | the region in effect is the first non-empty one of the caller's, the configured and the session's, or else the session's |
| `ClientCache.KeysOfPlainRegionsDiffer` | containres/ideasdk/aws/aws_client_provider.py:145-156 | with non-empty dot-free regions, equal keys mean equal service and region, although service names contain dots |
| `ClientCache.KeyWithoutRegion` | containres/ideasdk/aws/aws_client_provider.py:153-156 | without a region, or with an empty one, the key is the service name |
| `ClientCache.KeysCanCollide` | containres/ideasdk/aws/aws_client_provider.py:145-156 | two requests for different services that share a key, the dot belonging to a region |
| `ClientCache.UnambiguousCallersAreServed` | containres/ideasdk/aws/aws_client_provider.py:143-252 | if no two supported requests share a key without agreeing on service and region, every caller gets a client for its own, in every run |
| `ClientCacheReachability.EveryCallerIsServedExactly` | containres/ideasdk/aws/aws_client_provider.py:143-252 | and only if so: otherwise some run gives a caller a client of another service or region |
| `ClientCacheReachability.AllCallsCanReturn` | containres/ideasdk/aws/aws_client_provider.py:143-204 | there is no deadlock: from every reachable state some continuation returns every call |
| `ClientCache.NextKeepsInvariant` | containres/ideasdk/aws/aws_client_provider.py:158-204 | every statement of every call keeps the lock, the dictionary and the built clients in agreement |
| `ClientCache.ActionRefinesMemoTable` | containres/ideasdk/aws/aws_client_provider.py:158-204 | every statement is invisible or is one atomic get-or-build of its own caller |
| `ClientCache.OneOperationPerCall` | containres/ideasdk/aws/aws_client_provider.py:158-204 | a call performs at most one atomic operation, and its answer never changes afterwards |
| `ClientCache.DictionaryIsMemoTable` | containres/ideasdk/aws/aws_client_provider.py:143-204 | in every run the atomic operations, in the order in which they take effect, lead from the empty table to the dictionary |
| `ClientCache.ReturnedCallsAreOperations` | containres/ideasdk/aws/aws_client_provider.py:143-204 | every returned call performed exactly one of these operations and returned its answer |
| `ClientCache.EachKeyBuiltOnce` | containres/ideasdk/aws/aws_client_provider.py:167-202 | each key is built successfully at most once, and what is stored under a key was built for it |
| `ClientCache.StoredClientsStay` | containres/ideasdk/aws/aws_client_provider.py:158-204 | a stored client is never replaced or dropped |
| `ClientCache.CallersGetTheirOwnClient` | containres/ideasdk/aws/aws_client_provider.py:143-204 | in particular, with plain regions every caller gets a client built for its own service and region |
| `ClientCache.StepsLeadToReturn` | containres/ideasdk/aws/aws_client_provider.py:158-204 | every statement brings a call nearer to its return, unless it waits for a lock that another call holds |
| `ClientCache.FailedBuildsLeaveNoTrace` | containres/ideasdk/aws/aws_client_provider.py:167-204 | in every run in which all builds raise, the dictionary stays as it was |
| `ClientProviderService.ClientCall.constructor` | containres/ideasdk/aws/aws_client_provider.py:145-156 | region defaults and key are fixed from the arguments before anything shared is read |
| `ClientProviderService.Execute` | containres/ideasdk/aws/aws_client_provider.py:143-204 | any schedule executed on the objects is a run of the state machine |
| `TokenCache.NextKeepsInvariant` | containres/ideasdk/auth/token_service.py:160-203 | every statement of every call, and every expiry, keeps the lock and the cached grant in agreement |
| `TokenCache.RequestsAreBounded` | containres/ideasdk/auth/token_service.py:160-203 | over any calls, failures and expiries, requests number at most the forcing calls plus the failed requests plus one |
| `TokenCache.ForcedRequestsBounded` | containres/ideasdk/auth/token_service.py:160-203 | each forcing call sends at most one answered request |
| `TokenCache.ReturnedGrantWasCached` | containres/ideasdk/auth/token_service.py:160-203 | every returned grant was the cached one at some moment during the call |
| `TokenCache.UnusableGrantStays` | containres/ideasdk/auth/token_service.py:160-203 | with a cached grant that has expired or does not decode, and no forcing call that has yet to store its answer: in every run no request is sent, the grant stays, and calls that have not yet got past decoding it can only fail |
| `TokenCache.UsableGrantIsReturned` | containres/ideasdk/auth/token_service.py:160-203 | while the cached grant does not expire and no forcing call is still to replace it, in every run no request is sent and every call that does not force a renewal and returns, from its first or second look, returns that grant |
| `TokenCacheReachability.CallAloneExactly` | containres/ideasdk/auth/token_service.py:160-203 | a call on its own answers with a usable cached grant, raises for an unusable one, and otherwise, or when forcing, requests a grant and stores and returns it, or raises what the request raises and stores nothing |
| `TokenCacheReachability.RenewalPossibleExactly` | containres/ideasdk/auth/token_service.py:160-203 | a cached grant, expired or not, is replaced in some continuation if and only if some forcing call has yet to store its answer |
| `TokenCacheReachability.RequestPossibleExactly` | containres/ideasdk/auth/token_service.py:160-203 | with a cached grant, another request is sent in some continuation if and only if some forcing call has yet to send its own |
| `TokenCacheReachability.ExpiredGrantFailsNextCall` | containres/ideasdk/auth/token_service.py:160-333 | a run from the start in which a grant is fetched, its token expires, and the next call, which forces nothing, raises |
| `TokenCacheReachability.AllCallsCanReturn` | containres/ideasdk/auth/token_service.py:160-203 | there is no deadlock: from every reachable state some continuation returns every call |
| `TokenCache.ExpiryEscapes` | containres/ideasdk/auth/token_service.py:278-333 | decoding replaces the library's expiry error by one of the service, which the expiry test around it does not catch: the test answers false exactly for usable tokens, raises for all others, and never answers true |
| `TokenService.Execute` | containres/ideasdk/auth/token_service.py:217-257 | any schedule executed on the objects is a run of the state machine |
| `TokenService.ExecuteFromStart` | containres/ideasdk/auth/token_service.py:160-203 | from a fresh service, both the bound on requests and the origin of every returned grant |
| `Memory.ComparisonsFollowSize` | containres/ideadatamodel/common/common_model.py:96-205 | the chain of comparisons orders the nine units by size; < comes out reflexive |
| `Memory.LargerUnitHasMaximalSize` | containres/ideadatamodel/common/common_model.py:345-347 | the unit of a sum or difference is the larger operand unit, whichever operand comes first |
| `Memory.ValueInTenths` | containres/ideadatamodel/common/common_model.py:259-264 | rounding moves a value by at most half a tenth, and its exception for integral values makes no difference |
| `Memory.RoundExactly` | containres/ideadatamodel/common/common_model.py:259-264 | the rounding gives the nearest integer and, of two equally near, the even one, and nothing else |
| `Memory.ConvertedValueExactly` | containres/ideadatamodel/common/common_model.py:213-310 | so the value of a conversion is the nearest number of tenths, even at a tie, of the value itself in its own unit and of the byte count in any other |
| `Memory.TiesGoToEven` | containres/ideadatamodel/common/common_model.py:259-287 | 768 MiB are 0.8 GiB and 1280 MiB are 1.2 GiB |
| `Memory.BytesTruncatedTowardZero` | containres/ideadatamodel/common/common_model.py:239-257 | the byte count is the scaled value truncated toward zero, for either sign |
| `Memory.ScaledBySize` | containres/ideadatamodel/common/common_model.py:239-310 | the factors of all nine units are their sizes |
| `Memory.ConversionError` | containres/ideadatamodel/common/common_model.py:213-310 | a conversion to u changes the byte count by at most ceil(size(u)/20), and not at all for bytes |
| `Memory.ConversionExactly` | containres/ideadatamodel/common/common_model.py:213-310 | a conversion keeps the byte count if and only if some number of tenths of the unit has that byte count |
| `Memory.DivisibleConversionExact` | containres/ideadatamodel/common/common_model.py:213-310 | it does so when ten times the byte count is divisible by the size |
| `Memory.ConversionMonotone` | containres/ideadatamodel/common/common_model.py:213-310 | among quantities not already in the unit, and to bytes in any case, conversion keeps the order of byte counts |
| `Memory.ConversionMonotoneExactly` | containres/ideadatamodel/common/common_model.py:213-310 | for fixed units of the operands, it does so for all values if and only if it is to bytes or neither operand is in the unit |
| `Memory.ConversionOfOwnUnitNotMonotone` | containres/ideadatamodel/common/common_model.py:272-275 | for example, two quantities of 1075 bytes convert to different byte counts in KiB |
| `Memory.AddCommutesWithin` | containres/ideadatamodel/common/common_model.py:354-368 | addition commutes exactly, is in the larger unit, and is off by at most ceil(size/20) bytes |
| `Memory.SumExactly` | containres/ideadatamodel/common/common_model.py:354-368 | the value of a sum is the nearest number of tenths, even at a tie, of the byte sum, which is kept exactly in bytes |
| `Memory.DifferenceExactly` | containres/ideadatamodel/common/common_model.py:338-352 | the same for differences |
| `Memory.SubAntisymmetricWithin` | containres/ideadatamodel/common/common_model.py:338-352 | subtraction is exactly antisymmetric, is in the larger unit, and is off by at most ceil(size/20) bytes |
| `MemoryText.UnitOfText` | containres/ideadatamodel/common/common_model.py:452-478 | the ordered suffix tests find the printed unit after any digit |
| `MemoryText.NumeralsExactly` | containres/ideadatamodel/common/common_model.py:487-494 | exactly the texts of digits with at most one point, at least one digit and at most one sign are parsed as numbers |
| `MemoryText.ResolveNumeral` | containres/ideadatamodel/common/common_model.py:445-494 | a number with any sign and any number of decimals, followed by any of the nine units, spaces between them or not, is parsed as what it denotes: with its point moved behind the last decimal, the integer of its digits |
| `MemoryText.ResolveBareNumeral` | containres/ideadatamodel/common/common_model.py:479-494 | a bare number takes the unit passed, and without one the format is not supported |
| `MemoryText.ResolveBlankExactly` | containres/ideadatamodel/common/common_model.py:447-485 | a missing or blank text gives the default; the format is not supported exactly when no unit is passed and the text does not end in b |
| `MemoryText.ResolveIgnoresLeadingLetters` | containres/ideadatamodel/common/common_model.py:445-494 | stripping a set of letters also removes any mixture of the unit's letters in front of the number |
| `Text.ParseConcatenated` | containres/ideadatamodel/common/common_model.py:487-494 | the digits of a number count by their position |
| `Text.SpacesExactly` | containres/ideadatamodel/common/common_model.py:447-450 | the ASCII characters that stripping removes, by their codes |
| `MemoryText.ResolveNormalizes` | containres/ideadatamodel/common/common_model.py:447-450 | surrounding spaces and the case of letters make no difference to the parser |
| `MemoryText.ResolvePrinted` | containres/ideadatamodel/common/common_model.py:315-494 | parsing a printed quantity gives its unit and its value rounded to one decimal, for all units and signs |
| `MemoryText.RoundTripStable` | containres/ideadatamodel/common/common_model.py:315-494 | parse after print is idempotent, and the identity if and only if the value has at most one decimal |
| `MemoryText.PrintInvertsResolve` | containres/ideadatamodel/common/common_model.py:315-494 | printing inverts parsing on texts without leading zeros, without a zero decimal and with at most one decimal |
| `MemoryText.PrintedTenthsExactly` | containres/ideadatamodel/common/common_model.py:259-336 | a fractional value is printed with the one decimal of its nearest tenths, even at a tie |
| `MemoryText.PrintedTextStableExactly` | containres/ideadatamodel/common/common_model.py:259-336 | the text changes on reprinting if and only if a fractional value rounds to an integral one |
| `Ledger.PutRefinesTable` | containres/ideadatamodel/scheduler/scheduler_model.py:326-340 | an add writes exactly one key of the map from (service, product) to item; an update keeps the stored unit price |
| `Ledger.RemoveRefinesTable` | containres/ideadatamodel/scheduler/scheduler_model.py:482-492 | a removal deletes exactly one key |
| `Ledger.PutKeepsDistinctKeys` | containres/ideadatamodel/scheduler/scheduler_model.py:458-478 | an add keeps the keys of a list pairwise distinct |
| `Ledger.PutAdds` | containres/ideadatamodel/scheduler/scheduler_model.py:458-478 | an add puts one item into the list and its sum, and takes at most one out |
| `Ledger.AddsCommute` | containres/ideadatamodel/scheduler/scheduler_model.py:458-520 | adds under different keys commute up to list order: same map, same items, same sum |
| `Ledger.ApplyKeepsConsistent` | containres/ideadatamodel/scheduler/scheduler_model.py:350-536 | every operation, failing or not, keeps keys distinct and totals right; the totals fail if and only if there are no line items and the operation has savings to add or remove |
| `Ledger.ApplyRefinesTables` | containres/ideadatamodel/scheduler/scheduler_model.py:458-536 | every operation, also one that raises, does to its map what it says, and a removal answers false if and only if there is nothing to remove |
| `Ledger.RunRefinesTables` | containres/ideadatamodel/scheduler/scheduler_model.py:458-536 | after any operations the two lists hold what the same operations leave in two maps |
| `Ledger.AcceptedExactly` | containres/ideadatamodel/scheduler/scheduler_model.py:402-440 | an add is accepted exactly when title, service, product, quantity and unit price are given, and otherwise names the first one missing, in this order |
| `Ledger.AddLineItemExactly` | containres/ideadatamodel/scheduler/scheduler_model.py:401-480 | an accepted add writes, under its service and product, the given title, quantity, unit and price and the given total or quantity times price; an update of an existing key changes only quantity and total; a refused one changes nothing |
| `Ledger.AddSavingsExactly` | containres/ideadatamodel/scheduler/scheduler_model.py:401-520 | the same for savings, with the failing totals |
| `Ledger.RemoveUndoesAddLineItem` | containres/ideadatamodel/scheduler/scheduler_model.py:458-496 | an accepted add followed by the removal of its service and product answers true and leaves the key absent |
| `Ledger.RemoveUndoesAddSavings` | containres/ideadatamodel/scheduler/scheduler_model.py:498-536 | the same for savings, with the failing totals |
| `Ledger.PutKeepsOrder` | containres/ideadatamodel/scheduler/scheduler_model.py:458-478 | an add leaves every key in its place and puts a new one at the end of the list |
| `Ledger.RemoveKeepsOrder` | containres/ideadatamodel/scheduler/scheduler_model.py:482-492 | a removal keeps the order of the other keys |
| `Ledger.TotalsAreRight` | containres/ideadatamodel/scheduler/scheduler_model.py:350-386 | after any operations, once there are line items, both totals are the sums of their lists and the grand total is their difference |
| `Ledger.TotalExactly` | containres/ideadatamodel/scheduler/scheduler_model.py:350-536 | after any operations there is a grand total if and only if some add of a line item was accepted |
| `Ledger.SavingsFirstHaveNoTotal` | containres/ideadatamodel/scheduler/scheduler_model.py:350-360 | for example, savings added first are stored, but the totals fail |
| `Ledger.RunKeepsPriced` | containres/ideadatamodel/scheduler/scheduler_model.py:326-440 | if no add passes a total price, every item always costs quantity times unit price |
| `BomCost.LineItem.Replace` | containres/ideadatamodel/scheduler/scheduler_model.py:326-333 | the item takes over all fields |
| `BomCost.LineItem.Update` | containres/ideadatamodel/scheduler/scheduler_model.py:335-340 | the item takes the new quantity at its own unit price |
| `BomCost.GetLineItem` | containres/ideadatamodel/scheduler/scheduler_model.py:388-399 | finds the first item with both parts of the key |
| `BomCost.Cost.ComputeTotal` | containres/ideadatamodel/scheduler/scheduler_model.py:350-386 | recomputes the three totals from the lists as they are |
| `BomCost.Cost.AddLineItem` | containres/ideadatamodel/scheduler/scheduler_model.py:458-480 | changes the object as the ledger operation does, in place, and leaves the savings alone |
| `BomCost.Cost.RemoveLineItem` | containres/ideadatamodel/scheduler/scheduler_model.py:482-496 | the same for removal, with its answer |
| `BomCost.Cost.AddSavings` | containres/ideadatamodel/scheduler/scheduler_model.py:498-520 | the same for savings, including the failure without line items |
| `BomCost.Cost.RemoveSavings` | containres/ideadatamodel/scheduler/scheduler_model.py:522-536 | the same for removing savings |
| `JobRuns.RegistryAfterCalls` | containres/ideadatamodel/scheduler/scheduler_model.py:627-645 | the stored ids are the first ten distinct ids in order of first appearance; the count is their number plus the calls that were refused |
| `JobRuns.AnswerOfCall` | containres/ideadatamodel/scheduler/scheduler_model.py:627-645 | a call gets a run if and only if its id is among the ids stored in the end |
| `JobRuns.IdsStay` | containres/ideadatamodel/scheduler/scheduler_model.py:627-645 | stored ids stay stored, refused ids stay refused |
| `JobRuns.CountIsDistinctExactly` | containres/ideadatamodel/scheduler/scheduler_model.py:633-641 | the count is the number of distinct ids if and only if no refused id was asked for twice, as always with at most ten |
| `JobRuns.RefusedTwiceCountsTwice` | containres/ideadatamodel/scheduler/scheduler_model.py:633-641 | twelve calls with eleven ids and a count of twelve |
| `JobRuns.TotalBySurplus` | containres/ideadatamodel/scheduler/scheduler_model.py:735-747 | finished runs plus unfinished hosts equal hosts plus repeated runs |
| `JobRuns.CompleteIsAllFinishedExactly` | containres/ideadatamodel/scheduler/scheduler_model.py:732-747 | the decision differs from "every host has finished" if and only if repeated runs of some hosts make up for missing hosts |
| `JobRuns.CompleteWithoutRepeats` | containres/ideadatamodel/scheduler/scheduler_model.py:732-747 | with at most one finished run for each host it is exactly that |
| `JobRuns.CompleteWithoutAllFinished` | containres/ideadatamodel/scheduler/scheduler_model.py:732-747 | two finished runs of one host and none of another count as complete |
| `JobRuns.CompleteExactly` | containres/ideadatamodel/scheduler/scheduler_model.py:732-747 | in general it compares unfinished hosts with repeated runs |
| `JobExecution.Execution.GetOrCreateRun` | containres/ideadatamodel/scheduler/scheduler_model.py:627-645 | the object follows the registry, returns the stored run or a fresh one without status, and only appends |
| `JobExecution.Job.GetOrCreateExecutionHost` | containres/ideadatamodel/scheduler/scheduler_model.py:722-730 | the host with the name: a known one, or one that is new, without an execution and appended, if the name is new |
| `JobExecution.Job.IsExecutionComplete` | containres/ideadatamodel/scheduler/scheduler_model.py:732-747 | the nested loops compute the decision on the number of finished runs of each host |
| `JobExecution.FinishedCountsExactly` | containres/ideadatamodel/scheduler/scheduler_model.py:737-746 | that number is the number of indices of its runs that have a status |
| `ListEquality.SameMembersIsPermutation` | containres/ideadatamodel/projects/projects_model.py:74-97 | without duplicates on the right, equal length and one-way membership hold if and only if the lists are permutations |
| `ListEquality.SameMembersSymmetricExactly` | containres/ideadatamodel/projects/projects_model.py:74-97 | whatever passes the test with a list of texts on the right also passes it the other way round, if and only if that list has no duplicates |
| `ListEquality.DuplicatesBreakSymmetry` | containres/ideadatamodel/projects/projects_model.py:74-97 | a pair of lists that passes in one direction only |
| `ListEquality.ProjectEqualsSymmetricExactly` | containres/ideadatamodel/projects/projects_model.py:66-101 | every project that equals q is equalled by q if and only if q has no duplicates in its five lists |
| `ListEquality.StackEqualsSymmetricExactly` | containres/ideadatamodel/virtual_desktop/virtual_desktop_model.py:140-155 | the same for a software stack and the ids of its projects |
| `ListEquality.ProfileEqualsSymmetricExactly` | containres/ideadatamodel/virtual_desktop/virtual_desktop_model.py:221-232 | the same for a permission profile and its permissions |
| `ListEquality.ProjectEqualsExactly` | containres/ideadatamodel/projects/projects_model.py:66-101 | a project equals a duplicate-free one if and only if their contents agree up to the order of the five lists |
| `ListEquality.StackEqualsExactly` | containres/ideadatamodel/virtual_desktop/virtual_desktop_model.py:140-155 | a stack equals one with distinct project ids if and only if texts, bytes of memory and project ids up to order agree |
| `ListEquality.ProfileEqualsExactly` | containres/ideadatamodel/virtual_desktop/virtual_desktop_model.py:221-232 | a profile equals one without repeated permissions if and only if id, title, description and permissions up to order agree |
| `ListEquality.ProjectEqualsIsEquivalence` | containres/ideadatamodel/projects/projects_model.py:66-101 | equality is reflexive and transitive on all projects, and whatever equals a duplicate-free project is equalled by it |
| `ListEquality.StackEqualsIsEquivalence` | containres/ideadatamodel/virtual_desktop/virtual_desktop_model.py:140-155 | the same for software stacks, where the project ids decide, memory being compared by bytes |
| `ListEquality.ProfileEqualsIsEquivalence` | containres/ideadatamodel/virtual_desktop/virtual_desktop_model.py:221-232 | the same for permission profiles, where the permissions decide |
| `CloudPages.PagedApi.NextPage` | containres/ideasdk/aws/aws_util.py:290-311 | a turn of the paging loops requests the right page and goes on exactly when there is another |
| `CloudPages.CollectInstances` | containres/ideasdk/aws/aws_util.py:316-328 | one entry for each instance of each reservation, in order, with the fields of its own reservation |
| `CloudPages.InstanceAt` | containres/ideasdk/aws/aws_util.py:316-328 | the instance at each position, with the owner, requester and id of its own reservation |
| `CloudPages.NoOtherInstances` | containres/ideasdk/aws/aws_util.py:316-328 | there are no others |
| `CloudPages.RequestAt` | containres/ideasdk/aws/aws_util.py:290-306 | the first request carries no token, every later one the token of the page before |
| `CloudPages.DeliveryAt` | containres/ideasdk/aws/aws_util.py:308-335 | each page is delivered once, in its place |
| `CloudPages.ListedIsConcatenation` | containres/ideasdk/aws/aws_util.py:443-448 | the list of the first pages is the concatenation of their items |
| `CloudPages.DescribeInstances` | containres/ideasdk/aws/aws_util.py:281-335 | requests each page once and in order, up to the first without reservations, and delivers the same instances to the callback page by page or concatenated as a list |
| `CloudPages.DescribeSpotFleetInstances` | containres/ideasdk/aws/aws_util.py:409-456 | in list mode, returns the shortest prefix of pages that reaches the limit or everything up to a page without instances, each page requested once |
| `CloudPages.EndIsUnique` | containres/ideasdk/aws/aws_util.py:439-456 | these conditions leave one possible number of pages |
| `CloudPages.BatchesCoverIds` | containres/ideasdk/aws/aws_util.py:588-612 | ceil(n/20) batches of 1 to 20 ids whose concatenation is the list in order |
| `CloudPages.AutoScaling.DetachInstances` | containres/ideasdk/aws/aws_util.py:588-612 | detaching issues exactly these batches, in order, and ends |
| `InstanceClasses.ChainIsLongestPrefix` | containres/ideasdk/aws/aws_util.py:106-156 | the ordered chain answers a branch if and only if a token of it is the longest matching prefix in the whole table |
| `InstanceClasses.ClassOfFamilyOnly` | containres/ideasdk/aws/aws_util.py:106-156 | the class depends on the lower-case family alone, not on the size after the dot |
| `InstanceClasses.LongestMatchExists` | containres/ideasdk/aws/aws_util.py:106-156 | if any token matches there is a longest one, so the chain answers nothing only when no token matches |
| `InstanceClasses.TokensBelongToBranch` | containres/ideasdk/aws/aws_util.py:109-156 | every token is in the branch that its own first letters call for |
| `InstanceClasses.ChainIsBranch` | containres/ideasdk/aws/aws_util.py:84-156 | the chain is equivalent to a rule about the first letters with the documented exceptions |
| `InstanceClasses.StandardExactly` | containres/ideasdk/aws/aws_util.py:106-156 | which classes are standard: those that comments mark so, except H, and lm4gn and ls4gen without such a comment |
| `InstanceClasses.GetInstanceTypesForClass` | containres/ideasdk/aws/aws_util.py:161-173 | the loop lists each catalogue type with the prefix of the class once |
| `InstanceClasses.ListedExactly` | containres/ideasdk/aws/aws_util.py:78-173 | a lower-case type is listed for a class if and only if it is classified so or by one of five more special classes |
| `Scopes.SplitInvertsJoinExactly` | containres/ideasdk/auth/token_service.py:127-129 | joining with spaces and splitting is the identity if and only if the list is non-empty and its scopes are space-free |
| `Scopes.JoinInvertsSplit` | containres/ideasdk/auth/api_authorization_service_base.py:43-44 | splitting and joining is the identity on every text |
| `Authorization.ApiInvocationContext.GetDecodedToken` | containres/ideasdk/api/api_invocation_context.py:327-336 | nothing without an access token; otherwise what decoding gives, remembered unless it raises |
| `Authorization.ApiInvocationContext.GetAuthorization` | containres/ideasdk/api/api_invocation_context.py:338-370 | the memoised grant is always what socket, token or test header give, in this order; errors are not remembered |
| `Authorization.ApiInvocationContext.IsScopeAuthorized` | containres/ideasdk/api/api_invocation_context.py:101-108 | true if and only if the access token by itself is an app's grant that includes the scope; raises exactly when a token is there, the services are, and its grant raises (for an empty scope: its decoding), with the same error |
| `Authorization.ApiInvocationContext.IsAuthorizedApp` | containres/ideasdk/api/api_invocation_context.py:170-186 | apps with the read or write scope of the module |
| `Authorization.ApiInvocationContext.IsAuthorized` | containres/ideasdk/api/api_invocation_context.py:188-219 | the loop over six functions equals one formula: administrators always, users without elevation, apps with module access and all requested scopes, of which there is one |
| `Authorization.DecisionExactly` | containres/ideasdk/api/api_invocation_context.py:86-370 | in terms of the fields of the invocation: access is given if and only if it is from the socket, or its bearer token is not blank, decodes and allows it, or, without such a token in test mode, the header names an account that may |
| `Authorization.OtherTokensAreIgnored` | containres/ideasdk/api/api_invocation_context.py:86-91 | a token of another type, or a blank one, changes nothing, errors included |
| `Authorization.ErrorsExactly` | containres/ideasdk/api/api_invocation_context.py:338-370 | exactly when which error is raised |
| `Authorization.CallerIsNamedExactly` | containres/ideasdk/api/api_invocation_context.py:338-370 | in whose name the caller acts, for socket, test header, account and app; only apps hold scopes |
| `Authorization.DisabledAccountAllowedInTestMode` | containres/ideasdk/api/api_invocation_context.py:352-365 | an account that is not enabled and is allowed in test mode, while a token for it is refused |
| `Authorization.TokenDecisionExactly` | containres/ideasdk/auth/api_authorization_service_base.py:25-57 | a token allows enabled accounts, with elevation only administrators, and clients by their scopes |
| `Authorization.AppsComeFromTokens` | containres/ideasdk/auth/api_authorization_service_base.py:36-67 | only a token makes an app, and asking for a scope again gives membership in the granted scopes |
| `Authorization.ElevatedImpliesPlain` | containres/ideasdk/api/api_invocation_context.py:202-206 | access with elevation implies access without |
| `Authorization.GrantingMoreNeverRevokes` | containres/ideasdk/api/api_invocation_context.py:170-219 | more granted scopes, or fewer requested ones, never revoke access, except from an app that asks for no scope at all |
| `Authorization.AppHoldsJoinedScopesExactly` | containres/ideasdk/auth/api_authorization_service_base.py:36-57 | an app is granted exactly the scopes its client joined if and only if these are space-free and not all empty |
| `Authorization.ClientIsAllowedExactly` | containres/ideasdk/api/api_invocation_context.py:188-219 | what such a client may do, in terms of the scopes it joined |

## Left out

- IEEE doubles: memory values, quantities and prices are exact reals; infinities, NaN and rounding errors of the arithmetic are not modelled.
- Number texts with exponents, underscores, `inf` or `nan`, which the parser also accepts, and non-ASCII letters, digits and spaces.
- Comparisons of memory with None, numbers or texts, and sums with a text operand; sums of two quantities and equality by bytes are modelled.
- Loss of a lock's lease, shutting down the lock service, overlapping stop calls in one node, and a release that raises. The lock is a mutex, and releasing one that is not held does nothing.
- The DynamoDB lock, HTTP, JWT, boto and shell calls: each is a step that returns or raises.
- What a client is built with (endpoints, S3 and DynamoDB configuration), and which services are supported: a client is known by its service and region, and the set of services is a parameter.
- Checks of the token service's options, fetching by either grant type through one entry point, and the fields of a grant other than its token.
- A token that expires between two decodings within one API call; the token decoder and the account directory are fixed maps.
- Logging, broadcasting to listeners, sleeping between batches, and waiting times.
- Repeated or empty page tokens and endless chains of pages: the loops would request pages again or for ever. Filters and page sizes are not modelled.
- Spot-fleet listing with a callback: it takes the length of a list that was never made.
- `invoke_aws_listing` and the counting of reserved instances, which do not do what their names suggest.
- Instance types that are not strings of ASCII, and the catalogue itself, which is a parameter.
- Currency and locale of amounts, sharing of amount objects between items, and validation and copying of models. An add that succeeds is modelled as returning true, where the code returns nothing.
- Items that are changed by callers other than through the bill of materials.
- The currency inside a project's budget: budgets are compared by name and amounts.
- Grouping of jobs by hash, job parameters and provisioning options.
- The web application, command line, build and release tooling, templates, and modules that only declare requests and responses.
