# A verified model of parts of SpiderMonkey 1.7

This project models parts of the SpiderMonkey 1.7.0 JavaScript engine, as ported to eCos, in Dafny, and proves
what they promise. The port builds for 32-bit targets without native 64-bit integers, so words are 32 bits wide
and every wrap-around is written out. `dafny verify dfyconfig.toml` checks all of it.

What is modelled, one module each:

- `Options`, `Sequences`, `Words`: values that may be absent; distinct elements; 32-bit unsigned arithmetic and bit
  operations over integers.
- `LongLong` (jslong.h, jslong.c): 64-bit integers as pairs of words, with multiplication from 16-bit products and
  schoolbook division.
- `Interlock` (jsapi.c, jsgc.c, jslock.c): requests and the collector as a state machine. A step is what one thread
  does between acquiring gcLock and releasing it or going to sleep; the theorems are about all runs.
- `RequestHistory` (jsapi.c, jsgc.c): what the calls made so far say about such a state: nesting, and passes of the
  collector.
- `CollectorDeadlocks` (jsapi.c, jsgc.c): how the collector and a thread come to wait for each other.
- `Requests` (jsapi.c): the same functions on the structures they update, among them the list of scopes that
  JS_EndRequest filters in place.
- `ScopeClaims` (jslock.c): claiming a scope that another context owns, with the deadlock test.
- `WaitGraphs`, `ScopeDeadlocks` (jslock.c): which threads then wait for each other, how that begins, and whether it
  ends.
- `RuntimeDeadlocks`, `ClaimOutside` (jsapi.c, jsgc.c, jslock.c): `Interlock` and `ScopeClaims` run together, and when
  threads then wait for each other in a circle.
- `Sealing` (jsapi.c): JS_SealObject on a graph of objects that may be cyclic and may share scopes.
- `PropertyTree`, `PropertyIterator` (jsscope.h, jsscope.c, jsapi.c): scopes over the shared property tree, and the
  iterator that walks it while properties are deleted.
- `Formatters`, `Formats` (jsapi.c, jsinterp.c): the formatter table, the two format interpreters, and the stack
  that JS_PushArguments uses.
- `SrcNoteCode`, `SrcNotes`, `SrcNoteTypes` (jsemit.h, jsemit.c): source notes as a byte code with a meaning, the
  functions that take, patch, count, join and read them, and the types of notes the emitter takes.
- `ArenaPools` (jsarena.h, jsarena.c), `CLists` (jsclist.h), `AtomLists` (jsatom.h): structures updated in place.
- `TryNotes` (jsemit.c, jsscript.h, jsscript.c): exception tables, from the nesting of try statements to the search
  for a handler.
- `Bits` (jsbit.h, jslog2.c): logarithms and bitmaps.

Where the code and what is said about it differ, the model follows the code, and a lemma says exactly when:

- jsll_udivmod stores the dividend as the remainder when the divisor has its top bit set and is not greater than
  the dividend (`LongLong.LongDivide`). For signed operands that shows in one case only (`LongLong.Mod`).
- On the collector's own thread the assertion that requestCount is positive can fail (`Interlock.CollectorCounts`,
  `Interlock.CollectorCannotEnd`).
- Two contexts of one thread in requests at the same time can leave the collector and that thread waiting for each
  other for ever (`CollectorDeadlocks.StuckExactly`, `CollectorDeadlocks.TwoContextsDeadlock`); with one request
  per thread they cannot.
- Waiting for a scope is not always safe: the test for deadlock follows contexts, but it is threads that sleep
  (`ScopeDeadlocks.DeadlockBegins`, `ScopeDeadlocks.SameThreadStuck`). One request per thread prevents that and every
  mixture with waits for the collector (`RuntimeDeadlocks.DisciplinePreventsDeadlock`), but only if no scope is claimed
  outside the request (`ClaimOutside.ClaimOutsideDeadlocks`).
- JS_NextProperty can return a deleted property if it was the last one (`PropertyIterator.StaleExactly`,
  `PropertyIterator.StaleInRun`).
- Deep sealing can report success and miss objects when scopes are shared (`Sealing.SealsAllExactly`,
  `Sealing.SharedScopeEscapes`).
- The loops over a format can go on for ever when the empty format is registered (`Formats.ConvertEndsExactly`,
  `Formats.OddIsNeverLeft`, `Formats.PushEndsExactly`).
- Popping arguments pops one stack header too many when every slot was given back and the allocation had extended a
  segment (`Formats.PopUndoesPush`, `Formats.PopsOneTooMany`).
- A formatter may push one slot for each character of its format other than a space or a star, not for each
  character (`Formats.FrugalExactly`, `Formats.SlotPerCharacter`).
- Giving a three-byte operand of a source note a small value leaves two bytes too many (`SrcNotes.OperandIsSet`).
- The count of final source notes is too large when there are no main notes (`SrcNotes.CountIsEnough`), which is
  harmless.
- A block from before a mark that is grown in place behind it is lost when the mark is released, while it is in use
  (`ArenaPools.MarkedRunIsUndone`, `ArenaPools.OlderGrowthIsCut`).
- Sizes near the top of the address space are rounded up to zero (`ArenaPools.AlignRoundsUp`).

What the code obtains from outside is a parameter: whether memory can be had and where (`alloc`, `memory`, `mem`),
what other threads did during a wait (`wakes`, `between`), whether a conversion succeeds and how many slots a
formatter moves on by (`Env`), and whether JS_Enumerate succeeds on an object.

## Model

| member | source | states |
|---|---|---|
| LongLong.Eq | spidermonkey-1.7.0/services/spidermonkey/current/include/jslong.h:207 | two halves agree exactly when the 64-bit values do |
| LongLong.CmpLess | spidermonkey-1.7.0/services/spidermonkey/current/include/jslong.h:219-220 | strict signed comparison on halves is the signed order of the values |
| LongLong.CmpGreater | spidermonkey-1.7.0/services/spidermonkey/current/include/jslong.h:219-220 | the same for greater-than |
| LongLong.UCmpLess | spidermonkey-1.7.0/services/spidermonkey/current/include/jslong.h:221-222 | strict unsigned comparison on halves is the unsigned order of the values |
| LongLong.UCmpGreater | spidermonkey-1.7.0/services/spidermonkey/current/include/jslong.h:221-222 | the same for greater-than |
| LongLong.Neg | spidermonkey-1.7.0/services/spidermonkey/current/include/jslong.h:235-236 | negation modulo 2^64, also when the result is the operand |
| LongLong.Add | spidermonkey-1.7.0/services/spidermonkey/current/include/jslong.h:237-242 | addition modulo 2^64 |
| LongLong.Sub | spidermonkey-1.7.0/services/spidermonkey/current/include/jslong.h:244-249 | subtraction modulo 2^64 |
| LongLong.Mul32 | spidermonkey-1.7.0/services/spidermonkey/current/include/jslong.h:261-275 | the exact 64-bit product of any two words, no carry lost |
| LongLong.PartialProducts | spidermonkey-1.7.0/services/spidermonkey/current/include/jslong.h:258-268 | the four 16-bit products are those of the halves, and none wraps |
| LongLong.Mul | spidermonkey-1.7.0/services/spidermonkey/current/include/jslong.h:251-256 | multiplication modulo 2^64 |
| LongLong.ShiftLeft | spidermonkey-1.7.0/services/spidermonkey/current/include/jslong.h:318-332 | multiplication by a power of two modulo 2^64, for counts 0 to 63 |
| LongLong.ShiftRightUnsigned | spidermonkey-1.7.0/services/spidermonkey/current/include/jslong.h:369-383 | unsigned division by a power of two, for counts 0 to 63 |
| LongLong.ShiftRightSigned | spidermonkey-1.7.0/services/spidermonkey/current/include/jslong.h:353-367 | signed division by a power of two rounding down, for counts 0 to 63 |
| LongLong.CountLeadingZeros | spidermonkey-1.7.0/services/spidermonkey/current/src/jslong.c:98-116 | 32 for zero, otherwise the distance of the highest set bit from bit 31 |
| LongLong.NormalizingShift | spidermonkey-1.7.0/services/spidermonkey/current/src/jslong.c:131-140 | shifting by that count sets bit 31 and loses nothing |
| LongLong.DivideDigit | spidermonkey-1.7.0/services/spidermonkey/current/src/jslong.c:69-82 | one digit of the schoolbook division satisfies Euclid's identity with a remainder below the divisor |
| LongLong.Estimate | spidermonkey-1.7.0/services/spidermonkey/current/src/jslong.c:71-81 | the estimated digit is never too small and at most two too large |
| LongLong.CorrectDigit | spidermonkey-1.7.0/services/spidermonkey/current/src/jslong.c:75-82 | the two guarded corrections stop at the right digit, in wrapping arithmetic |
| LongLong.NormDivide | spidermonkey-1.7.0/services/spidermonkey/current/src/jslong.c:64-96 | Euclid's identity for a 64-bit number by a normalized word |
| LongLong.DivideByWord | spidermonkey-1.7.0/services/spidermonkey/current/src/jslong.c:127-195 | quotient and remainder by a divisor below 2^32 |
| LongLong.DivideByPair | spidermonkey-1.7.0/services/spidermonkey/current/src/jslong.c:240-272 | quotient and remainder by a divisor whose upper half is not zero and not normalized |
| LongLong.PairEstimate | spidermonkey-1.7.0/services/spidermonkey/current/src/jslong.c:254-261 | one comparison of the product with the dividend decides the only correction |
| LongLong.DivideTopBitSet | spidermonkey-1.7.0/services/spidermonkey/current/src/jslong.c:212-239 | for divisors of 2^63 and more the quotient is right, and the remainder is the dividend itself |
| LongLong.LongDivide | spidermonkey-1.7.0/services/spidermonkey/current/src/jslong.c:118-280 | the quotient is exact for every divisor; the remainder is exact unless the divisor has its top bit set and does not exceed the dividend |
| LongLong.UDivMod | spidermonkey-1.7.0/services/spidermonkey/current/src/jslong.c:192-195 | the same, written through the pointers that are not null |
| LongLong.TruncatedDivision | spidermonkey-1.7.0/services/spidermonkey/current/include/jslong.h:281-316 | truncated quotient and remainder, as in ISO C99 section 6.5.5 paragraph 6, are the only pair with a = q*b + r, a small remainder and the sign of a |
| LongLong.Div | spidermonkey-1.7.0/services/spidermonkey/current/include/jslong.h:281-298 | the truncated quotient exactly unless the least value is divided by -1, which wraps; operands may be the result |
| LongLong.Mod | spidermonkey-1.7.0/services/spidermonkey/current/include/jslong.h:300-316 | the truncated remainder exactly unless the least value is divided by itself, where the lost remainder shows |
| Interlock.StepKeepsInv | spidermonkey-1.7.0/services/spidermonkey/current/src/jsapi.c:809-916 | every critical section of a request function or of the collector keeps the bookkeeping invariant |
| Interlock.BeginKeepsInv | spidermonkey-1.7.0/services/spidermonkey/current/src/jsapi.c:809-834 | so does JS_BeginRequest, whether it enters or goes to sleep |
| Interlock.DecrementKeepsInv | spidermonkey-1.7.0/services/spidermonkey/current/src/jsapi.c:879-881 | lowering requestCount wakes the collector when it reaches zero |
| Interlock.YieldAgainKeepsInv | spidermonkey-1.7.0/services/spidermonkey/current/src/jsapi.c:892-916 | the second half of JS_YieldRequest re-enters only when no other thread collects |
| Interlock.StartGCKeepsInv | spidermonkey-1.7.0/services/spidermonkey/current/src/jsgc.c:2719-2815 | entry to a collection: nesting, debiting the own requests, waiting for another collector, waiting for requests |
| Interlock.JoinOwes | spidermonkey-1.7.0/services/spidermonkey/current/src/jsgc.c:2736-2785 | a thread that waits for another collector gives up exactly its own requests |
| Interlock.RepayKeepsInv | spidermonkey-1.7.0/services/spidermonkey/current/src/jsgc.c:2778-2785 | and takes exactly those back |
| Interlock.AwaitScopeKeepsInv | spidermonkey-1.7.0/services/spidermonkey/current/src/jslock.c:512-529 | a claimant that waits for a scope suspends its request under the same rules |
| Interlock.WakeKeepsInv | spidermonkey-1.7.0/services/spidermonkey/current/src/jslock.c:536-544 | and so do the resumption of that request and every other wakeup |
| Interlock.RunKeepsInv | spidermonkey-1.7.0/services/spidermonkey/current/src/jsapi.c:809-916 | the invariant holds in every state of every run, for any number of threads and contexts |
| Interlock.CollectorIsAlone | spidermonkey-1.7.0/services/spidermonkey/current/src/jsapi.c:809-916 | while the collector runs, no context of another thread is in a request and outside its released window |
| Interlock.CountIsExact | spidermonkey-1.7.0/services/spidermonkey/current/src/jsapi.c:816-827 | with no collection on, requestCount is the number of contexts in a request |
| Interlock.CountersNeverUnderflow | spidermonkey-1.7.0/services/spidermonkey/current/src/jsapi.c:878-902 | the assertions on requestCount never fail on a thread that is not collecting, and the debit never exceeds the count |
| Interlock.CollectorCounts | spidermonkey-1.7.0/services/spidermonkey/current/src/jsgc.c:2736-2765 | on the collector's own thread they hold exactly while more of its contexts are in a request than were debited |
| Interlock.CollectorCannotEnd | spidermonkey-1.7.0/services/spidermonkey/current/src/jsapi.c:878-881 | a context that starts a collection inside its own request can neither end nor yield that request while it runs: the count is zero |
| Interlock.NoLostWakeup | spidermonkey-1.7.0/services/spidermonkey/current/src/jsapi.c:881-915 | whoever sleeps without having been notified still has to wait |
| RequestHistory.DepthIsCounted | spidermonkey-1.7.0/services/spidermonkey/current/src/jsapi.c:809-890 | in every run requests nest: the depth of a context, or what ClaimScope has set aside of it, is the number of its calls of JS_BeginRequest that got in minus those of JS_EndRequest |
| RequestHistory.NoRequestWhileCollecting | spidermonkey-1.7.0/services/spidermonkey/current/src/jsapi.c:809-916 | while the collector runs, a context with an unmatched JS_BeginRequest is on its thread, or has stepped out in JS_YieldRequest, in js_GC or in ClaimScope |
| RequestHistory.PassesAreExact | spidermonkey-1.7.0/services/spidermonkey/current/src/jsgc.c:3128-3138 | at the end of a pass the collection is over if and only if js_GC was not called during the pass and nothing else asks for another one |
| RequestHistory.CallsWaitForAPass | spidermonkey-1.7.0/services/spidermonkey/current/src/jsgc.c:2767-2801 | a thread that calls js_GC while another one collects sleeps until a pass has ended; otherwise it becomes the collector |
| RequestHistory.RunningMayCall | spidermonkey-1.7.0/services/spidermonkey/current/src/jsapi.c:809-916 | a running thread may make every call at any time; only on the collector's thread can an assertion stand in the way |
| RequestHistory.OthersMayGoOn | spidermonkey-1.7.0/services/spidermonkey/current/src/jsapi.c:815-823 | a thread between two critical sections can go on, and a sleeping one once it is notified |
| RequestHistory.EntrantRuns | spidermonkey-1.7.0/services/spidermonkey/current/src/jsapi.c:813-833 | a thread that begins or re-enters a request runs on exactly if no other thread's collection is on, or if it is in one already |
| RequestHistory.WokenRuns | spidermonkey-1.7.0/services/spidermonkey/current/src/jsgc.c:2778-2793 | a thread that is woken runs on exactly if what it waits for has come |
| CollectorDeadlocks.StuckStays | spidermonkey-1.7.0/services/spidermonkey/current/src/jsgc.c:2791-2793 | once a thread has a busy context and is halted before entering a request while another thread's collection is pending, every step keeps it so |
| CollectorDeadlocks.StuckForEver | spidermonkey-1.7.0/services/spidermonkey/current/src/jsgc.c:2791-2793 | and so does every run: that collection never runs |
| CollectorDeadlocks.StuckBegins | spidermonkey-1.7.0/services/spidermonkey/current/src/jsapi.c:814-830 | for every kind of step the guard, checked before it, under which the step leads to that deadlock, and no other step does |
| CollectorDeadlocks.StuckExactly | spidermonkey-1.7.0/services/spidermonkey/current/src/jsapi.c:814-830 | so a thread is stuck at some point of a run if and only if such a step was taken before |
| CollectorDeadlocks.DisciplineKeepsOneRequest | spidermonkey-1.7.0/services/spidermonkey/current/src/jsapi.c:809-834 | if no thread starts a second request on another context, no thread ever has two |
| CollectorDeadlocks.DisciplinePreventsDeadlock | spidermonkey-1.7.0/services/spidermonkey/current/src/jsapi.c:809-834 | and none is ever stuck |
| CollectorDeadlocks.CollectorWaitsForRunningThreads | spidermonkey-1.7.0/services/spidermonkey/current/src/jsgc.c:2791-2793 | then the collector only waits for running threads, and somebody can always move |
| CollectorDeadlocks.TwoContextsDeadlock | spidermonkey-1.7.0/services/spidermonkey/current/src/jsapi.c:814-830 | without that discipline a run of three steps leaves a thread stuck and nobody able to move |
| Requests.Runtime.ShareOwned | spidermonkey-1.7.0/services/spidermonkey/current/src/jsapi.c:850-876 | the in-place loop leaves the list of scopes not owned by the context, in order; each removed scope loses one reference and its link, each survivor is shared; the number of survivors is returned |
| Requests.WithoutKeepsOrder | spidermonkey-1.7.0/services/spidermonkey/current/src/jsapi.c:850-876 | what stays on the list stays in its order |
| Requests.SurvivorsAreCounted | spidermonkey-1.7.0/services/spidermonkey/current/src/jsapi.c:862-876 | the number returned is that of the scopes the context owns and others refer to |
| Requests.Runtime.Unlink | spidermonkey-1.7.0/services/spidermonkey/current/src/jsapi.c:853-859 | taking one scope out through the pointer to the link before it |
| Requests.Runtime.EndRequest | spidermonkey-1.7.0/services/spidermonkey/current/src/jsapi.c:835-890 | the outermost call shares or destroys each of the context's scopes on the list, field by field, leaves the others alone, counts down and says whom to notify; a nested one only lowers the depth |
| Requests.Runtime.AwaitNoGC | spidermonkey-1.7.0/services/spidermonkey/current/src/jsapi.c:815-823 | the wait returns only when this thread may enter, and leaves all shared counters as the first wakeup that found no collection showed them |
| Requests.Runtime.BeginRequest | spidermonkey-1.7.0/services/spidermonkey/current/src/jsapi.c:809-834 | the outermost call waits and counts one request, and changes nothing else; a nested one only raises the depth |
| Requests.Runtime.YieldRequest | spidermonkey-1.7.0/services/spidermonkey/current/src/jsapi.c:892-916 | one out, whatever the others do in between, and one in; the collector's fields are what the others left |
| Requests.Runtime.SuspendRequest | spidermonkey-1.7.0/services/spidermonkey/current/src/jsapi.c:918-926 | the old depth is returned, depth zero is left, and the count falls by one only if the depth was positive |
| Requests.Runtime.ResumeRequest | spidermonkey-1.7.0/services/spidermonkey/current/src/jsapi.c:928-934 | the depth is restored and the context counted once, after the wait, and nothing else changes |
| Requests.Runtime.SuspendAndResume | spidermonkey-1.7.0/services/spidermonkey/current/src/jsapi.c:918-934 | suspending and resuming with nobody in between leaves depth and counters as they were |
| Requests.Runtime.BeginAndEnd | spidermonkey-1.7.0/services/spidermonkey/current/src/jsapi.c:809-890 | so does a request that begins and ends, nested or not |
| ScopeClaims.WillDeadlock | spidermonkey-1.7.0/services/spidermonkey/current/src/jslock.c:297-310 | the walk terminates and is true exactly when the context is on the chain of owners |
| ScopeClaims.WaitKeepsAcyclic | spidermonkey-1.7.0/services/spidermonkey/current/src/jslock.c:484-529 | waiting after the test came out false closes no cycle |
| ScopeClaims.OwnerChanges | spidermonkey-1.7.0/services/spidermonkey/current/src/jslock.c:430-494 | for every kind of step: a scope leaves its owner only at the end of its outermost request, if somebody waits, or by a claim under the conditions of ClaimScope |
| ScopeClaims.RunKeepsInv | spidermonkey-1.7.0/services/spidermonkey/current/src/jslock.c:417-563 | in every run of claims, ends and wakeups the wait-for graph stays acyclic and every listed scope has an owner that will end its request |
| ScopeClaims.NobodyWaitsForItself | spidermonkey-1.7.0/services/spidermonkey/current/src/jslock.c:289-310 | no context ever waits for itself, directly or through others |
| ScopeClaims.SafeToWait | spidermonkey-1.7.0/services/spidermonkey/current/src/jslock.c:523-530 | the chain of owners from a scope waited for ends at a context that waits for nothing itself and is in a request, or has suspended one, that it will end |
| ScopeClaims.WakeAgain | spidermonkey-1.7.0/services/spidermonkey/current/src/jslock.c:430-558 | a thread that wakes up while the scope is still owned goes round the loop and back to sleep, and nothing has changed |
| WaitGraphs.DoomedIsDeadlocked | spidermonkey-1.7.0/services/spidermonkey/current/src/jslock.c:523-530 | where every thread waits for one other at most, those whose chain of waits never ends only wait for each other |
| WaitGraphs.DeadlockedIsDoomed | spidermonkey-1.7.0/services/spidermonkey/current/src/jslock.c:523-530 | and threads that only wait for each other are among them |
| ScopeDeadlocks.WaitersAreServed | spidermonkey-1.7.0/services/spidermonkey/current/src/jslock.c:523-530 | in every run, every other wait ends with an owner that can end its request now, or with a thread whose scope is shared already |
| ScopeDeadlocks.DeadlockStays | spidermonkey-1.7.0/services/spidermonkey/current/src/jslock.c:430-563 | a set of threads that only wait for each other survives a step exactly unless that is the collector's claim of a scope that one of the threads sleeps for |
| ScopeDeadlocks.DeadlockForEver | spidermonkey-1.7.0/services/spidermonkey/current/src/jslock.c:430-563 | so in a run without such claims it lasts for ever |
| WaitGraphs.CycleCloses | spidermonkey-1.7.0/services/spidermonkey/current/src/jslock.c:484-529 | a new wait closes the first cycle exactly when the thread waited for leads back to the waiting one |
| ScopeDeadlocks.DeadlockBegins | spidermonkey-1.7.0/services/spidermonkey/current/src/jslock.c:445-529 | for every kind of step: it leads to the first deadlock of threads if and only if it is a claim that waits although the owner's thread waits for the claimant's, which the test on contexts does not notice |
| ScopeDeadlocks.NoDeadlock | spidermonkey-1.7.0/services/spidermonkey/current/src/jslock.c:417-563 | a run without such claims has no deadlock |
| ScopeDeadlocks.DeadlockIsEntangled | spidermonkey-1.7.0/services/spidermonkey/current/src/jslock.c:289-310 | a deadlock takes a thread with two contexts in requests, one asleep in ClaimScope; otherwise the test on contexts is enough |
| ScopeDeadlocks.SameThreadStuck | spidermonkey-1.7.0/services/spidermonkey/current/src/jslock.c:445-448 | a run of six steps that deadlocks: a thread waits for a scope owned by its own other context |
| RuntimeDeadlocks.StepKeepsInv | spidermonkey-1.7.0/services/spidermonkey/current/src/jslock.c:512-558 | requests, the collector and claims of scopes run together: in every step of any thread the two parts agree on requests, on the collector and on who waits for a scope, and each keeps its invariant |
| RuntimeDeadlocks.RunKeepsInv | spidermonkey-1.7.0/services/spidermonkey/current/src/jslock.c:512-558 | and so in every run |
| RuntimeDeadlocks.RunningMayClaim | spidermonkey-1.7.0/services/spidermonkey/current/src/jslock.c:417-430 | a running context may claim any scope that it does not own, whatever state the others are in |
| RuntimeDeadlocks.DisciplineKeepsOneRequest | spidermonkey-1.7.0/services/spidermonkey/current/src/jsapi.c:809-834 | if contexts start requests, and claim scopes, only when no other context of their thread is in a request, no thread ever has two |
| RuntimeDeadlocks.DisciplinePreventsDeadlock | spidermonkey-1.7.0/services/spidermonkey/current/src/jslock.c:512-529 | then no threads ever wait for each other in a circle, be it for the collector, for requests to end, or for scopes |
| RuntimeDeadlocks.FreeToMove | spidermonkey-1.7.0/services/spidermonkey/current/src/jslock.c:536-544 | a thread that sleeps waits for another one, or has been woken, or its scope is shared |
| ClaimOutside.ClaimOutsideDeadlocks | spidermonkey-1.7.0/services/spidermonkey/current/src/jslock.c:512-529 | a run of eleven steps with one request per thread, in which a context outside any request claims a scope: the collector, a claimant and a resuming request wait for each other, and neither part alone shows it |
| Sealing.SealObject | spidermonkey-1.7.0/services/spidermonkey/current/src/jsapi.c:2396-2456 | terminates on cyclic graphs; never unseals; whatever scopes are shared, a deep call seals what the search Deep seals, and succeeds when it does; a shallow one seals the object and those that share its scope, if it owns that |
| Sealing.SealSlots | spidermonkey-1.7.0/services/spidermonkey/current/src/jsapi.c:2446-2455 | the same for the loop over the slots of an object just sealed |
| Sealing.SealScope | spidermonkey-1.7.0/services/spidermonkey/current/src/jsapi.c:2433-2440 | the scope sealed is the object's own, made for it if it shared another's; what is sealed with it, and when this fails |
| Sealing.GetMutableScope | spidermonkey-1.7.0/services/spidermonkey/current/src/jsscope.c:62-82 | the object's own scope, or a fresh unsealed one in place of a shared one, or failure without a change |
| Sealing.DeepExplained | spidermonkey-1.7.0/services/spidermonkey/current/src/jsapi.c:2423-2455 | a search walks only objects it reaches through unsealed ones, seals them with those that share their scopes and nothing else, finishes all it walks or meets an obstacle |
| Sealing.FailsAtSlot | spidermonkey-1.7.0/services/spidermonkey/current/src/jsapi.c:2446-2455 | a search through the slots that fails does so at one of them, with all earlier ones sealed and later ones not looked at |
| Sealing.DeepIsExact | spidermonkey-1.7.0/services/spidermonkey/current/src/jsapi.c:2423-2455 | when no object reached shares the scope another one reached owns, success seals all that is reached, and it comes exactly when each of these is native and sealed or able to be |
| Sealing.OwnersAreSealed | spidermonkey-1.7.0/services/spidermonkey/current/src/jsapi.c:2423-2455 | when every object owns its scope, success seals just what is reached, under the same condition |
| Sealing.UndamagedIsSealed | spidermonkey-1.7.0/services/spidermonkey/current/src/jsapi.c:2423-2425 | success seals all that is reached unless two of these objects are sealed together and a third is not sealed with them |
| Sealing.SealsAllExactly | spidermonkey-1.7.0/services/spidermonkey/current/src/jsapi.c:2423-2425 | and no weaker condition on the objects reached and their scopes will do: it holds if and only if success seals all of them for every graph |
| Sealing.HeirIsPassedBy | spidermonkey-1.7.0/services/spidermonkey/current/src/jsapi.c:2423-2425 | the search over an object that shares its prototype's scope succeeds without what only that object leads to |
| Sealing.SharedScopeEscapes | spidermonkey-1.7.0/services/spidermonkey/current/src/jsapi.c:2396-2456 | the call on such objects, all unsealed at first, returns true and leaves a reachable one unsealed |
| PropertyTree.SearchLineFinds | spidermonkey-1.7.0/services/spidermonkey/current/src/jsscope.c:252-263 | the linear search finds the node with the id exactly when the line has one |
| PropertyTree.ClearFlagMeansDense | spidermonkey-1.7.0/services/spidermonkey/current/include/jsscope.h:94-116 | with the middle-delete flag clear, the scope has exactly the nodes on the line of its last property |
| PropertyTree.HasIsOnLine | spidermonkey-1.7.0/services/spidermonkey/current/include/jsscope.h:94-116 | with the flag set it still has only nodes on that line |
| PropertyTree.Scope.CreateTable | spidermonkey-1.7.0/services/spidermonkey/current/src/jsscope.c:101-137 | a hash table is built from the line without changing what the scope has |
| PropertyTree.Scope.RemoveLastProp | spidermonkey-1.7.0/services/spidermonkey/current/src/jsscope.c:1355-1361 | the last property becomes the nearest ancestor that is still in the scope |
| PropertyTree.RemovedLast | spidermonkey-1.7.0/services/spidermonkey/current/src/jsscope.c:1355-1361 | deleting the last property removes it and nothing else, also behind earlier middle deletes |
| PropertyTree.RemovedMiddle | spidermonkey-1.7.0/services/spidermonkey/current/src/jsscope.c:1362-1364 | deleting from the middle removes it and nothing else, and sets the flag |
| PropertyTree.Scope.Remove | spidermonkey-1.7.0/services/spidermonkey/current/src/jsscope.c:1304-1375 | the scope keeps its other properties in definition order; fails, without a change, exactly when sealed or out of memory for a needed table |
| PropertyTree.Scope.ForkLine | spidermonkey-1.7.0/services/spidermonkey/current/src/jsscope.c:1019-1114 | the repair squeezes deleted nodes out of the line and keeps the properties and their order |
| PropertyTree.ForkedContents | spidermonkey-1.7.0/services/spidermonkey/current/src/jsscope.c:1085-1108 | the forked line has the same labels |
| PropertyTree.Scope.Overwrite | spidermonkey-1.7.0/services/spidermonkey/current/src/jsscope.c:974-1007 | redefining gives up the old entry, from the end or from the middle; only the latter sets the flag |
| PropertyTree.Scope.Add | spidermonkey-1.7.0/services/spidermonkey/current/src/jsscope.c:869-1190 | an equal property is left alone; any other ends up last, with the old one of that id gone, the order of the rest kept and the line dense; exact conditions for failure and for a new hash table |
| PropertyIterator.Iterator.Native | spidermonkey-1.7.0/services/spidermonkey/current/src/jsapi.c:3359-3363 | a native object is iterated from its last property only if it owns its scope |
| PropertyIterator.Iterator.NonNative | spidermonkey-1.7.0/services/spidermonkey/current/src/jsapi.c:3364-3380 | any other object is iterated over a fixed list of ids |
| PropertyIterator.Iterator.Next | spidermonkey-1.7.0/services/spidermonkey/current/src/jsapi.c:3392-3445 | the next node that passes the test, or void with the cursor left alone; the list is consumed from its end |
| PropertyIterator.ReturnedIsLive | spidermonkey-1.7.0/services/spidermonkey/current/src/jsapi.c:3419-3424 | a returned node is in the scope exactly when the flag is set or the node is still on the line |
| PropertyIterator.StaleExactly | spidermonkey-1.7.0/services/spidermonkey/current/src/jsapi.c:3419-3424 | a call returns a property that is not in the scope if and only if the flag is clear and the first visible node at or above the cursor is off the line |
| PropertyIterator.StaleInRun | spidermonkey-1.7.0/services/spidermonkey/current/src/jsapi.c:3411-3432 | after any run of calls and deletes, of last properties too, that happens if and only if no delete was from the middle and that node was deleted |
| PropertyIterator.ReturnedAnswers | spidermonkey-1.7.0/services/spidermonkey/current/src/jsapi.c:3401-3432 | what the calls return is their answers without the void ones |
| PropertyIterator.IterationIsExact | spidermonkey-1.7.0/services/spidermonkey/current/src/jsapi.c:3401-3432 | over an unchanging scope the calls return the enumerable, unaliased ids that are in it, newest first, each once |
| PropertyIterator.VoidForever | spidermonkey-1.7.0/services/spidermonkey/current/src/jsapi.c:3426-3427 | after the first void every later call returns void, in any interleaving with middle deletes |
| PropertyIterator.CallsAreExact | spidermonkey-1.7.0/services/spidermonkey/current/src/jsapi.c:3401-3432 | for any number of calls on an unchanging scope: the k-th returns the k-th newest visible id while there is one, and void from then on |
| PropertyIterator.DeleteIsSeen | spidermonkey-1.7.0/services/spidermonkey/current/src/jsapi.c:3411-3424 | in any interleaving of calls and middle deletes, a deleted id is returned by no later call |
| PropertyIterator.DeletedIsNotReturned | spidermonkey-1.7.0/services/spidermonkey/current/src/jsapi.c:3411-3424 | an id that is not in the scope stays unreturned |
| PropertyIterator.ReturnedOnce | spidermonkey-1.7.0/services/spidermonkey/current/src/jsapi.c:3419-3432 | in any such interleaving no id is returned twice |
| PropertyIterator.NothingIsSkipped | spidermonkey-1.7.0/services/spidermonkey/current/src/jsapi.c:3419-3432 | and a visible property that is never deleted is returned before void is |
| PropertyIterator.LastDeleteIsMissed | spidermonkey-1.7.0/services/spidermonkey/current/include/jsscope.h:235-255 | deleting the last property while the cursor is at it goes unnoticed, because the flag stays clear |
| Formatters.Context.AddArgumentFormatter | spidermonkey-1.7.0/services/spidermonkey/current/src/jsapi.c:407-434 | the linked list becomes the ordered list with the format added or its formatter replaced; fails exactly when a new entry is needed and there is no memory |
| Formatters.Context.RemoveArgumentFormatter | spidermonkey-1.7.0/services/spidermonkey/current/src/jsapi.c:436-452 | the linked list becomes the ordered list without the format |
| Formatters.Context.TryArgumentFormatter | spidermonkey-1.7.0/services/spidermonkey/current/src/jsapi.c:135-152 | the first entry whose format is a prefix of the input |
| Formatters.AddRefines | spidermonkey-1.7.0/services/spidermonkey/current/src/jsapi.c:414-433 | adding keeps the list sorted by length without duplicates and is an update of the map it stands for |
| Formatters.RemoveRefines | spidermonkey-1.7.0/services/spidermonkey/current/src/jsapi.c:443-451 | removing keeps that too and is a removal from the map |
| Formatters.DispatchIsLongestPrefix | spidermonkey-1.7.0/services/spidermonkey/current/src/jsapi.c:142-150 | the first prefix is the longest registered one, with its formatter; there is none exactly when no registered format is a prefix |
| Formatters.HistoryRefinesMap | spidermonkey-1.7.0/services/spidermonkey/current/src/jsapi.c:407-452 | after any sequence of adds and removes, with and without memory, the list is ordered and stands for the map the sequence builds |
| Formatters.DispatchAfterHistory | spidermonkey-1.7.0/services/spidermonkey/current/src/jsapi.c:142-150 | so dispatch takes the longest format that sequence leaves registered |
| Formats.ConvertArguments | spidermonkey-1.7.0/services/spidermonkey/current/src/jsapi.c:166-276 | the loop over the format is the run of its steps from argument zero, whenever it ends |
| Formats.ConvertEndsExactly | spidermonkey-1.7.0/services/spidermonkey/current/src/jsapi.c:179-273 | the loop is left after some number of turns if and only if no empty format is matched whose formatter misses argc |
| Formats.StayEnds | spidermonkey-1.7.0/services/spidermonkey/current/src/jsapi.c:188-201 | the formatter of an empty format gets to argc exactly when it moves by a divisor of the distance |
| Formats.OddIsNeverLeft | spidermonkey-1.7.0/services/spidermonkey/current/src/jsapi.c:188-201 | a formatter of the empty format that moves by two is called for ever when the number of arguments is odd |
| Formats.BuiltinConversions | spidermonkey-1.7.0/services/spidermonkey/current/src/jsapi.c:179-275 | with built-in specifiers, whatever their conversions do: success exactly when argc covers the specifiers before the first '/' and every specifier that has an argument can be converted; the k-th gets the k-th argument, up to the first that fails |
| Formats.BuiltinsTakeOne | spidermonkey-1.7.0/services/spidermonkey/current/src/jsapi.c:203-262 | each of the built-in letters takes one character and one slot in both interpreters, whatever formatters are registered |
| Formats.SpacesAreSkipped | spidermonkey-1.7.0/services/spidermonkey/current/src/jsapi.c:179-181 | blank, tab, newline, vertical tab, form feed and return are passed over, and in JS_PushArguments stars too, and nothing else |
| Formats.ConvertLeaves | spidermonkey-1.7.0/services/spidermonkey/current/src/jsapi.c:179-275 | for any format and formatters: the call succeeds exactly when the loop is left at the end of the format, or with all arguments used behind a '/' |
| Formats.FailureIsReported | spidermonkey-1.7.0/services/spidermonkey/current/src/jsapi.c:188-201 | a specifier that has an argument and whose conversion or formatter fails, or that no format matches, makes the call fail, also behind a '/' |
| Formats.StaysInArguments | spidermonkey-1.7.0/services/spidermonkey/current/src/jsapi.c:188-201 | with formatters too, no argument at or beyond argc is used and sp does not pass the end, exactly when no step of several slots passes it |
| Formats.EmptyFormatIsStuck | spidermonkey-1.7.0/services/spidermonkey/current/src/jsapi.c:142-150 | an iteration consumes nothing exactly when the empty format is registered and no other one matches |
| Formats.CountSlots | spidermonkey-1.7.0/services/spidermonkey/current/src/jsapi.c:304-312 | the slots set aside are the characters other than spaces and stars |
| Formats.PushArguments | spidermonkey-1.7.0/services/spidermonkey/current/src/jsapi.c:290-398 | whenever the loop ends: the slots of the run of the format's steps, on a stack that is as before on failure; what is left over is given back |
| Formats.PushEndsExactly | spidermonkey-1.7.0/services/spidermonkey/current/src/jsapi.c:314-377 | the loop is left after some number of turns if and only if the empty format is never matched |
| Formats.PushFits | spidermonkey-1.7.0/services/spidermonkey/current/src/jsapi.c:379-383 | the assertion after the loop holds if each formatter that can be reached pushes at most as many slots as its format has characters other than spaces and stars |
| Formats.PushesOnlyThis | spidermonkey-1.7.0/services/spidermonkey/current/src/jsapi.c:314-377 | behind stars any such format is pushed by its own formatter alone, at any position |
| Formats.FrugalExactly | spidermonkey-1.7.0/services/spidermonkey/current/src/jsapi.c:379-383 | the assertion holds for all formats if and only if every formatter that can be reached is like that |
| Formats.SlotPerCharacter | spidermonkey-1.7.0/services/spidermonkey/current/src/jsapi.c:303-312 | formatters that push one slot for each character of their format are safe if and only if none of these formats has a space or a star in it |
| Formats.SlotsAgree | spidermonkey-1.7.0/services/spidermonkey/current/src/jsapi.c:179-393 | without '*' and '/' both interpreters give a specifier the same slot |
| Formats.StarsShiftSlots | spidermonkey-1.7.0/services/spidermonkey/current/src/jsapi.c:179-393 | without '/', wherever reading succeeds pushing does, and reading gives each specifier the slot of pushing plus one for every star before it that no formatter took |
| Formats.SameFormatsSucceed | spidermonkey-1.7.0/services/spidermonkey/current/src/jsapi.c:179-393 | and reading succeeds with some number of arguments if and only if pushing does |
| Formats.AllocatedIsLaid | spidermonkey-1.7.0/services/spidermonkey/current/src/jsinterp.c:355-415 | the slots handed out are above all in use, at the end of the innermost segment, and no two segments and headers overlap |
| Formats.GivenBackIsLaid | spidermonkey-1.7.0/services/spidermonkey/current/src/jsapi.c:384-392 | giving unused slots back keeps that layout |
| Formats.FreedIsLaid | spidermonkey-1.7.0/services/spidermonkey/current/src/jsinterp.c:417-440 | and so does freeing down to a mark |
| Formats.HeaderCoversPushed | spidermonkey-1.7.0/services/spidermonkey/current/src/jsapi.c:384-392 | the innermost stack segment ends with the slots pushed exactly when no more were pushed than set aside |
| Formats.PopUndoesPush | spidermonkey-1.7.0/services/spidermonkey/current/src/jsinterp.c:417-440 | popping restores the stack exactly unless nothing is left of an allocation that extended a segment; then the header of a segment in use is popped |
| Formats.PopsOneTooMany | spidermonkey-1.7.0/services/spidermonkey/current/src/jsinterp.c:417-440 | which happens with any format whose formatter pushes nothing |
| Formats.Stack.Alloc | spidermonkey-1.7.0/services/spidermonkey/current/src/jsinterp.c:355-415 | slots in the last segment if it ends at the free space, otherwise in a new one; none on overflow |
| Formats.Stack.Free | spidermonkey-1.7.0/services/spidermonkey/current/src/jsinterp.c:417-440 | the last segment is cut or popped by an unsigned distance |
| SrcNoteCode.NoteBits | spidermonkey-1.7.0/services/spidermonkey/current/include/jsemit.h:599-607 | the shifts and masks of the note macros are quotients and remainders |
| SrcNoteCode.RoomIsExact | spidermonkey-1.7.0/services/spidermonkey/current/src/jsemit.c:6574-6578 | adding to the byte of a note adds to its delta alone exactly as long as the delta stays below the limit of its type |
| SrcNoteCode.MadeBits | spidermonkey-1.7.0/services/spidermonkey/current/include/jsemit.h:592-607 | the bytes the macros make are sums, and are read back as what they were made from |
| SrcNoteCode.OperandBits | spidermonkey-1.7.0/services/spidermonkey/current/include/jsemit.h:620-621 | the flag of an operand's first byte is its top bit, and the mask takes the rest |
| SrcNoteCode.WideBits | spidermonkey-1.7.0/services/spidermonkey/current/src/jsemit.c:6619-6623 | shifts and disjunctions put three bytes together as a number |
| SrcNoteCode.RoundTrip | spidermonkey-1.7.0/services/spidermonkey/current/include/jsemit.h:496-506 | decoding the encoding of any list of notes, with extended deltas and operands of one and three bytes, gives the list back before whatever follows |
| SrcNoteCode.TerminatedRoundTrip | spidermonkey-1.7.0/services/spidermonkey/current/include/jsemit.h:634-640 | with a terminator it gives just the list |
| SrcNoteCode.XDeltaCount | spidermonkey-1.7.0/services/spidermonkey/current/include/jsemit.h:692-693 | the number of extended deltas is the closed form the size count uses |
| SrcNoteCode.XDeltasAreFewest | spidermonkey-1.7.0/services/spidermonkey/current/src/jsemit.c:6488-6497 | no other choice of extended deltas needs fewer |
| SrcNotes.Section.Alloc | spidermonkey-1.7.0/services/spidermonkey/current/src/jsemit.c:6434-6462 | a byte is appended; the vector is made when there is none, and doubled exactly when it is full or empty |
| SrcNotes.Section.NewSrcNote | spidermonkey-1.7.0/services/spidermonkey/current/src/jsemit.c:6464-6510 | the encoding of the note with zero operands is appended, and its own position returned |
| SrcNotes.NewSrcNote2 | spidermonkey-1.7.0/services/spidermonkey/current/src/jsemit.c:6512-6524 | the encoding of the note with its first operand is appended and its own position returned; fails exactly when the operand does not fit in 23 bits, with the operands left zero |
| SrcNotes.NewSrcNote3 | spidermonkey-1.7.0/services/spidermonkey/current/src/jsemit.c:6526-6540 | the same with two operands |
| SrcNotes.Section.SetSrcNoteOffset | spidermonkey-1.7.0/services/spidermonkey/current/src/jsemit.c:6627-6678 | fails exactly for operands that do not fit, negative ones included; otherwise one operand's bytes are replaced, within the vector |
| SrcNotes.OperandIsSet | spidermonkey-1.7.0/services/spidermonkey/current/src/jsemit.c:6640-6676 | what is left is the encoding with that operand and everything else as it was, exactly unless a three-byte operand is given a one-byte value |
| SrcNotes.ShrinkingMisreads | spidermonkey-1.7.0/services/spidermonkey/current/src/jsemit.c:6650-6676 | in that case the notes that follow can be misread |
| SrcNotes.GetSrcNoteOffset | spidermonkey-1.7.0/services/spidermonkey/current/src/jsemit.c:6609-6625 | the value of the operand |
| SrcNotes.SrcNoteLength | spidermonkey-1.7.0/services/spidermonkey/current/src/jsemit.c:6595-6606 | the note ends where its last operand does |
| SrcNotes.ReadNotes | spidermonkey-1.7.0/services/spidermonkey/current/include/jsemit.h:634-640 | a walk from note to note up to the terminator reads what the vector means |
| SrcNotes.Section.AddToSrcNoteDelta | spidermonkey-1.7.0/services/spidermonkey/current/src/jsemit.c:6560-6592 | the delta is added to the note if there is room, otherwise in an extended delta before it; the note's place is returned |
| SrcNotes.AddDeltaDecodes | spidermonkey-1.7.0/services/spidermonkey/current/src/jsemit.c:6560-6592 | either way the note and all behind it move by that delta |
| SrcNotes.CodeGenerator.FinishTakingSrcNotes | spidermonkey-1.7.0/services/spidermonkey/current/src/jsemit.c:6715-6767 | the joined vector is written within the space counted; fails exactly when the line number does not fit |
| SrcNotes.FinalMeans | spidermonkey-1.7.0/services/spidermonkey/current/src/jsemit.c:6722-6767 | it means the prolog's notes, the line note if one is needed, and the main notes with the rest of the prolog added to the first delta |
| SrcNotes.MoveBehindLine | spidermonkey-1.7.0/services/spidermonkey/current/src/jsemit.c:6725-6731 | each main note is at its own pc plus the prolog length behind the line note |
| SrcNotes.MoveLater | spidermonkey-1.7.0/services/spidermonkey/current/src/jsemit.c:6732-6758 | and also when the first delta is enlarged instead |
| SrcNotes.TakenNote | spidermonkey-1.7.0/services/spidermonkey/current/src/jsemit.c:6481-6497 | taking a note keeps the bytes an encoding and its last pc at the place of the last note |
| SrcNotes.CodeGenerator.CountFinalSrcNotes | spidermonkey-1.7.0/services/spidermonkey/current/include/jsemit.h:686-705 | the macro's count |
| SrcNotes.CountIsEnough | spidermonkey-1.7.0/services/spidermonkey/current/include/jsemit.h:686-705 | the count covers the vector, and is exact unless the main code has no notes and the prolog ends behind its last one |
| SrcNoteTypes.EmittedDecodes | spidermonkey-1.7.0/services/spidermonkey/current/src/jsemit.c:6406-6432 | a note of a type the emitter takes, with the operands the emitter gives that type, is read back as just that note |
| SrcNoteTypes.EveryTypeIsEmitted | spidermonkey-1.7.0/services/spidermonkey/current/include/jsemit.h:525-568 | every type but the reserved ones is taken with one number of operands |
| SrcNoteTypes.TakeBare | spidermonkey-1.7.0/services/spidermonkey/current/src/jsemit.c:6464-6510 | types without operands: after js_NewSrcNote the vector means the notes before and this one |
| SrcNoteTypes.TakeWithOne | spidermonkey-1.7.0/services/spidermonkey/current/src/jsemit.c:6512-6524 | types with one operand, which can be anything below 2^23 |
| SrcNoteTypes.TakeWithTwo | spidermonkey-1.7.0/services/spidermonkey/current/src/jsemit.c:6526-6540 | an if-else and a switch have two |
| SrcNoteTypes.TakeFor | spidermonkey-1.7.0/services/spidermonkey/current/src/jsemit.c:4527-4602 | a for loop takes its note and sets three operands, and the vector means the notes before and this one with them |
| ArenaPools.AlignRoundsUp | spidermonkey-1.7.0/services/spidermonkey/current/include/jsarena.h:101-110 | rounding up is exact unless adding the mask wraps, and then gives zero |
| ArenaPools.FitsTest | spidermonkey-1.7.0/services/spidermonkey/current/include/jsarena.h:130-152 | the subtracting bounds tests are exact on 32-bit addresses |
| ArenaPools.UnguardedTest | spidermonkey-1.7.0/services/spidermonkey/current/include/jsarena.h:114-115 | without the guard the test is exact exactly when the size does not exceed the limit |
| ArenaPools.InsideTest | spidermonkey-1.7.0/services/spidermonkey/current/include/jsarena.h:184-186 | the test with unsigned differences holds exactly inside the arena |
| ArenaPools.BlocksAreDisjoint | spidermonkey-1.7.0/services/spidermonkey/current/include/jsarena.h:130-164 | no two blocks in use share an address |
| ArenaPools.ArenaPool.Allocate | spidermonkey-1.7.0/services/spidermonkey/current/include/jsarena.h:117-141 | where there is room avail moves up and nothing else changes; otherwise one arena is made, or nothing changes; the new block is at the address returned and everything older is untouched |
| ArenaPools.ArenaPool.ArenaAllocate | spidermonkey-1.7.0/services/spidermonkey/current/src/jsarena.c:129-184 | fails exactly when the size wraps or there is no memory; otherwise one arena in that memory with room for the block, which is the first in it |
| ArenaPools.NewArenaFits | spidermonkey-1.7.0/services/spidermonkey/current/src/jsarena.c:152-176 | the new arena is aligned, clears its header and back pointer, and has the room |
| ArenaPools.NewArenaIsTight | spidermonkey-1.7.0/services/spidermonkey/current/src/jsarena.c:152-176 | and no memory is asked for beyond what alignment can take |
| ArenaPools.GrossIsChecked | spidermonkey-1.7.0/services/spidermonkey/current/src/jsarena.c:154-157 | the comparison after the sum notices exactly the sums that wrapped |
| ArenaPools.ArenaPool.Grow | spidermonkey-1.7.0/services/spidermonkey/current/include/jsarena.h:146-164 | in place exactly when the block ends at avail and fits: then only avail and its size change; when it moves, one block is added and the old ones stay; exact conditions for reallocation and failure, which change nothing |
| ArenaPools.GrownIsValid | spidermonkey-1.7.0/services/spidermonkey/current/include/jsarena.h:149-154 | growth in place keeps all blocks aligned, in bounds and disjoint |
| ArenaPools.ArenaPool.Mark | spidermonkey-1.7.0/services/spidermonkey/current/include/jsarena.h:166 | the current position, which is aligned |
| ArenaPools.ArenaPool.Release | spidermonkey-1.7.0/services/spidermonkey/current/include/jsarena.h:181-195 | the arena that holds the mark is cut there, those behind it are freed, and exactly the blocks that end beyond the mark are given up |
| ArenaPools.ReleaseGivesUp | spidermonkey-1.7.0/services/spidermonkey/current/src/jsarena.c:300-314 | a release gives up the blocks that end beyond the mark and no others, also one that begins before it |
| ArenaPools.ReleaseRestores | spidermonkey-1.7.0/services/spidermonkey/current/src/jsarena.c:300-314 | whatever was allocated since, releasing a mark restores arenas, position and blocks |
| ArenaPools.RunKeepsOlder | spidermonkey-1.7.0/services/spidermonkey/current/include/jsarena.h:130-195 | any run of allocations, growths in place and nested mark and release pairs keeps the pool valid, and the blocks there before it as they were, except the last one if that can be grown |
| ArenaPools.MarkedRunIsUndone | spidermonkey-1.7.0/services/spidermonkey/current/include/jsarena.h:166-195 | a mark, any such run, and a release leave the pool as it was if and only if just before the release every block from before the mark is as it was |
| ArenaPools.AllocationIsInRuns | spidermonkey-1.7.0/services/spidermonkey/current/include/jsarena.h:130-138 | these runs contain every allocation for which there is room or memory |
| ArenaPools.GrowthIsInRuns | spidermonkey-1.7.0/services/spidermonkey/current/include/jsarena.h:149-154 | and every growth in place |
| ArenaPools.OlderGrowthIsCut | spidermonkey-1.7.0/services/spidermonkey/current/include/jsarena.h:149-154 | growing in place, inside a mark, the last block from before it loses that block at the release, and the next allocation begins inside the memory it was given |
| ArenaPools.OlderGrowthExample | spidermonkey-1.7.0/services/spidermonkey/current/include/jsarena.h:149-154 | for instance a block of 16 bytes, made 32 bytes long |
| ArenaPools.RunExtends | spidermonkey-1.7.0/services/spidermonkey/current/include/jsarena.h:130-195 | a run in which no growth inside a mark is of a block from before it always leaves what was there untouched, so every release restores it |
| CLists.InsertBefore | spidermonkey-1.7.0/services/spidermonkey/current/include/jsclist.h:55-61 | one link enters the cycle before another, at the end of the list if that is the header |
| CLists.InsertAfter | spidermonkey-1.7.0/services/spidermonkey/current/include/jsclist.h:66-72 | one link enters the cycle after another |
| CLists.Remove | spidermonkey-1.7.0/services/spidermonkey/current/include/jsclist.h:102-106 | exactly that link leaves the cycle; its own fields stay |
| CLists.RemoveAndInit | spidermonkey-1.7.0/services/spidermonkey/current/include/jsclist.h:112-118 | and becomes a cycle of its own |
| CLists.IsEmpty | spidermonkey-1.7.0/services/spidermonkey/current/include/jsclist.h:124-125 | true exactly for the empty list |
| CLists.NextAndPrevAreInverse | spidermonkey-1.7.0/services/spidermonkey/current/include/jsclist.h:77-83 | following next and then prev, or prev and then next, leads back |
| CLists.RingIsUnique | spidermonkey-1.7.0/services/spidermonkey/current/include/jsclist.h:47-50 | the header fixes the list |
| CLists.InsertAndRemove | spidermonkey-1.7.0/services/spidermonkey/current/include/jsclist.h:55-106 | inserting and removing restores every link |
| CLists.Forward | spidermonkey-1.7.0/services/spidermonkey/current/include/jsclist.h:77-96 | following next from the head visits the elements in order |
| CLists.Backward | spidermonkey-1.7.0/services/spidermonkey/current/include/jsclist.h:82-97 | following prev from the tail visits them in the opposite order |
| AtomLists.AtomList.Lookup | spidermonkey-1.7.0/services/spidermonkey/current/include/jsatom.h:123-142 | found exactly when present; a hit is in front; the same elements |
| AtomLists.AtomList.MoveToFront | spidermonkey-1.7.0/services/spidermonkey/current/include/jsatom.h:132-137 | the element found is moved, the list stays one chain without a cycle |
| AtomLists.ToFrontOrder | spidermonkey-1.7.0/services/spidermonkey/current/include/jsatom.h:132-137 | all others keep their order |
| AtomLists.UsedTwice | spidermonkey-1.7.0/services/spidermonkey/current/include/jsatom.h:128-140 | looking up again finds the atom in front and changes nothing |
| AtomLists.OrderOfLastUse | spidermonkey-1.7.0/services/spidermonkey/current/include/jsatom.h:123-142 | after any lookups the list is in the order of last use |
| TryNotes.CodeGenerator.Emit | spidermonkey-1.7.0/services/spidermonkey/current/src/jsemit.c:4723-4979 | emitting a statement takes the notes of its try statements, inner before outer, within the space the parser counted |
| TryNotes.CountIsExact | spidermonkey-1.7.0/services/spidermonkey/current/src/jsparse.c:3146-3163 | the parser counts one note too many for each try without a catch, and otherwise exactly |
| TryNotes.CodeGenerator.NewTryNote | spidermonkey-1.7.0/services/spidermonkey/current/src/jsemit.c:6817-6830 | one more note |
| TryNotes.CodeGenerator.Finish | spidermonkey-1.7.0/services/spidermonkey/current/src/jsemit.c:6832-6845 | all notes and a sentinel that covers the code |
| TryNotes.TableMeansNesting | spidermonkey-1.7.0/services/spidermonkey/current/src/jsemit.c:4958-4977 | the first note that covers an offset is the handler that the nesting of the statements says, for catch and for finally |
| TryNotes.NotesAreNested | spidermonkey-1.7.0/services/spidermonkey/current/src/jsemit.c:4958-4961 | the notes are properly nested, inner before outer |
| TryNotes.FirstIsInnermost | spidermonkey-1.7.0/services/spidermonkey/current/include/jsscript.h:91-94 | in a nested table the note selected is the innermost that covers the offset |
| TryNotes.CoversTest | spidermonkey-1.7.0/services/spidermonkey/current/include/jsscript.h:91-92 | the unsigned comparison tests both ends of the range |
| TryNotes.FindCatchStart | spidermonkey-1.7.0/services/spidermonkey/current/include/jsscript.h:85-99 | terminates; the first real note that covers the offset; none in the prolog, without notes, or when only the sentinel covers it |
| TryNotes.FindFinallyHandler | spidermonkey-1.7.0/services/spidermonkey/current/src/jsscript.c:1681-1715 | the first finally note that covers the offset |
| TryNotes.EmitAndFind | spidermonkey-1.7.0/services/spidermonkey/current/include/jsscript.h:85-99 | emitting any statements and searching for any offset finds the handler their nesting says |
| Bits.FloorLog2 | spidermonkey-1.7.0/services/spidermonkey/current/include/jsbit.h:133-147 | the exponent of the greatest power of two not above n |
| Bits.CeilingLog2 | spidermonkey-1.7.0/services/spidermonkey/current/include/jsbit.h:96-112 | the least exponent of a power of two not below n |
| Bits.PowerOfTwoTest | spidermonkey-1.7.0/services/spidermonkey/current/include/jsbit.h:100-101 | n and n - 1 share no bit exactly when n is a power of two |
| Bits.CeilingForms | spidermonkey-1.7.0/services/spidermonkey/current/include/jsbit.h:83-156 | the portable form, the recurrence of JS_CEILING_LOG2W and the form that counts leading zeros agree for every n |
| Bits.FloorForms | spidermonkey-1.7.0/services/spidermonkey/current/include/jsbit.h:127-131 | so do the two forms of the floor |
| Bits.SetBit | spidermonkey-1.7.0/services/spidermonkey/current/include/jsbit.h:55-56 | inserts the bit number into the set the bitmap stands for |
| Bits.ClearBit | spidermonkey-1.7.0/services/spidermonkey/current/include/jsbit.h:57-58 | deletes it |
| Bits.TestBit | spidermonkey-1.7.0/services/spidermonkey/current/include/jsbit.h:53-54 | tells whether it is a member |
| Words.TestAndShift | spidermonkey-1.7.0/services/spidermonkey/current/include/jsbit.h:102-103 | one step of the binary search for the highest set bit |

## Left out

- LongLong.ShiftLeft: counts of 64 and more, JSLL_ISHL, conversions to and from floating point, and the comparison macros with non-strict operators are not modelled.
- LongLong.LongDivide: division by zero, which the code makes crash, is excluded by its precondition.
- Interlock.StepKeepsInv: what a collection does between its entry and its exit, last-ditch collections and callbacks are not modelled; finalization is one step.
- Requests.Runtime.EndRequest: making the strings in a shared scope immutable is not modelled; waiting is a list of what each wakeup showed, and only waits that end are considered.
- ScopeDeadlocks.DeadlockStays: a collection only begins and ends here, so that it may run is assumed; contexts are never destroyed.
- ScopeClaims.WillDeadlock: it runs on a value of the state, as it changes nothing; the case of a scope whose parent slot is being set, with its reentrancy count, is not modelled.
- Sealing.SealObject: JS_Enumerate is a property of the object, the objects it may create are not modelled, and a slot is an object or nothing.
- PropertyTree.Scope.ForkLine: neither the vector nor a tree node can fail to be allocated.
- PropertyTree.Scope.Add: tree nodes are values, so finding and creating a child are the same and never fail; slot allocation, SPROP_IS_DUPLICATE and duplicate formal parameters, js_ChangeScopePropertyAttrs, js_ClearScope, and sweeping of the tree are not modelled.
- PropertyTree.Scope.CreateTable: the table is a map; hash values, collisions, removed entries and resizing are not modelled.
- PropertyIterator.DeletedIsNotReturned: properties added between calls are not covered, and deletes of the last one only by StaleInRun.
- Formats.ConvertArguments: requires that the loop ends, as the code does not return otherwise; conversions themselves are not modelled, and a formatter called again at the same position does the same again.
- Formats.PushArguments: requires that the loop ends; the stack is one arena, and the values stored are not modelled.
- Formats.StarsShiftSlots: formats with '/' are excluded, because it makes the rest optional in one interpreter and is a letter like any other in the other one.
- SrcNotes.Section.Alloc: memory can always be had.
- SrcNotes.Section.NewSrcNote: running out of memory is not modelled, nor is SRC_EXTENDED, which is never taken.
- SrcNotes.NewSrcNote2: nor is running out of memory modelled here.
- SrcNotes.NewSrcNote3: nor here.
- SrcNotes.Section.SetSrcNoteOffset: a vector that has to grow always can.
- SrcNotes.Section.AddToSrcNoteDelta: a vector that has to grow always can.
- SrcNotes.CodeGenerator.FinishTakingSrcNotes: a vector that has to grow always can.
- RuntimeDeadlocks.DisciplinePreventsDeadlock: waits are for the collector, for requests and for scopes; locks of shared scopes and other monitors are not modelled.
- SrcNotes.FinalMeans: the notes of the prolog must be an encoding, as TakenNote says they are.
- ArenaPools.ArenaPool.Grow: JS_ArenaRealloc is not entered, and the copying of contents into a moved block is not modelled.
- ArenaPools.ArenaPool.ArenaAllocate: arenas behind the current one exist only after JS_ArenaFreeAllocation, which is not modelled; debug filling and statistics are not either.
- AtomLists.AtomList.Lookup: the branch with a hash table is not modelled.
- TryNotes.CodeGenerator.Emit: statements are modelled by the length and nesting of their code; the instructions themselves and span-dependent jumps are not.
- TryNotes.FindCatchStart: the pc must be in the script, below the length the sentinel covers.
- Bits.SetBit: the word size is four bytes, as on the port's targets; the macros do not check the bit number either.
- The property cache's lock-free load and store loops depend on a memory model and are not modelled.
- Hash tables, js_HeapSort, the jump-target tree, number conversion, decompilation, compilation and execution of scripts, file input, locale and debugger hooks are not modelled.
- The scan of standard class names in JS_ResolveStandardClass, keyword recognition, value tags and jump offsets are finite case checks that would only add easy members.
