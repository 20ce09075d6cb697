# Verified models of KernelSU and KernelPatch

This project models the hardest parts of the repository in Dafny and proves what they are for. Each module states a
specification of its own (a small machine, a grammar, a logical condition, a history) and connects the code to it.

| modules | what they are about |
|---|---|
| `A64`, `Relocator`, `Simulation` | the inline-hook relocator: moving the first words of a function preserves its meaning on an A64 machine (DDI 0487, section C6.2) |
| `LiteralLoads` | what the slots of literal loads really load from |
| `HookManager`, `HookedCalls`, `HookRecovery` | hooks and unhooks over whole runs, the slot registry and its buffers, the branch chaser, what callers of the entry and of the backup get, and when the original text can be had back |
| `PageTable` | building and walking translation tables, and what the hardware makes of them (DDI 0487, chapter D8) |
| `Constraint`, `ConstraintMeaning`, `PolicyDatabase`, `AccessVector` | SELinux constraint expressions, what their tests mean, and access decisions with type bounds |
| `PolicyEditor` | editing a loaded policy, and the effect on decisions |
| `PolicyBatch`, `PolicyCommands` | the serialized batch of policy commands: format, application, publication, and the decisions after it |
| `EventQueue` | a queue with drop accounting, many producers and a reader that copies outside the lock |
| `Allowlist` | reference-counted profiles under lock-free lookups |
| `ApkSigning` | the APK signing-block check as a grammar of files |
| `InsnFields`, `HammingWeight`, `BitmaskImmediate` | immediate fields and branch displacements of A64 words, and the logical-immediate encoder (DDI 0487, chapter J1, DecodeBitMasks) |
| `Sha256`, `Sha256Constants` | streaming SHA-256 (FIPS 180-4, sections 5.1.1, 5.2.1 and 6.2.2), and where its constants come from (sections 4.2.2 and 5.3.3) |
| `RcSplice` | init.rc with two scripts spliced onto its end |
| `PatchRendezvous` | patching text with all processors held |
| `Bits`, `Bytes`, `Sequences`, `Options` | machine words, byte strings, sequences of them, optional values |

Machine words are bounded naturals, or bit-vectors where only bitwise operations matter, and wrap-around is written out.
Code that changes things in place is a class or a method over arrays; concurrency is a step system whose steps are the
critical sections and atomic actions of the code. In `EventQueue` the reading code also runs as methods among arbitrary
producers, and is shown to be a run of that system.

## What turned out to be conditional

Some properties hold only under a condition. The code is kept as it is, and the condition is stated.

* Relocation of literal loads: the address is stored one word behind the place the load reads. The base register is then
  right if and only if both halves of the address are NOPs (`GeneralBase`, `VectorBase`), which is never so for a literal
  of an aligned function (`NeverRight`); `LiteralLoadIsLost` names such a load. These classes are counted in the tiling of
  the buffer and excluded from meaning preservation.
* A signing entry takes a five-word trampoline. `RoomExactly` says when the buffer then suffices, `SignedEntryOverflows`
  shows that it may not.
* Unhooking every entry gives the original text back, in whatever order, if and only if the last hook to put each word
  back has saved the original one (`RecoverableExactly`); of several hooks on one entry, unhook takes the lowest slot first.
  A new hook keeps that so exactly if each word it overwrites is still original, or a hook on the same entry in a higher
  slot will put it back later (`HookRecoverableExactly`); a window clear of live ones suffices. A second hook on a
  hooked entry is therefore recoverable exactly when it takes a lower slot than a hook there (`SecondHookExactly`): otherwise removing both
  loses the original (`DoubleHookLeavesTrampoline`). Unhooking right after a hook undoes it exactly if no lower slot has the
  entry (`UnhookUndoesHook`); after a second hook it removes the first one instead (`SecondHookIsNotUndone`).
* The number of levels may index more bits than there are above the page offset. Builder and walker agree with each other
  exactly where the walk meets no block at level 0 (`WalkerAgrees`). The hardware translates a newly mapped region if and
  only if the bits are exact, and otherwise faults on all of it as before (`HardwareExactly`); 64 KB pages with 48 address
  bits are such a case (`LargePagesAreNotExact`).
* The logical-immediate encoder takes the end of the zeros from the low 32 bits. `EncodeImmediate` says exactly for which
  values the fields are right, `SomeImmediateIsWrong` gives one for which they are not.
* A constraint deeper than five cells is false. A BUG fires exactly on lists that are no supported formula and do not fill
  the stack first (`BugExactly`, `BugByPlace`); `SomeListsAreBugs` names three.
* A read of init.rc returns nothing exactly at the end of the stream, or at the end of the file when a fault leaves no room
  for the part to be appended (`RunSchedule`); `FaultLooksLikeEnd` is such a schedule.
* One update of the SHA-256 context ends if and only if it has fewer than 2^32 bytes, because its loop counter has 32 bits
  (`LoopEndsExactly`).

## Model

| member | source | states |
|---|---|---|
| Simulation.RunMatched | kpm/kernel/base/hook.c:141-195 | for every number of steps the original run stays in the window, the relocated words reach a state that agrees in all registers but X17, in flags, memory and (up to the relocated return point) X30, at the relocated place of the pc: branches into the window land on their slots and falling off the end reaches the first untouched word |
| Simulation.StepMatched | kpm/kernel/base/hook.c:509-559 | one original instruction is matched by one or more steps of its slot and of the fall-through to the next one |
| Simulation.SlotStep | kpm/kernel/base/hook.c:141-288 | each emitted slot does what its instruction does, for every movable word: branches, calls, compare and test branches, address computations, copied words |
| Simulation.ReturnPoint | kpm/kernel/base/hook.c:141-173 | after a relocated call the return address leads to the slot of the next instruction |
| Simulation.BranchesAreBlind | kpm/kernel/base/hook.c:509-559 | branch and address classes read no skipped register, except the one a compare or test branch names, so the assumption is about copied words and that register only |
| Simulation.NoRegisterBranch | kpm/kernel/base/hook.c:509-559 | a movable word of no class is no branch to a register, no exception call or return, and no BC.cond |
| LiteralLoads.GeneralBase | kpm/kernel/base/hook.c:210-223 | the first word of a general slot leaves in Xt the number made of a NOP and the low half of the address; it is the address if and only if both its halves are NOPs |
| LiteralLoads.VectorBase | kpm/kernel/base/hook.c:225-242 | so does the second word of a vector or prefetch slot, in X17 |
| LiteralLoads.PickedUpExactly | kpm/kernel/base/hook.c:197-244 | the number picked up is the address exactly if both halves are NOPs, and never for an aligned one |
| LiteralLoads.NeverRight | kpm/kernel/base/hook.c:197-244 | for every literal load of an aligned function the base register is not the address of the literal when the access is made |
| LiteralLoads.LiteralLoadIsLost | kpm/kernel/base/hook.c:197-223 | LDR X0, #64 at 0x10000 is accepted and names 0x10040, and the machine that runs its slot puts 0x10040D503201F in X0 |
| Simulation.TrampolineJumps | kpm/kernel/base/hook.c:318-341 | running the trampoline reaches the replacement and changes X17 only |
| Simulation.SlotsPlaced | kpm/kernel/base/hook.c:581-599 | slots tile the buffer: slot k lies at the place predicted for instruction k, and the jump back after the last |
| Relocator.PatternsDisjoint | kpm/kernel/base/hook.c:61-80 | no word matches two rows of the opcode tables |
| Relocator.RowNamesType | kpm/kernel/base/hook.c:61-80 | a word that fits the mask of a row is of the instruction class the row names, by its opcode fields |
| Relocator.TableNamesType | kpm/kernel/base/hook.c:61-80 | the first matching row gives the class and the slot length of the word |
| Relocator.FindRow | kpm/kernel/base/hook.c:509-521 | the scan of the tables finds the class and length of any word |
| Relocator.TargetMeaning | kpm/kernel/base/hook.c:141-187 | the target computed by shifting and sign extension is the architectural one, modulo 2^64 |
| Relocator.SignExtendMeaning | kpm/kernel/base/hook.c:16-17 | sign extension by a shifted mask is two's complement |
| Relocator.Hook.ReloInTramp | kpm/kernel/base/hook.c:92-111 | a target in the window is replaced by the address of its future slot, any other kept |
| Relocator.Hook.ReloB | kpm/kernel/base/hook.c:141-173 | writes exactly the words specified for B, B.cond and BL at the current place |
| Relocator.Hook.ReloAdr | kpm/kernel/base/hook.c:175-195 | writes the words for ADR and ADRP, or refuses an ADRP into the window |
| Relocator.Hook.ReloLdr | kpm/kernel/base/hook.c:197-244 | writes the words for literal loads as coded, or refuses one into the window |
| Relocator.Hook.ReloCb | kpm/kernel/base/hook.c:246-262 | writes the words for CBZ and CBNZ |
| Relocator.Hook.ReloTb | kpm/kernel/base/hook.c:264-280 | writes the words for TBZ and TBNZ |
| Relocator.Hook.ReloIgnore | kpm/kernel/base/hook.c:282-288 | copies any other word, followed by a NOP |
| Relocator.Hook.RelocateInst | kpm/kernel/base/hook.c:509-559 | exactly the slot length of the class is written and counted; refused exactly for the two classes that cannot move |
| Relocator.Hook.RelocateAll | kpm/kernel/base/hook.c:586-593 | the buffer holds the slots one after another, or some instruction is refused |
| Relocator.Hook.RelocateWindow | kpm/kernel/base/hook.c:586-599 | relocated code, jump back, NOPs, and the total count |
| Relocator.Hook.HookPrepare | kpm/kernel/base/hook.c:561-601 | backup, trampoline and relocated code are those of the window; every error case and no other |
| Relocator.BadAddrBit | kpm/kernel/include/hook.h:236-239 | an address is refused exactly if its top bit is clear |
| Relocator.HintNumbers | kpm/kernel/include/hook.h:51-56 | the landing pads and signing instructions are HINT 34, 36, 38, 25 and 27 |
| Relocator.Hook.MakeTrampoline | kpm/kernel/base/hook.c:572-579 | four words, or five behind a landing pad for a signing entry |
| Relocator.Hook.HookInstall | kpm/kernel/base/hook.c:605-619 | the text is overlaid with the trampoline and nothing else changes |
| Relocator.Hook.HookUninstall | kpm/kernel/base/hook.c:621-634 | the text is overlaid with the saved words and nothing else changes |
| Relocator.RoomExactly | kpm/kernel/base/hook.c:572-599 | with a four-word trampoline slots and jump back always fit 36 words; with five words exactly when the last four slots need at most 30 |
| Relocator.SignedEntryOverflows | kpm/kernel/base/hook.c:572-599 | a signing entry followed by four calls does not fit |
| Relocator.PosMonotone | kpm/kernel/base/hook.c:92-111 | slots are two to eight words long and do not overlap |
| HookManager.RunKeepsText | kpm/kernel/base/hook.c:636-673 | after any run of hooks and unhooks on clear windows the text is the original overlaid with the live trampolines, and the original again once no hook is left |
| HookManager.HookKeepsInv | kpm/kernel/base/hook.c:636-662 | hooking clear words keeps the overlay, with the new trampoline live |
| HookManager.HookKeepsInvExactly | kpm/kernel/base/hook.c:636-662 | live windows stay disjoint, and the text their overlay, if and only if the new window is clear of live ones; what can be recovered otherwise is stated by the rows of HookRecovery |
| HookRecovery.RecoverableExactly | kpm/kernel/base/hook.c:605-673 | unhooking the live entries ends in the original text, in whatever order they are named, if and only if, of the hooks on one entry, the last to put a word back (the one in the highest slot that writes it) has saved the original word, and every word no live hook has written is original; windows may overlap |
| HookRecovery.HookRecoverableExactly | kpm/kernel/base/hook.c:561-662 | hooking a recoverable system keeps it recoverable if and only if each word to be overwritten is original or is put back later by a hook on the same entry in a higher slot |
| HookRecovery.SecondHookExactly | kpm/kernel/base/hook.c:636-673 | on an entry that shows a trampoline, a second hook is recoverable if and only if it takes a slot below some hook there, so that unhook takes it first |
| HookRecovery.LowerSlotIsRecoverable | kpm/kernel/base/hmem.c:37-77 | a second hook in a lower slot overwrites a trampoline and is recoverable |
| HookRecovery.UnhookUndoesHook | kpm/kernel/base/hook.c:664-673 | unhooking an entry just hooked gives back the text and the live hooks before it if and only if no live hook on the entry is in a lower slot |
| HookRecovery.SecondHookIsNotUndone | kpm/kernel/base/hmem.c:67-77 | in the run that hooks one entry twice, unhooking right after the second hook removes the first one: the entry is original and the second hook stays registered, and the state is not recoverable |
| HookRecovery.OrdersAreCalls | kpm/kernel/base/hook.c:113-137 | if every live entry rests, each call of an order of removal resolves to its entry |
| HookRecovery.OverlayIsRecoverable | kpm/kernel/base/hook.c:605-673 | an overlay of disjoint trampolines is recoverable, and a clear window is safe to hook |
| HookRecovery.RunRecoversExactly | kpm/kernel/base/hook.c:636-673 | over any run of calls from a clean kernel every state is recoverable if and only if every hook was safe when it was made |
| HookRecovery.RunRecovers | kpm/kernel/base/hook.c:636-673 | after a run with safe hooks only the text is the original once no hook is left |
| HookRecovery.TidyRunResolves | kpm/kernel/base/hook.c:113-137 | throughout a run that hooks entries at rest, each apart from other live entries or the same as one, every order of removal is a sequence of calls of unhook: the chaser stops at each entry |
| HookManager.UnhookKeepsInv | kpm/kernel/base/hook.c:664-673 | removing any live hook keeps the overlay |
| HookManager.StepKeepsInv | kpm/kernel/base/hook.c:636-673 | every call, also a failing one, keeps the overlay |
| HookManager.ChaseUnchanged | kpm/kernel/base/hook.c:113-137 | following branches resolves a function to the same entry before and after hooks, if no window cuts the chain before its end |
| HookManager.DoubleHookLeavesTrampoline | kpm/kernel/base/hmem.c:67-77 | hooking one entry twice and removing both leaves the first trampoline: the registry finds slots by address |
| HookManager.HookManager.HookMemZalloc | kpm/kernel/base/hmem.c:37-59 | takes the first free slot, or none if all are in use |
| HookManager.HookManager.HookGetMemFromOrigin | kpm/kernel/base/hmem.c:67-77 | finds the first live slot of an address |
| HookManager.HookManager.BranchFuncAddr | kpm/kernel/base/hook.c:128-137 | the fixed point of following one branch at a time |
| HookManager.HookManager.Once | kpm/kernel/base/hook.c:113-126 | one link: over a B to its target, over a landing pad to the next word, a registered entry is final |
| HookManager.HookManager.Hook | kpm/kernel/base/hook.c:636-662 | succeeds exactly if there is a slot, all four addresses are kernel addresses and no word of the window is refused; then the slot, the text and the backup address are the new ones and the slot's buffer holds the relocated words; on failure text and live slots, and always the buffers of live slots, are as before |
| HookedCalls.HookFunction | kpm/kernel/base/hook.c:636-662 | after a successful call a run from the entry reaches the replacement, and a run from the backup handed out matches the function as it was, for as many steps as the original stays in its window |
| HookedCalls.BackupRuns | kpm/kernel/base/hook.c:595-600 | at any later time a run from the buffer of a live hook matches the original one, and leaves the window for the same address |
| HookedCalls.BackupPlaced | kpm/kernel/base/hook.c:586-600 | the relocated words of every live hook stand at its backup address in memory, after any calls |
| HookedCalls.BuffersApart | kpm/kernel/base/hmem.c:37-59 | the buffers of different slots do not overlap |
| HookManager.HookManager.Unhook | kpm/kernel/base/hook.c:664-673 | the slot of the resolved entry is freed and its saved words are back, or nothing changes |
| PageTable.Builder.MapRegion | kpm/kernel/base/map.c:230-233 | after the loop every address of the region translates to the same offset from the physical start, every earlier translation is unchanged, outside the region no new one appears, and each leaf is kernel memory: accessed, inner shareable, read and write for the kernel only, executable by the kernel only, dirty-managed, of the given memory type; for any size |
| PageTable.Builder.GetOrCreatePte | kpm/kernel/base/map.c:111-171 | the entry returned is the walk's leaf; an existing leaf is kept, a new one is a valid page at the given address with its access flag set, inner shareable, of the given memory type and closed to the unprivileged side, and only walks along this path change |
| PageTable.Builder.LinkFresh | kpm/kernel/base/map.c:150-165 | linking a cleared page into an invalid entry changes no walk and keeps the tree |
| PageTable.Builder.PgtableEntry | kpm/kernel/base/start.c:127-174 | the loop computes the walker's leaf |
| PageTable.WalkerAgrees | kpm/kernel/base/start.c:127-174 | builder and walker reach the same leaf if and only if the walk meets no block at level 0 |
| PageTable.LevelsLeast | kpm/kernel/base/map.c:118-119 | the number of levels is the least whose index bits reach the address size |
| PageTable.ExactMeans | kpm/kernel/base/map.c:118-119 | the index bits are exactly those above the page offset if and only if the remainder condition holds |
| PageTable.TopIndexMatches | kpm/kernel/base/map.c:134-135 | for a kernel address the top index is the architecture's if and only if that condition holds |
| PageTable.HardwareAgrees | kpm/kernel/base/map.c:133-169 | under it the hardware walk of the same tables gives the same translation |
| PageTable.HardwareMapped | kpm/kernel/base/map.c:230-233 | so every byte of a mapped page translates as intended in hardware, which faults on a leaf whose access flag is clear |
| PageTable.HardwareExactly | kpm/kernel/base/map.c:133-169 | a region the hardware did not map before is translated by it as intended after the mapping loop if and only if the index bits are exact; if not, every address of it still faults |
| PageTable.HardwareUnchanged | kpm/kernel/base/map.c:133-169 | with index bits that are not exact the mapping loop changes no hardware translation of the kernel range |
| PageTable.LargePagesAreNotExact | kpm/kernel/base/map.c:118-119 | 64 KB pages with 48 address bits are not exact, 4 KB pages with 48 or 39 are |
| PageTable.MappedTranslates | kpm/kernel/base/map.c:230-233 | a mapped page translates at every offset |
| PageTable.PathDistinct | kpm/kernel/base/map.c:134-135 | different pages of the kernel range take different paths, so their leaves are distinct |
| PageTable.LinkKeepsAllWalks | kpm/kernel/base/map.c:150-165 | filling an invalid entry with an empty page changes no walk at all |
| PageTable.LinkKeepsTree | kpm/kernel/base/map.c:150-165 | tables stay page-aligned, disjoint and off the free pages |
| PageTable.LeafKeepsOtherWalks | kpm/kernel/base/map.c:154-158 | writing a leaf changes only the walks on its path |
| PageTable.LeafWriteKeepsTree | kpm/kernel/base/map.c:154-158 | writing a leaf keeps the tables disjoint |
| PageTable.NewPage | kpm/kernel/base/map.c:127-158 | every attribute field of a descriptor the builder makes, as the architecture places it |
| PageTable.OpenedPage | kpm/kernel/base/map.c:230-233 | and of one that the mapping loop has opened |
| PageTable.AddressFields | kpm/kernel/base/map.c:143-149 | the address fields are the descriptor's bits from the size of what they point to up to bit 47 |
| PageTable.DescFields | kpm/kernel/base/map.c:127-158 | a descriptor made from an aligned page has type bits 11 and gives that page back |
| PageTable.WritableKeeps | kpm/kernel/base/map.c:232-232 | clearing read-only and user bits keeps type and address |
| Constraint.EvaluatesFormula | kernel/feature/selinux_hide.c:822-988 | the stack machine gives the value of the formula whose postfix form the list is, or false if the formula needs more than five cells |
| Constraint.RunTree | kernel/feature/selinux_hide.c:833-984 | running the postfix form of a subformula pushes its value, over any stack and before any continuation, or overflows to false exactly by its depth |
| Constraint.BugExactly | kernel/feature/selinux_hide.c:822-988 | a BUG fires if and only if the list is not the postfix form of a supported formula and the stack, whose height is counted from the node kinds, does not fill up first |
| Constraint.BugByPlace | kernel/feature/selinux_hide.c:822-988 | a BUG fires if and only if some node is unsupported, finds too few operands, or the end finds not one value, at a stack height computed from the node kinds, before the stack is full |
| Constraint.SupportedExactly | kernel/feature/selinux_hide.c:866-969 | which attribute, operator and operand combinations are evaluated at all |
| Constraint.SomeListsAreBugs | kernel/feature/selinux_hide.c:822-988 | two leaves without an operator, a dominance test of users, and a lone NOT reach a BUG |
| Constraint.ParseExactly | kernel/feature/selinux_hide.c:833-848 | a node list is the postfix form of at most one formula, and parsing finds it |
| ConstraintMeaning.NumbersMean | kernel/feature/selinux_hide.c:853-860 | a test of users, types or roles alone compares the source's with the target's: equal, or not equal |
| ConstraintMeaning.RolesMean | kernel/feature/selinux_hide.c:861-880 | a dominance test of roles asks whether the source's role lists the target's, the converse, or neither |
| ConstraintMeaning.LevelsMean | kernel/feature/selinux_hide.c:881-930 | a test of levels compares the two the attribute names: equal in sensitivity and categories, at least the sensitivity and all the categories, the converse, or neither |
| ConstraintMeaning.LevelsAreOrdered | kernel/feature/selinux_hide.c:905-926 | the outcomes for one pair of levels are those of a partial order |
| ConstraintMeaning.NamesMean | kernel/feature/selinux_hide.c:944-980 | a name list is looked up for the target, the third context or the source by the flags, in that order, and for its user, role or type |
| ConstraintMeaning.TestsCovered | kernel/feature/selinux_hide.c:846-980 | every test is one of these or a BUG |
| ConstraintMeaning.ConnectivesMean | kernel/feature/selinux_hide.c:834-845 | two tests and a connective, and a denied test |
| ConstraintMeaning.FiveCells | kernel/feature/selinux_hide.c:849-851 | five true tests and their connectives are true; six true tests are false however the list goes on |
| ConstraintMeaning.TestOnGranted | kernel/feature/selinux_hide.c:1052-1063 | a granted permission meets every single test its constraints make, with the decision's own source first and target second |
| Constraint.ConstraintExprEval | kernel/feature/selinux_hide.c:822-988 | the loop over the fixed array computes the stack machine |
| Constraint.EvalNode | kernel/feature/selinux_hide.c:834-984 | one node on the array cells is one step of the machine |
| AccessVector.AvDecision.ContextStructComputeAv | kernel/feature/selinux_hide.c:994-1086 | unless a BUG stops it, the decision has a permission if and only if it is granted; audit vectors are those of the rules; no BUG on sound policies |
| AccessVector.AvDecision.TypeAttributeBoundsAv | kernel/feature/selinux_hide.c:766-809 | keeps exactly the permissions that the bounding pair is granted too |
| AccessVector.AvDecision.ApplyConstraints | kernel/feature/selinux_hide.c:1052-1063 | a permission stays if and only if every constraint on it holds |
| AccessVector.AvDecision.CheckRole | kernel/feature/selinux_hide.c:1065-1079 | a transition to another role keeps its permissions only with a role rule |
| AccessVector.AvDecision.TakeAttributes | kernel/feature/selinux_hide.c:1026-1050 | allow, audit and deny bits are the union over all pairs of attributes |
| AccessVector.AvDecision.TakeRules | kernel/feature/selinux_hide.c:1034-1045 | the rules of one pair are taken into the right vector |
| AccessVector.GrantedExactly | kernel/feature/selinux_hide.c:766-809 | the mutual recursion is one condition: the permission passes rules, constraints and roles at every level of the chain of bounding types |
| AccessVector.GrantedToAncestors | kernel/feature/selinux_hide.c:766-809 | what a bounded type is granted each of its ancestors is granted, over the target's ancestor where there is one |
| AccessVector.GrantedMeetsFormula | kernel/feature/selinux_hide.c:1052-1063 | a constraint on a granted permission is true as a formula, and within the stack, at every level |
| AccessVector.EndsExactly | kernel/feature/selinux_hide.c:766-809 | the recursion ends for every pair of contexts if and only if no type bounds itself through a chain |
| AccessVector.BoundIrrelevant | kernel/feature/selinux_hide.c:766-809 | the bound that makes the recursion end does not affect the decision |
| PolicyEditor.AllowDecides | kernel/selinux/sepolicy.c:833-836 | the whole decision after an allow edit, in terms of the policy before it: at every level of the bounds chain an old rule or an attribute pair in scope, and constraints and roles as before |
| PolicyEditor.DenyDecides | kernel/selinux/sepolicy.c:838-841 | the whole decision after a deny edit: at every level of the bounds chain some rule out of its scope, and constraints and roles as before |
| PolicyEditor.RewrittenIs | kernel/selinux/sepolicy.c:242-320 | an edit of the rule table has exactly one outcome |
| PolicyEditor.ResolveMeans | kernel/selinux/sepolicy.c:193-240 | names resolve to a scope if and only if its source is the type of the first name, its target that of the second, its class the one of the third, and its permission the class's own or else inherited one of the fourth; a missing name stands for all |
| PolicyEditor.RewritesByName | kernel/selinux/sepolicy.c:193-240 | an edit with four names changes exactly one rule, that of the named source, target and class, by the named permission |
| PolicyEditor.NamedAllowDecides | kernel/selinux/sepolicy.c:833-836 | the whole decision after allowing by four names: exactly the types that have the named source and target get the permission, where the other checks pass |
| PolicyEditor.BitOfIsPower | kernel/selinux/sepolicy.c:302-312 | permission v is the bit of value 2^(v-1) |
| PolicyEditor.AddsExactly | kernel/selinux/sepolicy.c:242-320 | the rule union changes by exactly the requested permissions, for exactly the pairs with an attribute in each scope |
| PolicyEditor.RemovesExactly | kernel/selinux/sepolicy.c:242-320 | after a removal exactly the out-of-scope contributions are left |
| PolicyEditor.WildcardRemovalClears | kernel/selinux/sepolicy.c:838-841 | with both types left open no pair keeps the permission |
| PolicyEditor.SameAllowsSameDecision | kernel/feature/selinux_hide.c:1026-1050 | decisions depend on the allow rules' data only |
| PolicyEditor.AuditEditsDecideNothing | kernel/selinux/sepolicy.c:843-850 | auditallow and dontaudit change no decision |
| PolicyEditor.RedundantDropsNothing | kernel/selinux/sepolicy.c:138-147 | dropping a rule that says nothing changes no lookup |
| PolicyEditor.EditedTwice | kernel/selinux/sepolicy.c:242-320 | edits compose over any split of their scope, in any order and with repetitions |
| PolicyEditor.PolicyDb.GetAvtabNode | kernel/selinux/sepolicy.c:86-136 | a missing rule is inserted neutral; the bytes that are not rules are conserved |
| PolicyEditor.PolicyDb.RemoveAvtabNode | kernel/selinux/sepolicy.c:149-191 | the rule is gone, all others stay, and the bytes that are not rules are conserved |
| PolicyEditor.PolicyDb.IsRedundant | kernel/selinux/sepolicy.c:138-147 | true exactly for a rule with the data a missing one stands for |
| PolicyEditor.PolicyDb.EditOne | kernel/selinux/sepolicy.c:286-317 | one key is rewritten, and present afterwards exactly if it says something |
| PolicyEditor.PolicyDb.AddRuleRaw | kernel/selinux/sepolicy.c:242-320 | the recursion over wildcards rewrites exactly the product of the scopes, attributes only when adding and all types when removing |
| PolicyEditor.PolicyDb.AddRule | kernel/selinux/sepolicy.c:193-240 | succeeds exactly if all names resolve, and otherwise changes nothing; with four names one rule changes, in the order source, target |
| PolicyEditor.PolicyDb.KsuAllow | kernel/selinux/sepolicy.c:833-836 | adds allow rules over the resolved scope; with four names the named source gets the named permission over the named target |
| PolicyEditor.PolicyDb.KsuDeny | kernel/selinux/sepolicy.c:838-841 | removes allow rules over the resolved scope |
| PolicyEditor.PolicyDb.KsuAuditallow | kernel/selinux/sepolicy.c:843-846 | adds audit rules over the resolved scope |
| PolicyEditor.PolicyDb.KsuDontaudit | kernel/selinux/sepolicy.c:847-850 | adds audit denials over the resolved scope |
| PolicyEditor.PolicyDb.AddType | kernel/selinux/sepolicy.c:658-727 | a new type has the next value, itself as its attribute and a place in every role; an existing name is left alone |
| PolicyEditor.PolicyDb.AddTypeattributeRaw | kernel/selinux/sepolicy.c:754-773 | the three loops give the policy with the attribute added, also in constraint name lists |
| PolicyEditor.PolicyDb.AddTypeattribute | kernel/selinux/sepolicy.c:775-798 | only a type takes an attribute and only an attribute is one |
| PolicyEditor.NewTypeHasNoRule | kernel/selinux/sepolicy.c:658-727 | a new type has no rule in either position |
| PolicyEditor.NewTypeKeepsDecisions | kernel/selinux/sepolicy.c:658-727 | a new type changes no decision among the others |
| PolicyEditor.AttributeAddsExactly | kernel/selinux/sepolicy.c:754-757 | taking an attribute adds exactly its rules, as source and as target |
| PolicyEditor.AttributeKeepsSync | kernel/selinux/sepolicy.c:759-772 | a constraint that names an attribute goes on naming every type that has it |
| PolicyEditor.NewTypeKeepsSync | kernel/selinux/sepolicy.c:658-727 | so does a new type |
| PolicyBatch.SelinuxState.HandleSepolicy | kernel/selinux/rules.c:432-533 | succeeds if and only if the payload is the encoding of some command list; then the live policy is the left fold of applying that list and the result its success count; every error leaves the live policy as it was, also after earlier commands were applied, with the code for a null pointer or no bytes, too many bytes, no memory, unreadable bytes, a failed copy of the policy, or bytes of no list |
| PolicyBatch.EncodeInjective | uapi/supercall.h:55-65 | the format can be read in one way only |
| PolicyBatch.BatchSplits | kernel/selinux/rules.c:480-514 | commands read one after another are a prefix of any list with these bytes |
| PolicyBatch.CommandUnique | kernel/selinux/rules.c:480-504 | no encoding of a command is the beginning of another |
| PolicyBatch.ArgUnique | kernel/selinux/rules.c:197-226 | no encoding of an argument is the beginning of another |
| PolicyBatch.ArgumentCounts | kernel/selinux/rules.c:238-262 | which commands there are and how many arguments each takes, in numbers |
| PolicyBatch.CommandLayout | uapi/supercall.h:50-58 | command, subcommand, the length of the first argument, its bytes and the zero stand at their places |
| PolicyBatch.ErrorNumbers | kernel/selinux/rules.c:443-462 | which error a batch gets, in numbers |
| PolicyBatch.ReadCommand | kernel/selinux/rules.c:480-504 | reads a command exactly if one starts here, and stops right behind it |
| PolicyBatch.ReadArgs | kernel/selinux/rules.c:498-504 | reads n arguments exactly if n start here |
| PolicyBatch.Cursor.ReadCmdHeader | kernel/selinux/rules.c:185-195 | reads two little-endian words if eight bytes are left |
| PolicyBatch.Cursor.ReadString | kernel/selinux/rules.c:197-226 | reads an argument exactly if one starts here; the empty one stands for all |
| PolicyCommands.ApplyRules | kernel/selinux/rules.c:432-533 | handing over the bytes of a list of rule commands changes nothing but rules, and then decides every access by the last command on each rule |
| PolicyCommands.BatchDecides | kernel/selinux/rules.c:480-524 | the whole decision after a batch of allow, deny and audit commands: at every level of the bounds chain some rule of the pair was last allowed, or was there and never denied, and constraints and roles are as before |
| PolicyCommands.BatchCarries | kernel/selinux/rules.c:263-280 | after such a batch each rule carries what the last command on it says, and nothing but rules has changed |
| PolicyCommands.AllowsAdd | kernel/selinux/rules.c:263-280 | after allow commands only, the rules of a pair are the old ones and those some command with known names reaches |
| PolicyCommands.ScopeByNames | kernel/selinux/rules.c:268-276 | the arguments of a rule command are source, target, class and permission, in that order |
| PolicyCommands.RuleNumbers | kernel/selinux/rules.c:266-280 | what a rule command with four known names does to which rule, by subcommand number 1 to 4; any other number fails |
| PolicyCommands.TypeNumbers | kernel/selinux/rules.c:317-352 | commands 4, 5 and 6 make a type with an attribute, give a type one, and make an attribute |
| PolicyCommands.OneCommand | kernel/selinux/rules.c:263-280 | what one rule command does to one permission of one rule |
| PolicyCommands.ApplyOneSepolicyCmd | kernel/selinux/rules.c:263-352 | on rule, type and attribute commands the policy and the result are those of the command, a type command without its attribute included |
| PolicyCommands.RulesMeet | kernel/selinux/sepolicy.c:833-850 | an outcome allowed by the contracts of the four rule edits is the outcome of the command |
| EventQueue.EveryRunAccounts | kernel/infra/event_queue.c:25-178 | in every reachable state, over any interleaving and any faults, each number has exactly one fate, the counters are the sizes, minima and maxima of the drops they stand for, and the total is their sum |
| EventQueue.Partition | kernel/infra/event_queue.c:96-178 | numbers below the next one partition into given, pending, reported, being reported and waiting |
| EventQueue.DropCounters | kernel/infra/event_queue.c:25-33 | counts, first and last are size, minimum and maximum; the total adds up |
| EventQueue.GivenInOrder | kernel/infra/event_queue.c:273-310 | the reader gets accepted records as pushed, in increasing order, each once, despite faults |
| EventQueue.ReportsAscend | kernel/infra/event_queue.c:204-271 | reports cover disjoint ascending intervals, before all that is still to be reported |
| EventQueue.ReadsBack | kernel/infra/event_queue.c:312-370 | the bytes returned by reads are whole records that read back to what was given, and to nothing else |
| EventQueue.HeadStays | kernel/infra/event_queue.c:273-310 | nobody can take the head record while the lock is released |
| EventQueue.StepKeepsInv | kernel/infra/event_queue.c:96-310 | every critical section and every copy keeps the invariant |
| EventQueue.StreamUnique | kernel/infra/event_queue.c:20-23 | a byte stream is at most one sequence of records |
| EventQueue.Read | kernel/infra/event_queue.c:312-370 | the reading loop, with producers at every point where no lock is held, is a run of the system; it returns whole records, never more than the buffer, or an error if none, and once it has begun the result is the one of that run; a signal while it waits for the read lock leaves everything as it was; a read that does not begin returns -EAGAIN or -ERESTARTSYS and finds no data in an open queue; one that returns nothing says why: too small a buffer for the next report or record, a fault, or nothing left |
| EventQueue.OnlyTheseStop | kernel/infra/event_queue.c:204-310 | whatever step ends a read is one of these, or fills the buffer |
| EventQueue.RecordLayout | kernel/infra/event_queue.h:16-22 | where type, flags, length, number, time and payload stand in a record |
| EventQueue.ReportLayout | kernel/infra/event_queue.h:24-28 | and count, first and last in a report of drops |
| EventQueue.WaitReady | kernel/infra/event_queue.c:180-202 | ready exactly if there is data or the queue is closed; otherwise the error of a reader that does not wait or that a signal interrupts |
| EventQueue.ReadDrop | kernel/infra/event_queue.c:204-271 | report, commit or restore, as steps of the system |
| EventQueue.ReadNode | kernel/infra/event_queue.c:273-310 | peek, copy and commit, as steps of the system |
| EventQueue.EventQueue.PushEvent | kernel/infra/event_queue.c:96-160 | each result code and the new state for each case |
| EventQueue.EventQueue.DropEvent | kernel/infra/event_queue.c:162-178 | a number is used up and noted as dropped unless closed |
| EventQueue.EventQueue.NoteDropLocked | kernel/infra/event_queue.c:25-33 | counts and interval take the number in |
| EventQueue.EventQueue.Destroy | kernel/infra/event_queue.c:69-94 | the queue is as new but closed, with numbering and total kept |
| Allowlist.EveryRunCounts | kernel/policy/allowlist.c:87-252 | over any interleaving a node's count is its table link, the writer's and the outstanding references; it is released once they are gone, once, and freed no earlier; one node for each uid, and the count is the table's size |
| Allowlist.HeldIsAlive | kernel/policy/allowlist.c:87-110 | a node that is held or in the table is neither released nor freed, one found by a running lookup is not freed, which is the assumption on read-side sections: the step that frees waits for them |
| Allowlist.ReleasedForGood | kernel/policy/allowlist.c:155-164 | once the last reference is gone a node is never taken up again, however the run goes on |
| Allowlist.StepKeepsInv | kernel/policy/allowlist.c:87-252 | every step of lookups, puts, writer and reclamation keeps the invariant |
| Allowlist.SetBinds | kernel/policy/allowlist.c:195-236 | setting binds the profile to its uid and changes no other |
| Allowlist.CountIsSize | kernel/policy/allowlist.c:213-236 | with the writer at rest the count is the size of the table |
| Allowlist.AllowList.SetAppProfile | kernel/policy/allowlist.c:166-252 | each result code, allocation failure included; errors change nothing; success is replace or insert to the end |
| Allowlist.SettableMeans | kernel/policy/allowlist.c:112-146 | which profiles can be set, in numbers |
| Allowlist.AllowList.GetAppProfile | kernel/policy/allowlist.c:87-110 | the uid's node with one more reference, or none |
| Allowlist.AllowList.GetRootProfile | kernel/policy/allowlist.c:338-378 | a counted profile exactly for a uid with a root profile of its own, else the default |
| Allowlist.AllowList.PutAppProfile | kernel/policy/allowlist.c:332-336 | gives back one reference and releases with the last |
| Allowlist.AllowList.PutRootProfile | kernel/policy/allowlist.c:380-386 | the default is not counted, any other is given back |
| Allowlist.AllowList.PruneAllowlist | kernel/policy/allowlist.c:580-612 | exactly the profiles of valid uids and the reserved one stay, and the count is their number; before the system is up nothing changes |
| ApkSigning.CheckV2Signature | kernel/manager/apk_sign.c:144-288 | accepts a file if and only if its bytes have the grammar of an APK with a first-match end record, contiguous central directory, framed block and exact tiling of pairs, one matching v2 block and no v3 or v3.1 one |
| ApkSigning.CheckSigningBlock | kernel/manager/apk_sign.c:212-233 | accepts exactly a prefix that ends with the signing block of a trusted pair list |
| ApkSigning.CheckPairs | kernel/manager/apk_sign.c:237-287 | accepts exactly a region that is the encoding of a trusted pair list; every pair consumes bytes |
| ApkSigning.File.CheckBlock | kernel/manager/apk_sign.c:96-142 | accepts exactly a v2 block whose first signer's first certificate matches |
| ApkSigning.File.ReadLengthPrefixedEnd | kernel/manager/apk_sign.c:83-94 | succeeds exactly if a value with its length starts here inside the container |
| ApkSigning.File.ReadExact | kernel/manager/apk_sign.c:75-81 | reads inside the container or not at all |
| ApkSigning.FindEocd | kernel/manager/apk_sign.c:172-193 | the end record with the shortest matching comment, or none |
| ApkSigning.FrameDecides | kernel/manager/apk_sign.c:215-233 | equal sizes at both ends and the magic are necessary and sufficient for the block |
| ApkSigning.TrustedMeans | kernel/manager/apk_sign.c:250-287 | trusted is one pair of id 0x7109871a, which matches, and none of id 0xf05368c0 or 0x1b93ad61 |
| ApkSigning.BuiltIsSigned | kernel/manager/apk_sign.c:172-233 | a file put together as anything, signing block, central directory and end record is accepted, unless its comment or directory looks like another record |
| ApkSigning.MagicLetters | kernel/manager/apk_sign.c:186-226 | the magic numbers by their letters |
| ApkSigning.PairsSplit | kernel/manager/apk_sign.c:237-266 | a pair region can be tiled in one way only |
| ApkSigning.PrefixedUnique | kernel/manager/apk_sign.c:83-94 | a prefixed value can be read in one way only |
| BitmaskImmediate.EncodeImmediate | kpm/tools/insn.c:1320-1408 | finds fields if and only if the value is a logical immediate, and the fields decode to the value if and only if the value is faithful: not a 64-bit pattern with ones at both ends whose high half is not all ones |
| BitmaskImmediate.FindElement | kpm/tools/insn.c:1346-1353 | the stride loop stops at the least power-of-two period |
| BitmaskImmediate.RangeMeansRun | kpm/tools/insn.c:1311-1318 | the bit trick recognises exactly one run of ones |
| BitmaskImmediate.RunCase | kpm/tools/insn.c:1373-1379 | a run rotated by its lowest place decodes to the value |
| BitmaskImmediate.CoRunCase | kpm/tools/insn.c:1380-1396 | a wrapping run rotated by the end of its zeros decodes to the value |
| BitmaskImmediate.WrongRotation | kpm/tools/insn.c:1391-1396 | any smaller rotation decodes to another value |
| BitmaskImmediate.OnlyRunsDecode | kpm/tools/insn.c:1320-1408 | whatever fields stand for a value, its least element is a run or all but a run |
| BitmaskImmediate.SomeImmediateIsWrong | kpm/tools/insn.c:1391-1396 | ones at places 0 and 63 only are a logical immediate that is encoded wrongly |
| HammingWeight.Hweight64Counts | kpm/tools/insn.c:94-102 | the parallel count is the number of ones, for every word |
| HammingWeight.CountTwos | kpm/tools/insn.c:96-96 | after the first step each two bits hold their own count |
| HammingWeight.CountAll | kpm/tools/insn.c:99-101 | the last three additions leave the sum of all bytes in the lowest |
| BitmaskImmediate.PlacedReadsBack | kpm/tools/insn.c:1405-1407 | the three fields are read back from the instruction, whose opcode, registers and size stay |
| InsnFields.FieldPlaces | kpm/tools/insn.c:205-255 | where the immediates of MOVZ, ADD, LDUR, LDP, B, CBZ, TBZ and AND stand in their words |
| InsnFields.ImmediateReadsBack | kpm/tools/insn.c:264-315 | an immediate that fits its field is read back from any word but the fault word, and every other field stays |
| InsnFields.FieldReadsBack | kpm/tools/insn.c:287-315 | a field reads back what was put in, up to its width |
| InsnFields.OtherFieldStays | kpm/tools/insn.c:310-313 | fields below and above are not affected |
| InsnFields.OffsetMeaning | kpm/tools/insn.c:1127-1148 | the displacement read is the architectural one of the branch class |
| InsnFields.OffsetReadsBack | kpm/tools/insn.c:1154-1167 | a displacement set is read back, from a branch of the same class, if and only if it is a multiple of four within the range |
| InsnFields.OneMask | kpm/tools/insn.c:287-315 | clearing and setting both parts of the page displacement by one mask is setting them one after the other |
| InsnFields.AdrpReadsBack | kpm/tools/insn.c:1169-1179 | a page displacement is read back, rounded down to a page, over the whole signed range |
| Sha256.HashParts | kpm/kernel/base/sha256.c:97-156 | for every way of cutting a message into updates the result is the digest of the whole message |
| Sha256.Sha256Ctx.Final | kpm/kernel/base/sha256.c:112-156 | the digest of everything put in |
| Sha256.LoopEndsExactly | kpm/kernel/base/sha256.c:97-110 | the loop over a piece ends if and only if the piece is shorter than 2^32 bytes, because its counter wraps there |
| Sha256.Sha256Ctx.Update | kpm/kernel/base/sha256.c:97-110 | for a piece whose loop ends the message grows by the bytes, counted with the wrapping counter |
| Sha256.Sha256Ctx.Transform | kpm/kernel/base/sha256.c:42-81 | the state is compressed with the block |
| Sha256.Sha256Ctx.PadBuffer | kpm/kernel/base/sha256.c:112-130 | padding in this block or this and the next |
| Sha256.Sha256Ctx.WriteLength | kpm/kernel/base/sha256.c:132-141 | the length big-endian in the last eight bytes |
| Sha256Constants.ConstantsAreRoots | kpm/kernel/base/sha256.c:30-40 | the round constants are the first 32 fractional bits of the cube roots of the first 64 primes |
| Sha256Constants.InitialAreRoots | kpm/kernel/base/sha256.c:83-95 | the initial state is that of the square roots of the first eight |
| Sha256Constants.ChChooses | kpm/kernel/base/sha256.c:19-27 | the choice function, by its bits |
| Sha256Constants.MajIsMajority | kpm/kernel/base/sha256.c:19-27 | the majority function, by its bits |
| Sha256Constants.EpsAreTurns | kpm/kernel/base/sha256.c:19-27 | the functions on the working variables commute with rotation, and where they take a bit |
| Sha256Constants.SigsMove | kpm/kernel/base/sha256.c:19-27 | where the schedule functions take the lowest and the highest bit |
| Sha256Constants.ScheduleFollows | kpm/kernel/base/sha256.c:42-58 | the recurrence of the message schedule |
| Sha256.LastBlocks | kpm/kernel/base/sha256.c:112-142 | padding a message as a whole gives its whole blocks and one or two more |
| Sha256.LengthBits | kpm/kernel/base/sha256.c:132-141 | the length field wraps like the 64-bit counter |
| RcSplice.RunSchedule | kernel/runtime/ksud_integration.c:285-391 | any schedule of reads of both kinds returns a beginning of file, built-in and modules' script; a read returns nothing exactly at the end or where a fault leaves no room for the next part, so without faults exactly at the end; fstat before the first read tells the length |
| RcSplice.RcFile.ReadProxy | kernel/runtime/ksud_integration.c:285-391 | each call returns the next part of the stream, within the buffer, and nothing if and only if the stream has ended or a fault stops it at the end of the file |
| RcSplice.NothingAtEndOnly | kernel/runtime/ksud_integration.c:285-391 | without faults the condition for an empty read is the end of the stream |
| RcSplice.FaultLooksLikeEnd | kernel/runtime/ksud_integration.c:301-338 | a schedule whose first read returns nothing though a byte is left, which the second returns |
| RcSplice.RcFile.Append | kernel/runtime/ksud_integration.c:301-338 | the appended part continues the stream, also after a fault |
| RcSplice.RcFile.Fstat | kernel/runtime/ksud_integration.c:579-592 | the size grows by both scripts |
| PatchRendezvous.RunIsSafe | kernel/hook/arm64/patch_memory.c:166-187 | over any interleaving at most one write, none leaves before it, and the counter is at most one above the number of processors |
| PatchRendezvous.EndsWritten | kernel/hook/arm64/patch_memory.c:166-199 | when all have left exactly one write has been made |
| PatchRendezvous.WriterIsAlone | kernel/hook/arm64/patch_memory.c:174-184 | while one writes all others spin |
| PatchRendezvous.SomeoneMoves | kernel/hook/arm64/patch_memory.c:174-184 | until all have left some processor can move |
| PatchRendezvous.MovesEnd | kernel/hook/arm64/patch_memory.c:174-184 | every move brings the end nearer, so runs of moves are bounded |
| PatchRendezvous.StepKeepsInv | kernel/hook/arm64/patch_memory.c:166-187 | every atomic action keeps the rendezvous invariant |
| PatchRendezvous.PatchText.Step | kernel/hook/arm64/patch_memory.c:166-187 | one action of one processor on the shared counter |

## Left out

- Relocator.Hook.ReloLdr: the words written are stated here, and what they load from in `LiteralLoads`; the access itself is not modelled.
- Simulation.RunMatched: moved words are branches, address computations and copied words that do not read X17; calls inside the window need that they leave it or that the moved words do not read X30; register branches, exception calls and returns, and BC.cond are not among the moved words.
- Relocator.Hook.HookPrepare: the buffer bound for five-word trampolines is a precondition, with `RoomExactly` as its exact form.
- HookManager.HookManager.Hook: the relocated code must fit its buffer, and the chain of branches to the entry must end.
- HookedCalls.HookFunction: the hooked entry is not inside the hook memory itself.
- HookRecovery.RecoverableExactly: unhook is given the entry itself; `OrdersAreCalls` says when the branch chaser leaves it there.
- HookManager.RunKeepsText: text words are independent cells, so windows are taken to be word-aligned to each other.
- PageTable.Builder.MapRegion: free pages are given in advance, allocation does not fail, and the linear-map offset is zero.
- Cache and TLB maintenance, page protection around text writes, fixmaps and system registers.
- hook_wrap, hook chains and the transit stubs.
- AccessVector.AvDecision.ContextStructComputeAv: conditional rules, extended permissions and audit output are not modelled; a BUG is a result instead of a stop.
- Constraint.ConstraintExprEval: a level is a sensitivity and a set of categories, as the MLS code compares them.
- Extended-permission, file-name transition and genfs edits of the policy, and permissive types.
- PolicyEditor.PolicyDb.AddType: allocation does not fail; where it does, the source has already counted the type.
- PolicyEditor.PolicyDb.GetAvtabNode: inserting a rule does not fail for lack of memory.
- PolicyEditor.PolicyDb.RemoveAvtabNode: the temporary table it needs can be allocated.
- PolicyEditor.PolicyDb.AddRule: allocations inside the edit do not fail; where one does, the source leaves the edit partly made.
- PolicyBatch.SelinuxState.HandleSepolicy: applying one command is a parameter, which `PolicyCommands` gives for rule, type and attribute commands, where allocations inside one command do not fail.
- EventQueue.EventQueue.PushEvent: sequence numbers and the queue length are unbounded; the wire format is stated for numbers below 2^64.
- PolicyCommands.ApplyOneSepolicyCmd: extended-permission, permissive, transition, change and genfs commands are a parameter of the batch theorem.
- EventQueue.Read: whether a waiting reader is woken or interrupted is a parameter; the two copies of one record fault together.
- Polling and wake-ups of the event queue.
- Allowlist.EveryRunCounts: lookups run inside a read-side section that keeps memory from being freed; the build without policies is not modelled.
- Allowlist.AllowList.SetAppProfile: the fields of a profile that no code here looks at are not modelled.
- Loading and storing the allowlist file, and its older versions.
- ApkSigning.CheckV2Signature: SHA-256 is a parameter, opening the file and memory for hashing do not fail, and comparing digests as hexadecimal strings is comparing digests.
- BitmaskImmediate.EncodeImmediate: the 64-bit variant; counting trailing zeros and significant bits are functions, not the binary searches of the header file.
- Register fields and the instruction generators of the instruction library.
- Sha256.Sha256Ctx.Update: the eight state words are one value instead of an array.
- RcSplice.RunSchedule: the file does not change while it is read and its own reads do not fail, and a fault lies at a fixed place of the user's buffer during one call.
- PatchRendezvous.RunIsSafe: the number of processors online does not change, and the write itself is one action.
- File wrappers, mount namespaces, ioctl dispatch, feature registry and system-call registration.
- kallsyms search and image patching, which look for likely layouts.
