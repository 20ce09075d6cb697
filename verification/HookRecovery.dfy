/** Getting the original text back: exactly when unhooking every entry, in whatever order, restores it. */
module HookRecovery {
  import opened Bits
  import opened A64
  import opened Relocator
  import opened HookManager

  /** The live hook in this slot has written the word at this address. */
  predicate Writes(s: Slot, a: U64) {
    s.inUse && s.addr <= a < s.addr + 4 * |s.tramp| && (a - s.addr) % 4 == 0
  }

  ghost predicate AllValid(sys: Sys) { forall i :: 0 <= i < |sys.slots| ==> SlotValid(sys.slots[i]) }

  // ---------- unhooking every entry ----------

  /** What unhook does once the entry is resolved: of the live hooks on it, the one in the lowest slot goes. */
  ghost function Unhooked(sys: Sys, addr: U64): Sys
    requires AllValid(sys) && Registered(sys.slots, addr)
  {
    UnhookSys(sys, FirstAt(sys.slots, addr))
  }

  /** The calls of unhook, entry by entry, remove a hook each until none is left. */
  ghost predicate RemovesAll(sys: Sys, order: seq<U64>)
    requires AllValid(sys)
    decreases |order|
  {
    if order == [] then NoHooks(sys)
    else Registered(sys.slots, order[0]) && RemovesAll(Unhooked(sys, order[0]), order[1..])
  }

  ghost function TextAfter(sys: Sys, order: seq<U64>): Text
    requires AllValid(sys) && RemovesAll(sys, order)
    decreases |order|
  {
    if order == [] then sys.text else TextAfter(Unhooked(sys, order[0]), order[1..])
  }

  /** Every such order ends in the original text. */
  ghost predicate Recoverable(orig: Text, sys: Sys)
    requires AllValid(sys)
  {
    forall order :: RemovesAll(sys, order) ==> forall a: U64 :: TextAfter(sys, order)(a) == orig(a)
  }

  // ---------- the exact condition ----------

  /** The word a live hook will put back at this address. */
  function SavedAt(s: Slot, a: U64): Word
    requires SlotValid(s) && Writes(s, a)
  {
    s.saved[(a - s.addr) / 4]
  }

  /** Some other hook on the same entry that writes the word is in a higher slot, and so goes later. */
  predicate Shadowed(slots: seq<Slot>, i: nat, addr: U64, a: U64) {
    exists j :: i < j < |slots| && slots[j].addr == addr && Writes(slots[j], a)
  }

  /** The hook may be the last one to put the word back. */
  predicate MayBeLast(slots: seq<Slot>, i: nat, a: U64) {
    i < |slots| && Writes(slots[i], a) && !Shadowed(slots, i, slots[i].addr, a)
  }

  predicate Written(slots: seq<Slot>, a: U64) { exists i :: 0 <= i < |slots| && Writes(slots[i], a) }

  /** Of the hooks on one entry, the last to put a word back has saved the original one; every other word is original. */
  ghost predicate Accounted(orig: Text, sys: Sys)
    requires AllValid(sys)
  {
    && (forall i: nat, a: U64 | MayBeLast(sys.slots, i, a) :: SavedAt(sys.slots[i], a) == orig(a))
    && (forall a: U64 | !Written(sys.slots, a) :: sys.text(a) == orig(a))
  }

  /** What one removal does to a word. */
  lemma UnhookWord(sys: Sys, i: nat, a: U64)
    requires i < |sys.slots| && sys.slots[i].inUse && SlotValid(sys.slots[i])
    ensures var s, t := sys.slots[i], UnhookSys(sys, i);
      if Writes(s, a) then t.text(a) == SavedAt(s, a) else t.text(a) == sys.text(a)
  {
  }

  lemma UnhookedValid(sys: Sys, addr: U64)
    requires AllValid(sys) && Registered(sys.slots, addr)
    ensures AllValid(Unhooked(sys, addr))
    ensures var i, t := FirstAt(sys.slots, addr), Unhooked(sys, addr);
      |t.slots| == |sys.slots| && !t.slots[i].inUse && forall j :: 0 <= j < |sys.slots| && j != i ==> t.slots[j] == sys.slots[j]
  {
  }

  /** Removing the lowest hook of an entry leaves the last one of each word what it was. */
  lemma LastStays(sys: Sys, addr: U64, i: nat, a: U64)
    requires AllValid(sys) && Registered(sys.slots, addr) && MayBeLast(Unhooked(sys, addr).slots, i, a)
    ensures MayBeLast(sys.slots, i, a) && Unhooked(sys, addr).slots[i] == sys.slots[i]
  {
    hide Writes;
    UnhookedValid(sys, addr);
    var f, t := FirstAt(sys.slots, addr), Unhooked(sys, addr);
    DeadWritesNone(t.slots[f], a);
    assert i != f;
    LiveWrites(t.slots[i], a);
    assert forall j | 0 <= j < |sys.slots| && j != f :: t.slots[j] == sys.slots[j];
  }

  lemma DeadWritesNone(s: Slot, a: U64)
    requires !s.inUse
    ensures !Writes(s, a)
  {
  }

  lemma LiveWrites(s: Slot, a: U64)
    ensures Writes(s, a) ==> At(s, s.addr)
  {
  }

  lemma UnhookAccounted(orig: Text, sys: Sys, addr: U64)
    requires AllValid(sys) && Accounted(orig, sys) && Registered(sys.slots, addr)
    ensures AllValid(Unhooked(sys, addr)) && Accounted(orig, Unhooked(sys, addr))
  {
    hide Writes, SavedAt, UnhookSys;
    UnhookedValid(sys, addr);
    var t := Unhooked(sys, addr);
    forall i: nat, a: U64 | MayBeLast(t.slots, i, a)
      ensures SavedAt(t.slots[i], a) == orig(a)
    {
      LastStays(sys, addr, i, a);
    }
    forall a: U64 | !Written(t.slots, a)
      ensures t.text(a) == orig(a)
    {
      RestoredWord(orig, sys, addr, a);
    }
  }

  /** When the last hook on a word is gone, the word is the one it put back, or has never been written. */
  lemma RestoredWord(orig: Text, sys: Sys, addr: U64, a: U64)
    requires AllValid(sys) && Accounted(orig, sys) && Registered(sys.slots, addr)
    requires !Written(Unhooked(sys, addr).slots, a)
    ensures Unhooked(sys, addr).text(a) == orig(a)
  {
    hide Writes, SavedAt, UnhookSys;
    UnhookedValid(sys, addr);
    var i, t := FirstAt(sys.slots, addr), Unhooked(sys, addr);
    UnhookWord(sys, i, a);
    assert forall j | 0 <= j < |sys.slots| && j != i :: t.slots[j] == sys.slots[j] && !Writes(sys.slots[j], a);
    assert Writes(sys.slots[i], a) ==> MayBeLast(sys.slots, i, a);
  }

  lemma {:induction false} AccountedEnds(orig: Text, sys: Sys, order: seq<U64>)
    requires AllValid(sys) && Accounted(orig, sys) && RemovesAll(sys, order)
    ensures forall a: U64 :: TextAfter(sys, order)(a) == orig(a)
    decreases |order|
  {
    hide Unhooked;
    if order == [] {
      assert forall a: U64 :: !Written(sys.slots, a);
    } else {
      UnhookAccounted(orig, sys, order[0]);
      AccountedEnds(orig, Unhooked(sys, order[0]), order[1..]);
    }
  }

  function LiveCount(slots: seq<Slot>): nat {
    if slots == [] then 0 else LiveCount(slots[..|slots| - 1]) + if slots[|slots| - 1].inUse then 1 else 0
  }

  lemma {:induction false} OneLess(slots: seq<Slot>, i: nat)
    requires i < |slots| && slots[i].inUse
    ensures LiveCount(slots[i := slots[i].(inUse := false)]) + 1 == LiveCount(slots)
    decreases |slots|
  {
    var k, after := |slots| - 1, slots[i := slots[i].(inUse := false)];
    if i < k {
      OneLess(slots[..k], i);
      assert after[..k] == slots[..k][i := slots[i].(inUse := false)];
    } else {
      assert after[..k] == slots[..k];
    }
  }

  /** A live slot is registered under its entry, no later than where it stands. */
  lemma LiveIsRegistered(slots: seq<Slot>, i: nat)
    requires i < |slots| && slots[i].inUse
    ensures Registered(slots, slots[i].addr) && FirstAt(slots, slots[i].addr) <= i
  {
    assert At(slots[i], slots[i].addr);
  }

  /** All hooks can be removed so that this one is the last to put the word back. */
  lemma {:induction false} LastOne(sys: Sys, i: nat, a: U64) returns (order: seq<U64>)
    requires AllValid(sys) && MayBeLast(sys.slots, i, a)
    ensures RemovesAll(sys, order) && TextAfter(sys, order)(a) == SavedAt(sys.slots[i], a)
    decreases LiveCount(sys.slots)
  {
    hide Writes, SavedAt, LiveCount;
    var addr := sys.slots[i].addr;
    LiveWrites(sys.slots[i], a);
    if j: nat :| j < |sys.slots| && sys.slots[j].inUse && (sys.slots[j].addr != addr || j < i) {
      LiveIsRegistered(sys.slots, j);
      var other := sys.slots[j].addr;
      UnhookedValid(sys, other);
      OneLess(sys.slots, FirstAt(sys.slots, other));
      StillLast(sys, other, i, a);
      var rest := LastOne(Unhooked(sys, other), i, a);
      order := [other] + rest;
      assert order[1..] == rest;
    } else {
      LiveIsRegistered(sys.slots, i);
      assert FirstAt(sys.slots, addr) == i;
      UnhookedValid(sys, addr);
      UnhookWord(sys, i, a);
      var t := Unhooked(sys, addr);
      OthersAreOff(sys, i, a);
      var rest := SomeOrder(t);
      Untouched(t, rest, a);
      order := [addr] + rest;
      assert order[1..] == rest;
    }
  }

  /** Removing a hook of another entry, or a lower one of the same entry, keeps the chosen one last. */
  lemma StillLast(sys: Sys, addr: U64, i: nat, a: U64)
    requires AllValid(sys) && Registered(sys.slots, addr) && MayBeLast(sys.slots, i, a) && FirstAt(sys.slots, addr) != i
    ensures MayBeLast(Unhooked(sys, addr).slots, i, a) && Unhooked(sys, addr).slots[i] == sys.slots[i]
  {
    hide Writes;
    UnhookedValid(sys, addr);
    DeadWritesNone(Unhooked(sys, addr).slots[FirstAt(sys.slots, addr)], a);
  }

  /** If only higher hooks on the same entry are left, they do not write the word. */
  lemma OthersAreOff(sys: Sys, i: nat, a: U64)
    requires AllValid(sys) && MayBeLast(sys.slots, i, a)
    requires forall j :: 0 <= j < |sys.slots| && sys.slots[j].inUse ==> sys.slots[j].addr == sys.slots[i].addr && i <= j
    requires Registered(sys.slots, sys.slots[i].addr) && FirstAt(sys.slots, sys.slots[i].addr) == i
    ensures !Written(Unhooked(sys, sys.slots[i].addr).slots, a)
  {
    hide Writes;
    var t := Unhooked(sys, sys.slots[i].addr);
    UnhookedValid(sys, sys.slots[i].addr);
    forall j | 0 <= j < |t.slots|
      ensures !Writes(t.slots[j], a)
    {
      LiveWrites(t.slots[j], a);
      DeadWritesNone(t.slots[i], a);
    }
  }

  /** A word no live hook has written stays as it is through any removal. */
  lemma {:induction false} Untouched(sys: Sys, order: seq<U64>, a: U64)
    requires AllValid(sys) && RemovesAll(sys, order) && !Written(sys.slots, a)
    ensures TextAfter(sys, order)(a) == sys.text(a)
    decreases |order|
  {
    if order != [] {
      var i, t := FirstAt(sys.slots, order[0]), Unhooked(sys, order[0]);
      UnhookWord(sys, i, a);
      UnhookedValid(sys, order[0]);
      assert forall j | 0 <= j < |sys.slots| :: !Writes(t.slots[j], a);
      Untouched(t, order[1..], a);
    }
  }

  lemma {:induction false} SomeOrder(sys: Sys) returns (order: seq<U64>)
    requires AllValid(sys)
    ensures RemovesAll(sys, order)
    decreases LiveCount(sys.slots)
  {
    hide LiveCount;
    if i: nat :| i < |sys.slots| && sys.slots[i].inUse {
      var addr := sys.slots[i].addr;
      LiveIsRegistered(sys.slots, i);
      UnhookedValid(sys, addr);
      OneLess(sys.slots, FirstAt(sys.slots, addr));
      var rest := SomeOrder(Unhooked(sys, addr));
      order := [addr] + rest;
      assert order[1..] == rest;
    } else {
      order := [];
    }
  }

  /** The original text comes back in every order exactly if, of the hooks on one entry, the last to put a word back has
      saved the original one, and every word no live hook has written is original. */
  lemma RecoverableExactly(orig: Text, sys: Sys)
    requires AllValid(sys)
    ensures Recoverable(orig, sys) <==> Accounted(orig, sys)
  {
    hide RemovesAll, TextAfter, Written, Shadowed, Writes, SavedAt;
    if Accounted(orig, sys) {
      forall order | RemovesAll(sys, order)
        ensures forall a: U64 :: TextAfter(sys, order)(a) == orig(a)
      {
        AccountedEnds(orig, sys, order);
      }
    } else if i: nat, a: U64 :| MayBeLast(sys.slots, i, a) && SavedAt(sys.slots[i], a) != orig(a) {
      var order := LastOne(sys, i, a);
    } else {
      var a: U64 :| !Written(sys.slots, a) && sys.text(a) != orig(a);
      var order := SomeOrder(sys);
      Untouched(sys, order, a);
    }
  }

  // ---------- hooking ----------

  /** Each word that a hook at this entry overwrites is original, or will be put back later by a hook on the same entry
      in a higher slot. */
  ghost predicate SafeToHook(orig: Text, sys: Sys, origin: U64)
    requires origin + 4 * TRAMPOLINE_MAX_NUM <= TWO64
  {
    forall k: nat | k < TrampLen(sys.text(origin)) ::
      sys.text(origin + 4 * k) == orig(origin + 4 * k) || Shadowed(sys.slots, FirstFree(sys.slots), origin, origin + 4 * k)
  }

  predicate CanHook(sys: Sys, origin: U64) {
    FirstFree(sys.slots) < |sys.slots| && origin + 4 * TRAMPOLINE_MAX_NUM <= TWO64
  }

  lemma HookedWord(sys: Sys, origin: U64, replace: U64, a: U64)
    requires CanHook(sys, origin)
    ensures var t := HookSys(sys, origin, replace);
      !Writes(t.slots[FirstFree(sys.slots)], a) ==> t.text(a) == sys.text(a)
  {
  }

  /** The words the new slot writes, and what it will put back. */
  lemma NewSlotWrites(text: Text, origin: U64, replace: U64, a: U64)
    requires origin + 4 * TRAMPOLINE_MAX_NUM <= TWO64
    ensures var s := NewSlot(text, origin, replace);
      && SlotValid(s) && s.inUse && s.addr == origin
      && (Writes(s, a) <==> exists k: nat :: k < TrampLen(text(origin)) && a == origin + 4 * k)
      && (Writes(s, a) ==> SavedAt(s, a) == text(a))
  {
    var s := NewSlot(text, origin, replace);
    if Writes(s, a) {
      var k := (a - origin) / 4;
      assert a == origin + 4 * k;
    }
  }

  lemma HookedSlots(sys: Sys, origin: U64, replace: U64)
    requires AllValid(sys) && CanHook(sys, origin)
    ensures var f, t := FirstFree(sys.slots), HookSys(sys, origin, replace);
      && AllValid(t) && |t.slots| == |sys.slots| && t.slots[f] == NewSlot(sys.text, origin, replace) && !sys.slots[f].inUse
      && forall j :: 0 <= j < |sys.slots| && j != f ==> t.slots[j] == sys.slots[j]
  {
    hide FirstFree;
    NewSlotWrites(sys.text, origin, replace, 0);
  }

  /** Hooks below stay shadowed by those above them, the new one included. */
  lemma ShadowsStay(sys: Sys, origin: U64, replace: U64, i: nat, addr: U64, a: U64)
    requires AllValid(sys) && CanHook(sys, origin)
    ensures Shadowed(sys.slots, i, addr, a) ==> Shadowed(HookSys(sys, origin, replace).slots, i, addr, a)
    ensures i == FirstFree(sys.slots) ==>
      (Shadowed(HookSys(sys, origin, replace).slots, i, addr, a) <==> Shadowed(sys.slots, i, addr, a))
  {
    hide Writes, HookSys;
    HookedSlots(sys, origin, replace);
    var f, t := FirstFree(sys.slots), HookSys(sys, origin, replace);
    DeadWritesNone(sys.slots[f], a);
    if Shadowed(sys.slots, i, addr, a) {
      var j :| i < j < |sys.slots| && sys.slots[j].addr == addr && Writes(sys.slots[j], a);
      assert t.slots[j] == sys.slots[j];
    }
  }

  /** The condition on the words written by nobody, and on the hooks there were, is kept by any hook. */
  lemma OldHooksKeep(orig: Text, sys: Sys, origin: U64, replace: U64)
    requires AllValid(sys) && Accounted(orig, sys) && CanHook(sys, origin)
    ensures var f, t := FirstFree(sys.slots), HookSys(sys, origin, replace);
      && AllValid(t)
      && (forall i: nat, a: U64 | i != f && MayBeLast(t.slots, i, a) :: SavedAt(t.slots[i], a) == orig(a))
      && (forall a: U64 | !Written(t.slots, a) :: t.text(a) == orig(a))
  {
    hide Writes, HookSys, SavedAt, Shadowed;
    HookedSlots(sys, origin, replace);
    var f, t := FirstFree(sys.slots), HookSys(sys, origin, replace);
    forall i: nat, a: U64 | i != f && MayBeLast(t.slots, i, a)
      ensures SavedAt(t.slots[i], a) == orig(a)
    {
      ShadowsStay(sys, origin, replace, i, sys.slots[i].addr, a);
      assert MayBeLast(sys.slots, i, a);
    }
    forall a: U64 | !Written(t.slots, a)
      ensures t.text(a) == orig(a)
    {
      HookedWord(sys, origin, replace, a);
      DeadWritesNone(sys.slots[f], a);
      assert forall j | 0 <= j < |sys.slots| && j != f :: t.slots[j] == sys.slots[j];
      assert !Written(sys.slots, a);
    }
  }

  /** What the new hook writes and puts back. */
  lemma NewHookWord(sys: Sys, origin: U64, replace: U64, a: U64)
    requires AllValid(sys) && CanHook(sys, origin)
    ensures var f, t := FirstFree(sys.slots), HookSys(sys, origin, replace);
      && AllValid(t)
      && (MayBeLast(t.slots, f, a) <==> Writes(t.slots[f], a) && !Shadowed(sys.slots, f, origin, a))
      && (Writes(t.slots[f], a) <==> exists k: nat :: k < TrampLen(sys.text(origin)) && a == origin + 4 * k)
      && (Writes(t.slots[f], a) ==> SavedAt(t.slots[f], a) == sys.text(a))
  {
    hide Writes, HookSys, SavedAt, Shadowed, SlotValid, FirstFree;
    HookedSlots(sys, origin, replace);
    ShadowsStay(sys, origin, replace, FirstFree(sys.slots), origin, a);
    NewSlotWrites(sys.text, origin, replace, a);
  }

  /** The new hook puts original words back last exactly if it was safe. */
  lemma NewHookKeeps(orig: Text, sys: Sys, origin: U64, replace: U64)
    requires AllValid(sys) && CanHook(sys, origin)
    ensures var f, t := FirstFree(sys.slots), HookSys(sys, origin, replace);
      && AllValid(t)
      && ((forall a: U64 | MayBeLast(t.slots, f, a) :: SavedAt(t.slots[f], a) == orig(a)) <==> SafeToHook(orig, sys, origin))
  {
    hide Writes, HookSys, SavedAt, Shadowed, SlotValid, MayBeLast, FirstFree, TrampLen;
    HookedSlots(sys, origin, replace);
    var f, t := FirstFree(sys.slots), HookSys(sys, origin, replace);
    if SafeToHook(orig, sys, origin) {
      forall a: U64 | MayBeLast(t.slots, f, a)
        ensures Writes(t.slots[f], a) && SavedAt(t.slots[f], a) == orig(a)
      {
        NewHookWord(sys, origin, replace, a);
        var k: nat :| k < TrampLen(sys.text(origin)) && a == origin + 4 * k;
      }
    } else {
      var k: nat :| k < TrampLen(sys.text(origin)) && sys.text(origin + 4 * k) != orig(origin + 4 * k)
        && !Shadowed(sys.slots, f, origin, origin + 4 * k);
      NewHookWord(sys, origin, replace, origin + 4 * k);
    }
  }

  /** From a recoverable state, hooking an entry leaves a recoverable one exactly if each word it overwrites is original
      or is put back later by another hook on the entry. */
  lemma HookRecoverableExactly(orig: Text, sys: Sys, origin: U64, replace: U64)
    requires AllValid(sys) && Recoverable(orig, sys) && CanHook(sys, origin)
    ensures AllValid(HookSys(sys, origin, replace))
    ensures Recoverable(orig, HookSys(sys, origin, replace)) <==> SafeToHook(orig, sys, origin)
  {
    hide Recoverable, MayBeLast, Written, SavedAt, HookSys, SafeToHook, FirstFree;
    RecoverableExactly(orig, sys);
    OldHooksKeep(orig, sys, origin, replace);
    NewHookKeeps(orig, sys, origin, replace);
    RecoverableExactly(orig, HookSys(sys, origin, replace));
  }

  /** On an entry that already shows a trampoline, a second hook is recoverable exactly if it takes a slot below some
      hook there: unhook then takes the newer one first. */
  lemma SecondHookExactly(orig: Text, sys: Sys, origin: U64, replace: U64)
    requires AllValid(sys) && Recoverable(orig, sys) && CanHook(sys, origin)
    requires sys.text(origin) != orig(origin) && !SignsReturn(sys.text(origin))
    ensures AllValid(HookSys(sys, origin, replace))
    ensures Recoverable(orig, HookSys(sys, origin, replace)) <==>
      exists j :: FirstFree(sys.slots) < j < |sys.slots| && At(sys.slots[j], origin)
  {
    hide Recoverable, HookSys, FirstFree;
    HookRecoverableExactly(orig, sys, origin, replace);
    var f := FirstFree(sys.slots);
    if SafeToHook(orig, sys, origin) {
      assert sys.text(origin + 4 * 0) == orig(origin + 4 * 0) || Shadowed(sys.slots, f, origin, origin + 4 * 0);
    }
    if j :| f < j < |sys.slots| && At(sys.slots[j], origin) {
      assert SlotValid(sys.slots[j]);
      forall k: nat | k < 4
        ensures Shadowed(sys.slots, f, origin, origin + 4 * k)
      {
        assert Writes(sys.slots[j], origin + 4 * k);
      }
    }
  }

  // ---------- unhooking what was just hooked ----------

  /** The slot unhook finds for the entry after a hook. */
  lemma FoundAfterHook(sys: Sys, origin: U64, replace: U64)
    requires CanHook(sys, origin)
    ensures var f, g := FirstFree(sys.slots), FirstAt(sys.slots, origin);
      FirstAt(HookSys(sys, origin, replace).slots, origin) == if g < f then g else f
  {
    var f, g, t := FirstFree(sys.slots), FirstAt(sys.slots, origin), HookSys(sys, origin, replace);
    var h := FirstAt(t.slots, origin);
    assert At(t.slots[f], origin);
    assert h != f ==> t.slots[h] == sys.slots[h];
    assert g < f ==> t.slots[g] == sys.slots[g];
  }

  /** The text and the live hooks are the same; what freed slots still hold does not matter. */
  ghost predicate SameLive(s: Sys, t: Sys) {
    |t.slots| == |s.slots| && (forall a: U64 :: t.text(a) == s.text(a))
    && forall i :: 0 <= i < |s.slots| ==> t.slots[i].inUse == s.slots[i].inUse && (s.slots[i].inUse ==> t.slots[i] == s.slots[i])
  }

  /** Unhooking an entry at once gives back the state before the hook, whatever it overwrote, exactly if no live hook on
      the entry is in a lower slot than the new one; otherwise an older hook goes and the new one stays. */
  lemma UnhookUndoesHook(sys: Sys, origin: U64, replace: U64)
    requires AllValid(sys) && CanHook(sys, origin)
    ensures var t := HookSys(sys, origin, replace);
      && AllValid(t) && Registered(t.slots, origin)
      && (SameLive(sys, Unhooked(t, origin)) <==> FirstFree(sys.slots) < FirstAt(sys.slots, origin))
  {
    hide Writes, SlotValid, HookSys, UnhookSys;
    HookedSlots(sys, origin, replace);
    FoundAfterHook(sys, origin, replace);
    var f, t := FirstFree(sys.slots), HookSys(sys, origin, replace);
    UnhookedValid(t, origin);
    if FirstFree(sys.slots) < FirstAt(sys.slots, origin) {
      forall a: U64 ensures Unhooked(t, origin).text(a) == sys.text(a) {
        UndoneWord(sys, origin, replace, a);
      }
    } else {
      assert Unhooked(t, origin).slots[f] == t.slots[f];
      NewSlotWrites(sys.text, origin, replace, 0);
    }
  }

  lemma UndoneWord(sys: Sys, origin: U64, replace: U64, a: U64)
    requires AllValid(sys) && CanHook(sys, origin)
    ensures var f, t := FirstFree(sys.slots), HookSys(sys, origin, replace);
      SlotValid(t.slots[f]) && UnhookSys(t, f).text(a) == sys.text(a)
  {
    hide Writes, SlotValid, HookSys, UnhookSys, SavedAt;
    HookedSlots(sys, origin, replace);
    NewSlotWrites(sys.text, origin, replace, a);
    HookedWord(sys, origin, replace, a);
    UnhookWord(HookSys(sys, origin, replace), FirstFree(sys.slots), a);
  }

  /** In the run that leaves the first trampoline behind, unhooking right after the second hook does not undo it: the
      entry is the original one again while the second hook stays registered. */
  lemma SecondHookIsNotUndone(orig: Text, origin: U64, first: U64, second: U64)
    requires origin + 4 * TRAMPOLINE_MAX_NUM <= TWO64 && !SignsReturn(orig(origin)) && orig(origin) != 0x58000051
    ensures var s1 := HookSys(Sys(orig, [FREE, FREE]), origin, first);
            var s2 := HookSys(s1, origin, second);
            && AllValid(s2) && Recoverable(orig, s1) && !Recoverable(orig, s2)
            && FirstAt(s2.slots, origin) == 0
            && UnhookSys(s2, 0).text(origin) == orig(origin) && s1.text(origin) == 0x58000051
            && UnhookSys(s2, 0).slots[1] == s2.slots[1] && s2.slots[1].inUse
  {
    hide Recoverable, Accounted, NewSlot, FirstFree;
    var s0 := Sys(orig, [FREE, FREE]);
    FirstTwo(FREE, FREE);
    CleanIsRecoverable(orig, s0);
    HookRecoverableExactly(orig, s0, origin, first);
    EntryShows(s0, origin, first);
    var s1 := HookSys(s0, origin, first);
    HookedSlots(s0, origin, first);
    NewSlotWrites(orig, origin, first, origin);
    assert s1.slots == [s1.slots[0], FREE];
    FirstTwo(s1.slots[0], FREE);
    SecondHookExactly(orig, s1, origin, second);
    HookedSlots(s1, origin, second);
    EntryShows(s1, origin, second);
    FoundAfterHook(s1, origin, second);
    FoundAfterHook(s0, origin, first);
    var s2 := HookSys(s1, origin, second);
    NewSlotWrites(orig, origin, first, origin);
    assert s2.slots[0] == NewSlot(orig, origin, first);
    assert 0 < TrampLen(orig(origin)) && origin == origin + 4 * 0;
    UnhookWord(s2, 0, origin);
    assert s2.slots[1] == NewSlot(s1.text, origin, second);
    NewSlotWrites(s1.text, origin, second, origin);
  }

  /** A second hook in a lower slot than the first overwrites a trampoline, and is recoverable all the same. */
  lemma LowerSlotIsRecoverable(orig: Text, origin: U64, first: U64, second: U64, dead: Slot)
    requires origin + 4 * TRAMPOLINE_MAX_NUM <= TWO64 && !SignsReturn(orig(origin)) && orig(origin) != 0x58000051 && !dead.inUse
    ensures var s := NewSlot(orig, origin, first);
            var s1 := Sys(Overlay(orig, origin, s.tramp), [dead, s]);
            var s2 := HookSys(s1, origin, second);
            AllValid(s1) && AllValid(s2) && s1.text(origin) == 0x58000051 && Recoverable(orig, s1) && Recoverable(orig, s2)
  {
    hide Recoverable, FirstFree;
    var s := NewSlot(orig, origin, first);
    var s1 := Sys(Overlay(orig, origin, s.tramp), [dead, s]);
    FirstTwo(dead, s);
    forall a: U64
      ensures Writes(s, a) ==> SavedAt(s, a) == orig(a)
      ensures !Writes(s, a) ==> s1.text(a) == orig(a)
      ensures !Writes(dead, a)
    {
      NewSlotWrites(orig, origin, first, a);
    }
    OneHookAccounted(orig, s1);
    RecoverableExactly(orig, s1);
    SecondHookExactly(orig, s1, origin, second);
    assert At(s1.slots[1], origin);
  }

  lemma OneHookAccounted(orig: Text, sys: Sys)
    requires AllValid(sys) && |sys.slots| == 2 && forall a: U64 :: !Writes(sys.slots[0], a)
    requires forall a: U64 | Writes(sys.slots[1], a) :: SavedAt(sys.slots[1], a) == orig(a)
    requires forall a: U64 | !Writes(sys.slots[1], a) :: sys.text(a) == orig(a)
    ensures Accounted(orig, sys)
  {
    hide Writes, SavedAt;
  }

  lemma CleanIsRecoverable(orig: Text, sys: Sys)
    requires NoHooks(sys) && forall a: U64 :: sys.text(a) == orig(a)
    ensures AllValid(sys) && Recoverable(orig, sys)
  {
    hide Recoverable;
    RecoverableExactly(orig, sys);
  }

  // ---------- reaching an entry ----------

  /** The branch chaser stops at this word of a registered entry. */
  predicate Rests(w: Word, addr: U64) {
    if And32(w, 0xFC000000) == INST_B then Target(w, INST_B, addr) == addr else w != BTI_C && w != BTI_J
  }

  /** It does so at every live entry, now and after any removals. */
  ghost predicate EntriesRest(sys: Sys)
    requires AllValid(sys)
  {
    && (forall i :: 0 <= i < |sys.slots| && sys.slots[i].inUse ==> Rests(sys.text(sys.slots[i].addr), sys.slots[i].addr))
    && (forall i, j :: 0 <= i < |sys.slots| && 0 <= j < |sys.slots| && sys.slots[i].inUse && Writes(sys.slots[j], sys.slots[i].addr) ==>
          Rests(SavedAt(sys.slots[j], sys.slots[i].addr), sys.slots[i].addr))
  }

  /** Each call resolves its address to itself, so unhook of that address makes the removal. */
  ghost predicate Resolves(sys: Sys, order: seq<U64>)
    requires AllValid(sys) && RemovesAll(sys, order)
    decreases |order|
  {
    order == [] || (Settles(sys, order[0], 0) && Resolves(Unhooked(sys, order[0]), order[1..]))
  }

  lemma EntrySettles(sys: Sys, addr: U64)
    requires AllValid(sys) && EntriesRest(sys) && Registered(sys.slots, addr)
    ensures Settles(sys, addr, 0)
  {
    hide Target, And32;
    assert sys.slots[FirstAt(sys.slots, addr)].addr == addr;
  }

  lemma UnhookKeepsRest(sys: Sys, addr: U64)
    requires AllValid(sys) && EntriesRest(sys) && Registered(sys.slots, addr)
    ensures AllValid(Unhooked(sys, addr)) && EntriesRest(Unhooked(sys, addr))
  {
    hide Rests, Writes, SavedAt, UnhookSys;
    UnhookedValid(sys, addr);
    var f, t := FirstAt(sys.slots, addr), Unhooked(sys, addr);
    forall i | 0 <= i < |t.slots| && t.slots[i].inUse
      ensures Rests(t.text(t.slots[i].addr), t.slots[i].addr)
    {
      UnhookWord(sys, f, t.slots[i].addr);
    }
    forall i, j | 0 <= i < |t.slots| && 0 <= j < |t.slots| && t.slots[i].inUse && Writes(t.slots[j], t.slots[i].addr)
      ensures Rests(SavedAt(t.slots[j], t.slots[i].addr), t.slots[i].addr)
    {
      DeadWritesNone(t.slots[f], t.slots[i].addr);
    }
  }

  /** Every order of removal is a sequence of calls of unhook, on the entries themselves. */
  lemma {:induction false} OrdersAreCalls(sys: Sys, order: seq<U64>)
    requires AllValid(sys) && EntriesRest(sys) && RemovesAll(sys, order)
    ensures Resolves(sys, order)
    decreases |order|
  {
    hide EntriesRest, Unhooked, Settles;
    if order != [] {
      EntrySettles(sys, order[0]);
      UnhookKeepsRest(sys, order[0]);
      OrdersAreCalls(Unhooked(sys, order[0]), order[1..]);
    }
  }

  /** The windows of other live entries are apart from the words the hook overwrites. */
  ghost predicate ApartOrSame(sys: Sys, origin: U64) {
    forall i :: 0 <= i < |sys.slots| && sys.slots[i].inUse && sys.slots[i].addr != origin ==>
      !Covers(sys.slots[i], origin) && !(origin <= sys.slots[i].addr < origin + 4 * TrampLen(sys.text(origin)))
  }

  /** Hooking an entry at rest, apart from other live ones, leaves every entry at rest. */
  lemma HookKeepsRest(sys: Sys, origin: U64, replace: U64)
    requires AllValid(sys) && EntriesRest(sys) && CanHook(sys, origin)
    requires BranchOnce(sys, origin) == origin && ApartOrSame(sys, origin)
    ensures AllValid(HookSys(sys, origin, replace)) && EntriesRest(HookSys(sys, origin, replace))
  {
    hide Rests, Writes, SavedAt, HookSys, BranchOnce, TrampLen, SlotValid;
    HookedSlots(sys, origin, replace);
    var f, t := FirstFree(sys.slots), HookSys(sys, origin, replace);
    EntryRests(sys, origin, replace);
    forall i | 0 <= i < |t.slots| && t.slots[i].inUse
      ensures Rests(t.text(t.slots[i].addr), t.slots[i].addr)
    {
      if t.slots[i].addr != origin { OtherEntry(sys, origin, replace, i); }
    }
    forall i, j | 0 <= i < |t.slots| && 0 <= j < |t.slots| && t.slots[i].inUse && Writes(t.slots[j], t.slots[i].addr)
      ensures Rests(SavedAt(t.slots[j], t.slots[i].addr), t.slots[i].addr)
    {
      if t.slots[i].addr != origin {
        OtherEntry(sys, origin, replace, i);
      } else if j != f {
        LiveWrites(sys.slots[j], origin);
        WritesCovers(sys.slots[j], origin);
      }
    }
  }

  lemma WritesCovers(s: Slot, a: U64)
    requires Writes(s, a)
    ensures Covers(s, a)
  {
  }

  /** The entry just hooked shows the trampoline, and the new slot keeps the word that was there. */
  lemma EntryRests(sys: Sys, origin: U64, replace: U64)
    requires AllValid(sys) && CanHook(sys, origin) && BranchOnce(sys, origin) == origin
    ensures var f, t := FirstFree(sys.slots), HookSys(sys, origin, replace);
      && AllValid(t) && Rests(t.text(origin), origin)
      && (Writes(t.slots[f], origin) ==> Rests(SavedAt(t.slots[f], origin), origin))
  {
    hide Writes, SavedAt, And32, SlotValid, FirstFree;
    HookedSlots(sys, origin, replace);
    var t := HookSys(sys, origin, replace);
    NewSlotWrites(sys.text, origin, replace, origin);
    assert t.text(origin) == BTI_JC || t.text(origin) == 0x58000051;
    TrampolineIsNoBranch(t.text(origin));
  }

  /** Another live entry is not written to. */
  lemma OtherEntry(sys: Sys, origin: U64, replace: U64, i: nat)
    requires AllValid(sys) && CanHook(sys, origin) && ApartOrSame(sys, origin)
    requires i < |sys.slots| && i != FirstFree(sys.slots) && sys.slots[i].inUse && sys.slots[i].addr != origin
    ensures var f, t := FirstFree(sys.slots), HookSys(sys, origin, replace);
      !Writes(t.slots[f], sys.slots[i].addr) && t.text(sys.slots[i].addr) == sys.text(sys.slots[i].addr)
  {
    hide Writes, SavedAt, SlotValid, TrampLen, HookSys;
    HookedSlots(sys, origin, replace);
    NewSlotWrites(sys.text, origin, replace, sys.slots[i].addr);
    HookedWord(sys, origin, replace, sys.slots[i].addr);
  }

  // ---------- overlays ----------

  /** A kernel whose text is overlaid with disjoint trampolines is recoverable, and words clear of live windows
      are original: hooking clear words keeps it so. */
  lemma OverlayIsRecoverable(orig: Text, sys: Sys)
    requires Inv(orig, sys)
    ensures AllValid(sys) && Recoverable(orig, sys)
    ensures forall origin: U64 | CanHook(sys, origin) && Clear(sys, origin) :: SafeToHook(orig, sys, origin)
  {
    hide Recoverable, Clear, SlotSound, Writes, SavedAt, SafeToHook, Shadowed;
    OverlayValid(orig, sys);
    forall i: nat, a: U64 | MayBeLast(sys.slots, i, a)
      ensures SavedAt(sys.slots[i], a) == orig(a)
    {
      LiveWrites(sys.slots[i], a);
      SoundWord(orig, sys.slots[i], a);
    }
    forall a: U64 | !Written(sys.slots, a)
      ensures sys.text(a) == orig(a)
    {
      OffTrampolines(orig, sys, a);
    }
    RecoverableExactly(orig, sys);
    forall origin: U64 | CanHook(sys, origin) && Clear(sys, origin)
      ensures SafeToHook(orig, sys, origin)
    {
      ClearIsSafe(orig, sys, origin);
    }
  }

  lemma SoundWord(orig: Text, s: Slot, a: U64)
    requires SlotValid(s) && SlotSound(orig, s) && Writes(s, a)
    ensures SavedAt(s, a) == orig(a)
  {
    var k := (a - s.addr) / 4;
    assert a == s.addr + 4 * k;
  }

  lemma ClearIsSafe(orig: Text, sys: Sys, origin: U64)
    requires Inv(orig, sys) && CanHook(sys, origin) && Clear(sys, origin)
    ensures SafeToHook(orig, sys, origin)
  {
    hide Inv, Clear;
    SavedIsOriginal(orig, sys, origin);
  }

  lemma OverlayValid(orig: Text, sys: Sys)
    requires Inv(orig, sys)
    ensures AllValid(sys)
  {
  }

  lemma OffTrampolines(orig: Text, sys: Sys, a: U64)
    requires Inv(orig, sys) && !Written(sys.slots, a)
    ensures sys.text(a) == orig(a)
  {
    hide SlotSound;
    if i :| 0 <= i < |sys.slots| && Covers(sys.slots[i], a) {
      assert !Writes(sys.slots[i], a);
      assert sys.text(a) == Overlay(orig, sys.slots[i].addr, sys.slots[i].tramp)(a);
    }
  }

  // ---------- whole runs ----------

  datatype Call = Hooks(origin: U64, replace: U64) | Unhooks(addr: U64) | Fails

  /** A call of hook, of unhook, or one that fails, leads from one state to the next. */
  ghost predicate Called(s: Sys, c: Call, t: Sys) {
    match c
    case Hooks(origin, replace) => CanHook(s, origin) && SameSys(HookSys(s, origin, replace), t)
    case Unhooks(addr) => AllValid(s) && Registered(s.slots, addr) && SameSys(Unhooked(s, addr), t)
    case Fails => SameLive(s, t)
  }

  ghost predicate SafeCall(orig: Text, s: Sys, c: Call) {
    c.Hooks? ==> CanHook(s, c.origin) && SafeToHook(orig, s, c.origin)
  }

  ghost predicate IsCallRun(run: seq<Sys>, calls: seq<Call>) {
    |run| == |calls| + 1 && NoHooks(run[0]) && forall i :: 0 <= i < |calls| ==> Called(run[i], calls[i], run[i + 1])
  }

  lemma SameAccounted(orig: Text, s: Sys, t: Sys)
    requires AllValid(s) && SameLive(s, t)
    ensures AllValid(t) && (Accounted(orig, s) <==> Accounted(orig, t))
  {
    hide SavedAt;
    forall i: nat, a: U64
      ensures MayBeLast(s.slots, i, a) <==> MayBeLast(t.slots, i, a)
      ensures MayBeLast(s.slots, i, a) ==> s.slots[i] == t.slots[i]
    {
      SameLast(s, t, i, a);
    }
    forall a: U64
      ensures Written(s.slots, a) <==> Written(t.slots, a)
    {
      SameWritten(s, t, a);
    }
  }

  lemma SameWritten(s: Sys, t: Sys, a: U64)
    requires SameLive(s, t)
    ensures Written(s.slots, a) <==> Written(t.slots, a)
  {
    hide SameLive;
    forall i: nat | i < |s.slots| && i < |t.slots|
      ensures Writes(s.slots[i], a) <==> Writes(t.slots[i], a)
    {
      SameWrites(s, t, i, a);
    }
    assert |s.slots| == |t.slots| by { SameCount(s, t); }
  }

  lemma SameCount(s: Sys, t: Sys)
    requires SameLive(s, t)
    ensures |s.slots| == |t.slots|
  {
  }

  lemma SameWrites(s: Sys, t: Sys, i: nat, a: U64)
    requires SameLive(s, t) && i < |s.slots|
    ensures Writes(s.slots[i], a) <==> Writes(t.slots[i], a)
  {
  }

  lemma SameLast(s: Sys, t: Sys, i: nat, a: U64)
    requires SameLive(s, t)
    ensures MayBeLast(s.slots, i, a) <==> MayBeLast(t.slots, i, a)
    ensures MayBeLast(s.slots, i, a) ==> s.slots[i] == t.slots[i]
  {
    assert forall j | 0 <= j < |s.slots| :: Writes(s.slots[j], a) ==> s.slots[j] == t.slots[j];
    assert forall j | 0 <= j < |s.slots| :: Writes(t.slots[j], a) ==> s.slots[j] == t.slots[j];
  }

  lemma SameRecoverable(orig: Text, s: Sys, t: Sys)
    requires AllValid(s) && SameLive(s, t)
    ensures AllValid(t) && (Recoverable(orig, s) <==> Recoverable(orig, t))
  {
    hide AllValid, SameLive, Accounted, Recoverable;
    SameAccounted(orig, s, t);
    RecoverableExactly(orig, s);
    RecoverableExactly(orig, t);
  }

  /** A call keeps a recoverable state recoverable exactly if it is safe: only a hook can spoil it. */
  lemma CallRecovers(orig: Text, s: Sys, c: Call, t: Sys)
    requires AllValid(s) && Recoverable(orig, s) && Called(s, c, t)
    ensures AllValid(t) && (Recoverable(orig, t) <==> SafeCall(orig, s, c))
  {
    hide AllValid, Accounted, Recoverable, SafeToHook, HookSys, Unhooked;
    match c
    case Hooks(origin, replace) =>
      HookRecoverableExactly(orig, s, origin, replace);
      SameRecoverable(orig, HookSys(s, origin, replace), t);
    case Unhooks(addr) =>
      RecoverableExactly(orig, s);
      UnhookAccounted(orig, s, addr);
      RecoverableExactly(orig, Unhooked(s, addr));
      SameRecoverable(orig, Unhooked(s, addr), t);
    case Fails =>
      SameRecoverable(orig, s, t);
  }

  lemma CallKeepsValid(s: Sys, c: Call, t: Sys)
    requires AllValid(s) && Called(s, c, t)
    ensures AllValid(t)
  {
    match c
    case Hooks(origin, replace) => HookedSlots(s, origin, replace);
    case Unhooks(addr) => UnhookedValid(s, addr);
    case Fails =>
  }

  lemma {:induction false} RunIsValid(run: seq<Sys>, calls: seq<Call>, n: nat)
    requires IsCallRun(run, calls) && n <= |calls|
    ensures forall i :: 0 <= i <= n ==> AllValid(run[i])
    decreases n
  {
    hide Called, AllValid;
    if n > 0 {
      RunIsValid(run, calls, n - 1);
      CallKeepsValid(run[n - 1], calls[n - 1], run[n]);
    } else {
      CleanIsRecoverable(run[0].text, run[0]);
    }
  }

  lemma {:induction false} SafeRun(run: seq<Sys>, calls: seq<Call>, n: nat)
    requires IsCallRun(run, calls) && n <= |calls|
    requires forall i :: 0 <= i < n ==> SafeCall(run[0].text, run[i], calls[i])
    ensures AllValid(run[n]) && Recoverable(run[0].text, run[n])
    decreases n
  {
    hide Called, AllValid, SafeCall, Recoverable;
    if n > 0 {
      SafeRun(run, calls, n - 1);
      CallRecovers(run[0].text, run[n - 1], calls[n - 1], run[n]);
    } else {
      CleanIsRecoverable(run[0].text, run[0]);
    }
  }

  /** Over any run from a clean kernel the original text stays recoverable throughout exactly if every hook was safe when
      it was made. */
  lemma RunRecoversExactly(run: seq<Sys>, calls: seq<Call>)
    requires IsCallRun(run, calls)
    ensures forall i :: 0 <= i < |run| ==> AllValid(run[i])
    ensures (forall i :: 0 <= i < |run| ==> Recoverable(run[0].text, run[i])) <==>
      (forall i :: 0 <= i < |calls| ==> SafeCall(run[0].text, run[i], calls[i]))
  {
    hide Called, AllValid, SafeCall, Recoverable;
    RunIsValid(run, calls, |calls|);
    if forall i :: 0 <= i < |calls| ==> SafeCall(run[0].text, run[i], calls[i]) {
      forall i | 0 <= i < |run|
        ensures Recoverable(run[0].text, run[i])
      {
        SafeRun(run, calls, i);
      }
    }
    if forall i :: 0 <= i < |run| ==> Recoverable(run[0].text, run[i]) {
      forall i | 0 <= i < |calls|
        ensures SafeCall(run[0].text, run[i], calls[i])
      {
        assert Recoverable(run[0].text, run[i]) && Recoverable(run[0].text, run[i + 1]);
        assert Called(run[i], calls[i], run[i + 1]);
        CallRecovers(run[0].text, run[i], calls[i], run[i + 1]);
      }
    }
  }

  /** After a run with safe hooks only, in any order and nesting, the text is the original once nothing is live. */
  lemma RunRecovers(run: seq<Sys>, calls: seq<Call>)
    requires IsCallRun(run, calls) && NoHooks(run[|calls|])
    requires forall i :: 0 <= i < |calls| ==> SafeCall(run[0].text, run[i], calls[i])
    ensures forall a: U64 :: run[|calls|].text(a) == run[0].text(a)
  {
    hide SafeCall, Called;
    SafeRun(run, calls, |calls|);
    assert RemovesAll(run[|calls|], []);
  }

  /** The hook was made at an entry at rest, apart from the other live ones. */
  ghost predicate TidyCall(s: Sys, c: Call) {
    c.Hooks? ==> BranchOnce(s, c.origin) == c.origin && ApartOrSame(s, c.origin)
  }

  lemma SameRest(s: Sys, t: Sys)
    requires AllValid(s) && EntriesRest(s) && SameLive(s, t)
    ensures AllValid(t) && EntriesRest(t)
  {
    hide Rests, SavedAt;
    assert forall j, a: U64 | 0 <= j < |s.slots| && Writes(t.slots[j], a) :: s.slots[j] == t.slots[j];
  }

  /** Throughout a run of such hooks every order of removal can be made by calls of unhook. */
  lemma {:induction false} TidyRunResolves(run: seq<Sys>, calls: seq<Call>, n: nat)
    requires IsCallRun(run, calls) && n <= |calls| && forall i :: 0 <= i < n ==> TidyCall(run[i], calls[i])
    ensures AllValid(run[n]) && EntriesRest(run[n])
    ensures forall order | RemovesAll(run[n], order) :: Resolves(run[n], order)
    decreases n
  {
    hide AllValid, EntriesRest, Resolves, RemovesAll, ApartOrSame, HookSys, Unhooked, BranchOnce;
    if n > 0 {
      TidyRunResolves(run, calls, n - 1);
      TidyStep(run[n - 1], calls[n - 1], run[n]);
    } else {
      CleanRests(run[0]);
    }
    forall order | RemovesAll(run[n], order)
      ensures Resolves(run[n], order)
    {
      OrdersAreCalls(run[n], order);
    }
  }

  lemma CleanRests(sys: Sys)
    requires NoHooks(sys)
    ensures AllValid(sys) && EntriesRest(sys)
  {
  }

  lemma TidyStep(s: Sys, c: Call, t: Sys)
    requires AllValid(s) && EntriesRest(s) && Called(s, c, t) && TidyCall(s, c)
    ensures AllValid(t) && EntriesRest(t)
  {
    hide AllValid, EntriesRest, ApartOrSame, HookSys, Unhooked, BranchOnce;
    match c
    case Hooks(origin, replace) =>
      HookKeepsRest(s, origin, replace);
      SameRest(HookSys(s, origin, replace), t);
    case Unhooks(addr) =>
      UnhookKeepsRest(s, addr);
      SameRest(Unhooked(s, addr), t);
    case Fails =>
      SameRest(s, t);
  }
}
