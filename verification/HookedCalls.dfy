/** What a hook does to callers: the entry leads to the replacement, and the backup runs the original function. */
module HookedCalls {
  import opened Bits
  import opened A64
  import opened Relocator
  import opened Simulation
  import opened HookManager

  /** The address is in no relocation buffer. */
  predicate OffBuffers(mgr: HookManager, a: nat)
    reads mgr, mgr.region
  {
    a < mgr.reloStart || a >= mgr.reloStart + mgr.reloStride * mgr.region.Length
  }

  /** The relocated words of a live slot lie at the backup address, whatever was called since. */
  lemma BackupPlaced(mgr: HookManager, i: nat)
    requires mgr.Valid() && i < mgr.region.Length && mgr.region[i].inUse
    ensures mgr.BufferAt(i) + 4 * RELOCATE_INST_NUM <= TWO64 && SlotValid(mgr.region[i])
    ensures PlacedAt(mgr.Memory(), mgr.BufferAt(i), Relocated(SlotWindow(mgr.region[i], mgr.BufferAt(i))))
  {
    hide Relocated, WithBuffers;
    var code := Relocated(SlotWindow(mgr.region[i], mgr.BufferAt(i)));
    assert mgr.buffers[..][i] == mgr.buffers[i];
    forall k | 0 <= k < |code|
      ensures mgr.Memory()(mgr.BufferAt(i) + 4 * k) == code[k]
    {
      BufferWord(mgr.kernel.words, mgr.buffers[..], mgr.reloStart, mgr.reloStride, i, k);
    }
  }

  /** Words outside the buffers are those of kernel text. */
  lemma OutsideIsText(mgr: HookManager, a: U64)
    requires mgr.Valid() && OffBuffers(mgr, a)
    ensures mgr.Memory()(a) == mgr.kernel.words(a)
  {
    if a >= mgr.reloStart {
      var d, n := a - mgr.reloStart, mgr.region.Length;
      Divide(d, mgr.reloStride);
      if Quotient(d, mgr.reloStride) < n {
        TimesMono(Quotient(d, mgr.reloStride) + 1, n, mgr.reloStride);
        Distribute(Quotient(d, mgr.reloStride), 1, mgr.reloStride);
      }
    }
  }

  /** The buffers of different slots have no word in common. */
  lemma BuffersApart(mgr: HookManager, i: nat, j: nat)
    requires mgr.Valid() && i < j < mgr.region.Length
    ensures mgr.BufferAt(i) + 4 * RELOCATE_INST_NUM <= mgr.BufferAt(j)
  {
    TimesMono(i + 1, j, mgr.reloStride);
    Distribute(i, 1, mgr.reloStride);
    assert mgr.reloStride * i == i * mgr.reloStride && mgr.reloStride * j == j * mgr.reloStride;
  }

  // ---------- the backup ----------

  /** The text has the words that the live hook has saved from its window. */
  ghost predicate HasSaved(text: Text, s: Slot)
    requires SlotValid(s) && s.inUse
  {
    forall k: nat | k < |s.tramp| && s.addr + 4 * k < TWO64 :: text(s.addr + 4 * k) == s.saved[k]
  }

  lemma WindowMoved(mgr: HookManager, i: nat, orig: Text)
    requires mgr.Valid() && i < mgr.region.Length && mgr.region[i].inUse && HasSaved(orig, mgr.region[i])
    ensures mgr.BufferAt(i) + 4 * RELOCATE_INST_NUM <= TWO64
    ensures Moved(SlotWindow(mgr.region[i], mgr.BufferAt(i)), orig, mgr.Memory())
  {
    hide Relocated, WithBuffers;
    BackupPlaced(mgr, i);
    var s := mgr.region[i];
    var win := SlotWindow(s, mgr.BufferAt(i));
    forall j | 0 <= j < |win.insts[..win.n]|
      ensures orig(win.origin + 4 * j) == win.insts[..win.n][j]
    {
    }
  }

  /** Calling the backup of a live hook runs the function as it was before the hook: as long as the original run has
      stayed in the window, a run from the buffer reaches a state that agrees with it but for X17 and, at a return point
      of the window, X30; when it leaves the window, at the same address. */
  lemma BackupRuns<D(!new)>(mgr: HookManager, i: nat, f: Other<D>, orig: Text, s: Cpu<D>, m: nat) returns (n: nat)
    requires mgr.Valid() && i < mgr.region.Length && mgr.region[i].inUse && HasSaved(orig, mgr.region[i])
    requires mgr.BufferAt(i) + 4 * RELOCATE_INST_NUM <= TWO64
    requires var win := SlotWindow(mgr.region[i], mgr.BufferAt(i));
      && Relocatable(win, f, orig) && LinkSafe(win, f, orig)
      && forall j: nat :: j < m ==> InTramp(win, Run(MachineOf(f, orig), s, j).pc)
    requires s.pc == mgr.region[i].addr
    ensures n >= m
    ensures var win := SlotWindow(mgr.region[i], mgr.BufferAt(i));
      var u, v := Run(MachineOf(f, orig), s, m), Run(MachineOf(f, mgr.Memory()), s.(pc := mgr.BufferAt(i)), n);
      Related(win, u, v) && (!InTramp(win, u.pc) ==> v.pc == u.pc)
  {
    hide Relocated, Exec, Run, WithBuffers, Relocatable, LinkSafe;
    WindowMoved(mgr, i, orig);
    var win := SlotWindow(mgr.region[i], mgr.BufferAt(i));
    EntryRelated(win, s);
    n := RunMatched(win, f, orig, mgr.Memory(), s, s.(pc := mgr.BufferAt(i)), m);
  }

  lemma EntryRelated<D>(win: Window, s: Cpu<D>)
    requires win.Valid() && s.pc == win.origin
    ensures win.n > 0 ==> Related(win, s, s.(pc := win.relo))
  {
    if win.n > 0 {
      assert Pos(win.insts, 0) == 0;
    }
  }

  // ---------- the entry ----------

  /** The whole trampoline lies in memory, off the buffers. */
  lemma EntryPlaced(mgr: HookManager, origin: U64, tramp: seq<Word>)
    requires mgr.Valid() && origin + 4 * |tramp| <= TWO64
    requires forall k: nat | k < |tramp| :: OffBuffers(mgr, origin + 4 * k) && mgr.kernel.words(origin + 4 * k) == tramp[k]
    ensures PlacedAt(mgr.Memory(), origin, tramp)
  {
    hide WithBuffers;
    forall j | 0 <= j < |tramp|
      ensures mgr.Memory()(origin + 4 * j) == tramp[j]
    {
      OutsideIsText(mgr, origin + 4 * j);
    }
  }

  /** After a hook that succeeds, a call of the function runs the replacement, and a call of the backup runs the function
      as it was. */
  lemma HookWorks<D(!new)>(mgr: HookManager, was: Text, i: nat, origin: U64, replace: U64, f: Other<D>, s: Cpu<D>, m: nat)
    returns (e: nat, n: nat)
    requires mgr.Valid() && i < mgr.region.Length && origin + 4 * TRAMPOLINE_MAX_NUM <= TWO64
    requires mgr.region[i] == NewSlot(was, origin, replace)
    requires forall a: U64 :: mgr.kernel.words(a) == Overlay(was, origin, mgr.region[i].tramp)(a)
    requires forall k: nat | k < TrampLen(was(origin)) :: OffBuffers(mgr, origin + 4 * k)
    requires s.pc == origin && mgr.BufferAt(i) + 4 * RELOCATE_INST_NUM <= TWO64
    requires var win := HookWindow(was, origin, mgr.BufferAt(i));
      && Relocatable(win, f, was) && LinkSafe(win, f, was)
      && forall j: nat :: j < m ==> InTramp(win, Run(MachineOf(f, was), s, j).pc)
    ensures Run(MachineOf(f, mgr.Memory()), s, e) == s.(x := s.x[17 := replace], pc := replace)
    ensures n >= m
    ensures var win := HookWindow(was, origin, mgr.BufferAt(i));
      var u, v := Run(MachineOf(f, was), s, m), Run(MachineOf(f, mgr.Memory()), s.(pc := mgr.BufferAt(i)), n);
      Related(win, u, v) && (!InTramp(win, u.pc) ==> v.pc == u.pc)
  {
    hide Relocated, Exec, Run, WithBuffers, Relocatable, LinkSafe, Trampoline;
    e := EntryWorks(mgr, was, i, origin, replace, f, s);
    SavedWords(was, origin, replace);
    n := BackupRuns(mgr, i, f, was, s, m);
  }

  lemma SavedWords(was: Text, origin: U64, replace: U64)
    requires origin + 4 * TRAMPOLINE_MAX_NUM <= TWO64
    ensures var s := NewSlot(was, origin, replace);
      && s.inUse && SlotValid(s) && HasSaved(was, s) && s.saved == Saved(was, origin) && s.saved[0] == was(origin)
      && s.tramp == Trampoline(s.saved[0], replace) && |s.tramp| == TrampLen(was(origin))
  {
  }

  /** The same said of the call itself: the backup handed out is where the function now runs from. */
  method HookFunction<D(!new)>(mgr: HookManager, func: U64, replace: U64, ghost c: nat, ghost f: Other<D>, ghost s: Cpu<D>, ghost m: nat)
    returns (err: HookErr, backup: U64, ghost e: nat, ghost n: nat)
    requires mgr.Valid() && Settles(mgr.State(), func, c)
    requires var origin := Chase(mgr.State(), func, c);
      && origin + 4 * TRAMPOLINE_MAX_NUM <= TWO64 && Room(Saved(mgr.kernel.words, origin))
      && s.pc == origin && forall k: nat | k < TRAMPOLINE_MAX_NUM :: OffBuffers(mgr, origin + 4 * k)
    modifies mgr.region, mgr.buffers, mgr.kernel
    ensures mgr.Valid()
    ensures err == NoErr ==> backup + 4 * RELOCATE_INST_NUM <= TWO64
    ensures err == NoErr ==> Run(MachineOf(f, mgr.Memory()), s, e) == s.(x := s.x[17 := replace], pc := replace)
    ensures err == NoErr ==>
      var was, win := old(mgr.kernel.words), HookWindow(old(mgr.kernel.words), s.pc, backup);
      Relocatable(win, f, was) && LinkSafe(win, f, was)
      && (forall j: nat :: j < m ==> InTramp(win, Run(MachineOf(f, was), s, j).pc)) ==>
        n >= m && Related(win, Run(MachineOf(f, was), s, m), Run(MachineOf(f, mgr.Memory()), s.(pc := backup), n))
  {
    hide Relocated, Exec, Run, WithBuffers, Relocatable, LinkSafe, Trampoline, Room, Chase, Settles, Hookable, FirstFree, Related;
    ghost var was := mgr.kernel.words;
    ghost var i := FirstFree(mgr.region[..]);
    err, backup := mgr.Hook(func, replace, c);
    e, n := 0, 0;
    if err == NoErr {
      ghost var win := HookWindow(was, s.pc, backup);
      if Relocatable(win, f, was) && LinkSafe(win, f, was)
         && (forall j: nat :: j < m ==> InTramp(win, Run(MachineOf(f, was), s, j).pc)) {
        e, n := HookWorks(mgr, was, i, s.pc, replace, f, s, m);
      } else {
        e := EntryWorks(mgr, was, i, s.pc, replace, f, s);
      }
    }
  }

  /** The part about the entry. */
  lemma EntryWorks<D(!new)>(mgr: HookManager, was: Text, i: nat, origin: U64, replace: U64, f: Other<D>, s: Cpu<D>) returns (e: nat)
    requires mgr.Valid() && i < mgr.region.Length && origin + 4 * TRAMPOLINE_MAX_NUM <= TWO64
    requires mgr.region[i] == NewSlot(was, origin, replace)
    requires forall a: U64 :: mgr.kernel.words(a) == Overlay(was, origin, mgr.region[i].tramp)(a)
    requires forall k: nat | k < TrampLen(was(origin)) :: OffBuffers(mgr, origin + 4 * k)
    requires s.pc == origin
    ensures Run(MachineOf(f, mgr.Memory()), s, e) == s.(x := s.x[17 := replace], pc := replace)
  {
    hide Relocated, Exec, Run, WithBuffers, Trampoline;
    var slot := mgr.region[i];
    SavedWords(was, origin, replace);
    forall k: nat | k < |slot.tramp|
      ensures mgr.kernel.words(origin + 4 * k) == slot.tramp[k]
    {
      assert (origin + 4 * k - origin) / 4 == k;
    }
    EntryPlaced(mgr, origin, slot.tramp);
    e := TrampolineJumps(f, mgr.Memory(), s, slot.saved[0], replace);
  }
}
