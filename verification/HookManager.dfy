/** Installing and removing inline hooks: the slot registry, the branch chaser, and what any run
    of hook and unhook does to kernel text. */
module HookManager {
  import opened Bits
  import opened A64
  import opened Relocator

  /** A slot of the hook memory region; the words are kept from the hook prepared in it. */
  datatype Slot = Slot(inUse: bool, addr: U64, saved: seq<Word>, tramp: seq<Word>)

  datatype Sys = Sys(text: Text, slots: seq<Slot>)

  const FREE: Slot := Slot(false, 0, [], [])

  // ---------- the registry ----------

  /** The first free slot, or the number of slots. */
  function FirstFree(slots: seq<Slot>): (i: nat)
    ensures i <= |slots| && (i < |slots| ==> !slots[i].inUse)
    ensures forall j: nat :: j < i ==> slots[j].inUse
  {
    if slots == [] || !slots[0].inUse then 0
    else
      var i := FirstFree(slots[1..]);
      assert forall j: nat :: 0 < j < 1 + i ==> slots[j] == slots[1..][j - 1];
      1 + i
  }

  predicate At(s: Slot, origin: U64) { s.inUse && s.addr == origin }

  /** The first slot in use for `origin`, or the number of slots. */
  function FirstAt(slots: seq<Slot>, origin: U64): (i: nat)
    ensures i <= |slots| && (i < |slots| ==> At(slots[i], origin))
    ensures forall j: nat :: j < i ==> !At(slots[j], origin)
  {
    if slots == [] || At(slots[0], origin) then 0
    else
      var i := FirstAt(slots[1..], origin);
      assert forall j: nat :: 0 < j < 1 + i ==> slots[j] == slots[1..][j - 1];
      1 + i
  }

  predicate Registered(slots: seq<Slot>, origin: U64) { FirstAt(slots, origin) < |slots| }

  // ---------- branch_func_addr ----------

  /** branch_func_addr_once: follow a branch or step over a landing pad. */
  function BranchOnce(sys: Sys, addr: U64): U64 {
    var inst := sys.text(addr);
    if And32(inst, 0xFC000000) == INST_B then Target(inst, INST_B, addr)
    else if inst == BTI_C || inst == BTI_J || (inst == BTI_JC && !Registered(sys.slots, addr)) then Wrap(addr + 4)
    else addr
  }

  function Chase(sys: Sys, addr: U64, n: nat): U64
    decreases n
  {
    if n == 0 then addr else Chase(sys, BranchOnce(sys, addr), n - 1)
  }

  /** The chain from `addr` ends after at most n steps; on a cycle the source loops forever. */
  predicate Settles(sys: Sys, addr: U64, n: nat) {
    BranchOnce(sys, Chase(sys, addr, n)) == Chase(sys, addr, n)
  }

  lemma {:induction false} ChaseFixed(sys: Sys, addr: U64, n: nat)
    requires BranchOnce(sys, addr) == addr
    ensures Chase(sys, addr, n) == addr
    decreases n
  {
    hide BranchOnce;
    if n > 0 {
      ChaseFixed(sys, addr, n - 1);
    }
  }

  // ---------- what hook and unhook do ----------

  /** The state after installing a hook at `origin` in the first free slot. */
  function HookSys(sys: Sys, origin: U64, replace: U64): Sys
    requires FirstFree(sys.slots) < |sys.slots| && origin + 4 * TRAMPOLINE_MAX_NUM <= TWO64
  {
    var s := NewSlot(sys.text, origin, replace);
    Sys(Overlay(sys.text, origin, s.tramp), sys.slots[FirstFree(sys.slots) := s])
  }

  /** The state after removing the hook in slot i. */
  function UnhookSys(sys: Sys, i: nat): Sys
    requires i < |sys.slots| && |sys.slots[i].tramp| <= |sys.slots[i].saved|
  {
    var s := sys.slots[i];
    Sys(Overlay(sys.text, s.addr, s.saved[..|s.tramp|]), sys.slots[i := s.(inUse := false)])
  }

  predicate SlotValid(s: Slot) {
    s.inUse ==> 4 <= |s.tramp| <= |s.saved| == TRAMPOLINE_MAX_NUM && s.addr + 4 * TRAMPOLINE_MAX_NUM <= TWO64
  }

  // ---------- relocation buffers ----------

  /** The window a hook at `origin` moves to a buffer at `relo`. */
  function HookWindow(text: Text, origin: U64, relo: U64): (win: Window)
    requires origin + 4 * TRAMPOLINE_MAX_NUM <= TWO64 && relo + 4 * RELOCATE_INST_NUM <= TWO64
    ensures win.Valid()
  {
    Window(origin, relo, Saved(text, origin), TrampLen(text(origin)))
  }

  /** The window of a live slot, whose buffer is at `relo`. */
  function SlotWindow(s: Slot, relo: U64): (win: Window)
    requires SlotValid(s) && s.inUse && relo + 4 * RELOCATE_INST_NUM <= TWO64
    ensures win.Valid()
  {
    Window(s.addr, relo, s.saved, |s.tramp|)
  }

  /** The buffer of a live slot holds the relocated words of its window, and NOPs behind them. */
  predicate Backed(s: Slot, buffer: seq<Word>, relo: nat) {
    s.inUse ==>
      && SlotValid(s) && relo + 4 * RELOCATE_INST_NUM <= TWO64 && |s.tramp| <= 5
      && var code := Relocated(SlotWindow(s, relo));
         |code| <= RELOCATE_INST_NUM && buffer == code + Nops(RELOCATE_INST_NUM - |code|)
  }

  function Nops(n: nat): seq<Word> { seq(n, i => NOP) }

  /** What hook_prepare answers, by its input: an address that is no kernel address, an instruction that cannot move. */
  predicate Hookable(text: Text, func: U64, origin: U64, replace: U64, relo: U64)
    requires origin + 4 * TRAMPOLINE_MAX_NUM <= TWO64 && relo + 4 * RELOCATE_INST_NUM <= TWO64
  {
    KernelAddresses(func, origin, replace, relo) && !AnyRefused(HookWindow(text, origin, relo))
  }

  predicate KernelAddresses(func: U64, origin: U64, replace: U64, relo: U64) {
    && func >= 0x8000_0000_0000_0000 && origin >= 0x8000_0000_0000_0000
    && replace >= 0x8000_0000_0000_0000 && relo >= 0x8000_0000_0000_0000
  }

  /** Memory as a processor sees it: the relocation buffers lie in the slots, everything else is kernel text. */
  function WithBuffers(text: Text, buffers: seq<seq<Word>>, start: nat, stride: nat): Text
    requires stride > 0
  {
    (a: U64) =>
      if a < start then text(a)
      else
        var i, d := Quotient(a - start, stride), Remainder(a - start, stride);
        if i < |buffers| && d / 4 < |buffers[i]| && d % 4 == 0 then buffers[i][d / 4] else text(a)
  }

  lemma BufferWord(text: Text, buffers: seq<seq<Word>>, start: nat, stride: nat, i: nat, k: nat)
    requires i < |buffers| && k < |buffers[i]| && 4 * |buffers[i]| <= stride && start + stride * i + 4 * k < TWO64
    ensures WithBuffers(text, buffers, start, stride)(start + stride * i + 4 * k) == buffers[i][k]
  {
    assert stride * i == i * stride;
    DivModUnique(stride * i + 4 * k, stride, i, 4 * k);
    var a: U64 := start + stride * i + 4 * k;
    assert a - start == stride * i + 4 * k;
    assert Quotient(a - start, stride) == i && Remainder(a - start, stride) == 4 * k;
    assert 4 * k / 4 == k && 4 * k % 4 == 0;
  }

  class HookManager {
    const region: array<Slot>
    /** The relocation buffer in each slot. */
    const buffers: array<seq<Word>>
    const kernel: KernelText
    /** Where the relocation buffer of slot i lies. */
    const reloStart: U64
    const reloStride: nat

    predicate Laid()
      reads this, region, buffers
    {
      && buffers.Length == region.Length && 4 * RELOCATE_INST_NUM <= reloStride
      && reloStart + reloStride * region.Length + 4 * RELOCATE_INST_NUM <= TWO64
      && forall i :: 0 <= i < buffers.Length ==> |buffers[i]| == RELOCATE_INST_NUM
    }

    function BufferAt(i: nat): nat { reloStart + reloStride * i }

    ghost predicate Valid()
      reads this, region, buffers, kernel
    {
      && Laid()
      && forall i :: 0 <= i < region.Length ==> SlotValid(region[i]) && Backed(region[i], buffers[i], BufferAt(i))
    }

    ghost function State(): Sys
      reads this, region, kernel
    {
      Sys(kernel.words, region[..])
    }

    ghost function Memory(): Text
      reads this, region, buffers, kernel
      requires Laid()
    {
      WithBuffers(kernel.words, buffers[..], reloStart, reloStride)
    }

    constructor (kernel: KernelText, slots: nat, reloStart: U64, reloStride: nat)
      requires reloStart + reloStride * slots + 4 * RELOCATE_INST_NUM <= TWO64 && 4 * RELOCATE_INST_NUM <= reloStride
      ensures Valid() && this.kernel == kernel && fresh(region) && fresh(buffers) && region.Length == slots
      ensures State() == Sys(kernel.words, seq(slots, i => FREE))
      ensures this.reloStart == reloStart && this.reloStride == reloStride
    {
      this.kernel, this.reloStart, this.reloStride := kernel, reloStart, reloStride;
      region := new Slot[slots](i => FREE);
      buffers := new seq<Word>[slots](i => seq(RELOCATE_INST_NUM, k => 0));
    }

    method HookMemZalloc(origin: U64) returns (i: nat)
      requires Laid()
      modifies region, buffers
      ensures i == FirstFree(old(region[..])) && Laid()
      ensures region[..] == if i < region.Length then old(region[..])[i := Slot(true, origin, seq(6, k => 0), seq(4, k => 0))]
                            else old(region[..])
      ensures buffers[..] == if i < region.Length then old(buffers[..])[i := seq(RELOCATE_INST_NUM, k => 0)] else old(buffers[..])
    {
      i := 0;
      while i < region.Length && region[i].inUse
        invariant i <= region.Length
        invariant forall j :: 0 <= j < i ==> region[j].inUse
      {
        i := i + 1;
      }
      if i < region.Length {
        region[i] := Slot(true, origin, seq(6, k => 0), seq(4, k => 0));
        buffers[i] := seq(RELOCATE_INST_NUM, k => 0);
      }
    }

    method HookGetMemFromOrigin(origin: U64) returns (i: nat)
      ensures i == FirstAt(region[..], origin)
    {
      i := 0;
      while i < region.Length && !At(region[i], origin)
        invariant i <= region.Length
        invariant forall j :: 0 <= j < i ==> !At(region[j], origin)
      {
        i := i + 1;
      }
    }

    method BranchFuncAddr(func: U64, ghost n: nat) returns (addr: U64)
      requires Settles(State(), func, n)
      ensures addr == Chase(State(), func, n)
    {
      hide BranchOnce;
      addr := func;
      ghost var left := n;
      while true
        invariant Chase(State(), addr, left) == Chase(State(), func, n)
        decreases left
      {
        var next := Once(addr);
        if next == addr {
          ChaseFixed(State(), addr, left);
          return;
        }
        if left == 0 {
          assert false;
        }
        addr, left := next, left - 1;
      }
    }

    method Once(addr: U64) returns (next: U64)
      ensures next == BranchOnce(State(), addr)
    {
      hide Target;
      var inst := kernel.words(addr);
      if And32(inst, 0xFC000000) == INST_B {
        next := Target(inst, INST_B, addr);
      } else {
        var slot := HookGetMemFromOrigin(addr);
        if inst == BTI_C || inst == BTI_J || (inst == BTI_JC && slot == region.Length) {
          next := Wrap(addr + 4);
        } else {
          next := addr;
        }
      }
    }

    /** hook(func, replace, backup); address 0 is the null pointer. `backup` is where the slot's buffer lies. */
    method Hook(func: U64, replace: U64, ghost n: nat) returns (err: HookErr, backup: U64)
      requires Valid() && Settles(State(), func, n)
      requires var origin := Chase(State(), func, n);
               origin + 4 * TRAMPOLINE_MAX_NUM <= TWO64 && Room(Saved(kernel.words, origin))
      modifies region, buffers, kernel
      ensures Valid()
      ensures func == 0 || replace == 0 ==> err == BadAddress
      ensures func != 0 && replace != 0 ==> (err == NoMem <==> FirstFree(old(region[..])) == region.Length)
      ensures func != 0 && replace != 0 && FirstFree(old(region[..])) < region.Length ==>
        var origin, i := Chase(old(State()), func, n), FirstFree(old(region[..]));
        && backup == BufferAt(i) && backup + 4 * RELOCATE_INST_NUM <= TWO64
        && (err == NoErr <==> Hookable(old(kernel.words), func, origin, replace, backup))
        && (err == BadAddress <==> !KernelAddresses(func, origin, replace, backup))
        && (err == NoErr ==> region[i] == NewSlot(old(kernel.words), origin, replace))
      ensures err == NoErr ==>
        var sys := HookSys(old(State()), Chase(old(State()), func, n), replace);
        region[..] == sys.slots && forall a: U64 :: kernel.words(a) == sys.text(a)
      ensures err != NoErr ==>
        && (forall a: U64 :: kernel.words(a) == old(kernel.words)(a))
        && (forall i :: 0 <= i < region.Length ==> region[i].inUse == old(region[i]).inUse)
        && (forall i :: 0 <= i < region.Length && region[i].inUse ==> region[i] == old(region[i]))
      ensures forall i :: 0 <= i < region.Length && old(region[i]).inUse ==> buffers[i] == old(buffers[i])
    {
      hide Room, Pos, Relocated, AnyRefused, BranchOnce, Chase, Settles, Hookable, HookWindow, Trampoline, Saved, Backed, FirstFree;
      backup := 0;
      if func == 0 || replace == 0 {
        return BadAddress, 0;
      }
      var origin := BranchFuncAddr(func, n);
      var i := HookMemZalloc(origin);
      if i == region.Length {
        return NoMem, 0;
      }
      var relo := ReloAddr(i);
      backup := relo;
      var saved, tramp, buffer;
      err, saved, tramp, buffer := PrepareInstall(func, origin, replace, relo);
      buffers[i] := buffer;
      if err == NoErr {
        region[i] := Slot(true, origin, saved, tramp);
      } else {
        region[i] := region[i].(inUse := false);
        FreeIsBacked(region[i], buffers[i], relo);
      }
    }

    static lemma FreeIsBacked(s: Slot, buffer: seq<Word>, relo: nat)
      requires !s.inUse
      ensures Backed(s, buffer, relo)
    {
    }

    /** hook_prepare and, if it succeeds, hook_install. */
    method PrepareInstall(func: U64, origin: U64, replace: U64, relo: U64)
      returns (err: HookErr, saved: seq<Word>, tramp: seq<Word>, buffer: seq<Word>)
      requires origin + 4 * TRAMPOLINE_MAX_NUM <= TWO64 && relo + 4 * RELOCATE_INST_NUM <= TWO64
      requires Room(Saved(kernel.words, origin))
      modifies kernel
      ensures err != NoMem && |buffer| == RELOCATE_INST_NUM
      ensures err == NoErr <==> Hookable(old(kernel.words), func, origin, replace, relo)
      ensures err == BadAddress <==> !KernelAddresses(func, origin, replace, relo)
      ensures err == NoErr ==>
        && saved == Saved(old(kernel.words), origin) && tramp == Trampoline(saved[0], replace)
        && forall a: U64 :: kernel.words(a) == Overlay(old(kernel.words), origin, tramp)(a)
      ensures err == NoErr ==> Backed(Slot(true, origin, saved, tramp), buffer, relo)
      ensures err != NoErr ==> kernel.words == old(kernel.words)
    {
      hide Room, Pos, Relocated, AnyRefused, Trampoline;
      var hook := new Relocator.Hook(func, origin, replace, relo);
      err := hook.HookPrepare(kernel.words);
      saved, tramp := hook.originInsts[..], hook.trampInsts[..hook.trampNum];
      buffer := hook.reloInsts[..];
      if err == NoErr {
        hook.HookInstall(kernel);
      }
    }

    method ReloAddr(i: nat) returns (a: U64)
      requires Laid() && i < region.Length
      ensures a == BufferAt(i) && a + 4 * RELOCATE_INST_NUM <= TWO64
    {
      Scale(reloStride, i, region.Length);
      a := reloStart + reloStride * i;
    }

    static lemma Scale(k: nat, i: nat, n: nat)
      requires i <= n
      ensures k * i <= k * n
    {
    }

    method Unhook(func: U64, ghost n: nat) returns (ghost i: nat)
      requires Valid() && Settles(State(), func, n)
      modifies region, kernel
      ensures Valid() && i == FirstAt(old(region[..]), Chase(old(State()), func, n))
      ensures i < region.Length ==>
        var sys := UnhookSys(old(State()), i);
        region[..] == sys.slots && forall a: U64 :: kernel.words(a) == sys.text(a)
      ensures i == region.Length ==> region[..] == old(region[..]) && kernel.words == old(kernel.words)
    {
      hide BranchOnce, Chase, Settles, Backed;
      var origin := BranchFuncAddr(func, n);
      var slot := HookGetMemFromOrigin(origin);
      i := slot;
      if slot == region.Length {
        return;
      }
      var s := region[slot];
      for k := 0 to |s.tramp|
        invariant forall a: U64 :: kernel.words(a) == Overlay(old(kernel.words), s.addr, s.saved[..k])(a)
        modifies kernel
      {
        kernel.Store(s.addr + 4 * k, s.saved[k]);
      }
      region[slot] := s.(inUse := false);
      FreeIsBacked(region[slot], buffers[slot], BufferAt(slot));
    }
  }

  // ---------- any run of hook and unhook ----------

  predicate Covers(s: Slot, a: U64) {
    s.inUse && s.addr <= a < s.addr + 4 * |s.tramp|
  }

  predicate Disjoint(s: Slot, t: Slot) {
    s.addr + 4 * |s.tramp| <= t.addr || t.addr + 4 * |t.tramp| <= s.addr
  }

  /** The slot holds the original entry words and a trampoline made for them. */
  ghost predicate SlotSound(orig: Text, s: Slot) {
    && |s.saved| == TRAMPOLINE_MAX_NUM && s.addr + 4 * TRAMPOLINE_MAX_NUM <= TWO64
    && |s.tramp| == TrampLen(s.saved[0])
    && (s.tramp[0] == BTI_JC || s.tramp[0] == 0x58000051)
    && forall k: nat :: k < |s.tramp| ==> s.saved[k] == orig(s.addr + 4 * k)
  }

  /** Kernel text is the original overlaid with the live trampolines, whose windows are disjoint. */
  ghost predicate Inv(orig: Text, sys: Sys) {
    && (forall i :: 0 <= i < |sys.slots| && sys.slots[i].inUse ==> SlotSound(orig, sys.slots[i]))
    && (forall i, j :: 0 <= i < j < |sys.slots| && sys.slots[i].inUse && sys.slots[j].inUse ==>
          Disjoint(sys.slots[i], sys.slots[j]))
    && (forall i, a: U64 :: 0 <= i < |sys.slots| && Covers(sys.slots[i], a) ==>
          sys.text(a) == Overlay(orig, sys.slots[i].addr, sys.slots[i].tramp)(a))
    && (forall a: U64 :: (forall i :: 0 <= i < |sys.slots| ==> !Covers(sys.slots[i], a)) ==> sys.text(a) == orig(a))
  }

  /** The words to be overwritten at `origin` are clear of every live window. */
  ghost predicate Clear(sys: Sys, origin: U64) {
    forall i, a: U64 :: 0 <= i < |sys.slots| && origin <= a < origin + 4 * TrampLen(sys.text(origin)) ==>
      !Covers(sys.slots[i], a)
  }

  lemma HookSlotSound(orig: Text, sys: Sys, origin: U64, replace: U64)
    requires Inv(orig, sys) && FirstFree(sys.slots) < |sys.slots|
    requires origin + 4 * TRAMPOLINE_MAX_NUM <= TWO64 && Clear(sys, origin)
    ensures var f, sys' := FirstFree(sys.slots), HookSys(sys, origin, replace);
            SlotSound(orig, sys'.slots[f])
            && forall j :: 0 <= j < |sys.slots| && sys.slots[j].inUse ==> Disjoint(sys'.slots[f], sys.slots[j])
  {
    hide Trampoline, SlotSound, FirstFree, Overlay, Clear, Covers, Disjoint;
    var s := NewSlot(sys.text, origin, replace);
    SavedIsOriginal(orig, sys, origin);
    NewSlotSound(orig, sys.text, origin, replace);
    forall j | 0 <= j < |sys.slots| && sys.slots[j].inUse
      ensures Disjoint(s, sys.slots[j])
    {
      ClearIsDisjoint(orig, sys, origin, s, j);
    }
  }

  function NewSlot(text: Text, origin: U64, replace: U64): (s: Slot)
    requires origin + 4 * TRAMPOLINE_MAX_NUM <= TWO64
    ensures s.addr == origin && |s.tramp| == TrampLen(text(origin))
  {
    var saved := Saved(text, origin);
    Slot(true, origin, saved, Trampoline(saved[0], replace))
  }

  lemma NewSlotSound(orig: Text, text: Text, origin: U64, replace: U64)
    requires origin + 4 * TRAMPOLINE_MAX_NUM <= TWO64
    requires forall k: nat | k < TrampLen(text(origin)) :: text(origin + 4 * k) == orig(origin + 4 * k)
    ensures SlotSound(orig, NewSlot(text, origin, replace))
  {
    var s := NewSlot(text, origin, replace);
    forall k: nat | k < |s.tramp| ensures s.saved[k] == orig(s.addr + 4 * k) {
      assert s.saved[k] == text(origin + 4 * k);
    }
  }

  lemma SavedIsOriginal(orig: Text, sys: Sys, origin: U64)
    requires Inv(orig, sys) && origin + 4 * TRAMPOLINE_MAX_NUM <= TWO64 && Clear(sys, origin)
    ensures forall k: nat | k < TrampLen(sys.text(origin)) :: sys.text(origin + 4 * k) == orig(origin + 4 * k)
  {
    hide SlotSound, Disjoint;
    forall k: nat | k < TrampLen(sys.text(origin))
      ensures sys.text(origin + 4 * k) == orig(origin + 4 * k)
    {
      forall i | 0 <= i < |sys.slots|
        ensures !Covers(sys.slots[i], origin + 4 * k)
      {
      }
    }
  }

  lemma ClearIsDisjoint(orig: Text, sys: Sys, origin: U64, s: Slot, j: nat)
    requires origin + 4 * TRAMPOLINE_MAX_NUM <= TWO64 && Clear(sys, origin)
    requires j < |sys.slots| && sys.slots[j].inUse && SlotSound(orig, sys.slots[j])
    requires s.addr == origin && |s.tramp| == TrampLen(sys.text(origin))
    ensures Disjoint(s, sys.slots[j])
  {
    var t := sys.slots[j];
    assert !Covers(t, origin);
    assert origin <= t.addr < origin + 4 * |s.tramp| ==> !Covers(t, t.addr);
  }

  lemma HookKeepsInv(orig: Text, sys: Sys, origin: U64, replace: U64)
    requires Inv(orig, sys) && FirstFree(sys.slots) < |sys.slots|
    requires origin + 4 * TRAMPOLINE_MAX_NUM <= TWO64 && Clear(sys, origin)
    ensures Inv(orig, HookSys(sys, origin, replace))
  {
    hide Trampoline, SlotSound, FirstFree, Saved;
    var f, sys' := FirstFree(sys.slots), HookSys(sys, origin, replace);
    var s := sys'.slots[f];
    HookSlotSound(orig, sys, origin, replace);
    forall i, a: U64 | 0 <= i < |sys'.slots| && Covers(sys'.slots[i], a)
      ensures sys'.text(a) == Overlay(orig, sys'.slots[i].addr, sys'.slots[i].tramp)(a)
    {
      if i == f {
        forall j | 0 <= j < |sys.slots|
          ensures !Covers(sys.slots[j], a)
        {
        }
      } else {
        assert Covers(sys.slots[i], a) && Disjoint(s, sys.slots[i]);
        assert !Covers(s, a);
      }
    }
    forall a: U64 | forall i :: 0 <= i < |sys'.slots| ==> !Covers(sys'.slots[i], a)
      ensures sys'.text(a) == orig(a)
    {
      assert !Covers(s, a);
      forall i | 0 <= i < |sys.slots|
        ensures !Covers(sys.slots[i], a)
      {
        assert i != f ==> sys'.slots[i] == sys.slots[i];
      }
    }
  }

  /** The invariant survives a hook exactly when the words it overwrites are clear of the live windows. */
  lemma HookKeepsInvExactly(orig: Text, sys: Sys, origin: U64, replace: U64)
    requires Inv(orig, sys) && FirstFree(sys.slots) < |sys.slots|
    requires origin + 4 * TRAMPOLINE_MAX_NUM <= TWO64
    ensures Inv(orig, HookSys(sys, origin, replace)) <==> Clear(sys, origin)
  {
    hide Inv, HookSys;
    if Clear(sys, origin) {
      HookKeepsInv(orig, sys, origin, replace);
    } else {
      var i, a: U64 :| 0 <= i < |sys.slots| && origin <= a < origin + 4 * TrampLen(sys.text(origin))
        && Covers(sys.slots[i], a);
      Overlapping(orig, sys, origin, replace, i, a);
    }
  }

  lemma Overlapping(orig: Text, sys: Sys, origin: U64, replace: U64, i: nat, a: U64)
    requires FirstFree(sys.slots) < |sys.slots| && origin + 4 * TRAMPOLINE_MAX_NUM <= TWO64 && i < |sys.slots|
    requires origin <= a < origin + 4 * TrampLen(sys.text(origin)) && Covers(sys.slots[i], a)
    ensures !Inv(orig, HookSys(sys, origin, replace))
  {
    hide SlotSound, FirstFree, TrampLen, Overlay;
    var f, sys' := FirstFree(sys.slots), HookSys(sys, origin, replace);
    assert Saved(sys.text, origin)[0] == sys.text(origin);
    assert i != f && sys'.slots[i] == sys.slots[i] && !Disjoint(sys'.slots[f], sys'.slots[i]);
    assert !Disjoint(sys'.slots[i], sys'.slots[f]);
  }

  lemma Restored(orig: Text, text: Text, s: Slot, a: U64)
    requires SlotSound(orig, s) && Covers(s, a) && text(a) == Overlay(orig, s.addr, s.tramp)(a)
    ensures Overlay(text, s.addr, s.saved[..|s.tramp|])(a) == orig(a)
  {
    hide TrampLen;
    var k := (a - s.addr) / 4;
    if (a - s.addr) % 4 == 0 {
      assert a == s.addr + 4 * k;
      assert s.saved[k] == orig(s.addr + 4 * k);
    }
  }

  lemma UnhookKeepsInv(orig: Text, sys: Sys, i: nat)
    requires Inv(orig, sys) && i < |sys.slots| && sys.slots[i].inUse
    ensures Inv(orig, UnhookSys(sys, i))
  {
    var s, sys' := sys.slots[i], UnhookSys(sys, i);
    forall j, a: U64 | 0 <= j < |sys'.slots| && Covers(sys'.slots[j], a)
      ensures sys'.text(a) == Overlay(orig, sys'.slots[j].addr, sys'.slots[j].tramp)(a)
    {
      hide SlotSound;
      var t := sys.slots[j];
      assert j != i && t == sys'.slots[j] && Disjoint(s, t);
      assert !Covers(s, a);
    }
    forall a: U64 | forall j :: 0 <= j < |sys'.slots| ==> !Covers(sys'.slots[j], a)
      ensures sys'.text(a) == orig(a)
    {
      if Covers(s, a) {
        Restored(orig, sys.text, s, a);
      } else {
        forall j | 0 <= j < |sys.slots|
          ensures !Covers(sys.slots[j], a)
        {
          assert j != i ==> sys'.slots[j] == sys.slots[j];
        }
      }
    }
  }

  /** One call of hook or unhook, or one that fails. */
  ghost predicate SysStep(s: Sys, t: Sys) {
    || (exists origin: U64, replace: U64 ::
          && origin + 4 * TRAMPOLINE_MAX_NUM <= TWO64 && FirstFree(s.slots) < |s.slots| && Clear(s, origin)
          && SameSys(HookSys(s, origin, replace), t))
    || (exists i: nat :: i < |s.slots| && s.slots[i].inUse && SlotValid(s.slots[i]) && SameSys(UnhookSys(s, i), t))
    || (|t.slots| == |s.slots| && (forall a: U64 :: t.text(a) == s.text(a))
        && forall i :: 0 <= i < |s.slots| ==>
             t.slots[i].inUse == s.slots[i].inUse && (s.slots[i].inUse ==> t.slots[i] == s.slots[i]))
  }

  ghost predicate SameSys(s: Sys, t: Sys) {
    s.slots == t.slots && forall a: U64 :: s.text(a) == t.text(a)
  }

  lemma SameInv(orig: Text, s: Sys, t: Sys)
    requires Inv(orig, s) && |t.slots| == |s.slots| && (forall a: U64 :: t.text(a) == s.text(a))
    requires forall i :: 0 <= i < |s.slots| ==>
               t.slots[i].inUse == s.slots[i].inUse && (s.slots[i].inUse ==> t.slots[i] == s.slots[i])
    ensures Inv(orig, t)
  {
    forall a: U64 | forall i :: 0 <= i < |t.slots| ==> !Covers(t.slots[i], a)
      ensures t.text(a) == orig(a)
    {
      forall i | 0 <= i < |s.slots|
        ensures !Covers(s.slots[i], a)
      {
        assert !Covers(t.slots[i], a);
      }
    }
  }

  lemma StepKeepsInv(orig: Text, s: Sys, t: Sys)
    requires Inv(orig, s) && SysStep(s, t)
    ensures Inv(orig, t)
  {
    hide Inv, Clear, HookSys, UnhookSys;
    if origin: U64, replace: U64 :|
      && origin + 4 * TRAMPOLINE_MAX_NUM <= TWO64 && FirstFree(s.slots) < |s.slots| && Clear(s, origin)
      && SameSys(HookSys(s, origin, replace), t)
    {
      HookKeepsInv(orig, s, origin, replace);
      SameInv(orig, HookSys(s, origin, replace), t);
    } else if i: nat :| i < |s.slots| && s.slots[i].inUse && SlotValid(s.slots[i]) && SameSys(UnhookSys(s, i), t) {
      UnhookKeepsInv(orig, s, i);
      SameInv(orig, UnhookSys(s, i), t);
    } else {
      SameInv(orig, s, t);
    }
  }

  ghost predicate IsRun(run: seq<Sys>) {
    |run| > 0 && forall i :: 0 <= i < |run| - 1 ==> SysStep(run[i], run[i + 1])
  }

  ghost predicate NoHooks(sys: Sys) {
    forall i :: 0 <= i < |sys.slots| ==> !sys.slots[i].inUse
  }

  /** After any run from a clean kernel, text is the original overlaid with the live trampolines;
      with no hook left it is the original. */
  lemma {:induction false} RunKeepsText(run: seq<Sys>)
    requires IsRun(run) && NoHooks(run[0])
    ensures Inv(run[0].text, run[|run| - 1])
    ensures NoHooks(run[|run| - 1]) ==> forall a: U64 :: run[|run| - 1].text(a) == run[0].text(a)
    decreases |run|
  {
    hide SysStep;
    if |run| > 1 {
      var shorter := run[..|run| - 1];
      forall i | 0 <= i < |shorter| - 1
        ensures SysStep(shorter[i], shorter[i + 1])
      {
        assert SysStep(run[i], run[i + 1]);
      }
      RunKeepsText(shorter);
      assert SysStep(run[|run| - 2], run[|run| - 1]);
      StepKeepsInv(run[0].text, run[|run| - 2], run[|run| - 1]);
    }
  }

  // ---------- the branch chaser under hooks ----------

  /** No live window touches the chain from `addr`, except one that starts at its end. */
  ghost predicate ChainUntouched(orig: Text, sys: Sys, addr: U64, n: nat) {
    var origin := Chase(Sys(orig, []), addr, n);
    forall i, m: nat :: 0 <= i < |sys.slots| && m <= n && Covers(sys.slots[i], Chase(Sys(orig, []), addr, m)) ==>
      sys.slots[i].addr == origin && Chase(Sys(orig, []), addr, m) == origin
  }

  /** branch_func_addr keeps resolving a function to the entry it had in the original text, whether
      or not that entry is hooked. */
  lemma {:induction false} ChaseUnchanged(orig: Text, sys: Sys, addr: U64, n: nat)
    requires Inv(orig, sys) && Settles(Sys(orig, []), addr, n) && ChainUntouched(orig, sys, addr, n)
    ensures Settles(sys, addr, n) && Chase(sys, addr, n) == Chase(Sys(orig, []), addr, n)
    decreases n
  {
    hide BranchOnce, Inv, Covers;
    var base := Sys(orig, []);
    var origin := Chase(base, addr, n);
    assert Chase(base, addr, 0) == addr;
    if BranchOnce(base, addr) == addr {
      ChaseFixed(base, addr, n);
      EntryStays(orig, sys, addr);
      ChaseFixed(sys, addr, n);
    } else if n > 0 {
      var next := BranchOnce(base, addr);
      if addr == origin {
        // the chain has come to rest at `addr`
        assert false;
      }
      LinkStays(orig, sys, addr);
      forall m: nat | m <= n - 1
        ensures Chase(base, next, m) == Chase(base, addr, m + 1)
      {
      }
      ChaseUnchanged(orig, sys, next, n - 1);
    }
  }

  /** An address off every live window is treated as before. */
  lemma LinkStays(orig: Text, sys: Sys, addr: U64)
    requires Inv(orig, sys) && forall i :: 0 <= i < |sys.slots| ==> !Covers(sys.slots[i], addr)
    ensures BranchOnce(sys, addr) == BranchOnce(Sys(orig, []), addr)
  {
    hide Target;
    var i := FirstAt(sys.slots, addr);
    if i < |sys.slots| {
      assert false;
    }
  }

  /** An entry at rest stays at rest: unhooked it is as before, hooked it starts with a trampoline. */
  lemma EntryStays(orig: Text, sys: Sys, addr: U64)
    requires Inv(orig, sys) && BranchOnce(Sys(orig, []), addr) == addr
    requires forall i :: 0 <= i < |sys.slots| && Covers(sys.slots[i], addr) ==> sys.slots[i].addr == addr
    ensures BranchOnce(sys, addr) == addr
  {
    if i :| 0 <= i < |sys.slots| && Covers(sys.slots[i], addr) {
      var s := sys.slots[i];
      assert sys.text(addr) == s.tramp[0];
      var j := FirstAt(sys.slots, addr);
      assert At(s, addr);
      TrampolineIsNoBranch(s.tramp[0]);
    } else {
      LinkStays(orig, sys, addr);
    }
  }

  lemma TrampolineIsNoBranch(w: Word)
    requires w == BTI_JC || w == 0x58000051
    ensures And32(w, 0xFC000000) != INST_B
  {
    hide And;
    MaskFields(w);
  }

  /** Without distinct entries the registry loses the original words: hooking one entry twice and
      removing both hooks, oldest slot first, leaves the first trampoline in the text. */
  lemma DoubleHookLeavesTrampoline(orig: Text, origin: U64, first: U64, second: U64)
    requires origin + 4 * TRAMPOLINE_MAX_NUM <= TWO64 && !SignsReturn(orig(origin))
    ensures var s0 := Sys(orig, [FREE, FREE]);
            var s1 := HookSys(s0, origin, first);
            var s2 := HookSys(s1, origin, second);
            && FirstAt(s2.slots, origin) == 0
            && var s3 := UnhookSys(s2, 0);
            && FirstAt(s3.slots, origin) == 1 && SlotValid(s3.slots[1])
            && var s4 := UnhookSys(s3, 1);
            && NoHooks(s4) && s4.text(origin) == 0x58000051
  {
    hide FirstFree, FirstAt, Trampoline, Overlay;
    var s0 := Sys(orig, [FREE, FREE]);
    FirstTwo(FREE, FREE);
    var a, s1 := NewSlot(orig, origin, first), HookSys(s0, origin, first);
    assert s1.slots == [a, FREE];
    FirstTwo(a, FREE);
    EntryShows(s0, origin, first);
    var b, s2 := NewSlot(s1.text, origin, second), HookSys(s1, origin, second);
    assert s2.slots == [a, b];
    FirstTwo(a, b);
    var s3 := UnhookSys(s2, 0);
    assert s3.slots == [a.(inUse := false), b];
    FirstTwo(a.(inUse := false), b);
    EntryRestored(s3, 1);
  }

  /** The registry on two slots. */
  lemma FirstTwo(s: Slot, t: Slot)
    ensures FirstFree([s, t]) == if !s.inUse then 0 else if !t.inUse then 1 else 2
    ensures forall a: U64 :: FirstAt([s, t], a) == if At(s, a) then 0 else if At(t, a) then 1 else 2
  {
    assert [s, t][1..] == [t] && [t][1..] == [];
  }

  /** A hooked entry begins with the trampoline. */
  lemma EntryShows(sys: Sys, origin: U64, replace: U64)
    requires FirstFree(sys.slots) < |sys.slots| && origin + 4 * TRAMPOLINE_MAX_NUM <= TWO64
    requires !SignsReturn(sys.text(origin))
    ensures HookSys(sys, origin, replace).text(origin) == 0x58000051
  {
  }

  /** An unhooked entry begins with its saved word. */
  lemma EntryRestored(sys: Sys, i: nat)
    requires i < |sys.slots| && sys.slots[i].inUse && SlotValid(sys.slots[i])
    ensures UnhookSys(sys, i).text(sys.slots[i].addr) == sys.slots[i].saved[0]
  {
  }
}
