/** Reading init.rc with two scripts appended: the built-in one and the modules' one. */
module RcSplice {
  import opened Bytes
  import opened Sequences

  /** What the kernel does during one call: how many bytes the file yields if it has any, and how much of the user's
      buffer can be written. A copy with `read` is all or nothing, one with `read_iter` goes as far as it can. */
  datatype Kernel = Kernel(fileYields: nat, writable: nat)

  datatype Call = Read(count: nat, k: Kernel) | ReadIter(count: nat, k: Kernel)

  function Min(a: nat, b: nat): nat { if a < b then a else b }

  /** The whole buffer can be written. */
  predicate NoFault(c: Call) { c.k.writable >= c.count }

  /** Nothing of a part with this much left can be copied: `read` copies what fits whole or not at all, `read_iter`
      whatever it can. */
  predicate NothingFits(c: Call, left: nat) {
    if c.ReadIter? then c.k.writable == 0 else c.k.writable < Min(left, c.count)
  }

  /** The calls that return nothing, by the place in the stream they start at: file of o bytes, script of s, n in all. */
  predicate ReturnsNothing(c: Call, at: nat, o: nat, s: nat, n: nat) {
    at == n || (o <= at < n && NothingFits(c, if at < o + s then o + s - at else n - at))
  }

  /** Without faults that is the end only. */
  lemma NothingAtEndOnly(c: Call, at: nat, o: nat, s: nat, n: nat)
    requires c.count > 0 && NoFault(c) && s <= n
    ensures ReturnsNothing(c, at, o, s, n) <==> at == n
  {
  }

  class RcFile {
    const orig: seq<Byte>
    const script: seq<Byte>
    ghost const module_: seq<Byte>
    var filePos: nat
    var scriptPos: nat
    var modulePos: nat
    var moduleBuf: seq<Byte>

    constructor (orig: seq<Byte>, script: seq<Byte>, modules: seq<Byte>)
      requires script != []
      ensures Valid() && Delivered() == 0
      ensures this.orig == orig && this.script == script && module_ == modules && moduleBuf == modules
    {
      this.orig, this.script, module_, moduleBuf := orig, script, modules, modules;
      filePos, scriptPos, modulePos := 0, 0, 0;
    }

    /** The modules' buffer is freed, and its length cleared, once it has all been delivered. */
    ghost predicate Valid()
      reads this
    {
      && script != []
      && filePos <= |orig| && scriptPos <= |script| && modulePos <= |module_|
      && (scriptPos > 0 ==> filePos == |orig|)
      && (modulePos > 0 ==> scriptPos == |script|)
      && moduleBuf == (if modulePos == |module_| then [] else module_)
    }

    ghost function Stream(): seq<Byte> { orig + script + module_ }

    ghost function Delivered(): nat
      reads this
    {
      filePos + scriptPos + modulePos
    }

    /** The size that the hooked fstat reports. */
    method Fstat(size: nat) returns (newSize: nat)
      ensures newSize == size + |script| + |moduleBuf|
    {
      newSize := size + (|script| + |moduleBuf|);
    }

    /** The file's own read: nothing only at its end. */
    method OrigRead(count: nat, most: nat) returns (bytes: seq<Byte>)
      requires count > 0 && filePos <= |orig|
      modifies this`filePos
      ensures filePos == old(filePos) + |bytes| <= |orig| && |bytes| <= count
      ensures bytes == orig[old(filePos)..filePos]
      ensures bytes == [] <==> old(filePos) == |orig|
    {
      var n := Min(Min(count, |orig| - filePos), if most == 0 then 1 else most);
      bytes := orig[filePos..filePos + n];
      filePos := filePos + n;
    }

    /** Append from the built-in script; the result says whether to go on. */
    method AppendScript(room: nat, writable: nat, partial: bool) returns (ok: bool, bytes: seq<Byte>)
      requires Valid() && filePos == |orig| && room > 0
      modifies this`scriptPos
      ensures Valid() && scriptPos == old(scriptPos) + |bytes| && |bytes| <= room && (bytes != [] ==> |bytes| <= writable)
      ensures bytes == script[old(scriptPos)..scriptPos]
      ensures ok ==> scriptPos == |script| || |bytes| == room || |bytes| == writable
      ensures !ok ==> bytes == [] && old(scriptPos) < |script|
      ensures old(scriptPos) < |script| ==>
        (bytes == [] <==> if partial then writable == 0 else writable < Min(|script| - old(scriptPos), room))
    {
      bytes := [];
      if scriptPos == |script| {
        return true, [];
      }
      var n := Min(|script| - scriptPos, room);
      if partial {
        n := Min(n, writable);
        if n == 0 {
          return false, [];
        }
      } else if writable < n {
        return false, [];
      }
      bytes := script[scriptPos..scriptPos + n];
      scriptPos := scriptPos + n;
      ok := true;
    }

    /** Append from the modules' script. */
    method AppendModules(room: nat, writable: nat, partial: bool) returns (bytes: seq<Byte>)
      requires Valid() && filePos == |orig| && (room > 0 && writable > 0 ==> scriptPos == |script|)
      modifies this`modulePos, this`moduleBuf
      ensures Valid() && modulePos == old(modulePos) + |bytes| && |bytes| <= room
      ensures bytes == module_[old(modulePos)..modulePos]
      ensures room > 0 && old(modulePos) == |module_| ==> bytes == []
      ensures room > 0 && old(modulePos) < |module_| ==>
        (bytes == [] <==> if partial then writable == 0 else writable < Min(|module_| - old(modulePos), room))
    {
      bytes := [];
      if modulePos >= |moduleBuf| || (!partial && room == 0) {
        return;
      }
      var n := Min(|moduleBuf| - modulePos, room);
      if partial {
        n := Min(n, writable);
        if n == 0 {
          return;
        }
      } else if writable < n {
        return;
      }
      bytes := moduleBuf[modulePos..modulePos + n];
      modulePos := modulePos + n;
      if modulePos == |moduleBuf| {
        moduleBuf := [];
      }
    }

    /** The appended parts cannot go on from here. */
    ghost predicate Stuck(s: nat, m: nat, count: nat, writable: nat, partial: bool)
      requires s <= |script| && m <= |module_|
    {
      if s < |script| then if partial then writable == 0 else writable < Min(|script| - s, count)
      else m == |module_| || if partial then writable == 0 else writable < Min(|module_| - m, count)
    }

    /** The part of both proxies after the file's own read: the built-in script, then the modules' one. */
    method Append(count: nat, writable: nat, partial: bool, fromModules: bool) returns (bytes: seq<Byte>)
      requires Valid() && count > 0 && filePos == |orig| && (fromModules ==> scriptPos == |script|)
      modifies this`scriptPos, this`modulePos, this`moduleBuf
      ensures Valid() && Delivered() == old(Delivered()) + |bytes| <= |Stream()| && |bytes| <= count
      ensures bytes == Stream()[old(Delivered())..Delivered()]
      ensures bytes == [] <==> Stuck(old(scriptPos), old(modulePos), count, writable, partial)
    {
      hide Stream;
      StreamLength();
      ghost var s, m := scriptPos, modulePos;
      bytes := [];
      if !fromModules {
        var ok;
        ok, bytes := AppendScript(count, writable, partial);
        if !ok {
          InScripts(s, scriptPos, m, m);
          return;
        }
      }
      var more := AppendModules(count - |bytes|, if |bytes| < writable then writable - |bytes| else 0, partial);
      InScripts(s, scriptPos, m, modulePos);
      bytes := bytes + more;
    }

    /** read_proxy and read_iter_proxy: what is returned is the next part of the stream. */
    method ReadProxy(call: Call) returns (bytes: seq<Byte>)
      requires Valid() && call.count > 0
      modifies this
      ensures Valid() && Delivered() == old(Delivered()) + |bytes| <= |Stream()| && |bytes| <= call.count
      ensures bytes == Stream()[old(Delivered())..Delivered()]
      ensures bytes == [] <==> ReturnsNothing(call, old(Delivered()), |orig|, |script|, |Stream()|)
    {
      hide Stream;
      StreamLength();
      ghost var f := filePos;
      var inScript := 0 < scriptPos < |script|;
      var inModules := scriptPos >= |script| && modulePos < |moduleBuf|;
      if !inScript && !inModules {
        bytes := OrigRead(call.count, call.k.fileYields);
        InFile(f, filePos);
        if bytes != [] {
          return;
        }
        if scriptPos >= |script| && modulePos >= |moduleBuf| {
          InScripts(scriptPos, scriptPos, modulePos, modulePos);
          return;
        }
      }
      bytes := Append(call.count, call.k.writable, call.ReadIter?, inModules);
    }

    lemma StreamLength()
      ensures |Stream()| == |orig| + |script| + |module_|
    {
    }

    lemma InFile(a: nat, b: nat)
      requires a <= b <= |orig|
      ensures Stream()[a..b] == orig[a..b]
    {
    }

    lemma InScripts(s: nat, t: nat, m: nat, n: nat)
      requires s <= t <= |script| && m <= n <= |module_| && (m > 0 ==> s == |script|) && (n > m ==> t == |script|)
      ensures Stream()[|orig| + s + m..|orig| + t + n] == script[s..t] + module_[m..n]
    {
      var a, b := |orig| + s + m, |orig| + t + n;
      assert forall k | a <= k < b :: Stream()[k] == if k < |orig| + |script| then script[k - |orig|] else module_[k - |orig| - |script|];
    }
  }

  /** Any schedule of reads: what they return, put together, is the beginning of the file followed by both scripts;
      without faults a read returns nothing only after all of it; and fstat before the first read tells its size. */
  method RunSchedule(orig: seq<Byte>, script: seq<Byte>, modules: seq<Byte>, calls: seq<Call>)
    returns (size: nat, out: seq<seq<Byte>>)
    requires script != [] && forall c :: c in calls ==> c.count > 0
    ensures |out| == |calls| && size == |orig + script + modules|
    ensures forall i :: 0 <= i < |calls| ==> |out[i]| <= calls[i].count
    ensures Flat(out) <= orig + script + modules
    ensures forall i :: 0 <= i < |calls| ==>
      (out[i] == [] <==> ReturnsNothing(calls[i], |Flat(out[..i])|, |orig|, |script|, size))
    ensures forall i :: 0 <= i < |calls| && NoFault(calls[i]) ==>
      (out[i] == [] <==> Flat(out[..i]) == orig + script + modules)
  {
    hide Flat, ReturnsNothing, NoFault;
    ghost var stream := orig + script + modules;
    var rc := new RcFile(orig, script, modules);
    size := rc.Fstat(|orig|);
    out := [];
    FlatNothing(out, stream);
    for i := 0 to |calls|
      invariant rc.Valid() && rc.Stream() == stream && |out| == i && fresh(rc)
      invariant rc.Delivered() <= |stream| && Flat(out) == stream[..rc.Delivered()]
      invariant forall j :: 0 <= j < i ==> |out[j]| <= calls[j].count
      invariant forall j :: 0 <= j < i ==>
        Flat(out[..j]) <= stream && (out[j] == [] <==> ReturnsNothing(calls[j], |Flat(out[..j])|, |orig|, |script|, size))
    {
      assert calls[i] in calls;
      ghost var before, was := rc.Delivered(), out;
      var bytes := rc.ReadProxy(calls[i]);
      FlatStep(out, bytes, stream, before, rc.Delivered());
      out := out + [bytes];
      Prefixes(was, bytes);
    }
    forall i | 0 <= i < |calls| && NoFault(calls[i])
      ensures out[i] == [] <==> Flat(out[..i]) == stream
    {
      assert calls[i] in calls;
      NothingAtEndOnly(calls[i], |Flat(out[..i])|, |orig|, |script|, size);
    }
  }

  /** A read whose copy faults returns nothing with all of the script still to come, which a reader takes for the end. */
  method FaultLooksLikeEnd() returns (size: nat, out: seq<seq<Byte>>)
    ensures size == 1 && out == [[], [0x41]]
  {
    var calls := [Read(1, Kernel(0, 0)), Read(1, Kernel(0, 1))];
    ghost var stream: seq<Byte> := [0x41];
    assert [] + [0x41] + [] == stream;
    size, out := RunSchedule([], [0x41], [], calls);
    assert out[..0] == [] && out[..1] == [out[0]];
    FlatLast(out);
    assert ReturnsNothing(calls[0], |Flat(out[..0])|, 0, 1, 1);
    assert out[0] == [];
    assert !ReturnsNothing(calls[1], |Flat(out[..1])|, 0, 1, 1);
    assert |out[1]| == 1 && Flat(out) == out[1];
    assert out[1] == stream;
    assert out == [[], [0x41]];
  }

  lemma FlatLast(out: seq<seq<Byte>>)
    ensures |out| == 2 ==> Flat(out) == out[0] + out[1] && Flat(out[..1]) == out[0] && Flat(out[..0]) == []
  {
    if |out| == 2 {
      assert out[..1][..0] == [];
      assert Flat(out[..1]) == out[0];
    }
  }

  lemma FlatNothing(out: seq<seq<Byte>>, stream: seq<Byte>)
    requires out == []
    ensures Flat(out) == stream[..0]
  {
  }

  lemma FlatStep(out: seq<seq<Byte>>, bytes: seq<Byte>, stream: seq<Byte>, a: nat, b: nat)
    requires a <= b <= |stream| && Flat(out) == stream[..a] && bytes == stream[a..b]
    ensures Flat(out + [bytes]) == stream[..b]
  {
    FlatAppend(out, bytes);
    assert stream[..a] + stream[a..b] == stream[..b];
  }

  lemma Prefixes(was: seq<seq<Byte>>, bytes: seq<Byte>)
    ensures (was + [bytes])[..|was|] == was
    ensures forall j :: 0 <= j < |was| ==> (was + [bytes])[..j] == was[..j]
  {
  }
}
