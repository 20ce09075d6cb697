/** The serialized batch of policy commands: its format, and the loop that decodes, applies and publishes it. */
module PolicyBatch {
  import opened Options
  import opened Bytes

  const MAX_BATCH_SIZE: nat := 8 * 1024 * 1024
  const MAX_ARGS: nat := 5

  const EINVAL: int := 22
  const E2BIG: int := 7
  const EFAULT: int := 14
  const ENOMEM: int := 12

  // ---------- the format ----------

  /** A missing argument stands for all; a present one is a non-empty string without zero bytes. */
  type Arg = Option<seq<Byte>>

  datatype Command = Command(cmd: nat, subcmd: nat, args: seq<Arg>)

  const U32: nat := 0x1_0000_0000

  function Le32(n: nat): (r: seq<Byte>)
    requires n < U32
    ensures |r| == 4 && Value32(r) == n
  {
    Powers256();
    FromLeLe(n, 4);
    Le(n, 4)
  }

  function Value32(b: seq<Byte>): (n: nat)
    requires |b| == 4
    ensures n < U32
  {
    Powers256();
    FromLe(b)
  }

  lemma Le32Value(b: seq<Byte>)
    requires |b| == 4
    ensures Le32(Value32(b)) == b
  {
    LeFromLe(b);
  }

  function ExpectedArgc(cmd: nat): int {
    match cmd
    case 1 => 4
    case 2 => 5
    case 3 => 1
    case 4 => 2
    case 5 => 2
    case 6 => 1
    case 7 => 5
    case 8 => 4
    case 9 => 3
    case _ => -EINVAL
  }

  predicate ValidArg(a: Arg) {
    a.Some? ==> 0 < |a.value| < U32 && 0 !in a.value
  }

  function EncodeArg(a: Arg): seq<Byte>
    requires ValidArg(a)
  {
    if a.None? then Le32(0) + [0] else Le32(|a.value|) + a.value + [0]
  }

  predicate ValidArgs(args: seq<Arg>) { forall a :: a in args ==> ValidArg(a) }

  function EncodeArgs(args: seq<Arg>): seq<Byte>
    requires ValidArgs(args)
  {
    if args == [] then [] else EncodeArg(args[0]) + EncodeArgs(args[1..])
  }

  predicate ValidCommand(c: Command) {
    c.cmd < U32 && c.subcmd < U32 && |c.args| == ExpectedArgc(c.cmd) && ValidArgs(c.args)
  }

  function Header(c: Command): seq<Byte>
    requires c.cmd < U32 && c.subcmd < U32
  {
    Le32(c.cmd) + Le32(c.subcmd)
  }

  function EncodeCommand(c: Command): (r: seq<Byte>)
    requires ValidCommand(c)
    ensures |r| >= 8
  {
    Header(c) + EncodeArgs(c.args)
  }

  predicate ValidBatch(cs: seq<Command>) { forall c :: c in cs ==> ValidCommand(c) }

  function Encode(cs: seq<Command>): seq<Byte>
    requires ValidBatch(cs)
  {
    if cs == [] then [] else EncodeCommand(cs[0]) + Encode(cs[1..])
  }

  // ---------- the format can be read in one way only ----------

  function Text(a: Arg): seq<Byte> { if a.None? then [] else a.value }

  lemma ArgBytes(a: Arg, x: seq<Byte>)
    requires ValidArg(a)
    ensures EncodeArg(a) + x == Le32(|Text(a)|) + (Text(a) + ([0] + x))
  {
    hide Le32, Value32;
  }

  lemma ArgUnique(a: Arg, b: Arg, x: seq<Byte>, y: seq<Byte>)
    requires ValidArg(a) && ValidArg(b) && EncodeArg(a) + x == EncodeArg(b) + y
    ensures a == b && x == y
  {
    hide Le32, Value32, EncodeArg;
    var s, t := Text(a), Text(b);
    ArgBytes(a, x);
    ArgBytes(b, y);
    Cancel(Le32(|s|), Le32(|t|), s + ([0] + x), t + ([0] + y));
    Cancel(s, t, [0] + x, [0] + y);
    Cancel([0], [0], x, y);
  }

  lemma {:induction false} ArgsUnique(a: seq<Arg>, b: seq<Arg>, x: seq<Byte>, y: seq<Byte>)
    requires ValidArgs(a) && ValidArgs(b) && |a| == |b| && EncodeArgs(a) + x == EncodeArgs(b) + y
    ensures a == b && x == y
    decreases |a|
  {
    hide EncodeArg;
    if a == [] {
      Cancel([], [], x, y);
    } else {
      FirstOfArgs(a, x);
      FirstOfArgs(b, y);
      ArgUnique(a[0], b[0], EncodeArgs(a[1..]) + x, EncodeArgs(b[1..]) + y);
      ArgsUnique(a[1..], b[1..], x, y);
    }
  }

  lemma CommandBytes(c: Command, x: seq<Byte>)
    requires ValidCommand(c)
    ensures EncodeCommand(c) + x == Le32(c.cmd) + (Le32(c.subcmd) + (EncodeArgs(c.args) + x))
  {
    hide Le32, Value32, EncodeArgs, ExpectedArgc;
  }

  lemma CommandUnique(c: Command, d: Command, x: seq<Byte>, y: seq<Byte>)
    requires ValidCommand(c) && ValidCommand(d) && EncodeCommand(c) + x == EncodeCommand(d) + y
    ensures c == d && x == y
  {
    hide Le32, Value32, EncodeArgs, ExpectedArgc, EncodeCommand;
    CommandBytes(c, x);
    CommandBytes(d, y);
    Cancel(Le32(c.cmd), Le32(d.cmd), Le32(c.subcmd) + (EncodeArgs(c.args) + x), Le32(d.subcmd) + (EncodeArgs(d.args) + y));
    Cancel(Le32(c.subcmd), Le32(d.subcmd), EncodeArgs(c.args) + x, EncodeArgs(d.args) + y);
    ArgsUnique(c.args, d.args, x, y);
  }

  /** Reading one command after another is the only way to read a batch. */
  lemma {:induction false} BatchSplits(done: seq<Command>, cs: seq<Command>, rest: seq<Byte>) returns (more: seq<Command>)
    requires ValidBatch(done) && ValidBatch(cs) && Encode(cs) == Encode(done) + rest
    ensures ValidBatch(more) && cs == done + more && rest == Encode(more)
    decreases |done|
  {
    hide EncodeCommand, ValidCommand;
    if done == [] {
      assert Encode(done) + rest == rest;
      more := cs;
    } else {
      assert Encode(done) + rest == EncodeCommand(done[0]) + (Encode(done[1..]) + rest);
      assert cs != [];
      CommandUnique(cs[0], done[0], Encode(cs[1..]), Encode(done[1..]) + rest);
      more := BatchSplits(done[1..], cs[1..], rest);
    }
  }

  /** Two batches with the same bytes are the same batch. */
  lemma EncodeInjective(cs: seq<Command>, ds: seq<Command>)
    requires ValidBatch(cs) && ValidBatch(ds) && Encode(cs) == Encode(ds)
    ensures cs == ds
  {
    hide Encode, ValidCommand;
    assert Encode(cs) == Encode(ds) + [];
    var more := BatchSplits(ds, cs, []);
    if more != [] { NotEmpty(more); }
  }

  lemma NotEmpty(cs: seq<Command>)
    requires ValidBatch(cs) && cs != []
    ensures Encode(cs) != []
  {
  }

  lemma {:induction false} EncodeAppend(cs: seq<Command>, c: Command)
    requires ValidBatch(cs) && ValidCommand(c)
    ensures ValidBatch(cs + [c]) && Encode(cs + [c]) == Encode(cs) + EncodeCommand(c)
    decreases |cs|
  {
    hide EncodeCommand, ValidCommand;
    if cs == [] {
      assert [] + [c] == [c] && [c][1..] == [];
    } else {
      EncodeAppend(cs[1..], c);
      assert (cs + [c])[1..] == cs[1..] + [c];
    }
  }

  lemma {:induction false} ArgsAppend(args: seq<Arg>, a: Arg)
    requires ValidArgs(args) && ValidArg(a)
    ensures ValidArgs(args + [a]) && EncodeArgs(args + [a]) == EncodeArgs(args) + EncodeArg(a)
    decreases |args|
  {
    hide EncodeArg, ValidArg;
    if args == [] {
      assert [] + [a] == [a] && [a][1..] == [];
    } else {
      ArgsAppend(args[1..], a);
      assert (args + [a])[1..] == args[1..] + [a];
    }
  }

  lemma {:induction false} ArgsSplit(done: seq<Arg>, args: seq<Arg>, rest: seq<Byte>, tail: seq<Byte>)
    requires ValidArgs(done) && ValidArgs(args) && |done| <= |args| && EncodeArgs(args) + tail == EncodeArgs(done) + rest
    ensures done == args[..|done|] && rest == EncodeArgs(args[|done|..]) + tail
    decreases |done|
  {
    hide EncodeArg, EncodeArgs, ValidArg;
    if done == [] {
      NoArgs(rest);
      assert EncodeArgs([]) + rest == rest && args[0..] == args;
    } else {
      FirstOfArgs(args, tail);
      FirstOfArgs(done, rest);
      ArgUnique(args[0], done[0], EncodeArgs(args[1..]) + tail, EncodeArgs(done[1..]) + rest);
      ArgsSplit(done[1..], args[1..], rest, tail);
      assert args[1..][|done| - 1..] == args[|done|..] && args[..|done|] == [args[0]] + args[1..][..|done| - 1];
    }
  }

  lemma FirstOfArgs(args: seq<Arg>, tail: seq<Byte>)
    requires ValidArgs(args) && args != []
    ensures ValidArg(args[0]) && ValidArgs(args[1..])
    ensures EncodeArgs(args) + tail == EncodeArg(args[0]) + (EncodeArgs(args[1..]) + tail)
  {
    hide EncodeArg, ValidArg;
    Assoc(EncodeArg(args[0]), EncodeArgs(args[1..]), tail);
  }

  // ---------- the cursor ----------

  ghost predicate StartsWithArg(s: seq<Byte>) {
    exists a: Arg, rest :: ValidArg(a) && s == EncodeArg(a) + rest
  }

  ghost predicate StartsWithArgs(s: seq<Byte>, n: nat) {
    exists args: seq<Arg>, rest :: |args| == n && ValidArgs(args) && s == EncodeArgs(args) + rest
  }

  ghost predicate StartsWithCommand(s: seq<Byte>) {
    exists c: Command, rest :: ValidCommand(c) && s == EncodeCommand(c) + rest
  }

  class Cursor {
    const data: seq<Byte>
    var cur: nat

    constructor (data: seq<Byte>)
      ensures this.data == data && cur == 0
    {
      this.data := data;
      cur := 0;
    }

    predicate Valid() reads this { cur <= |data| }

    function Rest(): seq<Byte>
      requires Valid()
      reads this
    {
      data[cur..]
    }

    method ReadCmdHeader() returns (ok: bool, cmd: nat, subcmd: nat)
      requires Valid()
      modifies this
      ensures Valid() && cmd < U32 && subcmd < U32
      ensures ok <==> |old(Rest())| >= 8
      ensures ok ==> old(Rest()) == Le32(cmd) + Le32(subcmd) + Rest()
    {
      if |data| - cur < 8 {
        return false, 0, 0;
      }
      ghost var rest := Rest();
      cmd, subcmd := Value32(data[cur..cur + 4]), Value32(data[cur + 4..cur + 8]);
      Le32Value(data[cur..cur + 4]);
      Le32Value(data[cur + 4..cur + 8]);
      cur := cur + 8;
      assert rest == rest[..4] + rest[4..8] + rest[8..];
      return true, cmd, subcmd;
    }

    method ReadString() returns (ok: bool, a: Arg)
      requires Valid()
      modifies this
      ensures Valid()
      ensures ok <==> StartsWithArg(old(Rest()))
      ensures ok ==> ValidArg(a) && old(Rest()) == EncodeArg(a) + Rest()
    {
      hide Le32, Value32, EncodeArg, StartsWithArg, ValidArg;
      ghost var rest, start := Rest(), cur;
      ArgShape(rest);
      if |data| - cur < 4 {
        return false, None;
      }
      var len := Value32(data[cur..cur + 4]);
      Slice(data, start, 0, 4);
      cur := cur + 4;
      if len >= |data| - cur {
        return false, None;
      }
      var str := data[cur..cur + len];
      Slice(data, start, 4, 4 + len);
      if 0 in str || data[cur + len] != 0 {
        return false, None;
      }
      cur := cur + len + 1;
      Slice(data, start, 5 + len, |rest|);
      ArgFound(rest);
      return true, ArgOf(str);
    }
  }

  function ArgOf(s: seq<Byte>): Arg { if s == [] then None else Some(s) }

  /** The bytes begin with a length, a string of that length without zeros, and a zero. */
  predicate Shaped(s: seq<Byte>) {
    |s| >= 4 &&
    var len := Value32(s[..4]);
    len + 4 < |s| && 0 !in s[4..4 + len] && s[4 + len] == 0
  }

  lemma ArgFound(s: seq<Byte>)
    requires Shaped(s)
    ensures var len := Value32(s[..4]);
      ValidArg(ArgOf(s[4..4 + len])) && s == EncodeArg(ArgOf(s[4..4 + len])) + s[5 + len..] && StartsWithArg(s)
  {
    hide Le32, Value32;
    var len := Value32(s[..4]);
    Le32Value(s[..4]);
    assert s == s[..4] + s[4..4 + len] + [s[4 + len]] + s[5 + len..];
    assert len == 0 ==> s[..4] + s[4..4 + len] == s[..4];
  }

  lemma ArgShape(s: seq<Byte>)
    ensures StartsWithArg(s) <==> Shaped(s)
  {
    hide Le32, Value32;
    if StartsWithArg(s) {
      var a: Arg, rest :| ValidArg(a) && s == EncodeArg(a) + rest;
      var t := Text(a);
      ArgBytes(a, rest);
      assert s[..4] == Le32(|t|);
      assert s[4..4 + |t|] == t;
    }
    if Shaped(s) {
      ArgFound(s);
    }
  }

  // ---------- applying and publishing ----------

  /** What applying one command does: the edited policy, and whether the command succeeded. */
  type Apply<!P> = (P, Command) -> (P, bool)

  function Fold<P>(apply: Apply<P>, p: P, cs: seq<Command>): P {
    if cs == [] then p else apply(Fold(apply, p, cs[..|cs| - 1]), cs[|cs| - 1]).0
  }

  function Successes<P>(apply: Apply<P>, p: P, cs: seq<Command>): nat {
    if cs == [] then 0
    else
      Successes(apply, p, cs[..|cs| - 1])
      + if apply(Fold(apply, p, cs[..|cs| - 1]), cs[|cs| - 1]).1 then 1 else 0
  }

  method ReadArgs(cursor: Cursor, n: nat) returns (ok: bool, args: seq<Arg>)
    requires cursor.Valid()
    modifies cursor
    ensures cursor.Valid()
    ensures ok <==> StartsWithArgs(old(cursor.Rest()), n)
    ensures ok ==> |args| == n && ValidArgs(args) && old(cursor.Rest()) == EncodeArgs(args) + cursor.Rest()
  {
    hide EncodeArg, ValidArg, EncodeArgs, ValidArgs, StartsWithArg, StartsWithArgs;
    ghost var start := cursor.Rest();
    args := [];
    NoArgs(start);
    for i := 0 to n
      invariant cursor.Valid() && |args| == i && ValidArgs(args) && StartsWithArgs(start, i) && start == EncodeArgs(args) + cursor.Rest()
    {
      ghost var rest := cursor.Rest();
      var a;
      ok, a := cursor.ReadString();
      if !ok {
        NoMoreArgs(args, start, rest, n);
        return;
      }
      ArgsNext(args, a, start, rest, cursor.Rest());
      args := args + [a];
    }
    return true, args;
  }

  lemma NoArgs(s: seq<Byte>)
    ensures ValidArgs([]) && s == EncodeArgs([]) + s
    ensures StartsWithArgs(s, 0)
  {
    assert s == EncodeArgs([]) + s;
  }

  lemma ArgsNext(args: seq<Arg>, a: Arg, s: seq<Byte>, rest: seq<Byte>, after: seq<Byte>)
    requires ValidArgs(args) && ValidArg(a) && s == EncodeArgs(args) + rest && rest == EncodeArg(a) + after
    ensures ValidArgs(args + [a]) && s == EncodeArgs(args + [a]) + after
    ensures StartsWithArgs(s, |args| + 1)
  {
    hide EncodeArg, ValidArg, EncodeArgs, ValidArgs;
    ArgsAppend(args, a);
    Assoc(EncodeArgs(args), EncodeArg(a), after);
  }

  lemma Assoc(x: seq<Byte>, y: seq<Byte>, z: seq<Byte>)
    ensures x + (y + z) == x + y + z
  {
  }

  lemma FirstArg(args: seq<Arg>, tail: seq<Byte>)
    requires args != [] && ValidArgs(args)
    ensures StartsWithArg(EncodeArgs(args) + tail)
  {
    hide EncodeArg, ValidArg;
    FirstOfArgs(args, tail);
  }

  lemma NoMoreArgs(done: seq<Arg>, s: seq<Byte>, rest: seq<Byte>, n: nat)
    requires ValidArgs(done) && |done| < n && s == EncodeArgs(done) + rest && !StartsWithArg(rest)
    ensures !StartsWithArgs(s, n)
  {
    hide EncodeArg, EncodeArgs, ValidArg, StartsWithArg;
    if StartsWithArgs(s, n) {
      var args: seq<Arg>, tail :| |args| == n && ValidArgs(args) && s == EncodeArgs(args) + tail;
      ArgsSplit(done, args, rest, tail);
      FirstArg(args[|done|..], tail);
    }
  }

  /** Some batch has these bytes. */
  ghost predicate IsBatch(payload: seq<Byte>) {
    exists cs: seq<Command> :: ValidBatch(cs) && Encode(cs) == payload
  }

  lemma FirstCommand(cs: seq<Command>)
    requires ValidBatch(cs) && Encode(cs) != []
    ensures StartsWithCommand(Encode(cs))
  {
    hide EncodeCommand, ValidCommand;
    assert cs[0] in cs;
  }

  lemma NoMoreCommands(done: seq<Command>, payload: seq<Byte>, rest: seq<Byte>)
    requires ValidBatch(done) && payload == Encode(done) + rest && rest != [] && !StartsWithCommand(rest)
    ensures !IsBatch(payload)
  {
    hide EncodeCommand, ValidCommand;
    if IsBatch(payload) {
      var cs: seq<Command> :| ValidBatch(cs) && Encode(cs) == payload;
      var more := BatchSplits(done, cs, rest);
      FirstCommand(more);
    }
  }

  /** The payload in user memory. */
  datatype UserMemory = NullPointer | Unreadable | Readable(bytes: seq<Byte>)

  /** What the kernel grants: memory for the payload, and a copy of the policy or the error of copying it. */
  datatype Grants = Grants(memory: bool, dup: int)

  predicate Granted(g: Grants) { g.memory && g.dup >= 0 }

  /** The error of a batch that is not applied. */
  function ErrorOf(user: UserMemory, dataLen: nat, g: Grants): int {
    if user.NullPointer? || dataLen == 0 then -EINVAL else if dataLen > MAX_BATCH_SIZE then -E2BIG
    else if !g.memory then -ENOMEM else if user.Unreadable? then -EFAULT else if g.dup < 0 then g.dup else -EINVAL
  }

  class SelinuxState<!P> {
    var policy: P

    constructor (p: P)
      ensures policy == p
    {
      policy := p;
    }

    /** handle_sepolicy: a negative error, or the number of commands that succeeded. The live policy changes only
        when the whole batch has been read. */
    method HandleSepolicy(user: UserMemory, dataLen: nat, g: Grants, apply: Apply<P>) returns (ret: int)
      requires user.Readable? ==> |user.bytes| == dataLen
      modifies this
      ensures ret >= 0 <==> user.Readable? && 0 < dataLen <= MAX_BATCH_SIZE && Granted(g) && IsBatch(user.bytes)
      ensures ret < 0 ==> policy == old(policy)
      ensures ret < 0 ==> ret == ErrorOf(user, dataLen, g)
      ensures forall cs | ret >= 0 && ValidBatch(cs) && Encode(cs) == user.bytes ::
        policy == Fold(apply, old(policy), cs) && ret == Successes(apply, old(policy), cs)
    {
      hide Le32, Encode, EncodeCommand, EncodeArgs, ValidCommand, Fold, Successes, StartsWithCommand, StartsWithArgs;
      if user.NullPointer? || dataLen == 0 {
        return -EINVAL;
      }
      if dataLen > MAX_BATCH_SIZE {
        return -E2BIG;
      }
      if !g.memory {
        return -ENOMEM;
      }
      if user.Unreadable? {
        return -EFAULT;
      }
      if g.dup < 0 {
        return g.dup;
      }
      var payload := user.bytes;
      var cursor := new Cursor(payload);
      var pol, count := policy, 0;
      ghost var done: seq<Command> := [];
      NoCommands(payload, apply, pol);
      while cursor.cur < |payload|
        invariant cursor.data == payload && cursor.Valid() && policy == old(policy)
        invariant ValidBatch(done) && payload == Encode(done) + cursor.Rest()
        invariant pol == Fold(apply, policy, done) && count == Successes(apply, policy, done)
        decreases |payload| - cursor.cur
      {
        ghost var rest := cursor.Rest();
        var ok, c := ReadCommand(cursor);
        if !ok {
          NoMoreCommands(done, payload, rest);
          return -EINVAL;
        }
        Applied(apply, policy, done, c, rest, cursor.Rest(), payload);
        var applied := apply(pol, c);
        pol := applied.0;
        if applied.1 {
          count := count + 1;
        }
        done := done + [c];
      }
      assert cursor.Rest() == [] && payload == Encode(done);
      policy := pol;
      forall cs | ValidBatch(cs) && Encode(cs) == payload
        ensures cs == done
      {
        EncodeInjective(cs, done);
      }
      return count;
    }
  }

  lemma NoCommands<P>(payload: seq<Byte>, apply: Apply<P>, p: P)
    ensures payload == Encode([]) + payload && p == Fold(apply, p, []) && Successes(apply, p, []) == 0
  {
  }

  lemma Applied<P>(apply: Apply<P>, p: P, done: seq<Command>, c: Command, rest: seq<Byte>, after: seq<Byte>, payload: seq<Byte>)
    requires ValidBatch(done) && ValidCommand(c) && payload == Encode(done) + rest && rest == EncodeCommand(c) + after
    ensures ValidBatch(done + [c]) && payload == Encode(done + [c]) + after
    ensures Fold(apply, p, done + [c]) == apply(Fold(apply, p, done), c).0
    ensures Successes(apply, p, done + [c])
         == Successes(apply, p, done) + if apply(Fold(apply, p, done), c).1 then 1 else 0
  {
    hide EncodeCommand, ValidCommand;
    EncodeAppend(done, c);
    assert (done + [c])[..|done|] == done;
    assert Encode(done) + (EncodeCommand(c) + after) == Encode(done) + EncodeCommand(c) + after;
  }

  /** The body of the loop up to the point where the command is applied. */
  method ReadCommand(cursor: Cursor) returns (ok: bool, c: Command)
    requires cursor.Valid()
    modifies cursor
    ensures cursor.Valid() && (ok ==> cursor.cur > old(cursor.cur))
    ensures ok <==> StartsWithCommand(old(cursor.Rest()))
    ensures ok ==> ValidCommand(c) && old(cursor.Rest()) == EncodeCommand(c) + cursor.Rest()
  {
    hide Le32, EncodeArgs, ValidArgs, StartsWithArgs, StartsWithCommand;
    c := Command(0, 0, []);
    ghost var start := cursor.Rest();
    CommandShape(start);
    var cmd, subcmd;
    ok, cmd, subcmd := cursor.ReadCmdHeader();
    if !ok {
      return;
    }
    ghost var rest := cursor.Rest();
    CommandAfterHeader(cmd, subcmd, start, rest);
    var argc := ExpectedArgc(cmd);
    if argc < 0 || argc > MAX_ARGS {
      return false, c;
    }
    var args;
    ok, args := ReadArgs(cursor, argc);
    if ok {
      c := Command(cmd, subcmd, args);
      CommandFound(c, start, rest, cursor.Rest());
    }
  }

  lemma CommandShape(s: seq<Byte>)
    ensures StartsWithCommand(s) ==> |s| >= 8
  {
    hide EncodeCommand, ValidCommand;
  }

  lemma CommandFound(c: Command, s: seq<Byte>, rest: seq<Byte>, after: seq<Byte>)
    requires ValidCommand(c) && s == Le32(c.cmd) + Le32(c.subcmd) + rest && rest == EncodeArgs(c.args) + after
    ensures s == EncodeCommand(c) + after && StartsWithCommand(s)
  {
    hide Le32, EncodeArgs, ValidCommand;
  }

  /** After the header, a command starts here exactly if its class is known and its arguments follow. */
  lemma CommandAfterHeader(cmd: nat, subcmd: nat, s: seq<Byte>, rest: seq<Byte>)
    requires cmd < U32 && subcmd < U32 && s == Le32(cmd) + Le32(subcmd) + rest
    ensures StartsWithCommand(s) ==> ExpectedArgc(cmd) >= 0 && StartsWithArgs(rest, ExpectedArgc(cmd))
  {
    hide Le32, Value32, EncodeArgs, ExpectedArgc, EncodeCommand;
    if StartsWithCommand(s) {
      var c, tail :| ValidCommand(c) && s == EncodeCommand(c) + tail;
      CommandBytes(c, tail);
      assert s == Le32(cmd) + (Le32(subcmd) + rest);
      Cancel(Le32(c.cmd), Le32(cmd), Le32(c.subcmd) + (EncodeArgs(c.args) + tail), Le32(subcmd) + rest);
      Cancel(Le32(c.subcmd), Le32(subcmd), EncodeArgs(c.args) + tail, rest);
      assert c.cmd == cmd;
    }
  }

  // ---------- the numbers of the format ----------

  /** How many arguments each class of command takes: rules four, extended rules five, and so on. */
  lemma ArgumentCounts(cmd: nat)
    ensures ExpectedArgc(cmd) >= 0 <==> 1 <= cmd <= 9
    ensures 1 <= cmd <= 9 ==> ExpectedArgc(cmd) == [4, 5, 1, 2, 2, 1, 5, 4, 3][cmd - 1]
    ensures !(1 <= cmd <= 9) ==> ExpectedArgc(cmd) == -22
  {
  }

  /** Which error a batch gets, as a number. */
  lemma ErrorNumbers(user: UserMemory, dataLen: nat, g: Grants)
    ensures user == NullPointer || dataLen == 0 ==> ErrorOf(user, dataLen, g) == -22
    ensures user != NullPointer && dataLen > 8388608 ==> ErrorOf(user, dataLen, g) == -7
    ensures user != NullPointer && 0 < dataLen <= 8388608 && !g.memory ==> ErrorOf(user, dataLen, g) == -12
    ensures user == Unreadable && 0 < dataLen <= 8388608 && g.memory ==> ErrorOf(user, dataLen, g) == -14
  {
  }

  /** Where a command's header and first argument stand in its bytes. */
  lemma CommandLayout(c: Command)
    requires ValidCommand(c) && c.args != []
    ensures var b := EncodeCommand(c);
      && FromLe(b[0..4]) == c.cmd && FromLe(b[4..8]) == c.subcmd && |b| >= 13 + |Text(c.args[0])|
      && FromLe(b[8..12]) == |Text(c.args[0])| && b[12..12 + |Text(c.args[0])|] == Text(c.args[0])
      && b[12 + |Text(c.args[0])|] == 0
  {
    hide EncodeCommand, EncodeArgs, FromLe, Le, Le32, Text;
    var b, s, rest := EncodeCommand(c), Text(c.args[0]), EncodeArgs(c.args[1..]) + [];
    CommandBytes(c, []);
    FirstOfArgs(c.args, []);
    ArgBytes(c.args[0], rest);
    assert b == b + [];
    ShortText(c.args[0]);
    Parts(b, Le32(c.cmd), Le32(c.subcmd), Le32(|s|), s, rest);
    ValueOfLe32(c.cmd);
    ValueOfLe32(c.subcmd);
    ValueOfLe32(|s|);
  }

  lemma ShortText(a: Arg)
    requires ValidArg(a)
    ensures |Text(a)| < U32
  {
  }

  lemma ValueOfLe32(n: nat)
    requires n < U32
    ensures FromLe(Le32(n)) == n
  {
    hide FromLe, Le;
    Powers256();
    FromLeLe(n, 4);
  }

  lemma Parts(b: seq<Byte>, x: seq<Byte>, y: seq<Byte>, l: seq<Byte>, s: seq<Byte>, rest: seq<Byte>)
    requires |x| == |y| == |l| == 4 && b == x + (y + (l + (s + ([0] + rest))))
    ensures |b| >= 13 + |s| && b[0..4] == x && b[4..8] == y && b[8..12] == l && b[12..12 + |s|] == s && b[12 + |s|] == 0
  {
  }
}
