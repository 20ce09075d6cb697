/** Multi-level translation tables: the walker, the builder that creates entries on demand, and
    the loop that maps a region. */
module PageTable {
  import opened Bits

  /** Physical memory by address; words never written read as zero. */
  type Mem = map<nat, U64>

  function Rd(m: Mem, a: nat): U64 { if a in m then m[a] else 0 }

  /** page_shift and va_bits, as read from TCR_EL1. */
  datatype Cfg = Cfg(ps: nat, vaBits: nat) {
    predicate Valid() {
      (ps == 12 || ps == 14 || ps == 16) && ps < vaBits <= 52 && Levels() <= 4
    }

    /** page_level */
    function Levels(): nat
      requires ps >= 4 && vaBits >= 4
    {
      (vaBits - 4) / (ps - 3)
    }

    function Start(): nat
      requires Valid()
    {
      4 - Levels()
    }
  }

  /** The level count is the least one whose index bits reach the top of the address space. */
  lemma LevelsLeast(cfg: Cfg)
    requires cfg.Valid()
    ensures cfg.ps + cfg.Levels() * (cfg.ps - 3) >= cfg.vaBits
    ensures cfg.ps + (cfg.Levels() - 1) * (cfg.ps - 3) < cfg.vaBits
  {
  }

  /** The index bits of all levels are exactly the address bits above the page offset. */
  predicate Exact(cfg: Cfg)
    requires cfg.Valid()
  {
    (cfg.vaBits - cfg.ps) % (cfg.ps - 3) == 0
  }

  lemma ExactMeans(cfg: Cfg)
    requires cfg.Valid()
    ensures Exact(cfg) <==> cfg.ps + cfg.Levels() * (cfg.ps - 3) == cfg.vaBits
  {
    if cfg.ps == 12 {
    } else if cfg.ps == 14 {
    } else {
    }
  }

  // ---------- descriptors and indices ----------

  function PageSize(cfg: Cfg): (p: nat)
    ensures p > 0
  {
    Pow2(cfg.ps)
  }

  function Entries(cfg: Cfg): (e: nat)
    requires cfg.Valid()
    ensures e > 0
  {
    Pow2(cfg.ps - 3)
  }

  function Shift(cfg: Cfg, lv: nat): nat
    requires cfg.Valid() && lv < 4
  {
    (cfg.ps - 3) * (4 - lv) + 3
  }

  function Index(cfg: Cfg, va: nat, lv: nat): (i: nat)
    requires cfg.Valid() && lv < 4
    ensures i < Entries(cfg)
  {
    va / Pow2(Shift(cfg, lv)) % Entries(cfg)
  }

  /** The address field of a table or page descriptor. */
  function TableAddr(cfg: Cfg, desc: nat): nat
    requires cfg.Valid()
  {
    desc / PageSize(cfg) % Pow2(48 - cfg.ps) * PageSize(cfg)
  }

  function BlockBits(cfg: Cfg, lv: nat): nat
    requires cfg.Valid() && lv < 4
  {
    (3 - lv) * (cfg.ps - 3) + cfg.ps
  }

  /** The address field of a block descriptor. */
  function BlockAddr(cfg: Cfg, desc: nat, lv: nat): nat
    requires cfg.Valid() && cfg.Start() <= lv < 4
  {
    desc / Pow2(BlockBits(cfg, lv)) % Pow2(48 - BlockBits(cfg, lv)) * Pow2(BlockBits(cfg, lv))
  }

  /** The address fields are the bits of the descriptor from the size of what they point to up to bit 47. */
  lemma AddressFields(cfg: Cfg, desc: nat, lv: nat)
    requires cfg.Valid() && cfg.Start() <= lv < 4
    ensures TableAddr(cfg, desc) == desc % Pow2(48) - desc % Pow2(cfg.ps)
    ensures BlockAddr(cfg, desc, lv) == desc % Pow2(48) - desc % Pow2(BlockBits(cfg, lv))
  {
    assert BlockBits(cfg, lv) <= 48;
    hide Pow2, BlockBits;
    FieldUpTo(desc, cfg.ps);
    FieldUpTo(desc, BlockBits(cfg, lv));
  }

  lemma FieldUpTo(desc: nat, k: nat)
    requires k <= 48
    ensures desc / Pow2(k) % Pow2(48 - k) * Pow2(k) == desc % Pow2(48) - desc % Pow2(k)
  {
    hide Pow2;
    Pow2Add(k, 48 - k);
    UpperPart(desc, Pow2(k), Pow2(48 - k), Pow2(48));
  }

  lemma UpperPart(x: nat, p: nat, n: nat, b: nat)
    requires p > 0 && n > 0 && b > 0 && b == p * n
    ensures x / p % n * p == x % b - x % p
  {
    DivOfMod(x, p, n, b);
    ModOfMod(x, p, n, b);
    Divide(x % b, p);
  }

  /** Table entries are eight bytes apart and fill a page. */
  lemma EntriesFill(cfg: Cfg)
    requires cfg.Valid()
    ensures PageSize(cfg) == 8 * Entries(cfg)
  {
    Powers();
    Pow2Add(3, cfg.ps - 3);
  }

  predicate Aligned(cfg: Cfg, a: nat) { a % PageSize(cfg) == 0 }

  lemma TableAddrAligned(cfg: Cfg, desc: nat)
    requires cfg.Valid()
    ensures Aligned(cfg, TableAddr(cfg, desc))
  {
    hide Pow2;
    MultipleMod(desc / PageSize(cfg) % Pow2(48 - cfg.ps), PageSize(cfg));
  }

  lemma MultipleMod(q: nat, d: nat)
    requires d > 0
    ensures q * d % d == 0
  {
    DivModUnique(q * d, d, q, 0);
  }

  /** Two entries of page-aligned tables coincide only if they are the same entry. */
  lemma SameEntry(cfg: Cfg, t: nat, i: nat, u: nat, j: nat)
    requires cfg.Valid() && Aligned(cfg, t) && Aligned(cfg, u) && i < Entries(cfg) && j < Entries(cfg)
    requires t + 8 * i == u + 8 * j
    ensures t == u && i == j
  {
    hide Pow2;
    EntriesFill(cfg);
    PagePart(cfg, t, 8 * i);
    PagePart(cfg, u, 8 * j);
  }

  lemma PagePart(cfg: Cfg, t: nat, d: nat)
    requires cfg.Valid() && Aligned(cfg, t) && d < PageSize(cfg)
    ensures (t + d) % PageSize(cfg) == d
  {
    hide Pow2;
    Divide(t, PageSize(cfg));
    DivModUnique(t + d, PageSize(cfg), t / PageSize(cfg), d);
  }

  // ---------- the walk ----------

  /** The entry a walk ends at, and its level. */
  datatype Leaf = NoLeaf | Leaf(entry: nat, lv: nat)

  function EntryAt(cfg: Cfg, t: nat, va: nat, lv: nat): nat
    requires cfg.Valid() && lv < 4
  {
    t + 8 * Index(cfg, va, lv)
  }

  /** Follow tables from table `t` at level `lv` until a page, a block or an invalid entry. */
  function Walk(cfg: Cfg, m: Mem, t: nat, va: nat, lv: nat): Leaf
    requires cfg.Valid() && lv < 4
    decreases 4 - lv
  {
    var e := EntryAt(cfg, t, va, lv);
    var desc := Rd(m, e);
    if desc % 4 == 3 then
      if lv == 3 then Leaf(e, lv) else Walk(cfg, m, TableAddr(cfg, desc), va, lv + 1)
    else if desc % 4 == 1 then Leaf(e, lv)
    else NoLeaf
  }

  /** pgtable_entry: a block ends its walk only below level 0, whose number doubles as the block flag. */
  function WalkerEntry(cfg: Cfg, m: Mem, t: nat, va: nat, lv: nat): Leaf
    requires cfg.Valid() && cfg.Start() <= lv < 4
    decreases 4 - lv
  {
    var e := EntryAt(cfg, t, va, lv);
    var desc := Rd(m, e);
    if desc % 4 == 3 then
      if lv == 3 then Leaf(e, lv) else WalkerEntry(cfg, m, TableAddr(cfg, desc), va, lv + 1)
    else if desc % 4 == 1 then
      if lv != 0 then Leaf(e, lv) else WalkerEntry(cfg, m, BlockAddr(cfg, desc, lv), va, lv + 1)
    else NoLeaf
  }

  /** A walk ends no higher than it began. */
  lemma {:induction false} WalkerLevel(cfg: Cfg, m: Mem, t: nat, va: nat, lv: nat)
    requires cfg.Valid() && cfg.Start() <= lv < 4
    ensures WalkerEntry(cfg, m, t, va, lv).Leaf? ==> WalkerEntry(cfg, m, t, va, lv).lv >= lv
    decreases 4 - lv
  {
    hide Pow2, TableAddr, EntryAt, BlockAddr;
    var desc := Rd(m, EntryAt(cfg, t, va, lv));
    if lv < 3 && desc % 4 == 3 {
      WalkerLevel(cfg, m, TableAddr(cfg, desc), va, lv + 1);
    } else if lv == 0 && desc % 4 == 1 {
      WalkerLevel(cfg, m, BlockAddr(cfg, desc, lv), va, lv + 1);
    }
  }

  /** Walker and builder agree exactly on the addresses whose walk meets no block at level 0. */
  lemma {:induction false} WalkerAgrees(cfg: Cfg, m: Mem, t: nat, va: nat, lv: nat)
    requires cfg.Valid() && cfg.Start() <= lv < 4
    ensures WalkerEntry(cfg, m, t, va, lv) == Walk(cfg, m, t, va, lv) <==>
      !(lv == 0 && Rd(m, EntryAt(cfg, t, va, 0)) % 4 == 1)
    decreases 4 - lv
  {
    hide Pow2, TableAddr, EntryAt, BlockAddr;
    var desc := Rd(m, EntryAt(cfg, t, va, lv));
    if lv < 3 && desc % 4 == 3 {
      WalkerAgrees(cfg, m, TableAddr(cfg, desc), va, lv + 1);
    } else if lv == 0 && desc % 4 == 1 {
      WalkerLevel(cfg, m, BlockAddr(cfg, desc, lv), va, lv + 1);
    }
  }

  /** The address a leaf translates to. */
  function Translate(cfg: Cfg, m: Mem, root: nat, va: nat): (pa: int)
    requires cfg.Valid()
  {
    match Walk(cfg, m, root, va, cfg.Start())
    case NoLeaf => -1
    case Leaf(e, lv) =>
      if lv == 3 then TableAddr(cfg, Rd(m, e)) + va % PageSize(cfg)
      else if cfg.Start() <= lv < 3 then BlockAddr(cfg, Rd(m, e), lv) + va % Pow2(BlockBits(cfg, lv))
      else -1
  }

  // ---------- the tree of tables ----------

  /** The indices a walk of `va` uses, outermost first. */
  function Path(cfg: Cfg, va: nat): (p: seq<nat>)
    requires cfg.Valid()
    ensures |p| == cfg.Levels()
  {
    seq<nat>(cfg.Levels(), (j: nat) requires j < cfg.Levels() => Index(cfg, va, cfg.Start() + j))
  }

  datatype Node = NoNode | Node(addr: nat)

  /** The table reached from the root by following `p`. */
  function TableOf(cfg: Cfg, m: Mem, root: nat, p: seq<nat>): Node
    requires cfg.Valid()
    decreases |p|
  {
    if p == [] then Node(root)
    else match TableOf(cfg, m, root, p[..|p| - 1])
      case NoNode => NoNode
      case Node(t) =>
        var desc := Rd(m, t + 8 * p[|p| - 1]);
        if desc % 4 == 3 then Node(TableAddr(cfg, desc)) else NoNode
  }

  lemma TableDef(cfg: Cfg, m: Mem, root: nat, p: seq<nat>)
    requires cfg.Valid()
    ensures p == [] ==> TableOf(cfg, m, root, p) == Node(root)
    ensures p != [] ==>
      var up := TableOf(cfg, m, root, p[..|p| - 1]);
      if up.NoNode? then TableOf(cfg, m, root, p) == NoNode
      else
        var desc := Rd(m, up.addr + 8 * p[|p| - 1]);
        TableOf(cfg, m, root, p) == if desc % 4 == 3 then Node(TableAddr(cfg, desc)) else NoNode
  {
    hide TableAddr, Rd;
  }

  /** A path to a table of the tree. */
  predicate InTree(cfg: Cfg, p: seq<nat>)
    requires cfg.Valid()
  {
    |p| < cfg.Levels() && forall j :: 0 <= j < |p| ==> p[j] < Entries(cfg)
  }

  /** The tables form a tree of aligned pages, and the pages of the allocator are not among them. */
  ghost predicate Tree(cfg: Cfg, m: Mem, root: nat, pool: seq<nat>) {
    && cfg.Valid() && Aligned(cfg, root)
    && (forall p, q | InTree(cfg, p) && InTree(cfg, q) && TableOf(cfg, m, root, p).Node? ::
          TableOf(cfg, m, root, p) == TableOf(cfg, m, root, q) ==> p == q)
    && (forall i :: 0 <= i < |pool| ==> Aligned(cfg, pool[i]) && 0 < pool[i] < Pow2(48))
    && (forall i, j :: 0 <= i < j < |pool| ==> pool[i] != pool[j])
    && (forall p, i :: InTree(cfg, p) && 0 <= i < |pool| ==> TableOf(cfg, m, root, p) != Node(pool[i]))
  }

  lemma PathInTree(cfg: Cfg, va: nat, k: nat)
    requires cfg.Valid() && k < cfg.Levels()
    ensures InTree(cfg, Path(cfg, va)[..k]) && Path(cfg, va)[k] == Index(cfg, va, cfg.Start() + k)
  {
    hide Entries, Index;
    forall j | 0 <= j < k
      ensures Path(cfg, va)[..k][j] < Entries(cfg)
    {
      assert Path(cfg, va)[j] == Index(cfg, va, cfg.Start() + j);
    }
  }

  lemma TableAligned(cfg: Cfg, m: Mem, root: nat, p: seq<nat>)
    requires cfg.Valid() && Aligned(cfg, root) && TableOf(cfg, m, root, p).Node?
    ensures Aligned(cfg, TableOf(cfg, m, root, p).addr)
  {
    hide Aligned, TableAddr;
    if p != [] {
      var t := TableOf(cfg, m, root, p[..|p| - 1]).addr;
      TableAddrAligned(cfg, Rd(m, t + 8 * p[|p| - 1]));
    }
  }

  lemma WalkDef(cfg: Cfg, m: Mem, t: nat, va: nat, lv: nat)
    requires cfg.Valid() && lv < 4
    ensures var e := EntryAt(cfg, t, va, lv);
            var desc := Rd(m, e);
            Walk(cfg, m, t, va, lv) == if desc % 4 == 3 then
                                         if lv == 3 then Leaf(e, lv) else Walk(cfg, m, TableAddr(cfg, desc), va, lv + 1)
                                       else if desc % 4 == 1 then Leaf(e, lv) else NoLeaf
  {
    hide TableAddr, Rd, EntryAt;
  }

  /** A walk from the root is a walk from each table on its path. */
  lemma {:induction false} WalkFrom(cfg: Cfg, m: Mem, root: nat, va: nat, k: nat)
    requires cfg.Valid() && k < cfg.Levels() && TableOf(cfg, m, root, Path(cfg, va)[..k]).Node?
    ensures Walk(cfg, m, root, va, cfg.Start())
         == Walk(cfg, m, TableOf(cfg, m, root, Path(cfg, va)[..k]).addr, va, cfg.Start() + k)
    decreases k
  {
    hide Pow2, TableAddr, Index;
    if k > 0 {
      var p := Path(cfg, va);
      assert p[..k][..k - 1] == p[..k - 1];
      WalkFrom(cfg, m, root, va, k - 1);
    }
  }

  // ---------- writing an entry ----------

  /** Entry `e` now points to the page `np`, which has been cleared. */
  ghost predicate Linked(cfg: Cfg, m: Mem, m': Mem, e: nat, desc: nat, np: nat)
    requires cfg.Valid()
  {
    forall a: nat :: Rd(m', a) == if a == e then desc
                                  else if InEntries(a, np, Entries(cfg)) then 0 else Rd(m, a)
  }

  /** `a` is one of the first n entries of the page. */
  predicate InEntries(a: nat, page: nat, n: nat) {
    page <= a < page + 8 * n && (a - page) % 8 == 0
  }

  lemma NextEntry(a: nat, page: nat, j: nat)
    ensures InEntries(a, page, j + 1) <==> InEntries(a, page, j) || a == page + 8 * j
  {
  }

  lemma OffPage(cfg: Cfg, t: nat, i: nat, np: nat)
    requires cfg.Valid() && Aligned(cfg, t) && Aligned(cfg, np) && t != np && i < Entries(cfg)
    ensures !InEntries(t + 8 * i, np, Entries(cfg))
  {
    hide Pow2, Aligned;
    EntriesFill(cfg);
    if np <= t + 8 * i < np + PageSize(cfg) {
      PagePart(cfg, t, 8 * i);
      PagePart(cfg, np, t + 8 * i - np);
    }
  }

  /** What it means to fill the invalid entry `idx` of the table at `p` with a fresh empty page. */
  ghost predicate LinkStep(cfg: Cfg, m: Mem, m': Mem, root: nat, pool: seq<nat>, p: seq<nat>, idx: nat, desc: nat) {
    && Tree(cfg, m, root, pool) && pool != [] && InTree(cfg, p) && InTree(cfg, p + [idx])
    && TableOf(cfg, m, root, p).Node?
    && var e := TableOf(cfg, m, root, p).addr + 8 * idx;
       && Rd(m, e) % 4 != 1 && Rd(m, e) % 4 != 3 && desc % 4 == 3 && TableAddr(cfg, desc) == pool[0]
       && Linked(cfg, m, m', e, desc, pool[0])
  }

  /** The entries read on the way to another table are not affected. */
  lemma LinkEntry(
    cfg: Cfg, m: Mem, m': Mem, root: nat, pool: seq<nat>, p: seq<nat>, idx: nat, desc: nat, q: seq<nat>, i: nat)
    requires LinkStep(cfg, m, m', root, pool, p, idx, desc) && InTree(cfg, q) && i < Entries(cfg)
    requires TableOf(cfg, m, root, q).Node?
    ensures var a := TableOf(cfg, m, root, q).addr + 8 * i;
            Rd(m', a) == if q == p && i == idx then desc else Rd(m, a)
  {
    hide Aligned, TableAddr, Entries, PageSize, TableOf, Rd;
    var t0, t := TableOf(cfg, m, root, q).addr, TableOf(cfg, m, root, p).addr;
    TableAligned(cfg, m, root, p);
    TableAligned(cfg, m, root, q);
    OffPage(cfg, t0, i, pool[0]);
    if t0 + 8 * i == t + 8 * idx {
      LastIndex(cfg, p, idx);
      SameEntry(cfg, t0, i, t, idx);
    }
  }

  lemma LastIndex(cfg: Cfg, p: seq<nat>, idx: nat)
    requires cfg.Valid() && InTree(cfg, p + [idx])
    ensures idx < Entries(cfg)
  {
    assert (p + [idx])[|p|] == idx;
  }

  /** The fresh page holds no descriptor. */
  lemma LinkedPageEmpty(
    cfg: Cfg, m: Mem, m': Mem, root: nat, pool: seq<nat>, p: seq<nat>, idx: nat, desc: nat, i: nat)
    requires LinkStep(cfg, m, m', root, pool, p, idx, desc) && i < Entries(cfg)
    ensures Rd(m', pool[0] + 8 * i) == 0
  {
    hide Aligned, TableAddr, Entries, PageSize, TableOf, Rd;
    var t := TableOf(cfg, m, root, p).addr;
    TableAligned(cfg, m, root, p);
    LastIndex(cfg, p, idx);
    OffPage(cfg, t, idx, pool[0]);
    InPage(cfg, pool[0], i);
  }

  lemma LinkValid(cfg: Cfg, m: Mem, m': Mem, root: nat, pool: seq<nat>, p: seq<nat>, idx: nat, desc: nat)
    requires LinkStep(cfg, m, m', root, pool, p, idx, desc)
    ensures cfg.Valid()
  {
  }

  lemma LinkFacts(cfg: Cfg, m: Mem, m': Mem, root: nat, pool: seq<nat>, p: seq<nat>, idx: nat, desc: nat)
    requires LinkStep(cfg, m, m', root, pool, p, idx, desc)
    ensures cfg.Valid() && |p| + 1 < cfg.Levels() && pool != []
    ensures desc % 4 == 3 && TableAddr(cfg, desc) == pool[0] && TableOf(cfg, m, root, p + [idx]) == NoNode
    ensures TableOf(cfg, m, root, p).Node?
    ensures var was := Rd(m, TableOf(cfg, m, root, p).addr + 8 * idx); was % 4 != 1 && was % 4 != 3
  {
    hide Linked, TableAddr, Tree, Rd, Entries, TableOf;
    LinkValid(cfg, m, m', root, pool, p, idx, desc);
    NoTable(cfg, m, root, p, idx);
  }

  lemma NoTable(cfg: Cfg, m: Mem, root: nat, p: seq<nat>, idx: nat)
    requires cfg.Valid() && TableOf(cfg, m, root, p).Node? && Rd(m, TableOf(cfg, m, root, p).addr + 8 * idx) % 4 != 3
    ensures TableOf(cfg, m, root, p + [idx]) == NoNode
  {
    hide Rd, TableAddr;
    assert (p + [idx])[..|p|] == p;
  }

  lemma {:induction false} TablesAfterLink(
    cfg: Cfg, m: Mem, m': Mem, root: nat, pool: seq<nat>, p: seq<nat>, idx: nat, desc: nat, q: seq<nat>)
    requires LinkStep(cfg, m, m', root, pool, p, idx, desc) && InTree(cfg, q)
    ensures TableOf(cfg, m', root, q) == if q == p + [idx] then Node(pool[0]) else TableOf(cfg, m, root, q)
    decreases |q|
  {
    hide TableAddr, Entries, Rd, LinkStep, TableOf;
    LinkFacts(cfg, m, m', root, pool, p, idx, desc);
    TableDef(cfg, m, root, q);
    TableDef(cfg, m', root, q);
    if q != [] {
      var q0, i := q[..|q| - 1], q[|q| - 1];
      assert q == q0 + [i] && (p + [idx])[..|p|] == p;
      TablesAfterLink(cfg, m, m', root, pool, p, idx, desc, q0);
      if q0 == p + [idx] {
        LinkedPageEmpty(cfg, m, m', root, pool, p, idx, desc, i);
      }
      if TableOf(cfg, m, root, q0).Node? {
        LinkEntry(cfg, m, m', root, pool, p, idx, desc, q0, i);
      }
    }
  }

  lemma InPage(cfg: Cfg, np: nat, i: nat)
    requires cfg.Valid() && i < Entries(cfg)
    ensures InEntries(np + 8 * i, np, Entries(cfg))
  {
  }

  lemma LinkKeepsTree(cfg: Cfg, m: Mem, m': Mem, root: nat, pool: seq<nat>, p: seq<nat>, idx: nat, desc: nat)
    requires LinkStep(cfg, m, m', root, pool, p, idx, desc)
    ensures Tree(cfg, m', root, pool[1..])
    ensures TableOf(cfg, m', root, p + [idx]) == Node(pool[0])
  {
    hide Aligned, TableAddr, Entries, PageSize, Linked, TableOf;
    forall q | InTree(cfg, q)
      ensures TableOf(cfg, m', root, q) == if q == p + [idx] then Node(pool[0]) else TableOf(cfg, m, root, q)
    {
      TablesAfterLink(cfg, m, m', root, pool, p, idx, desc, q);
    }
  }

  /** Linking an empty page changes the outcome of no walk, and no leaf. */
  lemma {:induction false} LinkKeepsWalks(
    cfg: Cfg, m: Mem, m': Mem, root: nat, pool: seq<nat>, p: seq<nat>, idx: nat, desc: nat, va: nat, k: nat)
    requires LinkStep(cfg, m, m', root, pool, p, idx, desc) && k < cfg.Levels()
    requires TableOf(cfg, m, root, Path(cfg, va)[..k]).Node?
    ensures var t := TableOf(cfg, m, root, Path(cfg, va)[..k]).addr;
            var w := Walk(cfg, m, t, va, cfg.Start() + k);
            w == Walk(cfg, m', t, va, cfg.Start() + k) && (w.Leaf? ==> Rd(m', w.entry) == Rd(m, w.entry))
    decreases cfg.Levels() - k
  {
    hide TableAddr, Entries, Index, Path, Rd, LinkStep, InTree, Walk, TableOf;
    LinkFacts(cfg, m, m', root, pool, p, idx, desc);
    var path := Path(cfg, va);
    var q, lv := path[..k], cfg.Start() + k;
    var t0, i := TableOf(cfg, m, root, q).addr, Index(cfg, va, lv);
    PathInTree(cfg, va, k);
    WalkDef(cfg, m, t0, va, lv);
    WalkDef(cfg, m', t0, va, lv);
    LinkEntry(cfg, m, m', root, pool, p, idx, desc, q, i);
    if q == p && i == idx {
      LinkedPageEmpty(cfg, m, m', root, pool, p, idx, desc, Index(cfg, va, lv + 1));
      WalkDef(cfg, m', pool[0], va, lv + 1);
    } else if lv < 3 && Rd(m, t0 + 8 * i) % 4 == 3 {
      assert path[..k + 1][..k] == q;
      TableDef(cfg, m, root, path[..k + 1]);
      LinkKeepsWalks(cfg, m, m', root, pool, p, idx, desc, va, k + 1);
    }
  }

  /** Writing a last-level entry: the table at `p` has level 3 and `e` is its entry `idx`. */
  ghost predicate LeafWrite(cfg: Cfg, m: Mem, m': Mem, root: nat, pool: seq<nat>, p: seq<nat>, idx: nat, desc: U64) {
    && Tree(cfg, m, root, pool) && InTree(cfg, p) && |p| == cfg.Levels() - 1 && idx < Entries(cfg)
    && TableOf(cfg, m, root, p).Node? && m' == m[TableOf(cfg, m, root, p).addr + 8 * idx := desc]
  }

  lemma {:induction false} TablesAfterLeaf(
    cfg: Cfg, m: Mem, m': Mem, root: nat, pool: seq<nat>, p: seq<nat>, idx: nat, desc: U64, q: seq<nat>)
    requires LeafWrite(cfg, m, m', root, pool, p, idx, desc) && InTree(cfg, q)
    ensures TableOf(cfg, m', root, q) == TableOf(cfg, m, root, q)
    decreases |q|
  {
    hide Aligned, TableAddr, Entries, PageSize;
    if q != [] {
      var q0, i := q[..|q| - 1], q[|q| - 1];
      TablesAfterLeaf(cfg, m, m', root, pool, p, idx, desc, q0);
      if TableOf(cfg, m, root, q0).Node? {
        var t0, t := TableOf(cfg, m, root, q0).addr, TableOf(cfg, m, root, p).addr;
        TableAligned(cfg, m, root, q0);
        TableAligned(cfg, m, root, p);
        if t0 + 8 * i == t + 8 * idx {
          SameEntry(cfg, t0, i, t, idx);
          assert false;
        }
      }
    }
  }

  lemma LeafWriteKeepsTree(cfg: Cfg, m: Mem, m': Mem, root: nat, pool: seq<nat>, p: seq<nat>, idx: nat, desc: U64)
    requires LeafWrite(cfg, m, m', root, pool, p, idx, desc)
    ensures Tree(cfg, m', root, pool)
  {
    hide Aligned, TableAddr, Entries, PageSize, TableOf;
    forall q | InTree(cfg, q)
      ensures TableOf(cfg, m', root, q) == TableOf(cfg, m, root, q)
    {
      TablesAfterLeaf(cfg, m, m', root, pool, p, idx, desc, q);
    }
  }

  /** Only the walk of the page itself sees the written entry. */
  lemma {:induction false} WalkAfterLeaf(
    cfg: Cfg, m: Mem, m': Mem, root: nat, pool: seq<nat>, p: seq<nat>, idx: nat, desc: U64, va: nat, k: nat)
    requires LeafWrite(cfg, m, m', root, pool, p, idx, desc) && k < cfg.Levels()
    requires TableOf(cfg, m, root, Path(cfg, va)[..k]).Node?
    ensures var t := TableOf(cfg, m, root, Path(cfg, va)[..k]).addr;
            var w := Walk(cfg, m, t, va, cfg.Start() + k);
            var w' := Walk(cfg, m', t, va, cfg.Start() + k);
            var e := TableOf(cfg, m, root, p).addr + 8 * idx;
            if Path(cfg, va) == p + [idx] then w' == (if desc % 4 == 1 || desc % 4 == 3 then Leaf(e, 3) else NoLeaf)
            else w' == w && (w.Leaf? ==> w.entry != e)
    decreases cfg.Levels() - k
  {
    hide Aligned, TableAddr, Entries, PageSize, Index, Path, Tree, InTree, TableOf, Walk;
    LeafWriteValid(cfg, m, m', root, pool, p, idx, desc);
    PathInTree(cfg, va, k);
    LeafFacts(cfg, m, m', root, pool, p, idx, desc, Path(cfg, va), k);
    var path := Path(cfg, va);
    var lv := cfg.Start() + k;
    var t0 := TableOf(cfg, m, root, path[..k]).addr;
    WalkDef(cfg, m, t0, va, lv);
    WalkDef(cfg, m', t0, va, lv);
    if lv < 3 && Rd(m, t0 + 8 * path[k]) % 4 == 3 {
      NextTable(cfg, m, root, path, k);
      WalkAfterLeaf(cfg, m, m', root, pool, p, idx, desc, va, k + 1);
    }
  }

  lemma LeafWriteValid(cfg: Cfg, m: Mem, m': Mem, root: nat, pool: seq<nat>, p: seq<nat>, idx: nat, desc: U64)
    requires LeafWrite(cfg, m, m', root, pool, p, idx, desc)
    ensures cfg.Valid()
  {
  }

  lemma NextTable(cfg: Cfg, m: Mem, root: nat, path: seq<nat>, k: nat)
    requires cfg.Valid() && k < |path| && TableOf(cfg, m, root, path[..k]).Node?
    requires Rd(m, TableOf(cfg, m, root, path[..k]).addr + 8 * path[k]) % 4 == 3
    ensures TableOf(cfg, m, root, path[..k + 1])
         == Node(TableAddr(cfg, Rd(m, TableOf(cfg, m, root, path[..k]).addr + 8 * path[k])))
  {
    hide TableAddr, Rd;
    assert path[..k + 1][..k] == path[..k];
  }

  /** Position k of a path reads the written entry exactly when the path is that of the page. */
  lemma LeafFacts(
    cfg: Cfg, m: Mem, m': Mem, root: nat, pool: seq<nat>, p: seq<nat>, idx: nat, desc: U64, path: seq<nat>, k: nat)
    requires LeafWrite(cfg, m, m', root, pool, p, idx, desc) && |path| == cfg.Levels() && k < |path|
    requires TableOf(cfg, m, root, path[..k]).Node? && InTree(cfg, path[..k]) && path[k] < Entries(cfg)
    ensures cfg.Valid()
    ensures var e, a := TableOf(cfg, m, root, p).addr + 8 * idx, TableOf(cfg, m, root, path[..k]).addr + 8 * path[k];
            && (e == a <==> k == cfg.Levels() - 1 && path == p + [idx])
            && (path == p + [idx] && k < cfg.Levels() - 1 ==> Rd(m, a) % 4 == 3)
  {
    hide Aligned, TableAddr, Entries, PageSize, Rd;
    var q := path[..k];
    var t0, t := TableOf(cfg, m, root, q).addr, TableOf(cfg, m, root, p).addr;
    TableAligned(cfg, m, root, q);
    TableAligned(cfg, m, root, p);
    if t0 + 8 * path[k] == t + 8 * idx {
      SameEntry(cfg, t0, path[k], t, idx);
      assert path == q + [path[k]];
    }
    if path == p + [idx] {
      assert q == p[..k];
      if k < |p| {
        OnPath(cfg, m, root, p, k);
      }
    }
  }

  /** Every prefix of a path to a table leads to a table, through a table descriptor. */
  lemma {:induction false} OnPath(cfg: Cfg, m: Mem, root: nat, p: seq<nat>, k: nat)
    requires cfg.Valid() && k <= |p| && TableOf(cfg, m, root, p).Node?
    ensures TableOf(cfg, m, root, p[..k]).Node?
    ensures k < |p| ==> Rd(m, TableOf(cfg, m, root, p[..k]).addr + 8 * p[k]) % 4 == 3
    decreases |p| - k
  {
    hide TableAddr;
    if k < |p| {
      OnPath(cfg, m, root, p, k + 1);
      assert p[..k + 1][..k] == p[..k];
    } else {
      assert p[..k] == p;
    }
  }

  // ---------- descriptors the builder writes ----------

  const ATTR_PROT: U64 := 0x40000000000703

  /** pxd_pa | attr_prot */
  function MakeDesc(pa: U64, attrIndx: U64): U64 {
    Or64(pa, Or64(ATTR_PROT, attrIndx))
  }

  /** The memory-attribute field of a descriptor, in place. */
  predicate AttrIndex(a: nat) { a < 32 && a % 4 == 0 }

  lemma AttrSum(attrIndx: nat)
    requires AttrIndex(attrIndx)
    ensures Or(ATTR_PROT, attrIndx) == ATTR_PROT + attrIndx
  {
    Powers();
    hide Or, Pow2;
    OrSplit(5, ATTR_PROT / 32, 3, 0, attrIndx);
    OrZero(ATTR_PROT / 32);
    OrDisjoint(attrIndx / 4, 2, 3);
  }

  lemma AttrOffField(cfg: Cfg, attrIndx: nat)
    requires cfg.Valid() && AttrIndex(attrIndx)
    ensures (ATTR_PROT + attrIndx) / PageSize(cfg) % Pow2(48 - cfg.ps) == 0 && (ATTR_PROT + attrIndx) % 4 == 3
  {
    hide Pow2;
    Powers();
  }

  lemma PageBits(cfg: Cfg, pa: nat)
    requires cfg.Valid() && Aligned(cfg, pa) && pa < Pow2(48)
    ensures pa % 4 == 0 && TableAddr(cfg, pa) == pa
  {
    hide Pow2;
    Pow2Add(48 - cfg.ps, cfg.ps);
    WholePages(pa, PageSize(cfg), Pow2(48 - cfg.ps));
    Pow2Add(cfg.ps - 2, 2);
    TwoBits();
    FourthOf(pa, PageSize(cfg), Pow2(cfg.ps - 2));
  }

  lemma TwoBits()
    ensures Pow2(2) == 4
  {
    Powers();
  }

  lemma WholePages(pa: nat, p: nat, h: nat)
    requires p > 0 && h > 0 && pa % p == 0 && pa < h * p
    ensures pa / p % h * p == pa
  {
    Divide(pa, p);
    if pa / p >= h {
      TimesMono(h, pa / p, p);
    }
    DivModUnique(pa / p, h, 0, pa / p);
  }

  lemma FourthOf(pa: nat, p: nat, k: nat)
    requires p > 0 && pa % p == 0 && p == k * 4
    ensures pa % 4 == 0
  {
    Divide(pa, p);
    Assoc(pa / p, k, 4);
    DivModUnique(pa, 4, pa / p * k, 0);
  }

  /** The descriptor of an aligned page points to it and has type bits 11. */
  lemma DescFields(cfg: Cfg, pa: U64, attrIndx: U64)
    requires cfg.Valid() && Aligned(cfg, pa) && pa < Pow2(48) && AttrIndex(attrIndx)
    ensures MakeDesc(pa, attrIndx) % 4 == 3 && TableAddr(cfg, MakeDesc(pa, attrIndx)) == pa
  {
    hide Or, Pow2;
    var b := ATTR_PROT + attrIndx;
    AttrSum(attrIndx);
    AttrOffField(cfg, attrIndx);
    PageBits(cfg, pa);
    LowBits(b, pa);
    OrSwap(pa, b);
    OrKeepsField(pa, b, cfg.ps, 48 - cfg.ps);
  }

  lemma LowBits(x: nat, m: nat)
    requires m % 4 == 0
    ensures Or(x, m) % 4 == x % 4
  {
    hide Or, Pow2;
    Powers();
    OrKeepsField(x, m, 0, 2);
  }

  lemma {:induction false} OrSwap(a: nat, b: nat)
    ensures Or(a, b) == Or(b, a)
    decreases a
  {
    if a > 0 {
      OrSwap(a / 2, b / 2);
    }
  }

  // ---------- the attributes of a page (DDI 0487, section D8.3) ----------

  function AttrIndxOf(desc: nat): nat { desc / 4 % 8 }
  function NonSecure(desc: nat): nat { desc / 0x20 % 2 }
  /** AP[2:1]: read-only, and open to the unprivileged side. */
  function AccessPerms(desc: nat): nat { desc / 0x40 % 4 }
  function Shareability(desc: nat): nat { desc / 0x100 % 4 }
  predicate AccessFlag(desc: nat) { desc / 0x400 % 2 == 1 }
  function NotGlobal(desc: nat): nat { desc / 0x800 % 2 }
  function DirtyModifier(desc: nat): nat { desc / 0x8_0000_0000_0000 % 2 }
  function Contiguous(desc: nat): nat { desc / 0x10_0000_0000_0000 % 2 }
  function PrivilegedNoExecute(desc: nat): nat { desc / 0x20_0000_0000_0000 % 2 }
  function UnprivilegedNoExecute(desc: nat): nat { desc / 0x40_0000_0000_0000 % 2 }
  /** The bits for software and for page-based attributes. */
  function TopBits(desc: nat): nat { desc / 0x80_0000_0000_0000 }

  /** A valid page with the access flag set, inner shareable, global, of the given memory type; the kernel may read it,
      the unprivileged side may neither use nor execute it. */
  predicate ValidPage(desc: nat, attrIndx: nat) {
    && desc % 4 == 3 && 4 * AttrIndxOf(desc) == attrIndx && NonSecure(desc) == 0 && Shareability(desc) == 3
    && AccessFlag(desc) && NotGlobal(desc) == 0 && AccessPerms(desc) % 2 == 0
    && Contiguous(desc) == 0 && UnprivilegedNoExecute(desc) == 1 && TopBits(desc) == 0
  }

  /** Such a page that the kernel may also write and execute, and that may be made dirty. */
  predicate KernelPage(desc: nat, attrIndx: nat) {
    ValidPage(desc, attrIndx) && AccessPerms(desc) == 0 && PrivilegedNoExecute(desc) == 0 && DirtyModifier(desc) == 1
  }

  /** The low 12 and the high 16 bits of a descriptor. */
  predicate Ends(desc: nat, low: nat, high: nat) { desc % 0x1000 == low && desc / 0x1_0000_0000_0000 == high }

  lemma EndsDecide(desc: nat, low: nat, high: nat)
    requires Ends(desc, low, high)
    ensures desc % 4 == low % 4 && AttrIndxOf(desc) == AttrIndxOf(low) && NonSecure(desc) == NonSecure(low)
    ensures AccessPerms(desc) == AccessPerms(low) && Shareability(desc) == Shareability(low)
    ensures AccessFlag(desc) == AccessFlag(low) && NotGlobal(desc) == NotGlobal(low)
    ensures DirtyModifier(desc) == high / 8 % 2 && Contiguous(desc) == high / 16 % 2
    ensures PrivilegedNoExecute(desc) == high / 32 % 2 && UnprivilegedNoExecute(desc) == high / 64 % 2 && TopBits(desc) == high / 128
  {
    LowDecides(desc, low);
    HighDecides(desc, high);
  }

  lemma LowDecides(desc: nat, low: nat)
    requires desc % 0x1000 == low
    ensures desc % 4 == low % 4 && AttrIndxOf(desc) == AttrIndxOf(low) && NonSecure(desc) == NonSecure(low)
    ensures AccessPerms(desc) == AccessPerms(low) && Shareability(desc) == Shareability(low)
    ensures AccessFlag(desc) == AccessFlag(low) && NotGlobal(desc) == NotGlobal(low)
  {
    LowField(desc, 1, 4, 0x400);
    LowField(desc, 4, 8, 0x80);
    LowField(desc, 0x20, 2, 0x40);
    LowField(desc, 0x40, 4, 0x10);
    LowField(desc, 0x100, 4, 4);
    LowField(desc, 0x400, 2, 2);
    LowField(desc, 0x800, 2, 1);
  }

  lemma LowField(x: nat, p: nat, n: nat, k: nat)
    requires p > 0 && n > 0 && p * (n * k) == 0x1000
    ensures x / p % n == x % 0x1000 / p % n
  {
    Divide(x, 0x1000);
    var q, y := x / 0x1000, x % 0x1000;
    var u, v := y / p, y % p;
    Divide(y, p);
    Regroup(q, p, n * k, u, v);
    DivModUnique(x, p, q * (n * k) + u, v);
    ModTail(q, n, k, u);
  }

  lemma Swap(a: nat, b: nat)
    ensures a * b == b * a
  {
  }

  lemma ModTail(q: nat, n: nat, k: nat, u: nat)
    requires n > 0
    ensures (q * (n * k) + u) % n == u % n
  {
    Divide(u, n);
    Swap(n, k);
    Assoc(q, k, n);
    Distribute(q * k, u / n, n);
    DivModUnique(q * (n * k) + u, n, q * k + u / n, u % n);
  }

  lemma HighDecides(desc: nat, high: nat)
    requires desc / 0x1_0000_0000_0000 == high
    ensures DirtyModifier(desc) == high / 8 % 2 && Contiguous(desc) == high / 16 % 2
    ensures PrivilegedNoExecute(desc) == high / 32 % 2 && UnprivilegedNoExecute(desc) == high / 64 % 2 && TopBits(desc) == high / 128
  {
    DivTwice(desc, 0x1_0000_0000_0000, 8);
    DivTwice(desc, 0x1_0000_0000_0000, 16);
    DivTwice(desc, 0x1_0000_0000_0000, 32);
    DivTwice(desc, 0x1_0000_0000_0000, 64);
    DivTwice(desc, 0x1_0000_0000_0000, 128);
  }

  /** What the builder writes for a page, before the mapping loop opens it. */
  lemma NewEnds(cfg: Cfg, pa: U64, attrIndx: U64)
    requires cfg.Valid() && Aligned(cfg, pa) && pa < Pow2(48) && AttrIndex(attrIndx)
    ensures Ends(MakeDesc(pa, attrIndx), 0x703 + attrIndx, 0x40)
  {
    hide Or, Pow2;
    AttrSum(attrIndx);
    PageLow(cfg, pa);
    EndSizes();
    var b := 0x40_0000_0000_0703 + attrIndx;
    OrSwap(pa, b);
    OrKeepsField(b, pa, 0, 12);
    OrKeepsField(b, pa, 48, 16);
    OrBound(b, pa, 64);
    AttrEnds(attrIndx);
    var d := Or(b, pa);
    assert d / Pow2(0) == d && b / Pow2(0) == b && pa / Pow2(0) == pa;
  }

  lemma EndSizes()
    ensures Pow2(0) == 1 && Pow2(12) == 0x1000 && Pow2(16) == 0x1_0000 && Pow2(48) == 0x1_0000_0000_0000 && Pow2(64) == TWO64
  {
    Powers();
  }

  lemma AttrEnds(attrIndx: nat)
    requires AttrIndex(attrIndx)
    ensures Ends(0x40_0000_0000_0703 + attrIndx, 0x703 + attrIndx, 0x40)
  {
  }

  lemma PageLow(cfg: Cfg, pa: nat)
    requires cfg.Valid() && Aligned(cfg, pa)
    ensures pa % 0x1000 == 0
  {
    hide Pow2;
    Pow2Add(12, cfg.ps - 12);
    EndSizes();
    Divide(pa, PageSize(cfg));
    var q, r := pa / PageSize(cfg), Pow2(cfg.ps - 12);
    assert q * (0x1000 * r) == q * r * 0x1000;
    DivModUnique(pa, 0x1000, q * r, 0);
  }

  /** A page as the builder writes it may be executed by the kernel, and is of the given memory type. */
  lemma NewPage(cfg: Cfg, pa: U64, attrIndx: U64)
    requires cfg.Valid() && Aligned(cfg, pa) && pa < Pow2(48) && AttrIndex(attrIndx)
    ensures ValidPage(MakeDesc(pa, attrIndx), attrIndx) && AccessPerms(MakeDesc(pa, attrIndx)) == 0
    ensures PrivilegedNoExecute(MakeDesc(pa, attrIndx)) == 0 && DirtyModifier(MakeDesc(pa, attrIndx)) == 0
  {
    hide MakeDesc, Aligned, Ends, Pow2, AttrIndxOf, NonSecure, AccessPerms, Shareability, AccessFlag, NotGlobal;
    NewEnds(cfg, pa, attrIndx);
    LowValues(attrIndx);
    EndsDecide(MakeDesc(pa, attrIndx), 0x703 + attrIndx, 0x40);
  }

  lemma LowValues(attrIndx: nat)
    requires AttrIndex(attrIndx)
    ensures var low := 0x703 + attrIndx;
      && low % 4 == 3 && 4 * AttrIndxOf(low) == attrIndx && NonSecure(low) == 0 && AccessPerms(low) == 0
      && Shareability(low) == 3 && AccessFlag(low) && NotGlobal(low) == 0
  {
  }

  lemma OpenEnds(desc: U64, attrIndx: nat, high: nat)
    requires Ends(desc, 0x703 + attrIndx, high) && AttrIndex(attrIndx) && high == 0x40
    ensures Ends(Writable(desc), 0x703 + attrIndx, 0x48)
  {
    hide And, Or, Pow2;
    EndSizes();
    var x := Or(desc, 0x8000000000000);
    OrKeepsField(desc, 0x8000000000000, 0, 12);
    OrShift(desc, 0x8000000000000, 48, 0x1_0000_0000_0000, high, desc % 0x1_0000_0000_0000, 8, 0);
    HighOr();
    AndShift(x, 0xFFDFFFFFFFFFFF7F, 48, 0x1_0000_0000_0000, 0x48, x % 0x1_0000_0000_0000, 0xFFDF, 0xFFFFFFFFFF7F);
    AndShift(x, 0xFFDFFFFFFFFFFF7F, 12, 0x1000, x / 0x1000, x % 0x1000, 0xFFDFFFFFFFFFF, 0xF7F);
    LowAnd(attrIndx);
    assert x / Pow2(0) == x && desc / Pow2(0) == desc;
  }

  lemma HighOr()
    ensures Or(0x40, 8) == 0x48 && And(0x48, 0xFFDF) == 0x48
  {
    hide And, Or, Pow2;
    Powers();
    Pow2Add(8, 2);
    OrDisjoint(4, 4, 8);
    AndTwoFields(0x48, 6, 10, 0, 5);
  }

  lemma LowAnd(attrIndx: nat)
    requires AttrIndex(attrIndx)
    ensures And(0x703 + attrIndx, 0xF7F) == 0x703 + attrIndx
  {
    hide Pow2;
    Powers();
    AndTwoFields(0x703 + attrIndx, 8, 4, 0, 7);
  }

  /** The mapping loop makes a page of the builder's kernel memory. */
  lemma OpenedPage(cfg: Cfg, pa: U64, attrIndx: U64)
    requires cfg.Valid() && Aligned(cfg, pa) && pa < Pow2(48) && AttrIndex(attrIndx)
    ensures KernelPage(Writable(MakeDesc(pa, attrIndx)), attrIndx)
  {
    hide MakeDesc, Writable, Aligned, Ends, Pow2, AttrIndxOf, NonSecure, AccessPerms, Shareability, AccessFlag, NotGlobal;
    NewEnds(cfg, pa, attrIndx);
    LowValues(attrIndx);
    OpenEnds(MakeDesc(pa, attrIndx), attrIndx, 0x40);
    EndsDecide(Writable(MakeDesc(pa, attrIndx)), 0x703 + attrIndx, 0x48);
  }

  /** What the mapping loop does to a leaf: set bit 51, clear bits 53 and 7. */
  function Writable(desc: U64): U64 {
    And64(Or64(desc, 0x8000000000000), 0xFFDFFFFFFFFFFF7F)
  }

  lemma MaskOffField(cfg: Cfg)
    requires cfg.Valid()
    ensures 0x8000000000000 / PageSize(cfg) % Pow2(48 - cfg.ps) == 0
    ensures 0xFFDFFFFFFFFFFF7F / PageSize(cfg) % Pow2(48 - cfg.ps) == Pow2(48 - cfg.ps) - 1
  {
    hide Pow2;
    Powers();
  }

  /** The protection change keeps the type bits and the address. */
  lemma WritableKeeps(cfg: Cfg, desc: U64)
    requires cfg.Valid()
    ensures Writable(desc) % 4 == desc % 4 && TableAddr(cfg, Writable(desc)) == TableAddr(cfg, desc)
  {
    hide And, Or, Pow2;
    var set51 := Or(desc, 0x8000000000000);
    MaskOffField(cfg);
    OrKeepsField(desc, 0x8000000000000, cfg.ps, 48 - cfg.ps);
    AndKeepsField(set51, 0xFFDFFFFFFFFFFF7F, cfg.ps, 48 - cfg.ps);
    LowBits(desc, 0x8000000000000);
    LowMask(set51);
  }

  lemma LowMask(x: nat)
    ensures And(x, 0xFFDFFFFFFFFFFF7F) % 4 == x % 4
  {
    hide And, Pow2;
    Powers();
    AndKeepsField(x, 0xFFDFFFFFFFFFFF7F, 0, 2);
  }

  // ---------- the builder ----------

  /** Every walk in `m` ends the same way in `m'`, at an unchanged leaf. */
  ghost predicate KeepsWalks(cfg: Cfg, m: Mem, m': Mem, root: nat)
    requires cfg.Valid()
  {
    forall va: nat :: var w := Walk(cfg, m, root, va, cfg.Start());
      Walk(cfg, m', root, va, cfg.Start()) == w && (w.Leaf? ==> Rd(m', w.entry) == Rd(m, w.entry))
  }

  /** The same for every address outside one page. */
  ghost predicate KeepsOtherWalks(cfg: Cfg, m: Mem, m': Mem, root: nat, page: seq<nat>)
    requires cfg.Valid()
  {
    forall va: nat :: Path(cfg, va) != page ==>
      var w := Walk(cfg, m, root, va, cfg.Start());
      Walk(cfg, m', root, va, cfg.Start()) == w && (w.Leaf? ==> Rd(m', w.entry) == Rd(m, w.entry))
  }

  lemma LinkKeepsAllWalks(cfg: Cfg, m: Mem, m': Mem, root: nat, pool: seq<nat>, p: seq<nat>, idx: nat, desc: nat)
    requires LinkStep(cfg, m, m', root, pool, p, idx, desc)
    ensures cfg.Valid() && KeepsWalks(cfg, m, m', root)
  {
    hide Walk, LinkStep, Path, TableOf, Rd;
    LinkValid(cfg, m, m', root, pool, p, idx, desc);
    forall va: nat
      ensures var w := Walk(cfg, m, root, va, cfg.Start());
              Walk(cfg, m', root, va, cfg.Start()) == w && (w.Leaf? ==> Rd(m', w.entry) == Rd(m, w.entry))
    {
      PathStart(cfg, m, root, va);
      LinkKeepsWalks(cfg, m, m', root, pool, p, idx, desc, va, 0);
    }
  }

  lemma LeafKeepsOtherWalks(cfg: Cfg, m: Mem, m': Mem, root: nat, pool: seq<nat>, p: seq<nat>, idx: nat, desc: U64)
    requires LeafWrite(cfg, m, m', root, pool, p, idx, desc)
    ensures cfg.Valid() && KeepsOtherWalks(cfg, m, m', root, p + [idx])
    ensures desc % 4 == 3 ==> forall va: nat :: Path(cfg, va) == p + [idx] ==>
      Walk(cfg, m', root, va, cfg.Start()) == Leaf(TableOf(cfg, m, root, p).addr + 8 * idx, 3)
  {
    hide Walk, LeafWrite, Path, TableOf, Rd;
    LeafWriteShape(cfg, m, m', root, pool, p, idx, desc);
    forall va: nat
      ensures var w := Walk(cfg, m, root, va, cfg.Start());
              var w' := Walk(cfg, m', root, va, cfg.Start());
              if Path(cfg, va) == p + [idx] then
                desc % 4 == 3 ==> w' == Leaf(TableOf(cfg, m, root, p).addr + 8 * idx, 3)
              else w' == w && (w.Leaf? ==> Rd(m', w.entry) == Rd(m, w.entry))
    {
      PathStart(cfg, m, root, va);
      RdUpdate(m, m', TableOf(cfg, m, root, p).addr + 8 * idx, desc);
      WalkAfterLeaf(cfg, m, m', root, pool, p, idx, desc, va, 0);
    }
  }

  lemma RdUpdate(m: Mem, m': Mem, e: nat, desc: U64)
    requires m' == m[e := desc]
    ensures Rd(m', e) == desc && forall a: nat :: a != e ==> Rd(m', a) == Rd(m, a)
  {
  }

  lemma LeafWriteShape(cfg: Cfg, m: Mem, m': Mem, root: nat, pool: seq<nat>, p: seq<nat>, idx: nat, desc: U64)
    requires LeafWrite(cfg, m, m', root, pool, p, idx, desc)
    ensures cfg.Valid() && TableOf(cfg, m, root, p).Node?
    ensures m' == m[TableOf(cfg, m, root, p).addr + 8 * idx := desc]
  {
  }

  class Builder {
    const cfg: Cfg
    /** The table TTBR1_EL1 points to. */
    const root: nat
    var mem: Mem
    /** The pages the physical allocator hands out next. */
    var pool: seq<nat>

    ghost predicate Valid()
      reads this
    {
      Tree(cfg, mem, root, pool) && root < Pow2(48)
    }

    constructor (cfg: Cfg, root: nat, mem: Mem, pool: seq<nat>)
      requires Tree(cfg, mem, root, pool) && root < Pow2(48)
      ensures Valid() && this.cfg == cfg && this.root == root && this.mem == mem && this.pool == pool
    {
      this.cfg, this.root, this.mem, this.pool := cfg, root, mem, pool;
    }

    method PageAlloc() returns (pa: nat)
      requires pool != []
      modifies this`pool
      ensures pa == old(pool)[0] && pool == old(pool)[1..]
    {
      pa := pool[0];
      pool := pool[1..];
    }

    /** The clearing loop over a fresh page. */
    method ClearPage(page: nat)
      requires cfg.Valid()
      modifies this`mem
      ensures forall a: nat :: Rd(mem, a) == if InEntries(a, page, Entries(cfg)) then 0 else Rd(old(mem), a)
    {
      hide Entries, InEntries, Rd;
      ghost var m0 := mem;
      NoEntries(page);
      for j := 0 to Entries(cfg)
        invariant forall a: nat :: Rd(mem, a) == if InEntries(a, page, j) then 0 else Rd(m0, a)
      {
        ghost var m1 := mem;
        mem := mem[page + 8 * j := 0];
        RdUpdate(m1, mem, page + 8 * j, 0);
        forall a: nat
          ensures InEntries(a, page, j + 1) <==> InEntries(a, page, j) || a == page + 8 * j
        {
          NextEntry(a, page, j);
        }
      }
    }

    static lemma NoEntries(page: nat)
      ensures forall a: nat :: !InEntries(a, page, 0)
    {
    }

    /** pgtable_entry */
    method PgtableEntry(va: nat) returns (leaf: Leaf)
      requires cfg.Valid()
      ensures leaf == WalkerEntry(cfg, mem, root, va, cfg.Start())
    {
      hide Pow2, TableAddr, BlockAddr;
      var t, lv, blockLv := root, cfg.Start(), 0;
      while true
        invariant cfg.Start() <= lv < 4 && blockLv == 0
        invariant WalkerEntry(cfg, mem, t, va, lv) == WalkerEntry(cfg, mem, root, va, cfg.Start())
        decreases 4 - lv
      {
        var entry := EntryAt(cfg, t, va, lv);
        var desc := Rd(mem, entry);
        if desc % 4 == 3 {
          t := TableAddr(cfg, desc);
        } else if desc % 4 == 1 {
          t := BlockAddr(cfg, desc, lv);
          blockLv := lv;
        } else {
          return NoLeaf;
        }
        if blockLv != 0 || lv == 3 {
          return Leaf(entry, lv);
        }
        lv := lv + 1;
      }
    }

    /** Link a fresh page into the invalid entry `idx` of the table at `p`. */
    method LinkFresh(ghost p: seq<nat>, table: nat, idx: nat, attrIndx: U64) returns (page: nat)
      requires Valid() && pool != [] && InTree(cfg, p) && InTree(cfg, p + [idx]) && AttrIndex(attrIndx)
      requires TableOf(cfg, mem, root, p) == Node(table)
      requires Rd(mem, table + 8 * idx) % 4 != 1 && Rd(mem, table + 8 * idx) % 4 != 3
      modifies this`mem, this`pool
      ensures Valid() && pool == old(pool)[1..] && KeepsWalks(cfg, old(mem), mem, root)
      ensures TableOf(cfg, mem, root, p + [idx]) == Node(page)
      ensures var desc := Rd(mem, table + 8 * idx);
        desc % 4 == 3 && TableAddr(cfg, desc) == page && TopBits(desc) == 0
    {
      hide TableOf, Walk, MakeDesc, TableAddr, Entries, InTree, Tree, KeepsWalks, PageSize, Aligned, AttrIndex, InEntries, Rd;
      TreeValid(cfg, mem, root, pool);
      ghost var m0, pool0 := mem, pool;
      page := PageAlloc();
      FreshPage(cfg, m0, root, pool0, page);
      var desc := MakeDesc(page, attrIndx);
      mem := mem[table + 8 * idx := desc];
      ghost var m1 := mem;
      ClearPage(page);
      LinkedUp(cfg, m0, m1, mem, root, pool0, p, idx, attrIndx);
      NewPage(cfg, page, attrIndx);
      DescFields(cfg, page, attrIndx);
    }

    /** get_or_create_pte */
    method GetOrCreatePte(va: nat, pa: U64, attrIndx: U64) returns (entry: nat)
      requires Valid() && |pool| >= cfg.Levels() - 1 && AttrIndex(attrIndx)
      requires Aligned(cfg, pa) && pa < Pow2(48)
      modifies this`mem, this`pool
      ensures Valid() && |pool| >= |old(pool)| - (cfg.Levels() - 1)
      ensures var w := Walk(cfg, old(mem), root, va, cfg.Start());
        && Walk(cfg, mem, root, va, cfg.Start()) == (if w.Leaf? then w else Leaf(entry, 3))
        && (w.Leaf? ==> entry == w.entry && KeepsWalks(cfg, old(mem), mem, root))
        && (w.NoLeaf? ==> Rd(mem, entry) == MakeDesc(pa, attrIndx)
                          && ValidPage(Rd(mem, entry), attrIndx) && AccessPerms(Rd(mem, entry)) == 0
                          && TableAddr(cfg, Rd(mem, entry)) == pa
                          && KeepsOtherWalks(cfg, old(mem), mem, root, Path(cfg, va)))
    {
      hide Pow2, TableAddr, Tree, TableOf, Walk, KeepsWalks, MakeDesc, Index, Entries, Path, AttrIndex, ValidPage, AccessPerms;
      TreeValid(cfg, mem, root, pool);
      NewPage(cfg, pa, attrIndx);
      DescFields(cfg, pa, attrIndx);
      ghost var m0, path := mem, Path(cfg, va);
      var t, lv, done := root, cfg.Start(), false;
      entry := root;
      KeepsRefl(cfg, mem, root);
      PathStart(cfg, mem, root, va);
      while lv < 4 && !done
        invariant cfg.Start() <= lv <= 4 && Valid() && (lv == 4 ==> done)
        invariant |pool| >= |old(pool)| - (if lv < 4 then lv - cfg.Start() else cfg.Levels() - 1)
        invariant !done ==> KeepsWalks(cfg, m0, mem, root)
                            && TableOf(cfg, mem, root, path[..lv - cfg.Start()]) == Node(t)
        invariant done ==> Created(cfg, m0, mem, root, va, entry, pa, attrIndx)
        decreases 4 - lv, !done
      {
        ghost var k := lv - cfg.Start();
        PathInTree(cfg, va, k);
        WalkFrom(cfg, mem, root, va, k);
        WalkDef(cfg, mem, t, va, lv);
        var idx := Index(cfg, va, lv);
        entry := t + 8 * idx;
        var desc := Rd(mem, entry);
        if desc % 4 == 3 && lv < 3 {
          t := TableAddr(cfg, desc);
          NextTable(cfg, mem, root, path, k);
        } else if desc % 4 == 3 || desc % 4 == 1 {
          done := true;
          AlreadyThere(cfg, m0, mem, root, va, entry, lv, pa, attrIndx);
        } else if lv != 3 {
          PathInTree(cfg, va, k + 1);
          assert path[..k + 1] == path[..k] + [idx];
          ghost var m1 := mem;
          t := LinkFresh(path[..k], t, idx, attrIndx);
          KeepsTrans(cfg, m0, m1, mem, root);
        } else {
          ghost var m1 := mem;
          mem := mem[entry := MakeDesc(pa, attrIndx)];
          done := true;
          LeafCreated(cfg, m0, m1, mem, root, pool, va, t, entry, pa, attrIndx);
        }
        lv := lv + 1;
      }
    }

    /** The mapping loop of _paging_init: each page gets an entry, which is then made writable. */
    method MapRegion(startVa: nat, startPa: nat, allSize: nat, attrIndx: U64)
      requires Valid() && AttrIndex(attrIndx) && Aligned(cfg, startVa) && Aligned(cfg, startPa)
      requires var pages := Pages(cfg, allSize);
        && Unmapped(cfg, mem, root, startVa, 0, pages) && |pool| >= pages * (cfg.Levels() - 1)
        && forall j: nat :: j < pages ==> KernelVa(cfg, PageAt(cfg, startVa, j)) && PageAt(cfg, startPa, j) < Pow2(48)
      modifies this`mem, this`pool
      ensures Valid()
      ensures forall va: nat :: startVa <= va < startVa + allSize ==>
        Translate(cfg, mem, root, va) == startPa + (va - startVa)
      ensures forall va: nat :: Translate(cfg, old(mem), root, va) != -1 ==>
        Translate(cfg, mem, root, va) == Translate(cfg, old(mem), root, va)
      ensures AllMapped(cfg, mem, root, startVa, startPa, Pages(cfg, allSize), attrIndx)
      ensures KeepsOutside(cfg, old(mem), mem, root, startVa, Pages(cfg, allSize))
    {
      hide Tree, Walk, MakeDesc, Rd, Aligned, Pow2, AttrIndex, Writable, KernelVa, PageAt, KeepsWalks, KeepsOtherWalks,
        Path, Translate, Unmapped, AllMapped, KeepsLeaves, KeepsOutside, PageSize, Mapped, ValidPage, AccessPerms, TableAddr;
      TreeValid(cfg, mem, root, pool);
      ghost var m0, pages, n := mem, Pages(cfg, allSize), 0;
      var pageSize := PageSize(cfg);
      MapStart(cfg, mem, root, startVa, startPa, attrIndx);
      OutsideStart(cfg, mem, root, startVa);
      PagesMeaning(cfg, allSize, 0);
      var off := 0;
      while off < allSize
        invariant Valid() && off == n * pageSize && n <= pages && (off < allSize <==> n < pages)
        invariant |pool| >= (pages - n) * (cfg.Levels() - 1)
        invariant Unmapped(cfg, mem, root, startVa, n, pages) && AllMapped(cfg, mem, root, startVa, startPa, n, attrIndx)
        invariant KeepsLeaves(cfg, m0, mem, root) && KeepsOutside(cfg, m0, mem, root, startVa, n)
        decreases allSize - off
      {
        ghost var m1 := mem;
        PageAtMeans(cfg, startVa, n, off);
        PageAtMeans(cfg, startPa, n, off);
        PageAligned(cfg, startPa, n);
        Pow48Small(startPa + off);
        StillUnmapped(cfg, mem, root, startVa, n, pages);
        PoolLeft(pages, n, cfg.Levels() - 1);
        var entry := GetOrCreatePte(startVa + off, startPa + off, attrIndx);
        ghost var m2 := mem;
        mem := mem[entry := Writable(Rd(mem, entry))];
        PageMapped(cfg, m1, m2, mem, root, pool, startVa + off, entry, startPa + off, attrIndx);
        MapStep(cfg, m0, m1, mem, root, startVa, startPa, n, pages, attrIndx);
        OutsideStep(cfg, m0, m1, mem, root, startVa, n);
        PagesMeaning(cfg, allSize, n + 1);
        off := off + pageSize;
        n := n + 1;
      }
      RegionTranslates(cfg, mem, root, startVa, startPa, allSize, attrIndx);
      OldTranslationsKept(cfg, m0, mem, root);
    }
  }

  /** The number of iterations of the mapping loop. */
  function Pages(cfg: Cfg, size: nat): nat { (size + PageSize(cfg) - 1) / PageSize(cfg) }

  lemma PagesMeaning(cfg: Cfg, size: nat, n: nat)
    requires n <= Pages(cfg, size)
    ensures n * PageSize(cfg) < size <==> n < Pages(cfg, size)
  {
    hide Pow2, PageSize;
    var p, c := PageSize(cfg), Pages(cfg, size);
    Divide(size + p - 1, p);
    Distribute(c, -1, p);
    if n < c {
      TimesMono(n, c - 1, p);
    }
  }

  /** Walks on no page of the region end as before, at unchanged leaves. */
  ghost predicate KeepsOutside(cfg: Cfg, m: Mem, m': Mem, root: nat, startVa: nat, pages: nat)
    requires cfg.Valid()
  {
    forall va: nat :: (forall j: nat :: j < pages ==> Path(cfg, va) != Path(cfg, PageAt(cfg, startVa, j))) ==>
      var w := Walk(cfg, m, root, va, cfg.Start());
      Walk(cfg, m', root, va, cfg.Start()) == w && (w.Leaf? ==> Rd(m', w.entry) == Rd(m, w.entry))
  }

  lemma OutsideStart(cfg: Cfg, m: Mem, root: nat, startVa: nat)
    requires cfg.Valid()
    ensures KeepsOutside(cfg, m, m, root, startVa, 0)
  {
    hide Walk;
  }

  lemma OutsideStep(cfg: Cfg, m0: Mem, m: Mem, m': Mem, root: nat, startVa: nat, n: nat)
    requires cfg.Valid() && KeepsOutside(cfg, m0, m, root, startVa, n)
    requires KeepsOtherWalks(cfg, m, m', root, Path(cfg, PageAt(cfg, startVa, n)))
    ensures KeepsOutside(cfg, m0, m', root, startVa, n + 1)
  {
    hide Walk, Rd, Path, PageAt;
  }

  lemma MapStart(cfg: Cfg, m: Mem, root: nat, startVa: nat, startPa: nat, attrIndx: nat)
    requires cfg.Valid()
    ensures AllMapped(cfg, m, root, startVa, startPa, 0, attrIndx) && KeepsLeaves(cfg, m, m, root)
  {
    hide Walk;
  }

  lemma PageAtMeans(cfg: Cfg, base: nat, n: nat, off: nat)
    requires off == n * PageSize(cfg)
    ensures PageAt(cfg, base, n) == base + off
  {
    hide Pow2;
  }

  lemma Pow48Small(a: nat)
    requires a < Pow2(48)
    ensures a < TWO64
  {
    Powers();
  }

  lemma StillUnmapped(cfg: Cfg, m: Mem, root: nat, startVa: nat, n: nat, pages: nat)
    requires cfg.Valid() && n < pages && Unmapped(cfg, m, root, startVa, n, pages)
    ensures Walk(cfg, m, root, PageAt(cfg, startVa, n), cfg.Start()) == NoLeaf
  {
    hide Walk, PageAt;
  }

  lemma PoolLeft(pages: nat, n: nat, per: nat)
    requires n < pages
    ensures (pages - n) * per == (pages - n - 1) * per + per && (pages - n) * per >= per
  {
    Distribute(pages - n - 1, 1, per);
    Nonnegative(pages - n - 1, per);
  }

  lemma RegionTranslates(cfg: Cfg, m: Mem, root: nat, startVa: nat, startPa: nat, size: nat, attrIndx: nat)
    requires cfg.Valid() && Aligned(cfg, startVa) && AllMapped(cfg, m, root, startVa, startPa, Pages(cfg, size), attrIndx)
    ensures forall va: nat :: startVa <= va < startVa + size ==>
      Translate(cfg, m, root, va) == startPa + (va - startVa)
  {
    hide Walk, Pow2, Aligned, Mapped, Translate, Pages, PageSize;
    forall va: nat | startVa <= va < startVa + size
      ensures Translate(cfg, m, root, va) == startPa + (va - startVa)
    {
      var off := va - startVa;
      var j, d := off / PageSize(cfg), off % PageSize(cfg);
      Divide(off, PageSize(cfg));
      OffsetPage(cfg, size, off);
      PageAligned(cfg, startVa, j);
      MappedTranslates(cfg, m, root, PageAt(cfg, startVa, j), PageAt(cfg, startPa, j), d, attrIndx);
    }
  }

  lemma OffsetPage(cfg: Cfg, size: nat, off: nat)
    requires off < size
    ensures off / PageSize(cfg) < Pages(cfg, size)
  {
    hide Pow2, PageSize;
    var p, j, c := PageSize(cfg), off / PageSize(cfg), Pages(cfg, size);
    Divide(off, p);
    Divide(size + p - 1, p);
    if j >= c {
      TimesMono(c, j, p);
    }
  }

  lemma OldTranslationsKept(cfg: Cfg, m: Mem, m': Mem, root: nat)
    requires cfg.Valid() && KeepsLeaves(cfg, m, m', root)
    ensures forall va: nat :: Translate(cfg, m, root, va) != -1 ==>
      Translate(cfg, m', root, va) == Translate(cfg, m, root, va)
  {
    hide Walk, Rd, TableAddr, BlockAddr, PageSize, Pow2, BlockBits;
  }

  /** The outcome of get_or_create_pte: the leaf was there, or it is the new one. */
  ghost predicate Created(cfg: Cfg, m: Mem, m': Mem, root: nat, va: nat, entry: nat, pa: U64, attrIndx: U64)
    requires cfg.Valid()
  {
    var w := Walk(cfg, m, root, va, cfg.Start());
    && Walk(cfg, m', root, va, cfg.Start()) == (if w.Leaf? then w else Leaf(entry, 3))
    && (w.Leaf? ==> entry == w.entry && KeepsWalks(cfg, m, m', root))
    && (w.NoLeaf? ==> Rd(m', entry) == MakeDesc(pa, attrIndx) && KeepsOtherWalks(cfg, m, m', root, Path(cfg, va)))
  }

  lemma KeepsRefl(cfg: Cfg, m: Mem, root: nat)
    requires cfg.Valid()
    ensures KeepsWalks(cfg, m, m, root)
  {
    hide Walk;
  }

  lemma KeepsTrans(cfg: Cfg, m: Mem, m': Mem, m'': Mem, root: nat)
    requires cfg.Valid() && KeepsWalks(cfg, m, m', root) && KeepsWalks(cfg, m', m'', root)
    ensures KeepsWalks(cfg, m, m'', root)
  {
    hide Walk, Rd;
  }

  lemma PathStart(cfg: Cfg, m: Mem, root: nat, va: nat)
    requires cfg.Valid()
    ensures TableOf(cfg, m, root, Path(cfg, va)[..0]) == Node(root)
  {
    hide Path;
  }

  lemma FreshPage(cfg: Cfg, m: Mem, root: nat, pool: seq<nat>, page: nat)
    requires Tree(cfg, m, root, pool) && pool != [] && page == pool[0]
    ensures Aligned(cfg, page) && page < Pow2(48) < TWO64
  {
    hide Aligned;
    Powers();
  }

  /** Writing the entry and clearing the page links it. */
  lemma LinkedUp(cfg: Cfg, m0: Mem, m1: Mem, m2: Mem, root: nat, pool: seq<nat>, p: seq<nat>, idx: nat, attrIndx: U64)
    requires cfg.Valid() && Tree(cfg, m0, root, pool) && pool != [] && InTree(cfg, p) && InTree(cfg, p + [idx]) && AttrIndex(attrIndx)
    requires TableOf(cfg, m0, root, p).Node? && pool[0] < TWO64
    requires var e := TableOf(cfg, m0, root, p).addr + 8 * idx;
      Rd(m0, e) % 4 != 1 && Rd(m0, e) % 4 != 3 && m1 == m0[e := MakeDesc(pool[0], attrIndx)]
    requires cfg.Valid() && forall a: nat :: Rd(m2, a) == if InEntries(a, pool[0], Entries(cfg)) then 0 else Rd(m1, a)
    ensures Tree(cfg, m2, root, pool[1..]) && KeepsWalks(cfg, m0, m2, root)
    ensures TableOf(cfg, m2, root, p + [idx]) == Node(pool[0])
    ensures Rd(m2, TableOf(cfg, m0, root, p).addr + 8 * idx) == MakeDesc(pool[0], attrIndx)
  {
    hide TableOf, Walk, MakeDesc, TableAddr, Entries, InTree, Tree, KeepsWalks, PageSize, Aligned, AttrIndex, InEntries, Rd;
    FreshPage(cfg, m0, root, pool, pool[0]);
    DescFields(cfg, pool[0], attrIndx);
    var e, desc := TableOf(cfg, m0, root, p).addr + 8 * idx, MakeDesc(pool[0], attrIndx);
    RdUpdate(m0, m1, e, desc);
    OffFresh(cfg, m0, root, pool, p, idx);
    assert LinkStep(cfg, m0, m2, root, pool, p, idx, desc);
    hide LinkStep;
    LinkKeepsTree(cfg, m0, m2, root, pool, p, idx, desc);
    LinkKeepsAllWalks(cfg, m0, m2, root, pool, p, idx, desc);
  }

  lemma OffFresh(cfg: Cfg, m: Mem, root: nat, pool: seq<nat>, p: seq<nat>, idx: nat)
    requires Tree(cfg, m, root, pool) && pool != [] && InTree(cfg, p) && InTree(cfg, p + [idx])
    requires TableOf(cfg, m, root, p).Node?
    ensures !InEntries(TableOf(cfg, m, root, p).addr + 8 * idx, pool[0], Entries(cfg))
  {
    hide Aligned, PageSize, Entries;
    LastIndex(cfg, p, idx);
    TableAligned(cfg, m, root, p);
    OffPage(cfg, TableOf(cfg, m, root, p).addr, idx, pool[0]);
  }

  lemma AlreadyThere(cfg: Cfg, m: Mem, m': Mem, root: nat, va: nat, entry: nat, lv: nat, pa: U64, attrIndx: U64)
    requires cfg.Valid() && KeepsWalks(cfg, m, m', root) && Walk(cfg, m', root, va, cfg.Start()) == Leaf(entry, lv)
    ensures Created(cfg, m, m', root, va, entry, pa, attrIndx)
  {
    hide Walk;
  }

  lemma CreatedBy(
    cfg: Cfg, m0: Mem, m: Mem, m': Mem, root: nat, va: nat, entry: nat, pa: U64, attrIndx: U64)
    requires cfg.Valid() && KeepsWalks(cfg, m0, m, root) && KeepsOtherWalks(cfg, m, m', root, Path(cfg, va))
    requires Walk(cfg, m, root, va, cfg.Start()) == NoLeaf
    requires Walk(cfg, m', root, va, cfg.Start()) == Leaf(entry, 3) && Rd(m', entry) == MakeDesc(pa, attrIndx)
    ensures Created(cfg, m0, m', root, va, entry, pa, attrIndx)
  {
    hide Walk, MakeDesc, Path, Rd;
  }

  lemma LeafCreated(
    cfg: Cfg, m0: Mem, m: Mem, m': Mem, root: nat, pool: seq<nat>, va: nat, t: nat, entry: nat, pa: U64, attrIndx: U64)
    requires cfg.Valid() && Tree(cfg, m, root, pool) && KeepsWalks(cfg, m0, m, root) && AttrIndex(attrIndx)
    requires Aligned(cfg, pa) && pa < Pow2(48)
    requires TableOf(cfg, m, root, Path(cfg, va)[..cfg.Levels() - 1]) == Node(t)
    requires entry == t + 8 * Index(cfg, va, 3) && m' == m[entry := MakeDesc(pa, attrIndx)]
    requires Walk(cfg, m, root, va, cfg.Start()) == NoLeaf
    ensures Tree(cfg, m', root, pool) && Created(cfg, m0, m', root, va, entry, pa, attrIndx)
  {
    hide Tree, Walk, MakeDesc, Path, Index, TableOf, Entries, Rd, KeepsWalks, KeepsOtherWalks, Aligned, InTree, Pow2,
      AttrIndex, Created;
    TreeValid(cfg, m, root, pool);
    var path, k := Path(cfg, va), cfg.Levels() - 1;
    var p, idx, desc := path[..k], path[k], MakeDesc(pa, attrIndx);
    PathInTree(cfg, va, k);
    PathIndex(cfg, va, k);
    DescFields(cfg, pa, attrIndx);
    RdUpdate(m, m', entry, desc);
    assert path == p + [idx];
    assert LeafWrite(cfg, m, m', root, pool, p, idx, desc) by {
      InTreeShort(cfg, p);
    }
    LeafWriteKeepsTree(cfg, m, m', root, pool, p, idx, desc);
    LeafKeepsOtherWalks(cfg, m, m', root, pool, p, idx, desc);
    CreatedBy(cfg, m0, m, m', root, va, entry, pa, attrIndx);
  }

  lemma PathIndex(cfg: Cfg, va: nat, k: nat)
    requires cfg.Valid() && k < cfg.Levels()
    ensures Path(cfg, va)[k] < Entries(cfg)
  {
    hide Entries, Index;
    PathInTree(cfg, va, k);
  }

  lemma InTreeShort(cfg: Cfg, p: seq<nat>)
    requires cfg.Valid() && InTree(cfg, p)
    ensures |p| < cfg.Levels()
  {
  }

  lemma TreeValid(cfg: Cfg, m: Mem, root: nat, pool: seq<nat>)
    requires Tree(cfg, m, root, pool)
    ensures cfg.Valid()
  {
  }

  // ---------- distinct pages have distinct paths ----------

  lemma SplitMod(x: nat, a: nat, e: nat, b: nat)
    requires a > 0 && e > 0 && b > 0 && b == a * e
    ensures x % b == x / a % e * a + x % a
  {
    var y := x / a;
    Divide(x, a);
    Divide(y, e);
    Regroup(y / e, a, e, y % e, x % a);
    Distribute(e, -1, a);
    TimesMono(y % e, e - 1, a);
    DivModUnique(x, b, y / e, y % e * a + x % a);
  }

  /** Equal digits in base 2^k make equal residues. */
  lemma {:induction false} DigitsEqual(x: nat, y: nat, k: nat, n: nat)
    requires forall i: nat :: i < n ==> x / Pow2(k * i) % Pow2(k) == y / Pow2(k * i) % Pow2(k)
    ensures x % Pow2(k * n) == y % Pow2(k * n)
    decreases n
  {
    hide Pow2;
    if n == 0 {
      Powers();
    } else {
      DigitsEqual(x, y, k, n - 1);
      Distribute(n - 1, 1, k);
      Pow2Add(k * (n - 1), k);
      var a, e, b := Pow2(k * (n - 1)), Pow2(k), Pow2(k * n);
      SplitMod(x, a, e, b);
      SplitMod(y, a, e, b);
    }
  }

  /** The index at level 3 - i is digit i of the page number. */
  lemma IndexIsDigit(cfg: Cfg, va: nat, i: nat)
    requires cfg.Valid() && i < 4
    ensures Index(cfg, va, 3 - i) == va / PageSize(cfg) / Pow2((cfg.ps - 3) * i) % Entries(cfg)
  {
    hide Pow2;
    var k := cfg.ps - 3;
    assert Shift(cfg, 3 - i) == cfg.ps + k * i by {
      Distribute(i, 1, k);
    }
    Pow2Add(cfg.ps, k * i);
    DivTwice(va, PageSize(cfg), Pow2(k * i));
  }

  predicate KernelVa(cfg: Cfg, va: nat) {
    va < TWO64 <= va + Pow2(cfg.vaBits)
  }

  lemma PageNumberRange(cfg: Cfg, va: nat)
    requires cfg.Valid() && KernelVa(cfg, va) && Aligned(cfg, va)
    ensures va == va / PageSize(cfg) * PageSize(cfg)
    ensures va / PageSize(cfg) < Pow2(64 - cfg.ps) <= va / PageSize(cfg) + Pow2(cfg.vaBits - cfg.ps)
  {
    Powers();
    hide Pow2;
    Pow2Add(64 - cfg.ps, cfg.ps);
    Pow2Add(cfg.vaBits - cfg.ps, cfg.ps);
    var p, x, h, v := PageSize(cfg), va / PageSize(cfg), Pow2(64 - cfg.ps), Pow2(cfg.vaBits - cfg.ps);
    Divide(va, p);
    if x >= h {
      TimesMono(h, x, p);
    }
    if h > x + v {
      TimesMono(x + v + 1, h, p);
      Distribute(x, v + 1, p);
      Distribute(v, 1, p);
    }
  }

  /** The path of an address holds the digits of its page number. */
  lemma PathDigit(cfg: Cfg, va: nat, i: nat)
    requires cfg.Valid() && i < cfg.Levels()
    ensures |Path(cfg, va)| == cfg.Levels()
    ensures va / PageSize(cfg) / Pow2((cfg.ps - 3) * i) % Pow2(cfg.ps - 3) == Path(cfg, va)[cfg.Levels() - 1 - i]
  {
    hide Pow2, Index, Entries, PageSize;
    IndexIsDigit(cfg, va, i);
    EntriesIs(cfg);
    PathInTree(cfg, va, cfg.Levels() - 1 - i);
    assert cfg.Start() + (cfg.Levels() - 1 - i) == 3 - i;
  }

  lemma PathDistinct(cfg: Cfg, a: nat, b: nat)
    requires cfg.Valid() && KernelVa(cfg, a) && KernelVa(cfg, b) && Aligned(cfg, a) && Aligned(cfg, b)
    requires Path(cfg, a) == Path(cfg, b)
    ensures a == b
  {
    hide Pow2, Aligned, KernelVa, Index, Entries, PageSize, Path;
    var x, y, k, l := a / PageSize(cfg), b / PageSize(cfg), cfg.ps - 3, cfg.Levels();
    SamePath(cfg, a, b, x, y, k, l);
    DigitsEqual(x, y, k, l);
    PageNumberRange(cfg, a);
    PageNumberRange(cfg, b);
    IndexBits(cfg);
    CloseResidues(x, y, Pow2(k * l), Pow2(64 - cfg.ps));
  }

  /** Equal paths are equal digits of the page numbers. */
  lemma SamePath(cfg: Cfg, a: nat, b: nat, x: nat, y: nat, k: nat, l: nat)
    requires cfg.Valid() && Path(cfg, a) == Path(cfg, b)
    requires x == a / PageSize(cfg) && y == b / PageSize(cfg) && k == cfg.ps - 3 && l == cfg.Levels()
    ensures forall i: nat | i < l :: x / Pow2(k * i) % Pow2(k) == y / Pow2(k * i) % Pow2(k)
  {
    hide Pow2, Index, Entries, PageSize, Path;
    forall i: nat | i < l
      ensures x / Pow2(k * i) % Pow2(k) == y / Pow2(k * i) % Pow2(k)
    {
      PathDigit(cfg, a, i);
      PathDigit(cfg, b, i);
    }
  }

  lemma IndexBits(cfg: Cfg)
    requires cfg.Valid()
    ensures Pow2(cfg.vaBits - cfg.ps) <= Pow2((cfg.ps - 3) * cfg.Levels())
  {
    hide Pow2;
    LevelsLeast(cfg);
    Pow2Mono(cfg.vaBits - cfg.ps, (cfg.ps - 3) * cfg.Levels());
  }

  lemma EntriesIs(cfg: Cfg)
    requires cfg.Valid()
    ensures Entries(cfg) == Pow2(cfg.ps - 3)
  {
  }

  lemma CloseResidues(x: nat, y: nat, d: nat, top: nat)
    requires d > 0 && x % d == y % d && x < top <= x + d && y < top <= y + d
    ensures x == y
  {
    Divide(x, d);
    Divide(y, d);
    var q, r := x / d, y / d;
    if q < r {
      TimesMono(q + 1, r, d);
      Distribute(q, 1, d);
    } else if r < q {
      TimesMono(r + 1, q, d);
      Distribute(r, 1, d);
    }
  }

  // ---------- within one page ----------

  lemma PathOfPage(cfg: Cfg, a: nat, d: nat)
    requires cfg.Valid() && Aligned(cfg, a) && d < PageSize(cfg)
    ensures Path(cfg, a + d) == Path(cfg, a) && (a + d) % PageSize(cfg) == d
  {
    hide Pow2, Aligned, Index, PageSize;
    SamePageNumber(cfg, a, d);
    forall j: nat | j < cfg.Levels()
      ensures Path(cfg, a + d)[j] == Path(cfg, a)[j]
    {
      var i := cfg.Levels() - 1 - j;
      IndexIsDigit(cfg, a, i);
      IndexIsDigit(cfg, a + d, i);
      PathInTree(cfg, a, j);
      PathInTree(cfg, a + d, j);
      assert cfg.Start() + j == 3 - i;
    }
  }

  lemma SamePageNumber(cfg: Cfg, a: nat, d: nat)
    requires cfg.Valid() && Aligned(cfg, a) && d < PageSize(cfg)
    ensures (a + d) / PageSize(cfg) == a / PageSize(cfg) && (a + d) % PageSize(cfg) == d
  {
    hide Pow2;
    Divide(a, PageSize(cfg));
    DivModUnique(a + d, PageSize(cfg), a / PageSize(cfg), d);
  }

  lemma {:induction false} WalkByPath(cfg: Cfg, m: Mem, t: nat, a: nat, b: nat, lv: nat)
    requires cfg.Valid() && cfg.Start() <= lv < 4 && Path(cfg, a) == Path(cfg, b)
    ensures Walk(cfg, m, t, a, lv) == Walk(cfg, m, t, b, lv)
    decreases 4 - lv
  {
    hide Index, TableAddr, Rd;
    assert Path(cfg, a)[lv - cfg.Start()] == Path(cfg, b)[lv - cfg.Start()];
    if lv < 3 {
      var desc := Rd(m, EntryAt(cfg, t, a, lv));
      WalkByPath(cfg, m, TableAddr(cfg, desc), a, b, lv + 1);
    }
  }

  /** A walk that reaches level 3 has found a table at every level above. */
  lemma {:induction false} LeafTable(cfg: Cfg, m: Mem, root: nat, va: nat, entry: nat, k: nat)
    requires cfg.Valid() && k < cfg.Levels() && Walk(cfg, m, root, va, cfg.Start()) == Leaf(entry, 3)
    ensures TableOf(cfg, m, root, Path(cfg, va)[..k]).Node?
    ensures k == cfg.Levels() - 1 ==>
      entry == TableOf(cfg, m, root, Path(cfg, va)[..k]).addr + 8 * Index(cfg, va, 3)
    decreases k
  {
    hide TableAddr, Index, Walk, Path, TableOf;
    if k == 0 {
      PathStart(cfg, m, root, va);
    } else {
      LeafTable(cfg, m, root, va, entry, k - 1);
      WalkFrom(cfg, m, root, va, k - 1);
      PathInTree(cfg, va, k - 1);
      WalkDef(cfg, m, TableOf(cfg, m, root, Path(cfg, va)[..k - 1]).addr, va, cfg.Start() + k - 1);
      NextTable(cfg, m, root, Path(cfg, va), k - 1);
    }
    WalkFrom(cfg, m, root, va, k);
    WalkDef(cfg, m, TableOf(cfg, m, root, Path(cfg, va)[..k]).addr, va, cfg.Start() + k);
  }

  // ---------- the mapping loop ----------

  /** The page at `va` translates to the page at `pa` through a level-3 entry that makes it kernel memory. */
  ghost predicate Mapped(cfg: Cfg, m: Mem, root: nat, va: nat, pa: nat, attrIndx: nat)
    requires cfg.Valid()
  {
    var w := Walk(cfg, m, root, va, cfg.Start());
    && w.Leaf? && w.lv == 3 && Rd(m, w.entry) % 4 == 3 && TableAddr(cfg, Rd(m, w.entry)) == pa
    && KernelPage(Rd(m, w.entry), attrIndx)
  }

  /** Every byte of a mapped page translates to the byte at the same offset. */
  lemma MappedTranslates(cfg: Cfg, m: Mem, root: nat, va: nat, pa: nat, d: nat, attrIndx: nat)
    requires cfg.Valid() && Aligned(cfg, va) && d < PageSize(cfg) && Mapped(cfg, m, root, va, pa, attrIndx)
    ensures Translate(cfg, m, root, va + d) == pa + d
  {
    hide Walk, Rd, TableAddr, BlockAddr, Aligned, PageSize, Pow2;
    PathOfPage(cfg, va, d);
    WalkByPath(cfg, m, root, va + d, va, cfg.Start());
  }

  /** get_or_create_pte and the protection change map one page and keep every other walk. */
  lemma PageMapped(
    cfg: Cfg, m0: Mem, m: Mem, m': Mem, root: nat, pool: seq<nat>, va: nat, entry: nat, pa: U64, attrIndx: U64)
    requires cfg.Valid() && Tree(cfg, m, root, pool) && Aligned(cfg, pa) && pa < Pow2(48) && AttrIndex(attrIndx)
    requires Walk(cfg, m0, root, va, cfg.Start()) == NoLeaf
    requires Created(cfg, m0, m, root, va, entry, pa, attrIndx)
    requires m' == m[entry := Writable(Rd(m, entry))]
    ensures Tree(cfg, m', root, pool) && Mapped(cfg, m', root, va, pa, attrIndx)
    ensures KeepsOtherWalks(cfg, m0, m', root, Path(cfg, va))
  {
    hide Tree, Walk, MakeDesc, Path, Index, TableOf, Entries, Rd, KeepsOtherWalks, Aligned, InTree, Pow2, AttrIndex,
      Writable, TableAddr, KernelPage;
    TreeValid(cfg, m, root, pool);
    var path, k := Path(cfg, va), cfg.Levels() - 1;
    var p, idx, desc := path[..k], path[k], Writable(Rd(m, entry));
    LeafTable(cfg, m, root, va, entry, k);
    PathInTree(cfg, va, k);
    PathIndex(cfg, va, k);
    DescFields(cfg, pa, attrIndx);
    WritableKeeps(cfg, Rd(m, entry));
    OpenedPage(cfg, pa, attrIndx);
    RdUpdate(m, m', entry, desc);
    assert path == p + [idx];
    assert LeafWrite(cfg, m, m', root, pool, p, idx, desc) by {
      InTreeShort(cfg, p);
    }
    LeafWriteKeepsTree(cfg, m, m', root, pool, p, idx, desc);
    LeafKeepsOtherWalks(cfg, m, m', root, pool, p, idx, desc);
    OthersTrans(cfg, m0, m, m', root, path);
  }

  lemma OthersTrans(cfg: Cfg, m: Mem, m': Mem, m'': Mem, root: nat, page: seq<nat>)
    requires cfg.Valid() && KeepsOtherWalks(cfg, m, m', root, page) && KeepsOtherWalks(cfg, m', m'', root, page)
    ensures KeepsOtherWalks(cfg, m, m'', root, page)
  {
    hide Walk, Rd, Path;
  }

  /** The address of page j of a region. */
  function PageAt(cfg: Cfg, base: nat, j: nat): nat { base + j * PageSize(cfg) }

  /** The pages of the region are kernel addresses with no translation yet. */
  ghost predicate Unmapped(cfg: Cfg, m: Mem, root: nat, startVa: nat, from: nat, pages: nat)
    requires cfg.Valid()
  {
    forall j: nat :: from <= j < pages ==> Walk(cfg, m, root, PageAt(cfg, startVa, j), cfg.Start()) == NoLeaf
  }

  ghost predicate AllMapped(cfg: Cfg, m: Mem, root: nat, startVa: nat, startPa: nat, pages: nat, attrIndx: nat)
    requires cfg.Valid()
  {
    forall j: nat :: j < pages ==> Mapped(cfg, m, root, PageAt(cfg, startVa, j), PageAt(cfg, startPa, j), attrIndx)
  }

  /** Every walk that found a leaf before still ends at it, unchanged. */
  ghost predicate KeepsLeaves(cfg: Cfg, m: Mem, m': Mem, root: nat)
    requires cfg.Valid()
  {
    forall va: nat :: var w := Walk(cfg, m, root, va, cfg.Start());
      w.Leaf? ==> Walk(cfg, m', root, va, cfg.Start()) == w && Rd(m', w.entry) == Rd(m, w.entry)
  }

  /** One iteration of the mapping loop. */
  lemma MapStep(cfg: Cfg, m0: Mem, m: Mem, m': Mem, root: nat, startVa: nat, startPa: nat, n: nat, pages: nat, attrIndx: nat)
    requires cfg.Valid() && n < pages && Aligned(cfg, startVa)
    requires forall j: nat :: j < pages ==> KernelVa(cfg, PageAt(cfg, startVa, j))
    requires Unmapped(cfg, m, root, startVa, n, pages) && AllMapped(cfg, m, root, startVa, startPa, n, attrIndx)
    requires KeepsLeaves(cfg, m0, m, root)
    requires Mapped(cfg, m', root, PageAt(cfg, startVa, n), PageAt(cfg, startPa, n), attrIndx)
    requires KeepsOtherWalks(cfg, m, m', root, Path(cfg, PageAt(cfg, startVa, n)))
    ensures Unmapped(cfg, m', root, startVa, n + 1, pages) && AllMapped(cfg, m', root, startVa, startPa, n + 1, attrIndx)
    ensures KeepsLeaves(cfg, m0, m', root)
  {
    hide Walk, Rd, Path, TableAddr, PageAt, Aligned, KernelVa;
    forall j: nat | j < pages && j != n
      ensures Path(cfg, PageAt(cfg, startVa, j)) != Path(cfg, PageAt(cfg, startVa, n))
    {
      PagesDiffer(cfg, startVa, j, n);
    }
    forall va: nat | Path(cfg, va) == Path(cfg, PageAt(cfg, startVa, n))
      ensures Walk(cfg, m, root, va, cfg.Start()) == NoLeaf
    {
      WalkByPath(cfg, m, root, va, PageAt(cfg, startVa, n), cfg.Start());
    }
  }

  lemma PagesDiffer(cfg: Cfg, base: nat, i: nat, j: nat)
    requires cfg.Valid() && Aligned(cfg, base) && i != j
    requires KernelVa(cfg, PageAt(cfg, base, i)) && KernelVa(cfg, PageAt(cfg, base, j))
    ensures Path(cfg, PageAt(cfg, base, i)) != Path(cfg, PageAt(cfg, base, j))
  {
    hide Pow2, KernelVa, Path;
    PageAligned(cfg, base, i);
    PageAligned(cfg, base, j);
    if Path(cfg, PageAt(cfg, base, i)) == Path(cfg, PageAt(cfg, base, j)) {
      PathDistinct(cfg, PageAt(cfg, base, i), PageAt(cfg, base, j));
      if i < j {
        TimesMono(i + 1, j, PageSize(cfg));
        Distribute(i, 1, PageSize(cfg));
      } else {
        TimesMono(j + 1, i, PageSize(cfg));
        Distribute(j, 1, PageSize(cfg));
      }
    }
  }

  lemma PageAligned(cfg: Cfg, base: nat, j: nat)
    requires Aligned(cfg, base)
    ensures Aligned(cfg, PageAt(cfg, base, j))
  {
    hide Pow2;
    Divide(base, PageSize(cfg));
    Distribute(base / PageSize(cfg), j, PageSize(cfg));
    DivModUnique(PageAt(cfg, base, j), PageSize(cfg), base / PageSize(cfg) + j, 0);
  }

  // ---------- the architecture's walk ----------

  /** The index the hardware uses: only address bits below va_bits take part. */
  function HwIndex(cfg: Cfg, va: nat, lv: nat): nat
    requires cfg.Valid() && lv < 4
  {
    va % Pow2(cfg.vaBits) / Pow2(Shift(cfg, lv)) % Entries(cfg)
  }

  /** Levels at which the architecture allows a block: 1 and 2 with 4 KB pages, otherwise 2. */
  predicate BlockLevel(cfg: Cfg, lv: nat) { lv == 2 || (lv == 1 && cfg.ps == 12) }

  /** The VMSAv8-64 stage 1 walk with 48-bit output addresses; -1 is a translation fault or, where the access flag of the
      leaf is clear, an access-flag fault. */
  function HwTranslate(cfg: Cfg, m: Mem, t: nat, va: nat, lv: nat): int
    requires cfg.Valid() && cfg.Start() <= lv < 4
    decreases 4 - lv
  {
    var desc := Rd(m, t + 8 * HwIndex(cfg, va, lv));
    if desc % 4 == 3 then
      if lv < 3 then HwTranslate(cfg, m, TableAddr(cfg, desc), va, lv + 1)
      else if AccessFlag(desc) then TableAddr(cfg, desc) + va % PageSize(cfg)
      else -1
    else if desc % 4 == 1 && BlockLevel(cfg, lv) && AccessFlag(desc) then
      BlockAddr(cfg, desc, lv) + va % Pow2(BlockBits(cfg, lv))
    else -1
  }

  /** When the index bits are exact, software and hardware compute the same indices. */
  lemma IndexExact(cfg: Cfg, va: nat, lv: nat)
    requires cfg.Valid() && Exact(cfg) && cfg.Start() <= lv < 4
    ensures HwIndex(cfg, va, lv) == Index(cfg, va, lv)
  {
    assert Shift(cfg, lv) + (cfg.ps - 3) <= cfg.vaBits by {
      ExactTop(cfg, lv);
    }
    hide Pow2, Shift, Exact;
    FieldOfLow(va, cfg.vaBits, Shift(cfg, lv), cfg.ps - 3);
  }

  lemma ExactTop(cfg: Cfg, lv: nat)
    requires cfg.Valid() && Exact(cfg) && cfg.Start() <= lv < 4
    ensures Shift(cfg, lv) + (cfg.ps - 3) <= cfg.vaBits
  {
    ExactMeans(cfg);
    hide Exact;
    TimesMono(5 - lv, cfg.Levels() + 1, cfg.ps - 3);
    Distribute(4 - lv, 1, cfg.ps - 3);
    Distribute(cfg.Levels(), 1, cfg.ps - 3);
  }

  /** On kernel addresses the top index is the architecture's exactly when the index bits are exact:
      otherwise it takes in address bits above va_bits, which are all ones. */
  lemma TopIndexMatches(cfg: Cfg, va: nat)
    requires cfg.Valid() && KernelVa(cfg, va)
    ensures Index(cfg, va, cfg.Start()) == HwIndex(cfg, va, cfg.Start()) <==> Exact(cfg)
  {
    hide Pow2, KernelVa, Index, HwIndex;
    if Exact(cfg) {
      IndexExact(cfg, va, cfg.Start());
    } else {
      TopIndexDiffers(cfg, va);
    }
  }

  /** Otherwise, for every kernel address, the hardware's top index lies below a bound and the other one above it. */
  lemma TopIndexDiffers(cfg: Cfg, va: nat)
    requires cfg.Valid() && KernelVa(cfg, va) && !Exact(cfg)
    ensures HwIndex(cfg, va, cfg.Start()) < TopBound(cfg) <= Index(cfg, va, cfg.Start())
  {
    hide Pow2, Shift, Exact;
    var s, v, k := Shift(cfg, cfg.Start()), cfg.vaBits, cfg.ps - 3;
    ShiftBounds(cfg);
    var r := va + Pow2(v) - TWO64;
    KernelSplit(va, r, s, v, k);
    EntriesIs(cfg);
    TopParts(va, r, Pow2(s), Pow2(k), Pow2(v - s), Pow2(64 - s - k), Pow2(s + k - v));
  }

  /** The entries of the top table that the hardware can reach. */
  function TopBound(cfg: Cfg): nat
    requires cfg.Valid()
  {
    if Shift(cfg, cfg.Start()) <= cfg.vaBits then Pow2(cfg.vaBits - Shift(cfg, cfg.Start())) else 0
  }

  lemma KernelSplit(va: nat, r: nat, s: nat, v: nat, k: nat)
    requires s < v < s + k <= 64 && va < TWO64 <= va + Pow2(v) && r == va + Pow2(v) - TWO64
    ensures Pow2(k) == Pow2(v - s) * Pow2(s + k - v) && Pow2(s + k - v) >= 2
    ensures r < Pow2(s) * Pow2(v - s) && va % Pow2(v) == r
    ensures va == Pow2(s) * Pow2(k) * Pow2(64 - s - k) - Pow2(s) * Pow2(v - s) + r
  {
    hide Pow2;
    Powers();
    Pow2Add(s, v - s);
    Pow2Add(s, k);
    Pow2Add(s + k, 64 - s - k);
    Pow2Add(v - s, s + k - v);
    Pow2Mono(1, s + k - v);
    Pow2Mono(v, 64);
    KernelLow(va, r, v);
  }

  lemma ShiftBounds(cfg: Cfg)
    requires cfg.Valid() && !Exact(cfg)
    ensures var s := Shift(cfg, cfg.Start()); s < cfg.vaBits < s + (cfg.ps - 3) <= 64
  {
    hide Exact;
    ExactMeans(cfg);
    var k := cfg.ps - 3;
    Divide(cfg.vaBits - 4, k);
    assert Shift(cfg, cfg.Start()) == cfg.Levels() * k + 3;
  }

  lemma KernelLow(va: nat, r: nat, v: nat)
    requires v <= 64 && va == TWO64 - Pow2(v) + r && r < Pow2(v) <= TWO64
    ensures va % Pow2(v) == r
  {
    Powers();
    hide Pow2;
    Pow2Add(64 - v, v);
    Distribute(Pow2(64 - v), -1, Pow2(v));
    DivModUnique(va, Pow2(v), Pow2(64 - v) - 1, r);
  }

  /** The arithmetic of TopIndexDiffers: p is the shift, e the index size, w the part of it below va_bits. */
  lemma TopParts(va: nat, r: nat, p: nat, e: nat, w: nat, top: nat, f: nat)
    requires p > 0 && e > 0 && w > 0 && top > 0 && f >= 2 && e == w * f
    requires r < p * w && va == p * e * top - p * w + r
    ensures r / p % e < w <= va / p % e
  {
    var a, b := r / p, r % p;
    Divide(r, p);
    DigitBound(a, p, b, w);
    Assoc(p, e, top);
    assert va == (e * top - w + a) * p + b by {
      var h, n: int := e * top, w;
      Distribute(h, a - n, p);
      Distribute(a, -n, p);
      Assoc(p, e, top);
    }
    TimesMono(2, f, w);
    Distribute(top, -1, e);
    TimesMono(1, top, e);
    DivModUnique(va, p, e * top - w + a, b);
    DivModUnique(e * top - w + a, e, top - 1, e - w + a);
    DivModUnique(a, e, 0, a);
  }

  /** With exact index bits, a leaf the architecture accepts translates as the architecture says. */
  lemma {:induction false} HardwareAgrees(cfg: Cfg, m: Mem, t: nat, va: nat, lv: nat)
    requires cfg.Valid() && Exact(cfg) && cfg.Start() <= lv < 4
    requires var w := Walk(cfg, m, t, va, lv);
             w.Leaf? ==> AccessFlag(Rd(m, w.entry)) && if w.lv == 3 then Rd(m, w.entry) % 4 == 3 else BlockLevel(cfg, w.lv)
    ensures HwTranslate(cfg, m, t, va, lv)
         == match Walk(cfg, m, t, va, lv)
            case NoLeaf => -1
            case Leaf(e, l) =>
              if l == 3 then TableAddr(cfg, Rd(m, e)) + va % PageSize(cfg)
              else if cfg.Start() <= l < 3 then BlockAddr(cfg, Rd(m, e), l) + va % Pow2(BlockBits(cfg, l))
              else -1
    decreases 4 - lv
  {
    hide Pow2, TableAddr, BlockAddr, HwIndex, Index, Rd, PageSize, BlockBits, Walk, HwTranslate, AccessFlag;
    IndexExact(cfg, va, lv);
    WalkDef(cfg, m, t, va, lv);
    HwDef(cfg, m, t, va, lv);
    if lv < 3 {
      var desc := Rd(m, EntryAt(cfg, t, va, lv));
      if desc % 4 == 3 {
        HardwareAgrees(cfg, m, TableAddr(cfg, desc), va, lv + 1);
      }
    }
  }

  /** The hardware translates every byte of a mapped page as the loop intended. */
  lemma HardwareMapped(cfg: Cfg, m: Mem, root: nat, va: nat, pa: nat, d: nat, attrIndx: nat)
    requires cfg.Valid() && Exact(cfg) && Aligned(cfg, va) && d < PageSize(cfg) && Mapped(cfg, m, root, va, pa, attrIndx)
    ensures HwTranslate(cfg, m, root, va + d, cfg.Start()) == pa + d
  {
    hide Walk, Rd, TableAddr, BlockAddr, Aligned, PageSize, Pow2;
    PathOfPage(cfg, va, d);
    WalkByPath(cfg, m, root, va + d, va, cfg.Start());
    HardwareAgrees(cfg, m, root, va + d, cfg.Start());
  }

  // ---------- what the hardware makes of a mapped region, exactly ----------

  /** The address whose walk in software has the indices of the hardware walk of `va`. */
  function LowAddress(cfg: Cfg, va: nat): nat { va % Pow2(cfg.vaBits) }

  /** What the hardware gives for a walk that ends like this. */
  function HwOf(cfg: Cfg, m: Mem, w: Leaf, va: nat): int
    requires cfg.Valid()
  {
    match w
    case NoLeaf => -1
    case Leaf(e, l) =>
      if !AccessFlag(Rd(m, e)) then -1
      else if l == 3 then if Rd(m, e) % 4 == 3 then TableAddr(cfg, Rd(m, e)) + va % PageSize(cfg) else -1
      else if cfg.Start() <= l < 4 && BlockLevel(cfg, l) then BlockAddr(cfg, Rd(m, e), l) + va % Pow2(BlockBits(cfg, l))
      else -1
  }

  lemma HwDef(cfg: Cfg, m: Mem, t: nat, va: nat, lv: nat)
    requires cfg.Valid() && cfg.Start() <= lv < 4
    ensures var desc := Rd(m, t + 8 * HwIndex(cfg, va, lv));
      HwTranslate(cfg, m, t, va, lv) ==
        if desc % 4 == 3 then
          if lv < 3 then HwTranslate(cfg, m, TableAddr(cfg, desc), va, lv + 1)
          else if AccessFlag(desc) then TableAddr(cfg, desc) + va % PageSize(cfg) else -1
        else if desc % 4 == 1 && BlockLevel(cfg, lv) && AccessFlag(desc) then BlockAddr(cfg, desc, lv) + va % Pow2(BlockBits(cfg, lv))
        else -1
  {
    hide AccessFlag, Pow2, TableAddr, BlockAddr, BlockBits, PageSize, Rd, HwIndex;
  }

  lemma {:induction false} HwByWalk(cfg: Cfg, m: Mem, t: nat, va: nat, lv: nat)
    requires cfg.Valid() && cfg.Start() <= lv < 4
    ensures HwTranslate(cfg, m, t, va, lv) == HwOf(cfg, m, Walk(cfg, m, t, LowAddress(cfg, va), lv), va)
    decreases 4 - lv
  {
    hide Pow2, TableAddr, BlockAddr, BlockBits, PageSize, Rd, Index, HwIndex, LowAddress, Walk, HwTranslate, AccessFlag;
    SameIndex(cfg, va, lv);
    WalkDef(cfg, m, t, LowAddress(cfg, va), lv);
    HwDef(cfg, m, t, va, lv);
    if lv < 3 {
      var desc := Rd(m, EntryAt(cfg, t, LowAddress(cfg, va), lv));
      if desc % 4 == 3 {
        HwByWalk(cfg, m, TableAddr(cfg, desc), va, lv + 1);
      }
    }
  }

  lemma SameIndex(cfg: Cfg, va: nat, lv: nat)
    requires cfg.Valid() && lv < 4
    ensures HwIndex(cfg, va, lv) == Index(cfg, LowAddress(cfg, va), lv)
  {
    hide Pow2;
  }

  /** The indices do not cover the address: no hardware walk of a kernel address is changed by mapping one. */
  lemma HardwareUnchanged(cfg: Cfg, m: Mem, m': Mem, root: nat, startVa: nat, pages: nat, va: nat)
    requires cfg.Valid() && !Exact(cfg) && KernelVa(cfg, va) && KeepsOutside(cfg, m, m', root, startVa, pages)
    requires forall j: nat :: j < pages ==> KernelVa(cfg, PageAt(cfg, startVa, j))
    ensures HwTranslate(cfg, m', root, va, cfg.Start()) == HwTranslate(cfg, m, root, va, cfg.Start())
  {
    hide Walk, Rd, TableAddr, BlockAddr, BlockBits, PageSize, Pow2, Index, HwIndex, KernelVa, PageAt, Exact, TopBound, HwTranslate,
      LowAddress;
    HwByWalk(cfg, m, root, va, cfg.Start());
    HwByWalk(cfg, m', root, va, cfg.Start());
    forall j: nat | j < pages
      ensures Path(cfg, LowAddress(cfg, va)) != Path(cfg, PageAt(cfg, startVa, j))
    {
      TopIndexDiffers(cfg, va);
      TopIndexDiffers(cfg, PageAt(cfg, startVa, j));
      SameIndex(cfg, va, cfg.Start());
      assert Path(cfg, LowAddress(cfg, va))[0] != Path(cfg, PageAt(cfg, startVa, j))[0];
    }
  }

  /** After mapping a region that the hardware did not translate before, the hardware translates it as intended if and
      only if the indices cover exactly the address bits; otherwise all of it still faults. */
  lemma HardwareExactly(cfg: Cfg, m: Mem, m': Mem, root: nat, startVa: nat, startPa: nat, size: nat, attrIndx: nat)
    requires cfg.Valid() && Aligned(cfg, startVa) && size > 0
    requires AllMapped(cfg, m', root, startVa, startPa, Pages(cfg, size), attrIndx)
    requires KeepsOutside(cfg, m, m', root, startVa, Pages(cfg, size))
    requires forall j: nat :: j < Pages(cfg, size) ==> KernelVa(cfg, PageAt(cfg, startVa, j))
    requires forall va: nat :: startVa <= va < startVa + size ==>
      KernelVa(cfg, va) && HwTranslate(cfg, m, root, va, cfg.Start()) == -1
    ensures (forall va: nat :: startVa <= va < startVa + size ==>
               HwTranslate(cfg, m', root, va, cfg.Start()) == startPa + (va - startVa)) <==> Exact(cfg)
    ensures !Exact(cfg) ==> forall va: nat :: startVa <= va < startVa + size ==>
      HwTranslate(cfg, m', root, va, cfg.Start()) == -1
  {
    hide Walk, Pow2, Aligned, Mapped, HwTranslate, Pages, PageSize, KernelVa, Exact, KeepsOutside;
    forall va: nat | startVa <= va < startVa + size
      ensures HwTranslate(cfg, m', root, va, cfg.Start()) == if Exact(cfg) then startPa + (va - startVa) else -1
    {
      if Exact(cfg) {
        RegionPage(cfg, m', root, startVa, startPa, size, va, attrIndx);
      } else {
        HardwareUnchanged(cfg, m, m', root, startVa, Pages(cfg, size), va);
      }
    }
    if !Exact(cfg) {
      assert HwTranslate(cfg, m', root, startVa, cfg.Start()) == -1;
    }
  }

  lemma RegionPage(cfg: Cfg, m: Mem, root: nat, startVa: nat, startPa: nat, size: nat, va: nat, attrIndx: nat)
    requires cfg.Valid() && Exact(cfg) && Aligned(cfg, startVa) && startVa <= va < startVa + size
    requires AllMapped(cfg, m, root, startVa, startPa, Pages(cfg, size), attrIndx)
    ensures HwTranslate(cfg, m, root, va, cfg.Start()) == startPa + (va - startVa)
  {
    hide Walk, Pow2, Aligned, Mapped, HwTranslate, Pages, PageSize, Exact;
    var off := va - startVa;
    var n, d := off / PageSize(cfg), off % PageSize(cfg);
    Divide(off, PageSize(cfg));
    OffsetPage(cfg, size, off);
    PageAligned(cfg, startVa, n);
    HardwareMapped(cfg, m, root, PageAt(cfg, startVa, n), PageAt(cfg, startPa, n), d, attrIndx);
  }

  /** 64 KB pages and 48 address bits: three levels index 39 bits where 32 are left above the page. */
  lemma LargePagesAreNotExact()
    ensures var cfg := Cfg(16, 48); cfg.Valid() && cfg.Levels() == 3 && !Exact(cfg) && Exact(Cfg(12, 48)) && Exact(Cfg(12, 39))
  {
  }
}
