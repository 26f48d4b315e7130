/**
 The size-bounded file cache with least-recently-used eviction (crates/core/src/cache/store.rs).
 Files are the entries of a map; `lastUsed` is the later of a file's access and modification time.
 */
module CacheStores {
  import opened Common
  import opened Hex

  const U64_MAX: int := 0xFFFF_FFFF_FFFF_FFFF

  datatype Category = WasmBlob | ContractSpec | LedgerEntry | TransactionResult

  // The directory of a category.
  function DirName(c: Category): string {
    match c
    case WasmBlob => "wasm"
    case ContractSpec => "spec"
    case LedgerEntry => "ledger"
    case TransactionResult => "tx"
  }

  datatype Path = Path(category: Category, key: string)

  datatype File = File(data: seq<byte>, lastUsed: int)

  type Files = map<Path, File>

  // Paths in the order of their components.
  predicate PathLess(a: Path, b: Path) {
    || StringLess(DirName(a.category), DirName(b.category))
    || (a.category == b.category && StringLess(a.key, b.key))
  }

  // The eviction order: least recently used first, ties by path.
  predicate Before(fs: Files, a: Path, b: Path)
    requires a in fs && b in fs
  {
    fs[a].lastUsed < fs[b].lastUsed || (fs[a].lastUsed == fs[b].lastUsed && PathLess(a, b))
  }

  lemma DirNames(a: Category, b: Category)
    ensures a != b ==> StringLess(DirName(a), DirName(b)) || StringLess(DirName(b), DirName(a))
    ensures a == b ==> !StringLess(DirName(a), DirName(b))
  {
    StringLessTotal(DirName(a), DirName(b));
    assert DirName(a)[0] == DirName(b)[0] <==> a == b;
    if StringLess(DirName(a), DirName(b)) {
      StringLessAsymmetric(DirName(a), DirName(b));
    }
  }

  lemma BeforeTotal(fs: Files, a: Path, b: Path)
    requires a in fs && b in fs && a != b
    ensures Before(fs, a, b) <==> !Before(fs, b, a)
  {
    DirNames(a.category, b.category);
    DirNames(b.category, a.category);
    StringLessTotal(a.key, b.key);
    if StringLess(a.key, b.key) { StringLessAsymmetric(a.key, b.key); }
    if StringLess(b.key, a.key) { StringLessAsymmetric(b.key, a.key); }
    if StringLess(DirName(a.category), DirName(b.category)) {
      StringLessAsymmetric(DirName(a.category), DirName(b.category));
    }
  }

  lemma BeforeTransitive(fs: Files, a: Path, b: Path, c: Path)
    requires a in fs && b in fs && c in fs && Before(fs, a, b) && Before(fs, b, c)
    ensures Before(fs, a, c)
  {
    if StringLess(DirName(a.category), DirName(b.category)) && StringLess(DirName(b.category), DirName(c.category)) {
      StringLessTransitive(DirName(a.category), DirName(b.category), DirName(c.category));
    }
    if StringLess(a.key, b.key) && StringLess(b.key, c.key) {
      StringLessTransitive(a.key, b.key, c.key);
    }
  }

  // The first file in eviction order.
  ghost predicate IsOldest(fs: Files, p: Path) {
    p in fs && forall q :: q in fs && q != p ==> Before(fs, p, q)
  }

  /* Sizes. */

  // Bytes in all files.
  ghost function Total(fs: Files): nat
    decreases fs.Keys
  {
    if fs == map[] then 0
    else
      var p :| p in fs;
      |fs[p].data| + Total(fs - {p})
  }

  lemma {:induction false} TotalWithout(fs: Files, p: Path)
    requires p in fs
    ensures Total(fs) == |fs[p].data| + Total(fs - {p})
    decreases fs.Keys
  {
    var q :| q in fs && Total(fs) == |fs[q].data| + Total(fs - {q});
    if p != q {
      TotalWithout(fs - {q}, p);
      TotalWithout(fs - {p}, q);
      assert fs - {q} - {p} == fs - {p} - {q};
    }
  }

  lemma TotalWith(fs: Files, p: Path, f: File)
    ensures Total(fs[p := f]) == |f.data| + Total(fs - {p})
  {
    TotalWithout(fs[p := f], p);
    assert fs[p := f] - {p} == fs - {p};
  }

  // `u64::saturating_add`.
  function SaturatingAdd(a: int, b: int): int {
    if a + b > U64_MAX then U64_MAX else a + b
  }

  // `total_cache_size`: a running saturating sum.
  function SizeOf(total: nat): nat {
    if total > U64_MAX then U64_MAX else total
  }

  predicate FitsIn(total: nat, need: nat, max: nat) {
    SaturatingAdd(SizeOf(total), need) <= max
  }

  /** Below the largest limit, fitting is what it should be. */
  lemma FitsMeans(total: nat, need: nat, max: nat)
    requires max <= U64_MAX
    ensures FitsIn(total, need, max) <==> total + need <= max || max == 0xFFFF_FFFF_FFFF_FFFF
  {
  }

  // Directories in alphabetical order: ledger, spec, tx, wasm.
  function DirRank(c: Category): nat {
    match c
    case LedgerEntry => 0
    case ContractSpec => 1
    case TransactionResult => 2
    case WasmBlob => 3
  }

  /** Files used at the same time go by directory first, then by key. */
  lemma TiesByPath(fs: Files, a: Path, b: Path)
    requires a in fs && b in fs && fs[a].lastUsed == fs[b].lastUsed
    ensures Before(fs, a, b) <==>
      || DirRank(a.category) < DirRank(b.category)
      || (a.category == b.category && StringLess(a.key, b.key))
  {
    DirNames(a.category, b.category);
    DirNames(b.category, a.category);
    assert StringLess("ledger", "spec") && StringLess("spec", "tx") && StringLess("tx", "wasm");
    assert StringLess("ledger", "tx") && StringLess("ledger", "wasm") && StringLess("spec", "wasm");
    if StringLess(DirName(b.category), DirName(a.category)) {
      StringLessAsymmetric(DirName(b.category), DirName(a.category));
    }
  }

  /* Eviction as a function of the files. */

  // Evicts oldest files until `need` more bytes fit or nothing is left.
  ghost function Evict(fs: Files, need: nat, max: nat): Files
    decreases fs.Keys
  {
    if FitsIn(Total(fs), need, max) || fs == map[] then fs
    else if p :| IsOldest(fs, p) then Evict(fs - {p}, need, max)
    else fs
  }

  lemma OldestUnique(fs: Files, p: Path, q: Path)
    requires IsOldest(fs, p) && IsOldest(fs, q)
    ensures p == q
  {
    if p != q { BeforeTotal(fs, p, q); }
  }

  lemma {:induction false} OldestExists(fs: Files) returns (p: Path)
    requires fs != map[]
    ensures IsOldest(fs, p)
    decreases fs.Keys
  {
    var q :| q in fs;
    var rest := fs - {q};
    if rest == map[] {
      p := q;
      assert forall r :: r in fs ==> r == q || r in rest;
    } else {
      var r := OldestExists(rest);
      BeforeTotal(fs, q, r);
      p := if Before(fs, q, r) then q else r;
      forall x | x in fs && x != p ensures Before(fs, p, x) {
        if x != q && x != r {
          assert Before(rest, r, x);
          if p == q { BeforeTransitive(fs, q, r, x); }
        }
      }
    }
  }

  class CacheStore {
    var files: Files
    const maxSize: nat

    constructor (maxSize: nat)
      requires maxSize <= U64_MAX
      ensures files == map[] && this.maxSize == maxSize
    {
      this.files := map[];
      this.maxSize := maxSize;
    }

    // The capacity bound. A limit of 2^64 - 1 is never exceeded in saturating arithmetic.
    ghost predicate Bounded()
      reads this
    {
      maxSize < U64_MAX ==> Total(files) <= maxSize
    }

    method Put(path: Path, value: seq<byte>, now: int) returns (ok: bool)
      modifies this
      ensures ok <==> |value| <= maxSize
      ensures files == Apply(old(files), Op.Put(path, value), now, maxSize)
      ensures ok ==> path in files && files[path] == File(value, now)
      ensures ok ==> forall p :: p in files && p != path ==> p in old(files) && files[p] == old(files)[p]
      ensures ok && FitsIn(Total(old(files)), |value|, maxSize) ==> files == old(files)[path := File(value, now)]
      ensures !ok ==> files == old(files)
      ensures old(Bounded()) ==> Bounded()
    {
      var newSize := |value|;
      if newSize > maxSize {
        return false;
      }
      EvictSucceeds(files, newSize, maxSize);
      EvictKeeps(files, newSize, maxSize);
      var currentSize := TotalCacheSize();
      if SaturatingAdd(currentSize, newSize) > maxSize {
        // The entry fits an empty cache, so eviction does not fail.
        var fits := EvictLruToFit(newSize);
        assert fits;
      }
      PutBound(files, path, File(value, now), maxSize);
      files := files[path := File(value, now)];
      ok := true;
    }

    /** A hit returns the file's content and marks it as used now. */
    method Get(path: Path, now: int) returns (data: Option<seq<byte>>)
      modifies this
      ensures data == if path in old(files) then Some(old(files)[path].data) else None
      ensures files == Apply(old(files), Op.Get(path), now, maxSize)
      ensures files == if path in old(files) then old(files)[path := File(old(files)[path].data, now)] else old(files)
      ensures old(Bounded()) ==> Bounded()
    {
      if path in files {
        TouchBound(files, path, now);
        files := files[path := files[path].(lastUsed := now)];
        data := Some(files[path].data);
      } else {
        data := None;
      }
    }

    predicate Contains(path: Path)
      reads this
    {
      path in files
    }

    method Remove(path: Path)
      modifies this
      ensures files == Apply(old(files), Op.Remove(path), 0, maxSize)
      ensures files == old(files) - {path}
      ensures old(Bounded()) ==> Bounded()
    {
      if path in files {
        TotalWithout(files, path);
        files := files - {path};
      }
    }

    method Clear()
      modifies this
      ensures files == map[] && Bounded()
    {
      files := map[];
    }

    /** The saturating sum over all files, visited in any order. */
    method TotalCacheSize() returns (total: nat)
      ensures total == SizeOf(Total(files))
    {
      total := 0;
      var todo := files;
      while todo != map[]
        invariant SizeOf(total + Total(todo)) == SizeOf(Total(files)) && total == SizeOf(total)
        decreases todo.Keys
      {
        var p :| p in todo;
        TotalWithout(todo, p);
        total := SaturatingAdd(total, |todo[p].data|);
        todo := todo - {p};
      }
    }

    /** The head of the sorted file list. */
    method FindOldest() returns (oldest: Path)
      requires files != map[]
      ensures IsOldest(files, oldest)
    {
      oldest :| oldest in files;
      var todo := files.Keys - {oldest};
      while todo != {}
        invariant oldest in files && oldest !in todo && todo <= files.Keys
        invariant forall q :: q in files && q !in todo && q != oldest ==> Before(files, oldest, q)
        decreases todo
      {
        var q :| q in todo;
        BeforeTotal(files, oldest, q);
        if Before(files, q, oldest) {
          forall x | x in files && x !in todo && x != oldest ensures Before(files, q, x) {
            BeforeTransitive(files, q, oldest, x);
          }
          oldest := q;
        }
        todo := todo - {q};
      }
    }

    /** Evicts until the new entry fits; fails only when nothing is left to evict and it still does not. */
    method EvictLruToFit(need: nat) returns (ok: bool)
      modifies this
      ensures files == Evict(old(files), need, maxSize)
      ensures ok <==> FitsIn(Total(files), need, maxSize)
      ensures !ok ==> files == map[]
    {
      while true
        invariant Evict(files, need, maxSize) == Evict(old(files), need, maxSize)
        decreases files.Keys
      {
        var current := TotalCacheSize();
        if SaturatingAdd(current, need) <= maxSize {
          return true;
        }
        if files == map[] {
          return false;
        }
        var oldest := FindOldest();
        EvictOne(files, need, maxSize, oldest);
        files := files - {oldest};
      }
    }
  }

  lemma EvictOne(fs: Files, need: nat, max: nat, p: Path)
    requires IsOldest(fs, p) && !FitsIn(Total(fs), need, max)
    ensures Evict(fs, need, max) == Evict(fs - {p}, need, max)
  {
    forall q | IsOldest(fs, q) ensures q == p {
      OldestUnique(fs, p, q);
    }
  }

  lemma {:induction false} EvictSucceeds(fs: Files, need: nat, max: nat)
    requires need <= max
    ensures FitsIn(Total(Evict(fs, need, max)), need, max)
    decreases fs.Keys
  {
    if !FitsIn(Total(fs), need, max) && fs != map[] {
      var p := OldestExists(fs);
      EvictOne(fs, need, max, p);
      EvictSucceeds(fs - {p}, need, max);
    }
  }

  lemma PutBound(fs: Files, path: Path, f: File, max: nat)
    requires FitsIn(Total(fs), |f.data|, max)
    ensures max < U64_MAX ==> Total(fs[path := f]) <= max
  {
    TotalWith(fs, path, f);
    if path in fs {
      TotalWithout(fs, path);
    } else {
      assert fs - {path} == fs;
    }
  }

  lemma TouchBound(fs: Files, path: Path, now: int)
    requires path in fs
    ensures Total(fs[path := fs[path].(lastUsed := now)]) == Total(fs)
  {
    TotalWith(fs, path, fs[path].(lastUsed := now));
    TotalWithout(fs, path);
  }

  /* What eviction removes. */

  lemma {:induction false} EvictKeeps(fs: Files, need: nat, max: nat)
    ensures var r := Evict(fs, need, max);
      r.Keys <= fs.Keys && forall p :: p in r ==> r[p] == fs[p]
    decreases fs.Keys
  {
    if !FitsIn(Total(fs), need, max) && fs != map[] {
      var p := OldestExists(fs);
      EvictOne(fs, need, max, p);
      EvictKeeps(fs - {p}, need, max);
    }
  }

  /** Every evicted file precedes every survivor in the (last used, path) order. */
  lemma {:induction false} EvictedPrecede(fs: Files, need: nat, max: nat, gone: Path, kept: Path)
    requires gone in fs && gone !in Evict(fs, need, max) && kept in Evict(fs, need, max)
    ensures kept in fs && Before(fs, gone, kept)
    decreases fs.Keys
  {
    EvictKeeps(fs, need, max);
    if !FitsIn(Total(fs), need, max) && fs != map[] {
      var p := OldestExists(fs);
      EvictOne(fs, need, max, p);
      EvictKeeps(fs - {p}, need, max);
      if gone != p {
        EvictedPrecede(fs - {p}, need, max, gone, kept);
        assert Before(fs - {p}, gone, kept);
      }
    }
  }

  // All of fs but the evicted files other than `last`.
  function OneFewer(fs: Files, r: Files, last: Path): Files {
    map p | p in fs && (p in r || p == last) :: fs[p]
  }

  /** Eviction stops as early as it can: had the last evicted file stayed, the entry would not fit. */
  lemma {:induction false} EvictMinimal(fs: Files, need: nat, max: nat) returns (last: Path)
    requires Evict(fs, need, max) != fs
    ensures last in fs && last !in Evict(fs, need, max)
    ensures forall p :: p in fs && p !in Evict(fs, need, max) && p != last ==> Before(fs, p, last)
    ensures !FitsIn(Total(OneFewer(fs, Evict(fs, need, max), last)), need, max)
    decreases fs.Keys
  {
    var p := OldestExists(fs);
    EvictOne(fs, need, max, p);
    var rest, r := fs - {p}, Evict(fs, need, max);
    EvictKeeps(rest, need, max);
    if r == rest {
      last := p;
      assert OneFewer(fs, r, last) == fs;
    } else {
      last := EvictMinimal(rest, need, max);
      assert OneFewer(fs, r, last) == OneFewer(rest, r, last);
      forall q | q in fs && q !in r && q != last ensures Before(fs, q, last) {
        if q != p { assert Before(rest, q, last); }
      }
    }
  }

  /* Runs of operations against a plain map. */

  datatype Op = Put(path: Path, value: seq<byte>) | Get(path: Path) | Remove(path: Path) | Clear

  ghost function Apply(fs: Files, op: Op, now: int, max: nat): Files {
    match op
    case Put(path, value) => if |value| <= max then Evict(fs, |value|, max)[path := File(value, now)] else fs
    case Get(path) => if path in fs then fs[path := fs[path].(lastUsed := now)] else fs
    case Remove(path) => fs - {path}
    case Clear => map[]
  }

  ghost function Run(ops: seq<(Op, int)>, max: nat): Files {
    if ops == [] then map[]
    else
      var last := ops[|ops| - 1];
      Apply(Run(ops[..|ops| - 1], max), last.0, last.1, max)
  }

  // The value last put under this path since it was last removed: what a plain map would hold.
  function LastPut(ops: seq<(Op, int)>, path: Path, max: nat): Option<seq<byte>> {
    if ops == [] then None
    else
      var before := LastPut(ops[..|ops| - 1], path, max);
      match ops[|ops| - 1].0
      case Put(p, value) => if p == path && |value| <= max then Some(value) else before
      case Get(_) => before
      case Remove(p) => if p == path then None else before
      case Clear => None
  }

  /** Whatever is in the cache is what a plain map would hold; eviction only makes entries missing. */
  lemma {:induction false} CacheIsSubmap(ops: seq<(Op, int)>, max: nat, path: Path)
    requires path in Run(ops, max)
    ensures LastPut(ops, path, max) == Some(Run(ops, max)[path].data)
  {
    if ops != [] {
      var before, last := ops[..|ops| - 1], ops[|ops| - 1];
      if last.0.Put? {
        EvictKeeps(Run(before, max), |last.0.value|, max);
      }
      if path in Run(before, max) {
        CacheIsSubmap(before, max, path);
      }
    }
  }

  /** After any run, what is put is there, with its time, if it is within the limit; of the other entries exactly those
      that were not evicted. */
  lemma PutIsThere(ops: seq<(Op, int)>, path: Path, value: seq<byte>, now: int, max: nat)
    requires |value| <= max
    ensures var before, after := Run(ops, max), Run(ops + [(Op.Put(path, value), now)], max);
      && path in after && after[path] == File(value, now)
      && forall p :: p != path ==>
           (p in after <==> p in Evict(before, |value|, max)) && (p in after ==> p in before && after[p] == before[p])
  {
    hide Run, Evict;
    RunMore(ops, Op.Put(path, value), now, max);
    EvictKeeps(Run(ops, max), |value|, max);
  }

  predicate IsPutOf(op: Op, path: Path, max: nat) {
    op.Put? && op.path == path && |op.value| <= max
  }

  // The i-th operation made room by evicting the path, and nothing has put it since.
  ghost predicate LostAt(ops: seq<(Op, int)>, i: nat, path: Path, max: nat) {
    && i < |ops| && ops[i].0.Put? && |ops[i].0.value| <= max && ops[i].0.path != path
    && path in Run(ops[..i], max) && path !in Evict(Run(ops[..i], max), |ops[i].0.value|, max)
    && forall k :: i < k < |ops| ==> !IsPutOf(ops[k].0, path, max)
  }

  ghost predicate IsLost(ops: seq<(Op, int)>, path: Path, max: nat) {
    exists i :: LostAt(ops, i, path, max)
  }

  /** An entry a plain map would hold is missing exactly when some put evicted it and none has put it since. */
  lemma {:induction false} MissingWasEvicted(ops: seq<(Op, int)>, path: Path, max: nat)
    requires LastPut(ops, path, max).Some?
    ensures path !in Run(ops, max) <==> IsLost(ops, path, max)
    decreases |ops|
  {
    hide IsLost, Evict;
    assert ops != [];
    var n := |ops| - 1;
    var before, op := ops[..n], ops[n].0;
    if op.Put? {
      EvictKeeps(Run(before, max), |op.value|, max);
    }
    LostStep(ops, path, max);
    if !IsPutOf(op, path, max) {
      MissingWasEvicted(before, path, max);
    }
  }

  lemma LostStep(ops: seq<(Op, int)>, path: Path, max: nat)
    requires ops != []
    ensures IsLost(ops, path, max) <==>
      var n := |ops| - 1;
      !IsPutOf(ops[n].0, path, max) && (LostAt(ops, n, path, max) || IsLost(ops[..n], path, max))
  {
    hide Run, Evict;
    var n := |ops| - 1;
    forall i | 0 <= i < n
      ensures LostAt(ops, i, path, max) <==> LostAt(ops[..n], i, path, max) && !IsPutOf(ops[n].0, path, max)
    {
      assert ops[..n][..i] == ops[..i];
      assert forall k :: 0 <= k < n ==> ops[..n][k] == ops[k];
    }
    if i: nat :| LostAt(ops, i, path, max) && i < n {
      assert LostAt(ops[..n], i, path, max);
    }
    if !IsPutOf(ops[n].0, path, max) {
      if i: nat :| LostAt(ops[..n], i, path, max) {
        assert LostAt(ops, i, path, max);
      }
    }
  }

  /* Least recently used. */

  // The index of the last operation that used the path.
  function LastUse(ops: seq<(Op, int)>, path: Path, max: nat): Option<nat> {
    if ops == [] then None
    else
      var n := |ops| - 1;
      match ops[n].0
      case Put(p, value) => if p == path && |value| <= max then Some(n) else LastUse(ops[..n], path, max)
      case Get(p) => if p == path then Some(n) else LastUse(ops[..n], path, max)
      case _ => LastUse(ops[..n], path, max)
  }

  // A clock that has moved on before each operation.
  predicate Ticking(ops: seq<(Op, int)>) {
    forall i, j :: 0 <= i < j < |ops| ==> ops[i].1 < ops[j].1
  }

  predicate Uses(op: Op, path: Path) {
    (op.Put? || op.Get?) && op.path == path
  }

  // What is in the cache carries the time of its last use.
  lemma {:induction false} UsedLast(ops: seq<(Op, int)>, max: nat, path: Path)
    requires path in Run(ops, max)
    ensures var used := LastUse(ops, path, max);
      && used.Some? && used.value < |ops|
      && Uses(ops[used.value].0, path) && Run(ops, max)[path].lastUsed == ops[used.value].1
  {
    assert ops != [];
    var before, last := ops[..|ops| - 1], ops[|ops| - 1];
    if last.0.Put? {
      EvictKeeps(Run(before, max), |last.0.value|, max);
    }
    if path in Run(before, max) {
      UsedLast(before, max, path);
    }
  }

  /** Over any run, eviction takes the entries whose last use has the earlier time; under a ticking clock that is the
      entries whose last put or get came first. */
  lemma EvictsLeastRecentlyUsed(ops: seq<(Op, int)>, need: nat, max: nat, gone: Path, kept: Path)
    requires gone in Run(ops, max) && gone !in Evict(Run(ops, max), need, max)
    requires kept in Evict(Run(ops, max), need, max)
    ensures var g, k := LastUse(ops, gone, max), LastUse(ops, kept, max);
      && g.Some? && k.Some? && g.value < |ops| && k.value < |ops|
      && ops[g.value].1 <= ops[k.value].1
      && (Ticking(ops) ==> g.value < k.value)
  {
    hide Run, Evict, LastUse;
    EvictedPrecede(Run(ops, max), need, max, gone, kept);
    UsedLast(ops, max, gone);
    UsedLast(ops, max, kept);
  }

  /** The total never exceeds the limit. */
  lemma {:induction false} RunBounded(ops: seq<(Op, int)>, max: nat)
    requires max < U64_MAX
    ensures Total(Run(ops, max)) <= max
  {
    if ops != [] {
      var before, last := ops[..|ops| - 1], ops[|ops| - 1];
      RunBounded(before, max);
      var fs := Run(before, max);
      match last.0
      case Put(path, value) =>
        if |value| <= max {
          EvictSucceeds(fs, |value|, max);
          PutBound(Evict(fs, |value|, max), path, File(value, last.1), max);
        }
      case Get(path) => if path in fs { TouchBound(fs, path, last.1); }
      case Remove(path) =>
        if path in fs { TotalWithout(fs, path); } else { assert fs - {path} == fs; }
      case Clear =>
    }
  }

  /** With the largest limit the saturating comparison always says that an entry fits: nothing is evicted. */
  lemma LargestLimitNeverEvicts(fs: Files, need: nat)
    ensures FitsIn(Total(fs), need, U64_MAX) && Evict(fs, need, U64_MAX) == fs
  {
  }

  ghost predicate AlwaysBounded(max: nat) {
    forall ops: seq<(Op, int)> :: Total(Run(ops, max)) <= max
  }

  /** The bound holds over all runs exactly for limits below the largest. */
  lemma BoundedBelowLargest(max: nat)
    requires max <= U64_MAX
    ensures AlwaysBounded(max) <==> max < U64_MAX
  {
    hide Run, Total;
    if max < U64_MAX {
      forall ops: seq<(Op, int)> ensures Total(Run(ops, max)) <= max {
        RunBounded(ops, max);
      }
    } else {
      var ops := TooMuch();
    }
  }

  // Three entries, none larger than a slice in memory can be.
  lemma TooMuch() returns (ops: seq<(Op, int)>)
    ensures Total(Run(ops, U64_MAX)) > U64_MAX
  {
    hide Run, Total, Evict;
    var file := File(seq(0x7FFF_FFFF_FFFF_FFFF, _ => 0), 0);
    var a, b, c := Path(LedgerEntry, "a"), Path(LedgerEntry, "b"), Path(LedgerEntry, "c");
    RunMore([], Op.Put(a, file.data), 0, U64_MAX);
    ops := PutMore([], a, file);
    ops := PutMore(ops, b, file);
    ops := PutMore(ops, c, file);
  }

  // Whatever is put under a new path comes on top.
  lemma PutMore(ops: seq<(Op, int)>, path: Path, file: File) returns (more: seq<(Op, int)>)
    requires |file.data| <= U64_MAX && path !in Run(ops, U64_MAX)
    ensures Run(more, U64_MAX) == Run(ops, U64_MAX)[path := file]
    ensures Total(Run(more, U64_MAX)) == Total(Run(ops, U64_MAX)) + |file.data|
  {
    hide Run, Total, Evict;
    var fs := Run(ops, U64_MAX);
    more := ops + [(Op.Put(path, file.data), file.lastUsed)];
    RunMore(ops, Op.Put(path, file.data), file.lastUsed, U64_MAX);
    LargestLimitNeverEvicts(fs, |file.data|);
    TotalWith(fs, path, file);
    assert fs - {path} == fs;
  }

  lemma RunMore(ops: seq<(Op, int)>, op: Op, now: int, max: nat)
    ensures Run([], max) == map[]
    ensures Run(ops + [(op, now)], max) == Apply(Run(ops, max), op, now, max)
  {
    assert (ops + [(op, now)])[..|ops|] == ops;
  }
}
