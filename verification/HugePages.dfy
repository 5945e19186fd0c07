/** Choosing a huge-page size and reserving pages on every node with enough memory. */
module HugePages {
  import opened Settings
  import opened Wrappers
  import opened KernelSettings

  const GIB_KIB: nat := 1048576

  // Supported page sizes in KiB, and the memory of the nodes in KiB by node number.
  const SIZES: seq<nat> := [2048, 524288, 1048576, 16777216]

  datatype Node = Node(id: nat, kib: nat)

  type Pools = map<(nat, nat), Path>

  predicate Eligible(n: Node) {
    n.kib >= GIB_KIB
  }

  predicate Usable(memory: seq<Node>, pools: Pools, size: nat) {
    && size <= GIB_KIB
    && (exists k :: 0 <= k < |memory| && Eligible(memory[k]))
    && forall k :: 0 <= k < |memory| && Eligible(memory[k]) ==> (memory[k].id, size) in pools
  }

  // The largest of the usable ones among the given sizes, 0 when there is none.
  function LargestUsable(memory: seq<Node>, pools: Pools, sizes: seq<nat>): nat {
    if sizes == [] then 0
    else
      var rest := LargestUsable(memory, pools, sizes[1..]);
      if Usable(memory, pools, sizes[0]) && sizes[0] > rest then sizes[0] else rest
  }

  function PickHugePageSize(memory: seq<Node>, pools: Pools): nat {
    LargestUsable(memory, pools, SIZES)
  }

  lemma {:induction false} LargestIsLargest(memory: seq<Node>, pools: Pools, sizes: seq<nat>)
    ensures var r := LargestUsable(memory, pools, sizes);
            && (r != 0 ==> r in sizes && Usable(memory, pools, r))
            && forall s :: s in sizes && Usable(memory, pools, s) ==> s <= r
  {
    if sizes != [] {
      LargestIsLargest(memory, pools, sizes[1..]);
      assert sizes == [sizes[0]] + sizes[1..];
    }
  }

  // Some node has at least 1 GiB, and each such node has a pool of that size.
  ghost predicate Everywhere(memory: seq<Node>, pools: Pools, size: nat) {
    && (exists k :: 0 <= k < |memory| && memory[k].kib >= 1048576)
    && forall k :: 0 <= k < |memory| && memory[k].kib >= 1048576 ==> (memory[k].id, size) in pools
  }

  // The size picked, of 2 MiB, 512 MiB and 1 GiB, is the largest that every node of at least
  // 1 GiB has a pool of; it is 0 exactly when there is no such node or no such size.
  lemma PickedSize(memory: seq<Node>, pools: Pools)
    ensures var r := PickHugePageSize(memory, pools);
            && (r != 0 ==> (r == 2048 || r == 524288 || r == 1048576) && Everywhere(memory, pools, r))
            && (forall s {:trigger Everywhere(memory, pools, s)} ::
                  (s == 2048 || s == 524288 || s == 1048576) && Everywhere(memory, pools, s) ==> s <= r)
            && (r == 0 ==> !Everywhere(memory, pools, 2048) && !Everywhere(memory, pools, 524288)
                           && !Everywhere(memory, pools, 1048576))
            && (r != 0 ==> Usable(memory, pools, r))
  {
    LargestIsLargest(memory, pools, SIZES);
    forall s | s in SIZES && s <= GIB_KIB
      ensures Usable(memory, pools, s) <==> Everywhere(memory, pools, s)
    {
      if Everywhere(memory, pools, s) {
        var k :| 0 <= k < |memory| && memory[k].kib >= 1048576;
        assert Eligible(memory[k]);
      }
      if Usable(memory, pools, s) {
        var k :| 0 <= k < |memory| && Eligible(memory[k]);
        assert memory[k].kib >= 1048576;
      }
    }
    assert SIZES[0] == 2048 && SIZES[1] == 524288 && SIZES[2] == 1048576;
    assert 0 !in SIZES;
  }

  // Pages asked of a node: those of 2 GiB, or of its memory if that is less.
  function PageCount(kib: nat, size: nat): nat
    requires 0 < size
  {
    (if kib < 2 * GIB_KIB then kib else 2 * GIB_KIB) / size
  }

  datatype Target = Target(path: Path, count: nat)

  function Targets(memory: seq<Node>, pools: Pools, size: nat): seq<Target>
    requires 0 < size && Usable(memory, pools, size)
  {
    TargetsUpTo(memory, pools, size, |memory|)
  }

  function TargetsUpTo(memory: seq<Node>, pools: Pools, size: nat, n: nat): seq<Target>
    requires 0 < size && n <= |memory|
    requires forall k :: 0 <= k < |memory| && Eligible(memory[k]) ==> (memory[k].id, size) in pools
  {
    if n == 0 then []
    else
      var node := memory[n - 1];
      TargetsUpTo(memory, pools, size, n - 1)
        + if Eligible(node) then [Target(pools[(node.id, size)], PageCount(node.kib, size))] else []
  }

  // One node: the pool is raised to the count, never lowered.
  function Reserve(script: Script, privileged: bool, h: Host, log: Log, t: Target): Tx {
    var current := Read(script, h, t.path);
    if !current.end.Done? then Tx(current.host, log, Lift(current.end))
    else Set(script, privileged, current.host, log, t.path,
             if current.end.value > t.count then current.end.value else t.count)
  }

  // All nodes in order, stopping at the first that does not end normally.
  function ReserveAll(script: Script, privileged: bool, h: Host, log: Log, targets: seq<Target>): Tx {
    if targets == [] then Tx(h, log, Done(()))
    else
      var tx := ReserveAll(script, privileged, h, log, targets[..|targets| - 1]);
      if tx.end.Done? then Reserve(script, privileged, tx.host, tx.log, targets[|targets| - 1]) else tx
  }

  lemma ReserveConserves(script: Script, privileged: bool, h: Host, log: Log, t: Target)
    requires Sound(h, log)
    ensures var tx := Reserve(script, privileged, h, log, t);
            && Steps(h, log, t.path, tx)
            && (tx.end.Done? ==> t.path in h.values && t.path in tx.host.values)
            && (tx.end.Done? ==>
                  tx.host.values[t.path] == if h.values[t.path] > t.count then h.values[t.path] else t.count)
  {
    TickSteps(h, log, t.path, Raised);
    var current := Read(script, h, t.path);
    if current.end.Done? {
      var value := if current.end.value > t.count then current.end.value else t.count;
      SetConserves(script, privileged, current.host, log, t.path, value);
      var tx := Set(script, privileged, current.host, log, t.path, value);
      Chain({t.path}, h, log, current.host, log, tx.host, tx.log);
    }
  }

  // No pool is smaller than before.
  ghost predicate NotBelow(h: Host, h': Host, p: Path) {
    p in h.values && p in h'.values && h.values[p] <= h'.values[p]
  }

  // However reserving ends, it can be undone; if it ends normally every eligible node has at
  // least the pages asked for, and no pool anywhere has shrunk.
  lemma {:induction false} ReserveAllConserves(script: Script, privileged: bool, h: Host, log: Log,
        targets: seq<Target>)
    requires Sound(h, log)
    ensures var tx := ReserveAll(script, privileged, h, log, targets);
            && Keeps(h, log, tx.host, tx.log)
            && (tx.end.Done? ==>
                  forall p {:trigger NotBelow(h, tx.host, p)} :: p in h.values ==> NotBelow(h, tx.host, p))
            && (tx.end.Done? ==> forall k :: 0 <= k < |targets| ==>
                  targets[k].path in tx.host.values && tx.host.values[targets[k].path] >= targets[k].count)
  {
    if targets == [] {
      assert h == h.(tick := h.tick);
    } else {
      var n := |targets| - 1;
      ReserveAllConserves(script, privileged, h, log, targets[..n]);
      var tx := ReserveAll(script, privileged, h, log, targets[..n]);
      if tx.end.Done? {
        ReserveConserves(script, privileged, tx.host, tx.log, targets[n]);
        var end := Reserve(script, privileged, tx.host, tx.log, targets[n]);
        KeepsTransitive(h, log, tx.host, tx.log, end.host, end.log);
        if end.end.Done? {
          forall p | p in h.values
            ensures NotBelow(h, end.host, p)
          {
            assert NotBelow(h, tx.host, p);
            assert p != targets[n].path ==> Same(tx.host, tx.log, end.host, end.log, p);
          }
          forall k | 0 <= k < |targets|
            ensures targets[k].path in end.host.values && end.host.values[targets[k].path] >= targets[k].count
          {
            if k < n {
              assert targets[..n][k] == targets[k];
              assert targets[k].path != targets[n].path ==> Same(tx.host, tx.log, end.host, end.log, targets[k].path);
            }
          }
        }
      }
    }
  }

  // ---- What setting up does, in terms of the nodes

  // c pages of the size: as many as fit in the node's memory and in 2 GiB.
  ghost predicate IsShare(c: int, kib: nat, size: nat) {
    0 <= c && c * size <= kib && c * size <= 2097152 && (kib < c * size + size || 2097152 < c * size + size)
  }

  // Node k has at least 1 GiB, and p is its pool of that size.
  ghost predicate IsPoolOf(memory: seq<Node>, pools: Pools, size: nat, k: nat, p: Path) {
    k < |memory| && memory[k].kib >= 1048576 && (memory[k].id, size) in pools && pools[(memory[k].id, size)] == p
  }

  // The pool has at least the node's share.
  ghost predicate Served(kib: nat, size: nat, h: Host, p: Path) {
    p in h.values && exists c :: IsShare(c, kib, size) && h.values[p] >= c
  }

  // The setting is as it was, or it is the pool of one of the first n nodes and has grown to
  // exactly its share.
  ghost predicate GrownOnly(memory: seq<Node>, pools: Pools, size: nat, n: nat, h: Host, h': Host, p: Path) {
    && p in h.values && p in h'.values
    && (h'.values[p] == h.values[p]
        || (h.values[p] < h'.values[p]
            && exists k: nat ::
                 k < n && IsPoolOf(memory, pools, size, k, p) && IsShare(h'.values[p], memory[k].kib, size)))
  }

  ghost predicate ReservedUpTo(memory: seq<Node>, pools: Pools, size: nat, n: nat, h: Host, h': Host) {
    && h'.values.Keys == h.values.Keys
    && (forall k: nat, p {:trigger IsPoolOf(memory, pools, size, k, p)} ::
          k < n && IsPoolOf(memory, pools, size, k, p) ==> Served(memory[k].kib, size, h', p))
    && (forall p {:trigger GrownOnly(memory, pools, size, n, h, h', p)} ::
          p in h.values ==> GrownOnly(memory, pools, size, n, h, h', p))
  }

  // Every node of at least 1 GiB has its share in its pool, no setting has shrunk, and only
  // pools of these nodes have grown, to exactly the share.
  ghost predicate Reserved(memory: seq<Node>, pools: Pools, size: nat, h: Host, h': Host) {
    ReservedUpTo(memory, pools, size, |memory|, h, h')
  }

  lemma PageCountIsShare(kib: nat, size: nat)
    requires 0 < size
    ensures IsShare(PageCount(kib, size), kib, size)
  {
    var total := if kib < 2097152 then kib else 2097152;
    var c := PageCount(kib, size);
    assert total == size * c + total % size;
  }

  lemma ReserveAllMeans(script: Script, privileged: bool, h: Host, log: Log,
        memory: seq<Node>, pools: Pools, size: nat)
    requires Sound(h, log) && 0 < size && Usable(memory, pools, size)
    ensures var tx := ReserveAll(script, privileged, h, log, Targets(memory, pools, size));
            tx.end.Done? ==> Reserved(memory, pools, size, h, tx.host)
  {
    ReserveUpToMeans(script, privileged, h, log, memory, pools, size, |memory|);
  }

  lemma {:induction false} ReserveUpToMeans(script: Script, privileged: bool, h: Host, log: Log,
        memory: seq<Node>, pools: Pools, size: nat, n: nat)
    requires Sound(h, log) && 0 < size && Usable(memory, pools, size) && n <= |memory|
    ensures var tx := ReserveAll(script, privileged, h, log, TargetsUpTo(memory, pools, size, n));
            tx.end.Done? ==> ReservedUpTo(memory, pools, size, n, h, tx.host)
  {
    if n > 0 {
      var front, targets := TargetsUpTo(memory, pools, size, n - 1), TargetsUpTo(memory, pools, size, n);
      ReserveUpToMeans(script, privileged, h, log, memory, pools, size, n - 1);
      var before := ReserveAll(script, privileged, h, log, front);
      var after := ReserveAll(script, privileged, h, log, targets);
      if Eligible(memory[n - 1]) {
        assert targets[..|targets| - 1] == front;
        ReserveAllConserves(script, privileged, h, log, front);
        if before.end.Done? && after.end.Done? {
          var t := targets[|targets| - 1];
          ReserveConserves(script, privileged, before.host, before.log, t);
          NodeReserved(memory, pools, size, n - 1, h, before, after);
        }
      } else {
        assert targets == front;
        if after.end.Done? {
          NodeSkipped(memory, pools, size, n - 1, h, after.host);
        }
      }
    }
  }

  lemma NodeSkipped(memory: seq<Node>, pools: Pools, size: nat, n: nat, h: Host, h': Host)
    requires n < |memory| && memory[n].kib < 1048576 && ReservedUpTo(memory, pools, size, n, h, h')
    ensures ReservedUpTo(memory, pools, size, n + 1, h, h')
  {
    forall p | p in h.values
      ensures GrownOnly(memory, pools, size, n + 1, h, h', p)
    {
      assert GrownOnly(memory, pools, size, n, h, h', p);
    }
  }

  // The step for node n, whose pool is at `path` and whose count is `count`.
  lemma NodeReserved(memory: seq<Node>, pools: Pools, size: nat, n: nat, h: Host, before: Tx, after: Tx)
    requires n < |memory| && 0 < size && memory[n].kib >= 1048576 && (memory[n].id, size) in pools
    requires ReservedUpTo(memory, pools, size, n, h, before.host)
    requires var path, count := pools[(memory[n].id, size)], PageCount(memory[n].kib, size);
             && Steps(before.host, before.log, path, after)
             && path in before.host.values && path in after.host.values
             && after.host.values[path]
                == if before.host.values[path] > count then before.host.values[path] else count
    ensures ReservedUpTo(memory, pools, size, n + 1, h, after.host)
  {
    var path := pools[(memory[n].id, size)];
    PageCountIsShare(memory[n].kib, size);
    KeepsSettings(before.host, before.log, after.host, after.log);
    assert IsPoolOf(memory, pools, size, n, path);
    forall p | p in h.values
      ensures GrownOnly(memory, pools, size, n + 1, h, after.host, p)
    {
      assert GrownOnly(memory, pools, size, n, h, before.host, p);
      assert p != path ==> Same(before.host, before.log, after.host, after.log, p);
    }
    forall k: nat, p | k < n + 1 && IsPoolOf(memory, pools, size, k, p)
      ensures Served(memory[k].kib, size, after.host, p)
    {
      if k < n {
        assert Served(memory[k].kib, size, before.host, p);
        assert p != path ==> Same(before.host, before.log, after.host, after.log, p);
      }
    }
  }

  ghost predicate TargetsSmooth(script: Script, h: Host, targets: seq<Target>) {
    forall k :: 0 <= k < |targets| ==> targets[k].path in h.values && SmoothFor(script, targets[k].path)
  }

  // With smooth accesses to pools that are there, reserving ends normally.
  lemma {:induction false} ReserveAllProgress(script: Script, h: Host, log: Log, targets: seq<Target>)
    requires Sound(h, log) && TargetsSmooth(script, h, targets)
    ensures ReserveAll(script, true, h, log, targets).end.Done?
  {
    if targets != [] {
      var n := |targets| - 1;
      ReserveAllProgress(script, h, log, targets[..n]);
      ReserveAllConserves(script, true, h, log, targets[..n]);
      var tx := ReserveAll(script, true, h, log, targets[..n]);
      KeepsSettings(h, log, tx.host, tx.log);
      var t := targets[n];
      assert script(t.path, tx.host.tick) == Smooth;
      var current := Read(script, tx.host, t.path);
      SetProgress(script, current.host, tx.log, t.path,
                  if current.end.value > t.count then current.end.value else t.count);
    }
  }

  // All pools of the map are settings of the host, with smooth accesses.
  ghost predicate PoolsSmooth(script: Script, h: Host, pools: Pools) {
    forall key :: key in pools ==> pools[key] in h.values && SmoothFor(script, pools[key])
  }

  lemma {:induction false} TargetsAreSmooth(script: Script, h: Host, memory: seq<Node>, pools: Pools, size: nat, n: nat)
    requires 0 < size && n <= |memory| && Usable(memory, pools, size) && PoolsSmooth(script, h, pools)
    ensures TargetsSmooth(script, h, TargetsUpTo(memory, pools, size, n))
  {
    if n > 0 {
      TargetsAreSmooth(script, h, memory, pools, size, n - 1);
      var front, targets := TargetsUpTo(memory, pools, size, n - 1), TargetsUpTo(memory, pools, size, n);
      var key := (memory[n - 1].id, size);
      forall k | 0 <= k < |targets|
        ensures targets[k].path in h.values && SmoothFor(script, targets[k].path)
      {
        if k < |front| {
          assert targets[k] == front[k];
        } else {
          assert key in pools && targets[k].path == pools[key];
        }
      }
    }
  }

  // The loop body of setup_huge_pages for an eligible node.
  method ReserveNode(settings: KernelSettings, t: Target) returns (end: End<()>)
    modifies settings, settings.kernel`host
    ensures Tx(settings.kernel.host, settings.log, end)
      == Reserve(settings.kernel.Fates(), settings.privileged, old(settings.kernel.host), old(settings.log), t)
  {
    var current := settings.kernel.ReadFile(t.path);
    if !current.Done? {
      return Lift(current);
    }
    end := settings.SetValue(t.path, if current.value > t.count then current.value else t.count);
  }

  // The loop of setup_huge_pages over the nodes; it stops at the first error.
  method ReserveNodes(settings: KernelSettings, memory: seq<Node>, pools: Pools, size: nat) returns (end: End<()>)
    requires Sound(settings.kernel.host, settings.log) && 0 < size && Usable(memory, pools, size)
    modifies settings, settings.kernel`host
    ensures Keeps(old(settings.kernel.host), old(settings.log), settings.kernel.host, settings.log)
    ensures var tx := ReserveAll(settings.kernel.Fates(), settings.privileged, old(settings.kernel.host),
                                 old(settings.log), Targets(memory, pools, size));
            end == tx.end && (end.Done? ==> Tx(settings.kernel.host, settings.log, end) == tx)
  {
    ghost var h, log, fates := settings.kernel.host, settings.log, settings.kernel.Fates();
    ghost var whole := ReserveAll(fates, settings.privileged, h, log, Targets(memory, pools, size));
    end := Done(());
    var i := 0;
    while i < |memory|
      invariant 0 <= i <= |memory| && end.Done? && settings.kernel.Fates() == fates
      invariant Tx(settings.kernel.host, settings.log, end)
        == ReserveAll(fates, settings.privileged, h, log, TargetsUpTo(memory, pools, size, i))
    {
      var node := memory[i];
      ghost var before, targets := TargetsUpTo(memory, pools, size, i), TargetsUpTo(memory, pools, size, i + 1);
      if Eligible(node) {
        end := ReserveNode(settings, Target(pools[(node.id, size)], PageCount(node.kib, size)));
        assert targets[..|targets| - 1] == before;
        if !end.Done? {
          ReserveAllConserves(fates, settings.privileged, h, log, targets);
          StoppedStays(fates, settings.privileged, h, log, memory, pools, size, i + 1, |memory|);
          return;
        }
      } else {
        assert targets == before;
      }
      i := i + 1;
    }
    ReserveAllConserves(fates, settings.privileged, h, log, Targets(memory, pools, size));
  }

  // Nodes after the one that stopped the loop change nothing.
  lemma {:induction false} StoppedStays(script: Script, privileged: bool, h: Host, log: Log,
        memory: seq<Node>, pools: Pools, size: nat, m: nat, n: nat)
    requires 0 < size && m <= n <= |memory| && Usable(memory, pools, size)
    requires !ReserveAll(script, privileged, h, log, TargetsUpTo(memory, pools, size, m)).end.Done?
    ensures ReserveAll(script, privileged, h, log, TargetsUpTo(memory, pools, size, n))
            == ReserveAll(script, privileged, h, log, TargetsUpTo(memory, pools, size, m))
    decreases n - m
  {
    if m < n {
      StoppedStays(script, privileged, h, log, memory, pools, size, m, n - 1);
      var front, targets := TargetsUpTo(memory, pools, size, n - 1), TargetsUpTo(memory, pools, size, n);
      if Eligible(memory[n - 1]) {
        assert targets[..|targets| - 1] == front;
      } else {
        assert targets == front;
      }
    }
  }

  // setup_huge_pages; the size reported is 0 unless it ends normally, which it does when there
  // is a size to pick and the accesses to the pools are smooth.
  method SetupHugePages(settings: KernelSettings, memory: seq<Node>, pools: Pools)
    returns (size: nat, end: End<()>)
    requires Sound(settings.kernel.host, settings.log)
    modifies settings, settings.kernel`host
    ensures Keeps(old(settings.kernel.host), old(settings.log), settings.kernel.host, settings.log)
    ensures if !end.Done? then size == 0
            else size == PickHugePageSize(memory, pools) != 0 && Usable(memory, pools, size)
    ensures end.Done? ==>
      Tx(settings.kernel.host, settings.log, end)
      == ReserveAll(settings.kernel.Fates(), settings.privileged, old(settings.kernel.host), old(settings.log),
                    Targets(memory, pools, size))
    ensures end.Done? ==> Reserved(memory, pools, size, old(settings.kernel.host), settings.kernel.host)
    ensures PickHugePageSize(memory, pools) == 0 ==>
      end == Raised && settings.kernel.host == old(settings.kernel.host) && settings.log == old(settings.log)
    ensures (settings.privileged && PickHugePageSize(memory, pools) != 0
             && PoolsSmooth(settings.kernel.Fates(), old(settings.kernel.host), pools)) ==> end.Done?
  {
    PickedSize(memory, pools);
    var picked := PickHugePageSize(memory, pools);
    if picked == 0 {
      ReserveAllConserves(settings.kernel.Fates(), settings.privileged, settings.kernel.host, settings.log, []);
      return 0, Raised;
    }
    ghost var h, log, fates := settings.kernel.host, settings.log, settings.kernel.Fates();
    ReserveAllMeans(fates, settings.privileged, h, log, memory, pools, picked);
    if settings.privileged && PoolsSmooth(fates, h, pools) {
      TargetsAreSmooth(fates, h, memory, pools, picked, |memory|);
      ReserveAllProgress(fates, h, log, Targets(memory, pools, picked));
    }
    end := ReserveNodes(settings, memory, pools, picked);
    size := if end.Done? then picked else 0;
  }

  // ---- Clearing, and the stand-alone script

  // The pools of the given size, in the order of the dictionary.
  function PoolsOf(pools: Pools, keys: seq<(nat, nat)>, size: nat): (paths: seq<Path>)
    requires forall k :: 0 <= k < |keys| ==> keys[k] in pools
  {
    if keys == [] then []
    else
      var n := |keys| - 1;
      PoolsOf(pools, keys[..n], size) + if keys[n].1 == size then [pools[keys[n]]] else []
  }

  function ClearAll(script: Script, privileged: bool, h: Host, log: Log, paths: seq<Path>): Tx {
    if paths == [] then Tx(h, log, Done(()))
    else
      var tx := ClearAll(script, privileged, h, log, paths[..|paths| - 1]);
      if tx.end.Done? then Set(script, privileged, tx.host, tx.log, paths[|paths| - 1], 0) else tx
  }

  // However clearing ends, it can be undone and has touched no other setting; if it ends
  // normally all the pools are empty.
  lemma {:induction false} ClearAllConserves(script: Script, privileged: bool, h: Host, log: Log, paths: seq<Path>)
    requires Sound(h, log)
    ensures var tx := ClearAll(script, privileged, h, log, paths);
            && Keeps(h, log, tx.host, tx.log) && OnlyIn(PathSet(paths), h, log, tx.host, tx.log)
            && (tx.end.Done? ==> forall k :: 0 <= k < |paths| ==>
                  paths[k] in tx.host.values && tx.host.values[paths[k]] == 0)
  {
    if paths != [] {
      var n := |paths| - 1;
      ClearAllConserves(script, privileged, h, log, paths[..n]);
      var tx := ClearAll(script, privileged, h, log, paths[..n]);
      Widen(PathSet(paths[..n]), PathSet(paths), h, log, tx.host, tx.log);
      if tx.end.Done? {
        SetConserves(script, privileged, tx.host, tx.log, paths[n], 0);
        var end := Set(script, privileged, tx.host, tx.log, paths[n], 0);
        Widen({paths[n]}, PathSet(paths), tx.host, tx.log, end.host, end.log);
        Chain(PathSet(paths), h, log, tx.host, tx.log, end.host, end.log);
        forall k | end.end.Done? && 0 <= k < |paths|
          ensures paths[k] in end.host.values && end.host.values[paths[k]] == 0
        {
          assert k < n ==> paths[..n][k] == paths[k];
          assert paths[k] != paths[n] ==> Same(tx.host, tx.log, end.host, end.log, paths[k]);
        }
      }
    }
  }

  // The pools of the given size are empty.
  ghost predicate Emptied(h: Host, pools: Pools, size: nat) {
    forall key :: key in pools && key.1 == size ==> pools[key] in h.values && h.values[pools[key]] == 0
  }

  // The keys of a dictionary in the order it is gone through.
  ghost predicate Lists(keys: seq<(nat, nat)>, pools: Pools) {
    Distinct(keys) && forall key :: key in keys <==> key in pools
  }

  lemma {:induction false} PoolsOfLists(pools: Pools, keys: seq<(nat, nat)>, size: nat, k: nat)
    requires (forall k :: 0 <= k < |keys| ==> keys[k] in pools) && k < |keys| && keys[k].1 == size
    ensures pools[keys[k]] in PoolsOf(pools, keys, size)
  {
    var n := |keys| - 1;
    if k < n {
      PoolsOfLists(pools, keys[..n], size, k);
    }
  }

  lemma ClearedAll(pools: Pools, keys: seq<(nat, nat)>, size: nat, h: Host)
    requires Lists(keys, pools)
    requires var paths := PoolsOf(pools, keys, size);
             forall k :: 0 <= k < |paths| ==> paths[k] in h.values && h.values[paths[k]] == 0
    ensures Emptied(h, pools, size)
  {
    forall key | key in pools && key.1 == size
      ensures pools[key] in h.values && h.values[pools[key]] == 0
    {
      var k :| 0 <= k < |keys| && keys[k] == key;
      PoolsOfLists(pools, keys, size, k);
    }
  }

  // The loop of clear_huge_pages; it stops at the first error.
  method ClearPools(settings: KernelSettings, pools: Pools, keys: seq<(nat, nat)>, size: nat) returns (end: End<()>)
    requires Sound(settings.kernel.host, settings.log) && Lists(keys, pools)
    modifies settings, settings.kernel`host
    ensures Keeps(old(settings.kernel.host), old(settings.log), settings.kernel.host, settings.log)
    ensures end.Done? ==>
      && Emptied(settings.kernel.host, pools, size)
      && Tx(settings.kernel.host, settings.log, end)
         == ClearAll(settings.kernel.Fates(), settings.privileged, old(settings.kernel.host),
                     old(settings.log), PoolsOf(pools, keys, size))
  {
    ghost var h, log, fates := settings.kernel.host, settings.log, settings.kernel.Fates();
    end := Done(());
    var i := 0;
    while i < |keys|
      invariant 0 <= i <= |keys| && end.Done? && settings.kernel.Fates() == fates
      invariant Tx(settings.kernel.host, settings.log, end)
        == ClearAll(fates, settings.privileged, h, log, PoolsOf(pools, keys[..i], size))
    {
      ghost var before, paths := PoolsOf(pools, keys[..i], size), PoolsOf(pools, keys[..i + 1], size);
      assert keys[..i + 1][..i] == keys[..i];
      if keys[i].1 == size {
        end := settings.SetValue(pools[keys[i]], 0);
        assert paths[..|paths| - 1] == before;
        if !end.Done? {
          ClearAllConserves(fates, settings.privileged, h, log, paths);
          return;
        }
      } else {
        assert paths == before;
      }
      i := i + 1;
    }
    assert keys[..i] == keys;
    ClearAllConserves(fates, settings.privileged, h, log, PoolsOf(pools, keys, size));
    ClearedAll(pools, keys, size, settings.kernel.host);
  }

  // clear_huge_pages: ending normally, every pool of the size picked is empty, and no other
  // setting has changed.
  method ClearHugePages(settings: KernelSettings, memory: seq<Node>, pools: Pools, keys: seq<(nat, nat)>)
    returns (end: End<()>)
    requires Sound(settings.kernel.host, settings.log) && Lists(keys, pools)
    modifies settings, settings.kernel`host
    ensures Keeps(old(settings.kernel.host), old(settings.log), settings.kernel.host, settings.log)
    ensures var size := PickHugePageSize(memory, pools);
            && (size == 0 ==> end == Raised && settings.kernel.host == old(settings.kernel.host))
            && (end.Done? ==>
                  && Emptied(settings.kernel.host, pools, size)
                  && Tx(settings.kernel.host, settings.log, end)
                     == ClearAll(settings.kernel.Fates(), settings.privileged, old(settings.kernel.host),
                                 old(settings.log), PoolsOf(pools, keys, size)))
  {
    var size := PickHugePageSize(memory, pools);
    if size == 0 {
      ClearAllConserves(settings.kernel.Fates(), settings.privileged, settings.kernel.host, settings.log, []);
      return Raised;
    }
    end := ClearPools(settings, pools, keys, size);
  }

  datatype Action = Setup | Clear

  // The stand-alone script: an action that does not end normally, for whatever reason, is
  // undone as far as restoring allows. If the restore ends normally nothing is left changed.
  method RunAction(settings: KernelSettings, action: Action, memory: seq<Node>, pools: Pools, keys: seq<(nat, nat)>)
    returns (end: End<()>, restored: End<()>)
    requires Sound(settings.kernel.host, settings.log) && settings.log == EMPTY
    requires Lists(keys, pools)
    modifies settings, settings.kernel`host
    ensures Keeps(old(settings.kernel.host), EMPTY, settings.kernel.host, settings.log)
    ensures !end.Done? && restored.Done? ==>
      settings.kernel.host.values == old(settings.kernel.host).values && settings.log.original == map[]
    ensures var size := PickHugePageSize(memory, pools);
            && (end.Done? && action.Setup? ==>
                  size != 0 && Reserved(memory, pools, size, old(settings.kernel.host), settings.kernel.host))
            && (end.Done? && action.Clear? ==> size != 0 && Emptied(settings.kernel.host, pools, size))
  {
    ghost var h := settings.kernel.host;
    if action.Setup? {
      var size;
      size, end := SetupHugePages(settings, memory, pools);
    } else {
      end := ClearHugePages(settings, memory, pools, keys);
    }
    restored := Done(());
    if !end.Done? {
      ghost var h1, log1 := settings.kernel.host, settings.log;
      RestoreConserves(settings.kernel.Fates(), settings.privileged, h1, log1);
      restored := settings.RestoreAll();
      KeepsTransitive(h, EMPTY, h1, log1, settings.kernel.host, settings.log);
      KeepsSettings(h, EMPTY, h1, log1);
    }
  }
}
