/**
 The undo log of kernel settings. Every access to the host can go wrong: reads and writes
 can raise, a write can store another value than asked, and an interrupt can arrive before
 or after the effect of any access. What happens at each access is given by a script.
 */
module Settings {
  import opened Wrappers

  type Path = string

  // Fate of one access. A raising or interrupted write may still have stored something.
  datatype Fate = Smooth | Clamped(stored: int) | Fails(effect: Option<int>) | Interrupts(effect: Option<int>)

  // The fate of the access numbered by its tick, to the given path.
  type Script = (Path, nat) -> Fate

  // How a piece of code ends: with a value, with a caught kind of error, or interrupted.
  datatype End<+T> = Done(value: T) | Raised | Interrupted

  datatype Host = Host(values: map<Path, int>, tick: nat) {
    function Tick(): Host { this.(tick := tick + 1) }

    function Store(path: Path, effect: Option<int>): Host {
      if effect.Some? && path in values then this.(values := values[path := effect.value]) else this
    }
  }

  datatype Io<+T> = Io(host: Host, end: End<T>)

  function Read(script: Script, h: Host, path: Path): Io<int> {
    match script(path, h.tick)
    case Interrupts(_) => Io(h.Tick(), Interrupted)
    case Fails(_) => Io(h.Tick(), Raised)
    case _ => Io(h.Tick(), if path in h.values then Done(h.values[path]) else Raised)
  }

  function Write(script: Script, privileged: bool, h: Host, path: Path, value: int): Io<()> {
    if !privileged || path !in h.values then Io(h, Raised)
    else
      match script(path, h.tick)
      case Smooth => Io(h.Tick().Store(path, Some(value)), Done(()))
      case Clamped(stored) => Io(h.Tick().Store(path, Some(stored)), Done(()))
      case Fails(effect) => Io(h.Tick().Store(path, effect), Raised)
      case Interrupts(effect) => Io(h.Tick().Store(path, effect), Interrupted)
  }

  // A point between two statements, where only an interrupt can happen.
  function Pause(script: Script, h: Host, path: Path): Io<()> {
    Io(h.Tick(), if script(path, h.tick).Interrupts? then Interrupted else Done(()))
  }

  // The dictionary of original values, with its insertion order.
  datatype Log = Log(original: map<Path, int>, order: seq<Path>) {
    ghost predicate Listed(p: Path) {
      p in order <==> p in original
    }

    ghost predicate Valid() {
      Distinct(order) && forall p {:trigger Listed(p)} :: Listed(p)
    }

    function SetDefault(path: Path, value: int): Log {
      if path in original then this else Log(original[path := value], order + [path])
    }

    function Delete(path: Path): Log {
      Log(original - {path}, Without(order, path))
    }
  }

  // The paths still to be restored are distinct and all in the log.
  ghost predicate Pending(log: Log, todo: seq<Path>) {
    Distinct(todo) && forall k :: 0 <= k < |todo| ==> todo[k] in log.original
  }

  const EMPTY: Log := Log(map[], [])

  function Without(order: seq<Path>, path: Path): (r: seq<Path>)
    ensures |r| <= |order|
  {
    if order == [] then []
    else
      var n := |order| - 1;
      Without(order[..n], path) + if order[n] == path then [] else [order[n]]
  }

  function Reversed(order: seq<Path>): (r: seq<Path>)
    ensures |r| == |order|
  {
    if order == [] then [] else [order[|order| - 1]] + Reversed(order[..|order| - 1])
  }

  datatype Tx = Tx(host: Host, log: Log, end: End<()>)

  // KernelSettings.set: record before writing, read back after.
  function Set(script: Script, privileged: bool, h: Host, log: Log, path: Path, value: int): Tx {
    var r := Read(script, h, path);
    if !r.end.Done? then Tx(r.host, log, Lift(r.end))
    else if r.end.value == value then Tx(r.host, log, Done(()))
    else
      var log' := log.SetDefault(path, r.end.value);
      var w := Write(script, privileged, r.host, path, value);
      if !w.end.Done? then Tx(w.host, log', w.end)
      else
        var b := Read(script, w.host, path);
        Tx(b.host, log', if b.end.Done? && b.end.value != value then Raised else Lift(b.end))
  }

  function Lift<T>(e: End<T>): End<()> {
    match e case Done(_) => Done(()) case Raised => Raised case Interrupted => Interrupted
  }

  // One entry of KernelSettings.restore: Done means the entry has been deleted, Raised that
  // its error has been noted.
  function RestoreEntry(script: Script, privileged: bool, h: Host, log: Log, path: Path): Tx
    requires path in log.original
  {
    var value := log.original[path];
    var r := Read(script, h, path);
    if !r.end.Done? then Tx(r.host, log, Lift(r.end))
    else if r.end.value == value then Forget(script, r.host, log, path)
    else
      var w := Write(script, privileged, r.host, path, value);
      if !w.end.Done? then Tx(w.host, log, w.end)
      else
        var b := Read(script, w.host, path);
        if !b.end.Done? then Tx(b.host, log, Lift(b.end))
        else if b.end.value != value then Tx(b.host, log, Raised)
        else Forget(script, b.host, log, path)
  }

  function Forget(script: Script, h: Host, log: Log, path: Path): Tx {
    var p := Pause(script, h, path);
    Tx(p.host, if p.end.Done? then log.Delete(path) else log, p.end)
  }

  // The loop of restore over a snapshot of the paths; an error does not stop it.
  function RestoreLoop(script: Script, privileged: bool, h: Host, log: Log, todo: seq<Path>, errors: nat): Tx
    requires Pending(log, todo)
    decreases |todo|
  {
    if todo == [] then Tx(h, log, if errors > 0 then Raised else Done(()))
    else
      var e := RestoreEntry(script, privileged, h, log, todo[0]);
      EntryKeepsOthers(script, privileged, h, log, todo[0]);
      PendingTail(log, todo, e.log);
      if e.end.Interrupted? then e
      else RestoreLoop(script, privileged, e.host, e.log, todo[1..], errors + if e.end.Raised? then 1 else 0)
  }

  function Restore(script: Script, privileged: bool, h: Host, log: Log): Tx
    requires log.Valid()
  {
    AllPending(log);
    RestoreLoop(script, privileged, h, log, Reversed(log.order), 0)
  }

  lemma EntryKeepsOthers(script: Script, privileged: bool, h: Host, log: Log, path: Path)
    requires path in log.original
    ensures var tx := RestoreEntry(script, privileged, h, log, path);
            tx.log == if tx.end.Done? then log.Delete(path) else log
  {
  }

  lemma PendingTail(log: Log, todo: seq<Path>, log': Log)
    requires Pending(log, todo) && todo != []
    requires log' == log || log' == log.Delete(todo[0])
    ensures Pending(log', todo[1..]) && todo[0] !in todo[1..]
  {
  }

  // ---- Dictionary order

  lemma DistinctAppend(a: seq<Path>, x: Path)
    requires Distinct(a) && x !in a
    ensures Distinct(a + [x]) && Distinct([x] + a)
  {
  }

  lemma {:induction false} ReversedMembers(order: seq<Path>)
    ensures forall p :: p in Reversed(order) <==> p in order
    ensures Distinct(order) ==> Distinct(Reversed(order))
  {
    if order != [] {
      var n := |order| - 1;
      ReversedMembers(order[..n]);
      assert order == order[..n] + [order[n]];
      if Distinct(order) {
        DistinctAppend(Reversed(order[..n]), order[n]);
      }
    }
  }

  lemma {:induction false} WithoutMembers(order: seq<Path>, path: Path)
    ensures forall p :: p in Without(order, path) <==> p in order && p != path
    ensures Distinct(order) ==> Distinct(Without(order, path))
  {
    if order != [] {
      var n := |order| - 1;
      WithoutMembers(order[..n], path);
      assert order == order[..n] + [order[n]];
      if Distinct(order) && order[n] != path {
        DistinctAppend(Without(order[..n], path), order[n]);
      }
    }
  }

  lemma AllPending(log: Log)
    requires log.Valid()
    ensures Pending(log, Reversed(log.order))
    ensures forall p {:trigger p in Reversed(log.order)} :: p in Reversed(log.order) <==> p in log.original
  {
    ReversedMembers(log.order);
    forall p
      ensures p in Reversed(log.order) <==> p in log.original
    {
      assert log.Listed(p);
    }
  }

  // ---- The conserved quantity

  // The settings as they would be after undoing the log: what a path was before it was
  // first changed.
  function Undone(h: Host, log: Log): map<Path, int> {
    h.values + log.original
  }

  ghost predicate Known(h: Host, log: Log, p: Path) {
    p in log.original ==> p in h.values
  }

  // The log only names settings of the host, and is well formed.
  ghost predicate Sound(h: Host, log: Log) {
    log.Valid() && forall p {:trigger Known(h, log, p)} :: Known(h, log, p)
  }

  // At path p, what undoing the log would give is the same in both states.
  ghost predicate SameUndone(h: Host, log: Log, h': Host, log': Log, p: Path) {
    && (p in h'.values <==> p in h.values)
    && (p in Undone(h', log') <==> p in Undone(h, log))
    && (p in Undone(h, log) ==> Undone(h', log')[p] == Undone(h, log)[p])
  }

  // At path p, nothing differs between the two states.
  ghost predicate Same(h: Host, log: Log, h': Host, log': Log, p: Path) {
    && (p in h'.values <==> p in h.values) && (p in h.values ==> h'.values[p] == h.values[p])
    && (p in log'.original <==> p in log.original)
  }

  // From one state to another: still sound, and undoing gives the same.
  ghost predicate Keeps(h: Host, log: Log, h': Host, log': Log) {
    && Sound(h', log')
    && forall p {:trigger SameUndone(h, log, h', log', p)} :: SameUndone(h, log, h', log', p)
  }

  // Every setting outside `paths` is as it was, on the host and in the log.
  ghost predicate OnlyIn(paths: set<Path>, h: Host, log: Log, h': Host, log': Log) {
    forall p {:trigger Same(h, log, h', log', p)} :: p !in paths ==> Same(h, log, h', log', p)
  }

  lemma KeepsSettings(h: Host, log: Log, h': Host, log': Log)
    requires Keeps(h, log, h', log')
    ensures h'.values.Keys == h.values.Keys && Undone(h', log') == Undone(h, log)
  {
    forall p
      ensures p in h'.values <==> p in h.values
      ensures p in Undone(h', log') <==> p in Undone(h, log)
      ensures p in Undone(h, log) ==> Undone(h', log')[p] == Undone(h, log)[p]
    {
      assert SameUndone(h, log, h', log', p);
    }
  }

  lemma RecordKeeps(h: Host, log: Log, path: Path)
    requires Sound(h, log) && path in h.values
    ensures var log' := log.SetDefault(path, h.values[path]);
            Keeps(h, log, h, log') && OnlyIn({path}, h, log, h, log') && path in log'.original
  {
    var log' := log.SetDefault(path, h.values[path]);
    if path !in log.original {
      assert log.Listed(path);
      DistinctAppend(log.order, path);
      forall p
        ensures log'.Listed(p) && Known(h, log', p)
      {
        assert log.Listed(p) && Known(h, log, p);
      }
    }
  }

  lemma StoreKeeps(h: Host, log: Log, path: Path, effect: Option<int>)
    requires Sound(h, log) && path in log.original
    ensures var h' := h.Tick().Store(path, effect);
            Keeps(h, log, h', log) && OnlyIn({path}, h, log, h', log)
  {
    var h' := h.Tick().Store(path, effect);
    forall p
      ensures Known(h', log, p)
    {
      assert Known(h, log, p);
    }
  }

  lemma DeleteKeeps(h: Host, log: Log, path: Path)
    requires Sound(h, log) && path in log.original && path in h.values && h.values[path] == log.original[path]
    ensures var log' := log.Delete(path);
            Keeps(h, log, h, log') && OnlyIn({path}, h, log, h, log') && path !in log'.original
  {
    var log' := log.Delete(path);
    WithoutMembers(log.order, path);
    forall p
      ensures log'.Listed(p) && Known(h, log', p)
    {
      assert log.Listed(p) && Known(h, log, p);
    }
  }

  lemma WriteKeeps(script: Script, privileged: bool, h: Host, log: Log, path: Path, value: int)
    requires Sound(h, log) && path in log.original
    ensures var w := Write(script, privileged, h, path, value);
            Keeps(h, log, w.host, log) && OnlyIn({path}, h, log, w.host, log)
  {
    match script(path, h.tick)
    case Smooth => StoreKeeps(h, log, path, Some(value));
    case Clamped(stored) => StoreKeeps(h, log, path, Some(stored));
    case Fails(effect) => StoreKeeps(h, log, path, effect);
    case Interrupts(effect) => StoreKeeps(h, log, path, effect);
  }

  lemma TickKeeps(h: Host, log: Log)
    requires Sound(h, log)
    ensures Keeps(h, log, h.Tick(), log) && OnlyIn({}, h, log, h.Tick(), log)
  {
    forall p
      ensures Known(h.Tick(), log, p)
    {
      assert Known(h, log, p);
    }
  }

  lemma Chain(paths: set<Path>, h: Host, log: Log, h1: Host, log1: Log, h2: Host, log2: Log)
    requires Keeps(h, log, h1, log1) && OnlyIn(paths, h, log, h1, log1)
    requires Keeps(h1, log1, h2, log2) && OnlyIn(paths, h1, log1, h2, log2)
    ensures Keeps(h, log, h2, log2) && OnlyIn(paths, h, log, h2, log2)
  {
    forall p
      ensures SameUndone(h, log, h2, log2, p)
    {
      assert SameUndone(h, log, h1, log1, p) && SameUndone(h1, log1, h2, log2, p);
    }
    forall p | p !in paths
      ensures Same(h, log, h2, log2, p)
    {
      assert Same(h, log, h1, log1, p) && Same(h1, log1, h2, log2, p);
    }
  }

  lemma Widen(few: set<Path>, many: set<Path>, h: Host, log: Log, h': Host, log': Log)
    requires OnlyIn(few, h, log, h', log') && few <= many
    ensures OnlyIn(many, h, log, h', log')
  {
  }

  // A piece of code that only concerns `path`: sound, conserving, and ending as it should.
  ghost predicate Steps(h: Host, log: Log, path: Path, tx: Tx) {
    Keeps(h, log, tx.host, tx.log) && OnlyIn({path}, h, log, tx.host, tx.log)
  }

  lemma TickSteps(h: Host, log: Log, path: Path, end: End<()>)
    requires Sound(h, log)
    ensures Steps(h, log, path, Tx(h.Tick(), log, end))
  {
    TickKeeps(h, log);
    Widen({}, {path}, h, log, h.Tick(), log);
  }

  lemma ThenTick(h: Host, log: Log, path: Path, h1: Host, log1: Log, end: End<()>)
    requires Keeps(h, log, h1, log1) && OnlyIn({path}, h, log, h1, log1)
    ensures Steps(h, log, path, Tx(h1.Tick(), log1, end))
  {
    TickSteps(h1, log1, path, end);
    Chain({path}, h, log, h1, log1, h1.Tick(), log1);
  }

  // Setting a value, however it ends, leaves the undone settings and every other setting as
  // they were; if it ends normally the host has the value.
  lemma SetConserves(script: Script, privileged: bool, h: Host, log: Log, path: Path, value: int)
    requires Sound(h, log)
    ensures var tx := Set(script, privileged, h, log, path, value);
            && Steps(h, log, path, tx)
            && (tx.end.Done? ==> path in tx.host.values && tx.host.values[path] == value)
  {
    var r := Read(script, h, path);
    TickSteps(h, log, path, Raised);
    if r.end.Done? && r.end.value != value {
      var log' := log.SetDefault(path, r.end.value);
      RecordKeeps(r.host, log, path);
      Chain({path}, h, log, r.host, log, r.host, log');
      WriteKeeps(script, privileged, r.host, log', path, value);
      var w := Write(script, privileged, r.host, path, value);
      Chain({path}, h, log, r.host, log', w.host, log');
      ThenTick(h, log, path, w.host, log', Raised);
    }
  }

  lemma ForgetConserves(script: Script, h: Host, log: Log, path: Path)
    requires Sound(h, log) && path in log.original && path in h.values && h.values[path] == log.original[path]
    ensures var tx := Forget(script, h, log, path);
            Steps(h, log, path, tx) && (tx.end.Done? <==> path !in tx.log.original)
  {
    TickSteps(h, log, path, Raised);
    DeleteKeeps(h.Tick(), log, path);
    Chain({path}, h, log, h.Tick(), log, h.Tick(), log.Delete(path));
  }

  // So does restoring one entry, which then has its original value back if it is deleted.
  lemma RestoreEntryConserves(script: Script, privileged: bool, h: Host, log: Log, path: Path)
    requires Sound(h, log) && path in log.original
    ensures var tx := RestoreEntry(script, privileged, h, log, path);
            Steps(h, log, path, tx) && (tx.end.Done? <==> path !in tx.log.original)
  {
    var value := log.original[path];
    var r := Read(script, h, path);
    TickSteps(h, log, path, Raised);
    if r.end.Done? && r.end.value == value {
      ForgetConserves(script, r.host, log, path);
      var tx := Forget(script, r.host, log, path);
      Chain({path}, h, log, r.host, log, tx.host, tx.log);
    } else if r.end.Done? {
      WriteKeeps(script, privileged, r.host, log, path, value);
      var w := Write(script, privileged, r.host, path, value);
      Chain({path}, h, log, r.host, log, w.host, log);
      ThenTick(h, log, path, w.host, log, Raised);
      var b := Read(script, w.host, path);
      if w.end.Done? && b.end.Done? && b.end.value == value {
        ForgetConserves(script, b.host, log, path);
        var tx := Forget(script, b.host, log, path);
        Chain({path}, h, log, b.host, log, tx.host, tx.log);
      }
    }
  }

  function PathSet(todo: seq<Path>): set<Path> {
    set p | p in todo
  }

  ghost predicate Cleared(log: Log, todo: seq<Path>) {
    forall k :: 0 <= k < |todo| ==> todo[k] !in log.original
  }

  // What a stretch of the restoring loop does: only to the settings it has to restore, and
  // it ends normally only if it meets no error and clears them all, raising only if it met
  // an error or leaves one of them.
  ghost predicate Restores(h: Host, log: Log, todo: seq<Path>, errors: nat, tx: Tx) {
    && Keeps(h, log, tx.host, tx.log) && OnlyIn(PathSet(todo), h, log, tx.host, tx.log)
    && (tx.end.Done? ==> errors == 0 && Cleared(tx.log, todo))
    && (tx.end.Raised? ==> errors > 0 || !Cleared(tx.log, todo))
  }

  lemma RestoresCons(h: Host, log: Log, todo: seq<Path>, errors: nat, e: Tx, tx: Tx)
    requires todo != [] && todo[0] !in todo[1..]
    requires Steps(h, log, todo[0], e) && (e.end.Done? <==> todo[0] !in e.log.original)
    requires if e.end.Interrupted? then tx == e
             else Restores(e.host, e.log, todo[1..], errors + if e.end.Raised? then 1 else 0, tx)
    ensures Restores(h, log, todo, errors, tx)
  {
    var path, paths := todo[0], PathSet(todo);
    Widen({path}, paths, h, log, e.host, e.log);
    if !e.end.Interrupted? {
      Widen(PathSet(todo[1..]), paths, e.host, e.log, tx.host, tx.log);
      Chain(paths, h, log, e.host, e.log, tx.host, tx.log);
      assert Same(e.host, e.log, tx.host, tx.log, path);
      assert tx.end.Raised? && !Cleared(tx.log, todo[1..]) ==> !Cleared(tx.log, todo) by {
        assert Cleared(tx.log, todo) ==> forall k :: 0 <= k < |todo[1..]| ==> todo[1..][k] == todo[k + 1];
      }
    }
  }

  lemma {:induction false} RestoreLoopConserves(script: Script, privileged: bool, h: Host, log: Log,
        todo: seq<Path>, errors: nat)
    requires Sound(h, log) && Pending(log, todo)
    ensures Restores(h, log, todo, errors, RestoreLoop(script, privileged, h, log, todo, errors))
    decreases |todo|
  {
    if todo == [] {
      assert PathSet(todo) == {};
    } else {
      RestoreEntryConserves(script, privileged, h, log, todo[0]);
      var e := RestoreEntry(script, privileged, h, log, todo[0]);
      EntryKeepsOthers(script, privileged, h, log, todo[0]);
      PendingTail(log, todo, e.log);
      if !e.end.Interrupted? {
        RestoreLoopConserves(script, privileged, e.host, e.log, todo[1..], errors + if e.end.Raised? then 1 else 0);
      }
      RestoresCons(h, log, todo, errors, e, RestoreLoop(script, privileged, h, log, todo, errors));
    }
  }

  // What a whole restore does, in terms of the settings. However it ends it conserves the
  // undone settings and touches nothing outside the log; a setting no longer in the log is
  // back; ending normally, all are; raising, some are left.
  ghost predicate RestoreSpec(h: Host, log: Log, tx: Tx) {
    && Keeps(h, log, tx.host, tx.log)
    && tx.log.original.Keys <= log.original.Keys
    && (forall p :: p in h.values && p !in log.original ==> p in tx.host.values && tx.host.values[p] == h.values[p])
    && (forall p :: p in h.values && p !in tx.log.original ==>
          p in tx.host.values && tx.host.values[p] == Undone(h, log)[p])
    && (tx.end.Done? ==> tx.log.original == map[] && tx.host.values == Undone(h, log))
    && (tx.end.Raised? ==> tx.log.original != map[])
  }

  lemma RestoreConserves(script: Script, privileged: bool, h: Host, log: Log)
    requires Sound(h, log)
    ensures RestoreSpec(h, log, Restore(script, privileged, h, log))
  {
    AllPending(log);
    RestoreLoopConserves(script, privileged, h, log, Reversed(log.order), 0);
    RestoresAll(h, log, Reversed(log.order), Restore(script, privileged, h, log));
  }

  lemma RestoresAll(h: Host, log: Log, todo: seq<Path>, tx: Tx)
    requires Restores(h, log, todo, 0, tx)
    requires forall p {:trigger p in todo} :: p in todo <==> p in log.original
    ensures RestoreSpec(h, log, tx)
  {
    KeepsSettings(h, log, tx.host, tx.log);
    forall p
      ensures p !in log.original ==> Same(h, log, tx.host, tx.log, p)
      ensures p in tx.log.original ==> p in todo
    {
      assert p in PathSet(todo) <==> p in todo;
      assert p !in todo ==> Same(h, log, tx.host, tx.log, p);
    }
    forall p | p in h.values && p !in tx.log.original
      ensures tx.host.values[p] == Undone(h, log)[p]
    {
      assert Undone(tx.host, tx.log)[p] == tx.host.values[p];
    }
    if tx.end.Done? {
      assert tx.log.original.Keys == {};
      assert tx.host.values == Undone(tx.host, tx.log);
    }
  }

  // ---- Progress

  // No access to the path goes wrong.
  ghost predicate SmoothFor(script: Script, path: Path) {
    forall t :: script(path, t) == Smooth
  }

  lemma RestoreEntrySmooth(script: Script, h: Host, log: Log, path: Path)
    requires Sound(h, log) && path in log.original && SmoothFor(script, path)
    ensures RestoreEntry(script, true, h, log, path).end.Done?
  {
    assert Known(h, log, path);
  }

  // A privileged set whose accesses succeed ends normally, whether or not the value was there
  // already, having changed that setting only.
  lemma SetProgress(script: Script, h: Host, log: Log, path: Path, value: int)
    requires SmoothFor(script, path) && path in h.values
    ensures var tx := Set(script, true, h, log, path, value);
            && tx.end == Done(()) && tx.host.values == h.values[path := value]
            && tx.log == if h.values[path] == value then log else log.SetDefault(path, h.values[path])
  {
    assert script(path, h.tick) == Smooth && script(path, h.tick + 1) == Smooth && script(path, h.tick + 2) == Smooth;
  }

  // Without privilege a set changes no setting, and ends normally only if the value was there
  // already.
  lemma SetRefused(script: Script, h: Host, log: Log, path: Path, value: int)
    ensures var tx := Set(script, false, h, log, path, value);
            && tx.host.values == h.values
            && (tx.end.Done? ==> path in h.values && h.values[path] == value && tx.log == log)
  {
    assert Write(script, false, h.Tick(), path, value) == Io(h.Tick(), Raised);
  }

  // Nor does a restore change any.
  lemma RestoreRefused(script: Script, h: Host, log: Log)
    requires log.Valid()
    ensures Restore(script, false, h, log).host.values == h.values
  {
    AllPending(log);
    RestoreLoopRefused(script, h, log, Reversed(log.order), 0);
  }

  lemma {:induction false} RestoreLoopRefused(script: Script, h: Host, log: Log, todo: seq<Path>, errors: nat)
    requires Pending(log, todo)
    ensures RestoreLoop(script, false, h, log, todo, errors).host.values == h.values
    decreases |todo|
  {
    if todo != [] {
      var e := RestoreEntry(script, false, h, log, todo[0]);
      EntryKeepsOthers(script, false, h, log, todo[0]);
      PendingTail(log, todo, e.log);
      if !e.end.Interrupted? {
        RestoreLoopRefused(script, e.host, e.log, todo[1..], errors + if e.end.Raised? then 1 else 0);
      }
    }
  }

  // Whatever happens to the other settings, one whose accesses all succeed is restored and
  // forgotten, unless the restoring is interrupted.
  lemma {:induction false} RestoreLoopProgress(script: Script, h: Host, log: Log, todo: seq<Path>,
        errors: nat, path: Path)
    requires Sound(h, log) && Pending(log, todo)
    requires path in todo && SmoothFor(script, path)
    ensures var tx := RestoreLoop(script, true, h, log, todo, errors);
            !tx.end.Interrupted? ==> path !in tx.log.original
    decreases |todo|
  {
    var e := RestoreEntry(script, true, h, log, todo[0]);
    RestoreEntryConserves(script, true, h, log, todo[0]);
    EntryKeepsOthers(script, true, h, log, todo[0]);
    PendingTail(log, todo, e.log);
    if !e.end.Interrupted? {
      var errors' := errors + if e.end.Raised? then 1 else 0;
      var tx := RestoreLoop(script, true, e.host, e.log, todo[1..], errors');
      if todo[0] == path {
        RestoreEntrySmooth(script, h, log, path);
        RestoreLoopConserves(script, true, e.host, e.log, todo[1..], errors');
        assert Same(e.host, e.log, tx.host, tx.log, path);
      } else {
        RestoreLoopProgress(script, e.host, e.log, todo[1..], errors', path);
      }
    }
  }

  lemma RestoreProgress(script: Script, h: Host, log: Log, path: Path)
    requires Sound(h, log) && path in log.original && SmoothFor(script, path)
    ensures var tx := Restore(script, true, h, log);
            !tx.end.Interrupted? ==>
              path !in tx.log.original && path in tx.host.values && tx.host.values[path] == log.original[path]
  {
    AllPending(log);
    assert path in Reversed(log.order);
    RestoreLoopProgress(script, h, log, Reversed(log.order), 0, path);
    RestoreConserves(script, true, h, log);
    assert Known(h, log, path);
  }

  lemma {:induction false} RestoreLoopSmooth(script: Script, h: Host, log: Log, todo: seq<Path>)
    requires Sound(h, log) && Pending(log, todo)
    requires forall k :: 0 <= k < |todo| ==> SmoothFor(script, todo[k])
    ensures RestoreLoop(script, true, h, log, todo, 0).end.Done?
    decreases |todo|
  {
    if todo != [] {
      var e := RestoreEntry(script, true, h, log, todo[0]);
      RestoreEntrySmooth(script, h, log, todo[0]);
      RestoreEntryConserves(script, true, h, log, todo[0]);
      EntryKeepsOthers(script, true, h, log, todo[0]);
      PendingTail(log, todo, e.log);
      RestoreLoopSmooth(script, e.host, e.log, todo[1..]);
    }
  }

  // When all accesses to logged settings succeed, restoring ends normally.
  lemma RestoreSmooth(script: Script, h: Host, log: Log)
    requires Sound(h, log) && forall p :: p in log.original ==> SmoothFor(script, p)
    ensures Restore(script, true, h, log).end.Done?
    ensures Restore(script, true, h, log).host.values == Undone(h, log)
  {
    AllPending(log);
    RestoreLoopSmooth(script, h, log, Reversed(log.order));
    RestoreConserves(script, true, h, log);
  }

  // ---- Whole runs

  datatype Cmd = SetCmd(path: Path, value: int) | RestoreCmd

  function RunCmd(script: Script, privileged: bool, h: Host, log: Log, c: Cmd): Tx
    requires log.Valid()
  {
    match c
    case SetCmd(path, value) => Set(script, privileged, h, log, path, value)
    case RestoreCmd => Restore(script, privileged, h, log)
  }

  // Any calls one after the other, whatever each of them ends with.
  ghost function RunCmds(script: Script, privileged: bool, h: Host, log: Log, cmds: seq<Cmd>): Tx
    requires Sound(h, log)
    decreases |cmds|
  {
    if cmds == [] then Tx(h, log, Done(()))
    else
      var tx := RunCmd(script, privileged, h, log, cmds[0]);
      CmdConserves(script, privileged, h, log, cmds[0]);
      RunCmds(script, privileged, tx.host, tx.log, cmds[1..])
  }

  // Neither the log nor any of the calls names the path.
  ghost predicate Untouched(log: Log, cmds: seq<Cmd>, p: Path) {
    p !in log.original && forall k :: 0 <= k < |cmds| && cmds[k].SetCmd? ==> cmds[k].path != p
  }

  lemma CmdConserves(script: Script, privileged: bool, h: Host, log: Log, c: Cmd)
    requires Sound(h, log)
    ensures var tx := RunCmd(script, privileged, h, log, c);
            && Keeps(h, log, tx.host, tx.log)
            && forall p {:trigger Same(h, log, tx.host, tx.log, p)} ::
                 Untouched(log, [c], p) ==> Same(h, log, tx.host, tx.log, p)
  {
    match c
    case SetCmd(path, value) =>
      SetConserves(script, privileged, h, log, path, value);
      assert forall p :: Untouched(log, [c], p) ==> [c][0].path != p;
    case RestoreCmd =>
      RestoreConserves(script, privileged, h, log);
      var tx := Restore(script, privileged, h, log);
      KeepsSettings(h, log, tx.host, tx.log);
  }

  lemma {:induction false} RunConserves(script: Script, privileged: bool, h: Host, log: Log, cmds: seq<Cmd>, p: Path)
    requires Sound(h, log)
    ensures var tx := RunCmds(script, privileged, h, log, cmds);
            && Keeps(h, log, tx.host, tx.log)
            && (Untouched(log, cmds, p) ==> Same(h, log, tx.host, tx.log, p))
    decreases |cmds|
  {
    if cmds != [] {
      CmdConserves(script, privileged, h, log, cmds[0]);
      var tx := RunCmd(script, privileged, h, log, cmds[0]);
      RunConserves(script, privileged, tx.host, tx.log, cmds[1..], p);
      var tx' := RunCmds(script, privileged, tx.host, tx.log, cmds[1..]);
      KeepsTransitive(h, log, tx.host, tx.log, tx'.host, tx'.log);
      if Untouched(log, cmds, p) {
        assert Untouched(log, [cmds[0]], p);
        assert Same(h, log, tx.host, tx.log, p);
        assert Untouched(tx.log, cmds[1..], p);
      }
    }
  }

  lemma KeepsTransitive(h: Host, log: Log, h1: Host, log1: Log, h2: Host, log2: Log)
    requires Keeps(h, log, h1, log1) && Keeps(h1, log1, h2, log2)
    ensures Keeps(h, log, h2, log2)
  {
    forall p
      ensures SameUndone(h, log, h2, log2, p)
    {
      assert SameUndone(h, log, h1, log1, p) && SameUndone(h1, log1, h2, log2, p);
    }
  }

  // Crash safety. Start with an empty log, make any calls, each ending in any way at any of
  // its steps: a setting none of them names is untouched, and a later restore that ends
  // normally, as it does when its accesses succeed, brings back every setting.
  lemma CrashSafety(script: Script, privileged: bool, script': Script, h: Host, cmds: seq<Cmd>, p: Path)
    ensures Sound(h, EMPTY)
    ensures var tx := RunCmds(script, privileged, h, EMPTY, cmds);
            && Keeps(h, EMPTY, tx.host, tx.log)
            && (Untouched(EMPTY, cmds, p) ==> Same(h, EMPTY, tx.host, tx.log, p))
            && var back := Restore(script', privileged, tx.host, tx.log);
               && (back.end.Done? ==> back.host.values == h.values)
               && (privileged && (forall q :: q in tx.log.original ==> SmoothFor(script', q)) ==> back.end.Done?)
  {
    RunConserves(script, privileged, h, EMPTY, cmds, p);
    var tx := RunCmds(script, privileged, h, EMPTY, cmds);
    KeepsSettings(h, EMPTY, tx.host, tx.log);
    assert Undone(h, EMPTY) == h.values;
    RestoreConserves(script', privileged, tx.host, tx.log);
    if privileged && forall q :: q in tx.log.original ==> SmoothFor(script', q) {
      RestoreSmooth(script', tx.host, tx.log);
    }
  }
}
