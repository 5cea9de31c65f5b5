// `atomic_write` of xtask/src/main.rs as a protocol: any number of writers to one path, each writing a
// temporary file of its own and renaming it over the destination, and each able to stop at any point.
module AtomicWrite {
  import opened Arithmetic
  import opened Options

  /** The destination, or the temporary file named after a process and a number. */
  datatype Path = Dest | Temp(pid: nat, nonce: nat)

  /** The directory, and each process's counter of temporary names. */
  datatype Store = Store(files: map<Path, seq<byte>>, counters: map<nat, nat>) {
    function Counter(pid: nat): nat {
      if pid in counters then counters[pid] else 0
    }
  }

  const ATTEMPTS := 32

  datatype Phase =
    | MakeParent
    | Reserve(attempt: nat)
    | Open(attempt: nat)
    | Write(written: nat)
    | Sync
    | Rename
    | SyncParent
    | Cleanup
    | Done(ok: bool)

  /** `nonce` is the last number taken; `created` says whether its file was created by this writer, and
      `leaked` whether removing it failed. */
  datatype Writer = Writer(pid: nat, contents: seq<byte>, phase: Phase, nonce: nat, created: bool, leaked: bool) {
    function TempPath(): Path {
      Temp(pid, nonce)
    }

    function Go(next: Phase): Writer {
      this.(phase := next)
    }

    function Fail(): Writer {
      this.(phase := Cleanup)
    }
  }

  function NewWriter(pid: nat, contents: seq<byte>): Writer {
    Writer(pid, contents, MakeParent, 0, false, false)
  }

  /** What the system decides about one operation: whether it fails, and how many bytes a write takes. */
  datatype Choice = Choice(fault: bool, amount: nat)

  /** One atomic operation of a writer. */
  function Step(s: Store, w: Writer, c: Choice): (Store, Writer) {
    match w.phase
    case MakeParent => (s, w.Go(if c.fault then Done(false) else Reserve(0)))
    case Reserve(attempt) =>
      if attempt >= ATTEMPTS then (s, w.Go(Done(false)))
      else
        var nonce := s.Counter(w.pid);
        (s.(counters := s.counters[w.pid := nonce + 1]), w.(phase := Open(attempt), nonce := nonce))
    case Open(attempt) =>
      if w.TempPath() in s.files then (s, w.Go(Reserve(attempt + 1)))
      else if c.fault then (s, w.Go(Done(false)))
      else (s.(files := s.files[w.TempPath() := []]), w.(phase := Write(0), created := true))
    case Write(written) =>
      if written >= |w.contents| then (s, w.Go(Sync))
      else if c.fault then (s, w.Fail())
      else
        var more := Min(written + c.amount + 1, |w.contents|);
        (if w.TempPath() in s.files then s.(files := s.files[w.TempPath() := w.contents[..more]]) else s, w.Go(Write(more)))
    case Sync => (s, if c.fault then w.Fail() else w.Go(Rename))
    case Rename =>
      if c.fault || w.TempPath() !in s.files then (s, w.Fail())
      else (s.(files := s.files[Dest := s.files[w.TempPath()]] - {w.TempPath()}), w.Go(SyncParent))
    case SyncParent => (s, if c.fault then w.Fail() else w.Go(Done(true)))
    case Cleanup =>
      if c.fault then (s, w.(phase := Done(false), leaked := true))
      else (s.(files := s.files - {w.TempPath()}), w.Go(Done(false)))
    case Done(_) => (s, w)
  }

  // ----- Many writers -----

  /** `installed` lists the writers whose rename went through, in order. */
  datatype World = World(store: Store, writers: seq<Writer>, installed: seq<nat>)

  function Advance(w: World, i: nat, c: Choice): World {
    if i < |w.writers| then
      var (store, writer) := Step(w.store, w.writers[i], c);
      World(store, w.writers[i := writer],
            if w.writers[i].phase == Rename && writer.phase == SyncParent then w.installed + [i] else w.installed)
    else w
  }

  function Exec(w: World, schedule: seq<(nat, Choice)>): World
    decreases |schedule|
  {
    if schedule == [] then w else Exec(Advance(w, schedule[0].0, schedule[0].1), schedule[1..])
  }

  /** Writers about to start, in a directory with any files - stale temporary ones included. */
  ghost predicate IsStart(w: World) {
    w.installed == [] && forall i :: 0 <= i < |w.writers| ==> w.writers[i] == NewWriter(w.writers[i].pid, w.writers[i].contents)
  }

  // ----- The invariant -----

  /** A temporary name belongs to a writer from the moment it is about to create the file. */
  predicate Claims(w: Writer) {
    w.created || w.phase.Open?
  }

  /** The temporary file is where this writer put it, with what it has written so far. */
  ghost predicate WriterOk(s: Store, w: Writer) {
    && (Claims(w) ==> w.nonce < s.Counter(w.pid))
    && (w.leaked ==> w.phase == Done(false))
    && match w.phase
       case MakeParent | Reserve(_) | Open(_) => !w.created
       case Write(written) =>
         w.created && written <= |w.contents| && w.TempPath() in s.files && s.files[w.TempPath()] == w.contents[..written]
       case Sync | Rename => w.created && w.TempPath() in s.files && s.files[w.TempPath()] == w.contents
       case SyncParent => w.created && w.TempPath() !in s.files
       case Cleanup => w.created
       case Done(ok) => (w.created && !w.leaked ==> w.TempPath() !in s.files) && (ok ==> w.created && !w.leaked)
  }

  /** Two writers never claim the same temporary name. */
  ghost predicate Distinct(a: Writer, b: Writer) {
    Claims(a) && Claims(b) ==> a.TempPath() != b.TempPath()
  }

  ghost predicate PastRename(w: Writer) {
    w.phase.SyncParent? || w.phase.Cleanup? || w.phase.Done?
  }

  /** The destination holds what the last rename put there, whole, or what was there before. */
  ghost predicate DestOk(w: World, original: Store) {
    && (forall k :: 0 <= k < |w.installed| ==> w.installed[k] < |w.writers| && PastRename(w.writers[w.installed[k]]))
    && if w.installed == [] then
         (Dest in w.store.files <==> Dest in original.files)
         && (Dest in original.files ==> w.store.files[Dest] == original.files[Dest])
       else
         Dest in w.store.files && w.store.files[Dest] == w.writers[w.installed[|w.installed| - 1]].contents
  }

  ghost predicate Inv(w: World, original: Store) {
    && (forall i :: 0 <= i < |w.writers| ==> WriterOk(w.store, w.writers[i]))
    && (forall i, j :: 0 <= i < j < |w.writers| ==> Distinct(w.writers[i], w.writers[j]))
    && DestOk(w, original) && InstalledOk(w)
  }

  ghost predicate InstalledOk(w: World) {
    forall i :: 0 <= i < |w.writers| && (w.writers[i].phase == SyncParent || w.writers[i].phase == Done(true)) ==>
                  i in w.installed
  }

  /** A step touches its own temporary file and, in a rename, the destination; nothing else. */
  lemma StepTouchesItsOwn(s: Store, w: Writer, c: Choice, path: Path)
    requires path != w.TempPath() || !Claims(w) || (w.phase.Open? && path in s.files)
    requires path != Dest || w.phase != Rename
    requires WriterOk(s, w)
    ensures var s' := Step(s, w, c).0;
            (path in s'.files <==> path in s.files) && (path in s.files ==> s'.files[path] == s.files[path])
    ensures forall pid :: s.Counter(pid) <= Step(s, w, c).0.Counter(pid)
  {
  }

  lemma StepKeepsWriterOk(s: Store, w: Writer, c: Choice)
    requires WriterOk(s, w)
    ensures WriterOk(Step(s, w, c).0, Step(s, w, c).1)
  {
    if w.phase.Write? {
      assert w.phase.written >= |w.contents| ==> w.contents[..w.phase.written] == w.contents;
    }
  }

  lemma OthersStayOk(s: Store, w: Writer, c: Choice, other: Writer)
    requires WriterOk(s, w) && WriterOk(s, other) && Distinct(w, other)
    ensures WriterOk(Step(s, w, c).0, other) && Distinct(Step(s, w, c).1, other)
  {
    if Claims(other) {
      StepTouchesItsOwn(s, w, c, other.TempPath());
    }
  }

  lemma AdvanceKeepsWriters(w: World, i: nat, c: Choice, original: Store)
    requires Inv(w, original) && i < |w.writers|
    ensures var w' := Advance(w, i, c);
            && (forall j :: 0 <= j < |w'.writers| ==> WriterOk(w'.store, w'.writers[j]))
            && (forall j, k :: 0 <= j < k < |w'.writers| ==> Distinct(w'.writers[j], w'.writers[k]))
  {
    var (store, writer) := Step(w.store, w.writers[i], c);
    StepKeepsWriterOk(w.store, w.writers[i], c);
    forall j | 0 <= j < |w.writers| && j != i
      ensures WriterOk(store, w.writers[j]) && Distinct(writer, w.writers[j])
    {
      assert Distinct(w.writers[i], w.writers[j]);
      OthersStayOk(w.store, w.writers[i], c, w.writers[j]);
    }
  }

  lemma AdvanceKeepsDest(w: World, i: nat, c: Choice, original: Store)
    requires Inv(w, original) && i < |w.writers|
    ensures DestOk(Advance(w, i, c), original)
  {
    if w.writers[i].phase == Rename {
      RenameKeepsDest(w, i, c, original);
    } else {
      StepTouchesItsOwn(w.store, w.writers[i], c, Dest);
      OtherStepsKeepDest(w, i, c, original, Advance(w, i, c));
    }
  }

  lemma RenameKeepsDest(w: World, i: nat, c: Choice, original: Store)
    requires Inv(w, original) && i < |w.writers| && w.writers[i].phase == Rename
    ensures DestOk(Advance(w, i, c), original)
  {
    assert WriterOk(w.store, w.writers[i]);
    if c.fault {
      OtherStepsKeepDest(w, i, c, original, Advance(w, i, c));
    }
  }

  lemma OtherStepsKeepDest(w: World, i: nat, c: Choice, original: Store, w': World)
    requires DestOk(w, original) && i < |w.writers| && |w'.writers| == |w.writers| && w'.installed == w.installed
    requires Dest in w'.store.files <==> Dest in w.store.files
    requires Dest in w.store.files ==> w'.store.files[Dest] == w.store.files[Dest]
    requires forall j :: 0 <= j < |w.writers| && j != i ==> w'.writers[j] == w.writers[j]
    requires w'.writers[i].contents == w.writers[i].contents && (PastRename(w.writers[i]) ==> PastRename(w'.writers[i]))
    ensures DestOk(w', original)
  {
  }

  lemma AdvanceKeepsInstalled(w: World, i: nat, c: Choice, original: Store)
    requires Inv(w, original) && i < |w.writers|
    ensures InstalledOk(Advance(w, i, c))
  {
  }

  lemma AdvanceKeepsInv(w: World, i: nat, c: Choice, original: Store)
    requires Inv(w, original)
    ensures Inv(Advance(w, i, c), original)
  {
    if i < |w.writers| {
      AdvanceKeepsWriters(w, i, c, original);
      AdvanceKeepsDest(w, i, c, original);
      AdvanceKeepsInstalled(w, i, c, original);
    }
  }

  lemma {:induction false} ExecKeepsInv(w: World, schedule: seq<(nat, Choice)>, original: Store)
    requires Inv(w, original)
    ensures Inv(Exec(w, schedule), original)
    decreases |schedule|
  {
    if schedule != [] {
      AdvanceKeepsInv(w, schedule[0].0, schedule[0].1, original);
      ExecKeepsInv(Advance(w, schedule[0].0, schedule[0].1), schedule[1..], original);
    }
  }

  lemma {:induction false} ExecKeepsContents(w: World, schedule: seq<(nat, Choice)>)
    ensures var end := Exec(w, schedule);
            |end.writers| == |w.writers| && forall i :: 0 <= i < |w.writers| ==> end.writers[i].contents == w.writers[i].contents
    decreases |schedule|
  {
    if schedule != [] {
      ExecKeepsContents(Advance(w, schedule[0].0, schedule[0].1), schedule[1..]);
    }
  }

  // ----- What readers and callers can rely on -----

  /** Wherever the writers stand - and a writer that is never scheduled again has stopped there - the
      destination holds its original bytes or all the bytes of the writer that renamed last. */
  lemma DestinationIsWhole(w: World, schedule: seq<(nat, Choice)>)
    requires IsStart(w)
    ensures var end := Exec(w, schedule);
            if end.installed == [] then
              (Dest in end.store.files <==> Dest in w.store.files)
              && (Dest in w.store.files ==> end.store.files[Dest] == w.store.files[Dest])
            else
              var last := end.installed[|end.installed| - 1];
              last < |w.writers| && Dest in end.store.files && end.store.files[Dest] == w.writers[last].contents
  {
    ExecKeepsInv(w, schedule, w.store);
    ExecKeepsContents(w, schedule);
  }

  /** A call that returns Ok has replaced the destination, and it leaves no temporary file behind; neither
      does a failed call whose cleanup worked. */
  lemma FinishedCallsAreClean(w: World, schedule: seq<(nat, Choice)>, i: nat)
    requires IsStart(w) && i < |w.writers|
    requires var end := Exec(w, schedule); i < |end.writers| && end.writers[i].phase.Done?
    ensures var end := Exec(w, schedule); var me := end.writers[i];
            && (me.phase.ok ==> i in end.installed)
            && (me.created && !me.leaked ==> me.TempPath() !in end.store.files)
            && (me.phase.ok ==> me.created && !me.leaked)
  {
    ExecKeepsInv(w, schedule, w.store);
    assert WriterOk(Exec(w, schedule).store, Exec(w, schedule).writers[i]);
  }

  /** A file that no writer has created. */
  ghost predicate IsStale(w: World, path: Path) {
    && path != Dest && path in w.store.files
    && forall i :: 0 <= i < |w.writers| && w.writers[i].created ==> w.writers[i].TempPath() != path
  }

  lemma StaleFileStaysOnce(w: World, i: nat, c: Choice, path: Path, original: Store)
    requires Inv(w, original) && IsStale(w, path)
    ensures var w' := Advance(w, i, c); IsStale(w', path) && w'.store.files[path] == w.store.files[path]
  {
    if i < |w.writers| {
      assert WriterOk(w.store, w.writers[i]);
      StepTouchesItsOwn(w.store, w.writers[i], c, path);
    }
  }

  /** Files that no writer created - stale temporary files of earlier processes, say - stay as they are. */
  lemma {:induction false} StaleFilesStay(w: World, schedule: seq<(nat, Choice)>, path: Path, original: Store)
    requires Inv(w, original) && IsStale(w, path)
    ensures IsStale(Exec(w, schedule), path) && Exec(w, schedule).store.files[path] == w.store.files[path]
    decreases |schedule|
  {
    hide Inv, Advance;
    if schedule != [] {
      var (i, c) := schedule[0];
      AdvanceKeepsInv(w, i, c, original);
      StaleFileStaysOnce(w, i, c, path, original);
      StaleFilesStay(Advance(w, i, c), schedule[1..], path, original);
    }
  }

  // ----- The call as the source has it -----

  ghost function Stage(w: Writer): nat {
    match w.phase
    case MakeParent => 8
    case Reserve(_) | Open(_) => 7
    case Write(_) => 6
    case Sync => 5
    case Rename => 4
    case SyncParent => 3
    case Cleanup => 2
    case Done(_) => 0
  }

  ghost function Left(w: Writer): nat {
    match w.phase
    case Reserve(attempt) => if attempt < ATTEMPTS then 2 * (ATTEMPTS - attempt) + 1 else 1
    case Open(attempt) => if attempt < ATTEMPTS then 2 * (ATTEMPTS - attempt) else 2
    case Write(written) => if written < |w.contents| then |w.contents| - written else 0
    case _ => 0
  }

  lemma StepDescends(s: Store, w: Writer, c: Choice)
    requires !w.phase.Done? && (w.phase.Open? ==> w.phase.attempt < ATTEMPTS)
    ensures var w' := Step(s, w, c).1;
      && (w'.phase.Open? ==> w'.phase.attempt < ATTEMPTS)
      && (Stage(w') < Stage(w) || (Stage(w') == Stage(w) && Left(w') < Left(w)))
  {
  }

  /** A writer that nobody disturbs, from operation number `n` on. */
  ghost function Solo(s: Store, w: Writer, plan: nat -> Choice, n: nat): (Store, bool)
    requires w.phase.Open? ==> w.phase.attempt < ATTEMPTS
    decreases Stage(w), Left(w)
  {
    hide Step, Stage, Left;
    if w.phase.Done? then (s, w.phase.ok)
    else
      StepDescends(s, w, plan(n));
      var (s', w') := Step(s, w, plan(n));
      Solo(s', w', plan, n + 1)
  }

  lemma SoloGoesOn(s: Store, w: Writer, n: nat, s': Store, w': Writer, plan: nat -> Choice)
    requires !w.phase.Done? && (w.phase.Open? ==> w.phase.attempt < ATTEMPTS)
    requires Step(s, w, plan(n)) == (s', w')
    ensures w'.phase.Open? ==> w'.phase.attempt < ATTEMPTS
    ensures Solo(s, w, plan, n) == Solo(s', w', plan, n + 1)
  {
    hide Step;
    StepDescends(s, w, plan(n));
  }

  lemma StopsHere(s: Store, w: Writer, plan: nat -> Choice, n: nat)
    requires (w.phase.Open? ==> w.phase.attempt < ATTEMPTS) && Step(s, w, plan(n)) == (s, w.Go(Done(false)))
    requires w.phase != Done(true)
    ensures Solo(s, w, plan, n) == (s, false)
  {
    if w.phase.Done? {
    } else {
      assert Solo(s, w.Go(Done(false)), plan, n + 1) == (s, false);
    }
  }

  class Directory {
    var store: Store

    constructor (store: Store)
      ensures this.store == store
    {
      this.store := store;
    }

    /** Try up to 32 names for the temporary file; with the first free one, write and rename. */
    method AtomicWrite(pid: nat, contents: seq<byte>, plan: nat -> Choice) returns (ok: bool)
      modifies this
      ensures (store, ok) == Solo(old(store), NewWriter(pid, contents), plan, 0)
    {
      hide Solo, FailingPhase;
      if plan(0).fault {
        NoDirectory(store, pid, contents, plan);
        return false;
      }
      CallStarts(store, pid, contents, plan);
      var n, attempt := 1, 0;
      ghost var w := NewWriter(pid, contents).Go(Reserve(0));
      while attempt < ATTEMPTS
        invariant attempt <= ATTEMPTS && w.phase == Reserve(attempt) && w.pid == pid && w.contents == contents
        invariant Solo(store, w, plan, n) == Solo(old(store), NewWriter(pid, contents), plan, 0)
      {
        ghost var s0, w0 := store, w;
        var nonce := store.Counter(pid);
        store := store.(counters := store.counters[pid := nonce + 1]);
        w := w.(phase := Open(attempt), nonce := nonce);
        OneStep(s0, w0, n, store, w, plan);
        var temp := Temp(pid, nonce);
        if temp !in store.files {
          if plan(n + 1).fault {
            StopsHere(store, w, plan, n + 1);
            return false;
          }
          ghost var s1, w1 := store, w.(phase := Write(0), created := true);
          store := store.(files := store.files[temp := []]);
          OneStep(s1, w, n + 1, store, w1, plan);
          ok := Fill(temp, contents, plan, n + 2, w1);
          return;
        }
        attempt := attempt + 1;
        OneStep(store, w, n + 1, store, w.Go(Reserve(attempt)), plan);
        n, w := n + 2, w.Go(Reserve(attempt));
      }
      StopsHere(store, w, plan, n);
      return false;
    }

    /** Write the contents, in as many pieces as it takes, then install the file. */
    method Fill(temp: Path, contents: seq<byte>, plan: nat -> Choice, start: nat, ghost w0: Writer) returns (ok: bool)
      requires w0.phase == Write(0) && w0.TempPath() == temp && w0.contents == contents && temp in store.files
      modifies this
      ensures (store, ok) == Solo(old(store), w0, plan, start)
    {
      hide Solo, FailingPhase;
      var n, written := start, 0;
      ghost var w := w0;
      while written < |contents|
        invariant written <= |contents| && temp in store.files && w == w0.Go(Write(written))
        invariant Solo(store, w, plan, n) == Solo(old(store), w0, plan, start)
      {
        if plan(n).fault {
          SoloGoesOn(store, w, n, store, w.Fail(), plan);
          Discard(temp, plan, n + 1, w.Fail());
          return false;
        }
        ghost var before := store;
        written := Min(written + plan(n).amount + 1, |contents|);
        store := store.(files := store.files[temp := contents[..written]]);
        SoloGoesOn(before, w, n, store, w0.Go(Write(written)), plan);
        n, w := n + 1, w.Go(Write(written));
      }
      SoloGoesOn(store, w, n, store, w.Go(Sync), plan);
      ok := Install(temp, plan, n + 1, w.Go(Sync));
    }

    /** Sync, rename over the destination, sync the directory. */
    method Install(temp: Path, plan: nat -> Choice, start: nat, ghost w0: Writer) returns (ok: bool)
      requires w0.phase == Sync && w0.TempPath() == temp && temp in store.files
      modifies this
      ensures (store, ok) == Solo(old(store), w0, plan, start)
    {
      if plan(start).fault {
        Discard(temp, plan, start + 1, w0.Fail());
        return false;
      }
      ghost var w := w0.Go(Rename);
      assert Solo(store, w, plan, start + 1) == Solo(old(store), w0, plan, start);
      if plan(start + 1).fault {
        Discard(temp, plan, start + 2, w.Fail());
        return false;
      }
      store := store.(files := store.files[Dest := store.files[temp]] - {temp});
      w := w.Go(SyncParent);
      assert Solo(store, w, plan, start + 2) == Solo(old(store), w0, plan, start);
      if plan(start + 2).fault {
        Discard(temp, plan, start + 3, w.Fail());
        return false;
      }
      assert Solo(store, w, plan, start + 2) == (store, true);
      return true;
    }

    method Discard(temp: Path, plan: nat -> Choice, start: nat, ghost w0: Writer)
      requires w0.phase == Cleanup && w0.TempPath() == temp
      modifies this
      ensures (store, false) == Solo(old(store), w0, plan, start)
    {
      if !plan(start).fault {
        store := store.(files := store.files - {temp});
      }
    }
  }

  /** A call that nobody disturbs and in which nothing fails replaces the destination by its contents and
      changes nothing else but the counter, whatever stale files it meets - as long as one of the names
      still to be tried is free. */
  lemma {:induction false} UndisturbedCallSucceeds(s: Store, w: Writer, attempt: nat, plan: nat -> Choice, n: nat, free: nat)
    requires forall i :: n <= i ==> !plan(i).fault
    requires w.phase == Reserve(attempt) && s.Counter(w.pid) <= free < s.Counter(w.pid) + ATTEMPTS - attempt
    requires forall m :: s.Counter(w.pid) <= m < free ==> Temp(w.pid, m) in s.files
    requires Temp(w.pid, free) !in s.files
    ensures var (end, ok) := Solo(s, w, plan, n); ok && end.files == s.files[Dest := w.contents]
    decreases free - s.Counter(w.pid)
  {
    var nonce := s.Counter(w.pid);
    var s1 := s.(counters := s.counters[w.pid := nonce + 1]);
    var w1 := w.(phase := Open(attempt), nonce := nonce);
    assert Solo(s, w, plan, n) == Solo(s1, w1, plan, n + 1);
    if nonce < free {
      var w2 := w1.Go(Reserve(attempt + 1));
      assert Solo(s1, w1, plan, n + 1) == Solo(s1, w2, plan, n + 2);
      UndisturbedCallSucceeds(s1, w2, attempt + 1, plan, n + 2, free);
    } else {
      var s2 := s1.(files := s1.files[w1.TempPath() := []]);
      var w2 := w1.(phase := Write(0), created := true);
      assert Solo(s1, w1, plan, n + 1) == Solo(s2, w2, plan, n + 2);
      UndisturbedWriteSucceeds(s2, w2, plan, n + 2);
      assert s2.files - {w1.TempPath()} == s.files;
    }
  }

  lemma {:induction false} UndisturbedWriteSucceeds(s: Store, w: Writer, plan: nat -> Choice, n: nat)
    requires forall i :: n <= i ==> !plan(i).fault
    requires w.phase.Write? && w.phase.written <= |w.contents|
    requires w.TempPath() in s.files && s.files[w.TempPath()] == w.contents[..w.phase.written]
    ensures var (end, ok) := Solo(s, w, plan, n); ok && end.files == (s.files - {w.TempPath()})[Dest := w.contents]
    decreases |w.contents| - w.phase.written
  {
    if w.phase.written < |w.contents| {
      var (s', w') := Step(s, w, plan(n));
      UndisturbedWriteSucceeds(s', w', plan, n + 1);
      assert s'.files - {w.TempPath()} == s.files - {w.TempPath()};
    } else {
      assert w.contents[..w.phase.written] == w.contents;
      var s' := s.(files := s.files[Dest := w.contents] - {w.TempPath()});
      assert Solo(s, w, plan, n) == Solo(s, w.Go(Sync), plan, n + 1);
      assert Solo(s, w.Go(Sync), plan, n + 1) == Solo(s, w.Go(Rename), plan, n + 2);
      assert Solo(s, w.Go(Rename), plan, n + 2) == Solo(s', w.Go(SyncParent), plan, n + 3);
      assert Solo(s', w.Go(SyncParent), plan, n + 3) == (s', true);
      assert s'.files == (s.files - {w.TempPath()})[Dest := w.contents];
    }
  }

  /** The names a process will try next: which of them is the first free one, if any. */
  lemma {:induction false} FirstFreeName(s: Store, pid: nat, first: nat, last: nat) returns (free: nat)
    requires first <= last
    ensures first <= free <= last && (free < last ==> Temp(pid, free) !in s.files)
    ensures forall m :: first <= m < free ==> Temp(pid, m) in s.files
    decreases last - first
  {
    if first < last && Temp(pid, first) in s.files {
      free := FirstFreeName(s, pid, first + 1, last);
    } else {
      free := first;
    }
  }

  lemma {:induction false} AllNamesTaken(s: Store, w: Writer, attempt: nat, plan: nat -> Choice, n: nat)
    requires w.phase == Reserve(attempt) && attempt <= ATTEMPTS
    requires forall m :: s.Counter(w.pid) <= m < s.Counter(w.pid) + ATTEMPTS - attempt ==> Temp(w.pid, m) in s.files
    ensures var (end, ok) := Solo(s, w, plan, n); !ok && end.files == s.files
    decreases ATTEMPTS - attempt
  {
    if attempt < ATTEMPTS {
      var nonce := s.Counter(w.pid);
      var s1 := s.(counters := s.counters[w.pid := nonce + 1]);
      var w1 := w.(phase := Open(attempt), nonce := nonce);
      assert Solo(s, w, plan, n) == Solo(s1, w1, plan, n + 1);
      assert w1.TempPath() in s1.files;
      assert Solo(s1, w1, plan, n + 1) == Solo(s1, w1.Go(Reserve(attempt + 1)), plan, n + 2);
      AllNamesTaken(s1, w1.Go(Reserve(attempt + 1)), attempt + 1, plan, n + 2);
    }
  }

  /** A call that nobody disturbs and in which nothing fails succeeds if and only if one of the next 32 temporary names
      of its process is free. It then replaces the destination and changes no other file; otherwise it changes none. */
  lemma UndisturbedCallSucceedsExactly(s: Store, pid: nat, contents: seq<byte>, plan: nat -> Choice)
    requires forall i :: 0 <= i ==> !plan(i).fault
    ensures var (end, ok) := Solo(s, NewWriter(pid, contents), plan, 0);
      && (ok <==> exists m :: s.Counter(pid) <= m < s.Counter(pid) + ATTEMPTS && Temp(pid, m) !in s.files)
      && end.files == if ok then s.files[Dest := contents] else s.files
  {
    hide Step;
    var w := NewWriter(pid, contents).Go(Reserve(0));
    var last := s.Counter(pid) + ATTEMPTS;
    assert Solo(s, NewWriter(pid, contents), plan, 0) == Solo(s, w, plan, 1) by {
      CallStarts(s, pid, contents, plan);
    }
    var free := FirstFreeName(s, pid, s.Counter(pid), last);
    if free < last {
      UndisturbedCallSucceeds(s, w, 0, plan, 1, free);
    } else {
      AllNamesTaken(s, w, 0, plan, 1);
    }
  }

  lemma CallStarts(s: Store, pid: nat, contents: seq<byte>, plan: nat -> Choice)
    requires !plan(0).fault
    ensures Solo(s, NewWriter(pid, contents), plan, 0) == Solo(s, NewWriter(pid, contents).Go(Reserve(0)), plan, 1)
  {
  }

  // ----- What an error says about the destination -----

  /** The phase whose operation makes the call fail, if one does. */
  ghost function FailingPhase(s: Store, w: Writer, plan: nat -> Choice, n: nat): Option<Phase>
    requires w.phase.Open? ==> w.phase.attempt < ATTEMPTS
    decreases Stage(w), Left(w)
  {
    hide Step, Stage, Left;
    if w.phase.Done? then None
    else
      StepDescends(s, w, plan(n));
      var (s', w') := Step(s, w, plan(n));
      if w'.phase == Cleanup || w'.phase == Done(false) then Some(w.phase) else FailingPhase(s', w', plan, n + 1)
  }

  ghost predicate SameDest(s: Store, s': Store) {
    && (Dest in s'.files <==> Dest in s.files)
    && (Dest in s.files ==> s'.files[Dest] == s.files[Dest])
  }

  ghost predicate Holds(s: Store, contents: seq<byte>) {
    Dest in s.files && s.files[Dest] == contents
  }

  lemma CleanupKeepsDest(s: Store, w: Writer, plan: nat -> Choice, n: nat)
    requires w.phase == Cleanup
    ensures var (end, ok) := Solo(s, w, plan, n); !ok && SameDest(s, end)
  {
    var (s', w') := Step(s, w, plan(n));
    assert Solo(s', w', plan, n + 1) == (s', false);
  }

  /** From any point of a call up to the rename, whatever fails and however the bytes are accepted: the call
      returns Ok exactly if no operation makes it fail. It replaces the destination by the whole contents if it
      returns Ok or if what failed was the syncing of the directory, which comes after the rename - and in all
      other cases it leaves the destination alone. */
  lemma {:induction false} ErrorsAndTheDestination(s: Store, w: Writer, plan: nat -> Choice, n: nat)
    requires WriterOk(s, w) && !PastRename(w) && (w.phase.Open? ==> w.phase.attempt < ATTEMPTS)
    ensures var (end, ok) := Solo(s, w, plan, n); var failing := FailingPhase(s, w, plan, n);
      && (ok <==> failing == None)
      && (if ok || failing == Some(SyncParent) then Holds(end, w.contents) else SameDest(s, end))
    decreases Stage(w), Left(w)
  {
    var (s', w') := Step(s, w, plan(n));
    StepKeepsWriterOk(s, w, plan(n));
    assert Solo(s, w, plan, n) == Solo(s', w', plan, n + 1);
    if w'.phase == Cleanup {
      CleanupKeepsDest(s', w', plan, n + 1);
    } else if w'.phase == SyncParent {
      var (s2, w2) := Step(s', w', plan(n + 1));
      assert FailingPhase(s, w, plan, n) == FailingPhase(s', w', plan, n + 1);
      assert Solo(s', w', plan, n + 1) == Solo(s2, w2, plan, n + 2);
      if w2.phase == Cleanup {
        CleanupKeepsDest(s2, w2, plan, n + 2);
      } else {
        assert FailingPhase(s', w', plan, n + 1) == FailingPhase(s2, w2, plan, n + 2);
      }
    } else if !w'.phase.Done? {
      ErrorsAndTheDestination(s', w', plan, n + 1);
    }
  }

  /** Whatever the directory holds, as long as the next temporary name is free, there are failures that let a
      call report an error after it has replaced the destination. */
  lemma AnErrorAfterReplacing(s: Store, pid: nat, contents: seq<byte>) returns (plan: nat -> Choice)
    requires Temp(pid, s.Counter(pid)) !in s.files
    ensures var (end, ok) := Solo(s, NewWriter(pid, contents), plan, 0); !ok && Holds(end, contents)
    ensures FailingPhase(s, NewWriter(pid, contents), plan, 0) == Some(SyncParent)
  {
    hide Solo, FailingPhase, WriterOk;
    var f := if contents == [] then 6 else 7;
    plan := n => Choice(n == f, |contents|);
    var nonce := s.Counter(pid);
    var w0 := NewWriter(pid, contents);
    var w2 := w0.(phase := Open(0), nonce := nonce);
    var s2 := s.(counters := s.counters[pid := nonce + 1]);
    var w3 := w2.(phase := Write(0), created := true);
    var s3 := s2.(files := s2.files[w3.TempPath() := []]);
    OneStep(s, w0, 0, s, w0.Go(Reserve(0)), plan);
    OneStep(s, w0.Go(Reserve(0)), 1, s2, w2, plan);
    OneStep(s2, w2, 2, s3, w3, plan);
    var s4 := s3.(files := s3.files[w3.TempPath() := contents]);
    if contents == [] {
      assert s4.files == s3.files;
      OneStep(s3, w3, 3, s4, w3.Go(Sync), plan);
    } else {
      assert contents[..|contents|] == contents;
      OneStep(s3, w3, 3, s4, w3.Go(Write(|contents|)), plan);
      OneStep(s4, w3.Go(Write(|contents|)), 4, s4, w3.Go(Sync), plan);
    }
    OneStep(s4, w3.Go(Sync), f - 2, s4, w3.Go(Rename), plan);
    DirectorySyncFails(s4, w3.Go(Rename), plan, f - 1);
  }

  /** An operation that does not make the call fail. */
  lemma OneStep(s: Store, w: Writer, n: nat, s': Store, w': Writer, plan: nat -> Choice)
    requires !w.phase.Done? && (w.phase.Open? ==> w.phase.attempt < ATTEMPTS)
    requires Step(s, w, plan(n)) == (s', w') && w'.phase != Cleanup && w'.phase != Done(false)
    ensures w'.phase.Open? ==> w'.phase.attempt < ATTEMPTS
    ensures Solo(s, w, plan, n) == Solo(s', w', plan, n + 1)
    ensures FailingPhase(s, w, plan, n) == FailingPhase(s', w', plan, n + 1)
  {
  }

  lemma DirectorySyncFails(s: Store, w: Writer, plan: nat -> Choice, n: nat)
    requires w.phase == Rename && w.TempPath() in s.files && s.files[w.TempPath()] == w.contents && !plan(n).fault
    requires plan(n + 1).fault
    ensures var (end, ok) := Solo(s, w, plan, n); !ok && Holds(end, w.contents)
    ensures FailingPhase(s, w, plan, n) == Some(SyncParent)
  {
    var (s', w') := Step(s, w, plan(n));
    OneStep(s, w, n, s', w', plan);
    var (s2, w2) := Step(s', w', plan(n + 1));
    assert Solo(s', w', plan, n + 1) == Solo(s2, w2, plan, n + 2);
    CleanupKeepsDest(s2, w2, plan, n + 2);
  }

  // ----- Which operations decide -----

  // The operations of a call count from 0: making the directory, two for every name tried, one for every piece written
  // and one to see that nothing is left, then the sync of the file, the rename, and the sync of the directory.

  ghost predicate NoFault(plan: nat -> Choice, first: nat, last: nat) {
    forall i :: first <= i < last ==> !plan(i).fault
  }

  /** In how many pieces the system takes `left` bytes, from operation `n` on. */
  ghost function Pieces(plan: nat -> Choice, n: nat, left: nat): nat
    decreases left
  {
    if left == 0 then 0 else 1 + Pieces(plan, n + 1, left - Min(plan(n).amount + 1, left))
  }

  ghost predicate Recovers(plan: nat -> Choice, n: nat) {
    plan(n).fault ==> !plan(n + 1).fault
  }

  /** No two operations in a row fail. */
  ghost predicate NeverFailsTwice(plan: nat -> Choice) {
    forall i :: 0 <= i ==> Recovers(plan, i)
  }

  /** All files but the temporary one are these, and that one is gone unless its removal can have failed. */
  ghost predicate Leaves(end: Store, w: Writer, files: map<Path, seq<byte>>, plan: nat -> Choice) {
    && end.files - {w.TempPath()} == files - {w.TempPath()}
    && (NeverFailsTwice(plan) ==> w.TempPath() !in end.files)
  }

  /** A failure of operation `n` is followed by the removal. */
  lemma FailureOutcome(s: Store, w: Writer, plan: nat -> Choice, n: nat)
    requires w.phase == Cleanup && plan(n).fault
    ensures var (end, ok) := Solo(s, w, plan, n + 1); !ok && Leaves(end, w, s.files, plan)
  {
    assert Recovers(plan, n) ==> !plan(n + 1).fault;
    RemovalOutcome(s, w, plan, n + 1);
  }

  lemma RemovalOutcome(s: Store, w: Writer, plan: nat -> Choice, n: nat)
    requires w.phase == Cleanup
    ensures var (end, ok) := Solo(s, w, plan, n);
            !ok && end.files == if plan(n).fault then s.files else s.files - {w.TempPath()}
  {
    var (s', w') := Step(s, w, plan(n));
    assert Solo(s', w', plan, n + 1) == (s', false);
  }

  /** With the whole contents in the temporary file, three operations are left, and the call returns Ok exactly if none
      of them fails. The first two decide about the destination. */
  lemma InstallOutcome(s: Store, w: Writer, plan: nat -> Choice, n: nat)
    requires w.phase == Sync && WriterOk(s, w)
    ensures var (end, ok) := Solo(s, w, plan, n);
      && (ok <==> NoFault(plan, n, n + 3))
      && Leaves(end, w, if NoFault(plan, n, n + 2) then s.files[Dest := w.contents] else s.files, plan)
  {
    var (s1, w1) := Step(s, w, plan(n));
    assert Solo(s, w, plan, n) == Solo(s1, w1, plan, n + 1);
    if plan(n).fault {
      FailureOutcome(s1, w1, plan, n);
    } else {
      RenameOutcome(s1, w1, plan, n + 1);
    }
  }

  lemma RenameOutcome(s: Store, w: Writer, plan: nat -> Choice, n: nat)
    requires w.phase == Rename && WriterOk(s, w)
    ensures var (end, ok) := Solo(s, w, plan, n);
      && (ok <==> !plan(n).fault && !plan(n + 1).fault)
      && Leaves(end, w, if plan(n).fault then s.files else s.files[Dest := w.contents], plan)
  {
    var (s1, w1) := Step(s, w, plan(n));
    assert Solo(s, w, plan, n) == Solo(s1, w1, plan, n + 1);
    if plan(n).fault {
      FailureOutcome(s1, w1, plan, n);
    } else {
      var (s2, w2) := Step(s1, w1, plan(n + 1));
      assert Solo(s1, w1, plan, n + 1) == Solo(s2, w2, plan, n + 2);
      assert s1.files == s.files[Dest := w.contents] - {w.TempPath()};
      if plan(n + 1).fault {
        FailureOutcome(s2, w2, plan, n + 1);
      }
    }
  }

  /** The pieces decide, and then what comes after them. */
  lemma {:induction false} WriteOutcome(s: Store, w: Writer, plan: nat -> Choice, n: nat, p: nat)
    requires w.phase.Write? && WriterOk(s, w) && p == Pieces(plan, n, |w.contents| - w.phase.written)
    ensures var (end, ok) := Solo(s, w, plan, n); var written := NoFault(plan, n, n + p);
      && (ok <==> written && NoFault(plan, n + p + 1, n + p + 4))
      && Leaves(end, w, if written && NoFault(plan, n + p + 1, n + p + 3) then s.files[Dest := w.contents] else s.files, plan)
    decreases |w.contents| - w.phase.written
  {
    var (s1, w1) := Step(s, w, plan(n));
    StepKeepsWriterOk(s, w, plan(n));
    assert Solo(s, w, plan, n) == Solo(s1, w1, plan, n + 1);
    if p == 0 {
      InstallOutcome(s1, w1, plan, n + 1);
    } else if plan(n).fault {
      FailureOutcome(s1, w1, plan, n);
    } else {
      WriteOutcome(s1, w1, plan, n + 1, p - 1);
      assert s1.files - {w.TempPath()} == s.files - {w.TempPath()};
    }
  }

  /** Names in use are passed over, two operations each, whatever the plan says. */
  lemma {:induction false} NamesInUse(s: Store, w: Writer, plan: nat -> Choice, n: nat, t: nat) returns (s': Store, w': Writer)
    requires w.phase.Reserve? && w.phase.attempt + t < ATTEMPTS
    requires forall m :: s.Counter(w.pid) <= m < s.Counter(w.pid) + t ==> Temp(w.pid, m) in s.files
    ensures s'.files == s.files && w' == w.(phase := Open(w.phase.attempt + t), nonce := s.Counter(w.pid) + t)
    ensures s'.Counter(w.pid) == s.Counter(w.pid) + t + 1
    ensures Solo(s, w, plan, n) == Solo(s', w', plan, n + 2 * t + 1)
    decreases t
  {
    var (s1, w1) := Step(s, w, plan(n));
    assert Solo(s, w, plan, n) == Solo(s1, w1, plan, n + 1);
    if t == 0 {
      s', w' := s1, w1;
    } else {
      var w2 := w1.Go(Reserve(w.phase.attempt + 1));
      assert Step(s1, w1, plan(n + 1)) == (s1, w2);
      assert Solo(s1, w1, plan, n + 1) == Solo(s1, w2, plan, n + 2);
      s', w' := NamesInUse(s1, w2, plan, n + 2, t - 1);
    }
  }

  /** A lone call, with `t` of its next names in use and then a free one, its contents taken in `p` pieces, and any plan:
      it returns Ok exactly if none of the operations that can fail fails - making the directory, creating the file,
      each piece, syncing, renaming, syncing the directory. It replaces the destination exactly if none before the
      last of these fails, and touches no other file; its temporary file is gone unless removing it failed as well. */
  lemma OutcomeByOperation(s: Store, pid: nat, contents: seq<byte>, plan: nat -> Choice, t: nat, p: nat)
    requires t < ATTEMPTS && Temp(pid, s.Counter(pid) + t) !in s.files
    requires forall m :: s.Counter(pid) <= m < s.Counter(pid) + t ==> Temp(pid, m) in s.files
    requires p == Pieces(plan, 2 * t + 3, |contents|)
    ensures var (end, ok) := Solo(s, NewWriter(pid, contents), plan, 0);
      var rest := 2 * t + p + 4;
      var filled := !plan(0).fault && NoFault(plan, 2 * t + 2, 2 * t + 3 + p);
      && (ok <==> filled && NoFault(plan, rest, rest + 3))
      && Leaves(end, NewWriter(pid, contents).(nonce := s.Counter(pid) + t),
                if filled && NoFault(plan, rest, rest + 2) then s.files[Dest := contents] else s.files, plan)
  {
    hide Step;
    var w0, w1 := NewWriter(pid, contents), NewWriter(pid, contents).Go(Reserve(0));
    if plan(0).fault {
      NoDirectory(s, pid, contents, plan);
    } else {
      CallStarts(s, pid, contents, plan);
      var s2, w2 := NamesInUse(s, w1, plan, 1, t);
      OpenOutcome(s2, w2, plan, 2 * t + 2, p);
    }
  }

  lemma NoDirectory(s: Store, pid: nat, contents: seq<byte>, plan: nat -> Choice)
    requires plan(0).fault
    ensures Solo(s, NewWriter(pid, contents), plan, 0) == (s, false)
  {
    var (s', w') := Step(s, NewWriter(pid, contents), plan(0));
    assert Solo(s', w', plan, 1) == (s, false);
  }

  lemma OpenOutcome(s: Store, w: Writer, plan: nat -> Choice, n: nat, p: nat)
    requires w.phase.Open? && w.phase.attempt < ATTEMPTS && w.TempPath() !in s.files && w.nonce < s.Counter(w.pid)
    requires !w.created && !w.leaked && p == Pieces(plan, n + 1, |w.contents|)
    ensures var (end, ok) := Solo(s, w, plan, n); var filled := NoFault(plan, n, n + 1 + p);
      && (ok <==> filled && NoFault(plan, n + p + 2, n + p + 5))
      && Leaves(end, w, if filled && NoFault(plan, n + p + 2, n + p + 4) then s.files[Dest := w.contents] else s.files, plan)
  {
    var (s1, w1) := Step(s, w, plan(n));
    assert Solo(s, w, plan, n) == Solo(s1, w1, plan, n + 1);
    if !plan(n).fault {
      WriteOutcome(s1, w1, plan, n + 1, p);
      assert s1.files - {w.TempPath()} == s.files - {w.TempPath()};
    }
  }
}
