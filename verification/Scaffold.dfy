// The project scaffolder of xtask/src/scaffold.rs as a protocol: any number of runs on one target,
// each a sequence of atomic file-system operations that may also fail for reasons of their own.
module Scaffold {
  import opened Options

  // ----- The file system around the target -----

  /** Who made an entry: someone before all runs, or a run. */
  datatype Owner = Foreign | By(run: nat)

  datatype Target = Absent | NotDirectory | Directory

  /** The files a run writes, in order; the second one lies in `src`, the others in the target. */
  const FILES := 4
  const MAIN_RS := 1

  /** `files` holds those of the four files that exist; the flags say whether the target and its `src`
      hold anything else. */
  datatype Fs = Fs(target: Target, src: Option<Owner>, files: map<nat, Owner>, targetHasOther: bool, srcHasOther: bool) {
    predicate TargetIsEmpty() {
      src.None? && !targetHasOther && forall k :: k in files ==> k == MAIN_RS
    }

    predicate SrcIsEmpty() {
      MAIN_RS !in files && !srcHasOther
    }

    predicate HasParentOf(k: nat) {
      if k == MAIN_RS then src.Some? else target == Directory
    }

    ghost predicate WellFormed() {
      && (forall k :: k in files ==> k < FILES)
      && (src.Some? || targetHasOther || files != map[] ==> target == Directory)
      && (MAIN_RS in files || srcHasOther ==> src.Some?)
    }
  }

  // ----- One run as a state machine -----

  datatype Phase =
    | Inspect               // look at the target path
    | List                  // it is a directory: is it empty?
    | MakeTarget            // it is absent: create it
    | MakeSrc
    | Create(file: nat)     // create the next file, which must not exist
    | Fill(file: nat)       // write and sync it
    | SyncSrc
    | SyncTarget
    | RemoveFile(file: nat) // roll back, last file first
    | RemoveSrc
    | RemoveTarget
    | Finished(ok: bool)

  datatype Proc = Proc(phase: Phase, targetExisted: bool, createdSrc: bool, createdFiles: nat) {
    /** Where a rollback goes once the files are gone, and once `src` is gone. */
    function AfterFiles(): Proc {
      if createdSrc then this.(phase := RemoveSrc) else AfterSrc()
    }

    function AfterSrc(): Proc {
      if targetExisted then this.(phase := Finished(false)) else this.(phase := RemoveTarget)
    }

    function Rollback(): Proc {
      if createdFiles > 0 then this.(phase := RemoveFile(createdFiles - 1)) else AfterFiles()
    }

    function Fail(): Proc {
      this.(phase := Finished(false))
    }
  }

  const START := Proc(Inspect, false, false, 0)

  /** One atomic operation of run `id`. With `fault` the operation fails although nothing stands in its way. */
  function Step(fs: Fs, p: Proc, id: nat, fault: bool): (Fs, Proc) {
    match p.phase
    case Inspect =>
      if fault then (fs, p.Fail())
      else
        (match fs.target
         case Absent => (fs, p.(phase := MakeTarget))
         case NotDirectory => (fs, p.Fail())
         case Directory => (fs, p.(phase := List)))
    case List =>
      if fault || fs.target != Directory || !fs.TargetIsEmpty() then (fs, p.Fail())
      else (fs, p.(phase := MakeSrc, targetExisted := true))
    case MakeTarget =>
      if fault || fs.target != Absent then (fs, p.Fail())
      else (fs.(target := Directory), p.(phase := MakeSrc))
    case MakeSrc =>
      if fault || fs.target != Directory || fs.src.Some? then (fs, p.Rollback())
      else (fs.(src := Some(By(id))), p.(phase := Create(0), createdSrc := true))
    case Create(k) =>
      if fault || !fs.HasParentOf(k) || k in fs.files then (fs, p.Rollback())
      else (fs.(files := fs.files[k := By(id)]), p.(phase := Fill(k)))
    case Fill(k) =>
      if fault then (fs, p.Rollback())
      else if k + 1 < FILES then (fs, p.(phase := Create(k + 1), createdFiles := k + 1))
      else (fs, p.(phase := SyncSrc, createdFiles := k + 1))
    case SyncSrc =>
      if fault || fs.src.None? then (fs, p.Rollback()) else (fs, p.(phase := SyncTarget))
    case SyncTarget =>
      if fault || fs.target != Directory then (fs, p.Rollback()) else (fs, p.(phase := Finished(true)))
    case RemoveFile(k) =>
      (if fault then fs else fs.(files := fs.files - {k}),
       if k > 0 then p.(phase := RemoveFile(k - 1)) else p.AfterFiles())
    case RemoveSrc =>
      (if fault || fs.src.None? || !fs.SrcIsEmpty() then fs else fs.(src := None), p.AfterSrc())
    case RemoveTarget =>
      (if fault || fs.target != Directory || !fs.TargetIsEmpty() then fs else fs.(target := Absent), p.Fail())
    case Finished(_) => (fs, p)
  }

  // ----- Many runs -----

  datatype World = World(fs: Fs, procs: seq<Proc>)

  /** The next operation of run `i`, if there is such a run. */
  function Advance(w: World, i: nat, fault: bool): World {
    if i < |w.procs| then
      var (fs, p) := Step(w.fs, w.procs[i], i, fault);
      World(fs, w.procs[i := p])
    else w
  }

  function Exec(w: World, schedule: seq<(nat, bool)>): World
    decreases |schedule|
  {
    if schedule == [] then w else Exec(Advance(w, schedule[0].0, schedule[0].1), schedule[1..])
  }

  /** All runs about to start on a file system no run has touched. */
  ghost predicate IsStart(w: World) {
    && w.fs.WellFormed()
    && (forall i :: 0 <= i < |w.procs| ==> w.procs[i] == START)
    && (w.fs.src.Some? ==> w.fs.src.value == Foreign)
    && (forall k :: k in w.fs.files ==> w.fs.files[k] == Foreign)
  }

  // ----- The invariant -----

  ghost predicate OwnsFiles(fs: Fs, id: nat, n: nat) {
    forall k :: 0 <= k < n ==> k in fs.files && fs.files[k] == By(id)
  }

  /** A run that has made `src` and not yet begun to remove it owns it: the lock. */
  ghost predicate HoldsLock(p: Proc) {
    p.phase.Create? || p.phase.Fill? || p.phase.SyncSrc? || p.phase.SyncTarget? || p.phase.RemoveFile? || p.phase.RemoveSrc?
    || p.phase == Finished(true)
  }

  ghost predicate ProcOk(fs: Fs, p: Proc, id: nat) {
    && (HoldsLock(p) ==> p.createdSrc && fs.src == Some(By(id)))
    && match p.phase
       case Inspect | List | MakeTarget | MakeSrc => !p.createdSrc && p.createdFiles == 0
       case Create(k) => k < FILES && p.createdFiles == k && OwnsFiles(fs, id, k)
       case Fill(k) => k < FILES && p.createdFiles == k && OwnsFiles(fs, id, k + 1)
       case SyncSrc | SyncTarget => p.createdFiles == FILES && OwnsFiles(fs, id, FILES)
       case RemoveFile(k) => k < p.createdFiles <= FILES && OwnsFiles(fs, id, k + 1)
       case Finished(ok) => ok ==> OwnsFiles(fs, id, FILES)
       case RemoveSrc | RemoveTarget => true
  }

  ghost predicate Inv(w: World) {
    && w.fs.WellFormed()
    && forall i :: 0 <= i < |w.procs| ==> ProcOk(w.fs, w.procs[i], i)
  }

  /** A step takes nothing from anybody else: entries of other owners stay, with their owner. */
  lemma StepTakesOnlyItsOwn(fs: Fs, p: Proc, id: nat, fault: bool)
    requires fs.WellFormed() && ProcOk(fs, p, id)
    ensures var fs' := Step(fs, p, id, fault).0;
            && (fs.src.Some? && fs.src.value != By(id) ==> fs'.src == fs.src)
            && (forall k :: k in fs.files && fs.files[k] != By(id) ==> k in fs'.files && fs'.files[k] == fs.files[k])
            && (fs.target != Absent && !fs.TargetIsEmpty() ==> fs'.target == fs.target)
            && fs'.targetHasOther == fs.targetHasOther && fs'.srcHasOther == fs.srcHasOther
  {
  }

  lemma StepKeepsOwnOk(fs: Fs, p: Proc, id: nat, fault: bool)
    requires fs.WellFormed() && ProcOk(fs, p, id)
    ensures var (fs', p') := Step(fs, p, id, fault); fs'.WellFormed() && ProcOk(fs', p', id)
  {
    if p.phase.RemoveFile? || p.phase.RemoveSrc? || p.phase.RemoveTarget? {
      UndoKeepsOwnOk(fs, p, id, fault);
    } else if p.phase.Create? || p.phase.Fill? {
      WriteKeepsOwnOk(fs, p, id, fault);
    }
  }

  lemma UndoKeepsOwnOk(fs: Fs, p: Proc, id: nat, fault: bool)
    requires fs.WellFormed() && ProcOk(fs, p, id)
    requires p.phase.RemoveFile? || p.phase.RemoveSrc? || p.phase.RemoveTarget?
    ensures var (fs', p') := Step(fs, p, id, fault); fs'.WellFormed() && ProcOk(fs', p', id)
  {
  }

  lemma WriteKeepsOwnOk(fs: Fs, p: Proc, id: nat, fault: bool)
    requires fs.WellFormed() && ProcOk(fs, p, id)
    requires p.phase.Create? || p.phase.Fill?
    ensures var (fs', p') := Step(fs, p, id, fault); fs'.WellFormed() && ProcOk(fs', p', id)
  {
  }

  lemma OthersStayOk(fs: Fs, p: Proc, id: nat, fault: bool, other: Proc, otherId: nat)
    requires fs.WellFormed() && ProcOk(fs, p, id) && ProcOk(fs, other, otherId) && id != otherId
    ensures ProcOk(Step(fs, p, id, fault).0, other, otherId)
  {
    StepTakesOnlyItsOwn(fs, p, id, fault);
  }

  lemma AdvanceKeepsInv(w: World, i: nat, fault: bool)
    requires Inv(w)
    ensures Inv(Advance(w, i, fault))
  {
    if i < |w.procs| {
      StepKeepsOwnOk(w.fs, w.procs[i], i, fault);
      forall j | 0 <= j < |w.procs| && j != i ensures ProcOk(Advance(w, i, fault).fs, w.procs[j], j) {
        OthersStayOk(w.fs, w.procs[i], i, fault, w.procs[j], j);
      }
    }
  }

  lemma {:induction false} ExecKeepsInv(w: World, schedule: seq<(nat, bool)>)
    requires Inv(w)
    ensures Inv(Exec(w, schedule)) && |Exec(w, schedule).procs| == |w.procs|
    decreases |schedule|
  {
    if schedule != [] {
      AdvanceKeepsInv(w, schedule[0].0, schedule[0].1);
      ExecKeepsInv(Advance(w, schedule[0].0, schedule[0].1), schedule[1..]);
    }
  }

  // ----- What concurrent runs can rely on -----

  ghost predicate Succeeded(w: World, i: nat) {
    i < |w.procs| && w.procs[i].phase == Finished(true)
  }

  /** However runs interleave and whichever operations fail, at most one of them succeeds. */
  lemma AtMostOneSucceeds(w: World, schedule: seq<(nat, bool)>, i: nat, j: nat)
    requires IsStart(w) && i < |w.procs| && j < |w.procs|
    requires Succeeded(Exec(w, schedule), i) && Succeeded(Exec(w, schedule), j)
    ensures i == j
  {
    ExecKeepsInv(w, schedule);
    var end := Exec(w, schedule);
    assert ProcOk(end.fs, end.procs[i], i) && ProcOk(end.fs, end.procs[j], j);
  }

  lemma {:induction false} FinishedStaysFinished(w: World, schedule: seq<(nat, bool)>, i: nat)
    requires i < |w.procs| && w.procs[i].phase.Finished?
    ensures var end := Exec(w, schedule); |end.procs| == |w.procs| && end.procs[i] == w.procs[i]
    decreases |schedule|
  {
    if schedule != [] {
      FinishedStaysFinished(Advance(w, schedule[0].0, schedule[0].1), schedule[1..], i);
    }
  }

  /** What a successful run wrote stays, whatever the other runs go on to do. */
  lemma SuccessIsPermanent(w: World, before: seq<(nat, bool)>, after: seq<(nat, bool)>, i: nat)
    requires IsStart(w) && i < |w.procs|
    requires Succeeded(Exec(w, before), i)
    ensures var end := Exec(Exec(w, before), after);
            end.fs.target == Directory && end.fs.src == Some(By(i)) && OwnsFiles(end.fs, i, FILES)
  {
    ExecKeepsInv(w, before);
    ExecKeepsInv(Exec(w, before), after);
    FinishedStaysFinished(Exec(w, before), after, i);
    var end := Exec(Exec(w, before), after);
    assert ProcOk(end.fs, end.procs[i], i);
    assert 0 in end.fs.files;
  }

  /** What was there before all runs stays. */
  lemma {:induction false} ForeignEntriesStay(w: World, schedule: seq<(nat, bool)>)
    requires Inv(w)
    ensures var end := Exec(w, schedule).fs;
            && (w.fs.src == Some(Foreign) ==> end.src == Some(Foreign))
            && (forall k :: k in w.fs.files && w.fs.files[k] == Foreign ==> k in end.files && end.files[k] == Foreign)
            && (w.fs.target == NotDirectory ==> end.target == NotDirectory)
            && end.targetHasOther == w.fs.targetHasOther && end.srcHasOther == w.fs.srcHasOther
    decreases |schedule|
  {
    if schedule != [] {
      var (i, fault) := schedule[0];
      AdvanceKeepsInv(w, i, fault);
      if i < |w.procs| {
        StepTakesOnlyItsOwn(w.fs, w.procs[i], i, fault);
      }
      ForeignEntriesStay(Advance(w, i, fault), schedule[1..]);
    }
  }

  /** A run that is not done and has made the target, which nobody else has then. */
  ghost predicate IsMaker(p: Proc) {
    && !p.targetExisted
    && !p.phase.Inspect? && !p.phase.List? && !p.phase.MakeTarget? && !p.phase.Finished?
  }

  ghost predicate MakersOk(w: World) {
    && (forall i :: 0 <= i < |w.procs| && IsMaker(w.procs[i]) ==> w.fs.target == Directory)
    && (forall i, j :: 0 <= i < j < |w.procs| ==> !IsMaker(w.procs[i]) || !IsMaker(w.procs[j]))
    && (forall i :: 0 <= i < |w.procs| && w.procs[i].phase.RemoveTarget? ==> !w.procs[i].targetExisted)
  }

  /** A run becomes the maker of an absent target only, and a target goes away only with its maker. */
  lemma MakerStep(fs: Fs, p: Proc, id: nat, fault: bool)
    requires (IsMaker(p) ==> fs.target == Directory) && (p.phase.RemoveTarget? ==> !p.targetExisted)
    ensures var (fs', p') := Step(fs, p, id, fault);
      && (IsMaker(p') ==> fs'.target == Directory) && (p'.phase.RemoveTarget? ==> !p'.targetExisted)
      && (IsMaker(p') && !IsMaker(p) ==> fs.target == Absent)
      && (fs.target == Directory && fs'.target != Directory ==> IsMaker(p) && !IsMaker(p'))
  {
  }

  lemma AdvanceKeepsMakers(w: World, i: nat, fault: bool)
    requires MakersOk(w)
    ensures MakersOk(Advance(w, i, fault))
  {
    hide Step, IsMaker;
    if i < |w.procs| {
      MakerStep(w.fs, w.procs[i], i, fault);
    }
  }

  lemma {:induction false} ExecKeepsMakers(w: World, schedule: seq<(nat, bool)>)
    requires MakersOk(w)
    ensures MakersOk(Exec(w, schedule))
    decreases |schedule|
  {
    if schedule != [] {
      AdvanceKeepsMakers(w, schedule[0].0, schedule[0].1);
      ExecKeepsMakers(Advance(w, schedule[0].0, schedule[0].1), schedule[1..]);
    }
  }

  /** At any time, whatever has failed, at most one unfinished run has made the target, and if the next operation of
      any run removes the target, it is that run. */
  lemma OnlyTheMakerRemovesTheTarget(w: World, schedule: seq<(nat, bool)>, i: nat, fault: bool)
    requires IsStart(w)
    ensures var now := Exec(w, schedule);
      && (forall j, k :: 0 <= j < k < |now.procs| ==> !IsMaker(now.procs[j]) || !IsMaker(now.procs[k]))
      && (now.fs.target == Directory && Advance(now, i, fault).fs.target != Directory ==>
            i < |now.procs| && IsMaker(now.procs[i]))
  {
    ExecKeepsMakers(w, schedule);
  }

  /** No run has made the target. */
  ghost predicate TargetIsGiven(w: World) {
    && w.fs.target == Directory
    && forall i :: 0 <= i < |w.procs| ==>
         w.procs[i].targetExisted || w.procs[i].phase.Inspect? || w.procs[i].phase.List? || w.procs[i].phase.Finished?
  }

  lemma {:induction false} GivenTargetStays(w: World, schedule: seq<(nat, bool)>)
    requires TargetIsGiven(w) && MakersOk(w)
    ensures TargetIsGiven(Exec(w, schedule))
    decreases |schedule|
  {
    if schedule != [] {
      AdvanceKeepsMakers(w, schedule[0].0, schedule[0].1);
      assert TargetIsGiven(Advance(w, schedule[0].0, schedule[0].1));
      GivenTargetStays(Advance(w, schedule[0].0, schedule[0].1), schedule[1..]);
    }
  }

  /** A target directory that was there before all runs is there after every schedule, whatever fails. */
  lemma ExistingTargetStays(w: World, schedule: seq<(nat, bool)>)
    requires IsStart(w) && w.fs.target == Directory
    ensures Exec(w, schedule).fs.target == Directory
  {
    GivenTargetStays(w, schedule);
  }

  /** There is `src`, or another of the files, or anything else; a file in `src` implies that there is `src`. */
  ghost predicate HoldsSomething(fs: Fs) {
    fs.src.Some? || fs.targetHasOther || exists k :: k in fs.files && k != MAIN_RS
  }

  /** A target that holds anything, or is no directory, is never touched. */
  lemma {:induction false} OccupiedTargetIsUntouched(w: World, schedule: seq<(nat, bool)>)
    requires w.fs.target == NotDirectory || (w.fs.target == Directory && HoldsSomething(w.fs))
    requires forall i :: 0 <= i < |w.procs| ==>
               w.procs[i].phase == Inspect || w.procs[i].phase == List || w.procs[i].phase == Finished(false)
    ensures Exec(w, schedule).fs == w.fs
    ensures forall i :: 0 <= i < |Exec(w, schedule).procs| ==> Exec(w, schedule).procs[i].phase != Finished(true)
    decreases |schedule|
  {
    if schedule != [] {
      OccupiedTargetIsUntouched(Advance(w, schedule[0].0, schedule[0].1), schedule[1..]);
    }
  }

  // ----- Races in which nothing fails by itself -----

  ghost predicate IsClean(fs0: Fs) {
    fs0.WellFormed() && (fs0.target == Absent || (fs0.target == Directory && fs0.TargetIsEmpty()))
  }

  /** Not yet at `src`. */
  ghost predicate StillRacing(p: Proc) {
    p.phase.Inspect? || p.phase.List? || p.phase.MakeTarget? || p.phase.MakeSrc? || p.phase == Finished(false)
  }

  /** Nobody has made `src` yet, and somebody still can: whoever has given up found a target that another run
      made, and that run is about to make `src`. */
  ghost predicate RaceIsOpen(w: World, existed: bool) {
    && w.fs.src.None? && w.fs.files == map[] && !w.fs.targetHasOther && !w.fs.srcHasOther && w.fs.target != NotDirectory
    && (forall i :: 0 <= i < |w.procs| ==> StillRacing(w.procs[i]) && !w.procs[i].createdSrc && w.procs[i].createdFiles == 0)
    && (w.fs.target == Absent ==> !existed && forall i :: 0 <= i < |w.procs| ==>
          w.procs[i].phase.Inspect? || w.procs[i].phase.MakeTarget?)
    && (w.fs.target == Directory && !existed ==> exists j :: 0 <= j < |w.procs| && w.procs[j].phase.MakeSrc?)
    && (existed ==> forall i :: 0 <= i < |w.procs| ==>
          w.procs[i].phase.Inspect? || w.procs[i].phase.List? || w.procs[i].phase.MakeSrc?)
  }

  /** The winner owns `src` and nothing stands in the way of its next operation. */
  ghost predicate IsWinning(fs: Fs, p: Proc, id: nat) {
    && fs.target == Directory && fs.src == Some(By(id)) && p.createdFiles <= FILES
    && match p.phase
       case Create(k) => k < FILES && p.createdFiles == k && forall j :: j in fs.files ==> j < k
       case Fill(k) => k < FILES && p.createdFiles == k && forall j :: j in fs.files ==> j <= k
       case SyncSrc | SyncTarget => true
       case Finished(ok) => ok
       case _ => false
  }

  ghost predicate RaceIsWon(w: World, h: nat) {
    && h < |w.procs| && IsWinning(w.fs, w.procs[h], h)
    && forall i :: 0 <= i < |w.procs| && i != h ==> IsLosing(w.procs[i])
  }

  lemma OpenRaceGoesOn(w: World, existed: bool, i: nat)
    requires RaceIsOpen(w, existed)
    ensures RaceIsOpen(Advance(w, i, false), existed) || RaceIsWon(Advance(w, i, false), i)
  {
    if i < |w.procs| {
      var w' := Advance(w, i, false);
      if w.procs[i].phase.MakeTarget? && w.fs.target == Absent {
        assert w'.procs[i].phase.MakeSrc?;
      } else if w.fs.target == Directory && !existed && !w.procs[i].phase.MakeSrc? {
        var j :| 0 <= j < |w.procs| && w.procs[j].phase.MakeSrc?;
        assert w'.procs[j].phase.MakeSrc?;
      }
    }
  }

  /** A run that can no longer win. */
  ghost predicate IsLosing(p: Proc) {
    (StillRacing(p) || p.phase.RemoveTarget?) && !p.createdSrc && p.createdFiles == 0
  }

  lemma WinnerGoesOn(fs: Fs, p: Proc, id: nat)
    requires IsWinning(fs, p, id)
    ensures IsWinning(Step(fs, p, id, false).0, Step(fs, p, id, false).1, id)
  {
  }

  lemma LoserGoesOn(fs: Fs, p: Proc, id: nat, winner: Proc, h: nat)
    requires IsWinning(fs, winner, h) && IsLosing(p)
    ensures Step(fs, p, id, false).0 == fs && IsLosing(Step(fs, p, id, false).1)
  {
  }

  lemma WonRaceStaysWon(w: World, h: nat, i: nat)
    requires RaceIsWon(w, h)
    ensures RaceIsWon(Advance(w, i, false), h)
  {
    hide Step, IsWinning, IsLosing;
    if i == h {
      WinnerGoesOn(w.fs, w.procs[h], h);
    } else if i < |w.procs| {
      LoserGoesOn(w.fs, w.procs[i], i, w.procs[h], h);
    }
  }

  lemma {:induction false} RaceRuns(w: World, existed: bool, schedule: seq<(nat, bool)>) returns (h: nat)
    requires RaceIsOpen(w, existed) && forall k :: 0 <= k < |schedule| ==> !schedule[k].1
    ensures RaceIsOpen(Exec(w, schedule), existed) || RaceIsWon(Exec(w, schedule), h)
    decreases |schedule|
  {
    h := 0;
    if schedule != [] {
      var w' := Advance(w, schedule[0].0, false);
      assert Exec(w, schedule) == Exec(w', schedule[1..]);
      OpenRaceGoesOn(w, existed, schedule[0].0);
      if RaceIsOpen(w', existed) {
        h := RaceRuns(w', existed, schedule[1..]);
      } else {
        h := schedule[0].0;
        WonRaceRuns(w', h, schedule[1..]);
      }
    }
  }

  lemma {:induction false} WonRaceRuns(w: World, h: nat, schedule: seq<(nat, bool)>)
    requires RaceIsWon(w, h) && forall k :: 0 <= k < |schedule| ==> !schedule[k].1
    ensures RaceIsWon(Exec(w, schedule), h)
    decreases |schedule|
  {
    if schedule != [] {
      WonRaceStaysWon(w, h, schedule[0].0);
      WonRaceRuns(Advance(w, schedule[0].0, false), h, schedule[1..]);
    }
  }

  /** On a clean target, if no operation fails by itself, then however the runs interleave: once all of them have
      finished, exactly one has succeeded. */
  lemma ExactlyOneSucceeds(w: World, schedule: seq<(nat, bool)>) returns (h: nat)
    requires IsStart(w) && IsClean(w.fs) && w.procs != []
    requires forall k :: 0 <= k < |schedule| ==> !schedule[k].1
    requires forall i :: 0 <= i < |Exec(w, schedule).procs| ==> Exec(w, schedule).procs[i].phase.Finished?
    ensures forall i :: Succeeded(Exec(w, schedule), i) <==> i == h
  {
    var existed := w.fs.target == Directory;
    ExecKeepsInv(w, schedule);
    assert w.fs.files == map[];
    h := RaceRuns(w, existed, schedule);
    var end := Exec(w, schedule);
    assert end.procs[0].phase.Finished?;
  }

  // ----- What failed runs leave behind together -----

  /** Operations that may fail without spoiling a rollback: neither a removal nor the writing of a new file. */
  ghost predicate FailsHarmlessly(p: Proc) {
    !p.phase.Fill? && !p.phase.RemoveFile? && !p.phase.RemoveSrc? && !p.phase.RemoveTarget?
  }

  ghost predicate OnlyHarmlessFaults(w: World, schedule: seq<(nat, bool)>)
    decreases |schedule|
  {
    schedule != [] ==>
      var (i, fault) := schedule[0];
      && (i < |w.procs| && fault ==> FailsHarmlessly(w.procs[i]))
      && OnlyHarmlessFaults(Advance(w, i, fault), schedule[1..])
  }

  ghost predicate AllFailed(w: World) {
    forall i :: 0 <= i < |w.procs| ==> w.procs[i].phase == Finished(false)
  }

  /** Whatever way all runs fail, together they leave the target as it was. */
  ghost predicate RestoreTogether(w: World) {
    forall schedule :: OnlyHarmlessFaults(w, schedule) && AllFailed(Exec(w, schedule)) ==> Exec(w, schedule).fs == w.fs
  }

  /** The run owns `src`, and the files are exactly those it has made and not yet removed. */
  ghost predicate OwnsExactly(fs: Fs, p: Proc, id: nat) {
    && p.createdSrc && fs.src == Some(By(id)) && fs.target == Directory && p.createdFiles <= FILES
    && match p.phase
       case Create(k) => k < FILES && p.createdFiles == k && forall j :: j in fs.files <==> 0 <= j < k
       case Fill(k) => k < FILES && p.createdFiles == k && forall j :: j in fs.files <==> 0 <= j <= k
       case SyncSrc | SyncTarget => p.createdFiles == FILES && forall j :: j in fs.files <==> 0 <= j < FILES
       case RemoveFile(k) => k < FILES && forall j :: j in fs.files <==> 0 <= j <= k
       case RemoveSrc => fs.files == map[]
       case Finished(ok) => ok
       case _ => false
  }

  /** Several runs on an existing target. */
  ghost predicate IsTidy(w: World, fs0: Fs) {
    && fs0.target == Directory && w.fs.target == Directory && IsClean(fs0)
    && !w.fs.targetHasOther && !w.fs.srcHasOther
    && (forall i :: 0 <= i < |w.procs| ==> TidyProc(w.fs, w.procs[i], i))
    && (w.fs.src.None? ==> w.fs.files == map[])
    && (w.fs.src.Some? ==> exists h :: 0 <= h < |w.procs| && OwnsExactly(w.fs, w.procs[h], h))
  }

  ghost predicate TidyProc(fs: Fs, p: Proc, id: nat) {
    match p.phase
    case Inspect | List => p == START.(phase := p.phase)
    case MakeSrc => p == START.(phase := MakeSrc, targetExisted := true)
    case Finished(ok) => ok ==> OwnsExactly(fs, p, id)
    case _ => p.targetExisted && OwnsExactly(fs, p, id)
  }

  lemma TidyStep(w: World, fs0: Fs, i: nat, fault: bool)
    requires IsTidy(w, fs0) && (i < |w.procs| && fault ==> FailsHarmlessly(w.procs[i]))
    ensures IsTidy(Advance(w, i, fault), fs0)
  {
    if i < |w.procs| {
      var w' := Advance(w, i, fault);
      TidyStepOfOne(w.fs, w.procs[i], i, fault);
      forall j | 0 <= j < |w.procs| && j != i ensures TidyProc(w'.fs, w'.procs[j], j) {
        assert TidyProc(w.fs, w.procs[j], j);
      }
      if w'.fs.src.Some? {
        if OwnsExactly(w.fs, w.procs[i], i) || w.fs.src.None? {
          assert OwnsExactly(w'.fs, w'.procs[i], i);
        } else {
          var h :| 0 <= h < |w.procs| && OwnsExactly(w.fs, w.procs[h], h);
          assert OwnsExactly(w'.fs, w'.procs[h], h);
        }
      }
    }
  }

  /** A step of an owner keeps it the owner until `src` is gone; a step of anybody else takes hold of a free `src`
      or changes nothing. */
  lemma TidyStepOfOne(fs: Fs, p: Proc, id: nat, fault: bool)
    requires fs.target == Directory && !fs.targetHasOther && !fs.srcHasOther && (fs.src.None? ==> fs.files == map[])
    requires TidyProc(fs, p, id) && (fault ==> FailsHarmlessly(p))
    ensures var (fs', p') := Step(fs, p, id, fault);
      && TidyProc(fs', p', id) && fs'.target == Directory && !fs'.targetHasOther && !fs'.srcHasOther
      && (fs'.src.None? ==> fs'.files == map[])
      && (fs' != fs ==> OwnsExactly(fs, p, id) || fs.src.None?)
      && (OwnsExactly(fs, p, id) || (fs.src.None? && fs'.src.Some?) ==> fs'.src.None? || OwnsExactly(fs', p', id))
  {
  }

  lemma {:induction false} TidyRuns(w: World, fs0: Fs, schedule: seq<(nat, bool)>)
    requires IsTidy(w, fs0) && OnlyHarmlessFaults(w, schedule)
    ensures IsTidy(Exec(w, schedule), fs0)
    decreases |schedule|
  {
    if schedule != [] {
      TidyStep(w, fs0, schedule[0].0, schedule[0].1);
      TidyRuns(Advance(w, schedule[0].0, schedule[0].1), fs0, schedule[1..]);
    }
  }

  /** The only run, on an absent target. */
  ghost predicate IsTidyRun(fs: Fs, p: Proc, fs0: Fs) {
    && !fs.targetHasOther && !fs.srcHasOther
    && match p.phase
       case Inspect | MakeTarget => p == START.(phase := p.phase) && fs == fs0
       case MakeSrc | RemoveTarget => !p.targetExisted && (p.phase == MakeSrc ==> p == START.(phase := MakeSrc))
                                      && fs == fs0.(target := Directory)
       case List => false
       case Finished(ok) => ok || fs == fs0
       case _ => !p.targetExisted && OwnsExactly(fs, p, 0)
  }

  ghost predicate IsTidyAlone(w: World, fs0: Fs) {
    && |w.procs| <= 1 && fs0 == Fs(Absent, None, map[], false, false)
    && if w.procs == [] then w.fs == fs0 else IsTidyRun(w.fs, w.procs[0], fs0)
  }

  lemma TidyRunStep(fs: Fs, p: Proc, fs0: Fs, fault: bool)
    requires IsTidyRun(fs, p, fs0) && fs0 == Fs(Absent, None, map[], false, false) && (fault ==> FailsHarmlessly(p))
    ensures IsTidyRun(Step(fs, p, 0, fault).0, Step(fs, p, 0, fault).1, fs0)
  {
  }

  lemma {:induction false} TidyAloneRuns(w: World, fs0: Fs, schedule: seq<(nat, bool)>)
    requires IsTidyAlone(w, fs0) && OnlyHarmlessFaults(w, schedule)
    ensures IsTidyAlone(Exec(w, schedule), fs0)
    decreases |schedule|
  {
    hide Step, IsTidyRun, FailsHarmlessly;
    if schedule != [] {
      if schedule[0].0 < |w.procs| {
        TidyRunStep(w.fs, w.procs[0], fs0, schedule[0].1);
      }
      TidyAloneRuns(Advance(w, schedule[0].0, schedule[0].1), fs0, schedule[1..]);
    }
  }

  /** Runs from number `k` on that give up at once. */
  lemma {:induction false} OthersGiveUp(w: World, k: nat) returns (schedule: seq<(nat, bool)>)
    requires k <= |w.procs| && forall i :: k <= i < |w.procs| ==> w.procs[i] == START
    ensures OnlyHarmlessFaults(w, schedule)
    ensures Exec(w, schedule).fs == w.fs && |Exec(w, schedule).procs| == |w.procs|
    ensures forall i :: 0 <= i < |w.procs| ==> Exec(w, schedule).procs[i] == if i < k then w.procs[i] else START.Fail()
    decreases |w.procs| - k
  {
    if k == |w.procs| {
      schedule := [];
    } else {
      var rest := OthersGiveUp(Advance(w, k, true), k + 1);
      schedule := [(k, true)] + rest;
      assert schedule[1..] == rest;
    }
  }

  lemma {:induction false} ExecOfConcat(w: World, a: seq<(nat, bool)>, b: seq<(nat, bool)>)
    ensures Exec(w, a + b) == Exec(Exec(w, a), b)
    ensures OnlyHarmlessFaults(w, a + b) <==> OnlyHarmlessFaults(w, a) && OnlyHarmlessFaults(Exec(w, a), b)
    decreases |a|
  {
    if a == [] {
      assert a + b == b;
    } else {
      assert (a + b)[1..] == a[1..] + b;
      ExecOfConcat(Advance(w, a[0].0, a[0].1), a[1..], b);
    }
  }

  /** One operation more: how a schedule is read off. */
  lemma ExecFirst(w: World, i: nat, fault: bool, rest: seq<(nat, bool)>, schedule: seq<(nat, bool)>)
    requires schedule == [(i, fault)] + rest
    ensures Exec(w, schedule) == Exec(Advance(w, i, fault), rest)
    ensures OnlyHarmlessFaults(w, schedule) <==>
              (i < |w.procs| && fault ==> FailsHarmlessly(w.procs[i])) && OnlyHarmlessFaults(Advance(w, i, fault), rest)
  {
    assert schedule[1..] == rest;
  }

  /** A world in which the first two runs are `p` and `q` and the others are those of `w`. */
  ghost predicate IsPair(w: World, w': World, fs: Fs, p: Proc, q: Proc) {
    && |w.procs| >= 2 && |w'.procs| == |w.procs| && w'.fs == fs && w'.procs[0] == p && w'.procs[1] == q
    && forall i :: 2 <= i < |w.procs| ==> w'.procs[i] == w.procs[i]
  }

  /** One operation of one of the two. */
  lemma PairStep(w: World, w': World, fs: Fs, p: Proc, q: Proc, i: nat, fault: bool, a: seq<(nat, bool)>)
    requires IsPair(w, w', fs, p, q) && i < 2 && w' == Exec(w, a) && OnlyHarmlessFaults(w, a)
    requires fault ==> FailsHarmlessly(w'.procs[i])
    ensures Exec(w, a + [(i, fault)]) == Advance(w', i, fault) && OnlyHarmlessFaults(w, a + [(i, fault)])
    ensures var (fs', r) := Step(fs, if i == 0 then p else q, i, fault);
            IsPair(w, Advance(w', i, fault), fs', if i == 0 then r else p, if i == 0 then q else r)
  {
    ExecOfConcat(w, a, [(i, fault)]);
    ExecFirst(w', i, fault, [], [(i, fault)]);
  }

  /** Two runs that fail without a failing removal and without a torn file, and leave the target behind: the run
      that made it gives up while the other one has `src`, and so cannot remove it; the other one found it there
      and does not try. */
  lemma TwoFailedRunsLeaveTheTarget(w: World) returns (schedule: seq<(nat, bool)>)
    requires |w.procs| >= 2 && w.procs[0] == w.procs[1] == START && w.fs == Fs(Absent, None, map[], false, false)
    ensures OnlyHarmlessFaults(w, schedule)
    ensures IsPair(w, Exec(w, schedule), w.fs.(target := Directory), START.Fail(), Proc(Finished(false), true, true, 0))
  {
    hide Advance, Exec, OnlyHarmlessFaults, IsPair;
    var made, owned := w.fs.(target := Directory), w.fs.(target := Directory, src := Some(By(1)));
    assert IsPair(w, w, w.fs, START, START) && Exec(w, []) == w && OnlyHarmlessFaults(w, []) by {
      PairAtStart(w);
    }
    schedule := [];
    var now := w;
    PairStep(w, now, w.fs, START, START, 0, false, schedule);
    schedule, now := schedule + [(0, false)], Advance(now, 0, false);
    PairStep(w, now, w.fs, START.(phase := MakeTarget), START, 0, false, schedule);
    schedule, now := schedule + [(0, false)], Advance(now, 0, false);
    PairStep(w, now, made, START.(phase := MakeSrc), START, 1, false, schedule);
    schedule, now := schedule + [(1, false)], Advance(now, 1, false);
    PairStep(w, now, made, START.(phase := MakeSrc), START.(phase := List), 1, false, schedule);
    schedule, now := schedule + [(1, false)], Advance(now, 1, false);
    PairStep(w, now, made, START.(phase := MakeSrc), START.(phase := MakeSrc, targetExisted := true), 1, false, schedule);
    schedule, now := schedule + [(1, false)], Advance(now, 1, false);
    var writing := Proc(Create(0), true, true, 0);
    PairStep(w, now, owned, START.(phase := MakeSrc), writing, 0, false, schedule);
    schedule, now := schedule + [(0, false)], Advance(now, 0, false);
    PairStep(w, now, owned, START.(phase := RemoveTarget), writing, 0, false, schedule);
    schedule, now := schedule + [(0, false)], Advance(now, 0, false);
    assert FailsHarmlessly(now.procs[1]) by {
      PairHas(w, now, owned, START.Fail(), writing);
    }
    PairStep(w, now, owned, START.Fail(), writing, 1, true, schedule);
    schedule, now := schedule + [(1, true)], Advance(now, 1, true);
    PairStep(w, now, owned, START.Fail(), writing.(phase := RemoveSrc), 1, false, schedule);
    schedule := schedule + [(1, false)];
  }

  lemma PairAtStart(w: World)
    requires |w.procs| >= 2 && w.procs[0] == w.procs[1] == START
    ensures IsPair(w, w, w.fs, START, START) && Exec(w, []) == w && OnlyHarmlessFaults(w, [])
  {
  }

  lemma PairHas(w: World, w': World, fs: Fs, p: Proc, q: Proc)
    requires IsPair(w, w', fs, p, q)
    ensures |w'.procs| >= 2 && w'.procs[1] == q
  {
  }

  /** Runs on a clean target that all fail, without a failing removal and without a file that was created but not
      written, are sure to leave it as it was if and only if the target existed before or there is only one of
      them. */
  lemma FailedRunsRestoreExactly(w: World)
    requires IsStart(w) && IsClean(w.fs)
    ensures RestoreTogether(w) <==> (w.fs.target == Directory || |w.procs| <= 1)
  {
    assert w.fs.files == map[];
    if w.fs.target == Directory {
      forall schedule | OnlyHarmlessFaults(w, schedule) && AllFailed(Exec(w, schedule))
        ensures Exec(w, schedule).fs == w.fs
      {
        TidyRuns(w, w.fs, schedule);
      }
    } else if |w.procs| <= 1 {
      forall schedule | OnlyHarmlessFaults(w, schedule) && AllFailed(Exec(w, schedule))
        ensures Exec(w, schedule).fs == w.fs
      {
        TidyAloneRuns(w, w.fs, schedule);
      }
    } else {
      var first := OthersGiveUp(w, 2);
      var second := TwoFailedRunsLeaveTheTarget(Exec(w, first));
      ExecOfConcat(w, first, second);
      assert OnlyHarmlessFaults(w, first + second) && AllFailed(Exec(w, first + second));
      assert Exec(w, first + second).fs != w.fs;
    }
  }

  // ----- One run alone -----

  /** The measure of what a run still has to do. */
  ghost function Stage(p: Proc): nat {
    match p.phase
    case Finished(_) => 0
    case RemoveFile(_) | RemoveSrc | RemoveTarget => 1
    case _ => 2
  }

  ghost function Left(p: Proc): nat {
    match p.phase
    case Inspect => 30
    case List | MakeTarget => 29
    case MakeSrc => 28
    case Create(k) => if k < FILES then 2 * (FILES - k) + 4 else 4
    case Fill(k) => if k < FILES then 2 * (FILES - k) + 3 else 3
    case SyncSrc => 2
    case SyncTarget => 1
    case RemoveFile(k) => k + 2
    case RemoveSrc => 1
    case RemoveTarget => 0
    case Finished(_) => 0
  }

  lemma StepDescends(fs: Fs, p: Proc, id: nat, fault: bool)
    requires !p.phase.Finished?
    ensures var p' := Step(fs, p, id, fault).1; Stage(p') < Stage(p) || (Stage(p') == Stage(p) && Left(p') < Left(p))
  {
  }

  /** A run with nobody around, from its operation number `n` on; `plan` says which operations fail. */
  ghost function Solo(fs: Fs, p: Proc, id: nat, plan: nat -> bool, n: nat): (Fs, bool)
    decreases Stage(p), Left(p)
  {
    hide Step, Stage, Left;
    if p.phase.Finished? then (fs, p.phase.ok)
    else
      StepDescends(fs, p, id, plan(n));
      var (fs', p') := Step(fs, p, id, plan(n));
      Solo(fs', p', id, plan, n + 1)
  }

  lemma SoloGoesOn(fs: Fs, p: Proc, id: nat, plan: nat -> bool, n: nat, fs': Fs, p': Proc)
    requires !p.phase.Finished? && Step(fs, p, id, plan(n)) == (fs', p')
    ensures Solo(fs, p, id, plan, n) == Solo(fs', p', id, plan, n + 1)
  {
    hide Step;
  }

  lemma SoloEnds(fs: Fs, p: Proc, id: nat, plan: nat -> bool, n: nat)
    requires p.phase.Finished?
    ensures Solo(fs, p, id, plan, n) == (fs, p.phase.ok)
  {
  }

  /** The run as the source has it: create, write file after file, and undo in reverse on failure. */
  class Disk {
    var fs: Fs

    constructor (fs: Fs)
      ensures this.fs == fs
    {
      this.fs := fs;
    }

    method Run(id: nat, plan: nat -> bool) returns (ok: bool)
      modifies this
      ensures (fs, ok) == Solo(old(fs), START, id, plan, 0)
    {
      var targetExisted := false;
      if plan(0) || fs.target == NotDirectory {
        return false;
      }
      if fs.target == Directory {
        if plan(1) || !fs.TargetIsEmpty() {
          return false;
        }
        targetExisted := true;
      }
      if !targetExisted {
        if plan(1) {
          return false;
        }
        fs := fs.(target := Directory);
      }
      ghost var p := Proc(MakeSrc, targetExisted, false, 0);
      assert Solo(fs, p, id, plan, 2) == Solo(old(fs), START, id, plan, 0);

      var createdSrc, createdFiles, n, failed := false, 0, 3, true;
      if plan(2) || fs.src.Some? {
        p := p.Rollback();
      } else {
        fs := fs.(src := Some(By(id)));
        createdSrc := true;
        p := p.(phase := Create(0), createdSrc := true);
        createdFiles, n, failed, p := WriteFiles(id, plan, n, p);
      }
      if failed {
        Undo(id, plan, n, targetExisted, createdSrc, createdFiles, p);
      }
      ok := !failed;
    }

    /** Write the files and sync both directories, up to the first failure. */
    method WriteFiles(id: nat, plan: nat -> bool, start: nat, ghost p0: Proc)
      returns (createdFiles: nat, n: nat, failed: bool, ghost p: Proc)
      requires p0.phase == Create(0) && p0.createdFiles == 0 && fs.target == Directory && fs.src.Some?
      modifies this
      ensures Solo(fs, p, id, plan, n) == Solo(old(fs), p0, id, plan, start)
      ensures p.targetExisted == p0.targetExisted && p.createdSrc == p0.createdSrc && p.createdFiles == createdFiles
      ensures if failed then p == p.Rollback() else p.phase == Finished(true)
    {
      createdFiles, n, failed, p := 0, start, false, p0;
      while createdFiles < FILES
        invariant createdFiles <= FILES && fs.target == Directory && fs.src.Some?
        invariant p.targetExisted == p0.targetExisted && p.createdSrc == p0.createdSrc && p.createdFiles == createdFiles
        invariant p.phase == if createdFiles < FILES then Create(createdFiles) else SyncSrc
        invariant Solo(fs, p, id, plan, n) == Solo(old(fs), p0, id, plan, start)
      {
        n, failed, p := WriteNewFile(createdFiles, id, plan, n, p);
        if failed {
          return;
        }
        createdFiles := createdFiles + 1;
      }
      n, failed, p := SyncDirectories(id, plan, n, p);
    }

    /** `write_new_file`: create the file, which must not exist, then write and sync it. */
    method WriteNewFile(file: nat, id: nat, plan: nat -> bool, start: nat, ghost p0: Proc)
      returns (n: nat, failed: bool, ghost p: Proc)
      requires file < FILES && p0.phase == Create(file) && p0.createdFiles == file && fs.target == Directory && fs.src.Some?
      modifies this
      ensures fs.target == Directory && fs.src == old(fs).src
      ensures Solo(fs, p, id, plan, n) == Solo(old(fs), p0, id, plan, start)
      ensures p == if failed then p0.Rollback()
                   else p0.(phase := if file + 1 < FILES then Create(file + 1) else SyncSrc, createdFiles := file + 1)
    {
      if plan(start) || file in fs.files {
        return start + 1, true, p0.Rollback();
      }
      fs := fs.(files := fs.files[file := By(id)]);
      p := p0.(phase := Fill(file));
      assert Solo(fs, p, id, plan, start + 1) == Solo(old(fs), p0, id, plan, start);
      if plan(start + 1) {
        return start + 2, true, p.Rollback();
      }
      n, failed := start + 2, false;
      p := p0.(phase := if file + 1 < FILES then Create(file + 1) else SyncSrc, createdFiles := file + 1);
    }

    method SyncDirectories(id: nat, plan: nat -> bool, start: nat, ghost p0: Proc)
      returns (n: nat, failed: bool, ghost p: Proc)
      requires p0.phase == SyncSrc && fs.target == Directory && fs.src.Some?
      ensures Solo(fs, p, id, plan, n) == Solo(fs, p0, id, plan, start)
      ensures p.targetExisted == p0.targetExisted && p.createdSrc == p0.createdSrc && p.createdFiles == p0.createdFiles
      ensures if failed then p == p.Rollback() else p.phase == Finished(true)
    {
      if plan(start) {
        return start + 1, true, p0.Rollback();
      }
      p := p0.(phase := SyncTarget);
      if plan(start + 1) {
        return start + 2, true, p.Rollback();
      }
      n, failed, p := start + 2, false, p.(phase := Finished(true));
    }

    /** The rollback: files in reverse order, then `src`, then the target; failures are ignored. */
    method Undo(id: nat, plan: nat -> bool, start: nat, targetExisted: bool, createdSrc: bool, createdFiles: nat, ghost p0: Proc)
      requires p0 == Proc(p0.phase, targetExisted, createdSrc, createdFiles).Rollback()
      modifies this
      ensures (fs, false) == Solo(old(fs), p0, id, plan, start)
    {
      hide Solo;
      var n, k := start, createdFiles;
      ghost var p := p0;
      while k > 0
        invariant p.targetExisted == targetExisted && p.createdSrc == createdSrc
        invariant if k > 0 then p.phase == RemoveFile(k - 1) else p == p.AfterFiles()
        invariant Solo(fs, p, id, plan, n) == Solo(old(fs), p0, id, plan, start)
      {
        k := k - 1;
        ghost var (fs', p') := Step(fs, p, id, plan(n));
        SoloGoesOn(fs, p, id, plan, n, fs', p');
        if !plan(n) {
          fs := fs.(files := fs.files - {k});
        }
        n, p := n + 1, if k > 0 then p.(phase := RemoveFile(k - 1)) else p.AfterFiles();
      }
      if createdSrc {
        ghost var (fs', p') := Step(fs, p, id, plan(n));
        SoloGoesOn(fs, p, id, plan, n, fs', p');
        if !plan(n) && fs.src.Some? && fs.SrcIsEmpty() {
          fs := fs.(src := None);
        }
        n, p := n + 1, p.AfterSrc();
      }
      assert p.phase == if targetExisted then Finished(false) else RemoveTarget;
      if !targetExisted {
        ghost var (fs', p') := Step(fs, p, id, plan(n));
        SoloGoesOn(fs, p, id, plan, n, fs', p');
        if !plan(n) && fs.target == Directory && fs.TargetIsEmpty() {
          fs := fs.(target := Absent);
        }
        n, p := n + 1, p.Fail();
      }
      SoloEnds(fs, p, id, plan, n);
    }
  }

  // ----- What a lone failure leaves behind -----

  /** What a run has made once it owns `src` and `k` files, starting from `fs0`. */
  ghost function OwnFiles(id: nat, k: nat): map<nat, Owner> {
    if k == 0 then map[] else OwnFiles(id, k - 1)[k - 1 := By(id)]
  }

  lemma {:induction false} OwnFilesKeys(id: nat, k: nat)
    ensures forall j :: j in OwnFiles(id, k) <==> 0 <= j < k
  {
    if k > 0 {
      OwnFilesKeys(id, k - 1);
    }
  }

  ghost function Made(fs0: Fs, id: nat, k: nat): Fs {
    fs0.(target := Directory, src := Some(By(id)), files := OwnFiles(id, k))
  }

  /** A file that was created but could not be written is not counted, so the rollback leaves it behind. */
  lemma {:induction false} TornFileStays(fs: Fs, p: Proc, id: nat, plan: nat -> bool, n: nat, torn: nat)
    requires fs.target == Directory && torn in fs.files && torn < FILES
    requires torn == MAIN_RS ==> fs.src.Some?
    requires match p.phase
             case RemoveFile(k) => k < torn
             case RemoveSrc | RemoveTarget => true
             case Finished(ok) => !ok
             case _ => false
    ensures var (end, ok) := Solo(fs, p, id, plan, n); !ok && torn in end.files
    decreases Stage(p), Left(p)
  {
    if !p.phase.Finished? {
      var (fs', p') := Step(fs, p, id, plan(n));
      TornFileStays(fs', p', id, plan, n + 1, torn);
    }
  }

  /** The operations from number `lo` up to, but not including, number `hi` do not fail. */
  ghost predicate NoFault(plan: nat -> bool, lo: nat, hi: nat) {
    forall i: nat :: lo <= i < hi ==> !plan(i)
  }

  /** The number of operations that undo `k` files, `src` and, if the run made it, the target. */
  ghost function UndoLength(p: Proc, k: nat): nat {
    k + if p.targetExisted then 1 else 2
  }

  /** A rollback removes everything the run made if and only if none of its operations fails. */
  lemma {:induction false} UndoRestoresExactly(fs0: Fs, id: nat, plan: nat -> bool, p: Proc, k: nat, n: nat)
    requires IsClean(fs0) && (p.targetExisted <==> fs0.target == Directory) && p.createdSrc
    requires k <= FILES && p.phase == if k > 0 then RemoveFile(k - 1) else RemoveSrc
    ensures var (end, ok) := Solo(Made(fs0, id, k), p, id, plan, n);
            !ok && (end == fs0 <==> NoFault(plan, n, n + UndoLength(p, k)))
    decreases k
  {
    var fs := Made(fs0, id, k);
    OwnFilesKeys(id, k);
    if k > 0 {
      OwnFilesKeys(id, k - 1);
      var next := if k > 1 then p.(phase := RemoveFile(k - 2)) else p.AfterFiles();
      assert fs.files - {k - 1} == Made(fs0, id, k - 1).files;
      if plan(n) {
        TornFileStays(fs, next, id, plan, n + 1, k - 1);
      } else {
        UndoRestoresExactly(fs0, id, plan, next, k - 1, n + 1);
      }
    } else {
      SrcIsRemovedLast(fs0, id, plan, p, n);
    }
  }

  lemma SrcIsRemovedLast(fs0: Fs, id: nat, plan: nat -> bool, p: Proc, n: nat)
    requires IsClean(fs0) && (p.targetExisted <==> fs0.target == Directory) && p.createdSrc && p.phase == RemoveSrc
    ensures var (end, ok) := Solo(Made(fs0, id, 0), p, id, plan, n);
            !ok && (end == fs0 <==> NoFault(plan, n, n + UndoLength(p, 0)))
  {
    var fs := Made(fs0, id, 0);
    var here := if plan(n) then fs else fs.(src := None);
    assert fs.files == map[] == fs0.files;
    assert Step(fs, p, id, plan(n)) == (here, p.AfterSrc());
    if !p.targetExisted {
      var end := Step(here, p.AfterSrc(), id, plan(n + 1)).0;
      assert Solo(here, p.AfterSrc(), id, plan, n + 1) == (end, false);
      assert NoFault(plan, n, n + 2) <==> !plan(n) && !plan(n + 1);
    } else {
      assert NoFault(plan, n, n + 1) <==> !plan(n);
    }
  }

  /** The first operation to fail, or one past the last operation of a run in which none does. */
  ghost predicate FirstFault(plan: nat -> bool, f: nat, end: nat) {
    NoFault(plan, 0, f) && f <= end && (f < end ==> plan(f))
  }

  lemma FailsHere(fs0: Fs, id: nat, plan: nat -> bool, p: Proc, k: nat, n: nat)
    requires p.phase == (if k < FILES then Create(k) else SyncSrc) && plan(n)
    ensures Solo(Made(fs0, id, k), p, id, plan, n) == Solo(Made(fs0, id, k), p.Rollback(), id, plan, n + 1)
  {
  }

  /** From the creation of file `k` on, as operation `n`, with the first failing operation still ahead. */
  lemma {:induction false} WritingUntilFault(fs0: Fs, id: nat, plan: nat -> bool, p: Proc, k: nat, n: nat, f: nat)
    requires IsClean(fs0) && (p.targetExisted <==> fs0.target == Directory) && p.createdSrc
    requires k <= FILES && p.createdFiles == k && p.phase == if k < FILES then Create(k) else SyncSrc
    requires n <= f && FirstFault(plan, f, n + 2 * (FILES - k) + 2)
    ensures var (end, ok) := Solo(Made(fs0, id, k), p, id, plan, n);
            && (ok <==> f == n + 2 * (FILES - k) + 2)
            && (ok ==> end == Made(fs0, id, FILES))
            && (!ok ==> (end == fs0 <==> WasCounted(k, n, f) && NoFault(plan, f + 1, f + 1 + UndoLength(p, Counted(k, n, f)))))
    decreases FILES - k
  {
    hide Solo, Made;
    if f == n {
      FailsHere(fs0, id, plan, p, k, n);
      UndoRestoresExactly(fs0, id, plan, p.Rollback(), k, n + 1);
    } else if k == FILES {
      SyncUntilFault(fs0, id, plan, p, n, f);
    } else {
      FileIsWritten(fs0, id, plan, p, k, n, f);
      if f > n + 1 {
        var next := p.(phase := if k + 1 < FILES then Create(k + 1) else SyncSrc, createdFiles := k + 1);
        WritingUntilFault(fs0, id, plan, next, k + 1, n + 2, f);
        assert Counted(k, n, f) == Counted(k + 1, n + 2, f);
        assert WasCounted(k, n, f) == WasCounted(k + 1, n + 2, f);
      }
    }
  }

  /** The files counted when operation `f` fails, if the creation of file `k` is operation `n`. */
  ghost function Counted(k: nat, n: nat, f: nat): nat
    requires n <= f
  {
    if k + (f - n) / 2 <= FILES then k + (f - n) / 2 else FILES
  }

  /** What failed is not the writing of a file just created. */
  ghost predicate WasCounted(k: nat, n: nat, f: nat)
    requires n <= f && k <= FILES
  {
    f >= n + 2 * (FILES - k) || (f - n) % 2 == 0
  }

  lemma FileIsCreated(fs0: Fs, id: nat, p: Proc, k: nat)
    requires IsClean(fs0) && k < FILES && p.phase == Create(k)
    ensures Step(Made(fs0, id, k), p, id, false) == (Made(fs0, id, k + 1), p.(phase := Fill(k)))
    ensures k in Made(fs0, id, k + 1).files && Made(fs0, id, k + 1).target == Directory && Made(fs0, id, k + 1).src.Some?
  {
    OwnFilesKeys(id, k);
  }

  /** One file: either its writing is what fails, or the run is two operations further. */
  lemma FileIsWritten(fs0: Fs, id: nat, plan: nat -> bool, p: Proc, k: nat, n: nat, f: nat)
    requires IsClean(fs0) && p.createdSrc && k < FILES && p.createdFiles == k && p.phase == Create(k)
    requires NoFault(plan, 0, f) && n < f && (f == n + 1 ==> plan(f))
    ensures var here := Solo(Made(fs0, id, k), p, id, plan, n);
            var next := p.(phase := if k + 1 < FILES then Create(k + 1) else SyncSrc, createdFiles := k + 1);
            if f == n + 1 then !here.1 && k in here.0.files
            else here == Solo(Made(fs0, id, k + 1), next, id, plan, n + 2)
  {
    hide Solo, Step, Made;
    var here, filled, filling := Made(fs0, id, k), Made(fs0, id, k + 1), p.(phase := Fill(k));
    assert !plan(n) && (f > n + 1 ==> !plan(n + 1));
    FileIsCreated(fs0, id, p, k);
    SoloGoesOn(here, p, id, plan, n, filled, filling);
    var next := if plan(n + 1) then filling.Rollback()
                else p.(phase := if k + 1 < FILES then Create(k + 1) else SyncSrc, createdFiles := k + 1);
    assert Step(filled, filling, id, plan(n + 1)) == (filled, next) by {
      FileIsFilled(filled, filling, id, plan(n + 1), k);
    }
    SoloGoesOn(filled, filling, id, plan, n + 1, filled, next);
    if f == n + 1 {
      TornFileStays(filled, next, id, plan, n + 2, k);
    }
  }

  lemma FileIsFilled(fs: Fs, p: Proc, id: nat, fault: bool, k: nat)
    requires p.phase == Fill(k)
    ensures Step(fs, p, id, fault) == (fs, if fault then p.Rollback()
              else p.(phase := if k + 1 < FILES then Create(k + 1) else SyncSrc, createdFiles := k + 1))
  {
  }

  lemma SyncUntilFault(fs0: Fs, id: nat, plan: nat -> bool, p: Proc, n: nat, f: nat)
    requires IsClean(fs0) && (p.targetExisted <==> fs0.target == Directory) && p.createdSrc
    requires p.createdFiles == FILES && p.phase == SyncSrc && n < f && FirstFault(plan, f, n + 2)
    ensures var (end, ok) := Solo(Made(fs0, id, FILES), p, id, plan, n);
            && (ok <==> f == n + 2) && (ok ==> end == Made(fs0, id, FILES))
            && (!ok ==> (end == fs0 <==> NoFault(plan, f + 1, f + 1 + UndoLength(p, FILES))))
  {
    var fs, syncing := Made(fs0, id, FILES), p.(phase := SyncTarget);
    assert !plan(n);
    assert Solo(fs, p, id, plan, n) == Solo(fs, syncing, id, plan, n + 1);
    if f == n + 1 {
      assert Solo(fs, syncing, id, plan, n + 1) == Solo(fs, p.Rollback(), id, plan, n + 2);
      UndoRestoresExactly(fs0, id, plan, p.Rollback(), FILES, n + 2);
    } else {
      assert !plan(n + 1);
      assert Solo(fs, syncing, id, plan, n + 1) == (fs, true);
    }
  }

  /** The operations with which a lone run undoes what it had made when operation `f` failed: the files counted
      by then, `src` if it was made, and the target if it was made. */
  ghost function RollbackLength(existed: bool, f: nat): nat {
    if f <= 1 then 0
    else if f == 2 then (if existed then 0 else 1)
    else Counted(0, 3, f) + if existed then 1 else 2
  }

  /** A lone run on a clean target whose first failing operation is number `f`, whatever fails after it
      (operations count from 0: two to look at or create the target, one to create `src`, two per file, two to
      sync; `f` is 13 if all of them go through). It succeeds exactly if none of them fails. If one does, the
      target is left exactly as it was if and only if what failed was not the writing of a file just created
      (operations 4, 6, 8 and 10) and no operation of the rollback fails. */
  lemma LoneFailure(fs0: Fs, id: nat, plan: nat -> bool, f: nat) returns (end: Fs, ok: bool)
    requires IsClean(fs0) && FirstFault(plan, f, 13)
    ensures (end, ok) == Solo(fs0, START, id, plan, 0)
    ensures ok <==> f == 13
    ensures ok ==> end == Made(fs0, id, FILES)
    ensures !ok ==> (end == fs0 <==>
              f !in {4, 6, 8, 10} && NoFault(plan, f + 1, f + 1 + RollbackLength(fs0.target == Directory, f)))
  {
    FillOperations(f);
    if f <= 1 {
      LookingFails(fs0, id, plan, f);
      end, ok := fs0, false;
    } else if f == 2 {
      TargetIsReady(fs0, id, plan, f);
      SrcFails(fs0, id, plan);
      var r := Solo(fs0.(target := Directory), Proc(MakeSrc, fs0.target == Directory, false, 0), id, plan, 2);
      end, ok := r.0, r.1;
    } else {
      WritingStarts(fs0, id, plan, f);
      var writing := Proc(Create(0), fs0.target == Directory, true, 0);
      WritingUntilFault(fs0, id, plan, writing, 0, 3, f);
      var r := Solo(Made(fs0, id, 0), writing, id, plan, 3);
      end, ok := r.0, r.1;
    }
  }

  lemma FillOperations(f: nat)
    ensures 3 <= f <= 13 ==> (WasCounted(0, 3, f) <==> f !in {4, 6, 8, 10})
  {
  }

  lemma WritingStarts(fs0: Fs, id: nat, plan: nat -> bool, f: nat)
    requires IsClean(fs0) && NoFault(plan, 0, f) && f > 2
    ensures Solo(fs0, START, id, plan, 0)
         == Solo(Made(fs0, id, 0), Proc(Create(0), fs0.target == Directory, true, 0), id, plan, 3)
  {
    TargetIsReady(fs0, id, plan, f);
    assert fs0.files == map[] && !plan(2);
    var making := Proc(MakeSrc, fs0.target == Directory, false, 0);
    assert Step(fs0.(target := Directory), making, id, plan(2))
        == (Made(fs0, id, 0), making.(phase := Create(0), createdSrc := true));
  }

  lemma LookingFails(fs0: Fs, id: nat, plan: nat -> bool, f: nat)
    requires IsClean(fs0) && NoFault(plan, 0, f) && plan(f) && f <= 1
    ensures Solo(fs0, START, id, plan, 0) == (fs0, false)
  {
    if f == 1 {
      assert !plan(0);
      var next := if fs0.target == Directory then START.(phase := List) else START.(phase := MakeTarget);
      assert Solo(fs0, START, id, plan, 0) == Solo(fs0, next, id, plan, 1);
    }
  }

  lemma TargetIsReady(fs0: Fs, id: nat, plan: nat -> bool, f: nat)
    requires IsClean(fs0) && NoFault(plan, 0, f) && f > 1
    ensures Solo(fs0, START, id, plan, 0)
         == Solo(fs0.(target := Directory), Proc(MakeSrc, fs0.target == Directory, false, 0), id, plan, 2)
  {
    assert !plan(0) && !plan(1);
    var next := if fs0.target == Directory then START.(phase := List) else START.(phase := MakeTarget);
    assert Solo(fs0, START, id, plan, 0) == Solo(fs0, next, id, plan, 1);
  }

  lemma SrcFails(fs0: Fs, id: nat, plan: nat -> bool)
    requires IsClean(fs0) && plan(2)
    ensures var (end, ok) := Solo(fs0.(target := Directory), Proc(MakeSrc, fs0.target == Directory, false, 0), id, plan, 2);
            !ok && (end == fs0 <==> NoFault(plan, 3, 3 + RollbackLength(fs0.target == Directory, 2)))
  {
    var making := Proc(MakeSrc, fs0.target == Directory, false, 0);
    var here := fs0.(target := Directory);
    assert Step(here, making, id, plan(2)) == (here, making.Rollback());
    if !making.targetExisted {
      assert NoFault(plan, 3, 4) <==> !plan(3);
      assert Step(here, making.Rollback(), id, plan(3)) == (if plan(3) then here else fs0, making.Fail());
    }
  }
}
