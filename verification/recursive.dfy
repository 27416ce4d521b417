/** Recursive download (`GetRecursively`): a loop over the remote walker's
    entries that mirrors directories and downloads files, aborting the whole
    operation on the first error. */
module Recursive {
  import opened Basics
  import opened Errors
  import opened Paths
  import opened FileSystem
  import opened Transfer

  /** What the walker reports about a remote entry. */
  datatype Info = Info(isDir: bool, mode: nat)

  /** One step of the remote walker: a visited path, or an error. */
  datatype WalkStep = Visited(path: Path, info: Info) | WalkFailed(err: IoError)

  /** The failures injected while one walker entry is handled. */
  datatype EntryFaults = EntryFaults(stat: Option<IoError>, mkdir: Option<IoError>, transfer: Faults)

  const NoEntryFaults: EntryFaults := EntryFaults(None, None, NoFaults)

  /** A walker entry together with the failures injected while it is handled. */
  datatype Event = Event(step: WalkStep, faults: EntryFaults)

  /** How handling an entry, or the whole operation, ends: go on (or return
      nil), return an error, or panic. */
  datatype Verdict = Fine | Abort(err: Error) | Panic

  /** The local filesystem after one entry, and how handling it ended. */
  datatype Handled = Handled(local: Fs, verdict: Verdict)

  /** The local filesystem after the operation, how many entries were
      handled completely, and how it ended. */
  datatype Outcome = Outcome(local: Fs, handled: nat, verdict: Verdict)

  predicate IsDirVisit(ev: Event) {
    ev.step.Visited? && ev.step.info.isDir
  }

  predicate IsFileVisit(ev: Event) {
    ev.step.Visited? && !ev.step.info.isDir
  }

  /** The local path of a visited entry. When re-rooting fails the library
      goes on with the empty path, which every primitive rejects as
      nonexistent; that case is `None`. */
  function Target(localPath: Path, remotePath: Path, ev: Event): Option<Path>
    requires ev.step.Visited?
  {
    LocalFilepath(localPath, remotePath, ev.step.path)
  }

  /** `after` differs from `before` at most at the target of `ev`. */
  ghost predicate EntryFramed(before: Fs, after: Fs, localPath: Path, remotePath: Path, ev: Event) {
    if ev.step.Visited? && Target(localPath, remotePath, ev).Some? then
      Frame(before, after, Target(localPath, remotePath, ev).value)
    else after == before
  }

  /** Handles one walker entry. Its behaviour case by case is stated by
      the `Handle...` lemmas below. */
  function HandleEntry(local: Fs, remote: Fs, localPath: Path, remotePath: Path, ev: Event): (h: Handled)
    // nothing but the target changes, and nothing is removed or retyped
    ensures Grows(local, h.local)
    ensures EntryFramed(local, h.local, localPath, remotePath, ev)
  {
    match ev.step
    case WalkFailed(e) => Handled(local, Abort(WalkErr(e)))
    case Visited(p, info) =>
      match Target(localPath, remotePath, ev)
      case None =>
        Handled(local, Abort(if info.isDir then MkdirFailed(NotExist) else LocalFileErr(NotExist)))
      case Some(t) =>
        if info.isDir then
          match Stat(local, t, ev.faults.stat)
          case Ok(e) => if e.Dir? then Handled(local, Fine) else Handled(local, Abort(DirCollision))
          case Fail(NotExist) =>
            (match Mkdir(local, t, info.mode, ev.faults.mkdir)
             case Ok(made) => Handled(made, Fine)
             case Fail(e) => Handled(local, Abort(MkdirFailed(e))))
          case Fail(_) => Handled(local, Panic)
        else
          var r := GetTransfer(local, remote, t, p, ev.faults.transfer);
          Handled(r.dest, if r.err.None? then Fine else Abort(r.err.value))
  }

  /** A walker error aborts with that error and changes nothing. */
  lemma HandleWalkError(local: Fs, remote: Fs, localPath: Path, remotePath: Path, ev: Event)
    requires ev.step.WalkFailed?
    ensures HandleEntry(local, remote, localPath, remotePath, ev) == Handled(local, Abort(WalkErr(ev.step.err)))
  {
  }

  /** A path that cannot be re-rooted goes on as the empty path: stat
      reports nonexistence, then mkdir or create fails the same way. */
  lemma HandleBlankTarget(local: Fs, remote: Fs, localPath: Path, remotePath: Path, ev: Event)
    requires ev.step.Visited? && Target(localPath, remotePath, ev).None?
    ensures HandleEntry(local, remote, localPath, remotePath, ev) ==
      Handled(local, Abort(if ev.step.info.isDir then MkdirFailed(NotExist) else LocalFileErr(NotExist)))
  {
  }

  /** A directory entry ends well exactly when its target already is a
      directory or is missing and gets created; then the target is a
      directory and an existing one is left alone. A missing target is
      made with the walker's mode; a failed mkdir is reported with its own
      error and changes nothing. An existing non-directory is the
      collision error. */
  lemma HandleDirectory(local: Fs, remote: Fs, localPath: Path, remotePath: Path, ev: Event)
    requires IsDirVisit(ev) && Target(localPath, remotePath, ev).Some?
    ensures var t := Target(localPath, remotePath, ev).value;
            var st := Stat(local, t, ev.faults.stat);
            var h := HandleEntry(local, remote, localPath, remotePath, ev);
            && (h.verdict.Fine? <==>
                  (st.Ok? && st.value.Dir?) ||
                  (st == Fail(NotExist) && Mkdir(local, t, ev.step.info.mode, ev.faults.mkdir).Ok?))
            && (h.verdict.Fine? ==> t in h.local && h.local[t].Dir?)
            && (st.Ok? ==> h.local == local)
            && (h.verdict == Abort(DirCollision) <==> st.Ok? && !st.value.Dir?)
            && (st == Fail(NotExist) && h.verdict.Fine? ==> h.local == local[t := Dir(ev.step.info.mode)])
            && (st == Fail(NotExist) && !h.verdict.Fine? ==>
                  h == Handled(local, Abort(MkdirFailed(Mkdir(local, t, ev.step.info.mode, ev.faults.mkdir).error))))
  {
  }

  /** The operation panics exactly when stat fails, for a directory entry,
      with anything but nonexistence. */
  lemma HandlePanics(local: Fs, remote: Fs, localPath: Path, remotePath: Path, ev: Event)
    ensures HandleEntry(local, remote, localPath, remotePath, ev).verdict.Panic? <==>
      IsDirVisit(ev) && Target(localPath, remotePath, ev).Some? &&
      Stat(local, Target(localPath, remotePath, ev).value, ev.faults.stat).Fail? &&
      Stat(local, Target(localPath, remotePath, ev).value, ev.faults.stat).error != NotExist
  {
  }

  /** A directory entry whose target lies below a local regular file
      panics: stat reports "not a directory", which is not nonexistence,
      so the nil `FileInfo` is dereferenced. */
  lemma FileAboveTargetPanics(local: Fs, remote: Fs, localPath: Path, remotePath: Path, ev: Event)
    requires IsDirVisit(ev) && Target(localPath, remotePath, ev).Some? && ev.faults.stat.None?
    requires Target(localPath, remotePath, ev).value !in local
    requires FileAncestor(local, Target(localPath, remotePath, ev).value)
    ensures HandleEntry(local, remote, localPath, remotePath, ev).verdict.Panic?
  {
    HandlePanics(local, remote, localPath, remotePath, ev);
  }

  /** A file entry ends well exactly when its download does: nothing
      injected, a creatable target and a regular remote file, whose bytes
      the target then holds. A failed download aborts with its error. */
  lemma HandleFile(local: Fs, remote: Fs, localPath: Path, remotePath: Path, ev: Event)
    requires IsFileVisit(ev) && Target(localPath, remotePath, ev).Some?
    ensures var t := Target(localPath, remotePath, ev).value;
            var p := ev.step.path;
            var h := HandleEntry(local, remote, localPath, remotePath, ev);
            && (h.verdict.Fine? <==>
                  ev.faults.transfer == NoFaults && Creatable(local, t) && p in remote && remote[p].File?)
            && (h.verdict.Fine? ==> h.local == local[t := remote[p]])
            && (h.verdict.Abort? ==> h.verdict.err == GetTransfer(local, remote, t, p, ev.faults.transfer).err.value)
  {
  }

  /** What handling one entry does, given the local state before it. */
  type Handler = (Fs, Event) -> Handled

  /** The handler the library runs on every entry of a walk from
      `remotePath` mirrored below `localPath`. */
  function EntryHandler(remote: Fs, localPath: Path, remotePath: Path): Handler {
    (l, ev) => HandleEntry(l, remote, localPath, remotePath, ev)
  }

  /** The handler never removes or retypes a local entry. */
  ghost predicate Growing(handle: Handler) {
    forall l, ev :: Grows(l, handle(l, ev).local)
  }

  /** The handler changes nothing but the target of the entry it handles. */
  ghost predicate Framed(handle: Handler, localPath: Path, remotePath: Path) {
    forall l, ev :: EntryFramed(l, handle(l, ev).local, localPath, remotePath, ev)
  }

  lemma EntryHandlerKeeps(remote: Fs, localPath: Path, remotePath: Path)
    ensures Growing(EntryHandler(remote, localPath, remotePath))
    ensures Framed(EntryHandler(remote, localPath, remotePath), localPath, remotePath)
  {
  }

  /** The loop over a walk's entries as a recursive definition: each entry
      is handled from the state the one before left, and the first entry
      that does not end `Fine` ends the loop. */
  function Walk(handle: Handler, local: Fs, evs: seq<Event>): (o: Outcome)
    ensures o.verdict.Fine? ==> o.handled == |evs|
    ensures !o.verdict.Fine? ==> o.handled < |evs|
    decreases |evs|
  {
    if |evs| == 0 then Outcome(local, 0, Fine)
    else
      var h := handle(local, evs[0]);
      if h.verdict.Fine? then
        var o := Walk(handle, h.local, evs[1..]);
        Outcome(o.local, o.handled + 1, o.verdict)
      else Outcome(h.local, 0, h.verdict)
  }

  /** A walk with a growing handler only grows the local side. */
  lemma {:induction false} WalkGrows(handle: Handler, local: Fs, evs: seq<Event>)
    requires Growing(handle)
    ensures Grows(local, Walk(handle, local, evs).local)
    decreases |evs|
  {
    if |evs| > 0 {
      var h := handle(local, evs[0]);
      if h.verdict.Fine? {
        WalkGrows(handle, h.local, evs[1..]);
        GrowsTransitive(local, h.local, Walk(handle, h.local, evs[1..]).local);
      }
    }
  }

  /** The recursive download's loop with the library's handler. */
  function Run(local: Fs, remote: Fs, localPath: Path, remotePath: Path, evs: seq<Event>): (o: Outcome)
    ensures Grows(local, o.local)
  {
    EntryHandlerKeeps(remote, localPath, remotePath);
    WalkGrows(EntryHandler(remote, localPath, remotePath), local, evs);
    Walk(EntryHandler(remote, localPath, remotePath), local, evs)
  }

  /** `Walk` from index `i`, counting the entries before `i` as handled. */
  function WalkFrom(handle: Handler, local: Fs, evs: seq<Event>, i: nat): Outcome
    requires i <= |evs|
  {
    var o := Walk(handle, local, evs[i..]);
    Outcome(o.local, o.handled + i, o.verdict)
  }

  /** One step of the recursive definition, from index `i`. */
  lemma WalkUnfold(handle: Handler, local: Fs, evs: seq<Event>, i: nat)
    requires i < |evs|
    ensures var h := handle(local, evs[i]);
            h.verdict.Fine? ==> WalkFrom(handle, local, evs, i) == WalkFrom(handle, h.local, evs, i + 1)
    ensures var h := handle(local, evs[i]);
            !h.verdict.Fine? ==> WalkFrom(handle, local, evs, i) == Outcome(h.local, i, h.verdict)
  {
    assert evs[i..][1..] == evs[i + 1..];
  }

  /** `GetRecursively`: walks the remote tree from `remotePath` and mirrors
      it below `localPath`. A nil walker is an immediate error. */
  method GetRecursively(local: Fs, remote: Fs, localPath: Path, remotePath: Path, walker: Option<seq<Event>>)
    returns (localAfter: Fs, verdict: Verdict)
    ensures walker.None? ==> localAfter == local && verdict == Abort(WalkerNil)
    ensures walker.Some? ==>
      var o := Run(local, remote, localPath, remotePath, walker.value);
      localAfter == o.local && verdict == o.verdict
  {
    if walker.None? {
      return local, Abort(WalkerNil);
    }
    var evs := walker.value;
    ghost var handle := EntryHandler(remote, localPath, remotePath);
    localAfter := local;
    var i := 0;
    assert evs[0..] == evs;
    while i < |evs|
      invariant 0 <= i <= |evs|
      invariant WalkFrom(handle, local, evs, 0) == WalkFrom(handle, localAfter, evs, i)
    {
      var h := HandleEntry(localAfter, remote, localPath, remotePath, evs[i]);
      assert h == handle(localAfter, evs[i]);
      WalkUnfold(handle, localAfter, evs, i);
      if !h.verdict.Fine? {
        return h.local, h.verdict;
      }
      localAfter := h.local;
      i := i + 1;
    }
    assert evs[i..] == [];
    verdict := Fine;
  }
}
