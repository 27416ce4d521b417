/** When the recursive download succeeds: the walker's order (every
    ancestor of a path is visited, as a directory, before the path) is what
    lets the non-recursive `os.Mkdir` succeed. */
module WalkOrder {
  import opened Basics
  import opened Paths
  import opened FileSystem
  import opened Recursive
  import opened Mirroring

  /** What the walker guarantees: every step visits a path below the remote
      root, no path is visited twice, and every ancestor of a visited path,
      down from the root, is visited earlier as a directory. */
  ghost predicate Ordered(remotePath: Path, evs: seq<Event>) {
    && (forall i :: 0 <= i < |evs| ==> evs[i].step.Visited? && Under(remotePath, evs[i].step.path))
    && (forall i, j :: 0 <= i < j < |evs| && evs[i].step.Visited? && evs[j].step.Visited? ==>
          evs[i].step.path != evs[j].step.path)
    && (forall i, k :: 0 <= i < |evs| && evs[i].step.Visited? && |remotePath.parts| <= k < |evs[i].step.path.parts| ==>
          exists j :: 0 <= j < i && IsDirVisit(evs[j]) && evs[j].step.path == Prefix(evs[i].step.path, k))
  }

  /** The local side is ready: the local root has no regular file above it
      and either exists or can be created, and no target holds an entry of
      the other kind. */
  ghost predicate LocalReady(local: Fs, localPath: Path, remotePath: Path, evs: seq<Event>) {
    && !FileAncestor(local, localPath)
    && (localPath in local || ParentIsDir(local, localPath))
    && (forall i :: 0 <= i < |evs| ==> KindFits(local, localPath, remotePath, evs[i]))
  }

  /** If the target of a visited entry already exists, it is a directory
      exactly when the remote entry is one. */
  ghost predicate KindFits(local: Fs, localPath: Path, remotePath: Path, ev: Event) {
    ev.step.Visited? && Target(localPath, remotePath, ev).Some? && Target(localPath, remotePath, ev).value in local
    ==> (local[Target(localPath, remotePath, ev).value].Dir? <==> ev.step.info.isDir)
  }

  /** Every visited file exists remotely as a regular file. */
  ghost predicate RemoteReady(remote: Fs, evs: seq<Event>) {
    forall i :: 0 <= i < |evs| && IsFileVisit(evs[i]) ==>
      evs[i].step.path in remote && remote[evs[i].step.path].File?
  }

  /** Nothing is injected anywhere. */
  predicate NoInjection(evs: seq<Event>) {
    forall i :: 0 <= i < |evs| ==> evs[i].faults == NoEntryFaults
  }

  /** An ordered walk re-roots onto distinct local paths. */
  lemma OrderedDistinct(localPath: Path, remotePath: Path, evs: seq<Event>)
    requires Ordered(remotePath, evs)
    ensures DistinctTargets(localPath, remotePath, evs)
  {
    forall i, j | 0 <= i < j < |evs| && evs[i].step.Visited? && evs[j].step.Visited?
      ensures Target(localPath, remotePath, evs[i]) != Target(localPath, remotePath, evs[j])
    {
      RerootInjective(localPath, remotePath, evs[i].step.path, evs[j].step.path);
    }
  }

  /** The local paths written by the first `i` entries. */
  ghost function Touched(localPath: Path, remotePath: Path, evs: seq<Event>, i: nat): set<Path>
    requires i <= |evs|
  {
    set j | 0 <= j < i && evs[j].step.Visited? && Target(localPath, remotePath, evs[j]).Some? ::
      Target(localPath, remotePath, evs[j]).value
  }

  /** The state before entry `i` of a fault-free run: it grew from the
      initial one, differs from it only at touched paths, and holds every
      earlier directory's target as a directory. */
  ghost predicate Progress(local: Fs, cur: Fs, localPath: Path, remotePath: Path, evs: seq<Event>, i: nat)
    requires i <= |evs|
  {
    && Grows(local, cur)
    && Untouched(local, cur, localPath, remotePath, evs, i)
    && DirsMade(cur, localPath, remotePath, evs, i)
  }

  ghost predicate Untouched(local: Fs, cur: Fs, localPath: Path, remotePath: Path, evs: seq<Event>, i: nat)
    requires i <= |evs|
  {
    forall q :: q !in Touched(localPath, remotePath, evs, i) ==>
      (q in cur <==> q in local) && (q in local ==> cur[q] == local[q])
  }

  ghost predicate DirsMade(cur: Fs, localPath: Path, remotePath: Path, evs: seq<Event>, i: nat)
    requires i <= |evs|
  {
    forall j :: 0 <= j < i && IsDirVisit(evs[j]) && Target(localPath, remotePath, evs[j]).Some? ==>
      Target(localPath, remotePath, evs[j]).value in cur && cur[Target(localPath, remotePath, evs[j]).value].Dir?
  }

  /** The walker visited every ancestor of entry `i`, down from the root, earlier. */
  lemma AncestorVisited(remotePath: Path, evs: seq<Event>, i: nat, m: nat) returns (j: nat)
    requires Ordered(remotePath, evs) && i < |evs|
    requires |remotePath.parts| <= m < |evs[i].step.path.parts|
    ensures j < i && IsDirVisit(evs[j]) && evs[j].step.path == Prefix(evs[i].step.path, m)
  {
    assert evs[i].step.Visited?;
    assert exists j :: 0 <= j < i && IsDirVisit(evs[j]) && evs[j].step.path == Prefix(evs[i].step.path, m);
    j :| 0 <= j < i && IsDirVisit(evs[j]) && evs[j].step.path == Prefix(evs[i].step.path, m);
  }

  /** Every path written so far lies at or below the local root. */
  lemma TouchedBelowRoot(localPath: Path, remotePath: Path, evs: seq<Event>, i: nat, q: Path)
    requires Ordered(remotePath, evs) && i <= |evs|
    requires q in Touched(localPath, remotePath, evs, i)
    ensures |q.parts| >= |localPath.parts|
  {
  }

  /** Above the local root nothing was written, so nothing there is a regular file. */
  lemma AboveRootUnchanged(local: Fs, cur: Fs, localPath: Path, remotePath: Path, evs: seq<Event>, i: nat, k: nat)
    requires Ordered(remotePath, evs) && LocalReady(local, localPath, remotePath, evs)
    requires i <= |evs| && Progress(local, cur, localPath, remotePath, evs, i)
    requires k < |localPath.parts|
    ensures Prefix(localPath, k) in cur ==> cur[Prefix(localPath, k)].Dir?
  {
    if Prefix(localPath, k) in Touched(localPath, remotePath, evs, i) {
      TouchedBelowRoot(localPath, remotePath, evs, i, Prefix(localPath, k));
    }
  }

  /** An earlier directory entry's target is a directory. */
  lemma DirMadeAt(cur: Fs, localPath: Path, remotePath: Path, evs: seq<Event>, i: nat, j: nat, t: Path)
    requires i <= |evs| && DirsMade(cur, localPath, remotePath, evs, i)
    requires j < i && IsDirVisit(evs[j]) && Target(localPath, remotePath, evs[j]) == Some(t)
    ensures t in cur && cur[t].Dir?
  {
  }

  /** At and below the local root, each ancestor of entry `i`'s target is
      the target of an earlier directory entry. */
  lemma BelowRootCreated(cur: Fs, localPath: Path, remotePath: Path, evs: seq<Event>, i: nat, k: nat)
    requires Ordered(remotePath, evs)
    requires i < |evs| && DirsMade(cur, localPath, remotePath, evs, i)
    requires var t := Target(localPath, remotePath, evs[i]).value;
             |localPath.parts| <= k < |t.parts|
    ensures var t := Target(localPath, remotePath, evs[i]).value;
            Prefix(t, k) in cur && cur[Prefix(t, k)].Dir?
  {
    var p := evs[i].step.path;
    var t := Target(localPath, remotePath, evs[i]).value;
    assert Under(remotePath, p);
    assert |t.parts| == |localPath.parts| + |p.parts| - |remotePath.parts|;
    var j' := k - |localPath.parts|;
    RerootPrefix(localPath, remotePath, p, j');
    var a := Prefix(p, |remotePath.parts| + j');
    assert LocalFilepath(localPath, remotePath, a) == Some(Prefix(t, k));
    var j := AncestorVisited(remotePath, evs, i, |remotePath.parts| + j');
    assert evs[j].step.path == a;
    assert Target(localPath, remotePath, evs[j]) == LocalFilepath(localPath, remotePath, a);
    DirMadeAt(cur, localPath, remotePath, evs, i, j, Prefix(t, k));
  }

  /** The root entry's target is the local root; if it is missing, its
      parent is the directory the local side was prepared with. */
  lemma RootParentReady(local: Fs, cur: Fs, localPath: Path, remotePath: Path, evs: seq<Event>, i: nat)
    requires Ordered(remotePath, evs) && LocalReady(local, localPath, remotePath, evs)
    requires i < |evs| && Progress(local, cur, localPath, remotePath, evs, i)
    requires evs[i].step.path == remotePath && localPath !in cur
    ensures ParentIsDir(cur, localPath)
  {
    RerootRoot(localPath, remotePath);
    OrderedDistinct(localPath, remotePath, evs);
    assert ParentIsDir(local, localPath);
    if Parent(localPath) in Touched(localPath, remotePath, evs, i) {
      TouchedBelowRoot(localPath, remotePath, evs, i, Parent(localPath));
    }
  }

  /** Before entry `i`, every existing proper ancestor of its target is a directory. */
  lemma AncestorIsDir(local: Fs, cur: Fs, localPath: Path, remotePath: Path, evs: seq<Event>, i: nat, k: nat)
    requires Ordered(remotePath, evs) && LocalReady(local, localPath, remotePath, evs)
    requires i < |evs| && Progress(local, cur, localPath, remotePath, evs, i)
    requires k < |Target(localPath, remotePath, evs[i]).value.parts|
    ensures var t := Target(localPath, remotePath, evs[i]).value;
            Prefix(t, k) in cur ==> cur[Prefix(t, k)].Dir?
  {
    var t := Target(localPath, remotePath, evs[i]).value;
    if k < |localPath.parts| {
      assert t.parts[..k] == localPath.parts[..k];
      assert Prefix(t, k) == Prefix(localPath, k);
      AboveRootUnchanged(local, cur, localPath, remotePath, evs, i, k);
    } else {
      BelowRootCreated(cur, localPath, remotePath, evs, i, k);
    }
  }

  /** Before entry `i`, no regular file lies above its target, and a missing
      target has a directory as parent. */
  lemma AncestorsReady(local: Fs, cur: Fs, localPath: Path, remotePath: Path, evs: seq<Event>, i: nat)
    requires Ordered(remotePath, evs) && LocalReady(local, localPath, remotePath, evs)
    requires i < |evs| && Progress(local, cur, localPath, remotePath, evs, i)
    ensures Target(localPath, remotePath, evs[i]).Some?
    ensures var t := Target(localPath, remotePath, evs[i]).value;
            !FileAncestor(cur, t) && (t !in cur ==> ParentIsDir(cur, t))
  {
    var p := evs[i].step.path;
    var t := Target(localPath, remotePath, evs[i]).value;
    forall k | 0 <= k < |t.parts|
      ensures Prefix(t, k) in cur ==> cur[Prefix(t, k)].Dir?
    {
      AncestorIsDir(local, cur, localPath, remotePath, evs, i, k);
    }
    if t !in cur {
      MissingTargetParent(local, cur, localPath, remotePath, evs, i);
    }
  }

  /** An entry as deep as the remote root is the remote root itself. */
  lemma RootEntry(remotePath: Path, evs: seq<Event>, i: nat)
    requires Ordered(remotePath, evs) && i < |evs|
    requires |evs[i].step.path.parts| <= |remotePath.parts|
    ensures evs[i].step.path == remotePath
  {
    var p := evs[i].step.path;
    assert Under(remotePath, p);
    assert p.parts == remotePath.parts;
    if p.Relative? {
      assert p.ups == Ups(p) == Ups(remotePath) == remotePath.ups;
    }
  }

  /** Below the remote root, the parent of an entry's target is the target
      of an earlier directory entry, hence a directory. */
  lemma InnerParentMade(cur: Fs, localPath: Path, remotePath: Path, evs: seq<Event>, i: nat)
    requires Ordered(remotePath, evs)
    requires i < |evs| && DirsMade(cur, localPath, remotePath, evs, i)
    requires |evs[i].step.path.parts| > |remotePath.parts|
    ensures Target(localPath, remotePath, evs[i]).Some?
    ensures ParentIsDir(cur, Target(localPath, remotePath, evs[i]).value)
  {
    var p := evs[i].step.path;
    assert Under(remotePath, p);
    var t := Target(localPath, remotePath, evs[i]).value;
    assert |t.parts| == |localPath.parts| + |p.parts| - |remotePath.parts|;
    BelowRootCreated(cur, localPath, remotePath, evs, i, |t.parts| - 1);
    assert Parent(t) == Prefix(t, |t.parts| - 1);
  }

  /** A missing target has a directory as parent: the local root's prepared
      parent for the root entry, the earlier visited parent otherwise. */
  lemma MissingTargetParent(local: Fs, cur: Fs, localPath: Path, remotePath: Path, evs: seq<Event>, i: nat)
    requires Ordered(remotePath, evs) && LocalReady(local, localPath, remotePath, evs)
    requires i < |evs| && Progress(local, cur, localPath, remotePath, evs, i)
    requires Target(localPath, remotePath, evs[i]).value !in cur
    ensures ParentIsDir(cur, Target(localPath, remotePath, evs[i]).value)
  {
    if |evs[i].step.path.parts| <= |remotePath.parts| {
      RootEntry(remotePath, evs, i);
      RerootRoot(localPath, remotePath);
      RootParentReady(local, cur, localPath, remotePath, evs, i);
    } else {
      InnerParentMade(cur, localPath, remotePath, evs, i);
    }
  }

  /** The target of entry `i` was not written before it. */
  lemma TargetUntouched(local: Fs, cur: Fs, localPath: Path, remotePath: Path, evs: seq<Event>, i: nat)
    requires Ordered(remotePath, evs)
    requires i < |evs| && Untouched(local, cur, localPath, remotePath, evs, i)
    requires Target(localPath, remotePath, evs[i]).Some?
    ensures var t := Target(localPath, remotePath, evs[i]).value;
            (t in cur <==> t in local) && (t in local ==> cur[t] == local[t])
  {
    var t := Target(localPath, remotePath, evs[i]).value;
    OrderedDistinct(localPath, remotePath, evs);
  }

  /** With nothing injected and everything ready, entry `i` is handled
      without error. */
  lemma EntryFine(local: Fs, cur: Fs, remote: Fs, localPath: Path, remotePath: Path, evs: seq<Event>, i: nat)
    requires Ordered(remotePath, evs) && LocalReady(local, localPath, remotePath, evs)
    requires RemoteReady(remote, evs) && NoInjection(evs)
    requires i < |evs| && Progress(local, cur, localPath, remotePath, evs, i)
    ensures Target(localPath, remotePath, evs[i]).Some?
    ensures var h := HandleEntry(cur, remote, localPath, remotePath, evs[i]);
            var t := Target(localPath, remotePath, evs[i]).value;
            h.verdict.Fine? && (IsDirVisit(evs[i]) ==> t in h.local && h.local[t].Dir?)
  {
    AncestorsReady(local, cur, localPath, remotePath, evs, i);
    TargetUntouched(local, cur, localPath, remotePath, evs, i);
    var t := Target(localPath, remotePath, evs[i]).value;
    assert KindFits(local, localPath, remotePath, evs[i]);
    assert evs[i].faults == NoEntryFaults;
    if !IsDirVisit(evs[i]) {
      assert Creatable(cur, t);
    }
  }

  lemma TouchedStep(localPath: Path, remotePath: Path, evs: seq<Event>, i: nat)
    requires i < |evs| && evs[i].step.Visited? && Target(localPath, remotePath, evs[i]).Some?
    ensures Touched(localPath, remotePath, evs, i + 1) ==
            Touched(localPath, remotePath, evs, i) + {Target(localPath, remotePath, evs[i]).value}
  {
  }

  lemma UntouchedStep(local: Fs, cur: Fs, next: Fs, localPath: Path, remotePath: Path, evs: seq<Event>, i: nat)
    requires i < |evs| && Untouched(local, cur, localPath, remotePath, evs, i)
    requires evs[i].step.Visited? && Target(localPath, remotePath, evs[i]).Some?
    requires Frame(cur, next, Target(localPath, remotePath, evs[i]).value)
    ensures Untouched(local, next, localPath, remotePath, evs, i + 1)
  {
    TouchedStep(localPath, remotePath, evs, i);
  }

  lemma DirsMadeStep(cur: Fs, next: Fs, localPath: Path, remotePath: Path, evs: seq<Event>, i: nat)
    requires i < |evs| && DirsMade(cur, localPath, remotePath, evs, i)
    requires evs[i].step.Visited? && Target(localPath, remotePath, evs[i]).Some?
    requires var t := Target(localPath, remotePath, evs[i]).value;
             Grows(cur, next) && (IsDirVisit(evs[i]) ==> t in next && next[t].Dir?)
    ensures DirsMade(next, localPath, remotePath, evs, i + 1)
  {
    forall j | 0 <= j < i + 1 && IsDirVisit(evs[j]) && Target(localPath, remotePath, evs[j]).Some?
      ensures Target(localPath, remotePath, evs[j]).value in next && next[Target(localPath, remotePath, evs[j]).value].Dir?
    {
      if j < i {
        assert Target(localPath, remotePath, evs[j]).value in cur;
      }
    }
  }

  /** Handling entry `i` (which writes only its target, keeps what exists,
      and leaves a directory's target a directory) carries the progress
      invariant over to `i + 1`. */
  lemma ProgressStep(local: Fs, cur: Fs, next: Fs, localPath: Path, remotePath: Path, evs: seq<Event>, i: nat)
    requires i < |evs| && Progress(local, cur, localPath, remotePath, evs, i)
    requires evs[i].step.Visited? && Target(localPath, remotePath, evs[i]).Some?
    requires var t := Target(localPath, remotePath, evs[i]).value;
             Grows(cur, next) && Frame(cur, next, t) && (IsDirVisit(evs[i]) ==> t in next && next[t].Dir?)
    ensures Progress(local, next, localPath, remotePath, evs, i + 1)
  {
    GrowsTransitive(local, cur, next);
    UntouchedStep(local, cur, next, localPath, remotePath, evs, i);
    DirsMadeStep(cur, next, localPath, remotePath, evs, i);
  }

  /** The fault-free run from entry `i` on ends without error. */
  lemma {:induction false} FaultFreeFrom(local: Fs, cur: Fs, remote: Fs, localPath: Path, remotePath: Path, evs: seq<Event>, i: nat)
    requires Ordered(remotePath, evs) && LocalReady(local, localPath, remotePath, evs)
    requires RemoteReady(remote, evs) && NoInjection(evs)
    requires i <= |evs| && Progress(local, cur, localPath, remotePath, evs, i)
    ensures Run(cur, remote, localPath, remotePath, evs[i..]).verdict.Fine?
    decreases |evs| - i
  {
    if i < |evs| {
      EntryFine(local, cur, remote, localPath, remotePath, evs, i);
      var h := HandleEntry(cur, remote, localPath, remotePath, evs[i]);
      ProgressStep(local, cur, h.local, localPath, remotePath, evs, i);
      FaultFreeFrom(local, h.local, remote, localPath, remotePath, evs, i + 1);
      assert evs[i..][0] == evs[i] && evs[i..][1..] == evs[i + 1..];
    }
  }

  /** With nothing injected, a walk in the walker's order onto a prepared
      local side succeeds and leaves the local tree mirroring the remote
      one: every directory exists and every file holds the remote bytes. */
  lemma FaultFreeMirrors(local: Fs, remote: Fs, localPath: Path, remotePath: Path, evs: seq<Event>)
    requires Ordered(remotePath, evs) && LocalReady(local, localPath, remotePath, evs)
    requires RemoteReady(remote, evs) && NoInjection(evs)
    ensures var o := Run(local, remote, localPath, remotePath, evs);
            o.verdict.Fine? && o.handled == |evs| && Mirrored(o.local, remote, localPath, remotePath, evs)
  {
    assert Touched(localPath, remotePath, evs, 0) == {};
    assert evs[0..] == evs;
    FaultFreeFrom(local, local, remote, localPath, remotePath, evs, 0);
    OrderedDistinct(localPath, remotePath, evs);
    SuccessMirrors(local, remote, localPath, remotePath, evs);
  }
}
