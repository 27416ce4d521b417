/** What the recursive download promises about a whole walk: where it stops,
    what it leaves behind, and when it succeeds. */
module Mirroring {
  import opened Basics
  import opened Paths
  import opened FileSystem
  import opened Recursive

  /** The loop stops at the first entry that does not end `Fine`: every
      entry before it was handled and ended `Fine`, and that entry alone
      produced the final state and verdict. */
  lemma {:induction false} AbortsAtFirstError(handle: Handler, local: Fs, evs: seq<Event>)
    requires !Walk(handle, local, evs).verdict.Fine?
    ensures var o := Walk(handle, local, evs);
            var pre := Walk(handle, local, evs[..o.handled]);
            pre.verdict.Fine? && handle(pre.local, evs[o.handled]) == Handled(o.local, o.verdict)
    decreases |evs|
  {
    var o := Walk(handle, local, evs);
    var h := handle(local, evs[0]);
    if h.verdict.Fine? {
      var rest := evs[1..];
      var o' := Walk(handle, h.local, rest);
      AbortsAtFirstError(handle, h.local, rest);
      assert evs[..o.handled][0] == evs[0];
      assert evs[..o.handled][1..] == rest[..o'.handled];
      assert evs[o.handled] == rest[o'.handled];
    } else {
      assert evs[..0] == [];
    }
  }

  /** Entries after an abort are never looked at. */
  lemma {:induction false} LaterEntriesIgnored(handle: Handler, local: Fs, evs: seq<Event>, more: seq<Event>)
    requires !Walk(handle, local, evs).verdict.Fine?
    ensures Walk(handle, local, evs + more) == Walk(handle, local, evs)
    decreases |evs|
  {
    assert (evs + more)[0] == evs[0];
    var h := handle(local, evs[0]);
    if h.verdict.Fine? {
      assert (evs + more)[1..] == evs[1..] + more;
      LaterEntriesIgnored(handle, h.local, evs[1..], more);
    }
  }

  /** After a walk that ends `Fine`, the loop goes on with the next
      entries from the state it left. */
  lemma {:induction false} WalkAppend(handle: Handler, local: Fs, evs: seq<Event>, more: seq<Event>)
    requires Walk(handle, local, evs).verdict.Fine?
    ensures var o := Walk(handle, local, evs);
            var o2 := Walk(handle, o.local, more);
            Walk(handle, local, evs + more) == Outcome(o2.local, |evs| + o2.handled, o2.verdict)
    decreases |evs|
  {
    if |evs| == 0 {
      assert evs + more == more;
    } else {
      assert (evs + more)[0] == evs[0];
      assert (evs + more)[1..] == evs[1..] + more;
      var h := handle(local, evs[0]);
      WalkAppend(handle, h.local, evs[1..], more);
    }
  }

  /** No entry of `evs` is re-rooted onto `q`. */
  predicate Untargeted(localPath: Path, remotePath: Path, evs: seq<Event>, q: Path) {
    forall i :: 0 <= i < |evs| && evs[i].step.Visited? ==> Target(localPath, remotePath, evs[i]) != Some(q)
  }

  /** A local path that no entry is re-rooted onto keeps its entry, or its absence. */
  lemma {:induction false} WalkFrame(handle: Handler, local: Fs, localPath: Path, remotePath: Path, evs: seq<Event>, q: Path)
    requires Framed(handle, localPath, remotePath)
    requires Untargeted(localPath, remotePath, evs, q)
    ensures var o := Walk(handle, local, evs);
            (q in o.local <==> q in local) && (q in local ==> o.local[q] == local[q])
    decreases |evs|
  {
    if |evs| > 0 {
      var h := handle(local, evs[0]);
      assert EntryFramed(local, h.local, localPath, remotePath, evs[0]);
      if h.verdict.Fine? {
        assert Untargeted(localPath, remotePath, evs[1..], q) by {
          forall i | 0 <= i < |evs[1..]| && evs[1..][i].step.Visited?
            ensures Target(localPath, remotePath, evs[1..][i]) != Some(q)
          {
            assert evs[1..][i] == evs[i + 1];
          }
        }
        WalkFrame(handle, h.local, localPath, remotePath, evs[1..], q);
      }
    }
  }

  /** The targets of the visited entries are pairwise different. */
  predicate DistinctTargets(localPath: Path, remotePath: Path, evs: seq<Event>) {
    forall i, j :: 0 <= i < j < |evs| && evs[i].step.Visited? && evs[j].step.Visited? ==>
      Target(localPath, remotePath, evs[i]).None? || Target(localPath, remotePath, evs[i]) != Target(localPath, remotePath, evs[j])
  }

  lemma DistinctTargetsTail(localPath: Path, remotePath: Path, evs: seq<Event>)
    requires |evs| > 0 && DistinctTargets(localPath, remotePath, evs)
    ensures DistinctTargets(localPath, remotePath, evs[1..])
    ensures evs[0].step.Visited? && Target(localPath, remotePath, evs[0]).Some? ==>
      Untargeted(localPath, remotePath, evs[1..], Target(localPath, remotePath, evs[0]).value)
  {
    forall i, j | 0 <= i < j < |evs[1..]|
      ensures evs[1..][i] == evs[i + 1] && evs[1..][j] == evs[j + 1]
    {
    }
    if evs[0].step.Visited? && Target(localPath, remotePath, evs[0]).Some? {
      forall i | 0 <= i < |evs[1..]| && evs[1..][i].step.Visited?
        ensures Target(localPath, remotePath, evs[1..][i]) != Target(localPath, remotePath, evs[0])
      {
        assert evs[1..][i] == evs[i + 1];
      }
    }
  }

  /** The local tree mirrors the walk: every entry was visited, and its
      target holds a directory for a directory and the remote file's
      content for a file. */
  ghost predicate Mirrored(local: Fs, remote: Fs, localPath: Path, remotePath: Path, evs: seq<Event>) {
    forall i :: 0 <= i < |evs| ==> MirroredAt(local, remote, localPath, remotePath, evs[i])
  }

  ghost predicate MirroredAt(local: Fs, remote: Fs, localPath: Path, remotePath: Path, ev: Event) {
    && ev.step.Visited?
    && Target(localPath, remotePath, ev).Some?
    && var t := Target(localPath, remotePath, ev).value;
    && t in local
    && (ev.step.info.isDir ==> local[t].Dir?)
    && (!ev.step.info.isDir ==>
          ev.step.path in remote && remote[ev.step.path].File? && local[t] == remote[ev.step.path])
  }

  /** Every entry the handler ends `Fine` is mirrored in the state it leaves. */
  ghost predicate MirrorsWhenFine(handle: Handler, remote: Fs, localPath: Path, remotePath: Path) {
    forall l, ev :: handle(l, ev).verdict.Fine? ==> MirroredAt(handle(l, ev).local, remote, localPath, remotePath, ev)
  }

  /** An entry the library handles without error is mirrored: a walker
      error or a path that cannot be re-rooted never ends well, a
      directory entry leaves a directory, a file entry the remote bytes. */
  lemma FineEntryMirrored(local: Fs, remote: Fs, localPath: Path, remotePath: Path, ev: Event)
    requires HandleEntry(local, remote, localPath, remotePath, ev).verdict.Fine?
    ensures MirroredAt(HandleEntry(local, remote, localPath, remotePath, ev).local, remote, localPath, remotePath, ev)
  {
    if ev.step.WalkFailed? {
      HandleWalkError(local, remote, localPath, remotePath, ev);
    } else if Target(localPath, remotePath, ev).None? {
      HandleBlankTarget(local, remote, localPath, remotePath, ev);
    } else if ev.step.info.isDir {
      HandleDirectory(local, remote, localPath, remotePath, ev);
    } else {
      HandleFile(local, remote, localPath, remotePath, ev);
    }
  }

  /** A walk that ends `Fine`, with a handler that mirrors what it handles
      well and touches nothing but targets, has mirrored every entry when
      the targets are distinct. */
  lemma {:induction false} WalkMirrors(handle: Handler, local: Fs, remote: Fs, localPath: Path, remotePath: Path, evs: seq<Event>)
    requires MirrorsWhenFine(handle, remote, localPath, remotePath) && Framed(handle, localPath, remotePath)
    requires Walk(handle, local, evs).verdict.Fine?
    requires DistinctTargets(localPath, remotePath, evs)
    ensures Mirrored(Walk(handle, local, evs).local, remote, localPath, remotePath, evs)
    decreases |evs|
  {
    if |evs| > 0 {
      var o := Walk(handle, local, evs);
      var h := handle(local, evs[0]);
      var rest := evs[1..];
      DistinctTargetsTail(localPath, remotePath, evs);
      WalkMirrors(handle, h.local, remote, localPath, remotePath, rest);
      assert MirroredAt(h.local, remote, localPath, remotePath, evs[0]);
      var t := Target(localPath, remotePath, evs[0]).value;
      WalkFrame(handle, h.local, localPath, remotePath, rest, t);
      assert MirroredAt(o.local, remote, localPath, remotePath, evs[0]);
      forall i | 0 <= i < |evs|
        ensures MirroredAt(o.local, remote, localPath, remotePath, evs[i])
      {
        if i > 0 {
          assert evs[i] == rest[i - 1];
        }
      }
    }
  }

  /** A recursive download that returns nil has mirrored every entry it was
      given, when no two entries share a target. */
  lemma SuccessMirrors(local: Fs, remote: Fs, localPath: Path, remotePath: Path, evs: seq<Event>)
    requires Run(local, remote, localPath, remotePath, evs).verdict.Fine?
    requires DistinctTargets(localPath, remotePath, evs)
    ensures Mirrored(Run(local, remote, localPath, remotePath, evs).local, remote, localPath, remotePath, evs)
  {
    var handle := EntryHandler(remote, localPath, remotePath);
    forall l, ev | handle(l, ev).verdict.Fine?
      ensures MirroredAt(handle(l, ev).local, remote, localPath, remotePath, ev)
    {
      FineEntryMirrored(l, remote, localPath, remotePath, ev);
    }
    EntryHandlerKeeps(remote, localPath, remotePath);
    WalkMirrors(handle, local, remote, localPath, remotePath, evs);
  }

  /** An entry already mirrored, handled with nothing injected, ends well
      and changes nothing. */
  lemma MirroredEntryUnchanged(local: Fs, remote: Fs, localPath: Path, remotePath: Path, ev: Event)
    requires MirroredAt(local, remote, localPath, remotePath, ev) && ev.faults == NoEntryFaults
    ensures HandleEntry(local, remote, localPath, remotePath, ev) == Handled(local, Fine)
  {
    var t := Target(localPath, remotePath, ev).value;
    if ev.step.info.isDir {
      HandleDirectory(local, remote, localPath, remotePath, ev);
    } else {
      HandleFile(local, remote, localPath, remotePath, ev);
      assert local[t := local[t]] == local;
    }
  }

  /** A walk whose every entry leaves the state alone and ends `Fine`
      succeeds and changes nothing. */
  lemma {:induction false} WalkStill(handle: Handler, local: Fs, evs: seq<Event>)
    requires forall i :: 0 <= i < |evs| ==> handle(local, evs[i]) == Handled(local, Fine)
    ensures Walk(handle, local, evs) == Outcome(local, |evs|, Fine)
    decreases |evs|
  {
    if |evs| > 0 {
      assert handle(local, evs[0]) == Handled(local, Fine);
      forall i | 0 <= i < |evs[1..]|
        ensures handle(local, evs[1..][i]) == Handled(local, Fine)
      {
        assert evs[1..][i] == evs[i + 1];
      }
      WalkStill(handle, local, evs[1..]);
    }
  }

  /** Re-running over a tree that is already mirrored, with nothing injected,
      succeeds and changes nothing. */
  lemma RerunIsNoop(local: Fs, remote: Fs, localPath: Path, remotePath: Path, evs: seq<Event>)
    requires Mirrored(local, remote, localPath, remotePath, evs)
    requires forall i :: 0 <= i < |evs| ==> evs[i].faults == NoEntryFaults
    ensures Run(local, remote, localPath, remotePath, evs) == Outcome(local, |evs|, Fine)
  {
    var handle := EntryHandler(remote, localPath, remotePath);
    forall i | 0 <= i < |evs|
      ensures handle(local, evs[i]) == Handled(local, Fine)
    {
      assert MirroredAt(local, remote, localPath, remotePath, evs[i]);
      MirroredEntryUnchanged(local, remote, localPath, remotePath, evs[i]);
    }
    WalkStill(handle, local, evs);
  }

  /** Running the same walk a second time, with nothing injected, succeeds
      and leaves the local tree as the first successful run left it. */
  lemma Idempotent(local: Fs, remote: Fs, localPath: Path, remotePath: Path, evs: seq<Event>, again: seq<Event>)
    requires Run(local, remote, localPath, remotePath, evs).verdict.Fine?
    requires DistinctTargets(localPath, remotePath, evs)
    requires |again| == |evs|
    requires forall i :: 0 <= i < |evs| ==> again[i] == Event(evs[i].step, NoEntryFaults)
    ensures var first := Run(local, remote, localPath, remotePath, evs).local;
            Run(first, remote, localPath, remotePath, again) == Outcome(first, |again|, Fine)
  {
    var first := Run(local, remote, localPath, remotePath, evs).local;
    SuccessMirrors(local, remote, localPath, remotePath, evs);
    forall i | 0 <= i < |again|
      ensures MirroredAt(first, remote, localPath, remotePath, again[i])
    {
      assert MirroredAt(first, remote, localPath, remotePath, evs[i]);
    }
    RerunIsNoop(first, remote, localPath, remotePath, again);
  }
}
