/** A worked example of the recursive download: a remote directory `r`
    holding a file `fa` and a directory `sd` with a file `fb` in it, walked
    root first and mirrored below a new local directory `l`. Every name and
    both file contents are parameters, so one proof covers every choice;
    only `fa` and `sd` must differ, since they share a directory. */
module Scenario {
  import opened Basics
  import opened Paths
  import opened FileSystem
  import opened Recursive

  const Top: Path := Absolute([])

  function RemoteA(r: Name, fa: Name): Path { Absolute([r, fa]) }
  function RemoteSub(r: Name, sd: Name): Path { Absolute([r, sd]) }
  function RemoteB(r: Name, sd: Name, fb: Name): Path { Absolute([r, sd, fb]) }

  /** The remote tree, with the contents of its two files. */
  function Remote(r: Name, fa: Name, sd: Name, fb: Name, a: Bytes, b: Bytes): Fs {
    map[Top := Dir(493), Absolute([r]) := Dir(493), RemoteA(r, fa) := File(a), RemoteSub(r, sd) := Dir(448), RemoteB(r, sd, fb) := File(b)]
  }

  /** The local side holds only the directory `l` goes into. */
  const Local: Fs := map[Top := Dir(493)]

  function Visit(p: Path, isDir: bool, mode: nat): Event {
    Event(Visited(p, Info(isDir, mode)), NoEntryFaults)
  }

  /** The walker's order: each directory before what it holds. */
  function Steps(r: Name, fa: Name, sd: Name, fb: Name): seq<Event> {
    [Visit(Absolute([r]), true, 493), Visit(RemoteA(r, fa), false, 420), Visit(RemoteSub(r, sd), true, 448), Visit(RemoteB(r, sd, fb), false, 420)]
  }

  /** A remote path below `r` re-roots onto the same names below `l`. */
  lemma Below(r: Name, l: Name, names: seq<Name>)
    ensures LocalFilepath(Absolute([l]), Absolute([r]), Absolute([r] + names)) == Some(Absolute([l] + names))
  {
    assert Suffix(Absolute([r]), Absolute([r] + names)) == names;
  }

  /** A directory whose parent is a directory and which is missing is
      created with the remote mode. */
  lemma DirStep(before: Fs, remote: Fs, l: Name, r: Name, ev: Event, lp: Path)
    requires IsDirVisit(ev) && ev.faults == NoEntryFaults
    requires LocalFilepath(Absolute([l]), Absolute([r]), ev.step.path) == Some(lp)
    requires |lp.parts| > 0 && Parent(lp) in before && before[Parent(lp)].Dir?
    requires lp !in before && !FileAncestor(before, lp)
    ensures HandleEntry(before, remote, Absolute([l]), Absolute([r]), ev) == Handled(before[lp := Dir(ev.step.info.mode)], Fine)
  {
  }

  /** A remote regular file whose target's parent is a directory is
      downloaded. */
  lemma FileStep(before: Fs, remote: Fs, l: Name, r: Name, ev: Event, lp: Path)
    requires IsFileVisit(ev) && ev.faults == NoEntryFaults
    requires LocalFilepath(Absolute([l]), Absolute([r]), ev.step.path) == Some(lp)
    requires ev.step.path in remote && remote[ev.step.path].File?
    requires |lp.parts| > 0 && Parent(lp) in before && before[Parent(lp)].Dir? && lp !in before
    ensures HandleEntry(before, remote, Absolute([l]), Absolute([r]), ev) == Handled(before[lp := remote[ev.step.path]], Fine)
  {
    assert Creatable(before, lp);
  }

  /** An entry that ends `Fine` adds one to the count of what follows it. */
  lemma FineThen(handle: Handler, before: Fs, after: Fs, final: Fs, n: nat, evs: seq<Event>)
    requires |evs| > 0 && handle(before, evs[0]) == Handled(after, Fine)
    requires Walk(handle, after, evs[1..]) == Outcome(final, n, Fine)
    ensures Walk(handle, before, evs) == Outcome(final, n + 1, Fine)
  {
  }

  lemma RootMade(remote: Fs, r: Name, l: Name, fa: Name, sd: Name, fb: Name)
    ensures HandleEntry(Local, remote, Absolute([l]), Absolute([r]), Steps(r, fa, sd, fb)[0]) == Handled(Local[Absolute([l]) := Dir(493)], Fine)
  {
    RerootRoot(Absolute([l]), Absolute([r]));
    assert Parent(Absolute([l])) == Top && Prefix(Absolute([l]), 0) == Top;
    DirStep(Local, remote, l, r, Steps(r, fa, sd, fb)[0], Absolute([l]));
  }

  lemma AFetched(remote: Fs, r: Name, l: Name, fa: Name, sd: Name, fb: Name, before: Fs)
    requires RemoteA(r, fa) in remote && remote[RemoteA(r, fa)].File?
    requires Absolute([l]) in before && before[Absolute([l])].Dir? && Absolute([l, fa]) !in before
    ensures HandleEntry(before, remote, Absolute([l]), Absolute([r]), Steps(r, fa, sd, fb)[1]) ==
      Handled(before[Absolute([l, fa]) := remote[RemoteA(r, fa)]], Fine)
  {
    Below(r, l, [fa]);
    assert [r] + [fa] == [r, fa] && [l] + [fa] == [l, fa];
    assert Parent(Absolute([l, fa])) == Absolute([l]);
    FileStep(before, remote, l, r, Steps(r, fa, sd, fb)[1], Absolute([l, fa]));
  }

  lemma SubMade(remote: Fs, r: Name, l: Name, fa: Name, sd: Name, fb: Name, before: Fs)
    requires Top in before && before[Top].Dir? && Absolute([l]) in before && before[Absolute([l])].Dir?
    requires Absolute([l, sd]) !in before
    ensures HandleEntry(before, remote, Absolute([l]), Absolute([r]), Steps(r, fa, sd, fb)[2]) ==
      Handled(before[Absolute([l, sd]) := Dir(448)], Fine)
  {
    var t := Absolute([l, sd]);
    Below(r, l, [sd]);
    assert [r] + [sd] == [r, sd] && [l] + [sd] == [l, sd];
    assert Parent(t) == Absolute([l]);
    assert Prefix(t, 0) == Top && Prefix(t, 1) == Absolute([l]);
    assert !FileAncestor(before, t) by {
      forall k | 0 <= k < 2
        ensures !(Prefix(t, k) in before && before[Prefix(t, k)].File?)
      {
      }
    }
    DirStep(before, remote, l, r, Steps(r, fa, sd, fb)[2], t);
  }

  lemma BFetched(remote: Fs, r: Name, l: Name, fa: Name, sd: Name, fb: Name, before: Fs)
    requires RemoteB(r, sd, fb) in remote && remote[RemoteB(r, sd, fb)].File?
    requires Absolute([l, sd]) in before && before[Absolute([l, sd])].Dir? && Absolute([l, sd, fb]) !in before
    ensures HandleEntry(before, remote, Absolute([l]), Absolute([r]), Steps(r, fa, sd, fb)[3]) ==
      Handled(before[Absolute([l, sd, fb]) := remote[RemoteB(r, sd, fb)]], Fine)
  {
    Below(r, l, [sd, fb]);
    assert [r] + [sd, fb] == [r, sd, fb] && [l] + [sd, fb] == [l, sd, fb];
    assert Parent(Absolute([l, sd, fb])) == Absolute([l, sd]);
    FileStep(before, remote, l, r, Steps(r, fa, sd, fb)[3], Absolute([l, sd, fb]));
  }

  /** The two files sit in the remote tree with their contents. */
  lemma RemoteFiles(r: Name, fa: Name, sd: Name, fb: Name, a: Bytes, b: Bytes)
    requires fa != sd
    ensures RemoteA(r, fa) in Remote(r, fa, sd, fb, a, b) && Remote(r, fa, sd, fb, a, b)[RemoteA(r, fa)] == File(a)
    ensures RemoteB(r, sd, fb) in Remote(r, fa, sd, fb, a, b) && Remote(r, fa, sd, fb, a, b)[RemoteB(r, sd, fb)] == File(b)
  {
    assert RemoteA(r, fa) != RemoteSub(r, sd) && RemoteA(r, fa) != RemoteB(r, sd, fb);
  }

  /** The last entry, `sd/fb`, is fetched. */
  lemma LastStage(remote: Fs, r: Name, l: Name, fa: Name, sd: Name, fb: Name, b: Bytes, l3: Fs)
    requires RemoteB(r, sd, fb) in remote && remote[RemoteB(r, sd, fb)] == File(b)
    requires Absolute([l, sd]) in l3 && l3[Absolute([l, sd])].Dir? && Absolute([l, sd, fb]) !in l3
    ensures Walk(EntryHandler(remote, Absolute([l]), Absolute([r])), l3, Steps(r, fa, sd, fb)[3..]) ==
      Outcome(l3[Absolute([l, sd, fb]) := File(b)], 1, Fine)
  {
    var evs := Steps(r, fa, sd, fb)[3..];
    BFetched(remote, r, l, fa, sd, fb, l3);
    assert evs[0] == Steps(r, fa, sd, fb)[3] && evs[1..] == [];
    FineThen(EntryHandler(remote, Absolute([l]), Absolute([r])), l3, l3[Absolute([l, sd, fb]) := File(b)],
             l3[Absolute([l, sd, fb]) := File(b)], 0, evs);
  }

  /** `sd` is made, then `sd/fb` fetched into it. */
  lemma SubStage(remote: Fs, r: Name, l: Name, fa: Name, sd: Name, fb: Name, b: Bytes, l2: Fs)
    requires RemoteB(r, sd, fb) in remote && remote[RemoteB(r, sd, fb)] == File(b)
    requires Top in l2 && l2[Top].Dir? && Absolute([l]) in l2 && l2[Absolute([l])].Dir?
    requires Absolute([l, sd]) !in l2 && Absolute([l, sd, fb]) !in l2
    ensures Walk(EntryHandler(remote, Absolute([l]), Absolute([r])), l2, Steps(r, fa, sd, fb)[2..]) ==
      Outcome(l2[Absolute([l, sd]) := Dir(448)][Absolute([l, sd, fb]) := File(b)], 2, Fine)
  {
    var evs := Steps(r, fa, sd, fb)[2..];
    var l3 := l2[Absolute([l, sd]) := Dir(448)];
    SubMade(remote, r, l, fa, sd, fb, l2);
    assert Absolute([l, sd, fb]) != Absolute([l, sd]);
    LastStage(remote, r, l, fa, sd, fb, b, l3);
    assert evs[0] == Steps(r, fa, sd, fb)[2] && evs[1..] == Steps(r, fa, sd, fb)[3..];
    FineThen(EntryHandler(remote, Absolute([l]), Absolute([r])), l2, l3,
             l3[Absolute([l, sd, fb]) := File(b)], 1, evs);
  }

  /** `fa` is fetched, then `sd` and what it holds. */
  lemma FileStage(remote: Fs, r: Name, l: Name, fa: Name, sd: Name, fb: Name, a: Bytes, b: Bytes, l1: Fs)
    requires fa != sd
    requires RemoteA(r, fa) in remote && remote[RemoteA(r, fa)] == File(a)
    requires RemoteB(r, sd, fb) in remote && remote[RemoteB(r, sd, fb)] == File(b)
    requires Top in l1 && l1[Top].Dir? && Absolute([l]) in l1 && l1[Absolute([l])].Dir?
    requires forall p :: p in l1 ==> |p.parts| < 2
    ensures Walk(EntryHandler(remote, Absolute([l]), Absolute([r])), l1, Steps(r, fa, sd, fb)[1..]) ==
      Outcome(l1[Absolute([l, fa]) := File(a)][Absolute([l, sd]) := Dir(448)][Absolute([l, sd, fb]) := File(b)], 3, Fine)
  {
    var evs := Steps(r, fa, sd, fb)[1..];
    var l2 := l1[Absolute([l, fa]) := File(a)];
    assert Absolute([l, fa]) !in l1;
    AFetched(remote, r, l, fa, sd, fb, l1);
    assert Absolute([l, sd]) != Absolute([l, fa]) && Absolute([l, sd]) !in l1;
    assert Absolute([l, sd, fb]) !in l1;
    SubStage(remote, r, l, fa, sd, fb, b, l2);
    assert evs[0] == Steps(r, fa, sd, fb)[1] && evs[1..] == Steps(r, fa, sd, fb)[2..];
    FineThen(EntryHandler(remote, Absolute([l]), Absolute([r])), l1, l2,
             l2[Absolute([l, sd]) := Dir(448)][Absolute([l, sd, fb]) := File(b)], 2, evs);
  }

  /** Any remote tree holding the two files is mirrored entry by entry. */
  lemma MirrorsFiles(remote: Fs, r: Name, l: Name, fa: Name, sd: Name, fb: Name, a: Bytes, b: Bytes)
    requires fa != sd
    requires RemoteA(r, fa) in remote && remote[RemoteA(r, fa)] == File(a)
    requires RemoteB(r, sd, fb) in remote && remote[RemoteB(r, sd, fb)] == File(b)
    ensures Run(Local, remote, Absolute([l]), Absolute([r]), Steps(r, fa, sd, fb)) ==
      Outcome(Local[Absolute([l]) := Dir(493)]
                   [Absolute([l, fa]) := File(a)]
                   [Absolute([l, sd]) := Dir(448)]
                   [Absolute([l, sd, fb]) := File(b)], 4, Fine)
  {
    var evs := Steps(r, fa, sd, fb);
    var l1 := Local[Absolute([l]) := Dir(493)];
    RootMade(remote, r, l, fa, sd, fb);
    FileStage(remote, r, l, fa, sd, fb, a, b, l1);
    assert evs[1..] == Steps(r, fa, sd, fb)[1..];
    FineThen(EntryHandler(remote, Absolute([l]), Absolute([r])), Local, l1,
             l1[Absolute([l, fa]) := File(a)][Absolute([l, sd]) := Dir(448)][Absolute([l, sd, fb]) := File(b)], 3, evs);
  }

  /** The download returns nil after all four entries, and the local tree
      then holds `l` and `l/sd` with the remote modes and both files with
      their remote bytes. */
  lemma DownloadsExampleTree(r: Name, l: Name, fa: Name, sd: Name, fb: Name, a: Bytes, b: Bytes)
    requires fa != sd
    ensures Run(Local, Remote(r, fa, sd, fb, a, b), Absolute([l]), Absolute([r]), Steps(r, fa, sd, fb)) ==
      Outcome(Local[Absolute([l]) := Dir(493)]
                   [Absolute([l, fa]) := File(a)]
                   [Absolute([l, sd]) := Dir(448)]
                   [Absolute([l, sd, fb]) := File(b)], 4, Fine)
  {
    RemoteFiles(r, fa, sd, fb, a, b);
    MirrorsFiles(Remote(r, fa, sd, fb, a, b), r, l, fa, sd, fb, a, b);
  }
}
