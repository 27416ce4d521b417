/** Batch upload (`putMultiple`): best effort over an explicit list, one
    result per input at the same index. */
module Batch {
  import opened Basics
  import opened Errors
  import opened Paths
  import opened FileSystem
  import opened Transfer

  /** A local file and the remote path it is uploaded to. */
  datatype FilePair = FilePair(localFilepath: Path, remoteFilepath: Path)

  /** The remote filesystem after a batch, and the two result lists. */
  datatype Results = Results(remote: Fs, counts: seq<nat>, errs: seq<Option<Error>>)

  /** A pair whose upload succeeds from any remote state that grew from
      `remote` by regular files: nothing is injected, the local file is a
      regular file and the remote path can be created. */
  ghost predicate Good(local: Fs, remote: Fs, file: FilePair, f: Faults) {
    && f.create.None? && f.open.None? && f.copy.None?
    && file.localFilepath in local && local[file.localFilepath].File?
    && Creatable(remote, file.remoteFilepath)
  }

  /** Uploads one pair against the current remote state. */
  type Uploader = (Fs, FilePair, Faults) -> Transferred

  /** The library's upload of local files. */
  function Uploads(local: Fs): Uploader {
    (remote, file: FilePair, f) => PutTransfer(local, remote, file.localFilepath, file.remoteFilepath, f)
  }

  /** The batch as a recursive definition: upload the first pair, then the
      rest against the remote filesystem the first upload left behind,
      whatever its outcome. */
  function PutEach(upload: Uploader, remote: Fs, files: seq<FilePair>, faults: seq<Faults>): (b: Results)
    requires |faults| == |files|
    ensures |b.counts| == |files| && |b.errs| == |files|
    decreases |files|
  {
    if |files| == 0 then Results(remote, [], [])
    else
      var t := upload(remote, files[0], faults[0]);
      var rest := PutEach(upload, t.dest, files[1..], faults[1..]);
      Results(rest.remote, [t.bytes] + rest.counts, [t.err] + rest.errs)
  }

  /** The remote filesystem just before the `i`-th upload. */
  function RemoteBefore(upload: Uploader, remote: Fs, files: seq<FilePair>, faults: seq<Faults>, i: nat): Fs
    requires |faults| == |files| && i <= |files|
  {
    PutEach(upload, remote, files[..i], faults[..i]).remote
  }

  /** Every index holds the outcome of uploading its own pair against the
      state the earlier uploads left, so a failure at one index never
      prevents a later one from being attempted. */
  lemma {:induction false} EachPairAttempted(upload: Uploader, remote: Fs, files: seq<FilePair>, faults: seq<Faults>, i: nat)
    requires |faults| == |files| && i < |files|
    ensures var b := PutEach(upload, remote, files, faults);
            var t := upload(RemoteBefore(upload, remote, files, faults, i), files[i], faults[i]);
            b.counts[i] == t.bytes && b.errs[i] == t.err
    decreases i
  {
    if i > 0 {
      var t := upload(remote, files[0], faults[0]);
      EachPairAttempted(upload, t.dest, files[1..], faults[1..], i - 1);
      assert files[..i][1..] == files[1..][..i - 1];
      assert faults[..i][1..] == faults[1..][..i - 1];
    }
  }

  /** The uploader only adds or rewrites regular files. */
  ghost predicate AddsFiles(upload: Uploader) {
    forall r, file, f :: GrowsByFiles(r, upload(r, file, f).dest)
  }

  lemma {:induction false} PutEachGrows(upload: Uploader, remote: Fs, files: seq<FilePair>, faults: seq<Faults>)
    requires |faults| == |files| && AddsFiles(upload)
    ensures GrowsByFiles(remote, PutEach(upload, remote, files, faults).remote)
    decreases |files|
  {
    if |files| > 0 {
      var t := upload(remote, files[0], faults[0]);
      PutEachGrows(upload, t.dest, files[1..], faults[1..]);
      GrowsByFilesTransitive(remote, t.dest, PutEach(upload, t.dest, files[1..], faults[1..]).remote);
    }
  }

  /** Each index reports honestly: an error means count 0, a success the
      local file's length. */
  lemma PutAllReports(local: Fs, remote: Fs, files: seq<FilePair>, faults: seq<Faults>)
    requires |faults| == |files|
    ensures var b := PutEach(Uploads(local), remote, files, faults);
            forall i :: 0 <= i < |files| ==>
              (b.errs[i].Some? ==> b.counts[i] == 0) &&
              (b.errs[i].None? ==>
                files[i].localFilepath in local && local[files[i].localFilepath].File? &&
                b.counts[i] == |local[files[i].localFilepath].data|)
  {
    forall i | 0 <= i < |files| {
      EachPairAttempted(Uploads(local), remote, files, faults, i);
    }
  }

  /** `putMultiple` as a recursive definition, with the library's upload. */
  function PutAll(local: Fs, remote: Fs, files: seq<FilePair>, faults: seq<Faults>): (b: Results)
    requires |faults| == |files|
    ensures |b.counts| == |files| && |b.errs| == |files|
    ensures forall i :: 0 <= i < |files| && b.errs[i].Some? ==> b.counts[i] == 0
    ensures forall i :: 0 <= i < |files| && b.errs[i].None? ==>
      files[i].localFilepath in local && local[files[i].localFilepath].File? &&
      b.counts[i] == |local[files[i].localFilepath].data|
    ensures GrowsByFiles(remote, b.remote)
  {
    PutAllReports(local, remote, files, faults);
    PutEachGrows(Uploads(local), remote, files, faults);
    PutEach(Uploads(local), remote, files, faults)
  }

  /** One step of the recursive definition, from index `i`. */
  lemma PutEachUnfold(upload: Uploader, remote: Fs, files: seq<FilePair>, faults: seq<Faults>, i: nat)
    requires |faults| == |files| && i < |files|
    ensures var t := upload(remote, files[i], faults[i]);
            var rest := PutEach(upload, t.dest, files[i + 1..], faults[i + 1..]);
            PutEach(upload, remote, files[i..], faults[i..]) == Results(rest.remote, [t.bytes] + rest.counts, [t.err] + rest.errs)
  {
    assert files[i..][1..] == files[i + 1..] && faults[i..][1..] == faults[i + 1..];
  }

  /** The loop invariant of `PutMultiple`: the results gathered so far,
      followed by the batch over the remaining pairs from the current remote
      state, make up the whole batch. */
  ghost predicate Gathered(upload: Uploader, remote: Fs, files: seq<FilePair>, faults: seq<Faults>,
                           i: nat, current: Fs, counts: seq<nat>, errs: seq<Option<Error>>)
    requires |faults| == |files| && i <= |files|
  {
    var rest := PutEach(upload, current, files[i..], faults[i..]);
    PutEach(upload, remote, files, faults) == Results(rest.remote, counts + rest.counts, errs + rest.errs)
  }

  lemma GatheredStep(upload: Uploader, remote: Fs, files: seq<FilePair>, faults: seq<Faults>,
                     i: nat, current: Fs, counts: seq<nat>, errs: seq<Option<Error>>)
    requires |faults| == |files| && i < |files|
    requires Gathered(upload, remote, files, faults, i, current, counts, errs)
    ensures var t := upload(current, files[i], faults[i]);
            Gathered(upload, remote, files, faults, i + 1, t.dest, counts + [t.bytes], errs + [t.err])
  {
    var t := upload(current, files[i], faults[i]);
    PutEachUnfold(upload, current, files, faults, i);
    var rest := PutEach(upload, t.dest, files[i + 1..], faults[i + 1..]);
    assert counts + ([t.bytes] + rest.counts) == (counts + [t.bytes]) + rest.counts;
    assert errs + ([t.err] + rest.errs) == (errs + [t.err]) + rest.errs;
  }

  /** One `putTransfer` call of the loop. */
  method UploadOne(local: Fs, remote: Fs, file: FilePair, f: Faults) returns (t: Transferred)
    ensures t == Uploads(local)(remote, file, f)
  {
    t := PutTransfer(local, remote, file.localFilepath, file.remoteFilepath, f);
  }

  /** `putMultiple`: the library's append loop. */
  method PutMultiple(local: Fs, remote: Fs, files: seq<FilePair>, faults: seq<Faults>)
    returns (remoteAfter: Fs, counts: seq<nat>, errs: seq<Option<Error>>)
    requires |faults| == |files|
    ensures Results(remoteAfter, counts, errs) == PutAll(local, remote, files, faults)
  {
    ghost var upload := Uploads(local);
    remoteAfter, counts, errs := remote, [], [];
    var i := 0;
    assert files[0..] == files && faults[0..] == faults;
    while i < |files|
      invariant 0 <= i <= |files|
      invariant Gathered(upload, remote, files, faults, i, remoteAfter, counts, errs)
    {
      GatheredStep(upload, remote, files, faults, i, remoteAfter, counts, errs);
      var t := UploadOne(local, remoteAfter, files[i], faults[i]);
      remoteAfter, counts, errs := t.dest, counts + [t.bytes], errs + [t.err];
      i := i + 1;
    }
    assert files[i..] == [] && faults[i..] == [];
  }

  /** Failures stay at their own index: every good pair succeeds and reports
      its file's length, whatever happens to the other pairs. */
  lemma GoodPairsSucceed(local: Fs, remote: Fs, files: seq<FilePair>, faults: seq<Faults>, i: nat)
    requires |faults| == |files| && i < |files|
    requires Good(local, remote, files[i], faults[i])
    ensures var b := PutAll(local, remote, files, faults);
            b.errs[i].None? && b.counts[i] == |local[files[i].localFilepath].data|
  {
    var upload := Uploads(local);
    var before := RemoteBefore(upload, remote, files, faults, i);
    PutEachGrows(upload, remote, files[..i], faults[..i]);
    CreatableGrows(remote, before, files[i].remoteFilepath);
    EachPairAttempted(upload, remote, files, faults, i);
  }
}
