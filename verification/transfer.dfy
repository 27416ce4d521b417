/** Single-file transfer in each direction: a fixed sequence of steps, each
    with its own error, where any error reports zero bytes. */
module Transfer {
  import opened Basics
  import opened Errors
  import opened Paths
  import opened FileSystem

  /** The steps of a transfer, in the order they are taken. */
  datatype Step = CreateDest | OpenSource | CopyData | SyncDest

  /** The failures injected into one transfer, one per primitive it calls. */
  datatype Faults = Faults(create: Option<IoError>, open: Option<IoError>, copy: Option<CopyFault>, sync: Option<IoError>)

  const NoFaults: Faults := Faults(None, None, None, None)

  /** The outcome of one transfer: the destination filesystem afterwards,
      the byte count and error the library returns, and the steps taken. */
  datatype Transferred = Transferred(dest: Fs, bytes: nat, err: Option<Error>, steps: seq<Step>)

  /** All four steps of a download. */
  const DownloadSteps: seq<Step> := [CreateDest, OpenSource, CopyData, SyncDest]

  /** Download (`getTransfer`): create or truncate the local file, open the
      remote file, copy, then sync the local file. The remote side is only
      read, so only the local filesystem is returned. */
  function GetTransfer(local: Fs, remote: Fs, localPath: Path, remotePath: Path, f: Faults): (r: Transferred)
    // success exactly when nothing is injected, the local path can be created
    // and the remote path is a regular file; the local file then holds its bytes
    ensures r.err.None? <==>
      f == NoFaults && Creatable(local, localPath) && remotePath in remote && remote[remotePath].File?
    ensures r.err.None? ==>
      r.dest == local[localPath := remote[remotePath]] && r.bytes == |remote[remotePath].data|
    // never a partial count
    ensures r.err.Some? ==> r.bytes == 0
    // only the local path changes, and it never becomes a directory
    ensures GrowsByFiles(local, r.dest) && Frame(local, r.dest, localPath)
  {
    match Create(local, localPath, f.create)
    case Fail(e) => Transferred(local, 0, Some(LocalFileErr(e)), [CreateDest])
    case Ok(created) =>
      match Open(remote, remotePath, f.open)
      case Fail(e) => Transferred(created, 0, Some(RemoteFileErr(e)), [CreateDest, OpenSource])
      case Ok(src) =>
        match Copy(src, f.copy)
        case CopyFailed(e, partial) =>
          Transferred(created[localPath := File(partial)], 0, Some(CopyErr(e)), [CreateDest, OpenSource, CopyData])
        case Copied(data) =>
          var written := created[localPath := File(data)];
          if f.sync.Some? then Transferred(written, 0, Some(SyncErr(f.sync.value)), DownloadSteps)
          else Transferred(written, |data|, None, DownloadSteps)
  }

  /** The steps of a download run create, open, copy, sync in that order
      and stop at the first failure. A create failure touches nothing and
      never opens the remote file; an open failure leaves the local file
      created and empty; a copy failure leaves a prefix of the source; a
      sync failure leaves all the data but still fails. */
  lemma DownloadOrder(local: Fs, remote: Fs, localPath: Path, remotePath: Path, f: Faults)
    ensures var r := GetTransfer(local, remote, localPath, remotePath, f);
            && 0 < |r.steps| && r.steps <= DownloadSteps
            && (r.err.None? ==> r.steps == DownloadSteps)
            && (r.err.Some? ==>
                  r.err.value.LocalFileErr? || r.err.value.RemoteFileErr? || r.err.value.CopyErr? || r.err.value.SyncErr?)
    ensures var r := GetTransfer(local, remote, localPath, remotePath, f);
            Create(local, localPath, f.create).Fail? ==>
              r.err == Some(LocalFileErr(Create(local, localPath, f.create).error)) && r.steps == [CreateDest] && r.dest == local
    ensures var r := GetTransfer(local, remote, localPath, remotePath, f);
            Create(local, localPath, f.create).Ok? && Open(remote, remotePath, f.open).Fail? ==>
              r.err == Some(RemoteFileErr(Open(remote, remotePath, f.open).error)) &&
              r.steps == [CreateDest, OpenSource] && r.dest == local[localPath := File([])]
    ensures var r := GetTransfer(local, remote, localPath, remotePath, f);
            r.err.Some? && r.err.value.CopyErr? ==>
              r.steps == DownloadSteps[..3] && remotePath in remote && localPath in r.dest && r.dest[localPath].File? &&
              r.dest[localPath].data <= (if remote[remotePath].File? then remote[remotePath].data else [])
    ensures var r := GetTransfer(local, remote, localPath, remotePath, f);
            r.err.Some? && r.err.value.SyncErr? ==>
              r.steps == DownloadSteps && remotePath in remote && r.dest == local[localPath := remote[remotePath]]
  {
  }

  /** All three steps of an upload: there is no sync. */
  const UploadSteps: seq<Step> := [CreateDest, OpenSource, CopyData]

  /** Upload (`putTransfer`): create or truncate the remote file, open the
      local file, copy. The local side is only read, so only the remote
      filesystem is returned. */
  function PutTransfer(local: Fs, remote: Fs, localPath: Path, remotePath: Path, f: Faults): (r: Transferred)
    ensures r.err.None? <==>
      f.create.None? && f.open.None? && f.copy.None? &&
      Creatable(remote, remotePath) && localPath in local && local[localPath].File?
    ensures r.err.None? ==>
      r.dest == remote[remotePath := local[localPath]] && r.bytes == |local[localPath].data|
    ensures r.err.Some? ==> r.bytes == 0
    ensures GrowsByFiles(remote, r.dest) && Frame(remote, r.dest, remotePath)
  {
    match Create(remote, remotePath, f.create)
    case Fail(e) => Transferred(remote, 0, Some(RemoteFileErr(e)), [CreateDest])
    case Ok(created) =>
      match Open(local, localPath, f.open)
      case Fail(e) => Transferred(created, 0, Some(LocalFileErr(e)), [CreateDest, OpenSource])
      case Ok(src) =>
        match Copy(src, f.copy)
        case CopyFailed(e, partial) =>
          Transferred(created[remotePath := File(partial)], 0, Some(CopyErr(e)), UploadSteps)
        case Copied(data) =>
          Transferred(created[remotePath := File(data)], |data|, None, UploadSteps)
  }

  /** The steps of an upload run create, open, copy and never sync. The
      remote file is created before the local one is opened, so a local
      open failure leaves the remote file truncated; a copy failure leaves
      a prefix of the local file. */
  lemma UploadOrder(local: Fs, remote: Fs, localPath: Path, remotePath: Path, f: Faults)
    ensures var r := PutTransfer(local, remote, localPath, remotePath, f);
            && 0 < |r.steps| && r.steps <= UploadSteps && SyncDest !in r.steps
            && (r.err.None? ==> r.steps == UploadSteps)
            && (r.err.Some? ==> r.err.value.LocalFileErr? || r.err.value.RemoteFileErr? || r.err.value.CopyErr?)
    ensures var r := PutTransfer(local, remote, localPath, remotePath, f);
            Create(remote, remotePath, f.create).Fail? ==>
              r.err == Some(RemoteFileErr(Create(remote, remotePath, f.create).error)) && r.steps == [CreateDest] && r.dest == remote
    ensures var r := PutTransfer(local, remote, localPath, remotePath, f);
            Create(remote, remotePath, f.create).Ok? && Open(local, localPath, f.open).Fail? ==>
              r.err == Some(LocalFileErr(Open(local, localPath, f.open).error)) &&
              r.steps == [CreateDest, OpenSource] && r.dest == remote[remotePath := File([])]
    ensures var r := PutTransfer(local, remote, localPath, remotePath, f);
            r.err.Some? && r.err.value.CopyErr? ==>
              r.steps == UploadSteps && localPath in local && remotePath in r.dest && r.dest[remotePath].File? &&
              r.dest[remotePath].data <= (if local[localPath].File? then local[localPath].data else [])
  {
  }

  /** An upload never syncs, so a sync failure cannot affect it. */
  lemma PutIgnoresSync(local: Fs, remote: Fs, localPath: Path, remotePath: Path, f: Faults)
    ensures PutTransfer(local, remote, localPath, remotePath, f) ==
            PutTransfer(local, remote, localPath, remotePath, f.(sync := None))
  {
  }

  /** Uploading a file and downloading it back gives the same content, and
      both directions report its length. */
  lemma UploadDownloadRoundTrip(local: Fs, remote: Fs, localPath: Path, remotePath: Path, back: Fs, backPath: Path, f: Faults, g: Faults)
    requires PutTransfer(local, remote, localPath, remotePath, f).err.None?
    requires GetTransfer(back, PutTransfer(local, remote, localPath, remotePath, f).dest, backPath, remotePath, g).err.None?
    ensures var up := PutTransfer(local, remote, localPath, remotePath, f);
            var down := GetTransfer(back, up.dest, backPath, remotePath, g);
            down.dest[backPath] == local[localPath] && down.bytes == up.bytes == |local[localPath].data|
  {
  }

  /** With nothing injected, an upload followed by a download into a
      creatable local path succeeds. */
  lemma UploadDownloadSucceeds(local: Fs, remote: Fs, localPath: Path, remotePath: Path, back: Fs, backPath: Path)
    requires localPath in local && local[localPath].File?
    requires Creatable(remote, remotePath) && Creatable(back, backPath)
    ensures var up := PutTransfer(local, remote, localPath, remotePath, NoFaults);
            up.err.None? && GetTransfer(back, up.dest, backPath, remotePath, NoFaults).err.None?
  {
  }
}
