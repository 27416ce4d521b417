/** The library's client value: the single-file entry points, which
    delegate to the transfers, and closing (`Close`, `Quit`). */
module Easysftp {
  import opened Basics
  import opened Errors
  import opened Paths
  import opened FileSystem
  import opened Transfer

  /** A client reference: nil, or a live client whose `Close` reports the
      given outcome. */
  datatype Handle = Nil | Live(closeErr: Option<IoError>)

  /** Which client a close was attempted on. */
  datatype Side = SftpSide | SshSide

  /** The library's value: the SSH connection and the SFTP session over it. */
  datatype Client = Client(ssh: Handle, sftp: Handle)

  /** What closing returns: the collected errors, plus the clients closed, in order. */
  datatype Closed = Closed(errs: seq<IoError>, attempted: seq<Side>)

  predicate Fails(h: Handle) {
    h.Live? && h.closeErr.Some?
  }

  /** `Close`: closes the SFTP client, then the SSH client, skipping a nil
      one, and collects the errors in that order. A failing SFTP close does
      not stop the SSH close. */
  function Close(c: Client): (r: Closed)
    ensures |r.errs| <= 2
    ensures r.errs == [] <==> !Fails(c.sftp) && !Fails(c.ssh)
    ensures |r.errs| == (if Fails(c.sftp) then 1 else 0) + (if Fails(c.ssh) then 1 else 0)
    ensures Fails(c.sftp) ==> r.errs[0] == c.sftp.closeErr.value
    ensures Fails(c.ssh) ==> r.errs[|r.errs| - 1] == c.ssh.closeErr.value
    ensures SftpSide in r.attempted <==> c.sftp.Live?
    ensures SshSide in r.attempted <==> c.ssh.Live?
    ensures c.sftp.Live? && c.ssh.Live? ==> r.attempted == [SftpSide, SshSide]
  {
    var (e1, a1) :=
      if c.sftp.Live? then
        (if c.sftp.closeErr.Some? then [c.sftp.closeErr.value] else [], [SftpSide])
      else ([], []);
    var (e2, a2) :=
      if c.ssh.Live? then
        (if c.ssh.closeErr.Some? then [c.ssh.closeErr.value] else [], [SshSide])
      else ([], []);
    Closed(e1 + e2, a1 + a2)
  }

  /** `Quit`: an alias of `Close`. */
  function Quit(c: Client): (r: Closed)
    ensures r == Close(c)
  {
    Close(c)
  }

  /** `Get`: a single-file download through the SFTP client. */
  function Get(local: Fs, remote: Fs, localFilepath: Path, remoteFilepath: Path, f: Faults): Transferred {
    GetTransfer(local, remote, localFilepath, remoteFilepath, f)
  }

  /** `Put`: a single-file upload through the SFTP client. */
  function Put(local: Fs, remote: Fs, localFilepath: Path, remoteFilepath: Path, f: Faults): Transferred {
    PutTransfer(local, remote, localFilepath, remoteFilepath, f)
  }
}
