/** pkg/modules/smb.go: the static authentication callback handed to the SMB
    client. The callback is a Dafny function value from (server, share) to
    (domain, username, password). */
module SmbAuth {

  type AuthCallback = (string, string) -> (string, string, string)

  /** SMBAuth as written: the closure's named results `domain`, `username`
      and `password` shadow the captured parameters, so it returns the zero
      values of its own results. */
  function SMBAuthAsWritten(domain: string, username: string, password: string): (cb: AuthCallback)
    ensures forall server, share :: cb(server, share) == ("", "", "")
  {
    (server: string, share: string) => ("", "", "")
  }

  /** Any non-empty credentials are lost by the callback as written. */
  lemma SMBAuthAsWrittenLosesCredentials()
    ensures SMBAuthAsWritten("WORKGROUP", "alice", "secret")("fileserver", "C$") != ("WORKGROUP", "alice", "secret")
  {
    var r := SMBAuthAsWritten("WORKGROUP", "alice", "secret")("fileserver", "C$");
    assert r.1 == "";
    assert "alice"[0] == 'a';
  }

  /** SMBAuth as intended: whatever server and share are asked for, the
      callback answers with the credentials it was built with. */
  function SMBAuth(domain: string, username: string, password: string): (cb: AuthCallback)
    ensures forall server, share :: cb(server, share) == (domain, username, password)
  {
    (server: string, share: string) => (domain, username, password)
  }
}
