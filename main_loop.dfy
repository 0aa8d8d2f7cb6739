/** One pass of the `while` loop in `app_main` (`main/main.c`): read a UID,
    decide against the registry of `rfid_storage.c`, and log a grant. */
module AppMain {
  import opened Esp
  import opened RfidStorage
  import RfidReader

  /** The fixed timestamp every grant is logged with. */
  const GrantTimestamp := "2025-08-25 12:00"
  const UidBufLen := 32   // char uid[32]

  /** The log after one pass, given what the read returned. */
  function LogAfterPass(users: seq<User>, logs: seq<LogEntry>, read: EspErr, uid: string): seq<LogEntry> {
    if read == EspOk && Registered(users, uid) then LogsAfterAppend(logs, uid, GrantTimestamp)
    else logs
  }

  /** Every stored uid fits its field, as `strncpy` into `char uid[32]` ensures. */
  predicate UidsFit(users: seq<User>) {
    forall i :: 0 <= i < |users| ==> |users[i].uid| < MaxUidLen
  }

  /** The loop only ever logs registered uids: if each entry of the log names
      a registered user before a pass, each does after it. */
  lemma PassLogsOnlyRegistered(users: seq<User>, logs: seq<LogEntry>, read: EspErr, uid: string)
    requires UidsFit(users)
    requires forall k :: 0 <= k < |logs| ==> Registered(users, logs[k].uid)
    ensures var after := LogAfterPass(users, logs, read, uid);
            forall k :: 0 <= k < |after| ==> Registered(users, after[k].uid)
  {
    if read == EspOk && Registered(users, uid) {
      var i :| 0 <= i < |users| && users[i].uid == uid;
      assert StoredLog(uid, GrantTimestamp).uid == uid;
      var after := LogAfterPass(users, logs, read, uid);
      forall k | 0 <= k < |after|
        ensures Registered(users, after[k].uid)
      {
        if k < |after| - 1 {
          var j := if |logs| >= MaxLogs then k + 1 else k;
          assert after[k] == logs[j];
        }
      }
    }
  }

  /** The body of the loop, given the result and contents of the read: a
      failed read, or an unregistered uid, leaves the log as it was.  The
      counts are taken as loaded: with more than 50 users the scan must find
      the uid inside `user_db`, and a grant needs a log count that indexes
      at or after the start of `log_db`. */
  method Pass(s: Storage, read: EspErr, uid: string, fault: NvsFault) returns (granted: bool)
    requires s.Shaped()
    requires read == EspOk && s.userCount > MaxUsers ==> Registered(s.Users(), uid)
    requires read == EspOk && Registered(s.Users(), uid) ==> 0 <= s.logCount
    modifies s`logCount, s`logsImage, s.logs
    ensures s.Shaped() && s.userCount == old(s.userCount) && s.Users() == old(s.Users())
    ensures granted <==> read == EspOk && Registered(old(s.Users()), uid)
    ensures old(s.LogsInRange()) ==>
              s.LogsInRange() && s.Logs() == LogAfterPass(old(s.Users()), old(s.Logs()), read, uid)
    ensures granted && old(s.logCount) > MaxLogs ==>
              s.logCount == MaxLogs && s.logs[..] == old(s.logs[1..]) + [StoredLog(uid, GrantTimestamp)]
    ensures !granted ==>
              s.logCount == old(s.logCount) && s.logsImage == old(s.logsImage) && s.logs[..] == old(s.logs[..])
    ensures granted ==> s.logsImage == SavedImage(old(s.logsImage), s.logs[..], s.logCount, fault)
  {
    granted := false;
    if read == EspOk {
      var authorized := s.IsUserAuthorized(uid);
      if authorized {
        var _ := s.AddLog(uid, GrantTimestamp, fault);
        granted := true;
      }
    }
  }

  /** The loop body as built: `rfid_read_uid` always fails, so no pass
      changes the registry or the log, whatever counts were loaded.  `stale`
      is whatever the uninitialised `uid[32]` held. */
  method LoopBody(s: Storage, stale: string, fault: NvsFault)
    requires s.Shaped()
    modifies s`logCount, s`logsImage, s.logs
    ensures s.Shaped() && s.userCount == old(s.userCount) && s.Users() == old(s.Users())
    ensures s.logCount == old(s.logCount) && s.logs[..] == old(s.logs[..]) && s.logsImage == old(s.logsImage)
  {
    var buf := new char[UidBufLen](_ => '\0');
    var read := RfidReader.ReadUid(buf, UidBufLen);
    var _ := Pass(s, read, stale, fault);
  }
}
