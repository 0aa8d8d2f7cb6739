/** The access registry and audit log of `main/rfid_storage.c`: two fixed
    arrays in RAM (`user_db`, `log_db`) with their counters, and the image of
    each that `save_*_to_nvs` writes to the `rfid_storage` NVS namespace. */
module RfidStorage {
  import opened Esp
  import opened Fmt

  const MaxUidLen := 32        // char uid[32]
  const MaxNameLen := 64       // char name[64]
  const MaxTimestampLen := 32  // char timestamp[32]
  const MaxUsers := 50
  const MaxLogs := 50

  datatype User = User(uid: string, name: string)
  datatype LogEntry = LogEntry(uid: string, timestamp: string)

  /** One table as the NVS namespace holds it: the blob of the whole array
      (`sizeof(user_db)`) and the `*_count` scalar, each of which may be missing. */
  datatype Image<T> = Image(blob: Option<seq<T>>, count: Option<int>)

  /** Where the writes of one `save_*_to_nvs` call fail, if they do. */
  datatype NvsFault =
    | NoFault
    | OpenFails(openErr: Failure)
    | BlobFails(blobErr: Failure)
    | CountFails(countErr: Failure)

  /** The result of an operation on a table: the new table, or the code it
      is refused with. */
  datatype Outcome<T> = Accepted(value: T) | Refused(code: Failure)

  // ---------------------------------------------------------------------
  // The registry and log as sequences
  // ---------------------------------------------------------------------

  predicate Registered(users: seq<User>, uid: string) {
    exists i :: 0 <= i < |users| && users[i].uid == uid
  }

  ghost predicate UniqueUids(users: seq<User>) {
    forall i, j :: 0 <= i < j < |users| ==> users[i].uid != users[j].uid
  }

  /** The entry `strncpy` leaves in a zeroed slot. */
  function StoredUser(uid: string, name: string): User {
    User(Truncate(uid, MaxUidLen - 1), Truncate(name, MaxNameLen - 1))
  }

  function StoredLog(uid: string, timestamp: string): LogEntry {
    LogEntry(Truncate(uid, MaxUidLen - 1), Truncate(timestamp, MaxTimestampLen - 1))
  }

  /** The index of the first user whose uid is `uid`, or -1. */
  function FirstMatch(users: seq<User>, uid: string): (i: int)
    ensures -1 <= i < |users|
    ensures i == -1 <==> !Registered(users, uid)
    ensures i >= 0 ==> users[i].uid == uid
    ensures forall j :: 0 <= j < i ==> users[j].uid != uid
  {
    if users == [] then -1
    else if users[0].uid == uid then 0
    else
      var k := FirstMatch(users[1..], uid);
      assert forall j :: 1 <= j < |users| ==> users[j] == users[1..][j - 1];
      if k < 0 then -1 else k + 1
  }

  /** `rfid_add_user`: capacity first, then the duplicate check against the
      stored uids, then an append of the truncated pair. */
  function UsersAfterAdd(users: seq<User>, uid: string, name: string): Outcome<seq<User>> {
    if |users| >= MaxUsers then Refused(ErrNoMem)
    else if Registered(users, uid) then Refused(ErrInvalidState)
    else Accepted(users + [StoredUser(uid, name)])
  }

  /** `rfid_remove_user`: the last user moves into the first matching slot. */
  function UsersAfterRemove(users: seq<User>, uid: string): Outcome<seq<User>> {
    var i := FirstMatch(users, uid);
    if i < 0 then Refused(ErrNotFound)
    else Accepted(users[i := users[|users| - 1]][..|users| - 1])
  }

  /** `rfid_add_log`: a full log drops its oldest entry before the append. */
  function LogsAfterAppend(logs: seq<LogEntry>, uid: string, timestamp: string): seq<LogEntry> {
    if |logs| >= MaxLogs then logs[1..MaxLogs] + [StoredLog(uid, timestamp)]
    else logs + [StoredLog(uid, timestamp)]
  }

  /** The log after appending each of `events` in turn. */
  function AppendAll(logs: seq<LogEntry>, events: seq<LogEntry>): seq<LogEntry> {
    if events == [] then logs
    else
      var e := events[|events| - 1];
      LogsAfterAppend(AppendAll(logs, events[..|events| - 1]), e.uid, e.timestamp)
  }

  function Clipped(events: seq<LogEntry>): (r: seq<LogEntry>)
    ensures |r| == |events|
  {
    seq(|events|, i requires 0 <= i < |events| => StoredLog(events[i].uid, events[i].timestamp))
  }

  function Newest<T>(s: seq<T>, n: nat): seq<T> {
    if |s| <= n then s else s[|s| - n..]
  }

  // ---------------------------------------------------------------------
  // The persisted image
  // ---------------------------------------------------------------------

  ghost predicate Fits<T>(img: Image<T>, size: nat) {
    img.blob.Some? ==> |img.blob.value| == size
  }

  /** What one `save_*_to_nvs` call leaves in the namespace. */
  function SavedImage<T>(img: Image<T>, blob: seq<T>, count: int, fault: NvsFault): Image<T> {
    match fault
    case NoFault => Image(Some(blob), Some(count))
    case OpenFails(_) => img
    case BlobFails(_) => img
    case CountFails(_) => Image(Some(blob), img.count)
  }

  /** What one `save_*_to_nvs` call returns. */
  function SaveResult(fault: NvsFault): EspErr {
    match fault
    case NoFault => EspOk
    case OpenFails(e) => e
    case BlobFails(e) => e
    case CountFails(e) => e
  }

  /** What `nvs_get_blob` reports for a table: NOT_FOUND when no blob is
      stored, otherwise `read`, the engine's result for the stored blob
      (`EspOk`, or a failure such as `ESP_ERR_NVS_INVALID_LENGTH`). */
  function BlobRead<T>(img: Image<T>, read: EspErr): EspErr {
    if img.blob.None? then ErrNvsNotFound else read
  }

  /** The array `load_*_from_nvs` leaves, starting from `blob` in RAM: the
      stored blob when the read succeeds, otherwise what RAM held. */
  function LoadedArray<T>(img: Image<T>, read: EspErr, blob: seq<T>): seq<T> {
    if BlobRead(img, read) == EspOk then img.blob.value else blob
  }

  /** The counter `load_*_from_nvs` leaves: unless the read reported
      NOT_FOUND, the stored count when there is one, unchecked, and whether
      or not the blob read succeeded. */
  function LoadedCount<T>(img: Image<T>, read: EspErr, count: int): int {
    if BlobRead(img, read) == ErrNvsNotFound then count else img.count.GetOr(count)
  }

  /** What `load_*_from_nvs` returns once the namespace is open: NOT_FOUND
      counts as an empty table, any other read failure is passed on. */
  function LoadResult<T>(img: Image<T>, read: EspErr): EspErr {
    if BlobRead(img, read) == ErrNvsNotFound then EspOk else BlobRead(img, read)
  }

  // ---------------------------------------------------------------------
  // Properties of the registry
  // ---------------------------------------------------------------------

  /** A second add of the same (at most 31-character) uid is refused and
      leaves the registry as it is. */
  lemma AddTwiceRefused(users: seq<User>, uid: string, name: string, name2: string)
    requires |uid| < MaxUidLen
    requires UsersAfterAdd(users, uid, name).Accepted?
    ensures var again := UsersAfterAdd(UsersAfterAdd(users, uid, name).value, uid, name2);
            again.Refused? &&
            (|users| + 1 < MaxUsers ==> again.code == ErrInvalidState) &&
            (|users| + 1 >= MaxUsers ==> again.code == ErrNoMem)
  {
    var after := UsersAfterAdd(users, uid, name).value;
    assert after[|users|].uid == uid;
  }

  /** The duplicate check compares the stored, truncated uid with the raw
      argument, so a 32-character uid is accepted twice and the registry then
      holds two entries with the same uid. */
  lemma LongUidAcceptedTwice()
    ensures var uid := seq(MaxUidLen, _ => 'A');
            var once := UsersAfterAdd([], uid, "a");
            once.Accepted? &&
            var twice := UsersAfterAdd(once.value, uid, "b");
            twice.Accepted? && |twice.value| == 2 && !UniqueUids(twice.value)
  {
    var uid := seq(MaxUidLen, _ => 'A');
    var once := UsersAfterAdd([], uid, "a");
    assert once.value[0].uid != uid by {
      assert |once.value[0].uid| == MaxUidLen - 1;
    }
    assert !Registered(once.value, uid);
    var twice := UsersAfterAdd(once.value, uid, "b");
    assert twice.value[0].uid == twice.value[1].uid;
  }

  /** An accepted add of a uid that fits keeps the uids unique and makes the
      uid authorized. */
  lemma AddKeepsUnique(users: seq<User>, uid: string, name: string)
    requires UniqueUids(users)
    requires |uid| < MaxUidLen
    ensures var r := UsersAfterAdd(users, uid, name);
            r.Accepted? ==> UniqueUids(r.value) && Registered(r.value, uid)
  {
    var r := UsersAfterAdd(users, uid, name);
    if r.Accepted? {
      var s := r.value;
      assert s[|users|].uid == uid;
      forall i, j | 0 <= i < j < |s| ensures s[i].uid != s[j].uid {
        if j == |users| {
          assert s[i] == users[i];
        } else {
          assert s[i] == users[i] && s[j] == users[j];
        }
      }
    }
  }

  /** Moving the last element into slot `i` and dropping the last slot takes
      out exactly `s[i]`. */
  lemma SwapRemoveMultiset<T>(s: seq<T>, i: nat)
    requires i < |s|
    ensures multiset(s[i := s[|s| - 1]][..|s| - 1]) + multiset{s[i]} == multiset(s)
  {
    var n := |s| - 1;
    var r := s[i := s[n]][..n];
    if i == n {
      assert r == s[..n];
      assert s == s[..n] + [s[n]];
    } else {
      var a, b := s[..i], s[i + 1..n];
      assert r == a + [s[n]] + b;
      assert s == a + [s[i]] + b + [s[n]];
      calc {
        multiset(r) + multiset{s[i]};
        multiset(a) + multiset{s[n]} + multiset(b) + multiset{s[i]};
        multiset(a) + multiset{s[i]} + multiset(b) + multiset{s[n]};
        multiset(s);
      }
    }
  }

  /** Removal takes out exactly the first matching user: every other user
      survives, though not in place. */
  lemma RemoveIsPermutation(users: seq<User>, uid: string)
    ensures var r := UsersAfterRemove(users, uid);
            r.Refused? <==> !Registered(users, uid)
    ensures var r := UsersAfterRemove(users, uid);
            r.Refused? ==> r.code == ErrNotFound
    ensures var r := UsersAfterRemove(users, uid);
            r.Accepted? ==> |r.value| == |users| - 1 &&
                            multiset(r.value) + multiset{users[FirstMatch(users, uid)]} == multiset(users)
  {
    var i := FirstMatch(users, uid);
    if i >= 0 {
      SwapRemoveMultiset(users, i);
    }
  }

  /** With unique uids, a removed uid is no longer authorized and the
      remaining uids stay unique. */
  lemma RemoveRevokes(users: seq<User>, uid: string)
    requires UniqueUids(users)
    ensures var r := UsersAfterRemove(users, uid);
            r.Accepted? ==> !Registered(r.value, uid) && UniqueUids(r.value)
  {
    var i := FirstMatch(users, uid);
    if i >= 0 {
      var n := |users| - 1;
      var r := users[i := users[n]][..n];
      forall k | 0 <= k < n ensures r[k].uid != uid {
        if k == i {
          assert r[k] == users[n];
          if n != i {
            assert users[i].uid != users[n].uid;
          }
        } else {
          assert r[k] == users[k];
          if k < i { assert users[k].uid != users[i].uid; }
          else { assert users[i].uid != users[k].uid; }
        }
      }
      forall a, b | 0 <= a < b < n ensures r[a].uid != r[b].uid {
        if a == i {
          assert r[a] == users[n] && r[b] == users[b];
        } else if b == i {
          assert r[a] == users[a] && r[b] == users[n];
        } else {
          assert r[a] == users[a] && r[b] == users[b];
        }
      }
    }
  }

  // ---------------------------------------------------------------------
  // Properties of the audit log
  // ---------------------------------------------------------------------

  /** However many events are appended, the log holds the newest 50 of them
      (with what it held before), oldest first. */
  lemma {:induction false} AppendAllKeepsNewest(logs: seq<LogEntry>, events: seq<LogEntry>)
    requires |logs| <= MaxLogs
    ensures AppendAll(logs, events) == Newest(logs + Clipped(events), MaxLogs)
  {
    if events != [] {
      var n := |events| - 1;
      var e := events[n];
      var c := StoredLog(e.uid, e.timestamp);
      AppendAllKeepsNewest(logs, events[..n]);
      var s := logs + Clipped(events[..n]);
      assert Clipped(events) == Clipped(events[..n]) + [c];
      assert logs + Clipped(events) == s + [c];
      NewestSnoc(s, c);
    }
  }

  /** One more entry after the newest 50 of `s` is what `LogsAfterAppend`
      makes of them. */
  lemma NewestSnoc(s: seq<LogEntry>, c: LogEntry)
    ensures var x := Newest(s, MaxLogs);
            Newest(s + [c], MaxLogs) == (if |x| >= MaxLogs then x[1..MaxLogs] else x) + [c]
  {
    var x := Newest(s, MaxLogs);
    if |s| >= MaxLogs {
      assert x == s[|s| - MaxLogs..];
      assert x[1..MaxLogs] == s[|s| - MaxLogs + 1..];
      assert (s + [c])[|s| + 1 - MaxLogs..] == s[|s| - MaxLogs + 1..] + [c];
    }
  }

  /** Fifty-one appends to an empty log: the first event is evicted and the
      other fifty remain, in order. */
  lemma FiftyFirstAppendEvicts(events: seq<LogEntry>)
    requires |events| == MaxLogs + 1
    ensures |AppendAll([], events)| == MaxLogs
    ensures AppendAll([], events) == Clipped(events[1..])
  {
    var c := Clipped(events);
    AppendAllKeepsNewest([], events);
    assert [] + c == c;
    assert Newest(c, MaxLogs) == c[1..];
    ClippedTail(events);
  }

  lemma ClippedTail(events: seq<LogEntry>)
    requires events != []
    ensures Clipped(events)[1..] == Clipped(events[1..])
  {
  }

  // ---------------------------------------------------------------------
  // Properties of persistence
  // ---------------------------------------------------------------------

  /** A fault-free save followed by a load restores the saved array and count. */
  lemma SaveLoadRoundTrip<T>(img: Image<T>, blob: seq<T>, count: int, ram: seq<T>, ramCount: int)
    ensures var saved := SavedImage(img, blob, count, NoFault);
            LoadResult(saved, EspOk) == EspOk &&
            LoadedArray(saved, EspOk, ram) == blob && LoadedCount(saved, EspOk, ramCount) == count
  {
  }

  /** When only the count write fails, the namespace pairs the new blob with
      the old count: after a reboot an added user is beyond the loaded count. */
  lemma CountFaultPairsNewBlobWithOldCount(oldBlob: seq<User>, oldCount: int, users: seq<User>, count: int, e: Failure)
    ensures var saved := SavedImage(Image(Some(oldBlob), Some(oldCount)), users, count, CountFails(e));
            LoadedArray(saved, EspOk, []) == users && LoadedCount(saved, EspOk, 0) == oldCount
  {
  }

  /** When a stored blob cannot be read (for instance it has another size
      than the array), the stored count is still applied over the array RAM
      already held, and the read's failure is returned. */
  lemma ReadFaultPairsOldArrayWithNewCount<T>(img: Image<T>, read: Failure, ram: seq<T>, ramCount: int)
    requires img.blob.Some? && img.count.Some? && read != ErrNvsNotFound
    ensures LoadResult(img, read) == read
    ensures LoadedArray(img, read, ram) == ram && LoadedCount(img, read, ramCount) == img.count.value
  {
  }

  // ---------------------------------------------------------------------
  // The RAM state of rfid_storage.c
  // ---------------------------------------------------------------------

  /** Moving the last of the first `n` slots into slot `i` and dropping it
      is the swap-remove of `UsersAfterRemove` on the live prefix. */
  lemma SwapRemoveSlots<T>(slots: seq<T>, n: nat, i: nat)
    requires i < n <= |slots|
    ensures slots[i := slots[n - 1]][..n - 1] == slots[..n][i := slots[..n][n - 1]][..n - 1]
  {
  }

  class Storage {
    const users: array<User>        // user_db
    var userCount: int              // user_count
    const logs: array<LogEntry>     // log_db
    var logCount: int               // log_count
    var usersImage: Image<User>     // keys "users" and "user_count"
    var logsImage: Image<LogEntry>  // keys "logs" and "log_count"

    /** The arrays have their declared sizes and the namespace holds blobs of
        that size; the counters are not constrained, since a load takes them
        from the namespace unchecked. */
    ghost predicate Shaped()
      reads this
    {
      users.Length == MaxUsers && logs.Length == MaxLogs &&
      Fits(usersImage, MaxUsers) && Fits(logsImage, MaxLogs)
    }

    /** A scan below the user count stays inside `user_db`.  A negative
        count is in range: every scan over it is empty. */
    ghost predicate UsersInRange()
      reads this
    {
      Shaped() && userCount <= MaxUsers
    }

    /** The log count indexes inside `log_db`. */
    ghost predicate LogsInRange()
      reads this
    {
      Shaped() && 0 <= logCount <= MaxLogs
    }

    ghost predicate Valid()
      reads this
    {
      UsersInRange() && LogsInRange()
    }

    /** The slots a loop `for (i = 0; i < user_count; i++)` can visit inside
        `user_db`: none for a negative count, all 50 for a count above 50. */
    function Users(): seq<User>
      reads this, users
      requires Shaped()
    {
      if userCount < 0 then []
      else if userCount > MaxUsers then users[..]
      else users[..userCount]
    }

    function Logs(): seq<LogEntry>
      reads this, logs
      requires LogsInRange()
    {
      logs[..logCount]
    }

    /** The zero-initialised statics, over a namespace holding `usersImage`
        and `logsImage`. */
    constructor (usersImage: Image<User>, logsImage: Image<LogEntry>)
      requires Fits(usersImage, MaxUsers) && Fits(logsImage, MaxLogs)
      ensures Valid() && Users() == [] && Logs() == []
      ensures users[..] == seq(MaxUsers, _ => User("", ""))
      ensures logs[..] == seq(MaxLogs, _ => LogEntry("", ""))
      ensures this.usersImage == usersImage && this.logsImage == logsImage
    {
      users := new User[MaxUsers](_ => User("", ""));
      logs := new LogEntry[MaxLogs](_ => LogEntry("", ""));
      userCount, logCount := 0, 0;
      this.usersImage, this.logsImage := usersImage, logsImage;
    }

    /** `rfid_storage_init`: an NVS partition that needs erasing is wiped,
        then both tables are loaded and their results ignored. */
    method Init(flashInit: EspErr, usersOpen: EspErr, usersRead: EspErr, logsOpen: EspErr, logsRead: EspErr)
      returns (r: EspErr)
      requires Shaped()
      modifies this, users, logs
      ensures Shaped() && r == EspOk
      ensures var wiped := flashInit == ErrNvsNoFreePages || flashInit == ErrNvsNewVersionFound;
              var ui := if wiped then Image(None, None) else old(usersImage);
              var li := if wiped then Image(None, None) else old(logsImage);
              usersImage == ui && logsImage == li &&
              (usersOpen == EspOk ==> users[..] == LoadedArray(ui, usersRead, old(users[..])) &&
                                      userCount == LoadedCount(ui, usersRead, old(userCount))) &&
              (usersOpen != EspOk ==> users[..] == old(users[..]) && userCount == old(userCount)) &&
              (logsOpen == EspOk ==> logs[..] == LoadedArray(li, logsRead, old(logs[..])) &&
                                     logCount == LoadedCount(li, logsRead, old(logCount))) &&
              (logsOpen != EspOk ==> logs[..] == old(logs[..]) && logCount == old(logCount))
    {
      if flashInit == ErrNvsNoFreePages || flashInit == ErrNvsNewVersionFound {
        usersImage := Image(None, None);
        logsImage := Image(None, None);
      }
      var _ := LoadUsers(usersOpen, usersRead);
      var _ := LoadLogs(logsOpen, logsRead);
      r := EspOk;
    }

    /** `load_users_from_nvs`: the stored count is taken as it is, so the
        registry is valid afterwards only if that count is within 0..50.
        `read` is the engine's result for reading a stored blob. */
    method LoadUsers(open: EspErr, read: EspErr) returns (r: EspErr)
      requires Shaped()
      modifies this`userCount, users
      ensures Shaped()
      ensures open != EspOk ==> r == open && users[..] == old(users[..]) && userCount == old(userCount)
      ensures open == EspOk ==> r == LoadResult(usersImage, read) &&
                                users[..] == LoadedArray(usersImage, read, old(users[..])) &&
                                userCount == LoadedCount(usersImage, read, old(userCount))
    {
      if open != EspOk {
        return open;
      }
      var err := BlobRead(usersImage, read);
      if err == ErrNvsNotFound {
        return EspOk;  // nothing stored yet
      }
      if err == EspOk {
        var blob := usersImage.blob.value;
        forall i | 0 <= i < MaxUsers {
          users[i] := blob[i];
        }
      }
      if usersImage.count.Some? {
        userCount := usersImage.count.value;
      }
      r := err;
    }

    /** `load_logs_from_nvs`, the same for the log. */
    method LoadLogs(open: EspErr, read: EspErr) returns (r: EspErr)
      requires Shaped()
      modifies this`logCount, logs
      ensures Shaped()
      ensures open != EspOk ==> r == open && logs[..] == old(logs[..]) && logCount == old(logCount)
      ensures open == EspOk ==> r == LoadResult(logsImage, read) &&
                                logs[..] == LoadedArray(logsImage, read, old(logs[..])) &&
                                logCount == LoadedCount(logsImage, read, old(logCount))
    {
      if open != EspOk {
        return open;
      }
      var err := BlobRead(logsImage, read);
      if err == ErrNvsNotFound {
        return EspOk;
      }
      if err == EspOk {
        var blob := logsImage.blob.value;
        forall i | 0 <= i < MaxLogs {
          logs[i] := blob[i];
        }
      }
      if logsImage.count.Some? {
        logCount := logsImage.count.value;
      }
      r := err;
    }

    /** `save_users_to_nvs`: the whole array, then the count. */
    method SaveUsers(fault: NvsFault) returns (r: EspErr)
      requires Shaped()
      modifies this`usersImage
      ensures Shaped()
      ensures usersImage == SavedImage(old(usersImage), users[..], userCount, fault)
      ensures r == SaveResult(fault)
    {
      if fault.OpenFails? {
        return fault.openErr;
      }
      if fault.BlobFails? {
        return fault.blobErr;
      }
      usersImage := usersImage.(blob := Some(users[..]));
      if fault.CountFails? {
        return fault.countErr;
      }
      usersImage := usersImage.(count := Some(userCount));
      r := EspOk;
    }

    /** `save_logs_to_nvs`. */
    method SaveLogs(fault: NvsFault) returns (r: EspErr)
      requires Shaped()
      modifies this`logsImage
      ensures Shaped()
      ensures logsImage == SavedImage(old(logsImage), logs[..], logCount, fault)
      ensures r == SaveResult(fault)
    {
      if fault.OpenFails? {
        return fault.openErr;
      }
      if fault.BlobFails? {
        return fault.blobErr;
      }
      logsImage := logsImage.(blob := Some(logs[..]));
      if fault.CountFails? {
        return fault.countErr;
      }
      logsImage := logsImage.(count := Some(logCount));
      r := EspOk;
    }

    /** `rfid_add_user`.  A refused add changes nothing; an accepted one
        changes RAM first and returns the save's result without undoing the
        change when the save fails.  A loaded count above 50 is refused by
        the capacity check; a negative one would index before `user_db`. */
    method AddUser(uid: string, name: string, fault: NvsFault) returns (r: EspErr)
      requires Shaped() && 0 <= userCount
      modifies this`userCount, this`usersImage, users
      ensures Shaped() && (old(Valid()) ==> Valid())
      ensures old(userCount) >= MaxUsers ==>
                r == ErrNoMem && userCount == old(userCount) && users[..] == old(users[..]) &&
                usersImage == old(usersImage)
      ensures old(userCount) <= MaxUsers ==>
              UsersInRange() &&
              var out := UsersAfterAdd(old(Users()), uid, name);
              if out.Refused? then
                r == out.code && userCount == old(userCount) && users[..] == old(users[..]) &&
                usersImage == old(usersImage)
              else
                Users() == out.value &&
                users[..] == old(users[..])[old(userCount) := StoredUser(uid, name)] &&
                usersImage == SavedImage(old(usersImage), users[..], userCount, fault) &&
                r == SaveResult(fault)
    {
      if userCount >= MaxUsers {
        return ErrNoMem;
      }
      var i := 0;
      while i < userCount
        invariant 0 <= i <= userCount
        invariant forall j :: 0 <= j < i ==> users[j].uid != uid
      {
        if users[i].uid == uid {
          return ErrInvalidState;  // already registered
        }
        i := i + 1;
      }
      users[userCount] := StoredUser(uid, name);
      userCount := userCount + 1;
      r := SaveUsers(fault);
    }

    /** `rfid_remove_user`: the last user moves into the first matching slot. */
    method RemoveUser(uid: string, fault: NvsFault) returns (r: EspErr)
      requires UsersInRange()
      modifies this`userCount, this`usersImage, users
      ensures UsersInRange() && (old(userCount) >= 0 ==> userCount >= 0)
      ensures var out := UsersAfterRemove(old(Users()), uid);
              if out.Refused? then
                r == ErrNotFound && userCount == old(userCount) && users[..] == old(users[..]) &&
                usersImage == old(usersImage)
              else
                Users() == out.value &&
                users[..] == old(users[..])[FirstMatch(old(Users()), uid) := old(users[userCount - 1])] &&
                usersImage == SavedImage(old(usersImage), users[..], userCount, fault) &&
                r == SaveResult(fault)
    {
      ghost var before := Users();
      var i := 0;
      while i < userCount
        invariant 0 <= i && (i <= userCount || i == 0)
        invariant forall j :: 0 <= j < i ==> users[j].uid != uid
        invariant users[..] == old(users[..]) && userCount == old(userCount)
      {
        if users[i].uid == uid {
          assert before == users[..userCount];
          assert FirstMatch(before, uid) == i;
          r := SwapOut(i, fault);
          return;
        }
        i := i + 1;
      }
      assert !Registered(before, uid);
      r := ErrNotFound;
    }

    /** The found branch of `rfid_remove_user`: the last user moves into
        slot `i`, the count drops by one and the registry is saved. */
    method SwapOut(i: int, fault: NvsFault) returns (r: EspErr)
      requires UsersInRange() && 0 <= i < userCount
      modifies this`userCount, this`usersImage, users
      ensures UsersInRange() && userCount == old(userCount) - 1
      ensures users[..] == old(users[..])[i := old(users[userCount - 1])]
      ensures Users() == old(Users())[i := old(Users())[old(userCount) - 1]][..userCount]
      ensures usersImage == SavedImage(old(usersImage), users[..], userCount, fault)
      ensures r == SaveResult(fault)
    {
      ghost var slots := users[..];
      users[i] := users[userCount - 1];
      assert users[..] == slots[i := slots[userCount - 1]];
      SwapRemoveSlots(slots, userCount, i);
      userCount := userCount - 1;
      ghost var after := Users();
      r := SaveUsers(fault);
      assert Users() == after;
    }

    /** `rfid_is_user_authorized` of this file: a linear exact-match scan.
        Above 50 users the scan stays inside `user_db` only when it finds the
        uid among the 50 slots. */
    method IsUserAuthorized(uid: string) returns (found: bool)
      requires Shaped()
      requires userCount > MaxUsers ==> Registered(Users(), uid)
      ensures found <==> Registered(Users(), uid)
    {
      var i := 0;
      while i < userCount
        invariant 0 <= i <= MaxUsers && (i <= userCount || i == 0)
        invariant forall j :: 0 <= j < i ==> users[j].uid != uid
      {
        if users[i].uid == uid {
          return true;
        }
        i := i + 1;
      }
      found := false;
    }

    /** The FIFO step of `rfid_add_log`, taken at 50 entries or more:
        entries 1..49 shift down over the oldest one and the counter drops
        to 49. */
    method EvictOldest()
      requires Shaped() && logCount >= MaxLogs
      modifies this`logCount, logs
      ensures LogsInRange() && logCount == MaxLogs - 1
      ensures logs[..logCount] == old(logs[1..])
      ensures logs[MaxLogs - 1] == old(logs[MaxLogs - 1])
    {
      var i := 1;
      while i < MaxLogs
        invariant 1 <= i <= MaxLogs
        invariant forall k :: 0 <= k < i - 1 ==> logs[k] == old(logs[k + 1])
        invariant forall k :: i - 1 <= k < MaxLogs ==> logs[k] == old(logs[k])
      {
        logs[i - 1] := logs[i];
        i := i + 1;
      }
      logCount := MaxLogs - 1;
    }

    /** `rfid_add_log`: a full log first evicts its oldest entry, then the new
        entry goes at the end.  A loaded count above 50 is treated as full,
        so the log ends with 50 entries; a negative one would index before
        `log_db`. */
    method AddLog(uid: string, timestamp: string, fault: NvsFault) returns (r: EspErr)
      requires Shaped() && 0 <= logCount
      modifies this`logCount, this`logsImage, logs
      ensures LogsInRange() && (old(Valid()) ==> Valid())
      ensures old(logCount) <= MaxLogs ==> Logs() == LogsAfterAppend(old(Logs()), uid, timestamp)
      ensures old(logCount) < MaxLogs ==>
                logCount == old(logCount) + 1 &&
                logs[..] == old(logs[..])[old(logCount) := StoredLog(uid, timestamp)]
      ensures old(logCount) >= MaxLogs ==>
                logCount == MaxLogs && logs[..] == old(logs[1..]) + [StoredLog(uid, timestamp)]
      ensures logsImage == SavedImage(old(logsImage), logs[..], logCount, fault)
      ensures r == SaveResult(fault)
    {
      ghost var before := logs[..];
      if logCount >= MaxLogs {
        EvictOldest();
        assert logs[..logCount] == before[1..];
        assert old(logCount) == MaxLogs ==> before[1..] == before[..old(logCount)][1..MaxLogs];
      } else {
        assert logs[..logCount] == before[..old(logCount)];
      }
      ghost var kept := logs[..logCount];
      logs[logCount] := StoredLog(uid, timestamp);
      logCount := logCount + 1;
      assert logs[..logCount] == kept + [StoredLog(uid, timestamp)];
      ghost var after := logs[..];
      r := SaveLogs(fault);
      assert logs[..] == after && userCount == old(userCount);
    }

    /** `rfid_list_users`: the live array itself (not a copy) and the count. */
    method ListUsers() returns (view: array<User>, count: int)
      ensures view == users && count == userCount
      ensures Shaped() && 0 <= count <= MaxUsers ==> view[..count] == Users()
    {
      view, count := users, userCount;
    }

    /** `rfid_get_logs`: the live array and the count. */
    method GetLogs() returns (view: array<LogEntry>, count: int)
      ensures view == logs && count == logCount
      ensures LogsInRange() ==> view[..count] == Logs()
    {
      view, count := logs, logCount;
    }
  }
}
