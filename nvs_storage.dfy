/** The key-value persistence of `main/nvs_storage.c`.  The NVS engine is an
    abstract map from namespace to a map from key to typed value; the file's
    functions are sequences of reads and writes on it.  Users live in
    namespace "users" under the keys `count`, `uid_<i>` and `nome_<i>`;
    network settings live in namespace "storage". */
module NvsStorage {
  import opened Esp
  import opened Fmt

  const MaxUidLen := 16     // MAX_UID_LEN of nvs_storage.h
  const MaxNameLen := 32    // MAX_NAME_LEN
  const MaxUsers := 50      // MAX_USERS
  const SsidLen := 32       // wifi_config_t.ssid
  const PassLen := 64       // wifi_config_t.pass

  const UsersNs := "users"
  const StorageNs := "storage"
  const KeyCount := "count"

  type uint8 = x: int | 0 <= x < 0x100
  type uint16 = x: int | 0 <= x < 0x1_0000
  type uint32 = x: int | 0 <= x < 0x1_0000_0000

  /** A typed NVS entry: the engine keeps each key with the type it was set as. */
  datatype Value = Str(s: string) | U8(b: uint8) | U16(h: uint16) | U32(w: uint32)

  type Namespace = map<string, Value>

  /** `rfid_user_t` as `nvs_storage.h` declares it: zero-terminated strings
      in 16- and 32-byte fields. */
  datatype NvsUser = NvsUser(uid: string, nome: string)

  predicate Fits(u: NvsUser) {
    |u.uid| < MaxUidLen && |u.nome| < MaxNameLen
  }

  datatype WifiConfig = WifiConfig(ssid: string, pass: string)

  predicate WifiFits(c: WifiConfig) {
    |c.ssid| < SsidLen && |c.pass| < PassLen
  }

  /** `zigbee_config_t`. */
  datatype ZigbeeConfig = ZigbeeConfig(channel: uint8, panId: uint16)

  /** The outcome of an `nvs_get_*` call. */
  datatype Lookup<T> = Found(value: T) | Absent(code: Failure) {
    function Or(current: T): T {
      match this
      case Found(v) => v
      case Absent(_) => current
    }
    function Code(): EspErr {
      match this
      case Found(_) => EspOk
      case Absent(e) => e
    }
  }

  /** `nvs_get_str` into a buffer of `cap` bytes: the string must fit with
      its terminating NUL. */
  function GetStr(ns: Namespace, key: string, cap: nat): (r: Lookup<string>)
    ensures r.Found? <==> key in ns && ns[key].Str? && |ns[key].s| < cap
    ensures r.Found? ==> r.value == ns[key].s
  {
    if key !in ns || !ns[key].Str? then Absent(ErrNvsNotFound)
    else if |ns[key].s| < cap then Found(ns[key].s)
    else Absent(ErrNvsInvalidLength)
  }

  function GetU8(ns: Namespace, key: string): (r: Lookup<uint8>)
    ensures r.Found? <==> key in ns && ns[key].U8?
    ensures r.Found? ==> r.value == ns[key].b
  {
    if key in ns && ns[key].U8? then Found(ns[key].b) else Absent(ErrNvsNotFound)
  }

  function GetU16(ns: Namespace, key: string): (r: Lookup<uint16>)
    ensures r.Found? <==> key in ns && ns[key].U16?
    ensures r.Found? ==> r.value == ns[key].h
  {
    if key in ns && ns[key].U16? then Found(ns[key].h) else Absent(ErrNvsNotFound)
  }

  function GetU32(ns: Namespace, key: string): (r: Lookup<uint32>)
    ensures r.Found? <==> key in ns && ns[key].U32?
    ensures r.Found? ==> r.value == ns[key].w
  {
    if key in ns && ns[key].U32? then Found(ns[key].w) else Absent(ErrNvsNotFound)
  }

  function KeyUid(i: nat): string {
    "uid_" + Decimal(i)
  }

  function KeyNome(i: nat): string {
    "nome_" + Decimal(i)
  }

  /** The per-index keys never collide with each other or with `count`. */
  lemma KeysDistinct(i: nat, j: nat)
    ensures KeyUid(i) != KeyNome(j)
    ensures KeyUid(i) != KeyCount && KeyNome(i) != KeyCount
    ensures KeyUid(i) == KeyUid(j) ==> i == j
    ensures KeyNome(i) == KeyNome(j) ==> i == j
  {
    assert KeyUid(i)[0] == 'u' && KeyNome(j)[0] == 'n' && KeyCount[0] == 'c';
    if KeyUid(i) == KeyUid(j) {
      assert KeyUid(i)[4..] == Decimal(i) && KeyUid(j)[4..] == Decimal(j);
      DecimalInjective(i, j);
    }
    if KeyNome(i) == KeyNome(j) {
      assert KeyNome(i)[5..] == Decimal(i) && KeyNome(j)[5..] == Decimal(j);
      DecimalInjective(i, j);
    }
  }

  /** The `count` that `nvs_add_user`/`nvs_list_users` read: 0 when the key is
      missing, since the failed `nvs_get_u32` leaves the initial 0. */
  function StoredCount(ns: Namespace): (n: uint32)
    ensures KeyCount !in ns ==> n == 0
  {
    GetU32(ns, KeyCount).Or(0)
  }

  /** Every index below the stored count holds a uid and a name that a list
      can read back. */
  ghost predicate WellFormed(ns: Namespace) {
    forall i: nat :: i < StoredCount(ns) ==>
      GetStr(ns, KeyUid(i), MaxUidLen).Found? && GetStr(ns, KeyNome(i), MaxNameLen).Found?
  }

  function UserAt(ns: Namespace, i: nat): NvsUser {
    NvsUser(GetStr(ns, KeyUid(i), MaxUidLen).Or(""), GetStr(ns, KeyNome(i), MaxNameLen).Or(""))
  }

  /** The users the namespace holds at indices `0 .. n`. */
  function SavedPrefix(ns: Namespace, n: nat): (r: seq<NvsUser>)
    ensures |r| == n
  {
    if n == 0 then [] else SavedPrefix(ns, n - 1) + [UserAt(ns, n - 1)]
  }

  /** The users the namespace records, in index order. */
  function SavedUsers(ns: Namespace): seq<NvsUser> {
    SavedPrefix(ns, StoredCount(ns))
  }

  /** The writes of `nvs_add_user` at index `c`. */
  function Appended(ns: Namespace, c: nat, u: NvsUser): Namespace
    requires c < MaxUsers
  {
    ns[KeyUid(c) := Str(u.uid)][KeyNome(c) := Str(u.nome)][KeyCount := U32(c + 1)]
  }

  /** What `nvs_add_user` does to the "users" namespace: nothing at or past
      capacity, otherwise the writes at the stored count. */
  function AddToNamespace(ns: Namespace, u: NvsUser): Namespace {
    if StoredCount(ns) >= MaxUsers then ns
    else Appended(ns, StoredCount(ns), u)
  }

  /** The namespace after a sequence of `nvs_add_user` calls. */
  function AddAll(ns: Namespace, us: seq<NvsUser>): Namespace {
    if us == [] then ns else AddToNamespace(AddAll(ns, us[..|us| - 1]), us[|us| - 1])
  }

  /** Rewriting index `c` and the count leaves the entries below `c` as they were. */
  lemma {:induction false} AppendedKeepsPrefix(ns: Namespace, c: nat, u: NvsUser, n: nat)
    requires n <= c < MaxUsers
    ensures SavedPrefix(Appended(ns, c, u), n) == SavedPrefix(ns, n)
  {
    if n > 0 {
      AppendedKeepsPrefix(ns, c, u, n - 1);
      var i := n - 1;
      KeysDistinct(i, c);
      KeysDistinct(c, i);
      assert UserAt(Appended(ns, c, u), i) == UserAt(ns, i);
    }
  }

  /** A successful add extends the recorded list by exactly that user. */
  lemma AddAppendsUser(ns: Namespace, u: NvsUser)
    requires WellFormed(ns) && Fits(u) && StoredCount(ns) < MaxUsers
    ensures StoredCount(AddToNamespace(ns, u)) == StoredCount(ns) + 1
    ensures WellFormed(AddToNamespace(ns, u))
    ensures SavedUsers(AddToNamespace(ns, u)) == SavedUsers(ns) + [u]
  {
    var c := StoredCount(ns);
    var ns' := AddToNamespace(ns, u);
    assert ns' == Appended(ns, c, u);
    KeysDistinct(c, c);
    assert StoredCount(ns') == c + 1;
    forall i: nat | i < c + 1
      ensures GetStr(ns', KeyUid(i), MaxUidLen).Found? && GetStr(ns', KeyNome(i), MaxNameLen).Found?
    {
      KeysDistinct(i, c);
      KeysDistinct(c, i);
    }
    AppendedKeepsPrefix(ns, c, u, c);
    assert UserAt(ns', c) == u;
  }

  /** Duplicates are not rejected: the same user added twice is recorded twice. */
  lemma AddTwiceRecordsTwice(ns: Namespace, u: NvsUser)
    requires WellFormed(ns) && Fits(u) && StoredCount(ns) + 2 <= MaxUsers
    ensures SavedUsers(AddToNamespace(AddToNamespace(ns, u), u)) == SavedUsers(ns) + [u, u]
  {
    AddAppendsUser(ns, u);
    AddAppendsUser(AddToNamespace(ns, u), u);
  }

  lemma AddAllSnoc(ns: Namespace, init: seq<NvsUser>, u: NvsUser)
    ensures AddAll(ns, init + [u]) == AddToNamespace(AddAll(ns, init), u)
  {
    assert (init + [u])[..|init|] == init;
  }

  /** Adds into an empty namespace are listed back in insertion order, up to
      the capacity; later adds are refused. */
  lemma {:induction false} AddsListInOrder(us: seq<NvsUser>)
    requires forall i :: 0 <= i < |us| ==> Fits(us[i])
    ensures WellFormed(AddAll(map[], us))
    ensures StoredCount(AddAll(map[], us)) == Min(|us|, MaxUsers)
    ensures SavedUsers(AddAll(map[], us)) == us[..Min(|us|, MaxUsers)]
  {
    if us != [] {
      var init, u := us[..|us| - 1], us[|us| - 1];
      assert init + [u] == us;
      assert forall i :: 0 <= i < |init| ==> init[i] == us[i];
      AddsListInOrder(init);
      AddListsStep(AddAll(map[], init), init, u);
      AddAllSnoc(map[], init, u);
    }
  }

  /** One add more, for `AddsListInOrder`: a namespace that lists the first
      users of `init` lists those of `init + [u]` after adding `u`. */
  lemma AddListsStep(ns: Namespace, init: seq<NvsUser>, u: NvsUser)
    requires Fits(u) && WellFormed(ns)
    requires StoredCount(ns) == Min(|init|, MaxUsers)
    requires SavedUsers(ns) == init[..Min(|init|, MaxUsers)]
    ensures WellFormed(AddToNamespace(ns, u))
    ensures StoredCount(AddToNamespace(ns, u)) == Min(|init| + 1, MaxUsers)
    ensures SavedUsers(AddToNamespace(ns, u)) == (init + [u])[..Min(|init| + 1, MaxUsers)]
  {
    var us := init + [u];
    if |init| < MaxUsers {
      AddAppendsUser(ns, u);
      assert init[..|init|] == init;
      assert us[..|us|] == us;
    } else {
      assert us[..MaxUsers] == init[..MaxUsers];
    }
  }

  /** What `nvs_list_users` writes into an entry it visits: each field is
      read back when its key holds a string that fits, and kept otherwise. */
  function Refreshed(ns: Namespace, i: nat, prior: NvsUser): NvsUser {
    NvsUser(GetStr(ns, KeyUid(i), MaxUidLen).Or(prior.uid),
            GetStr(ns, KeyNome(i), MaxNameLen).Or(prior.nome))
  }

  function Listed(ns: Namespace, prior: seq<NvsUser>): (r: seq<NvsUser>)
    ensures |r| == |prior|
  {
    seq(|prior|, i requires 0 <= i < |prior| => Refreshed(ns, i, prior[i]))
  }

  /** On a well-formed namespace the list reads exactly the recorded users. */
  lemma ListReadsSaved(ns: Namespace, prior: seq<NvsUser>)
    requires WellFormed(ns) && |prior| <= StoredCount(ns)
    ensures Listed(ns, prior) == SavedUsers(ns)[..|prior|]
  {
    PrefixOfSaved(ns, StoredCount(ns), |prior|);
  }

  lemma {:induction false} PrefixOfSaved(ns: Namespace, n: nat, k: nat)
    requires k <= n
    ensures forall i :: 0 <= i < k ==> SavedPrefix(ns, n)[i] == UserAt(ns, i)
  {
    if k < n {
      PrefixOfSaved(ns, n - 1, k);
    } else if k > 0 {
      PrefixOfSaved(ns, n - 1, k - 1);
    }
  }

  /** The writes of `nvs_save_wifi`. */
  function WifiWritten(ns: Namespace, c: WifiConfig): Namespace {
    ns["wifi_ssid" := Str(c.ssid)]["wifi_pass" := Str(c.pass)]
  }

  /** The reads of `nvs_load_wifi`: the ssid, then the pass only if the ssid
      was read; a field whose read fails keeps its old content. */
  function WifiRead(ns: Namespace, prior: WifiConfig): (EspErr, WifiConfig) {
    var ssid := GetStr(ns, "wifi_ssid", SsidLen);
    if ssid.Absent? then (ssid.code, prior)
    else
      var pass := GetStr(ns, "wifi_pass", PassLen);
      (pass.Code(), WifiConfig(ssid.value, pass.Or(prior.pass)))
  }

  lemma WifiRoundTrip(ns: Namespace, c: WifiConfig, prior: WifiConfig)
    requires WifiFits(c)
    ensures WifiRead(WifiWritten(ns, c), prior) == (EspOk, c)
  {
  }

  /** The writes of `nvs_save_zigbee`. */
  function ZigbeeWritten(ns: Namespace, c: ZigbeeConfig): Namespace {
    ns["zb_chan" := U8(c.channel)]["zb_panid" := U16(c.panId)]
  }

  /** The reads of `nvs_load_zigbee`. */
  function ZigbeeRead(ns: Namespace, prior: ZigbeeConfig): (EspErr, ZigbeeConfig) {
    var chan := GetU8(ns, "zb_chan");
    if chan.Absent? then (chan.code, prior)
    else
      var pan := GetU16(ns, "zb_panid");
      (pan.Code(), ZigbeeConfig(chan.value, pan.Or(prior.panId)))
  }

  lemma ZigbeeRoundTrip(ns: Namespace, c: ZigbeeConfig, prior: ZigbeeConfig)
    ensures ZigbeeRead(ZigbeeWritten(ns, c), prior) == (EspOk, c)
  {
  }

  /** The flash contents the NVS engine keeps, one map per namespace.  The
      results of `nvs_open`, `nvs_erase_all` and `nvs_commit` come from the
      engine and are parameters; `nvs_set_*` results are ignored by the
      source, and the sets are taken to succeed. */
  class Nvs {
    var spaces: map<string, Namespace>

    function Ns(name: string): Namespace
      reads this
    {
      if name in spaces then spaces[name] else map[]
    }

    constructor (spaces: map<string, Namespace>)
      ensures this.spaces == spaces
    {
      this.spaces := spaces;
    }

    /** `nvs_add_user`. */
    method AddUser(user: NvsUser, open: EspErr, commit: EspErr) returns (err: EspErr)
      requires Fits(user)
      modifies this
      ensures open != EspOk ==> err == open && spaces == old(spaces)
      ensures open == EspOk && StoredCount(old(Ns(UsersNs))) >= MaxUsers ==>
                err == ErrNoMem && Ns(UsersNs) == old(Ns(UsersNs))
      ensures open == EspOk && StoredCount(old(Ns(UsersNs))) < MaxUsers ==> err == commit
      ensures open == EspOk ==> spaces == old(spaces)[UsersNs := AddToNamespace(old(Ns(UsersNs)), user)]
    {
      if open != EspOk {
        return open;
      }
      var ns := Ns(UsersNs);
      var count := GetU32(ns, KeyCount).Or(0);
      if count >= MaxUsers {
        spaces := spaces[UsersNs := ns];  // nvs_open in read-write mode keeps the namespace
        return ErrNoMem;
      }
      var c := count;
      ns := ns[KeyUid(c) := Str(user.uid)];
      ns := ns[KeyNome(c) := Str(user.nome)];
      ns := ns[KeyCount := U32(c + 1)];
      spaces := spaces[UsersNs := ns];
      err := commit;
    }

    /** `nvs_list_users`: `count` is the caller's capacity on entry; the
        result is the number of entries visited. */
    method ListUsers(users: array<NvsUser>, count: nat, open: EspErr) returns (err: EspErr, countOut: nat)
      requires count <= users.Length
      modifies users
      ensures open != EspOk ==> err == open && countOut == count && users[..] == old(users[..])
      ensures open == EspOk ==> err == EspOk && countOut == Min(StoredCount(Ns(UsersNs)), count)
      ensures open == EspOk ==> users[..countOut] == Listed(Ns(UsersNs), old(users[..countOut]))
      ensures users[countOut..] == old(users[..])[countOut..]
    {
      if open != EspOk {
        return open, count;
      }
      var ns := Ns(UsersNs);
      var saved := GetU32(ns, KeyCount).Or(0);
      if saved > count {
        saved := count;
      }
      var n := saved;
      ghost var prior := users[..];
      var i := 0;
      while i < n
        invariant 0 <= i <= n
        invariant forall j :: 0 <= j < i ==> users[j] == Refreshed(ns, j, prior[j])
        invariant forall j :: i <= j < users.Length ==> users[j] == prior[j]
      {
        users[i] := Refreshed(ns, i, users[i]);
        i := i + 1;
      }
      ghost var listed := Listed(ns, prior[..n]);
      assert forall j :: 0 <= j < n ==> listed[j] == Refreshed(ns, j, prior[j]);
      assert users[..n] == listed;
      assert users[n..] == prior[n..];
      err, countOut := EspOk, n;
    }

    /** `nvs_clear_users`: erase the namespace, then commit. */
    method ClearUsers(open: EspErr, erase: EspErr, commit: EspErr) returns (err: EspErr)
      modifies this
      ensures open != EspOk ==> err == open && spaces == old(spaces)
      ensures open == EspOk && erase != EspOk ==> err == erase && spaces == old(spaces)[UsersNs := old(Ns(UsersNs))]
      ensures open == EspOk && erase == EspOk ==> err == commit && spaces == old(spaces)[UsersNs := map[]]
      ensures open == EspOk && erase == EspOk ==> StoredCount(Ns(UsersNs)) == 0 && SavedUsers(Ns(UsersNs)) == []
    {
      if open != EspOk {
        return open;
      }
      if erase != EspOk {
        spaces := spaces[UsersNs := Ns(UsersNs)];
        return erase;
      }
      spaces := spaces[UsersNs := map[]];
      err := commit;
    }

    /** `nvs_save_wifi`. */
    method SaveWifi(cfg: WifiConfig, open: EspErr, commit: EspErr) returns (err: EspErr)
      modifies this
      ensures open != EspOk ==> err == open && spaces == old(spaces)
      ensures open == EspOk ==> err == commit && spaces == old(spaces)[StorageNs := WifiWritten(old(Ns(StorageNs)), cfg)]
    {
      if open != EspOk {
        return open;
      }
      var ns := Ns(StorageNs);
      ns := ns["wifi_ssid" := Str(cfg.ssid)];
      ns := ns["wifi_pass" := Str(cfg.pass)];
      spaces := spaces[StorageNs := ns];
      err := commit;
    }

    /** `nvs_load_wifi`: `prior` is the caller's structure before the call. */
    method LoadWifi(prior: WifiConfig, open: EspErr) returns (err: EspErr, cfg: WifiConfig)
      ensures open != EspOk ==> err == open && cfg == prior
      ensures open == EspOk ==> (err, cfg) == WifiRead(Ns(StorageNs), prior)
    {
      if open != EspOk {
        return open, prior;
      }
      var ns := Ns(StorageNs);
      cfg := prior;
      var ssid := GetStr(ns, "wifi_ssid", SsidLen);
      if ssid.Absent? {
        return ssid.code, cfg;
      }
      cfg := cfg.(ssid := ssid.value);
      var pass := GetStr(ns, "wifi_pass", PassLen);
      cfg := cfg.(pass := pass.Or(cfg.pass));
      err := pass.Code();
    }

    /** `nvs_save_zigbee`. */
    method SaveZigbee(cfg: ZigbeeConfig, open: EspErr, commit: EspErr) returns (err: EspErr)
      modifies this
      ensures open != EspOk ==> err == open && spaces == old(spaces)
      ensures open == EspOk ==> err == commit && spaces == old(spaces)[StorageNs := ZigbeeWritten(old(Ns(StorageNs)), cfg)]
    {
      if open != EspOk {
        return open;
      }
      var ns := Ns(StorageNs);
      ns := ns["zb_chan" := U8(cfg.channel)];
      ns := ns["zb_panid" := U16(cfg.panId)];
      spaces := spaces[StorageNs := ns];
      err := commit;
    }

    /** `nvs_load_zigbee`. */
    method LoadZigbee(prior: ZigbeeConfig, open: EspErr) returns (err: EspErr, cfg: ZigbeeConfig)
      ensures open != EspOk ==> err == open && cfg == prior
      ensures open == EspOk ==> (err, cfg) == ZigbeeRead(Ns(StorageNs), prior)
    {
      if open != EspOk {
        return open, prior;
      }
      var ns := Ns(StorageNs);
      cfg := prior;
      var chan := GetU8(ns, "zb_chan");
      if chan.Absent? {
        return chan.code, cfg;
      }
      cfg := cfg.(channel := chan.value);
      var pan := GetU16(ns, "zb_panid");
      cfg := cfg.(panId := pan.Or(cfg.panId));
      err := pan.Code();
    }
  }
}
