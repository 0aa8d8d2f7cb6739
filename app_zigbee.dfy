/** The "last UID" attribute of `main/app_zigbee.c`: a 17-byte buffer that
    holds a Zigbee Cluster Library character string (data type 0x42,
    section 2.6.2 of the ZCL specification): one length octet followed by
    that many octets. */
module AppZigbee {
  import opened Esp

  const MaxUidBytes := 16             // the clamp in app_zb_report_uid
  const AttrLen := 1 + MaxUidBytes    // last_uid_zcl[1 + 16]
  const InvalidLength: bv8 := 0xFF    // the length octet of an invalid string

  /** The string a ZCL character-string buffer denotes: the octets its
      length octet counts, or nothing when that octet is the invalid value
      or runs past the buffer. */
  function CharStringValue(buf: seq<bv8>): (r: Option<seq<bv8>>)
    requires |buf| >= 1
    ensures r.Some? <==> buf[0] != InvalidLength && buf[0] as int <= |buf| - 1
    ensures r.Some? ==> |r.value| == buf[0] as int && r.value == buf[1..1 + buf[0] as int]
  {
    if buf[0] == InvalidLength || buf[0] as int > |buf| - 1 then None
    else Some(buf[1..1 + buf[0] as int])
  }

  /** The buffer after a report of `bytes` over `prior`: the length octet, the
      bytes, then whatever the earlier report left behind. */
  function Reported(bytes: seq<bv8>, prior: seq<bv8>): (r: seq<bv8>)
    requires |bytes| <= MaxUidBytes && |prior| == AttrLen
    ensures |r| == AttrLen
  {
    [|bytes| as bv8] + bytes + prior[1 + |bytes|..]
  }

  /** The attribute denotes exactly the reported bytes, so the clamp keeps
      every report a valid character string inside the buffer. */
  lemma ReportedRoundTrip(bytes: seq<bv8>, prior: seq<bv8>)
    requires |bytes| <= MaxUidBytes && |prior| == AttrLen
    ensures CharStringValue(Reported(bytes, prior)) == Some(bytes)
  {
    var r := Reported(bytes, prior);
    assert r[1..1 + |bytes|] == bytes;
  }

  class ZigbeeUidAttr {
    const lastUidZcl: array<bv8>   // last_uid_zcl

    ghost predicate Valid()
      reads this
    {
      lastUidZcl.Length == AttrLen
    }

    /** The UID the attribute currently carries. */
    function Value(): Option<seq<bv8>>
      reads this, lastUidZcl
      requires Valid()
    {
      CharStringValue(lastUidZcl[..])
    }

    /** The zero-initialised static: a valid empty string. */
    constructor ()
      ensures Valid() && Value() == Some([])
    {
      lastUidZcl := new bv8[AttrLen](_ => 0);
    }

    /** The buffer update of `app_zb_report_uid`: a null `uid` changes nothing;
        otherwise the first `min(uidLen, 16)` bytes become the attribute. */
    method ReportUid(uid: array?<bv8>, uidLen: nat)
      requires Valid()
      requires uid != null ==> Min(uidLen, MaxUidBytes) <= uid.Length
      requires uid != lastUidZcl
      modifies lastUidZcl
      ensures Valid()
      ensures uid == null ==> lastUidZcl[..] == old(lastUidZcl[..])
      ensures uid != null ==>
                lastUidZcl[..] == Reported(uid[..Min(uidLen, MaxUidBytes)], old(lastUidZcl[..]))
      ensures uid != null ==> Value() == Some(uid[..Min(uidLen, MaxUidBytes)])
      ensures uid != null ==> lastUidZcl[0] as int == Min(uidLen, MaxUidBytes)
    {
      if uid == null {
        return;
      }
      var n := uidLen;
      if n > MaxUidBytes {
        n := MaxUidBytes;
      }
      ghost var prior := lastUidZcl[..];
      lastUidZcl[0] := n as bv8;
      forall k | 0 <= k < n {
        lastUidZcl[1 + k] := uid[k];
      }
      assert lastUidZcl[..] == Reported(uid[..n], prior);
      ReportedRoundTrip(uid[..n], prior);
    }
  }
}
