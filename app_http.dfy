/** The UID views of `main/app_http.c`: the last UID rendered as uppercase
    hex, placed in the `/status` JSON body and the root page, plus the
    effects of `/clear` and `/open`. */
module AppHttp {
  import opened Esp
  import opened Fmt
  import AppWiegand

  const HexLen := 16 * 2 + 1   // char hex[16*2+1]

  function HexDigit(d: nat): (c: char)
    requires d < 16
    ensures c != '\0' && c != '"' && c != '<'
  {
    "0123456789ABCDEF"[d]
  }

  /** `%02X`: the high nibble then the low nibble. */
  function HexByte(b: bv8): (r: string)
    ensures |r| == 2
  {
    [HexDigit(b as int / 16), HexDigit(b as int % 16)]
  }

  /** The high (`k == 0`) or low (`k == 1`) nibble of a byte. */
  function Nibble(b: bv8, k: nat): (d: nat)
    requires k < 2
    ensures d < 16
  {
    if k == 0 then b as int / 16 else b as int % 16
  }

  /** The bytes as uppercase hex: character `k` is nibble `k % 2` of byte
      `k / 2`, so two digits per byte, in order. */
  function Hex(bytes: seq<bv8>): (r: string)
    ensures |r| == 2 * |bytes|
  {
    seq(2 * |bytes|, k requires 0 <= k < 2 * |bytes| => HexDigit(Nibble(bytes[k / 2], k % 2)))
  }

  /** The inverse of `HexDigit`. */
  function HexValue(c: char): (r: Option<nat>)
    ensures r.Some? ==> r.value < 16
  {
    if '0' <= c <= '9' then Some(c as int - '0' as int)
    else if 'A' <= c <= 'F' then Some(c as int - 'A' as int + 10)
    else None
  }

  /** A pair of hex digits read back as the byte they spell. */
  function HexPair(hi: char, lo: char): Option<bv8> {
    match (HexValue(hi), HexValue(lo))
    case (Some(h), Some(l)) => Some((h * 16 + l) as bv8)
    case _ => None
  }

  /** Reads uppercase hex back into bytes (the partner of `Hex`). */
  function ParseHex(s: string): Option<seq<bv8>>
    decreases |s|
  {
    if s == [] then Some([])
    else if |s| < 2 then None
    else
      match (ParseHex(s[..|s| - 2]), HexPair(s[|s| - 2], s[|s| - 1]))
      case (Some(p), Some(b)) => Some(p + [b])
      case _ => None
  }

  lemma HexDigitValue(d: nat)
    requires d < 16
    ensures HexValue(HexDigit(d)) == Some(d)
  {
    var s := "0123456789ABCDEF";
    assert s[d] as int == if d < 10 then '0' as int + d else 'A' as int + d - 10;
  }

  /** The two digits of `%02X` read back as the byte. */
  lemma HexPairOfByte(b: bv8)
    ensures HexPair(HexByte(b)[0], HexByte(b)[1]) == Some(b)
  {
    var hi, lo := b as int / 16, b as int % 16;
    HexDigitValue(hi);
    HexDigitValue(lo);
    assert hi * 16 + lo == b as int;
  }

  /** One step of `ParseHex`: a final digit pair reads back as its byte. */
  lemma ParseHexStep(s: string, p: seq<bv8>, b: bv8)
    requires |s| >= 2 && ParseHex(s[..|s| - 2]) == Some(p)
    requires s[|s| - 2] == HexByte(b)[0] && s[|s| - 1] == HexByte(b)[1]
    ensures ParseHex(s) == Some(p + [b])
  {
    HexPairOfByte(b);
  }

  /** `s` is the two `%02X` digits of each byte of `bytes`, in order. */
  ghost predicate Spells(s: string, bytes: seq<bv8>) {
    |s| == 2 * |bytes| &&
    forall i :: 0 <= i < |bytes| ==> s[2 * i] == HexByte(bytes[i])[0] && s[2 * i + 1] == HexByte(bytes[i])[1]
  }

  /** Any string spelling `bytes` reads back as `bytes`. */
  lemma {:induction false} SpelledReadsBack(s: string, bytes: seq<bv8>)
    requires Spells(s, bytes)
    ensures ParseHex(s) == Some(bytes)
  {
    if bytes != [] {
      var n := |bytes| - 1;
      var init, b := bytes[..n], bytes[n];
      assert init + [b] == bytes;
      var t := s[..2 * n];
      assert Spells(t, init) by {
        forall i | 0 <= i < n
          ensures t[2 * i] == s[2 * i] && t[2 * i + 1] == s[2 * i + 1] && init[i] == bytes[i]
        {
        }
      }
      SpelledReadsBack(t, init);
      assert s[2 * n] == HexByte(b)[0] && s[2 * n + 1] == HexByte(b)[1];
      ParseHexStep(s, init, b);
    }
  }

  lemma HexRoundTrip(bytes: seq<bv8>)
    ensures ParseHex(Hex(bytes)) == Some(bytes)
  {
    forall i | 0 <= i < |bytes|
      ensures Hex(bytes)[2 * i] == HexByte(bytes[i])[0] && Hex(bytes)[2 * i + 1] == HexByte(bytes[i])[1]
    {
      HexAt(bytes, i);
    }
    SpelledReadsBack(Hex(bytes), bytes);
  }

  /** Byte `i` sits at characters `2i` and `2i + 1`. */
  lemma HexAt(bytes: seq<bv8>, i: nat)
    requires i < |bytes|
    ensures Hex(bytes)[2 * i] == HexByte(bytes[i])[0]
    ensures Hex(bytes)[2 * i + 1] == HexByte(bytes[i])[1]
  {
    assert (2 * i) / 2 == i && (2 * i) % 2 == 0;
    assert (2 * i + 1) / 2 == i && (2 * i + 1) % 2 == 1;
  }

  /** The string a zero-terminated `char` array holds. */
  function UpToNul(s: seq<char>): (r: string)
    ensures |r| <= |s| && r == s[..|r|]
  {
    if s == [] || s[0] == '\0' then [] else [s[0]] + UpToNul(s[1..])
  }

  lemma {:induction false} UpToNulAt(s: seq<char>, n: nat)
    requires n < |s| && s[n] == '\0'
    requires forall k :: 0 <= k < n ==> s[k] != '\0'
    ensures UpToNul(s) == s[..n]
  {
    if n > 0 {
      UpToNulAt(s[1..], n - 1);
    }
  }

  /** The hex loop shared by both handlers: `sprintf(&hex[i*2], "%02X",
      buf[i])` into a zero-initialised `hex[33]`. */
  method RenderHex(buf: array<bv8>, len: nat) returns (hex: string)
    requires len <= buf.Length && len <= 16
    ensures hex == Hex(buf[..len])
  {
    ghost var bytes := buf[..len];
    var chars := new char[HexLen](_ => '\0');
    var i := 0;
    while i < len
      invariant 0 <= i <= len
      invariant RenderedSoFar(bytes, chars[..], i)
    {
      ghost var before := chars[..];
      var h := HexByte(buf[i]);
      chars[2 * i] := h[0];
      chars[2 * i + 1] := h[1];
      chars[2 * i + 2] := '\0';  // sprintf's terminator
      RenderStep(bytes, before, chars[..], i);
      i := i + 1;
    }
    RenderedAll(bytes, chars[..]);
    hex := UpToNul(chars[..]);
  }

  /** The rendering loop's invariant: the first `2i` characters are the
      digits of the first `i` bytes, the rest still zero. */
  ghost predicate RenderedSoFar(bytes: seq<bv8>, chars: seq<char>, i: nat)
    requires i <= |bytes| <= 16
  {
    |chars| == HexLen &&
    (forall k :: 0 <= k < 2 * i ==> chars[k] == Hex(bytes)[k]) &&
    (forall k :: 2 * i <= k < HexLen ==> chars[k] == '\0')
  }

  /** One iteration writes byte `i`'s two digits and a NUL after them, and
      keeps the invariant. */
  lemma RenderStep(bytes: seq<bv8>, before: seq<char>, after: seq<char>, i: nat)
    requires i < |bytes| <= 16 && RenderedSoFar(bytes, before, i) && |after| == HexLen
    requires forall k :: 0 <= k < HexLen && k != 2 * i && k != 2 * i + 1 && k != 2 * i + 2 ==>
               after[k] == before[k]
    requires after[2 * i] == HexByte(bytes[i])[0] && after[2 * i + 1] == HexByte(bytes[i])[1]
    requires after[2 * i + 2] == '\0'
    ensures RenderedSoFar(bytes, after, i + 1)
  {
    HexAt(bytes, i);
  }

  /** After the loop the array holds the hex digits and then a NUL. */
  lemma RenderedAll(bytes: seq<bv8>, chars: seq<char>)
    requires |bytes| <= 16 && RenderedSoFar(bytes, chars, |bytes|)
    ensures UpToNul(chars) == Hex(bytes)
  {
    HexAvoids(bytes, '\0');
    UpToNulAt(chars, 2 * |bytes|);
    assert chars[..2 * |bytes|] == Hex(bytes);
  }

  const StatusBefore := "{\"last_uid\":\""

  /** What follows the hex digits in the `/status` body. */
  function StatusAfter(len: nat): (r: string)
    ensures |r| > 0 && r[0] == '"'
  {
    "\",\"len\":" + Decimal(len) + "}"
  }

  /** The `/status` body: `{"last_uid":"<hex>","len":<len>}`. */
  function StatusBody(hex: string, len: nat): string {
    StatusBefore + (if len != 0 then hex else "") + StatusAfter(len)
  }

  /** The root page's UID placeholder: an em dash when there is no UID. */
  function Shown(hex: string, len: nat): string {
    if len != 0 then hex else "\U{2014}"
  }

  const HtmlHead := "<!doctype html><html><head><meta charset='utf-8'>"
    + "<meta name='viewport' content='width=device-width,initial-scale=1'>"
    + "<title>ESP32-C6 RFID</title>"
    + "<style>body{font-family:sans-serif;margin:2rem}button{padding:.7rem 1rem;font-size:1rem}</style>"
    + "</head><body>"
  const HtmlTail := "</body></html>"

  const RootBefore := HtmlHead + "<h1>ESP32-C6 RFID (Wiegand + Zigbee)</h1>"
    + "<p><b>\U{00DA}ltimo UID:</b> "
  const RootAfter := "</p>"
    + "<p><button onclick=\"fetch('/open').then(()=>location.reload())\">Abrir</button></p>"
    + "<p><button onclick=\"fetch('/clear').then(()=>location.reload())\">Limpar UID</button></p>"
    + "<p><a href='/status'>/status</a></p>"
    + HtmlTail

  /** The root page body. */
  function RootPage(hex: string, len: nat): string {
    RootBefore + Shown(hex, len) + RootAfter
  }

  /** Splitting a string after a common prefix at the first occurrence of a
      delimiter that neither middle part contains. */
  lemma SplitAtDelimiter(p: string, x: string, y: string, s1: string, s2: string, c: char)
    requires p + x + s1 == p + y + s2
    requires |s1| > 0 && |s2| > 0 && s1[0] == c && s2[0] == c
    requires Free(x, c) && Free(y, c)
    ensures x == y
  {
    var w := p + x + s1;
    var L := |p|;
    FirstDelimiter(p, x, s1, c);
    FirstDelimiter(p, y, s2, c);
    assert |x| == |y|;
    assert x == w[L..L + |x|];
    assert y == (p + y + s2)[L..L + |y|];
  }

  /** In `p + x + s`, with `s` starting with `c` and `x` free of it, the
      first `c` after `p` is where `s` begins. */
  lemma FirstDelimiter(p: string, x: string, s: string, c: char)
    requires |s| > 0 && s[0] == c
    requires Free(x, c)
    ensures (p + x + s)[|p| + |x|] == c
    ensures forall i :: |p| <= i < |p| + |x| ==> (p + x + s)[i] != c
  {
    forall i | |p| <= i < |p| + |x|
      ensures (p + x + s)[i] != c
    {
      assert (p + x + s)[i] == x[i - |p|];
    }
  }

  /** `s` does not contain `c`. */
  predicate Free(s: string, c: char) {
    forall k :: 0 <= k < |s| ==> s[k] != c
  }

  lemma HexAvoids(bytes: seq<bv8>, c: char)
    requires c == '\0' || c == '"' || c == '<'
    ensures Free(Hex(bytes), c)
  {
    forall k | 0 <= k < |Hex(bytes)|
      ensures Hex(bytes)[k] != c
    {
      assert Hex(bytes)[k] == HexDigit(Nibble(bytes[k / 2], k % 2));
    }
  }

  lemma StatusShape(h: string, len: nat)
    requires len == 0 ==> h == ""
    ensures StatusBody(h, len) == StatusBefore + h + StatusAfter(len)
  {
  }

  /** Two `/status` bodies agree only if their hex parts agree. */
  lemma StatusSplit(ha: string, la: nat, hb: string, lb: nat)
    requires la == 0 ==> ha == ""
    requires lb == 0 ==> hb == ""
    requires Free(ha, '"') && Free(hb, '"')
    requires StatusBody(ha, la) == StatusBody(hb, lb)
    ensures ha == hb
  {
    StatusShape(ha, la);
    StatusShape(hb, lb);
    SplitAtDelimiter(StatusBefore, ha, hb, StatusAfter(la), StatusAfter(lb), '"');
  }

  /** The `/status` body determines the UID: two UIDs with the same body are
      the same UID. */
  lemma StatusBodyDeterminesUid(a: seq<bv8>, b: seq<bv8>)
    requires StatusBody(Hex(a), |a|) == StatusBody(Hex(b), |b|)
    ensures a == b
  {
    HexAvoids(a, '"');
    HexAvoids(b, '"');
    StatusSplit(Hex(a), |a|, Hex(b), |b|);
    HexRoundTrip(a);
    HexRoundTrip(b);
  }

  /** Two root pages agree only if their placeholders agree. */
  lemma RootSplit(xa: string, xb: string)
    requires Free(xa, '<') && Free(xb, '<')
    requires RootBefore + xa + RootAfter == RootBefore + xb + RootAfter
    ensures xa == xb
  {
    assert RootAfter[0] == '<';
    SplitAtDelimiter(RootBefore, xa, xb, RootAfter, RootAfter, '<');
  }

  /** The root page determines the UID in the same way; an empty UID shows as
      the em dash, which no hex string equals. */
  lemma RootPageDeterminesUid(a: seq<bv8>, b: seq<bv8>)
    requires RootPage(Hex(a), |a|) == RootPage(Hex(b), |b|)
    ensures a == b
  {
    HexAvoids(a, '<');
    HexAvoids(b, '<');
    var xa, xb := Shown(Hex(a), |a|), Shown(Hex(b), |b|);
    assert Free(xa, '<') && Free(xb, '<');
    RootSplit(xa, xb);
    if |a| != 0 && |b| != 0 {
      HexRoundTrip(a);
      HexRoundTrip(b);
    }
  }

  /** The body fits `json[256]`, so `snprintf` never truncates it. */
  lemma StatusBodyFits(bytes: seq<bv8>)
    requires |bytes| <= AppWiegand.UidBufLen
    ensures |StatusBody(Hex(bytes), |bytes|)| < 256
  {
    var n := |bytes|;
    if n >= 10 {
      assert Decimal(n) == Decimal(n / 10) + [DigitChar(n % 10)];
    }
  }

  /** `status_get_handler`: read the last UID into `buf[16]`, render it. */
  method StatusHandler(w: AppWiegand.Wiegand) returns (body: string)
    requires w.Valid()
    ensures body == StatusBody(Hex(w.LastUid()), |w.LastUid()|)
  {
    var buf := new bv8[16](_ => 0);
    var len := w.GetLastUid(buf, Some(16));
    var n := len.value;
    assert buf[..n] == w.LastUid();
    var hex := RenderHex(buf, n);
    body := StatusBody(hex, n);
  }

  /** `root_get_handler`. */
  method RootHandler(w: AppWiegand.Wiegand) returns (body: string)
    requires w.Valid()
    ensures body == RootPage(Hex(w.LastUid()), |w.LastUid()|)
  {
    var buf := new bv8[16](_ => 0);
    var len := w.GetLastUid(buf, Some(16));
    var n := len.value;
    assert buf[..n] == w.LastUid();
    var hex := RenderHex(buf, n);
    body := RootPage(hex, n);
  }

  /** `clear_get_handler`: the slot is emptied, so `/status` then reports
      an empty UID of length 0. */
  method ClearHandler(w: AppWiegand.Wiegand) returns (body: string)
    requires w.Valid()
    modifies w`lastUidLen, w.lastUid
    ensures w.Valid() && w.LastUid() == []
    ensures w.lastUid[..] == seq(AppWiegand.UidBufLen, _ => 0)
    ensures StatusBody(Hex(w.LastUid()), |w.LastUid()|) == "{\"last_uid\":\"\",\"len\":0}"
    ensures body == "CLEARED"
  {
    w.ClearLastUid();
    body := "CLEARED";
  }

  /** `open_get_handler`: replies "OK" and drives no output. */
  method OpenHandler(w: AppWiegand.Wiegand) returns (body: string)
    ensures body == "OK"
  {
    body := "OK";
  }
}
