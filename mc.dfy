/** The binary protocol helpers of mc.js: the 24-byte request/response
    header, request packing into a buffer, and message decoding from a
    'binary'-encoded string (one character per byte). The byte-order helpers
    `htons`, `htonl`, `ntohs`, `ntohl` of ntoh.js are taken as big-endian
    16-bit and 32-bit unsigned conversions. */
module Mc {
  import opened Base
  import opened Text

  newtype byte = b: int | 0 <= b < 256

  const SIZEOF_HEADER: nat := 24
  const REQ_MAGIC_BYTE := 0x80
  const RES_MAGIC_BYTE := 0x81
  const CMD_TAP_CONNECT := 0x40
  const CMD_TAP_MUTATION := 0x41
  const TAP_CONNECT_FLAG_DUMP := 0x02

  // ------------------------------------------------------------ bytes

  /** What a Buffer stores when assigned the number `v`: its low eight bits. */
  function Low(v: int): byte {
    (v % 256) as byte
  }

  /** `htons`: two bytes, most significant first. */
  function U16(v: int): (s: seq<byte>)
    ensures |s| == 2
  {
    [Low(v / 256), Low(v)]
  }

  /** `htonl`: four bytes, most significant first. */
  function U32(v: int): (s: seq<byte>)
    ensures |s| == 4
  {
    U16(v / 65536) + U16(v)
  }

  /** `ntohs` at offset `i`. */
  function Ntohs(b: seq<byte>, i: nat): nat
    requires i + 2 <= |b|
  {
    b[i] as int * 256 + b[i + 1] as int
  }

  /** `ntohl` at offset `i`. */
  function Ntohl(b: seq<byte>, i: nat): nat
    requires i + 4 <= |b|
  {
    Ntohs(b, i) * 65536 + Ntohs(b, i + 2)
  }

  lemma Mod65536(v: int, q: int, x: int)
    requires v == 65536 * q + x && 0 <= x < 65536
    ensures v % 65536 == x
  {
  }

  lemma Mod4294967296(v: int, q: int, x: int)
    requires v == 4294967296 * q + x && 0 <= x < 4294967296
    ensures v % 4294967296 == x
  {
  }

  /** Reading back two written bytes gives the value modulo 2^16. */
  lemma U16Value(v: int)
    ensures Ntohs(U16(v), 0) == v % 65536
  {
    var q, r := v / 256, v % 256;
    var q2, s := q / 256, q % 256;
    assert v == 65536 * q2 + (256 * s + r);
    Mod65536(v, q2, 256 * s + r);
  }

  /** Reading back four written bytes gives the value modulo 2^32. */
  lemma U32Value(v: int)
    ensures Ntohl(U32(v), 0) == v % 4294967296
  {
    var h, l := v / 65536, v % 65536;
    U16Value(h);
    U16Value(v);
    var w := U32(v);
    assert w[0..2] == U16(h) && w[2..4] == U16(v);
    assert Ntohs(w, 0) == Ntohs(U16(h), 0) && Ntohs(w, 2) == Ntohs(U16(v), 0);
    var h2, h1 := h / 65536, h % 65536;
    assert v == 4294967296 * h2 + (65536 * h1 + l);
    Mod4294967296(v, h2, 65536 * h1 + l);
  }

  /** A 'binary'-encoded string's bytes: `0xff & s.charCodeAt(i)`. */
  function StrBytes(s: string): (b: seq<byte>)
    ensures |b| == |s| && forall i :: 0 <= i < |s| ==> b[i] == Low(s[i] as int)
  {
    seq(|s|, i requires 0 <= i < |s| => Low(s[i] as int))
  }

  /** The 'binary' string of a buffer: one character per byte. */
  function AsString(b: seq<byte>): (s: string)
    ensures |s| == |b| && forall i :: 0 <= i < |b| ==> s[i] as int == b[i] as int
  {
    seq(|b|, i requires 0 <= i < |b| => (b[i] as int) as char)
  }

  predicate IsBinary(s: string) {
    forall i :: 0 <= i < |s| ==> (s[i] as int) < 256
  }

  lemma StrBytesOfAsString(b: seq<byte>)
    ensures StrBytes(AsString(b)) == b
  {
  }

  lemma AsStringOfStrBytes(s: string)
    requires IsBinary(s)
    ensures AsString(StrBytes(s)) == s
  {
  }

  lemma StrBytesAppend(s: string, t: string)
    ensures StrBytes(s + t) == StrBytes(s) + StrBytes(t)
  {
  }

  lemma AsStringAppend(a: seq<byte>, b: seq<byte>)
    ensures AsString(a + b) == AsString(a) + AsString(b)
  {
  }

  // ------------------------------------------------------------ the header

  /** An unpacked header: the fields `unpackHeader` reads (not `datatype`)
      and the derived `datalen`, which is negative when key and extras
      claim more than the body holds. */
  datatype Header = Header(
    magic: nat, opcode: nat, keylen: nat, extlen: nat,
    statusOrReserved: nat, bodylen: nat, tag: nat, datalen: int)

  /** The 24 bytes `packHeader` writes; bytes 16 to 23 are zero. */
  function HeaderBytes(magic: int, opcode: int, keylen: int, extlen: int, dataType: int,
                       statusOrReserved: int, bodylen: int, tag: int): (h: seq<byte>)
    ensures |h| == SIZEOF_HEADER
  {
    var k, st, bl, tg := U16(keylen), U16(statusOrReserved), U32(bodylen), U32(tag);
    [Low(magic), Low(opcode), k[0], k[1], Low(extlen), Low(dataType), st[0], st[1],
     bl[0], bl[1], bl[2], bl[3], tg[0], tg[1], tg[2], tg[3], 0, 0, 0, 0, 0, 0, 0, 0]
  }

  lemma NtohsOf(b: seq<byte>, i: nat, v: int)
    requires i + 2 <= |b| && b[i] == U16(v)[0] && b[i + 1] == U16(v)[1]
    ensures Ntohs(b, i) == v % 65536
  {
    U16Value(v);
  }

  lemma NtohlOf(b: seq<byte>, i: nat, v: int)
    requires i + 4 <= |b| && forall k :: 0 <= k < 4 ==> b[i + k] == U32(v)[k]
    ensures Ntohl(b, i) == v % 4294967296
  {
    U32Value(v);
    var w := U32(v);
    assert b[i] == w[0] && b[i + 1] == w[1] && b[i + 2] == w[2] && b[i + 3] == w[3];
  }

  /** The header read at `start` depends only on the 24 bytes there. */
  lemma UnpackHeaderSameBytes(b: seq<byte>, i: nat, c: seq<byte>, j: nat)
    requires i + SIZEOF_HEADER <= |b| && j + SIZEOF_HEADER <= |c|
    requires b[i..i + SIZEOF_HEADER] == c[j..j + SIZEOF_HEADER]
    ensures UnpackHeader(b, i) == UnpackHeader(c, j)
  {
    var x, y := b[i..i + SIZEOF_HEADER], c[j..j + SIZEOF_HEADER];
    assert forall k :: 0 <= k < SIZEOF_HEADER ==> b[i + k] == x[k] == y[k] == c[j + k];
    assert b[i] == c[j] && b[i + 1] == c[j + 1] && b[i + 4] == c[j + 4];
    assert Ntohs(b, i + 2) == Ntohs(c, j + 2) by { assert b[i + 2] == c[j + 2] && b[i + 3] == c[j + 3]; }
    assert Ntohs(b, i + 6) == Ntohs(c, j + 6) by { assert b[i + 6] == c[j + 6] && b[i + 7] == c[j + 7]; }
    assert Ntohl(b, i + 8) == Ntohl(c, j + 8) by {
      assert b[i + 8] == c[j + 8] && b[i + 9] == c[j + 9] && b[i + 10] == c[j + 10] && b[i + 11] == c[j + 11];
    }
    assert Ntohl(b, i + 12) == Ntohl(c, j + 12) by {
      assert b[i + 12] == c[j + 12] && b[i + 13] == c[j + 13] && b[i + 14] == c[j + 14] && b[i + 15] == c[j + 15];
    }
  }

  /** `unpackHeader(b, start)`: `None` is the -1 of fewer than 24 bytes. */
  function UnpackHeader(b: seq<byte>, start: nat): (r: Option<Header>)
    ensures r.None? <==> |b| - start < SIZEOF_HEADER
    ensures r.Some? ==> r.value.datalen == r.value.bodylen - (r.value.keylen + r.value.extlen)
  {
    if |b| - start < SIZEOF_HEADER then None
    else
      var keylen, extlen, bodylen := Ntohs(b, start + 2), b[start + 4] as nat, Ntohl(b, start + 8);
      Some(Header(b[start] as nat, b[start + 1] as nat, keylen, extlen, Ntohs(b, start + 6),
                  bodylen, Ntohl(b, start + 12), bodylen - (keylen + extlen)))
  }

  predicate HeaderFieldsFit(magic: int, opcode: int, keylen: int, extlen: int,
                            statusOrReserved: int, bodylen: int, tag: int) {
    && 0 <= magic < 256 && 0 <= opcode < 256 && 0 <= keylen < 65536 && 0 <= extlen < 256
    && 0 <= statusOrReserved < 65536 && 0 <= bodylen < 4294967296 && 0 <= tag < 4294967296
  }

  /** Unpacking a packed header gives back every field it carries, whatever follows it. */
  lemma HeaderRoundTrip(magic: int, opcode: int, keylen: int, extlen: int, dataType: int,
                        statusOrReserved: int, bodylen: int, tag: int, rest: seq<byte>)
    requires HeaderFieldsFit(magic, opcode, keylen, extlen, statusOrReserved, bodylen, tag)
    ensures UnpackHeader(HeaderBytes(magic, opcode, keylen, extlen, dataType, statusOrReserved, bodylen, tag) + rest, 0)
         == Some(Header(magic, opcode, keylen, extlen, statusOrReserved, bodylen, tag, bodylen - (keylen + extlen)))
  {
    var h := HeaderBytes(magic, opcode, keylen, extlen, dataType, statusOrReserved, bodylen, tag);
    HeaderBytesRead(magic, opcode, keylen, extlen, dataType, statusOrReserved, bodylen, tag);
    assert (h + rest)[0..SIZEOF_HEADER] == h[0..SIZEOF_HEADER];
    UnpackHeaderSameBytes(h + rest, 0, h, 0);
  }

  lemma HeaderBytesRead(magic: int, opcode: int, keylen: int, extlen: int, dataType: int,
                        statusOrReserved: int, bodylen: int, tag: int)
    requires HeaderFieldsFit(magic, opcode, keylen, extlen, statusOrReserved, bodylen, tag)
    ensures UnpackHeader(HeaderBytes(magic, opcode, keylen, extlen, dataType, statusOrReserved, bodylen, tag), 0)
         == Some(Header(magic, opcode, keylen, extlen, statusOrReserved, bodylen, tag, bodylen - (keylen + extlen)))
  {
    var h := HeaderBytes(magic, opcode, keylen, extlen, dataType, statusOrReserved, bodylen, tag);
    HeaderBytesAt(magic, opcode, keylen, extlen, dataType, statusOrReserved, bodylen, tag);
    LowOf(magic);
    LowOf(opcode);
    LowOf(extlen);
    U16Read(h, 2, keylen);
    U16Read(h, 6, statusOrReserved);
    U32Read(h, 8, bodylen);
    U32Read(h, 12, tag);
    UnpackHeaderFields(h, magic, opcode, keylen, extlen, statusOrReserved, bodylen, tag);
  }

  /** Where `HeaderBytes` puts each field. */
  lemma HeaderBytesAt(magic: int, opcode: int, keylen: int, extlen: int, dataType: int,
                      statusOrReserved: int, bodylen: int, tag: int)
    ensures var h := HeaderBytes(magic, opcode, keylen, extlen, dataType, statusOrReserved, bodylen, tag);
      && h[0] == Low(magic) && h[1] == Low(opcode) && h[4] == Low(extlen)
      && h[2] == U16(keylen)[0] && h[3] == U16(keylen)[1]
      && h[6] == U16(statusOrReserved)[0] && h[7] == U16(statusOrReserved)[1]
      && (forall k :: 0 <= k < 4 ==> h[8 + k] == U32(bodylen)[k])
      && (forall k :: 0 <= k < 4 ==> h[12 + k] == U32(tag)[k])
  {
  }

  lemma LowOf(v: int)
    requires 0 <= v < 256
    ensures Low(v) as nat == v
  {
  }

  /** Two bytes written by `htons` read back as the value when it fits. */
  lemma U16Read(b: seq<byte>, i: nat, v: int)
    requires 0 <= v < 65536
    requires i + 2 <= |b| && b[i] == U16(v)[0] && b[i + 1] == U16(v)[1]
    ensures Ntohs(b, i) == v
  {
    NtohsOf(b, i, v);
  }

  /** Four bytes written by `htonl` read back as the value when it fits. */
  lemma U32Read(b: seq<byte>, i: nat, v: int)
    requires 0 <= v < 4294967296
    requires i + 4 <= |b| && forall k :: 0 <= k < 4 ==> b[i + k] == U32(v)[k]
    ensures Ntohl(b, i) == v
  {
    NtohlOf(b, i, v);
  }

  /** The fields `unpackHeader` reads from 24 bytes. */
  lemma UnpackHeaderFields(h: seq<byte>, magic: nat, opcode: nat, keylen: nat, extlen: nat,
                           statusOrReserved: nat, bodylen: nat, tag: nat)
    requires |h| == SIZEOF_HEADER
    requires h[0] as nat == magic && h[1] as nat == opcode && h[4] as nat == extlen
    requires Ntohs(h, 2) == keylen && Ntohs(h, 6) == statusOrReserved
    requires Ntohl(h, 8) == bodylen && Ntohl(h, 12) == tag
    ensures UnpackHeader(h, 0)
         == Some(Header(magic, opcode, keylen, extlen, statusOrReserved, bodylen, tag, bodylen - (keylen + extlen)))
  {
  }

  /** `n.htons(b, i, v)`. */
  method Htons(b: array<byte>, i: nat, v: int)
    requires i + 2 <= b.Length
    modifies b
    ensures b[i] == U16(v)[0] && b[i + 1] == U16(v)[1]
    ensures forall j :: 0 <= j < b.Length && j != i && j != i + 1 ==> b[j] == old(b[j])
  {
    b[i] := Low(v / 256);
    b[i + 1] := Low(v);
  }

  /** `n.htonl(b, i, v)`. */
  method Htonl(b: array<byte>, i: nat, v: int)
    requires i + 4 <= b.Length
    modifies b
    ensures forall k :: 0 <= k < 4 ==> b[i + k] == U32(v)[k]
    ensures forall j :: 0 <= j < b.Length && !(i <= j < i + 4) ==> b[j] == old(b[j])
  {
    Htons(b, i, v / 65536);
    Htons(b, i + 2, v);
  }

  /** The writes of `packHeader` into a buffer of at least 24 bytes. */
  method WriteHeader(b: array<byte>, magic: int, opcode: int, keylen: int, extlen: int, dataType: int,
                     statusOrReserved: int, bodylen: int, tag: int)
    requires b.Length >= SIZEOF_HEADER
    modifies b
    ensures b[..SIZEOF_HEADER] == HeaderBytes(magic, opcode, keylen, extlen, dataType, statusOrReserved, bodylen, tag)
    ensures b[SIZEOF_HEADER..] == old(b[SIZEOF_HEADER..])
  {
    ghost var h := HeaderBytes(magic, opcode, keylen, extlen, dataType, statusOrReserved, bodylen, tag);
    b[0] := Low(magic);
    b[1] := Low(opcode);
    Htons(b, 2, keylen);
    b[4] := Low(extlen);
    b[5] := Low(dataType);
    Htons(b, 6, statusOrReserved);
    Htonl(b, 8, bodylen);
    Htonl(b, 12, tag);
    assert forall j :: 0 <= j < 16 ==> b[j] == h[j];
    for i := 16 to SIZEOF_HEADER
      invariant forall j :: 0 <= j < i ==> b[j] == h[j]
      invariant b[SIZEOF_HEADER..] == old(b[SIZEOF_HEADER..])
    {
      b[i] := 0;
    }
  }

  /** `packHeader(...)`: a buffer sized for header, extras and key; only
      the header bytes are written. */
  method PackHeader(magic: int, opcode: int, keylen: nat, extlen: nat, dataType: int,
                    statusOrReserved: int, bodylen: int, tag: int) returns (b: array<byte>)
    ensures fresh(b) && b.Length == SIZEOF_HEADER + extlen + keylen
    ensures b[..SIZEOF_HEADER] == HeaderBytes(magic, opcode, keylen, extlen, dataType, statusOrReserved, bodylen, tag)
  {
    b := new byte[SIZEOF_HEADER + extlen + keylen];
    WriteHeader(b, magic, opcode, keylen, extlen, dataType, statusOrReserved, bodylen, tag);
  }

  // ------------------------------------------------------------ decoding strings

  /** `unpackHeaderStr(b, start)`: also `None` until the whole body has arrived. */
  function UnpackHeaderStr(s: string, start: nat): (r: Option<Header>)
    ensures r.Some? ==> start + SIZEOF_HEADER + r.value.bodylen <= |s|
    ensures r.Some? ==> UnpackHeader(StrBytes(s), start) == r
    ensures r.None? <==> |s| - start < SIZEOF_HEADER || |s| - start < SIZEOF_HEADER + UnpackHeader(StrBytes(s), start).value.bodylen
  {
    if |s| - start < SIZEOF_HEADER then None
    else
      var h := UnpackHeader(StrBytes(s), start).value;
      if |s| - start < SIZEOF_HEADER + h.bodylen then None else Some(h)
  }

  /** A decoded message; a part is `None` (the source's `null`) when its length is not positive. */
  datatype Msg = Msg(header: Header, ext: Option<string>, key: Option<string>, data: Option<string>)

  /** `s.slice(a, b)` at two non-negative indices, both clamped to the string;
      `SliceIsJsSlice` shows it is JavaScript's `slice` there. */
  function Slice(s: string, a: nat, b: nat): (r: string)
    ensures |r| <= |s|
  {
    var from := if a < |s| then a else |s|;
    var to := if b < |s| then b else |s|;
    if to <= from then "" else s[from..to]
  }

  lemma SliceIsJsSlice(s: string, a: nat, b: nat)
    ensures Slice(s, a, b) == JsSlice(s, Some(a), Some(b))
  {
  }

  /** The parts of a message whose header starts at `start`, sliced from `f`. */
  function Parts(f: string, start: nat, h: Header): Msg {
    var e := start + SIZEOF_HEADER;
    var k := e + h.extlen;
    var d := k + h.keylen;
    Msg(h,
        if h.extlen > 0 then Some(Slice(f, e, k)) else None,
        if h.keylen > 0 then Some(Slice(f, k, d)) else None,
        if h.datalen > 0 then Some(Slice(f, d, d + h.datalen)) else None)
  }

  /** `unpackMsgStr(s, start)` as the source writes it: the parts are sliced
      from the whole string, so a header whose key and extras claim more than
      its body takes bytes of whatever follows the frame. */
  function UnpackMsgStrAsWritten(s: string, start: nat): Option<Msg> {
    if |s| - start < SIZEOF_HEADER then None
    else match UnpackHeaderStr(s, start)
      case None => None
      case Some(h) => Some(Parts(s, start, h))
  }

  /** `unpackMsgStr(s, start)` with the parts sliced from the frame itself,
      the 24 + `bodylen` bytes from `start`. */
  function UnpackMsgStr(s: string, start: nat): (r: Option<Msg>)
    ensures r.Some? <==> UnpackHeaderStr(s, start).Some?
    ensures r.Some? ==> r.value.header == UnpackHeaderStr(s, start).value
  {
    if |s| - start < SIZEOF_HEADER then None
    else match UnpackHeaderStr(s, start)
      case None => None
      case Some(h) => Some(Parts(s[..start + SIZEOF_HEADER + h.bodylen], start, h))
  }

  lemma SliceOfPrefix(s: string, n: nat, a: nat, b: nat)
    requires n <= |s| && b <= n
    ensures Slice(s[..n], a, b) == Slice(s, a, b)
  {
  }

  lemma SliceShift(f: string, cur: nat, g: string, a: nat, b: nat, a': nat, b': nat)
    requires cur <= |f| && f[cur..] == g && a == cur + a' && b == cur + b'
    ensures Slice(f, a, b) == Slice(g, a', b')
  {
    var from := if a < |f| then a else |f|;
    var to := if b < |f| then b else |f|;
    if from < to {
      assert |g| == |f| - cur;
      forall i | 0 <= i < to - from ensures f[from..to][i] == g[from - cur..to - cur][i] {
        assert g[from - cur + i] == f[from + i];
      }
      assert f[from..to] == g[from - cur..to - cur];
    }
  }

  lemma StrBytesSlice(s: string, i: nat, j: nat)
    requires i <= j <= |s|
    ensures StrBytes(s[i..j]) == StrBytes(s)[i..j]
  {
  }

  lemma AsStringSlice(b: seq<byte>, i: nat, j: nat)
    requires i <= j <= |b|
    ensures AsString(b)[i..j] == AsString(b[i..j])
  {
  }

  /** On a header whose key and extras fit in its body, the two agree. */
  lemma UnpackMsgStrAgreesWhenPartsFit(s: string, start: nat)
    requires UnpackHeaderStr(s, start).Some?
    requires var h := UnpackHeaderStr(s, start).value; h.keylen + h.extlen <= h.bodylen
    ensures UnpackMsgStr(s, start) == UnpackMsgStrAsWritten(s, start)
  {
    var h := UnpackHeaderStr(s, start).value;
    FrameComplete(s, start);
    PartsOfFrame(s, start + SIZEOF_HEADER + h.bodylen, start, h);
  }

  /** What a complete frame decodes to, both ways. */
  lemma FrameComplete(s: string, start: nat)
    requires UnpackHeaderStr(s, start).Some?
    ensures var h := UnpackHeaderStr(s, start).value;
      && UnpackMsgStr(s, start) == Some(Parts(s[..start + SIZEOF_HEADER + h.bodylen], start, h))
      && UnpackMsgStrAsWritten(s, start) == Some(Parts(s, start, h))
  {
  }

  /** Parts that end inside the frame are the same sliced from the frame or from all of `s`. */
  lemma PartsOfFrame(s: string, n: nat, start: nat, h: Header)
    requires n == start + SIZEOF_HEADER + h.bodylen <= |s|
    requires h.datalen == h.bodylen - (h.keylen + h.extlen) && h.keylen + h.extlen <= h.bodylen
    ensures Parts(s[..n], start, h) == Parts(s, start, h)
  {
    var e := start + SIZEOF_HEADER;
    SliceOfPrefix(s, n, e, e + h.extlen);
    SliceOfPrefix(s, n, e + h.extlen, e + h.extlen + h.keylen);
    if h.datalen > 0 {
      SliceOfPrefix(s, n, e + h.extlen + h.keylen, e + h.extlen + h.keylen + h.datalen);
    }
  }

  /** A complete frame decodes the same whatever arrives after it. */
  lemma UnpackMsgStrPrefixStable(s: string, t: string)
    requires UnpackMsgStr(s, 0).Some?
    ensures UnpackMsgStr(s + t, 0) == UnpackMsgStr(s, 0)
  {
    StrBytesAppend(s, t);
    var b, c := StrBytes(s + t), StrBytes(s);
    assert b[0..SIZEOF_HEADER] == c[0..SIZEOF_HEADER];
    UnpackHeaderSameBytes(b, 0, c, 0);
    var h := UnpackHeaderStr(s, 0).value;
    var n := SIZEOF_HEADER + h.bodylen;
    assert (s + t)[..n] == s[..n];
  }

  /** Decoding at offset `cur` is decoding the rest of the string from its start. */
  lemma UnpackMsgStrShift(s: string, cur: nat)
    requires cur <= |s|
    ensures UnpackMsgStr(s, cur) == UnpackMsgStr(s[cur..], 0)
  {
    var t := s[cur..];
    if |s| - cur >= SIZEOF_HEADER {
      HeaderStrShift(s, cur);
      if UnpackHeaderStr(t, 0).Some? {
        var h := UnpackHeaderStr(t, 0).value;
        var n := SIZEOF_HEADER + h.bodylen;
        UnpackMsgStrFrame(s, cur);
        UnpackMsgStrFrame(t, 0);
        SuffixOfPrefix(s, cur, n);
        PartsShift(s[..cur + n], cur, t[..n], h);
      }
    }
  }

  /** A complete frame decodes to its parts, sliced from the frame. */
  lemma UnpackMsgStrFrame(s: string, start: nat)
    requires UnpackHeaderStr(s, start).Some?
    ensures var h := UnpackHeaderStr(s, start).value;
      UnpackMsgStr(s, start) == Some(Parts(s[..start + SIZEOF_HEADER + h.bodylen], start, h))
  {
  }

  lemma HeaderShift(s: string, cur: nat)
    requires cur + SIZEOF_HEADER <= |s|
    ensures UnpackHeader(StrBytes(s), cur) == UnpackHeader(StrBytes(s[cur..]), 0)
  {
    StrBytesSlice(s, cur, |s|);
    var b, c := StrBytes(s), StrBytes(s[cur..]);
    assert b[cur..cur + SIZEOF_HEADER] == c[0..SIZEOF_HEADER];
    UnpackHeaderSameBytes(b, cur, c, 0);
  }

  lemma HeaderStrShift(s: string, cur: nat)
    requires cur + SIZEOF_HEADER <= |s|
    ensures UnpackHeaderStr(s, cur) == UnpackHeaderStr(s[cur..], 0)
  {
    HeaderShift(s, cur);
  }

  lemma SuffixOfPrefix(s: string, cur: nat, n: nat)
    requires cur + n <= |s|
    ensures s[..cur + n][cur..] == s[cur..][..n]
  {
  }

  lemma PartsShift(f: string, cur: nat, g: string, h: Header)
    requires cur <= |f| && f[cur..] == g
    ensures Parts(f, cur, h) == Parts(g, 0, h)
  {
    var e := cur + SIZEOF_HEADER;
    var k := e + h.extlen;
    var d := k + h.keylen;
    var e0 := 0 + SIZEOF_HEADER;
    var k0 := e0 + h.extlen;
    var d0 := k0 + h.keylen;
    PartShift(f, cur, g, h.extlen, e, k, e0, k0);
    PartShift(f, cur, g, h.keylen, k, d, k0, d0);
    if h.datalen > 0 {
      PartShift(f, cur, g, h.datalen, d, d + h.datalen, d0, d0 + h.datalen);
    }
  }

  /** One part of a message, present when its length is positive, is the
      same sliced from `f` at `a` as from `g = f[cur..]` at `a - cur`. */
  lemma PartShift(f: string, cur: nat, g: string, len: int, a: nat, b: nat, a': nat, b': nat)
    requires cur <= |f| && f[cur..] == g && a == cur + a' && b == cur + b'
    ensures (if len > 0 then Some(Slice(f, a, b)) else None)
         == (if len > 0 then Some(Slice(g, a', b')) else None)
  {
    SliceShift(f, cur, g, a, b, a', b');
  }

  // ------------------------------------------------------------ requests

  function OrEmpty(s: Option<string>): string {
    if s.Some? then s.value else ""
  }

  function OrNoBytes(b: Option<seq<byte>>): seq<byte> {
    if b.Some? then b.value else []
  }

  /** The buffer `packRequest` returns: a request header whose body length
      counts the data, the extras, the key, and nothing else. */
  function RequestBytesAsWritten(opcode: int, key: Option<string>, ext: Option<seq<byte>>,
                                 reserved: int, tag: int, data: Option<string>): (b: seq<byte>)
    ensures |b| == SIZEOF_HEADER + |OrNoBytes(ext)| + |OrEmpty(key)|
  {
    var k, x, d := OrEmpty(key), OrNoBytes(ext), OrEmpty(data);
    HeaderBytes(REQ_MAGIC_BYTE, opcode, |k|, |x|, 0, reserved, |k| + |x| + |d|, tag) + x + StrBytes(k)
  }

  /** The request with its data after the key, as the body length announces. */
  function RequestBytes(opcode: int, key: Option<string>, ext: Option<seq<byte>>,
                        reserved: int, tag: int, data: Option<string>): (b: seq<byte>)
    ensures |b| == SIZEOF_HEADER + |OrNoBytes(ext)| + |OrEmpty(key)| + |OrEmpty(data)|
  {
    RequestBytesAsWritten(opcode, key, ext, reserved, tag, data) + StrBytes(OrEmpty(data))
  }

  /** Without data the two are the same bytes. */
  lemma RequestBytesWithoutData(opcode: int, key: Option<string>, ext: Option<seq<byte>>, reserved: int, tag: int)
    ensures RequestBytes(opcode, key, ext, reserved, tag, None)
         == RequestBytesAsWritten(opcode, key, ext, reserved, tag, None)
  {
    assert StrBytes("") == [];
  }

  /** A request packed as the source does it with data is never decoded: it
      announces more body bytes than the buffer holds. */
  lemma PackRequestAsWrittenLosesData(opcode: int, key: Option<string>, ext: Option<seq<byte>>,
                                      reserved: int, tag: int, data: Option<string>)
    requires |OrEmpty(data)| > 0
    requires |OrEmpty(key)| + |OrNoBytes(ext)| + |OrEmpty(data)| < 4294967296
    ensures UnpackMsgStr(AsString(RequestBytesAsWritten(opcode, key, ext, reserved, tag, data)), 0).None?
    ensures UnpackMsgStrAsWritten(AsString(RequestBytesAsWritten(opcode, key, ext, reserved, tag, data)), 0).None?
  {
    var k, x, d := OrEmpty(key), OrNoBytes(ext), OrEmpty(data);
    var bodylen := |k| + |x| + |d|;
    var h := HeaderBytes(REQ_MAGIC_BYTE, opcode, |k|, |x|, 0, reserved, bodylen, tag);
    var b := RequestBytesAsWritten(opcode, key, ext, reserved, tag, data);
    assert b == h + (x + StrBytes(k));
    HeaderBytesAt(REQ_MAGIC_BYTE, opcode, |k|, |x|, 0, reserved, bodylen, tag);
    assert forall j :: 0 <= j < 4 ==> b[8 + j] == U32(bodylen)[j] by {
      forall j | 0 <= j < 4 ensures b[8 + j] == U32(bodylen)[j] {
        assert b[8 + j] == h[8 + j];
      }
    }
    U32Read(b, 8, bodylen);
    StrBytesOfAsString(b);
    FrameIncomplete(AsString(b), 0);
  }

  /** A frame whose body has not all arrived is not decoded, either way. */
  lemma FrameIncomplete(s: string, start: nat)
    requires SIZEOF_HEADER <= |s| - start < SIZEOF_HEADER + UnpackHeader(StrBytes(s), start).value.bodylen
    ensures UnpackMsgStr(s, start).None? && UnpackMsgStrAsWritten(s, start).None?
  {
  }

  predicate RequestFieldsFit(opcode: int, key: Option<string>, ext: Option<seq<byte>>,
                             reserved: int, tag: int, data: Option<string>) {
    var k, x, d := OrEmpty(key), OrNoBytes(ext), OrEmpty(data);
    && HeaderFieldsFit(REQ_MAGIC_BYTE, opcode, |k|, |x|, reserved, |k| + |x| + |d|, tag)
    && IsBinary(k) && IsBinary(d)
  }

  /** The header a request carries. */
  function RequestHeader(opcode: int, key: Option<string>, ext: Option<seq<byte>>,
                         reserved: int, tag: int, data: Option<string>): Header
    requires RequestFieldsFit(opcode, key, ext, reserved, tag, data)
  {
    var k, x, d := OrEmpty(key), OrNoBytes(ext), OrEmpty(data);
    Header(REQ_MAGIC_BYTE, opcode, |k|, |x|, reserved, |k| + |x| + |d|, tag, |d|)
  }

  /** The message a request carries: a part is absent when it is empty. */
  function RequestMsg(opcode: int, key: Option<string>, ext: Option<seq<byte>>,
                      reserved: int, tag: int, data: Option<string>): Msg
    requires RequestFieldsFit(opcode, key, ext, reserved, tag, data)
  {
    var k, x, d := OrEmpty(key), OrNoBytes(ext), OrEmpty(data);
    Msg(RequestHeader(opcode, key, ext, reserved, tag, data),
        if |x| > 0 then Some(AsString(x)) else None,
        if |k| > 0 then Some(k) else None,
        if |d| > 0 then Some(d) else None)
  }

  /** A request decodes to its opcode, fields, extras, key and data. */
  lemma PackRequestRoundTrip(opcode: int, key: Option<string>, ext: Option<seq<byte>>,
                             reserved: int, tag: int, data: Option<string>)
    requires RequestFieldsFit(opcode, key, ext, reserved, tag, data)
    ensures UnpackMsgStr(AsString(RequestBytes(opcode, key, ext, reserved, tag, data)), 0)
         == Some(RequestMsg(opcode, key, ext, reserved, tag, data))
  {
    var s := AsString(RequestBytes(opcode, key, ext, reserved, tag, data));
    var hd := RequestHeader(opcode, key, ext, reserved, tag, data);
    RequestHeaderDecodes(opcode, key, ext, reserved, tag, data);
    RequestPartsDecode(opcode, key, ext, reserved, tag, data);
    WholeFrame(s, hd);
  }

  /** A string that is exactly one frame decodes to the parts sliced from it. */
  lemma WholeFrame(s: string, hd: Header)
    requires UnpackHeaderStr(s, 0) == Some(hd) && |s| == SIZEOF_HEADER + hd.bodylen
    ensures UnpackMsgStr(s, 0) == Some(Parts(s, 0, hd))
  {
    FrameComplete(s, 0);
    assert s[..SIZEOF_HEADER + hd.bodylen] == s;
  }

  lemma RequestHeaderDecodes(opcode: int, key: Option<string>, ext: Option<seq<byte>>,
                             reserved: int, tag: int, data: Option<string>)
    requires RequestFieldsFit(opcode, key, ext, reserved, tag, data)
    ensures var s := AsString(RequestBytes(opcode, key, ext, reserved, tag, data));
      var hd := RequestHeader(opcode, key, ext, reserved, tag, data);
      UnpackHeaderStr(s, 0) == Some(hd) && |s| == SIZEOF_HEADER + hd.bodylen
  {
    var k, x, d := OrEmpty(key), OrNoBytes(ext), OrEmpty(data);
    var bodylen := |k| + |x| + |d|;
    var h := HeaderBytes(REQ_MAGIC_BYTE, opcode, |k|, |x|, 0, reserved, bodylen, tag);
    var rest := x + StrBytes(k) + StrBytes(d);
    var b := RequestBytes(opcode, key, ext, reserved, tag, data);
    Assoc4(h, x, StrBytes(k), StrBytes(d));
    HeaderRoundTrip(REQ_MAGIC_BYTE, opcode, |k|, |x|, 0, reserved, bodylen, tag, rest);
    HeaderStrOf(b, RequestHeader(opcode, key, ext, reserved, tag, data));
  }

  /** A header read from a buffer is read from its 'binary' string once the body is there. */
  lemma HeaderStrOf(b: seq<byte>, hd: Header)
    requires UnpackHeader(b, 0) == Some(hd) && |b| >= SIZEOF_HEADER + hd.bodylen
    ensures UnpackHeaderStr(AsString(b), 0) == Some(hd)
  {
    StrBytesOfAsString(b);
  }

  lemma Assoc4(h: seq<byte>, x: seq<byte>, y: seq<byte>, z: seq<byte>)
    ensures h + x + y + z == h + (x + y + z)
  {
  }

  lemma RequestPartsDecode(opcode: int, key: Option<string>, ext: Option<seq<byte>>,
                           reserved: int, tag: int, data: Option<string>)
    requires RequestFieldsFit(opcode, key, ext, reserved, tag, data)
    ensures Parts(AsString(RequestBytes(opcode, key, ext, reserved, tag, data)), 0, RequestHeader(opcode, key, ext, reserved, tag, data))
         == RequestMsg(opcode, key, ext, reserved, tag, data)
  {
    var k, x, d := OrEmpty(key), OrNoBytes(ext), OrEmpty(data);
    var h := HeaderBytes(REQ_MAGIC_BYTE, opcode, |k|, |x|, 0, reserved, |k| + |x| + |d|, tag);
    PartsOfLayout(RequestBytes(opcode, key, ext, reserved, tag, data), RequestHeader(opcode, key, ext, reserved, tag, data),
                  h, x, k, d);
  }

  /** The parts of a buffer laid out as header, extras, key and data. */
  lemma PartsOfLayout(b: seq<byte>, hd: Header, h: seq<byte>, x: seq<byte>, k: string, d: string)
    requires |h| == SIZEOF_HEADER && b == h + x + StrBytes(k) + StrBytes(d)
    requires IsBinary(k) && IsBinary(d)
    requires hd.extlen == |x| && hd.keylen == |k| && hd.datalen == |d|
    ensures Parts(AsString(b), 0, hd)
         == Msg(hd, if |x| > 0 then Some(AsString(x)) else None,
                    if |k| > 0 then Some(k) else None,
                    if |d| > 0 then Some(d) else None)
  {
    var e, kk, dd := SIZEOF_HEADER, SIZEOF_HEADER + |x|, SIZEOF_HEADER + |x| + |k|;
    assert b[e..kk] == x && b[kk..dd] == StrBytes(k) && b[dd..dd + |d|] == StrBytes(d);
    AsStringSlice(b, e, kk);
    AsStringSlice(b, kk, dd);
    AsStringSlice(b, dd, dd + |d|);
    AsStringOfStrBytes(k);
    AsStringOfStrBytes(d);
  }

  /** With the count 1 and an empty body, the as-written decoder takes the
      key from the next frame: alone the header yields the key "", followed
      by "z" it yields "z". The corrected decoder yields "" both times. */
  lemma UnpackMsgStrAsWrittenReadsPastFrame()
    ensures var h := AsString(HeaderBytes(REQ_MAGIC_BYTE, CMD_TAP_MUTATION, 1, 0, 0, 0, 0, 0));
      && UnpackMsgStrAsWritten(h, 0).Some? && UnpackMsgStrAsWritten(h, 0).value.key == Some("")
      && UnpackMsgStrAsWritten(h + "z", 0).Some? && UnpackMsgStrAsWritten(h + "z", 0).value.key == Some("z")
      && UnpackMsgStr(h + "z", 0) == UnpackMsgStr(h, 0) && UnpackMsgStr(h, 0).value.key == Some("")
  {
    var hb := HeaderBytes(REQ_MAGIC_BYTE, CMD_TAP_MUTATION, 1, 0, 0, 0, 0, 0);
    var h := AsString(hb);
    StrBytesOfAsString(hb);
    HeaderRoundTrip(REQ_MAGIC_BYTE, CMD_TAP_MUTATION, 1, 0, 0, 0, 0, 0, []);
    assert hb + [] == hb;
    StrBytesAppend(h, "z");
    HeaderRoundTrip(REQ_MAGIC_BYTE, CMD_TAP_MUTATION, 1, 0, 0, 0, 0, 0, StrBytes("z"));
    assert (h + "z")[24..25] == "z";
    UnpackMsgStrPrefixStable(h, "z");
  }

  /** One more byte of `src` written at `at + i` extends the copied prefix. */
  lemma WriteStep(o: seq<byte>, at: nat, src: seq<byte>, i: nat, b: seq<byte>)
    requires i < |src| && at + |src| <= |o|
    requires b == (o[..at] + src[..i] + o[at + i..])[at + i := src[i]]
    ensures b == o[..at] + src[..i + 1] + o[at + i + 1..]
  {
    assert src[..i + 1] == src[..i] + [src[i]];
  }

  /** `ext.copy(b, at)`. */
  method CopyInto(b: array<byte>, at: nat, src: seq<byte>)
    requires at + |src| <= b.Length
    modifies b
    ensures b[..] == old(b[..])[..at] + src + old(b[..])[at + |src|..]
  {
    ghost var o := b[..];
    for i := 0 to |src|
      invariant b[..] == o[..at] + src[..i] + o[at + i..]
    {
      b[at + i] := src[i];
      WriteStep(o, at, src, i, b[..]);
    }
    assert src[..|src|] == src;
  }

  /** The loop `b[at + i] = s.charCodeAt(i)`. */
  method WriteChars(b: array<byte>, at: nat, s: string)
    requires at + |s| <= b.Length
    modifies b
    ensures b[..] == old(b[..])[..at] + StrBytes(s) + old(b[..])[at + |s|..]
  {
    ghost var o := b[..];
    for i := 0 to |s|
      invariant b[..] == o[..at] + StrBytes(s)[..i] + o[at + i..]
    {
      b[at + i] := Low(s[i] as int);
      WriteStep(o, at, StrBytes(s), i, b[..]);
    }
    assert StrBytes(s)[..|s|] == StrBytes(s);
  }

  /** The writes of `packRequest` after the header: the extras, then the key. */
  method WriteExtAndKey(b: array<byte>, x: seq<byte>, k: string)
    requires SIZEOF_HEADER + |x| + |k| <= b.Length
    modifies b
    ensures b[..] == old(b[..])[..SIZEOF_HEADER] + x + StrBytes(k) + old(b[..])[SIZEOF_HEADER + |x| + |k|..]
  {
    ghost var b0 := b[..];
    CopyInto(b, SIZEOF_HEADER, x);
    ghost var b1 := b[..];
    WriteChars(b, SIZEOF_HEADER + |x|, k);
    Splice2(b0, b1, b[..], SIZEOF_HEADER, x, StrBytes(k));
  }

  /** Two writes side by side. */
  lemma Splice2(b0: seq<byte>, b1: seq<byte>, b2: seq<byte>, at: nat, x: seq<byte>, y: seq<byte>)
    requires at + |x| + |y| <= |b0|
    requires b1 == b0[..at] + x + b0[at + |x|..]
    requires b2 == b1[..at + |x|] + y + b1[at + |x| + |y|..]
    ensures b2 == b0[..at] + x + y + b0[at + |x| + |y|..]
  {
    assert b1[..at + |x|] == b0[..at] + x;
    assert b1[at + |x| + |y|..] == b0[at + |x| + |y|..];
  }

  /** `packRequest(opcode, key, ext, reserved, opaque, data)` as the source writes it. */
  method PackRequestAsWritten(opcode: int, key: Option<string>, ext: Option<seq<byte>>,
                              reserved: int, tag: int, data: Option<string>) returns (b: array<byte>)
    ensures fresh(b) && b[..] == RequestBytesAsWritten(opcode, key, ext, reserved, tag, data)
  {
    var k, x, d := OrEmpty(key), OrNoBytes(ext), OrEmpty(data);
    b := PackHeader(REQ_MAGIC_BYTE, opcode, |k|, |x|, 0, reserved, |k| + |x| + |d|, tag);
    WriteExtAndKey(b, x, k);
    assert b[..] == b[..SIZEOF_HEADER + |x| + |k|];
  }

  /** `packRequest` with the buffer sized by the body length and the data
      written after the key. */
  method PackRequest(opcode: int, key: Option<string>, ext: Option<seq<byte>>,
                     reserved: int, tag: int, data: Option<string>) returns (b: array<byte>)
    ensures fresh(b) && b[..] == RequestBytes(opcode, key, ext, reserved, tag, data)
  {
    var k, x, d := OrEmpty(key), OrNoBytes(ext), OrEmpty(data);
    b := new byte[SIZEOF_HEADER + |x| + |k| + |d|];
    WriteHeader(b, REQ_MAGIC_BYTE, opcode, |k|, |x|, 0, reserved, |k| + |x| + |d|, tag);
    WriteExtAndKey(b, x, k);
    ghost var b1 := b[..];
    WriteChars(b, SIZEOF_HEADER + |x| + |k|, d);
    LastWrite(b1, b[..], SIZEOF_HEADER + |x| + |k|, StrBytes(d));
    RequestBytesAre(b[..], b1[..SIZEOF_HEADER], opcode, key, ext, reserved, tag, data);
  }

  /** A write that reaches the end of the buffer leaves what was before it and itself. */
  lemma LastWrite(b1: seq<byte>, b2: seq<byte>, at: nat, y: seq<byte>)
    requires at + |y| == |b1|
    requires b2 == b1[..at] + y + b1[at + |y|..]
    ensures b2 == b1[..at] + y
  {
    assert b1[at + |y|..] == [];
  }

  /** The bytes of a request, from its header and its three parts. */
  lemma RequestBytesAre(b: seq<byte>, h: seq<byte>, opcode: int, key: Option<string>, ext: Option<seq<byte>>,
                        reserved: int, tag: int, data: Option<string>)
    requires var k, x, d := OrEmpty(key), OrNoBytes(ext), OrEmpty(data);
      && h == HeaderBytes(REQ_MAGIC_BYTE, opcode, |k|, |x|, 0, reserved, |k| + |x| + |d|, tag)
      && b == h + x + StrBytes(k) + StrBytes(d)
    ensures b == RequestBytes(opcode, key, ext, reserved, tag, data)
  {
  }
}
