/** The tap client of tap.js: the reframer that `makeResponseProcessor`
    builds over a binary-encoded stream, the TAP_CONNECT request sent on
    connect, and the `emit` formatter that prints a text `set` command.
    The stream's bytes arrive as a string whose characters are bytes. */
module Tap {
  import opened Base
  import opened Text
  import opened Mc
  import opened ItemsHt
  import opened ServerAscii

  // ------------------------------------------------------------ reframing

  /** Reads a message from the start of a string, or finds none there yet. */
  type Decoder = string -> Option<Msg>

  /** How far the cursor moves past a message: `SIZEOF_HEADER + res.bodylen`. */
  function Len(m: Msg): nat {
    SIZEOF_HEADER + m.header.bodylen
  }

  /** The decoder never reaches past the text it is given. */
  ghost predicate Fits(dec: Decoder) {
    forall x :: dec(x).Some? ==> Len(dec(x).value) <= |x|
  }

  /** A message once found is found the same whatever follows it. */
  ghost predicate PrefixStable(dec: Decoder) {
    forall x, y :: dec(x).Some? ==> dec(x + y) == dec(x)
  }

  /** The message `m` in front of what follows it, if it is one that is passed on. */
  function Cons(m: Msg, r: (seq<Msg>, string)): (seq<Msg>, string) {
    (if m.header.opcode == CMD_TAP_MUTATION then [m] + r.0 else r.0, r.1)
  }

  /** The loop of the response processor over `s` with the decoder `dec`:
      the complete messages from the start, in order, of which only the
      TAP_MUTATION ones are passed on, and the tail from the first place
      where no complete message is found yet. */
  function Reframe(dec: Decoder, s: string): (seq<Msg>, string)
    requires Fits(dec)
    decreases |s|
  {
    if s == "" then ([], "")
    else match dec(s)
      case None => ([], s)
      case Some(m) => Cons(m, Reframe(dec, s[Len(m)..]))
  }

  /** What is passed on is TAP_MUTATION messages only, and what is kept is a
      tail of the input that is empty or holds no complete message. */
  lemma {:induction false} ReframeLeftover(dec: Decoder, s: string)
    requires Fits(dec)
    ensures var r := Reframe(dec, s);
      && |r.1| <= |s| && r.1 == s[|s| - |r.1|..]
      && (r.1 == "" || dec(r.1).None?)
      && forall i :: 0 <= i < |r.0| ==> r.0[i].header.opcode == CMD_TAP_MUTATION
    decreases |s|
  {
    if s != "" && dec(s).Some? {
      var m := dec(s).value;
      var t := s[Len(m)..];
      ReframeLeftover(dec, t);
      var tail := Reframe(dec, t);
      assert t[|t| - |tail.1|..] == s[|s| - |tail.1|..];
    }
  }

  /** One turn of the loop: a complete message at the cursor. */
  lemma ReframeStep(dec: Decoder, s: string, m: Msg)
    requires Fits(dec) && s != "" && dec(s) == Some(m)
    ensures Len(m) <= |s|
    ensures Reframe(dec, s) == Cons(m, Reframe(dec, s[Len(m)..]))
  {
  }

  /** Reframing does not depend on how the input is cut: reading `s`, then
      `b` after the tail `s` left, passes on the same messages in the same
      order and leaves the same tail as reading `s + b` at once. */
  lemma {:induction false} ReframeAppend(dec: Decoder, s: string, b: string)
    requires Fits(dec) && PrefixStable(dec)
    ensures Reframe(dec, s + b).0 == Reframe(dec, s).0 + Reframe(dec, Reframe(dec, s).1 + b).0
    ensures Reframe(dec, s + b).1 == Reframe(dec, Reframe(dec, s).1 + b).1
    decreases |s|
  {
    if s == "" {
      assert s + b == b;
    } else if dec(s).Some? {
      var m := dec(s).value;
      var t := s[Len(m)..];
      ReframeAppendHead(dec, s, b);
      ReframeAppend(dec, t, b);
      ConsJoin(m, Reframe(dec, t), Reframe(dec, Reframe(dec, t).1 + b).0);
    }
  }

  /** The message at the front of `s` is also at the front of `s + b`. */
  lemma ReframeAppendHead(dec: Decoder, s: string, b: string)
    requires Fits(dec) && PrefixStable(dec) && s != "" && dec(s).Some?
    ensures var m := dec(s).value;
      && Len(m) <= |s|
      && Reframe(dec, s) == Cons(m, Reframe(dec, s[Len(m)..]))
      && Reframe(dec, s + b) == Cons(m, Reframe(dec, s[Len(m)..] + b))
  {
    var m := dec(s).value;
    ReframeStep(dec, s, m);
    assert dec(s + b) == Some(m);
    ReframeStep(dec, s + b, m);
    assert (s + b)[Len(m)..] == s[Len(m)..] + b;
  }

  lemma ConsJoin(m: Msg, p: (seq<Msg>, string), q: seq<Msg>)
    ensures Cons(m, p).0 + q == Cons(m, (p.0 + q, p.1)).0 && Cons(m, p).1 == p.1
  {
    if m.header.opcode == CMD_TAP_MUTATION {
      assert ([m] + p.0) + q == [m] + (p.0 + q);
    }
  }

  /** A whole message followed by `t`: the message, then what `t` gives. */
  lemma ReframeWhole(dec: Decoder, f: string, t: string)
    requires Fits(dec) && PrefixStable(dec)
    requires dec(f).Some? && Len(dec(f).value) == |f|
    ensures Reframe(dec, f + t) == Cons(dec(f).value, Reframe(dec, t))
  {
    var m := dec(f).value;
    assert dec(f + t) == Some(m);
    ReframeStep(dec, f + t, m);
    assert (f + t)[Len(m)..] == t;
  }

  /** The decoder at the cursor: the corrected `Mc.UnpackMsgStr`, which cuts
      the parts inside the frame, on the text from the cursor on. The
      source's `mc.unpackMsgStr(msg, cur)` (`Mc.UnpackMsgStrAsWritten`) agrees
      with it whenever key and extras fit in the body
      (`Mc.UnpackMsgStrAgreesWhenPartsFit`). */
  function MsgAt(s: string): Option<Msg> {
    UnpackMsgStr(s, 0)
  }

  lemma MsgAtFits()
    ensures Fits(MsgAt)
  {
  }

  lemma MsgAtPrefixStable()
    ensures PrefixStable(MsgAt)
  {
    forall x, y | MsgAt(x).Some?
      ensures MsgAt(x + y) == MsgAt(x)
    {
      UnpackMsgStrPrefixStable(x, y);
    }
  }

  /** What the response processor of the tap stream makes of the text `s`. */
  function Frames(s: string): (seq<Msg>, string) {
    MsgAtFits();
    Reframe(MsgAt, s)
  }

  /** The processor passes on TAP_MUTATION messages only and keeps a tail
      of its input that is empty or does not yet hold a complete message. */
  lemma FramesLeftover(s: string)
    ensures var r := Frames(s);
      && |r.1| <= |s| && r.1 == s[|s| - |r.1|..]
      && (r.1 == "" || UnpackMsgStr(r.1, 0).None?)
      && forall i :: 0 <= i < |r.0| ==> r.0[i].header.opcode == CMD_TAP_MUTATION
  {
    MsgAtFits();
    ReframeLeftover(MsgAt, s);
  }

  /** The chunking invariant of the processor, for the tap stream. */
  lemma FramesAppend(s: string, b: string)
    ensures Frames(s + b).0 == Frames(s).0 + Frames(Frames(s).1 + b).0
    ensures Frames(s + b).1 == Frames(Frames(s).1 + b).1
  {
    MsgAtFits();
    MsgAtPrefixStable();
    ReframeAppend(MsgAt, s, b);
  }

  /** A string holding exactly one message, header and body. */
  predicate CompleteFrame(f: string) {
    UnpackMsgStr(f, 0).Some? && |f| == SIZEOF_HEADER + UnpackMsgStr(f, 0).value.header.bodylen
  }

  /** The message of a complete frame, if it is one the processor passes on. */
  function Passed(f: string): seq<Msg>
    requires CompleteFrame(f)
  {
    var m := UnpackMsgStr(f, 0).value;
    if m.header.opcode == CMD_TAP_MUTATION then [m] else []
  }

  /** The cursor moves past a complete frame by exactly its length: its
      message comes first, and the rest of the stream is read on from there. */
  lemma FramesOfFrame(f: string, t: string)
    requires CompleteFrame(f)
    ensures Frames(f + t).0 == Passed(f) + Frames(t).0
    ensures Frames(f + t).1 == Frames(t).1
  {
    MsgAtFits();
    MsgAtPrefixStable();
    ReframeWhole(MsgAt, f, t);
  }

  function AllPassed(fs: seq<string>): seq<Msg>
    requires forall i :: 0 <= i < |fs| ==> CompleteFrame(fs[i])
    decreases |fs|
  {
    if fs == [] then [] else Passed(fs[0]) + AllPassed(fs[1..])
  }

  /** A stream made of whole frames passes on their mutations in stream
      order, each once, and leaves nothing over. */
  lemma {:induction false} FramesOfWholeFrames(fs: seq<string>)
    requires forall i :: 0 <= i < |fs| ==> CompleteFrame(fs[i])
    ensures Frames(Concat(fs)) == (AllPassed(fs), "")
    decreases |fs|
  {
    if fs != [] {
      FramesOfWholeFrames(fs[1..]);
      FramesOfFrame(fs[0], Concat(fs[1..]));
    }
  }

  /** A request packed by `PackRequest` is one complete frame, and a mutation
      is passed on with its key and data. */
  lemma PackedRequestIsFrame(opcode: int, key: Option<string>, ext: Option<seq<byte>>,
                             reserved: int, tag: int, data: Option<string>)
    requires RequestFieldsFit(opcode, key, ext, reserved, tag, data)
    ensures var f := AsString(RequestBytes(opcode, key, ext, reserved, tag, data));
      && CompleteFrame(f)
      && (opcode == CMD_TAP_MUTATION <==> |Passed(f)| == 1)
      && (opcode == CMD_TAP_MUTATION ==>
            && Passed(f)[0].key == (if |OrEmpty(key)| > 0 then key else None)
            && Passed(f)[0].data == (if |OrEmpty(data)| > 0 then data else None))
  {
    PackRequestRoundTrip(opcode, key, ext, reserved, tag, data);
  }

  /** The closure of `makeResponseProcessor`: the `leftOver` it keeps
      between `data` events, and the decoder it calls at the cursor, which
      for the tap stream is the corrected decoder `MsgAt` (by
      `UnpackMsgStrShift`, decoding at `cur` is `MsgAt(msg[cur..])`).
      The source's `null` is the empty string here; the source never saves
      an empty tail. */
  class ResponseProcessor {
    const decode: Decoder
    var leftOver: string

    ghost predicate Valid() {
      Fits(decode)
    }

    constructor()
      ensures Valid() && decode == MsgAt && leftOver == ""
    {
      MsgAtFits();
      decode := MsgAt;
      leftOver := "";
    }

    /** One `data` event: the messages handed to the action callback, in
        order, and the tail kept for the next event. */
    method OnData(chunk: string) returns (mutations: seq<Msg>)
      requires Valid()
      modifies this
      ensures Valid()
      ensures mutations == Reframe(decode, old(leftOver) + chunk).0
      ensures leftOver == Reframe(decode, old(leftOver) + chunk).1
    {
      var msg := leftOver + chunk;
      leftOver := "";
      var cur := 0;
      mutations := [];
      assert msg[cur..] == msg && mutations + Reframe(decode, msg).0 == Reframe(decode, msg).0;
      while cur < |msg|
        invariant cur <= |msg| && leftOver == ""
        invariant Reframe(decode, msg) == (mutations + Reframe(decode, msg[cur..]).0, Reframe(decode, msg[cur..]).1)
        decreases |msg| - cur
      {
        var res := decode(msg[cur..]);
        if res.None? {
          leftOver := msg[cur..];
          return;
        }
        var m := res.value;
        ReframeStep(decode, msg[cur..], m);
        ghost var after := Reframe(decode, msg[cur + Len(m)..]);
        assert msg[cur..][Len(m)..] == msg[cur + Len(m)..];
        if m.header.opcode == CMD_TAP_MUTATION {
          assert (mutations + [m]) + after.0 == mutations + ([m] + after.0);
          mutations := mutations + [m];
        }
        cur := cur + SIZEOF_HEADER + m.header.bodylen;
      }
      assert msg[cur..] == "";
    }
  }

  /** A tap stream's processor passes on what `Frames` gives. */
  lemma TapProcessorIsFrames(p: ResponseProcessor, s: string)
    requires p.decode == MsgAt
    ensures Fits(p.decode) && Reframe(p.decode, s) == Frames(s)
  {
    MsgAtFits();
  }

  // ------------------------------------------------------------ connect

  /** The request `tapStream` writes on connect: TAP_CONNECT, no key, no
      data, and four extra bytes holding the DUMP flag in network order. */
  function ConnectBytes(): seq<byte> {
    RequestBytes(CMD_TAP_CONNECT, None, Some(U32(TAP_CONNECT_FLAG_DUMP)), 0, 0, None)
  }

  /** The connect request is 28 bytes: a request header for TAP_CONNECT with
      four bytes of extras and a body of four, then the flags 0, 0, 0, 2.
      It decodes to exactly that, and the source's packing writes the same bytes. */
  lemma ConnectRequestContents()
    ensures var b := ConnectBytes();
      && |b| == 28 && b[0] == 0x80 && b[1] == 0x40 && b[24..] == [0, 0, 0, 2]
      && UnpackMsgStr(AsString(b), 0)
         == Some(Msg(Header(REQ_MAGIC_BYTE, CMD_TAP_CONNECT, 0, 4, 0, 4, 0, 0),
                     Some(AsString([0, 0, 0, 2])), None, None))
      && b == RequestBytesAsWritten(CMD_TAP_CONNECT, None, Some(U32(TAP_CONNECT_FLAG_DUMP)), 0, 0, None)
  {
    var x := U32(TAP_CONNECT_FLAG_DUMP);
    assert x == [0, 0, 0, 2];
    PackRequestRoundTrip(CMD_TAP_CONNECT, None, Some(x), 0, 0, None);
    RequestBytesWithoutData(CMD_TAP_CONNECT, None, Some(x), 0, 0);
  }

  /** The `connect` listener: fill `bufExt` and pack the request. */
  method ConnectRequest() returns (req: array<byte>)
    ensures fresh(req) && req[..] == ConnectBytes()
  {
    var bufExt := new byte[4];
    Htonl(bufExt, 0, TAP_CONNECT_FLAG_DUMP);
    assert bufExt[..] == U32(TAP_CONNECT_FLAG_DUMP);
    req := PackRequest(CMD_TAP_CONNECT, None, Some(bufExt[..]), 0, 0, None);
  }

  // ------------------------------------------------------------ emit

  /** What `emit(key, value)` prints: a text-protocol `set` with flags 0,
      expiration 0 and the value's length; a missing value is empty. */
  function SetCommandText(key: string, value: Option<string>): string {
    var v := OrEmpty(value);
    "set " + key + " 0 0 " + NatToString(|v|) + CRLF + v + CRLF
  }

  /** Standard output, as the text printed so far. */
  class Console {
    var printed: string

    constructor()
      ensures printed == ""
    {
      printed := "";
    }

    method Print(s: string)
      modifies this
      ensures printed == old(printed) + s
    {
      printed := printed + s;
    }
  }

  /** `emit(key, value)`, printing piece by piece. */
  method Emit(console: Console, key: string, value: Option<string>)
    modifies console
    ensures console.printed == old(console.printed) + SetCommandText(key, value)
  {
    var v := OrEmpty(value);
    ghost var p := console.printed;
    console.Print("set ");
    console.Print(key);
    console.Print(" 0 0 " + NatToString(|v|));
    console.Print(CRLF);
    console.Print(v);
    console.Print(CRLF);
    PrintedInOrder(p, "set ", key, " 0 0 ", NatToString(|v|), CRLF, v, CRLF);
  }

  /** Text printed piece by piece is the pieces joined in order. */
  lemma PrintedInOrder(p: string, a: string, b: string, c: string, n: string, d: string, e: string, f: string)
    ensures p + a + b + (c + n) + d + e + f == p + (a + b + c + n + d + e + f)
  {
  }

  /** The text `emit` prints is one complete `set` for the text server:
      fed to a connection between commands it stores the value under the
      key with flags "0", answers STORED, touches no other key, and leaves
      the connection waiting for the next line. The key must be one word
      of one line. */
  lemma EmitIsStored(s: Session, key: string, value: Option<string>)
    requires s.leftOver == "" && s.handler == AwaitLine
    requires ' ' !in key && '\r' !in key
    ensures var r := Feed(s, SetCommandText(key, value));
      && Get(r.table, key) == Some(Item(key, "0", Some(0), OrEmpty(value)))
      && (forall k :: k != key ==> Get(r.table, k) == Get(s.table, k))
      && r.nitems == (if Get(s.table, key).None? then s.nitems + 1 else s.nitems)
      && r.out == s.out + [Data(STORED)]
      && r.leftOver == "" && r.handler == AwaitLine
  {
    var v := OrEmpty(value);
    var item := Item(key, "0", Some(0), "");
    var s0 := s.(leftOver := "");
    EmitRunsSet(s, key, value);
    assert Feed(s, SetCommandText(key, value)) == CommitValue(s0, Set, item.(val := v));
  }

  /** Feeding the text `emit` prints runs one `set` to completion. */
  lemma EmitRunsSet(s: Session, key: string, value: Option<string>)
    requires s.leftOver == "" && s.handler == AwaitLine
    requires ' ' !in key && '\r' !in key
    ensures Feed(s, SetCommandText(key, value))
         == CommitValue(s.(leftOver := ""), Set, Item(key, "0", Some(0), OrEmpty(value)))
  {
    var v := OrEmpty(value);
    var line := "set " + key + " 0 0 " + NatToString(|v|);
    var data := SetCommandText(key, value);
    var s0 := s.(leftOver := "");
    var item := Item(key, "0", Some(0), "");
    assert data == line + CRLF + (v + CRLF);
    FeedLine(s, data);
    LineHasNoCr(key, NatToString(|v|));
    FirstLine(s0, line, v + CRLF);
    SetLineRequest(key, |v|);
    DispatchValue(s0, line, v + CRLF, Set, item, |v|);
    ValueThenEnd(s0, item, v);
  }

  /** Between commands, a chunk goes to `new_cmd` whole. */
  lemma FeedLine(s: Session, chunk: string)
    requires s.leftOver == "" && s.handler == AwaitLine
    ensures Feed(s, chunk) == Run(s.(leftOver := ""), chunk)
  {
    assert s.leftOver + chunk == chunk;
  }

  /** A mutation line starts reading its value from what follows the line. */
  lemma DispatchValue(s: Session, line: string, rest: string, cmd: ValueCmd, item: Item, n: nat)
    requires ParseLine(line) == Value(cmd, item, n)
    ensures Dispatch(s, line, rest) == ReadMoreStep(s, cmd, item, n, rest)
  {
  }

  /** A line without CR, then CR LF, is dispatched whole with the rest after it. */
  lemma FirstLine(s: Session, line: string, rest: string)
    requires '\r' !in line
    ensures Run(s, line + CRLF + rest) == Dispatch(s, line, rest)
  {
    var data := line + CRLF + rest;
    EndOfLine(line, rest);
    assert data[..|line|] == line && data[|line| + 2..] == rest;
  }

  /** The value and its CR LF complete the read and nothing follows. */
  lemma ValueThenEnd(s: Session, item: Item, v: string)
    ensures ReadMoreStep(s, Set, item, |v|, v + CRLF) == CommitValue(s, Set, item.(val := v))
  {
    var rest := v + CRLF;
    assert rest[..|v|] == v && rest[|v| + 2..] == "";
    assert ReadValue(rest, |v|) == Some((v, ""));
  }

  /** The request line `emit` prints is a `set` of the key with flags "0",
      expiration 0 and the value's length. */
  lemma SetLineRequest(key: string, len: nat)
    requires ' ' !in key && '\r' !in key
    ensures ParseLine("set " + key + " 0 0 " + NatToString(len)) == Value(Set, Item(key, "0", Some(0), ""), len)
  {
    var n := NatToString(len);
    SetLineParses(key, n);
    ParseIntOfNatToString(len);
    assert "0" == NatToString(0);
    ParseIntOfNatToString(0);
  }

  lemma LineHasNoCr(key: string, n: string)
    requires '\r' !in key
    requires forall i :: 0 <= i < |n| ==> IsDigit(n[i])
    ensures '\r' !in "set " + key + " 0 0 " + n
  {
    var line := "set " + key + " 0 0 " + n;
    forall j | 0 <= j < |line|
      ensures line[j] != '\r'
    {
      if j >= |line| - |n| {
        assert line[j] == n[j - (|line| - |n|)];
      } else if 4 <= j < 4 + |key| {
        assert line[j] == key[j - 4];
      }
    }
  }

  /** The first line ends where a line without CR is followed by CR LF. */
  lemma EndOfLine(line: string, rest: string)
    requires '\r' !in line
    ensures FindCrlf(line + CRLF + rest) == Some(|line|)
  {
    var d := line + CRLF + rest;
    assert CrlfAt(d, |line|);
    forall j | 0 <= j < |line|
      ensures !CrlfAt(d, j)
    {
      assert d[j] == line[j];
    }
  }

  /** `split(' ')` of the line `emit` prints. */
  lemma SetLineParses(key: string, n: string)
    requires ' ' !in key
    requires forall i :: 0 <= i < |n| ==> IsDigit(n[i])
    ensures Split("set " + key + " 0 0 " + n, ' ') == ["set", key, "0", "0", n]
  {
    var parts := ["set", key, "0", "0", n];
    SetLineJoin(key, n);
    assert ' ' !in n by {
      forall i | 0 <= i < |n| ensures n[i] != ' ' {
        assert IsDigit(n[i]);
      }
    }
    forall i | 0 <= i < |parts|
      ensures ' ' !in parts[i]
    {
      if i == 0 { assert parts[0] == "set"; }
    }
    SplitJoinWith(parts, ' ');
  }

  lemma SetLineJoin(key: string, n: string)
    ensures JoinWith(["set", key, "0", "0", n], ' ') == "set " + key + " 0 0 " + n
  {
    var parts := ["set", key, "0", "0", n];
    JoinStep(parts, ' ');
    JoinStep(parts[1..], ' ');
    JoinStep(parts[2..], ' ');
    JoinStep(parts[3..], ' ');
    assert parts[1..][1..] == parts[2..] && parts[2..][1..] == parts[3..];
    assert parts[3..][1..] == [n];
  }

  lemma JoinStep(parts: seq<string>, sep: char)
    requires |parts| >= 2
    ensures JoinWith(parts, sep) == parts[0] + [sep] + JoinWith(parts[1..], sep)
  {
  }
}
