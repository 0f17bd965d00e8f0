/** The per-connection closure of `mkServer` in server_ascii.js as objects:
    the shared server context, the socket it writes to, and the connection
    with its `leftOver`, `handler` and `emitQueue`. Each event handler is
    proved to move the connection exactly as the functions of `ServerAscii`
    say, and to lose no output while writes are backed up. */
module ServerConnection {
  import opened Base
  import opened KeyOrder
  import opened Text
  import opened ItemsHt
  import opened ServerAscii

  /** `mkServerCtx()`: the item counter and connection statistics shared by all connections. */
  class ServerCtx {
    var nitems: int
    var numConns: int
    var totConns: int

    constructor ()
      ensures nitems == 0 && numConns == 0 && totConns == 0
    {
      nitems := 0;
      numConns := 0;
      totConns := 0;
    }
  }

  /** A writable socket: `write` queues the text and answers whether the
      socket's buffer is still below its high-water mark; `Flush` is the
      socket handing its buffer to the network, after which it raises `drain`. */
  class Transport {
    var written: seq<string>
    var buffered: nat
    const highWater: nat
    var ended: bool

    constructor (highWater: nat)
      ensures this.highWater == highWater
      ensures written == [] && buffered == 0 && !ended
    {
      this.highWater := highWater;
      written := [];
      buffered := 0;
      ended := false;
    }

    method Write(data: string) returns (more: bool)
      modifies this
      ensures written == old(written) + [data]
      ensures buffered == old(buffered) + |data|
      ensures more <==> buffered < highWater
      ensures ended == old(ended)
    {
      written := written + [data];
      buffered := buffered + |data|;
      more := buffered < highWater;
    }

    method Flush()
      modifies this
      ensures buffered == 0 && written == old(written) && ended == old(ended)
    {
      buffered := 0;
    }

    method End()
      modifies this
      ensures ended && written == old(written) && buffered == old(buffered)
    {
      ended := true;
    }
  }

  /** The text of the outputs, in order; `emit(null)` writes nothing. */
  function Texts(outs: seq<Out>): seq<string> {
    if outs == [] then []
    else Texts(outs[..|outs| - 1]) + (match outs[|outs| - 1] case Data(t) => [t] case EndStream => [])
  }

  function Queued(q: Option<seq<string>>): seq<string> {
    if q.Some? then q.value else []
  }

  lemma TextsSnoc(outs: seq<Out>, o: Out)
    ensures Texts(outs + [o]) == Texts(outs) + (match o case Data(t) => [t] case EndStream => [])
  {
    assert (outs + [o])[..|outs|] == outs;
  }

  /** Text queued behind a backed-up socket comes after everything before it. */
  lemma QueueBehind(w: seq<string>, q: seq<string>, d: string)
    ensures w + (q + [d]) == (w + q) + [d]
  {
  }

  lemma QueueAdvance(q: seq<string>, n: nat)
    requires n < |q|
    ensures q[..n + 1] == q[..n] + [q[n..][0]] && q[n..][1..] == q[n + 1..]
  {
  }

  /** Writing the first `n` queued texts keeps the total in order. */
  lemma WrittenThenQueued(w: seq<string>, q: seq<string>, n: nat)
    requires n <= |q|
    ensures w + q[..n] + q[n..] == w + q
  {
    assert q[..n] + q[n..] == q;
  }

  lemma NotesOutputStep(e: seq<Out>, notes: seq<Note<Item>>, i: nat)
    requires i < |notes|
    ensures e + NotesOutput(notes[..i + 1]) == e + NotesOutput(notes[..i]) + NoteOutput(notes[i])
  {
    assert notes[..i + 1][..i] == notes[..i];
  }

  lemma FourMore(e: seq<Out>, a: Out, b: Out, c: Out, d: Out)
    ensures e + [a] + [b] + [c] + [d] == e + [a, b, c, d]
  {
  }

  /** One connection of `mkServer`. */
  class Connection {
    const items: Items<Item>
    const ctx: ServerCtx
    const stream: Transport
    var leftOver: string
    var handler: Handler
    var emitQueue: Option<seq<string>>
    /** Every call of `emit` so far. */
    ghost var emitted: seq<Out>

    /** No output is lost or reordered: what the socket was given, followed
        by what waits in `emitQueue`, is exactly what was emitted. */
    ghost predicate Valid()
      reads this, items, stream
    {
      items.Valid() && stream.written + Queued(emitQueue) == Texts(emitted)
    }

    /** The connection's state as the functions of `ServerAscii` see it. */
    ghost function State(): Session
      reads this, items, ctx
    {
      Session(items.Contents(), ctx.nitems, ctx.numConns, ctx.totConns, leftOver, handler, emitted)
    }

    constructor (items: Items<Item>, ctx: ServerCtx, stream: Transport)
      requires items.Valid() && stream.written == []
      ensures Valid()
      ensures this.items == items && this.ctx == ctx && this.stream == stream
      ensures leftOver == "" && handler == AwaitLine && emitQueue == None && emitted == []
    {
      this.items := items;
      this.ctx := ctx;
      this.stream := stream;
      leftOver := "";
      handler := AwaitLine;
      emitQueue := None;
      emitted := [];
    }

    /** `emit(data)`: `null` ends the stream; otherwise write, or queue
        behind earlier output while the socket is backed up. */
    method Emit(data: Option<string>)
      requires Valid()
      modifies this`emitted, this`emitQueue, stream
      ensures Valid()
      ensures emitted == old(emitted) + [if data.Some? then Data(data.value) else EndStream]
      ensures leftOver == old(leftOver) && handler == old(handler)
      ensures data.None? ==> stream.ended && emitQueue == old(emitQueue) && stream.written == old(stream.written)
      ensures data.Some? && old(emitQueue).Some? ==>
                emitQueue == Some(old(emitQueue).value + [data.value]) && stream.written == old(stream.written)
      ensures data.Some? && old(emitQueue).None? ==>
                && stream.written == old(stream.written) + [data.value]
                && emitQueue == (if stream.buffered < stream.highWater then None else Some([]))
    {
      var out := if data.Some? then Data(data.value) else EndStream;
      TextsSnoc(emitted, out);
      emitted := emitted + [out];
      if data.None? {
        stream.End();
        return;
      }
      if emitQueue.Some? {
        QueueBehind(stream.written, emitQueue.value, data.value);
        emitQueue := Some(emitQueue.value + [data.value]);
      } else {
        assert stream.written + [] == stream.written;
        var more := stream.Write(data.value);
        if !more {
          emitQueue := Some([]);
        }
      }
    }

    /** The `drain` event: write queued output in order until the socket
        pushes back again; once the queue is empty, writes go straight out. */
    method OnDrain()
      requires Valid()
      modifies this`emitQueue, stream
      ensures Valid() && State() == old(State())
      ensures old(emitQueue).None? ==> emitQueue == None && stream.written == old(stream.written)
      ensures old(emitQueue).Some? ==>
                var q := old(emitQueue).value;
                exists n :: 0 <= n <= |q| && stream.written == old(stream.written) + q[..n]
                  && (emitQueue == None ==> n == |q|)
                  && (emitQueue != None ==> emitQueue == Some(q[n..]) && 0 < n && stream.buffered >= stream.highWater)
    {
      if emitQueue.None? {
        return;
      }
      ghost var q := emitQueue.value;
      ghost var w := stream.written;
      ghost var n := 0;
      while |emitQueue.value| > 0
        invariant emitQueue.Some? && 0 <= n <= |q| && emitQueue.value == q[n..]
        invariant stream.written == w + q[..n]
        decreases |emitQueue.value|
      {
        var data := emitQueue.value[0];
        emitQueue := Some(emitQueue.value[1..]);
        var more := stream.Write(data);
        QueueAdvance(q, n);
        n := n + 1;
        if !more {
          WrittenThenQueued(w, q, n);
          assert stream.written == w + q[..n] && emitQueue == Some(q[n..]);
          return;
        }
      }
      WrittenThenQueued(w, q, n);
      emitQueue := None;
      assert stream.written == w + q[..n] && n == |q|;
    }

    /** The `connect` event. */
    method OnConnect()
      modifies ctx
      ensures ctx.numConns == old(ctx.numConns) + 1 && ctx.totConns == old(ctx.totConns) + 1
      ensures ctx.nitems == old(ctx.nitems)
    {
      ctx.numConns := ctx.numConns + 1;
      ctx.totConns := ctx.totConns + 1;
    }

    /** The `end` event: close our side and count the connection out. */
    method OnEnd()
      modifies ctx, stream
      ensures stream.ended && stream.written == old(stream.written)
      ensures ctx.numConns == old(ctx.numConns) - 1
      ensures ctx.totConns == old(ctx.totConns) && ctx.nitems == old(ctx.nitems)
    {
      stream.End();
      ctx.numConns := ctx.numConns - 1;
    }

    /** The `get` and `rget` callbacks' output for the notes of a scan. */
    method EmitNotes(notes: seq<Note<Item>>)
      requires Valid()
      modifies this`emitted, this`emitQueue, stream
      ensures Valid()
      ensures emitted == old(emitted) + NotesOutput(notes)
      ensures leftOver == old(leftOver) && handler == old(handler)
    {
      ghost var e0 := emitted;
      for i := 0 to |notes|
        invariant Valid()
        invariant emitted == e0 + NotesOutput(notes[..i])
      {
        NotesOutputStep(e0, notes, i);
        EmitNote(notes[i]);
      }
      assert notes[..|notes|] == notes;
    }

    /** What a scan callback emits for one note. */
    method EmitNote(n: Note<Item>)
      requires Valid()
      modifies this`emitted, this`emitQueue, stream
      ensures Valid()
      ensures emitted == old(emitted) + NoteOutput(n)
      ensures leftOver == old(leftOver) && handler == old(handler)
    {
      match n
      case Entry(_, Some(item)) => Emit(Some(ValueLine(item)));
      case Entry(_, None) =>
      case Done => Emit(Some(END));
    }

    method Get(args: seq<string>)
      requires Valid() && |args| >= 1
      modifies this`emitted, this`emitQueue, stream
      ensures Valid() && State() == GetCmd(old(State()), args)
    {
      var notes := items.Lookup(List(args[1..]), _ => true);
      EmitNotes(notes);
    }

    method Delete(args: seq<string>)
      requires Valid()
      modifies this`emitted, this`emitQueue, items, ctx, stream
      ensures Valid() && State() == DeleteCmd(old(State()), args)
    {
      if |args| != 2 {
        Emit(Some(CLIENT_ERROR));
        return;
      }
      var notes := items.Remove(args[1]);
      if notes[0].binding.Some? {
        ctx.nitems := ctx.nitems - 1;
        Emit(Some("DELETED\r\n"));
      } else {
        Emit(Some("NOT_FOUND\r\n"));
      }
    }

    method Stats()
      requires Valid()
      modifies this`emitted, this`emitQueue, stream
      ensures Valid() && State() == StatsCmd(old(State()))
    {
      ghost var s0 := State();
      var a := "STAT num_conns " + IntToString(ctx.numConns) + CRLF;
      var b := "STAT tot_conns " + IntToString(ctx.totConns) + CRLF;
      var c := "STAT curr_items " + IntToString(ctx.nitems) + CRLF;
      Emit(Some(a));
      Emit(Some(b));
      Emit(Some(c));
      Emit(Some(END));
      FourMore(s0.out, Data(a), Data(b), Data(c), Data(END));
      assert State() == s0.(out := emitted);
    }

    method FlushAll()
      requires Valid()
      modifies this`emitted, this`emitQueue, items, ctx, stream
      ensures Valid() && State() == FlushAllCmd(old(State()))
    {
      var _ := items.Reset();
      ctx.nitems := 0;
      Emit(Some("OK\r\n"));
    }

    method Quit()
      requires Valid()
      modifies this`emitted, this`emitQueue, stream
      ensures Valid() && State() == QuitCmd(old(State()))
    {
      Emit(None);
    }

    method Rget(args: seq<string>)
      requires Valid()
      modifies this`emitted, this`emitQueue, stream
      ensures Valid() && State() == RgetCmd(old(State()), args)
    {
      if |args| < 5 || |args| > 6 {
        Emit(Some(CLIENT_ERROR));
        return;
      }
      var endKey := if |args| == 6 then Some(args[5]) else None;
      var notes := items.Range(Some(args[4]), args[1] == "1", endKey, args[2] == "1",
                               RgetKeepGoing(ParseInt(args[3])));
      EmitNotes(notes);
    }

    /** `func_s(ctx, items, emit, args)`. */
    method RunSimple(name: string, args: seq<string>)
      requires Valid() && IsSimpleCommand(name) && |args| >= 1
      modifies this`emitted, this`emitQueue, items, ctx, stream
      ensures Valid() && State() == SimpleCmd(old(State()), name, args)
    {
      if name == "get" {
        Get(args);
      } else if name == "delete" {
        Delete(args);
      } else if name == "stats" {
        Stats();
      } else if name == "flush_all" {
        FlushAll();
      } else if name == "quit" {
        Quit();
      } else {
        Rget(args);
      }
    }

    /** `items.update` with the mutation handler `func_v` as its callback,
        then `emit(resp)`. */
    method Commit(cmd: ValueCmd, item: Item)
      requires Valid()
      modifies this`emitted, this`emitQueue, items, ctx, stream
      ensures Valid() && State() == CommitValue(old(State()), cmd, item).(handler := old(handler))
    {
      var notes := items.Update(item.key, (k, prev) => Policy(cmd, item, prev).commit);
      var d := Policy(cmd, item, notes[0].binding);
      if d.added {
        ctx.nitems := ctx.nitems + 1;
      }
      Emit(Some(d.reply));
    }

    /** `new_cmd(data)`. */
    method NewCmd(data0: string)
      requires Valid() && handler == AwaitLine && leftOver == ""
      modifies this, items, ctx, stream
      ensures Valid() && State() == Run(old(State()), data0)
      decreases |data0|, 1
    {
      var data := data0;
      while data != ""
        invariant Valid() && handler == AwaitLine && leftOver == ""
        invariant |data| <= |data0|
        invariant Run(State(), data) == Run(old(State()), data0)
        decreases |data|
      {
        var crnl := FindCrlf(data);
        if crnl.None? {
          leftOver := data;
          return;
        }
        var next := HandleLine(data[..crnl.value], data[crnl.value + 2..]);
        if next.None? {
          return;
        }
        data := next.value;
      }
    }

    /** The body of the `new_cmd` loop for one complete line; `None` when
        `read_more` took over the rest of the input. */
    method HandleLine(line: string, rest: string) returns (next: Option<string>)
      requires Valid() && handler == AwaitLine && leftOver == ""
      modifies this, items, ctx, stream
      ensures Valid()
      ensures next.Some? ==> handler == AwaitLine && leftOver == "" && |next.value| <= |rest|
      ensures (if next.None? then State() else Run(State(), next.value)) == Dispatch(old(State()), line, rest)
      decreases |rest|, 3
    {
      match ParseLine(line)
      case Simple(name, args) =>
        RunSimple(name, args);
        SimpleCmdKeepsFraming(old(State()), name, args);
        next := Some(rest);
      case Invalid =>
        Emit(Some(CLIENT_ERROR));
        next := Some(rest);
      case Value(cmd, item, nval) =>
        next := ReadMore(cmd, item, nval, rest);
    }

    /** `read_more(d)`: wait for the rest of the value, or commit it and
        go on parsing after it — in the same loop when `new_cmd` is running,
        in a fresh `new_cmd` when called as the `data` handler. `None` tells
        the loop to stop. */
    method ReadMore(cmd: ValueCmd, item: Item, nval: nat, d: string) returns (rest: Option<string>)
      requires Valid() && leftOver == ""
      modifies this, items, ctx, stream
      ensures Valid()
      ensures rest.Some? ==> old(handler) == AwaitLine && handler == AwaitLine && leftOver == "" && |rest.value| < |d|
      ensures (if rest.None? then State() else Run(State(), rest.value))
              == ReadMoreStep(old(State()), cmd, item, nval, d)
      decreases |d|, 2
    {
      if |d| < nval + 2 {
        leftOver := d;
        handler := AwaitValue(cmd, item, nval);
        return None;
      }
      Commit(cmd, item.(val := d[..nval]));
      if handler.AwaitValue? {
        handler := AwaitLine;
        NewCmd(d[nval + 2..]);
        rest := None;
      } else {
        rest := Some(d[nval + 2..]);
      }
    }

    /** The `data` event. */
    method OnData(chunk: string)
      requires Valid()
      modifies this, items, ctx, stream
      ensures Valid() && State() == Feed(old(State()), chunk)
    {
      var data := chunk;
      if leftOver != "" {
        data := leftOver + chunk;
        leftOver := "";
      }
      assert data == old(leftOver) + chunk;
      match handler
      case AwaitLine =>
        NewCmd(data);
      case AwaitValue(cmd, item, nval) =>
        var _ := ReadMore(cmd, item, nval, data);
    }
  }
}
