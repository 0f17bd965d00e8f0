/** The text protocol of server_ascii.js as functions: the mutation policy
    table (`mkCmdsValue`), the simple commands (`mkCmdsSimple`) and the
    per-connection framing of `new_cmd` and `read_more`, stated over a
    `Session` value. The class in server_conn.dfy runs the same steps on
    mutable state and is proved to agree with these functions. */
module ServerAscii {
  import opened Base
  import opened KeyOrder
  import opened Text
  import opened ItemsHt

  /** An item as the protocol layer builds it. `flg` is kept as the text the
      client sent; `exp` is `parseInt` of the expiration, never used. */
  datatype Item = Item(key: Key, flg: string, exp: Option<int>, val: string)

  datatype ValueCmd = Set | Add | Replace | Append | Prepend

  /** What a mutation handler returns to the store, `[item, resp]`, and whether
      it incremented `ctx.nitems`. */
  datatype Decision = Decision(commit: Option<Item>, reply: string, added: bool)

  /** Which closure `handler` holds: `new_cmd`, or a `read_more` waiting for the
      value of a mutation command, with what that closure captured. */
  datatype Handler = AwaitLine | AwaitValue(cmd: ValueCmd, item: Item, nval: nat)

  /** One call of `emit`: a chunk of response text, or `emit(null)`, which ends the stream. */
  datatype Out = Data(text: string) | EndStream

  /** Everything a connection's processing reads and writes: the store, the
      shared `ctx` counters, the connection's `leftOver` and `handler`, and
      the sequence of emitted outputs. */
  datatype Session = Session(
    table: Table<Item>,
    nitems: int,
    numConns: int,
    totConns: int,
    leftOver: string,
    handler: Handler,
    out: seq<Out>)

  const STORED := "STORED\r\n"
  const NOT_STORED := "NOT_STORED\r\n"
  const CLIENT_ERROR := "CLIENT_ERROR\r\n"
  const END := "END\r\n"
  const CRLF := "\r\n"

  // ------------------------------------------------------------ mkCmdsValue

  /** The five mutation handlers: given the new item and the previous binding,
      what to commit, what to answer, and whether the item count grows. */
  function Policy(cmd: ValueCmd, item: Item, prev: Option<Item>): (d: Decision)
    ensures d.reply == STORED || d.reply == NOT_STORED
    ensures d.reply == NOT_STORED ==> d.commit == prev
    ensures d.reply == STORED ==> d.commit.Some? && d.commit.value.key == item.key
                                  && d.commit.value.flg == item.flg
    ensures prev.Some? ==> d.commit.Some?
    ensures d.added <==> prev.None? && d.commit.Some?
    ensures d.reply == STORED <==> cmd == Set || (cmd == Add) == prev.None?
  {
    match cmd
    case Set => Decision(Some(item), STORED, prev.None?)
    case Add =>
      if prev.Some? then Decision(prev, NOT_STORED, false) else Decision(Some(item), STORED, true)
    case Replace =>
      if prev.Some? then Decision(Some(item), STORED, false) else Decision(prev, NOT_STORED, false)
    case Append =>
      if prev.Some? then Decision(Some(item.(val := prev.value.val + item.val)), STORED, false)
      else Decision(None, NOT_STORED, false)
    case Prepend =>
      if prev.Some? then Decision(Some(item.(val := item.val + prev.value.val)), STORED, false)
      else Decision(None, NOT_STORED, false)
  }

  /** The value a STORED answer commits: the new value for `set`, `add` and
      `replace`; the old value followed or preceded by the new one for
      `append` and `prepend`. */
  lemma PolicyCommittedValue(cmd: ValueCmd, item: Item, prev: Option<Item>)
    requires Policy(cmd, item, prev).reply == STORED
    ensures var v := Policy(cmd, item, prev).commit.value.val;
      && (cmd == Set || cmd == Add || cmd == Replace ==> v == item.val)
      && (cmd == Append ==> v == prev.value.val + item.val)
      && (cmd == Prepend ==> v == item.val + prev.value.val)
  {
  }

  // ------------------------------------------------------------ responses

  /** `'VALUE ' + key + ' ' + flg + ' ' + val.length + '\r\n' + val + '\r\n'`. */
  function ValueLine(item: Item): string {
    "VALUE " + item.key + " " + item.flg + " " + NatToString(|item.val|) + CRLF + item.val + CRLF
  }

  /** What the `get` and `rget` callbacks emit for one store notification:
      a VALUE block for a present item, nothing for a miss, END at the end. */
  function NoteOutput(n: Note<Item>): seq<Out> {
    match n
    case Entry(_, Some(item)) => [Data(ValueLine(item))]
    case Entry(_, None) => []
    case Done => [Data(END)]
  }

  function NotesOutput(ns: seq<Note<Item>>): seq<Out> {
    if ns == [] then [] else NotesOutput(ns[..|ns| - 1]) + NoteOutput(ns[|ns| - 1])
  }

  /** The number of VALUE blocks `rget` has emitted after the notes `ns`: the `i` of the source. */
  function Emitted(ns: seq<Note<Item>>): nat {
    if ns == [] then 0
    else Emitted(ns[..|ns| - 1]) + (if ns[|ns| - 1].Entry? && ns[|ns| - 1].binding.Some? then 1 else 0)
  }

  /** The `rget` callback's answer, `0 == maxItems || i < maxItems`; a `NaN`
      limit (`None`) fails both comparisons. */
  function RgetKeepGoing(maxItems: Option<int>): seq<Note<Item>> -> bool {
    ns => maxItems == Some(0) || (maxItems.Some? && Emitted(ns) < maxItems.value)
  }

  function Say(s: Session, text: string): Session {
    s.(out := s.out + [Data(text)])
  }

  // ------------------------------------------------------------ mkCmdsSimple

  predicate IsSimpleCommand(cmd: string) {
    cmd in ["get", "delete", "stats", "flush_all", "quit", "rget"]
  }

  function ValueCommand(cmd: string): Option<ValueCmd> {
    if cmd == "set" then Some(Set)
    else if cmd == "add" then Some(Add)
    else if cmd == "replace" then Some(Replace)
    else if cmd == "append" then Some(Append)
    else if cmd == "prepend" then Some(Prepend)
    else None
  }

  /** `get <key>*`: a lookup of every key after the command name. */
  function GetCmd(s: Session, args: seq<string>): Session
    requires |args| >= 1
  {
    s.(out := s.out + NotesOutput(LookupNotes(s.table, List(args[1..]), _ => true)))
  }

  /** `delete <key>`: exactly two arguments, else CLIENT_ERROR. */
  function DeleteCmd(s: Session, args: seq<string>): Session {
    if |args| != 2 then Say(s, CLIENT_ERROR)
    else
      var k := args[1];
      var prev := Get(s.table, k);
      var s' := s.(table := Delete(s.table, k));
      if prev.Some? then Say(s'.(nitems := s.nitems - 1), "DELETED\r\n")
      else Say(s', "NOT_FOUND\r\n")
  }

  /** `delete <key>` on the plain object the source uses: `ritem != null` also
      holds for a name inherited from `Object.prototype`, which `delete ht[k]`
      leaves in place, so such a name is answered DELETED and counted down. */
  function DeleteCmdAsWritten(s: Session, args: seq<string>): Session {
    if |args| != 2 then Say(s, CLIENT_ERROR)
    else
      var k := args[1];
      var prev := GetAsWritten(s.table, k);
      var s' := s.(table := Delete(s.table, k));
      if NonNull(prev) then Say(s'.(nitems := s.nitems - 1), "DELETED\r\n")
      else Say(s', "NOT_FOUND\r\n")
  }

  /** On every key that is not an `Object.prototype` name the source's
      `delete` is the modelled one. */
  lemma DeleteCmdAsWrittenOnOwnNames(s: Session, args: seq<string>)
    requires |args| == 2 ==> args[1] !in ObjectPrototypeNames
    ensures DeleteCmdAsWritten(s, args) == DeleteCmd(s, args)
  {
  }

  function StatsCmd(s: Session): Session {
    s.(out := s.out + [
      Data("STAT num_conns " + IntToString(s.numConns) + CRLF),
      Data("STAT tot_conns " + IntToString(s.totConns) + CRLF),
      Data("STAT curr_items " + IntToString(s.nitems) + CRLF),
      Data(END)])
  }

  function FlushAllCmd(s: Session): Session {
    Say(s.(table := Table(map[], []), nitems := 0), "OK\r\n")
  }

  function QuitCmd(s: Session): Session {
    s.(out := s.out + [EndStream])
  }

  /** `rget <startInclusion> <endInclusion> <maxItems> <startKey> [endKey]`:
      five or six arguments, else CLIENT_ERROR; an inclusion flag is on when it is "1". */
  function RgetCmd(s: Session, args: seq<string>): Session {
    if |args| < 5 || |args| > 6 then Say(s, CLIENT_ERROR)
    else
      var start := Bound(Some(args[4]), args[1] == "1");
      var end := Bound(if |args| == 6 then Some(args[5]) else None, args[2] == "1");
      s.(out := s.out + NotesOutput(RangeNotes(s.table, start, end, RgetKeepGoing(ParseInt(args[3])))))
  }

  function SimpleCmd(s: Session, cmd: string, args: seq<string>): Session
    requires IsSimpleCommand(cmd) && |args| >= 1
  {
    if cmd == "get" then GetCmd(s, args)
    else if cmd == "delete" then DeleteCmd(s, args)
    else if cmd == "stats" then StatsCmd(s)
    else if cmd == "flush_all" then FlushAllCmd(s)
    else if cmd == "quit" then QuitCmd(s)
    else RgetCmd(s, args)
  }

  // ------------------------------------------------------------ value intake

  /** The byte count of a mutation command. The source takes `parseInt` as it
      comes (see `ReadValueAsWritten`); here a count must be a non-negative
      number, and anything else is answered CLIENT_ERROR. */
  function ParseCount(s: string): (r: Option<nat>)
    ensures r.Some? <==> ParseInt(s).Some? && ParseInt(s).value >= 0
    ensures r.Some? ==> r.value == ParseInt(s).value
  {
    match ParseInt(s)
    case Some(n) => if n >= 0 then Some(n) else None
    case None => None
  }

  /** `read_more(d)`: wait (`None`) until the value and its two-byte trailer
      are buffered, then take exactly the first `nval` bytes as the value and
      resume at offset `nval + 2`. */
  function ReadValue(d: string, nval: nat): (r: Option<(string, string)>)
    ensures r.None? <==> |d| < nval + 2
    ensures r.Some? ==> |r.value.0| == nval && d == r.value.0 + d[nval..nval + 2] + r.value.1
  {
    if |d| < nval + 2 then None
    else
      assert d == d[..nval] + d[nval..nval + 2] + d[nval + 2..];
      Some((d[..nval], d[nval + 2..]))
  }

  /** More data never changes a value already complete; it only extends what follows it. */
  lemma ReadValueAppend(d: string, y: string, nval: nat)
    ensures ReadValue(d, nval).Some? ==>
      ReadValue(d + y, nval) == Some((ReadValue(d, nval).value.0, ReadValue(d, nval).value.1 + y))
  {
    if |d| >= nval + 2 {
      assert (d + y)[..nval] == d[..nval];
      assert (d + y)[nval + 2..] == d[nval + 2..] + y;
    }
  }

  // ------------------------------------------------------------ the code as written

  /** `read_more` as the source writes it, `nval` being `parseInt(args[4])`
      unchecked: `d.length < nval + 2` is false for `NaN`, and the slices
      follow JavaScript's rules for negative and `NaN` indices. */
  function ReadValueAsWritten(d: string, nval: Option<int>): Option<(string, string)> {
    if nval.Some? && |d| < nval.value + 2 then None
    else
      var resume := if nval.Some? then Some(nval.value + 2) else None;
      Some((JsSlice(d, Some(0), nval), JsSlice(d, resume, Some(|d|))))
  }

  /** On a count the corrected intake accepts, the source's intake does the same. */
  lemma ReadValueAsWrittenOnCounts(d: string, nval: nat)
    ensures ReadValueAsWritten(d, Some(nval)) == ReadValue(d, nval)
  {
    JsSlicePrefixSuffix(d, Some(nval + 2), Some(nval));
  }

  /** With the count -1 the stored value depends on how the input was cut:
      "xy" in one chunk stores "x", but "x" alone already completes the read
      with an empty value and leaves "y" to be parsed as a command. A `NaN`
      count stores an empty value and parses the value bytes again as commands. */
  lemma ReadValueAsWrittenDependsOnChunking()
    ensures ReadValueAsWritten("xy", Some(-1)) == Some(("x", "y"))
    ensures ReadValueAsWritten("x", Some(-1)) == Some(("", ""))
    ensures ReadValueAsWritten("xy", None) == Some(("", "xy"))
  {
    JsSlicePrefixSuffix("xy", Some(1), Some(-1));
    JsSlicePrefixSuffix("x", Some(1), Some(-1));
    JsSlicePrefixSuffix("xy", None, None);
    assert "xy"[..1] == "x" && "xy"[1..] == "y";
  }

  // ------------------------------------------------------------ framing

  /** The store update of a complete mutation command, the `update` callback's
      work, and the answer it emits; `handler` returns to `new_cmd`. */
  function CommitValue(s: Session, cmd: ValueCmd, item: Item): Session {
    var d := Policy(cmd, item, Get(s.table, item.key));
    s.(table := Assign(s.table, item.key, d.commit),
       nitems := if d.added then s.nitems + 1 else s.nitems,
       handler := AwaitLine,
       out := s.out + [Data(d.reply)])
  }

  /** What one complete request line asks for. */
  datatype Request =
    | Simple(name: string, args: seq<string>)
    | Value(cmd: ValueCmd, item: Item, nval: nat)
    | Invalid

  /** `line.split(' ')` and the lookup of `args[0]` in the two command
      tables; a mutation needs exactly five words and a byte count. */
  function ParseLine(line: string): (r: Request)
    ensures r.Simple? ==> IsSimpleCommand(r.name) && |r.args| >= 1 && r.args == Split(line, ' ')
                          && r.name == r.args[0]
    ensures r.Value? ==> var args := Split(line, ' ');
      && |args| == 5 && ValueCommand(args[0]) == Some(r.cmd)
      && r.item == Item(args[1], args[2], ParseInt(args[3]), "")
      && ParseCount(args[4]) == Some(r.nval)
    ensures r.Invalid? <==> var args := Split(line, ' ');
      !IsSimpleCommand(args[0]) && (ValueCommand(args[0]).None? || |args| != 5 || ParseCount(args[4]).None?)
  {
    var args := Split(line, ' ');
    var cmd := args[0];
    if IsSimpleCommand(cmd) then Simple(cmd, args)
    else match ValueCommand(cmd)
      case None => Invalid
      case Some(vc) =>
        if |args| != 5 then Invalid
        else match ParseCount(args[4])
          case None => Invalid
          case Some(n) => Value(vc, Item(args[1], args[2], ParseInt(args[3]), ""), n)
  }

  /** `new_cmd(data)`: take complete lines in order and dispatch each one;
      keep an unterminated tail as `leftOver`. */
  function Run(s: Session, data: string): Session
    decreases |data|, 1
  {
    if data == "" then s
    else match FindCrlf(data)
      case None => s.(leftOver := data)
      case Some(i) => Dispatch(s, data[..i], data[i + 2..])
  }

  /** One complete line of `new_cmd`: run a simple command, answer
      CLIENT_ERROR, or start reading a value; then go on with `rest`. */
  function Dispatch(s: Session, line: string, rest: string): Session
    decreases |rest| + 1, 0
  {
    match ParseLine(line)
    case Simple(name, args) => Run(SimpleCmd(s, name, args), rest)
    case Invalid => Run(Say(s, CLIENT_ERROR), rest)
    case Value(vc, item, n) => ReadMoreStep(s, vc, item, n, rest)
  }

  /** `read_more(d)`: wait with `handler = read_more` while the value is
      incomplete, else commit it and go on parsing after it. */
  function ReadMoreStep(s: Session, cmd: ValueCmd, item: Item, nval: nat, d: string): Session
    decreases |d|, 0
  {
    match ReadValue(d, nval)
    case None => s.(leftOver := d, handler := AwaitValue(cmd, item, nval))
    case Some((v, rest)) => Run(CommitValue(s, cmd, item.(val := v)), rest)
  }

  /** The `data` event: prepend what was left over and hand everything to the current handler. */
  function Feed(s: Session, chunk: string): Session {
    var data := s.leftOver + chunk;
    var s0 := s.(leftOver := "");
    match s.handler
    case AwaitLine => Run(s0, data)
    case AwaitValue(cmd, item, nval) => ReadMoreStep(s0, cmd, item, nval, data)
  }

  /** Feeding the chunks one after the other. */
  function FeedAll(s: Session, chunks: seq<string>): Session
    decreases |chunks|
  {
    if chunks == [] then s else FeedAll(Feed(s, chunks[0]), chunks[1..])
  }

  function Concat(chunks: seq<string>): string
    decreases |chunks|
  {
    if chunks == [] then "" else chunks[0] + Concat(chunks[1..])
  }

  lemma SimpleCmdKeepsFraming(s: Session, cmd: string, args: seq<string>)
    requires IsSimpleCommand(cmd) && |args| >= 1
    ensures SimpleCmd(s, cmd, args).leftOver == s.leftOver
    ensures SimpleCmd(s, cmd, args).handler == s.handler
    ensures s.out <= SimpleCmd(s, cmd, args).out
  {
  }

  /** The outputs only grow: what was emitted is never taken back. */
  lemma {:induction false} RunExtendsOutput(s: Session, data: string)
    ensures s.out <= Run(s, data).out
    decreases |data|, 1
  {
    if data != "" && FindCrlf(data).Some? {
      var i := FindCrlf(data).value;
      var rest := data[i + 2..];
      match ParseLine(data[..i])
      case Simple(name, args) =>
        SimpleCmdKeepsFraming(s, name, args);
        RunExtendsOutput(SimpleCmd(s, name, args), rest);
      case Invalid =>
        RunExtendsOutput(Say(s, CLIENT_ERROR), rest);
      case Value(vc, item, n) =>
        ReadMoreExtendsOutput(s, vc, item, n, rest);
    }
  }

  lemma {:induction false} ReadMoreExtendsOutput(s: Session, cmd: ValueCmd, item: Item, nval: nat, d: string)
    ensures s.out <= ReadMoreStep(s, cmd, item, nval, d).out
    decreases |d|, 0
  {
    match ReadValue(d, nval)
    case None =>
    case Some((v, rest)) =>
      RunExtendsOutput(CommitValue(s, cmd, item.(val := v)), rest);
  }

  /** Bytes arriving later never change how earlier complete lines were
      handled: running `x` and then feeding `y` is running `x + y`. */
  lemma {:induction false} RunAppend(s: Session, x: string, y: string)
    requires s.leftOver == "" && s.handler == AwaitLine
    ensures Feed(Run(s, x), y) == Run(s, x + y)
    decreases |x|, 1
  {
    if FindCrlf(x).None? {
      RunAppendNoLine(s, x, y);
    } else {
      RunAppendAtLine(s, x, y);
    }
  }

  /** `RunAppend` when `x` holds a complete line. */
  lemma {:induction false} RunAppendAtLine(s: Session, x: string, y: string)
    requires s.leftOver == "" && s.handler == AwaitLine && FindCrlf(x).Some?
    ensures Feed(Run(s, x), y) == Run(s, x + y)
    decreases |x|, 0
  {
    var i := FindCrlf(x).value;
    var line, rest := x[..i], x[i + 2..];
    RunSplitsAtLine(s, x, y);
    DispatchAppend(s, line, rest, y);
  }

  /** Without a complete line, `x` waits in `leftOver` for `y`. */
  lemma RunAppendNoLine(s: Session, x: string, y: string)
    requires s.leftOver == "" && s.handler == AwaitLine && FindCrlf(x).None?
    ensures Feed(Run(s, x), y) == Run(s, x + y)
  {
    if x == "" {
      assert x + y == y;
    } else {
      assert s.(leftOver := x).(leftOver := "") == s;
    }
  }

  /** The first complete line of `x` is the first line of `x + y`. */
  lemma RunSplitsAtLine(s: Session, x: string, y: string)
    requires FindCrlf(x).Some?
    ensures var i := FindCrlf(x).value;
      && Run(s, x) == Dispatch(s, x[..i], x[i + 2..])
      && Run(s, x + y) == Dispatch(s, x[..i], x[i + 2..] + y)
  {
    var i := FindCrlf(x).value;
    FindCrlfAppend(x, y);
    assert (x + y)[..i] == x[..i];
    assert (x + y)[i + 2..] == x[i + 2..] + y;
  }

  lemma {:induction false} DispatchAppend(s: Session, line: string, rest: string, y: string)
    requires s.leftOver == "" && s.handler == AwaitLine
    ensures Feed(Dispatch(s, line, rest), y) == Dispatch(s, line, rest + y)
    decreases |rest| + 1, 0
  {
    match ParseLine(line)
    case Simple(name, args) =>
      SimpleCmdKeepsFraming(s, name, args);
      RunAppend(SimpleCmd(s, name, args), rest, y);
    case Invalid =>
      RunAppend(Say(s, CLIENT_ERROR), rest, y);
    case Value(vc, item, n) =>
      ReadMoreAppend(s, vc, item, n, rest, y);
  }

  lemma {:induction false} ReadMoreAppend(s: Session, cmd: ValueCmd, item: Item, nval: nat, d: string, y: string)
    requires s.leftOver == ""
    ensures Feed(ReadMoreStep(s, cmd, item, nval, d), y) == ReadMoreStep(s, cmd, item, nval, d + y)
    decreases |d|, 0
  {
    ReadValueAppend(d, y, nval);
    match ReadValue(d, nval)
    case None =>
      var w := ReadMoreStep(s, cmd, item, nval, d);
      assert w.leftOver + y == d + y;
      assert ReadMoreStep(w.(leftOver := ""), cmd, item, nval, d + y) == ReadMoreStep(s, cmd, item, nval, d + y);
    case Some((v, rest)) =>
      RunAppend(CommitValue(s, cmd, item.(val := v)), rest, y);
  }

  /** A command line or a value split across two chunks is handled exactly
      as if it had arrived whole: no byte is lost, none is read twice. */
  lemma FeedChunkInvariant(s: Session, a: string, b: string)
    ensures Feed(Feed(s, a), b) == Feed(s, a + b)
  {
    var s0 := s.(leftOver := "");
    assert s.leftOver + (a + b) == (s.leftOver + a) + b;
    match s.handler
    case AwaitLine => RunAppend(s0, s.leftOver + a, b);
    case AwaitValue(cmd, item, nval) => ReadMoreAppend(s0, cmd, item, nval, s.leftOver + a, b);
  }

  /** However the stream is cut into chunks, the outcome is that of the whole stream in one chunk. */
  lemma {:induction false} FeedAllIsFeedOfConcat(s: Session, chunks: seq<string>)
    requires |chunks| >= 1
    ensures FeedAll(s, chunks) == Feed(s, Concat(chunks))
    decreases |chunks|
  {
    var s1 := Feed(s, chunks[0]);
    if |chunks| == 1 {
      assert chunks[1..] == [];
      assert Concat(chunks) == chunks[0] + "";
      assert chunks[0] + "" == chunks[0];
    } else {
      FeedAllIsFeedOfConcat(s1, chunks[1..]);
      FeedChunkInvariant(s, chunks[0], Concat(chunks[1..]));
    }
  }

  // ------------------------------------------------------------ the item counter

  /** `ctx.nitems`, reported as `curr_items`, is the number of keys bound to an item. */
  ghost predicate CountsItems(s: Session) {
    WellFormed(s.table) && s.nitems == |Present(s.table)|
  }

  lemma CommitValueKeepsCount(s: Session, cmd: ValueCmd, item: Item)
    requires CountsItems(s)
    ensures CountsItems(CommitValue(s, cmd, item))
  {
    var prev := Get(s.table, item.key);
    var d := Policy(cmd, item, prev);
    AssignPresent(s.table, item.key, d.commit);
    if prev.Some? {
      assert Present(s.table) + {item.key} == Present(s.table);
    } else if d.commit.Some? {
      assert |Present(s.table) + {item.key}| == |Present(s.table)| + 1;
    } else {
      assert Present(s.table) - {item.key} == Present(s.table);
    }
  }

  lemma SimpleCmdKeepsCount(s: Session, cmd: string, args: seq<string>)
    requires IsSimpleCommand(cmd) && |args| >= 1 && CountsItems(s)
    ensures CountsItems(SimpleCmd(s, cmd, args))
  {
    if cmd == "delete" && |args| == 2 {
      var k := args[1];
      DeletePresent(s.table, k);
      if Get(s.table, k).Some? {
        assert |Present(s.table) - {k}| == |Present(s.table)| - 1;
      } else {
        assert Present(s.table) - {k} == Present(s.table);
      }
    } else if cmd == "flush_all" {
      var empty: Table<Item> := Table(map[], []);
      assert Present(empty) == {};
    }
  }

  /** The source's `delete toString` on a fresh server answers DELETED and
      takes `curr_items` to -1, although nothing was ever stored; the modelled
      `delete` answers NOT_FOUND and keeps the count. */
  lemma DeleteAsWrittenMiscounts()
    ensures var s := Session(Table(map[], []), 0, 0, 0, "", AwaitLine, []);
      var w := DeleteCmdAsWritten(s, ["delete", "toString"]);
      var m := DeleteCmd(s, ["delete", "toString"]);
      && CountsItems(s)
      && w.out == [Data("DELETED\r\n")] && w.nitems == -1 && !CountsItems(w)
      && m.out == [Data("NOT_FOUND\r\n")] && m.nitems == 0 && CountsItems(m)
  {
    var s := Session(Table(map[], []), 0, 0, 0, "", AwaitLine, []);
    assert Present(s.table) == {};
    SimpleCmdKeepsCount(s, "delete", ["delete", "toString"]);
  }

  lemma {:induction false} RunKeepsCount(s: Session, data: string)
    requires CountsItems(s)
    ensures CountsItems(Run(s, data))
    decreases |data|, 1
  {
    if data != "" && FindCrlf(data).Some? {
      var i := FindCrlf(data).value;
      DispatchKeepsCount(s, data[..i], data[i + 2..]);
    }
  }

  lemma {:induction false} DispatchKeepsCount(s: Session, line: string, rest: string)
    requires CountsItems(s)
    ensures CountsItems(Dispatch(s, line, rest))
    decreases |rest| + 1, 0
  {
    match ParseLine(line)
    case Simple(name, args) =>
      SimpleCmdKeepsCount(s, name, args);
      RunKeepsCount(SimpleCmd(s, name, args), rest);
    case Invalid =>
      var s1 := Say(s, CLIENT_ERROR);
      assert s1.table == s.table && s1.nitems == s.nitems;
      RunKeepsCount(s1, rest);
    case Value(vc, item, n) =>
      ReadMoreKeepsCount(s, vc, item, n, rest);
  }

  lemma {:induction false} ReadMoreKeepsCount(s: Session, cmd: ValueCmd, item: Item, nval: nat, d: string)
    requires CountsItems(s)
    ensures CountsItems(ReadMoreStep(s, cmd, item, nval, d))
    decreases |d|, 0
  {
    match ReadValue(d, nval)
    case None =>
    case Some((v, rest)) =>
      CommitValueKeepsCount(s, cmd, item.(val := v));
      RunKeepsCount(CommitValue(s, cmd, item.(val := v)), rest);
  }

  /** Every `data` event keeps the item counter equal to the number of stored items. */
  lemma FeedKeepsCount(s: Session, chunk: string)
    requires CountsItems(s)
    ensures CountsItems(Feed(s, chunk))
  {
    var s0 := s.(leftOver := "");
    match s.handler
    case AwaitLine => RunKeepsCount(s0, s.leftOver + chunk);
    case AwaitValue(cmd, item, nval) => ReadMoreKeepsCount(s0, cmd, item, nval, s.leftOver + chunk);
  }

  // ------------------------------------------------------------ what is left over

  /** Between events only an incomplete request is buffered: a line without
      its terminator, or a value shorter than its count plus two. */
  predicate Settled(s: Session) {
    match s.handler
    case AwaitLine => FindCrlf(s.leftOver).None?
    case AwaitValue(_, _, nval) => |s.leftOver| < nval + 2
  }

  lemma {:induction false} RunSettles(s: Session, data: string)
    requires s.leftOver == "" && s.handler == AwaitLine
    ensures Settled(Run(s, data))
    decreases |data|, 1
  {
    if data != "" && FindCrlf(data).Some? {
      var i := FindCrlf(data).value;
      var rest := data[i + 2..];
      match ParseLine(data[..i])
      case Simple(name, args) =>
        SimpleCmdKeepsFraming(s, name, args);
        RunSettles(SimpleCmd(s, name, args), rest);
      case Invalid =>
        RunSettles(Say(s, CLIENT_ERROR), rest);
      case Value(vc, item, n) =>
        ReadMoreSettles(s, vc, item, n, rest);
    }
  }

  lemma {:induction false} ReadMoreSettles(s: Session, cmd: ValueCmd, item: Item, nval: nat, d: string)
    requires s.leftOver == ""
    ensures Settled(ReadMoreStep(s, cmd, item, nval, d))
    decreases |d|, 0
  {
    match ReadValue(d, nval)
    case None =>
    case Some((v, rest)) =>
      RunSettles(CommitValue(s, cmd, item.(val := v)), rest);
  }

  lemma FeedSettles(s: Session, chunk: string)
    ensures Settled(Feed(s, chunk))
  {
    var s0 := s.(leftOver := "");
    match s.handler
    case AwaitLine => RunSettles(s0, s.leftOver + chunk);
    case AwaitValue(cmd, item, nval) => ReadMoreSettles(s0, cmd, item, nval, s.leftOver + chunk);
  }

  /** In a settled session an empty chunk changes nothing. */
  lemma FeedEmptyIsIdle(s: Session)
    requires Settled(s)
    ensures Feed(s, "") == s
  {
    assert s.leftOver + "" == s.leftOver;
  }
}
