/** The TCP relay: two buffers, one for each direction, filled by reads of any size and emptied by
    partial writes. The kernel's answers are the input of a run. */
module Relay {
  import opened Common
  import opened HexDump
  import Numbers

  const BUF_SIZE: nat := 4096

  /** What `write` answers; it takes no more than it is offered. */
  datatype WriteAnswer = Wrote(n: nat) | WouldBlock | WriteFailed

  /** What `read` answers; it gives no more than is asked. `Closed` is end of stream or an error. */
  datatype ReadAnswer = Bytes(bytes: seq<byte>) | Closed

  datatype SelectAnswer =
    | Ready(client: seq<ReadAnswer>, server: seq<ReadAnswer>)  // empty when not ready
    | TimedOut
    | Interrupted
    | SelectFailed

  datatype Round = Round(toServer: WriteAnswer, toClient: WriteAnswer, select: SelectAnswer)

  /** A chunk delivered and logged. */
  datatype Entry = Entry(isServer: bool, chunk: seq<byte>)

  function Header(addr: string, port: nat, e: Entry): string {
    (if e.isServer then "S>C" else "C>S") + " (" + addr + ":" + Numbers.Print(port, 10) + ") ["
    + Numbers.Print(|e.chunk|, 10) + "]\n"
  }

  predicate Sendable(e: Entry) {
    1 <= |e.chunk| <= BUF_SIZE
  }

  /** The log file. */
  function LogText(addr: string, port: nat, entries: seq<Entry>): string
    requires forall e :: e in entries ==> Sendable(e)
  {
    if entries == [] then "" else
      var e := entries[|entries| - 1];
      assert Sendable(e);
      LogText(addr, port, entries[..|entries| - 1]) + Header(addr, port, e) + Layout(e.chunk)
  }

  /** The chunks logged for one direction, joined. */
  function Logged(entries: seq<Entry>, isServer: bool): seq<byte> {
    if entries == [] then [] else
      var e := entries[|entries| - 1];
      Logged(entries[..|entries| - 1], isServer) + if e.isServer == isServer then e.chunk else []
  }

  lemma LoggedAppend(entries: seq<Entry>, e: Entry, isServer: bool)
    ensures Logged(entries + [e], isServer) == Logged(entries, isServer) + if e.isServer == isServer then e.chunk else []
  {
    assert (entries + [e])[..|entries|] == entries;
  }

  // ---------------------------------------------------------------------------
  // A run on values.

  /** What has passed in one direction; the bytes received and not delivered are in the buffer. */
  datatype Flow = Flow(received: seq<byte>, delivered: seq<byte>, asked: seq<int>) {
    predicate Valid() {
      && delivered <= received && |received| - |delivered| <= BUF_SIZE
      && forall a :: a in asked ==> 1 <= a <= BUF_SIZE
    }

    function Held(): int {
      |received| - |delivered|
    }
  }

  datatype State = State(up: Flow, down: Flow, entries: seq<Entry>, alive: bool)

  function Least(a: int, b: int): int {
    if a <= b then a else b
  }

  /** One side is written to if its buffer holds something: the flow, the log and whether the relay goes on. */
  function Flushed(f: Flow, isServer: bool, entries: seq<Entry>, answer: WriteAnswer): (Flow, seq<Entry>, bool)
    requires f.Valid()
  {
    if f.Held() == 0 then (f, entries, true)
    else match answer
      case WriteFailed => (f, entries, false)
      case WouldBlock => (f, entries, true)
      case Wrote(n) =>
        var next := |f.delivered| + Least(n, f.Held());
        if n == 0 then (f, entries, true)
        else (f.(delivered := f.received[..next]), entries + [Entry(isServer, f.received[|f.delivered|..next])], true)
  }

  /** One socket after `select`; `ask` says whether the buffer had room. */
  function Filled(f: Flow, answers: seq<ReadAnswer>, ask: bool): (Flow, bool) {
    if !ask || answers == [] then (f, true)
    else
      var room := BUF_SIZE - f.Held();
      var bytes := if answers[0].Bytes? then answers[0].bytes else [];
      var got := if 0 <= room < |bytes| then bytes[..room] else bytes;
      (f.(received := f.received + got, asked := f.asked + [room]), got != [])
  }

  lemma {:induction false} FilledValid(f: Flow, answers: seq<ReadAnswer>, ask: bool)
    requires f.Valid() && (ask ==> f.Held() < BUF_SIZE)
    ensures Filled(f, answers, ask).0.Valid() && f.received <= Filled(f, answers, ask).0.received
    ensures Filled(f, answers, ask).0.delivered == f.delivered
  {
  }

  predicate ValidState(s: State) {
    && s.up.Valid() && s.down.Valid() && (forall e :: e in s.entries ==> Sendable(e))
    && s.up.delivered == Logged(s.entries, false) && s.down.delivered == Logged(s.entries, true)
  }

  function AfterRound(s: State, round: Round): State
    requires ValidState(s) && s.alive
  {
    var (up, es, a) := Flushed(s.up, false, s.entries, round.toServer);
    if !a then s.(up := up, entries := es, alive := false) else
    var (down, es', b) := Flushed(s.down, true, es, round.toClient);
    if !b || round.select.SelectFailed? then State(up, down, es', false)
    else match round.select
      case Ready(client, server) =>
        var (up', c) := Filled(up, client, up.Held() < BUF_SIZE);
        if !c then State(up', down, es', false) else
        var (down', d) := Filled(down, server, down.Held() < BUF_SIZE);
        State(up', down', es', d)
      case _ => State(up, down, es', true)
  }

  /** One flush, in either direction, keeps the log in step with what was delivered. */
  lemma {:induction false} FlushKeeps(f: Flow, isServer: bool, entries: seq<Entry>, answer: WriteAnswer)
    requires f.Valid() && (forall e :: e in entries ==> Sendable(e)) && f.delivered == Logged(entries, isServer)
    ensures var (g, es, alive) := Flushed(f, isServer, entries, answer);
      && g.Valid() && g.received == f.received && f.delivered <= g.delivered && entries <= es
      && (forall e :: e in es ==> Sendable(e))
      && g.delivered == Logged(es, isServer) && Logged(es, !isServer) == Logged(entries, !isServer)
  {
    hide Logged;
    if answer.Wrote? && f.Held() > 0 {
      var next := |f.delivered| + Least(answer.n, f.Held());
      var e := Entry(isServer, f.received[|f.delivered|..next]);
      assert f.received[..next] == f.delivered + e.chunk;
      LoggedAppend(entries, e, isServer);
      LoggedAppend(entries, e, !isServer);
    }
  }

  ghost predicate Grows(s: State, t: State) {
    && s.up.received <= t.up.received && s.down.received <= t.down.received
    && s.up.delivered <= t.up.delivered && s.down.delivered <= t.down.delivered
    && s.entries <= t.entries
  }

  lemma RoundKeeps(s: State, round: Round)
    requires ValidState(s) && s.alive
    ensures ValidState(AfterRound(s, round)) && Grows(s, AfterRound(s, round))
  {
    hide Logged, Sendable, Flushed, Filled, Flow.Valid;
    FlushKeeps(s.up, false, s.entries, round.toServer);
    var (up, es, a) := Flushed(s.up, false, s.entries, round.toServer);
    if a {
      FlushKeeps(s.down, true, es, round.toClient);
      var (down, es', b) := Flushed(s.down, true, es, round.toClient);
      if b && round.select.Ready? {
        FilledValid(up, round.select.client, up.Held() < BUF_SIZE);
        FilledValid(down, round.select.server, down.Held() < BUF_SIZE);
      }
    }
  }

  /** The run ends when a peer closes or a call fails, or with the script. */
  function AfterRun(s: State, script: seq<Round>): State
    requires ValidState(s)
    decreases |script|
  {
    if script == [] || !s.alive then s
    else
      RoundKeeps(s, script[0]);
      AfterRun(AfterRound(s, script[0]), script[1..])
  }

  /** In every run and in each direction: the bytes delivered are a prefix of the bytes received,
      what is missing fits the buffer, the log holds exactly what was delivered, no read asks for
      zero bytes, and nothing delivered or logged is ever taken back. */
  lemma {:induction false} RunConserves(s: State, script: seq<Round>)
    requires ValidState(s)
    ensures ValidState(AfterRun(s, script)) && Grows(s, AfterRun(s, script))
    decreases |script|
  {
    if script != [] && s.alive {
      RoundKeeps(s, script[0]);
      RunConserves(AfterRound(s, script[0]), script[1..]);
    }
  }

  // ---------------------------------------------------------------------------
  // What a script does, by the kernel's answers alone. `held` are the bytes that wait in a buffer.

  datatype Levels = Levels(up: nat, down: nat)

  /** How many bytes a write takes: the least of its answer and what is held. */
  function Taken(held: nat, answer: WriteAnswer): (n: nat)
    ensures n <= held
  {
    if answer.Wrote? then if answer.n <= held then answer.n else held else 0
  }

  /** The bytes a ready socket brings, up to the room. */
  function Brought(room: int, answers: seq<ReadAnswer>): (b: seq<byte>)
    requires room >= 0
    ensures |b| <= room
  {
    if answers == [] || answers[0].Closed? then []
    else if |answers[0].bytes| <= room then answers[0].bytes
    else answers[0].bytes[..room]
  }

  /** A ready socket that is read, because there is room, and brings nothing. */
  predicate Shut(room: int, answers: seq<ReadAnswer>) {
    room > 0 && answers != [] && (answers[0].Closed? || answers[0].bytes == [])
  }

  function FromClient(select: SelectAnswer): seq<ReadAnswer> {
    if select.Ready? then select.client else []
  }

  function FromServer(select: SelectAnswer): seq<ReadAnswer> {
    if select.Ready? then select.server else []
  }

  /** The room in each buffer once the writes of a round are done. */
  function Room(l: Levels, round: Round): (room: (int, int)) {
    (BUF_SIZE - (l.up - Taken(l.up, round.toServer)), BUF_SIZE - (l.down - Taken(l.down, round.toClient)))
  }

  /** The relay ends in this round: a write fails with bytes held, select fails, or a socket that is read
      is closed or brings nothing. */
  predicate Ends(l: Levels, round: Round) {
    || (l.up > 0 && round.toServer.WriteFailed?) || (l.down > 0 && round.toClient.WriteFailed?)
    || round.select.SelectFailed?
    || Shut(Room(l, round).0, FromClient(round.select)) || Shut(Room(l, round).1, FromServer(round.select))
  }

  function LevelsAfter(l: Levels, round: Round): Levels
    requires l.up <= BUF_SIZE && l.down <= BUF_SIZE
  {
    Levels(l.up - Taken(l.up, round.toServer) + |Brought(Room(l, round).0, FromClient(round.select))|,
           l.down - Taken(l.down, round.toClient) + |Brought(Room(l, round).1, FromServer(round.select))|)
  }

  predicate Within(l: Levels) {
    l.up <= BUF_SIZE && l.down <= BUF_SIZE
  }

  /** No round of the script ends the relay. */
  predicate GoesOn(l: Levels, script: seq<Round>)
    requires Within(l)
    decreases |script|
  {
    script == [] || (!Ends(l, script[0]) && GoesOn(LevelsAfter(l, script[0]), script[1..]))
  }

  /** All that the client, or the server, brings in a script. */
  function Total(l: Levels, script: seq<Round>, client: bool): seq<byte>
    requires Within(l)
    decreases |script|
  {
    if script == [] then []
    else
      var r := script[0];
      (if client then Brought(Room(l, r).0, FromClient(r.select)) else Brought(Room(l, r).1, FromServer(r.select)))
      + Total(LevelsAfter(l, r), script[1..], client)
  }

  /** What is held at the end of a script. */
  function LevelsAtEnd(l: Levels, script: seq<Round>): Levels
    requires Within(l)
    decreases |script|
  {
    if script == [] then l else LevelsAtEnd(LevelsAfter(l, script[0]), script[1..])
  }

  function LevelsOf(s: State): Levels
    requires ValidState(s)
  {
    Levels(s.up.Held(), s.down.Held())
  }

  lemma FlushMeans(f: Flow, isServer: bool, entries: seq<Entry>, answer: WriteAnswer)
    requires f.Valid()
    ensures var (g, es, alive) := Flushed(f, isServer, entries, answer);
      var n := Taken(f.Held(), answer);
      && (alive <==> !(f.Held() > 0 && answer.WriteFailed?))
      && g.received == f.received && g.delivered == f.received[..|f.delivered| + n] && g.Held() == f.Held() - n
      && es == entries + if n > 0 then [Entry(isServer, f.received[|f.delivered|..|f.delivered| + n])] else []
  {
    assert f.received[..|f.delivered|] == f.delivered;
    assert entries + [] == entries;
  }

  lemma FillMeans(f: Flow, answers: seq<ReadAnswer>)
    requires f.Valid()
    ensures var (g, alive) := Filled(f, answers, f.Held() < BUF_SIZE);
      var room := BUF_SIZE - f.Held();
      && (alive <==> !Shut(room, answers))
      && g.received == f.received + Brought(room, answers) && g.delivered == f.delivered
  {
    assert f.received + [] == f.received;
  }

  /** One round: whether the relay goes on, and if it does, what each side receives and is given. */
  lemma RoundMeans(s: State, round: Round)
    requires ValidState(s) && s.alive
    ensures var l, t := LevelsOf(s), AfterRound(s, round);
      && Within(l) && (t.alive <==> !Ends(l, round))
      && (t.alive ==>
          && t.up.received == s.up.received + Brought(Room(l, round).0, FromClient(round.select))
          && t.down.received == s.down.received + Brought(Room(l, round).1, FromServer(round.select))
          && t.up.delivered == s.up.received[..|s.up.delivered| + Taken(l.up, round.toServer)]
          && t.down.delivered == s.down.received[..|s.down.delivered| + Taken(l.down, round.toClient)]
          && ValidState(t) && LevelsOf(t) == LevelsAfter(l, round))
  {
    hide Flushed, Filled, Logged, Sendable, Shut, Brought, Taken;
    RoundKeeps(s, round);
    FlushMeans(s.up, false, s.entries, round.toServer);
    FlushKeeps(s.up, false, s.entries, round.toServer);
    var (up, es, a) := Flushed(s.up, false, s.entries, round.toServer);
    if a {
      FlushMeans(s.down, true, es, round.toClient);
      FlushKeeps(s.down, true, es, round.toClient);
      var (down, es', b) := Flushed(s.down, true, es, round.toClient);
      NothingBrought(Room(LevelsOf(s), round).0);
      NothingBrought(Room(LevelsOf(s), round).1);
      assert up.received + [] == up.received && down.received + [] == down.received;
      if b && round.select.Ready? {
        FillMeans(up, round.select.client);
        FillMeans(down, round.select.server);
      }
    }
  }

  lemma NothingBrought(room: int)
    requires room >= 0
    ensures Brought(room, []) == [] && !Shut(room, [])
  {
  }

  /** A run goes on to the end of its script exactly when no round ends it, and then each side has received
      all that was brought to it, and has been given all of that but what the answers left in its buffer. */
  lemma {:induction false} RunMeans(s: State, script: seq<Round>)
    requires ValidState(s) && s.alive
    ensures Within(LevelsOf(s)) && (AfterRun(s, script).alive <==> GoesOn(LevelsOf(s), script))
    ensures AfterRun(s, script).alive ==>
      && AfterRun(s, script).up.received == s.up.received + Total(LevelsOf(s), script, true)
      && AfterRun(s, script).down.received == s.down.received + Total(LevelsOf(s), script, false)
      && ValidState(AfterRun(s, script)) && LevelsOf(AfterRun(s, script)) == LevelsAtEnd(LevelsOf(s), script)
    decreases |script|
  {
    hide AfterRound, Ends, LevelsAfter, ValidState, Brought;
    if script == [] {
      assert s.up.received + [] == s.up.received && s.down.received + [] == s.down.received;
      assert Within(LevelsOf(s)) by {
        StateWithin(s);
      }
    } else {
      RoundMeans(s, script[0]);
      RoundKeeps(s, script[0]);
      var t := AfterRound(s, script[0]);
      if t.alive {
        RunMeans(t, script[1..]);
      } else {
        RunStopped(t, script[1..]);
      }
    }
  }

  lemma StateWithin(s: State)
    requires ValidState(s)
    ensures Within(LevelsOf(s))
  {
  }

  lemma RunStopped(s: State, script: seq<Round>)
    requires ValidState(s) && !s.alive
    ensures !AfterRun(s, script).alive
  {
  }

  /** The log names the directions: "C>S" for what the client sent, "S>C" for what the server sent. */
  lemma HeaderNames(addr: string, port: nat, chunk: seq<byte>)
    ensures "C>S (" + addr <= Header(addr, port, Entry(false, chunk))
    ensures "S>C (" + addr <= Header(addr, port, Entry(true, chunk))
  {
    hide Numbers.Print;
    var rest := ":" + Numbers.Print(port, 10) + ") [" + Numbers.Print(|chunk|, 10) + "]\n";
    assert Header(addr, port, Entry(false, chunk)) == ("C>S (" + addr) + rest;
    assert Header(addr, port, Entry(true, chunk)) == ("S>C (" + addr) + rest;
  }

  // ---------------------------------------------------------------------------
  // The program.

  class Log {
    const remoteaddr: string
    const remoteport: nat
    var text: string
    ghost var entries: seq<Entry>

    constructor (addr: string, port: nat)
      ensures Valid() && entries == []
    {
      remoteaddr, remoteport, text, entries := addr, port, "", [];
    }

    ghost predicate Valid()
      reads this
    {
      (forall e :: e in entries ==> Sendable(e)) && text == LogText(remoteaddr, remoteport, entries)
    }

    /** Log the first `written` bytes of the buffer. */
    method Append(buf: array<byte>, written: nat, isServer: bool)
      requires Valid() && 1 <= written <= buf.Length && written <= BUF_SIZE
      modifies this
      ensures Valid() && entries == old(entries) + [Entry(isServer, buf[..written])]
      ensures old(text) + ((if isServer then "S>C (" else "C>S (") + remoteaddr) <= text
    {
      hide Header, Layout;
      var e := Entry(isServer, buf[..written]);
      var hex, length := WriteHex(buf, written);
      HeaderNames(remoteaddr, remoteport, buf[..written]);
      StartsWith(text, (if isServer then "S>C (" else "C>S (") + remoteaddr, Header(remoteaddr, remoteport, e), hex[..length]);
      text := text + Header(remoteaddr, remoteport, e) + hex[..length];
      AppendedText(remoteaddr, remoteport, entries, e);
      entries := entries + [e];
    }
  }

  lemma AppendedText(addr: string, port: nat, entries: seq<Entry>, e: Entry)
    requires (forall x :: x in entries ==> Sendable(x)) && Sendable(e)
    ensures forall x :: x in entries + [e] ==> Sendable(x)
    ensures LogText(addr, port, entries + [e]) == LogText(addr, port, entries) + Header(addr, port, e) + Layout(e.chunk)
  {
    hide Header, Layout;
    assert (entries + [e])[..|entries|] == entries;
  }

  lemma StartsWith(text: string, start: string, header: string, layout: string)
    requires start <= header
    ensures text + start <= text + header + layout
  {
    assert (text + header + layout)[..|text + start|] == text + start;
  }

  /** One direction: `buf[..held]` waits to be written. */
  class Direction {
    const isServer: bool
    const buf: array<byte>
    var held: nat
    ghost var received: seq<byte>
    ghost var delivered: seq<byte>
    ghost var asked: seq<int>

    constructor (isServer: bool)
      ensures Valid() && fresh(buf) && this.isServer == isServer && received == delivered == [] && asked == []
    {
      this.isServer := isServer;
      buf := new byte[BUF_SIZE];
      held, received, delivered, asked := 0, [], [], [];
    }

    /** What was received is what was delivered followed by the buffer. */
    ghost predicate Valid()
      reads this, buf
    {
      buf.Length == BUF_SIZE && held <= BUF_SIZE && received == delivered + buf[..held]
    }

    ghost function Passed(): Flow
      reads this
    {
      Flow(received, delivered, asked)
    }

    /** Moves the bytes held after the first `from` to the front, in place. */
    method ShiftDown(from: nat)
      requires from <= held <= buf.Length
      modifies buf
      ensures buf[..held - from] == old(buf[from..held])
    {
      var k := 0;
      while k < held - from
        invariant k <= held - from
        invariant buf[..k] == old(buf[from..from + k])
        invariant buf[from + k..held] == old(buf[from + k..held])
      {
        assert buf[from + k] == buf[from + k..held][0] == old(buf[from + k]);
        buf[k] := buf[from + k];
        assert old(buf[from..from + k + 1]) == old(buf[from..from + k]) + [old(buf[from + k])];
        k := k + 1;
      }
    }

    /** Write, log what was written, and move the rest of the buffer to its front. */
    method SocketWrite(log: Log, answer: WriteAnswer) returns (written: int)
      requires Valid() && log.Valid() && held > 0
      modifies this`held, this`delivered, buf, log
      ensures Valid() && log.Valid()
      ensures written == if answer.Wrote? then Least(answer.n, old(held)) else -1
      ensures written <= 0 ==> log.entries == old(log.entries) && delivered == old(delivered) && held == old(held)
      ensures written > 0 ==>
        && written <= old(held) && held == old(held) - written
        && log.entries == old(log.entries) + [Entry(isServer, old(buf[..written]))]
        && delivered == old(delivered) + old(buf[..written])
    {
      hide Log.Valid;
      written := match answer case Wrote(n) => if n <= held then n else held case _ => -1;
      if written <= 0 {
        return;
      }
      log.Append(buf, written, isServer);
      ghost var chunk, tail := buf[..written], buf[written..held];
      assert buf[..held] == chunk + tail;
      assert received == (delivered + chunk) + tail;
      if written != held {
        ShiftDown(written);
      }
      held := held - written;
      delivered := delivered + chunk;
      assert buf[..held] == tail;
    }

    /** read(socket, buf + held, BUF_SIZE - held): how many bytes came, 0 when the stream is closed. */
    method Read(answer: ReadAnswer) returns (bytes: nat)
      requires Valid() && held < BUF_SIZE
      modifies this`held, this`received, this`asked, buf
      ensures Valid()
      ensures asked == old(asked) + [BUF_SIZE - old(held)] && delivered == old(delivered)
      ensures answer.Closed? ==> bytes == 0 && received == old(received)
      ensures answer.Bytes? ==>
        && bytes == (if |answer.bytes| <= BUF_SIZE - old(held) then |answer.bytes| else BUF_SIZE - old(held))
        && received == old(received) + answer.bytes[..bytes]
    {
      asked := asked + [BUF_SIZE - held];
      bytes := 0;
      if answer.Bytes? {
        bytes := Store(answer.bytes);
        held := held + bytes;
        received := received + answer.bytes[..bytes];
      }
    }

    /** The kernel fills the room after the buffered bytes. */
    method Store(bytes: seq<byte>) returns (n: nat)
      requires held <= buf.Length == BUF_SIZE
      modifies buf
      ensures n == if |bytes| <= BUF_SIZE - held then |bytes| else BUF_SIZE - held
      ensures buf[..held + n] == old(buf[..held]) + bytes[..n]
    {
      n := 0;
      ghost var before := buf[..held];
      while n < |bytes| && held + n < BUF_SIZE
        invariant n <= |bytes| && held + n <= BUF_SIZE
        invariant buf[..held + n] == before + bytes[..n]
      {
        buf[held + n] := bytes[n];
        assert buf[..held + n + 1] == buf[..held + n] + [bytes[n]];
        n := n + 1;
      }
    }
  }

  /** The objects hold this state. */
  ghost predicate Represents(up: Direction, down: Direction, log: Log, s: State)
    reads up, down, up.buf, down.buf, log
  {
    && up != down && up.buf != down.buf && !up.isServer && down.isServer
    && up.Valid() && down.Valid() && log.Valid()
    && s.up == up.Passed() && s.down == down.Passed() && s.entries == log.entries
  }

  lemma LevelsAre(s: State)
    requires ValidState(s)
    ensures LevelsOf(s) == Levels(s.up.Held(), s.down.Held())
  {
  }

  lemma RepresentsReceived(up: Direction, down: Direction, log: Log, s: State)
    requires Represents(up, down, log, s)
    ensures up.received == s.up.received && down.received == s.down.received
    ensures s.up.Held() == up.held && s.down.Held() == down.held
  {
  }

  /** Writes what one buffer holds, if anything: false when the relay gives up. */
  method Flush(side: Direction, log: Log, answer: WriteAnswer) returns (alive: bool)
    requires side.Valid() && log.Valid() && side.Passed().Valid()
    modifies side`held, side`delivered, side.buf, log
    ensures side.Valid() && log.Valid()
    ensures (side.Passed(), log.entries, alive)
         == Flushed(old(side.Passed()), side.isServer, old(log.entries), answer)
  {
    hide Log.Valid;
    alive := true;
    if side.held != 0 {
      ghost var f, buffered := side.Passed(), side.buf[..side.held];
      var written := side.SocketWrite(log, answer);
      if written > 0 {
        ghost var next := |f.delivered| + written;
        assert f.received[..next] == f.delivered + buffered[..written];
        assert f.received[|f.delivered|..next] == buffered[..written];
      }
      alive := written >= 0 || answer == WouldBlock;
    }
  }

  /** One socket after `select`: false when it is closed. `ask` says whether it was asked for. */
  method Fill(side: Direction, answers: seq<ReadAnswer>, ask: bool) returns (alive: bool)
    requires side.Valid() && side.Passed().Valid() && (ask ==> side.held < BUF_SIZE)
    modifies side`held, side`received, side`asked, side.buf
    ensures side.Valid() && (side.Passed(), alive) == Filled(old(side.Passed()), answers, ask)
  {
    alive := true;
    if ask && answers != [] {
      var bytes := side.Read(answers[0]);
      alive := bytes > 0;
      ghost var given := if answers[0].Bytes? then answers[0].bytes else [];
      assert given[..|given|] == given && old(side.received) + [] == old(side.received);
    }
  }

  lemma HeldIs(side: Direction)
    requires side.Valid()
    ensures side.Passed().Held() == side.held
  {
  }

  /** One turn of the loop. */
  method ServeRound(up: Direction, down: Direction, log: Log, round: Round, ghost s: State) returns (alive: bool)
    requires Represents(up, down, log, s) && ValidState(s) && s.alive
    modifies up, down, up.buf, down.buf, log
    ensures Represents(up, down, log, AfterRound(s, round)) && alive == AfterRound(s, round).alive
  {
    hide Direction.Valid, Log.Valid, Flow.Valid, Flushed, Filled, Logged, Sendable;
    FlushKeeps(s.up, false, s.entries, round.toServer);
    alive := Flush(up, log, round.toServer);
    if !alive {
      return;
    }
    FlushKeeps(s.down, true, log.entries, round.toClient);
    alive := Flush(down, log, round.toClient);
    if !alive {
      return;
    }
    HeldIs(up);
    HeldIs(down);
    var askClient, askServer := up.held < BUF_SIZE, down.held < BUF_SIZE;
    match round.select
    case Ready(client, server) =>
      FilledValid(up.Passed(), client, askClient);
      alive := Fill(up, client, askClient);
      if alive {
        alive := Fill(down, server, askServer);
      }
    case SelectFailed =>
      alive := false;
    case TimedOut =>
    case Interrupted =>
  }

  /** The loop that serves one client, for the kernel's answers of each round. */
  method ServiceClient(up: Direction, down: Direction, log: Log, script: seq<Round>, ghost s: State) returns (alive: bool)
    requires Represents(up, down, log, s) && ValidState(s) && s.alive
    modifies up, down, up.buf, down.buf, log
    ensures Represents(up, down, log, AfterRun(s, script)) && ValidState(AfterRun(s, script))
    ensures Within(LevelsOf(s)) && (alive <==> GoesOn(LevelsOf(s), script))
    ensures alive ==>
      && up.received == old(up.received) + Total(LevelsOf(s), script, true)
      && down.received == old(down.received) + Total(LevelsOf(s), script, false)
      && Levels(up.held, down.held) == LevelsAtEnd(LevelsOf(s), script)
  {
    RunMeans(s, script);
    RunConserves(s, script);
    assert s.up.received == up.received && s.down.received == down.received;
    hide Represents, ValidState, AfterRound, GoesOn, Total, LevelsAtEnd, LevelsOf, Within;
    var rounds := 0;
    alive := true;
    ghost var now := s;
    while alive && rounds < |script|
      invariant rounds <= |script| && Represents(up, down, log, now) && ValidState(now) && now.alive == alive
      invariant AfterRun(now, script[rounds..]) == AfterRun(s, script)
      decreases |script| - rounds
    {
      RoundKeeps(now, script[rounds]);
      alive := ServeRound(up, down, log, script[rounds], now);
      now := AfterRound(now, script[rounds]);
      assert script[rounds..][1..] == script[rounds + 1..];
      rounds := rounds + 1;
    }
    RepresentsReceived(up, down, log, AfterRun(s, script));
    LevelsAre(AfterRun(s, script));
  }
}
