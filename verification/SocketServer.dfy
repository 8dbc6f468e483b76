/**
 The agent's command queue: a receiver cuts each connection's bytes into lines and enqueues the commands,
 and the main loop takes them off one at a time.
 */
module SocketServer {
  import opened Wrappers
  import opened Sequences
  import opened Framing

  type ConnectionId = nat

  /** A command, with the connection its answer goes to. */
  datatype Command = Command(text: string, connection: ConnectionId)

  function Tagged(texts: seq<string>, connection: ConnectionId): (r: seq<Command>)
    ensures |r| == |texts|
    ensures forall i :: 0 <= i < |texts| ==> r[i] == Command(texts[i], connection)
  {
    seq(|texts|, i requires 0 <= i < |texts| => Command(texts[i], connection))
  }

  lemma TaggedAppend(a: seq<string>, b: seq<string>, connection: ConnectionId)
    ensures Tagged(a + b, connection) == Tagged(a, connection) + Tagged(b, connection)
  {
  }

  // ---------------------------------------------------------------- the two loops, alone

  class Server {
    var pendingCommands: seq<Command>

    constructor ()
      ensures pendingCommands == []
    {
      pendingCommands := [];
    }

    /** One delivery: everything finished by it is enqueued, in order, and the rest handed back. */
    method ReceiveLines(connection: ConnectionId, buffer: Bytes, data: Bytes, decode: Bytes -> Option<string>)
      returns (rest: Bytes)
      modifies this
      ensures rest == Unfinished(buffer + data)
      ensures pendingCommands == old(pendingCommands) + Tagged(CommandsIn(buffer + data, decode), connection)
    {
      rest := buffer + data;
      ghost var all := Tagged(CommandsIn(rest, decode), connection);
      while FirstNewline(rest).Some?
        invariant Unfinished(rest) == Unfinished(buffer + data)
        invariant pendingCommands + Tagged(CommandsIn(rest, decode), connection) == old(pendingCommands) + all
        decreases |rest|
      {
        rest := TakeLine(connection, rest, decode);
      }
    }

    /** One turn of that loop: the first line is taken off, and enqueued if it is a command. */
    method TakeLine(connection: ConnectionId, buffer: Bytes, decode: Bytes -> Option<string>) returns (rest: Bytes)
      requires FirstNewline(buffer).Some?
      modifies this
      ensures rest == buffer[FirstNewline(buffer).value + 1..]
      ensures var line := buffer[..FirstNewline(buffer).value];
        pendingCommands == old(pendingCommands) + Tagged(CommandOf(line, decode), connection)
      ensures pendingCommands + Tagged(CommandsIn(rest, decode), connection)
        == old(pendingCommands) + Tagged(CommandsIn(buffer, decode), connection)
    {
      var n := FirstNewline(buffer).value;
      CommandsUnfold(buffer, n, decode);
      var command := decode(buffer[..n]);
      rest := buffer[n + 1..];
      ghost var now, later := CommandOf(buffer[..n], decode), CommandsIn(rest, decode);
      TaggedAppend(now, later, connection);
      Associative(pendingCommands, Tagged(now, connection), Tagged(later, connection));
      if command.Some? {
        pendingCommands := pendingCommands + [Command(command.value, connection)];
      } else {
        assert Tagged(now, connection) == [] && pendingCommands + [] == pendingCommands;
      }
    }

    /** The main loop's turn: the oldest command, if there is one. */
    method TakePending() returns (pending: Option<Command>)
      modifies this
      ensures pending.Some? <==> old(pendingCommands) != []
      ensures old(pendingCommands) == (if pending.Some? then [pending.value] else []) + pendingCommands
    {
      if pendingCommands == [] {
        return None;
      }
      pending := Some(pendingCommands[0]);
      pendingCommands := pendingCommands[1..];
    }

    /**
     However the stream is cut into deliveries, with whatever else is enqueued before it, the same commands
     are enqueued: those of the whole stream.
     */
    method ReceiveAll(
      connection: ConnectionId, chunks: seq<Bytes>, decode: Bytes -> Option<string>) returns (rest: Bytes)
      modifies this
      ensures pendingCommands == old(pendingCommands) + Tagged(CommandsIn(Joined(chunks), decode), connection)
      ensures rest == Unfinished(Joined(chunks))
    {
      rest := [];
      for k := 0 to |chunks|
        invariant rest == Unfinished(Joined(chunks[..k]))
        invariant pendingCommands == old(pendingCommands) + Tagged(CommandsIn(Joined(chunks[..k]), decode), connection)
      {
        ghost var before, done := Joined(chunks[..k]), CommandsIn(Joined(chunks[..k]), decode);
        assert chunks[..k + 1][..k] == chunks[..k];
        LinesOfMore(before, chunks[k]);
        CommandsOfMore(before, chunks[k], decode);
        TaggedAppend(done, CommandsIn(rest + chunks[k], decode), connection);
        ghost var more := CommandsIn(rest + chunks[k], decode);
        Associative(old(pendingCommands), Tagged(done, connection), Tagged(more, connection));
        rest := ReceiveLines(connection, rest, chunks[k], decode);
      }
      assert chunks[..|chunks|] == chunks;
    }
  }

  function Joined(chunks: seq<Bytes>): Bytes {
    if chunks == [] then [] else Joined(chunks[..|chunks| - 1]) + chunks[|chunks| - 1]
  }

  // ---------------------------------------------------------------- every interleaving

  /** One connection: what the receiver still holds, all that ever arrived, and whether it is read any more. */
  datatype Connection = Connection(buffer: Bytes, arrived: Bytes, isOpen: bool)

  /**
   The whole server. `inHand` is the command the main loop took off and has not answered; `enqueued` records
   every command in the order the receivers put them in the queue, `handled` those answered.
   */
  datatype State = State(
    connections: map<ConnectionId, Connection>,
    pending: seq<Command>,
    inHand: Option<Command>,
    handled: seq<Command>,
    enqueued: seq<Command>)

  /**
   What the receivers and the main loop do, one step at a time. Stopping the server is no event: it takes
   back nothing done, and a step whose look at the running flag came just before may still follow. So a
   stopped server's run is one of these in which some steps never come.
   */
  datatype Event =
    | Connect(connection: ConnectionId)
    | Arrive(connection: ConnectionId, data: Bytes)
    | EnqueueLine(connection: ConnectionId)
    | Close(connection: ConnectionId)
    | Take
    | Answer

  predicate Enabled(s: State, e: Event) {
    match e
    case Connect(c) => c !in s.connections
    // The next delivery is asked for once every finished line of the last one is enqueued.
    case Arrive(c, _) => c in s.connections && s.connections[c].isOpen
                         && FirstNewline(s.connections[c].buffer).None?
    case EnqueueLine(c) => c in s.connections && FirstNewline(s.connections[c].buffer).Some?
    case Close(c) => c in s.connections
    case Take => s.inHand.None? && s.pending != []
    case Answer => s.inHand.Some?
  }

  function Next(s: State, e: Event, decode: Bytes -> Option<string>): State
    requires Enabled(s, e)
  {
    match e
    case Connect(c) => s.(connections := s.connections[c := Connection([], [], true)])
    case Arrive(c, data) =>
      var conn := s.connections[c];
      s.(connections := s.connections[c := conn.(buffer := conn.buffer + data, arrived := conn.arrived + data)])
    case EnqueueLine(c) =>
      var conn := s.connections[c];
      var n := FirstNewline(conn.buffer).value;
      var commands := Tagged(CommandOf(conn.buffer[..n], decode), c);
      s.(connections := s.connections[c := conn.(buffer := conn.buffer[n + 1..])],
         pending := s.pending + commands, enqueued := s.enqueued + commands)
    case Close(c) => s.(connections := s.connections[c := s.connections[c].(isOpen := false)])
    case Take => s.(inHand := Some(s.pending[0]), pending := s.pending[1..])
    case Answer => s.(inHand := None, handled := s.handled + [s.inHand.value])
  }

  const START := State(map[], [], None, [], [])

  /** The commands of one connection. */
  function Of(commands: seq<Command>, connection: ConnectionId): seq<Command> {
    Filter(commands, IsOn(connection))
  }

  function IsOn(connection: ConnectionId): Command -> bool {
    (c: Command) => c.connection == connection
  }

  function InHand(s: State): seq<Command> {
    if s.inHand.Some? then [s.inHand.value] else []
  }

  /** Nothing is lost, doubled or reordered between the receivers and the answers. */
  predicate Conserved(s: State) {
    s.handled + InHand(s) + s.pending == s.enqueued
  }

  /** What was enqueued for a connection, and what the receiver still holds, is what arrived on it. */
  predicate Framed(s: State, c: ConnectionId, decode: Bytes -> Option<string>)
    requires c in s.connections
  {
    var conn := s.connections[c];
    Of(s.enqueued, c) + Tagged(CommandsIn(conn.buffer, decode), c) == Tagged(CommandsIn(conn.arrived, decode), c)
    && Unfinished(conn.buffer) == Unfinished(conn.arrived)
  }

  ghost predicate Inv(s: State, decode: Bytes -> Option<string>) {
    Conserved(s)
    && (forall c :: c in s.connections ==> Framed(s, c, decode))
    && (forall c :: c !in s.connections ==> Of(s.enqueued, c) == [])
  }

  lemma OfAppend(a: seq<Command>, b: seq<Command>, c: ConnectionId)
    ensures Of(a + b, c) == Of(a, c) + Of(b, c)
  {
    FilterAppend(a, b, IsOn(c));
  }

  lemma {:induction false} OfTagged(texts: seq<string>, c: ConnectionId, d: ConnectionId)
    ensures Of(Tagged(texts, c), d) == if c == d then Tagged(texts, c) else []
  {
    if texts != [] {
      var tagged := Tagged(texts, c);
      assert tagged[1..] == Tagged(texts[1..], c);
      OfTagged(texts[1..], c, d);
      assert tagged == [tagged[0]] + tagged[1..];
    }
  }

  lemma EnqueueKeepsFramed(s: State, c: ConnectionId, d: ConnectionId, decode: Bytes -> Option<string>)
    requires Enabled(s, EnqueueLine(c)) && d in s.connections && Framed(s, d, decode)
    ensures Framed(Next(s, EnqueueLine(c), decode), d, decode)
  {
    var t := Next(s, EnqueueLine(c), decode);
    var buffer := s.connections[c].buffer;
    var n := FirstNewline(buffer).value;
    EnqueuedFor(s, c, d, decode);
    if c == d {
      LineMovesOver(Of(s.enqueued, c), buffer, n, c, decode);
      assert t.connections[c] == s.connections[c].(buffer := buffer[n + 1..]);
    } else {
      assert t.connections[d] == s.connections[d];
    }
  }

  lemma EnqueuedFor(s: State, c: ConnectionId, d: ConnectionId, decode: Bytes -> Option<string>)
    requires Enabled(s, EnqueueLine(c))
    ensures var buffer := s.connections[c].buffer;
      Of(Next(s, EnqueueLine(c), decode).enqueued, d) ==
        if c == d then Of(s.enqueued, c) + Tagged(CommandOf(buffer[..FirstNewline(buffer).value], decode), c)
        else Of(s.enqueued, d)
  {
    var buffer := s.connections[c].buffer;
    var now := CommandOf(buffer[..FirstNewline(buffer).value], decode);
    OfAppend(s.enqueued, Tagged(now, c), d);
    OfTagged(now, c, d);
  }

  /** A line's command goes from what the receiver holds to the end of what is enqueued. */
  lemma LineMovesOver(enqueued: seq<Command>, buffer: Bytes, n: nat, c: ConnectionId, decode: Bytes -> Option<string>)
    requires FirstNewline(buffer) == Some(n)
    ensures (enqueued + Tagged(CommandOf(buffer[..n], decode), c)) + Tagged(CommandsIn(buffer[n + 1..], decode), c)
      == enqueued + Tagged(CommandsIn(buffer, decode), c)
    ensures Unfinished(buffer[n + 1..]) == Unfinished(buffer)
  {
    var now, later := CommandOf(buffer[..n], decode), CommandsIn(buffer[n + 1..], decode);
    CommandsUnfold(buffer, n, decode);
    TaggedAppend(now, later, c);
    Associative(enqueued, Tagged(now, c), Tagged(later, c));
  }

  lemma ArriveKeepsFramed(s: State, c: ConnectionId, data: Bytes, decode: Bytes -> Option<string>)
    requires Enabled(s, Arrive(c, data)) && Framed(s, c, decode)
    ensures Framed(Next(s, Arrive(c, data), decode), c, decode)
  {
    var conn := s.connections[c];
    assert CommandsIn(conn.buffer, decode) == [];
    CommandsOfMore(conn.arrived, data, decode);
    LinesOfMore(conn.arrived, data);
    LinesOfMore(conn.buffer, data);
    var done, more := CommandsIn(conn.arrived, decode), CommandsIn(conn.buffer + data, decode);
    assert Unfinished(conn.arrived) == conn.buffer;
    TaggedAppend(done, more, c);
    assert Of(s.enqueued, c) + [] == Of(s.enqueued, c);
  }

  lemma ConservedByNext(s: State, e: Event, decode: Bytes -> Option<string>)
    requires Enabled(s, e) && Conserved(s)
    ensures Conserved(Next(s, e, decode))
  {
    match e
    case EnqueueLine(c) =>
      var buffer := s.connections[c].buffer;
      Associative(s.handled + InHand(s), s.pending, Tagged(CommandOf(buffer[..FirstNewline(buffer).value], decode), c));
    case Take =>
      Associative(s.handled, [s.pending[0]], s.pending[1..]);
    case _ =>
  }

  lemma NextKeepsInv(s: State, e: Event, decode: Bytes -> Option<string>)
    requires Enabled(s, e) && Inv(s, decode)
    ensures Inv(Next(s, e, decode), decode)
  {
    var t := Next(s, e, decode);
    ConservedByNext(s, e, decode);
    forall d | d in t.connections ensures Framed(t, d, decode) {
      match e
      case Arrive(c, data) =>
        if c == d {
          ArriveKeepsFramed(s, c, data, decode);
        } else {
          assert Framed(s, d, decode);
        }
      case EnqueueLine(c) => EnqueueKeepsFramed(s, c, d, decode);
      case Connect(c) =>
        if c != d {
          assert Framed(s, d, decode);
        }
      case _ => assert Framed(s, d, decode);
    }
    forall d | d !in t.connections ensures Of(t.enqueued, d) == [] {
      if e.EnqueueLine? {
        EnqueuedFor(s, e.connection, d, decode);
      }
    }
  }

  /** The events of a run, each possible when it happens. */
  predicate IsRun(events: seq<Event>, decode: Bytes -> Option<string>)
    decreases |events|, 0
  {
    events == [] || (IsRun(events[..|events| - 1], decode)
                     && Enabled(After(events[..|events| - 1], decode), events[|events| - 1]))
  }

  function After(events: seq<Event>, decode: Bytes -> Option<string>): State
    requires IsRun(events, decode)
    decreases |events|, 1
  {
    if events == [] then START else Next(After(events[..|events| - 1], decode), events[|events| - 1], decode)
  }

  lemma {:induction false} RunKeepsInv(events: seq<Event>, decode: Bytes -> Option<string>)
    requires IsRun(events, decode)
    ensures Inv(After(events, decode), decode)
    decreases |events|
  {
    if events != [] {
      RunKeepsInv(events[..|events| - 1], decode);
      NextKeepsInv(After(events[..|events| - 1], decode), events[|events| - 1], decode);
    }
  }

  /**
   After any run, in any interleaving of receivers and main loop: the commands answered on a connection are
   the first ones that arrived on it, in order and once each, and every command enqueued is answered, in
   hand or waiting.
   */
  lemma HandledInOrder(events: seq<Event>, c: ConnectionId, decode: Bytes -> Option<string>)
    requires IsRun(events, decode) && c in After(events, decode).connections
    ensures var s := After(events, decode);
      Of(s.handled, c) <= Tagged(CommandsIn(s.connections[c].arrived, decode), c)
      && s.handled + InHand(s) + s.pending == s.enqueued
  {
    var s := After(events, decode);
    RunKeepsInv(events, decode);
    assert Framed(s, c, decode);
    Associative(s.handled, InHand(s), s.pending);
    OfAppend(s.handled, InHand(s) + s.pending, c);
  }

  /** Once nothing is left to enqueue or to answer, exactly the commands that arrived have been answered. */
  lemma AllHandledWhenIdle(events: seq<Event>, c: ConnectionId, decode: Bytes -> Option<string>)
    requires IsRun(events, decode) && c in After(events, decode).connections
    requires var s := After(events, decode);
      s.inHand.None? && s.pending == [] && FirstNewline(s.connections[c].buffer).None?
    ensures var s := After(events, decode);
      Of(s.handled, c) == Tagged(CommandsIn(s.connections[c].arrived, decode), c)
  {
    var s := After(events, decode);
    RunKeepsInv(events, decode);
    IdleIsHandled(s, c, decode);
  }

  lemma IdleIsHandled(s: State, c: ConnectionId, decode: Bytes -> Option<string>)
    requires c in s.connections && Conserved(s) && Framed(s, c, decode)
    requires s.inHand.None? && s.pending == [] && FirstNewline(s.connections[c].buffer).None?
    ensures Of(s.handled, c) == Tagged(CommandsIn(s.connections[c].arrived, decode), c)
  {
    assert s.handled + [] + [] == s.handled;
    assert Tagged(CommandsIn(s.connections[c].buffer, decode), c) == [];
    assert Of(s.enqueued, c) + [] == Of(s.enqueued, c);
  }
}
