/** The handshake between two peers as a pair of processes over two FIFO channels
    (proto/handshake.go, proto/streammanager.go:122-155, proto/server.go:177-190). */
module Handshaking {
  import opened Options

  datatype Message<E, C> = Header(entry: E) | Ok | No | Cap(caps: C) | Cookie(cookie: string) | Sig(signature: string)

  /** One end: its entry and capabilities, the cookie it challenges with, and its signatures. */
  datatype Party<E, C> = Party(entry: E, caps: C, cookie: string, sign: string -> string)

  /** Both ends, what they accept as a valid entry, and what as its signature of a cookie. A message of an
      unexpected kind reads as a zero value. */
  datatype World<!E, C> = World(client: Party<E, C>, server: Party<E, C>, verify: E -> bool,
                                check: (E, string, string) -> bool, noCaps: C)

  /** What an end has learned about the other, and the cookie it was challenged with. */
  datatype Known<E, C> = Known(entry: Option<E>, caps: Option<C>, cookie: string)

  // ---------------------------------------------------------------- a connection seen from one end

  datatype View<E, C> = View(inbox: seq<Message<E, C>>, outbox: seq<Message<E, C>>, peerClosed: bool)

  datatype Receipt<E, C> = Pending | Broken | Got(message: Message<E, C>)

  /** Reading from a connection the other end has closed may still deliver what was sent before, or fail. */
  function Receive<E, C>(v: View<E, C>, lost: bool): (r: Receipt<E, C>) {
    if v.peerClosed && lost then Broken
    else if v.inbox != [] then Got(v.inbox[0])
    else if v.peerClosed then Broken
    else Pending
  }

  /** What is left after a read; nothing after one that failed. */
  function Rest<E, C>(v: View<E, C>, lost: bool): (r: View<E, C>) {
    View(if Receive(v, lost).Got? then v.inbox[1..] else [], v.outbox, v.peerClosed)
  }

  /** Writing to a connection the other end has closed is in vain, and may fail. */
  function Send<E, C>(v: View<E, C>, m: Message<E, C>): (r: View<E, C>) {
    if v.peerClosed then v else View(v.inbox, v.outbox + [m], v.peerClosed)
  }

  predicate SendFails<E, C>(v: View<E, C>, lost: bool) {
    v.peerClosed && lost
  }

  // ---------------------------------------------------------------- the two halves of the protocol

  datatype Act<E, C> = Blocked | Continue(view: View<E, C>, known: Known<E, C>)
                     | Complete(view: View<E, C>, known: Known<E, C>) | Abort(view: View<E, C>, known: Known<E, C>)

  function Write<E, C>(v: View<E, C>, k: Known<E, C>, m: Message<E, C>, lost: bool): (r: Act<E, C>) {
    if SendFails(v, lost) then Abort(v, k) else Continue(Send(v, m), k)
  }

  /** handshake_send by its steps: header, reply, capabilities, cookie, signature, reply. */
  function SendStep<E, C>(me: Party<E, C>, step: nat, v: View<E, C>, k: Known<E, C>, lost: bool): (r: Act<E, C>)
    requires step < 6
  {
    if step == 0 then Write(v, k, Header(me.entry), lost)
    else if step == 2 then Write(v, k, Cap(me.caps), lost)
    else if step == 4 then Write(v, k, Sig(me.sign(k.cookie)), lost)
    else
      match Receive(v, lost)
      case Pending => Blocked
      case Broken => Abort(Rest(v, lost), k)
      case Got(m) =>
        if step == 3 then Continue(Rest(v, lost), Known(k.entry, k.caps, if m.Cookie? then m.cookie else ""))
        else if !m.Ok? then Abort(Rest(v, lost), k)
        else if step == 1 then Continue(Rest(v, lost), k)
        else Complete(Rest(v, lost), k)
  }

  /** handshake_recieve by its steps: header, reply, capabilities, cookie, signature, reply. Aborting closes the
      connection; a wrong signature is answered first. */
  function ReceiveStep<E, C>(w: World<E, C>, me: Party<E, C>, step: nat, v: View<E, C>, k: Known<E, C>, lost: bool): (r: Act<E, C>)
    requires step < 6
  {
    if step == 1 then Write(v, k, Ok, lost)
    else if step == 3 then Write(v, k, Cookie(me.cookie), lost)
    else if step == 5 then Complete(Send(v, Ok), k)
    else
      match Receive(v, lost)
      case Pending => Blocked
      case Broken => Abort(Rest(v, lost), k)
      case Got(m) =>
        var rest := Rest(v, lost);
        if step == 0 then
          if m.Header? && w.verify(m.entry) then Continue(rest, Known(Some(m.entry), k.caps, k.cookie)) else Abort(rest, k)
        else if step == 2 then
          Continue(rest, Known(k.entry, Some(if m.Cap? then m.caps else w.noCaps), k.cookie))
        else if k.entry.Some? && w.check(k.entry.value, me.cookie, if m.Sig? then m.signature else "") then Continue(rest, k)
        else Abort(Send(rest, No), k)
  }

  // ---------------------------------------------------------------- the two processes

  const BETWEEN := 6
  const DONE := 13
  const FAILED := 14

  datatype End<E, C> = End(pc: nat, known: Known<E, C>, closed: bool)

  datatype State<E, C> = State(client: End<E, C>, server: End<E, C>, toServer: seq<Message<E, C>>, toClient: seq<Message<E, C>>)

  function Initial<E, C>(): (s: State<E, C>) {
    var blank := End(0, Known(None, None, ""), false);
    State(blank, blank, [], [])
  }

  function ClientView<E, C>(s: State<E, C>): View<E, C> {
    View(s.toClient, s.toServer, s.server.closed)
  }

  function ServerView<E, C>(s: State<E, C>): View<E, C> {
    View(s.toServer, s.toClient, s.client.closed)
  }

  function MoveClient<E, C>(s: State<E, C>, v: View<E, C>, k: Known<E, C>, pc: nat, closed: bool): State<E, C> {
    State(End(pc, k, closed), s.server, v.outbox, v.inbox)
  }

  function MoveServer<E, C>(s: State<E, C>, v: View<E, C>, k: Known<E, C>, pc: nat, closed: bool): State<E, C> {
    State(s.client, End(pc, k, closed), v.inbox, v.outbox)
  }

  /** The opening end: it sends its half and ignores how that ended, waits for leave, and receives the other's. */
  function ClientStep<E, C>(w: World<E, C>, s: State<E, C>, lost: bool): (r: Option<State<E, C>>)
  {
    var pc, v, k := s.client.pc, ClientView(s), s.client.known;
    if pc < BETWEEN then
      match SendStep(w.client, pc, v, k, lost)
      case Blocked => None
      case Continue(v', k') => Some(MoveClient(s, v', k', pc + 1, false))
      case Complete(v', k') => Some(MoveClient(s, v', k', BETWEEN, false))
      case Abort(v', k') => Some(MoveClient(s, v', k', BETWEEN, false))
    else if pc == BETWEEN then
      match Receive(v, lost)
      case Pending => None
      case Broken => Some(MoveClient(s, Rest(v, lost), k, FAILED, false))
      case Got(m) => Some(MoveClient(s, Rest(v, lost), k, if m.Ok? then BETWEEN + 1 else FAILED, false))
    else if pc < DONE then
      match ReceiveStep(w, w.client, pc - 7, v, k, lost)
      case Blocked => None
      case Continue(v', k') => Some(MoveClient(s, v', k', pc + 1, false))
      case Complete(v', k') => Some(MoveClient(s, v', k', DONE, false))
      case Abort(v', k') => Some(MoveClient(s, v', k', FAILED, true))
    else None
  }

  /** The accepting end: it receives the other's half, gives leave, and sends its own. */
  function ServerStep<E, C>(w: World<E, C>, s: State<E, C>, lost: bool): (r: Option<State<E, C>>)
  {
    var pc, v, k := s.server.pc, ServerView(s), s.server.known;
    if pc < BETWEEN then
      match ReceiveStep(w, w.server, pc, v, k, lost)
      case Blocked => None
      case Continue(v', k') => Some(MoveServer(s, v', k', pc + 1, false))
      case Complete(v', k') => Some(MoveServer(s, v', k', BETWEEN, false))
      case Abort(v', k') => Some(MoveServer(s, v', k', FAILED, true))
    else if pc == BETWEEN then Some(MoveServer(s, Send(v, Ok), k, BETWEEN + 1, false))
    else if pc < DONE then
      match SendStep(w.server, pc - 7, v, k, lost)
      case Blocked => None
      case Continue(v', k') => Some(MoveServer(s, v', k', pc + 1, false))
      case Complete(v', k') => Some(MoveServer(s, v', k', DONE, false))
      case Abort(v', k') => Some(MoveServer(s, v', k', FAILED, false))
    else None
  }

  // ---------------------------------------------------------------- what every reachable state satisfies

  /** The accepting end accepts the opening one. */
  predicate ClientAccepted<E, C>(w: World<E, C>) {
    w.verify(w.client.entry) && w.check(w.client.entry, w.server.cookie, w.client.sign(w.server.cookie))
  }

  predicate ServerAccepted<E, C>(w: World<E, C>) {
    w.verify(w.server.entry) && w.check(w.server.entry, w.client.cookie, w.server.sign(w.client.cookie))
  }

  /** Everything the opening end sends, in order. */
  function ClientScript<E, C>(w: World<E, C>): seq<Message<E, C>> {
    [Header(w.client.entry), Cap(w.client.caps), Sig(w.client.sign(w.server.cookie)), Ok, Cookie(w.client.cookie), Ok]
  }

  function ServerScript<E, C>(w: World<E, C>): seq<Message<E, C>> {
    [Ok, Cookie(w.server.cookie), Ok, Ok, Header(w.server.entry), Cap(w.server.caps), Sig(w.server.sign(w.client.cookie))]
  }

  /** Messages of the opening end that it has sent, or that the accepting end has read, at a program point. */
  function Opened(pc: nat): nat {
    if pc <= BETWEEN then (pc + 1) / 2 else 3 + (pc - 7) / 2
  }

  /** Messages of the accepting end that it has sent, or that the opening end has read, at a program point. */
  function Accepted(pc: nat): nat {
    if pc <= BETWEEN then pc / 2 else 4 + (pc - 6) / 2
  }

  /** Nothing has gone wrong: each channel holds what has been sent of a script and not read. */
  ghost predicate Running<E, C>(w: World<E, C>, s: State<E, C>) {
    var c, d := s.client.pc, s.server.pc;
    && c <= DONE && d <= DONE && !s.client.closed && !s.server.closed
    && Opened(d) <= Opened(c) && Accepted(c) <= Accepted(d)
    && s.toServer == ClientScript(w)[Opened(d)..Opened(c)]
    && s.toClient == ServerScript(w)[Accepted(c)..Accepted(d)]
    && (c >= 4 ==> s.client.known.cookie == w.server.cookie)
    && (c >= 8 ==> s.client.known.entry == Some(w.server.entry) && w.verify(w.server.entry))
    && (c >= 10 ==> s.client.known.caps == Some(w.server.caps))
    && (c >= 12 ==> w.check(w.server.entry, w.client.cookie, w.server.sign(w.client.cookie)))
    && (d >= 1 ==> s.server.known.entry == Some(w.client.entry) && w.verify(w.client.entry))
    && (d >= 3 ==> s.server.known.caps == Some(w.client.caps))
    && (d >= 5 ==> w.check(w.client.entry, w.server.cookie, w.client.sign(w.server.cookie)))
    && (d >= 11 ==> s.server.known.cookie == w.client.cookie)
  }

  /** The accepting end has refused the opening one, which waits for a reply it will not get. */
  ghost predicate ClientRefused<E, C>(w: World<E, C>, s: State<E, C>) {
    && !ClientAccepted(w)
    && s.server.pc == FAILED && s.server.closed && !s.client.closed
    && (s.client.pc == 1 || s.client.pc == 5 || s.client.pc == BETWEEN || s.client.pc == FAILED)
    && (s.toClient == [] || (s.client.pc == 5 && s.toClient == [No]))
  }

  ghost predicate ServerRefused<E, C>(w: World<E, C>, s: State<E, C>) {
    && !ServerAccepted(w)
    && s.client.pc == FAILED && s.client.closed && !s.server.closed
    && (s.server.pc == 8 || s.server.pc == 12 || s.server.pc == FAILED)
    && (s.toServer == [] || (s.server.pc == 12 && s.toServer == [No]))
  }

  ghost predicate Invariant<E, C>(w: World<E, C>, s: State<E, C>) {
    Running(w, s) || ClientRefused(w, s) || ServerRefused(w, s)
  }

  lemma TakeOne<T>(s: seq<T>, a: nat, b: nat)
    requires a < b <= |s|
    ensures s[a..b] != [] && s[a..b][0] == s[a] && s[a..b][1..] == s[a + 1..b]
  {
  }

  lemma PutOne<T>(s: seq<T>, a: nat, b: nat)
    requires a <= b < |s|
    ensures s[a..b] + [s[b]] == s[a..b + 1]
  {
  }

  /** Program points at which the opening end writes; the accepting end writes at the others and between. */
  predicate ClientWrites(pc: nat) {
    pc == 0 || pc == 2 || pc == 4 || pc == 8 || pc == 10 || pc == 12
  }

  predicate ServerWrites(pc: nat) {
    pc == 1 || pc == 3 || pc == 5 || pc == 6 || pc == 7 || pc == 9 || pc == 11
  }

  /** What the opening end writes at a program point is the next message of its script. */
  lemma ClientWrite<E, C>(w: World<E, C>, s: State<E, C>, lost: bool)
    requires Running(w, s) && ClientWrites(s.client.pc)
    ensures var c := s.client.pc;
            && Opened(c + 1) == Opened(c) + 1 <= 6 && Accepted(c + 1) == Accepted(c)
            && ClientStep(w, s, lost) == Some(State(End(c + 1, s.client.known, false), s.server, s.toServer + [ClientScript(w)[Opened(c)]], s.toClient))
  {
  }

  lemma ClientWriteKeeps<E, C>(w: World<E, C>, s: State<E, C>, lost: bool)
    requires Running(w, s) && ClientWrites(s.client.pc)
    ensures ClientStep(w, s, lost).Some? && Running(w, ClientStep(w, s, lost).value)
  {
    ClientWrite(w, s, lost);
    PutOne(ClientScript(w), Opened(s.server.pc), Opened(s.client.pc));
  }

  lemma ServerWrite<E, C>(w: World<E, C>, s: State<E, C>, lost: bool)
    requires Running(w, s) && ServerWrites(s.server.pc)
    ensures var d := s.server.pc;
            && Accepted(d + 1) == Accepted(d) + 1 <= 7 && Opened(d + 1) == Opened(d)
            && ServerStep(w, s, lost) == Some(State(s.client, End(d + 1, s.server.known, false), s.toServer, s.toClient + [ServerScript(w)[Accepted(d)]]))
  {
  }

  lemma ServerWriteKeeps<E, C>(w: World<E, C>, s: State<E, C>, lost: bool)
    requires Running(w, s) && ServerWrites(s.server.pc)
    ensures ServerStep(w, s, lost).Some? && Running(w, ServerStep(w, s, lost).value)
  {
    ServerWrite(w, s, lost);
    PutOne(ServerScript(w), Accepted(s.client.pc), Accepted(s.server.pc));
  }

  /** With something to read, the opening end reads the next message of the other's script. */
  lemma ClientInbox<E, C>(w: World<E, C>, s: State<E, C>, lost: bool)
    requires Running(w, s) && s.toClient != []
    ensures var c := s.client.pc;
            && Accepted(c) < Accepted(s.server.pc) <= 7
            && Receive(ClientView(s), lost) == Got(ServerScript(w)[Accepted(c)])
            && Rest(ClientView(s), lost) == View(ServerScript(w)[Accepted(c) + 1..Accepted(s.server.pc)], s.toServer, false)
  {
    TakeOne(ServerScript(w), Accepted(s.client.pc), Accepted(s.server.pc));
  }

  lemma ServerInbox<E, C>(w: World<E, C>, s: State<E, C>, lost: bool)
    requires Running(w, s) && s.toServer != []
    ensures var d := s.server.pc;
            && Opened(d) < Opened(s.client.pc) <= 6
            && Receive(ServerView(s), lost) == Got(ClientScript(w)[Opened(d)])
            && Rest(ServerView(s), lost) == View(ClientScript(w)[Opened(d) + 1..Opened(s.client.pc)], s.toClient, false)
  {
    TakeOne(ClientScript(w), Opened(s.server.pc), Opened(s.client.pc));
  }

  predicate ClientReads(pc: nat) {
    pc < DONE && !ClientWrites(pc)
  }

  predicate ServerReads(pc: nat) {
    pc < DONE && !ServerWrites(pc)
  }

  /** What the opening end learns from a read that needs no verification. */
  function ClientLearns<E, C>(w: World<E, C>, pc: nat, k: Known<E, C>): Known<E, C> {
    if pc == 3 then Known(k.entry, k.caps, w.server.cookie)
    else if pc == 9 then Known(k.entry, Some(w.server.caps), k.cookie)
    else k
  }

  lemma ClientRead<E, C>(w: World<E, C>, s: State<E, C>, lost: bool)
    requires Running(w, s) && s.toClient != []
    requires ClientReads(s.client.pc) && s.client.pc != 7 && s.client.pc != 11
    ensures var c, d := s.client.pc, s.server.pc;
            && Opened(c + 1) == Opened(c) && Accepted(c) < Accepted(c + 1) == Accepted(c) + 1 <= Accepted(d) <= 7
            && ClientStep(w, s, lost)
               == Some(State(End(c + 1, ClientLearns(w, c, s.client.known), false), s.server, s.toServer,
                             ServerScript(w)[Accepted(c) + 1..Accepted(d)]))
  {
    ClientInbox(w, s, lost);
  }

  lemma ClientReadKeeps<E, C>(w: World<E, C>, s: State<E, C>, lost: bool)
    requires Running(w, s) && s.toClient != []
    requires ClientReads(s.client.pc) && s.client.pc != 7 && s.client.pc != 11
    ensures ClientStep(w, s, lost).Some? && Running(w, ClientStep(w, s, lost).value)
  {
    ClientRead(w, s, lost);
  }

  /** Reading the other's header or signature: either it is verified, or the connection is closed. */
  lemma ClientVerifies<E, C>(w: World<E, C>, s: State<E, C>, lost: bool)
    requires Running(w, s) && s.toClient != []
    requires s.client.pc == 7 || s.client.pc == 11
    ensures ClientStep(w, s, lost).Some?
    ensures var s' := ClientStep(w, s, lost).value; Running(w, s') || ServerRefused(w, s')
  {
    ClientInbox(w, s, lost);
  }

  lemma ServerReadKeeps<E, C>(w: World<E, C>, s: State<E, C>, lost: bool)
    requires Running(w, s) && s.toServer != []
    requires ServerReads(s.server.pc) && s.server.pc != 0 && s.server.pc != 4
    ensures ServerStep(w, s, lost).Some? && Running(w, ServerStep(w, s, lost).value)
  {
    ServerInbox(w, s, lost);
  }

  lemma ServerVerifies<E, C>(w: World<E, C>, s: State<E, C>, lost: bool)
    requires Running(w, s) && s.toServer != []
    requires s.server.pc == 0 || s.server.pc == 4
    ensures ServerStep(w, s, lost).Some?
    ensures var s' := ServerStep(w, s, lost).value; Running(w, s') || ClientRefused(w, s')
  {
    ServerInbox(w, s, lost);
  }

  /** A wrong signature is answered with No before the connection is closed, which is then all there is to read. */
  lemma ServerRefusesSignature<E, C>(w: World<E, C>, s: State<E, C>, lost: bool)
    requires Running(w, s) && s.server.pc == 4 && s.toServer != []
    requires !w.check(w.client.entry, w.server.cookie, w.client.sign(w.server.cookie))
    ensures ServerStep(w, s, lost).Some?
    ensures var s' := ServerStep(w, s, lost).value;
            s'.server.pc == FAILED && s'.server.closed && s'.toClient == s.toClient + [No] == [No] && s'.client == s.client
  {
    ServerInbox(w, s, lost);
  }

  lemma ClientRefusesSignature<E, C>(w: World<E, C>, s: State<E, C>, lost: bool)
    requires Running(w, s) && s.client.pc == 11 && s.toClient != []
    requires !w.check(w.server.entry, w.client.cookie, w.server.sign(w.client.cookie))
    ensures ClientStep(w, s, lost).Some?
    ensures var s' := ClientStep(w, s, lost).value;
            s'.client.pc == FAILED && s'.client.closed && s'.toServer == s.toServer + [No] == [No] && s'.server == s.server
  {
    ClientInbox(w, s, lost);
  }

  /** A header that does not verify closes the connection with nothing sent. */
  lemma ServerRefusesHeader<E, C>(w: World<E, C>, s: State<E, C>, lost: bool)
    requires Running(w, s) && s.server.pc == 0 && s.toServer != [] && !w.verify(w.client.entry)
    ensures ServerStep(w, s, lost).Some?
    ensures var s' := ServerStep(w, s, lost).value;
            s'.server.pc == FAILED && s'.server.closed && s'.toClient == s.toClient == [] && s'.client == s.client
  {
    ServerInbox(w, s, lost);
  }

  lemma ClientRefusesHeader<E, C>(w: World<E, C>, s: State<E, C>, lost: bool)
    requires Running(w, s) && s.client.pc == 7 && s.toClient != [] && !w.verify(w.server.entry)
    ensures ClientStep(w, s, lost).Some?
    ensures var s' := ClientStep(w, s, lost).value;
            s'.client.pc == FAILED && s'.client.closed && s'.toServer == s.toServer == [] && s'.server == s.server
  {
    ClientInbox(w, s, lost);
  }

  /** A blocked end is one that reads with nothing to read. */
  lemma Waiting<E, C>(w: World<E, C>, s: State<E, C>, lost: bool)
    requires Running(w, s)
    ensures ClientReads(s.client.pc) && s.toClient == [] ==> ClientStep(w, s, lost).None?
    ensures ServerReads(s.server.pc) && s.toServer == [] ==> ServerStep(w, s, lost).None?
  {
  }

  /** The two ends never wait for each other: short of both being done, one has something to do. */
  lemma SomeoneCanMove<E, C>(w: World<E, C>, s: State<E, C>)
    requires Running(w, s) && (s.client.pc < DONE || s.server.pc < DONE)
    ensures || ClientWrites(s.client.pc) || (ClientReads(s.client.pc) && s.toClient != [])
            || ServerWrites(s.server.pc) || (ServerReads(s.server.pc) && s.toServer != [])
  {
    var c, d := s.client.pc, s.server.pc;
    assert |s.toClient| == Accepted(d) - Accepted(c) && |s.toServer| == Opened(c) - Opened(d);
  }

  lemma ClientKeeps<E, C>(w: World<E, C>, s: State<E, C>, lost: bool)
    requires Running(w, s) && ClientStep(w, s, lost).Some?
    ensures Invariant(w, ClientStep(w, s, lost).value)
  {
    var c := s.client.pc;
    Waiting(w, s, lost);
    if ClientWrites(c) {
      ClientWriteKeeps(w, s, lost);
    } else if c == 7 || c == 11 {
      ClientVerifies(w, s, lost);
    } else {
      ClientReadKeeps(w, s, lost);
    }
  }

  lemma ServerKeeps<E, C>(w: World<E, C>, s: State<E, C>, lost: bool)
    requires Running(w, s) && ServerStep(w, s, lost).Some?
    ensures Invariant(w, ServerStep(w, s, lost).value)
  {
    var d := s.server.pc;
    Waiting(w, s, lost);
    if ServerWrites(d) {
      ServerWriteKeeps(w, s, lost);
    } else if d == 0 || d == 4 {
      ServerVerifies(w, s, lost);
    } else {
      ServerReadKeeps(w, s, lost);
    }
  }

  /** Once refused, the opening end can only run into the closed connection. It ignores how its own half ended,
      and fails when it then waits for leave. */
  lemma RefusedClientStep<E, C>(w: World<E, C>, s: State<E, C>, lost: bool)
    requires ClientRefused(w, s)
    ensures ServerStep(w, s, lost).None?
    ensures s.client.pc == FAILED <==> ClientStep(w, s, lost).None?
    ensures s.client.pc != FAILED ==>
              && ClientRefused(w, ClientStep(w, s, lost).value)
              && ClientStep(w, s, lost).value.client.pc == if s.client.pc < BETWEEN then BETWEEN else FAILED
  {
  }

  lemma RefusedServerStep<E, C>(w: World<E, C>, s: State<E, C>, lost: bool)
    requires ServerRefused(w, s)
    ensures ClientStep(w, s, lost).None?
    ensures s.server.pc == FAILED <==> ServerStep(w, s, lost).None?
    ensures s.server.pc != FAILED ==>
              ServerRefused(w, ServerStep(w, s, lost).value) && ServerStep(w, s, lost).value.server.pc == FAILED
  {
  }

  // ---------------------------------------------------------------- every run

  /** Which end takes a step, and whether a connection its peer has closed fails it at once. */
  datatype Move = Move(client: bool, lost: bool)

  /** The state after a move, if the end that is to move is not blocked or finished. */
  function Next<E, C>(w: World<E, C>, s: State<E, C>, m: Move): (r: Option<State<E, C>>) {
    if m.client then ClientStep(w, s, m.lost) else ServerStep(w, s, m.lost)
  }

  /** The state after a schedule of moves from a new connection; moves of a blocked end change nothing. */
  function Run<E, C>(w: World<E, C>, ms: seq<Move>): (s: State<E, C>) {
    if ms == [] then Initial() else
      var s := Run(w, ms[..|ms| - 1]);
      var n := Next(w, s, ms[|ms| - 1]);
      if n.None? then s else n.value
  }

  ghost predicate Finished<E, C>(s: State<E, C>) {
    s.client.pc >= DONE && s.server.pc >= DONE
  }

  function Rank<E, C>(s: State<E, C>): int {
    2 * FAILED - s.client.pc - s.server.pc
  }

  lemma ClientForward<E, C>(w: World<E, C>, s: State<E, C>, lost: bool)
    requires ClientStep(w, s, lost).Some?
    ensures var s' := ClientStep(w, s, lost).value; s'.client.pc > s.client.pc && s'.server.pc == s.server.pc
  {
  }

  lemma ServerForward<E, C>(w: World<E, C>, s: State<E, C>, lost: bool)
    requires ServerStep(w, s, lost).Some?
    ensures var s' := ServerStep(w, s, lost).value; s'.server.pc > s.server.pc && s'.client.pc == s.client.pc
  {
  }

  /** Steps only go forward. */
  lemma StepsForward<E, C>(w: World<E, C>, s: State<E, C>, m: Move)
    requires Next(w, s, m).Some?
    ensures Rank(Next(w, s, m).value) < Rank(s)
  {
    if m.client {
      ClientForward(w, s, m.lost);
    } else {
      ServerForward(w, s, m.lost);
    }
  }

  lemma NextKeeps<E, C>(w: World<E, C>, s: State<E, C>, m: Move)
    requires Invariant(w, s) && Next(w, s, m).Some?
    ensures Invariant(w, Next(w, s, m).value)
  {
    if Running(w, s) {
      if m.client {
        ClientKeeps(w, s, m.lost);
      } else {
        ServerKeeps(w, s, m.lost);
      }
    } else if ClientRefused(w, s) {
      RefusedClientStep(w, s, m.lost);
    } else {
      RefusedServerStep(w, s, m.lost);
    }
  }

  /** The invariant holds in every reachable state. */
  lemma {:induction false} RunKeeps<E, C>(w: World<E, C>, ms: seq<Move>)
    ensures Invariant(w, Run(w, ms))
  {
    if ms == [] {
      StartsRunning(w);
    } else {
      var s := Run(w, ms[..|ms| - 1]);
      RunKeeps(w, ms[..|ms| - 1]);
      if Next(w, s, ms[|ms| - 1]).Some? {
        NextKeeps(w, s, ms[|ms| - 1]);
      }
    }
  }

  lemma StartsRunning<E, C>(w: World<E, C>)
    ensures Running(w, Initial())
  {
  }

  /** In every reachable state that is not final, some end can move: there is no deadlock, whatever either
      end finds wrong with the other. */
  lemma Progress<E, C>(w: World<E, C>, ms: seq<Move>)
    requires !Finished(Run(w, ms))
    ensures exists m :: Next(w, Run(w, ms), m).Some?
  {
    var s := Run(w, ms);
    RunKeeps(w, ms);
    if Running(w, s) {
      SomeoneCanMove(w, s);
      if ClientWrites(s.client.pc) {
        ClientWriteKeeps(w, s, false);
      } else if ServerWrites(s.server.pc) {
        ServerWriteKeeps(w, s, false);
      } else if ClientReads(s.client.pc) && s.toClient != [] {
        if s.client.pc == 7 || s.client.pc == 11 { ClientVerifies(w, s, false); } else { ClientReadKeeps(w, s, false); }
      } else {
        if s.server.pc == 0 || s.server.pc == 4 { ServerVerifies(w, s, false); } else { ServerReadKeeps(w, s, false); }
      }
    } else if ClientRefused(w, s) {
      RefusedClientStep(w, s, false);
    } else {
      RefusedServerStep(w, s, false);
    }
    assert Next(w, s, Move(true, false)).Some? || Next(w, s, Move(false, false)).Some?;
  }

  /** How many moves of a schedule did anything. */
  function Effective<E, C>(w: World<E, C>, ms: seq<Move>): (n: nat) {
    if ms == [] then 0 else
      Effective(w, ms[..|ms| - 1]) + if Next(w, Run(w, ms[..|ms| - 1]), ms[|ms| - 1]).Some? then 1 else 0
  }

  /** Every schedule does at most 28 steps, so every run that does not leave an end waiting ends. */
  lemma {:induction false} Terminates<E, C>(w: World<E, C>, ms: seq<Move>)
    ensures Effective(w, ms) <= 2 * FAILED - Rank(Run(w, ms)) <= 2 * FAILED
  {
    RunKeeps(w, ms);
    if ms != [] {
      var front, last := ms[..|ms| - 1], ms[|ms| - 1];
      Terminates(w, front);
      if Next(w, Run(w, front), last).Some? {
        StepsForward(w, Run(w, front), last);
      }
    }
  }

  predicate Knows<E(==), C(==)>(end: End<E, C>, other: Party<E, C>) {
    end.known.entry == Some(other.entry) && end.known.caps == Some(other.caps)
  }

  /** Success at either end means that both ends were verified, and that the end knows the other's entry and
      capabilities. */
  lemma SuccessMeansVerified<E, C>(w: World<E, C>, ms: seq<Move>)
    ensures var s := Run(w, ms);
            && (s.client.pc == DONE || s.server.pc == DONE ==> ClientAccepted(w) && ServerAccepted(w))
            && (s.client.pc == DONE ==> Knows(s.client, w.server))
            && (s.server.pc == DONE ==> Knows(s.server, w.client))
  {
    RunKeeps(w, ms);
  }

  /** Every run that ends, ends with both successful if both would be accepted, and with neither if either
      would not. */
  lemma Outcome<E, C>(w: World<E, C>, ms: seq<Move>)
    requires Finished(Run(w, ms))
    ensures var s := Run(w, ms);
            if ClientAccepted(w) && ServerAccepted(w) then s.client.pc == DONE && s.server.pc == DONE
            else s.client.pc == FAILED && s.server.pc == FAILED
  {
    RunKeeps(w, ms);
    SuccessMeansVerified(w, ms);
  }
}
