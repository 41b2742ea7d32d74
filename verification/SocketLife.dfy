/** TCP sockets and the handles they own, over whole runs of many sockets. */
module SocketLives {
  import opened Bytes

  const INVALID := -1

  /** The system's handles: which are open, how many were opened and closed, and closes of handles not open. */
  datatype Kernel = Kernel(open: set<int>, created: nat, closed: nat, stray: nat)

  datatype Address = Address(family: int, unix: bool)

  datatype Sock = Sock(handle: int, connected: bool, family: int, remote: Option<Address>)

  const UNIX := 1

  /** What the system answers during one call; each operation uses the parts it asks for. */
  datatype Answers = Answers(
    handle: int,       // the handle offered for a new socket
    probe: int,        // the handle offered for the probing socket of `bind`
    connects: bool,    // whether the connection attempt succeeds
    binds: bool,       // whether the system binds the address
    accepts: bool,     // whether the system accepts a connection
    listed: bool,      // whether the descriptor table knows the new handle as an open socket
    handshake: bool,   // whether the TLS handshake succeeds
    alive: bool,       // whether the socket's error status can be read
    peer: Address)     // the peer of an accepted connection

  // ------------------------------------------------------------ system calls

  /** The system never hands out a handle that is open; an offer it cannot keep is a failure. */
  function Grant(k: Kernel, offer: int): int {
    if offer < 0 || offer in k.open then INVALID else offer
  }

  function Opened(k: Kernel, offer: int): Kernel {
    if Grant(k, offer) == INVALID then k else k.(open := k.open + {offer}, created := k.created + 1)
  }

  function Closed(k: Kernel, handle: int): Kernel {
    if handle == INVALID then k
    else if handle in k.open then k.(open := k.open - {handle}, closed := k.closed + 1)
    else k.(stray := k.stray + 1)
  }

  // -------------------------------------------------------- socket operations

  function Fresh(family: int): Sock {
    Sock(INVALID, false, family, None)
  }

  function NewSock(k: Kernel, s: Sock, offer: int): (Kernel, Sock) {
    (Opened(k, offer), if Grant(k, offer) != INVALID then s.(handle := offer) else s)
  }

  /** Gives true exactly when there was nothing to close. */
  function Close(k: Kernel, s: Sock): (Kernel, Sock, bool) {
    if !s.connected && s.handle == INVALID then (k, s, true)
    else (Closed(k, s.handle), s.(connected := false, handle := INVALID), false)
  }

  function Connect(k: Kernel, s: Sock, to: Address, offer: int, connects: bool): (Kernel, Sock, bool) {
    var s0 := s.(remote := Some(to));
    var (k1, s1) := if s.handle == INVALID then NewSock(k, s0, offer) else (k, s0);
    if s1.handle == INVALID || to.family != s1.family then (k1, s1, false)
    else if !connects then (Close(k1, s1).0, Close(k1, s1).1, false)
    else (k1, s1.(connected := true), true)
  }

  function Reconnect(k: Kernel, s: Sock, a: Answers): (Kernel, Sock, bool) {
    if s.remote.None? then (k, s, false) else Connect(k, s, s.remote.value, a.handle, a.connects)
  }

  /** Whether something listens on a unix address: a temporary socket connects and is destroyed. */
  function Probe(k: Kernel, to: Address, a: Answers): (Kernel, bool) {
    var (k1, temp, connected) := Connect(k, Fresh(UNIX), to, a.probe, a.connects);
    (Close(k1, temp).0, connected)
  }

  function Bind(k: Kernel, s: Sock, to: Address, a: Answers): (Kernel, Sock, bool) {
    var (k1, s1) := if s.handle == INVALID then NewSock(k, s, a.handle) else (k, s);
    if s1.handle == INVALID || to.family != s1.family then (k1, s1, false)
    else if to.unix then
      var (k2, taken) := Probe(k1, to, a);
      (k2, s1, !taken && a.binds)
    else (k1, s1, a.binds)
  }

  /** `init`: a handle that the descriptor table does not list is not taken over. */
  function Init(s: Sock, handle: int, a: Answers): (Sock, bool) {
    if handle != INVALID && a.listed then (s.(handle := handle, connected := true, remote := Some(a.peer)), true)
    else (s, false)
  }

  function Accept(k: Kernel, s: Sock, a: Answers): (Kernel, Option<Sock>) {
    var k1 := Opened(k, a.handle);
    var handle := Grant(k, a.handle);
    if !a.accepts then (Closed(k1, handle), None)
    else
      var (taken, ok) := Init(Fresh(s.family), handle, a);
      (k1, if ok then Some(taken) else None)
  }

  /** The TLS `accept`: when the handshake fails the accepted socket is destroyed. */
  function SslAccept(k: Kernel, s: Sock, a: Answers): (Kernel, Option<Sock>) {
    var (k1, taken) := Accept(k, s, a);
    if taken.Some? && !a.handshake then (Close(k1, taken.value).0, None) else (k1, taken)
  }

  function CheckConnected(s: Sock, a: Answers): Sock {
    s.(connected := a.alive && s.handle != INVALID)
  }

  // -------------------------------------------------- what each operation answers

  /** The system can hand this handle out. */
  predicate Usable(k: Kernel, offer: int) {
    offer >= 0 && offer !in k.open
  }

  /** The handle of a socket that makes sure it has one. */
  function HandleOr(k: Kernel, handle: int, offer: int): int {
    if handle != INVALID then handle else if Usable(k, offer) then offer else INVALID
  }

  /** Connecting succeeds exactly when the family fits, there is a handle, and the attempt succeeds. */
  lemma ConnectOutcome(k: Kernel, s: Sock, to: Address, offer: int, connects: bool)
    ensures var (k', s', ok) := Connect(k, s, to, offer, connects);
            && (ok <==> to.family == s.family && connects && (s.handle != INVALID || Usable(k, offer)))
            && (ok || to.family != s.family ==> s'.handle == HandleOr(k, s.handle, offer))
            && (to.family != s.family ==> s'.connected == s.connected)
            && s'.remote == Some(to) && s'.family == s.family
  {
  }

  /** Something listens exactly when the temporary socket gets a handle and its attempt succeeds. */
  lemma ProbeOutcome(k: Kernel, to: Address, a: Answers)
    ensures Probe(k, to, a).1 <==> to.family == UNIX && a.connects && Usable(k, a.probe)
  {
    hide Connect;
    ConnectOutcome(k, Fresh(UNIX), to, a.probe, a.connects);
  }

  /** A connection is taken over exactly when the system accepts it on a new handle that the table lists. */
  lemma AcceptOutcome(k: Kernel, s: Sock, a: Answers)
    ensures var taken := Accept(k, s, a).1;
            && (taken.Some? <==> a.accepts && a.listed && Usable(k, a.handle))
            && (taken.Some? ==> taken.value == Sock(a.handle, true, s.family, Some(a.peer)))
    ensures var taken := SslAccept(k, s, a).1;
            && (taken.Some? <==> a.accepts && a.listed && Usable(k, a.handle) && a.handshake)
            && (taken.Some? ==> taken.value == Sock(a.handle, true, s.family, Some(a.peer)))
  {
  }

  // -------------------------------------------- what each operation does to handles

  function Holding(s: Sock): set<int> {
    if s.handle == INVALID then {} else {s.handle}
  }

  ghost predicate Sound(k: Kernel, s: Sock) {
    && Holding(s) <= k.open
    && (s.connected ==> s.handle != INVALID)
    && k.created == k.closed + |k.open| && k.stray == 0
  }

  /** The unix address answers to a probe made while the socket holds this handle. */
  predicate Taken(k: Kernel, to: Address, a: Answers, handle: int) {
    to.unix && to.family == UNIX && a.connects && Usable(k, a.probe) && a.probe != handle
  }

  /** Binding succeeds exactly when the family fits, there is a handle, nothing listens, and the system binds. */
  lemma BindOutcome(k: Kernel, s: Sock, to: Address, a: Answers)
    requires Sound(k, s)
    ensures var (k', s', ok) := Bind(k, s, to, a);
            && (ok <==> to.family == s.family && a.binds && (s.handle != INVALID || Usable(k, a.handle)) &&
                        !Taken(k, to, a, s'.handle))
            && s' == s.(handle := HandleOr(k, s.handle, a.handle))
  {
    hide Probe;
    var (k1, s1) := if s.handle == INVALID then NewSock(k, s, a.handle) else (k, s);
    ProbeOutcome(k1, to, a);
  }

  /** A socket only exchanges its own handle: every other open handle stays open. */
  ghost predicate Exchanges(k: Kernel, s: Sock, k': Kernel, s': Sock) {
    && Sound(k', s')
    && k'.open - Holding(s') == k.open - Holding(s)
    && Holding(s') !! (k.open - Holding(s))
  }

  lemma CloseExchanges(k: Kernel, s: Sock)
    requires Sound(k, s)
    ensures Exchanges(k, s, Close(k, s).0, Close(k, s).1)
    ensures Close(k, s).1.handle == INVALID
    ensures !Close(k, s).1.connected
  {
  }

  lemma NewSockExchanges(k: Kernel, s: Sock, offer: int)
    requires Sound(k, s) && s.handle == INVALID
    ensures Exchanges(k, s, NewSock(k, s, offer).0, NewSock(k, s, offer).1)
  {
  }

  lemma ExchangesThen(k: Kernel, s: Sock, k1: Kernel, s1: Sock, k2: Kernel, s2: Sock)
    requires Exchanges(k, s, k1, s1) && Exchanges(k1, s1, k2, s2)
    ensures Exchanges(k, s, k2, s2)
  {
  }

  lemma MarkExchanges(k: Kernel, s: Sock, connected: bool)
    requires Sound(k, s) && (connected ==> s.handle != INVALID)
    ensures Exchanges(k, s, k, s.(connected := connected))
  {
  }

  /** The remote address plays no part in who owns what. */
  lemma RemoteExchanges(k: Kernel, s: Sock, to: Address)
    requires Sound(k, s)
    ensures Exchanges(k, s, k, s.(remote := Some(to)))
  {
  }

  lemma ConnectExchanges(k: Kernel, s: Sock, to: Address, offer: int, connects: bool)
    requires Sound(k, s)
    ensures var (k', s', ok) := Connect(k, s, to, offer, connects);
            && Exchanges(k, s, k', s') && s'.remote == Some(to)
            && (ok ==> s'.connected && to.family == s.family)
            && (!ok && to.family == s.family ==> s'.handle == INVALID && !s'.connected)
  {
    hide Sound, NewSock, Close, Exchanges;
    var s0 := s.(remote := Some(to));
    RemoteExchanges(k, s, to);
    ExchangesSound(k, s, k, s0);
    var (k1, s1) := if s.handle == INVALID then NewSock(k, s0, offer) else (k, s0);
    if s.handle == INVALID {
      NewSockExchanges(k, s0, offer);
      NewSockKeepsRest(k, s0, offer);
      ExchangesThen(k, s, k, s0, k1, s1);
    }
    ExchangesSound(k, s, k1, s1);
    SoundConnection(k1, s1);
    if s1.handle != INVALID && to.family == s1.family {
      CloseExchanges(k1, s1);
      MarkExchanges(k1, s1, true);
      if connects {
        ExchangesThen(k, s, k1, s1, k1, s1.(connected := true));
      } else {
        ExchangesThen(k, s, k1, s1, Close(k1, s1).0, Close(k1, s1).1);
        CloseKeepsRest(k1, s1);
      }
    }
  }

  lemma ExchangesSound(k: Kernel, s: Sock, k': Kernel, s': Sock)
    requires Exchanges(k, s, k', s')
    ensures Sound(k', s')
  {
  }

  lemma NewSockKeepsRest(k: Kernel, s: Sock, offer: int)
    ensures var s' := NewSock(k, s, offer).1;
            s'.connected == s.connected && s'.family == s.family && s'.remote == s.remote
  {
  }

  lemma SoundConnection(k: Kernel, s: Sock)
    requires Sound(k, s)
    ensures s.connected ==> s.handle != INVALID
  {
  }

  lemma CloseKeepsRest(k: Kernel, s: Sock)
    ensures Close(k, s).1.remote == s.remote && Close(k, s).1.family == s.family
  {
  }

  lemma FreshSound(k: Kernel, s: Sock, family: int)
    requires Sound(k, s)
    ensures Sound(k, Fresh(family)) && Holding(Fresh(family)) == {}
  {
  }

  /** A temporary socket that starts and ends without a handle leaves every other socket as it was. */
  lemma TemporaryExchanges(k: Kernel, s: Sock, temp: Sock, k': Kernel, temp': Sock)
    requires Exchanges(k, temp, k', temp') && Holding(temp) == {} && temp'.handle == INVALID && Sound(k, s)
    ensures Exchanges(k, s, k', s) && k'.open == k.open
  {
    assert k'.open == k'.open - Holding(temp') == k.open - Holding(temp) == k.open;
  }

  lemma ProbeExchanges(k: Kernel, s: Sock, to: Address, a: Answers)
    requires Sound(k, s)
    ensures Exchanges(k, s, Probe(k, to, a).0, s)
    ensures Probe(k, to, a).0.open == k.open
  {
    hide Sound, Connect, Close, Exchanges, Holding;
    var (k1, temp, connected) := Connect(k, Fresh(UNIX), to, a.probe, a.connects);
    FreshSound(k, s, UNIX);
    ConnectExchanges(k, Fresh(UNIX), to, a.probe, a.connects);
    ExchangesSound(k, Fresh(UNIX), k1, temp);
    CloseExchanges(k1, temp);
    var (k2, temp2, _) := Close(k1, temp);
    ExchangesThen(k, Fresh(UNIX), k1, temp, k2, temp2);
    TemporaryExchanges(k, s, Fresh(UNIX), k2, temp2);
  }

  lemma BindExchanges(k: Kernel, s: Sock, to: Address, a: Answers)
    requires Sound(k, s)
    ensures var (k', s', ok) := Bind(k, s, to, a);
            Exchanges(k, s, k', s') && s'.connected == s.connected && (ok ==> s'.handle != INVALID)
  {
    hide Probe;
    if s.handle == INVALID {
      NewSockExchanges(k, s, a.handle);
    }
    var (k1, s1) := if s.handle == INVALID then NewSock(k, s, a.handle) else (k, s);
    if to.unix {
      ProbeExchanges(k1, s1, to, a);
    }
  }

  /** A handle is lost exactly when a connection is accepted on it and the descriptor table does not list it. */
  function Lost(k: Kernel, a: Answers): set<int> {
    if a.accepts && !a.listed && Grant(k, a.handle) != INVALID then {a.handle} else {}
  }

  /** `accept` hands out a connected socket with a new handle, or closes the handle, or loses it. */
  lemma AcceptAccounts(k: Kernel, s: Sock, a: Answers)
    requires Sound(k, s)
    ensures var (k', taken) := Accept(k, s, a);
            var owned := if taken.Some? then Holding(taken.value) else {};
            && Sound(k', s)
            && k'.open == k.open + owned + Lost(k, a)
            && owned !! k.open && Lost(k, a) !! k.open && owned !! Lost(k, a)
            && (taken.Some? ==> taken.value.connected && owned != {})
  {
    hide Sound;
    GrantAccounts(k, s, a.handle);
    if Grant(k, a.handle) != INVALID && !a.accepts {
      assert (k.open + {a.handle}) - {a.handle} == k.open;
    }
  }

  /** Creating a handle and closing it again leave the other sockets as they were. */
  lemma GrantAccounts(k: Kernel, s: Sock, offer: int)
    requires Sound(k, s)
    ensures var k1 := Opened(k, offer);
            && Sound(k1, s) && Sound(Closed(k1, Grant(k, offer)), s)
            && k1.open == k.open + (if Grant(k, offer) == INVALID then {} else {offer})
            && (Grant(k, offer) != INVALID ==> offer !in k.open && Grant(k, offer) == offer)
            && Closed(k1, Grant(k, offer)).open == k.open
  {
    if Grant(k, offer) != INVALID {
      assert (k.open + {offer}) - {offer} == k.open;
    }
  }

  lemma SslAcceptAccounts(k: Kernel, s: Sock, a: Answers)
    requires Sound(k, s)
    ensures var (k', taken) := SslAccept(k, s, a);
            var owned := if taken.Some? then Holding(taken.value) else {};
            && Sound(k', s)
            && k'.open == k.open + owned + Lost(k, a)
            && owned !! k.open && Lost(k, a) !! k.open && owned !! Lost(k, a)
            && (taken.Some? ==> taken.value.connected && owned != {})
  {
    hide Accept;
    AcceptAccounts(k, s, a);
    var (k1, taken) := Accept(k, s, a);
    if taken.Some? {
      CloseExchanges(k1, taken.value);
    }
  }

  // ------------------------------------------------------------- whole runs

  /** All live sockets, and the handles that were lost. */
  datatype World = World(k: Kernel, socks: map<nat, Sock>, lost: set<int>)

  datatype Action =
    | Make(id: nat, family: int)
    | Destroy(id: nat)
    | DoClose(id: nat)
    | DoBind(id: nat, to: Address, a: Answers)
    | DoConnect(id: nat, to: Address, a: Answers)
    | DoReconnect(id: nat, a: Answers)
    | DoAccept(id: nat, taken: nat, ssl: bool, a: Answers)
    | DoCheck(id: nat, a: Answers)

  /** Whether the action names sockets as it should: a live one to work on, an unused name for a new one. */
  predicate Fits(w: World, act: Action) {
    && (if act.Make? then act.id !in w.socks else act.id in w.socks)
    && (act.DoAccept? ==> act.taken !in w.socks)
  }

  /** What one action makes of the kernel and of the socket it works on. */
  function OnSocket(k: Kernel, s: Sock, act: Action): (Kernel, Sock) {
    match act
    case DoClose(_) => (Close(k, s).0, Close(k, s).1)
    case Destroy(_) => (Close(k, s).0, Close(k, s).1)
    case DoBind(_, to, a) => (Bind(k, s, to, a).0, Bind(k, s, to, a).1)
    case DoConnect(_, to, a) => (Connect(k, s, to, a.handle, a.connects).0, Connect(k, s, to, a.handle, a.connects).1)
    case DoReconnect(_, a) => (Reconnect(k, s, a).0, Reconnect(k, s, a).1)
    case DoCheck(_, a) => (k, CheckConnected(s, a))
    case _ => (k, s)
  }

  function Accepts(k: Kernel, s: Sock, ssl: bool, a: Answers): (Kernel, Option<Sock>) {
    if ssl then SslAccept(k, s, a) else Accept(k, s, a)
  }

  function Apply(w: World, act: Action): World {
    if !Fits(w, act) then w
    else if act.Make? then w.(socks := w.socks[act.id := Fresh(act.family)])
    else if act.DoAccept? then
      var (k, taken) := Accepts(w.k, w.socks[act.id], act.ssl, act.a);
      World(k, if taken.Some? then w.socks[act.taken := taken.value] else w.socks, w.lost + Lost(w.k, act.a))
    else
      var (k, s) := OnSocket(w.k, w.socks[act.id], act);
      World(k, if act.Destroy? then w.socks - {act.id} else w.socks[act.id := s], w.lost)
  }

  function Run(acts: seq<Action>): World {
    if acts == [] then World(Kernel({}, 0, 0, 0), map[], {})
    else Apply(Run(acts[..|acts| - 1]), acts[|acts| - 1])
  }

  /** How many actions of the run lost a handle. */
  function Losses(acts: seq<Action>): nat {
    if acts == [] then 0
    else
      var w, act := Run(acts[..|acts| - 1]), acts[|acts| - 1];
      Losses(acts[..|acts| - 1]) + if Fits(w, act) && act.DoAccept? && Lost(w.k, act.a) != {} then 1 else 0
  }

  ghost predicate Owns(socks: map<nat, Sock>, h: int) {
    exists id :: id in socks && socks[id].handle == h
  }

  /** Every open handle has one owner or is lost; nothing is closed twice; a connected socket has a handle. */
  ghost predicate Accounted(w: World) {
    && (forall id :: id in w.socks ==> Sound(w.k, w.socks[id]) && Holding(w.socks[id]) !! w.lost)
    && (forall i, j :: i in w.socks && j in w.socks && i != j ==> Holding(w.socks[i]) !! Holding(w.socks[j]))
    && (forall h :: h in w.k.open ==> h in w.lost || Owns(w.socks, h))
    && w.lost <= w.k.open
    && w.k.created == w.k.closed + |w.k.open| && w.k.stray == 0
    && INVALID !in w.k.open
  }

  lemma ExchangeKeepsAccount(w: World, id: nat, k: Kernel, s: Sock)
    requires Accounted(w) && id in w.socks && Exchanges(w.k, w.socks[id], k, s)
    ensures Accounted(World(k, w.socks[id := s], w.lost))
  {
    hide Holding, Sound, Owns;
    var w' := World(k, w.socks[id := s], w.lost);
    OwnExchange(w.k, w.socks[id], k, s);
    forall j | j in w.socks && j != id
      ensures Sound(k, w.socks[j]) && Holding(w.socks[j]) !! Holding(s)
    {
      OthersKeep(w.k, w.socks[id], k, s, w.socks[j]);
    }
    forall h | h in k.open
      ensures h in w.lost || Owns(w'.socks, h)
    {
      OwnerAfter(w, id, k, s, h);
    }
  }

  lemma OwnExchange(k: Kernel, s: Sock, k': Kernel, s': Sock)
    requires Exchanges(k, s, k', s') && INVALID !in k.open
    ensures Sound(k', s') && k'.created == k'.closed + |k'.open| && k'.stray == 0
    ensures INVALID !in k'.open
    ensures forall lost: set<int> :: lost <= k.open && Holding(s) !! lost ==> lost <= k'.open && Holding(s') !! lost
  {
    assert forall h :: h in k'.open ==> h in k'.open - Holding(s') || h in Holding(s');
    forall lost: set<int> | lost <= k.open && Holding(s) !! lost
      ensures lost <= k'.open && Holding(s') !! lost
    {
      assert lost <= k.open - Holding(s);
    }
  }

  lemma OthersKeep(k: Kernel, s: Sock, k': Kernel, s': Sock, other: Sock)
    requires Exchanges(k, s, k', s') && Sound(k, other) && Holding(s) !! Holding(other)
    ensures Sound(k', other) && Holding(other) !! Holding(s')
  {
    assert Holding(other) <= k.open - Holding(s);
  }

  lemma OwnerAfter(w: World, id: nat, k: Kernel, s: Sock, h: int)
    requires id in w.socks && Exchanges(w.k, w.socks[id], k, s) && h in k.open && INVALID !in w.k.open
    requires forall h :: h in w.k.open ==> h in w.lost || Owns(w.socks, h)
    ensures h in w.lost || Owns(w.socks[id := s], h)
  {
    var socks := w.socks[id := s];
    if h in Holding(s) {
      assert socks[id].handle == h;
    } else {
      assert h in w.k.open - Holding(w.socks[id]);
      if h !in w.lost {
        var i :| i in w.socks && w.socks[i].handle == h;
        assert i != id;
        assert i in socks && socks[i].handle == h;
      }
    }
  }

  lemma DropKeepsAccount(w: World, id: nat)
    requires Accounted(w) && id in w.socks && w.socks[id].handle == INVALID
    ensures Accounted(w.(socks := w.socks - {id}))
  {
    hide Holding, Sound;
    var socks := w.socks - {id};
    forall h | h in w.k.open && h !in w.lost
      ensures Owns(socks, h)
    {
      var i :| i in w.socks && w.socks[i].handle == h;
      assert i in socks && socks[i].handle == h;
    }
  }

  /** A new socket joins with a handle, none, or with one handle lost. */
  lemma JoinKeepsAccount(w: World, id: nat, k: Kernel, s: Option<Sock>, lost: set<int>)
    requires Accounted(w) && id !in w.socks
    requires var owned := if s.Some? then Holding(s.value) else {};
             && k.open == w.k.open + owned + lost && owned !! w.k.open && lost !! w.k.open && owned !! lost
    requires k.created == k.closed + |k.open| && k.stray == 0 && INVALID !in lost
    requires s.Some? && s.value.connected ==> Holding(s.value) != {}
    ensures Accounted(World(k, if s.Some? then w.socks[id := s.value] else w.socks, w.lost + lost))
  {
    hide *;
    var w' := World(k, if s.Some? then w.socks[id := s.value] else w.socks, w.lost + lost);
    var owned := if s.Some? then Holding(s.value) else {};
    AccountedParts(w);
    forall j | j in w.socks
      ensures Sound(k, w.socks[j]) && Holding(w.socks[j]) !! w'.lost && Holding(w.socks[j]) !! owned
    {
      StaysSound(w.k, k, w.socks[j], owned, lost);
    }
    if s.Some? {
      NewSound(k, s.value);
    }
    forall h | h in k.open
      ensures h in w'.lost || Owns(w'.socks, h)
    {
      OwnerJoins(w, id, k, s, lost, h);
    }
    AccountedWhole(w');
  }

  /** The parts of `Accounted`, taken apart and put together. */
  lemma AccountedParts(w: World)
    requires Accounted(w)
    ensures forall id :: id in w.socks ==> Sound(w.k, w.socks[id]) && Holding(w.socks[id]) !! w.lost
    ensures forall i, j :: i in w.socks && j in w.socks && i != j ==> Holding(w.socks[i]) !! Holding(w.socks[j])
    ensures forall h :: h in w.k.open ==> h in w.lost || Owns(w.socks, h)
    ensures w.lost <= w.k.open && INVALID !in w.k.open
  {
  }

  lemma AccountedWhole(w: World)
    requires forall id :: id in w.socks ==> Sound(w.k, w.socks[id]) && Holding(w.socks[id]) !! w.lost
    requires forall i, j :: i in w.socks && j in w.socks && i != j ==> Holding(w.socks[i]) !! Holding(w.socks[j])
    requires forall h :: h in w.k.open ==> h in w.lost || Owns(w.socks, h)
    requires w.lost <= w.k.open && INVALID !in w.k.open && w.k.created == w.k.closed + |w.k.open| && w.k.stray == 0
    ensures Accounted(w)
  {
  }

  lemma StaysSound(k: Kernel, k': Kernel, s: Sock, owned: set<int>, lost: set<int>)
    requires Sound(k, s) && k'.open == k.open + owned + lost && owned !! k.open && lost !! k.open
    requires k'.created == k'.closed + |k'.open| && k'.stray == 0
    ensures Sound(k', s) && Holding(s) !! lost && Holding(s) !! owned
  {
  }

  lemma NewSound(k: Kernel, s: Sock)
    requires Holding(s) <= k.open && k.created == k.closed + |k.open| && k.stray == 0
    requires s.connected ==> Holding(s) != {}
    ensures Sound(k, s) && INVALID !in Holding(s)
  {
  }

  lemma OwnerJoins(w: World, id: nat, k: Kernel, s: Option<Sock>, lost: set<int>, h: int)
    requires forall h :: h in w.k.open ==> h in w.lost || Owns(w.socks, h)
    requires id !in w.socks && h in k.open
    requires k.open == w.k.open + (if s.Some? then Holding(s.value) else {}) + lost
    ensures h in w.lost + lost || Owns(if s.Some? then w.socks[id := s.value] else w.socks, h)
  {
    var socks := if s.Some? then w.socks[id := s.value] else w.socks;
    if h in w.k.open && h !in w.lost {
      var i :| i in w.socks && w.socks[i].handle == h;
      assert i in socks && socks[i].handle == h;
    } else if h !in w.k.open && h !in lost {
      assert socks[id].handle == h;
    }
  }

  lemma OnSocketExchanges(k: Kernel, s: Sock, act: Action)
    requires Sound(k, s)
    ensures Exchanges(k, s, OnSocket(k, s, act).0, OnSocket(k, s, act).1)
    ensures act.Destroy? ==> OnSocket(k, s, act).1.handle == INVALID
  {
    hide Exchanges, Close, Connect, Bind, Sound;
    match act
    case DoClose(_) => CloseExchanges(k, s);
    case Destroy(_) => CloseExchanges(k, s);
    case DoBind(_, to, a) => BindExchanges(k, s, to, a);
    case DoConnect(_, to, a) => ConnectExchanges(k, s, to, a.handle, a.connects);
    case DoReconnect(_, a) =>
      SameExchanges(k, s);
      if s.remote.Some? {
        ConnectExchanges(k, s, s.remote.value, a.handle, a.connects);
      }
    case DoCheck(_, a) => MarkExchanges(k, s, a.alive && s.handle != INVALID);
    case Make(_, _) => SameExchanges(k, s);
    case DoAccept(_, _, _, _) => SameExchanges(k, s);
  }

  lemma SameExchanges(k: Kernel, s: Sock)
    requires Sound(k, s)
    ensures Exchanges(k, s, k, s)
  {
  }

  lemma AcceptsAccounts(k: Kernel, s: Sock, ssl: bool, a: Answers)
    requires Sound(k, s)
    ensures var (k', taken) := Accepts(k, s, ssl, a);
            var owned := if taken.Some? then Holding(taken.value) else {};
            && Sound(k', s)
            && k'.open == k.open + owned + Lost(k, a)
            && owned !! k.open && Lost(k, a) !! k.open && owned !! Lost(k, a)
            && (taken.Some? ==> taken.value.connected && owned != {})
  {
    hide Sound, SslAccept, Accept;
    SslAcceptAccounts(k, s, a);
    AcceptAccounts(k, s, a);
  }

  lemma AccountedStep(w: World, act: Action)
    requires Accounted(w)
    ensures Accounted(Apply(w, act))
  {
    hide Accounted, Sound, Exchanges, OnSocket, Accepts, Lost;
    if Fits(w, act) {
      if act.Make? {
        FreshJoins(w, act.id, act.family);
      } else if act.DoAccept? {
        AcceptedJoins(w, act);
      } else {
        var s := w.socks[act.id];
        AccountedSock(w, act.id);
        OnSocketExchanges(w.k, s, act);
        var (k, s') := OnSocket(w.k, s, act);
        ExchangeKeepsAccount(w, act.id, k, s');
        if act.Destroy? {
          var w' := World(k, w.socks[act.id := s'], w.lost);
          DropKeepsAccount(w', act.id);
          assert w'.socks - {act.id} == w.socks - {act.id};
        }
      }
    }
  }

  lemma AccountedSock(w: World, id: nat)
    requires Accounted(w) && id in w.socks
    ensures Sound(w.k, w.socks[id])
  {
  }

  lemma FreshJoins(w: World, id: nat, family: int)
    requires Accounted(w) && id !in w.socks
    ensures Accounted(w.(socks := w.socks[id := Fresh(family)]))
  {
    hide Owns, Accounted;
    AccountedCounts(w);
    assert w.k.open == w.k.open + Holding(Fresh(family)) + {} && w.lost == w.lost + {};
    JoinKeepsAccount(w, id, w.k, Some(Fresh(family)), {});
  }

  lemma AccountedCounts(w: World)
    requires Accounted(w)
    ensures w.k.created == w.k.closed + |w.k.open| && w.k.stray == 0
  {
  }

  lemma AcceptedJoins(w: World, act: Action)
    requires Accounted(w) && act.DoAccept? && Fits(w, act)
    ensures Accounted(Apply(w, act))
  {
    hide Accounted, Accepts, Holding;
    AccountedSock(w, act.id);
    AcceptsAccounts(w.k, w.socks[act.id], act.ssl, act.a);
    var (k, taken) := Accepts(w.k, w.socks[act.id], act.ssl, act.a);
    JoinKeepsAccount(w, act.taken, k, taken, Lost(w.k, act.a));
  }

  /** After every run of every number of sockets the handles are accounted for. */
  lemma {:induction false} EveryRunAccounts(acts: seq<Action>)
    ensures Accounted(Run(acts))
    ensures |Run(acts).lost| == Losses(acts)
  {
    hide Accounted, Apply;
    if acts == [] {
      NothingOpen();
    } else {
      var front, act := acts[..|acts| - 1], acts[|acts| - 1];
      EveryRunAccounts(front);
      AccountedStep(Run(front), act);
      LostCount(Run(front), act);
    }
  }

  lemma NothingOpen()
    ensures Accounted(Run([]))
  {
  }

  lemma LostCount(w: World, act: Action)
    requires Accounted(w)
    ensures |Apply(w, act).lost| ==
            |w.lost| + if Fits(w, act) && act.DoAccept? && Lost(w.k, act.a) != {} then 1 else 0
  {
    hide OnSocket, Accepts;
    if Fits(w, act) && act.DoAccept? && Lost(w.k, act.a) != {} {
      assert act.a.handle !in w.lost;
      assert Apply(w, act).lost == w.lost + {act.a.handle};
    } else if Fits(w, act) && act.DoAccept? {
      assert w.lost + {} == w.lost;
    }
  }

  function Owned(socks: map<nat, Sock>): set<int> {
    set id | id in socks && socks[id].handle != INVALID :: socks[id].handle
  }

  /**
   * Handle conservation: what was created is closed, owned by a live socket, or was lost in an `accept` whose
   * handle the descriptor table did not list.
   */
  lemma HandlesAreConserved(acts: seq<Action>)
    ensures var w := Run(acts);
            && w.k.open == Owned(w.socks) + w.lost && Owned(w.socks) !! w.lost
            && w.k.created == w.k.closed + |Owned(w.socks)| + Losses(acts)
            && w.k.stray == 0
            && (forall i, j :: i in w.socks && j in w.socks && i != j && w.socks[i].handle != INVALID ==>
                  w.socks[i].handle != w.socks[j].handle)
            && (forall id :: id in w.socks && w.socks[id].connected ==> w.socks[id].handle in w.k.open)
  {
    hide Run, Losses;
    EveryRunAccounts(acts);
    var w := Run(acts);
    OwnedAndLost(w);
    assert |w.k.open| == |Owned(w.socks)| + |w.lost|;
    DistinctHandles(w);
  }

  lemma OwnedAndLost(w: World)
    requires Accounted(w)
    ensures w.k.open == Owned(w.socks) + w.lost && Owned(w.socks) !! w.lost
  {
    forall h | h in w.k.open && h !in w.lost
      ensures h in Owned(w.socks)
    {
      var id :| id in w.socks && w.socks[id].handle == h;
    }
    forall h | h in Owned(w.socks)
      ensures h in w.k.open && h !in w.lost
    {
      var id :| id in w.socks && w.socks[id].handle == h && h != INVALID;
      assert h in Holding(w.socks[id]);
    }
  }

  lemma DistinctHandles(w: World)
    requires Accounted(w)
    ensures forall i, j :: i in w.socks && j in w.socks && i != j && w.socks[i].handle != INVALID ==>
              w.socks[i].handle != w.socks[j].handle
    ensures forall id :: id in w.socks && w.socks[id].connected ==> w.socks[id].handle in w.k.open
  {
    forall i, j | i in w.socks && j in w.socks && i != j && w.socks[i].handle != INVALID
      ensures w.socks[i].handle != w.socks[j].handle
    {
      assert w.socks[i].handle in Holding(w.socks[i]);
      assert Holding(w.socks[i]) !! Holding(w.socks[j]);
    }
  }

  /** Every open handle has an owner if and only if no `accept` of the run lost one. */
  lemma NothingIsLostIff(acts: seq<Action>)
    ensures Run(acts).k.open == Owned(Run(acts).socks) <==> Losses(acts) == 0
    ensures Losses(acts) == 0 && Run(acts).socks == map[] ==> Run(acts).k.created == Run(acts).k.closed
  {
    hide Run, Losses;
    EveryRunAccounts(acts);
    HandlesAreConserved(acts);
    var w := Run(acts);
    if w.k.open == Owned(w.socks) {
      assert w.lost == {};
    }
    if w.socks == map[] {
      assert Owned(w.socks) == {};
    }
  }

  /** The loss is real: one socket accepts one connection whose handle the descriptor table does not list. */
  lemma RefusedHandleIsLost(family: int, a: Answers)
    requires a.accepts && !a.listed && a.handle >= 0
    ensures var w := Run([Make(0, family), DoAccept(0, 1, false, a)]);
            && w.k == Kernel({a.handle}, 1, 0, 0) && w.lost == {a.handle}
            && w.socks == map[0 := Fresh(family)] && Owned(w.socks) == {}
  {
    var acts := [Make(0, family), DoAccept(0, 1, false, a)];
    assert acts[..1] == [Make(0, family)] && [Make(0, family)][..0] == [];
    var w1 := Run([Make(0, family)]);
    assert Run([]) == World(Kernel({}, 0, 0, 0), map[], {});
    assert w1 == World(Kernel({}, 0, 0, 0), map[0 := Fresh(family)], {});
    assert Run(acts) == Apply(w1, acts[1]);
  }
}
