/** The socket object: its methods update the handle, the connected mark and the remote address in place. */
module Sockets {
  import opened Bytes
  import Lives = SocketLives
  import opened SocketLives

  class Handles {
    var k: Kernel

    constructor ()
      ensures k == Kernel({}, 0, 0, 0)
    {
      k := Kernel({}, 0, 0, 0);
    }

    method OpenSocket(offer: int) returns (handle: int)
      modifies this
      ensures k == Opened(old(k), offer) && handle == Grant(old(k), offer)
    {
      handle := Grant(k, offer);
      k := Opened(k, offer);
    }

    method CloseSocket(handle: int)
      modifies this
      ensures k == Closed(old(k), handle)
    {
      k := Closed(k, handle);
    }
  }

  class Socket {
    var handle: int
    var connected: bool
    const family: int
    var remote: Option<Address>

    ghost function State(): Sock
      reads this
    {
      Sock(handle, connected, family, remote)
    }

    constructor (family: int)
      ensures State() == Fresh(family)
    {
      this.family := family;
      handle, connected, remote := INVALID, false, None;
    }

    /** The socket's books are in order: its handle is open, and it is connected only with one. */
    ghost predicate Valid(system: Handles)
      reads this, system
    {
      Sound(system.k, State())
    }

    method NewSock(system: Handles, offer: int)
      requires Valid(system)
      modifies this`handle, system
      ensures Valid(system)
      ensures old(handle) == INVALID ==> Exchanges(old(system.k), old(State()), system.k, State())
      ensures handle == if Usable(old(system.k), offer) then offer else old(handle)
      ensures (system.k, State()) == Lives.NewSock(old(system.k), old(State()), offer)
    {
      hide Exchanges, Sound;
      NewSockSound(system.k, State(), offer);
      if handle == INVALID {
        NewSockExchanges(system.k, State(), offer);
      }
      var sock := system.OpenSocket(offer);
      if sock != INVALID {
        handle := sock;
      }
    }

    method Close(system: Handles) returns (nothing: bool)
      requires Valid(system)
      modifies this`handle, this`connected, system
      ensures Valid(system) && Exchanges(old(system.k), old(State()), system.k, State())
      ensures handle == INVALID && !connected && (nothing ==> system.k == old(system.k))
      ensures nothing <==> old(handle) == INVALID
      ensures system.k.open == old(system.k.open) - old(Holding(State()))
      ensures (system.k, State(), nothing) == Lives.Close(old(system.k), old(State()))
    {
      hide Exchanges;
      CloseExchanges(system.k, State());
      ExchangesSound(system.k, State(), Lives.Close(system.k, State()).0, Lives.Close(system.k, State()).1);
      if !connected && handle == INVALID {
        return true;
      }
      connected := false;
      if handle != INVALID {
        system.CloseSocket(handle);
        handle := INVALID;
      }
      return false;
    }

    method Connect(system: Handles, to: Address, offer: int, connects: bool) returns (ok: bool)
      requires Valid(system)
      modifies this, system
      ensures Valid(system) && Exchanges(old(system.k), old(State()), system.k, State())
      ensures ok <==> to.family == family && connects && (old(handle) != INVALID || Usable(old(system.k), offer))
      ensures ok ==> connected
      ensures ok || to.family != family ==> handle == HandleOr(old(system.k), old(handle), offer)
      ensures to.family != family ==> connected == old(connected)
      ensures !ok && to.family == family ==> handle == INVALID && !connected
      ensures remote == Some(to)
      ensures (system.k, State(), ok) == Lives.Connect(old(system.k), old(State()), to, offer, connects)
    {
      hide Lives.Close, Lives.NewSock, Exchanges, Sound, Usable;
      ConnectOutcome(system.k, State(), to, offer, connects);
      ConnectExchanges(system.k, State(), to, offer, connects);
      ConnectSound(system.k, State(), to, offer, connects);
      RemoteExchanges(system.k, State(), to);
      ExchangesSound(system.k, State(), system.k, State().(remote := Some(to)));
      remote := Some(to);
      if handle == INVALID {
        NewSock(system, offer);
        if handle == INVALID {
          return false;
        }
      }
      if to.family != family {
        return false;
      }
      if !connects {
        var _ := Close(system);
        return false;
      }
      connected := true;
      return true;
    }

    method Reconnect(system: Handles, a: Answers) returns (ok: bool)
      requires Valid(system)
      modifies this, system
      ensures Valid(system) && Exchanges(old(system.k), old(State()), system.k, State())
      ensures ok <==> old(remote).Some? && old(remote).value.family == family && a.connects &&
                      (old(handle) != INVALID || Usable(old(system.k), a.handle))
      ensures ok ==> connected && remote == old(remote)
      ensures old(remote).None? ==> State() == old(State()) && system.k == old(system.k)
      ensures (system.k, State(), ok) == Lives.Reconnect(old(system.k), old(State()), a)
    {
      hide Lives.Connect, Exchanges, Sound;
      SameExchanges(system.k, State());
      if remote.None? {
        return false;
      }
      ok := Connect(system, remote.value, a.handle, a.connects);
    }

    /** Tries whether something listens on a unix address; the temporary socket ends with the call. */
    method Probe(system: Handles, to: Address, a: Answers) returns (taken: bool)
      requires Valid(system)
      modifies system
      ensures (system.k, taken) == Lives.Probe(old(system.k), to, a)
      ensures taken <==> to.family == UNIX && a.connects && Usable(old(system.k), a.probe)
      ensures system.k.open == old(system.k.open)
    {
      hide Lives.Connect, Lives.Close, Sound, Exchanges;
      ProbeExchanges(system.k, State(), to, a);
      FreshSound(system.k, State(), UNIX);
      var temp := new Socket(UNIX);
      taken := temp.Connect(system, to, a.probe, a.connects);
      var _ := temp.Close(system);
    }

    method Bind(system: Handles, to: Address, a: Answers) returns (ok: bool)
      requires Valid(system)
      modifies this`handle, system
      ensures Valid(system) && Exchanges(old(system.k), old(State()), system.k, State())
      ensures ok ==> handle != INVALID
      ensures ok <==> to.family == family && a.binds && (old(handle) != INVALID || Usable(old(system.k), a.handle)) &&
                      !Taken(old(system.k), to, a, handle)
      ensures handle == HandleOr(old(system.k), old(handle), a.handle)
      ensures (system.k, State(), ok) == Lives.Bind(old(system.k), old(State()), to, a)
    {
      hide Lives.Probe, Lives.NewSock, Exchanges, Sound;
      BindOutcome(system.k, State(), to, a);
      BindExchanges(system.k, State(), to, a);
      BindSound(system.k, State(), to, a);
      if handle == INVALID {
        NewSock(system, a.handle);
        if handle == INVALID {
          return false;
        }
      }
      if to.family != family {
        return false;
      }
      if to.unix {
        var taken := Probe(system, to, a);
        if taken {
          return false;
        }
      }
      return a.binds;
    }

    method Init(sock: int, a: Answers) returns (ok: bool)
      modifies this
      ensures (State(), ok) == Lives.Init(old(State()), sock, a)
    {
      if sock != INVALID && a.listed {
        handle, connected := sock, true;
        remote := Some(a.peer);
        return true;
      }
      return false;
    }

    method Accept(system: Handles, a: Answers) returns (taken: Socket?)
      requires Valid(system)
      modifies system
      ensures Valid(system)
      ensures taken != null <==> a.accepts && a.listed && Usable(old(system.k), a.handle)
      ensures taken != null ==> taken.handle == a.handle && taken.family == family
      ensures taken == null ==> system.k.open == old(system.k.open) + Lost(old(system.k), a)
      ensures taken != null ==> taken.Valid(system) && taken.connected &&
                                system.k.open == old(system.k.open) + {taken.handle} &&
                                taken.handle !in old(system.k.open)
      ensures system.k == Lives.Accept(old(system.k), State(), a).0
      ensures taken != null <==> Lives.Accept(old(system.k), State(), a).1.Some?
      ensures taken != null ==> fresh(taken) && Some(taken.State()) == Lives.Accept(old(system.k), State(), a).1
    {
      hide Sound;
      AcceptOutcome(system.k, State(), a);
      AcceptAccounts(system.k, State(), a);
      AcceptedSound(system.k, State(), a);
      var sock := new Socket(family);
      var newsock := system.OpenSocket(a.handle);
      if !a.accepts {
        system.CloseSocket(newsock);
        return null;
      }
      var ok := sock.Init(newsock, a);
      return if ok then sock else null;
    }

    /** The TLS variant: when the handshake fails the accepted socket is destroyed, which closes its handle. */
    method SslAccept(system: Handles, a: Answers) returns (taken: Socket?)
      requires Valid(system)
      modifies system
      ensures Valid(system)
      ensures taken != null <==> a.accepts && a.listed && Usable(old(system.k), a.handle) && a.handshake
      ensures taken != null ==> taken.handle == a.handle && taken.connected && taken.family == family
      ensures taken == null ==> system.k.open == old(system.k.open) + Lost(old(system.k), a)
      ensures system.k == Lives.SslAccept(old(system.k), State(), a).0
      ensures taken != null <==> Lives.SslAccept(old(system.k), State(), a).1.Some?
      ensures taken != null ==> fresh(taken) && Some(taken.State()) == Lives.SslAccept(old(system.k), State(), a).1
    {
      hide Lives.Accept, Lives.Close, Sound;
      AcceptOutcome(system.k, State(), a);
      SslAcceptAccounts(system.k, State(), a);
      taken := Accept(system, a);
      if taken != null && !a.handshake {
        var _ := taken.Close(system);
        taken := null;
      }
    }

    method CheckConnected(a: Answers) returns (alive: bool)
      modifies this`connected
      ensures State() == Lives.CheckConnected(old(State()), a) && alive == connected
      ensures alive <==> a.alive && handle != INVALID
    {
      connected := a.alive && handle != INVALID;
      return connected;
    }
  }

  lemma NewSockSound(k: Kernel, s: Sock, offer: int)
    requires Sound(k, s)
    ensures Sound(Lives.NewSock(k, s, offer).0, Lives.NewSock(k, s, offer).1)
  {
  }

  lemma ConnectSound(k: Kernel, s: Sock, to: Address, offer: int, connects: bool)
    requires Sound(k, s)
    ensures Sound(Lives.Connect(k, s, to, offer, connects).0, Lives.Connect(k, s, to, offer, connects).1)
  {
    hide Lives.Connect, Sound;
    ConnectExchanges(k, s, to, offer, connects);
    var (k', s', _) := Lives.Connect(k, s, to, offer, connects);
    ExchangesSound(k, s, k', s');
  }

  lemma BindSound(k: Kernel, s: Sock, to: Address, a: Answers)
    requires Sound(k, s)
    ensures Sound(Lives.Bind(k, s, to, a).0, Lives.Bind(k, s, to, a).1)
  {
    hide Lives.Bind, Sound;
    BindExchanges(k, s, to, a);
    ExchangesSound(k, s, Lives.Bind(k, s, to, a).0, Lives.Bind(k, s, to, a).1);
  }

  lemma AcceptedSound(k: Kernel, s: Sock, a: Answers)
    requires Sound(k, s)
    ensures var (k', taken) := Lives.Accept(k, s, a);
            taken.Some? ==> Sound(k', taken.value) && Lost(k, a) == {}
  {
    AcceptAccounts(k, s, a);
  }
}
