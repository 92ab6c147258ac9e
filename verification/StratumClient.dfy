/** Connection, protocol detection and job handling of
    `libpoolprotocols/stratum/EthStratumClient.cpp`, over the flags of `libpoolprotocols/PoolURI.h`. Handlers
    run on one strand, so each is atomic; messages are abstract. */
module StratumClient {

  import opened Arith
  import opened StratumMessages

  const UNTESTED: nat := 999

  /** The flags of a pool's URI. `version` is what its scheme fixes, or `UNTESTED`. */
  class Uri {
    const version: nat
    var mode: nat
    var confirmed: bool
    var unrecoverable: bool
    var responds: bool
    ghost var silent: nat    // disconnects answered by silently trying the next mode, so far

    ghost predicate Valid()
      reads this
    {
      && (version <= 3 || version == UNTESTED) && (mode <= 3 || mode == UNTESTED)
      && (version <= 3 ==> (confirmed <==> mode != UNTESTED) && mode in {version, UNTESTED} && silent == 0)
      && (confirmed ==> mode != UNTESTED)
      && (responds && !confirmed && !unrecoverable ==> mode <= 3)
      && silent + (if mode == UNTESTED then 3 else mode) <= 3
    }

    constructor (version: nat)
      requires version <= 3 || version == UNTESTED
      ensures Valid() && this.version == version && mode == UNTESTED && silent == 0
      ensures !confirmed && !unrecoverable && !responds
    {
      this.version, mode, silent := version, UNTESTED, 0;
      confirmed, unrecoverable, responds := false, false, false;
    }
  }

  datatype Outcome = Done | Threw | Undefined   // Undefined: a session is used that there is none of

  class EthStratumClient {
    const conn: Uri
    var session: Option<Session>
    var connected: bool
    var connecting: bool
    var disconnecting: bool
    var authPending: bool
    var endpoints: nat          // addresses left to try
    var newJob: bool            // m_newjobprocessed
    var job: string             // m_current.job
    var header: nat             // m_current.header
    var loginPending: bool      // the login request has been sent and not answered; known to the pool only

    ghost predicate Valid()
      reads this, conn
    {
      conn.Valid()
    }

    /** No login is awaited while there is a session. */
    ghost predicate Settled()
      reads this
    {
      session.Some? ==> !loginPending
    }

    /** What messages can change, for the specification. */
    ghost function ViewOf(): View
      reads this, conn
    {
      View(conn.mode, conn.confirmed, conn.unrecoverable, session, authPending, loginPending, newJob, job, header)
    }

    /** A fresh client on a connection; `PoolClient::setConnection`. */
    constructor (conn: Uri, endpoints: nat)
      requires conn.Valid()
      modifies conn`responds
      ensures this.conn == conn && Valid() && !conn.responds && session.None? && !connecting && !loginPending
    {
      this.conn, this.endpoints := conn, endpoints;
      session, connected, connecting, disconnecting, authPending := None, false, false, false, false;
      newJob, job, header, loginPending := false, "", 0, false;
      new;
      conn.responds := false;
    }

    /** `disconnect_finalize`. During detection the next mode is tried without telling anyone; when there is
        none left the connection is given up for good. Otherwise the disconnection is notified. */
    method DisconnectFinalize() returns (notified: bool)
      requires Valid()
      modifies this, conn
      ensures Valid() && session.None? && Settled() && !disconnecting && !authPending
      ensures connecting == old(connecting) && connected == old(connected) && endpoints == old(endpoints)
      ensures !notified <==> old(!conn.unrecoverable && !conn.confirmed && conn.responds && conn.mode > 0)
      ensures !notified ==> conn.mode == old(conn.mode) - 1 && conn.silent == old(conn.silent) + 1
      ensures notified ==> conn.mode == old(conn.mode) && conn.silent == old(conn.silent)
      ensures conn.unrecoverable <==>
                old(conn.unrecoverable || (!conn.confirmed && conn.responds && conn.mode == 0))
      ensures conn.confirmed == old(conn.confirmed) && conn.responds == old(conn.responds)
    {
      session := None;
      loginPending := false;
      authPending, disconnecting := false, false;
      if !conn.unrecoverable {
        if !conn.confirmed && conn.responds {
          if conn.mode > 0 {
            conn.mode := conn.mode - 1;
            conn.silent := conn.silent + 1;
            return false;
          } else {
            conn.unrecoverable := true;
          }
        }
      }
      notified := true;
    }

    /** `start_connect`: `Some` is the outcome of a disconnection simulated because no address is left. */
    method StartConnect() returns (finalized: Option<bool>)
      requires Valid()
      modifies this, conn
      ensures Valid() && conn.confirmed == old(conn.confirmed) && (conn.confirmed ==> conn.mode == old(conn.mode))
      ensures finalized.Some? <==> old(!connecting && endpoints == 0)
      ensures connecting == (old(connecting) || finalized.None?)
      ensures finalized.Some? ==> session.None?
      ensures conn.silent == old(conn.silent) + if finalized == Some(false) then 1 else 0
      ensures finalized.None? ==> conn.mode == old(conn.mode) && session == old(session)
      ensures finalized.None? ==> loginPending == old(loginPending)
    {
      if connecting {
        return None;
      }
      connecting := true;
      if endpoints > 0 {
        return None;
      }
      connecting := false;
      var notified := DisconnectFinalize();
      return Some(notified);
    }

    /** `connect_handler`, for a socket that opened (or not) and a TLS handshake that succeeded (or not).
        `post` is what is posted next. */
    method ConnectHandler(open: bool, handshakeOk: bool) returns (post: Posted)
      requires Valid()
      modifies this, conn
      ensures Valid() && session == old(session) && conn.silent == old(conn.silent)
      ensures (session.None? || old(Settled() && !(open && handshakeOk))) ==> Settled()
      ensures old(conn.confirmed) ==> conn.confirmed && conn.mode == old(conn.mode)
      ensures !old(conn.confirmed) && conn.confirmed ==> conn.mode == conn.version <= 3
      ensures post == if !open then PostStartConnect else if !handshakeOk then PostDisconnect else Nothing
      ensures endpoints == if open || old(endpoints) == 0 then old(endpoints) else old(endpoints) - 1
      ensures conn.responds == (old(conn.responds) || open)
      ensures conn.unrecoverable == (old(conn.unrecoverable) || post == PostDisconnect)
      ensures post == Nothing ==> loginPending && conn.mode <= 3 && connected && !connecting
      ensures post == Nothing && conn.version == UNTESTED ==>
                && conn.confirmed == old(conn.confirmed)
                && conn.mode == if old(conn.mode) == UNTESTED then ETHEREUMSTRATUM2 else old(conn.mode)
    {
      connecting := false;
      if !open {
        endpoints := if endpoints > 0 then endpoints - 1 else 0;
        return PostStartConnect;
      }
      conn.responds := true;
      connected := true;
      if !handshakeOk {
        conn.unrecoverable := true;
        return PostDisconnect;
      }
      if conn.version < UNTESTED {
        conn.mode, conn.confirmed := conn.version, true;
      } else if !conn.confirmed && conn.mode == UNTESTED {
        conn.mode := ETHEREUMSTRATUM2;
      }
      loginPending := true;
      return Nothing;
    }

    /** The reply to the login request, in `processResponse`. */
    method ProcessLogin(m: Message) returns (outcome: Outcome, post: Posted)
      requires Valid() && m.id == 1
      modifies this`session, this`authPending, this`loginPending, conn
      ensures ViewOf() == AfterLogin(old(ViewOf()), m) && conn.silent == old(conn.silent)
      ensures conn.responds == old(conn.responds) && outcome != Undefined
      ensures post == if ReplyDrops(old(ViewOf()), m) then PostDisconnect else Nothing
    {
      loginPending := false;
      if !m.errorFree && !conn.confirmed {
        return Done, PostDisconnect;
      }
      if conn.mode > ETHEREUMSTRATUM2 {
        return Done, Nothing;
      }
      if !LoginOk(m, conn.mode) {
        if conn.confirmed {
          conn.unrecoverable := true;
        }
        return Done, PostDisconnect;
      }
      conn.confirmed := true;
      session := Some(Session(false, false, false));
      if conn.mode == ETHEREUMSTRATUM2 {
        return Done, Nothing;
      }
      session := Some(session.value.(subscribed := true));
      if conn.mode == ETHPROXY {
        session := Some(session.value.(authorized := true));
        return Done, Nothing;
      }
      if conn.mode == ETHEREUMSTRATUM && m.enonce != "" && !m.numbersParse {
        return Threw, Nothing;
      }
      authPending := true;
      return Done, Nothing;
    }

    /** The reply to the subscription request of mode 3, in `processResponse`. */
    method ProcessSubscribe(m: Message) returns (outcome: Outcome, post: Posted)
      requires Valid() && conn.mode == ETHEREUMSTRATUM2 && m.id == 2
      modifies this`session, this`authPending, conn`unrecoverable
      ensures ViewOf() == AfterSubscribe(old(ViewOf()), m)
      ensures outcome == Undefined <==> old(session).None? && m.text != ""
      ensures post == if ReplyDrops(old(ViewOf()), m) then PostDisconnect else Nothing
    {
      if m.text == "" {
        conn.unrecoverable := true;
        return Done, PostDisconnect;
      }
      if session.None? {
        return Undefined, Nothing;
      }
      session := Some(session.value.(subscribed := true));
      authPending := true;
      return Done, Nothing;
    }

    /** The reply to the authorization request, in `processResponse`. */
    method ProcessAuthorize(m: Message) returns (outcome: Outcome, post: Posted)
      requires Valid() && m.id == 3
      modifies this`session, this`authPending, conn`unrecoverable
      ensures ViewOf() == AfterAuthorize(old(ViewOf()), m)
      ensures outcome == Undefined <==>
                old(session).None? && (conn.mode != ETHEREUMSTRATUM2 || (m.errorFree && m.text != ""))
      ensures post == if ReplyDrops(old(ViewOf()), m) then PostDisconnect else Nothing
    {
      if conn.mode != ETHEREUMSTRATUM2 {
        var isSuccess := m.errorFree;
        if isSuccess && m.flag.Some? {
          isSuccess := m.flag.value;
        }
        authPending := false;
        if session.None? {
          return Undefined, Nothing;
        }
        session := Some(session.value.(authorized := isSuccess));
        if !isSuccess {
          conn.unrecoverable := true;
          return Done, PostDisconnect;
        }
        return Done, Nothing;
      }
      if !m.errorFree || m.text == "" {
        conn.unrecoverable := true;
        return Done, PostDisconnect;
      }
      authPending := false;
      if session.None? {
        return Undefined, Nothing;
      }
      session := Some(session.value.(authorized := true));
      return Done, Nothing;
    }

    /** The reply to one of our requests, in `processResponse`. */
    method ProcessReply(m: Message) returns (outcome: Outcome, post: Posted)
      requires Valid() && IsReply(m, conn.mode)
      modifies this`session, this`authPending, this`loginPending, conn
      ensures ViewOf() == AfterReply(old(ViewOf()), m) && conn.silent == old(conn.silent)
      ensures outcome == Undefined <==> old(session).None? && NeedsSession(old(ViewOf()), m)
      ensures conn.responds == old(conn.responds)
      ensures post == if ReplyDrops(old(ViewOf()), m) then PostDisconnect else Nothing
    {
      if m.id == 1 {
        outcome, post := ProcessLogin(m);
        return;
      }
      if m.id == 2 {
        if conn.mode == ETHEREUMSTRATUM2 {
          outcome, post := ProcessSubscribe(m);
          return;
        }
        return Done, Nothing;
      }
      if m.id == 3 {
        outcome, post := ProcessAuthorize(m);
        return;
      }
      if m.id == 999 && !m.errorFree {
        if !conn.confirmed || session.None? || !session.value.subscribed || !session.value.authorized {
          return Done, PostDisconnect;
        }
      }
      return Done, Nothing;
    }

    /** A notification, in `processResponse`, once the mode is confirmed. */
    method ProcessNotification(m: Message) returns (outcome: Outcome, post: Posted)
      requires Valid() && conn.confirmed && Sane(m) && !IsReply(m, conn.mode)
      modifies this`session, this`newJob, this`job, this`header
      ensures ViewOf() == AfterNotification(old(ViewOf()), m)
      ensures outcome == Undefined <==> old(session).None? && NeedsSession(old(ViewOf()), m)
      ensures post == if Drops(old(ViewOf()), m) then PostDisconnect else Nothing
    {
      var name := NameOf(m, conn.mode);
      if name == MiningNotify && conn.mode != ETHEREUMSTRATUM2 {
        if session.None? || !session.value.subscribed || newJob {
          return Done, Nothing;
        }
        if m.notify.isArray {
          job := m.notify.job;
          if conn.mode == ETHEREUMSTRATUM && !m.notify.hashes {
            return Done, Nothing;
          }
          if !m.notify.parses {
            return Threw, Nothing;
          }
          header := m.notify.header;
          newJob := true;
        }
        return Done, Nothing;
      }
      if name == MiningNotify {
        if session.None? || !session.value.firstMiningSet {
          return Done, Nothing;
        }
        if !m.notify.isFour {
          return Done, Nothing;
        }
        job := m.notify.job;
        if !m.notify.parses {
          return Threw, Nothing;
        }
        header := m.notify.header;
        newJob := true;
        return Done, Nothing;
      }
      if name == SetDifficulty && conn.mode == ETHEREUMSTRATUM {
        return if m.paramsArray && session.None? then Undefined else Done, Nothing;
      }
      if name == SetExtranonce && conn.mode == ETHEREUMSTRATUM {
        if m.enonce == "" {
          return Done, Nothing;
        }
        if session.None? {
          return Undefined, Nothing;
        }
        return if m.numbersParse then Done else Threw, Nothing;
      }
      if name == MiningSet && conn.mode == ETHEREUMSTRATUM2 {
        if !m.paramsObject {
          return Done, Nothing;
        }
        if session.None? {
          return Undefined, Nothing;
        }
        session := Some(session.value.(firstMiningSet := true));
        return if m.numbersParse then Done else Threw, Nothing;
      }
      if name == MiningBye && conn.mode == ETHEREUMSTRATUM2 {
        return Done, PostDisconnect;
      }
      return Done, Nothing;
    }

    /** `processResponse` */
    method ProcessResponse(m: Message) returns (outcome: Outcome, post: Posted)
      requires Valid()
      modifies this`session, this`authPending, this`loginPending, this`newJob, this`job, this`header, conn
      ensures Valid() && ViewOf() == Respond(old(ViewOf()), m) && conn.silent == old(conn.silent)
      ensures outcome == Undefined <==> old(session).None? && NeedsSession(old(ViewOf()), m)
      ensures post == if Drops(old(ViewOf()), m) then PostDisconnect else Nothing
    {
      RespondKeeps(ViewOf(), m);
      outcome, post := Done, Nothing;
      if !m.rpcOk || (IsNotification(m) && !m.hasBody) {
        post := PostDisconnect;
      } else if IsReply(m, conn.mode) {
        outcome, post := ProcessReply(m);
      } else if conn.confirmed {
        outcome, post := ProcessNotification(m);
      }
    }

    /** The messages of one read, in `onRecvSocketDataCompleted`: they are taken in turn, and then at most one job is
        dispatched. */
    method OnRead(messages: seq<Message>) returns (dispatched: Option<(string, nat)>)
      requires Valid()
      modifies this`session, this`authPending, this`loginPending, this`newJob, this`job, this`header, conn
      ensures Valid() && ViewOf() == RespondAll(old(ViewOf()).(newJob := false), messages)
      ensures conn.silent == old(conn.silent)
      ensures dispatched == if newJob then Some((job, header)) else None
    {
      newJob := false;
      ghost var v := ViewOf();
      var i := 0;
      while i < |messages|
        invariant 0 <= i <= |messages| && Valid() && conn.silent == old(conn.silent)
        invariant ViewOf() == RespondAll(v, messages[..i])
      {
        assert messages[..i + 1][..i] == messages[..i];
        var outcome, post := ProcessResponse(messages[i]);
        i := i + 1;
      }
      assert messages[..i] == messages;
      dispatched := if newJob then Some((job, header)) else None;
    }

    /** A read, whatever the pool sends: no mode changes and no confirmation is taken back. If the pool answers only
        logins it was sent, and none is awaited in a session, the gate is open whenever work is dispatched. */
    method Read(messages: seq<Message>) returns (gate: Option<bool>)
      requires Valid()
      modifies this`session, this`authPending, this`loginPending, this`newJob, this`job, this`header, conn
      ensures Valid() && conn.silent == old(conn.silent)
      ensures conn.mode == old(conn.mode) && (old(conn.confirmed) ==> conn.confirmed)
      ensures old(Settled()) ==> Settled()
      ensures gate.Some? <==> newJob
      ensures old(Settled()) && Honest(messages, old(loginPending)) ==> gate != Some(false)
    {
      ghost var before := ViewOf().(newJob := false);
      ReadAlwaysKeeps(before, messages);
      var dispatched := OnRead(messages);
      gate := None;
      if dispatched.Some? {
        if old(Settled()) && Honest(messages, old(loginPending)) {
          HonestPoolGate(before, messages);
        }
        gate := Some(Gate(View(conn.mode, conn.confirmed, conn.unrecoverable, session, authPending, loginPending,
                               newJob, job, header)));
      }
    }

    /** A read that fails. */
    method OnReadError() returns (post: Posted)
      requires Valid()
      modifies conn
      ensures Valid() && conn.mode == old(conn.mode) && conn.silent == old(conn.silent)
      ensures conn.confirmed == old(conn.confirmed)
      ensures post == if connected && !connecting && !disconnecting then PostDisconnect else Nothing
      ensures conn.unrecoverable == (old(conn.unrecoverable) || (post == PostDisconnect && authPending))
    {
      if connected && !connecting && !disconnecting {
        if authPending {
          conn.unrecoverable := true;
        }
        return PostDisconnect;
      }
      return Nothing;
    }

    /** `disconnect`. With TLS the rest follows once the stream is shut down. */
    method Disconnect(tlsOpen: bool) returns (finalized: Option<bool>)
      requires Valid()
      modifies this, conn
      ensures Valid() && conn.confirmed == old(conn.confirmed) && (conn.confirmed ==> conn.mode == old(conn.mode))
      ensures conn.silent == old(conn.silent) + if finalized == Some(false) then 1 else 0
      ensures finalized.Some? <==> !old(disconnecting) && !tlsOpen
      ensures finalized.Some? ==> session.None? && !connected && !disconnecting
      ensures finalized.None? ==> disconnecting && conn.mode == old(conn.mode) && session == old(session)
      ensures finalized.None? ==> loginPending == old(loginPending)
    {
      if disconnecting {
        return None;
      }
      disconnecting := true;
      connected := false;
      if tlsOpen {
        return None;
      }
      var notified := DisconnectFinalize();
      return Some(notified);
    }
  }

  /** What can happen on one connection, in any order and number, over any number of clients. */
  datatype Event =
    | NewClient(endpoints: nat)
    | StartConnecting
    | SocketOpens(open: bool, handshakeOk: bool)
    | Reads(messages: seq<Message>)
    | ReadFails
    | Disconnecting(tlsOpen: bool)
    | ShutDown

  /** What one event meets and comes to: whether there was a session and whether a login was awaited; whether it was a
      disconnection and, if so, whether that was notified; and, if work was dispatched, whether the gate was open. */
  datatype Effect = Effect(inSession: bool, awaited: bool, finalized: Option<bool>, gate: Option<bool>)

  /** A pool that answers only logins it was sent, read while no login is awaited in a session. */
  predicate Orderly(event: Event, e: Effect) {
    event.Reads? && !(e.inSession && e.awaited) && Honest(event.messages, e.awaited)
  }

  /** Any event. Only a socket that opens while a session is alive leaves a login awaited in a session. */
  method Handle(c: EthStratumClient, event: Event) returns (c': EthStratumClient, e: Effect)
    requires c.Valid()
    modifies c, c.conn
    ensures (c' == c || fresh(c')) && c'.conn == c.conn && c'.Valid()
    ensures e.inSession == old(c.session).Some? && e.awaited == old(c.loginPending)
    ensures old(c.conn.confirmed) ==> c.conn.confirmed && c.conn.mode == old(c.conn.mode)
    ensures c.conn.silent == old(c.conn.silent) + if e.finalized == Some(false) then 1 else 0
    ensures Orderly(event, e) ==> e.gate != Some(false)
    ensures !(e.inSession && e.awaited) && !(event.SocketOpens? && e.inSession) ==> c'.Settled()
  {
    c', e := c, Effect(c.session.Some?, c.loginPending, None, None);
    match event {
      case NewClient(endpoints) =>
        c' := new EthStratumClient(c.conn, endpoints);
      case StartConnecting =>
        var finalized := c.StartConnect();
        e := e.(finalized := finalized);
      case SocketOpens(open, handshakeOk) =>
        var post := c.ConnectHandler(open, handshakeOk);
      case Reads(messages) =>
        var gate := c.Read(messages);
        e := e.(gate := gate);
      case ReadFails =>
        var post := c.OnReadError();
      case Disconnecting(tlsOpen) =>
        var finalized := c.Disconnect(tlsOpen);
        e := e.(finalized := finalized);
      case ShutDown =>
        var notified := c.DisconnectFinalize();
        e := e.(finalized := Some(notified));
    }
  }

  /** Over every run on one connection, whatever the pool sends: at most three disconnects in its whole life are
      answered by silently trying another mode; once confirmed, its mode never changes, so that all the modes it ever
      has while confirmed are one and the same. And whenever the pool has answered only logins it was sent, and none is
      awaited in a session, work is dispatched only while the gate is open; a login comes to be awaited in a session
      only through a socket that opens while the session is alive. */
  method RunConnection(conn: Uri, events: seq<Event>) returns (silent: nat, effects: seq<Effect>, modes: seq<nat>)
    requires conn.Valid() && conn.silent == 0
    modifies conn
    ensures conn.Valid() && silent <= 3
    ensures forall i, j | 0 <= i < j < |modes| :: modes[i] == modes[j]
    ensures old(conn.confirmed) ==> conn.confirmed && conn.mode == old(conn.mode)
    ensures |effects| == |events|
    ensures forall k | 0 <= k < |events| :: Orderly(events[k], effects[k]) ==> effects[k].gate != Some(false)
    ensures (forall k | 0 <= k < |events| :: !(events[k].SocketOpens? && effects[k].inSession)) ==>
              forall k | 0 <= k < |events| :: !(effects[k].inSession && effects[k].awaited)
  {
    silent, effects, modes := 0, [], [];
    var c := new EthStratumClient(conn, 1);
    ghost var orderly := true;
    var i := 0;
    while i < |events|
      invariant 0 <= i <= |events| && fresh(c) && c.conn == conn && c.Valid() && silent == conn.silent
      invariant old(conn.confirmed) ==> conn.confirmed && conn.mode == old(conn.mode)
      invariant modes != [] ==> conn.confirmed
      invariant forall k | 0 <= k < |modes| :: modes[k] == conn.mode
      invariant |effects| == i
      invariant forall k | 0 <= k < i :: Orderly(events[k], effects[k]) ==> effects[k].gate != Some(false)
      invariant orderly <==> forall k | 0 <= k < i :: !(events[k].SocketOpens? && effects[k].inSession)
      invariant orderly ==> c.Settled() && forall k | 0 <= k < i :: !(effects[k].inSession && effects[k].awaited)
    {
      var e;
      c, e := Handle(c, events[i]);
      silent := silent + if e.finalized == Some(false) then 1 else 0;
      effects := effects + [e];
      orderly := orderly && !(events[i].SocketOpens? && e.inSession);
      if conn.confirmed {
        modes := modes + [conn.mode];
      }
      i := i + 1;
    }
  }

  datatype Posted = Nothing | PostDisconnect | PostStartConnect
}
