/** What a message from the pool does to a stratum client: the specification of `processResponse` in
    `libpoolprotocols/stratum/EthStratumClient.cpp`, and what follows from it for the messages of one read. */
module StratumMessages {

  import opened Arith

  const STRATUM: nat := 0
  const ETHPROXY: nat := 1
  const ETHEREUMSTRATUM: nat := 2
  const ETHEREUMSTRATUM2: nat := 3

  datatype Session = Session(subscribed: bool, authorized: bool, firstMiningSet: bool)

  /** The "method" member. */
  datatype Method = NoMethod | MiningNotify | SetDifficulty | SetExtranonce | MiningSet | MiningBye | OtherMethod

  /** The job data of a message: whether there is a non-empty array, whether it has exactly the four members
      of a mining.notify in mode 3, whether its hashes are there, whether all its numbers parse. */
  datatype Notify = Notify(isArray: bool, isFour: bool, hashes: bool, parses: bool, job: string, header: nat)

  datatype Message = Message(
    id: nat, name: Method, errorFree: bool,
    rpcOk: bool,             // no "jsonrpc" member, or "2.0"
    hasBody: bool,           // params or result present
    resultIsArray: bool,
    isHello: bool,           // result has all members of an EthereumStratum/2.0.0 hello
    isSubscribe: bool,       // result announces EthereumStratum/1.0.0
    text: string,            // result, when it is a string
    flag: Option<bool>,      // result, when it is a boolean
    enonce: string, numbersParse: bool,
    paramsArray: bool, paramsObject: bool,
    notify: Notify)

  /** The part of client and connection that messages change; the mode is not among it, but decides. */
  datatype View = View(
    mode: nat, confirmed: bool, unrecoverable: bool,
    session: Option<Session>, authPending: bool, loginPending: bool,
    newJob: bool, job: string, header: nat)

  predicate IsNotification(m: Message) {
    m.name != NoMethod || m.id == 0
  }

  /** The pools of mode 1 send jobs without a method, or as the reply to request 5. */
  predicate IsWorkReply(m: Message, mode: nat) {
    m.name == NoMethod && mode == ETHPROXY && m.resultIsArray && (m.id == 0 || m.id == 5)
  }

  function NameOf(m: Message, mode: nat): Method {
    if IsWorkReply(m, mode) then MiningNotify else m.name
  }

  /** The first check: a message that fails it leads to a disconnection. */
  predicate Sane(m: Message) {
    m.rpcOk && (IsNotification(m) ==> m.hasBody)
  }

  /** The reply to one of our requests. */
  predicate IsReply(m: Message, mode: nat) {
    Sane(m) && !IsNotification(m) && !IsWorkReply(m, mode)
  }

  predicate IsLogin(m: Message) {
    m.rpcOk && !IsNotification(m) && m.id == 1
  }

  /** Whether a login reply says what the mode expects. */
  predicate LoginOk(m: Message, mode: nat) {
    match mode
    case 3 => m.isHello
    case 2 => m.isSubscribe
    case 1 => m.errorFree
    case 0 => m.errorFree
    case _ => false
  }

  /** A login reply that starts a new session in mode 3. */
  predicate IsHelloReply(m: Message, mode: nat) {
    IsLogin(m) && m.isHello && mode == ETHEREUMSTRATUM2
  }

  /** What has to hold for work to reach the farm: a confirmed mode and, in modes 0 to 2, a subscription or, in
      mode 3, a mining.set in this session. */
  predicate Gate(v: View) {
    && v.confirmed && v.session.Some?
    && (if v.mode == ETHEREUMSTRATUM2 then v.session.value.firstMiningSet else v.session.value.subscribed)
  }

  /** A job notification whose job id is taken over. */
  predicate Touches(v: View, m: Message) {
    && Sane(m) && !IsReply(m, v.mode) && NameOf(m, v.mode) == MiningNotify && Gate(v)
    && (if v.mode == ETHEREUMSTRATUM2 then m.notify.isFour else !v.newJob && m.notify.isArray)
  }

  /** ... and which is complete, so that the job is taken over. */
  predicate Accepts(v: View, m: Message) {
    Touches(v, m) && m.notify.parses && (v.mode == ETHEREUMSTRATUM ==> m.notify.hashes)
  }

  /** The reply to the login request: it confirms the mode and opens a session, or does not. */
  function AfterLogin(v: View, m: Message): View {
    var u := v.(loginPending := false);
    if (!m.errorFree && !v.confirmed) || v.mode > 3 then u
    else if !LoginOk(m, v.mode) then u.(unrecoverable := v.unrecoverable || v.confirmed)
    else
      u.(confirmed := true,
         session := Some(Session(v.mode != ETHEREUMSTRATUM2, v.mode == ETHPROXY, false)),
         authPending := v.authPending || v.mode == STRATUM
                        || (v.mode == ETHEREUMSTRATUM && (m.enonce == "" || m.numbersParse)))
  }

  /** The reply to the subscription request of mode 3. */
  function AfterSubscribe(v: View, m: Message): View {
    if m.text == "" then v.(unrecoverable := true)
    else if v.session.None? then v
    else v.(session := Some(v.session.value.(subscribed := true)), authPending := true)
  }

  /** The reply to the authorization request. */
  function AfterAuthorize(v: View, m: Message): View {
    var ok := m.errorFree && if v.mode == ETHEREUMSTRATUM2 then m.text != "" else m.flag != Some(false);
    if v.mode == ETHEREUMSTRATUM2 && !ok then v.(unrecoverable := true)
    else if v.session.None? then v.(authPending := false)
    else v.(authPending := false, session := Some(v.session.value.(authorized := ok)),
            unrecoverable := v.unrecoverable || !ok)
  }

  function AfterReply(v: View, m: Message): View {
    if m.id == 1 then AfterLogin(v, m)
    else if m.id == 2 && v.mode == ETHEREUMSTRATUM2 then AfterSubscribe(v, m)
    else if m.id == 3 then AfterAuthorize(v, m)
    else v
  }

  function AfterNotification(v: View, m: Message): View {
    if Accepts(v, m) then v.(job := m.notify.job, header := m.notify.header, newJob := true)
    else if Touches(v, m) then v.(job := m.notify.job)
    else if m.name == MiningSet && v.mode == ETHEREUMSTRATUM2 && m.paramsObject && v.session.Some?
         then v.(session := Some(v.session.value.(firstMiningSet := true)))
    else v
  }

  /** The client after one message. */
  function Respond(v: View, m: Message): View {
    if !Sane(m) then v
    else if IsReply(m, v.mode) then AfterReply(v, m)
    else if v.confirmed then AfterNotification(v, m)
    else v
  }

  /** A message that uses a session: without one, what the client does is undefined. */
  predicate NeedsSession(v: View, m: Message) {
    && Sane(m)
    && if IsReply(m, v.mode) then
         || (m.id == 2 && v.mode == ETHEREUMSTRATUM2 && m.text != "")
         || (m.id == 3 && (v.mode != ETHEREUMSTRATUM2 || (m.errorFree && m.text != "")))
       else
         v.confirmed && (
           || (m.name == SetDifficulty && v.mode == ETHEREUMSTRATUM && m.paramsArray)
           || (m.name == SetExtranonce && v.mode == ETHEREUMSTRATUM && m.enonce != "")
           || (m.name == MiningSet && v.mode == ETHEREUMSTRATUM2 && m.paramsObject))
  }

  /** A reply after which the client disconnects. */
  predicate ReplyDrops(v: View, m: Message) {
    match m.id
    case 1 => (!m.errorFree && !v.confirmed) || (v.mode <= ETHEREUMSTRATUM2 && !LoginOk(m, v.mode))
    case 2 => v.mode == ETHEREUMSTRATUM2 && m.text == ""
    case 3 =>
      if v.mode == ETHEREUMSTRATUM2 then !m.errorFree || m.text == ""
      else v.session.Some? && !(m.errorFree && m.flag != Some(false))
    case 999 =>
      && !m.errorFree
      && !(v.confirmed && v.session.Some? && v.session.value.subscribed && v.session.value.authorized)
    case _ => false
  }

  /** A message after which the client disconnects. */
  predicate Drops(v: View, m: Message) {
    if !Sane(m) then true
    else if IsReply(m, v.mode) then ReplyDrops(v, m)
    else v.confirmed && m.name == MiningBye && v.mode == ETHEREUMSTRATUM2
  }

  /** The client after the messages of one read. */
  function RespondAll(v: View, ms: seq<Message>): View {
    if ms == [] then v else Respond(RespondAll(v, ms[..|ms| - 1]), ms[|ms| - 1])
  }

  /** The positions of the jobs taken over ... */
  function Accepted(v: View, ms: seq<Message>): seq<nat> {
    if ms == [] then []
    else
      var n := |ms| - 1;
      Accepted(v, ms[..n]) + if Accepts(RespondAll(v, ms[..n]), ms[n]) then [n] else []
  }

  /** ... of the notifications whose job id was ... */
  function Touched(v: View, ms: seq<Message>): seq<nat> {
    if ms == [] then []
    else
      var n := |ms| - 1;
      Touched(v, ms[..n]) + if Touches(RespondAll(v, ms[..n]), ms[n]) then [n] else []
  }

  /** ... and of the last hello reply, or -1. */
  function LastHello(mode: nat, ms: seq<Message>): int {
    if ms == [] then -1
    else if IsHelloReply(ms[|ms| - 1], mode) then |ms| - 1
    else LastHello(mode, ms[..|ms| - 1])
  }

  function Logins(ms: seq<Message>): nat {
    if ms == [] then 0 else Logins(ms[..|ms| - 1]) + if IsLogin(ms[|ms| - 1]) then 1 else 0
  }

  /** A read from a pool that answers a login only when it was sent one. */
  predicate Honest(ms: seq<Message>, loginPending: bool) {
    Logins(ms) <= if loginPending then 1 else 0
  }

  function Last(s: seq<nat>): nat {
    if s == [] then 0 else s[|s| - 1]
  }

  // ---- one message

  /** No login is awaited while there is a session. */
  predicate Settled(v: View) {
    v.session.Some? ==> !v.loginPending
  }

  /** No message changes the mode, takes back a confirmation, or drops a session; only a login reply answers
      the login; only a hello reply in mode 3 can close an open gate. */
  predicate Keeps(v: View, m: Message, r: View) {
    && r.mode == v.mode && (v.confirmed ==> r.confirmed) && (v.session.Some? ==> r.session.Some?)
    && (Settled(v) ==> Settled(r)) && r.loginPending == (v.loginPending && !IsLogin(m))
    && (Gate(v) && !IsHelloReply(m, v.mode) ==> Gate(r))
  }

  /** A job is taken over exactly when the message is accepted, and then the gate is and stays open. */
  predicate TakesJob(v: View, m: Message, r: View) {
    && (r.newJob <==> v.newJob || Accepts(v, m))
    && r.job == (if Touches(v, m) then m.notify.job else v.job)
    && r.header == (if Accepts(v, m) then m.notify.header else v.header)
    && (Touches(v, m) ==> Gate(v) && Gate(r))
  }

  lemma LoginKeeps(v: View, m: Message)
    requires IsLogin(m)
    ensures Keeps(v, m, AfterLogin(v, m))
  {
    var r := AfterLogin(v, m);
    if Gate(v) && !IsHelloReply(m, v.mode) {
      assert Gate(r);
    }
  }

  lemma ReplyKeeps(v: View, m: Message)
    requires IsReply(m, v.mode)
    ensures Keeps(v, m, AfterReply(v, m))
  {
    if m.id == 1 {
      LoginKeeps(v, m);
    } else if m.id == 2 {
      SubscribeKeeps(v, m);
    } else if m.id == 3 {
      AuthorizeKeeps(v, m);
    }
  }

  lemma SubscribeKeeps(v: View, m: Message)
    requires !IsLogin(m)
    ensures Keeps(v, m, AfterSubscribe(v, m))
  {
  }

  lemma AuthorizeKeeps(v: View, m: Message)
    requires !IsLogin(m)
    ensures Keeps(v, m, AfterAuthorize(v, m))
  {
  }

  lemma NotificationKeeps(v: View, m: Message)
    requires Sane(m) && !IsReply(m, v.mode)
    ensures Keeps(v, m, AfterNotification(v, m))
  {
  }

  lemma RespondKeeps(v: View, m: Message)
    ensures Keeps(v, m, Respond(v, m))
  {
    if Sane(m) {
      if IsReply(m, v.mode) {
        ReplyKeeps(v, m);
      } else {
        NotificationKeeps(v, m);
      }
    }
  }

  lemma ReplyTakesNoJob(v: View, m: Message)
    ensures var r := AfterReply(v, m); r.newJob == v.newJob && r.job == v.job && r.header == v.header
  {
    if m.id == 1 {
      var r := AfterLogin(v, m);
      assert r.newJob == v.newJob && r.job == v.job && r.header == v.header;
    }
  }

  lemma NotificationTakesJob(v: View, m: Message)
    ensures TakesJob(v, m, AfterNotification(v, m))
  {
  }

  lemma RespondJob(v: View, m: Message)
    ensures TakesJob(v, m, Respond(v, m))
  {
    if Sane(m) {
      if IsReply(m, v.mode) {
        ReplyTakesNoJob(v, m);
      } else {
        NotificationTakesJob(v, m);
      }
    }
  }

  // ---- one read

  /** What every read keeps. */
  predicate ReadKeeps(v: View, r: View, logins: nat) {
    && r.mode == v.mode && (v.confirmed ==> r.confirmed) && (v.session.Some? ==> r.session.Some?)
    && (Settled(v) ==> Settled(r))
    && logins >= (if v.loginPending && !r.loginPending then 1 else 0)
  }

  lemma {:induction false} ReadAlwaysKeeps(v: View, ms: seq<Message>)
    ensures ReadKeeps(v, RespondAll(v, ms), Logins(ms))
    decreases |ms|
  {
    if ms != [] {
      var n := |ms| - 1;
      ReadAlwaysKeeps(v, ms[..n]);
      RespondKeeps(RespondAll(v, ms[..n]), ms[n]);
    }
  }

  /** Which message of a read its job comes from: the last of those taken over, and under the id of the last
      notification whose id was. */
  predicate JobFrom(v: View, r: View, ms: seq<Message>, acc: seq<nat>, tou: seq<nat>) {
    && (r.newJob <==> acc != [])
    && (acc != [] ==>
          && tou != [] && Last(acc) <= Last(tou) < |ms|
          && r.job == ms[Last(tou)].notify.job && r.header == ms[Last(acc)].notify.header
          && (v.mode != ETHEREUMSTRATUM2 ==> |acc| == 1 && Last(tou) == Last(acc)))
  }

  lemma {:induction false} ReadJob(v: View, ms: seq<Message>)
    requires !v.newJob
    ensures JobFrom(v, RespondAll(v, ms), ms, Accepted(v, ms), Touched(v, ms))
    decreases |ms|
  {
    if ms != [] {
      var n := |ms| - 1;
      ReadJob(v, ms[..n]);
      ReadAlwaysKeeps(v, ms[..n]);
      JobStep(v, RespondAll(v, ms[..n]), ms[..n], Accepted(v, ms[..n]), Touched(v, ms[..n]), ms[n], ms);
    }
  }

  /** One more message. */
  lemma JobStep(v: View, u: View, pre: seq<Message>, acc: seq<nat>, tou: seq<nat>, m: Message, ms: seq<Message>)
    requires JobFrom(v, u, pre, acc, tou) && ms == pre + [m] && u.mode == v.mode
    ensures JobFrom(v, Respond(u, m), ms, acc + (if Accepts(u, m) then [|pre|] else []),
                    tou + (if Touches(u, m) then [|pre|] else []))
  {
    RespondJob(u, m);
  }

  /** A mining.set that takes effect. */
  predicate Sets(v: View, m: Message) {
    && Sane(m) && !IsReply(m, v.mode) && v.confirmed && m.name == MiningSet && v.mode == ETHEREUMSTRATUM2
    && m.paramsObject && v.session.Some?
  }

  /** The position of the last one, or -1. */
  function LastSet(v: View, ms: seq<Message>): int {
    if ms == [] then -1
    else
      var n := |ms| - 1;
      if Sets(RespondAll(v, ms[..n]), ms[n]) then n else LastSet(v, ms[..n])
  }

  /** With a job waiting, the gate is closed exactly when, in mode 3, a hello reply came after the job and no mining.set
      after that. */
  predicate GateAfter(mode: nat, r: View, last: int, hello: int, sets: int) {
    && r.confirmed && r.session.Some? && r.mode == mode
    && (Gate(r) <==> !(mode == ETHEREUMSTRATUM2 && hello > last && sets < hello))
  }

  /** What a message that is neither a job taken over, nor a hello reply, nor a mining.set does to the gate: nothing. */
  lemma GateUntouched(v: View, m: Message)
    requires v.confirmed && v.session.Some? && !Accepts(v, m) && !IsHelloReply(m, v.mode) && !Sets(v, m)
    requires v.mode == ETHEREUMSTRATUM2 || Gate(v)
    ensures Gate(Respond(v, m)) == Gate(v)
  {
    RespondKeeps(v, m);
    if Sane(m) && IsReply(m, v.mode) && m.id == 1 {
      assert Gate(AfterLogin(v, m)) == Gate(v);
    }
  }

  lemma HelloCloses(v: View, m: Message)
    requires v.confirmed && IsHelloReply(m, v.mode)
    ensures !Gate(Respond(v, m))
  {
  }

  lemma SetOpens(v: View, m: Message)
    requires v.confirmed && v.session.Some? && Sets(v, m)
    ensures Gate(Respond(v, m)) && !Accepts(v, m) && !IsHelloReply(m, v.mode)
  {
  }

  /** One more message, at position `n`. */
  lemma GateStep(u: View, m: Message, last: int, hello: int, sets: int, n: nat)
    requires last < n && hello < n && sets < n && (Accepts(u, m) || GateAfter(u.mode, u, last, hello, sets))
    ensures GateAfter(u.mode, Respond(u, m), if Accepts(u, m) then n else last,
                      if IsHelloReply(m, u.mode) then n else hello, if Sets(u, m) then n else sets)
  {
    RespondKeeps(u, m);
    RespondJob(u, m);
    if Accepts(u, m) {
      assert !IsHelloReply(m, u.mode) && !Sets(u, m);
    } else if IsHelloReply(m, u.mode) {
      HelloCloses(u, m);
    } else if Sets(u, m) {
      SetOpens(u, m);
    } else {
      GateUntouched(u, m);
    }
  }

  lemma {:induction false} ReadGate(v: View, ms: seq<Message>)
    ensures LastHello(v.mode, ms) < |ms| && LastSet(v, ms) < |ms|
    ensures Accepted(v, ms) != [] ==>
              && Last(Accepted(v, ms)) < |ms|
              && GateAfter(v.mode, RespondAll(v, ms), Last(Accepted(v, ms)), LastHello(v.mode, ms), LastSet(v, ms))
    decreases |ms|
  {
    if ms != [] {
      var n := |ms| - 1;
      var u := RespondAll(v, ms[..n]);
      ReadGate(v, ms[..n]);
      ReadAlwaysKeeps(v, ms[..n]);
      if Accepts(u, ms[n]) || Accepted(v, ms[..n]) != [] {
        GateStep(u, ms[n], if Accepted(v, ms[..n]) == [] then -1 else Last(Accepted(v, ms[..n])),
                 LastHello(v.mode, ms[..n]), LastSet(v, ms[..n]), n);
      }
    }
  }

  /** A hello reply after a job is a login reply too many. */
  lemma {:induction false} HelloUnasked(v: View, ms: seq<Message>)
    requires Settled(v)
    ensures LastHello(v.mode, ms) < |ms|
    ensures Accepted(v, ms) != [] && LastHello(v.mode, ms) > Last(Accepted(v, ms)) ==>
              Logins(ms) > if v.loginPending then 1 else 0
    decreases |ms|
  {
    if ms != [] {
      var n := |ms| - 1;
      HelloUnasked(v, ms[..n]);
      ReadGate(v, ms[..n]);
      ReadAlwaysKeeps(v, ms[..n]);
    }
  }

  /** In modes 0 to 2 at most one job is taken over per read, the first, and it is dispatched whole with the gate
      open, whatever the pool sends. */
  lemma FirstJobDispatched(v: View, ms: seq<Message>)
    requires !v.newJob && v.mode != ETHEREUMSTRATUM2
    requires RespondAll(v, ms).newJob
    ensures |Accepted(v, ms)| == 1 && Gate(RespondAll(v, ms))
    ensures var k := Accepted(v, ms)[0];
            k < |ms| && RespondAll(v, ms).job == ms[k].notify.job && RespondAll(v, ms).header == ms[k].notify.header
  {
    ReadJob(v, ms);
    ReadGate(v, ms);
  }

  /** In mode 3 the last job taken over is dispatched; it is dispatched with its own job id if no later
      notification, itself incomplete, left its id behind. */
  lemma LastJobDispatched(v: View, ms: seq<Message>)
    requires !v.newJob && v.mode == ETHEREUMSTRATUM2
    requires RespondAll(v, ms).newJob
    ensures var k, j := Last(Accepted(v, ms)), Last(Touched(v, ms));
            && k <= j < |ms| && RespondAll(v, ms).header == ms[k].notify.header
            && RespondAll(v, ms).job == ms[j].notify.job
  {
    ReadJob(v, ms);
  }

  /** Whatever the pool sends: work is dispatched with the gate closed if and only if the mode is 3, a hello reply came
      after the last job taken over, and no mining.set took effect after that hello. */
  lemma GateAtDispatchIff(v: View, ms: seq<Message>)
    requires !v.newJob && RespondAll(v, ms).newJob
    ensures !Gate(RespondAll(v, ms)) <==>
              && v.mode == ETHEREUMSTRATUM2 && LastHello(v.mode, ms) > Last(Accepted(v, ms))
              && LastSet(v, ms) < LastHello(v.mode, ms)
  {
    ReadJob(v, ms);
    ReadGate(v, ms);
  }

  /** A pool that answers only logins it was sent never does that, so with it the gate is open in every mode. */
  lemma HonestPoolGate(v: View, ms: seq<Message>)
    requires !v.newJob && Settled(v) && RespondAll(v, ms).newJob && Honest(ms, v.loginPending)
    ensures Gate(RespondAll(v, ms))
  {
    GateAtDispatchIff(v, ms);
    ReadJob(v, ms);
    HelloUnasked(v, ms);
  }

  /** A mode is confirmed by no message but a login reply that says what the mode expects. */
  lemma {:induction false} ConfirmedByLogin(v: View, ms: seq<Message>) returns (k: nat)
    requires !v.confirmed && RespondAll(v, ms).confirmed
    ensures k < |ms| && IsLogin(ms[k]) && ms[k].errorFree && LoginOk(ms[k], v.mode)
    decreases |ms|
  {
    var n := |ms| - 1;
    var u := RespondAll(v, ms[..n]);
    ReadAlwaysKeeps(v, ms[..n]);
    if u.confirmed {
      k := ConfirmedByLogin(v, ms[..n]);
    } else {
      k := n;
    }
  }

  // ---- two reads worth knowing

  /** A job notification with everything it needs, or lacking a number that parses. */
  function Job(job: string, header: nat, complete: bool): Message {
    Message(0, MiningNotify, true, true, true, false, false, false, "", None, "", true, true, false,
            Notify(true, true, true, complete, job, header))
  }

  lemma TwoMessages(v: View, a: Message, b: Message)
    ensures RespondAll(v, [a, b]) == Respond(Respond(v, a), b)
  {
    assert [a, b][..1] == [a] && [a][..0] == [];
    assert RespondAll(v, [a]) == Respond(RespondAll(v, []), a);
  }

  /** Of two jobs in one read, modes 0 to 2 dispatch the first. */
  lemma FirstNotLast(v: View, h1: nat, h2: nat)
    requires Gate(v) && !v.newJob && v.mode != ETHEREUMSTRATUM2
    ensures var r := RespondAll(v, [Job("1", h1, true), Job("2", h2, true)]);
            r.newJob && r.job == "1" && r.header == h1
  {
    var a, b := Job("1", h1, true), Job("2", h2, true);
    TwoMessages(v, a, b);
    RespondJob(v, a);
    RespondJob(Respond(v, a), b);
    RespondKeeps(v, a);
  }

  /** In mode 3 an incomplete notification after a job sends that job out under a foreign id. */
  lemma ForeignJobId(v: View, h1: nat, h2: nat)
    requires Gate(v) && !v.newJob && v.mode == ETHEREUMSTRATUM2
    ensures var r := RespondAll(v, [Job("1", h1, true), Job("2", h2, false)]);
            r.newJob && r.job == "2" && r.header == h1
  {
    var a, b := Job("1", h1, true), Job("2", h2, false);
    TwoMessages(v, a, b);
    RespondJob(v, a);
    RespondJob(Respond(v, a), b);
    RespondKeeps(v, a);
  }

  /** The reply that opens a session in mode 3. */
  function Hello(): Message {
    Message(1, NoMethod, true, true, true, false, true, false, "", None, "", true, false, false,
            Notify(false, false, false, false, "", 0))
  }

  function MiningSetMessage(): Message {
    Message(0, MiningSet, true, true, true, false, false, false, "", None, "", true, false, true,
            Notify(false, false, false, false, "", 0))
  }

  /** A job followed by a second hello in one read goes out with the gate closed; a mining.set after that opens it
      again in time. */
  lemma HelloClosesGate(v: View, h: nat)
    requires Gate(v) && !v.newJob && v.mode == ETHEREUMSTRATUM2
    ensures var r := RespondAll(v, [Job("1", h, true), Hello()]); r.newJob && !Gate(r)
    ensures var r := RespondAll(v, [Job("1", h, true), Hello(), MiningSetMessage()]); r.newJob && Gate(r)
  {
    var a, b, c := Job("1", h, true), Hello(), MiningSetMessage();
    TwoMessages(v, a, b);
    RespondJob(v, a);
    RespondKeeps(v, a);
    var u := Respond(v, a);
    RespondJob(u, b);
    HelloCloses(u, b);
    var w := Respond(u, b);
    RespondKeeps(u, b);
    RespondJob(w, c);
    SetOpens(w, c);
    assert [a, b, c][..2] == [a, b];
    assert RespondAll(v, [a, b, c]) == Respond(RespondAll(v, [a, b]), c);
  }
}
