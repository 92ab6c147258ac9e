/** What the replies and notifications of a pool mean, in terms of what is in them: which login confirms a mode, which
    reply authorizes the worker, which message is a job, what makes the client give up the pool or disconnect. The
    other side of the specification in `StratumMessages`. */
module StratumReplies {
  import opened Arith
  import opened StratumMessages

  /** A reply to request `id`, as JSON-RPC. */
  predicate ReplyTo(m: Message, id: nat) {
    m.rpcOk && m.name == NoMethod && m.id == id
  }

  // ---- request 1: the login

  /** The reply is what a pool of that mode sends: a hello, a subscription to EthereumStratum/1.0.0, or anything
      without an error. */
  predicate Fits(m: Message, mode: nat) {
    || (mode == 3 && m.isHello)
    || (mode == 2 && m.isSubscribe)
    || (mode <= 1 && m.errorFree)
  }

  predicate LoggedIn(v: View, m: Message) {
    Fits(m, v.mode) && (m.errorFree || v.confirmed)
  }

  /** A login that fits confirms the mode and opens a session: subscribed at once but in mode 3, authorized at once in
      mode 1 only. Any other leads to a disconnection, and gives the pool up if the mode was confirmed before. */
  lemma LoginMeans(v: View, m: Message)
    requires ReplyTo(m, 1) && v.mode <= 3
    ensures var r := Respond(v, m);
            && !r.loginPending && r.mode == v.mode && (Drops(v, m) <==> !LoggedIn(v, m))
            && r.unrecoverable == (v.unrecoverable || (v.confirmed && !Fits(m, v.mode)))
            && (if LoggedIn(v, m) then r.confirmed && r.session == Some(Session(v.mode <= 2, v.mode == 1, false))
                else r.confirmed == v.confirmed && r.session == v.session)
  {
  }

  // ---- requests 2 and 3: subscription and authorization

  /** In mode 3 a subscription is granted with a session id; in the other modes the reply means nothing. */
  lemma SubscribeMeans(v: View, m: Message)
    requires ReplyTo(m, 2) && v.session.Some?
    ensures v.mode != 3 ==> Respond(v, m) == v && !Drops(v, m)
    ensures v.mode == 3 ==>
              var r, refused := Respond(v, m), m.text == "";
              && (Drops(v, m) <==> refused) && r.unrecoverable == (v.unrecoverable || refused)
              && r.session == Some(v.session.value.(subscribed := v.session.value.subscribed || !refused))
              && r.authPending == (v.authPending || !refused) && r.confirmed == v.confirmed
  {
  }

  /** Authorization is refused by an error or, in modes 0 to 2, by the result `false`, in mode 3 by the lack of a
      worker id. */
  predicate Refused(m: Message, mode: nat) {
    !m.errorFree || if mode == 3 then m.text == "" else m.flag == Some(false)
  }

  /** The worker is authorized exactly when it is not refused; a refusal gives the pool up and disconnects. */
  lemma AuthorizeMeans(v: View, m: Message)
    requires ReplyTo(m, 3) && v.session.Some?
    ensures var r, refused := Respond(v, m), Refused(m, v.mode);
            && (Drops(v, m) <==> refused) && r.unrecoverable == (v.unrecoverable || refused)
            && r.confirmed == v.confirmed && r.session.Some?
            && r.session.value.authorized == (if refused && v.mode == 3 then v.session.value.authorized else !refused)
            && r.session.value.subscribed == v.session.value.subscribed
            && r.authPending == (v.authPending && refused && v.mode == 3)
  {
  }

  /** Id 999, which some pools put on an error: it disconnects unless login and authorization are both through. Any
      other id changes nothing here. */
  lemma OtherReplyMeans(v: View, m: Message)
    requires m.rpcOk && m.name == NoMethod && m.id > 3 && !IsJobMessage(m, v.mode)
    ensures Respond(v, m) == v
    ensures Drops(v, m) <==>
              && m.id == 999 && !m.errorFree
              && !(v.confirmed && v.session.Some? && v.session.value.subscribed && v.session.value.authorized)
  {
  }

  // ---- notifications

  /** A job is announced by "mining.notify" or, in mode 1, by a result that is an array, without id or as the reply to
      request 5. */
  predicate IsJobMessage(m: Message, mode: nat) {
    || m.name == MiningNotify
    || (m.name == NoMethod && mode == 1 && m.resultIsArray && m.id in {0, 5})
  }

  /** When a job is taken over: the message is sound, the mode confirmed, and its contents complete for the mode; in
      modes 0 to 2 the session is subscribed and no job was taken over in this read, in mode 3 a mining.set was seen. */
  lemma JobMeans(v: View, m: Message)
    ensures Accepts(v, m) <==>
              && m.rpcOk && (m.hasBody || m.id == 5) && IsJobMessage(m, v.mode) && (m.name == MiningNotify ==> m.hasBody)
              && v.confirmed && v.session.Some? && m.notify.parses
              && (v.mode == 3 ==> v.session.value.firstMiningSet && m.notify.isFour)
              && (v.mode != 3 ==> v.session.value.subscribed && !v.newJob && m.notify.isArray)
              && (v.mode == 2 ==> m.notify.hashes)
  {
  }

  /** When its job id is: the same, but for completeness. */
  lemma JobIdMeans(v: View, m: Message)
    ensures Touches(v, m) <==>
              && m.rpcOk && (m.hasBody || m.id == 5) && IsJobMessage(m, v.mode) && (m.name == MiningNotify ==> m.hasBody)
              && v.confirmed && v.session.Some?
              && (v.mode == 3 ==> v.session.value.firstMiningSet && m.notify.isFour)
              && (v.mode != 3 ==> v.session.value.subscribed && !v.newJob && m.notify.isArray)
  {
  }

  /** A mining.set takes effect in a session of mode 3; a hello reply is a login reply of mode 3. */
  lemma SetAndHelloMean(v: View, m: Message)
    ensures Sets(v, m) <==> m.rpcOk && m.hasBody && m.name == MiningSet && m.paramsObject
                            && v.confirmed && v.mode == 3 && v.session.Some?
    ensures Sets(v, m) ==> Respond(v, m) == v.(session := Some(v.session.value.(firstMiningSet := true)))
    ensures IsLogin(m) <==> ReplyTo(m, 1)
    ensures IsHelloReply(m, v.mode) <==> ReplyTo(m, 1) && m.isHello && v.mode == 3
  {
  }

  /** A message that is no sound JSON-RPC, or announces something and has no contents. */
  predicate Malformed(m: Message) {
    !m.rpcOk || ((m.name != NoMethod || m.id == 0) && !m.hasBody)
  }

  lemma MalformedMeans(v: View, m: Message)
    requires Malformed(m)
    ensures Respond(v, m) == v && Drops(v, m)
  {
  }

  // ---- giving up and disconnecting

  /** A refusal that gives the pool up for good. */
  predicate GivesUp(v: View, m: Message) {
    || (ReplyTo(m, 1) && v.confirmed && v.mode <= 3 && !Fits(m, v.mode))
    || (ReplyTo(m, 2) && v.mode == 3 && m.text == "")
    || (ReplyTo(m, 3) && Refused(m, v.mode) && (v.mode == 3 || v.session.Some?))
  }

  lemma UnrecoverableIff(v: View, m: Message)
    ensures Respond(v, m).unrecoverable <==> v.unrecoverable || GivesUp(v, m)
  {
    if Malformed(m) {
      MalformedMeans(v, m);
    } else if ReplyTo(m, 1) && v.mode <= 3 {
      LoginMeans(v, m);
    } else if ReplyTo(m, 2) && v.session.Some? {
      SubscribeMeans(v, m);
    } else if ReplyTo(m, 3) && v.session.Some? {
      AuthorizeMeans(v, m);
    }
  }

  /** Over the messages of any read: a pool is given up only through one of these refusals. */
  lemma {:induction false} GivenUpOnlyByRefusal(v: View, ms: seq<Message>) returns (k: nat)
    requires !v.unrecoverable && RespondAll(v, ms).unrecoverable
    ensures k < |ms| && GivesUp(RespondAll(v, ms[..k]), ms[k])
    decreases |ms|
  {
    var n := |ms| - 1;
    var u := RespondAll(v, ms[..n]);
    if u.unrecoverable {
      k := GivenUpOnlyByRefusal(v, ms[..n]);
      assert ms[..n][..k] == ms[..k];
    } else {
      UnrecoverableIff(u, ms[n]);
      k := n;
    }
  }

  /** A login that fails while the mode is still being detected. */
  predicate DetectionFails(v: View, m: Message) {
    ReplyTo(m, 1) && !v.confirmed && (!m.errorFree || (v.mode <= 3 && !Fits(m, v.mode)))
  }

  /** An error under id 999 before the worker is through. */
  predicate LateError(v: View, m: Message) {
    && ReplyTo(m, 999) && !m.errorFree
    && !(v.confirmed && v.session.Some? && v.session.value.subscribed && v.session.value.authorized)
  }

  /** The pool says goodbye. */
  predicate Bye(v: View, m: Message) {
    v.mode == 3 && v.confirmed && m.name == MiningBye
  }

  /** The connection is dropped after a message exactly for one of these reasons. */
  lemma DropsIff(v: View, m: Message)
    ensures Drops(v, m) <==> Malformed(m) || GivesUp(v, m) || DetectionFails(v, m) || LateError(v, m) || Bye(v, m)
  {
    if Malformed(m) {
      MalformedMeans(v, m);
    } else if ReplyTo(m, 1) {
      LoginDropsIff(v, m);
    }
  }

  lemma LoginDropsIff(v: View, m: Message)
    requires ReplyTo(m, 1)
    ensures Drops(v, m) <==> GivesUp(v, m) || DetectionFails(v, m)
  {
  }
}
