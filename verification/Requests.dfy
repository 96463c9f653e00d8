/**
 What a request on groups comes to, from the packet to the meaning of the tables, the answer and the mail: in terms of
 the numbers and texts of the protocol and of the groups before and after, for plain packets from known sockets.
 */
module Requests {
  import opened Errors
  import opened Decimal
  import opened Messages
  import opened Parser
  import opened Tables
  import opened SessionMaps
  import opened Servers
  import opened Dispatch
  import opened ServerRuns
  import opened InviteReplay
  import opened SyncRuns
  import B = Book
  import F = Refinement
  import S = Store
  import I = StoreInvariant
  import U = Runs

  // ---- a request and its outcome ----

  /** A plain packet with this code and these arguments, from a known socket at which the user is. */
  ghost predicate Asks(s: System, e: Event, user: string, code: int, args: seq<string>) {
    && Good(s) && Plain(s.store, e.text) && ParseText(e.text) == Ok(Message(code, args))
    && e.sock in Drained(s.sessions, e.gone).online && Drained(s.sessions, e.gone).online[e.sock] == user
  }

  /** Nothing happens, but that the reason is told to the socket. */
  ghost predicate Refused(s: System, e: Event, reason: string)
    requires Good(s) && Plain(s.store, e.text)
  {
    Served(s, e) == s.(sessions := Drained(s.sessions, e.gone),
                       sent := s.sent + [Outgoing(e.sock, "@500|" + reason + "||")])
  }

  /** The tables change, the mail is delivered, and the socket gets these answers. Nothing else happens. */
  ghost predicate Done(s: System, e: Event, answers: seq<string>)
    requires Good(s) && Plain(s.store, e.text)
  {
    var told := DeliverAll(s.(store := Served(s, e).store, sessions := Drained(s.sessions, e.gone)), Mail(s, e));
    Served(s, e) == told.(sent := told.sent + Map(answers, (t: string) => Outgoing(e.sock, t)))
  }

  ghost predicate HasAccount(s: System, user: string) {
    exists r :: r in s.users && r.username == user
  }

  /** The groups that the tables mean. */
  ghost function GroupsOf(st: S.Store): map<int, B.Group>
    requires S.Inv(st)
  {
    U.Meaning(st).groups
  }

  lemma AccountsAreRegistered(s: System, user: string)
    ensures Registered(s.users, user) <==> HasAccount(s, user)
  {
    var rows := Where(s.users, Named(user));
    if rows != [] {
      assert rows[0] in rows;
    }
    if HasAccount(s, user) {
      var r :| r in s.users && r.username == user;
      assert r in rows;
    }
  }

  lemma AskedIsReached(s: System, e: Event, user: string, code: int, args: seq<string>)
    requires Asks(s, e, user, code, args)
    ensures Reached(s, e) == Some(ActionOf(user, code, args, e.date))
    ensures NameAt(Drained(s.sessions, e.gone), e.sock) == user
    ensures Ready(s, e) == s.(sessions := Drained(s.sessions, e.gone)) && AllSendable(args)
  {
    var codeText := AcceptedIsFramed(e.text);
  }

  /** A request that throws. */
  lemma ThrownIsRefused(s: System, e: Event, user: string, code: int, args: seq<string>, x: Exception)
    requires Asks(s, e, user, code, args)
    requires Perform(Ready(s, e), e.sock, user, ActionOf(user, code, args, e.date), args) ==
             (Ready(s, e), Err(x))
    ensures Refused(s, e, What(x))
  {
    AskedIsReached(s, e, user, code, args);
    ServedByPerforming(s, e);
  }

  lemma StoreThrows(s: System, e: Event, user: string, code: int, args: seq<string>, op: S.Op, target: Option<string>,
                    x: Exception)
    requires Asks(s, e, user, code, args) && ActionOf(user, code, args, e.date) == OnStore(op, target)
    requires if target.Some? && !Registered(s.users, target.value) then x == WrongUsername
             else S.Apply(s.store, op).1 == Err(x)
    ensures Refused(s, e, What(x))
  {
    AskedIsReached(s, e, user, code, args);
    ThrownIsRefused(s, e, user, code, args, x);
  }

  lemma StoreServed(s: System, e: Event, user: string, code: int, args: seq<string>, op: S.Op, target: Option<string>)
    requires Asks(s, e, user, code, args) && ActionOf(user, code, args, e.date) == OnStore(op, target)
    requires (target.Some? ==> Registered(s.users, target.value)) && S.Apply(s.store, op).1.Ok?
    ensures op.Add? || op.Expel? ==> |args| > 0
    ensures Mail(s, e) == Notices(s.store, S.Apply(s.store, op).0, op, args)
    ensures Served(s, e) == PerformOnStore(Ready(s, e), e.sock, op, target, args).0
  {
    AskedIsReached(s, e, user, code, args);
    ServedByPerforming(s, e);
  }

  lemma StorePerformed(s: System, sock: int, op: S.Op, target: Option<string>, args: seq<string>)
    requires S.Inv(s.store) && (op.Add? || op.Expel? ==> |args| > 0)
    requires (target.Some? ==> Registered(s.users, target.value)) && S.Apply(s.store, op).1.Ok?
    ensures var store := S.Apply(s.store, op).0;
            var told := DeliverAll(s.(store := store), Notices(s.store, store, op, args));
            && told.store == store
            && PerformOnStore(s, sock, op, target, args).0 ==
                 if op.Create? then told.(sent := told.sent + [Outgoing(sock, Packet(102, [ToString(store.lastCode)]))])
                 else told
  {
    var store := S.Apply(s.store, op).0;
    DeliveryKeeps(s.(store := store), Notices(s.store, store, op, args));
  }

  lemma StoreDone(s: System, e: Event, user: string, code: int, args: seq<string>, op: S.Op, target: Option<string>)
    requires Asks(s, e, user, code, args) && ActionOf(user, code, args, e.date) == OnStore(op, target)
    requires (target.Some? ==> Registered(s.users, target.value)) && S.Apply(s.store, op).1.Ok?
    ensures Served(s, e).store == S.Apply(s.store, op).0
    ensures Done(s, e, if op.Create? then [Packet(102, [ToString(Served(s, e).store.lastCode)])] else [])
  {
    AskedIsReached(s, e, user, code, args);
    StoreServed(s, e, user, code, args, op, target);
    StorePerformed(Ready(s, e), e.sock, op, target, args);
    DoneIs(s, e, op, [Packet(102, [ToString(S.Apply(s.store, op).0.lastCode)])]);
  }

  lemma DoneIs(s: System, e: Event, op: S.Op, answer: seq<string>)
    requires Good(s) && Plain(s.store, e.text) && |answer| == 1
    requires var base := s.(store := S.Apply(s.store, op).0, sessions := Drained(s.sessions, e.gone));
             var told := DeliverAll(base, Mail(s, e));
             && told.store == base.store
             && Served(s, e) == if op.Create? then told.(sent := told.sent + [Outgoing(e.sock, answer[0])]) else told
    ensures Done(s, e, if op.Create? then answer else [])
  {
    var told := DeliverAll(s.(store := Served(s, e).store, sessions := Drained(s.sessions, e.gone)), Mail(s, e));
    assert told.sent + [] == told.sent;
  }

  lemma MovesByBook(st: S.Store, op: S.Op)
    requires S.Inv(st)
    ensures S.Inv(S.Apply(st, op).0) && U.Meaning(S.Apply(st, op).0) == B.ApplyBook(U.Meaning(st), op).0
    ensures S.Apply(st, op).1 == B.ApplyBook(U.Meaning(st), op).1
  {
    F.Simulate(st, U.Meaning(st), op);
    I.ApplyKeeps(st, op);
    B.MeaningIsUnique(S.Apply(st, op).0, U.Meaning(S.Apply(st, op).0), B.ApplyBook(U.Meaning(st), op).0);
  }

  /** What a request comes to: it is refused for a reason, or these are the groups afterwards. */
  datatype Outcome = Refusal(reason: string) | Change(groups: map<int, B.Group>)

  ghost predicate Comes(s: System, e: Event, o: Outcome)
    requires Good(s) && Plain(s.store, e.text)
  {
    match o
    case Refusal(reason) => Refused(s, e, reason)
    case Change(groups) => GroupsOf(Served(s, e).store) == groups && Done(s, e, [])
  }

  /** The outcome of an operation on the map. */
  function OnBook(b: B.Book, op: S.Op): Outcome {
    var (b', r) := B.ApplyBook(b, op);
    if r.Err? then Refusal(What(r.error)) else Change(b'.groups)
  }

  lemma StoreAccepted(s: System, e: Event, user: string, code: int, args: seq<string>, op: S.Op, target: Option<string>)
    requires Asks(s, e, user, code, args) && ActionOf(user, code, args, e.date) == OnStore(op, target) && !op.Create?
    requires (target.Some? ==> Registered(s.users, target.value)) && S.Apply(s.store, op).1.Ok?
    ensures op.Add? || op.Expel? ==> |args| > 0
    ensures GroupsOf(Served(s, e).store) == B.ApplyBook(U.Meaning(s.store), op).0.groups
    ensures Done(s, e, []) && Mail(s, e) == Notices(s.store, Served(s, e).store, op, args)
  {
    StoreDone(s, e, user, code, args, op, target);
    StoreServed(s, e, user, code, args, op, target);
    MovesByBook(s.store, op);
  }

  /** An operation on a group comes to what it is on the map, if its target has an account. */
  lemma StoreOutcome(s: System, e: Event, user: string, code: int, args: seq<string>, op: S.Op, target: Option<string>)
    requires Asks(s, e, user, code, args) && ActionOf(user, code, args, e.date) == OnStore(op, target) && !op.Create?
    ensures Comes(s, e, if target.Some? && !HasAccount(s, target.value) then Refusal("WrongUsernameException")
                        else OnBook(U.Meaning(s.store), op))
  {
    MovesByBook(s.store, op);
    if target.Some? {
      AccountsAreRegistered(s, target.value);
    }
    if target.Some? && !HasAccount(s, target.value) {
      StoreThrows(s, e, user, code, args, op, target, WrongUsername);
    } else if S.Apply(s.store, op).1.Err? {
      StoreThrows(s, e, user, code, args, op, target, S.Apply(s.store, op).1.error);
    } else {
      StoreAccepted(s, e, user, code, args, op, target);
    }
  }

  /** If it is accepted, the mail is that of the operation. */
  lemma StoreMail(s: System, e: Event, user: string, code: int, args: seq<string>, op: S.Op, target: Option<string>)
    requires Asks(s, e, user, code, args) && ActionOf(user, code, args, e.date) == OnStore(op, target) && !op.Create?
    requires (target.Some? ==> HasAccount(s, target.value)) && OnBook(U.Meaning(s.store), op).Change?
    ensures op.Add? || op.Expel? ==> |args| > 0
    ensures Mail(s, e) == Notices(s.store, Served(s, e).store, op, args)
  {
    MovesByBook(s.store, op);
    if target.Some? {
      AccountsAreRegistered(s, target.value);
    }
    StoreAccepted(s, e, user, code, args, op, target);
  }

  // ---- the mail of a broadcast ----

  /** Each member gets the message once, nobody else anything. */
  lemma BroadcastInbox(rows: seq<MemberRow>, code: int, message: string, x: string)
    requires Unique(rows, MemberKey)
    ensures Inbox(ToMembers(Where(rows, InGroup(code)), message), x) ==
            if x in S.Usernames(rows, code) then [message] else []
  {
    var members := Where(rows, InGroup(code));
    var es := ToMembers(members, message);
    OneEach(rows, code, message, x);
    var mine := Where(es, EnvelopesTo(x));
    forall k | 0 <= k < |mine| ensures mine[k].message == message {
      assert mine[k] in mine;
    }
  }

  lemma Broadcast(rows: seq<MemberRow>, code: int, message: string)
    requires Unique(rows, MemberKey)
    ensures forall x :: Inbox(ToMembers(Where(rows, InGroup(code)), message), x) ==
                        if x in S.Usernames(rows, code) then [message] else []
  {
    forall x ensures Inbox(ToMembers(Where(rows, InGroup(code)), message), x) ==
                     if x in S.Usernames(rows, code) then [message] else []
    {
      BroadcastInbox(rows, code, message, x);
    }
  }

  lemma MembersByMeaning(st: S.Store, code: int)
    requires S.Inv(st) && code in GroupsOf(st)
    ensures S.Usernames(st.members, code) == GroupsOf(st)[code].members.Keys
  {
    B.SeesMembersOf(st, U.Meaning(st), code);
  }
  // ---- the mail arrives ----

  function StoredTexts(rows: seq<PacketRow>, x: string): seq<string> {
    Map(Where(rows, RowsOf(x)), (r: PacketRow) => r.message)
  }

  /** What is stored for a user of the mail of offline users: the user's mail, in order, if the user is one of them. */
  lemma {:induction false} StoredIsInbox(last: nat, opposite: map<string, int>, es: seq<Envelope>, x: string)
    ensures StoredTexts(Stored(last, Where(es, Not(Online(opposite)))), x) == if x in opposite then [] else Inbox(es, x)
  {
    if es == [] {
      assert Stored(last, Where(es, Not(Online(opposite)))) == [];
    } else {
      var n := |es| - 1;
      StoredIsInbox(last, opposite, es[..n], x);
      assert es == es[..n] + [es[n]];
      OneMoreText(last, opposite, es[..n], es[n], x);
      InboxConcat(es[..n], [es[n]], x);
      OneInbox(es[n], x);
    }
  }

  lemma StoredTextsGrow(rows: seq<PacketRow>, row: PacketRow, x: string)
    ensures StoredTexts(rows + [row], x) == StoredTexts(rows, x) + if row.username == x then [row.message] else []
  {
    WhereAppend(rows, row, RowsOf(x));
    if row.username != x {
      assert Where(rows, RowsOf(x)) + [] == Where(rows, RowsOf(x));
    }
  }

  lemma OneMoreText(last: nat, opposite: map<string, int>, es: seq<Envelope>, e: Envelope, x: string)
    ensures StoredTexts(Stored(last, Where(es + [e], Not(Online(opposite)))), x) ==
            StoredTexts(Stored(last, Where(es, Not(Online(opposite)))), x) +
            if e.to == x && x !in opposite then [e.message] else []
  {
    var offline := Where(es, Not(Online(opposite)));
    WhereAppend(es, e, Not(Online(opposite)));
    if e.to in opposite {
      assert offline + [] == offline;
      assert StoredTexts(Stored(last, offline), x) + [] == StoredTexts(Stored(last, offline), x);
    } else {
      StoredGrow(last, offline, e);
      StoredTextsGrow(Stored(last, offline), PacketRow(last + |offline| + 1, e.to, e.message), x);
    }
  }

  /**
   After a request that is done, each user's mail is where it belongs: for an online user, alone at the socket, it has
   been sent there, after what was sent before and before the answers; for an offline user it has been stored.
   */
  lemma MailArrives(s: System, e: Event, answers: seq<string>, x: string)
    requires Good(s) && Plain(s.store, e.text) && Done(s, e, answers) && Alone(Drained(s.sessions, e.gone), x)
    ensures var s', online := Served(s, e), x in Drained(s.sessions, e.gone).opposite;
            && |s.sent| <= |s'.sent| && |s.packets| <= |s'.packets|
            && StoredTexts(s'.packets[|s.packets|..], x) == (if online then [] else Inbox(Mail(s, e), x))
            && Seen(s'.sessions, s'.sent[|s.sent|..], x) ==
                 if !online then [] else
                 Inbox(Mail(s, e), x) + Seen(s'.sessions, Map(answers, (t: string) => Outgoing(e.sock, t)), x)
  {
    var base := s.(store := Served(s, e).store, sessions := Drained(s.sessions, e.gone));
    DeliveryKeeps(base, Mail(s, e));
    SeenOfDelivery(base, Mail(s, e), Map(answers, (t: string) => Outgoing(e.sock, t)), x);
    StoredByDelivery(base, Mail(s, e), x);
  }

  lemma StoredByDelivery(s: System, es: seq<Envelope>, x: string)
    ensures var s' := DeliverAll(s, es);
            && |s.packets| <= |s'.packets|
            && StoredTexts(s'.packets[|s.packets|..], x) == if x in s.sessions.opposite then [] else Inbox(es, x)
  {
    DeliveryIsConserved(s, es);
    StoredIsInbox(s.lastPacket, s.sessions.opposite, es, x);
    assert DeliverAll(s, es).packets[|s.packets|..] ==
           Stored(s.lastPacket, Where(es, Not(Online(s.sessions.opposite))));
  }
}
