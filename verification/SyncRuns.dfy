/**
 Members over whole runs of the server: from an invitation on, a client that parses and replays everything that is sent
 to its user's socket holds the group as it is, after every packet, exactly as long as the user is online when something
 changes and the server does what it announces.
 */
module SyncRuns {
  import opened Errors
  import opened Decimal
  import opened Config
  import opened Parser
  import opened Messages
  import opened Tables
  import opened SessionMaps
  import opened Servers
  import opened Dispatch
  import opened ServerRuns
  import opened InviteReplay
  import opened BroadcastSync
  import B = Book
  import F = Refinement
  import S = Store
  import U = Runs
  import R = Restoring

  // ---- what a packet makes the server send to users ----

  /** The messages to users, in order. */
  ghost function MailOf(s: System, sock: int, username: string, action: Action, args: seq<string>): seq<Envelope>
    requires S.Inv(s.store)
    requires action.OnStore? && (action.op.Add? || action.op.Expel?) ==> |args| > 0
  {
    match action
    case LogIn(u, p) =>
      if LoginResult(s.users, s.sessions, sock, u, p).Ok? then [Envelope(u, Packet(PGM_SCC_LOGIN, [""]))] else []
    case RestoreGroups =>
      R.RecordsAreInhabited(s.store, username);
      [Envelope(username, R.RestoreText(R.Records(s.store, username)))]
    case OnStore(op, target) =>
      if OpOf(s, action).None? || S.Apply(s.store, op).1.Err? then []
      else Notices(s.store, S.Apply(s.store, op).0, op, args)
    case _ => []
  }

  /** A text that, if it parses at all, answers a request: it is none of the messages about members and items. */
  ghost predicate IsAnswer(text: string) {
    ParseText(text).Ok? ==> !IsNews(ParseText(text).value.code)
  }

  /** The messages about members and items. */
  predicate IsNews(code: int) {
    || code == PGM_CTR_NEW_USER || code == PGM_CTR_STATUS_CHANGED || code == PGM_CTR_USER_LEAVE
    || code == LST_SCC_ADD_ITEM || code == LST_SCC_REMOVE_ITEM || code == LST_SCC_SET_ITEM
  }

  lemma PacketIsAnswer(code: int, args: seq<string>)
    requires !IsNews(code)
    ensures IsAnswer(Packet(code, args))
  {
    if ParseText(Packet(code, args)).Ok? {
      PacketHead(code, args);
    }
  }

  lemma ErrorIsAnswer(e: Exception)
    ensures IsAnswer(ErrorReply(e))
  {
    var args := [What(e)];
    PacketGrows(500, [], What(e));
    assert [] + args == args;
    assert Digits(500) == Digits(50) + "0" && Digits(50) == Digits(5) + "0" && Digits(5) == "5";
    assert "@" + ToString(500) + "|" == "@500|";
    assert ErrorReply(e) == Packet(500, args);
    PacketIsAnswer(500, args);
  }

  /** These messages, and at most one reply to the socket, are all that a request sends. */
  lemma MailIsSent(s: System, sock: int, username: string, action: Action, args: seq<string>)
    returns (replies: seq<Outgoing>)
    requires S.Inv(s.store)
    requires action.OnStore? && (action.op.Add? || action.op.Expel?) ==> |args| > 0
    ensures |replies| <= 1 && forall r | r in replies :: r.sock == sock && IsAnswer(r.text)
    ensures Perform(s, sock, username, action, args).1.Err? ==>
              replies == [] && MailOf(s, sock, username, action, args) == []
    ensures var done := Perform(s, sock, username, action, args).0;
            var told := DeliverAll(s.(users := done.users, store := done.store, sessions := done.sessions),
                                   MailOf(s, sock, username, action, args));
            done == told.(sent := told.sent + replies)
  {
    replies := [];
    var done := Perform(s, sock, username, action, args).0;
    match action
    case SignUp(u, p) =>
      if RegisterResult(s.users, u, p).Ok? {
        replies := [Outgoing(sock, Packet(PGM_SCC_REGISTER, [""]))];
        PacketIsAnswer(PGM_SCC_REGISTER, [""]);
      }
    case LogIn(u, p) =>
      if LoginResult(s.users, s.sessions, sock, u, p).Ok? {
        OneDelivery(s.(sessions := done.sessions), Envelope(u, Packet(PGM_SCC_LOGIN, [""])));
      }
    case ListGroups =>
      replies := done.sent[|s.sent|..];
      PacketIsAnswer(PGM_GET_GROUPS_LIST, Map(Map(Where(s.store.members, OfUser(username)), MemberCells), RowText));
    case RestoreGroups =>
      R.RecordsAreInhabited(s.store, username);
      OneDelivery(s, Envelope(username, R.RestoreText(R.Records(s.store, username))));
    case OnStore(op, target) =>
      replies := StoreMailIsSent(s, sock, username, action, args);
    case _ =>
  }

  lemma OneDelivery(s: System, e: Envelope)
    ensures DeliverAll(s, [e]) == Deliver(s, e)
  {
    assert [e][..0] == [];
  }

  lemma StoreMailIsSent(s: System, sock: int, username: string, action: Action, args: seq<string>)
    returns (replies: seq<Outgoing>)
    requires S.Inv(s.store) && action.OnStore?
    requires action.op.Add? || action.op.Expel? ==> |args| > 0
    ensures |replies| <= 1 && forall r | r in replies :: r.sock == sock && IsAnswer(r.text)
    ensures PerformOnStore(s, sock, action.op, action.target, args).1.Err? ==>
              replies == [] && MailOf(s, sock, username, action, args) == []
    ensures var done := PerformOnStore(s, sock, action.op, action.target, args).0;
            var told := DeliverAll(s.(users := done.users, store := done.store, sessions := done.sessions),
                                   MailOf(s, sock, username, action, args));
            done == told.(sent := told.sent + replies)
  {
    var op := action.op;
    var done := PerformOnStore(s, sock, op, action.target, args).0;
    replies := [];
    if OpOf(s, action).Some? && S.Apply(s.store, op).1.Ok? {
      var store := S.Apply(s.store, op).0;
      var told := DeliverAll(s.(store := store), Notices(s.store, store, op, args));
      DeliveryKeeps(s.(store := store), Notices(s.store, store, op, args));
      replies := done.sent[|told.sent|..];
      PacketIsAnswer(PGM_SCC_ACTE_CREATED, [ToString(store.lastCode)]);
    }
  }

  /** The state in which the request of a packet is performed. */
  ghost function Ready(s: System, e: Event): System {
    s.(sessions := Touch(Drained(s.sessions, e.gone), e.sock))
  }

  /** The messages to users that a packet causes. */
  ghost function Mail(s: System, e: Event): seq<Envelope>
    requires Good(s)
  {
    var a := Reached(s, e);
    if a.None? then []
    else MailOf(Ready(s, e), e.sock, NameAt(Drained(s.sessions, e.gone), e.sock), a.value, ParseText(e.text).value.args)
  }

  lemma ServedByPerforming(s: System, e: Event)
    requires Good(s) && Reached(s, e).Some?
    ensures var args := ParseText(e.text).value.args;
            var username := NameAt(Drained(s.sessions, e.gone), e.sock);
            var (done, r) := Perform(Ready(s, e), e.sock, username, Reached(s, e).value, args);
            Serve(s, e.gone, e.sock, e.text, e.date) ==
            if r.Err? then done.(sent := done.sent + [Outgoing(e.sock, ErrorReply(r.error))]) else done
  {
  }

  lemma RefusedAtOnce(s: System, e: Event) returns (reply: string)
    requires Good(s) && Reached(s, e).None?
    ensures IsAnswer(reply)
    ensures Serve(s, e.gone, e.sock, e.text, e.date) ==
            s.(sessions := Drained(s.sessions, e.gone), sent := s.sent + [Outgoing(e.sock, reply)])
  {
    var r := Handle(s.(sessions := Drained(s.sessions, e.gone)), e.sock, e.text, e.date).1;
    reply := ErrorReply(r.error);
    ErrorIsAnswer(r.error);
  }

  /** Nothing else leaves the server, except for one reply to the socket the packet came from. */
  lemma MailIsDelivered(s: System, e: Event) returns (replies: seq<Outgoing>)
    requires Good(s) && Plain(s.store, e.text)
    ensures |replies| <= 1 && forall r | r in replies :: r.sock == e.sock && IsAnswer(r.text)
    ensures var s' := Served(s, e);
            var told := DeliverAll(s.(users := s'.users, store := s'.store, sessions := s'.sessions), Mail(s, e));
            s' == told.(sent := told.sent + replies)
  {
    if Reached(s, e).None? {
      var reply := RefusedAtOnce(s, e);
      replies := [Outgoing(e.sock, reply)];
    } else {
      var args := ParseText(e.text).value.args;
      var username := NameAt(Drained(s.sessions, e.gone), e.sock);
      replies := MailIsSent(Ready(s, e), e.sock, username, Reached(s, e).value, args);
      ServedByPerforming(s, e);
      var r := Perform(Ready(s, e), e.sock, username, Reached(s, e).value, args).1;
      if r.Err? {
        replies := [Outgoing(e.sock, ErrorReply(r.error))];
        ErrorIsAnswer(r.error);
      }
    }
  }

  /** The operation on the tables that a packet gets accepted. */
  ghost function Accepted(s: System, e: Event): Option<S.Op>
    requires Good(s)
  {
    var a := Reached(s, e);
    if a.Some? && OpOf(s, a.value).Some? && S.Apply(s.store, a.value.op).1.Ok? then OpOf(s, a.value) else None
  }

  // ---- messages that do not matter to a group ----

  /** A client of the group passes over the message. */
  predicate Foreign(group: int, m: Result<Message>) {
    m.Ok? ==>
      || m.value.args == [] || Number(m.value.args[0]) != group
      || !IsNews(m.value.code)
  }

  lemma {:induction false} ForeignIsIgnored(group: int, c: B.Group, messages: seq<Result<Message>>)
    requires forall k :: 0 <= k < |messages| ==> Foreign(group, messages[k])
    ensures Read(group, c, messages) == c
  {
    if messages != [] {
      ForeignIsIgnored(group, c, messages[..|messages| - 1]);
    }
  }

  lemma ForeignMail(group: int, c: B.Group, mail: seq<Envelope>, user: string)
    requires forall e | e in mail :: Foreign(group, ParseText(e.message))
    ensures Replay(group, c, Inbox(mail, user)) == c
  {
    var mine := Where(mail, EnvelopesTo(user));
    forall k | 0 <= k < |mine| ensures Foreign(group, Parsed(Inbox(mail, user))[k]) {
      assert mine[k] in mine;
    }
    ForeignIsIgnored(group, c, Parsed(Inbox(mail, user)));
  }

  lemma PacketIsForeign(group: int, code: int, args: seq<string>)
    requires args != [] && args[0] != "" && '|' !in args[0] && Number(args[0]) != group
    ensures Foreign(group, ParseText(Packet(code, args)))
  {
    if ParseText(Packet(code, args)).Ok? {
      PacketHead(code, args);
    }
  }

  lemma RowIsForeign(group: int, m: MemberRow, i: ItemRow)
    ensures m.groupCode != group ==> Foreign(group, ParseText(Packet(PGM_CTR_NEW_USER, MemberCells(m))))
    ensures i.groupCode != group ==> Foreign(group, ParseText(Packet(LST_SCC_ADD_ITEM, ItemCells(i))))
  {
    NumberIsSendable(m.groupCode);
    NumberIsSendable(i.groupCode);
    NumberRead(m.groupCode);
    NumberRead(i.groupCode);
    if m.groupCode != group {
      PacketIsForeign(group, PGM_CTR_NEW_USER, MemberCells(m));
    }
    if i.groupCode != group {
      PacketIsForeign(group, LST_SCC_ADD_ITEM, ItemCells(i));
    }
  }

  lemma InvitationIsForeign(st: S.Store, code: int, codeText: string, user: string, status: string, group: int)
    requires Sendable(codeText) && Number(codeText) == code != group
    ensures forall e | e in InviteEnvelopes(st, code, codeText, user, status) :: Foreign(group, ParseText(e.message))
  {
    var args := [codeText, S.NameOf(st.groups, code), user, status];
    PacketIsForeign(group, PGM_CTR_NEW_USER, args);
    var members, items := Where(st.members, InGroup(code)), Where(st.lists, InList(code));
    var others := Where(members, Not(OfUser(user)));
    forall k | 0 <= k < |others| ensures Foreign(group, ParseText(MemberNotices(members, user)[k].message)) {
      assert others[k] in others && others[k] in members;
      RowIsForeign(group, others[k], ItemRow(0, "", 0, ""));
    }
    forall k | 0 <= k < |items| ensures Foreign(group, ParseText(ItemNotices(items, user)[k].message)) {
      assert items[k] in items;
      RowIsForeign(group, MemberRow(0, "", ""), items[k]);
    }
  }

  /** What members are told of one group is foreign to another. */
  lemma NoticesAreForeign(st: S.Store, st': S.Store, op: S.Op, args: seq<string>, group: int)
    requires !op.Create? && Requested(op, args) && Sendable(args[0]) && op.code != group
    ensures forall e | e in Notices(st, st', op, args) :: Foreign(group, ParseText(e.message))
  {
    forall code { PacketIsForeign(group, code, args); }
    if op.Add? {
      InvitationIsForeign(st', op.code, args[0], op.username, op.status, group);
    }
  }

  // ---- one packet ----

  /** The group as the tables have it. */
  ghost function Current(st: S.Store, group: int): B.Group
    requires S.Inv(st)
  {
    if group in U.Meaning(st).groups then U.Meaning(st).groups[group] else BLANK
  }

  ghost predicate HasUser(st: S.Store, group: int, user: string) {
    user in S.Usernames(st.members, group)
  }

  /** What the packet gets accepted within the group is done as announced. */
  ghost predicate FaithfulEvent(s: System, e: Event, group: int)
    requires Good(s)
  {
    var op := Accepted(s, e);
    op.Some? && Inner(op.value) && op.value.code == group ==> Faithful(U.Meaning(s.store), op.value)
  }

  /** The tables after a packet. */
  lemma TablesAfter(s: System, e: Event)
    requires Good(s) && Plain(s.store, e.text)
    ensures var op := Accepted(s, e);
            Served(s, e).store == if op.None? then s.store else S.Apply(s.store, op.value).0
  {
    ServeShape(s, e);
    var a := Reached(s, e);
    if a.Some? && OpOf(s, a.value).Some? && S.Apply(s.store, a.value.op).1.Err? {
      FailedApplyKeeps(s.store, a.value.op);
    }
  }

  /** The operation that is accepted is the one that was requested. */
  lemma AcceptedRequest(s: System, e: Event)
    requires Good(s) && Plain(s.store, e.text) && Accepted(s, e).Some?
    ensures var op, args := Accepted(s, e).value, ParseText(e.text).value.args;
            && S.Apply(s.store, op).1.Ok? && CleanOp(op) && AllSendable(args) && Requested(op, args)
            && S.PlainOp(s.store, op)
  {
    var m, username := ParseText(e.text).value, NameAt(Drained(s.sessions, e.gone), e.sock);
    var codeText := AcceptedIsFramed(e.text);
    ActionIsRequested(s.store, e.text, username, e.date);
    ActionIsClean(username, m.code, m.args, e.date);
  }

  /** Its mail are the notices. */
  lemma AcceptedMail(s: System, e: Event)
    requires Good(s) && Accepted(s, e).Some?
    ensures var op, args := Accepted(s, e).value, ParseText(e.text).value.args;
            && (op.Add? || op.Expel? ==> |args| > 0)
            && Mail(s, e) == Notices(s.store, S.Apply(s.store, op).0, op, args)
  {
    var m, username := ParseText(e.text).value, NameAt(Drained(s.sessions, e.gone), e.sock);
    assert Reached(s, e).value == ActionOf(username, m.code, m.args, e.date);
  }

  /** Without an accepted operation the mail of a packet says nothing about groups. */
  lemma OtherMailIsForeign(s: System, e: Event, group: int)
    requires Good(s) && Accepted(s, e).None?
    ensures forall m | m in Mail(s, e) :: Foreign(group, ParseText(m.message))
  {
    var a := Reached(s, e);
    if a.Some? {
      var username := NameAt(Drained(s.sessions, e.gone), e.sock);
      if a.value.LogIn? {
        LoginIsForeign(group);
      } else if a.value.RestoreGroups? {
        R.RecordsAreInhabited(s.store, username);
        RestoreIsForeign(group, R.Records(s.store, username));
      }
    }
  }

  lemma LoginIsForeign(group: int)
    ensures Foreign(group, ParseText(Packet(PGM_SCC_LOGIN, [""])))
  {
    if ParseText(Packet(PGM_SCC_LOGIN, [""])).Ok? {
      PacketHead(PGM_SCC_LOGIN, [""]);
    }
  }

  lemma RestoreIsForeign(group: int, records: seq<R.Record>)
    requires R.Inhabited(records)
    ensures Foreign(group, ParseText(R.RestoreText(records)))
  {
    if ParseText(R.RestoreText(records)).Ok? {
      PacketHead(RE_GET_RESTORE, R.RecordTexts(records));
    }
  }

  /** An accepted operation on another group, or a creation, is none of the group's business. */
  lemma OtherGroupsOperation(st: S.Store, b: B.Book, op: S.Op, args: seq<string>, group: int, user: string)
    requires S.Inv(st) && B.Represents(st, b) && group in b.groups && S.Apply(st, op).1.Ok?
    requires op.Create? || (Requested(op, args) && AllSendable(args) && op.code != group)
    ensures var b' := B.ApplyBook(b, op).0;
            group in b'.groups && b'.groups[group] == b.groups[group] && B.Represents(S.Apply(st, op).0, b')
    ensures op.Add? || op.Expel? ==> |args| > 0
    ensures Replay(group, b.groups[group], Inbox(Notices(st, S.Apply(st, op).0, op, args), user)) == b.groups[group]
  {
    F.Simulate(st, b, op);
    KnownCodes(st, b, group);
    OtherGroupKept(b, op, group);
    if !op.Create? {
      NoticesAreForeign(st, S.Apply(st, op).0, op, args, group);
    }
    ForeignMail(group, b.groups[group], Notices(st, S.Apply(st, op).0, op, args), user);
  }

  lemma OtherGroupKept(b: B.Book, op: S.Op, group: int)
    requires group in b.groups && group <= b.last && (op.Create? || op.code != group)
    ensures var b' := B.ApplyBook(b, op).0;
            group in b'.groups && b'.groups[group] == b.groups[group]
  {
  }

  lemma KnownCodes(st: S.Store, b: B.Book, group: int)
    requires S.Inv(st) && B.Represents(st, b) && group in b.groups
    ensures group <= b.last
  {
    var g :| g in st.groups && g.code == group;
    assert S.GoodGroup(st.lastCode, st.members, g);
  }

  lemma MemberSeesGroup(st: S.Store, group: int, user: string)
    requires S.Inv(st) && HasUser(st, group, user)
    ensures group in U.Meaning(st).groups && Current(st, group) == U.Meaning(st).groups[group]
  {
    var m :| m in st.members && m.groupCode == group && m.username == user;
    assert S.Refers(st.groups, m.groupCode);
  }

  lemma RemovalEndsMembership(st: S.Store, op: S.Op, user: string)
    requires S.Inv(st) && op.Remove? && S.Apply(st, op).1.Ok?
    ensures !HasUser(S.Apply(st, op).0, op.code, user)
  {
  }

  /** For a member who stays a member, the mail of a packet is worth the change of the group. */
  lemma MailKeepsSync(s: System, e: Event, group: int, user: string)
    requires Good(s) && Plain(s.store, e.text) && HasUser(s.store, group, user)
    requires HasUser(Served(s, e).store, group, user)
    ensures var now := Current(Served(s, e).store, group);
            Replay(group, Current(s.store, group), Inbox(Mail(s, e), user)) == now <==> FaithfulEvent(s, e, group)
  {
    TablesAfter(s, e);
    MemberSeesGroup(s.store, group, user);
    var st' := Served(s, e).store;
    MemberSeesGroup(st', group, user);
    var accepted := Accepted(s, e);
    if accepted.None? {
      OtherMailIsForeign(s, e, group);
      ForeignMail(group, Current(s.store, group), Mail(s, e), user);
    } else {
      AcceptedRequest(s, e);
      AcceptedMail(s, e);
      OperationKeepsSync(s.store, accepted.value, ParseText(e.text).value.args, group, user);
    }
  }

  lemma OperationKeepsSync(st: S.Store, op: S.Op, args: seq<string>, group: int, user: string)
    requires S.Inv(st) && CleanStore(st) && CleanOp(op) && S.PlainOp(st, op) && S.Apply(st, op).1.Ok?
    requires Requested(op, args) && AllSendable(args) && S.Inv(S.Apply(st, op).0)
    requires HasUser(st, group, user) && HasUser(S.Apply(st, op).0, group, user)
    ensures op.Add? || op.Expel? ==> |args| > 0
    ensures var st' := S.Apply(st, op).0;
            Replay(group, Current(st, group), Inbox(Notices(st, st', op, args), user)) == Current(st', group) <==>
            (Inner(op) && op.code == group ==> Faithful(U.Meaning(st), op))
  {
    var b, st' := U.Meaning(st), S.Apply(st, op).0;
    MemberSeesGroup(st, group, user);
    MemberSeesGroup(st', group, user);
    if op.Create? || op.code != group {
      OtherGroupsOperation(st, b, op, args, group, user);
    } else if op.Remove? {
      RemovalEndsMembership(st, op, user);
    } else {
      NoticesKeepSync(st, b, op, args, user);
    }
    B.MeaningIsUnique(st', U.Meaning(st'), B.ApplyBook(b, op).0);
  }

  // ---- what the client of a user sees ----

  lemma SentGrows(s: System, e: Event)
    requires Good(s) && Plain(s.store, e.text)
    ensures |s.sent| <= |Served(s, e).sent|
  {
    var replies := MailIsDelivered(s, e);
    var s' := Served(s, e);
    DeliveryIsConserved(s.(users := s'.users, store := s'.store, sessions := s'.sessions), Mail(s, e));
  }

  /** The texts that the packet makes the server send to the socket of the user. */
  ghost function SeenNow(s: System, e: Event, user: string): seq<string>
    requires Good(s) && Plain(s.store, e.text)
  {
    SentGrows(s, e);
    Seen(Served(s, e).sessions, Served(s, e).sent[|s.sent|..], user)
  }

  predicate IsOnline(s: System, user: string) {
    user in s.sessions.opposite
  }

  lemma SeenOfDelivery(s: System, mail: seq<Envelope>, replies: seq<Outgoing>, user: string)
    requires Alone(s.sessions, user)
    ensures var sent := DeliverAll(s, mail).sent + replies;
            && |s.sent| <= |sent|
            && Seen(s.sessions, sent[|s.sent|..], user) ==
               if user in s.sessions.opposite then Inbox(mail, user) + Seen(s.sessions, replies, user) else []
  {
    DeliverySeen(s, mail, user);
    var told := DeliverAll(s, mail).sent;
    assert (told + replies)[|s.sent|..] == told[|s.sent|..] + replies;
    SeenConcat(s.sessions, told[|s.sent|..], replies, user);
  }

  lemma AnswersSeen(s: Sessions, replies: seq<Outgoing>, user: string)
    requires forall r | r in replies :: IsAnswer(r.text)
    ensures forall a | a in Seen(s, replies, user) :: IsAnswer(a)
  {
    if user in s.opposite {
      var mine := Where(replies, AtSock(s.opposite[user]));
      forall k | 0 <= k < |mine| ensures IsAnswer(TextsOf(mine)[k]) {
        assert mine[k] in mine;
      }
    }
  }

  /** The client of an online user sees the mail, and perhaps an answer; that of an offline user sees nothing. */
  lemma SeenIsMail(s: System, e: Event, user: string) returns (answers: seq<string>)
    requires Good(s) && Plain(s.store, e.text) && Alone(Served(s, e).sessions, user)
    ensures SeenNow(s, e, user) == if IsOnline(Served(s, e), user) then Inbox(Mail(s, e), user) + answers else []
    ensures forall a | a in answers :: IsAnswer(a)
  {
    var replies := MailIsDelivered(s, e);
    var s' := Served(s, e);
    SeenOfDelivery(s.(users := s'.users, store := s'.store, sessions := s'.sessions), Mail(s, e), replies, user);
    answers := Seen(s'.sessions, replies, user);
    AnswersSeen(s'.sessions, replies, user);
  }

  lemma AnswersAreIgnored(group: int, c: B.Group, answers: seq<string>)
    requires forall a | a in answers :: IsAnswer(a)
    ensures Replay(group, c, answers) == c
  {
    forall k | 0 <= k < |answers| ensures Foreign(group, Parsed(answers)[k]) {
      assert answers[k] in answers;
    }
    ForeignIsIgnored(group, c, Parsed(answers));
  }

  /** Nothing was missed: what an online member was told is what was done; while one was offline, nothing changed. */
  ghost predicate KeptUp(s: System, e: Event, group: int, user: string)
    requires Good(s) && Plain(s.store, e.text)
  {
    if IsOnline(Served(s, e), user) then FaithfulEvent(s, e, group)
    else Current(Served(s, e).store, group) == Current(s.store, group)
  }

  /**
   One packet: a member who stays a member, and has the group as it was, has from what is sent to the member's socket
   what it is now, if and only if the member is told and what is told is done. This is so whatever the packet is about.
   */
  lemma PacketKeepsSync(s: System, e: Event, group: int, user: string)
    requires Good(s) && Plain(s.store, e.text) && HasUser(s.store, group, user)
    requires HasUser(Served(s, e).store, group, user) && Alone(Served(s, e).sessions, user)
    ensures var now := Current(Served(s, e).store, group);
            Replay(group, Current(s.store, group), SeenNow(s, e, user)) == now <==> KeptUp(s, e, group, user)
  {
    var c := Current(s.store, group);
    var answers := SeenIsMail(s, e, user);
    if IsOnline(Served(s, e), user) {
      MailKeepsSync(s, e, group, user);
      ReplayConcat(group, c, Inbox(Mail(s, e), user), answers);
      AnswersAreIgnored(group, Replay(group, c, Inbox(Mail(s, e), user)), answers);
    } else {
      NothingRead(group, c);
    }
  }

  // ---- runs ----

  /** Everything that the client of the user sees during a run, wherever the user is signed in. */
  ghost function AllSeen(s: System, events: seq<Event>, user: string): seq<string>
    requires Good(s) && PlainRun(s, events)
  {
    if events == [] then []
    else
      var n := |events| - 1;
      AllSeen(s, events[..n], user) + SeenNow(RunServer(s, events[..n]), events[n], user)
  }

  /** The user is a member before, during and after the run, and never shares a socket with another name. */
  ghost predicate Stays(s: System, events: seq<Event>, group: int, user: string)
    requires Good(s) && PlainRun(s, events)
  {
    && HasUser(RunServer(s, events).store, group, user)
    && (events == [] ||
        (Alone(RunServer(s, events).sessions, user) && Stays(s, events[..|events| - 1], group, user)))
  }

  /** The user is online whenever the server sends something. */
  ghost predicate OnlineThroughout(s: System, events: seq<Event>, user: string)
    requires Good(s) && PlainRun(s, events)
  {
    events == [] ||
    (IsOnline(RunServer(s, events), user) && OnlineThroughout(s, events[..|events| - 1], user))
  }

  /** Whatever is accepted within the group is done as announced. */
  ghost predicate FaithfulRun(s: System, events: seq<Event>, group: int)
    requires Good(s) && PlainRun(s, events)
  {
    events == [] ||
    var n := |events| - 1;
    FaithfulRun(s, events[..n], group) && FaithfulEvent(RunServer(s, events[..n]), events[n], group)
  }

  ghost predicate KeptUpRun(s: System, events: seq<Event>, group: int, user: string)
    requires Good(s) && PlainRun(s, events)
  {
    events == [] ||
    var n := |events| - 1;
    KeptUpRun(s, events[..n], group, user) && KeptUp(RunServer(s, events[..n]), events[n], group, user)
  }

  /** Starting from the copy `c`, the client has the group as it is, after every packet of the run. */
  ghost predicate InSync(s: System, events: seq<Event>, group: int, user: string, c: B.Group)
    requires Good(s) && PlainRun(s, events)
  {
    && Replay(group, c, AllSeen(s, events, user)) == Current(RunServer(s, events).store, group)
    && (events == [] || InSync(s, events[..|events| - 1], group, user, c))
  }

  /**
   Over every run of plain packets, from any sockets and about anything: a member whose client has the group at the
   start, and replays what is sent to the member's socket, has it after every packet, if and only if at every packet the
   member is told what is done, or is offline while nothing changes.
   */
  lemma {:induction false} RunsKeepSync(s: System, events: seq<Event>, group: int, user: string)
    requires Good(s) && PlainRun(s, events) && Stays(s, events, group, user)
    ensures InSync(s, events, group, user, Current(s.store, group)) <==> KeptUpRun(s, events, group, user)
  {
    var c := Current(s.store, group);
    if events == [] {
      NothingRead(group, c);
    } else {
      var n := |events| - 1;
      RunsKeepSync(s, events[..n], group, user);
      if InSync(s, events[..n], group, user, c) {
        LastKeepsSync(s, events, group, user, c);
      }
    }
  }

  lemma LastKeepsSync(s: System, events: seq<Event>, group: int, user: string, c: B.Group)
    requires Good(s) && PlainRun(s, events) && events != [] && Stays(s, events, group, user)
    requires var n := |events| - 1;
             Replay(group, c, AllSeen(s, events[..n], user)) == Current(RunServer(s, events[..n]).store, group)
    ensures Replay(group, c, AllSeen(s, events, user)) == Current(RunServer(s, events).store, group) <==>
            KeptUp(RunServer(s, events[..|events| - 1]), events[|events| - 1], group, user)
  {
    var n := |events| - 1;
    var before := RunServer(s, events[..n]);
    assert Stays(s, events[..n], group, user);
    PacketKeepsSync(before, events[n], group, user);
    ReplayConcat(group, c, AllSeen(s, events[..n], user), SeenNow(before, events[n], user));
  }

  /** For a member who is online throughout, all that counts is that the server does what it announces. */
  lemma {:induction false} OnlineMembersStayInSync(s: System, events: seq<Event>, group: int, user: string)
    requires Good(s) && PlainRun(s, events) && Stays(s, events, group, user) && OnlineThroughout(s, events, user)
    ensures KeptUpRun(s, events, group, user) <==> FaithfulRun(s, events, group)
    ensures InSync(s, events, group, user, Current(s.store, group)) <==> FaithfulRun(s, events, group)
  {
    if events != [] {
      OnlineMembersStayInSync(s, events[..|events| - 1], group, user);
    }
    RunsKeepSync(s, events, group, user);
  }

  /** Being in sync includes having started in sync. */
  lemma {:induction false} InSyncFromTheStart(s: System, events: seq<Event>, group: int, user: string, c: B.Group)
    requires Good(s) && PlainRun(s, events) && InSync(s, events, group, user, c)
    ensures c == Current(s.store, group)
  {
    if events == [] {
      NothingRead(group, c);
    } else {
      InSyncFromTheStart(s, events[..|events| - 1], group, user, c);
    }
  }

  /** From any copy: it has to be right at the start, and nothing may be missed after that. */
  lemma InSyncFrom(s: System, events: seq<Event>, group: int, user: string, c: B.Group)
    requires Good(s) && PlainRun(s, events) && Stays(s, events, group, user)
    ensures InSync(s, events, group, user, c) <==> c == Current(s.store, group) && KeptUpRun(s, events, group, user)
  {
    if c == Current(s.store, group) {
      RunsKeepSync(s, events, group, user);
    } else if InSync(s, events, group, user, c) {
      InSyncFromTheStart(s, events, group, user, c);
    }
  }

  // ---- from an invitation on ----

  /** An accepted invitation adds the user. */
  lemma InvitationAccepted(s: System, e: Event, codeText: string, user: string, status: string)
    requires Good(s) && Plain(s.store, e.text) && Accepted(s, e).Some?
    requires ParseText(e.text) == Ok(Message(GR_INVITE_USER, [codeText, user, status]))
    ensures Accepted(s, e).value == S.Add(NameAt(Drained(s.sessions, e.gone), e.sock), Number(codeText), user, status)
    ensures Sendable(codeText) && Registered(s.users, user)
  {
    AcceptedRequest(s, e);
    var args := [codeText, user, status];
    assert codeText in args;
    assert codeText == args[0] && user == args[1] && status == args[2];
  }

  /** The mail of an accepted invitation for the new member, read with nothing known before. */
  lemma InvitationRead(s: System, e: Event, codeText: string, user: string, status: string)
    requires Good(s) && Plain(s.store, e.text) && Accepted(s, e).Some?
    requires ParseText(e.text) == Ok(Message(GR_INVITE_USER, [codeText, user, status]))
    ensures var st', group := Served(s, e).store, Number(codeText);
            && HasUser(st', group, user) && user in Current(st', group).members
            && (Replay(group, BLANK, Inbox(Mail(s, e), user)) == Current(st', group) <==>
                "" !in Current(st', group).members)
  {
    InvitationAccepted(s, e, codeText, user, status);
    TablesAfter(s, e);
    AcceptedRequest(s, e);
    AcceptedMail(s, e);
    var st', group := Served(s, e).store, Number(codeText);
    InvitedRow(s, Accepted(s, e).value);
    assert MemberRow(group, user, status) in st'.members;
    MemberSeesGroup(st', group, user);
    B.SeesMembersOf(st', U.Meaning(st'), group);
    assert Mail(s, e) == InviteEnvelopes(st', group, codeText, user, status);
    InboxRebuildsGroup(st', U.Meaning(st'), group, codeText, user, status);
  }

  /** What the new member's client has right after the invitation: the group, if the member is online, or nothing. */
  lemma InvitationSeen(s: System, e: Event, codeText: string, user: string, status: string)
    requires Good(s) && Plain(s.store, e.text) && Accepted(s, e).Some?
    requires ParseText(e.text) == Ok(Message(GR_INVITE_USER, [codeText, user, status]))
    requires Alone(Served(s, e).sessions, user)
    ensures var s', group := Served(s, e), Number(codeText);
            && HasUser(s'.store, group, user)
            && (Replay(group, BLANK, SeenNow(s, e, user)) == Current(s'.store, group) <==>
                IsOnline(s', user) && "" !in Current(s'.store, group).members)
  {
    var group := Number(codeText);
    InvitationRead(s, e, codeText, user, status);
    var answers := SeenIsMail(s, e, user);
    if IsOnline(Served(s, e), user) {
      ReplayConcat(group, BLANK, Inbox(Mail(s, e), user), answers);
      AnswersAreIgnored(group, Replay(group, BLANK, Inbox(Mail(s, e), user)), answers);
    } else {
      NothingRead(group, BLANK);
    }
  }

  /**
   From the invitation on: the client of the invited user starts with nothing and replays what is sent to the user's
   socket. It has the group right after the invitation and after every packet of the run that follows, if and only if
   the user was online, the group had no member with the empty name, and nothing was missed since.
   */
  lemma InvitedStayInSync(s: System, e: Event, events: seq<Event>, codeText: string, user: string, status: string)
    requires Good(s) && Plain(s.store, e.text) && Accepted(s, e).Some?
    requires ParseText(e.text) == Ok(Message(GR_INVITE_USER, [codeText, user, status]))
    requires Alone(Served(s, e).sessions, user)
    requires PlainRun(Served(s, e), events) && Stays(Served(s, e), events, Number(codeText), user)
    ensures var s', group := Served(s, e), Number(codeText);
            InSync(s', events, group, user, Replay(group, BLANK, SeenNow(s, e, user))) <==>
              && IsOnline(s', user) && "" !in Current(s'.store, group).members
              && KeptUpRun(s', events, group, user)
  {
    var group := Number(codeText);
    InvitationSeen(s, e, codeText, user, status);
    InSyncFrom(Served(s, e), events, group, user, Replay(group, BLANK, SeenNow(s, e, user)));
  }
}
