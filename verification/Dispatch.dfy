/**
 The whole server as a state machine: what one packet does to the accounts, the tables, the sessions and the messages
 that leave the server (ServerIList/Manager.cpp). The class with the statements is in Manager.dfy.
 */
module Dispatch {
  import opened Errors
  import opened Decimal
  import opened Config
  import opened Parser
  import opened Messages
  import opened Tables
  import opened SessionMaps
  import opened Servers
  import opened Restoring
  import S = Store

  datatype System = System(
    users: seq<UserRow>, store: S.Store, packets: seq<PacketRow>, lastPacket: nat,
    sessions: Sessions, sent: seq<Outgoing>)

  const INITIAL := System([], S.EMPTY, [], 0, NO_SESSIONS, [])

  // ---- delivery ----

  datatype Envelope = Envelope(to: string, message: string)

  /** A message to a user goes to the socket of the user, or is stored for a user who is offline. */
  function Deliver(s: System, e: Envelope): System {
    if e.to in s.sessions.opposite then s.(sent := s.sent + [Outgoing(s.sessions.opposite[e.to], e.message)])
    else s.(packets := s.packets + [PacketRow(s.lastPacket + 1, e.to, e.message)], lastPacket := s.lastPacket + 1)
  }

  function DeliverAll(s: System, es: seq<Envelope>): System {
    if es == [] then s else Deliver(DeliverAll(s, es[..|es| - 1]), es[|es| - 1])
  }

  function ToMembers(members: seq<MemberRow>, message: string): seq<Envelope> {
    Map(members, (m: MemberRow) => Envelope(m.username, message))
  }

  function Reply(s: System, sock: int, message: string): System {
    s.(sent := s.sent + [Outgoing(sock, message)])
  }

  // ---- rows as arguments ----

  function MemberCells(m: MemberRow): seq<string> { [ToString(m.groupCode), m.username, m.status] }
  function ItemCells(i: ItemRow): seq<string> { [ToString(i.groupCode), i.itemName, ToString(i.quantity), i.remarks] }

  // ---- requests ----

  datatype Action =
    | SignUp(username: string, password: string)
    | LogIn(username: string, password: string)
    | LogOut
    | ListGroups
    | RestoreGroups
    | OnStore(op: S.Op, target: Option<string>)  // the target must be registered
    | Nothing                                    // a code of the table without a case
    | WrongArguments

  function If(wellFormed: bool, action: Action): Action {
    if wellFormed then action else WrongArguments
  }

  /** The group of a request. */
  function GroupOf(args: seq<string>): int {
    if |args| > 0 then Number(args[0]) else 0
  }

  /** The cases of code_handler: accounts, then groups, then members, then lists and the restore. */
  function ActionOf(username: string, code: int, args: seq<string>, date: string): (a: Action)
    ensures a.OnStore? && (a.op.Add? || a.op.Expel?) ==> |args| > 0
  {
    if code == EN_REGISTER then if |args| != 2 then WrongArguments else SignUp(args[0], args[1])
    else if code == EN_LOGIN then if |args| != 2 then WrongArguments else LogIn(args[0], args[1])
    else if code == EN_LOGOUT then If(|args| == 0, LogOut)
    else GroupAction(username, code, args, date)
  }

  function GroupAction(username: string, code: int, args: seq<string>, date: string): (a: Action)
    ensures a.OnStore? && (a.op.Add? || a.op.Expel?) ==> |args| > 0
  {
    if code == GR_CREATE_GROUP then
      if |args| != 1 then WrongArguments else OnStore(S.Create(args[0], username, date), None)
    else if code == GR_GROUP_LIST then If(|args| == 0, ListGroups)
    else if code == GR_CLOSE_GROUP then If(|args| == 1, OnStore(S.Remove(username, GroupOf(args)), None))
    else MemberAction(username, code, args)
  }

  function MemberAction(username: string, code: int, args: seq<string>): (a: Action)
    ensures a.OnStore? && (a.op.Add? || a.op.Expel?) ==> |args| > 0
  {
    if code == GR_INVITE_USER then
      if |args| != 3 then WrongArguments else OnStore(S.Add(username, GroupOf(args), args[1], args[2]), Some(args[1]))
    else if code == GR_REMOVE_USER then
      if |args| != 2 then WrongArguments else OnStore(S.Expel(username, GroupOf(args), args[1]), Some(args[1]))
    else if code == GR_SET_STATUS then
      if |args| != 3 then WrongArguments else OnStore(S.Promote(username, GroupOf(args), args[1], args[2]), Some(args[1]))
    else ListAction(username, code, args)
  }

  function ListAction(username: string, code: int, args: seq<string>): (a: Action)
    ensures a.OnStore? ==> !a.op.Add? && !a.op.Expel?
  {
    if code == LST_ADD_ITEM then
      if |args| != 4 then WrongArguments else OnStore(S.Put(username, GroupOf(args), args[1], args[2], args[3]), None)
    else if code == LST_REMOVE_ITEM then
      if |args| != 2 then WrongArguments else OnStore(S.Take(username, GroupOf(args), args[1]), None)
    else LastAction(username, code, args)
  }

  function LastAction(username: string, code: int, args: seq<string>): (a: Action)
    ensures a.OnStore? ==> a.op.Edit?
  {
    if code == LST_SET_ITEM then
      if |args| != 5 then WrongArguments
      else OnStore(S.Edit(username, GroupOf(args), args[1], args[2], args[3], args[4]), None)
    else if code == RE_RESTORE then If(|args| == 0, RestoreGroups)
    else Nothing
  }

  ghost function MemberNotices(members: seq<MemberRow>, user: string): seq<Envelope> {
    Map(Where(members, Not(OfUser(user))), (m: MemberRow) => Envelope(user, Packet(PGM_CTR_NEW_USER, MemberCells(m))))
  }

  ghost function ItemNotices(items: seq<ItemRow>, user: string): seq<Envelope> {
    Map(items, (i: ItemRow) => Envelope(user, Packet(LST_SCC_ADD_ITEM, ItemCells(i))))
  }

  lemma MemberNoticesGrow(rows: seq<MemberRow>, k: nat, user: string)
    requires k < |rows|
    ensures MemberNotices(rows[..k + 1], user) == MemberNotices(rows[..k], user) +
            if rows[k].username == user then []
            else [Envelope(user, Packet(PGM_CTR_NEW_USER, MemberCells(rows[k])))]
  {
    assert rows[..k] + [rows[k]] == rows[..k + 1];
    WhereAppend(rows[..k], rows[k], Not(OfUser(user)));
  }

  /** What the invited user and the others are told: first everybody of the new member, then the new member of the rest. */
  ghost function InviteEnvelopes(st: S.Store, code: int, codeText: string, user: string, status: string): seq<Envelope> {
    var members := Where(st.members, InGroup(code));
    ToMembers(members, Packet(PGM_CTR_NEW_USER, [codeText, S.NameOf(st.groups, code), user, status])) +
    MemberNotices(members, user) + ItemNotices(Where(st.lists, InList(code)), user)
  }

  /** The messages after a successful operation on the tables, which went from `st` to `st'`. */
  ghost function Notices(st: S.Store, st': S.Store, op: S.Op, args: seq<string>): seq<Envelope>
    requires op.Add? || op.Expel? ==> |args| > 0
  {
    match op
    case Create(_, _, _) => []
    case Remove(_, code) => ToMembers(Where(st.members, InGroup(code)), Packet(PGM_CTR_GROUP_CLOSED, args))
    case Add(_, code, user, status) => InviteEnvelopes(st', code, args[0], user, status)
    case Expel(_, code, _) =>
      ToMembers(Where(st'.members, InGroup(code)), Packet(PGM_CTR_USER_LEAVE, args)) +
      [Envelope(args[0], Packet(PGM_CTR_USER_LEAVE, args))]
    case Promote(_, code, _, _) => ToMembers(Where(st'.members, InGroup(code)), Packet(PGM_CTR_STATUS_CHANGED, args))
    case Put(_, code, _, _, _) => ToMembers(Where(st'.members, InGroup(code)), Packet(LST_SCC_ADD_ITEM, args))
    case Take(_, code, _) => ToMembers(Where(st'.members, InGroup(code)), Packet(LST_SCC_REMOVE_ITEM, args))
    case Edit(_, code, _, _, _, _) => ToMembers(Where(st'.members, InGroup(code)), Packet(LST_SCC_SET_ITEM, args))
  }

  ghost function PerformOnStore(s: System, sock: int, op: S.Op, target: Option<string>, args: seq<string>)
    : (System, Result<()>)
    requires S.Inv(s.store) && (op.Add? || op.Expel? ==> |args| > 0)
  {
    if target.Some? && !Registered(s.users, target.value) then (s, Err(WrongUsername))
    else
      var (store, r) := S.Apply(s.store, op);
      if r.Err? then (s, r)
      else
        var told := DeliverAll(s.(store := store), Notices(s.store, store, op, args));
        (if op.Create? then Reply(told, sock, Packet(PGM_SCC_ACTE_CREATED, [ToString(store.lastCode)])) else told, r)
  }

  /** An operation on the tables without a target, other than a creation: its result decides whether notices go out. */
  lemma PerformedOnStore(s: System, sock: int, op: S.Op, args: seq<string>, store: S.Store, r: Result<()>)
    requires S.Inv(s.store) && !op.Add? && !op.Expel? && !op.Create?
    requires S.Apply(s.store, op) == (store, r) && (r.Err? ==> store == s.store)
    ensures PerformOnStore(s, sock, op, None, args) ==
            (if r.Err? then s.(store := store)
             else DeliverAll(s.(store := store), Notices(s.store, store, op, args)), r)
  {
  }

  ghost function Perform(s: System, sock: int, username: string, action: Action, args: seq<string>)
    : (System, Result<()>)
    requires S.Inv(s.store)
    requires action.OnStore? && (action.op.Add? || action.op.Expel?) ==> |args| > 0
  {
    match action
    case SignUp(u, p) =>
      var r := RegisterResult(s.users, u, p);
      (if r.Err? then s
       else Reply(s.(users := s.users + [UserRow(u, p)]), sock, Packet(PGM_SCC_REGISTER, [""])), r)
    case LogIn(u, p) =>
      var r := LoginResult(s.users, s.sessions, sock, u, p);
      (if r.Err? then s
       else Deliver(s.(sessions := SignIn(s.sessions, sock, u)), Envelope(u, Packet(PGM_SCC_LOGIN, [""]))), r)
    case LogOut => (s.(sessions := SignOut(s.sessions, sock)), Ok(()))
    case ListGroups =>
      var rows := Map(Where(s.store.members, OfUser(username)), MemberCells);
      (Reply(s, sock, Packet(PGM_GET_GROUPS_LIST, Map(rows, RowText))), Ok(()))
    case RestoreGroups =>
      RecordsAreInhabited(s.store, username);
      (Deliver(s, Envelope(username, RestoreText(Records(s.store, username)))), Ok(()))
    case OnStore(op, target) => PerformOnStore(s, sock, op, target, args)
    case Nothing => (s, Ok(()))
    case WrongArguments => (s, Err(WrongArgumentsNumber))
  }

  /** The requests whose first argument is a group's code; it stands in the SQL statements without quotes. */
  predicate NamesGroup(code: int) {
    || code == GR_INVITE_USER || code == GR_REMOVE_USER || code == GR_SET_STATUS || code == GR_CLOSE_GROUP
    || code == LST_ADD_ITEM || code == LST_REMOVE_ITEM || code == LST_SET_ITEM
  }

  /** Where a number goes into a statement without quotes, the message has a literal. */
  predicate PlainMessage(st: S.Store, code: int, args: seq<string>) {
    && (NamesGroup(code) && args != [] ==> Literal(args[0]))
    && (code == LST_ADD_ITEM && |args| == 4 && !S.HasItem(st.lists, Number(args[0]), args[1]) ==> Literal(args[2]))
  }

  /**
   A packet for which the program's SQL statements are those of the model: refused by the parser, or with literals where
   they are needed. The parser does not ask for this, and of other texts SQL makes what it can.
   */
  ghost predicate Plain(st: S.Store, text: string) {
    ParseText(text).Ok? ==> PlainMessage(st, ParseText(text).value.code, ParseText(text).value.args)
  }

  /** In a plain message the operation on a group has the group's code as a literal, and is plain itself. */
  lemma PlainRequest(st: S.Store, code: int, args: seq<string>, username: string, date: string)
    requires PlainMessage(st, code, args)
    ensures var a := ActionOf(username, code, args, date);
            a.OnStore? && !a.op.Create? ==>
              |args| > 0 && Literal(args[0]) && Number(args[0]) == a.op.code && S.PlainOp(st, a.op)
  {
  }

  /** The parser does let other texts through: a group's code with something after it. */
  lemma PlainIsNotChecked(st: S.Store, username: string, status: string)
    requires Sendable(username) && Sendable(status)
    ensures var packet := Packet(GR_SET_STATUS, ["1;", username, status]);
            ParseText(packet) == Ok(Message(GR_SET_STATUS, ["1;", username, status])) && !Plain(st, packet)
  {
    var args := ["1;", username, status];
    assert GR_SET_STATUS in ALL_MESSAGES_CODES by {
      assert EN_GR_CODES[8] == GR_SET_STATUS;
    }
    PrintThenParse(GR_SET_STATUS, args);
    assert !IsDigit("1;"[1]) && !Literal("1;");
  }

  /** One request. Looking up the user name of a socket makes the socket known. */
  ghost function Handle(s: System, sock: int, text: string, date: string): (System, Result<()>)
    requires S.Inv(s.store)
  {
    match ParseText(text)
    case Err(e) => (s, Err(e))
    case Ok(Message(code, args)) =>
      if sock !in s.sessions.online && code != EN_REGISTER && code != EN_LOGIN then (s, Err(UserIsOffline))
      else
        var username := NameAt(s.sessions, sock);
        Perform(s.(sessions := Touch(s.sessions, sock)), sock, username, ActionOf(username, code, args, date), args)
  }

  /** One packet: the sockets that went away are logged out, the request is handled, and an exception is reported. */
  ghost function Serve(s: System, gone: seq<int>, sock: int, text: string, date: string): System
    requires S.Inv(s.store)
  {
    var (s', r) := Handle(s.(sessions := Drained(s.sessions, gone)), sock, text, date);
    if r.Err? then Reply(s', sock, ErrorReply(r.error)) else s'
  }

  // ---- delivery is conserved ----

  lemma DeliverOneMore(s: System, es: seq<Envelope>, e: Envelope)
    ensures DeliverAll(s, es + [e]) == Deliver(DeliverAll(s, es), e)
  {
  }

  lemma {:induction false} DeliverConcat(s: System, es: seq<Envelope>, fs: seq<Envelope>)
    ensures DeliverAll(s, es + fs) == DeliverAll(DeliverAll(s, es), fs)
  {
    if fs == [] {
      assert es + fs == es;
    } else {
      var n := |fs| - 1;
      DeliverConcat(s, es, fs[..n]);
      assert (es + fs)[..|es + fs| - 1] == es + fs[..n];
    }
  }

  function Online(opposite: map<string, int>): Envelope -> bool { (e: Envelope) => e.to in opposite }

  function Sendings(opposite: map<string, int>, es: seq<Envelope>): seq<Outgoing> {
    Map(Where(es, Online(opposite)), (e: Envelope) => Outgoing(if e.to in opposite then opposite[e.to] else 0, e.message))
  }

  function Stored(last: nat, es: seq<Envelope>): seq<PacketRow> {
    seq(|es|, i requires 0 <= i < |es| => PacketRow(last + 1 + i, es[i].to, es[i].message))
  }

  /**
   Conservation: every envelope becomes exactly one thing, in order. Those of online users are sent to their sockets,
   the others become new rows with consecutive codes, and nothing else changes.
   */
  lemma {:induction false} DeliveryIsConserved(s: System, es: seq<Envelope>)
    ensures var online := Online(s.sessions.opposite);
            && DeliverAll(s, es) == Predicted(s, es)
            && |Where(es, online)| + |Where(es, Not(online))| == |es|
  {
    if es == [] {
      assert s.sent + Sendings(s.sessions.opposite, es) == s.sent;
      assert s.packets + Stored(s.lastPacket, Where(es, Not(Online(s.sessions.opposite)))) == s.packets;
    } else {
      var n := |es| - 1;
      DeliveryIsConserved(s, es[..n]);
      assert es == es[..n] + [es[n]];
      OneMoreDelivered(s, es[..n], es[n]);
    }
  }

  /** The state the conservation law predicts. */
  ghost function Predicted(s: System, es: seq<Envelope>): System {
    var offline := Where(es, Not(Online(s.sessions.opposite)));
    s.(sent := s.sent + Sendings(s.sessions.opposite, es),
       packets := s.packets + Stored(s.lastPacket, offline),
       lastPacket := s.lastPacket + |offline|)
  }

  lemma OneMoreDelivered(s: System, es: seq<Envelope>, e: Envelope)
    ensures Predicted(s, es + [e]) == Deliver(Predicted(s, es), e)
    ensures var online := Online(s.sessions.opposite);
            |Where(es + [e], online)| + |Where(es + [e], Not(online))| ==
            |Where(es, online)| + |Where(es, Not(online))| + 1
  {
    WhereAppend(es, e, Online(s.sessions.opposite));
    WhereAppend(es, e, Not(Online(s.sessions.opposite)));
    if e.to in s.sessions.opposite {
      OneMoreSent(s, es, e);
    } else {
      OneMoreStored(s, es, e);
    }
  }

  lemma OneMoreSent(s: System, es: seq<Envelope>, e: Envelope)
    requires e.to in s.sessions.opposite
    ensures var before := Predicted(s, es);
            Predicted(s, es + [e]) == before.(sent := before.sent + [Outgoing(s.sessions.opposite[e.to], e.message)])
  {
    var offline, sendings := Where(es, Not(Online(s.sessions.opposite))), Sendings(s.sessions.opposite, es);
    var o := Outgoing(s.sessions.opposite[e.to], e.message);
    WhereAppend(es, e, Not(Online(s.sessions.opposite)));
    SendingsGrow(s.sessions.opposite, es, e);
    assert offline + [] == offline;
    assert s.sent + (sendings + [o]) == s.sent + sendings + [o];
  }

  lemma OneMoreStored(s: System, es: seq<Envelope>, e: Envelope)
    requires e.to !in s.sessions.opposite
    ensures var before := Predicted(s, es);
            Predicted(s, es + [e]) ==
            before.(packets := before.packets + [PacketRow(before.lastPacket + 1, e.to, e.message)],
                    lastPacket := before.lastPacket + 1)
  {
    var offline, sendings := Where(es, Not(Online(s.sessions.opposite))), Sendings(s.sessions.opposite, es);
    var row := PacketRow(s.lastPacket + |offline| + 1, e.to, e.message);
    WhereAppend(es, e, Not(Online(s.sessions.opposite)));
    SendingsGrow(s.sessions.opposite, es, e);
    StoredGrow(s.lastPacket, offline, e);
    assert sendings + [] == sendings;
    assert s.packets + (Stored(s.lastPacket, offline) + [row]) == s.packets + Stored(s.lastPacket, offline) + [row];
  }

  lemma SendingsGrow(opposite: map<string, int>, es: seq<Envelope>, e: Envelope)
    ensures Sendings(opposite, es + [e]) ==
            Sendings(opposite, es) + if e.to in opposite then [Outgoing(opposite[e.to], e.message)] else []
  {
  }

  lemma StoredGrow(last: nat, es: seq<Envelope>, e: Envelope)
    ensures Stored(last, es + [e]) == Stored(last, es) + [PacketRow(last + |es| + 1, e.to, e.message)]
  {
  }

  function RowsOf(username: string): PacketRow -> bool { (r: PacketRow) => r.username == username }
  function EnvelopesTo(username: string): Envelope -> bool { (e: Envelope) => e.to == username }

  /** New rows of a user are the messages to the user: all of them when offline, none when online. */
  lemma {:induction false} RowsPerUser(s: System, es: seq<Envelope>, username: string)
    ensures |Where(DeliverAll(s, es).packets, RowsOf(username))| == |Where(s.packets, RowsOf(username))| +
            if username in s.sessions.opposite then 0 else |Where(es, EnvelopesTo(username))|
    ensures DeliverAll(s, es).sessions == s.sessions
  {
    if es != [] {
      var n := |es| - 1;
      var before := DeliverAll(s, es[..n]);
      RowsPerUser(s, es[..n], username);
      assert es == es[..n] + [es[n]];
      WhereAppend(es[..n], es[n], EnvelopesTo(username));
      WhereAppend(before.packets, PacketRow(before.lastPacket + 1, es[n].to, es[n].message), RowsOf(username));
    }
  }

  /** A broadcast to a group has exactly one message for each member and none for anybody else. */
  lemma {:induction false} OneEach(members: seq<MemberRow>, code: int, message: string, username: string)
    requires Unique(members, MemberKey)
    ensures |Where(ToMembers(Where(members, InGroup(code)), message), EnvelopesTo(username))| ==
            if username in S.Usernames(members, code) then 1 else 0
  {
    if members != [] {
      var n := |members| - 1;
      var m := members[n];
      OneEach(members[..n], code, message, username);
      assert members == members[..n] + [m];
      OneMore(members[..n], m, code, message, username);
    }
  }

  lemma OneMore(members: seq<MemberRow>, m: MemberRow, code: int, message: string, username: string)
    ensures |Where(ToMembers(Where(members + [m], InGroup(code)), message), EnvelopesTo(username))| ==
            |Where(ToMembers(Where(members, InGroup(code)), message), EnvelopesTo(username))| +
            if m.groupCode == code && m.username == username then 1 else 0
    ensures username in S.Usernames(members + [m], code) <==>
              username in S.Usernames(members, code) || (m.groupCode == code && m.username == username)
    ensures Unique(members + [m], MemberKey) && m.groupCode == code && m.username == username ==>
              username !in S.Usernames(members, code)
  {
    var before := Where(members, InGroup(code));
    WhereAppend(members, m, InGroup(code));
    if m.groupCode == code {
      assert ToMembers(before + [m], message) == ToMembers(before, message) + [Envelope(m.username, message)];
      WhereAppend(ToMembers(before, message), Envelope(m.username, message), EnvelopesTo(username));
    } else {
      assert before + [] == before;
    }
    if Unique(members + [m], MemberKey) {
      forall q | q in members ensures MemberKey(q) != MemberKey(m) {
        var i :| 0 <= i < |members| && members[i] == q;
        assert (members + [m])[i] == q && (members + [m])[|members|] == m;
        assert MemberKey((members + [m])[i]) != MemberKey((members + [m])[|members|]);
      }
    }
  }

  /** A broadcast to a group: a row for each offline member, nothing for others, and one delivery for each member. */
  lemma BroadcastReachesEachOnce(s: System, code: int, message: string, username: string)
    requires S.Inv(s.store)
    ensures var members := Where(s.store.members, InGroup(code));
            var s' := DeliverAll(s, ToMembers(members, message));
            && |Where(s'.packets, RowsOf(username))| == |Where(s.packets, RowsOf(username))| +
                 (if username in S.Usernames(s.store.members, code) && username !in s.sessions.opposite then 1 else 0)
            && |s'.sent| + |s'.packets| == |s.sent| + |s.packets| + |members|
            && s' == s.(sent := s'.sent, packets := s'.packets, lastPacket := s'.lastPacket)
  {
    var es := ToMembers(Where(s.store.members, InGroup(code)), message);
    DeliveryIsConserved(s, es);
    RowsPerUser(s, es, username);
    OneEach(s.store.members, code, message, username);
  }
}
