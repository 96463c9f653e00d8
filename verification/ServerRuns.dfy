/** Safety of the whole server, over every sequence of plain packets from any sockets. */
module ServerRuns {
  import opened Errors
  import opened Decimal
  import opened Config
  import opened Parser
  import opened Messages
  import opened Tables
  import opened SessionMaps
  import opened Dispatch
  import S = Store
  import I = StoreInvariant
  import U = Runs
  import R = Restoring
  import RD = RestoreDecoding

  // ---- what one request can change ----

  lemma DeliveryKeeps(s: System, es: seq<Envelope>)
    ensures var s' := DeliverAll(s, es);
            s'.users == s.users && s'.store == s.store && s'.sessions == s.sessions
  {
  }

  lemma FailedApplyKeeps(st: S.Store, op: S.Op)
    requires S.Inv(st) && S.Apply(st, op).1.Err?
    ensures S.Apply(st, op).0 == st
  {
  }

  /** The store operation an action comes down to, if it gets as far as the tables. */
  ghost function OpOf(s: System, action: Action): Option<S.Op> {
    if action.OnStore? && (action.target.Some? ==> Registered(s.users, action.target.value)) then Some(action.op) else None
  }

  /** A request runs at most one operation on the tables; one that throws changes nothing. */
  lemma PerformShape(s: System, sock: int, username: string, action: Action, args: seq<string>)
    requires S.Inv(s.store)
    requires action.OnStore? && (action.op.Add? || action.op.Expel?) ==> |args| > 0
    ensures var (s', r) := Perform(s, sock, username, action, args);
            && (r.Err? ==> s' == s)
            && s'.store == (if OpOf(s, action).Some? then S.Apply(s.store, OpOf(s, action).value).0 else s.store)
            && s'.users == (if action.SignUp? && r.Ok? then s.users + [UserRow(action.username, action.password)]
                            else s.users)
            && s'.sessions == (if action.LogIn? && r.Ok? then SignIn(s.sessions, sock, action.username)
                               else if action.LogOut? then SignOut(s.sessions, sock) else s.sessions)
  {
    if OpOf(s, action).Some? {
      var op := action.op;
      var (store, r) := S.Apply(s.store, op);
      if r.Err? {
        FailedApplyKeeps(s.store, op);
      } else {
        DeliveryKeeps(s.(store := store), Notices(s.store, store, op, args));
      }
    }
  }

  /** A request that throws leaves accounts, tables, stored packets and sent messages as they were. */
  lemma FailedRequestChangesNothing(s: System, sock: int, text: string, date: string)
    requires S.Inv(s.store) && Handle(s, sock, text, date).1.Err?
    ensures Handle(s, sock, text, date).0 in [s, s.(sessions := Touch(s.sessions, sock))]
  {
    if ParseText(text).Ok? {
      var m := ParseText(text).value;
      var username := NameAt(s.sessions, sock);
      PerformShape(s.(sessions := Touch(s.sessions, sock)), sock, username,
                   ActionOf(username, m.code, m.args, date), m.args);
    }
  }

  // ---- the invariant of the server ----

  /** The user names of the membership rows refer to accounts, or are the empty name of a socket without a user. */
  ghost predicate MembersKnown(users: seq<UserRow>, members: seq<MemberRow>) {
    forall m | m in members :: m.username == "" || Registered(users, m.username)
  }

  ghost predicate CleanUsers(users: seq<UserRow>) {
    && Unique(users, UserKey)
    && forall u | u in users :: Sendable(u.username) && ValidUsername(|u.username|)
  }

  /** Every text of the tables came through the parser. */
  ghost predicate CleanStore(st: S.Store) {
    && (forall g | g in st.groups :: Sendable(g.name))
    && (forall m | m in st.members :: Sendable(m.status))
    && (forall i | i in st.lists :: Sendable(i.itemName) && Sendable(i.remarks))
  }

  ghost predicate Good(s: System) {
    && S.Inv(s.store) && CleanStore(s.store) && CleanUsers(s.users)
    && KnownNames(s.users, s.sessions) && MembersKnown(s.users, s.store.members)
  }

  ghost predicate CleanOp(op: S.Op) {
    match op
    case Create(name, _, _) => Sendable(name)
    case Remove(_, _) => true
    case Add(_, _, _, status) => Sendable(status)
    case Expel(_, _, _) => true
    case Promote(_, _, _, status) => Sendable(status)
    case Put(_, _, item, _, remarks) => Sendable(item) && Sendable(remarks)
    case Take(_, _, _) => true
    case Edit(_, _, _, newName, _, remarks) => Sendable(newName) && Sendable(remarks)
  }

  lemma AdminIsSendable()
    ensures Sendable("admin")
  {
  }

  lemma ChangedGroups(groups: seq<GroupRow>, code: int, n: int)
    requires forall g | g in groups :: Sendable(g.name)
    ensures forall g | g in Change(groups, HasCode(code), SetCount(n)) :: Sendable(g.name)
  {
  }

  lemma ApplyKeepsClean(st: S.Store, op: S.Op)
    requires S.Inv(st) && CleanStore(st) && CleanOp(op)
    ensures CleanStore(S.Apply(st, op).0)
  {
    AdminIsSendable();
    match op
    case Create(_, _, _) =>
    case Remove(_, _) =>
    case Add(effector, code, _, _) =>
      if S.Apply(st, op).1.Ok? {
        S.HasMemberRow(st, code, effector);
        ChangedGroups(st.groups, code, S.FirstGroup(st.groups, code).numberOfUsers + 1);
      }
    case Expel(effector, code, _) =>
      if S.Apply(st, op).1.Ok? {
        S.HasMemberRow(st, code, effector);
        ChangedGroups(st.groups, code, S.FirstGroup(st.groups, code).numberOfUsers - 1);
      }
    case Promote(_, code, username, status) =>
      ChangeRows(st.members, IsMember(code, username), SetStatus(status));
    case Put(_, code, item, quantity, _) =>
      PutKeepsClean(st, op);
    case Take(_, _, _) =>
    case Edit(_, code, item, newName, quantity, remarks) =>
      if Stoi(quantity).Ok? {
        ChangeRows(st.lists, IsItem(code, item), SetItem(newName, Stoi(quantity).value, remarks));
      }
  }

  lemma PutKeepsClean(st: S.Store, op: S.Op)
    requires S.Inv(st) && CleanStore(st) && CleanOp(op) && op.Put?
    ensures CleanStore(S.Apply(st, op).0)
  {
  }

  /** New membership rows come from creations and invitations only. */
  lemma NewMembers(st: S.Store, op: S.Op, m: MemberRow)
    requires S.Inv(st) && m in S.Apply(st, op).0.members
    ensures (exists q :: q in st.members && q.username == m.username)
         || (op.Create? && m.username == op.admin) || (op.Add? && S.Apply(st, op).1.Ok? && m.username == op.username)
  {
  }

  lemma ApplyKeepsKnown(users: seq<UserRow>, st: S.Store, op: S.Op)
    requires S.Inv(st) && MembersKnown(users, st.members)
    requires op.Create? ==> op.admin == "" || Registered(users, op.admin)
    requires op.Add? ==> Registered(users, op.username)
    ensures MembersKnown(users, S.Apply(st, op).0.members)
  {
    forall m | m in S.Apply(st, op).0.members ensures m.username == "" || Registered(users, m.username) {
      NewMembers(st, op, m);
    }
  }

  lemma RegisterKeepsGood(s: System, username: string, password: string)
    requires Good(s) && RegisterResult(s.users, username, password).Ok? && Sendable(username)
    ensures Good(s.(users := s.users + [UserRow(username, password)]))
  {
    var row := UserRow(username, password);
    assert forall u | u in s.users && Named(username)(u) :: u in Where(s.users, Named(username));
    AppendUnique(s.users, row, UserKey);
    forall u | Registered(s.users, u) ensures Registered(s.users + [row], u) {
      RegisteredStays(s.users, row, u);
    }
  }

  /** What the case distinction over the codes guarantees for an action. */
  ghost predicate CleanAction(username: string, a: Action, args: seq<string>) {
    && (a.SignUp? ==> Sendable(a.username))
    && (a.OnStore? ==>
          && CleanOp(a.op)
          && (a.op.Create? ==> a.op.admin == username && a.target == None)
          && (a.op.Add? ==> a.target == Some(a.op.username))
          && (a.op.Add? || a.op.Expel? ==> |args| > 0))
  }

  /** The arguments of an accepted packet can be stored. */
  lemma ActionIsClean(username: string, code: int, args: seq<string>, date: string)
    requires AllSendable(args)
    ensures CleanAction(username, ActionOf(username, code, args, date), args)
  {
  }

  lemma TouchKeepsGood(s: System, sock: int)
    requires Good(s)
    ensures Good(s.(sessions := Touch(s.sessions, sock)))
  {
  }

  lemma PerformKeepsGood(s: System, sock: int, username: string, action: Action, args: seq<string>)
    requires Good(s) && (username == "" || Registered(s.users, username))
    requires CleanAction(username, action, args)
    ensures Good(Perform(s, sock, username, action, args).0)
  {
    PerformShape(s, sock, username, action, args);
    if OpOf(s, action).Some? {
      I.ApplyKeeps(s.store, action.op);
      ApplyKeepsClean(s.store, action.op);
      ApplyKeepsKnown(s.users, s.store, action.op);
    } else if action.SignUp? {
      if RegisterResult(s.users, action.username, action.password).Ok? {
        RegisterKeepsGood(s, action.username, action.password);
      }
    } else if action.LogIn? {
      if LoginResult(s.users, s.sessions, sock, action.username, action.password).Ok? {
        AccountIsRegistered(s.users, action.username, action.password);
      }
    }
  }

  lemma HandleKeepsGood(s: System, sock: int, text: string, date: string)
    requires Good(s) && Plain(s.store, text)
    ensures Good(Handle(s, sock, text, date).0)
  {
    if ParseText(text).Ok? {
      var m := ParseText(text).value;
      var codeText := AcceptedIsFramed(text);
      var username := NameAt(s.sessions, sock);
      ActionIsClean(username, m.code, m.args, date);
      TouchKeepsGood(s, sock);
      PerformKeepsGood(s.(sessions := Touch(s.sessions, sock)), sock, username,
                       ActionOf(username, m.code, m.args, date), m.args);
    }
  }

  datatype Event = Event(gone: seq<int>, sock: int, text: string, date: string)

  /** One plain packet keeps the tables, the accounts and the sessions consistent with each other. */
  lemma ServeKeepsGood(s: System, e: Event)
    requires Good(s) && Plain(s.store, e.text)
    ensures Good(Serve(s, e.gone, e.sock, e.text, e.date))
  {
    DrainKeepsNames(s.users, s.sessions, e.gone);
    HandleKeepsGood(s.(sessions := Drained(s.sessions, e.gone)), e.sock, e.text, e.date);
  }

  lemma InitialIsGood()
    ensures Good(INITIAL) && Linked(INITIAL.sessions)
  {
    I.EmptyInv();
  }

  /** The state after one plain packet. */
  ghost function Served(s: System, e: Event): (s': System)
    requires Good(s) && Plain(s.store, e.text)
    ensures Good(s')
  {
    ServeKeepsGood(s, e);
    Serve(s, e.gone, e.sock, e.text, e.date)
  }

  /** Each packet of the run is plain when it arrives. */
  ghost predicate PlainRun(s: System, events: seq<Event>)
    requires Good(s)
    decreases |events|, 0
  {
    events == [] ||
    var n := |events| - 1;
    PlainRun(s, events[..n]) && Plain(RunServer(s, events[..n]).store, events[n].text)
  }

  ghost function RunServer(s: System, events: seq<Event>): (s': System)
    requires Good(s) && PlainRun(s, events)
    ensures Good(s')
    decreases |events|, 1
  {
    if events == [] then s
    else Served(RunServer(s, events[..|events| - 1]), events[|events| - 1])
  }

  /** The action a packet comes down to, unless its text or its sender is refused. */
  ghost function Reached(s: System, e: Event): Option<Action> {
    var sessions := Drained(s.sessions, e.gone);
    match ParseText(e.text)
    case Err(_) => None
    case Ok(Message(code, args)) =>
      if e.sock !in sessions.online && code != EN_REGISTER && code != EN_LOGIN then None
      else Some(ActionOf(NameAt(sessions, e.sock), code, args, e.date))
  }

  /** The tables and the sessions after a packet. */
  lemma ServeShape(s: System, e: Event)
    requires Good(s)
    ensures var s' := Serve(s, e.gone, e.sock, e.text, e.date);
            var drained := Drained(s.sessions, e.gone);
            var touched := Touch(drained, e.sock);
            var a := Reached(s, e);
            if a.None? then s'.store == s.store && s'.sessions == drained
            else
              && CleanAction(NameAt(drained, e.sock), a.value, ParseText(e.text).value.args)
              && s'.store == (if OpOf(s, a.value).Some? then S.Apply(s.store, OpOf(s, a.value).value).0 else s.store)
              && s'.sessions == (if a.value.LogIn? && LoginResult(s.users, touched, e.sock, a.value.username,
                                                                  a.value.password).Ok?
                                 then SignIn(touched, e.sock, a.value.username)
                                 else if a.value.LogOut? then SignOut(touched, e.sock) else touched)
  {
    if Reached(s, e).Some? {
      var m := ParseText(e.text).value;
      var codeText := AcceptedIsFramed(e.text);
      var drained := Drained(s.sessions, e.gone);
      var username := NameAt(drained, e.sock);
      ActionIsClean(username, m.code, m.args, e.date);
      PerformShape(s.(sessions := Touch(drained, e.sock)), e.sock, username,
                   ActionOf(username, m.code, m.args, e.date), m.args);
    }
  }

  lemma ServeIsOneOp(s: System, e: Event) returns (ops: seq<S.Op>)
    requires Good(s) && Plain(s.store, e.text)
    ensures |ops| <= 1
    ensures Serve(s, e.gone, e.sock, e.text, e.date).store == if ops == [] then s.store else S.Apply(s.store, ops[0]).0
  {
    ServeShape(s, e);
    var a := Reached(s, e);
    ops := if a.Some? && OpOf(s, a.value).Some? then [OpOf(s, a.value).value] else [];
  }

  /** Every run of plain packets is, on the tables, a run of operations: what holds for those holds for packets. */
  lemma {:induction false} ServerRunIsStoreRun(s: System, events: seq<Event>) returns (ops: seq<S.Op>)
    requires Good(s) && PlainRun(s, events)
    ensures RunServer(s, events).store == U.Run(s.store, ops)
  {
    if events == [] {
      ops := [];
    } else {
      var n := |events| - 1;
      var earlier := ServerRunIsStoreRun(s, events[..n]);
      var last := ServeIsOneOp(RunServer(s, events[..n]), events[n]);
      ops := earlier + last;
      if last != [] {
        assert ops[..|ops| - 1] == earlier;
      } else {
        assert ops == earlier;
      }
    }
  }

  /** Admin permanence for plain packets: only the removal of the group ends it. */
  lemma AdminIsForeverOnServer(s: System, events: seq<Event>, code: int, user: string)
    requires Good(s) && PlainRun(s, events) && MemberRow(code, user, "admin") in s.store.members
    ensures var st := RunServer(s, events).store;
            MemberRow(code, user, "admin") in st.members <==> code in S.Codes(st.groups)
  {
    var ops := ServerRunIsStoreRun(s, events);
    U.AdminIsForever(s.store, ops, code, user);
  }

  /**
   After any sequence of plain packets to a fresh server: every group's counter is its number of membership rows, between
   one and four, and its creator is a member and an admin.
   */
  lemma CountersOnServer(events: seq<Event>, g: GroupRow)
    requires Good(INITIAL) && PlainRun(INITIAL, events) && g in RunServer(INITIAL, events).store.groups
    ensures var st := RunServer(INITIAL, events).store;
            && g.numberOfUsers == |Where(st.members, InGroup(g.code))|
            && 1 <= g.numberOfUsers <= 4
            && MemberRow(g.code, g.admin, "admin") in st.members
  {
    var ops := ServerRunIsStoreRun(INITIAL, events);
    U.CountersOfRuns(INITIAL.store, ops, g);
    U.CreatorStays(INITIAL.store, ops, g);
  }

  // ---- the restore request ----

  lemma GoodRecordsAreUnquoted(s: System, username: string)
    requires Good(s)
    ensures forall r | r in R.Records(s.store, username) :: RD.Unquoted(r)
  {
    var mine := Where(s.store.members, OfUser(username));
    forall k | 0 <= k < |mine| ensures RD.Unquoted(R.Records(s.store, username)[k]) {
      UnquotedRecord(s, mine[k].groupCode);
      assert R.Records(s.store, username)[k] == R.RecordOf(s.store, mine[k].groupCode);
    }
  }

  lemma UnquotedRecord(s: System, code: int)
    requires Good(s)
    ensures RD.Unquoted(R.RecordOf(s.store, code))
  {
    var r := R.RecordOf(s.store, code);
    var found := Where(s.store.groups, HasCode(code));
    assert found != [] ==> found[0] in found;
    var members, items := Where(s.store.members, InGroup(code)), Where(s.store.lists, InList(code));
    forall k | 0 <= k < |members| ensures '\'' !in r.users[k].name && '\'' !in r.users[k].status {
      assert members[k] in members && r.users[k] == R.ToUser(members[k]);
      UnquotedMember(s, members[k]);
    }
    forall k | 0 <= k < |items| ensures '\'' !in r.items[k].name && '\'' !in r.items[k].remarks {
      assert items[k] in items && r.items[k] == R.ToItem(items[k]);
      assert Sendable(items[k].itemName) && Sendable(items[k].remarks);
    }
  }

  lemma UnquotedMember(s: System, m: MemberRow)
    requires Good(s) && m in s.store.members
    ensures '\'' !in m.username && '\'' !in m.status
  {
    assert Sendable(m.status);
    if m.username != "" {
      RegisteredHasName(s.users, m.username);
    }
  }

  /**
   The promise of the restore request, when no stored text contains a separator: one message is delivered to the user;
   the parser accepts it with one argument for each group of the user; and the groups can be read back from it.
   */
  lemma RestoreRestores(s: System, sock: int, text: string, date: string)
    requires Good(s) && RD.BareStore(s.store) && sock in s.sessions.online
    requires ParseText(text) == Ok(Message(RE_RESTORE, []))
    ensures var username := NameAt(s.sessions, sock);
            var records := R.Records(s.store, username);
            && R.Inhabited(records)
            && Handle(s, sock, text, date) == (Deliver(s, Envelope(username, R.RestoreText(records))), Ok(()))
            && ParseText(R.RestoreText(records)) == Ok(Message(RE_GET_RESTORE, R.RecordTexts(records)))
            && |records| == |Where(s.store.members, OfUser(username))|
            && RD.Decode(R.RestoreText(records)) == records
  {
    RestoreReadable(s, NameAt(s.sessions, sock));
    RestoreHandled(s, sock, text, date);
    RestorePerformed(s, sock, NameAt(s.sessions, sock));
  }

  /** A request from a known socket is performed for the name at the socket. */
  lemma HandledForName(s: System, sock: int, text: string, date: string, code: int, args: seq<string>)
    requires S.Inv(s.store) && sock in s.sessions.online && ParseText(text) == Ok(Message(code, args))
    ensures var username := NameAt(s.sessions, sock);
            Handle(s, sock, text, date) == Perform(s, sock, username, ActionOf(username, code, args, date), args)
  {
    assert Touch(s.sessions, sock) == s.sessions;
  }

  lemma RestorePerformed(s: System, sock: int, username: string)
    requires S.Inv(s.store) && R.Inhabited(R.Records(s.store, username))
    ensures Perform(s, sock, username, RestoreGroups, []) ==
            (Deliver(s, Envelope(username, R.RestoreText(R.Records(s.store, username)))), Ok(()))
  {
  }

  lemma RestoreHandled(s: System, sock: int, text: string, date: string)
    requires S.Inv(s.store) && sock in s.sessions.online && ParseText(text) == Ok(Message(RE_RESTORE, []))
    ensures var username := NameAt(s.sessions, sock);
            Handle(s, sock, text, date) == Perform(s, sock, username, RestoreGroups, [])
  {
    HandledForName(s, sock, text, date, RE_RESTORE, []);
    RestoreRequested(NameAt(s.sessions, sock), date);
  }

  lemma RestoreRequested(username: string, date: string)
    ensures ActionOf(username, RE_RESTORE, [], date) == RestoreGroups
  {
  }

  lemma RestoreReadable(s: System, username: string)
    requires Good(s) && RD.BareStore(s.store)
    ensures var records := R.Records(s.store, username);
            && R.Inhabited(records)
            && ParseText(R.RestoreText(records)) == Ok(Message(RE_GET_RESTORE, R.RecordTexts(records)))
            && |records| == |Where(s.store.members, OfUser(username))|
            && RD.Decode(R.RestoreText(records)) == records
  {
    var records := R.Records(s.store, username);
    R.RecordsAreInhabited(s.store, username);
    RD.RecordsAreDecodable(s.store, username);
    GoodRecordsAreUnquoted(s, username);
    RD.RestoreRoundTrip(records);
    RD.RestoreParses(records);
  }

  // ---- sessions under dispatch ----

  /**
   The dispatcher looks up the name of a socket before it logs the socket in, so the duplicate check of Login never
   applies: with the right password a login succeeds, whoever is online.
   */
  lemma DispatchedLoginIgnoresDuplicates(users: seq<UserRow>, s: Sessions, sock: int, username: string, password: string)
    ensures LoginResult(users, Touch(s, sock), sock, username, password).Ok? <==>
              && ValidUsername(|username|) && ValidPassword(|password|)
              && Where(users, Account(username, password)) != []
  {
  }

  /** A successful login on a socket of another user, or of a user who is online on another socket. */
  ghost predicate TakesOver(s: System, e: Event) {
    var drained := Drained(s.sessions, e.gone);
    var a := Reached(s, e);
    && a.Some? && a.value.LogIn?
    && LoginResult(s.users, Touch(drained, e.sock), e.sock, a.value.username, a.value.password).Ok?
    && !(&& NameAt(drained, e.sock) in ["", a.value.username]
         && (a.value.username in drained.opposite ==> drained.opposite[a.value.username] == e.sock))
  }

  /** The session maps stay inverses of each other exactly when the packet is no such login. */
  lemma ServeKeepsLink(s: System, e: Event)
    requires Good(s) && Linked(s.sessions)
    ensures Linked(Serve(s, e.gone, e.sock, e.text, e.date).sessions) <==> !TakesOver(s, e)
  {
    ServeShape(s, e);
    var drained := Drained(s.sessions, e.gone);
    DrainKeepsLink(s.sessions, e.gone);
    TouchKeepsLink(drained, e.sock);
    var touched := Touch(drained, e.sock);
    var a := Reached(s, e);
    if a.Some? && a.value.LogIn? {
      if LoginResult(s.users, touched, e.sock, a.value.username, a.value.password).Ok? {
        SignInKeepsLink(touched, e.sock, a.value.username);
      }
    } else if a.Some? && a.value.LogOut? {
      SignOutKeepsLink(touched, e.sock);
    }
  }

  ghost predicate Uncontested(s: System, events: seq<Event>)
    requires Good(s) && PlainRun(s, events)
  {
    events == [] ||
    var n := |events| - 1;
    Uncontested(s, events[..n]) && !TakesOver(RunServer(s, events[..n]), events[n])
  }

  /** The maps are inverses of each other after every packet. */
  ghost predicate LinkedThroughout(s: System, events: seq<Event>)
    requires Good(s) && PlainRun(s, events)
  {
    && Linked(RunServer(s, events).sessions)
    && (events == [] || LinkedThroughout(s, events[..|events| - 1]))
  }

  /** They stay so over a run exactly when no login of the run takes over a socket or a name. */
  lemma {:induction false} UncontestedRunsStayLinked(s: System, events: seq<Event>)
    requires Good(s) && PlainRun(s, events) && Linked(s.sessions)
    ensures LinkedThroughout(s, events) <==> Uncontested(s, events)
  {
    if events != [] {
      var n := |events| - 1;
      UncontestedRunsStayLinked(s, events[..n]);
      if LinkedThroughout(s, events[..n]) {
        ServeKeepsLink(RunServer(s, events[..n]), events[n]);
      }
    }
  }

  // ---- members without an account ----

  ghost predicate Nameless(st: S.Store) {
    exists m :: m in st.members && m.username == ""
  }

  /** A creation, with its one argument, from a socket that is known but has no user. */
  ghost predicate NamelessCreation(s: System, e: Event) {
    var a := Reached(s, e);
    a.Some? && a.value.OnStore? && a.value.op.Create? && NameAt(Drained(s.sessions, e.gone), e.sock) == ""
  }

  /** The reference from members to accounts breaks exactly when a socket without a user creates a group. */
  lemma NamelessExactly(s: System, e: Event)
    requires Good(s) && Plain(s.store, e.text) && !Nameless(s.store)
    ensures Nameless(Serve(s, e.gone, e.sock, e.text, e.date).store) <==> NamelessCreation(s, e)
  {
    ServeShape(s, e);
    var a := Reached(s, e);
    if a.Some? && OpOf(s, a.value).Some? {
      NamelessOp(s.users, s.store, a.value.op);
    }
  }

  lemma NamelessOp(users: seq<UserRow>, st: S.Store, op: S.Op)
    requires S.Inv(st) && !Nameless(st) && CleanUsers(users) && (op.Add? ==> Registered(users, op.username))
    ensures Nameless(S.Apply(st, op).0) <==> op.Create? && op.admin == ""
  {
    if op.Create? {
      assert MemberRow(st.lastCode + 1, op.admin, "admin") in S.Apply(st, op).0.members;
    }
    if op.Add? {
      RegisteredHasName(users, op.username);
    }
    forall m | m in S.Apply(st, op).0.members && m.username == "" ensures op.Create? && op.admin == "" {
      NewMembers(st, op, m);
    }
  }

  lemma RegisteredHasName(users: seq<UserRow>, username: string)
    requires CleanUsers(users) && Registered(users, username)
    ensures Sendable(username)
  {
    var row := Where(users, Named(username))[0];
    assert row in Where(users, Named(username));
  }

  /** It does happen: registering an account is enough to make a socket known without a user. */
  lemma NamelessHappens(sock: int, username: string, password: string, group: string, date: string)
    requires ValidUsername(|username|) && ValidPassword(|password|)
    requires Sendable(username) && Sendable(password) && Sendable(group)
    ensures Good(INITIAL)
    ensures var events := [Event([], sock, Packet(EN_REGISTER, [username, password]), date),
                           Event([], sock, Packet(GR_CREATE_GROUP, [group]), date)];
            PlainRun(INITIAL, events) && Nameless(RunServer(INITIAL, events).store)
  {
    FirstRegistration(sock, username, password, date);
    var e1 := Event([], sock, Packet(EN_REGISTER, [username, password]), date);
    var e2 := Event([], sock, Packet(GR_CREATE_GROUP, [group]), date);
    RequestCodes();
    PrintThenParse(GR_CREATE_GROUP, [group]);
    var s1 := RunServer(INITIAL, [e1]);
    assert NamelessCreation(s1, e2);
    NamelessExactly(s1, e2);
    OneMoreEvent(INITIAL, [e1], e2);
    assert [e1] + [e2] == [e1, e2];
  }

  lemma OneMoreEvent(s: System, events: seq<Event>, e: Event)
    requires Good(s) && PlainRun(s, events) && Plain(RunServer(s, events).store, e.text)
    ensures PlainRun(s, events + [e])
    ensures RunServer(s, events + [e]) == Served(RunServer(s, events), e)
  {
    assert (events + [e])[..|events|] == events;
  }

  /** The first packet to a fresh server registers an account. */
  lemma FirstRegistration(sock: int, username: string, password: string, date: string)
    requires ValidUsername(|username|) && ValidPassword(|password|) && Sendable(username) && Sendable(password)
    ensures Good(INITIAL)
    ensures var events := [Event([], sock, Packet(EN_REGISTER, [username, password]), date)];
            && PlainRun(INITIAL, events)
            && var s := RunServer(INITIAL, events);
               && s.sessions == Sessions(map[sock := ""], map[]) && s.store == S.EMPTY
               && s.users == [UserRow(username, password)]
  {
    InitialIsGood();
    var e := Event([], sock, Packet(EN_REGISTER, [username, password]), date);
    RequestCodes();
    PrintThenParse(EN_REGISTER, [username, password]);
    assert PlainRun(INITIAL, []) && RunServer(INITIAL, []) == INITIAL;
    OneMoreEvent(INITIAL, [], e);
    assert [] + [e] == [e];
  }

  // ---- one user on two sockets ----

  /** With the right password a login packet always signs the socket in. */
  lemma LoginServed(s: System, sock: int, username: string, password: string, date: string)
    requires Good(s) && Sendable(username) && Sendable(password)
    requires ValidUsername(|username|) && ValidPassword(|password|)
    requires Where(s.users, Account(username, password)) != []
    ensures var text := Packet(EN_LOGIN, [username, password]);
            && Plain(s.store, text)
            && var s' := Serve(s, [], sock, text, date);
               && s'.sessions == SignIn(Touch(s.sessions, sock), sock, username)
               && s'.users == s.users && s'.store == s.store
  {
    RequestCodes();
    PrintThenParse(EN_LOGIN, [username, password]);
    DispatchedLoginIgnoresDuplicates(s.users, s.sessions, sock, username, password);
  }

  ghost function LoginEvent(sock: int, username: string, password: string, date: string): Event {
    Event([], sock, Packet(EN_LOGIN, [username, password]), date)
  }

  lemma LoginNext(s: System, events: seq<Event>, sock: int, username: string, password: string, date: string)
    requires Good(s) && PlainRun(s, events) && Sendable(username) && Sendable(password)
    requires ValidUsername(|username|) && ValidPassword(|password|)
    requires Where(RunServer(s, events).users, Account(username, password)) != []
    ensures var later := events + [LoginEvent(sock, username, password, date)];
            && PlainRun(s, later)
            && RunServer(s, later).sessions == SignIn(Touch(RunServer(s, events).sessions, sock), sock, username)
            && RunServer(s, later).users == RunServer(s, events).users
            && RunServer(s, later).store == RunServer(s, events).store
  {
    LoginServed(RunServer(s, events), sock, username, password, date);
    OneMoreEvent(s, events, LoginEvent(sock, username, password, date));
  }

  lemma TwoSockets(sock: int, other: int, username: string)
    requires sock != other && username != ""
    ensures var first := SignIn(Touch(Sessions(map[sock := ""], map[]), sock), sock, username);
            var second := SignIn(Touch(first, other), other, username);
            && second == Sessions(map[sock := username, other := username], map[username := other])
            && Linked(first) && !Linked(second)
  {
    var second := Sessions(map[sock := username, other := username], map[username := other]);
    assert sock in second.online && second.opposite[second.online[sock]] != sock;
  }

  /** It does happen: after these three packets one user is online on two sockets, and the maps are not inverse. */
  lemma TakeOverHappens(sock: int, other: int, username: string, password: string, date: string)
    requires ValidUsername(|username|) && ValidPassword(|password|) && Sendable(username) && Sendable(password)
    requires sock != other
    ensures Good(INITIAL)
    ensures var events := [Event([], sock, Packet(EN_REGISTER, [username, password]), date)] +
                          [LoginEvent(sock, username, password, date)] + [LoginEvent(other, username, password, date)];
            && PlainRun(INITIAL, events)
            && var sessions := RunServer(INITIAL, events).sessions;
               sessions == Sessions(map[sock := username, other := username], map[username := other]) && !Linked(sessions)
  {
    FirstRegistration(sock, username, password, date);
    var registered := [Event([], sock, Packet(EN_REGISTER, [username, password]), date)];
    var users := RunServer(INITIAL, registered).users;
    assert users[0] in Where(users, Account(username, password));
    LoginNext(INITIAL, registered, sock, username, password, date);
    LoginNext(INITIAL, registered + [LoginEvent(sock, username, password, date)], other, username, password, date);
    TwoSockets(sock, other, username);
  }

  lemma RequestCodes()
    ensures EN_REGISTER in ALL_MESSAGES_CODES && EN_LOGIN in ALL_MESSAGES_CODES && GR_CREATE_GROUP in ALL_MESSAGES_CODES
    ensures GR_INVITE_USER in ALL_MESSAGES_CODES && PGM_CTR_NEW_USER in ALL_MESSAGES_CODES
    ensures LST_SCC_ADD_ITEM in ALL_MESSAGES_CODES
  {
  }
}
