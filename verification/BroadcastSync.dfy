/**
 The point of the broadcasts: a member whose client holds the group as it was, and reads what the server sends after an
 accepted request, holds the group as it is. The exceptions are exactly the requests that the server accepts without
 doing what it announces.
 */
module BroadcastSync {
  import opened Errors
  import opened Decimal
  import opened Config
  import opened Parser
  import opened Messages
  import opened Tables
  import opened SessionMaps
  import opened Dispatch
  import opened ServerRuns
  import opened InviteReplay
  import B = Book
  import R = Refinement
  import S = Store
  import I = StoreInvariant

  /** The operations after which the members are told what happened inside the group. */
  predicate Inner(op: S.Op) {
    !op.Create? && !op.Remove?
  }

  /** The message about an operation: the arguments of the request, with the group's name in an invitation. */
  ghost function Announcement(op: S.Op, name: string, args: seq<string>): (int, seq<string>)
    requires Inner(op) && (op.Add? ==> |args| == 3)
  {
    match op
    case Create(_, _, _) => (0, [])
    case Remove(_, _) => (0, [])
    case Add(_, _, _, _) => (PGM_CTR_NEW_USER, [args[0], name, args[1], args[2]])
    case Expel(_, _, _) => (PGM_CTR_USER_LEAVE, args)
    case Promote(_, _, _, _) => (PGM_CTR_STATUS_CHANGED, args)
    case Put(_, _, _, _, _) => (LST_SCC_ADD_ITEM, args)
    case Take(_, _, _) => (LST_SCC_REMOVE_ITEM, args)
    case Edit(_, _, _, _, _, _) => (LST_SCC_SET_ITEM, args)
  }

  /** The arguments of a request are the group and the fields of the operation. */
  ghost predicate Requested(op: S.Op, args: seq<string>) {
    !op.Create? ==>
      && args != [] && Number(args[0]) == op.code
      && FieldsGiven(op, args)
  }

  ghost predicate FieldsGiven(op: S.Op, args: seq<string>)
    requires !op.Create? && args != []
  {
    match op
    case Remove(_, _) => |args| == 1
    case Add(_, _, user, status) => args[1..] == [user, status]
    case Expel(_, _, user) => args[1..] == [user]
    case Promote(_, _, user, status) => args[1..] == [user, status]
    case Put(_, _, item, quantity, remarks) => args[1..] == [item, quantity, remarks]
    case Take(_, _, item) => args[1..] == [item]
    case Edit(_, _, key, name, quantity, remarks) => args[1..] == [key, name, quantity, remarks]
  }

  /**
   Accepted, and done as announced: what is added to a listed item is a literal and the sum is within 32 bits (or it
   adds nothing), and an edited item does not take another item's name.
   */
  predicate Faithful(b: B.Book, op: S.Op) {
    match op
    case Put(_, code, item, quantity, _) =>
      B.Listed(b, code, item) ==>
        if SqlInteger(quantity).Some? then IsInt32(b.groups[code].items[item].quantity + SqlInteger(quantity).value)
        else Stoi(quantity) == Ok(0)
    case Edit(_, code, key, name, _, _) => name == key || !B.Listed(b, code, name)
    case _ => true
  }

  /** The quantity of a new item is a literal. */
  predicate PlainNote(b: B.Book, op: S.Op) {
    op.Put? && !B.Listed(b, op.code, op.item) ==> Literal(op.quantity)
  }

  // ---- the client's reading against the map operation ----

  lemma LiteralStoi(s: string)
    requires SqlInteger(s).Some?
    ensures Stoi(s) == if IsInt32(SqlInteger(s).value) then Ok(SqlInteger(s).value) else Err(StdException)
  {
    if AllDigits(s) {
      StoiOfDigits(s);
    } else {
      DigitPrefixOfDigits(s[1..]);
    }
  }

  lemma WrapIsExact(v: int)
    ensures Wrap32(v) == v <==> IsInt32(v)
  {
  }

  lemma PutUnderstood(b: B.Book, op: S.Op)
    requires op.Put? && PlainNote(b, op) && B.ApplyBook(b, op).1.Ok?
    ensures op.code in b.groups && op.code in B.ApplyBook(b, op).0.groups
    ensures var g, g' := b.groups[op.code], B.ApplyBook(b, op).0.groups[op.code];
            g' == g.(items := Announced(g.items, op.item, Number(op.quantity), op.remarks)) <==> Faithful(b, op)
  {
    var g, g' := b.groups[op.code], B.ApplyBook(b, op).0.groups[op.code];
    var items := Announced(g.items, op.item, Number(op.quantity), op.remarks);
    if SqlInteger(op.quantity).Some? {
      LiteralStoi(op.quantity);
    }
    if B.Listed(b, op.code, op.item) {
      R.NoteListed(b, op.effector, op.code, op.item, g.items[op.item].quantity, op.quantity, op.remarks);
      var sum := g.items[op.item].quantity + Stoi(op.quantity).value;
      WrapIsExact(sum);
      assert g'.items == g.items[op.item := B.Item(Wrap32(sum), g.items[op.item].remarks)];
      assert items[op.item].quantity == g'.items[op.item].quantity <==> Faithful(b, op);
    } else {
      assert op.item in items;
      assert op.item in g'.items <==> SqlInteger(op.quantity).Some?;
    }
  }

  lemma EditUnderstood(b: B.Book, op: S.Op)
    requires op.Edit? && B.ApplyBook(b, op).1.Ok?
    ensures op.code in b.groups && op.code in B.ApplyBook(b, op).0.groups
    ensures var g, g' := b.groups[op.code], B.ApplyBook(b, op).0.groups[op.code];
            g' == g.(items := (g.items - {op.item})[op.newName := B.Item(Number(op.quantity), op.remarks)]) <==>
            Faithful(b, op)
  {
    var g, g' := b.groups[op.code], B.ApplyBook(b, op).0.groups[op.code];
    assert SqlInteger(op.quantity) == Some(Value(op.quantity));
    var items := (g.items - {op.item})[op.newName := B.Item(Number(op.quantity), op.remarks)];
    if op.newName != op.item && B.Listed(b, op.code, op.newName) {
      assert op.item in g'.items && op.item !in items;
    }
  }

  /** A client that understands the announcement of an accepted operation has done it, exactly when it is faithful. */
  lemma AnnouncementUnderstood(b: B.Book, op: S.Op, args: seq<string>)
    requires Inner(op) && PlainNote(b, op) && Requested(op, args) && B.ApplyBook(b, op).1.Ok?
    ensures op.code in b.groups && op.code in B.ApplyBook(b, op).0.groups
    ensures var g := b.groups[op.code];
            var (code, fields) := Announcement(op, g.name, args);
            Understand(op.code, g, code, fields) == B.ApplyBook(b, op).0.groups[op.code] <==> Faithful(b, op)
  {
    assert forall k :: 0 < k < |args| ==> args[k] == args[1..][k - 1];
    match op
    case Put(_, _, _, _, _) => PutUnderstood(b, op);
    case Edit(_, _, _, _, _, _) => EditUnderstood(b, op);
    case _ =>
  }

  // ---- what reaches a member ----

  lemma NoneToUser(es: seq<Envelope>, user: string)
    requires forall k :: 0 <= k < |es| ==> es[k].to != user
    ensures Inbox(es, user) == []
  {
    WhereNothing(es, EnvelopesTo(user));
  }

  /** The inbox is the announcement, once, or twice for a member named like the group when somebody left. */
  ghost predicate Told(op: S.Op, message: string, inbox: seq<string>) {
    inbox == [message] || (op.Expel? && inbox == [message, message])
  }

  ghost function MessageAbout(st': S.Store, op: S.Op, args: seq<string>): string
    requires Inner(op) && Requested(op, args)
  {
    var (code, fields) := Announcement(op, S.NameOf(st'.groups, op.code), args);
    Packet(code, fields)
  }

  lemma InviteNotice(st: S.Store, st': S.Store, op: S.Op, args: seq<string>, user: string)
    requires S.Inv(st') && op.Add? && Requested(op, args) && user in S.Usernames(st'.members, op.code)
    requires user != op.username
    ensures Inbox(Notices(st, st', op, args), user) == [MessageAbout(st', op, args)]
  {
    var message := MessageAbout(st', op, args);
    var members := Where(st'.members, InGroup(op.code));
    var others, items := MemberNotices(members, op.username), ItemNotices(Where(st'.lists, InList(op.code)), op.username);
    assert args[1] == args[1..][0] && args[2] == args[1..][1];
    InboxOfBroadcast(st', op.code, message, user);
    NoneToUser(others, user);
    NoneToUser(items, user);
    InboxConcat(ToMembers(members, message) + others, items, user);
    InboxConcat(ToMembers(members, message), others, user);
  }

  lemma ExpelNotice(st: S.Store, st': S.Store, op: S.Op, args: seq<string>, user: string)
    requires S.Inv(st') && op.Expel? && Requested(op, args) && user in S.Usernames(st'.members, op.code)
    ensures Told(op, MessageAbout(st', op, args), Inbox(Notices(st, st', op, args), user))
  {
    var message := MessageAbout(st', op, args);
    var members := Where(st'.members, InGroup(op.code));
    var last := [Envelope(args[0], message)];
    InboxOfBroadcast(st', op.code, message, user);
    InboxConcat(ToMembers(members, message), last, user);
    if args[0] == user {
      AllToUser(last, user);
    } else {
      NoneToUser(last, user);
    }
  }

  lemma PlainNotice(st: S.Store, st': S.Store, op: S.Op, args: seq<string>, user: string)
    requires S.Inv(st') && Inner(op) && !op.Add? && !op.Expel? && Requested(op, args)
    requires user in S.Usernames(st'.members, op.code)
    ensures Inbox(Notices(st, st', op, args), user) == [MessageAbout(st', op, args)]
  {
    InboxOfBroadcast(st', op.code, MessageAbout(st', op, args), user);
  }

  /** A member other than a newly invited one gets the announcement and nothing else. */
  lemma NoticeInbox(st: S.Store, st': S.Store, op: S.Op, args: seq<string>, user: string)
    requires S.Inv(st') && Inner(op) && Requested(op, args) && user in S.Usernames(st'.members, op.code)
    requires op.Add? ==> user != op.username
    ensures Told(op, MessageAbout(st', op, args), Inbox(Notices(st, st', op, args), user))
  {
    if op.Add? {
      InviteNotice(st, st', op, args, user);
    } else if op.Expel? {
      ExpelNotice(st, st', op, args, user);
    } else {
      PlainNotice(st, st', op, args, user);
    }
  }

  lemma InnerCodes(op: S.Op, name: string, args: seq<string>)
    requires Inner(op) && (op.Add? ==> |args| == 3)
    ensures Announcement(op, name, args).0 in ALL_MESSAGES_CODES
  {
    assert PGM_SCC_CTR_CODES[5..] == [110, 111, 112, 113, 114];
    assert PGM_SCC_CTR_CODES[5] == 110 && PGM_SCC_CTR_CODES[7] == 112 && PGM_SCC_CTR_CODES[9] == 114;
    assert LST_SCC_AND_LATER_CODES[0] == 200 && LST_SCC_AND_LATER_CODES[1] == 201 && LST_SCC_AND_LATER_CODES[2] == 202;
  }

  /** Reading the announcement a second time changes nothing when it is about a member who left. */
  lemma ReadInbox(g: B.Group, op: S.Op, name: string, args: seq<string>, inbox: seq<string>)
    requires Inner(op) && Requested(op, args) && AllSendable(args) && Sendable(name)
    requires var (code, fields) := Announcement(op, name, args); Told(op, Packet(code, fields), inbox)
    ensures var (code, fields) := Announcement(op, name, args);
            Replay(op.code, g, inbox) == Understand(op.code, g, code, fields)
  {
    var (code, fields) := Announcement(op, name, args);
    InnerCodes(op, name, args);
    PrintThenParse(code, fields);
    var message: Result<Message> := Ok(Message(code, fields));
    assert Parsed(inbox) == [message] || (op.Expel? && Parsed(inbox) == [message, message]);
    assert [message][..0] == [] && [message, message][..1] == [message];
    assert Read(op.code, g, [message]) == Understand(op.code, g, code, fields);
  }

  // ---- the theorem ----

  lemma ActionIsRequested(st: S.Store, text: string, username: string, date: string)
    requires ParseText(text).Ok? && Plain(st, text)
    ensures var m := ParseText(text).value;
            var a := ActionOf(username, m.code, m.args, date);
            a.OnStore? ==> Requested(a.op, m.args) && S.PlainOp(st, a.op)
  {
    var m := ParseText(text).value;
    PlainRequest(st, m.code, m.args, username, date);
    ActionHasFields(username, m.code, m.args, date);
  }

  lemma ActionHasFields(username: string, code: int, args: seq<string>, date: string)
    ensures var a := ActionOf(username, code, args, date);
            a.OnStore? && !a.op.Create? ==> args != [] && FieldsGiven(a.op, args)
  {
  }

  /** What an accepted request on the tables does: one operation, and its notices delivered. */
  lemma StoreRequestHandled(s: System, sock: int, text: string, date: string, op: S.Op, target: Option<string>)
    requires Good(s) && Handle(s, sock, text, date).1.Ok? && Inner(op)
    requires ParseText(text).Ok? && sock in s.sessions.online
    requires var m := ParseText(text).value;
             ActionOf(NameAt(s.sessions, sock), m.code, m.args, date) == OnStore(op, target)
    ensures var args := ParseText(text).value.args;
            var store := S.Apply(s.store, op).0;
            && (op.Add? || op.Expel? ==> |args| > 0)
            && S.Apply(s.store, op).1.Ok?
            && Handle(s, sock, text, date).0 == DeliverAll(s.(store := store), Notices(s.store, store, op, args))
  {
    var m := ParseText(text).value;
    assert Touch(s.sessions, sock) == s.sessions;
    assert Handle(s, sock, text, date) == PerformOnStore(s, sock, op, target, m.args);
  }

  lemma NewMemberIsNew(st: S.Store, op: S.Op, user: string)
    requires S.Inv(st) && S.Apply(st, op).1.Ok? && op.Add? && user in S.Usernames(st.members, op.code)
    ensures user != op.username
  {
    I.NoMemberRow(st.members, op.code, op.username);
  }

  /** No operation inside a group renames it. */
  lemma NameSurvives(st: S.Store, st': S.Store, b: B.Book, op: S.Op)
    requires S.Inv(st) && S.Inv(st') && CleanStore(st') && B.Represents(st, b) && Inner(op)
    requires B.Represents(st', B.ApplyBook(b, op).0) && B.ApplyBook(b, op).1.Ok?
    ensures op.code in b.groups && S.NameOf(st'.groups, op.code) == b.groups[op.code].name
    ensures Sendable(S.NameOf(st'.groups, op.code))
  {
    var b' := B.ApplyBook(b, op).0;
    assert op.code in b.groups && op.code in b'.groups && b'.groups[op.code].name == b.groups[op.code].name;
    NameInBook(st', b', op.code);
    assert S.FirstGroup(st'.groups, op.code) in Where(st'.groups, HasCode(op.code));
  }

  /**
   One accepted operation on a group: the meaning of the tables moves by the map operation, and a member who was and is
   in the group gets from the notices to the user what changed, if and only if the operation is faithful.
   */
  lemma NoticesKeepSync(st: S.Store, b: B.Book, op: S.Op, args: seq<string>, user: string)
    requires S.Inv(st) && CleanStore(st) && CleanOp(op) && S.PlainOp(st, op) && B.Represents(st, b)
    requires Inner(op) && Requested(op, args) && AllSendable(args) && S.Apply(st, op).1.Ok?
    requires user in S.Usernames(st.members, op.code) && user in S.Usernames(S.Apply(st, op).0.members, op.code)
    ensures var b' := B.ApplyBook(b, op).0;
            var inbox := Inbox(Notices(st, S.Apply(st, op).0, op, args), user);
            && B.Represents(S.Apply(st, op).0, b') && op.code in b.groups && op.code in b'.groups
            && (Replay(op.code, b.groups[op.code], inbox) == b'.groups[op.code] <==> Faithful(b, op))
  {
    var store := S.Apply(st, op).0;
    R.Simulate(st, b, op);
    I.ApplyKeeps(st, op);
    ApplyKeepsClean(st, op);
    if op.Add? {
      NewMemberIsNew(st, op, user);
    } else if op.Put? {
      B.SeesItem(st, b, op.code, op.item);
    }
    AnnouncementUnderstood(b, op, args);
    NameSurvives(st, store, b, op);
    NoticeInbox(st, store, op, args, user);
    ReadInbox(b.groups[op.code], op, S.NameOf(store.groups, op.code), args, Inbox(Notices(st, store, op, args), user));
  }

  /**
   Members stay in sync: when a plain request on a group is accepted, each member who was and is in the group, holding
   a faithful copy of it, gets a faithful copy of the new one from parsing and replaying what is addressed to the
   member, if and only if the server did what it announces. To a member who is online, alone at the socket, just that is
   sent; a member who is offline keeps the old copy.
   */
  lemma MembersStayInSync(s: System, sock: int, text: string, date: string, op: S.Op, target: Option<string>,
                          b: B.Book, user: string)
    requires Good(s) && Plain(s.store, text) && B.Represents(s.store, b)
    requires Handle(s, sock, text, date).1.Ok? && Inner(op)
    requires ParseText(text).Ok? && sock in s.sessions.online
    requires var m := ParseText(text).value;
             ActionOf(NameAt(s.sessions, sock), m.code, m.args, date) == OnStore(op, target)
    requires user in S.Usernames(s.store.members, op.code)
    requires user in S.Usernames(S.Apply(s.store, op).0.members, op.code)
    ensures var args := ParseText(text).value.args;
            var store := S.Apply(s.store, op).0;
            var b' := B.ApplyBook(b, op).0;
            && B.Represents(store, b') && op.code in b.groups && op.code in b'.groups
            && (op.Add? || op.Expel? ==> |args| > 0)
            && var s', notices := Handle(s, sock, text, date).0, Notices(s.store, store, op, args);
               && s' == DeliverAll(s.(store := store), notices)
               && (Replay(op.code, b.groups[op.code], Inbox(notices, user)) == b'.groups[op.code] <==> Faithful(b, op))
               && |s.sent| <= |s'.sent| && s'.sessions == s.sessions
               && (Alone(s.sessions, user) ==>
                     var copy := Replay(op.code, b.groups[op.code], Seen(s.sessions, s'.sent[|s.sent|..], user));
                     if user in s.sessions.opposite then copy == b'.groups[op.code] <==> Faithful(b, op)
                     else copy == b.groups[op.code])
  {
    var m := ParseText(text).value;
    var username := NameAt(s.sessions, sock);
    var codeText := AcceptedIsFramed(text);
    ActionIsRequested(s.store, text, username, date);
    ActionIsClean(username, m.code, m.args, date);
    StoreRequestHandled(s, sock, text, date, op, target);
    NoticesKeepSync(s.store, b, op, m.args, user);
    var store := S.Apply(s.store, op).0;
    StoreDeliverySeen(s, store, Notices(s.store, store, op, m.args), user);
    NothingRead(op.code, b.groups[op.code]);
  }

  lemma NothingRead(group: int, g: B.Group)
    ensures Replay(group, g, []) == g
  {
  }
}
