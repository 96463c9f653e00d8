/** Steps of example runs of a fresh server: registering, signing in, creating a group, inviting, adding an item. */
module Scenes {
  import opened Errors
  import opened Decimal
  import opened Config
  import opened Parser
  import opened Messages
  import opened Tables
  import opened SessionMaps
  import opened Dispatch
  import opened ServerRuns
  import opened InviteReplay
  import opened SyncRuns
  import B = Book
  import F = Refinement
  import S = Store

  ghost predicate SignedIn(s: System, sock: int, username: string) {
    sock in s.sessions.online && s.sessions.online[sock] == username
  }

  ghost function Request(sock: int, code: int, args: seq<string>, date: string): Event {
    Event([], sock, Packet(code, args), date)
  }

  /** A request that the map accepts is accepted; it moves the tables by the map operation, and nobody's session. */
  lemma RequestAccepted(s: System, sock: int, username: string, code: int, args: seq<string>, date: string,
                        op: S.Op, target: Option<string>, b: B.Book)
    requires Good(s) && SignedIn(s, sock, username) && B.Represents(s.store, b)
    requires code in ALL_MESSAGES_CODES && AllSendable(args) && Plain(s.store, Packet(code, args))
    requires ActionOf(username, code, args, date) == OnStore(op, target) && B.ApplyBook(b, op).1.Ok?
    requires target.Some? ==> Registered(s.users, target.value)
    ensures var e := Request(sock, code, args, date);
            && Accepted(s, e) == Some(op) && B.Represents(Served(s, e).store, B.ApplyBook(b, op).0)
            && Served(s, e).sessions == s.sessions && Served(s, e).users == s.users
  {
    PrintThenParse(code, args);
    F.Simulate(s.store, b, op);
    var e := Request(sock, code, args, date);
    ServeShape(s, e);
    UsersStay(s, e, op, target);
  }

  lemma UsersStay(s: System, e: Event, op: S.Op, target: Option<string>)
    requires Good(s) && Plain(s.store, e.text) && Reached(s, e) == Some(OnStore(op, target))
    ensures Served(s, e).users == s.users
  {
    ServedByPerforming(s, e);
    PerformShape(Ready(s, e), e.sock, NameAt(Drained(s.sessions, e.gone), e.sock), OnStore(op, target),
                 ParseText(e.text).value.args);
  }

  /** The book of one group with one member. */
  ghost function OneGroup(group: string, username: string, items: map<string, B.Item>): B.Book {
    B.Book(1, map[1 := B.Group(group, map[username := "admin"], items)])
  }

  lemma ListCodes()
    ensures GR_CREATE_GROUP in ALL_MESSAGES_CODES && LST_ADD_ITEM in ALL_MESSAGES_CODES
  {
    assert LST_CH_RE_CODES[0] == LST_ADD_ITEM && EN_GR_CODES[4] == GR_CREATE_GROUP;
  }

  ghost function CreateRequest(sock: int, group: string, date: string): Event {
    Request(sock, GR_CREATE_GROUP, [group], date)
  }

  /** Adding to the list of the first group. */
  ghost function AddRequest(sock: int, item: string, q: int, remarks: string, date: string): Event {
    Request(sock, LST_ADD_ITEM, AddCells(item, q, remarks), date)
  }

  lemma CreateAccepted(s: System, sock: int, username: string, group: string, date: string)
    requires Good(s) && SignedIn(s, sock, username) && B.Represents(s.store, B.EMPTY_BOOK) && Sendable(group)
    ensures var e := CreateRequest(sock, group, date);
            && Plain(s.store, e.text) && Served(s, e).sessions == s.sessions && Served(s, e).users == s.users
            && B.Represents(Served(s, e).store, OneGroup(group, username, map[]))
  {
    ListCodes();
    PrintThenParse(GR_CREATE_GROUP, [group]);
    RequestAccepted(s, sock, username, GR_CREATE_GROUP, [group], date, S.Create(group, username, date), None,
                    B.EMPTY_BOOK);
    assert B.Open(B.EMPTY_BOOK, group, username) == OneGroup(group, username, map[]);
  }

  ghost function AddCells(item: string, q: int, remarks: string): seq<string> {
    [ToString(1), item, ToString(q), remarks]
  }

  lemma LiteralsArePlain(st: S.Store, username: string, code: string, item: string, text: string, remarks: string,
                         date: string)
    requires AllSendable([code, item, text, remarks]) && Literal(code) && Literal(text)
    ensures var args := [code, item, text, remarks];
            && PlainMessage(st, LST_ADD_ITEM, args)
            && ActionOf(username, LST_ADD_ITEM, args, date) ==
                 OnStore(S.Put(username, Number(code), item, text, remarks), None)
  {
  }

  lemma AddIsPlain(st: S.Store, username: string, item: string, q: int, remarks: string, date: string)
    requires Sendable(item) && Sendable(remarks) && IsInt32(q)
    ensures var args := AddCells(item, q, remarks);
            && LST_ADD_ITEM in ALL_MESSAGES_CODES && AllSendable(args) && Plain(st, Packet(LST_ADD_ITEM, args))
            && ActionOf(username, LST_ADD_ITEM, args, date) ==
                 OnStore(S.Put(username, 1, item, ToString(q), remarks), None)
  {
    ListCodes();
    NumberIsSendable(1);
    NumberIsSendable(q);
    ReadsBack(1);
    ReadsBack(q);
    LiteralsArePlain(st, username, ToString(1), item, ToString(q), remarks, date);
    PrintThenParse(LST_ADD_ITEM, AddCells(item, q, remarks));
  }

  lemma AddAccepted(s: System, sock: int, username: string, item: string, q: int, remarks: string, date: string,
                    b: B.Book)
    requires Good(s) && SignedIn(s, sock, username) && B.Represents(s.store, b)
    requires Sendable(item) && Sendable(remarks) && IsInt32(q)
    requires B.ApplyBook(b, S.Put(username, 1, item, ToString(q), remarks)).1.Ok?
    ensures var e, op := AddRequest(sock, item, q, remarks, date), S.Put(username, 1, item, ToString(q), remarks);
            && Plain(s.store, e.text) && Accepted(s, e) == Some(op)
            && Served(s, e).sessions == s.sessions && Served(s, e).users == s.users
            && B.Represents(Served(s, e).store, B.ApplyBook(b, op).0)
  {
    AddIsPlain(s.store, username, item, q, remarks, date);
    RequestAccepted(s, sock, username, LST_ADD_ITEM, AddCells(item, q, remarks), date,
                    S.Put(username, 1, item, ToString(q), remarks), None, b);
  }

  lemma MemberOfMeaning(st: S.Store, b: B.Book, code: int, user: string)
    requires S.Inv(st) && B.Represents(st, b) && B.Belongs(b, code, user)
    ensures HasUser(st, code, user)
  {
    B.SeesMembersOf(st, b, code);
  }

  /** A registration on a server that is already in use. */
  lemma RegistrationServed(s: System, sock: int, username: string, password: string, date: string)
    requires Good(s) && Sendable(username) && Sendable(password) && RegisterResult(s.users, username, password).Ok?
    ensures var e := Request(sock, EN_REGISTER, [username, password], date);
            && Plain(s.store, e.text)
            && Served(s, e).users == s.users + [UserRow(username, password)]
            && Served(s, e).sessions == Touch(s.sessions, sock) && Served(s, e).store == s.store
  {
    RequestCodes();
    PrintThenParse(EN_REGISTER, [username, password]);
  }

  ghost function InviteRequest(sock: int, user: string, status: string, date: string): Event {
    Request(sock, GR_INVITE_USER, [ToString(1), user, status], date)
  }

  ghost function CloseRequest(sock: int, date: string): Event {
    Request(sock, GR_CLOSE_GROUP, [ToString(1)], date)
  }

  lemma MemberRequestsArePlain(st: S.Store, username: string, code: string, user: string, status: string, date: string)
    requires Literal(code)
    ensures PlainMessage(st, GR_INVITE_USER, [code, user, status]) && PlainMessage(st, GR_CLOSE_GROUP, [code])
    ensures ActionOf(username, GR_INVITE_USER, [code, user, status], date) ==
            OnStore(S.Add(username, Number(code), user, status), Some(user))
    ensures ActionOf(username, GR_CLOSE_GROUP, [code], date) == OnStore(S.Remove(username, Number(code)), None)
  {
  }

  lemma MemberCodes()
    ensures GR_INVITE_USER in ALL_MESSAGES_CODES && GR_CLOSE_GROUP in ALL_MESSAGES_CODES
  {
    assert EN_GR_CODES[9] == GR_INVITE_USER && EN_GR_CODES[7] == GR_CLOSE_GROUP;
  }

  lemma InviteAccepted(s: System, sock: int, username: string, user: string, status: string, date: string, b: B.Book)
    requires Good(s) && SignedIn(s, sock, username) && B.Represents(s.store, b)
    requires Sendable(user) && Sendable(status) && Registered(s.users, user)
    requires B.ApplyBook(b, S.Add(username, 1, user, status)).1.Ok?
    ensures var e, op := InviteRequest(sock, user, status, date), S.Add(username, 1, user, status);
            && Plain(s.store, e.text) && Accepted(s, e) == Some(op)
            && Served(s, e).sessions == s.sessions && Served(s, e).users == s.users
            && B.Represents(Served(s, e).store, B.ApplyBook(b, op).0)
  {
    MemberCodes();
    NumberIsSendable(1);
    ReadsBack(1);
    MemberRequestsArePlain(s.store, username, ToString(1), user, status, date);
    PrintThenParse(GR_INVITE_USER, [ToString(1), user, status]);
    RequestAccepted(s, sock, username, GR_INVITE_USER, [ToString(1), user, status], date,
                    S.Add(username, 1, user, status), Some(user), b);
  }

  lemma CloseAccepted(s: System, sock: int, username: string, date: string, b: B.Book)
    requires Good(s) && SignedIn(s, sock, username) && B.Represents(s.store, b)
    requires B.ApplyBook(b, S.Remove(username, 1)).1.Ok?
    ensures var e, op := CloseRequest(sock, date), S.Remove(username, 1);
            && Plain(s.store, e.text) && Accepted(s, e) == Some(op)
            && B.Represents(Served(s, e).store, B.ApplyBook(b, op).0)
  {
    MemberCodes();
    NumberIsSendable(1);
    ReadsBack(1);
    MemberRequestsArePlain(s.store, username, ToString(1), "", "", date);
    PrintThenParse(GR_CLOSE_GROUP, [ToString(1)]);
    RequestAccepted(s, sock, username, GR_CLOSE_GROUP, [ToString(1)], date, S.Remove(username, 1), None, b);
  }
}
