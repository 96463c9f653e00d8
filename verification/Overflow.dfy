/** An accepted request that is not done as announced, on a fresh server: what a member then has is not the group. */
module Overflow {
  import opened Errors
  import opened Decimal
  import opened Config
  import opened Parser
  import opened Messages
  import opened Tables
  import opened SessionMaps
  import opened Dispatch
  import opened ServerRuns
  import opened InviteReplay
  import opened BroadcastSync
  import opened SyncRuns
  import opened Scenes
  import B = Book
  import F = Refinement
  import S = Store
  import U = Runs

  /** A fresh server on which one user has registered and signed in. */
  ghost function Arrival(sock: int, username: string, password: string, date: string): seq<Event> {
    [Event([], sock, Packet(EN_REGISTER, [username, password]), date)] + [LoginEvent(sock, username, password, date)]
  }

  lemma Arrived(sock: int, username: string, password: string, date: string)
    requires ValidUsername(|username|) && ValidPassword(|password|) && Sendable(username) && Sendable(password)
    ensures Good(INITIAL) && PlainRun(INITIAL, Arrival(sock, username, password, date))
    ensures var s := RunServer(INITIAL, Arrival(sock, username, password, date));
            && s.sessions == Sessions(map[sock := username], map[username := sock])
            && B.Represents(s.store, B.EMPTY_BOOK)
  {
    FirstRegistration(sock, username, password, date);
    var registered := [Event([], sock, Packet(EN_REGISTER, [username, password]), date)];
    var users := RunServer(INITIAL, registered).users;
    assert users[0] in Where(users, Account(username, password));
    LoginNext(INITIAL, registered, sock, username, password, date);
  }

  lemma FirstNote(group: string, username: string, item: string, q: int, text: string, remarks: string)
    requires SqlInteger(text) == Some(q)
    ensures B.ApplyBook(OneGroup(group, username, map[]), S.Put(username, 1, item, text, remarks)) ==
            (OneGroup(group, username, map[item := B.Item(q, remarks)]), Ok(()))
  {
    var b, items := OneGroup(group, username, map[]), map[item := B.Item(q, remarks)];
    assert b.groups[1].items[item := B.Item(q, remarks)] == items;
    assert B.WithItems(b, 1, items).groups == OneGroup(group, username, items).groups;
  }

  /** A second add, which is accepted and leaves the 32-bit range, is not done as announced. */
  lemma SecondNote(group: string, username: string, item: string, remarks: string)
    ensures var b := OneGroup(group, username, map[item := B.Item(INT_MAX, remarks)]);
            var op := S.Put(username, 1, item, ToString(1), remarks);
            B.ApplyBook(b, op).1.Ok? && !Faithful(b, op)
  {
    ReadsBack(1);
    F.NoteListed(OneGroup(group, username, map[item := B.Item(INT_MAX, remarks)]), username, 1, item, INT_MAX,
                 ToString(1), remarks);
  }

  /** The run before: a user registers, signs in, creates a group and puts as much of an item on its list as fits. */
  ghost function Before(sock: int, username: string, password: string, group: string, item: string, remarks: string,
                        date: string): seq<Event>
  {
    Arrival(sock, username, password, date) + [CreateRequest(sock, group, date)] +
    [AddRequest(sock, item, INT_MAX, remarks, date)]
  }

  lemma FullList(sock: int, username: string, password: string, group: string, item: string, remarks: string,
                 date: string)
    requires ValidUsername(|username|) && ValidPassword(|password|) && Sendable(username) && Sendable(password)
    requires Sendable(group) && Sendable(item) && Sendable(remarks)
    ensures Good(INITIAL) && PlainRun(INITIAL, Before(sock, username, password, group, item, remarks, date))
    ensures var s := RunServer(INITIAL, Before(sock, username, password, group, item, remarks, date));
            && s.sessions == Sessions(map[sock := username], map[username := sock])
            && B.Represents(s.store, OneGroup(group, username, map[item := B.Item(INT_MAX, remarks)]))
  {
    Arrived(sock, username, password, date);
    var arrival := Arrival(sock, username, password, date);
    CreateAccepted(RunServer(INITIAL, arrival), sock, username, group, date);
    OneMoreEvent(INITIAL, arrival, CreateRequest(sock, group, date));
    var created := arrival + [CreateRequest(sock, group, date)];
    ReadsBack(INT_MAX);
    FirstNote(group, username, item, INT_MAX, ToString(INT_MAX), remarks);
    AddAccepted(RunServer(INITIAL, created), sock, username, item, INT_MAX, remarks, date,
                OneGroup(group, username, map[]));
    OneMoreEvent(INITIAL, created, AddRequest(sock, item, INT_MAX, remarks, date));
  }

  /** Then one more is added: the request is accepted and announced, and whoever believes it has another list. */
  lemma UnfaithfulHappens(sock: int, username: string, password: string, group: string, item: string, remarks: string,
                          date: string)
    requires ValidUsername(|username|) && ValidPassword(|password|) && Sendable(username) && Sendable(password)
    requires Sendable(group) && Sendable(item) && Sendable(remarks)
    ensures Good(INITIAL) && PlainRun(INITIAL, Before(sock, username, password, group, item, remarks, date))
    ensures var s := RunServer(INITIAL, Before(sock, username, password, group, item, remarks, date));
            var e := AddRequest(sock, item, 1, remarks, date);
            && Plain(s.store, e.text) && Accepted(s, e).Some? && HasUser(s.store, 1, username)
            && Replay(1, Current(s.store, 1), SeenNow(s, e, username)) != Current(Served(s, e).store, 1)
  {
    FullList(sock, username, password, group, item, remarks, date);
    SecondNote(group, username, item, remarks);
    OneTooMany(RunServer(INITIAL, Before(sock, username, password, group, item, remarks, date)), sock, username, item,
               remarks, date, OneGroup(group, username, map[item := B.Item(INT_MAX, remarks)]));
  }

  lemma OneTooMany(s: System, sock: int, username: string, item: string, remarks: string, date: string, b: B.Book)
    requires Good(s) && s.sessions == Sessions(map[sock := username], map[username := sock])
    requires B.Represents(s.store, b) && B.Belongs(b, 1, username) && Sendable(item) && Sendable(remarks)
    requires var op := S.Put(username, 1, item, ToString(1), remarks);
             B.ApplyBook(b, op).1.Ok? && !Faithful(b, op)
    ensures var e := AddRequest(sock, item, 1, remarks, date);
            && Plain(s.store, e.text) && Accepted(s, e).Some? && HasUser(s.store, 1, username)
            && Replay(1, Current(s.store, 1), SeenNow(s, e, username)) != Current(Served(s, e).store, 1)
  {
    var e, op := AddRequest(sock, item, 1, remarks, date), S.Put(username, 1, item, ToString(1), remarks);
    AddAccepted(s, sock, username, item, 1, remarks, date, b);
    NoteKeepsMembers(b, op);
    UnfaithfulPacket(s, e, op, b, username);
  }

  /** An accepted but unfaithful operation leaves a member who reads the mail with another group. */
  lemma UnfaithfulPacket(s: System, e: Event, op: S.Op, b: B.Book, user: string)
    requires Good(s) && Plain(s.store, e.text) && Accepted(s, e) == Some(op) && B.Represents(s.store, b)
    requires Inner(op) && !Faithful(b, op) && B.Represents(Served(s, e).store, B.ApplyBook(b, op).0)
    requires B.Belongs(b, op.code, user) && B.Belongs(B.ApplyBook(b, op).0, op.code, user)
    requires Alone(Served(s, e).sessions, user) && IsOnline(Served(s, e), user)
    ensures HasUser(s.store, op.code, user)
    ensures Replay(op.code, Current(s.store, op.code), SeenNow(s, e, user)) != Current(Served(s, e).store, op.code)
  {
    B.MeaningIsUnique(s.store, b, U.Meaning(s.store));
    MemberOfMeaning(s.store, b, op.code, user);
    MemberOfMeaning(Served(s, e).store, B.ApplyBook(b, op).0, op.code, user);
    PacketKeepsSync(s, e, op.code, user);
  }

  lemma NoteKeepsMembers(b: B.Book, op: S.Op)
    requires op.Put? && op.code in b.groups
    ensures var b' := B.ApplyBook(b, op).0;
            op.code in b'.groups && b'.groups[op.code].members == b.groups[op.code].members
  {
  }
}
