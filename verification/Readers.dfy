/**
 Two users on a fresh server, one of them invited as a reader while offline: what the reader misses, and what a reader
 may do all the same.
 */
module Readers {
  import opened Errors
  import opened Decimal
  import opened Config
  import opened Parser
  import opened Tables
  import opened SessionMaps
  import opened Dispatch
  import opened ServerRuns
  import opened InviteReplay
  import opened BroadcastSync
  import opened SyncRuns
  import opened Scenes
  import opened AccessRules
  import B = Book
  import S = Store
  import U = Runs

  /** Two accounts are registered, and the first user signs in. */
  ghost function Accounts(sock: int, owner: string, reader: string, password: string, date: string): seq<Event> {
    [Request(sock, EN_REGISTER, [owner, password], date)] + [Request(sock, EN_REGISTER, [reader, password], date)] +
    [LoginEvent(sock, owner, password, date)]
  }

  /** The first user creates a group and invites the second, who is not signed in. */
  ghost function Scene(sock: int, owner: string, reader: string, password: string, group: string, date: string)
    : seq<Event>
  {
    Accounts(sock, owner, reader, password, date) + [CreateRequest(sock, group, date)] +
    [InviteRequest(sock, reader, "r", date)]
  }

  ghost predicate Fit(owner: string, reader: string, password: string, group: string) {
    && owner != reader && ValidUsername(|owner|) && ValidUsername(|reader|) && ValidPassword(|password|)
    && Sendable(owner) && Sendable(reader) && Sendable(password) && Sendable(group)
  }

  ghost function TwoMembers(group: string, owner: string, reader: string, items: map<string, B.Item>): B.Book {
    B.Book(1, map[1 := B.Group(group, map[owner := "admin", reader := "r"], items)])
  }

  lemma ReaderJoins(group: string, owner: string, reader: string)
    requires owner != reader
    ensures B.ApplyBook(OneGroup(group, owner, map[]), S.Add(owner, 1, reader, "r")) ==
            (TwoMembers(group, owner, reader, map[]), Ok(()))
  {
    var b := OneGroup(group, owner, map[]);
    var members := map[owner := "admin", reader := "r"];
    assert |b.groups[1].members| == 1;
    assert b.groups[1].members[reader := "r"] == members;
    assert B.WithMembers(b, 1, members).groups == TwoMembers(group, owner, reader, map[]).groups;
  }

  lemma TwoAccounts(sock: int, owner: string, reader: string, password: string, group: string, date: string)
    requires Fit(owner, reader, password, group)
    ensures Good(INITIAL)
    ensures var events := Accounts(sock, owner, reader, password, date);
            && PlainRun(INITIAL, events)
            && var s := RunServer(INITIAL, events);
               && s.users == [UserRow(owner, password), UserRow(reader, password)] && s.store == S.EMPTY
               && s.sessions == Sessions(map[sock := owner], map[owner := sock])
  {
    FirstRegistration(sock, owner, password, date);
    var e1 := Request(sock, EN_REGISTER, [owner, password], date);
    var e2 := Request(sock, EN_REGISTER, [reader, password], date);
    var s1 := RunServer(INITIAL, [e1]);
    NotYetRegistered(s1.users[0], reader);
    RegistrationServed(s1, sock, reader, password, date);
    OneMoreEvent(INITIAL, [e1], e2);
    var users := RunServer(INITIAL, [e1] + [e2]).users;
    assert users[0] in Where(users, Account(owner, password));
    LoginNext(INITIAL, [e1] + [e2], sock, owner, password, date);
  }

  lemma NotYetRegistered(row: UserRow, username: string)
    requires row.username != username
    ensures !Registered([row], username)
  {
    WhereNothing([row], Named(username));
  }

  /** The state of the server when the scene is set. */
  ghost predicate IsSet(s: System, sock: int, owner: string, reader: string, password: string, group: string) {
    && s.users == [UserRow(owner, password), UserRow(reader, password)]
    && s.sessions == Sessions(map[sock := owner], map[owner := sock])
    && B.Represents(s.store, TwoMembers(group, owner, reader, map[]))
  }

  lemma SceneIsSet(sock: int, owner: string, reader: string, password: string, group: string, date: string)
    requires Fit(owner, reader, password, group)
    ensures Good(INITIAL) && PlainRun(INITIAL, Scene(sock, owner, reader, password, group, date))
    ensures IsSet(RunServer(INITIAL, Scene(sock, owner, reader, password, group, date)), sock, owner, reader, password,
                  group)
  {
    TwoAccounts(sock, owner, reader, password, group, date);
    var accounts := Accounts(sock, owner, reader, password, date);
    CreateAccepted(RunServer(INITIAL, accounts), sock, owner, group, date);
    OneMoreEvent(INITIAL, accounts, CreateRequest(sock, group, date));
    var created := accounts + [CreateRequest(sock, group, date)];
    ReaderInvited(RunServer(INITIAL, created), sock, owner, reader, password, group, date);
    OneMoreEvent(INITIAL, created, InviteRequest(sock, reader, "r", date));
  }

  lemma ReaderInvited(s: System, sock: int, owner: string, reader: string, password: string, group: string,
                      date: string)
    requires Good(s) && Fit(owner, reader, password, group)
    requires s.users == [UserRow(owner, password), UserRow(reader, password)]
    requires s.sessions == Sessions(map[sock := owner], map[owner := sock])
    requires B.Represents(s.store, OneGroup(group, owner, map[]))
    ensures var e := InviteRequest(sock, reader, "r", date);
            Plain(s.store, e.text) && IsSet(Served(s, e), sock, owner, reader, password, group)
  {
    assert s.users[1] in Where(s.users, Named(reader));
    ReaderJoins(group, owner, reader);
    InviteAccepted(s, sock, owner, reader, "r", date, OneGroup(group, owner, map[]));
  }

  // ---- an absent member ----

  lemma ItemAdded(group: string, owner: string, reader: string, item: string, q: int, text: string, remarks: string)
    requires owner != reader && SqlInteger(text) == Some(q)
    ensures B.ApplyBook(TwoMembers(group, owner, reader, map[]), S.Put(owner, 1, item, text, remarks)) ==
            (TwoMembers(group, owner, reader, map[item := B.Item(q, remarks)]), Ok(()))
  {
    var b, items := TwoMembers(group, owner, reader, map[]), map[item := B.Item(q, remarks)];
    assert b.groups[1].items[item := B.Item(q, remarks)] == items;
    assert B.WithItems(b, 1, items).groups == TwoMembers(group, owner, reader, items).groups;
  }

  /**
   The owner adds an item. The reader, a member who is offline, is sent nothing, neither then nor at the next login, and
   no longer has the group as it is.
   */
  lemma AbsentMemberMisses(sock: int, owner: string, reader: string, password: string, group: string, item: string,
                           q: int, remarks: string, date: string)
    requires Fit(owner, reader, password, group) && Sendable(item) && Sendable(remarks) && IsInt32(q)
    ensures Good(INITIAL) && PlainRun(INITIAL, Scene(sock, owner, reader, password, group, date))
    ensures var s := RunServer(INITIAL, Scene(sock, owner, reader, password, group, date));
            var e := AddRequest(sock, item, q, remarks, date);
            && Plain(s.store, e.text) && Accepted(s, e).Some? && HasUser(s.store, 1, reader)
            && !IsOnline(Served(s, e), reader) && SeenNow(s, e, reader) == []
            && Replay(1, Current(s.store, 1), SeenNow(s, e, reader)) != Current(Served(s, e).store, 1)
            && FaithfulEvent(s, e, 1)
  {
    SceneIsSet(sock, owner, reader, password, group, date);
    AddMissed(RunServer(INITIAL, Scene(sock, owner, reader, password, group, date)), sock, owner, reader, password,
              group, item, q, remarks, date);
  }

  lemma AddMissed(s: System, sock: int, owner: string, reader: string, password: string, group: string, item: string,
                  q: int, remarks: string, date: string)
    requires Good(s) && IsSet(s, sock, owner, reader, password, group) && owner != reader
    requires Sendable(item) && Sendable(remarks) && IsInt32(q)
    ensures var e := AddRequest(sock, item, q, remarks, date);
            && Plain(s.store, e.text) && Accepted(s, e).Some? && HasUser(s.store, 1, reader)
            && !IsOnline(Served(s, e), reader) && SeenNow(s, e, reader) == []
            && Replay(1, Current(s.store, 1), SeenNow(s, e, reader)) != Current(Served(s, e).store, 1)
            && FaithfulEvent(s, e, 1)
  {
    var b := TwoMembers(group, owner, reader, map[]);
    var b' := TwoMembers(group, owner, reader, map[item := B.Item(q, remarks)]);
    var e := AddRequest(sock, item, q, remarks, date);
    ReadsBack(q);
    ItemAdded(group, owner, reader, item, q, ToString(q), remarks);
    AddAccepted(s, sock, owner, item, q, remarks, date, b);
    MemberOfMeaning(s.store, b, 1, reader);
    B.MeaningIsUnique(s.store, b, U.Meaning(s.store));
    B.MeaningIsUnique(Served(s, e).store, b', U.Meaning(Served(s, e).store));
    NothingRead(1, Current(s.store, 1));
    assert item !in Current(s.store, 1).items && item in Current(Served(s, e).store, 1).items;
  }

  // ---- a reader who closes the group ----

  /** Then the reader signs in at another socket and closes the group, which only an admin is meant to do. */
  lemma ReaderClosesGroup(sock: int, other: int, owner: string, reader: string, password: string, group: string,
                          date: string)
    requires Fit(owner, reader, password, group) && sock != other
    ensures Good(INITIAL)
    ensures var scene := Scene(sock, owner, reader, password, group, date);
            var events := scene + [LoginEvent(other, reader, password, date)];
            && PlainRun(INITIAL, events)
            && var s, e, op := RunServer(INITIAL, events), CloseRequest(other, date), S.Remove(reader, 1);
               && Plain(s.store, e.text) && Accepted(s, e) == Some(op)
               && S.HasMember(s.store.members, 1, reader) && S.StatusOf(s.store.members, 1, reader) == "r"
               && !Authorized(s.store, op) && 1 in S.Codes(s.store.groups) && Served(s, e).store.groups == []
  {
    SceneIsSet(sock, owner, reader, password, group, date);
    var scene := Scene(sock, owner, reader, password, group, date);
    var users := RunServer(INITIAL, scene).users;
    assert users[1] in Where(users, Account(reader, password));
    LoginNext(INITIAL, scene, other, reader, password, date);
    GroupClosed(RunServer(INITIAL, scene + [LoginEvent(other, reader, password, date)]), other, owner, reader, group,
                date);
  }

  lemma GroupClosed(s: System, other: int, owner: string, reader: string, group: string, date: string)
    requires Good(s) && SignedIn(s, other, reader) && owner != reader
    requires B.Represents(s.store, TwoMembers(group, owner, reader, map[]))
    ensures var e, op := CloseRequest(other, date), S.Remove(reader, 1);
            && Plain(s.store, e.text) && Accepted(s, e) == Some(op)
            && S.HasMember(s.store.members, 1, reader) && S.StatusOf(s.store.members, 1, reader) == "r"
            && !Authorized(s.store, op) && 1 in S.Codes(s.store.groups) && Served(s, e).store.groups == []
  {
    var b := TwoMembers(group, owner, reader, map[]);
    ReaderMayNotClose(s.store, b, reader);
    CloseAccepted(s, other, reader, date, b);
    NoGroupsLeft(Served(s, CloseRequest(other, date)).store, B.ApplyBook(b, S.Remove(reader, 1)).0);
  }

  lemma ReaderMayNotClose(st: S.Store, b: B.Book, reader: string)
    requires S.Inv(st) && B.Represents(st, b) && B.HoldsMember(b, 1, reader, "r")
    ensures S.HasMember(st.members, 1, reader) && S.StatusOf(st.members, 1, reader) == "r"
    ensures !Authorized(st, S.Remove(reader, 1)) && 1 in S.Codes(st.groups)
    ensures B.ApplyBook(b, S.Remove(reader, 1)) == (b.(groups := b.groups - {1}), Ok(()))
  {
    B.SeesMember(st, b, 1, reader);
  }

  lemma NoGroupsLeft(st: S.Store, b: B.Book)
    requires B.Represents(st, b) && b.groups == map[]
    ensures st.groups == []
  {
    NoCodes(st.groups);
  }

  lemma NoCodes(groups: seq<GroupRow>)
    ensures groups == [] <==> S.Codes(groups) == {}
  {
    if groups != [] {
      assert groups[0].code in S.Codes(groups);
    }
  }
}
