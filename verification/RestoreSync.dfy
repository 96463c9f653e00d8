/**
 What a restore message means, in whatever order the queries return their rows: it is read as a map of groups, that map
 is what the tables mean for the user, and a client that starts from it stays in sync.
 */
module RestoreSync {
  import opened Errors
  import opened Config
  import opened Parser
  import opened Tables
  import opened SessionMaps
  import opened Dispatch
  import opened ServerRuns
  import opened InviteReplay
  import opened SyncRuns
  import opened Restoring
  import opened RestoreDecoding
  import B = Book
  import S = Store
  import U = Runs

  // ---- records as groups ----

  function MembersOf(users: seq<UserData>): map<string, string> {
    if users == [] then map[]
    else
      var n := |users| - 1;
      MembersOf(users[..n])[users[n].name := users[n].status]
  }

  function ItemsOf(items: seq<ItemData>): map<string, B.Item> {
    if items == [] then map[]
    else
      var n := |items| - 1;
      ItemsOf(items[..n])[items[n].name := B.Item(items[n].quantity, items[n].remarks)]
  }

  function AsGroup(r: Record): B.Group {
    B.Group(r.name, MembersOf(r.users), ItemsOf(r.items))
  }

  function AsGroups(rs: seq<Record>): map<int, B.Group> {
    if rs == [] then map[] else AsGroups(rs[..|rs| - 1])[rs[|rs| - 1].code := AsGroup(rs[|rs| - 1])]
  }

  lemma {:induction false} MembersOfHas(users: seq<UserData>)
    requires forall u, v | u in users && v in users && u.name == v.name :: u == v
    ensures forall n, s :: (n in MembersOf(users) && MembersOf(users)[n] == s) <==> UserData(n, s) in users
  {
    if users != [] {
      var n := |users| - 1;
      assert users == users[..n] + [users[n]];
      MembersOfHas(users[..n]);
    }
  }

  lemma {:induction false} ItemsOfHas(items: seq<ItemData>)
    requires forall i, j | i in items && j in items && i.name == j.name :: i == j
    ensures forall n, q, m ::
              (n in ItemsOf(items) && ItemsOf(items)[n] == B.Item(q, m)) <==> ItemData(n, q, m) in items
  {
    if items != [] {
      var n := |items| - 1;
      assert items == items[..n] + [items[n]];
      ItemsOfHas(items[..n]);
    }
  }

  /** The record has the name, the members and the items of the group, in some order. */
  ghost predicate Describes(r: Record, st: S.Store) {
    && r.code in S.Codes(st.groups) && r.name == S.NameOf(st.groups, r.code)
    && (forall n, s :: UserData(n, s) in r.users <==> MemberRow(r.code, n, s) in st.members)
    && (forall n, q, m :: ItemData(n, q, m) in r.items <==> ItemRow(r.code, n, q, m) in st.lists)
  }

  lemma KeyedRecord(r: Record, st: S.Store)
    requires S.Inv(st) && Describes(r, st)
    ensures forall u, v | u in r.users && v in r.users && u.name == v.name :: u == v
    ensures forall i, j | i in r.items && j in r.items && i.name == j.name :: i == j
  {
    forall u, v | u in r.users && v in r.users && u.name == v.name ensures u == v {
      assert u == UserData(u.name, u.status) && v == UserData(v.name, v.status);
      OnlyRow(st.members, MemberRow(r.code, u.name, u.status), MemberRow(r.code, v.name, v.status), MemberKey);
    }
    forall i, j | i in r.items && j in r.items && i.name == j.name ensures i == j {
      assert i == ItemData(i.name, i.quantity, i.remarks) && j == ItemData(j.name, j.quantity, j.remarks);
      OnlyRow(st.lists, ItemRow(r.code, i.name, i.quantity, i.remarks), ItemRow(r.code, j.name, j.quantity, j.remarks),
              ItemKey);
    }
  }

  /** Read as a group, such a record is the group that the tables mean. */
  lemma RecordIsGroup(r: Record, st: S.Store)
    requires S.Inv(st) && Describes(r, st)
    ensures r.code in U.Meaning(st).groups && AsGroup(r) == U.Meaning(st).groups[r.code] == Current(st, r.code)
  {
    KeyedRecord(r, st);
    MembersOfHas(r.users);
    ItemsOfHas(r.items);
    ItemsOfRows(r, st);
    CopyIs(st, U.Meaning(st), r.code, AsGroup(r));
  }

  lemma ItemsOfRows(r: Record, st: S.Store)
    requires S.Inv(st) && Describes(r, st)
    ensures OfItemRows(ItemsOf(r.items), Where(st.lists, InList(r.code)))
  {
    KeyedRecord(r, st);
    ItemsOfHas(r.items);
    var items, rows := ItemsOf(r.items), Where(st.lists, InList(r.code));
    forall i | i in rows ensures i.itemName in items && items[i.itemName] == B.Item(i.quantity, i.remarks) {
      assert i == ItemRow(r.code, i.itemName, i.quantity, i.remarks);
      assert ItemData(i.itemName, i.quantity, i.remarks) in r.items;
    }
    forall k | k in items ensures exists i :: i in rows && i.itemName == k {
      assert ItemData(k, items[k].quantity, items[k].remarks) in r.items;
      assert ItemRow(r.code, k, items[k].quantity, items[k].remarks) in rows;
    }
  }

  // ---- all groups of a user ----

  /** The user's groups, as the tables mean them. */
  ghost function GroupsOf(st: S.Store, user: string): map<int, B.Group>
    requires S.Inv(st)
  {
    map code | code in S.Codes(st.groups) && HasUser(st, code, user) :: Current(st, code)
  }

  /** The records are those of the user's groups, in some order, each in some order of its rows. */
  ghost predicate Restores(rs: seq<Record>, st: S.Store, user: string) {
    && (forall r | r in rs :: Describes(r, st) && HasUser(st, r.code, user))
    && (forall code | code in S.Codes(st.groups) && HasUser(st, code, user) :: exists r :: r in rs && r.code == code)
  }

  lemma {:induction false} AsGroupsHas(rs: seq<Record>, groups: map<int, B.Group>)
    requires forall r | r in rs :: r.code in groups && groups[r.code] == AsGroup(r)
    ensures forall c | c in AsGroups(rs) :: c in groups && AsGroups(rs)[c] == groups[c]
    ensures forall r | r in rs :: r.code in AsGroups(rs)
  {
    if rs != [] {
      var n := |rs| - 1;
      assert rs == rs[..n] + [rs[n]];
      AsGroupsHas(rs[..n], groups);
    }
  }

  /** Whatever the order, the records read as groups are the user's groups. */
  lemma RestoreGivesGroups(rs: seq<Record>, st: S.Store, user: string)
    requires S.Inv(st) && Restores(rs, st, user)
    ensures AsGroups(rs) == GroupsOf(st, user)
  {
    forall r | r in rs ensures r.code in GroupsOf(st, user) && GroupsOf(st, user)[r.code] == AsGroup(r) {
      RecordIsGroup(r, st);
    }
    forall c | c in GroupsOf(st, user) ensures exists r :: r in rs && r.code == c {
    }
    AllCollected(rs, GroupsOf(st, user));
  }

  lemma AllCollected(rs: seq<Record>, groups: map<int, B.Group>)
    requires forall r | r in rs :: r.code in groups && groups[r.code] == AsGroup(r)
    requires forall c | c in groups :: exists r :: r in rs && r.code == c
    ensures AsGroups(rs) == groups
  {
    AsGroupsHas(rs, groups);
    var collected := AsGroups(rs);
    forall c | c in groups ensures c in collected {
      var r :| r in rs && r.code == c;
    }
    forall c | c in collected ensures c in groups && collected[c] == groups[c] {
      assert c in AsGroups(rs);
    }
    assert forall c :: c in collected <==> c in groups;
  }

  /** In particular for the order of insertion. */
  lemma RecordsRestore(st: S.Store, user: string)
    requires S.Inv(st)
    ensures Restores(Records(st, user), st, user)
  {
    var mine := Where(st.members, OfUser(user));
    forall k | 0 <= k < |mine|
      ensures Describes(Records(st, user)[k], st) && HasUser(st, Records(st, user)[k].code, user)
    {
      assert mine[k] in mine && S.Refers(st.groups, mine[k].groupCode);
      assert Records(st, user)[k] == RecordOf(st, mine[k].groupCode);
      RecordDescribes(st, mine[k].groupCode);
    }
    forall code | code in S.Codes(st.groups) && HasUser(st, code, user)
      ensures exists r :: r in Records(st, user) && r.code == code
    {
      var m :| m in st.members && m.groupCode == code && m.username == user;
      assert m in mine;
      var k :| 0 <= k < |mine| && mine[k] == m;
      assert Records(st, user)[k].code == code && Records(st, user)[k] in Records(st, user);
    }
  }

  lemma RecordDescribes(st: S.Store, code: int)
    requires code in S.Codes(st.groups)
    ensures Describes(RecordOf(st, code), st)
  {
    var r, members, items := RecordOf(st, code), Where(st.members, InGroup(code)), Where(st.lists, InList(code));
    forall n, s ensures UserData(n, s) in r.users <==> MemberRow(code, n, s) in st.members {
      if MemberRow(code, n, s) in st.members {
        assert MemberRow(code, n, s) in members;
        var k :| 0 <= k < |members| && members[k] == MemberRow(code, n, s);
        assert r.users[k] == ToUser(members[k]);
      }
      if UserData(n, s) in r.users {
        var k :| 0 <= k < |members| && r.users[k] == UserData(n, s);
        assert members[k] in members && r.users[k] == ToUser(members[k]);
      }
    }
    forall n, q, m ensures ItemData(n, q, m) in r.items <==> ItemRow(code, n, q, m) in st.lists {
      if ItemRow(code, n, q, m) in st.lists {
        assert ItemRow(code, n, q, m) in items;
        var k :| 0 <= k < |items| && items[k] == ItemRow(code, n, q, m);
        assert r.items[k] == ToItem(items[k]);
      }
      if ItemData(n, q, m) in r.items {
        var k :| 0 <= k < |items| && r.items[k] == ItemData(n, q, m);
        assert items[k] in items && r.items[k] == ToItem(items[k]);
      }
    }
  }

  lemma RestoredIsDecodable(rs: seq<Record>, st: S.Store, user: string)
    requires S.Inv(st) && BareStore(st) && Restores(rs, st, user)
    ensures AllDecodable(rs)
  {
    forall r | r in rs ensures Decodable(r) {
      var m :| m in st.members && m.groupCode == r.code && m.username == user;
      assert m == MemberRow(r.code, user, m.status) && UserData(user, m.status) in r.users;
      S.MemberHasGroup(st, r.code);
      var g := S.FirstGroup(st.groups, r.code);
      assert g in Where(st.groups, HasCode(r.code));
      assert S.GoodGroup(st.lastCode, st.members, g);
      forall u | u in r.users ensures BareUser(u) {
        assert u == UserData(u.name, u.status) && MemberRow(r.code, u.name, u.status) in st.members;
      }
      forall i | i in r.items ensures BareItem(i) {
        assert i == ItemData(i.name, i.quantity, i.remarks);
        assert ItemRow(r.code, i.name, i.quantity, i.remarks) in st.lists;
      }
    }
  }

  /**
   A user's restore message determines the user's groups, and nothing else: a message of one state of the tables, in
   whatever order its rows were found, is also a message of another state, if and only if the user's groups, with their
   names, members and items, are the same in both.
   */
  lemma RestoreDeterminesGroups(rs: seq<Record>, st: S.Store, st': S.Store, user: string)
    requires S.Inv(st) && BareStore(st) && S.Inv(st') && BareStore(st') && Restores(rs, st, user)
    ensures Inhabited(rs)
    ensures (exists qs :: Restores(qs, st', user) && Inhabited(qs) && RestoreText(qs) == RestoreText(rs)) <==>
            GroupsOf(st, user) == GroupsOf(st', user)
  {
    RestoredIsDecodable(rs, st, user);
    if qs :| Restores(qs, st', user) && Inhabited(qs) && RestoreText(qs) == RestoreText(rs) {
      RestoredIsDecodable(qs, st', user);
      RestoreIsInjective(rs, qs);
      RestoreGivesGroups(rs, st, user);
      RestoreGivesGroups(rs, st', user);
    }
    if GroupsOf(st, user) == GroupsOf(st', user) {
      SameGroupsRestore(rs, st, st', user);
    }
  }

  /** With the same groups, the records of one state are records of the other. */
  lemma SameGroupsRestore(rs: seq<Record>, st: S.Store, st': S.Store, user: string)
    requires S.Inv(st) && S.Inv(st') && Restores(rs, st, user) && GroupsOf(st, user) == GroupsOf(st', user)
    ensures Restores(rs, st', user)
  {
    forall r | r in rs ensures Describes(r, st') && HasUser(st', r.code, user) {
      assert r.code in GroupsOf(st, user) && r.code in GroupsOf(st', user);
      RecordIsGroup(r, st);
      SameGroupDescribed(r, st, st');
    }
    forall code | code in S.Codes(st'.groups) && HasUser(st', code, user)
      ensures exists r :: r in rs && r.code == code
    {
      assert code in GroupsOf(st', user);
      assert code in GroupsOf(st, user);
    }
  }

  lemma SameGroupDescribed(r: Record, st: S.Store, st': S.Store)
    requires S.Inv(st) && S.Inv(st') && Describes(r, st) && r.code in S.Codes(st'.groups)
    requires Current(st, r.code) == Current(st', r.code)
    ensures Describes(r, st')
  {
    var b, b', code := U.Meaning(st), U.Meaning(st'), r.code;
    assert b.groups[code] == b'.groups[code];
    NameInBook(st, b, code);
    NameInBook(st', b', code);
    forall n, s ensures MemberRow(code, n, s) in st.members <==> MemberRow(code, n, s) in st'.members {
      assert B.HoldsMember(b, code, n, s) <==> B.HoldsMember(b', code, n, s);
    }
    forall n, q, m ensures ItemRow(code, n, q, m) in st.lists <==> ItemRow(code, n, q, m) in st'.lists {
      assert B.HoldsItem(b, code, n, q, m) <==> B.HoldsItem(b', code, n, q, m);
    }
  }

  // ---- from a restore on ----

  /** The mail of a restore request is the restore message. */
  lemma RestoreMail(s: System, e: Event)
    requires Good(s) && ParseText(e.text) == Ok(Message(RE_RESTORE, [])) && e.sock in Drained(s.sessions, e.gone).online
    ensures var user := NameAt(Drained(s.sessions, e.gone), e.sock);
            && Inhabited(Records(s.store, user)) && Accepted(s, e).None?
            && Mail(s, e) == [Envelope(user, RestoreText(Records(s.store, user)))]
  {
    var user := NameAt(Drained(s.sessions, e.gone), e.sock);
    RecordsAreInhabited(s.store, user);
    RestoreRequested(user, e.date);
    assert Reached(s, e) == Some(RestoreGroups);
  }

  /**
   From a restore on, when no stored text has a separator: the first thing that the client of the requesting user sees
   decodes to the user's groups, and a client that starts from one of them and replays what is sent to the user's socket
   has that group after every packet of the run that follows, if and only if nothing is missed.
   */
  lemma RestoredStayInSync(s: System, e: Event, events: seq<Event>, group: int, user: string)
    requires Good(s) && BareStore(s.store) && HasUser(s.store, group, user)
    requires ParseText(e.text) == Ok(Message(RE_RESTORE, [])) && e.sock in Drained(s.sessions, e.gone).online
    requires NameAt(Drained(s.sessions, e.gone), e.sock) == user && Plain(s.store, e.text)
    requires Alone(Served(s, e).sessions, user) && IsOnline(Served(s, e), user)
    requires PlainRun(Served(s, e), events) && Stays(Served(s, e), events, group, user)
    ensures SeenNow(s, e, user) != []
    ensures var copies := AsGroups(Decode(SeenNow(s, e, user)[0]));
            && copies == GroupsOf(s.store, user) && group in copies
            && (InSync(Served(s, e), events, group, user, copies[group]) <==>
                KeptUpRun(Served(s, e), events, group, user))
  {
    RestoreMail(s, e);
    TablesAfter(s, e);
    var records := Records(s.store, user);
    var answers := SeenIsMail(s, e, user);
    OneInbox(Envelope(user, RestoreText(records)), user);
    assert SeenNow(s, e, user)[0] == RestoreText(records);
    RecordsAreDecodable(s.store, user);
    RestoreRoundTrip(records);
    RecordsRestore(s.store, user);
    RestoreGivesGroups(records, s.store, user);
    MemberSeesGroup(s.store, group, user);
    InSyncFrom(Served(s, e), events, group, user, Current(s.store, group));
  }
}
