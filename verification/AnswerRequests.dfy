/** The requests that are answered: a group is created, the groups are listed, the groups are restored. */
module AnswerRequests {
  import opened Errors
  import opened Text
  import opened Decimal
  import opened Parser
  import opened Messages
  import opened Tables
  import opened Dispatch
  import opened ServerRuns
  import opened InviteReplay
  import opened SyncRuns
  import opened Lines
  import opened Requests
  import B = Book
  import C = Config
  import R = Restoring
  import RS = RestoreSync
  import S = Store
  import U = Runs

  // ---- 11: a group is created ----

  /** A new code, drawn for the new group and never seen before. */
  lemma CreateOnBook(st: S.Store, name: string, user: string, date: string)
    requires S.Inv(st)
    ensures var st' := S.Apply(st, S.Create(name, user, date)).0;
            && S.Inv(st') && st'.lastCode !in GroupsOf(st) && (forall d | d in GroupsOf(st) :: d < st'.lastCode)
            && GroupsOf(st') == GroupsOf(st)[st'.lastCode := B.Group(name, map[user := "admin"], map[])]
            && GroupRow(st'.lastCode, name, user, date, 1) in st'.groups
  {
    var b := U.Meaning(st);
    MovesByBook(st, S.Create(name, user, date));
    forall d | d in b.groups ensures d < st.lastCode + 1 {
      KnownCodes(st, b, d);
    }
  }

  /**
   A creation is answered with one text to the requesting socket, and nobody else is told. The text parses, with the
   code of the only group that is there now and was not before: with the requested name, and the requester as its admin.
   */
  lemma CreateRequest(s: System, e: Event, user: string, name: string) returns (c: int)
    requires Asks(s, e, user, 11, [name])
    ensures c !in GroupsOf(s.store) && forall d | d in GroupsOf(s.store) :: d < c
    ensures GroupsOf(Served(s, e).store) == GroupsOf(s.store)[c := B.Group(name, map[user := "admin"], map[])]
    ensures GroupRow(c, name, user, e.date, 1) in Served(s, e).store.groups
    ensures Done(s, e, [Line("102", [ToString(c)])]) && Mail(s, e) == []
    ensures ParseText(Line("102", [ToString(c)])) == Ok(Message(102, [ToString(c)])) && Number(ToString(c)) == c
  {
    var op := S.Create(name, user, e.date);
    CreateAction(user, name, e.date);
    StoreDone(s, e, user, 11, [name], op, None);
    StoreServed(s, e, user, 11, [name], op, None);
    CreateOnBook(s.store, name, user, e.date);
    c := Served(s, e).store.lastCode;
    CodeAnswer(c);
  }

  lemma CreateAction(user: string, name: string, date: string)
    ensures ActionOf(user, 11, [name], date) == OnStore(S.Create(name, user, date), None)
  {
  }

  lemma CodeAnswer(c: int)
    ensures Packet(102, [ToString(c)]) == Line("102", [ToString(c)]) && Number(ToString(c)) == c
    ensures ParseText(Line("102", [ToString(c)])) == Ok(Message(102, [ToString(c)]))
  {
    Numbers();
    LineIsPacket(102, [ToString(c)]);
    NumberIsSendable(c);
    NumberRead(c);
    C.CodesInRanges(102);
    PrintThenParse(102, [ToString(c)]);
  }

  // ---- 10: the groups are listed ----

  /** The row of a membership: the group's code, the name and the status, with commas. */
  function ListRow(c: int, user: string, status: string): string {
    ToString(c) + "," + user + "," + status
  }

  /** The rows are those of the user's memberships, one for each. */
  ghost predicate ListsMemberships(rows: seq<string>, G: map<int, B.Group>, user: string) {
    && |rows| == |set c | c in G && user in G[c].members|
    && (forall c | c in G && user in G[c].members :: ListRow(c, user, G[c].members[user]) in rows)
    && (forall r | r in rows :: exists c :: c in G && user in G[c].members && r == ListRow(c, user, G[c].members[user]))
  }

  lemma RowTextIsListRow(m: MemberRow)
    ensures RowText(MemberCells(m)) == ListRow(m.groupCode, m.username, m.status)
    ensures ',' !in m.username && ',' !in m.status ==>
              Split(ListRow(m.groupCode, m.username, m.status), ',') == [ToString(m.groupCode), m.username, m.status]
  {
    var cells := MemberCells(m);
    JoinAppend([cells[0]], cells[1], ',');
    JoinAppend([cells[0], cells[1]], cells[2], ',');
    assert [cells[0]] + [cells[1]] == [cells[0], cells[1]] && [cells[0], cells[1]] + [cells[2]] == cells;
    ToStringCharacters(m.groupCode);
    if ',' !in m.username && ',' !in m.status {
      assert ',' !in cells[0];
      SplitJoin(cells, ',');
    }
  }

  ghost function MembershipRows(members: seq<MemberRow>, user: string): seq<string> {
    Map(Map(Where(members, OfUser(user)), MemberCells), RowText)
  }

  function CodesWith(members: seq<MemberRow>, user: string): set<int> {
    set m | m in members && m.username == user :: m.groupCode
  }

  lemma {:induction false} MembershipsOnce(members: seq<MemberRow>, user: string)
    requires Unique(members, MemberKey)
    ensures |Where(members, OfUser(user))| == |CodesWith(members, user)|
  {
    if members == [] {
      assert CodesWith(members, user) == {};
    } else {
      var n := |members| - 1;
      MembershipsOnce(members[..n], user);
      assert members == members[..n] + [members[n]];
      OneMoreMembership(members[..n], members[n], user);
    }
  }

  lemma OneMoreMembership(members: seq<MemberRow>, row: MemberRow, user: string)
    requires Unique(members + [row], MemberKey)
    ensures row.username != user ==> CodesWith(members + [row], user) == CodesWith(members, user)
    ensures row.username == user ==>
              CodesWith(members + [row], user) == CodesWith(members, user) + {row.groupCode} &&
              row.groupCode !in CodesWith(members, user)
  {
    forall m | m in members ensures MemberKey(m) != MemberKey(row) {
      var i :| 0 <= i < |members| && members[i] == m;
      assert (members + [row])[i] == m && (members + [row])[|members|] == row;
    }
  }

  lemma RowsListMemberships(st: S.Store, b: B.Book, user: string)
    requires S.Inv(st) && B.Represents(st, b)
    ensures ListsMemberships(MembershipRows(st.members, user), b.groups, user)
  {
    var mine, rows := Where(st.members, OfUser(user)), MembershipRows(st.members, user);
    MembershipsOnce(st.members, user);
    CodesOfMemberships(st, b, user);
    forall k | 0 <= k < |mine| ensures rows[k] == ListRow(mine[k].groupCode, user, mine[k].status) {
      assert mine[k] in mine;
      RowTextIsListRow(mine[k]);
      assert rows[k] == RowText(MemberCells(mine[k]));
    }
    forall c | c in b.groups && user in b.groups[c].members
      ensures ListRow(c, user, b.groups[c].members[user]) in rows
    {
      assert B.HoldsMember(b, c, user, b.groups[c].members[user]);
      var m := MemberRow(c, user, b.groups[c].members[user]);
      assert m in mine;
      var k :| 0 <= k < |mine| && mine[k] == m;
      assert rows[k] == ListRow(c, user, m.status);
    }
    forall r | r in rows
      ensures exists c ::
                c in b.groups && user in b.groups[c].members && r == ListRow(c, user, b.groups[c].members[user])
    {
      var k :| 0 <= k < |mine| && rows[k] == r;
      assert mine[k] in mine;
      assert mine[k] == MemberRow(mine[k].groupCode, user, mine[k].status);
      assert B.HoldsMember(b, mine[k].groupCode, user, mine[k].status);
    }
  }

  lemma CodesOfMemberships(st: S.Store, b: B.Book, user: string)
    requires S.Inv(st) && B.Represents(st, b)
    ensures CodesWith(st.members, user) == set c | c in b.groups && user in b.groups[c].members
  {
    var codes := CodesWith(st.members, user);
    forall m | m in st.members && m.username == user
      ensures m.groupCode in b.groups && user in b.groups[m.groupCode].members
    {
      assert B.HoldsMember(b, m.groupCode, user, m.status);
    }
    forall c | c in b.groups && user in b.groups[c].members ensures c in codes {
      assert B.HoldsMember(b, c, user, b.groups[c].members[user]);
    }
  }

  lemma FieldsCut(head: string, rows: seq<string>)
    requires '|' !in head && forall r | r in rows :: '|' !in r
    ensures Split(Join([head] + rows + ["", ""], '|'), '|') == [head] + rows + ["", ""]
  {
    assert forall f | f in [head] + rows + ["", ""] :: f == head || f in rows || f == "";
    SplitJoin([head] + rows + ["", ""], '|');
  }

  /** Without bars in the rows, the answer cut at the bars gives the rows. */
  lemma ListAnswerCut(rows: seq<string>)
    requires forall r | r in rows :: '|' !in r
    ensures Split(Packet(106, rows), '|') == ["@106"] + rows + ["", ""]
  {
    Numbers();
    var head := "@106";
    assert "@" + ToString(106) == head;
    FieldsCut(head, rows);
  }

  lemma RowsHaveNoBars(s: System, user: string)
    requires Good(s)
    ensures forall r | r in MembershipRows(s.store.members, user) :: '|' !in r
  {
    var mine, rows := Where(s.store.members, OfUser(user)), MembershipRows(s.store.members, user);
    forall k | 0 <= k < |mine| ensures '|' !in rows[k] {
      assert mine[k] in mine && Sendable(mine[k].status);
      RowTextIsListRow(mine[k]);
      ToStringCharacters(mine[k].groupCode);
      if mine[k].username != "" {
        RegisteredHasName(s.users, mine[k].username);
      }
      assert rows[k] == RowText(MemberCells(mine[k]));
    }
  }

  /**
   A list request changes nothing and is answered with one text to the requesting socket. Cut at the bars it gives one
   row for each group that the requesting name is a member of, and no others; a row cut at the commas gives the code,
   the name and the status, when these have no comma.
   */
  lemma ListRequest(s: System, e: Event, user: string) returns (answer: string, rows: seq<string>)
    requires Asks(s, e, user, 10, [])
    ensures Served(s, e).store == s.store && Done(s, e, [answer]) && Mail(s, e) == []
    ensures Split(answer, '|') == ["@106"] + rows + ["", ""] && ListsMemberships(rows, GroupsOf(s.store), user)
    ensures forall c: int, status: string | ',' !in user && ',' !in status ::
              Split(ListRow(c, user, status), ',') == [ToString(c), user, status]
  {
    rows := MembershipRows(s.store.members, user);
    answer := Packet(106, rows);
    RowsHaveNoBars(s, user);
    ListAnswerCut(rows);
    RowsListMemberships(s.store, U.Meaning(s.store), user);
    ListServed(s, e, user);
    forall c: int, status: string | ',' !in user && ',' !in status
      ensures Split(ListRow(c, user, status), ',') == [ToString(c), user, status]
    {
      RowTextIsListRow(MemberRow(c, user, status));
    }
  }

  lemma ListServed(s: System, e: Event, user: string)
    requires Asks(s, e, user, 10, [])
    ensures Served(s, e).store == s.store && Mail(s, e) == []
    ensures Done(s, e, [Packet(106, MembershipRows(s.store.members, user))])
  {
    AskedIsReached(s, e, user, 10, []);
    ListAction(user, e.date);
    ServedByPerforming(s, e);
  }

  lemma ListAction(user: string, date: string)
    ensures ActionOf(user, 10, [], date) == ListGroups && ActionOf(user, 40, [], date) == RestoreGroups
  {
  }

  // ---- 40: the groups are restored ----

  /** A restore request changes nothing; its message is the only mail, and goes to the user. */
  lemma RestoreRequest(s: System, e: Event, user: string) returns (records: seq<R.Record>)
    requires Asks(s, e, user, 40, [])
    ensures RS.Restores(records, s.store, user) && R.Inhabited(records)
    ensures Served(s, e).store == s.store && Done(s, e, [])
    ensures Mail(s, e) == [Envelope(user, R.RestoreText(records))]
  {
    records := R.Records(s.store, user);
    RS.RecordsRestore(s.store, user);
    AskedIsReached(s, e, user, 40, []);
    RS.RestoreMail(s, e);
    ListAction(user, e.date);
    ServedByPerforming(s, e);
    OneDelivery(Ready(s, e), Envelope(user, R.RestoreText(records)));
    RestorePerformed(Ready(s, e), e.sock, user);
  }
}
