/**
 What a newly invited user is sent is enough to rebuild the group: parsing the delivered texts and replaying them
 gives the group's name, members and items, each announced exactly once.
 */
module InviteReplay {
  import opened Errors
  import opened Decimal
  import opened Config
  import opened Parser
  import opened Messages
  import opened Tables
  import opened SessionMaps
  import opened Servers
  import opened Dispatch
  import opened ServerRuns
  import B = Book
  import S = Store
  import I = StoreInvariant
  import U = Runs

  // ---- the client ----

  // A client's copy of one group is a group like those of the server.
  const BLANK := B.Group("", map[], map[])

  /** An item that is new is noted as announced; for a known one the announced quantity is added. */
  function Announced(items: map<string, B.Item>, item: string, quantity: int, remarks: string): map<string, B.Item> {
    if item in items then items[item := B.Item(items[item].quantity + quantity, items[item].remarks)]
    else items[item := B.Item(quantity, remarks)]
  }

  /** What the client of a group makes of a message: only messages that name the group matter. */
  function Understand(group: int, c: B.Group, code: int, args: seq<string>): B.Group {
    if args == [] || Number(args[0]) != group then c
    else if code == PGM_CTR_NEW_USER && |args| == 4 then c.(name := args[1], members := c.members[args[2] := args[3]])
    else if code == PGM_CTR_NEW_USER && |args| == 3 then c.(members := c.members[args[1] := args[2]])
    else if code == PGM_CTR_STATUS_CHANGED && |args| == 3 then c.(members := c.members[args[1] := args[2]])
    else if code == PGM_CTR_USER_LEAVE && |args| == 2 then c.(members := c.members - {args[1]})
    else if code == LST_SCC_ADD_ITEM && |args| == 4 then
      c.(items := Announced(c.items, args[1], Number(args[2]), args[3]))
    else if code == LST_SCC_REMOVE_ITEM && |args| == 2 then c.(items := c.items - {args[1]})
    else if code == LST_SCC_SET_ITEM && |args| == 5 then
      c.(items := (c.items - {args[1]})[args[2] := B.Item(Number(args[3]), args[4])])
    else c
  }

  /** The texts as the parser sees them. */
  ghost function Parsed(texts: seq<string>): seq<Result<Message>> {
    seq(|texts|, i requires 0 <= i < |texts| => ParseText(texts[i]))
  }

  /** The client reads the messages in order, and passes over what does not parse. */
  function Read(group: int, c: B.Group, messages: seq<Result<Message>>): B.Group {
    if messages == [] then c
    else
      var n := |messages| - 1;
      var before := Read(group, c, messages[..n]);
      match messages[n]
      case Err(_) => before
      case Ok(Message(code, args)) => Understand(group, before, code, args)
  }

  ghost function Replay(group: int, c: B.Group, texts: seq<string>): B.Group {
    Read(group, c, Parsed(texts))
  }

  lemma {:induction false} ReadConcat(group: int, c: B.Group, a: seq<Result<Message>>, b: seq<Result<Message>>)
    ensures Read(group, c, a + b) == Read(group, Read(group, c, a), b)
  {
    if b == [] {
      assert a + b == a;
    } else {
      var n := |b| - 1;
      ReadConcat(group, c, a, b[..n]);
      assert (a + b)[..|a + b| - 1] == a + b[..n];
    }
  }

  lemma ReplayConcat(group: int, c: B.Group, a: seq<string>, b: seq<string>)
    ensures Replay(group, c, a + b) == Replay(group, Replay(group, c, a), b)
  {
    assert Parsed(a + b) == Parsed(a) + Parsed(b);
    ReadConcat(group, c, Parsed(a), Parsed(b));
  }

  // ---- what reaches one user ----

  function Contents(es: seq<Envelope>): seq<string> {
    seq(|es|, i requires 0 <= i < |es| => es[i].message)
  }

  function Inbox(es: seq<Envelope>, user: string): seq<string> {
    Contents(Where(es, EnvelopesTo(user)))
  }

  lemma InboxConcat(a: seq<Envelope>, b: seq<Envelope>, user: string)
    ensures Inbox(a + b, user) == Inbox(a, user) + Inbox(b, user)
  {
    WhereConcat(a, b, EnvelopesTo(user));
  }

  lemma AllToUser(es: seq<Envelope>, user: string)
    requires forall k :: 0 <= k < |es| ==> es[k].to == user
    ensures Inbox(es, user) == Contents(es)
  {
    WhereAll(es, EnvelopesTo(user));
  }

  // ---- what is sent to the socket of one user ----

  function AtSock(sock: int): Outgoing -> bool { (o: Outgoing) => o.sock == sock }

  /** No other name is at the socket of the user. */
  ghost predicate Alone(s: Sessions, user: string) {
    forall u | u in s.opposite && user in s.opposite && s.opposite[u] == s.opposite[user] :: u == user
  }

  function TextsOf(sent: seq<Outgoing>): seq<string> {
    Map(sent, (o: Outgoing) => o.text)
  }

  /** What the client of a user sees of what is sent: the texts to the user's socket, and nothing when there is none. */
  function Seen(s: Sessions, sent: seq<Outgoing>, user: string): seq<string> {
    if user in s.opposite then TextsOf(Where(sent, AtSock(s.opposite[user]))) else []
  }

  /** Linked maps never have two names at one socket. */
  lemma LinkedMeansAlone(s: Sessions, user: string)
    requires Linked(s)
    ensures Alone(s, user)
  {
  }

  lemma SeenConcat(s: Sessions, a: seq<Outgoing>, b: seq<Outgoing>, user: string)
    ensures Seen(s, a + b, user) == Seen(s, a, user) + Seen(s, b, user)
  {
    if user in s.opposite {
      WhereConcat(a, b, AtSock(s.opposite[user]));
    }
  }

  /** Of what is addressed to users, the client of an online user sees exactly the user's mail, in order. */
  lemma {:induction false} SeenOfSendings(s: Sessions, es: seq<Envelope>, user: string)
    requires Alone(s, user)
    ensures Seen(s, Sendings(s.opposite, es), user) == if user in s.opposite then Inbox(es, user) else []
  {
    if es == [] {
      assert Sendings(s.opposite, es) == [];
    } else if user in s.opposite {
      var n := |es| - 1;
      SeenOfSendings(s, es[..n], user);
      assert es == es[..n] + [es[n]];
      OneMoreSeen(s, es[..n], es[n], user);
      InboxConcat(es[..n], [es[n]], user);
    }
  }

  lemma OneMoreSeen(s: Sessions, es: seq<Envelope>, e: Envelope, user: string)
    requires Alone(s, user) && user in s.opposite
    ensures Seen(s, Sendings(s.opposite, es + [e]), user) == Seen(s, Sendings(s.opposite, es), user) + Inbox([e], user)
  {
    var sendings := Sendings(s.opposite, es);
    SendingsGrow(s.opposite, es, e);
    OneInbox(e, user);
    if e.to in s.opposite {
      var o := Outgoing(s.opposite[e.to], e.message);
      SeenConcat(s, sendings, [o], user);
      OneSeen(s, o, user);
    } else {
      assert sendings + [] == sendings;
      assert Seen(s, sendings, user) + [] == Seen(s, sendings, user);
    }
  }

  lemma OneInbox(e: Envelope, user: string)
    ensures Inbox([e], user) == if e.to == user then [e.message] else []
  {
    assert [e][..0] == [];
  }

  lemma OneSeen(s: Sessions, o: Outgoing, user: string)
    requires user in s.opposite
    ensures Seen(s, [o], user) == if o.sock == s.opposite[user] then [o.text] else []
  {
    assert [o][..0] == [];
  }

  /** After a delivery, what the client of a user has seen more, and how many rows are stored for the user. */
  lemma DeliverySeen(s: System, es: seq<Envelope>, user: string)
    requires Alone(s.sessions, user)
    ensures var s' := DeliverAll(s, es);
            && |s.sent| <= |s'.sent| && s'.sent[..|s.sent|] == s.sent
            && Seen(s.sessions, s'.sent[|s.sent|..], user) ==
                 (if user in s.sessions.opposite then Inbox(es, user) else [])
            && |Where(s'.packets, RowsOf(user))| == |Where(s.packets, RowsOf(user))| +
                 if user in s.sessions.opposite then 0 else |Inbox(es, user)|
  {
    DeliveryIsConserved(s, es);
    SeenOfSendings(s.sessions, es, user);
    RowsPerUser(s, es, user);
    assert DeliverAll(s, es).sent[|s.sent|..] == Sendings(s.sessions.opposite, es);
  }

  ghost function MemberTexts(rows: seq<MemberRow>): seq<string> {
    seq(|rows|, i requires 0 <= i < |rows| => Packet(PGM_CTR_NEW_USER, MemberCells(rows[i])))
  }

  ghost function ItemTexts(rows: seq<ItemRow>): seq<string> {
    seq(|rows|, i requires 0 <= i < |rows| => Packet(LST_SCC_ADD_ITEM, ItemCells(rows[i])))
  }

  /** The texts for the invited user: one with the group's name, one for each other member, one for each item. */
  lemma InviteInbox(st: S.Store, code: int, codeText: string, user: string, status: string)
    requires S.Inv(st) && user in S.Usernames(st.members, code)
    ensures Inbox(InviteEnvelopes(st, code, codeText, user, status), user) ==
            [Packet(PGM_CTR_NEW_USER, [codeText, S.NameOf(st.groups, code), user, status])] +
            MemberTexts(Where(Where(st.members, InGroup(code)), Not(OfUser(user)))) +
            ItemTexts(Where(st.lists, InList(code)))
  {
    var members := Where(st.members, InGroup(code));
    var message := Packet(PGM_CTR_NEW_USER, [codeText, S.NameOf(st.groups, code), user, status]);
    var everyone, others := ToMembers(members, message), MemberNotices(members, user);
    var items := ItemNotices(Where(st.lists, InList(code)), user);
    InboxConcat(everyone + others, items, user);
    InboxConcat(everyone, others, user);
    InboxOfBroadcast(st, code, message, user);
    InboxOfRows(members, Where(st.lists, InList(code)), user);
  }

  lemma InboxOfBroadcast(st: S.Store, code: int, message: string, user: string)
    requires S.Inv(st) && user in S.Usernames(st.members, code)
    ensures Inbox(ToMembers(Where(st.members, InGroup(code)), message), user) == [message]
  {
    var everyone := ToMembers(Where(st.members, InGroup(code)), message);
    OneEach(st.members, code, message, user);
    var mine := Where(everyone, EnvelopesTo(user));
    assert mine[0] in mine;
    assert forall k :: 0 <= k < |everyone| ==> everyone[k].message == message;
  }

  lemma InboxOfRows(members: seq<MemberRow>, items: seq<ItemRow>, user: string)
    ensures Inbox(MemberNotices(members, user), user) == MemberTexts(Where(members, Not(OfUser(user))))
    ensures Inbox(ItemNotices(items, user), user) == ItemTexts(items)
  {
    AllToUser(MemberNotices(members, user), user);
    AllToUser(ItemNotices(items, user), user);
  }

  // ---- replaying rows ----

  lemma NumberIsSendable(n: int)
    ensures Sendable(ToString(n))
  {
    ToStringCharacters(n);
    var s := ToString(n);
    assert forall i :: 1 <= i < |s| ==> s[i] == s[1..][i - 1];
  }

  lemma CellsParse(m: MemberRow, i: ItemRow)
    ensures Sendable(m.username) && Sendable(m.status) ==>
              ParseText(Packet(PGM_CTR_NEW_USER, MemberCells(m))) == Ok(Message(PGM_CTR_NEW_USER, MemberCells(m)))
    ensures Sendable(i.itemName) && Sendable(i.remarks) ==>
              ParseText(Packet(LST_SCC_ADD_ITEM, ItemCells(i))) == Ok(Message(LST_SCC_ADD_ITEM, ItemCells(i)))
  {
    NumberIsSendable(m.groupCode);
    NumberIsSendable(i.groupCode);
    NumberIsSendable(i.quantity);
    RequestCodes();
    if Sendable(m.username) && Sendable(m.status) {
      PrintThenParse(PGM_CTR_NEW_USER, MemberCells(m));
    }
    if Sendable(i.itemName) && Sendable(i.remarks) {
      PrintThenParse(LST_SCC_ADD_ITEM, ItemCells(i));
    }
  }

  lemma NumberRead(n: int)
    ensures Number(ToString(n)) == n
  {
    ReadsBack(n);
  }

  ghost function MemberMessages(rows: seq<MemberRow>): seq<Result<Message>> {
    seq(|rows|, i requires 0 <= i < |rows| => Ok(Message(PGM_CTR_NEW_USER, MemberCells(rows[i]))))
  }

  ghost function ItemMessages(rows: seq<ItemRow>): seq<Result<Message>> {
    seq(|rows|, i requires 0 <= i < |rows| => Ok(Message(LST_SCC_ADD_ITEM, ItemCells(rows[i]))))
  }

  lemma RowsParse(members: seq<MemberRow>, items: seq<ItemRow>)
    requires forall m | m in members :: Sendable(m.username) && Sendable(m.status)
    requires forall i | i in items :: Sendable(i.itemName) && Sendable(i.remarks)
    ensures Parsed(MemberTexts(members)) == MemberMessages(members)
    ensures Parsed(ItemTexts(items)) == ItemMessages(items)
  {
    forall k | 0 <= k < |members| ensures Parsed(MemberTexts(members))[k] == MemberMessages(members)[k] {
      assert members[k] in members;
      CellsParse(members[k], ItemRow(0, "", 0, ""));
    }
    forall k | 0 <= k < |items| ensures Parsed(ItemTexts(items))[k] == ItemMessages(items)[k] {
      assert items[k] in items;
      CellsParse(MemberRow(0, "", ""), items[k]);
    }
  }

  /** The map is `before` with the rows written into it. */
  ghost predicate WithMemberRows(after: map<string, string>, before: map<string, string>, rows: seq<MemberRow>) {
    && (forall m | m in rows :: m.username in after && after[m.username] == m.status)
    && (forall u | u in after :: (exists m :: m in rows && m.username == u) || (u in before && after[u] == before[u]))
    && (forall u | u in before :: u in after)
  }

  ghost predicate OfItemRows(items: map<string, B.Item>, rows: seq<ItemRow>) {
    && (forall i | i in rows :: i.itemName in items && items[i.itemName] == B.Item(i.quantity, i.remarks))
    && (forall k | k in items :: exists i :: i in rows && i.itemName == k)
  }

  lemma NextMemberRow(after: map<string, string>, before: map<string, string>, rows: seq<MemberRow>, m: MemberRow)
    requires WithMemberRows(after, before, rows) && forall q | q in rows :: q.username != m.username
    ensures WithMemberRows(after[m.username := m.status], before, rows + [m])
  {
  }

  lemma NextItemRow(items: map<string, B.Item>, rows: seq<ItemRow>, i: ItemRow)
    requires OfItemRows(items, rows) && forall q | q in rows :: q.itemName != i.itemName
    ensures OfItemRows(items[i.itemName := B.Item(i.quantity, i.remarks)], rows + [i])
  {
  }

  ghost predicate DistinctUsers(rows: seq<MemberRow>) {
    rows == [] ||
    var n := |rows| - 1;
    DistinctUsers(rows[..n]) && forall m | m in rows[..n] :: m.username != rows[n].username
  }

  ghost predicate DistinctItems(rows: seq<ItemRow>) {
    rows == [] ||
    var n := |rows| - 1;
    DistinctItems(rows[..n]) && forall i | i in rows[..n] :: i.itemName != rows[n].itemName
  }

  /** With unique keys, the rows of one group have distinct names. */
  lemma {:induction false} UsersInOneGroup(rows: seq<MemberRow>, code: int)
    requires Unique(rows, MemberKey) && forall m | m in rows :: m.groupCode == code
    ensures DistinctUsers(rows)
  {
    if rows != [] {
      var n := |rows| - 1;
      UniquePrefix(rows, MemberKey);
      UsersInOneGroup(rows[..n], code);
      assert rows[n] in rows;
    }
  }

  lemma {:induction false} ItemsInOneList(rows: seq<ItemRow>, code: int)
    requires Unique(rows, ItemKey) && forall i | i in rows :: i.groupCode == code
    ensures DistinctItems(rows)
  {
    if rows != [] {
      var n := |rows| - 1;
      UniquePrefix(rows, ItemKey);
      ItemsInOneList(rows[..n], code);
      assert rows[n] in rows;
    }
  }

  lemma UniquePrefix<T, K>(rows: seq<T>, key: T -> K)
    requires Unique(rows, key) && rows != []
    ensures var n := |rows| - 1;
            Unique(rows[..n], key) && forall r | r in rows[..n] :: key(r) != key(rows[n])
  {
  }

  lemma ReadOneMore(group: int, c: B.Group, messages: seq<Result<Message>>, message: Message)
    ensures Read(group, c, messages + [Ok(message)]) ==
            Understand(group, Read(group, c, messages), message.code, message.args)
  {
    assert (messages + [Ok(message)])[..|messages|] == messages;
  }

  lemma UnderstandRow(c: B.Group, m: MemberRow, i: ItemRow)
    ensures Understand(m.groupCode, c, PGM_CTR_NEW_USER, MemberCells(m)) ==
            c.(members := c.members[m.username := m.status])
    ensures Understand(i.groupCode, c, LST_SCC_ADD_ITEM, ItemCells(i)) ==
            c.(items := Announced(c.items, i.itemName, i.quantity, i.remarks))
  {
    NumberRead(m.groupCode);
    NumberRead(i.groupCode);
    NumberRead(i.quantity);
  }

  lemma {:induction false} ReadMembers(group: int, c: B.Group, rows: seq<MemberRow>)
    requires DistinctUsers(rows) && forall m | m in rows :: m.groupCode == group
    ensures var c' := Read(group, c, MemberMessages(rows));
            c'.name == c.name && c'.items == c.items && WithMemberRows(c'.members, c.members, rows)
  {
    if rows != [] {
      var n := |rows| - 1;
      var m, before := rows[n], Read(group, c, MemberMessages(rows[..n]));
      ReadMembers(group, c, rows[..n]);
      assert rows == rows[..n] + [m];
      assert MemberMessages(rows) == MemberMessages(rows[..n]) + [Ok(Message(PGM_CTR_NEW_USER, MemberCells(m)))];
      ReadOneMore(group, c, MemberMessages(rows[..n]), Message(PGM_CTR_NEW_USER, MemberCells(m)));
      UnderstandRow(before, m, ItemRow(0, "", 0, ""));
      NextMemberRow(before.members, c.members, rows[..n], m);
    }
  }

  lemma {:induction false} ReadItems(group: int, c: B.Group, rows: seq<ItemRow>)
    requires DistinctItems(rows) && c.items == map[] && forall i | i in rows :: i.groupCode == group
    ensures var c' := Read(group, c, ItemMessages(rows));
            c'.name == c.name && c'.members == c.members && OfItemRows(c'.items, rows)
  {
    if rows != [] {
      var n := |rows| - 1;
      var i, before := rows[n], Read(group, c, ItemMessages(rows[..n]));
      ReadItems(group, c, rows[..n]);
      assert rows == rows[..n] + [i];
      assert ItemMessages(rows) == ItemMessages(rows[..n]) + [Ok(Message(LST_SCC_ADD_ITEM, ItemCells(i)))];
      ReadOneMore(group, c, ItemMessages(rows[..n]), Message(LST_SCC_ADD_ITEM, ItemCells(i)));
      UnderstandRow(before, MemberRow(0, "", ""), i);
      NewItemRead(before, rows[..n], i);
    }
  }

  lemma NewItemRead(before: B.Group, rows: seq<ItemRow>, i: ItemRow)
    requires OfItemRows(before.items, rows) && forall q | q in rows :: q.itemName != i.itemName
    ensures OfItemRows(Announced(before.items, i.itemName, i.quantity, i.remarks), rows + [i])
  {
    assert i.itemName !in before.items;
    NextItemRow(before.items, rows, i);
  }

  lemma CopyIs(st: S.Store, b: B.Book, code: int, c: B.Group)
    requires S.Inv(st) && B.Represents(st, b) && code in b.groups
    requires c.name == S.NameOf(st.groups, code)
    requires forall u, s :: (u in c.members && c.members[u] == s) <==> MemberRow(code, u, s) in st.members
    requires OfItemRows(c.items, Where(st.lists, InList(code)))
    ensures c == b.groups[code]
  {
    var g := b.groups[code];
    NameInBook(st, b, code);
    forall u | u in c.members ensures u in g.members && g.members[u] == c.members[u] {
      assert MemberRow(code, u, c.members[u]) in st.members;
      assert B.HoldsMember(b, code, u, c.members[u]);
    }
    forall u | u in g.members ensures u in c.members {
      assert B.HoldsMember(b, code, u, g.members[u]);
      assert MemberRow(code, u, g.members[u]) in st.members;
    }
    assert c.members == g.members;
    forall k | k in g.items
      ensures k in c.items && c.items[k] == g.items[k]
    {
      var row := ItemRow(code, k, g.items[k].quantity, g.items[k].remarks);
      assert B.HoldsItem(b, code, k, row.quantity, row.remarks);
      assert row in Where(st.lists, InList(code));
    }
    forall k | k in c.items ensures k in g.items {
      var i :| i in Where(st.lists, InList(code)) && i.itemName == k;
      assert B.HoldsItem(b, code, k, i.quantity, i.remarks);
    }
    assert c.items == g.items;
  }

  lemma NameInBook(st: S.Store, b: B.Book, code: int)
    requires S.Inv(st) && B.Represents(st, b) && code in b.groups
    ensures S.NameOf(st.groups, code) == b.groups[code].name && Where(st.groups, HasCode(code)) != []
  {
    var g :| g in st.groups && g.code == code;
    assert g in Where(st.groups, HasCode(code));
    var found := S.FirstGroup(st.groups, code);
    assert found in Where(st.groups, HasCode(code));
  }

  /** A text that parses never brings an empty name. */
  lemma ReplayHasNoEmptyName(group: int, texts: seq<string>)
    ensures "" !in Replay(group, BLANK, texts).members
  {
    forall k | 0 <= k < |texts| && Parsed(texts)[k].Ok? ensures "" !in Parsed(texts)[k].value.args {
      var codeText := AcceptedIsFramed(texts[k]);
    }
    ReadHasNoEmptyName(group, Parsed(texts));
  }

  lemma {:induction false} ReadHasNoEmptyName(group: int, messages: seq<Result<Message>>)
    requires forall k :: 0 <= k < |messages| && messages[k].Ok? ==> "" !in messages[k].value.args
    ensures "" !in Read(group, BLANK, messages).members
  {
    if messages != [] {
      var n := |messages| - 1;
      assert forall k :: 0 <= k < n ==> messages[..n][k] == messages[k];
      ReadHasNoEmptyName(group, messages[..n]);
      if messages[n].Ok? {
        assert forall k :: 0 <= k < |messages[n].value.args| ==> messages[n].value.args[k] != "";
      }
    }
  }

  /**
   There is one text for each member and each item, and parsing and replaying them gives the group exactly when no
   member has the empty name.
   */
  lemma InboxRebuildsGroup(st: S.Store, b: B.Book, code: int, codeText: string, user: string, status: string)
    requires S.Inv(st) && CleanStore(st) && B.Represents(st, b)
    requires MemberRow(code, user, status) in st.members && Sendable(codeText) && Number(codeText) == code && Sendable(user)
    requires forall m | m in st.members && m.groupCode == code :: m.username == "" || Sendable(m.username)
    ensures var texts := Inbox(InviteEnvelopes(st, code, codeText, user, status), user);
            && code in b.groups
            && |texts| == |b.groups[code].members| + |Where(st.lists, InList(code))|
            && (Replay(code, BLANK, texts) == b.groups[code] <==> "" !in b.groups[code].members)
  {
    var row := MemberRow(code, user, status);
    assert S.Refers(st.groups, row.groupCode);
    NameInBook(st, b, code);
    InviteInbox(st, code, codeText, user, status);
    OtherMembers(st, code, user, status);
    B.SeesMembersOf(st, b, code);
    var texts := Inbox(InviteEnvelopes(st, code, codeText, user, status), user);
    if "" in b.groups[code].members {
      ReplayHasNoEmptyName(code, texts);
    } else {
      InboxReplaysGroup(st, b, code, codeText, user, status);
    }
  }

  lemma InboxReplaysGroup(st: S.Store, b: B.Book, code: int, codeText: string, user: string, status: string)
    requires S.Inv(st) && CleanStore(st) && B.Represents(st, b) && code in b.groups && "" !in b.groups[code].members
    requires MemberRow(code, user, status) in st.members && Sendable(codeText) && Number(codeText) == code
    requires forall m | m in st.members && m.groupCode == code :: m.username == "" || Sendable(m.username)
    ensures Replay(code, BLANK, Inbox(InviteEnvelopes(st, code, codeText, user, status), user)) == b.groups[code]
  {
    NameInBook(st, b, code);
    forall m | m in st.members && m.groupCode == code ensures Sendable(m.username) {
      assert B.HoldsMember(b, code, m.username, m.status);
    }
    var c := Replay(code, BLANK, Inbox(InviteEnvelopes(st, code, codeText, user, status), user));
    InboxReplayed(st, code, codeText, user, status);
    forall u, s ensures (u in c.members && c.members[u] == s) <==> MemberRow(code, u, s) in st.members {
      MembersReplayed(st, code, user, status, c.members, u, s);
    }
    CopyIs(st, b, code, c);
  }

  /** What is in the copy after the replay, in terms of rows. */
  lemma InboxReplayed(st: S.Store, code: int, codeText: string, user: string, status: string)
    requires S.Inv(st) && CleanStore(st)
    requires MemberRow(code, user, status) in st.members && Sendable(codeText) && Number(codeText) == code
    requires Where(st.groups, HasCode(code)) != []
    requires forall m | m in st.members && m.groupCode == code :: Sendable(m.username)
    ensures var c := Replay(code, BLANK, Inbox(InviteEnvelopes(st, code, codeText, user, status), user));
            var others := Where(Where(st.members, InGroup(code)), Not(OfUser(user)));
            var items := Where(st.lists, InList(code));
            && c.name == S.NameOf(st.groups, code)
            && WithMemberRows(c.members, map[user := status], others) && OfItemRows(c.items, items)
  {
    var others := Where(Where(st.members, InGroup(code)), Not(OfUser(user)));
    var items := Where(st.lists, InList(code));
    var name := S.NameOf(st.groups, code);
    var first := Packet(PGM_CTR_NEW_USER, [codeText, name, user, status]);
    assert user in S.Usernames(st.members, code) by {
      assert MemberRow(code, user, status) in st.members;
    }
    InviteInbox(st, code, codeText, user, status);
    FirstNotice(st, code, codeText, user, status);
    OtherMembers(st, code, user, status);
    WhereUnique(st.lists, InList(code), ItemKey);
    ReplayNotices(first, B.Group(name, map[user := status], map[]), code, others, items);
  }

  lemma ReplayNotices(first: string, c: B.Group, code: int, others: seq<MemberRow>, items: seq<ItemRow>)
    requires Read(code, BLANK, [ParseText(first)]) == c && c.items == map[]
    requires Unique(others, MemberKey) && Unique(items, ItemKey)
    requires forall m | m in others :: m.groupCode == code && Sendable(m.username) && Sendable(m.status)
    requires forall i | i in items :: i.groupCode == code && Sendable(i.itemName) && Sendable(i.remarks)
    ensures var c' := Replay(code, BLANK, [first] + MemberTexts(others) + ItemTexts(items));
            c'.name == c.name && WithMemberRows(c'.members, c.members, others) && OfItemRows(c'.items, items)
  {
    RowsParse(others, items);
    assert Parsed([first] + MemberTexts(others) + ItemTexts(items)) ==
           [ParseText(first)] + MemberMessages(others) + ItemMessages(items);
    ReadConcat(code, BLANK, [ParseText(first)] + MemberMessages(others), ItemMessages(items));
    ReadConcat(code, BLANK, [ParseText(first)], MemberMessages(others));
    UsersInOneGroup(others, code);
    ItemsInOneList(items, code);
    ReadMembers(code, c, others);
    ReadItems(code, Read(code, c, MemberMessages(others)), items);
  }

  lemma FirstNotice(st: S.Store, code: int, codeText: string, user: string, status: string)
    requires S.Inv(st) && CleanStore(st) && Sendable(codeText) && Number(codeText) == code && Sendable(user)
    requires MemberRow(code, user, status) in st.members && Where(st.groups, HasCode(code)) != []
    ensures Read(code, BLANK, [ParseText(Packet(PGM_CTR_NEW_USER, [codeText, S.NameOf(st.groups, code), user, status]))]) ==
            B.Group(S.NameOf(st.groups, code), map[user := status], map[])
  {
    var g := S.FirstGroup(st.groups, code);
    assert g in Where(st.groups, HasCode(code));
    assert Sendable(MemberRow(code, user, status).status);
    RequestCodes();
    var args := [codeText, S.NameOf(st.groups, code), user, status];
    PrintThenParse(PGM_CTR_NEW_USER, args);
    var message: Result<Message> := Ok(Message(PGM_CTR_NEW_USER, args));
    assert [message][..0] == [];
    assert Read(code, BLANK, [message]) == Understand(code, BLANK, PGM_CTR_NEW_USER, args);
  }

  /** The other members: their rows have unique names, none of them the user's, and with the user's row they are all rows. */
  lemma OtherMembers(st: S.Store, code: int, user: string, status: string)
    requires S.Inv(st) && MemberRow(code, user, status) in st.members
    ensures var members := Where(st.members, InGroup(code));
            var others := Where(members, Not(OfUser(user)));
            && Unique(others, MemberKey)
            && (forall m | m in others :: m in st.members && m.groupCode == code && m.username != user)
            && (forall m | m in st.members && m.groupCode == code && m.username != user :: m in others)
            && |others| + 1 == |S.Usernames(st.members, code)|
  {
    var row := MemberRow(code, user, status);
    var members := Where(st.members, InGroup(code));
    WhereUnique(st.members, InGroup(code), MemberKey);
    WhereUnique(members, Not(OfUser(user)), MemberKey);
    var others := Where(members, Not(OfUser(user)));
    forall m | m in others ensures m in st.members && m.groupCode == code && m.username != user {
      assert m in members;
    }
    forall m | m in st.members && m.groupCode == code && m.username != user ensures m in others {
      assert m in members && Not(OfUser(user))(m);
    }
    U.RowsAreUsernames(st.members, code);
    U.RowsAreUsernames(others, code);
    assert S.Usernames(others, code) == S.Usernames(st.members, code) - {user};
    WhereAll(others, InGroup(code));
  }

  lemma MembersReplayed(st: S.Store, code: int, user: string, status: string,
                        replayed: map<string, string>, u: string, s: string)
    requires S.Inv(st) && MemberRow(code, user, status) in st.members
    requires WithMemberRows(replayed, map[user := status], Where(Where(st.members, InGroup(code)), Not(OfUser(user))))
    ensures (u in replayed && replayed[u] == s) <==> MemberRow(code, u, s) in st.members
  {
    OtherMembers(st, code, user, status);
    var row := MemberRow(code, u, s);
    if row in st.members && u == user {
      OnlyRow(st.members, row, MemberRow(code, user, status), MemberKey);
    }
  }

  /**
   The promise of an invitation: after an accepted invite packet every message goes out exactly once. What is sent to
   the new member who is online rebuilds the group, exactly when the group has no member with the empty name; for one
   who is offline everything is stored and nothing is sent. The packet is plain: its group code is a literal.
   */
  lemma InviteRebuildsGroup(s: System, sock: int, text: string, date: string, b: B.Book,
                            codeText: string, user: string, status: string)
    requires Good(s) && Plain(s.store, text) && Handle(s, sock, text, date).1.Ok?
    requires ParseText(text) == Ok(Message(GR_INVITE_USER, [codeText, user, status]))
    requires B.Represents(Handle(s, sock, text, date).0.store, b)
    ensures var s' := Handle(s, sock, text, date).0;
            var code := Number(codeText);
            var es := InviteEnvelopes(s'.store, code, codeText, user, status);
            && s' == DeliverAll(s.(store := s'.store), es)
            && B.HoldsMember(b, code, user, status)
            && |Inbox(es, user)| == |b.groups[code].members| + |Where(s'.store.lists, InList(code))|
            && (Replay(code, BLANK, Inbox(es, user)) == b.groups[code] <==> "" !in b.groups[code].members)
            && |s.sent| <= |s'.sent| && s'.sessions == s.sessions
            && (Alone(s.sessions, user) ==>
                  var seen := Seen(s.sessions, s'.sent[|s.sent|..], user);
                  if user in s.sessions.opposite then
                    Replay(code, BLANK, seen) == b.groups[code] <==> "" !in b.groups[code].members
                  else
                    seen == [] && |Where(s'.packets, RowsOf(user))| == |Where(s.packets, RowsOf(user))| + |Inbox(es, user)|)
  {
    var op := S.Add(NameAt(s.sessions, sock), Number(codeText), user, status);
    var sent := AcceptedIsFramed(text);
    var args := [codeText, user, status];
    assert codeText == args[0] && status == args[2];
    InviteHandled(s, sock, text, date, codeText, user, status);
    var store := S.Apply(s.store, op).0;
    I.ApplyKeeps(s.store, op);
    ApplyKeepsClean(s.store, op);
    InvitedRow(s, op);
    InboxRebuildsGroup(store, b, Number(codeText), codeText, user, status);
    assert B.HoldsMember(b, Number(codeText), user, status);
    StoreDeliverySeen(s, store, InviteEnvelopes(store, Number(codeText), codeText, user, status), user);
  }

  lemma StoreDeliverySeen(s: System, store: S.Store, es: seq<Envelope>, user: string)
    ensures var s' := DeliverAll(s.(store := store), es);
            && |s.sent| <= |s'.sent| && s'.sessions == s.sessions
            && (Alone(s.sessions, user) ==>
                  && Seen(s.sessions, s'.sent[|s.sent|..], user) ==
                       (if user in s.sessions.opposite then Inbox(es, user) else [])
                  && |Where(s'.packets, RowsOf(user))| == |Where(s.packets, RowsOf(user))| +
                       if user in s.sessions.opposite then 0 else |Inbox(es, user)|)
  {
    DeliveryKeeps(s.(store := store), es);
    DeliveryIsConserved(s.(store := store), es);
    if Alone(s.sessions, user) {
      DeliverySeen(s.(store := store), es, user);
    }
  }

  /** An accepted invite packet adds the user and sends the invitation's messages. */
  lemma InviteHandled(s: System, sock: int, text: string, date: string,
                      codeText: string, user: string, status: string)
    requires Good(s) && Handle(s, sock, text, date).1.Ok?
    requires ParseText(text) == Ok(Message(GR_INVITE_USER, [codeText, user, status]))
    ensures var op := S.Add(NameAt(s.sessions, sock), Number(codeText), user, status);
            var store := S.Apply(s.store, op).0;
            && Registered(s.users, user) && S.Apply(s.store, op).1.Ok?
            && Handle(s, sock, text, date).0 ==
                 DeliverAll(s.(store := store), InviteEnvelopes(store, Number(codeText), codeText, user, status))
            && Handle(s, sock, text, date).0.store == store
  {
    var args := [codeText, user, status];
    var op := S.Add(NameAt(s.sessions, sock), Number(codeText), user, status);
    assert Touch(s.sessions, sock) == s.sessions;
    assert ActionOf(NameAt(s.sessions, sock), GR_INVITE_USER, args, date) == OnStore(op, Some(user));
    assert Handle(s, sock, text, date) == PerformOnStore(s, sock, op, Some(user), args);
    InvitePerformed(s, sock, op, args);
  }

  lemma InvitePerformed(s: System, sock: int, op: S.Op, args: seq<string>)
    requires S.Inv(s.store) && op.Add? && |args| > 0
    requires PerformOnStore(s, sock, op, Some(op.username), args).1.Ok?
    ensures var store := S.Apply(s.store, op).0;
            var s' := PerformOnStore(s, sock, op, Some(op.username), args).0;
            && Registered(s.users, op.username) && S.Apply(s.store, op).1.Ok?
            && s' == DeliverAll(s.(store := store), InviteEnvelopes(store, op.code, args[0], op.username, op.status))
            && s'.store == store
  {
    var store := S.Apply(s.store, op).0;
    DeliveryKeeps(s.(store := store), Notices(s.store, store, op, args));
  }

  lemma InvitedRow(s: System, op: S.Op)
    requires Good(s) && op.Add? && Registered(s.users, op.username)
    requires S.Apply(s.store, op).1.Ok?
    ensures Sendable(op.username)
    ensures MemberRow(op.code, op.username, op.status) in S.Apply(s.store, op).0.members
    ensures forall m | m in S.Apply(s.store, op).0.members :: m.username == "" || Sendable(m.username)
  {
    RegisteredHasName(s.users, op.username);
    forall m | m in S.Apply(s.store, op).0.members ensures m.username == "" || Sendable(m.username) {
      if m in s.store.members && m.username != "" {
        RegisteredHasName(s.users, m.username);
      }
    }
  }
}
