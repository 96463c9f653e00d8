/**
 The requests on groups, members and items, one by one: when each is refused and for which reason, what it does to the
 groups, and who is told what.
 */
module GroupRequests {
  import opened Errors
  import opened Decimal
  import opened Messages
  import opened Tables
  import opened Dispatch
  import opened ServerRuns
  import opened InviteReplay
  import opened BroadcastSync
  import opened SyncRuns
  import opened Lines
  import opened Requests
  import B = Book
  import F = Refinement
  import S = Store
  import U = Runs

  /** Every one of these users gets the text once, and nobody else gets any mail. */
  ghost predicate ToldTo(mail: seq<Envelope>, users: set<string>, text: string) {
    forall x :: Inbox(mail, x) == if x in users then [text] else []
  }

  lemma MembersTold(st: S.Store, code: int, number: int, args: seq<string>, mail: seq<Envelope>)
    requires S.Inv(st) && code in GroupsOf(st)
    requires mail == ToMembers(Where(st.members, InGroup(code)), Packet(number, args))
    ensures ToldTo(mail, GroupsOf(st)[code].members.Keys, Line(ToString(number), args))
  {
    LineIsPacket(number, args);
    MembersByMeaning(st, code);
    Broadcast(st.members, code, Packet(number, args));
  }

  // ---- the operation that a request is ----

  lemma MemberActions(user: string, codeText: string, other: string, status: string, date: string)
    ensures ActionOf(user, 13, [codeText, other], date) == OnStore(S.Expel(user, Number(codeText), other), Some(other))
    ensures ActionOf(user, 14, [codeText], date) == OnStore(S.Remove(user, Number(codeText)), None)
    ensures ActionOf(user, 15, [codeText, other, status], date) ==
            OnStore(S.Promote(user, Number(codeText), other, status), Some(other))
    ensures ActionOf(user, 16, [codeText, other, status], date) ==
            OnStore(S.Add(user, Number(codeText), other, status), Some(other))
  {
  }

  lemma ListActions(user: string, codeText: string, item: string, name: string, quantity: string, remarks: string,
                    date: string)
    ensures ActionOf(user, 20, [codeText, item, quantity, remarks], date) ==
            OnStore(S.Put(user, Number(codeText), item, quantity, remarks), None)
    ensures ActionOf(user, 21, [codeText, item], date) == OnStore(S.Take(user, Number(codeText), item), None)
    ensures ActionOf(user, 22, [codeText, item, name, quantity, remarks], date) ==
            OnStore(S.Edit(user, Number(codeText), item, name, quantity, remarks), None)
  {
  }

  // ---- operations after which the members are told of the request ----

  /** The number of the message after the operation. */
  function NumberOf(op: S.Op): int {
    if op.Promote? then 112 else if op.Put? then 200 else if op.Take? then 201 else 202
  }

  lemma KeysStay(b: B.Book, op: S.Op)
    requires (op.Promote? || op.Put? || op.Take? || op.Edit?) && OnBook(b, op).Change?
    ensures op.code in b.groups && op.code in OnBook(b, op).groups
    ensures OnBook(b, op).groups[op.code].members.Keys == b.groups[op.code].members.Keys
  {
  }

  lemma ToldOperation(s: System, e: Event, user: string, code: int, args: seq<string>, op: S.Op, target: Option<string>)
    requires Asks(s, e, user, code, args) && ActionOf(user, code, args, e.date) == OnStore(op, target)
    requires op.Promote? || op.Put? || op.Take? || op.Edit?
    ensures var o := if target.Some? && !HasAccount(s, target.value) then Refusal("WrongUsernameException")
                     else OnBook(U.Meaning(s.store), op);
            && Comes(s, e, o)
            && (o.Change? ==>
                  && op.code in GroupsOf(s.store)
                  && ToldTo(Mail(s, e), GroupsOf(s.store)[op.code].members.Keys, Line(ToString(NumberOf(op)), args)))
  {
    StoreOutcome(s, e, user, code, args, op, target);
    if (target.Some? ==> HasAccount(s, target.value)) && OnBook(U.Meaning(s.store), op).Change? {
      StoreMail(s, e, user, code, args, op, target);
      KeysStay(U.Meaning(s.store), op);
      MembersTold(Served(s, e).store, op.code, NumberOf(op), args, Mail(s, e));
    }
  }

  // ---- 13: a member is expelled ----

  lemma ExpelOnBook(b: B.Book, user: string, c: int, other: string)
    ensures var G := b.groups;
            OnBook(b, S.Expel(user, c, other)) ==
            if c !in G || user !in G[c].members || other !in G[c].members then Refusal("NoSuchUserInTheGroupException")
            else if G[c].members[user] !in ["admin", "fc"] || G[c].members[other] == "admin" then
              Refusal("PermissionIsDeniedException")
            else Change(G[c := G[c].(members := G[c].members - {other})])
  {
  }

  lemma ExpelTold(st: S.Store, c: int, codeText: string, args: seq<string>, mail: seq<Envelope>)
    requires S.Inv(st) && c in GroupsOf(st)
    requires var message := Packet(114, args);
             mail == ToMembers(Where(st.members, InGroup(c)), message) + [Envelope(codeText, message)]
    ensures forall x :: Inbox(mail, x) ==
              (if x in GroupsOf(st)[c].members then [Line("114", args)] else []) +
              (if x == codeText then [Line("114", args)] else [])
  {
    Numbers();
    var toMembers := ToMembers(Where(st.members, InGroup(c)), Packet(114, args));
    var last := Envelope(codeText, Packet(114, args));
    LineIsPacket(114, args);
    MembersTold(st, c, 114, args, toMembers);
    forall x ensures Inbox(mail, x) == (if x in GroupsOf(st)[c].members then [Line("114", args)] else []) +
                                       (if x == codeText then [Line("114", args)] else [])
    {
      InboxConcat(toMembers, [last], x);
      OneInbox(last, x);
    }
  }

  /** The user leaves the group and nothing else changes; the members who are left are told. */
  lemma ExpelRequest(s: System, e: Event, user: string, codeText: string, other: string)
    requires Asks(s, e, user, 13, [codeText, other])
    ensures var G, c := GroupsOf(s.store), Number(codeText);
            var outcome :=
              if !HasAccount(s, other) then Refusal("WrongUsernameException")
              else if c !in G || user !in G[c].members || other !in G[c].members then
                Refusal("NoSuchUserInTheGroupException")
              else if G[c].members[user] !in ["admin", "fc"] || G[c].members[other] == "admin" then
                Refusal("PermissionIsDeniedException")
              else Change(G[c := G[c].(members := G[c].members - {other})]);
            && Comes(s, e, outcome)
            && (outcome.Change? ==>
                  forall x :: Inbox(Mail(s, e), x) ==
                    (if x in outcome.groups[c].members then [Line("114", [codeText, other])] else []) +
                    (if x == codeText then [Line("114", [codeText, other])] else []))
  {
    var args, c := [codeText, other], Number(codeText);
    var op := S.Expel(user, c, other);
    MemberActions(user, codeText, other, "", e.date);
    ExpelOnBook(U.Meaning(s.store), user, c, other);
    StoreOutcome(s, e, user, 13, args, op, Some(other));
    if HasAccount(s, other) && OnBook(U.Meaning(s.store), op).Change? {
      ExpelMail(s, e, user, codeText, other);
      ExpelTold(Served(s, e).store, c, codeText, args, Mail(s, e));
    }
  }

  lemma ExpelMail(s: System, e: Event, user: string, codeText: string, other: string)
    requires Asks(s, e, user, 13, [codeText, other]) && HasAccount(s, other)
    requires OnBook(U.Meaning(s.store), S.Expel(user, Number(codeText), other)).Change?
    ensures var st', c, message := Served(s, e).store, Number(codeText), Packet(114, [codeText, other]);
            Mail(s, e) == ToMembers(Where(st'.members, InGroup(c)), message) + [Envelope(codeText, message)]
  {
    MemberActions(user, codeText, other, "", e.date);
    StoreMail(s, e, user, 13, [codeText, other], S.Expel(user, Number(codeText), other), Some(other));
  }
  // ---- 15: a member gets a status ----

  lemma StatusOnBook(b: B.Book, user: string, c: int, other: string, status: string)
    ensures var G := b.groups;
            OnBook(b, S.Promote(user, c, other, status)) ==
            if c !in G || user !in G[c].members || other !in G[c].members then Refusal("NoSuchUserInTheGroupException")
            else if G[c].members[user] !in ["admin", "fc"] || G[c].members[other] == "admin" then
              Refusal("PermissionIsDeniedException")
            else Change(G[c := G[c].(members := G[c].members[other := status])])
  {
  }

  lemma StatusRequest(s: System, e: Event, user: string, codeText: string, other: string, status: string)
    requires Asks(s, e, user, 15, [codeText, other, status])
    ensures var G, c := GroupsOf(s.store), Number(codeText);
            var outcome :=
              if !HasAccount(s, other) then Refusal("WrongUsernameException")
              else if c !in G || user !in G[c].members || other !in G[c].members then
                Refusal("NoSuchUserInTheGroupException")
              else if G[c].members[user] !in ["admin", "fc"] || G[c].members[other] == "admin" then
                Refusal("PermissionIsDeniedException")
              else Change(G[c := G[c].(members := G[c].members[other := status])]);
            && Comes(s, e, outcome)
            && (outcome.Change? ==>
                  ToldTo(Mail(s, e), G[c].members.Keys, Line("112", [codeText, other, status])))
  {
    var args, c := [codeText, other, status], Number(codeText);
    var op := S.Promote(user, c, other, status);
    MemberActions(user, codeText, other, status, e.date);
    StatusOnBook(U.Meaning(s.store), user, c, other, status);
    ToldOperation(s, e, user, 15, args, op, Some(other));
    Numbers();
  }

  // ---- 14: a group is closed ----

  lemma CloseOnBook(b: B.Book, user: string, c: int)
    ensures var G := b.groups;
            OnBook(b, S.Remove(user, c)) ==
            if c !in G || user !in G[c].members then Refusal("NoSuchUserInTheGroupException") else Change(G - {c})
  {
  }

  /** The group is gone, and everybody who was a member is told, once. */
  lemma CloseRequest(s: System, e: Event, user: string, codeText: string)
    requires Asks(s, e, user, 14, [codeText])
    ensures var G, c := GroupsOf(s.store), Number(codeText);
            if c !in G || user !in G[c].members then Comes(s, e, Refusal("NoSuchUserInTheGroupException"))
            else Comes(s, e, Change(G - {c})) && ToldTo(Mail(s, e), G[c].members.Keys, Line("113", [codeText]))
  {
    var args, c := [codeText], Number(codeText);
    var op := S.Remove(user, c);
    MemberActions(user, codeText, "", "", e.date);
    CloseOnBook(U.Meaning(s.store), user, c);
    StoreOutcome(s, e, user, 14, args, op, None);
    if OnBook(U.Meaning(s.store), op).Change? {
      StoreMail(s, e, user, 14, args, op, None);
      Numbers();
      MembersTold(s.store, c, 113, args, Mail(s, e));
    }
  }

  // ---- 21: an item is removed ----

  lemma TakeOnBook(b: B.Book, user: string, c: int, item: string)
    ensures var G := b.groups;
            OnBook(b, S.Take(user, c, item)) ==
            if c !in G || user !in G[c].members then Refusal("NoSuchUserInTheGroupException")
            else if G[c].members[user] !in ["admin", "fc", "rw"] then Refusal("PermissionIsDeniedException")
            else if item !in G[c].items then Refusal("SystemException")
            else Change(G[c := G[c].(items := G[c].items - {item})])
  {
  }

  lemma TakeRequest(s: System, e: Event, user: string, codeText: string, item: string)
    requires Asks(s, e, user, 21, [codeText, item])
    ensures var G, c := GroupsOf(s.store), Number(codeText);
            var outcome :=
              if c !in G || user !in G[c].members then Refusal("NoSuchUserInTheGroupException")
              else if G[c].members[user] !in ["admin", "fc", "rw"] then Refusal("PermissionIsDeniedException")
              else if item !in G[c].items then Refusal("SystemException")
              else Change(G[c := G[c].(items := G[c].items - {item})]);
            && Comes(s, e, outcome)
            && (outcome.Change? ==> ToldTo(Mail(s, e), G[c].members.Keys, Line("201", [codeText, item])))
  {
    var args, c := [codeText, item], Number(codeText);
    var op := S.Take(user, c, item);
    ListActions(user, codeText, item, "", "", "", e.date);
    TakeOnBook(U.Meaning(s.store), user, c, item);
    ToldOperation(s, e, user, 21, args, op, None);
    Numbers();
  }

  // ---- 20: an item is added ----

  lemma NewOnBook(b: B.Book, user: string, c: int, item: string, quantity: string, remarks: string)
    requires c in b.groups ==> item !in b.groups[c].items && SqlInteger(quantity).Some?
    ensures var G := b.groups;
            OnBook(b, S.Put(user, c, item, quantity, remarks)) ==
            if c !in G || user !in G[c].members then Refusal("NoSuchUserInTheGroupException")
            else if G[c].members[user] !in ["admin", "fc", "rw"] then Refusal("PermissionIsDeniedException")
            else Change(G[c := G[c].(items := G[c].items[item := B.Item(SqlInteger(quantity).value, remarks)])])
  {
  }

  /** A listed item gets what `stoi` makes of the text, in 32 bits, and keeps its remarks. */
  ghost predicate ListedOutcome(G: map<int, B.Group>, user: string, c: int, item: string, quantity: string, o: Outcome)
    requires c in G && item in G[c].items
  {
    var it := G[c].items[item];
    if user !in G[c].members then o == Refusal("NoSuchUserInTheGroupException")
    else if G[c].members[user] !in ["admin", "fc", "rw"] then o == Refusal("PermissionIsDeniedException")
    else if Stoi(quantity).Err? || !(-2147483648 <= it.quantity <= 2147483647) then o == Refusal("Unknown Error")
    else
      var sum := it.quantity + Stoi(quantity).value;
      o == Change(G[c := G[c].(items := G[c].items[item := B.Item(Wrap32(sum), it.remarks)])])
  }

  lemma ListedOnBook(b: B.Book, user: string, c: int, item: string, quantity: string, remarks: string)
    returns (o: Outcome)
    requires c in b.groups && item in b.groups[c].items
    ensures o == OnBook(b, S.Put(user, c, item, quantity, remarks))
    ensures ListedOutcome(b.groups, user, c, item, quantity, o)
  {
    o := OnBook(b, S.Put(user, c, item, quantity, remarks));
    if B.Written(b, user, c).Ok? {
      F.NoteListed(b, user, c, item, b.groups[c].items[item].quantity, quantity, remarks);
    }
  }

  lemma PutAsked(s: System, e: Event, user: string, args: seq<string>)
    requires |args| == 4 && Asks(s, e, user, 20, args)
    ensures var op := S.Put(user, Number(args[0]), args[1], args[2], args[3]);
            var o := OnBook(U.Meaning(s.store), op);
            && Comes(s, e, o)
            && (o.Change? ==> op.code in GroupsOf(s.store) &&
                              ToldTo(Mail(s, e), GroupsOf(s.store)[op.code].members.Keys, Line("200", args)))
  {
    assert args == [args[0], args[1], args[2], args[3]];
    ListActions(user, args[0], args[1], "", args[2], args[3], e.date);
    ToldOperation(s, e, user, 20, args, S.Put(user, Number(args[0]), args[1], args[2], args[3]), None);
    Numbers();
  }

  lemma PlainIsLiteral(st: S.Store, args: seq<string>)
    requires S.Inv(st) && |args| == 4 && PlainMessage(st, 20, args)
    ensures var G, c := GroupsOf(st), Number(args[0]);
            c in G && args[1] !in G[c].items ==> SqlInteger(args[2]).Some?
  {
    B.SeesItem(st, U.Meaning(st), Number(args[0]), args[1]);
  }

  lemma NewIsLiteral(s: System, e: Event, user: string, args: seq<string>)
    requires |args| == 4 && Asks(s, e, user, 20, args)
    ensures var G, c := GroupsOf(s.store), Number(args[0]);
            c in G && args[1] !in G[c].items ==> SqlInteger(args[2]).Some?
  {
    PlainIsLiteral(s.store, args);
  }

  /** A new item is stored as it is. */
  lemma PutNewRequest(s: System, e: Event, user: string, codeText: string, item: string, quantity: string,
                      remarks: string)
    requires Asks(s, e, user, 20, [codeText, item, quantity, remarks])
    requires Number(codeText) in GroupsOf(s.store) ==> item !in GroupsOf(s.store)[Number(codeText)].items
    ensures var G, c := GroupsOf(s.store), Number(codeText);
            && (c in G ==> SqlInteger(quantity).Some?)
            && var outcome :=
                 if c !in G || user !in G[c].members then Refusal("NoSuchUserInTheGroupException")
                 else if G[c].members[user] !in ["admin", "fc", "rw"] then Refusal("PermissionIsDeniedException")
                 else Change(G[c := G[c].(items := G[c].items[item := B.Item(SqlInteger(quantity).value, remarks)])]);
               && Comes(s, e, outcome)
               && (outcome.Change? ==>
                     ToldTo(Mail(s, e), G[c].members.Keys, Line("200", [codeText, item, quantity, remarks])))
  {
    NewIsLiteral(s, e, user, [codeText, item, quantity, remarks]);
    NewOnBook(U.Meaning(s.store), user, Number(codeText), item, quantity, remarks);
    PutAsked(s, e, user, [codeText, item, quantity, remarks]);
  }

  lemma PutListedRequest(s: System, e: Event, user: string, codeText: string, item: string, quantity: string,
                         remarks: string) returns (o: Outcome)
    requires Asks(s, e, user, 20, [codeText, item, quantity, remarks])
    requires Number(codeText) in GroupsOf(s.store) && item in GroupsOf(s.store)[Number(codeText)].items
    ensures ListedOutcome(GroupsOf(s.store), user, Number(codeText), item, quantity, o)
    ensures Comes(s, e, o)
    ensures o.Change? ==> ToldTo(Mail(s, e), GroupsOf(s.store)[Number(codeText)].members.Keys,
                                 Line("200", [codeText, item, quantity, remarks]))
  {
    o := ListedOnBook(U.Meaning(s.store), user, Number(codeText), item, quantity, remarks);
    PutAsked(s, e, user, [codeText, item, quantity, remarks]);
  }

  // ---- 22: an item is replaced ----

  lemma EditOnBook(b: B.Book, user: string, c: int, item: string, name: string, quantity: string, remarks: string)
    requires quantity != ""
    ensures var G := b.groups;
            OnBook(b, S.Edit(user, c, item, name, quantity, remarks)) ==
            if c !in G || user !in G[c].members then Refusal("NoSuchUserInTheGroupException")
            else if G[c].members[user] !in ["admin", "fc", "rw"] then Refusal("PermissionIsDeniedException")
            else if item !in G[c].items then Refusal("SystemException")
            else if item == name && quantity == ToString(G[c].items[item].quantity) &&
                    remarks == G[c].items[item].remarks
            then Refusal("SystemException")
            else if !AllDigits(quantity) then Refusal("SystemException")
            else if Value(quantity) > 2147483647 then Refusal("Unknown Error")
            else if Value(quantity) == 0 then Refusal("SystemException")
            else if name != item && name in G[c].items then Change(G)
            else Change(G[c := G[c].(items := (G[c].items - {item})[name := B.Item(Value(quantity), remarks)])])
  {
  }

  /** The item is replaced, unless its new name is another item's: then nothing changes, and all are told it did. */
  lemma EditRequest(s: System, e: Event, user: string, codeText: string, item: string, name: string, quantity: string,
                    remarks: string)
    requires Asks(s, e, user, 22, [codeText, item, name, quantity, remarks])
    ensures var G, c := GroupsOf(s.store), Number(codeText);
            var outcome :=
              if c !in G || user !in G[c].members then Refusal("NoSuchUserInTheGroupException")
              else if G[c].members[user] !in ["admin", "fc", "rw"] then Refusal("PermissionIsDeniedException")
              else if item !in G[c].items then Refusal("SystemException")
              else if item == name && quantity == ToString(G[c].items[item].quantity) &&
                      remarks == G[c].items[item].remarks
              then Refusal("SystemException")
              else if !AllDigits(quantity) then Refusal("SystemException")
              else if Value(quantity) > 2147483647 then Refusal("Unknown Error")
              else if Value(quantity) == 0 then Refusal("SystemException")
              else if name != item && name in G[c].items then Change(G)
              else Change(G[c := G[c].(items := (G[c].items - {item})[name := B.Item(Value(quantity), remarks)])]);
            && Comes(s, e, outcome)
            && (outcome.Change? ==>
                  ToldTo(Mail(s, e), G[c].members.Keys, Line("202", [codeText, item, name, quantity, remarks])))
  {
    var args, c := [codeText, item, name, quantity, remarks], Number(codeText);
    var op := S.Edit(user, c, item, name, quantity, remarks);
    ListActions(user, codeText, item, name, quantity, remarks, e.date);
    AskedIsReached(s, e, user, 22, args);
    assert quantity in args;
    EditOnBook(U.Meaning(s.store), user, c, item, name, quantity, remarks);
    ToldOperation(s, e, user, 22, args, op, None);
    Numbers();
  }
  // ---- 16: a user is invited ----

  lemma InviteOnBook(b: B.Book, user: string, c: int, other: string, status: string)
    ensures var G := b.groups;
            OnBook(b, S.Add(user, c, other, status)) ==
            if c !in G || user !in G[c].members then Refusal("NoSuchUserInTheGroupException")
            else if |G[c].members| >= 4 then Refusal("FullGroupException")
            else if other in G[c].members || status !in ["admin", "fc", "rw", "r"] then Refusal("SystemException")
            else Change(G[c := G[c].(members := G[c].members[other := status])])
  {
  }

  function NamesIn(lists: seq<ItemRow>, c: int): set<string> {
    set i | i in lists && i.groupCode == c :: i.itemName
  }

  lemma {:induction false} ItemsOnce(lists: seq<ItemRow>, c: int)
    requires Unique(lists, ItemKey)
    ensures |Where(lists, InList(c))| == |NamesIn(lists, c)|
  {
    if lists == [] {
      assert NamesIn(lists, c) == {};
    } else {
      var n := |lists| - 1;
      ItemsOnce(lists[..n], c);
      assert lists == lists[..n] + [lists[n]];
      OneMoreItem(lists[..n], lists[n], c);
    }
  }

  lemma OneMoreItem(lists: seq<ItemRow>, row: ItemRow, c: int)
    requires Unique(lists + [row], ItemKey)
    ensures row.groupCode != c ==> NamesIn(lists + [row], c) == NamesIn(lists, c)
    ensures row.groupCode == c ==>
              NamesIn(lists + [row], c) == NamesIn(lists, c) + {row.itemName} && row.itemName !in NamesIn(lists, c)
  {
    forall i | i in lists ensures ItemKey(i) != ItemKey(row) {
      var k :| 0 <= k < |lists| && lists[k] == i;
      assert (lists + [row])[k] == i && (lists + [row])[|lists|] == row;
    }
  }

  /** The texts tell of the user first, then of each other member and of each item. */
  ghost predicate Introduces(texts: seq<string>, c: int, g: B.Group, first: string, other: string) {
    && texts != [] && |texts| == |g.members| + |g.items| && texts[0] == first
    && (forall v | v in g.members && v != other :: Line("110", [ToString(c), v, g.members[v]]) in texts[1..])
    && (forall i | i in g.items ::
          Line("200", [ToString(c), i, ToString(g.items[i].quantity), g.items[i].remarks]) in texts[1..])
  }

  lemma RowsAreTold(members: seq<MemberRow>, items: seq<ItemRow>)
    ensures forall m | m in members :: Line("110", MemberCells(m)) in MemberTexts(members)
    ensures forall i | i in items :: Line("200", ItemCells(i)) in ItemTexts(items)
  {
    Numbers();
    forall m | m in members ensures Line("110", MemberCells(m)) in MemberTexts(members) {
      var k :| 0 <= k < |members| && members[k] == m;
      LineIsPacket(110, MemberCells(m));
      assert MemberTexts(members)[k] == Packet(110, MemberCells(m));
    }
    forall i | i in items ensures Line("200", ItemCells(i)) in ItemTexts(items) {
      var k :| 0 <= k < |items| && items[k] == i;
      LineIsPacket(200, ItemCells(i));
      assert ItemTexts(items)[k] == Packet(200, ItemCells(i));
    }
  }

  lemma IntroducedByRows(st: S.Store, b: B.Book, c: int, other: string, status: string, first: string,
                         others: seq<MemberRow>, items: seq<ItemRow>)
    requires B.Represents(st, b) && c in b.groups
    requires |others| + 1 == |b.groups[c].members| && |items| == |b.groups[c].items|
    requires forall m | m in st.members && m.groupCode == c && m.username != other :: m in others
    requires forall i | i in st.lists && i.groupCode == c :: i in items
    ensures Introduces([first] + MemberTexts(others) + ItemTexts(items), c, b.groups[c], first, other)
  {
    var texts, g := [first] + MemberTexts(others) + ItemTexts(items), b.groups[c];
    assert texts[1..] == MemberTexts(others) + ItemTexts(items);
    RowsAreTold(others, items);
    forall v | v in g.members && v != other ensures Line("110", [ToString(c), v, g.members[v]]) in texts[1..] {
      assert B.HoldsMember(b, c, v, g.members[v]);
      assert MemberRow(c, v, g.members[v]) in others;
      assert MemberCells(MemberRow(c, v, g.members[v])) == [ToString(c), v, g.members[v]];
    }
    forall i | i in g.items
      ensures Line("200", [ToString(c), i, ToString(g.items[i].quantity), g.items[i].remarks]) in texts[1..]
    {
      var row := ItemRow(c, i, g.items[i].quantity, g.items[i].remarks);
      assert B.HoldsItem(b, c, i, row.quantity, row.remarks);
      assert row in items;
      assert ItemCells(row) == [ToString(c), i, ToString(row.quantity), row.remarks];
    }
  }

  lemma ItemCount(st: S.Store, c: int)
    requires S.Inv(st) && c in GroupsOf(st)
    ensures |Where(st.lists, InList(c))| == |GroupsOf(st)[c].items|
  {
    ItemsOnce(st.lists, c);
    var b, names := U.Meaning(st), NamesIn(st.lists, c);
    forall i | i in st.lists && i.groupCode == c ensures i.itemName in b.groups[c].items {
      assert B.HoldsItem(b, c, i.itemName, i.quantity, i.remarks);
    }
    forall n | n in b.groups[c].items ensures n in names {
      assert B.HoldsItem(b, c, n, b.groups[c].items[n].quantity, b.groups[c].items[n].remarks);
    }
    assert names == b.groups[c].items.Keys;
  }

  lemma OnlyTheBroadcast(everyone: seq<Envelope>, others: seq<Envelope>, items: seq<Envelope>, other: string,
                         members: set<string>, text: string)
    requires ToldTo(everyone, members, text)
    requires forall k :: 0 <= k < |others| ==> others[k].to == other
    requires forall k :: 0 <= k < |items| ==> items[k].to == other
    ensures forall x | x != other :: Inbox(everyone + others + items, x) == if x in members then [text] else []
  {
    forall x | x != other ensures Inbox(everyone + others + items, x) == if x in members then [text] else [] {
      NoneToUser(others, x);
      NoneToUser(items, x);
      InboxConcat(everyone + others, items, x);
      InboxConcat(everyone, others, x);
    }
  }

  lemma NoticesToOne(members: seq<MemberRow>, items: seq<ItemRow>, other: string)
    ensures forall k :: 0 <= k < |MemberNotices(members, other)| ==> MemberNotices(members, other)[k].to == other
    ensures forall k :: 0 <= k < |ItemNotices(items, other)| ==> ItemNotices(items, other)[k].to == other
  {
  }

  lemma OthersAreTold(st: S.Store, c: int, args: seq<string>, other: string, others: seq<Envelope>,
                      items: seq<Envelope>)
    requires S.Inv(st) && c in GroupsOf(st)
    requires forall k :: 0 <= k < |others| ==> others[k].to == other
    requires forall k :: 0 <= k < |items| ==> items[k].to == other
    ensures var g := GroupsOf(st)[c];
            var mail := ToMembers(Where(st.members, InGroup(c)), Packet(110, args)) + others + items;
            forall x | x != other :: Inbox(mail, x) == if x in g.members then [Line("110", args)] else []
  {
    var everyone := ToMembers(Where(st.members, InGroup(c)), Packet(110, args));
    Numbers();
    MembersTold(st, c, 110, args, everyone);
    OnlyTheBroadcast(everyone, others, items, other, GroupsOf(st)[c].members.Keys, Line("110", args));
  }

  /** The mail of an invitation: each member but the new one gets one text; the new one is introduced to the group. */
  lemma InvitationMail(st: S.Store, c: int, codeText: string, other: string, status: string, mail: seq<Envelope>)
    requires S.Inv(st) && MemberRow(c, other, status) in st.members && c in GroupsOf(st)
    requires mail == InviteEnvelopes(st, c, codeText, other, status)
    ensures var g := GroupsOf(st)[c];
            Introduces(Inbox(mail, other), c, g, Line("110", [codeText, g.name, other, status]), other)
  {
    var args := [codeText, S.NameOf(st.groups, c), other, status];
    NameInBook(st, U.Meaning(st), c);
    Numbers();
    LineIsPacket(110, args);
    InviteInbox(st, c, codeText, other, status);
    OtherMembers(st, c, other, status);
    MembersByMeaning(st, c);
    ItemCount(st, c);
    IntroducedByRows(st, U.Meaning(st), c, other, status, Packet(110, args),
                     Where(Where(st.members, InGroup(c)), Not(OfUser(other))), Where(st.lists, InList(c)));
  }

  lemma InviteRequest(s: System, e: Event, user: string, codeText: string, other: string, status: string)
    requires Asks(s, e, user, 16, [codeText, other, status])
    ensures var G, c := GroupsOf(s.store), Number(codeText);
            var outcome :=
              if !HasAccount(s, other) then Refusal("WrongUsernameException")
              else if c !in G || user !in G[c].members then Refusal("NoSuchUserInTheGroupException")
              else if |G[c].members| >= 4 then Refusal("FullGroupException")
              else if other in G[c].members || status !in ["admin", "fc", "rw", "r"] then Refusal("SystemException")
              else Change(G[c := G[c].(members := G[c].members[other := status])]);
            && Comes(s, e, outcome)
            && (outcome.Change? ==>
                  var g, first := outcome.groups[c], Line("110", [codeText, G[c].name, other, status]);
                  && (forall x | x != other :: Inbox(Mail(s, e), x) == if x in g.members then [first] else [])
                  && Introduces(Inbox(Mail(s, e), other), c, g, first, other))
  {
    var args, c := [codeText, other, status], Number(codeText);
    var op := S.Add(user, c, other, status);
    MemberActions(user, codeText, other, status, e.date);
    InviteOnBook(U.Meaning(s.store), user, c, other, status);
    StoreOutcome(s, e, user, 16, args, op, Some(other));
    if HasAccount(s, other) && OnBook(U.Meaning(s.store), op).Change? {
      StoreMail(s, e, user, 16, args, op, Some(other));
      InvitationTold(Served(s, e).store, c, codeText, other, status, Mail(s, e));
    }
  }

  lemma InvitationTold(st: S.Store, c: int, codeText: string, other: string, status: string, mail: seq<Envelope>)
    requires S.Inv(st) && B.HoldsMember(U.Meaning(st), c, other, status)
    requires mail == InviteEnvelopes(st, c, codeText, other, status)
    ensures var g := GroupsOf(st)[c];
            var first := Line("110", [codeText, g.name, other, status]);
            && (forall x | x != other :: Inbox(mail, x) == if x in g.members then [first] else [])
            && Introduces(Inbox(mail, other), c, g, first, other)
  {
    NameInBook(st, U.Meaning(st), c);
    var members, items := Where(st.members, InGroup(c)), Where(st.lists, InList(c));
    NoticesToOne(members, items, other);
    OthersAreTold(st, c, [codeText, S.NameOf(st.groups, c), other, status], other, MemberNotices(members, other),
                  ItemNotices(items, other));
    InvitationMail(st, c, codeText, other, status, mail);
  }
}
