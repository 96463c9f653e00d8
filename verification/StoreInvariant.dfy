/** Every operation keeps the invariant of the tables. */
module StoreInvariant {
  import opened Decimal
  import opened Permissions
  import opened Tables
  import opened Store

  lemma EmptyInv()
    ensures Inv(EMPTY)
  {
  }

  lemma CreateKeeps(st: Store, name: string, admin: string, date: string)
    requires Inv(st)
    ensures Inv(CreateGroup(st, name, admin, date).0)
  {
    var st' := CreateGroup(st, name, admin, date).0;
    var code := st.lastCode + 1;
    FreshCode(st);
    assert Codes(st'.groups) == Codes(st.groups) + {code};
    AppendUnique(st.groups, GroupRow(code, name, admin, date, 1), GroupKey);
    AppendUnique(st.members, MemberRow(code, admin, ADMIN.text), MemberKey);
    assert forall m | m in st'.members :: Refers(st'.groups, m.groupCode);
    assert forall i | i in st'.lists :: Refers(st'.groups, i.groupCode);
    assert Usernames(st'.members, code) == {admin};
    forall g | g in st'.groups ensures GoodGroup(code, st'.members, g) {
      if g in st.groups {
        assert GoodGroup(st.lastCode, st.members, g);
        assert Usernames(st'.members, g.code) == Usernames(st.members, g.code);
      }
    }
  }

  /** No row has a code that was not drawn yet, and all rows refer to groups. */
  lemma FreshCode(st: Store)
    requires Inv(st)
    ensures forall g | g in st.groups :: g.code <= st.lastCode
    ensures forall m | m in st.members :: m.groupCode <= st.lastCode && Refers(st.groups, m.groupCode)
    ensures forall i | i in st.lists :: Refers(st.groups, i.groupCode)
  {
    forall g | g in st.groups ensures g.code <= st.lastCode {
      assert GoodGroup(st.lastCode, st.members, g);
    }
    forall m | m in st.members ensures m.groupCode <= st.lastCode && Refers(st.groups, m.groupCode) {
      assert Refers(st.groups, m.groupCode);
    }
  }

  /** The code drawn for a new group is the largest in the table, and no member row has it yet. */
  lemma NewCode(st: Store, name: string, admin: string, date: string)
    requires Inv(st)
    ensures var code := st.lastCode + 1;
            && LastCode(st.groups + [GroupRow(code, name, admin, date, 1)]) == code
            && InsertMember(st.members, MemberRow(code, admin, "admin")) ==
                 st.members + [MemberRow(code, admin, "admin")]
  {
    var code := st.lastCode + 1;
    var row := GroupRow(code, name, admin, date, 1);
    FreshCode(st);
    var groups := st.groups + [row];
    var i := LastCodeIsLargest(groups);
    assert groups[|groups| - 1] == row && groups[i] in groups;
    WhereNothing(st.members, IsMember(code, admin));
  }

  lemma RemoveKeeps(st: Store, effector: string, code: int)
    requires Inv(st)
    ensures Inv(RemoveGroup(st, effector, code).0)
  {
    var st' := RemoveGroup(st, effector, code).0;
    if st' != st {
      WhereUnique(st.groups, Not(HasCode(code)), GroupKey);
      WhereUnique(st.members, Not(InGroup(code)), MemberKey);
      WhereUnique(st.lists, Not(InList(code)), ItemKey);
      forall c | c in Codes(st.groups) && c != code ensures c in Codes(st'.groups) {
        var g :| g in st.groups && g.code == c;
        assert g in st'.groups;
      }
      assert forall m | m in st.members :: Refers(st.groups, m.groupCode);
      assert forall m | m in st'.members :: Refers(st'.groups, m.groupCode);
      assert forall i | i in st.lists :: Refers(st.groups, i.groupCode);
      assert forall i | i in st'.lists :: Refers(st'.groups, i.groupCode);
      forall g | g in st'.groups ensures GoodGroup(st.lastCode, st'.members, g) {
        assert GoodGroup(st.lastCode, st.members, g);
        assert forall m | m in st.members && m.groupCode == g.code :: Not(InGroup(code))(m);
        assert Usernames(st'.members, g.code) == Usernames(st.members, g.code);
      }
    }
  }

  /** The counter that is written is the one read from the group's only row. */
  lemma CounterRead(st: Store, code: int)
    requires Inv(st) && Where(st.groups, HasCode(code)) != []
    ensures FirstGroup(st.groups, code) in st.groups && FirstGroup(st.groups, code).code == code
    ensures FirstGroup(st.groups, code).numberOfUsers == |Usernames(st.members, code)|
    ensures forall g | g in st.groups && g.code == code :: g == FirstGroup(st.groups, code)
  {
    var g := FirstGroup(st.groups, code);
    assert g in Where(st.groups, HasCode(code));
    forall q | q in st.groups && q.code == code ensures q == g {
      OnlyRow(st.groups, q, g, GroupKey);
    }
    assert GoodGroup(st.lastCode, st.members, g);
  }

  lemma CounterWritten(groups: seq<GroupRow>, code: int, n: int)
    requires Unique(groups, GroupKey)
    ensures var groups' := Change(groups, HasCode(code), SetCount(n));
            && Unique(groups', GroupKey) && Codes(groups') == Codes(groups)
            && (forall g' | g' in groups' ::
                  exists g :: g in groups && g' == if g.code == code then g.(numberOfUsers := n) else g)
  {
    ChangeUnique(groups, HasCode(code), SetCount(n), GroupKey);
    ChangeRows(groups, HasCode(code), SetCount(n));
    var groups' := Change(groups, HasCode(code), SetCount(n));
    forall c | c in Codes(groups) ensures c in Codes(groups') {
      var g :| g in groups && g.code == c;
      assert (if HasCode(code)(g) then SetCount(n)(g) else g) in groups';
    }
    forall g' | g' in groups'
      ensures exists g :: g in groups && g' == if g.code == code then g.(numberOfUsers := n) else g
    {
      var g :| g in groups && g' == if HasCode(code)(g) then SetCount(n)(g) else g;
      assert g in groups && g' == if g.code == code then g.(numberOfUsers := n) else g;
    }
  }

  /** One group's counter and membership changed together, and its creator stayed. */
  lemma CounterAgrees(st: Store, code: int, n: int, members: seq<MemberRow>)
    requires Inv(st) && Unique(members, MemberKey)
    requires n == |Usernames(members, code)| <= CAPACITY
    requires forall m | m in members :: Refers(st.groups, m.groupCode)
    requires forall c | c != code :: Usernames(members, c) == Usernames(st.members, c)
    requires forall g | g in st.groups && g.code == code :: MemberRow(code, g.admin, "admin") in members
    requires forall m | m in st.members && m.groupCode != code :: m in members
    ensures Inv(Recount(st, code, n, members))
  {
    CounterWritten(st.groups, code, n);
    var groups' := Change(st.groups, HasCode(code), SetCount(n));
    assert forall i | i in st.lists :: Refers(st.groups, i.groupCode);
    assert forall i | i in st.lists :: Refers(groups', i.groupCode);
    assert forall m | m in members :: Refers(groups', m.groupCode);
    forall g' | g' in groups' ensures GoodGroup(st.lastCode, members, g') {
      var g :| g in st.groups && g' == if g.code == code then g.(numberOfUsers := n) else g;
      assert GoodGroup(st.lastCode, st.members, g);
    }
  }

  lemma NoMemberRow(members: seq<MemberRow>, code: int, username: string)
    requires !HasMember(members, code, username)
    ensures forall m | m in members :: MemberKey(m) != (code, username)
    ensures username !in Usernames(members, code)
  {
    assert forall m | m in members && IsMember(code, username)(m) :: m in Where(members, IsMember(code, username));
  }

  lemma UsernamesWith(members: seq<MemberRow>, row: MemberRow)
    requires Unique(members, MemberKey)
    requires row.username !in Usernames(members, row.groupCode)
    ensures Unique(members + [row], MemberKey)
    ensures |Usernames(members + [row], row.groupCode)| == |Usernames(members, row.groupCode)| + 1
    ensures forall c | c != row.groupCode :: Usernames(members + [row], c) == Usernames(members, c)
  {
    assert Unique(members + [row], MemberKey) by {
      AppendUnique(members, row, MemberKey);
    }
    assert Usernames(members + [row], row.groupCode) == Usernames(members, row.groupCode) + {row.username};
  }

  lemma RefersWith(st: Store, row: MemberRow)
    requires Inv(st) && Refers(st.groups, row.groupCode)
    ensures forall m | m in st.members + [row] :: Refers(st.groups, m.groupCode)
  {
  }

  lemma WithMember(st: Store, code: int, username: string, status: string)
    requires Inv(st) && Where(st.groups, HasCode(code)) != [] && username !in Usernames(st.members, code)
    requires FirstGroup(st.groups, code).numberOfUsers != CAPACITY
    ensures Inv(WithUser(st, code, username, status))
  {
    var row := MemberRow(code, username, status);
    var n := FirstGroup(st.groups, code).numberOfUsers;
    UsernamesWith(st.members, row);
    CounterAndCreator(st, code);
    RefersWith(st, row);
    CounterAgrees(st, code, n + 1, st.members + [row]);
  }

  lemma CounterAndCreator(st: Store, code: int)
    requires Inv(st) && Where(st.groups, HasCode(code)) != []
    ensures FirstGroup(st.groups, code).numberOfUsers == |Usernames(st.members, code)| <= CAPACITY
    ensures Refers(st.groups, code)
    ensures forall g | g in st.groups && g.code == code :: MemberRow(code, g.admin, "admin") in st.members
  {
    CounterRead(st, code);
    assert GoodGroup(st.lastCode, st.members, FirstGroup(st.groups, code));
  }

  lemma AddKeeps(st: Store, effector: string, code: int, username: string, status: string)
    requires Inv(st)
    ensures Inv(AddUser(st, effector, code, username, status).0)
  {
    if AddUser(st, effector, code, username, status).1.Ok? {
      HasMemberRow(st, code, effector);
      NoMemberRow(st.members, code, username);
      WithMember(st, code, username, status);
    }
  }

  lemma UsernamesWithout(members: seq<MemberRow>, code: int, username: string)
    requires username in Usernames(members, code)
    ensures var left := Where(members, Not(IsMember(code, username)));
            && |Usernames(left, code)| == |Usernames(members, code)| - 1
            && forall c | c != code :: Usernames(left, c) == Usernames(members, c)
  {
    var left := Where(members, Not(IsMember(code, username)));
    forall m | m in members && (m.groupCode != code || m.username != username) ensures m in left {
      assert Not(IsMember(code, username))(m);
    }
    assert Usernames(left, code) == Usernames(members, code) - {username};
  }

  lemma WithoutMember(st: Store, code: int, username: string)
    requires Inv(st) && Where(st.groups, HasCode(code)) != []
    requires username in Usernames(st.members, code) && MemberRow(code, username, "admin") !in st.members
    ensures Inv(WithoutUser(st, code, username))
  {
    var n := FirstGroup(st.groups, code).numberOfUsers;
    var members := Where(st.members, Not(IsMember(code, username)));
    WhereUnique(st.members, Not(IsMember(code, username)), MemberKey);
    UsernamesWithout(st.members, code, username);
    assert n == |Usernames(st.members, code)| <= CAPACITY
        && (forall g | g in st.groups && g.code == code :: MemberRow(code, g.admin, "admin") in members) by {
      CounterRead(st, code);
      var g := FirstGroup(st.groups, code);
      assert GoodGroup(st.lastCode, st.members, g);
      assert Not(IsMember(code, username))(MemberRow(code, g.admin, "admin"));
    }
    assert forall m | m in st.members :: Refers(st.groups, m.groupCode);
    assert forall m | m in st.members && m.groupCode != code :: Not(IsMember(code, username))(m) && m in members;
    CounterAgrees(st, code, n - 1, members);
  }

  lemma ExpelKeeps(st: Store, effector: string, code: int, username: string)
    requires Inv(st)
    ensures Inv(RemoveUser(st, effector, code, username).0)
  {
    if MayManage(st, effector, code, username).Ok? {
      TargetIsNoAdmin(st, effector, code, username);
      HasMemberRow(st, code, username);
      WithoutMember(st, code, username);
    }
  }

  /** Who can be removed, or given another status, is not an admin. */
  lemma TargetIsNoAdmin(st: Store, effector: string, code: int, username: string)
    requires Unique(st.members, MemberKey) && MayManage(st, effector, code, username).Ok?
    ensures MemberRow(code, username, "admin") !in st.members
  {
    var row := Where(st.members, IsMember(code, username))[0];
    assert row in Where(st.members, IsMember(code, username));
    if MemberRow(code, username, "admin") in st.members {
      OnlyRow(st.members, row, MemberRow(code, username, "admin"), MemberKey);
    }
  }

  lemma PromoteKeeps(st: Store, effector: string, code: int, username: string, status: string)
    requires Inv(st)
    ensures Inv(SetUserStatus(st, effector, code, username, status).0)
  {
    var st' := SetUserStatus(st, effector, code, username, status).0;
    if st' != st {
      ChangeUnique(st.members, IsMember(code, username), SetStatus(status), MemberKey);
      ChangeRows(st.members, IsMember(code, username), SetStatus(status));
      TargetIsNoAdmin(st, effector, code, username);
      forall g | g in st.groups ensures GoodGroup(st.lastCode, st'.members, g) {
        assert GoodGroup(st.lastCode, st.members, g);
        SameUsernames(st.members, code, username, status, g.code);
        var creator := MemberRow(g.code, g.admin, "admin");
        assert (if IsMember(code, username)(creator) then SetStatus(status)(creator) else creator) in st'.members;
      }
    }
  }

  lemma SameUsernames(members: seq<MemberRow>, code: int, username: string, status: string, c: int)
    ensures Usernames(Change(members, IsMember(code, username), SetStatus(status)), c) == Usernames(members, c)
  {
    ChangeRows(members, IsMember(code, username), SetStatus(status));
    var changed := Change(members, IsMember(code, username), SetStatus(status));
    forall u | u in Usernames(members, c) ensures u in Usernames(changed, c) {
      var m :| m in members && m.groupCode == c && m.username == u;
      assert (if IsMember(code, username)(m) then SetStatus(status)(m) else m) in changed;
    }
  }

  /** Only the list changed, and it kept its key and its references. */
  lemma ListsKeep(st: Store, lists: seq<ItemRow>)
    requires Inv(st) && Unique(lists, ItemKey)
    requires forall i | i in lists :: Refers(st.groups, i.groupCode)
    ensures Inv(st.(lists := lists))
  {
  }

  lemma PutKeeps(st: Store, effector: string, code: int, name: string, quantity: string, remarks: string)
    requires Inv(st)
    ensures Inv(AddItem(st, effector, code, name, quantity, remarks).0)
  {
    var st' := AddItem(st, effector, code, name, quantity, remarks).0;
    if st' != st {
      HasMemberRow(st, code, effector);
      if HasItem(st.lists, code, name) {
        var q := AddedText(ToString(FirstItem(st.lists, code, name).quantity), quantity).value;
        ChangeUnique(st.lists, IsItem(code, name), SetQuantity(q), ItemKey);
        ChangeRows(st.lists, IsItem(code, name), SetQuantity(q));
      } else {
        assert forall i | i in st.lists && IsItem(code, name)(i) :: i in Where(st.lists, IsItem(code, name));
        AppendUnique(st.lists, ItemRow(code, name, SqlInteger(quantity).value, remarks), ItemKey);
      }
      ListsKeep(st, st'.lists);
    }
  }

  lemma TakeKeeps(st: Store, effector: string, code: int, name: string)
    requires Inv(st)
    ensures Inv(RemoveItem(st, effector, code, name).0)
  {
    var st' := RemoveItem(st, effector, code, name).0;
    if st' != st {
      WhereUnique(st.lists, Not(IsItem(code, name)), ItemKey);
      ListsKeep(st, st'.lists);
    }
  }

  /** A rename keeps the primary key: to a free name it moves one row, to a taken one it does nothing. */
  lemma RenameKeepsKey(lists: seq<ItemRow>, code: int, key: string, name: string, q: int, remarks: string)
    requires Unique(lists, ItemKey)
    ensures Unique(RenameItem(lists, code, key, name, q, remarks), ItemKey)
    ensures forall r | r in RenameItem(lists, code, key, name, q, remarks) ::
              exists i :: i in lists && r.groupCode == i.groupCode
  {
    var lists' := RenameItem(lists, code, key, name, q, remarks);
    ChangeRows(lists, IsItem(code, key), SetItem(name, q, remarks));
    if lists' != lists {
      forall i, j | 0 <= i < j < |lists'| ensures ItemKey(lists'[i]) != ItemKey(lists'[j]) {
        RenamedPair(lists, code, key, name, lists[i], lists[j]);
      }
    }
  }

  /** When a row is renamed, to its own name or to one no row has, rows with different keys keep them different. */
  lemma RenamedPair(lists: seq<ItemRow>, code: int, key: string, name: string, a: ItemRow, b: ItemRow)
    requires a in lists && b in lists && ItemKey(a) != ItemKey(b)
    requires name == key || !HasItem(lists, code, key) || !HasItem(lists, code, name)
    ensures var rename := (r: ItemRow) => if IsItem(code, key)(r) then (code, name) else ItemKey(r);
            rename(a) != rename(b)
  {
    assert IsItem(code, name)(a) ==> a in Where(lists, IsItem(code, name));
    assert IsItem(code, name)(b) ==> b in Where(lists, IsItem(code, name));
    assert IsItem(code, key)(a) ==> a in Where(lists, IsItem(code, key));
    assert IsItem(code, key)(b) ==> b in Where(lists, IsItem(code, key));
  }

  lemma EditKeeps(st: Store, effector: string, code: int, key: string,
                  name: string, quantity: string, remarks: string)
    requires Inv(st)
    ensures Inv(UpdateItem(st, effector, code, key, name, quantity, remarks).0)
  {
    var st' := UpdateItem(st, effector, code, key, name, quantity, remarks).0;
    if st' != st {
      RenameKeepsKey(st.lists, code, key, name, Stoi(quantity).value, remarks);
      ListsKeep(st, st'.lists);
    }
  }

  /** Unique keys, references between the tables, counters and creators survive every operation. */
  lemma ApplyKeeps(st: Store, op: Op)
    requires Inv(st)
    ensures Inv(Apply(st, op).0)
  {
    match op
    case Create(name, admin, date) => CreateKeeps(st, name, admin, date);
    case Remove(effector, code) => RemoveKeeps(st, effector, code);
    case Add(effector, code, username, status) => AddKeeps(st, effector, code, username, status);
    case Expel(effector, code, username) => ExpelKeeps(st, effector, code, username);
    case Promote(effector, code, username, status) => PromoteKeeps(st, effector, code, username, status);
    case Put(effector, code, item, quantity, remarks) => PutKeeps(st, effector, code, item, quantity, remarks);
    case Take(effector, code, item) => TakeKeeps(st, effector, code, item);
    case Edit(effector, code, item, newName, quantity, remarks) =>
      EditKeeps(st, effector, code, item, newName, quantity, remarks);
  }
}
