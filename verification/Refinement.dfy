/** Forward simulation: each operation on the tables does to their meaning what the map operation does. */
module Refinement {
  import opened Errors
  import opened Decimal
  import opened Tables
  import opened Store
  import opened StoreInvariant
  import opened Book

  lemma SimulateCreate(st: Store, b: Book, name: string, admin: string, date: string)
    requires Inv(st) && Represents(st, b)
    ensures Represents(CreateGroup(st, name, admin, date).0, Open(b, name, admin))
  {
    var st', b' := CreateGroup(st, name, admin, date).0, Open(b, name, admin);
    var code := st.lastCode + 1;
    assert forall g | g in st.groups :: GoodGroup(st.lastCode, st.members, g);
    assert code !in b.groups;
    assert Codes(st'.groups) == Codes(st.groups) + {code};
    forall c, u, s ensures HoldsMember(b', c, u, s) <==> MemberRow(c, u, s) in st'.members {
      assert HoldsMember(b, c, u, s) <==> MemberRow(c, u, s) in st.members;
    }
    forall c, i, q, r ensures HoldsItem(b', c, i, q, r) <==> ItemRow(c, i, q, r) in st'.lists {
      assert HoldsItem(b, c, i, q, r) <==> ItemRow(c, i, q, r) in st.lists;
    }
  }

  lemma SimulateRemove(st: Store, b: Book, effector: string, code: int)
    requires Inv(st) && Represents(st, b)
    ensures RemoveGroup(st, effector, code).1 == Close(b, effector, code).1
    ensures Represents(RemoveGroup(st, effector, code).0, Close(b, effector, code).0)
  {
    SeesMember(st, b, code, effector);
    if Belongs(b, code, effector) {
      var st', b' := RemoveGroup(st, effector, code).0, Close(b, effector, code).0;
      forall c | c in Codes(st.groups) && c != code ensures c in Codes(st'.groups) {
        var g :| g in st.groups && g.code == c;
        assert Not(HasCode(code))(g);
      }
      assert Codes(st'.groups) == Codes(st.groups) - {code};
      forall c, u, s ensures HoldsMember(b', c, u, s) <==> MemberRow(c, u, s) in st'.members {
        assert HoldsMember(b, c, u, s) <==> MemberRow(c, u, s) in st.members;
        assert Not(InGroup(code))(MemberRow(c, u, s)) <==> c != code;
      }
      forall c, i, q, r ensures HoldsItem(b', c, i, q, r) <==> ItemRow(c, i, q, r) in st'.lists {
        assert HoldsItem(b, c, i, q, r) <==> ItemRow(c, i, q, r) in st.lists;
        assert Not(InList(code))(ItemRow(c, i, q, r)) <==> c != code;
      }
    }
  }

  /** A counter update changes no meaning; a new member table changes the meaning of one group. */
  lemma MembersReplaced(st: Store, b: Book, groups: seq<GroupRow>, members: seq<MemberRow>,
                        code: int, roster: map<string, string>)
    requires Represents(st, b) && code in b.groups
    requires SameGroups(groups, b)
    requires forall c, u, s | c != code :: MemberRow(c, u, s) in members <==> MemberRow(c, u, s) in st.members
    requires forall u, s :: MemberRow(code, u, s) in members <==> u in roster && roster[u] == s
    ensures Represents(st.(groups := groups, members := members), WithMembers(b, code, roster))
  {
    var b' := WithMembers(b, code, roster);
    forall c, u, s ensures HoldsMember(b', c, u, s) <==> MemberRow(c, u, s) in members {
      assert HoldsMember(b, c, u, s) <==> MemberRow(c, u, s) in st.members;
    }
    forall c, i, q, r ensures HoldsItem(b', c, i, q, r) <==> ItemRow(c, i, q, r) in st.lists {
      assert HoldsItem(b, c, i, q, r) <==> ItemRow(c, i, q, r) in st.lists;
    }
  }

  lemma CounterIsNoMeaning(st: Store, b: Book, code: int, n: int)
    requires Inv(st) && Represents(st, b)
    ensures SameGroups(Change(st.groups, HasCode(code), SetCount(n)), b)
  {
    CounterWritten(st.groups, code, n);
    var groups := Change(st.groups, HasCode(code), SetCount(n));
    forall g' | g' in groups ensures b.groups[g'.code].name == g'.name {
      var g :| g in st.groups && g' == if g.code == code then g.(numberOfUsers := n) else g;
    }
  }

  lemma MemberJoins(st: Store, b: Book, code: int, user: string, status: string)
    requires Inv(st) && Represents(st, b) && code in b.groups && !Belongs(b, code, user)
    requires Where(st.groups, HasCode(code)) != []
    ensures Represents(WithUser(st, code, user, status),
                       WithMembers(b, code, b.groups[code].members[user := status]))
  {
    var n := FirstGroup(st.groups, code).numberOfUsers;
    CounterIsNoMeaning(st, b, code, n + 1);
    var members, roster := st.members + [MemberRow(code, user, status)], b.groups[code].members[user := status];
    forall u, s ensures MemberRow(code, u, s) in members <==> u in roster && roster[u] == s {
      assert HoldsMember(b, code, u, s) <==> MemberRow(code, u, s) in st.members;
    }
    MembersReplaced(st, b, Change(st.groups, HasCode(code), SetCount(n + 1)), members, code, roster);
  }

  lemma SimulateAdd(st: Store, b: Book, effector: string, code: int, user: string, status: string)
    requires Inv(st) && Represents(st, b)
    ensures AddUser(st, effector, code, user, status).1 == Join(b, effector, code, user, status).1
    ensures Represents(AddUser(st, effector, code, user, status).0, Join(b, effector, code, user, status).0)
  {
    SeesMember(st, b, code, effector);
    if Belongs(b, code, effector) {
      SeesMember(st, b, code, user);
      SeesCount(st, b, code);
      LevelsByName(status);
      if !Belongs(b, code, user) {
        MemberJoins(st, b, code, user, status);
      }
    }
  }

  lemma SimulateExpel(st: Store, b: Book, effector: string, code: int, user: string)
    requires Inv(st) && Represents(st, b)
    ensures RemoveUser(st, effector, code, user).1 == Leave(b, effector, code, user).1
    ensures Represents(RemoveUser(st, effector, code, user).0, Leave(b, effector, code, user).0)
  {
    SeesManaged(st, b, effector, code, user);
    if Managed(b, effector, code, user).Ok? {
      SeesCount(st, b, code);
      var n := FirstGroup(st.groups, code).numberOfUsers;
      CounterIsNoMeaning(st, b, code, n - 1);
      var members, roster := Where(st.members, Not(IsMember(code, user))), b.groups[code].members - {user};
      forall c, u, s
        ensures MemberRow(c, u, s) in members <==> MemberRow(c, u, s) in st.members && !(c == code && u == user)
      {
        assert Not(IsMember(code, user))(MemberRow(c, u, s)) <==> !(c == code && u == user);
      }
      forall u, s ensures MemberRow(code, u, s) in members <==> u in roster && roster[u] == s {
        assert HoldsMember(b, code, u, s) <==> MemberRow(code, u, s) in st.members;
      }
      MembersReplaced(st, b, Change(st.groups, HasCode(code), SetCount(n - 1)), members, code, roster);
    }
  }

  lemma StatusRows(members: seq<MemberRow>, code: int, user: string, status: string)
    requires HasMember(members, code, user)
    ensures forall c, u, s :: MemberRow(c, u, s) in Change(members, IsMember(code, user), SetStatus(status)) <==>
              if c == code && u == user then s == status else MemberRow(c, u, s) in members
  {
    ChangeRows(members, IsMember(code, user), SetStatus(status));
    var changed := Change(members, IsMember(code, user), SetStatus(status));
    var row := Where(members, IsMember(code, user))[0];
    assert row in Where(members, IsMember(code, user));
    forall c, u, s
      ensures MemberRow(c, u, s) in changed <==>
                if c == code && u == user then s == status else MemberRow(c, u, s) in members
    {
      var r := MemberRow(c, u, s);
      if r in changed {
        var q :| q in members && r == if IsMember(code, user)(q) then SetStatus(status)(q) else q;
      }
      if c == code && u == user && s == status {
        assert r == if IsMember(code, user)(row) then SetStatus(status)(row) else row;
      } else if !(c == code && u == user) && r in members {
        assert r == if IsMember(code, user)(r) then SetStatus(status)(r) else r;
      }
    }
  }

  lemma SimulatePromote(st: Store, b: Book, effector: string, code: int, user: string, status: string)
    requires Inv(st) && Represents(st, b)
    ensures SetUserStatus(st, effector, code, user, status).1 == Rank(b, effector, code, user, status).1
    ensures Represents(SetUserStatus(st, effector, code, user, status).0, Rank(b, effector, code, user, status).0)
  {
    SeesManaged(st, b, effector, code, user);
    if Managed(b, effector, code, user).Ok? {
      var members := Change(st.members, IsMember(code, user), SetStatus(status));
      var roster := b.groups[code].members[user := status];
      StatusRows(st.members, code, user, status);
      forall u, s ensures MemberRow(code, u, s) in members <==> u in roster && roster[u] == s {
        assert HoldsMember(b, code, u, s) <==> MemberRow(code, u, s) in st.members;
      }
      MembersReplaced(st, b, st.groups, members, code, roster);
    }
  }

  lemma ListsReplaced(st: Store, b: Book, lists: seq<ItemRow>, code: int, items: map<string, Item>)
    requires Represents(st, b) && code in b.groups
    requires forall c, i, q, r | c != code :: ItemRow(c, i, q, r) in lists <==> ItemRow(c, i, q, r) in st.lists
    requires forall i, q, r :: ItemRow(code, i, q, r) in lists <==> i in items && items[i] == Item(q, r)
    ensures Represents(st.(lists := lists), WithItems(b, code, items))
  {
    var b' := WithItems(b, code, items);
    forall c, u, s ensures HoldsMember(b', c, u, s) <==> MemberRow(c, u, s) in st.members {
      assert HoldsMember(b, c, u, s) <==> MemberRow(c, u, s) in st.members;
    }
    forall c, i, q, r ensures HoldsItem(b', c, i, q, r) <==> ItemRow(c, i, q, r) in lists {
      assert HoldsItem(b, c, i, q, r) <==> ItemRow(c, i, q, r) in st.lists;
    }
  }

  /** What an update of the one row (code, key) leaves in the table. */
  lemma UpdatedRows(lists: seq<ItemRow>, code: int, key: string, edit: ItemRow -> ItemRow)
    requires Unique(lists, ItemKey) && HasItem(lists, code, key)
    ensures forall r :: r in Change(lists, IsItem(code, key), edit) <==>
              r == edit(FirstItem(lists, code, key)) || (r in lists && !(r.groupCode == code && r.itemName == key))
  {
    ChangeRows(lists, IsItem(code, key), edit);
    var row := FirstItem(lists, code, key);
    assert row in Where(lists, IsItem(code, key));
    forall r
      ensures r in Change(lists, IsItem(code, key), edit) <==>
                r == edit(row) || (r in lists && !(r.groupCode == code && r.itemName == key))
    {
      if r in Change(lists, IsItem(code, key), edit) {
        var q :| q in lists && r == if IsItem(code, key)(q) then edit(q) else q;
        if IsItem(code, key)(q) {
          OnlyRow(lists, q, row, ItemKey);
        }
      }
      if r in lists && !(r.groupCode == code && r.itemName == key) {
        assert r == if IsItem(code, key)(r) then edit(r) else r;
      }
      assert edit(row) == if IsItem(code, key)(row) then edit(row) else row;
    }
  }

  lemma ItemNoted(st: Store, b: Book, code: int, item: string, quantity: int, remarks: string)
    requires Inv(st) && Represents(st, b) && code in b.groups && !Listed(b, code, item)
    ensures Represents(st.(lists := st.lists + [ItemRow(code, item, quantity, remarks)]),
                       WithItems(b, code, b.groups[code].items[item := Item(quantity, remarks)]))
  {
    var lists := st.lists + [ItemRow(code, item, quantity, remarks)];
    var items := b.groups[code].items[item := Item(quantity, remarks)];
    forall i, q, r ensures ItemRow(code, i, q, r) in lists <==> i in items && items[i] == Item(q, r) {
      assert HoldsItem(b, code, i, q, r) <==> ItemRow(code, i, q, r) in st.lists;
    }
    ListsReplaced(st, b, lists, code, items);
  }

  /** The row of one item is edited, possibly to a new free name. */
  lemma ItemEdited(st: Store, b: Book, code: int, key: string, edit: ItemRow -> ItemRow, name: string, item: Item)
    requires Inv(st) && Represents(st, b) && Listed(b, code, key)
    requires name == key || !Listed(b, code, name)
    requires HasItem(st.lists, code, key)
    requires edit(FirstItem(st.lists, code, key)) == ItemRow(code, name, item.quantity, item.remarks)
    ensures Represents(st.(lists := Change(st.lists, IsItem(code, key), edit)),
                       WithItems(b, code, (b.groups[code].items - {key})[name := item]))
  {
    UpdatedRows(st.lists, code, key, edit);
    var lists, items := Change(st.lists, IsItem(code, key), edit), (b.groups[code].items - {key})[name := item];
    forall i, q, r ensures ItemRow(code, i, q, r) in lists <==> i in items && items[i] == Item(q, r) {
      assert HoldsItem(b, code, i, q, r) <==> ItemRow(code, i, q, r) in st.lists;
    }
    ListsReplaced(st, b, lists, code, items);
  }

  /** Adding to a listed item edits its quantity only. */
  lemma ItemSummed(st: Store, b: Book, code: int, item: string, sum: int)
    requires Inv(st) && Represents(st, b) && Listed(b, code, item)
    ensures Represents(st.(lists := Change(st.lists, IsItem(code, item), SetQuantity(sum))),
                       WithItems(b, code, b.groups[code].items[item := Item(sum, b.groups[code].items[item].remarks)]))
  {
    SeesItem(st, b, code, item);
    FirstItemKey(st.lists, code, item);
    var it := Item(sum, b.groups[code].items[item].remarks);
    ItemEdited(st, b, code, item, SetQuantity(sum), item, it);
    assert (b.groups[code].items - {item})[item := it] == b.groups[code].items[item := it];
  }

  /** What addItem does to a listed item, in terms of the quantity `q` that is stored for it. */
  lemma AddToListed(st: Store, effector: string, code: int, item: string, q: int, quantity: string, remarks: string)
    requires MayWrite(st, effector, code).Ok? && HasItem(st.lists, code, item)
    requires FirstItem(st.lists, code, item).quantity == q
    ensures AddItem(st, effector, code, item, quantity, remarks) ==
            if IsInt32(q) && Stoi(quantity).Ok? then
              (st.(lists := Change(st.lists, IsItem(code, item), SetQuantity(Wrap32(q + Stoi(quantity).value)))), Ok(()))
            else (st, Err(StdException))
  {
    ReadsBack(q);
  }

  lemma SimulatePut(st: Store, b: Book, effector: string, code: int, item: string, quantity: string, remarks: string)
    requires Inv(st) && Represents(st, b)
    ensures AddItem(st, effector, code, item, quantity, remarks).1 == Note(b, effector, code, item, quantity, remarks).1
    ensures Represents(AddItem(st, effector, code, item, quantity, remarks).0,
                       Note(b, effector, code, item, quantity, remarks).0)
  {
    SeesWritten(st, b, effector, code);
    if Written(b, effector, code).Ok? {
      SeesItem(st, b, code, item);
      if Listed(b, code, item) {
        SimulateAddToListed(st, b, effector, code, item, quantity, remarks);
      } else if SqlInteger(quantity).Some? {
        ItemNoted(st, b, code, item, SqlInteger(quantity).value, remarks);
      }
    }
  }

  lemma NoteListed(b: Book, effector: string, code: int, item: string, q: int, quantity: string, remarks: string)
    requires Written(b, effector, code).Ok? && Listed(b, code, item) && b.groups[code].items[item].quantity == q
    ensures Note(b, effector, code, item, quantity, remarks) ==
            if IsInt32(q) && Stoi(quantity).Ok? then
              (WithItems(b, code, b.groups[code].items[item := Item(Wrap32(q + Stoi(quantity).value),
                                                                    b.groups[code].items[item].remarks)]), Ok(()))
            else (b, Err(StdException))
  {
  }

  lemma SimulateAddToListed(st: Store, b: Book, effector: string, code: int, item: string,
                            quantity: string, remarks: string)
    requires Inv(st) && Represents(st, b) && Listed(b, code, item)
    requires MayWrite(st, effector, code).Ok? && Written(b, effector, code).Ok?
    ensures AddItem(st, effector, code, item, quantity, remarks).1 == Note(b, effector, code, item, quantity, remarks).1
    ensures Represents(AddItem(st, effector, code, item, quantity, remarks).0,
                       Note(b, effector, code, item, quantity, remarks).0)
  {
    SeesItem(st, b, code, item);
    var q := b.groups[code].items[item].quantity;
    AddToListed(st, effector, code, item, q, quantity, remarks);
    NoteListed(b, effector, code, item, q, quantity, remarks);
    if IsInt32(q) && Stoi(quantity).Ok? {
      ItemSummed(st, b, code, item, Wrap32(q + Stoi(quantity).value));
    }
  }

  lemma FirstItemKey(lists: seq<ItemRow>, code: int, item: string)
    requires HasItem(lists, code, item)
    ensures FirstItem(lists, code, item) in lists
    ensures FirstItem(lists, code, item).groupCode == code && FirstItem(lists, code, item).itemName == item
  {
    assert FirstItem(lists, code, item) in Where(lists, IsItem(code, item));
  }

  lemma SimulateTake(st: Store, b: Book, effector: string, code: int, item: string)
    requires Inv(st) && Represents(st, b)
    ensures RemoveItem(st, effector, code, item).1 == Strike(b, effector, code, item).1
    ensures Represents(RemoveItem(st, effector, code, item).0, Strike(b, effector, code, item).0)
  {
    SeesWritten(st, b, effector, code);
    if Written(b, effector, code).Ok? {
      SeesItem(st, b, code, item);
      if Listed(b, code, item) {
        var lists, items := Where(st.lists, Not(IsItem(code, item))), b.groups[code].items - {item};
        forall r | r in st.lists ensures r in lists <==> !(r.groupCode == code && r.itemName == item) {
          assert Not(IsItem(code, item))(r) <==> !(r.groupCode == code && r.itemName == item);
        }
        forall i, q, r ensures ItemRow(code, i, q, r) in lists <==> i in items && items[i] == Item(q, r) {
          assert HoldsItem(b, code, i, q, r) <==> ItemRow(code, i, q, r) in st.lists;
        }
        ListsReplaced(st, b, lists, code, items);
      }
    }
  }

  lemma SimulateEdit(st: Store, b: Book, effector: string, code: int, key: string,
                     name: string, quantity: string, remarks: string)
    requires Inv(st) && Represents(st, b)
    ensures UpdateItem(st, effector, code, key, name, quantity, remarks).1
         == Revise(b, effector, code, key, name, quantity, remarks).1
    ensures Represents(UpdateItem(st, effector, code, key, name, quantity, remarks).0,
                       Revise(b, effector, code, key, name, quantity, remarks).0)
  {
    SeesWritten(st, b, effector, code);
    SeesItem(st, b, code, key);
    if Written(b, effector, code).Ok? && Listed(b, code, key) {
      if AllDigits(quantity) {
        StoiOfDigits(quantity);
        ItemRenamed(st, b, code, key, name, Value(quantity), remarks);
      }
    }
  }

  /** A rename in the table is a replacement in the map, or nothing when the new name is taken. */
  lemma ItemRenamed(st: Store, b: Book, code: int, key: string, name: string, q: int, remarks: string)
    requires Inv(st) && Represents(st, b) && Listed(b, code, key)
    ensures Represents(st.(lists := RenameItem(st.lists, code, key, name, q, remarks)),
                       if name != key && name in b.groups[code].items then b
                       else WithItems(b, code, (b.groups[code].items - {key})[name := Item(q, remarks)]))
  {
    SeesItem(st, b, code, key);
    SeesItem(st, b, code, name);
    if name == key || !Listed(b, code, name) {
      FirstItemKey(st.lists, code, key);
      ItemEdited(st, b, code, key, SetItem(name, q, remarks), name, Item(q, remarks));
    } else {
      assert st.(lists := RenameItem(st.lists, code, key, name, q, remarks)) == st;
    }
  }

  /**
   The refinement: one operation on the tables is one operation on their meaning, with the same result,
   and an operation that throws leaves all tables as they were.
   */
  lemma Simulate(st: Store, b: Book, op: Op)
    requires Inv(st) && Represents(st, b)
    ensures Apply(st, op).1.Err? ==> Apply(st, op).0 == st
    ensures Apply(st, op).1 == ApplyBook(b, op).1
    ensures Represents(Apply(st, op).0, ApplyBook(b, op).0)
  {
    match op
    case Create(name, admin, date) => SimulateCreate(st, b, name, admin, date);
    case Remove(effector, code) => SimulateRemove(st, b, effector, code);
    case Add(effector, code, username, status) => SimulateAdd(st, b, effector, code, username, status);
    case Expel(effector, code, username) => SimulateExpel(st, b, effector, code, username);
    case Promote(effector, code, username, status) => SimulatePromote(st, b, effector, code, username, status);
    case Put(effector, code, item, quantity, remarks) => SimulatePut(st, b, effector, code, item, quantity, remarks);
    case Take(effector, code, item) => SimulateTake(st, b, effector, code, item);
    case Edit(effector, code, item, newName, quantity, remarks) =>
      SimulateEdit(st, b, effector, code, item, newName, quantity, remarks);
  }
}
