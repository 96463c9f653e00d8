/**
 What the three tables mean: a map from group code to a named group with its members and items.
 Every operation on the tables is simulated by a simple operation on this map.
 */
module Book {
  import opened Errors
  import opened Decimal
  import opened Permissions
  import opened Tables
  import opened Store
  import opened StoreInvariant

  datatype Item = Item(quantity: int, remarks: string)
  datatype Group = Group(name: string, members: map<string, string>, items: map<string, Item>)
  datatype Book = Book(last: nat, groups: map<int, Group>)

  const EMPTY_BOOK := Book(0, map[])

  predicate Belongs(b: Book, code: int, user: string) {
    code in b.groups && user in b.groups[code].members
  }

  // The statuses that the two kinds of requests are open to, by name.
  const MANAGERS: seq<string> := ["admin", "fc"]
  const WRITERS: seq<string> := ["admin", "fc", "rw"]

  predicate Can(b: Book, code: int, user: string, statuses: seq<string>) {
    Belongs(b, code, user) && b.groups[code].members[user] in statuses
  }

  predicate Listed(b: Book, code: int, item: string) {
    code in b.groups && item in b.groups[code].items
  }

  function WithMembers(b: Book, code: int, members: map<string, string>): Book
    requires code in b.groups
  {
    b.(groups := b.groups[code := b.groups[code].(members := members)])
  }

  function WithItems(b: Book, code: int, items: map<string, Item>): Book
    requires code in b.groups
  {
    b.(groups := b.groups[code := b.groups[code].(items := items)])
  }

  /** A free code, one member: the creator. */
  function Open(b: Book, name: string, admin: string): Book {
    Book(b.last + 1, b.groups[b.last + 1 := Group(name, map[admin := "admin"], map[])])
  }

  function Close(b: Book, effector: string, code: int): (Book, Result<()>) {
    if Belongs(b, code, effector) then (b.(groups := b.groups - {code}), Ok(()))
    else (b, Err(NoSuchUserInTheGroup))
  }

  /** A group never grows past its capacity: full means at least that many members. */
  function Join(b: Book, effector: string, code: int, user: string, status: string): (Book, Result<()>) {
    if !Belongs(b, code, effector) then (b, Err(NoSuchUserInTheGroup))
    else if |b.groups[code].members| >= CAPACITY then (b, Err(FullGroup))
    else if user in b.groups[code].members || status !in ["admin", "fc", "rw", "r"] then (b, Err(SystemException))
    else (WithMembers(b, code, b.groups[code].members[user := status]), Ok(()))
  }

  /** Members with full control manage those who are not admins. */
  function Managed(b: Book, effector: string, code: int, user: string): Result<()> {
    if !Belongs(b, code, effector) || !Belongs(b, code, user) then Err(NoSuchUserInTheGroup)
    else if !Can(b, code, effector, MANAGERS) || b.groups[code].members[user] == "admin" then
      Err(PermissionIsDenied)
    else Ok(())
  }

  function Leave(b: Book, effector: string, code: int, user: string): (Book, Result<()>) {
    var may := Managed(b, effector, code, user);
    if may.Err? then (b, may) else (WithMembers(b, code, b.groups[code].members - {user}), may)
  }

  function Rank(b: Book, effector: string, code: int, user: string, status: string): (Book, Result<()>) {
    var may := Managed(b, effector, code, user);
    if may.Err? then (b, may) else (WithMembers(b, code, b.groups[code].members[user := status]), may)
  }

  function Written(b: Book, effector: string, code: int): Result<()> {
    if !Belongs(b, code, effector) then Err(NoSuchUserInTheGroup)
    else if !Can(b, code, effector, WRITERS) then Err(PermissionIsDenied)
    else Ok(())
  }

  /** A new item is stored as given; a listed one gets the sum and keeps its remarks. */
  function Note(b: Book, effector: string, code: int, item: string, quantity: string, remarks: string)
    : (Book, Result<()>)
  {
    var may := Written(b, effector, code);
    if may.Err? then (b, may)
    else
      var items := b.groups[code].items;
      if item !in items then
        if SqlInteger(quantity).None? then (b, may)
        else (WithItems(b, code, items[item := Item(SqlInteger(quantity).value, remarks)]), may)
      else
        var inc := Stoi(quantity);
        if !IsInt32(items[item].quantity) || inc.Err? then (b, Err(StdException))
        else (WithItems(b, code, items[item := Item(Wrap32(items[item].quantity + inc.value), items[item].remarks)]), may)
  }

  function Strike(b: Book, effector: string, code: int, item: string): (Book, Result<()>) {
    var may := Written(b, effector, code);
    if may.Err? then (b, may)
    else if !Listed(b, code, item) then (b, Err(SystemException))
    else (WithItems(b, code, b.groups[code].items - {item}), may)
  }

  /** An item is replaced; when the new name is another item's, nothing happens and nothing is reported. */
  function Revise(b: Book, effector: string, code: int, key: string, name: string, quantity: string, remarks: string)
    : (Book, Result<()>)
  {
    var may := Written(b, effector, code);
    if may.Err? then (b, may)
    else if !Listed(b, code, key) then (b, Err(SystemException))
    else
      var items := b.groups[code].items;
      if key == name && quantity == ToString(items[key].quantity) && remarks == items[key].remarks then
        (b, Err(SystemException))
      else if !AllDigits(quantity) then (b, Err(SystemException))
      else if quantity == "" || Value(quantity) > INT_MAX then (b, Err(StdException))
      else if Value(quantity) == 0 then (b, Err(SystemException))
      else if name != key && name in items then (b, may)
      else (WithItems(b, code, (items - {key})[name := Item(Value(quantity), remarks)]), may)
  }

  function ApplyBook(b: Book, op: Op): (Book, Result<()>) {
    match op
    case Create(name, admin, date) => (Open(b, name, admin), Ok(()))
    case Remove(effector, code) => Close(b, effector, code)
    case Add(effector, code, username, status) => Join(b, effector, code, username, status)
    case Expel(effector, code, username) => Leave(b, effector, code, username)
    case Promote(effector, code, username, status) => Rank(b, effector, code, username, status)
    case Put(effector, code, item, quantity, remarks) => Note(b, effector, code, item, quantity, remarks)
    case Take(effector, code, item) => Strike(b, effector, code, item)
    case Edit(effector, code, item, newName, quantity, remarks) =>
      Revise(b, effector, code, item, newName, quantity, remarks)
  }

  // ---- the abstraction ----

  predicate HoldsMember(b: Book, code: int, user: string, status: string) {
    Belongs(b, code, user) && b.groups[code].members[user] == status
  }

  predicate HoldsItem(b: Book, code: int, item: string, quantity: int, remarks: string) {
    Listed(b, code, item) && b.groups[code].items[item] == Item(quantity, remarks)
  }

  ghost predicate SameMembers(members: seq<MemberRow>, b: Book) {
    forall c, u, s :: HoldsMember(b, c, u, s) <==> MemberRow(c, u, s) in members
  }

  ghost predicate SameItems(lists: seq<ItemRow>, b: Book) {
    forall c, i, q, r :: HoldsItem(b, c, i, q, r) <==> ItemRow(c, i, q, r) in lists
  }

  ghost predicate SameGroups(groups: seq<GroupRow>, b: Book) {
    && b.groups.Keys == Codes(groups)
    && forall g | g in groups :: b.groups[g.code].name == g.name
  }

  /** The tables hold, row by row, what the map says. */
  ghost predicate Represents(st: Store, b: Book) {
    && b.last == st.lastCode
    && SameGroups(st.groups, b)
    && SameMembers(st.members, b)
    && SameItems(st.lists, b)
  }

  /** A state of the tables has one meaning. */
  lemma MeaningIsUnique(st: Store, b: Book, b': Book)
    requires Represents(st, b) && Represents(st, b')
    ensures b == b'
  {
    forall c | c in b.groups ensures b.groups[c] == b'.groups[c] {
      var g :| g in st.groups && g.code == c;
      forall u | u in b.groups[c].members
        ensures u in b'.groups[c].members && b'.groups[c].members[u] == b.groups[c].members[u]
      {
        assert HoldsMember(b, c, u, b.groups[c].members[u]);
        assert HoldsMember(b', c, u, b.groups[c].members[u]);
      }
      forall u | u in b'.groups[c].members ensures u in b.groups[c].members {
        assert HoldsMember(b', c, u, b'.groups[c].members[u]);
        assert HoldsMember(b, c, u, b'.groups[c].members[u]);
      }
      assert b.groups[c].members == b'.groups[c].members;
      forall i | i in b.groups[c].items
        ensures i in b'.groups[c].items && b'.groups[c].items[i] == b.groups[c].items[i]
      {
        var item := b.groups[c].items[i];
        assert HoldsItem(b, c, i, item.quantity, item.remarks);
        assert HoldsItem(b', c, i, item.quantity, item.remarks);
      }
      forall i | i in b'.groups[c].items ensures i in b.groups[c].items {
        var item := b'.groups[c].items[i];
        assert HoldsItem(b', c, i, item.quantity, item.remarks);
        assert HoldsItem(b, c, i, item.quantity, item.remarks);
      }
      assert b.groups[c].items == b'.groups[c].items;
    }
    assert b.groups == b'.groups;
  }

  // ---- what the queries see ----

  lemma SeesMember(st: Store, b: Book, code: int, user: string)
    requires Inv(st) && Represents(st, b)
    ensures HasMember(st.members, code, user) <==> Belongs(b, code, user)
    ensures Belongs(b, code, user) ==> StatusOf(st.members, code, user) == b.groups[code].members[user]
  {
    if HasMember(st.members, code, user) {
      var row := Where(st.members, IsMember(code, user))[0];
      assert row in Where(st.members, IsMember(code, user));
      assert HoldsMember(b, code, user, row.status);
    }
    if Belongs(b, code, user) {
      var row := MemberRow(code, user, b.groups[code].members[user]);
      assert HoldsMember(b, code, user, row.status);
      assert row in Where(st.members, IsMember(code, user));
    }
  }

  lemma SeesItem(st: Store, b: Book, code: int, item: string)
    requires Inv(st) && Represents(st, b)
    ensures HasItem(st.lists, code, item) <==> Listed(b, code, item)
    ensures Listed(b, code, item) ==>
              var row := FirstItem(st.lists, code, item);
              row.itemName == item && Item(row.quantity, row.remarks) == b.groups[code].items[item]
  {
    if HasItem(st.lists, code, item) {
      var row := Where(st.lists, IsItem(code, item))[0];
      assert row in Where(st.lists, IsItem(code, item));
      assert HoldsItem(b, code, item, row.quantity, row.remarks);
    }
    if Listed(b, code, item) {
      var it := b.groups[code].items[item];
      assert HoldsItem(b, code, item, it.quantity, it.remarks);
      assert ItemRow(code, item, it.quantity, it.remarks) in Where(st.lists, IsItem(code, item));
    }
  }

  lemma SeesCount(st: Store, b: Book, code: int)
    requires Inv(st) && Represents(st, b) && code in b.groups
    ensures Where(st.groups, HasCode(code)) != []
    ensures FirstGroup(st.groups, code).numberOfUsers == |b.groups[code].members| <= CAPACITY
  {
    var g :| g in st.groups && g.code == code;
    assert g in Where(st.groups, HasCode(code));
    CounterRead(st, code);
    assert GoodGroup(st.lastCode, st.members, g);
    SeesMembersOf(st, b, code);
  }

  /** The members of a group in the map are the user names of its rows. */
  lemma SeesMembersOf(st: Store, b: Book, code: int)
    requires Represents(st, b) && code in b.groups
    ensures b.groups[code].members.Keys == Usernames(st.members, code)
  {
    forall u | u in Usernames(st.members, code) ensures u in b.groups[code].members {
      var m :| m in st.members && m.groupCode == code && m.username == u;
      assert HoldsMember(b, code, u, m.status);
    }
    forall u | u in b.groups[code].members ensures u in Usernames(st.members, code) {
      assert HoldsMember(b, code, u, b.groups[code].members[u]);
    }
  }

  /** The levels of the program, by the names of the statuses. */
  lemma LevelsByName(status: string)
    ensures GetPermission(status).level == ADMIN.level <==> status == "admin"
    ensures GetPermission(status).level == NON.level <==> status !in ["admin", "fc", "rw", "r"]
    ensures IsAuthorized(GetPermission(status), ADMIN) <==> status == "admin"
    ensures IsAuthorized(GetPermission(status), FULL_CONTROL) <==> status in MANAGERS
    ensures IsAuthorized(GetPermission(status), READ_WRITE) <==> status in WRITERS
  {
  }

  lemma SeesManaged(st: Store, b: Book, effector: string, code: int, user: string)
    requires Inv(st) && Represents(st, b)
    ensures MayManage(st, effector, code, user) == Managed(b, effector, code, user)
  {
    SeesMember(st, b, code, effector);
    SeesMember(st, b, code, user);
    if Belongs(b, code, user) {
      LevelsByName(b.groups[code].members[user]);
    }
    if Belongs(b, code, effector) {
      LevelsByName(b.groups[code].members[effector]);
    }
  }

  lemma SeesWritten(st: Store, b: Book, effector: string, code: int)
    requires Inv(st) && Represents(st, b)
    ensures MayWrite(st, effector, code) == Written(b, effector, code)
  {
    SeesMember(st, b, code, effector);
    if Belongs(b, code, effector) {
      LevelsByName(b.groups[code].members[effector]);
    }
  }
}
