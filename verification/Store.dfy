/**
 The three tables of the groups and what each operation of PublicGroup and PublicLists does to them:
 the tables afterwards, and the result or the exception. The classes with the statements themselves are in
 PublicGroup.dfy and PublicLists.dfy.
 */
module Store {
  import opened Errors
  import opened Decimal
  import opened Permissions
  import opened Tables

  datatype Store = Store(groups: seq<GroupRow>, lastCode: nat, members: seq<MemberRow>, lists: seq<ItemRow>)

  const EMPTY := Store([], 0, [], [])

  /** The limit of the capacity rule. */
  const CAPACITY := 4

  function Codes(groups: seq<GroupRow>): set<int> {
    set g | g in groups :: g.code
  }

  /** A reference to a group: some group row has this code. */
  ghost predicate Refers(groups: seq<GroupRow>, code: int) {
    code in Codes(groups)
  }

  function Usernames(members: seq<MemberRow>, code: int): set<string> {
    set m | m in members && m.groupCode == code :: m.username
  }

  /** A group row: its code was drawn, its counter is its number of members, at most four, and its creator is an admin. */
  ghost predicate GoodGroup(lastCode: nat, members: seq<MemberRow>, g: GroupRow) {
    && 1 <= g.code <= lastCode
    && g.numberOfUsers == |Usernames(members, g.code)| <= CAPACITY
    && MemberRow(g.code, g.admin, "admin") in members
  }

  /** What every operation keeps: primary keys, references between the tables, and good group rows. */
  ghost predicate Inv(st: Store) {
    && Unique(st.groups, GroupKey)
    && Unique(st.members, MemberKey)
    && Unique(st.lists, ItemKey)
    && (forall m {:trigger Refers(st.groups, m.groupCode)} | m in st.members :: Refers(st.groups, m.groupCode))
    && (forall i {:trigger Refers(st.groups, i.groupCode)} | i in st.lists :: Refers(st.groups, i.groupCode))
    && (forall g {:trigger GoodGroup(st.lastCode, st.members, g)} | g in st.groups ::
          GoodGroup(st.lastCode, st.members, g))
  }

  predicate HasMember(members: seq<MemberRow>, code: int, username: string) {
    Where(members, IsMember(code, username)) != []
  }

  predicate HasItem(lists: seq<ItemRow>, code: int, name: string) {
    Where(lists, IsItem(code, name)) != []
  }

  // ---- unguarded first-row accesses: in bounds in every state that satisfies the invariant ----

  lemma MemberHasGroup(st: Store, code: int)
    requires Inv(st) && exists m :: m in st.members && m.groupCode == code
    ensures Where(st.groups, HasCode(code)) != []
  {
    assert Refers(st.groups, code);
    var g :| g in st.groups && g.code == code;
    assert g in Where(st.groups, HasCode(code));
  }

  lemma HasMemberRow(st: Store, code: int, username: string)
    requires HasMember(st.members, code, username)
    ensures exists m :: m in st.members && m.groupCode == code && m.username == username
    ensures Inv(st) ==> Where(st.groups, HasCode(code)) != []
  {
    var m := Where(st.members, IsMember(code, username))[0];
    assert m in Where(st.members, IsMember(code, username));
    if Inv(st) {
      MemberHasGroup(st, code);
    }
  }

  function StatusOf(members: seq<MemberRow>, code: int, username: string): string
    requires HasMember(members, code, username)
  {
    Where(members, IsMember(code, username))[0].status
  }

  function PermissionOf(members: seq<MemberRow>, code: int, username: string): Permission
    requires HasMember(members, code, username)
  {
    GetPermission(StatusOf(members, code, username))
  }

  function FirstGroup(groups: seq<GroupRow>, code: int): GroupRow
    requires Where(groups, HasCode(code)) != []
  {
    Where(groups, HasCode(code))[0]
  }

  function NameOf(groups: seq<GroupRow>, code: int): string {
    if Where(groups, HasCode(code)) == [] then "" else FirstGroup(groups, code).name
  }

  function FirstItem(lists: seq<ItemRow>, code: int, name: string): ItemRow
    requires HasItem(lists, code, name)
  {
    Where(lists, IsItem(code, name))[0]
  }

  // ---- PublicGroup ----

  ghost function CreateGroup(st: Store, name: string, admin: string, date: string): (Store, Result<int>) {
    var code := st.lastCode + 1;
    (Store(st.groups + [GroupRow(code, name, admin, date, 1)], code,
           st.members + [MemberRow(code, admin, ADMIN.text)], st.lists),
     Ok(code))
  }

  /** Any member may remove the group: the exception for the others is built but not thrown. */
  ghost function RemoveGroup(st: Store, effector: string, code: int): (Store, Result<()>) {
    if !HasMember(st.members, code, effector) then (st, Err(NoSuchUserInTheGroup))
    else
      (Store(Where(st.groups, Not(HasCode(code))), st.lastCode,
             Where(st.members, Not(InGroup(code))), Where(st.lists, Not(InList(code)))),
       Ok(()))
  }

  /** A new membership table, and the counter of one group rewritten. */
  ghost function Recount(st: Store, code: int, n: int, members: seq<MemberRow>): Store {
    st.(groups := Change(st.groups, HasCode(code), SetCount(n)), members := members)
  }

  ghost function WithUser(st: Store, code: int, username: string, status: string): Store
    requires Where(st.groups, HasCode(code)) != []
  {
    Recount(st, code, FirstGroup(st.groups, code).numberOfUsers + 1, st.members + [MemberRow(code, username, status)])
  }

  /** Any member may add a user: the exception for the others is built but not thrown. */
  ghost function AddUser(st: Store, effector: string, code: int, username: string, status: string): (Store, Result<()>)
    requires Inv(st)
  {
    if !HasMember(st.members, code, effector) then (st, Err(NoSuchUserInTheGroup))
    else
      HasMemberRow(st, code, effector);
      var n := FirstGroup(st.groups, code).numberOfUsers;
      if n == CAPACITY then (st, Err(FullGroup))
      else if HasMember(st.members, code, username) then (st, Err(SystemException))
      else if GetPermission(status).level == NON.level then (st, Err(SystemException))
      else (WithUser(st, code, username, status), Ok(()))
  }

  /** What removeUser and setUserStatus check before they touch a table. */
  ghost function MayManage(st: Store, effector: string, code: int, username: string): Result<()> {
    if !HasMember(st.members, code, effector) then Err(NoSuchUserInTheGroup)
    else if !HasMember(st.members, code, username) then Err(NoSuchUserInTheGroup)
    else if !IsAuthorized(PermissionOf(st.members, code, effector), FULL_CONTROL) then Err(PermissionIsDenied)
    else if PermissionOf(st.members, code, username).level == ADMIN.level then Err(PermissionIsDenied)
    else Ok(())
  }

  ghost function WithoutUser(st: Store, code: int, username: string): Store
    requires Where(st.groups, HasCode(code)) != []
  {
    Recount(st, code, FirstGroup(st.groups, code).numberOfUsers - 1, Where(st.members, Not(IsMember(code, username))))
  }

  ghost function RemoveUser(st: Store, effector: string, code: int, username: string): (Store, Result<()>)
    requires Inv(st)
  {
    var may := MayManage(st, effector, code, username);
    if may.Err? then (st, may)
    else
      HasMemberRow(st, code, effector);
      (WithoutUser(st, code, username), Ok(()))
  }

  ghost function SetUserStatus(st: Store, effector: string, code: int, username: string, status: string)
    : (Store, Result<()>)
  {
    var may := MayManage(st, effector, code, username);
    if may.Err? then (st, may)
    else (st.(members := Change(st.members, IsMember(code, username), SetStatus(status))), Ok(()))
  }

  // ---- PublicLists ----

  ghost function MayWrite(st: Store, effector: string, code: int): Result<()> {
    if !HasMember(st.members, code, effector) then Err(NoSuchUserInTheGroup)
    else if !IsAuthorized(PermissionOf(st.members, code, effector), READ_WRITE) then Err(PermissionIsDenied)
    else Ok(())
  }

  /** The sum of two quantity texts in the program's `int` arithmetic. */
  function AddedText(quantity: string, inc: string): Result<int> {
    var q := Stoi(quantity);
    if q.Err? then Err(q.error)
    else
      var i := Stoi(inc);
      if i.Err? then Err(i.error) else Ok(Wrap32(q.value + i.value))
  }

  /** A quantity text that is no integer literal makes the INSERT fail, which leaves the table unchanged. */
  ghost function AddItem(st: Store, effector: string, code: int, name: string, quantity: string, remarks: string)
    : (Store, Result<()>)
  {
    var may := MayWrite(st, effector, code);
    if may.Err? then (st, may)
    else if HasItem(st.lists, code, name) then
      var sum := AddedText(ToString(FirstItem(st.lists, code, name).quantity), quantity);
      if sum.Err? then (st, Err(sum.error))
      else (st.(lists := Change(st.lists, IsItem(code, name), SetQuantity(sum.value))), Ok(()))
    else
      match SqlInteger(quantity)
      case None => (st, Ok(()))
      case Some(q) => (st.(lists := st.lists + [ItemRow(code, name, q, remarks)]), Ok(()))
  }

  ghost function RemoveItem(st: Store, effector: string, code: int, name: string): (Store, Result<()>) {
    var may := MayWrite(st, effector, code);
    if may.Err? then (st, may)
    else if !HasItem(st.lists, code, name) then (st, Err(SystemException))
    else (st.(lists := Where(st.lists, Not(IsItem(code, name)))), Ok(()))
  }

  ghost function UpdateItem(st: Store, effector: string, code: int, key: string,
                            name: string, quantity: string, remarks: string): (Store, Result<()>)
  {
    var may := MayWrite(st, effector, code);
    if may.Err? then (st, may)
    else if !HasItem(st.lists, code, key) then (st, Err(SystemException))
    else
      var last := FirstItem(st.lists, code, key);
      if last.itemName == name && ToString(last.quantity) == quantity && last.remarks == remarks then
        (st, Err(SystemException))
      else if !AllDigits(quantity) then (st, Err(SystemException))
      else if Stoi(quantity).Err? then (st, Err(StdException))
      else if Stoi(quantity).value <= 0 then (st, Err(SystemException))
      else (st.(lists := RenameItem(st.lists, code, key, name, Stoi(quantity).value, remarks)), Ok(()))
  }

  // ---- one request on the tables ----

  datatype Op =
    | Create(name: string, admin: string, date: string)
    | Remove(effector: string, code: int)
    | Add(effector: string, code: int, username: string, status: string)
    | Expel(effector: string, code: int, username: string)
    | Promote(effector: string, code: int, username: string, status: string)
    | Put(effector: string, code: int, item: string, quantity: string, remarks: string)
    | Take(effector: string, code: int, item: string)
    | Edit(effector: string, code: int, item: string, newName: string, quantity: string, remarks: string)

  /**
   The quantity of a new item stands in the INSERT without quotes. When it is a literal, that statement is the one of
   the model; of other texts SQL makes what it can.
   */
  predicate PlainOp(st: Store, op: Op) {
    op.Put? && !HasItem(st.lists, op.code, op.item) ==> Literal(op.quantity)
  }

  ghost function Apply(st: Store, op: Op): (Store, Result<()>)
    requires Inv(st)
  {
    match op
    case Create(name, admin, date) => (CreateGroup(st, name, admin, date).0, Ok(()))
    case Remove(effector, code) => RemoveGroup(st, effector, code)
    case Add(effector, code, username, status) => AddUser(st, effector, code, username, status)
    case Expel(effector, code, username) => RemoveUser(st, effector, code, username)
    case Promote(effector, code, username, status) => SetUserStatus(st, effector, code, username, status)
    case Put(effector, code, item, quantity, remarks) => AddItem(st, effector, code, item, quantity, remarks)
    case Take(effector, code, item) => RemoveItem(st, effector, code, item)
    case Edit(effector, code, item, newName, quantity, remarks) =>
      UpdateItem(st, effector, code, item, newName, quantity, remarks)
  }
}
