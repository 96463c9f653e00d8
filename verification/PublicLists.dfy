/** ServerIList/PublicLists.cpp: each operation as its sequence of statements on the tables. */
module ListsOfGroups {
  import opened Errors
  import opened Decimal
  import opened Permissions
  import opened Tables
  import opened Database
  import opened StoreInvariant
  import S = Store

  class PublicLists {
    const database: DataBase

    constructor (db: DataBase)
      ensures database == db
    {
      database := db;
    }

    method IncItem(groupCode: int, itemName: string, inc: string) returns (r: Result<()>)
      requires S.HasItem(database.lists, groupCode, itemName)
      modifies database`lists
      ensures var sum := S.AddedText(ToString(old(S.FirstItem(database.lists, groupCode, itemName)).quantity), inc);
              if sum.Ok? then
                r == Ok(()) && database.lists ==
                  Change(old(database.lists), IsItem(groupCode, itemName), SetQuantity(sum.value))
              else r == Err(sum.error) && database.lists == old(database.lists)
    {
      var quantity := ToString(S.FirstItem(database.lists, groupCode, itemName).quantity);
      var q, i := Stoi(quantity), Stoi(inc);
      if q.Err? {
        return Err(q.error);
      }
      if i.Err? {
        return Err(i.error);
      }
      var sum := Wrap32(q.value + i.value);
      database.lists := Change(database.lists, IsItem(groupCode, itemName), SetQuantity(sum));
      return Ok(());
    }

    method AddItem(effector: string, groupCode: int, itemName: string, quantity: string, remarks: string)
      returns (r: Result<()>)
      requires database.Valid()
      modifies database`lists
      ensures database.Valid()
      ensures (database.Groups(), r) ==
              S.AddItem(old(database.Groups()), effector, groupCode, itemName, quantity, remarks)
    {
      PutKeeps(database.Groups(), effector, groupCode, itemName, quantity, remarks);
      if !S.HasMember(database.members, groupCode, effector) {
        return Err(NoSuchUserInTheGroup);
      }
      var status := S.PermissionOf(database.members, groupCode, effector);
      if !IsAuthorized(status, READ_WRITE) {
        return Err(PermissionIsDenied);
      }
      if S.HasItem(database.lists, groupCode, itemName) {
        r := IncItem(groupCode, itemName, quantity);
      } else {
        var literal := SqlInteger(quantity);
        if literal.Some? {  // else: the statement is not well-formed, and fails
          database.lists := InsertItem(database.lists, ItemRow(groupCode, itemName, literal.value, remarks));
        }
        r := Ok(());
      }
    }

    method RemoveItem(effector: string, groupCode: int, itemName: string) returns (r: Result<()>)
      requires database.Valid()
      modifies database`lists
      ensures database.Valid()
      ensures (database.Groups(), r) == S.RemoveItem(old(database.Groups()), effector, groupCode, itemName)
    {
      TakeKeeps(database.Groups(), effector, groupCode, itemName);
      if !S.HasMember(database.members, groupCode, effector) {
        return Err(NoSuchUserInTheGroup);
      }
      var status := S.PermissionOf(database.members, groupCode, effector);
      if !IsAuthorized(status, READ_WRITE) {
        return Err(PermissionIsDenied);
      }
      if !S.HasItem(database.lists, groupCode, itemName) {
        return Err(SystemException);
      }
      database.lists := Where(database.lists, Not(IsItem(groupCode, itemName)));
      return Ok(());
    }

    /** A text without a character that is no digit; the empty text is one. */
    static method IsNumber(str: string) returns (number: bool)
      ensures number == AllDigits(str)
    {
      for i := 0 to |str|
        invariant AllDigits(str[..i])
      {
        if !IsDigit(str[i]) {
          return false;
        }
      }
      return true;
    }

    method UpdateItem(effector: string, groupCode: int, key: string,
                      newName: string, newQuantity: string, newRemarks: string) returns (r: Result<()>)
      requires database.Valid()
      modifies database`lists
      ensures database.Valid()
      ensures (database.Groups(), r) ==
              S.UpdateItem(old(database.Groups()), effector, groupCode, key, newName, newQuantity, newRemarks)
    {
      EditKeeps(database.Groups(), effector, groupCode, key, newName, newQuantity, newRemarks);
      if !S.HasMember(database.members, groupCode, effector) {
        return Err(NoSuchUserInTheGroup);
      }
      var status := S.PermissionOf(database.members, groupCode, effector);
      if !IsAuthorized(status, READ_WRITE) {
        return Err(PermissionIsDenied);
      }
      if !S.HasItem(database.lists, groupCode, key) {
        return Err(SystemException);
      }
      var last := S.FirstItem(database.lists, groupCode, key);
      if last.itemName == newName && ToString(last.quantity) == newQuantity && last.remarks == newRemarks {
        return Err(SystemException);
      }
      var number := IsNumber(newQuantity);
      if !number {
        return Err(SystemException);
      }
      var quantity := Stoi(newQuantity);
      if quantity.Err? {
        return Err(StdException);
      }
      if quantity.value <= 0 {
        return Err(SystemException);
      }
      database.lists := RenameItem(database.lists, groupCode, key, newName, quantity.value, newRemarks);
      return Ok(());
    }
  }
}
