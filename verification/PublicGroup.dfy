/** ServerIList/PublicGroup.cpp: each operation as its sequence of statements on the tables. */
module PublicGroups {
  import opened Errors
  import opened Permissions
  import opened Tables
  import opened Database
  import opened StoreInvariant
  import S = Store

  class PublicGroup {
    const database: DataBase

    constructor (db: DataBase)
      ensures database == db
    {
      database := db;
    }

    method CreateGroup(groupName: string, admin: string, timeNow: string) returns (r: Result<int>)
      requires database.Valid()
      modifies database`groups, database`lastCode, database`members
      ensures database.Valid()
      ensures (database.Groups(), r) == S.CreateGroup(old(database.Groups()), groupName, admin, timeNow)
    {
      ghost var st := database.Groups();
      CreateKeeps(st, groupName, admin, timeNow);
      NewCode(st, groupName, admin, timeNow);

      database.lastCode := database.lastCode + 1;
      database.groups := database.groups + [GroupRow(database.lastCode, groupName, admin, timeNow, 1)];

      // the table is not empty, and the largest code is the one just drawn
      var groupCode := LastCode(database.groups);
      assert groupCode == st.lastCode + 1;

      database.members := InsertMember(database.members, MemberRow(groupCode, admin, ADMIN.text));
      assert database.members == st.members + [MemberRow(groupCode, admin, "admin")];
      assert database.Groups() == S.CreateGroup(st, groupName, admin, timeNow).0;
      return Ok(groupCode);
    }

    method RemoveGroup(effector: string, groupCode: int) returns (r: Result<()>)
      requires database.Valid()
      modifies database`groups, database`members, database`lists
      ensures database.Valid()
      ensures (database.Groups(), r) == S.RemoveGroup(old(database.Groups()), effector, groupCode)
    {
      RemoveKeeps(database.Groups(), effector, groupCode);
      if !S.HasMember(database.members, groupCode, effector) {
        return Err(NoSuchUserInTheGroup);
      }
      var status := S.PermissionOf(database.members, groupCode, effector);
      if !IsAuthorized(status, ADMIN) {
        // nothing is thrown
      }
      database.groups := Where(database.groups, Not(HasCode(groupCode)));
      database.members := Where(database.members, Not(InGroup(groupCode)));
      database.lists := Where(database.lists, Not(InList(groupCode)));
      return Ok(());
    }

    method AddUser(effector: string, groupCode: int, username: string, status: string) returns (r: Result<()>)
      requires database.Valid()
      modifies database`groups, database`members
      ensures database.Valid()
      ensures (database.Groups(), r) == S.AddUser(old(database.Groups()), effector, groupCode, username, status)
    {
      AddKeeps(database.Groups(), effector, groupCode, username, status);
      if !S.HasMember(database.members, groupCode, effector) {
        return Err(NoSuchUserInTheGroup);
      }
      S.HasMemberRow(database.Groups(), groupCode, effector);
      var numberOfUsers := S.FirstGroup(database.groups, groupCode).numberOfUsers;
      if numberOfUsers == 4 {
        return Err(FullGroup);
      }
      if S.HasMember(database.members, groupCode, username) {
        return Err(SystemException);
      }
      var effectorStatus := S.PermissionOf(database.members, groupCode, effector);
      if !IsAuthorized(effectorStatus, FULL_CONTROL) {
        // the exception is constructed here, but not thrown
      }
      if GetPermission(status).level == NON.level {
        return Err(SystemException);
      }
      database.members := InsertMember(database.members, MemberRow(groupCode, username, status));
      numberOfUsers := numberOfUsers + 1;
      database.groups := Change(database.groups, HasCode(groupCode), SetCount(numberOfUsers));
      return Ok(());
    }

    method RemoveUser(effector: string, groupCode: int, username: string) returns (r: Result<()>)
      requires database.Valid()
      modifies database`groups, database`members
      ensures database.Valid()
      ensures (database.Groups(), r) == S.RemoveUser(old(database.Groups()), effector, groupCode, username)
    {
      ExpelKeeps(database.Groups(), effector, groupCode, username);
      if !S.HasMember(database.members, groupCode, effector) {
        return Err(NoSuchUserInTheGroup);
      }
      if !S.HasMember(database.members, groupCode, username) {
        return Err(NoSuchUserInTheGroup);
      }
      var status := S.PermissionOf(database.members, groupCode, effector);
      if !IsAuthorized(status, FULL_CONTROL) {
        return Err(PermissionIsDenied);
      }
      status := S.PermissionOf(database.members, groupCode, username);
      if status.level == ADMIN.level {
        return Err(PermissionIsDenied);
      }
      S.HasMemberRow(database.Groups(), groupCode, effector);
      var numberOfUsers := S.FirstGroup(database.groups, groupCode).numberOfUsers;
      database.members := Where(database.members, Not(IsMember(groupCode, username)));
      database.groups := Change(database.groups, HasCode(groupCode), SetCount(numberOfUsers - 1));
      return Ok(());
    }

    method SetUserStatus(effector: string, groupCode: int, username: string, newStatus: string) returns (r: Result<()>)
      requires database.Valid()
      modifies database`members
      ensures database.Valid()
      ensures (database.Groups(), r) == S.SetUserStatus(old(database.Groups()), effector, groupCode, username, newStatus)
    {
      PromoteKeeps(database.Groups(), effector, groupCode, username, newStatus);
      if !S.HasMember(database.members, groupCode, effector) {
        return Err(NoSuchUserInTheGroup);
      }
      if !S.HasMember(database.members, groupCode, username) {
        return Err(NoSuchUserInTheGroup);
      }
      var status := S.PermissionOf(database.members, groupCode, effector);
      if !IsAuthorized(status, FULL_CONTROL) {
        return Err(PermissionIsDenied);
      }
      status := S.PermissionOf(database.members, groupCode, username);
      if status.level == ADMIN.level {
        return Err(PermissionIsDenied);
      }
      database.members := Change(database.members, IsMember(groupCode, username), SetStatus(newStatus));
      return Ok(());
    }
  }
}
