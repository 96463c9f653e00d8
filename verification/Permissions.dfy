/** The permission levels of ServerIList/Database.cpp. */
module Permissions {

  datatype Permission = Permission(text: string, level: int)

  const ADMIN := Permission("admin", 4)
  const FULL_CONTROL := Permission("fc", 3)
  const READ_WRITE := Permission("rw", 2)
  const READ := Permission("r", 1)
  const NON := Permission("", 0)

  function GetPermission(status: string): Permission {
    if status == ADMIN.text then ADMIN
    else if status == FULL_CONTROL.text then FULL_CONTROL
    else if status == READ_WRITE.text then READ_WRITE
    else if status == READ.text then READ
    else NON
  }

  predicate IsAuthorized(user: Permission, requested: Permission) {
    user.level >= requested.level
  }
}
