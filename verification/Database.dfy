/** The database object: one field a table, and the counters of the two AUTOINCREMENT columns. */
module Database {
  import opened Tables
  import S = Store

  class DataBase {
    var users: seq<UserRow>
    var groups: seq<GroupRow>
    var lastCode: nat
    var members: seq<MemberRow>
    var lists: seq<ItemRow>
    var packets: seq<PacketRow>
    var lastPacket: nat

    constructor ()
      ensures Valid() && Groups() == S.EMPTY && users == [] && packets == [] && lastPacket == 0
    {
      users, groups, members, lists, packets := [], [], [], [], [];
      lastCode, lastPacket := 0, 0;
    }

    /** The tables of the groups. */
    ghost function Groups(): S.Store
      reads this
    {
      S.Store(groups, lastCode, members, lists)
    }

    ghost predicate Valid()
      reads this
    {
      S.Inv(Groups())
    }
  }
}
