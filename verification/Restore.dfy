/**
 The restore message (ServerIList/Restore.cpp): one record for each group of a user, with fields separated by commas,
 entries by dashes, and the parts of an entry by colons.
 */
module Restoring {
  import opened Text
  import opened Decimal
  import opened Config
  import opened Messages
  import opened Tables
  import opened Database
  import S = Store

  datatype UserData = UserData(name: string, status: string)
  datatype ItemData = ItemData(name: string, quantity: int, remarks: string)
  datatype Record = Record(code: int, name: string, users: seq<UserData>, items: seq<ItemData>)

  function ToUser(m: MemberRow): UserData { UserData(m.username, m.status) }
  function ToItem(i: ItemRow): ItemData { ItemData(i.itemName, i.quantity, i.remarks) }

  ghost function RecordOf(st: S.Store, code: int): Record {
    Record(code, S.NameOf(st.groups, code),
           Map(Where(st.members, InGroup(code)), ToUser), Map(Where(st.lists, InList(code)), ToItem))
  }

  /** The groups of a user: one record per membership row, in table order. */
  ghost function Records(st: S.Store, username: string): seq<Record> {
    Map(Where(st.members, OfUser(username)), (m: MemberRow) => RecordOf(st, m.groupCode))
  }

  // ---- what is printed, as joins ----

  function UserText(u: UserData): string { Join([u.name, u.status], ':') }
  function ItemText(i: ItemData): string { Join([i.name, ToString(i.quantity), i.remarks], ':') }

  /** Four fields, or three when the list is empty: the comma before it is trimmed away with it. */
  function Fields(r: Record): seq<string>
    requires r.users != []
  {
    [ToString(r.code), r.name, Join(Map(r.users, UserText), '-')] +
    (if r.items == [] then [] else [Join(Map(r.items, ItemText), '-')])
  }

  function RecordText(r: Record): string
    requires r.users != []
  {
    Join(Fields(r), ',')
  }

  ghost predicate Inhabited(rs: seq<Record>) {
    forall r | r in rs :: r.users != []
  }

  ghost function RecordTexts(rs: seq<Record>): seq<string>
    requires Inhabited(rs)
  {
    seq(|rs|, i requires 0 <= i < |rs| => RecordText(rs[i]))
  }

  ghost function RestoreText(rs: seq<Record>): string
    requires Inhabited(rs)
  {
    Packet(RE_GET_RESTORE, RecordTexts(rs))
  }

  /** In a state of the server every group of a user has a member, the user, and a group row. */
  lemma RecordsAreInhabited(st: S.Store, username: string)
    requires S.Inv(st)
    ensures Inhabited(Records(st, username))
    ensures forall m | m in Where(st.members, OfUser(username)) :: Where(st.groups, HasCode(m.groupCode)) != []
  {
    var mine := Where(st.members, OfUser(username));
    forall i | 0 <= i < |mine|
      ensures Records(st, username)[i].users != [] && Where(st.groups, HasCode(mine[i].groupCode)) != []
    {
      assert mine[i] in mine;
      assert mine[i] in Where(st.members, InGroup(mine[i].groupCode));
      S.MemberHasGroup(st, mine[i].groupCode);
    }
  }

  // ---- the append-then-trim loops ----

  /** The entries, each followed by a dash. */
  function Dashed(entries: seq<string>): string {
    if entries == [] then "" else Join(entries, '-') + "-"
  }

  /** One round of an inner loop: the next entry and a dash. */
  lemma DashedGrows(text: string, entries: seq<string>, k: nat)
    requires k < |entries|
    ensures text + Dashed(entries[..k]) + entries[k] + "-" == text + Dashed(entries[..k + 1])
  {
    var before, entry := entries[..k], entries[k];
    assert entries[..k + 1] == before + [entry];
    if before != [] {
      JoinAppend(before, entry, '-');
    }
    assert Dashed(before + [entry]) == Dashed(before) + entry + "-";
    assert text + (Dashed(before) + entry + "-") == text + Dashed(before) + entry + "-";
  }

  lemma EntryTexts(u: UserData, i: ItemData)
    ensures UserText(u) == u.name + ":" + u.status
    ensures ItemText(i) == i.name + ":" + ToString(i.quantity) + ":" + i.remarks
  {
    JoinAppend([u.name], u.status, ':');
    assert [u.name] + [u.status] == [u.name, u.status];
    JoinThree(i.name, ToString(i.quantity), i.remarks, ':');
  }

  /** Two trims, after the users and after the items, leave exactly the joined record. */
  lemma Trimmed(text: string, r: Record)
    requires r.users != []
    ensures var t1 := text + (ToString(r.code) + "," + r.name + ",") + Dashed(Map(r.users, UserText));
            var t2 := t1[..|t1| - 1] + "," + Dashed(Map(r.items, ItemText));
            t2[..|t2| - 1] == text + RecordText(r)
  {
    RecordTextUnfolds(r);
    var head := ToString(r.code) + "," + r.name + ",";
    var users, items := Dashed(Map(r.users, UserText)), Dashed(Map(r.items, ItemText));
    var t1 := text + head + users;
    assert t1[..|t1| - 1] == text + head + users[..|users| - 1];
    var t2 := t1[..|t1| - 1] + "," + items;
    assert t2 == text + (head + users[..|users| - 1] + "," + items);
  }

  class Restore {
    const database: DataBase
    var groups: seq<MemberRow>
    var users: seq<MemberRow>
    var items: seq<ItemRow>
    var indexG: nat
    var indexU: nat
    var indexI: nat

    constructor (db: DataBase)
      ensures database == db
    {
      database := db;
      groups, users, items := [], [], [];
      indexG, indexU, indexI := 0, 0, 0;
    }

    method AppendUsers(text: string, groupCode: int) returns (ret: string)
      modifies this`users, this`indexU
      ensures ret == text + Dashed(Map(Map(Where(database.members, InGroup(groupCode)), ToUser), UserText))
    {
      ret := text;
      users, indexU := Where(database.members, InGroup(groupCode)), 0;
      ghost var entries := Map(Map(users, ToUser), UserText);
      while indexU != |users|
        invariant indexU <= |users| && users == Where(database.members, InGroup(groupCode))
        invariant ret == text + Dashed(entries[..indexU])
        decreases |users| - indexU
      {
        var user := ToUser(users[indexU]);
        DashedGrows(text, entries, indexU);
        EntryTexts(user, ItemData("", 0, ""));
        indexU := indexU + 1;
        ret := ret + (user.name + ":" + user.status);
        ret := ret + "-";
      }
      assert entries[..indexU] == entries;
    }

    method AppendItems(text: string, groupCode: int) returns (ret: string)
      modifies this`items, this`indexI
      ensures ret == text + Dashed(Map(Map(Where(database.lists, InList(groupCode)), ToItem), ItemText))
    {
      ret := text;
      items, indexI := Where(database.lists, InList(groupCode)), 0;
      ghost var entries := Map(Map(items, ToItem), ItemText);
      while indexI != |items|
        invariant indexI <= |items| && items == Where(database.lists, InList(groupCode))
        invariant ret == text + Dashed(entries[..indexI])
        decreases |items| - indexI
      {
        var item := ToItem(items[indexI]);
        DashedGrows(text, entries, indexI);
        EntryTexts(UserData("", ""), item);
        indexI := indexI + 1;
        ret := ret + (item.name + ":" + ToString(item.quantity) + ":" + item.remarks);
        ret := ret + "-";
      }
      assert entries[..indexI] == entries;
    }

    method AppendGroup(text: string, code: int, name: string) returns (ret: string)
      requires Where(database.members, InGroup(code)) != []
      requires name == S.NameOf(database.groups, code)
      modifies this`users, this`indexU, this`items, this`indexI
      ensures ret == text + RecordText(RecordOf(database.Groups(), code))
    {
      Trimmed(text, RecordOf(database.Groups(), code));
      ret := text + (ToString(code) + "," + name + ",");
      ret := AppendUsers(ret, code);
      ret := ret[..|ret| - 1];
      ret := ret + ",";
      ret := AppendItems(ret, code);
      ret := ret[..|ret| - 1];
    }

    /** The whole message: the loops print the join of the records of the user's groups. */
    method BuildRestoreMessage(username: string) returns (ret: string)
      requires database.Valid()
      modifies this
      ensures Inhabited(Records(database.Groups(), username))
      ensures ret == RestoreText(Records(database.Groups(), username))
    {
      ghost var st := database.Groups();
      RecordsAreInhabited(st, username);
      ghost var texts := RecordTexts(Records(st, username));
      ret := "@400|";
      PacketStarts();
      groups, indexG := Where(database.members, OfUser(username)), 0;
      while indexG != |groups|
        invariant indexG <= |groups| == |texts| && groups == Where(st.members, OfUser(username))
        invariant database.Groups() == st
        invariant ret + "|" == Packet(RE_GET_RESTORE, texts[..indexG])
        decreases |groups| - indexG
      {
        var code := groups[indexG].groupCode;
        TextAt(st, username, indexG);
        NextRecord(ret, texts, indexG);
        indexG := indexG + 1;
        var name := S.FirstGroup(database.groups, code).name;
        var record := AppendGroup(ret, code, name);
        ret := record + "|";
      }
      assert texts[..indexG] == texts;
      ret := ret + "|";
    }
  }

  lemma TextAt(st: S.Store, username: string, k: nat)
    requires S.Inv(st) && Inhabited(Records(st, username)) && k < |Where(st.members, OfUser(username))|
    ensures var code := Where(st.members, OfUser(username))[k].groupCode;
            && Where(st.members, InGroup(code)) != [] && Where(st.groups, HasCode(code)) != []
            && RecordTexts(Records(st, username))[k] == RecordText(RecordOf(st, code))
  {
    var mine := Where(st.members, OfUser(username));
    assert mine[k] in mine;
    assert mine[k] in Where(st.members, InGroup(mine[k].groupCode));
    S.MemberHasGroup(st, mine[k].groupCode);
    assert Records(st, username)[k] == RecordOf(st, mine[k].groupCode);
  }

  /** One round of the outer loop: the next record and a bar. */
  lemma NextRecord(text: string, texts: seq<string>, k: nat)
    requires k < |texts| && text + "|" == Packet(RE_GET_RESTORE, texts[..k])
    ensures text + texts[k] + "|" + "|" == Packet(RE_GET_RESTORE, texts[..k + 1])
  {
    PacketGrows(RE_GET_RESTORE, texts[..k], texts[k]);
    assert texts[..k] + [texts[k]] == texts[..k + 1];
  }

  lemma PacketStarts()
    ensures "@400|" + "|" == Packet(RE_GET_RESTORE, [])
  {
    PacketGrows(RE_GET_RESTORE, [], "");
    assert ToString(400) == "400" by { assert Digits(40) == "40"; }
  }

  lemma RecordTextUnfolds(r: Record)
    requires r.users != []
    ensures var head := ToString(r.code) + "," + r.name + ",";
            var users := Dashed(Map(r.users, UserText));
            var items := Dashed(Map(r.items, ItemText));
            var withUsers := head + users[..|users| - 1] + ",";
            RecordText(r) == (withUsers + items)[..|withUsers + items| - 1]
  {
    var users := Join(Map(r.users, UserText), '-');
    var three := [ToString(r.code), r.name, users];
    JoinThree(ToString(r.code), r.name, users, ',');
    if r.items != [] {
      JoinAppend(three, Join(Map(r.items, ItemText), '-'), ',');
    } else {
      assert three + [] == three;
    }
  }

  lemma JoinThree(a: string, b: string, c: string, sep: char)
    ensures Join([a, b, c], sep) == a + [sep] + b + [sep] + c
  {
    JoinAppend([a], b, sep);
    JoinAppend([a] + [b], c, sep);
    assert [a] + [b] + [c] == [a, b, c];
  }
}
