/** Tables as sequences of rows, and the SQL statements the server uses as operations on them. */
module Tables {

  /** SELECT ... WHERE keep, and DELETE ... WHERE the opposite: the rows that satisfy `keep`, in table order. */
  function Where<T>(rows: seq<T>, keep: T -> bool): (kept: seq<T>)
    ensures |kept| <= |rows|
    ensures forall r {:trigger r in kept} | r in kept :: r in rows && keep(r)
    ensures forall r {:trigger r in kept} | r in rows && keep(r) :: r in kept
  {
    if rows == [] then []
    else
      var n := |rows| - 1;
      Where(rows[..n], keep) + (if keep(rows[n]) then [rows[n]] else [])
  }

  /** One value per row, in table order. */
  function Map<T, U>(rows: seq<T>, f: T -> U): seq<U> {
    seq(|rows|, i requires 0 <= i < |rows| => f(rows[i]))
  }

  function Not<T>(p: T -> bool): T -> bool {
    (r: T) => !p(r)
  }

  /** UPDATE ... SET f WHERE which. */
  function Change<T>(rows: seq<T>, which: T -> bool, f: T -> T): seq<T> {
    seq(|rows|, i requires 0 <= i < |rows| => if which(rows[i]) then f(rows[i]) else rows[i])
  }

  /** A primary key: no two rows agree on it. */
  ghost predicate Unique<T, K>(rows: seq<T>, key: T -> K) {
    forall i, j {:trigger key(rows[i]), key(rows[j])} :: 0 <= i < j < |rows| ==> key(rows[i]) != key(rows[j])
  }

  lemma WhereAppend<T>(rows: seq<T>, r: T, keep: T -> bool)
    ensures Where(rows + [r], keep) == Where(rows, keep) + if keep(r) then [r] else []
  {
  }

  lemma {:induction false} WhereUnique<T, K>(rows: seq<T>, keep: T -> bool, key: T -> K)
    requires Unique(rows, key)
    ensures Unique(Where(rows, keep), key)
  {
    if rows != [] {
      var n := |rows| - 1;
      WhereUnique(rows[..n], keep, key);
      var kept := Where(rows[..n], keep);
      forall i | 0 <= i < |kept| ensures key(kept[i]) != key(rows[n]) {
        assert kept[i] in kept;
      }
    }
  }

  lemma AppendUnique<T, K>(rows: seq<T>, r: T, key: T -> K)
    requires Unique(rows, key)
    requires forall q | q in rows :: key(q) != key(r)
    ensures Unique(rows + [r], key)
  {
  }

  /** With a primary key, a row is the only one that matches its key. */
  lemma OnlyRow<T, K>(rows: seq<T>, r: T, q: T, key: T -> K)
    requires Unique(rows, key) && r in rows && q in rows && key(r) == key(q)
    ensures r == q
  {
  }

  lemma {:induction false} WhereNothing<T>(rows: seq<T>, keep: T -> bool)
    requires forall r | r in rows :: !keep(r)
    ensures Where(rows, keep) == []
  {
    if rows != [] {
      WhereNothing(rows[..|rows| - 1], keep);
    }
  }

  lemma {:induction false} WhereAll<T>(rows: seq<T>, keep: T -> bool)
    requires forall r | r in rows :: keep(r)
    ensures Where(rows, keep) == rows
  {
    if rows != [] {
      var n := |rows| - 1;
      assert rows == rows[..n] + [rows[n]];
      WhereAll(rows[..n], keep);
    }
  }

  lemma {:induction false} WhereConcat<T>(a: seq<T>, b: seq<T>, keep: T -> bool)
    ensures Where(a + b, keep) == Where(a, keep) + Where(b, keep)
  {
    if b == [] {
      assert a + b == a;
    } else {
      var n := |b| - 1;
      WhereConcat(a, b[..n], keep);
      WhereAppend(b[..n], b[n], keep);
      WhereAppend(a + b[..n], b[n], keep);
      assert b == b[..n] + [b[n]] && a + b == (a + b[..n]) + [b[n]];
      assert Where(a, keep) + Where(b, keep) == Where(a, keep) + Where(b[..n], keep) + if keep(b[n]) then [b[n]] else [];
    }
  }

  lemma ChangeRows<T>(rows: seq<T>, which: T -> bool, f: T -> T)
    ensures forall q | q in rows :: (if which(q) then f(q) else q) in Change(rows, which, f)
    ensures forall r | r in Change(rows, which, f) :: exists q :: q in rows && r == if which(q) then f(q) else q
  {
    var changed := Change(rows, which, f);
    forall q | q in rows ensures (if which(q) then f(q) else q) in changed {
      var i :| 0 <= i < |rows| && rows[i] == q;
      assert changed[i] == if which(q) then f(q) else q;
    }
    forall r | r in changed ensures exists q :: q in rows && r == if which(q) then f(q) else q {
      var i :| 0 <= i < |changed| && changed[i] == r;
      assert rows[i] in rows;
    }
  }

  lemma ChangeUnique<T, K>(rows: seq<T>, which: T -> bool, f: T -> T, key: T -> K)
    requires Unique(rows, key)
    requires forall r | r in rows && which(r) :: key(f(r)) == key(r)
    ensures Unique(Change(rows, which, f), key)
  {
  }

  // ---- the schema of ServerIList/Database.h ----

  datatype UserRow = UserRow(username: string, password: string)
  datatype GroupRow = GroupRow(code: int, name: string, admin: string, creationDate: string, numberOfUsers: int)
  datatype MemberRow = MemberRow(groupCode: int, username: string, status: string)
  datatype ItemRow = ItemRow(groupCode: int, itemName: string, quantity: int, remarks: string)
  datatype PacketRow = PacketRow(code: int, username: string, message: string)

  function UserKey(r: UserRow): string { r.username }
  function GroupKey(r: GroupRow): int { r.code }
  function MemberKey(r: MemberRow): (int, string) { (r.groupCode, r.username) }
  function ItemKey(r: ItemRow): (int, string) { (r.groupCode, r.itemName) }

  // WHERE clauses
  function HasCode(code: int): GroupRow -> bool { (r: GroupRow) => r.code == code }
  function InGroup(code: int): MemberRow -> bool { (r: MemberRow) => r.groupCode == code }
  function OfUser(username: string): MemberRow -> bool { (r: MemberRow) => r.username == username }
  function IsMember(code: int, username: string): MemberRow -> bool {
    (r: MemberRow) => r.groupCode == code && r.username == username
  }
  function InList(code: int): ItemRow -> bool { (r: ItemRow) => r.groupCode == code }
  function IsItem(code: int, name: string): ItemRow -> bool {
    (r: ItemRow) => r.groupCode == code && r.itemName == name
  }
  function Named(username: string): UserRow -> bool { (r: UserRow) => r.username == username }

  // SET clauses
  function SetCount(n: int): GroupRow -> GroupRow { (r: GroupRow) => r.(numberOfUsers := n) }
  function SetStatus(status: string): MemberRow -> MemberRow { (r: MemberRow) => r.(status := status) }
  function SetQuantity(q: int): ItemRow -> ItemRow { (r: ItemRow) => r.(quantity := q) }
  function SetItem(name: string, q: int, remarks: string): ItemRow -> ItemRow {
    (r: ItemRow) => r.(itemName := name, quantity := q, remarks := remarks)
  }

  // INSERT into a table with a primary key: on a conflict the statement fails and the table stays as it is.
  function InsertUser(rows: seq<UserRow>, r: UserRow): seq<UserRow> {
    if Where(rows, Named(r.username)) != [] then rows else rows + [r]
  }
  function InsertMember(rows: seq<MemberRow>, r: MemberRow): seq<MemberRow> {
    if Where(rows, IsMember(r.groupCode, r.username)) != [] then rows else rows + [r]
  }
  function InsertItem(rows: seq<ItemRow>, r: ItemRow): seq<ItemRow> {
    if Where(rows, IsItem(r.groupCode, r.itemName)) != [] then rows else rows + [r]
  }

  /** UPDATE Lists SET item_name, ... : refused as a whole when the new name is another row's. */
  function RenameItem(rows: seq<ItemRow>, code: int, key: string, name: string, q: int, remarks: string): seq<ItemRow> {
    if name != key && Where(rows, IsItem(code, key)) != [] && Where(rows, IsItem(code, name)) != [] then rows
    else Change(rows, IsItem(code, key), SetItem(name, q, remarks))
  }

  /** The largest code of a table, for SELECT code ... ORDER BY code DESC LIMIT 1. */
  function LastCode(rows: seq<GroupRow>): int
    requires rows != []
  {
    var n := |rows| - 1;
    if n == 0 then rows[0].code
    else
      var before := LastCode(rows[..n]);
      if before < rows[n].code then rows[n].code else before
  }

  lemma {:induction false} LastCodeIsLargest(rows: seq<GroupRow>) returns (i: nat)
    requires rows != []
    ensures i < |rows| && rows[i].code == LastCode(rows)
    ensures forall k :: 0 <= k < |rows| ==> rows[k].code <= rows[i].code
  {
    var n := |rows| - 1;
    if n == 0 {
      i := 0;
    } else {
      i := LastCodeIsLargest(rows[..n]);
      assert forall k :: 0 <= k < n ==> rows[..n][k] == rows[k];
      if rows[i].code < rows[n].code {
        i := n;
      }
    }
  }
}
