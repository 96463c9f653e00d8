/** Safety of the group tables over whole runs, from the empty tables or from any state that satisfies the invariant. */
module Runs {
  import opened Tables
  import opened Store
  import opened StoreInvariant
  import opened Book
  import opened Refinement

  ghost function Run(st: Store, ops: seq<Op>): (st': Store)
    requires Inv(st)
    ensures Inv(st')
  {
    if ops == [] then st
    else
      var before := Run(st, ops[..|ops| - 1]);
      ApplyKeeps(before, ops[|ops| - 1]);
      Apply(before, ops[|ops| - 1]).0
  }

  function RunBook(b: Book, ops: seq<Op>): Book {
    if ops == [] then b else ApplyBook(RunBook(b, ops[..|ops| - 1]), ops[|ops| - 1]).0
  }

  /** Refinement over runs: the tables always mean what the simple map has become. */
  lemma {:induction false} RunRefines(st: Store, b: Book, ops: seq<Op>)
    requires Inv(st) && Represents(st, b)
    ensures Represents(Run(st, ops), RunBook(b, ops))
  {
    if ops != [] {
      var n := |ops| - 1;
      RunRefines(st, b, ops[..n]);
      Simulate(Run(st, ops[..n]), RunBook(b, ops[..n]), ops[n]);
    }
  }

  /** The meaning of the tables of any state that satisfies the invariant. */
  ghost function Meaning(st: Store): (b: Book)
    requires Inv(st)
    ensures Represents(st, b)
  {
    ReadOff(st);
    TableBook(st)
  }

  /** The map, read off the tables. */
  ghost function TableBook(st: Store): Book {
    Book(st.lastCode,
         map c | c in Codes(st.groups) :: Group(NameOf(st.groups, c), Roster(st.members, c), Contents(st.lists, c)))
  }

  lemma ReadOff(st: Store)
    requires Inv(st)
    ensures Represents(st, TableBook(st))
  {
    var b := TableBook(st);
    forall g | g in st.groups ensures b.groups[g.code].name == g.name {
      var found := Where(st.groups, HasCode(g.code));
      assert g in found;
      assert found[0] in found;
      OnlyRow(st.groups, g, found[0], GroupKey);
    }
    forall c, u, s ensures HoldsMember(b, c, u, s) <==> MemberRow(c, u, s) in st.members {
      RosterHas(st, c, u, s);
    }
    forall c, i, q, r ensures HoldsItem(b, c, i, q, r) <==> ItemRow(c, i, q, r) in st.lists {
      ContentsHas(st, c, i, q, r);
    }
  }

  ghost function Roster(members: seq<MemberRow>, code: int): map<string, string> {
    map u | u in Usernames(members, code) && HasMember(members, code, u) :: StatusOf(members, code, u)
  }

  ghost function Contents(lists: seq<ItemRow>, code: int): map<string, Item> {
    map i | i in (set r | r in lists && r.groupCode == code :: r.itemName) && HasItem(lists, code, i) ::
      Item(FirstItem(lists, code, i).quantity, FirstItem(lists, code, i).remarks)
  }

  lemma RosterHas(st: Store, c: int, u: string, s: string)
    requires Inv(st)
    ensures c in Codes(st.groups) && u in Roster(st.members, c) && Roster(st.members, c)[u] == s
       <==> MemberRow(c, u, s) in st.members
  {
    var row := MemberRow(c, u, s);
    var found := Where(st.members, IsMember(c, u));
    assert row in st.members ==> row in found;
    if found != [] {
      assert found[0] in found;
      if row in st.members {
        OnlyRow(st.members, row, found[0], MemberKey);
        assert Refers(st.groups, row.groupCode);
      }
    }
  }

  lemma ContentsHas(st: Store, c: int, i: string, q: int, r: string)
    requires Inv(st)
    ensures c in Codes(st.groups) && i in Contents(st.lists, c) && Contents(st.lists, c)[i] == Item(q, r)
       <==> ItemRow(c, i, q, r) in st.lists
  {
    var row := ItemRow(c, i, q, r);
    var found := Where(st.lists, IsItem(c, i));
    assert row in st.lists ==> row in found;
    if found != [] {
      assert found[0] in found;
      if row in st.lists {
        OnlyRow(st.lists, row, found[0], ItemKey);
        assert Refers(st.groups, row.groupCode);
      }
    }
  }

  // ---- counters ----

  lemma {:induction false} RowsAreUsernames(members: seq<MemberRow>, code: int)
    requires Unique(members, MemberKey)
    ensures |Where(members, InGroup(code))| == |Usernames(members, code)|
  {
    if members == [] {
      assert Usernames(members, code) == {};
    } else {
      var n := |members| - 1;
      var row := members[n];
      RowsAreUsernames(members[..n], code);
      assert members == members[..n] + [row];
      if row.groupCode == code {
        assert forall m | m in members[..n] :: MemberKey(m) != MemberKey(row);
        assert Usernames(members, code) == Usernames(members[..n], code) + {row.username};
      } else {
        assert Usernames(members, code) == Usernames(members[..n], code);
      }
    }
  }

  /** On every run each counter is the number of the group's membership rows, and that is between one and four. */
  lemma CountersOfRuns(start: Store, ops: seq<Op>, g: GroupRow)
    requires Inv(start) && g in Run(start, ops).groups
    ensures g.numberOfUsers == |Where(Run(start, ops).members, InGroup(g.code))|
    ensures 1 <= g.numberOfUsers <= 4
  {
    var st := Run(start, ops);
    assert GoodGroup(st.lastCode, st.members, g);
    RowsAreUsernames(st.members, g.code);
    assert g.admin in Usernames(st.members, g.code);
  }

  // ---- admins stay ----

  lemma AdminStaysOneStep(b: Book, op: Op, code: int, user: string)
    requires HoldsMember(b, code, user, "admin") && (forall c | c in b.groups :: c <= b.last)
    ensures var b' := ApplyBook(b, op).0;
            && (code in b'.groups <==> HoldsMember(b', code, user, "admin"))
            && (forall c | c in b'.groups :: c <= b'.last)
  {
  }

  lemma GoneStaysGone(b: Book, op: Op, code: int)
    requires code !in b.groups && code <= b.last
    ensures code !in ApplyBook(b, op).0.groups && code <= ApplyBook(b, op).0.last
  {
  }

  lemma {:induction false} AdminStaysInBook(b: Book, ops: seq<Op>, code: int, user: string)
    requires HoldsMember(b, code, user, "admin") && (forall c | c in b.groups :: c <= b.last)
    ensures var b' := RunBook(b, ops);
            && (code in b'.groups <==> HoldsMember(b', code, user, "admin"))
            && (forall c | c in b'.groups :: c <= b'.last) && code <= b'.last
  {
    if ops != [] {
      var n := |ops| - 1;
      AdminStaysInBook(b, ops[..n], code, user);
      var before := RunBook(b, ops[..n]);
      if code in before.groups {
        AdminStaysOneStep(before, ops[n], code, user);
      } else {
        GoneStaysGone(before, ops[n], code);
        LastGrows(before, ops[n]);
      }
    }
  }

  lemma LastGrows(b: Book, op: Op)
    requires forall c | c in b.groups :: c <= b.last
    ensures forall c | c in ApplyBook(b, op).0.groups :: c <= ApplyBook(b, op).0.last
  {
  }

  /**
   Admin permanence: whatever is requested afterwards, an admin of a group is a member and an admin exactly as long
   as the group exists. Codes are never drawn twice, so "exists" means "was not removed in between".
   */
  lemma AdminIsForever(st: Store, ops: seq<Op>, code: int, user: string)
    requires Inv(st) && MemberRow(code, user, "admin") in st.members
    ensures MemberRow(code, user, "admin") in Run(st, ops).members <==> code in Codes(Run(st, ops).groups)
  {
    var b := Meaning(st);
    assert HoldsMember(b, code, user, "admin");
    forall c | c in b.groups ensures c <= b.last {
      var g :| g in st.groups && g.code == c;
      assert GoodGroup(st.lastCode, st.members, g);
    }
    RunRefines(st, b, ops);
    AdminStaysInBook(b, ops, code, user);
    assert HoldsMember(RunBook(b, ops), code, user, "admin") <==>
           MemberRow(code, user, "admin") in Run(st, ops).members;
  }

  /** A group is never without its creator. */
  lemma CreatorStays(start: Store, ops: seq<Op>, g: GroupRow)
    requires Inv(start) && g in Run(start, ops).groups
    ensures MemberRow(g.code, g.admin, "admin") in Run(start, ops).members
  {
    var st := Run(start, ops);
    assert GoodGroup(st.lastCode, st.members, g);
  }

  /** A removed group, and everything that referred to it, never comes back. */
  lemma {:induction false} RemovedForever(st: Store, ops: seq<Op>, code: int)
    requires Inv(st) && code !in Codes(st.groups) && code <= st.lastCode
    ensures var st' := Run(st, ops);
            && code !in Codes(st'.groups) && code <= st'.lastCode
            && Where(st'.members, InGroup(code)) == [] && Where(st'.lists, InList(code)) == []
  {
    if ops == [] {
      NothingRefers(st, code);
    } else {
      var n := |ops| - 1;
      RemovedForever(st, ops[..n], code);
      var before := Run(st, ops[..n]);
      var b := Meaning(before);
      Simulate(before, b, ops[n]);
      GoneStaysGone(b, ops[n], code);
      NothingRefers(Run(st, ops), code);
    }
  }

  lemma NothingRefers(st: Store, code: int)
    requires Inv(st) && code !in Codes(st.groups)
    ensures Where(st.members, InGroup(code)) == [] && Where(st.lists, InList(code)) == []
  {
    assert forall m | m in st.members :: Refers(st.groups, m.groupCode);
    assert forall i | i in st.lists :: Refers(st.groups, i.groupCode);
    WhereNothing(st.members, InGroup(code));
    WhereNothing(st.lists, InList(code));
  }
}
