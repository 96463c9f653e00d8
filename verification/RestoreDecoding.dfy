/** The restore message is uniquely decodable, and the protocol parser delivers its records. */
module RestoreDecoding {
  import opened Errors
  import opened Text
  import opened Decimal
  import opened Config
  import opened Parser
  import opened Messages
  import opened Tables
  import opened Restoring
  import S = Store

  /** A text that contains none of the four separators. */
  ghost predicate Bare(s: string) {
    '|' !in s && ',' !in s && ':' !in s && '-' !in s
  }

  ghost predicate BareUser(u: UserData) {
    Bare(u.name) && Bare(u.status)
  }

  ghost predicate BareItem(i: ItemData) {
    Bare(i.name) && Bare(i.remarks) && i.quantity >= 0
  }

  ghost predicate Decodable(r: Record) {
    && r.code >= 0 && Bare(r.name) && r.users != []
    && (forall u | u in r.users :: BareUser(u))
    && (forall i | i in r.items :: BareItem(i))
  }

  ghost predicate AllDecodable(rs: seq<Record>) {
    forall r | r in rs :: Decodable(r)
  }

  // ---- a decoder ----

  function Field(fields: seq<string>, k: nat): string {
    if k < |fields| then fields[k] else ""
  }

  function DecodeUser(text: string): UserData {
    var f := Split(text, ':');
    UserData(Field(f, 0), Field(f, 1))
  }

  function DecodeItem(text: string): ItemData {
    var f := Split(text, ':');
    ItemData(Field(f, 0), Number(Field(f, 1)), Field(f, 2))
  }

  /** Three fields are a group without items. */
  function DecodeRecord(text: string): Record {
    var f := Split(text, ',');
    Record(Number(Field(f, 0)), Field(f, 1), Map(Split(Field(f, 2), '-'), DecodeUser),
           if |f| <= 3 then [] else Map(Split(f[3], '-'), DecodeItem))
  }

  function Decode(msg: string): seq<Record> {
    var pieces := Split(msg, '|');
    if |pieces| < 3 then [] else Map(pieces[1..|pieces| - 2], DecodeRecord)
  }

  // ---- decoding undoes printing, level by level ----

  lemma BareNumber(n: int)
    requires n >= 0
    ensures Bare(ToString(n)) && '\'' !in ToString(n) && Number(ToString(n)) == n
  {
    ToStringCharacters(n);
    ReadsBack(n);
  }

  lemma UserRoundTrip(u: UserData)
    requires BareUser(u)
    ensures DecodeUser(UserText(u)) == u
    ensures '|' !in UserText(u) && ',' !in UserText(u) && '-' !in UserText(u) && UserText(u) != ""
  {
    var f := [u.name, u.status];
    SplitJoin(f, ':');
    InJoin(f, ':', '|');
    InJoin(f, ':', ',');
    InJoin(f, ':', '-');
    FirstCharacter(f, ':');
  }

  lemma ItemRoundTrip(i: ItemData)
    requires BareItem(i)
    ensures DecodeItem(ItemText(i)) == i
    ensures '|' !in ItemText(i) && ',' !in ItemText(i) && '-' !in ItemText(i) && ItemText(i) != ""
  {
    var f := [i.name, ToString(i.quantity), i.remarks];
    BareNumber(i.quantity);
    SplitJoin(f, ':');
    InJoin(f, ':', '|');
    InJoin(f, ':', ',');
    InJoin(f, ':', '-');
    FirstCharacter(f, ':');
  }

  lemma UsersRoundTrip(users: seq<UserData>)
    requires users != [] && forall u | u in users :: BareUser(u)
    ensures var text := Join(Map(users, UserText), '-');
            && Map(Split(text, '-'), DecodeUser) == users
            && '|' !in text && ',' !in text && !Doubled(text, '-')
  {
    var texts := Map(users, UserText);
    forall k | 0 <= k < |users|
      ensures DecodeUser(texts[k]) == users[k]
      ensures '|' !in texts[k] && ',' !in texts[k] && '-' !in texts[k] && texts[k] != ""
    {
      assert users[k] in users;
      UserRoundTrip(users[k]);
    }
    SplitJoin(texts, '-');
    InJoin(texts, '-', '|');
    InJoin(texts, '-', ',');
    DoubledJoin(texts, '-');
  }

  lemma ItemsRoundTrip(items: seq<ItemData>)
    requires items != [] && forall i | i in items :: BareItem(i)
    ensures var text := Join(Map(items, ItemText), '-');
            && Map(Split(text, '-'), DecodeItem) == items
            && '|' !in text && ',' !in text && !Doubled(text, '-')
  {
    var texts := Map(items, ItemText);
    forall k | 0 <= k < |items|
      ensures DecodeItem(texts[k]) == items[k]
      ensures '|' !in texts[k] && ',' !in texts[k] && '-' !in texts[k] && texts[k] != ""
    {
      assert items[k] in items;
      ItemRoundTrip(items[k]);
    }
    SplitJoin(texts, '-');
    InJoin(texts, '-', '|');
    InJoin(texts, '-', ',');
    DoubledJoin(texts, '-');
  }

  lemma FieldsAreClean(r: Record)
    requires Decodable(r)
    ensures forall f | f in Fields(r) :: '|' !in f && ',' !in f && !Doubled(f, '-')
  {
    BareNumber(r.code);
    UsersRoundTrip(r.users);
    if r.items != [] {
      ItemsRoundTrip(r.items);
    }
  }

  lemma RecordRoundTrip(r: Record)
    requires Decodable(r)
    ensures DecodeRecord(RecordText(r)) == r
    ensures '|' !in RecordText(r) && !Doubled(RecordText(r), '-') && RecordText(r) != ""
  {
    FieldsAreClean(r);
    SplitJoin(Fields(r), ',');
    InJoin(Fields(r), ',', '|');
    DoubledJoinOther(Fields(r), ',', '-');
    FirstCharacter(Fields(r), ',');
    BareNumber(r.code);
    UsersRoundTrip(r.users);
    if r.items != [] {
      ItemsRoundTrip(r.items);
    }
  }

  /** Unique decodability: the records can be read back from the message, groups with empty lists included. */
  lemma RestoreRoundTrip(rs: seq<Record>)
    requires AllDecodable(rs)
    ensures Inhabited(rs) && Decode(RestoreText(rs)) == rs
  {
    var texts := RecordTexts(rs);
    forall k | 0 <= k < |rs| ensures DecodeRecord(texts[k]) == rs[k] && '|' !in texts[k] {
      assert rs[k] in rs;
      RecordRoundTrip(rs[k]);
    }
    BareNumber(RE_GET_RESTORE);
    var fields := ["@" + ToString(RE_GET_RESTORE)] + texts + ["", ""];
    SplitJoin(fields, '|');
    assert fields[1..|fields| - 2] == texts;
  }

  /** Two different states of a user's groups, members or items are restored by two different messages. */
  lemma RestoreIsInjective(rs: seq<Record>, qs: seq<Record>)
    requires AllDecodable(rs) && AllDecodable(qs)
    requires RestoreText(rs) == RestoreText(qs)
    ensures rs == qs
  {
    RestoreRoundTrip(rs);
    RestoreRoundTrip(qs);
  }

  /** With a separator inside a field, different lists share a message. */
  lemma SeparatorsCollide()
    ensures var one := Record(1, "g", [UserData("anna", "rw")], [ItemData("a", 1, "x-b:2:y")]);
            var two := Record(1, "g", [UserData("anna", "rw")], [ItemData("a", 1, "x"), ItemData("b", 2, "y")]);
            one != two && RecordText(one) == RecordText(two)
  {
    var i, j, k := ItemData("a", 1, "x-b:2:y"), ItemData("a", 1, "x"), ItemData("b", 2, "y");
    EntryTexts(UserData("", ""), i);
    EntryTexts(UserData("", ""), j);
    EntryTexts(UserData("", ""), k);
    assert ToString(1) == "1" && ToString(2) == "2";
    assert Map([i], ItemText) == [ItemText(i)];
    assert Map([j, k], ItemText) == [ItemText(j), ItemText(k)];
    assert Join([ItemText(i)], '-') == ItemText(i);
    JoinAppend([ItemText(j)], ItemText(k), '-');
    assert [ItemText(j)] + [ItemText(k)] == [ItemText(j), ItemText(k)];
    assert ItemText(i) == ItemText(j) + "-" + ItemText(k);
  }

  // ---- through the protocol parser ----

  ghost predicate Unquoted(r: Record) {
    && '\'' !in r.name
    && (forall u | u in r.users :: '\'' !in u.name && '\'' !in u.status)
    && (forall i | i in r.items :: '\'' !in i.name && '\'' !in i.remarks)
  }

  lemma UnquotedEntries(u: UserData, i: ItemData)
    ensures '\'' in UserText(u) <==> '\'' in u.name || '\'' in u.status
    ensures i.quantity >= 0 ==> ('\'' in ItemText(i) <==> '\'' in i.name || '\'' in i.remarks)
  {
    EntryTexts(u, i);
    if i.quantity >= 0 {
      BareNumber(i.quantity);
    }
  }

  lemma UnquotedText(r: Record)
    requires Decodable(r) && Unquoted(r)
    ensures '\'' !in RecordText(r)
  {
    BareNumber(r.code);
    var users, items := Map(r.users, UserText), Map(r.items, ItemText);
    forall k | 0 <= k < |users| ensures '\'' !in users[k] {
      assert r.users[k] in r.users;
      UnquotedEntries(r.users[k], ItemData("", 0, ""));
    }
    InJoin(users, '-', '\'');
    forall k | 0 <= k < |items| ensures '\'' !in items[k] {
      assert r.items[k] in r.items;
      UnquotedEntries(UserData("", ""), r.items[k]);
    }
    if r.items != [] {
      InJoin(items, '-', '\'');
    }
    InJoin(Fields(r), ',', '\'');
  }

  /** The parser accepts every such restore message, with code 400 and the records as its arguments, in order. */
  lemma RestoreParses(rs: seq<Record>)
    requires AllDecodable(rs) && forall r | r in rs :: Unquoted(r)
    ensures Inhabited(rs)
    ensures ParseText(RestoreText(rs)) == Ok(Message(RE_GET_RESTORE, RecordTexts(rs)))
  {
    var texts := RecordTexts(rs);
    forall k | 0 <= k < |rs| ensures Sendable(texts[k]) {
      assert rs[k] in rs;
      RecordRoundTrip(rs[k]);
      UnquotedText(rs[k]);
    }
    RestoreCodeIsKnown();
    PrintThenParse(RE_GET_RESTORE, texts);
  }

  lemma RestoreCodeIsKnown()
    ensures RE_GET_RESTORE in ALL_MESSAGES_CODES
  {
  }

  // ---- for the tables of the server ----

  /** No separator in any name, status or remark, and no negative quantity. */
  ghost predicate BareStore(st: S.Store) {
    && (forall g | g in st.groups :: Bare(g.name))
    && (forall m | m in st.members :: Bare(m.username) && Bare(m.status))
    && (forall i | i in st.lists :: Bare(i.itemName) && Bare(i.remarks) && i.quantity >= 0)
  }

  lemma RecordsAreDecodable(st: S.Store, username: string)
    requires S.Inv(st) && BareStore(st)
    ensures AllDecodable(Records(st, username))
  {
    RecordsAreInhabited(st, username);
    var mine := Where(st.members, OfUser(username));
    forall k | 0 <= k < |mine| ensures Decodable(Records(st, username)[k]) {
      var code := mine[k].groupCode;
      assert mine[k] in mine;
      var found := Where(st.groups, HasCode(code));
      assert found[0] in found;
      assert S.GoodGroup(st.lastCode, st.members, found[0]);
      var members, items := Where(st.members, InGroup(code)), Where(st.lists, InList(code));
      assert Records(st, username)[k] == RecordOf(st, code);
      forall j | 0 <= j < |members| ensures BareUser(RecordOf(st, code).users[j]) {
        assert members[j] in members && RecordOf(st, code).users[j] == ToUser(members[j]);
      }
      forall j | 0 <= j < |items| ensures BareItem(RecordOf(st, code).items[j]) {
        assert items[j] in items && RecordOf(st, code).items[j] == ToItem(items[j]);
      }
      assert Records(st, username)[k] in Records(st, username);
    }
  }
}
