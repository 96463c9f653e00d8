/** ServerIList/Manager.cpp: delivery, the drain of disconnected sockets, and the dispatch of one packet. */
module Managers {
  import opened Errors
  import opened Decimal
  import opened Config
  import opened Messages
  import opened Tables
  import opened Database
  import opened SessionMaps
  import opened Servers
  import opened Dispatch
  import opened PublicGroups
  import opened ListsOfGroups
  import P = Parser
  import R = Restoring
  import S = Store

  class Manager {
    const database: DataBase
    const server: Server
    const users: Users
    const groups: PublicGroup
    const lists: PublicLists
    const restore: R.Restore

    constructor ()
      ensures Valid() && View() == INITIAL && server.disconnectedSockets == []
      ensures fresh(database) && fresh(server) && fresh(users) && fresh(restore)
    {
      var db := new DataBase();
      database := db;
      server := new Server();
      users := new Users(db);
      groups := new PublicGroup(db);
      lists := new PublicLists(db);
      restore := new R.Restore(db);
    }

    ghost predicate Valid()
      reads this, database, server
    {
      && database.Valid() && server.Valid()
      && users.database == database && groups.database == database
      && lists.database == database && restore.database == database
    }

    /** The state of the machine. */
    ghost function View(): System
      reads this, database, users, server
    {
      System(database.users, database.Groups(), database.packets, database.lastPacket, users.View(), server.sent)
    }

    method TrySend(username: string, message: string)
      requires Valid()
      modifies database`packets, database`lastPacket, users, server
      ensures Valid() && View() == Deliver(old(View()), Envelope(username, message))
    {
      if username in users.opposite {
        var sock := users.GetSock(username);
        server.SendMessage(sock, message);
      } else {
        database.lastPacket := database.lastPacket + 1;
        database.packets := database.packets + [PacketRow(database.lastPacket, username, message)];
      }
    }

    method SendToAll(rows: seq<MemberRow>, message: string)
      requires Valid()
      modifies database`packets, database`lastPacket, users, server
      ensures Valid() && View() == DeliverAll(old(View()), ToMembers(rows, message))
    {
      ghost var es := ToMembers(rows, message);
      for col := 0 to |rows|
        invariant Valid() && View() == DeliverAll(old(View()), es[..col])
      {
        assert es[..col + 1][..col] == es[..col];
        TrySend(rows[col].username, message);
      }
      assert es[..|rows|] == es;
    }

    /** The loop of message_handler over the disconnected sockets. Its index never moves; the queue shrinks. */
    method Drain()
      requires Valid()
      modifies users, server
      ensures Valid() && server.disconnectedSockets == []
      ensures View() == old(View()).(sessions := Drained(old(View()).sessions, old(server.disconnectedSockets)))
    {
      var i := 0;
      while i < |server.disconnectedSockets|
        invariant i == 0 && Valid()
        invariant View() == old(View()).(sessions := View().sessions)
        invariant Drained(View().sessions, server.disconnectedSockets) ==
                  Drained(old(View()).sessions, old(server.disconnectedSockets))
        decreases |server.disconnectedSockets|
      {
        var sock := server.disconnectedSockets[0];
        if sock in users.online {
          users.Logout(sock);
        }
        server.disconnectedSockets := server.disconnectedSockets[1..];
      }
    }

    method SignUpCase(sock: int, ghost current: string, username: string, password: string, args: seq<string>)
      returns (r: Result<()>)
      requires Valid()
      modifies database`users, server
      ensures Valid() && (View(), r) == Perform(old(View()), sock, current, SignUp(username, password), args)
    {
      r := users.Register(username, password);
      if r.Ok? {
        var receive := MakeTextMessage(PGM_SCC_REGISTER, "");
        server.SendMessage(sock, receive);
      }
    }

    method LogInCase(sock: int, ghost current: string, username: string, password: string, args: seq<string>)
      returns (r: Result<()>)
      requires Valid()
      modifies database`packets, database`lastPacket, users, server
      ensures Valid() && (View(), r) == Perform(old(View()), sock, current, LogIn(username, password), args)
    {
      r := users.Login(sock, username, password);
      if r.Ok? {
        var receive := MakeTextMessage(PGM_SCC_LOGIN, "");
        TrySend(username, receive);
      }
    }

    method CreateCase(sock: int, username: string, name: string, date: string, args: seq<string>)
      returns (r: Result<()>)
      requires Valid()
      modifies database, server
      ensures Valid()
      ensures (View(), r) == PerformOnStore(old(View()), sock, S.Create(name, username, date), None, args)
    {
      var code := groups.CreateGroup(name, username, date);  // never throws
      var receive := MakeTextMessage(PGM_SCC_ACTE_CREATED, ToString(code.value));
      server.SendMessage(sock, receive);
      return Ok(());
    }

    method GroupListCase(sock: int, username: string, args: seq<string>)
      requires Valid()
      modifies server
      ensures Valid() && (View(), Ok(())) == Perform(old(View()), sock, username, ListGroups, args)
    {
      var data := Map(Where(database.members, OfUser(username)), MemberCells);
      var receive := MakeTableMessage(PGM_GET_GROUPS_LIST, data);
      server.SendMessage(sock, receive);
    }

    method RestoreCase(sock: int, username: string, args: seq<string>)
      requires Valid()
      modifies database`packets, database`lastPacket, users, server, restore
      ensures Valid() && (View(), Ok(())) == Perform(old(View()), sock, username, RestoreGroups, args)
    {
      var receive := restore.BuildRestoreMessage(username);
      TrySend(username, receive);
    }

    /** The invited user gets the members there are, other than the user. */
    method SendMembers(rows: seq<MemberRow>, user: string)
      requires Valid()
      modifies database`packets, database`lastPacket, users, server
      ensures Valid()
      ensures View() == DeliverAll(old(View()), MemberNotices(rows, user))
    {
      ghost var es := [];
      for col := 0 to |rows|
        invariant Valid() && View() == DeliverAll(old(View()), es)
        invariant es == MemberNotices(rows[..col], user)
      {
        MemberNoticesGrow(rows, col, user);
        if user == rows[col].username {
          continue;
        }
        var receive := MakeVectorMessage(PGM_CTR_NEW_USER, MemberCells(rows[col]));
        DeliverOneMore(old(View()), es, Envelope(user, receive));
        es := es + [Envelope(user, receive)];
        TrySend(user, receive);
      }
      assert rows[..|rows|] == rows;
    }

    /** The invited user gets the current list. */
    method SendItems(rows: seq<ItemRow>, user: string)
      requires Valid()
      modifies database`packets, database`lastPacket, users, server
      ensures Valid()
      ensures View() == DeliverAll(old(View()), ItemNotices(rows, user))
    {
      ghost var es := ItemNotices(rows, user);
      for col := 0 to |rows|
        invariant Valid() && View() == DeliverAll(old(View()), es[..col])
      {
        assert es[..col + 1][..col] == es[..col];
        var receive := MakeVectorMessage(LST_SCC_ADD_ITEM, ItemCells(rows[col]));
        TrySend(user, receive);
      }
      assert es[..|rows|] == es;
    }

    method InviteCase(sock: int, username: string, args: seq<string>) returns (r: Result<()>)
      requires Valid() && |args| == 3
      modifies database, users, server
      ensures Valid()
      ensures (View(), r) == PerformOnStore(old(View()), sock, S.Add(username, Number(args[0]), args[1], args[2]),
                                            Some(args[1]), args)
    {
      if !Registered(database.users, args[1]) {
        return Err(WrongUsername);
      }
      var code := Number(args[0]);
      r := groups.AddUser(username, code, args[1], args[2]);
      if r.Err? {
        return;
      }
      assert MemberRow(code, args[1], args[2]) in database.members;
      S.MemberHasGroup(database.Groups(), code);
      var named := [args[0], S.FirstGroup(database.groups, code).name, args[1], args[2]];
      var receive := MakeVectorMessage(PGM_CTR_NEW_USER, named);
      var data := Where(database.members, InGroup(code));
      ghost var start := View();
      SendToAll(data, receive);
      SendMembers(data, named[2]);
      var items := Where(database.lists, InList(code));
      SendItems(items, named[2]);
      ghost var everyone, members := ToMembers(data, receive), MemberNotices(data, args[1]);
      DeliverConcat(start, everyone, members);
      DeliverConcat(start, everyone + members, ItemNotices(items, args[1]));
    }

    method ExpelCase(sock: int, username: string, args: seq<string>) returns (r: Result<()>)
      requires Valid() && |args| == 2
      modifies database, users, server
      ensures Valid()
      ensures (View(), r) == PerformOnStore(old(View()), sock, S.Expel(username, Number(args[0]), args[1]),
                                            Some(args[1]), args)
    {
      if !Registered(database.users, args[1]) {
        return Err(WrongUsername);
      }
      r := groups.RemoveUser(username, Number(args[0]), args[1]);
      if r.Err? {
        return;
      }
      var receive := MakeVectorMessage(PGM_CTR_USER_LEAVE, args);
      var rows := Where(database.members, InGroup(Number(args[0])));
      ghost var start := View();
      SendToAll(rows, receive);
      TrySend(args[0], receive);
      DeliverConcat(start, ToMembers(rows, receive), [Envelope(args[0], receive)]);
    }

    method PromoteCase(sock: int, username: string, args: seq<string>) returns (r: Result<()>)
      requires Valid() && |args| == 3
      modifies database, users, server
      ensures Valid()
      ensures (View(), r) == PerformOnStore(old(View()), sock, S.Promote(username, Number(args[0]), args[1], args[2]),
                                            Some(args[1]), args)
    {
      if !Registered(database.users, args[1]) {
        return Err(WrongUsername);
      }
      r := groups.SetUserStatus(username, Number(args[0]), args[1], args[2]);
      if r.Ok? {
        var receive := MakeVectorMessage(PGM_CTR_STATUS_CHANGED, args);
        SendToAll(Where(database.members, InGroup(Number(args[0]))), receive);
      }
    }

    method CloseCase(sock: int, username: string, args: seq<string>) returns (r: Result<()>)
      requires Valid() && |args| == 1
      modifies database, users, server
      ensures Valid()
      ensures (View(), r) == PerformOnStore(old(View()), sock, S.Remove(username, Number(args[0])), None, args)
    {
      var data := Where(database.members, InGroup(Number(args[0])));
      r := groups.RemoveGroup(username, Number(args[0]));
      if r.Ok? {
        var receive := MakeVectorMessage(PGM_CTR_GROUP_CLOSED, args);
        SendToAll(data, receive);
      }
    }

    method AddItemCase(sock: int, username: string, args: seq<string>) returns (r: Result<()>)
      requires Valid() && |args| == 4
      modifies database, users, server
      ensures Valid()
      ensures (View(), r) == PerformOnStore(old(View()), sock,
                                            S.Put(username, Number(args[0]), args[1], args[2], args[3]), None, args)
    {
      r := lists.AddItem(username, Number(args[0]), args[1], args[2], args[3]);
      PerformedOnStore(old(View()), sock, S.Put(username, Number(args[0]), args[1], args[2], args[3]), args,
                       database.Groups(), r);
      if r.Ok? {
        var receive := MakeVectorMessage(LST_SCC_ADD_ITEM, args);
        SendToAll(Where(database.members, InGroup(Number(args[0]))), receive);
      }
    }

    method RemoveItemCase(sock: int, username: string, args: seq<string>) returns (r: Result<()>)
      requires Valid() && |args| == 2
      modifies database, users, server
      ensures Valid()
      ensures (View(), r) == PerformOnStore(old(View()), sock, S.Take(username, Number(args[0]), args[1]), None, args)
    {
      r := lists.RemoveItem(username, Number(args[0]), args[1]);
      if r.Ok? {
        var receive := MakeVectorMessage(LST_SCC_REMOVE_ITEM, args);
        SendToAll(Where(database.members, InGroup(Number(args[0]))), receive);
      }
    }

    method SetItemCase(sock: int, username: string, args: seq<string>) returns (r: Result<()>)
      requires Valid() && |args| == 5
      modifies database, users, server
      ensures Valid()
      ensures (View(), r) ==
              PerformOnStore(old(View()), sock,
                             S.Edit(username, Number(args[0]), args[1], args[2], args[3], args[4]), None, args)
    {
      r := lists.UpdateItem(username, Number(args[0]), args[1], args[2], args[3], args[4]);
      PerformedOnStore(old(View()), sock, S.Edit(username, Number(args[0]), args[1], args[2], args[3], args[4]), args,
                       database.Groups(), r);
      if r.Ok? {
        var receive := MakeVectorMessage(LST_SCC_SET_ITEM, args);
        SendToAll(Where(database.members, InGroup(Number(args[0]))), receive);
      }
    }

    /** The switch of code_handler. */
    method Dispatch(sock: int, username: string, code: int, args: seq<string>, date: string) returns (r: Result<()>)
      requires Valid()
      modifies database, users, server, restore
      ensures Valid()
      ensures (View(), r) == Perform(old(View()), sock, username, ActionOf(username, code, args, date), args)
    {
      var n := |args|;
      if code == EN_REGISTER {
        if n != 2 { return Err(WrongArgumentsNumber); }
        r := SignUpCase(sock, username, args[0], args[1], args);
      } else if code == EN_LOGIN {
        if n != 2 { return Err(WrongArgumentsNumber); }
        r := LogInCase(sock, username, args[0], args[1], args);
      } else if code == EN_LOGOUT {
        if n != 0 { return Err(WrongArgumentsNumber); }
        users.Logout(sock);
        r := Ok(());
      } else {
        r := DispatchGroups(sock, username, code, args, date);
      }
    }

    method DispatchGroups(sock: int, username: string, code: int, args: seq<string>, date: string)
      returns (r: Result<()>)
      requires Valid()
      modifies database, users, server, restore
      ensures Valid()
      ensures (View(), r) == Perform(old(View()), sock, username, GroupAction(username, code, args, date), args)
    {
      var n := |args|;
      if code == GR_CREATE_GROUP {
        if n != 1 { return Err(WrongArgumentsNumber); }
        r := CreateCase(sock, username, args[0], date, args);
      } else if code == GR_GROUP_LIST {
        if n != 0 { return Err(WrongArgumentsNumber); }
        GroupListCase(sock, username, args);
        r := Ok(());
      } else if code == GR_CLOSE_GROUP {
        if n != 1 { return Err(WrongArgumentsNumber); }
        r := CloseCase(sock, username, args);
      } else {
        r := DispatchMembers(sock, username, code, args);
      }
    }

    method DispatchMembers(sock: int, username: string, code: int, args: seq<string>)
      returns (r: Result<()>)
      requires Valid()
      modifies database, users, server, restore
      ensures Valid()
      ensures (View(), r) == Perform(old(View()), sock, username, MemberAction(username, code, args), args)
    {
      var n := |args|;
      if code == GR_INVITE_USER {
        if n != 3 { return Err(WrongArgumentsNumber); }
        r := InviteCase(sock, username, args);
      } else if code == GR_REMOVE_USER {
        if n != 2 { return Err(WrongArgumentsNumber); }
        r := ExpelCase(sock, username, args);
      } else if code == GR_SET_STATUS {
        if n != 3 { return Err(WrongArgumentsNumber); }
        r := PromoteCase(sock, username, args);
      } else {
        r := DispatchLists(sock, username, code, args);
      }
    }

    method DispatchLists(sock: int, username: string, code: int, args: seq<string>)
      returns (r: Result<()>)
      requires Valid()
      modifies database, users, server, restore
      ensures Valid()
      ensures (View(), r) == Perform(old(View()), sock, username, ListAction(username, code, args), args)
    {
      var n := |args|;
      if code == LST_ADD_ITEM {
        if n != 4 { return Err(WrongArgumentsNumber); }
        r := AddItemCase(sock, username, args);
      } else if code == LST_REMOVE_ITEM {
        if n != 2 { return Err(WrongArgumentsNumber); }
        r := RemoveItemCase(sock, username, args);
      } else {
        r := DispatchLast(sock, username, code, args);
      }
    }

    method DispatchLast(sock: int, username: string, code: int, args: seq<string>)
      returns (r: Result<()>)
      requires Valid()
      modifies database, users, server, restore
      ensures Valid()
      ensures (View(), r) == Perform(old(View()), sock, username, LastAction(username, code, args), args)
    {
      var n := |args|;
      if code == LST_SET_ITEM {
        if n != 5 { return Err(WrongArgumentsNumber); }
        r := SetItemCase(sock, username, args);
      } else if code == RE_RESTORE {
        if n != 0 { return Err(WrongArgumentsNumber); }
        RestoreCase(sock, username, args);
        r := Ok(());
      } else {
        r := Ok(());
      }
    }

    method CodeHandler(sock: int, msg: string, date: string) returns (r: Result<()>)
      requires Valid()
      modifies database, users, server, restore
      ensures Valid() && (View(), r) == Handle(old(View()), sock, msg, date)
    {
      var parsed := P.Parse(msg);
      if parsed.Err? {
        return Err(parsed.error);
      }
      var code, args := parsed.value.code, parsed.value.args;
      if sock !in users.online && code != EN_REGISTER && code != EN_LOGIN {
        return Err(UserIsOffline);
      }
      var username := users.GetUsername(sock);
      r := Dispatch(sock, username, code, args, date);
    }

    /** One packet, as message_handler takes it. */
    method MessageHandler(sock: int, msg: string, date: string)
      requires Valid()
      modifies database, users, server, restore
      ensures Valid()
      ensures View() == Serve(old(View()), old(server.disconnectedSockets), sock, msg, date)
    {
      Drain();
      var r := CodeHandler(sock, msg, date);
      if r.Err? {
        server.SendMessage(sock, ErrorReply(r.error));
      }
    }
  }
}
