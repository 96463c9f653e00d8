/**
 The session maps of ServerIList/Users.cpp: `online` from socket to user name, `opposite` from user name to socket.
 The first part says what each method does to them; the class has the methods.
 */
module SessionMaps {
  import opened Errors
  import opened Tables
  import opened Database

  datatype Sessions = Sessions(online: map<int, string>, opposite: map<string, int>)

  const NO_SESSIONS := Sessions(map[], map[])

  predicate ValidUsername(len: int) { 4 <= len <= 20 }
  predicate ValidPassword(len: int) { 6 <= len <= 20 }

  predicate Registered(users: seq<UserRow>, username: string) {
    Where(users, Named(username)) != []
  }

  function Account(username: string, password: string): UserRow -> bool {
    (r: UserRow) => r.username == username && r.password == password
  }

  /** `online[sock]` of a C++ map: an unknown socket gets the empty name. */
  function Touch(s: Sessions, sock: int): Sessions {
    if sock in s.online then s else s.(online := s.online[sock := ""])
  }

  function NameAt(s: Sessions, sock: int): string {
    if sock in s.online then s.online[sock] else ""
  }

  function SignIn(s: Sessions, sock: int, username: string): Sessions {
    Sessions(s.online[sock := username], s.opposite[username := sock])
  }

  /** Both entries disappear: the socket's, and that of the name found at the socket. */
  function SignOut(s: Sessions, sock: int): Sessions {
    Sessions(s.online - {sock}, s.opposite - {NameAt(s, sock)})
  }

  /** The decision of Login. The duplicate check looks at nothing when nobody is online or the socket is known. */
  function LoginResult(users: seq<UserRow>, s: Sessions, sock: int, username: string, password: string): Result<()> {
    if !ValidUsername(|username|) || !ValidPassword(|password|) then Err(InvalidUsernameOrPassword)
    else if Where(users, Account(username, password)) == [] then Err(WrongUsernameOrPassword)
    else if s.online != map[] && sock !in s.online && username in s.opposite then Err(UserNotAvailable)
    else Ok(())
  }

  function RegisterResult(users: seq<UserRow>, username: string, password: string): Result<()> {
    if !ValidUsername(|username|) || !ValidPassword(|password|) then Err(InvalidUsernameOrPassword)
    else if Registered(users, username) then Err(UserNotAvailable)
    else Ok(())
  }

  class Users {
    const database: DataBase
    var online: map<int, string>
    var opposite: map<string, int>

    constructor (db: DataBase)
      ensures database == db && View() == NO_SESSIONS
    {
      database := db;
      online, opposite := map[], map[];
    }

    ghost function View(): Sessions
      reads this
    {
      Sessions(online, opposite)
    }

    method Login(sock: int, username: string, password: string) returns (r: Result<()>)
      modifies this
      ensures r == LoginResult(database.users, old(View()), sock, username, password)
      ensures View() == if r.Ok? then SignIn(old(View()), sock, username) else old(View())
    {
      if !(ValidUsername(|username|) && ValidPassword(|password|)) {
        return Err(InvalidUsernameOrPassword);
      }
      if Where(database.users, Account(username, password)) == [] {
        return Err(WrongUsernameOrPassword);
      }
      if |online| != 0 {
        if sock in online {
          // already logged in from this socket: allowed
        } else if username in opposite {
          return Err(UserNotAvailable);
        }
      }
      Add(sock, username);
      return Ok(());
    }

    method Register(username: string, password: string) returns (r: Result<()>)
      modifies database`users
      ensures r == RegisterResult(old(database.users), username, password)
      ensures database.users ==
              if r.Ok? then old(database.users) + [UserRow(username, password)] else old(database.users)
    {
      if !(ValidUsername(|username|) && ValidPassword(|password|)) {
        return Err(InvalidUsernameOrPassword);
      }
      if Registered(database.users, username) {
        return Err(UserNotAvailable);
      }
      database.users := InsertUser(database.users, UserRow(username, password));
      return Ok(());
    }

    method Logout(sock: int)
      modifies this
      ensures View() == SignOut(old(View()), sock)
    {
      var username := GetUsername(sock);
      Remove(sock, username);
    }

    method GetUsername(sock: int) returns (username: string)
      modifies this
      ensures View() == Touch(old(View()), sock) && username == NameAt(old(View()), sock)
    {
      if sock !in online {
        online := online[sock := ""];
      }
      return online[sock];
    }

    method GetSock(username: string) returns (sock: int)
      modifies this
      ensures username in old(opposite) ==> sock == old(opposite)[username] && View() == old(View())
      ensures username !in old(opposite) ==> sock == 0 && View() == old(View()).(opposite := old(opposite)[username := 0])
    {
      if username !in opposite {
        opposite := opposite[username := 0];
      }
      return opposite[username];
    }

    method Add(sock: int, username: string)
      modifies this
      ensures View() == SignIn(old(View()), sock, username)
    {
      online := online[sock := username];
      opposite := opposite[username := sock];
    }

    method Remove(sock: int, username: string)
      modifies this
      ensures View() == Sessions(old(online) - {sock}, old(opposite) - {username})
    {
      online := online - {sock};
      opposite := opposite - {username};
    }
  }

  // ---- the two maps as inverses ----

  /** Named sockets and online names point at each other; a socket with the empty name belongs to nobody. */
  ghost predicate Linked(s: Sessions) {
    && (forall k | k in s.online && s.online[k] != "" :: s.online[k] in s.opposite && s.opposite[s.online[k]] == k)
    && (forall u | u in s.opposite :: u != "" && s.opposite[u] in s.online && s.online[s.opposite[u]] == u)
  }

  ghost predicate NoEmptyName(s: Sessions) {
    forall k | k in s.online :: s.online[k] != ""
  }

  /** A login keeps the maps linked exactly when neither the socket nor the name is taken by another session. */
  lemma SignInKeepsLink(s: Sessions, sock: int, username: string)
    requires Linked(s) && username != ""
    ensures Linked(SignIn(s, sock, username)) <==>
              && NameAt(s, sock) in ["", username]
              && (username in s.opposite ==> s.opposite[username] == sock)
  {
    var s' := SignIn(s, sock, username);
    var v := NameAt(s, sock);
    if v !in ["", username] {
      assert s'.opposite[v] == sock && s'.online[sock] == username;
      assert v in s'.opposite;
    }
    if username in s.opposite && s.opposite[username] != sock {
      var k := s.opposite[username];
      assert s'.online[k] == username && s'.opposite[username] == sock;
    }
  }

  lemma SignOutKeepsLink(s: Sessions, sock: int)
    requires Linked(s)
    ensures Linked(SignOut(s, sock))
  {
  }

  lemma TouchKeepsLink(s: Sessions, sock: int)
    requires Linked(s)
    ensures Linked(Touch(s, sock))
  {
  }

  /**
   Why the duplicate check may be skipped when nobody is online: linked maps without empty names are empty together.
   On a socket that is not online, Login then refuses exactly the names that are online already.
   */
  lemma DuplicateCheckIsEnough(users: seq<UserRow>, s: Sessions, sock: int, username: string, password: string)
    requires Linked(s) && sock !in s.online
    requires ValidUsername(|username|) && ValidPassword(|password|)
    requires Where(users, Account(username, password)) != []
    ensures s.online == map[] ==> s.opposite == map[]
    ensures LoginResult(users, s, sock, username, password) ==
            if username in s.opposite then Err(UserNotAvailable) else Ok(())
  {
  }

  datatype SessionOp =
    | RegisterOp(username: string, password: string)
    | LoginOp(sock: int, username: string, password: string)
    | LogoutOp(sock: int)

  /** The accounts and who is online. */
  datatype Known = Known(users: seq<UserRow>, sessions: Sessions)

  function Step(k: Known, op: SessionOp): Known {
    match op
    case RegisterOp(username, password) =>
      if RegisterResult(k.users, username, password).Ok? then k.(users := k.users + [UserRow(username, password)]) else k
    case LoginOp(sock, username, password) =>
      if LoginResult(k.users, k.sessions, sock, username, password).Ok? then
        k.(sessions := SignIn(k.sessions, sock, username))
      else k
    case LogoutOp(sock) => k.(sessions := SignOut(k.sessions, sock))
  }

  function RunSessions(k: Known, ops: seq<SessionOp>): Known {
    if ops == [] then k else Step(RunSessions(k, ops[..|ops| - 1]), ops[|ops| - 1])
  }

  /** Logins on sockets that are not online, logouts on sockets that are. */
  ghost predicate Disciplined(k: Known, ops: seq<SessionOp>) {
    ops == [] ||
    var n := |ops| - 1;
    && Disciplined(k, ops[..n])
    && match ops[n]
       case RegisterOp(_, _) => true
       case LoginOp(sock, _, _) => sock !in RunSessions(k, ops[..n]).sessions.online
       case LogoutOp(sock) => sock in RunSessions(k, ops[..n]).sessions.online
  }

  /** On disciplined runs the two maps are inverses of each other at every moment, and everybody online is registered. */
  lemma {:induction false} DisciplinedRunsStayInverse(k: Known, ops: seq<SessionOp>)
    requires Linked(k.sessions) && NoEmptyName(k.sessions) && KnownNames(k.users, k.sessions) && Disciplined(k, ops)
    ensures var k' := RunSessions(k, ops);
            Linked(k'.sessions) && NoEmptyName(k'.sessions) && KnownNames(k'.users, k'.sessions)
  {
    if ops != [] {
      var n := |ops| - 1;
      DisciplinedRunsStayInverse(k, ops[..n]);
      var before := RunSessions(k, ops[..n]);
      match ops[n]
      case RegisterOp(username, password) =>
        MoreAccounts(before.users, UserRow(username, password), before.sessions);
      case LoginOp(sock, username, password) =>
        if LoginResult(before.users, before.sessions, sock, username, password).Ok? {
          DuplicateCheckIsEnough(before.users, before.sessions, sock, username, password);
          SignInKeepsLink(before.sessions, sock, username);
          AccountIsRegistered(before.users, username, password);
        }
      case LogoutOp(sock) =>
        SignOutKeepsLink(before.sessions, sock);
    }
  }

  // ---- the exact code: who can be in the maps ----

  /** Every online name is registered, and so is every non-empty name at a socket. */
  ghost predicate KnownNames(users: seq<UserRow>, s: Sessions) {
    && (forall u | u in s.opposite :: Registered(users, u))
    && (forall k | k in s.online :: s.online[k] == "" || Registered(users, s.online[k]))
  }

  lemma AccountIsRegistered(users: seq<UserRow>, username: string, password: string)
    requires Where(users, Account(username, password)) != []
    ensures Registered(users, username)
  {
  }

  lemma RegisteredStays(users: seq<UserRow>, row: UserRow, username: string)
    requires Registered(users, username)
    ensures Registered(users + [row], username)
  {
  }

  lemma MoreAccounts(users: seq<UserRow>, row: UserRow, s: Sessions)
    requires KnownNames(users, s)
    ensures KnownNames(users + [row], s)
  {
    forall u | Registered(users, u) ensures Registered(users + [row], u) {
      RegisteredStays(users, row, u);
    }
  }

  // ---- draining the disconnected sockets ----

  /** Every queued socket that is online is logged out. */
  function Drained(s: Sessions, queue: seq<int>): Sessions
    decreases queue
  {
    if queue == [] then s
    else Drained(if queue[0] in s.online then SignOut(s, queue[0]) else s, queue[1..])
  }

  /** Afterwards exactly the sockets that were not queued are online, and the names of the queued ones are not. */
  lemma {:induction false} DrainRestricts(s: Sessions, queue: seq<int>)
    ensures Drained(s, queue).online == map k | k in s.online && k !in queue :: s.online[k]
    ensures Drained(s, queue).opposite ==
            map u | u in s.opposite && !(exists k :: k in queue && k in s.online && s.online[k] == u) :: s.opposite[u]
    decreases queue
  {
    if queue == [] {
      assert s.online == map k | k in s.online && k !in queue :: s.online[k];
    } else {
      var next := if queue[0] in s.online then SignOut(s, queue[0]) else s;
      DrainRestricts(next, queue[1..]);
      assert queue == [queue[0]] + queue[1..];
      forall u | u in s.opposite
        ensures (exists k :: k in queue && k in s.online && s.online[k] == u) <==>
                  (u !in next.opposite || exists k :: k in queue[1..] && k in next.online && next.online[k] == u)
      {
        if k :| k in queue && k in s.online && s.online[k] == u {
          if k != queue[0] {
            assert k in queue[1..] && k in next.online;
          }
        }
        if u !in next.opposite {
          assert queue[0] in queue && s.online[queue[0]] == u;
        }
      }
    }
  }

  lemma {:induction false} DrainKeepsLink(s: Sessions, queue: seq<int>)
    requires Linked(s)
    ensures Linked(Drained(s, queue))
    decreases queue
  {
    if queue != [] {
      SignOutKeepsLink(s, queue[0]);
      DrainKeepsLink(if queue[0] in s.online then SignOut(s, queue[0]) else s, queue[1..]);
    }
  }

  lemma {:induction false} DrainKeepsNames(users: seq<UserRow>, s: Sessions, queue: seq<int>)
    requires KnownNames(users, s)
    ensures KnownNames(users, Drained(s, queue))
    decreases queue
  {
    if queue != [] {
      DrainKeepsNames(users, if queue[0] in s.online then SignOut(s, queue[0]) else s, queue[1..]);
    }
  }
}
