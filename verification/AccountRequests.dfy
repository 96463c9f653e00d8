/** The requests on accounts and sessions, and the packets that are refused before any request is made of them. */
module AccountRequests {
  import opened Errors
  import opened Decimal
  import opened Parser
  import opened Messages
  import opened Tables
  import opened SessionMaps
  import opened Servers
  import opened Dispatch
  import opened ServerRuns
  import opened SyncRuns
  import opened Lines
  import opened Requests
  import C = Config
  import S = Store

  /** The sessions at the packet: the sockets that went away are gone, and an unknown socket has the empty name. */
  function KnownSessions(s: System, e: Event): Sessions {
    var d := Drained(s.sessions, e.gone);
    Sessions(if e.sock in d.online then d.online else d.online[e.sock := ""], d.opposite)
  }

  ghost function Told(s: System, e: Event, text: string): seq<Outgoing> {
    s.sent + [Outgoing(e.sock, text)]
  }

  // ---- 1: an account is registered ----

  lemma RegisterDecides(s: System, username: string, password: string)
    ensures var r := RegisterResult(s.users, username, password);
            (if r.Ok? then "" else What(r.error)) ==
            if !(4 <= |username| <= 20 && 6 <= |password| <= 20) then "InvalidUsernameOrPasswordException"
            else if HasAccount(s, username) then "UserNotAvilableException" else ""
    ensures forall x :: What(x) != ""
  {
    AccountsAreRegistered(s, username);
  }

  lemma RegisterServed(s: System, e: Event, username: string, password: string)
    requires Good(s) && Plain(s.store, e.text) && ParseText(e.text) == Ok(Message(1, [username, password]))
    ensures var r := RegisterResult(s.users, username, password);
            Served(s, e) ==
            if r.Err? then s.(sessions := KnownSessions(s, e), sent := Told(s, e, ErrorReply(r.error)))
            else s.(users := s.users + [UserRow(username, password)], sessions := KnownSessions(s, e),
                    sent := Told(s, e, Packet(101, [""])))
  {
    AccountActions("", username, password, e.date);
    ServedByPerforming(s, e);
  }

  lemma RegisterRequest(s: System, e: Event, username: string, password: string)
    requires Good(s) && Plain(s.store, e.text) && ParseText(e.text) == Ok(Message(1, [username, password]))
    ensures var reason :=
              if !(4 <= |username| <= 20 && 6 <= |password| <= 20) then "InvalidUsernameOrPasswordException"
              else if HasAccount(s, username) then "UserNotAvilableException" else "";
            Served(s, e) ==
            if reason != "" then s.(sessions := KnownSessions(s, e), sent := Told(s, e, "@500|" + reason + "||"))
            else s.(users := s.users + [UserRow(username, password)], sessions := KnownSessions(s, e),
                    sent := Told(s, e, Line("101", [""])))
  {
    RegisterServed(s, e, username, password);
    RegisterDecides(s, username, password);
    EmptyAnswers();
  }

  /** The answers to a registration and to a login have one argument, which is empty. */
  lemma EmptyAnswers()
    ensures Packet(100, [""]) == Line("100", [""]) && Packet(101, [""]) == Line("101", [""])
  {
    Numbers();
    LineIsPacket(100, [""]);
    LineIsPacket(101, [""]);
  }

  lemma AccountActions(user: string, username: string, password: string, date: string)
    ensures forall u :: ActionOf(u, 1, [username, password], date) == SignUp(username, password)
    ensures forall u :: ActionOf(u, 2, [username, password], date) == LogIn(username, password)
    ensures ActionOf(user, 3, [], date) == LogOut
  {
  }

  // ---- 2: a user logs in ----

  lemma LoginDecides(s: System, known: Sessions, sock: int, username: string, password: string)
    requires sock in known.online
    ensures var r := LoginResult(s.users, known, sock, username, password);
            (if r.Ok? then "" else What(r.error)) ==
            if !(4 <= |username| <= 20 && 6 <= |password| <= 20) then "InvalidUsernameOrPasswordException"
            else if UserRow(username, password) !in s.users then "WrongUernameOrPasswordException" else ""
    ensures forall x :: What(x) != ""
  {
    HasPassword(s.users, username, password);
  }

  lemma LoginServedAs(s: System, e: Event, username: string, password: string)
    requires Good(s) && Plain(s.store, e.text) && ParseText(e.text) == Ok(Message(2, [username, password]))
    ensures var known := KnownSessions(s, e);
            var r := LoginResult(s.users, known, e.sock, username, password);
            Served(s, e) ==
            if r.Err? then s.(sessions := known, sent := Told(s, e, ErrorReply(r.error)))
            else s.(sessions := Sessions(known.online[e.sock := username], known.opposite[username := e.sock]),
                    sent := Told(s, e, Packet(100, [""])))
  {
    AccountActions("", username, password, e.date);
    ServedByPerforming(s, e);
  }

  /** Whoever is online, and wherever: the name and the password decide. */
  lemma LoginRequest(s: System, e: Event, username: string, password: string)
    requires Good(s) && Plain(s.store, e.text) && ParseText(e.text) == Ok(Message(2, [username, password]))
    ensures var known := KnownSessions(s, e);
            var reason :=
              if !(4 <= |username| <= 20 && 6 <= |password| <= 20) then "InvalidUsernameOrPasswordException"
              else if UserRow(username, password) !in s.users then "WrongUernameOrPasswordException" else "";
            Served(s, e) ==
            if reason != "" then s.(sessions := known, sent := Told(s, e, "@500|" + reason + "||"))
            else s.(sessions := Sessions(known.online[e.sock := username], known.opposite[username := e.sock]),
                    sent := Told(s, e, Line("100", [""])))
  {
    LoginServedAs(s, e, username, password);
    LoginDecides(s, KnownSessions(s, e), e.sock, username, password);
    EmptyAnswers();
  }

  lemma HasPassword(users: seq<UserRow>, username: string, password: string)
    ensures Where(users, Account(username, password)) != [] <==> UserRow(username, password) in users
  {
    var rows := Where(users, Account(username, password));
    if rows != [] {
      assert rows[0] in rows && rows[0] == UserRow(username, password);
    }
    if UserRow(username, password) in users {
      assert UserRow(username, password) in rows;
    }
  }

  // ---- 3: a session ends ----

  lemma LogoutRequest(s: System, e: Event, user: string)
    requires Asks(s, e, user, 3, [])
    ensures var d := Drained(s.sessions, e.gone);
            Served(s, e) == s.(sessions := Sessions(d.online - {e.sock}, d.opposite - {user}))
  {
    AskedIsReached(s, e, user, 3, []);
    AccountActions(user, "", "", e.date);
    ServedByPerforming(s, e);
  }

  // ---- refused at once ----

  /** From an unknown socket only a registration or a login is taken. */
  lemma UnknownSocket(s: System, e: Event, code: int, args: seq<string>)
    requires Good(s) && Plain(s.store, e.text) && ParseText(e.text) == Ok(Message(code, args)) && code != 1 && code != 2
    requires e.sock !in Drained(s.sessions, e.gone).online
    ensures Refused(s, e, "UserIsOfflineException")
  {
    UnknownRefused(s, e, code, args);
    OfflineText();
  }

  lemma OfflineText()
    ensures What(UserIsOffline) == "UserIsOfflineException"
  {
  }

  lemma UnknownRefused(s: System, e: Event, code: int, args: seq<string>)
    requires Good(s) && Plain(s.store, e.text) && ParseText(e.text) == Ok(Message(code, args)) && code != 1 && code != 2
    requires e.sock !in Drained(s.sessions, e.gone).online
    ensures Refused(s, e, What(UserIsOffline))
  {
    UnknownThrows(s.(sessions := Drained(s.sessions, e.gone)), e.sock, e.text, e.date, code, args);
    HandledThrows(s, e, UserIsOffline);
  }

  lemma UnknownThrows(s: System, sock: int, text: string, date: string, code: int, args: seq<string>)
    requires S.Inv(s.store) && ParseText(text) == Ok(Message(code, args)) && code != 1 && code != 2
    requires sock !in s.sessions.online
    ensures Handle(s, sock, text, date) == (s, Err(UserIsOffline))
  {
  }

  lemma HandledThrows(s: System, e: Event, x: Exception)
    requires Good(s) && Plain(s.store, e.text)
    requires var drained := s.(sessions := Drained(s.sessions, e.gone));
             Handle(drained, e.sock, e.text, e.date) == (drained, Err(x))
    ensures Refused(s, e, What(x))
  {
  }

  lemma Unread(s: System, e: Event, x: Exception)
    requires Good(s) && Plain(s.store, e.text) && ParseText(e.text) == Err(x)
    ensures Refused(s, e, What(x))
  {
    HandledThrows(s, e, x);
  }

  /** A quote, or two dashes in a row. */
  ghost predicate Suspicious(text: string) {
    '\'' in text || exists i :: 0 <= i < |text| - 1 && text[i] == '-' && text[i + 1] == '-'
  }

  /** What is wrong with a text that is not understood, exactly. */
  lemma NotUnderstood(s: System, e: Event)
    requires Good(s) && Plain(s.store, e.text)
    ensures |e.text| < 4 ==> Refused(s, e, "SyntaxErrorException")
    ensures |e.text| >= 4 && Suspicious(e.text) ==> Refused(s, e, "SqlInjectionException")
    ensures |e.text| >= 4 && !Suspicious(e.text) && (forall codeText, args :: !Frames(e.text, codeText, args)) ==>
              Refused(s, e, "SyntaxErrorException")
    ensures forall codeText, args |
              |e.text| >= 4 && !Suspicious(e.text) && Frames(e.text, codeText, args) &&
              !(Stoi(codeText).Ok? && Stoi(codeText).value in C.ALL_MESSAGES_CODES) ::
              Refused(s, e, "InvalidCodeNumberException")
  {
    RefusedExactly(e.text);
    if ParseText(e.text).Err? {
      Unread(s, e, ParseText(e.text).error);
    }
  }

  /** The number of arguments that a request has. */
  predicate RightNumber(code: int, n: nat) {
    && (code == 3 || code == 10 || code == 40 ==> n == 0)
    && (code == 11 || code == 14 ==> n == 1)
    && (code == 1 || code == 2 || code == 13 || code == 21 ==> n == 2)
    && (code == 15 || code == 16 ==> n == 3)
    && (code == 20 ==> n == 4) && (code == 22 ==> n == 5)
  }

  lemma WrongNumberAction(user: string, code: int, args: seq<string>, date: string)
    requires !RightNumber(code, |args|)
    ensures ActionOf(user, code, args, date) == WrongArguments
  {
  }

  lemma WrongNumber(s: System, e: Event, user: string, code: int, args: seq<string>)
    requires Asks(s, e, user, code, args) && !RightNumber(code, |args|)
    ensures Refused(s, e, "WrongArgumentsNumberException")
  {
    WrongNumberAction(user, code, args, e.date);
    AskedIsReached(s, e, user, code, args);
    ServedByPerforming(s, e);
  }

  /** A code of the table that is no request does nothing. */
  lemma NoRequest(s: System, e: Event, user: string, code: int, args: seq<string>)
    requires Asks(s, e, user, code, args)
    requires code !in [1, 2, 3, 10, 11, 13, 14, 15, 16, 20, 21, 22, 40]
    ensures Served(s, e) == s.(sessions := Drained(s.sessions, e.gone)) && Mail(s, e) == []
  {
    NoAction(user, code, args, e.date);
    AskedIsReached(s, e, user, code, args);
    ServedByPerforming(s, e);
  }

  lemma NoAction(user: string, code: int, args: seq<string>, date: string)
    requires code !in [1, 2, 3, 10, 11, 13, 14, 15, 16, 20, 21, 22, 40]
    ensures ActionOf(user, code, args, date) == Nothing
  {
    assert forall c | c in [1, 2, 3, 10, 11, 13, 14, 15, 16, 20, 21, 22, 40] :: code != c;
  }
}
