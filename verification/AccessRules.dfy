/**
 Who may change a group, and who reads its mail. The program asks for a level before every operation on a group, but in
 two of them it only builds the exception for those who do not have it.
 */
module AccessRules {
  import opened Errors
  import opened Config
  import opened Messages
  import opened Parser
  import opened Permissions
  import opened Tables
  import opened SessionMaps
  import opened Dispatch
  import opened ServerRuns
  import opened BroadcastSync
  import opened SyncRuns
  import B = Book
  import F = Refinement
  import S = Store
  import U = Runs

  /** The level that the program asks the effector for. */
  function Asked(op: S.Op): Permission
    requires !op.Create?
  {
    match op
    case Remove(_, _) => ADMIN
    case Add(_, _, _, _) | Expel(_, _, _) | Promote(_, _, _, _) => FULL_CONTROL
    case Put(_, _, _, _, _) | Take(_, _, _) | Edit(_, _, _, _, _, _) => READ_WRITE
  }

  predicate HasLevel(st: S.Store, code: int, user: string, asked: Permission) {
    S.HasMember(st.members, code, user) && IsAuthorized(S.PermissionOf(st.members, code, user), asked)
  }

  /** The effector is a member with the level that is asked for. */
  predicate Authorized(st: S.Store, op: S.Op)
    requires !op.Create?
  {
    HasLevel(st, op.code, op.effector, Asked(op))
  }

  /**
   The rule, and how far it is kept: what is accepted comes from a member, and from one with the level asked for if and
   only if it is no removal of the group by somebody other than an admin and no invitation without full control.
   */
  lemma AcceptedIsAuthorized(st: S.Store, op: S.Op)
    requires S.Inv(st) && !op.Create? && S.Apply(st, op).1.Ok?
    ensures S.HasMember(st.members, op.code, op.effector)
    ensures Authorized(st, op) <==>
              && (op.Remove? ==> HasLevel(st, op.code, op.effector, ADMIN))
              && (op.Add? ==> HasLevel(st, op.code, op.effector, FULL_CONTROL))
  {
  }

  /** What is refused for a lack of level, exactly: never a removal of the group or an invitation. */
  lemma DeniedExactly(st: S.Store, op: S.Op)
    requires S.Inv(st) && !op.Create?
    ensures S.Apply(st, op).1 == Err(PermissionIsDenied) <==>
              && !op.Remove? && !op.Add? && S.HasMember(st.members, op.code, op.effector)
              && (if op.Expel? || op.Promote? then
                    && S.HasMember(st.members, op.code, op.username)
                    && (!Authorized(st, op) || S.StatusOf(st.members, op.code, op.username) == "admin")
                  else !Authorized(st, op))
  {
  }

  /** The levels are those of these statuses; reading is all that "r" is for. */
  lemma LevelsOfMembers(st: S.Store, code: int, user: string)
    requires S.HasMember(st.members, code, user)
    ensures var status := S.StatusOf(st.members, code, user);
            && (HasLevel(st, code, user, ADMIN) <==> status == "admin")
            && (HasLevel(st, code, user, FULL_CONTROL) <==> status == "admin" || status == "fc")
            && (HasLevel(st, code, user, READ_WRITE) <==> status == "admin" || status == "fc" || status == "rw")
  {
  }

  /**
   The same without levels, on the meaning of the tables: who gets something accepted, and who is refused for the status
   alone, by the names of the statuses.
   */
  lemma RulesByStatus(st: S.Store, b: B.Book, op: S.Op)
    requires S.Inv(st) && B.Represents(st, b) && !op.Create?
    ensures S.Apply(st, op).1.Ok? ==> op.code in b.groups && op.effector in b.groups[op.code].members
    ensures (op.Put? || op.Take? || op.Edit?) && op.code in b.groups && op.effector in b.groups[op.code].members ==>
              var status := b.groups[op.code].members[op.effector];
              && (S.Apply(st, op).1.Ok? ==> status in ["admin", "fc", "rw"])
              && (S.Apply(st, op).1 == Err(PermissionIsDenied) <==> status !in ["admin", "fc", "rw"])
    ensures (op.Expel? || op.Promote?) && op.code in b.groups && op.effector in b.groups[op.code].members &&
            op.username in b.groups[op.code].members ==>
              var status := b.groups[op.code].members[op.effector];
              && (S.Apply(st, op).1.Ok? <==>
                    status in ["admin", "fc"] && b.groups[op.code].members[op.username] != "admin")
              && (S.Apply(st, op).1.Err? ==> S.Apply(st, op).1 == Err(PermissionIsDenied))
  {
    F.Simulate(st, b, op);
  }

  /** Any member may remove the group; any member may invite, also an admin, as long as there is room. */
  lemma NoLevelIsNeeded(st: S.Store, op: S.Op)
    requires S.Inv(st) && (op.Remove? || op.Add?)
    ensures op.Remove? ==> (S.Apply(st, op).1.Ok? <==> S.HasMember(st.members, op.code, op.effector))
    ensures op.Add? ==>
              (S.Apply(st, op).1.Ok? <==>
                 && S.HasMember(st.members, op.code, op.effector) && |S.Usernames(st.members, op.code)| < S.CAPACITY
                 && !S.HasMember(st.members, op.code, op.username) && op.status in ["admin", "fc", "rw", "r"])
  {
    if op.Add? && S.HasMember(st.members, op.code, op.effector) {
      S.HasMemberRow(st, op.code, op.effector);
      var g := S.FirstGroup(st.groups, op.code);
      assert g in Where(st.groups, HasCode(op.code));
      assert S.GoodGroup(st.lastCode, st.members, g);
      B.LevelsByName(op.status);
    }
  }

  // ---- for packets ----

  /** The codes of the requests that have no effective rule. */
  lemma CodesOfOps(username: string, code: int, args: seq<string>, date: string)
    ensures var a := ActionOf(username, code, args, date);
            a.OnStore? ==>
              && (a.op.Remove? <==> code == GR_CLOSE_GROUP) && (a.op.Add? <==> code == GR_INVITE_USER)
              && (!a.op.Create? ==> a.op.effector == username)
  {
  }

  /**
   A plain packet that changes a group comes from a known socket whose name is a member of the group, and from one with
   the level asked for if it does not close the group or invite somebody. For those two codes that is what may fail.
   */
  lemma ChangesComeFromMembers(s: System, e: Event, group: int)
    requires Good(s) && Plain(s.store, e.text) && group in S.Codes(s.store.groups)
    requires Current(Served(s, e).store, group) != Current(s.store, group)
    ensures var op := Accepted(s, e);
            && op.Some? && !op.value.Create? && op.value.code == group
            && e.sock in Drained(s.sessions, e.gone).online
            && op.value.effector == NameAt(Drained(s.sessions, e.gone), e.sock)
            && S.HasMember(s.store.members, group, op.value.effector)
            && var code := ParseText(e.text).value.code;
               && (code !in [GR_CLOSE_GROUP, GR_INVITE_USER] ==> Authorized(s.store, op.value))
               && (code == GR_CLOSE_GROUP ==>
                     (Authorized(s.store, op.value) <==> HasLevel(s.store, group, op.value.effector, ADMIN)))
               && (code == GR_INVITE_USER ==>
                     (Authorized(s.store, op.value) <==> HasLevel(s.store, group, op.value.effector, FULL_CONTROL)))
  {
    TablesAfter(s, e);
    var op := Accepted(s, e).value;
    OtherGroupsStay(s.store, op, group);
    var m, username := ParseText(e.text).value, NameAt(Drained(s.sessions, e.gone), e.sock);
    CodesOfOps(username, m.code, m.args, e.date);
    KnownSocket(s, e);
    AcceptedIsAuthorized(s.store, op);
  }

  lemma KnownSocket(s: System, e: Event)
    requires Good(s) && Accepted(s, e).Some?
    ensures e.sock in Drained(s.sessions, e.gone).online
    ensures var m := ParseText(e.text).value;
            Reached(s, e) == Some(ActionOf(NameAt(Drained(s.sessions, e.gone), e.sock), m.code, m.args, e.date))
  {
  }

  /** A creation, or an operation on another group, leaves a group as it is. */
  lemma OtherGroupsStay(st: S.Store, op: S.Op, group: int)
    requires S.Inv(st) && group in S.Codes(st.groups) && S.Apply(st, op).1.Ok?
    requires S.Inv(S.Apply(st, op).0)
    ensures op.Create? || op.code != group ==> Current(S.Apply(st, op).0, group) == Current(st, group)
  {
    var b, st' := U.Meaning(st), S.Apply(st, op).0;
    F.Simulate(st, b, op);
    B.MeaningIsUnique(st', U.Meaning(st'), B.ApplyBook(b, op).0);
    if op.Create? || op.code != group {
      KnownCodes(st, b, group);
      OtherGroupKept(b, op, group);
    }
  }

  /** Each packet comes from a socket whose name may not write in the group, and neither closes nor invites. */
  ghost predicate FromReaders(s: System, events: seq<Event>, group: int)
    requires Good(s) && PlainRun(s, events)
  {
    events == [] ||
    var n := |events| - 1;
    var before, e := RunServer(s, events[..n]), events[n];
    && FromReaders(s, events[..n], group)
    && !HasLevel(before.store, group, NameAt(Drained(before.sessions, e.gone), e.sock), READ_WRITE)
    && (ParseText(e.text).Ok? ==> ParseText(e.text).value.code !in [GR_CLOSE_GROUP, GR_INVITE_USER])
  }

  /** Readers and strangers who neither close nor invite change nothing, over every run. */
  lemma {:induction false} ReadersChangeNothing(s: System, events: seq<Event>, group: int)
    requires Good(s) && PlainRun(s, events) && FromReaders(s, events, group) && group in S.Codes(s.store.groups)
    ensures Current(RunServer(s, events).store, group) == Current(s.store, group)
    ensures group in S.Codes(RunServer(s, events).store.groups)
  {
    if events != [] {
      var n := |events| - 1;
      ReadersChangeNothing(s, events[..n], group);
      ReaderChangesNothing(RunServer(s, events[..n]), events[n], group);
      GroupsHaveMembers(s.store, group);
      GroupsHaveMembers(RunServer(s, events).store, group);
    }
  }

  lemma ReaderChangesNothing(s: System, e: Event, group: int)
    requires Good(s) && Plain(s.store, e.text) && group in S.Codes(s.store.groups)
    requires !HasLevel(s.store, group, NameAt(Drained(s.sessions, e.gone), e.sock), READ_WRITE)
    requires ParseText(e.text).Ok? ==> ParseText(e.text).value.code !in [GR_CLOSE_GROUP, GR_INVITE_USER]
    ensures Current(Served(s, e).store, group) == Current(s.store, group)
  {
    if Current(Served(s, e).store, group) != Current(s.store, group) {
      ChangesComeFromMembers(s, e, group);
      AuthorizedWrites(s.store, Accepted(s, e).value);
    }
  }

  /** Every level that is asked for allows writing. */
  lemma AuthorizedWrites(st: S.Store, op: S.Op)
    requires !op.Create? && Authorized(st, op)
    ensures HasLevel(st, op.code, op.effector, READ_WRITE)
  {
  }

  lemma GroupsHaveMembers(st: S.Store, group: int)
    requires S.Inv(st)
    ensures group in S.Codes(st.groups) <==> Current(st, group).members != map[]
  {
    if group in S.Codes(st.groups) {
      var g :| g in st.groups && g.code == group;
      assert S.GoodGroup(st.lastCode, st.members, g);
      assert B.HoldsMember(U.Meaning(st), group, g.admin, "admin");
      assert g.admin in Current(st, group).members;
    }
  }

  // ---- who reads a group's mail ----

  lemma BroadcastStaysInside(st: S.Store, code: int, message: string, m: Envelope)
    requires m in ToMembers(Where(st.members, InGroup(code)), message)
    ensures HasUser(st, code, m.to)
  {
    var rows := Where(st.members, InGroup(code));
    var k :| 0 <= k < |rows| && ToMembers(rows, message)[k] == m;
    assert rows[k] in rows;
  }

  lemma InvitationStaysInside(st: S.Store, code: int, codeText: string, user: string, status: string, m: Envelope)
    requires MemberRow(code, user, status) in st.members
    requires m in InviteEnvelopes(st, code, codeText, user, status)
    ensures HasUser(st, code, m.to)
  {
    var message := Packet(PGM_CTR_NEW_USER, [codeText, S.NameOf(st.groups, code), user, status]);
    if m in ToMembers(Where(st.members, InGroup(code)), message) {
      BroadcastStaysInside(st, code, message, m);
    } else {
      assert m.to == user;
    }
  }

  /**
   The notices of an accepted operation go to those who are members before or after it; only when somebody is expelled
   does one go to a user who is named like the text of the group's code, if there is one.
   */
  lemma NoticesStayInside(st: S.Store, op: S.Op, args: seq<string>, m: Envelope)
    requires S.Inv(st) && !op.Create? && S.Apply(st, op).1.Ok? && Requested(op, args)
    requires m in Notices(st, S.Apply(st, op).0, op, args)
    ensures || HasUser(st, op.code, m.to) || HasUser(S.Apply(st, op).0, op.code, m.to)
            || (op.Expel? && m.to == args[0])
  {
    var st' := S.Apply(st, op).0;
    if op.Add? {
      InvitationStaysInside(st', op.code, args[0], op.username, op.status, m);
    } else if !(op.Expel? && m.to == args[0]) {
      BroadcastStaysInside(if op.Remove? then st else st', op.code, m.message, m);
    }
  }

  /** So for packets: what is not about an accepted operation goes to the user who logs in or restores. */
  lemma MailStaysInside(s: System, e: Event, m: Envelope)
    requires Good(s) && Plain(s.store, e.text) && m in Mail(s, e)
    ensures var op := Accepted(s, e);
            if op.Some? then
              && !op.value.Create?
              && (|| HasUser(s.store, op.value.code, m.to) || HasUser(Served(s, e).store, op.value.code, m.to)
                  || (op.value.Expel? && m.to == ParseText(e.text).value.args[0]))
            else
              && Reached(s, e).Some?
              && (Reached(s, e).value == RestoreGroups ==> m.to == NameAt(Drained(s.sessions, e.gone), e.sock))
              && (Reached(s, e).value.LogIn? ==> m.to == Reached(s, e).value.username)
              && (Reached(s, e).value.LogIn? || Reached(s, e).value.RestoreGroups?)
  {
    if Accepted(s, e).Some? {
      TablesAfter(s, e);
      AcceptedRequest(s, e);
      AcceptedMail(s, e);
      NoticesStayInside(s.store, Accepted(s, e).value, ParseText(e.text).value.args, m);
    }
  }
}
