/**
 The protocol parser (ServerIList/Parser.cpp): structure `@code|arg1|arg2||`.
 `ParseText` says what the constructor decides; `Parse` is the constructor with its loops.
 */
module Parser {
  import opened Errors
  import opened Text
  import opened Decimal
  import opened Config

  datatype Message = Message(code: int, args: seq<string>)

  /** An argument the protocol can carry: non-empty, without `|`, `'` and `--`. */
  ghost predicate Sendable(arg: string) {
    arg != "" && '|' !in arg && '\'' !in arg && !Doubled(arg, '-')
  }

  ghost predicate AllSendable(args: seq<string>) {
    forall a | a in args :: Sendable(a)
  }

  /** `msg` is "@", the code text and each argument followed by a bar, and one more bar. */
  ghost predicate Frames(msg: string, codeText: string, args: seq<string>) {
    && msg == Join(["@" + codeText] + args + ["", ""], '|')
    && '|' !in codeText
    && AllFree(args, '|')
    && "" !in args
  }

  ghost function ParseText(msg: string): Result<Message> {
    if |msg| < 4 then Err(SyntaxError)
    else if '\'' in msg || Doubled(msg, '-') then Err(SqlInjection)
    else if msg[0] != '@' || msg[|msg| - 2..] != "||" || Doubled(msg[..|msg| - 1], '|') then Err(SyntaxError)
    else
      var pieces := Split(msg[..|msg| - 2], '|');
      var code := if pieces[0] == "" then Err(StdException) else Stoi(pieces[0][1..]);
      if code.Ok? && code.value in ALL_MESSAGES_CODES then Ok(Message(code.value, pieces[1..]))
      else Err(InvalidCodeNumber)
  }

  lemma JoinBar(fields: seq<string>)
    requires |fields| > 0
    ensures Join(fields + [""], '|') == Join(fields, '|') + "|"
  {
    JoinAppend(fields, "", '|');
    var text := Join(fields, '|');
    assert text + ['|'] + "" == text + "|";
  }

  /** Two empty fields at the end print as two closing bars. */
  lemma JoinClose(fields: seq<string>)
    requires |fields| > 0
    ensures Join(fields + [""], '|') == Join(fields, '|') + "|"
    ensures Join(fields + ["", ""], '|') == Join(fields, '|') + "||"
  {
    JoinBar(fields);
    JoinTwoBars(fields, fields + [""], Join(fields, '|'));
  }

  lemma JoinTwoBars(fields: seq<string>, one: seq<string>, text: string)
    requires |one| > 0 && one == fields + [""] && Join(one, '|') == text + "|"
    ensures Join(fields + ["", ""], '|') == text + "||"
  {
    var bar, empty := "|", "";
    JoinBar(one);
    assert one + [empty] == fields + ["", ""];
    assert text + bar + bar == text + "||";
  }

  /** The two trailing bars are two empty pieces. */
  lemma SplitBars(msg: string)
    requires |msg| >= 2 && msg[|msg| - 2..] == "||"
    ensures var pieces := Split(msg[..|msg| - 2], '|');
            && msg == Join(pieces + ["", ""], '|')
            && msg[..|msg| - 1] == Join(pieces + [""], '|')
            && AllFree(pieces, '|')
  {
    var body := msg[..|msg| - 2];
    var pieces := Split(body, '|');
    JoinSplit(body, '|');
    SplitFree(body, '|');
    JoinClose(pieces);
    assert msg == body + "||" && msg[..|msg| - 1] == body + "|";
  }

  /** A framed message has exactly the pieces it was framed from. */
  lemma SplitFrame(msg: string, codeText: string, args: seq<string>)
    requires Frames(msg, codeText, args)
    ensures |msg| >= 3 && msg[0] == '@' && msg[|msg| - 2..] == "||"
    ensures Split(msg[..|msg| - 2], '|') == ["@" + codeText] + args
    ensures !Doubled(msg[..|msg| - 1], '|')
  {
    var fields := ["@" + codeText] + args;
    SplitJoin(fields, '|');
    JoinClose(fields);
    var body := Join(fields, '|');
    assert msg == body + "||" && body[0] == '@';
    assert msg[..|msg| - 2] == body && msg[..|msg| - 1] == body + "|" == Join(fields + [""], '|');
    DoubledJoin(fields + [""], '|');
    assert forall i :: 0 < i < |fields| ==> fields[i] == args[i - 1];
  }

  /**
   The language of the parser, both ways: it accepts exactly the framed messages without `'` and `--` whose code text
   `stoi` reads as a code of the table, and it returns that code and the framed arguments.
   */
  lemma ParseAccepts(msg: string, code: int, args: seq<string>)
    ensures ParseText(msg) == Ok(Message(code, args)) <==>
              && '\'' !in msg && !Doubled(msg, '-')
              && code in ALL_MESSAGES_CODES
              && exists codeText :: Frames(msg, codeText, args) && Stoi(codeText) == Ok(code)
  {
    if ParseText(msg) == Ok(Message(code, args)) {
      SplitBars(msg);
      var pieces := Split(msg[..|msg| - 2], '|');
      DoubledJoin(pieces + [""], '|');
      var codeText := pieces[0][1..];
      assert pieces[0] in pieces;
      FirstCharacter(pieces + ["", ""], '|');
      assert pieces[0] == "@" + codeText;
      assert pieces + ["", ""] == ["@" + codeText] + args + ["", ""];
      assert forall a | a in args :: a in pieces;
      forall k | 0 <= k < |args| ensures args[k] != "" {
        assert (pieces + [""])[k + 1] == args[k];
      }
      assert Frames(msg, codeText, args);
    }
    if exists codeText :: Frames(msg, codeText, args) && Stoi(codeText) == Ok(code) {
      var codeText :| Frames(msg, codeText, args) && Stoi(codeText) == Ok(code);
      SplitFrame(msg, codeText, args);
      var fields := ["@" + codeText] + args;
      assert fields[0][1..] == codeText && fields[1..] == args;
      assert Stoi("") == Err(StdException);
      FrameLength(msg, codeText, args);
    }
  }

  lemma FirstCharacter(fields: seq<string>, sep: char)
    requires |fields| > 1
    ensures Join(fields, sep) != ""
    ensures Join(fields, sep)[0] == if fields[0] == "" then sep else fields[0][0]
  {
  }

  lemma FrameLength(msg: string, codeText: string, args: seq<string>)
    requires Frames(msg, codeText, args)
    ensures |msg| >= 3 + |codeText|
  {
    JoinClose(["@" + codeText] + args);
  }

  /** The three ways of being refused, exactly. */
  lemma RefusedExactly(msg: string)
    ensures |msg| < 4 ==> ParseText(msg) == Err(SyntaxError)
    ensures |msg| >= 4 ==>
              (ParseText(msg) == Err(SqlInjection) <==>
                 '\'' in msg || exists i :: 0 <= i < |msg| - 1 && msg[i] == '-' && msg[i + 1] == '-')
    ensures |msg| >= 4 && '\'' !in msg && !Doubled(msg, '-') ==>
              if exists codeText, args :: Frames(msg, codeText, args) then
                forall codeText, args | Frames(msg, codeText, args) ::
                  ParseText(msg) == if Stoi(codeText).Ok? && Stoi(codeText).value in ALL_MESSAGES_CODES
                                    then Ok(Message(Stoi(codeText).value, args)) else Err(InvalidCodeNumber)
              else ParseText(msg) == Err(SyntaxError)
  {
    assert Doubled(msg, '-') <==> exists i :: 0 <= i < |msg| - 1 && msg[i] == '-' && msg[i + 1] == '-';
    if |msg| >= 4 && '\'' !in msg && !Doubled(msg, '-') {
      forall codeText, args | Frames(msg, codeText, args)
        ensures ParseText(msg) == if Stoi(codeText).Ok? && Stoi(codeText).value in ALL_MESSAGES_CODES
                                  then Ok(Message(Stoi(codeText).value, args)) else Err(InvalidCodeNumber)
      {
        FramedIsRead(msg, codeText, args);
      }
      if msg[0] == '@' && msg[|msg| - 2..] == "||" && !Doubled(msg[..|msg| - 1], '|') {
        var codeText, args := Framed(msg);
      }
    }
  }

  lemma FramedIsRead(msg: string, codeText: string, args: seq<string>)
    requires |msg| >= 4 && '\'' !in msg && !Doubled(msg, '-') && Frames(msg, codeText, args)
    ensures ParseText(msg) == if Stoi(codeText).Ok? && Stoi(codeText).value in ALL_MESSAGES_CODES
                              then Ok(Message(Stoi(codeText).value, args)) else Err(InvalidCodeNumber)
  {
    SplitFrame(msg, codeText, args);
    var fields := ["@" + codeText] + args;
    assert fields[0][1..] == codeText && fields[1..] == args;
  }

  lemma Framed(msg: string) returns (codeText: string, args: seq<string>)
    requires |msg| >= 4 && msg[0] == '@' && msg[|msg| - 2..] == "||" && !Doubled(msg[..|msg| - 1], '|')
    ensures Frames(msg, codeText, args)
  {
    SplitBars(msg);
    var pieces := Split(msg[..|msg| - 2], '|');
    DoubledJoin(pieces + [""], '|');
    codeText, args := pieces[0][1..], pieces[1..];
    assert pieces[0] in pieces;
    FirstCharacter(pieces + ["", ""], '|');
    assert pieces[0] == "@" + codeText;
    assert pieces + ["", ""] == ["@" + codeText] + args + ["", ""];
    assert forall a | a in args :: a in pieces;
    forall k | 0 <= k < |args| ensures args[k] != "" {
      assert (pieces + [""])[k + 1] == args[k];
    }
  }

  /** What an accepted message looks like; its arguments can be sent again. */
  lemma AcceptedIsFramed(msg: string) returns (codeText: string)
    requires ParseText(msg).Ok?
    ensures var m := ParseText(msg).value;
            && Frames(msg, codeText, m.args) && Stoi(codeText) == Ok(m.code)
            && m.code in ALL_MESSAGES_CODES && AllSendable(m.args)
  {
    var m := ParseText(msg).value;
    ParseAccepts(msg, m.code, m.args);
    codeText :| Frames(msg, codeText, m.args) && Stoi(codeText) == Ok(m.code);
    var fields := ["@" + codeText] + m.args + ["", ""];
    DoubledJoinOther(fields, '|', '-');
    InJoin(fields, '|', '\'');
    assert forall a | a in m.args :: a in fields;
  }

  /** The number of arguments is the number of bars less two. */
  lemma {:induction false} BarsOfJoin(fields: seq<string>)
    requires |fields| > 0 && AllFree(fields, '|')
    ensures multiset(Join(fields, '|'))['|'] == |fields| - 1
  {
    assert fields[0] in fields;
    if |fields| > 1 {
      BarsOfJoin(fields[1..]);
    }
  }

  lemma ArgumentsAreBarsLessTwo(msg: string)
    requires ParseText(msg).Ok?
    ensures |ParseText(msg).value.args| + 2 == multiset(msg)['|']
  {
    var codeText := AcceptedIsFramed(msg);
    BarsOfJoin(["@" + codeText] + ParseText(msg).value.args + ["", ""]);
  }

  // ---- the constructor's loops ----

  method SameCharInARow(str: string, ch: char) returns (found: bool)
    requires |str| > 0
    ensures found <==> Doubled(str, ch)
  {
    var i := 0;
    while i < |str| - 1
      invariant 0 <= i <= |str| - 1
      invariant forall k :: 0 <= k < i ==> !(str[k] == ch && str[k + 1] == ch)
    {
      if str[i] == str[i + 1] && str[i] == ch {
        return true;
      }
      i := i + 1;
    }
    return false;
  }

  /** One `std::getline`: the characters up to the next `ch` or the end, and where reading goes on. */
  method GetLine(str: string, from: nat, ch: char) returns (item: string, next: nat)
    requires from < |str|
    ensures from < next <= |str| + 1 && item == str[from..next - 1]
    ensures ch !in item && (next <= |str| ==> str[next - 1] == ch)
    ensures LinesFrom(str, from, ch) == [item] + LinesFrom(str, next, ch)
  {
    var end := from;
    while end < |str| && str[end] != ch
      invariant from <= end <= |str|
      invariant ch !in str[from..end]
    {
      end := end + 1;
    }
    item, next := str[from..end], end + 1;
    if end < |str| {
      ghost var rest := [str[end]] + str[end + 1..];
      assert str[end..] == rest && str[from..] == item + rest;
      assert item + rest == item + [str[end]] + str[end + 1..];
    } else {
      assert str[from..] == item;
    }
    LinesFromStep(str, from, item, next, ch);
  }

  ghost function LinesFrom(str: string, pos: nat, ch: char): seq<string> {
    if pos <= |str| then Lines(str[pos..], ch) else []
  }

  lemma LinesFromStep(str: string, pos: nat, item: string, next: nat, ch: char)
    requires pos < |str| && ch !in item && pos < next <= |str| + 1
    requires if next <= |str| then str[pos..] == item + [ch] + str[next..] else str[pos..] == item
    ensures LinesFrom(str, pos, ch) == [item] + LinesFrom(str, next, ch)
  {
    LinesStep(item, if next <= |str| then str[next..] else "", ch);
  }

  lemma LinesFromEnds(str: string, ch: char)
    ensures LinesFrom(str, 0, ch) == Lines(str, ch)
    ensures forall pos: nat :: pos >= |str| ==> LinesFrom(str, pos, ch) == []
  {
  }

  method SplitLines(str: string, ch: char) returns (args: seq<string>)
    ensures args == Lines(str, ch)
  {
    args := [];
    var pos := 0;
    ghost var all := Lines(str, ch);
    LinesFromEnds(str, ch);
    while pos < |str|
      invariant 0 <= pos <= |str| + 1
      invariant all == args + LinesFrom(str, pos, ch)
    {
      var item, next := GetLine(str, pos, ch);
      ghost var later := LinesFrom(str, next, ch);
      assert args + ([item] + later) == (args + [item]) + later;
      args := args + [item];
      pos := next;
    }
  }

  method Parse(msg: string) returns (r: Result<Message>)
    ensures r == ParseText(msg)
  {
    if |msg| < 4 {
      return Err(SyntaxError);
    }
    var dashes := SameCharInARow(msg, '-');
    if '\'' in msg || dashes {
      return Err(SqlInjection);
    }
    if msg[0] != '@' || msg[|msg| - 2..] != "||" {
      return Err(SyntaxError);
    }
    var bars := SameCharInARow(msg[..|msg| - 1], '|');
    if bars {
      return Err(SyntaxError);
    }
    SplitBars(msg);
    var args := SplitLines(msg, '|');
    ghost var pieces := Split(msg[..|msg| - 2], '|');
    LinesOfClosed(pieces);
    FirstCharacter(pieces + ["", ""], '|');
    var code := Stoi(args[0][1..]);
    if code.Err? {
      return Err(InvalidCodeNumber);
    }
    CodesAreSorted();
    var known := FindMsgCode(ALL_MESSAGES_CODES, code.value);
    if !known {
      return Err(InvalidCodeNumber);
    }
    args := args[1..];
    args := args[..|args| - 1];
    assert args == pieces[1..];
    return Ok(Message(code.value, args));
  }

  lemma LinesOfJoin(all: seq<string>, front: seq<string>)
    requires |front| > 0 && AllFree(front, '|') && all == front + [""]
    ensures Lines(Join(all, '|'), '|') == front
  {
    SplitJoin(all, '|');
    assert all[..|all| - 1] == front;
  }

  lemma LinesOfClosed(pieces: seq<string>)
    requires |pieces| > 0 && AllFree(pieces, '|')
    ensures Lines(Join(pieces + ["", ""], '|'), '|') == pieces + [""]
  {
    var front := pieces + [""];
    assert pieces + ["", ""] == front + [""];
    LinesOfJoin(front + [""], front);
  }
}
