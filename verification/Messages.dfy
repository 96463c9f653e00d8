/** The message printers `makeReceiveMessgae` (ServerIList/Manager.cpp) and their round trips with the parser. */
module Messages {
  import opened Errors
  import opened Text
  import opened Decimal
  import opened Config
  import opened Parser
  import opened Tables

  /** A message as a joined string: head, arguments, and two empty fields for the closing bars. */
  ghost function Packet(code: int, args: seq<string>): string {
    Join(["@" + ToString(code)] + args + ["", ""], '|')
  }

  /** A table row as one argument. */
  function RowText(row: seq<string>): string {
    if row == [] then "" else Join(row, ',')
  }

  lemma {:induction false} PacketGrows(code: int, args: seq<string>, arg: string)
    ensures Packet(code, args + [arg]) == Packet(code, args)[..|Packet(code, args)| - 1] + arg + "||"
    ensures |Packet(code, args)| > 0 && Packet(code, []) == "@" + ToString(code) + "||"
  {
    var fields := ["@" + ToString(code)] + args;
    JoinClose(fields);
    JoinClose(fields + [arg]);
    assert fields + [arg] == ["@" + ToString(code)] + (args + [arg]);
    JoinAppend(fields, arg, '|');
    JoinClose(["@" + ToString(code)]);
    assert ["@" + ToString(code)] + [] == ["@" + ToString(code)];
  }

  /** The vector form. */
  method MakeVectorMessage(msgCode: int, args: seq<string>) returns (receive: string)
    ensures receive == Packet(msgCode, args)
  {
    receive := "@" + ToString(msgCode) + "|";
    PacketGrows(msgCode, [], "");
    for col := 0 to |args|
      invariant receive + "|" == Packet(msgCode, args[..col])
    {
      PacketGrows(msgCode, args[..col], args[col]);
      assert args[..col] + [args[col]] == args[..col + 1];
      receive := receive + (args[col] + "|");
    }
    assert args[..|args|] == args;
    receive := receive + "|";
  }

  lemma RowGrows(before: string, row: seq<string>, k: nat)
    requires k < |row|
    ensures before + RowText(row[..k + 1]) == before + RowText(row[..k]) + (if k > 0 then "," else "") + row[k]
  {
    assert row[..k] + [row[k]] == row[..k + 1];
    if k > 0 {
      JoinAppend(row[..k], row[k], ',');
      assert before + (RowText(row[..k]) + "," + row[k]) == before + RowText(row[..k]) + "," + row[k];
    }
  }

  /** The table form: rows, whose cells are separated by commas. The width of the first row is used for every row. */
  method MakeTableMessage(msgCode: int, args: seq<seq<string>>) returns (receive: string)
    requires forall i :: 0 <= i < |args| ==> |args[i]| == |args[0]|
    ensures receive == Packet(msgCode, Map(args, RowText))
  {
    ghost var texts := Map(args, RowText);
    receive := "@" + ToString(msgCode) + "|";
    PacketGrows(msgCode, [], "");
    for col := 0 to |args|
      invariant receive + "|" == Packet(msgCode, texts[..col])
    {
      ghost var before := receive;
      for row := 0 to |args[0]|
        invariant receive == before + RowText(args[col][..row])
      {
        RowGrows(before, args[col], row);
        if row > 0 {
          receive := receive + ",";
        }
        receive := receive + args[col][row];
      }
      assert args[col][..|args[0]|] == args[col];
      PacketGrows(msgCode, texts[..col], texts[col]);
      assert texts[..col] + [texts[col]] == texts[..col + 1];
      receive := receive + "|";
    }
    assert texts[..|args|] == texts;
    receive := receive + "|";
  }

  /** The string form. */
  method MakeTextMessage(msgCode: int, arg: string) returns (receive: string)
    ensures receive == Packet(msgCode, [arg])
  {
    receive := "@" + ToString(msgCode) + "|" + arg + "||";
    PacketGrows(msgCode, [], arg);
    assert [] + [arg] == [arg];
  }

  lemma CodesPrintPlain(code: int)
    requires code in ALL_MESSAGES_CODES
    ensures Stoi(ToString(code)) == Ok(code) && AllDigits(ToString(code)) && ToString(code) != ""
  {
    CodeRange(code);
    ReadsBack(code);
    ToStringCharacters(code);
  }

  /** Print, then parse: the identity on every code of the table and every vector of sendable arguments. */
  lemma PrintThenParse(code: int, args: seq<string>)
    requires code in ALL_MESSAGES_CODES && AllSendable(args)
    ensures ParseText(Packet(code, args)) == Ok(Message(code, args))
  {
    CodesPrintPlain(code);
    PacketIsClean(code, args);
    assert Frames(Packet(code, args), ToString(code), args);
    ParseAccepts(Packet(code, args), code, args);
  }

  lemma PacketIsClean(code: int, args: seq<string>)
    requires AllDigits(ToString(code)) && AllSendable(args)
    ensures '\'' !in Packet(code, args) && !Doubled(Packet(code, args), '-')
  {
    var head := "@" + ToString(code);
    var fields := [head] + args + ["", ""];
    assert forall f | f in fields :: f == head || f in args || f == "";
    assert '\'' !in head && !Doubled(head, '-');
    DoubledJoinOther(fields, '|', '-');
    InJoin(fields, '|', '\'');
  }

  /** The condition is exact: an argument vector that comes back unchanged is sendable. */
  lemma OnlySendableComesBack(code: int, args: seq<string>)
    requires ParseText(Packet(code, args)) == Ok(Message(code, args))
    ensures code in ALL_MESSAGES_CODES && AllSendable(args)
  {
    var codeText := AcceptedIsFramed(Packet(code, args));
  }

  /** Whatever is printed: if it is accepted at all, then with its own code, and with its first argument. */
  lemma PacketHead(code: int, args: seq<string>)
    requires ParseText(Packet(code, args)).Ok?
    ensures var m := ParseText(Packet(code, args)).value;
            && m.code == code
            && (args != [] && args[0] != "" && '|' !in args[0] ==> m.args != [] && m.args[0] == args[0])
  {
    var m := ParseText(Packet(code, args)).value;
    var codeText := AcceptedIsFramed(Packet(code, args));
    var pieces := ["@" + codeText] + m.args + ["", ""];
    SplitJoin(pieces, '|');
    PacketPieces(code, args);
    var head := "@" + ToString(code);
    assert pieces[0] == head && codeText == head[1..] == ToString(code);
    ReadsBack(code);
    if args != [] && args[0] != "" && '|' !in args[0] {
      assert pieces[1] == args[0];
    }
  }

  /** The first pieces of a printed packet. */
  lemma PacketPieces(code: int, args: seq<string>)
    ensures var pieces := Split(Packet(code, args), '|');
            && pieces[0] == "@" + ToString(code)
            && (args != [] && '|' !in args[0] ==> |pieces| > 1 && pieces[1] == args[0])
  {
    ToStringCharacters(code);
    var head, tail := "@" + ToString(code), args + ["", ""];
    assert ([head] + args + ["", ""])[1..] == tail;
    SplitHead(head, Join(tail, '|'), '|');
    if args != [] && '|' !in args[0] {
      SplitHead(args[0], Join(tail[1..], '|'), '|');
    }
  }

  /** Parse, then print: an accepted message whose code text is canonical is printed back character for character. */
  lemma ParseThenPrint(msg: string)
    requires ParseText(msg).Ok?
    ensures var m := ParseText(msg).value;
            msg == Packet(m.code, m.args) <==> Split(msg, '|')[0] == "@" + ToString(m.code)
  {
    var m := ParseText(msg).value;
    var codeText := AcceptedIsFramed(msg);
    SplitJoin(["@" + codeText] + m.args + ["", ""], '|');
    CodesPrintPlain(m.code);
    SplitJoin(["@" + ToString(m.code)] + m.args + ["", ""], '|');
  }

  /** What the client is sent when a request throws. */
  function ErrorReply(e: Exception): string {
    "@500|" + What(e) + "||"
  }
}
