/** The texts of the messages, written out: "@", a number, a bar, each argument with a bar, and a last bar. */
module Lines {
  import opened Decimal
  import opened Messages

  function Barred(args: seq<string>): string {
    if args == [] then "" else Barred(args[..|args| - 1]) + args[|args| - 1] + "|"
  }

  function Line(number: string, args: seq<string>): string {
    "@" + number + "|" + Barred(args) + "|"
  }

  lemma {:induction false} LineIsPacket(code: int, args: seq<string>)
    ensures Packet(code, args) == Line(ToString(code), args)
  {
    if args == [] {
      PacketGrows(code, [], "");
    } else {
      var n := |args| - 1;
      LineIsPacket(code, args[..n]);
      PacketGrows(code, args[..n], args[n]);
      assert args[..n] + [args[n]] == args;
      var head, before, last := "@" + ToString(code) + "|", Barred(args[..n]), args[n];
      assert (head + before + "|")[..|head + before + "|"| - 1] == head + before;
      assert head + before + last + "||" == head + (before + last + "|") + "|";
    }
  }

  /** The numbers of the messages to clients. */
  lemma Numbers()
    ensures ToString(100) == "100" && ToString(101) == "101" && ToString(102) == "102" && ToString(106) == "106"
    ensures ToString(110) == "110" && ToString(112) == "112" && ToString(113) == "113" && ToString(114) == "114"
    ensures ToString(200) == "200" && ToString(201) == "201" && ToString(202) == "202"
    ensures ToString(400) == "400" && ToString(500) == "500"
  {
    assert Digits(1) == "1" && Digits(2) == "2" && Digits(4) == "4" && Digits(5) == "5";
    assert Digits(10) == "10" && Digits(11) == "11" && Digits(20) == "20" && Digits(40) == "40" && Digits(50) == "50";
  }
}
