/** What repeated adds and edits of list items amount to. */
module ListLaws {
  import opened Errors
  import opened Decimal
  import opened Tables
  import opened Store
  import opened Book
  import opened Refinement
  import opened Runs

  function Sum(quantities: seq<int>): int {
    if quantities == [] then 0 else Sum(quantities[..|quantities| - 1]) + quantities[|quantities| - 1]
  }

  /** A quantity text that SQL and `stoi` both read as the 32-bit number `q`; every printed one is such a text. */
  ghost predicate Reads(text: string, q: int) {
    Stoi(text) == Ok(q) && SqlInteger(text) == Some(q)
  }

  lemma PrintedReads(q: int)
    requires IsInt32(q)
    ensures Reads(ToString(q), q)
  {
    ReadsBack(q);
  }

  /** One addItem call on an item: who makes it, the quantity and the remarks. */
  datatype Entry = Entry(effector: string, text: string, remarks: string)

  ghost predicate AllRead(adds: seq<Entry>, quantities: seq<int>) {
    |adds| == |quantities| && forall k :: 0 <= k < |adds| ==> Reads(adds[k].text, quantities[k])
  }

  /** An unbroken run of addItem calls on one item, by whomever. */
  ghost function Puts(code: int, item: string, adds: seq<Entry>): seq<Op> {
    Map(adds, (a: Entry) => Put(a.effector, code, item, a.text, a.remarks))
  }

  lemma WrapTwice(a: int, b: int)
    ensures Wrap32(Wrap32(a) + b) == Wrap32(a + b)
  {
  }

  function AddAll(b: Book, code: int, item: string, adds: seq<Entry>): Book {
    if adds == [] then b
    else
      var n := |adds| - 1;
      Note(AddAll(b, code, item, adds[..n]), adds[n].effector, code, item, adds[n].text, adds[n].remarks).0
  }

  lemma {:induction false} RunOfPuts(b: Book, code: int, item: string, adds: seq<Entry>)
    ensures RunBook(b, Puts(code, item, adds)) == AddAll(b, code, item, adds)
  {
    if adds != [] {
      var n := |adds| - 1;
      RunOfPuts(b, code, item, adds[..n]);
      var ops := Puts(code, item, adds);
      assert ops[..n] == Puts(code, item, adds[..n]);
      LastPut(b, ops, code, item, adds[n]);
    }
  }

  lemma LastPut(b: Book, ops: seq<Op>, code: int, item: string, a: Entry)
    requires |ops| > 0 && ops[|ops| - 1] == Put(a.effector, code, item, a.text, a.remarks)
    ensures RunBook(b, ops) == Note(RunBook(b, ops[..|ops| - 1]), a.effector, code, item, a.text, a.remarks).0
  {
  }

  /** The map with one item set. */
  function WithItem(b: Book, code: int, item: string, quantity: int, remarks: string): Book
    requires code in b.groups
  {
    WithItems(b, code, b.groups[code].items[item := Item(quantity, remarks)])
  }

  /** What 32-bit additions make of the quantities, one after the other. */
  function Accumulated(quantities: seq<int>): int {
    if quantities == [] then 0
    else Wrap32(Accumulated(quantities[..|quantities| - 1]) + quantities[|quantities| - 1])
  }

  /** Wrapping at every step is wrapping once at the end. */
  lemma {:induction false} AccumulatedIsSum(quantities: seq<int>)
    ensures Accumulated(quantities) == Wrap32(Sum(quantities))
  {
    if quantities != [] {
      var n := |quantities| - 1;
      AccumulatedIsSum(quantities[..n]);
      WrapTwice(Sum(quantities[..n]), quantities[n]);
    }
  }

  ghost predicate AllWrite(b: Book, code: int, adds: seq<Entry>) {
    forall k :: 0 <= k < |adds| ==> Can(b, code, adds[k].effector, WRITERS)
  }

  /**
   From the absence of the item, with quantities that fit into 32 bits, added by any members who may write: the stored
   quantity is what has accumulated, and the remarks are those of the first add.
   */
  lemma {:induction false} AddsAccumulate(b: Book, code: int, item: string, adds: seq<Entry>, quantities: seq<int>)
    requires adds != [] && AllWrite(b, code, adds) && AllRead(adds, quantities) && !Listed(b, code, item)
    ensures Can(b, code, adds[0].effector, WRITERS)
    ensures AddAll(b, code, item, adds) == WithItem(b, code, item, Accumulated(quantities), adds[0].remarks)
  {
    PrefixReads(b, code, adds, quantities);
    if |adds| == 1 {
      FirstAdd(b, code, item, adds, quantities);
    } else {
      var n := |adds| - 1;
      AddsAccumulate(b, code, item, adds[..n], quantities[..n]);
      OneMoreAdd(b, code, item, adds, quantities);
    }
  }

  lemma PrefixReads(b: Book, code: int, adds: seq<Entry>, quantities: seq<int>)
    requires adds != [] && AllWrite(b, code, adds) && AllRead(adds, quantities)
    ensures var n := |adds| - 1;
            && AllWrite(b, code, adds[..n]) && AllRead(adds[..n], quantities[..n])
            && Can(b, code, adds[n].effector, WRITERS) && Reads(adds[n].text, quantities[n])
  {
  }

  lemma FirstAdd(b: Book, code: int, item: string, adds: seq<Entry>, quantities: seq<int>)
    requires |adds| == |quantities| == 1 && !Listed(b, code, item)
    requires Can(b, code, adds[0].effector, WRITERS) && Reads(adds[0].text, quantities[0])
    ensures AddAll(b, code, item, adds) == WithItem(b, code, item, Accumulated(quantities), adds[0].remarks)
  {
    assert adds[..0] == [] && quantities[..0] == [];
  }

  lemma OneMoreAdd(b: Book, code: int, item: string, adds: seq<Entry>, quantities: seq<int>)
    requires |adds| == |quantities| > 1
    requires var n := |adds| - 1;
             && Can(b, code, adds[n].effector, WRITERS) && Reads(adds[n].text, quantities[n])
             && AddAll(b, code, item, adds[..n]) ==
                WithItem(b, code, item, Accumulated(quantities[..n]), adds[..n][0].remarks)
    ensures AddAll(b, code, item, adds) == WithItem(b, code, item, Accumulated(quantities), adds[0].remarks)
  {
    var n := |adds| - 1;
    NextAdd(AddAll(b, code, item, adds[..n]), b, code, item, Accumulated(quantities[..n]), adds[n], quantities[n],
            adds[0].remarks);
  }

  lemma NextAdd(before: Book, b: Book, code: int, item: string, sum: int, a: Entry, q: int, first: string)
    requires Can(b, code, a.effector, WRITERS) && before == WithItem(b, code, item, sum, first)
    requires IsInt32(sum) && Reads(a.text, q)
    ensures Note(before, a.effector, code, item, a.text, a.remarks).0 == WithItem(b, code, item, Wrap32(sum + q), first)
  {
    var items := b.groups[code].items;
    NoteListed(before, a.effector, code, item, sum, a.text, a.remarks);
    var after := items[item := Item(Wrap32(sum + q), first)];
    assert before.groups[code].items[item := Item(Wrap32(sum + q), first)] == after;
    assert WithItems(before, code, after).groups == WithItems(b, code, after).groups;
  }

  lemma {:induction false} SumOfConcat(a: seq<int>, c: seq<int>)
    ensures Sum(a + c) == Sum(a) + Sum(c)
  {
    if c == [] {
      assert a + c == a;
    } else {
      var n := |c| - 1;
      SumOfConcat(a, c[..n]);
      assert (a + c)[..|a + c| - 1] == a + c[..n];
    }
  }

  /** The sum does not depend on the order. */
  lemma {:induction false} SumOfPermutation(a: seq<int>, c: seq<int>)
    requires multiset(a) == multiset(c)
    ensures Sum(a) == Sum(c)
  {
    if a == [] {
      assert |multiset(c)| == 0;
    } else {
      var n := |a| - 1;
      assert a == a[..n] + [a[n]];
      assert a[n] in multiset(c);
      var i :| 0 <= i < |c| && c[i] == a[n];
      var rest := Without(c, i);
      assert multiset(a) == multiset(a[..n]) + multiset{a[n]};
      assert multiset(a[..n]) == multiset(a) - multiset{a[n]};
      assert multiset(rest) == multiset(c) - multiset{c[i]};
      SumOfPermutation(a[..n], rest);
    }
  }

  /** `c` without its element at `i`. */
  lemma Without(c: seq<int>, i: nat) returns (rest: seq<int>)
    requires i < |c|
    ensures multiset(c) == multiset(rest) + multiset{c[i]}
    ensures Sum(c) == Sum(rest) + c[i]
  {
    rest := c[..i] + c[i + 1..];
    assert c == c[..i] + ([c[i]] + c[i + 1..]);
    SumOfConcat(c[..i], [c[i]] + c[i + 1..]);
    SumOfConcat([c[i]], c[i + 1..]);
    SumOfConcat(c[..i], c[i + 1..]);
    assert Sum([c[i]]) == c[i] by { assert [c[i]][..0] == []; }
  }

  lemma ManyWrite(st: Store, b: Book, code: int, adds: seq<Entry>)
    requires Inv(st) && Represents(st, b)
    requires forall k :: 0 <= k < |adds| ==> MayWrite(st, adds[k].effector, code).Ok?
    ensures AllWrite(b, code, adds)
  {
    forall k | 0 <= k < |adds| ensures Can(b, code, adds[k].effector, WRITERS) {
      SeesWritten(st, b, adds[k].effector, code);
    }
  }

  /**
   On the tables: the row of the item after the run of adds, for every order of the same quantities. It is the sum
   if and only if the sum fits into 32 bits.
   */
  lemma StoredSum(st: Store, code: int, item: string, adds: seq<Entry>, quantities: seq<int>, reordered: seq<int>)
    requires Inv(st) && adds != [] && !HasItem(st.lists, code, item)
    requires forall k :: 0 <= k < |adds| ==> MayWrite(st, adds[k].effector, code).Ok?
    requires AllRead(adds, quantities) && multiset(reordered) == multiset(quantities)
    ensures var st' := Run(st, Puts(code, item, adds));
            && ItemRow(code, item, Wrap32(Sum(reordered)), adds[0].remarks) in st'.lists
            && (ItemRow(code, item, Sum(reordered), adds[0].remarks) in st'.lists <==> IsInt32(Sum(reordered)))
  {
    var b := Meaning(st);
    ManyWrite(st, b, code, adds);
    SeesItem(st, b, code, item);
    AddsAccumulate(b, code, item, adds, quantities);
    RunOfPuts(b, code, item, adds);
    RunRefines(st, b, Puts(code, item, adds));
    AccumulatedIsSum(quantities);
    SumOfPermutation(reordered, quantities);
    OnlyItem(Run(st, Puts(code, item, adds)), b, code, item, Wrap32(Sum(reordered)), Sum(reordered), adds[0].remarks);
  }

  /** In tables that mean a map with one item set, that is the item's row. */
  lemma OnlyItem(st: Store, b: Book, code: int, item: string, q: int, other: int, remarks: string)
    requires code in b.groups && Represents(st, WithItem(b, code, item, q, remarks))
    ensures ItemRow(code, item, q, remarks) in st.lists
    ensures ItemRow(code, item, other, remarks) in st.lists <==> other == q
  {
    var b' := WithItem(b, code, item, q, remarks);
    assert HoldsItem(b', code, item, q, remarks) <==> ItemRow(code, item, q, remarks) in st.lists;
    assert HoldsItem(b', code, item, other, remarks) <==> ItemRow(code, item, other, remarks) in st.lists;
  }

  /** In particular for quantities that are sent as printed numbers. */
  lemma StoredSumOfPrinted(st: Store, code: int, item: string, adds: seq<Entry>, quantities: seq<int>)
    requires Inv(st) && adds != [] && !HasItem(st.lists, code, item) && |adds| == |quantities|
    requires forall k :: 0 <= k < |adds| ==> MayWrite(st, adds[k].effector, code).Ok?
    requires forall k :: 0 <= k < |adds| ==> IsInt32(quantities[k]) && adds[k].text == ToString(quantities[k])
    ensures ItemRow(code, item, Sum(quantities), adds[0].remarks) in Run(st, Puts(code, item, adds)).lists <==>
            IsInt32(Sum(quantities))
  {
    forall k | 0 <= k < |adds| ensures Reads(adds[k].text, quantities[k]) {
      PrintedReads(quantities[k]);
    }
    StoredSum(st, code, item, adds, quantities, quantities);
  }

  // ---- positive quantities ----

  predicate Positive(q: int) {
    1 <= q <= INT_MAX
  }

  ghost predicate AllPositive(lists: seq<ItemRow>) {
    forall i | i in lists :: Positive(i.quantity)
  }

  /** What addItem adds: a listed item gets what `stoi` reads, a new one what the INSERT reads. */
  function Added(st: Store, op: Op): Option<int>
    requires op.Put?
  {
    if !HasItem(st.lists, op.code, op.item) then SqlInteger(op.quantity)
    else if Stoi(op.quantity).Ok? then Some(Stoi(op.quantity).value)
    else None
  }

  /** What a caller can check before an addItem: what will be stored is a positive number of 32 bits. */
  predicate FitsPut(st: Store, op: Op)
    requires op.Put?
  {
    var before := if HasItem(st.lists, op.code, op.item) then FirstItem(st.lists, op.code, op.item).quantity else 0;
    var added := Added(st, op);
    added.Some? ==> Positive(before + added.value)
  }

  /** An add that succeeds, with whatever text, keeps all quantities positive if and only if the new quantity fits. */
  lemma PutStaysPositive(st: Store, op: Op)
    requires Inv(st) && AllPositive(st.lists) && op.Put? && Apply(st, op).1.Ok?
    ensures AllPositive(Apply(st, op).0.lists) <==> FitsPut(st, op)
  {
    if HasItem(st.lists, op.code, op.item) {
      var q := FirstItem(st.lists, op.code, op.item).quantity;
      FirstItemKey(st.lists, op.code, op.item);
      AddToListed(st, op.effector, op.code, op.item, q, op.quantity, op.remarks);
      SumStaysPositive(st, op, q, Stoi(op.quantity).value);
    } else if SqlInteger(op.quantity).Some? {
      var row := ItemRow(op.code, op.item, SqlInteger(op.quantity).value, op.remarks);
      assert Apply(st, op).0.lists == st.lists + [row];
      assert row in Apply(st, op).0.lists;
    }
  }

  lemma SumStaysPositive(st: Store, op: Op, q: int, inc: int)
    requires Inv(st) && AllPositive(st.lists) && op.Put? && HasItem(st.lists, op.code, op.item)
    requires FirstItem(st.lists, op.code, op.item).quantity == q && Positive(q) && IsInt32(inc)
    ensures AllPositive(Change(st.lists, IsItem(op.code, op.item), SetQuantity(Wrap32(q + inc)))) <==> Positive(q + inc)
  {
    var edit := SetQuantity(Wrap32(q + inc));
    UpdatedRows(st.lists, op.code, op.item, edit);
    var row := edit(FirstItem(st.lists, op.code, op.item));
    assert row in Change(st.lists, IsItem(op.code, op.item), edit);
    WrapOnce(q, inc);
    assert row.quantity == Wrap32(q + inc);
  }

  /** From a positive number, a sum that leaves the positive numbers of 32 bits does not come back by wrapping. */
  lemma WrapOnce(q: int, inc: int)
    requires Positive(q) && IsInt32(inc)
    ensures Positive(Wrap32(q + inc)) <==> Positive(q + inc)
  {
  }

  /** Every other operation keeps them positive: it adds no item, and updateItem admits positive 32-bit numbers only. */
  lemma OthersStayPositive(st: Store, op: Op)
    requires Inv(st) && AllPositive(st.lists) && !op.Put?
    ensures AllPositive(Apply(st, op).0.lists)
  {
    if op.Edit? && Apply(st, op).1.Ok? {
      UpdatedRows(st.lists, op.code, op.item, SetItem(op.newName, Stoi(op.quantity).value, op.remarks));
    }
  }

  /** An add that leaves the 32-bit range is accepted, and the stored quantity is what is left of the sum. */
  lemma OverflowIsStored(st: Store, effector: string, code: int, item: string, text: string, inc: int, remarks: string)
    requires Inv(st) && MayWrite(st, effector, code).Ok? && HasItem(st.lists, code, item) && Reads(text, inc)
    requires IsInt32(FirstItem(st.lists, code, item).quantity)
    ensures var (st', r) := Apply(st, Put(effector, code, item, text, remarks));
            var row := FirstItem(st.lists, code, item);
            r.Ok? && row.(quantity := Wrap32(row.quantity + inc)) in st'.lists
  {
    var q := FirstItem(st.lists, code, item).quantity;
    AddToListed(st, effector, code, item, q, text, remarks);
    UpdatedRows(st.lists, code, item, SetQuantity(Wrap32(q + inc)));
  }

  /** One group with one member and as much milk as there can be. */
  lemma MuchMilk() returns (st: Store)
    ensures Inv(st) && AllPositive(st.lists) && MayWrite(st, "anna", 1).Ok? && HasItem(st.lists, 1, "milk")
    ensures FirstItem(st.lists, 1, "milk").quantity == INT_MAX
  {
    st := Store([GroupRow(1, "g", "anna", "today", 1)], 1, [MemberRow(1, "anna", "admin")],
                [ItemRow(1, "milk", INT_MAX, "r")]);
    assert Usernames(st.members, 1) == {"anna"};
    assert MemberRow(1, "anna", "admin") in Where(st.members, IsMember(1, "anna"));
    assert ItemRow(1, "milk", INT_MAX, "r") in Where(st.lists, IsItem(1, "milk"));
  }

  /** Not every positive add keeps quantities positive: one more than there can be is accepted. */
  lemma PositiveAddsCanWrap() returns (st: Store, op: Op)
    ensures Inv(st) && AllPositive(st.lists) && op.Put? && SqlInteger(op.quantity) == Some(1)
    ensures Apply(st, op).1.Ok? && !AllPositive(Apply(st, op).0.lists)
  {
    st := MuchMilk();
    PrintedReads(1);
    op := Put("anna", 1, "milk", ToString(1), "r");
    OverflowIsStored(st, "anna", 1, "milk", ToString(1), 1, "r");
    PutStaysPositive(st, op);
  }

  /** Each accepted add of the run fits when it is made. */
  ghost predicate FittingRun(st: Store, ops: seq<Op>)
    requires Inv(st)
  {
    ops == [] ||
    var n := |ops| - 1;
    && FittingRun(st, ops[..n])
    && var before := Run(st, ops[..n]);
       ops[n].Put? && Apply(before, ops[n]).1.Ok? ==> FitsPut(before, ops[n])
  }

  /** All quantities are positive at every moment of the run. */
  ghost predicate PositiveThroughout(st: Store, ops: seq<Op>)
    requires Inv(st)
  {
    AllPositive(Run(st, ops).lists) && (ops == [] || PositiveThroughout(st, ops[..|ops| - 1]))
  }

  ghost predicate PlainOps(st: Store, ops: seq<Op>)
    requires Inv(st)
  {
    ops == [] || (PlainOps(st, ops[..|ops| - 1]) && PlainOp(Run(st, ops[..|ops| - 1]), ops[|ops| - 1]))
  }

  /** Over every run, all stored quantities are positive 32-bit numbers throughout, if and only if every add fits. */
  lemma {:induction false} RunStaysPositive(st: Store, ops: seq<Op>)
    requires Inv(st) && AllPositive(st.lists) && PlainOps(st, ops)
    ensures PositiveThroughout(st, ops) <==> FittingRun(st, ops)
  {
    if ops != [] {
      var n := |ops| - 1;
      RunStaysPositive(st, ops[..n]);
      if PositiveThroughout(st, ops[..n]) {
        StepStaysPositive(Run(st, ops[..n]), ops[n]);
      }
    }
  }

  lemma StepStaysPositive(st: Store, op: Op)
    requires Inv(st) && AllPositive(st.lists)
    ensures AllPositive(Apply(st, op).0.lists) <==> (op.Put? && Apply(st, op).1.Ok? ==> FitsPut(st, op))
  {
    if !op.Put? {
      OthersStayPositive(st, op);
    } else if Apply(st, op).1.Ok? {
      PutStaysPositive(st, op);
    }
  }
}
