/** Any run of inventory and bank operations: sizes, distinct ids, single stacks, and a ledger of
    quantities. */
module ItemRuns {
  import opened Bytes
  import opened Items

  datatype State = State(inv: seq<Item>, bank: seq<Item>)

  datatype Op = Add(it: Item) | Remove(id: nat, amt: nat) | Deposit(it: Item) | Take(id: nat, want: byte)

  /** An operation, with the inventory's count updated as the return code says. */
  function Step(s: State, op: Op): State {
    match op
    case Add(it) => s.(inv := Added(s.inv, it).items)
    case Remove(id, amt) => s.(inv := Removed(s.inv, id, amt).items)
    case Deposit(it) => s.(bank := Deposited(s.bank, it).items)
    case Take(id, amt) => s.(bank := Taken(s.bank, id, amt).items)
  }

  function Run(s: State, ops: seq<Op>): State
    decreases |ops|
  {
    if ops == [] then s else Step(Run(s, ops[..|ops| - 1]), ops[|ops| - 1])
  }

  // ---------------------------------------------------------------- what every operation keeps

  predicate DistinctIds(s: seq<Item>) {
    forall i, j :: 0 <= i < j < |s| ==> s[i].id != s[j].id
  }

  predicate OneStack(s: seq<Item>) {
    forall i, j :: 0 <= i < j < |s| && s[i].code == s[j].code ==> !Stackable(s[i].code)
  }

  predicate Sound(s: State) {
    && |s.inv| <= MAX_INV && |s.bank| <= MAX_BANK
    && DistinctIds(s.inv) && OneStack(s.inv) && OneStack(s.bank)
  }

  lemma WithoutAt(s: seq<Item>, i: nat)
    requires i < |s|
    ensures forall j :: 0 <= j < |s| - 1 ==> Without(s, i)[j] == s[if j < i then j else j + 1]
  {
  }

  lemma WithoutKeeps(s: seq<Item>, i: nat)
    requires i < |s|
    ensures DistinctIds(s) ==> DistinctIds(Without(s, i))
    ensures OneStack(s) ==> OneStack(Without(s, i))
  {
    hide Stackable;
    WithoutAt(s, i);
  }

  lemma AppendKeeps(s: seq<Item>, it: Item)
    ensures DistinctIds(s) && IndexOfId(s, it.id) == |s| ==> DistinctIds(s + [it])
    ensures OneStack(s) && (Stackable(it.code) ==> IndexOfCode(s, it.code) == |s|) ==> OneStack(s + [it])
  {
    hide Stackable;
    IdFound(s, it.id);
    CodeFound(s, it.code);
  }

  lemma UpdateKeeps(s: seq<Item>, i: nat, it: Item)
    requires i < |s| && it.id == s[i].id && it.code == s[i].code
    ensures DistinctIds(s) ==> DistinctIds(s[i := it])
    ensures OneStack(s) ==> OneStack(s[i := it])
  {
    hide Stackable;
    assert forall j :: 0 <= j < |s| ==> s[i := it][j].id == s[j].id && s[i := it][j].code == s[j].code;
  }

  lemma StepKeeps(s: State, op: Op)
    requires Sound(s)
    ensures Sound(Step(s, op))
  {
    hide Stackable, DistinctIds, OneStack, IndexOfId, IndexOfCode, Without;
    match op
    case Add(it) =>
      var j := IndexOfCode(s.inv, it.code);
      if Added(s.inv, it).rv == 1 {
        AppendKeeps(s.inv, it);
      } else if Added(s.inv, it).rv == 0 {
        UpdateKeeps(s.inv, j, s.inv[j].(qty := Sum(s.inv[j].qty, it.qty)));
      }
    case Remove(id, amt) =>
      var i := IndexOfId(s.inv, id);
      if i < |s.inv| {
        WithoutKeeps(s.inv, i);
        if Removed(s.inv, id, amt).rv == 0 {
          UpdateKeeps(s.inv, i, s.inv[i].(qty := s.inv[i].qty as int - amt));
        }
      }
    case Deposit(it) =>
      var j := IndexOfCode(s.bank, it.code);
      if Deposited(s.bank, it).rv == 1 {
        AppendKeeps(s.bank, it);
      } else if Deposited(s.bank, it).rv == 0 {
        var q := Sum(s.bank[j].qty, it.qty);
        UpdateKeeps(s.bank, j, s.bank[j].(qty := q, amount := q as int));
      }
    case Take(id, amt) =>
      var i := IndexOfId(s.bank, id);
      if i < |s.bank| {
        WithoutKeeps(s.bank, i);
        if Taken(s.bank, id, amt).rv == 0 {
          var q := s.bank[i].qty as int - amt as int;
          UpdateKeeps(s.bank, i, s.bank[i].(qty := q, amount := q));
        }
      }
  }

  lemma {:induction false} RunKeeps(s: State, ops: seq<Op>)
    requires Sound(s)
    ensures Sound(Run(s, ops))
    decreases |ops|
  {
    hide Sound, Step;
    if ops != [] {
      RunKeeps(s, ops[..|ops| - 1]);
      StepKeeps(Run(s, ops[..|ops| - 1]), ops[|ops| - 1]);
    }
  }

  // ---------------------------------------------------------------- empty stacks

  predicate NoneEmpty(s: seq<Item>) {
    forall i :: 0 <= i < |s| && Stackable(s[i].code) ==> s[i].qty > 0
  }

  /** What comes in is no empty stack, and merges into none. */
  predicate Fills(s: seq<Item>, it: Item) {
    Stackable(it.code) ==>
      it.qty > 0 && forall i :: 0 <= i < |s| && s[i].code == it.code ==> (s[i].qty as int + it.qty as int) % 256 > 0
  }

  predicate OpFills(s: State, op: Op) {
    match op
    case Add(it) => Fills(s.inv, it)
    case Deposit(it) => Fills(s.bank, it)
    case _ => true
  }

  /** Removing and taking leave no empty stack behind, whatever is asked for; adding and depositing make
      none if what comes in is none. */
  lemma StepLeavesNoneEmpty(s: State, op: Op)
    requires NoneEmpty(s.inv) && NoneEmpty(s.bank) && OpFills(s, op)
    ensures NoneEmpty(Step(s, op).inv) && NoneEmpty(Step(s, op).bank)
  {
    hide Stackable, IndexOfId, IndexOfCode;
    match op
    case Add(it) => CodeFound(s.inv, it.code);
    case Deposit(it) => CodeFound(s.bank, it.code);
    case Remove(id, amt) =>
      if IndexOfId(s.inv, id) < |s.inv| {
        WithoutAt(s.inv, IndexOfId(s.inv, id));
      }
    case Take(id, amt) =>
      if IndexOfId(s.bank, id) < |s.bank| {
        WithoutAt(s.bank, IndexOfId(s.bank, id));
      }
  }

  /** So there is never an empty stack, over any run. */
  lemma {:induction false} RunLeavesNoneEmpty(s: State, ops: seq<Op>)
    requires NoneEmpty(s.inv) && NoneEmpty(s.bank)
    requires forall k :: 0 <= k < |ops| ==> OpFills(Run(s, ops[..k]), ops[k])
    ensures NoneEmpty(Run(s, ops).inv) && NoneEmpty(Run(s, ops).bank)
    decreases |ops|
  {
    hide NoneEmpty, OpFills, Step;
    if ops != [] {
      var n := |ops| - 1;
      assert forall k :: 0 <= k < n ==> ops[..n][..k] == ops[..k] && ops[..n][k] == ops[k];
      RunLeavesNoneEmpty(s, ops[..n]);
      StepLeavesNoneEmpty(Run(s, ops[..n]), ops[n]);
    }
  }

  // ---------------------------------------------------------------- the ledger

  function One(it: Item, code: nat): nat {
    if it.code == code then it.qty as int else 0
  }

  /** How much there is of a code. */
  function Total(s: seq<Item>, code: nat): nat {
    if s == [] then 0 else Total(s[..|s| - 1], code) + One(s[|s| - 1], code)
  }

  lemma {:induction false} TotalAppend(a: seq<Item>, b: seq<Item>, code: nat)
    ensures Total(a + b, code) == Total(a, code) + Total(b, code)
    decreases |b|
  {
    hide One;
    if b == [] {
      assert a + b == a;
    } else {
      var n := |b| - 1;
      TotalAppend(a, b[..n], code);
      assert (a + b)[..|a| + n] == a + b[..n];
    }
  }

  lemma TotalOne(it: Item, code: nat)
    ensures Total([it], code) == One(it, code)
  {
    assert [it][..0] == [];
  }

  lemma TotalAt(s: seq<Item>, i: nat, it: Item, code: nat)
    requires i < |s|
    ensures Total(Without(s, i), code) == Total(s, code) - One(s[i], code)
    ensures Total(s[i := it], code) == Total(s, code) - One(s[i], code) + One(it, code)
  {
    hide Total, One;
    var a, b := s[..i], s[i + 1..];
    assert s == a + ([s[i]] + b) && s[i := it] == a + ([it] + b);
    TotalOne(s[i], code);
    TotalOne(it, code);
    TotalAppend(a, b, code);
    TotalAppend([s[i]], b, code);
    TotalAppend([it], b, code);
    TotalAppend(a, [s[i]] + b, code);
    TotalAppend(a, [it] + b, code);
  }

  /** There is room for the item, and its id is new. */
  predicate Fresh(s: seq<Item>, it: Item) {
    |s| != 30 && !Has(s, it.id)
  }

  function Min(a: nat, b: nat): nat {
    if a <= b then a else b
  }

  /** What an operation puts in (positive) or takes out (negative) of a code: whole items, of a stack what
      is asked for as far as it goes, and nothing if the operation cannot be done. */
  function Entered(s: State, op: Op, code: nat): int {
    match op
    case Add(it) => if Fresh(s.inv, it) then One(it, code) else 0
    case Deposit(it) => if |s.bank| != 200 then One(it, code) else 0
    case Remove(id, amt) =>
      if !Has(s.inv, id) then 0
      else
        var it := s.inv[Slot(s.inv, id)];
        if it.code != code then 0 else if Stackable(code) then 0 - Min(amt, it.qty as int) else 0 - it.qty as int
    case Take(id, amt) =>
      if !Has(s.bank, id) then 0
      else
        var it := s.bank[Slot(s.bank, id)];
        if it.code != code || (Stackable(code) && amt > it.qty) then 0
        else if Stackable(code) then 0 - amt as int
        else 0 - it.qty as int
  }

  function Slot(s: seq<Item>, id: nat): (i: nat)
    requires Has(s, id)
    ensures SlotOf(s, id, i)
  {
    FindsSlot(s, id);
    IndexOfId(s, id)
  }

  /** A merge that does not fit a byte loses 256. */
  function Overflows(s: seq<Item>, it: Item, code: nat): int {
    if it.code == code && Stackable(code) && HasCode(s, code) && s[Stack(s, code)].qty as int + it.qty as int >= 256 then 1 else 0
  }

  function Stack(s: seq<Item>, code: nat): (i: nat)
    requires HasCode(s, code)
    ensures StackOf(s, code, i)
  {
    FindsStack(s, code);
    IndexOfCode(s, code)
  }

  function Lost(s: State, op: Op, code: nat): int {
    match op
    case Add(it) => if Fresh(s.inv, it) then Overflows(s.inv, it, code) else 0
    case Deposit(it) => if |s.bank| != 200 then Overflows(s.bank, it, code) else 0
    case _ => 0
  }

  function Held(s: State, code: nat): nat {
    Total(s.inv, code) + Total(s.bank, code)
  }

  lemma MergeCounts(s: seq<Item>, it: Item, j: nat, merged: Item, code: nat)
    requires j == IndexOfCode(s, it.code) < |s|
    requires merged.code == s[j].code && merged.qty == Sum(s[j].qty, it.qty) && Stackable(it.code)
    ensures Total(s[j := merged], code) == Total(s, code) + One(it, code) - 256 * Overflows(s, it, code)
  {
    hide Total, Stackable;
    CodeFound(s, it.code);
    FindsStack(s, it.code);
    TotalAt(s, j, merged, code);
  }

  /** Without a stack of the code nothing is merged. */
  lemma NoMerge(s: seq<Item>, it: Item, code: nat)
    requires !Stackable(it.code) || IndexOfCode(s, it.code) == |s|
    ensures Overflows(s, it, code) == 0
  {
    hide Stackable;
    FindsStack(s, it.code);
  }

  lemma StepCounts(s: State, op: Op, code: nat)
    ensures Held(Step(s, op), code) == Held(s, code) + Entered(s, op, code) - 256 * Lost(s, op, code)
  {
    hide Stackable, IndexOfId, IndexOfCode, Without, Total, Sum, Has, HasCode, SlotOf, StackOf, Overflows;
    match op
    case Add(it) =>
      var j := IndexOfCode(s.inv, it.code);
      FindsSlot(s.inv, it.id);
      if !Stackable(it.code) || j == |s.inv| {
        NoMerge(s.inv, it, code);
      }
      if Added(s.inv, it).rv == 1 {
        TotalAppend(s.inv, [it], code);
        TotalOne(it, code);
      } else if Added(s.inv, it).rv == 0 {
        MergeCounts(s.inv, it, j, s.inv[j].(qty := Sum(s.inv[j].qty, it.qty)), code);
      }
    case Deposit(it) =>
      var j := IndexOfCode(s.bank, it.code);
      if !Stackable(it.code) || j == |s.bank| {
        NoMerge(s.bank, it, code);
      }
      if Deposited(s.bank, it).rv == 1 {
        TotalAppend(s.bank, [it], code);
        TotalOne(it, code);
      } else if Deposited(s.bank, it).rv == 0 {
        var q := Sum(s.bank[j].qty, it.qty);
        MergeCounts(s.bank, it, j, s.bank[j].(qty := q, amount := q as int), code);
      }
    case Remove(id, amt) =>
      var i := IndexOfId(s.inv, id);
      FindsSlot(s.inv, id);
      if i < |s.inv| {
        if Removed(s.inv, id, amt).rv == 0 {
          TotalAt(s.inv, i, s.inv[i].(qty := s.inv[i].qty as int - amt), code);
        } else {
          TotalAt(s.inv, i, s.inv[i], code);
        }
      }
    case Take(id, amt) =>
      var i := IndexOfId(s.bank, id);
      FindsSlot(s.bank, id);
      if i < |s.bank| {
        if Taken(s.bank, id, amt).rv == 0 {
          var q := s.bank[i].qty as int - amt as int;
          TotalAt(s.bank, i, s.bank[i].(qty := q, amount := q), code);
        } else {
          TotalAt(s.bank, i, s.bank[i], code);
        }
      }
  }

  function EnteredBy(s: State, ops: seq<Op>, code: nat): int
    decreases |ops|
  {
    if ops == [] then 0
    else
      var n := |ops| - 1;
      EnteredBy(s, ops[..n], code) + Entered(Run(s, ops[..n]), ops[n], code)
  }

  function LostBy(s: State, ops: seq<Op>, code: nat): int
    decreases |ops|
  {
    if ops == [] then 0
    else
      var n := |ops| - 1;
      LostBy(s, ops[..n], code) + Lost(Run(s, ops[..n]), ops[n], code)
  }

  /** Over any run the holdings of a code are what went in less what came out, less 256 for each merge
      that did not fit. */
  lemma {:induction false} RunCounts(s: State, ops: seq<Op>, code: nat)
    ensures Held(Run(s, ops), code) == Held(s, code) + EnteredBy(s, ops, code) - 256 * LostBy(s, ops, code)
    decreases |ops|
  {
    hide Held, Entered, Lost, Step;
    if ops != [] {
      var n := |ops| - 1;
      RunCounts(s, ops[..n], code);
      StepCounts(Run(s, ops[..n]), ops[n], code);
    }
  }

  /** A take that succeeds hands out exactly what it takes away: the requested quantity of a stack, or
      the whole of an item that does not stack. */
  lemma TakeMoves(s: seq<Item>, id: nat, amt: byte)
    requires Taken(s, id, amt).rv >= 0
    ensures var it := Handed(s, id, amt);
      && it.id == id
      && (Stackable(it.code) ==> it.qty == amt)
      && (forall i: nat :: SlotOf(s, id, i) ==>
            it == if Stackable(s[i].code) && amt < s[i].qty then s[i].(qty := amt, amount := amt as int) else s[i])
      && forall code :: Total(Taken(s, id, amt).items, code) + One(it, code) == Total(s, code)
  {
    hide Total, Stackable;
    IdFound(s, id);
    FindsSlot(s, id);
    var i := IndexOfId(s, id);
    forall code
      ensures Total(Taken(s, id, amt).items, code) + One(Handed(s, id, amt), code) == Total(s, code)
    {
      if Taken(s, id, amt).rv == 0 {
        var q := s[i].qty as int - amt as int;
        TotalAt(s, i, s[i].(qty := q, amount := q), code);
      } else {
        TotalAt(s, i, s[i], code);
      }
    }
  }
}
