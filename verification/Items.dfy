/** Inventories and banks: adding, removing, depositing and taking items, and what any run of these
    operations keeps. */
module Items {
  import opened Bytes

  const MAX_INV: nat := 30
  const MAX_BANK: nat := 200
  const ALL: nat := 0xFFFF_FFFF

  /** An item: its id, its code (the first four data bytes), the quantity in data byte 5, the amount
      that the bank keeps beside it, and the rest. */
  datatype Item = Item(id: nat, code: nat, qty: byte, amount: nat, rest: nat)

  /** Tools of the first kinds, except technique disks. */
  predicate Stackable(code: nat) {
    code % 256 == 3 && code / 256 % 256 < 9 && code / 256 % 256 != 2
  }

  function Sum(a: byte, b: byte): byte {
    (a as int + b as int) % 256
  }

  // ---------------------------------------------------------------- the operations on lists

  function IndexOfId(s: seq<Item>, id: nat): (i: nat)
    ensures i <= |s|
  {
    if s == [] || s[0].id == id then 0 else 1 + IndexOfId(s[1..], id)
  }

  function IndexOfCode(s: seq<Item>, code: nat): (i: nat)
    ensures i <= |s|
  {
    if s == [] || s[0].code == code then 0 else 1 + IndexOfCode(s[1..], code)
  }

  lemma {:induction false} IdIs(s: seq<Item>, id: nat, i: nat)
    requires i <= |s| && (forall j :: 0 <= j < i ==> s[j].id != id) && (i < |s| ==> s[i].id == id)
    ensures IndexOfId(s, id) == i
    decreases i
  {
    if i > 0 {
      IdIs(s[1..], id, i - 1);
    }
  }

  lemma {:induction false} CodeIs(s: seq<Item>, code: nat, i: nat)
    requires i <= |s| && (forall j :: 0 <= j < i ==> s[j].code != code) && (i < |s| ==> s[i].code == code)
    ensures IndexOfCode(s, code) == i
    decreases i
  {
    if i > 0 {
      CodeIs(s[1..], code, i - 1);
    }
  }

  lemma {:induction false} IdFound(s: seq<Item>, id: nat)
    ensures forall j :: 0 <= j < IndexOfId(s, id) ==> s[j].id != id
    ensures IndexOfId(s, id) < |s| ==> s[IndexOfId(s, id)].id == id
    decreases |s|
  {
    if s != [] && s[0].id != id {
      IdFound(s[1..], id);
      assert forall j :: 0 < j < |s| ==> s[j] == s[1..][j - 1];
    }
  }

  lemma {:induction false} CodeFound(s: seq<Item>, code: nat)
    ensures forall j :: 0 <= j < IndexOfCode(s, code) ==> s[j].code != code
    ensures IndexOfCode(s, code) < |s| ==> s[IndexOfCode(s, code)].code == code
    decreases |s|
  {
    if s != [] && s[0].code != code {
      CodeFound(s[1..], code);
      assert forall j :: 0 < j < |s| ==> s[j] == s[1..][j - 1];
    }
  }

  function Without(s: seq<Item>, i: nat): (r: seq<Item>)
    requires i < |s|
    ensures |r| == |s| - 1
  {
    s[..i] + s[i + 1..]
  }

  /** What an operation returns and leaves. */
  datatype Done = Done(rv: int, items: seq<Item>)

  function Added(s: seq<Item>, it: Item): Done {
    if |s| == MAX_INV || IndexOfId(s, it.id) < |s| then Done(-1, s)
    else
      var j := IndexOfCode(s, it.code);
      if Stackable(it.code) && j < |s| then Done(0, s[j := s[j].(qty := Sum(s[j].qty, it.qty))])
      else Done(1, s + [it])
  }

  function Removed(s: seq<Item>, id: nat, amt: nat): Done {
    var i := IndexOfId(s, id);
    if i == |s| then Done(-1, s)
    else if Stackable(s[i].code) && amt != ALL && amt < s[i].qty as int then
      Done(0, s[i := s[i].(qty := s[i].qty as int - amt)])
    else Done(1, Without(s, i))
  }

  function Deposited(s: seq<Item>, it: Item): Done {
    if |s| == MAX_BANK then Done(-1, s)
    else
      var j := IndexOfCode(s, it.code);
      if Stackable(it.code) && j < |s| then
        Done(0, s[j := s[j].(qty := Sum(s[j].qty, it.qty), amount := Sum(s[j].qty, it.qty) as int)])
      else Done(1, s + [it])
  }

  function Taken(s: seq<Item>, id: nat, amt: byte): Done {
    var i := IndexOfId(s, id);
    if i == |s| || (Stackable(s[i].code) && amt > s[i].qty) then Done(-1, s)
    else if Stackable(s[i].code) && amt < s[i].qty then
      Done(0, s[i := s[i].(qty := s[i].qty as int - amt as int, amount := s[i].qty as int - amt as int)])
    else Done(1, Without(s, i))
  }

  /** The item that a successful take hands out. */
  function Handed(s: seq<Item>, id: nat, amt: byte): Item
    requires Taken(s, id, amt).rv >= 0
  {
    var it := s[IndexOfId(s, id)];
    if Taken(s, id, amt).rv == 0 then it.(qty := amt, amount := amt as int) else it
  }

  // ---------------------------------------------------------------- when they succeed, and what they leave

  predicate Has(s: seq<Item>, id: nat) {
    exists i :: 0 <= i < |s| && s[i].id == id
  }

  /** The slot that an id means: the first with that id. */
  predicate SlotOf(s: seq<Item>, id: nat, i: nat) {
    i < |s| && s[i].id == id && forall j :: 0 <= j < i ==> s[j].id != id
  }

  /** The slot that a stack of a code would be merged into. */
  predicate StackOf(s: seq<Item>, code: nat, i: nat) {
    i < |s| && s[i].code == code && forall j :: 0 <= j < i ==> s[j].code != code
  }

  predicate HasCode(s: seq<Item>, code: nat) {
    exists i :: 0 <= i < |s| && s[i].code == code
  }

  lemma FindsSlot(s: seq<Item>, id: nat)
    ensures Has(s, id) <==> IndexOfId(s, id) < |s|
    ensures forall i: nat :: SlotOf(s, id, i) <==> i == IndexOfId(s, id) < |s|
  {
    IdFound(s, id);
  }

  lemma FindsStack(s: seq<Item>, code: nat)
    ensures HasCode(s, code) <==> IndexOfCode(s, code) < |s|
    ensures forall i: nat :: StackOf(s, code, i) <==> i == IndexOfCode(s, code) < |s|
  {
    CodeFound(s, code);
  }

  /** A remove succeeds exactly when the item is there.  The slot goes exactly when the item does not
      stack, or all of it is removed, or at least its quantity; otherwise a positive rest stays. */
  lemma RemovedIs(s: seq<Item>, id: nat, amt: nat)
    ensures Removed(s, id, amt).rv >= 0 <==> Has(s, id)
    ensures !Has(s, id) ==> Removed(s, id, amt) == Done(-1, s)
    ensures forall i: nat :: SlotOf(s, id, i) ==>
      if !Stackable(s[i].code) || amt == ALL || amt >= s[i].qty as int then Removed(s, id, amt) == Done(1, s[..i] + s[i + 1..])
      else s[i].qty as int - amt > 0 && Removed(s, id, amt) == Done(0, s[i := s[i].(qty := s[i].qty as int - amt)])
  {
    hide Stackable, IndexOfId, Has, SlotOf;
    FindsSlot(s, id);
  }

  /** A take succeeds exactly when the item is there, and no more than its quantity is asked of a stack.
      The slot goes exactly when the item does not stack or its whole quantity is taken. */
  lemma TakenIs(s: seq<Item>, id: nat, amt: byte)
    ensures !Has(s, id) ==> Taken(s, id, amt) == Done(-1, s)
    ensures forall i: nat :: SlotOf(s, id, i) ==>
      if Stackable(s[i].code) && amt > s[i].qty then Taken(s, id, amt) == Done(-1, s)
      else if !Stackable(s[i].code) || amt == s[i].qty then Taken(s, id, amt) == Done(1, s[..i] + s[i + 1..])
      else
        var rest := s[i].qty as int - amt as int;
        rest > 0 && Taken(s, id, amt) == Done(0, s[i := s[i].(qty := rest, amount := rest)])
  {
    hide Stackable, IndexOfId, Has, SlotOf;
    FindsSlot(s, id);
  }

  /** An item can be added exactly when there is room and its id is new.  A stack goes on the first stack
      of its code, if there is one, and anything else behind the other items. */
  lemma AddedIs(s: seq<Item>, it: Item)
    ensures |s| == 30 || Has(s, it.id) ==> Added(s, it) == Done(-1, s)
    ensures |s| != 30 && !Has(s, it.id) ==>
      && (!(Stackable(it.code) && HasCode(s, it.code)) ==> Added(s, it) == Done(1, s + [it]))
      && (forall j: nat :: StackOf(s, it.code, j) && Stackable(it.code) ==>
            Added(s, it) == Done(0, s[j := s[j].(qty := (s[j].qty as int + it.qty as int) % 256)]))
  {
    hide Stackable, IndexOfId, IndexOfCode, Has, HasCode, SlotOf, StackOf;
    FindsSlot(s, it.id);
    FindsStack(s, it.code);
  }

  /** A bank takes anything while it has room. */
  lemma DepositedIs(s: seq<Item>, it: Item)
    ensures |s| == 200 ==> Deposited(s, it) == Done(-1, s)
    ensures |s| != 200 ==>
      && (!(Stackable(it.code) && HasCode(s, it.code)) ==> Deposited(s, it) == Done(1, s + [it]))
      && (forall j: nat :: StackOf(s, it.code, j) && Stackable(it.code) ==>
            var sum := (s[j].qty as int + it.qty as int) % 256;
            Deposited(s, it) == Done(0, s[j := s[j].(qty := sum, amount := sum)]))
  {
    hide Stackable, IndexOfCode, HasCode, StackOf;
    FindsStack(s, it.code);
  }

  // ---------------------------------------------------------------- the operations in place

  method FindId(a: array<Item>, count: nat, id: nat) returns (i: nat)
    requires count <= a.Length
    ensures i == IndexOfId(a[..count], id)
  {
    i := 0;
    while i < count && a[i].id != id
      invariant 0 <= i <= count && forall j :: 0 <= j < i ==> a[j].id != id
    {
      i := i + 1;
    }
    IdIs(a[..count], id, i);
  }

  method FindCode(a: array<Item>, count: nat, code: nat) returns (i: nat)
    requires count <= a.Length
    ensures i == IndexOfCode(a[..count], code)
  {
    i := 0;
    while i < count && a[i].code != code
      invariant 0 <= i <= count && forall j :: 0 <= j < i ==> a[j].code != code
    {
      i := i + 1;
    }
    CodeIs(a[..count], code, i);
  }

  /** Moves the items behind `i` down by one. */
  method MoveDown(a: array<Item>, i: nat, count: nat)
    requires i < count <= a.Length
    modifies a
    ensures a[..count - 1] == Without(old(a[..count]), i)
  {
    var k := i;
    while k + 1 < count
      invariant i <= k < count
      invariant forall j :: 0 <= j < i ==> a[j] == old(a[j])
      invariant forall j :: i <= j < k ==> a[j] == old(a[j + 1])
      invariant forall j :: k <= j < count ==> a[j] == old(a[j])
    {
      a[k] := a[k + 1];
      k := k + 1;
    }
  }

  method ItemAddToInv(inv: array<Item>, count: nat, it: Item) returns (rv: int)
    requires inv.Length == MAX_INV && count <= MAX_INV
    modifies inv
    ensures var d := Added(old(inv[..count]), it);
      rv == d.rv && |d.items| <= MAX_INV && inv[..|d.items|] == d.items
  {
    if count == 30 {
      return -1;
    }
    var i := FindId(inv, count, it.id);
    if i < count {
      return -1;
    }
    if Stackable(it.code) {
      i := FindCode(inv, count, it.code);
      if i < count {
        inv[i] := inv[i].(qty := Sum(inv[i].qty, it.qty));
        return 0;
      }
    }
    inv[count] := it;
    rv := 1;
  }

  method ItemRemoveFromInv(inv: array<Item>, count: nat, id: nat, amt: nat) returns (rv: int)
    requires inv.Length == MAX_INV && count <= MAX_INV
    modifies inv
    ensures var d := Removed(old(inv[..count]), id, amt);
      rv == d.rv && |d.items| <= MAX_INV && inv[..|d.items|] == d.items
  {
    var i := FindId(inv, count, id);
    if i == count {
      return -1;
    }
    IdFound(inv[..count], id);
    if Stackable(inv[i].code) && amt != ALL {
      var tmp := inv[i].qty as int;
      if amt < tmp {
        inv[i] := inv[i].(qty := tmp - amt);
        return 0;
      }
    }
    MoveDown(inv, i, count);
    rv := 1;
  }

  /** The bank keeps its count itself. */
  class Bank {
    var items: array<Item>
    var count: nat

    constructor ()
      ensures Valid() && fresh(items) && Contents() == []
    {
      items := new Item[MAX_BANK](_ => Item(0xFFFF_FFFF, 0, 0, 0, 0));
      count := 0;
    }

    predicate Valid()
      reads this
    {
      items.Length == MAX_BANK && count <= MAX_BANK
    }

    function Contents(): seq<Item>
      reads this, items
      requires Valid()
    {
      items[..count]
    }

    method ItemDepositToBank(it: Item) returns (rv: int)
      requires Valid()
      modifies this, items
      ensures Valid() && items == old(items)
      ensures Done(rv, Contents()) == Deposited(old(Contents()), it)
    {
      if count == 200 {
        return -1;
      }
      if Stackable(it.code) {
        var i := FindCode(items, count, it.code);
        if i < count {
          var amount := Sum(items[i].qty, it.qty);
          items[i] := items[i].(qty := amount, amount := amount as int);
          return 0;
        }
      }
      items[count] := it;
      count := count + 1;
      rv := 1;
    }

    method ItemTakeFromBank(id: nat, amt: byte) returns (rv: int, out: Item)
      requires Valid()
      modifies this, items
      ensures Valid() && items == old(items)
      ensures Done(rv, Contents()) == Taken(old(Contents()), id, amt)
      ensures rv >= 0 ==> out == Handed(old(Contents()), id, amt)
    {
      out := Item(0, 0, 0, 0, 0);
      var i := FindId(items, count, id);
      if i == count {
        return -1, out;
      }
      out := items[i];
      if Stackable(out.code) {
        if amt < out.qty {
          var left := out.qty as int - amt as int;
          items[i] := out.(qty := left, amount := left);
          out := out.(qty := amt, amount := amt as int);
          return 0, out;
        } else if amt > out.qty {
          return -1, out;
        }
      }
      MoveDown(items, i, count);
      count := count - 1;
      rv := 1;
    }
  }
}
