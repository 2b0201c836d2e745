/**
 The patch elements of the server's configuration: which of them are accepted, and as what.

 An element is a client file name with either one unconditional server file, or conditional ones
 (`if`) and perhaps a last one for all other clients (`else`).
 */
module PatchConfig {
  import opened Bytes

  datatype Entry = Entry(filename: string, size: nat, checksum: nat, client: nat)

  datatype PatchFile = PatchFile(filename: string, noIf: bool, hasIf: bool, hasElse: bool, entries: seq<Entry>)

  /** The text of an element as a number: missing, or not a number, or its value. */
  datatype Num = Missing | Invalid | Value(n: nat)

  /** The elements inside an `if` or `else`. */
  datatype Sub = SubText | SubFile(text: Option<string>) | SubSum(v: Num) | SubSize(v: Num) | SubOther

  /** The elements inside a patch; a condition carries its checksum attribute. */
  datatype Node =
    | Text
    | ClientFile(text: Option<string>)
    | File(text: Option<string>)
    | Sum(v: Num)
    | Size(v: Num)
    | If(client: Num, children: seq<Sub>)
    | Else(children: seq<Sub>)
    | Other

  function Kept(v: Num, was: nat): nat {
    if v.Value? then v.n % 0x1_0000_0000 else was
  }

  function Named(text: Option<string>, was: string): string {
    if text.Some? then text.value else was
  }

  // ---------------------------------------------------------------- one entry

  datatype EntryState = EntryState(ent: Entry, file: bool, sum: bool, size: bool)

  function SubStep(st: EntryState, s: Sub): Result<EntryState> {
    match s
    case SubFile(text) =>
      if st.file then Err(-3)
      else Ok(st.(ent := st.ent.(filename := Named(text, st.ent.filename)), file := true))
    case SubSum(v) =>
      if st.sum then Err(-5)
      else if v.Invalid? then Err(-6)
      else Ok(st.(ent := st.ent.(checksum := Kept(v, st.ent.checksum)), sum := true))
    case SubSize(v) =>
      if st.size then Err(-7)
      else if v.Invalid? then Err(-8)
      else Ok(st.(ent := st.ent.(size := Kept(v, st.ent.size)), size := true))
    case _ => Ok(st)
  }

  function SubsUpTo(ent: Entry, subs: seq<Sub>): Result<EntryState> {
    if subs == [] then Ok(EntryState(ent, false, false, false))
    else
      match SubsUpTo(ent, subs[..|subs| - 1])
      case Err(code) => Err(code)
      case Ok(st) => SubStep(st, subs[|subs| - 1])
  }

  function EntryOf(ent: Entry, subs: seq<Sub>): Result<Entry> {
    match SubsUpTo(ent, subs)
    case Err(code) => Err(code)
    case Ok(st) => if st.file && st.sum && st.size then Ok(st.ent) else Err(-9)
  }

  /** An `if` needs its attribute, an `else` has none. */
  function CondEntry(client: Option<Num>, subs: seq<Sub>): Result<Entry> {
    match client
    case None => EntryOf(BLANK, subs)
    case Some(v) =>
      if v.Missing? then Err(-1)
      else if v.Invalid? then Err(-2)
      else EntryOf(BLANK.(client := v.n % 0x1_0000_0000), subs)
  }

  const BLANK: Entry := Entry("", 0, 0, 0)

  function Count<T>(p: T -> bool, xs: seq<T>): nat {
    if xs == [] then 0 else Count(p, xs[..|xs| - 1]) + if p(xs[|xs| - 1]) then 1 else 0
  }

  function SubFiles(subs: seq<Sub>): nat {
    Count((s: Sub) => s.SubFile?, subs)
  }

  function SubSums(subs: seq<Sub>): nat {
    Count((s: Sub) => s.SubSum?, subs)
  }

  function SubSizes(subs: seq<Sub>): nat {
    Count((s: Sub) => s.SubSize?, subs)
  }

  predicate SubsValid(subs: seq<Sub>) {
    forall i :: 0 <= i < |subs| ==>
      (subs[i].SubSum? ==> !subs[i].v.Invalid?) && (subs[i].SubSize? ==> !subs[i].v.Invalid?)
  }

  lemma {:induction false} SubsCounted(ent: Entry, subs: seq<Sub>)
    ensures SubsUpTo(ent, subs).Ok? <==>
      SubFiles(subs) <= 1 && SubSums(subs) <= 1 && SubSizes(subs) <= 1 && SubsValid(subs)
    ensures SubsUpTo(ent, subs).Ok? ==>
      var st := SubsUpTo(ent, subs).value;
      && (st.file <==> SubFiles(subs) == 1) && (st.sum <==> SubSums(subs) == 1) && (st.size <==> SubSizes(subs) == 1)
      && st.ent.client == ent.client
    decreases |subs|
  {
    if subs != [] {
      SubsCounted(ent, subs[..|subs| - 1]);
      assert subs == subs[..|subs| - 1] + [subs[|subs| - 1]];
    }
  }

  /** An entry is accepted exactly when it has one file, one checksum and one size, all readable. */
  lemma EntryAccepted(ent: Entry, subs: seq<Sub>)
    ensures EntryOf(ent, subs).Ok? <==>
      SubFiles(subs) == 1 && SubSums(subs) == 1 && SubSizes(subs) == 1 && SubsValid(subs)
    ensures EntryOf(ent, subs).Ok? ==> EntryOf(ent, subs).value.client == ent.client
  {
    hide SubsUpTo, SubFiles, SubSums, SubSizes, SubsValid;
    SubsCounted(ent, subs);
  }

  /** The entry has what an element says, in 32 bits; an element that says nothing leaves the field as it
      was. */
  predicate Says(was: Entry, s: Sub, e: Entry) {
    match s
    case SubFile(text) => e.filename == if text.Some? then text.value else was.filename
    case SubSum(v) => e.checksum == if v.Value? then v.n % 0x1_0000_0000 else was.checksum
    case SubSize(v) => e.size == if v.Value? then v.n % 0x1_0000_0000 else was.size
    case _ => true
  }

  lemma {:induction false} SubsSaid(ent: Entry, subs: seq<Sub>)
    requires SubsUpTo(ent, subs).Ok?
    ensures var st := SubsUpTo(ent, subs).value;
      && (forall i :: 0 <= i < |subs| ==> Says(ent, subs[i], st.ent))
      && (!st.file ==> st.ent.filename == ent.filename && forall i :: 0 <= i < |subs| ==> !subs[i].SubFile?)
      && (!st.sum ==> st.ent.checksum == ent.checksum && forall i :: 0 <= i < |subs| ==> !subs[i].SubSum?)
      && (!st.size ==> st.ent.size == ent.size && forall i :: 0 <= i < |subs| ==> !subs[i].SubSize?)
    decreases |subs|
  {
    if subs != [] {
      var n := |subs| - 1;
      SubsSaid(ent, subs[..n]);
      assert forall i :: 0 <= i < n ==> subs[i] == subs[..n][i];
    }
  }

  /** An accepted entry has the file, the checksum and the size of its elements, and the condition that it
      was given. */
  lemma EntryHolds(client: Option<Num>, subs: seq<Sub>)
    requires CondEntry(client, subs).Ok?
    ensures var e := CondEntry(client, subs).value;
      && (forall i :: 0 <= i < |subs| ==> Says(BLANK, subs[i], e))
      && e.client == if client.Some? then client.value.n % 0x1_0000_0000 else 0
  {
    hide SubsUpTo, Says;
    var first := if client.Some? then BLANK.(client := client.value.n % 0x1_0000_0000) else BLANK;
    SubsSaid(first, subs);
    EntryAccepted(first, subs);
    forall i | 0 <= i < |subs|
      ensures Says(BLANK, subs[i], CondEntry(client, subs).value)
    {
      SaysTheSame(first, subs[i], CondEntry(client, subs).value);
    }
  }

  lemma SaysTheSame(first: Entry, s: Sub, e: Entry)
    requires first == BLANK.(client := first.client) && Says(first, s, e)
    ensures Says(BLANK, s, e)
  {
  }

  method HandleEntry(client: Option<Num>, subs: seq<Sub>) returns (rv: int, ent: Entry)
    ensures match CondEntry(client, subs)
            case Err(code) => rv == code != 0
            case Ok(e) => rv == 0 && ent == e
  {
    ent := BLANK;
    if client.Some? {
      if client.value.Missing? {
        return -1, ent;
      }
      if client.value.Invalid? {
        return -2, ent;
      }
      ent := ent.(client := client.value.n % 0x1_0000_0000);
    }
    ghost var first := ent;
    var file, sum, size := false, false, false;
    for i := 0 to |subs|
      invariant SubsUpTo(first, subs[..i]) == Ok(EntryState(ent, file, sum, size))
    {
      assert subs[..i + 1][..i] == subs[..i];
      match subs[i] {
        case SubFile(text) =>
          if file {
            SubsFail(first, subs, i + 1, -3);
            return -3, ent;
          }
          ent := ent.(filename := Named(text, ent.filename));
          file := true;
        case SubSum(v) =>
          if sum {
            SubsFail(first, subs, i + 1, -5);
            return -5, ent;
          }
          if v.Invalid? {
            SubsFail(first, subs, i + 1, -6);
            return -6, ent;
          }
          ent := ent.(checksum := Kept(v, ent.checksum));
          sum := true;
        case SubSize(v) =>
          if size {
            SubsFail(first, subs, i + 1, -7);
            return -7, ent;
          }
          if v.Invalid? {
            SubsFail(first, subs, i + 1, -8);
            return -8, ent;
          }
          ent := ent.(size := Kept(v, ent.size));
          size := true;
        case _ =>
      }
    }
    assert subs[..|subs|] == subs;
    rv := if file && sum && size then 0 else -9;
  }

  lemma {:induction false} SubsFail(ent: Entry, subs: seq<Sub>, i: nat, code: int)
    requires i <= |subs| && SubsUpTo(ent, subs[..i]) == Err(code)
    ensures SubsUpTo(ent, subs) == Err(code)
    decreases |subs|
  {
    if i < |subs| {
      assert subs[..|subs| - 1][..i] == subs[..i];
      SubsFail(ent, subs[..|subs| - 1], i, code);
    } else {
      assert subs[..i] == subs;
    }
  }

  // ---------------------------------------------------------------- one patch

  datatype PatchState = PatchState(pf: PatchFile, cfile: bool, file: bool, sum: bool, size: bool)

  const START: PatchState := PatchState(PatchFile("", false, false, false, [BLANK]), false, false, false, false)

  /** The entry that is being filled is the last one. */
  function WithLast(es: seq<Entry>, e: Entry): seq<Entry> {
    if es == [] then [e] else es[..|es| - 1] + [e]
  }

  function Last(es: seq<Entry>): Entry {
    if es == [] then BLANK else es[|es| - 1]
  }

  function Step(st: PatchState, n: Node): Result<PatchState> {
    var pf := st.pf;
    var last := Last(pf.entries);
    match n
    case ClientFile(text) =>
      if st.cfile then Err(-3)
      else Ok(st.(pf := pf.(filename := Named(text, pf.filename)), cfile := true))
    case File(text) =>
      if pf.hasIf then Err(-18)
      else if st.file then Err(-5)
      else Ok(st.(pf := pf.(noIf := true, entries := WithLast(pf.entries, last.(filename := Named(text, last.filename)))), file := true))
    case Sum(v) =>
      if pf.hasIf then Err(-17)
      else if st.sum then Err(-7)
      else if v.Invalid? then Err(-8)
      else Ok(st.(pf := pf.(noIf := true, entries := WithLast(pf.entries, last.(checksum := Kept(v, last.checksum)))), sum := true))
    case Size(v) =>
      if pf.hasIf then Err(-16)
      else if st.size then Err(-9)
      else if v.Invalid? then Err(-10)
      else Ok(st.(pf := pf.(noIf := true, entries := WithLast(pf.entries, last.(size := Kept(v, last.size)))), size := true))
    case If(client, children) =>
      if pf.hasElse || pf.noIf then Err(-14)
      else
        (match CondEntry(Some(client), children)
         case Err(_) => Err(-20)
         case Ok(e) =>
           var es := if st.size then pf.entries + [e] else WithLast(pf.entries, e);
           Ok(st.(pf := pf.(hasIf := true, entries := es), file := true, sum := true, size := true)))
    case Else(children) =>
      if pf.hasElse || !pf.hasIf then Err(-12)
      else
        (match CondEntry(None, children)
         case Err(_) => Err(-19)
         case Ok(e) => Ok(st.(pf := pf.(hasElse := true, entries := pf.entries + [e]))))
    case _ => Ok(st)
  }

  function UpTo(nodes: seq<Node>): Result<PatchState> {
    if nodes == [] then Ok(START)
    else
      match UpTo(nodes[..|nodes| - 1])
      case Err(code) => Err(code)
      case Ok(st) => Step(st, nodes[|nodes| - 1])
  }

  function PatchOf(nodes: seq<Node>): Result<PatchFile> {
    match UpTo(nodes)
    case Err(code) => Err(code)
    case Ok(st) => if st.cfile && st.file && st.sum && st.size then Ok(st.pf) else Err(-11)
  }

  /** The `enabled` attribute: missing, "false", or anything else. */
  datatype Enabled = NoAttribute | Disabled | Active

  /** Reads one patch element and appends it to the queue. */
  method HandlePatch(enabled: Enabled, nodes: seq<Node>, q: seq<PatchFile>) returns (rv: int, q': seq<PatchFile>)
    ensures enabled == NoAttribute ==> rv == -1 && q' == q
    ensures enabled == Disabled ==> rv == 0 && q' == q
    ensures enabled == Active ==>
      match PatchOf(nodes)
      case Err(code) => rv == code != 0 && q' == q
      case Ok(pf) => rv == 0 && q' == q + [pf]
  {
    q' := q;
    if enabled == NoAttribute {
      return -1, q';
    }
    if enabled == Disabled {
      return 0, q';
    }
    var st := START;
    for i := 0 to |nodes|
      invariant UpTo(nodes[..i]) == Ok(st) && q' == q
    {
      assert nodes[..i + 1][..i] == nodes[..i];
      rv, st := HandleNode(st, nodes[i]);
      if rv != 0 {
        UpToFails(nodes, i + 1, rv);
        return;
      }
    }
    assert nodes[..|nodes|] == nodes;
    if !st.cfile || !st.file || !st.sum || !st.size {
      return -11, q';
    }
    q' := q + [st.pf];
    rv := 0;
  }

  /** One turn of the loop over the child nodes. */
  method HandleNode(was: PatchState, n: Node) returns (rv: int, st: PatchState)
    ensures match Step(was, n)
            case Err(code) => rv == code != 0
            case Ok(next) => rv == 0 && st == next
  {
    hide CondEntry;
    st := was;
    var pf, last := st.pf, Last(st.pf.entries);
    match n {
      case ClientFile(text) =>
        if st.cfile {
          return -3, st;
        }
        st := st.(pf := pf.(filename := Named(text, pf.filename)), cfile := true);
      case File(text) =>
        if pf.hasIf {
          return -18, st;
        }
        if st.file {
          return -5, st;
        }
        last := last.(filename := Named(text, last.filename));
        st := st.(pf := pf.(noIf := true, entries := WithLast(pf.entries, last)), file := true);
      case Sum(v) =>
        if pf.hasIf {
          return -17, st;
        }
        if st.sum {
          return -7, st;
        }
        if v.Invalid? {
          return -8, st;
        }
        last := last.(checksum := Kept(v, last.checksum));
        st := st.(pf := pf.(noIf := true, entries := WithLast(pf.entries, last)), sum := true);
      case Size(v) =>
        if pf.hasIf {
          return -16, st;
        }
        if st.size {
          return -9, st;
        }
        if v.Invalid? {
          return -10, st;
        }
        last := last.(size := Kept(v, last.size));
        st := st.(pf := pf.(noIf := true, entries := WithLast(pf.entries, last)), size := true);
      case If(client, children) =>
        if pf.hasElse || pf.noIf {
          return -14, st;
        }
        var ent;
        rv, ent := HandleEntry(Some(client), children);
        if rv != 0 {
          return -20, st;
        }
        var es := if st.size then pf.entries + [ent] else WithLast(pf.entries, ent);
        st := st.(pf := pf.(hasIf := true, entries := es), file := true, sum := true, size := true);
      case Else(children) =>
        if pf.hasElse || !pf.hasIf {
          return -12, st;
        }
        var ent;
        rv, ent := HandleEntry(None, children);
        if rv != 0 {
          return -19, st;
        }
        st := st.(pf := pf.(hasElse := true, entries := pf.entries + [ent]));
      case _ =>
    }
    rv := 0;
  }

  lemma {:induction false} UpToFails(nodes: seq<Node>, i: nat, code: int)
    requires i <= |nodes| && UpTo(nodes[..i]) == Err(code)
    ensures UpTo(nodes) == Err(code)
    decreases |nodes|
  {
    hide Step;
    if i < |nodes| {
      assert nodes[..|nodes| - 1][..i] == nodes[..i];
      UpToFails(nodes[..|nodes| - 1], i, code);
    } else {
      assert nodes[..i] == nodes;
    }
  }

  // ---------------------------------------------------------------- the grammar

  function ClientFiles(nodes: seq<Node>): nat {
    Count((n: Node) => n.ClientFile?, nodes)
  }

  function Files(nodes: seq<Node>): nat {
    Count((n: Node) => n.File?, nodes)
  }

  function Sums(nodes: seq<Node>): nat {
    Count((n: Node) => n.Sum?, nodes)
  }

  function Sizes(nodes: seq<Node>): nat {
    Count((n: Node) => n.Size?, nodes)
  }

  function Ifs(nodes: seq<Node>): nat {
    Count((n: Node) => n.If?, nodes)
  }

  function Elses(nodes: seq<Node>): nat {
    Count((n: Node) => n.Else?, nodes)
  }

  predicate NodeValid(n: Node) {
    match n
    case Sum(v) => !v.Invalid?
    case Size(v) => !v.Invalid?
    case If(client, children) => CondEntry(Some(client), children).Ok?
    case Else(children) => CondEntry(None, children).Ok?
    case _ => true
  }

  /** Every condition comes before the `else`. */
  predicate ElseLast(nodes: seq<Node>) {
    forall i, j :: 0 <= i < j < |nodes| && nodes[i].Else? ==> !nodes[j].If?
  }

  predicate Grammar(nodes: seq<Node>) {
    && ClientFiles(nodes) == 1
    && (|| (Files(nodes) == Sums(nodes) == Sizes(nodes) == 1 && Ifs(nodes) == Elses(nodes) == 0)
        || (Files(nodes) == Sums(nodes) == Sizes(nodes) == 0 && Ifs(nodes) >= 1 && Elses(nodes) <= 1 && ElseLast(nodes)))
    && AllNodesValid(nodes)
  }

  /** What an unfinished element may have. */
  predicate Prefix(nodes: seq<Node>) {
    && ClientFiles(nodes) <= 1 && Files(nodes) <= 1 && Sums(nodes) <= 1 && Sizes(nodes) <= 1
    && (Ifs(nodes) > 0 ==> Files(nodes) + Sums(nodes) + Sizes(nodes) == 0)
    && Elses(nodes) <= 1 && (Elses(nodes) > 0 ==> Ifs(nodes) > 0) && ElseLast(nodes)
    && AllNodesValid(nodes)
  }

  /** The state after an accepted prefix. */
  predicate Counted(nodes: seq<Node>, st: PatchState) {
    && (st.cfile <==> ClientFiles(nodes) == 1)
    && (st.pf.noIf <==> Files(nodes) + Sums(nodes) + Sizes(nodes) > 0)
    && (st.pf.hasIf <==> Ifs(nodes) > 0) && (st.pf.hasElse <==> Elses(nodes) == 1)
    && (st.file <==> Files(nodes) + Ifs(nodes) > 0)
    && (st.sum <==> Sums(nodes) + Ifs(nodes) > 0)
    && (st.size <==> Sizes(nodes) + Ifs(nodes) > 0)
    && |st.pf.entries| == (if Ifs(nodes) > 0 then Ifs(nodes) + Elses(nodes) else 1)
    && (st.pf.hasElse ==> Last(st.pf.entries).client == 0)
  }

  predicate AllNodesValid(nodes: seq<Node>) {
    forall i :: 0 <= i < |nodes| ==> NodeValid(nodes[i])
  }

  /** The seven counts of a prefix grow by the new node. */
  lemma CountsOne(nodes: seq<Node>, n: Node)
    ensures ClientFiles(nodes + [n]) == ClientFiles(nodes) + if n.ClientFile? then 1 else 0
    ensures Files(nodes + [n]) == Files(nodes) + if n.File? then 1 else 0
    ensures Sums(nodes + [n]) == Sums(nodes) + if n.Sum? then 1 else 0
    ensures Sizes(nodes + [n]) == Sizes(nodes) + if n.Size? then 1 else 0
    ensures Ifs(nodes + [n]) == Ifs(nodes) + if n.If? then 1 else 0
    ensures Elses(nodes + [n]) == Elses(nodes) + if n.Else? then 1 else 0
  {
    assert (nodes + [n])[..|nodes|] == nodes;
  }

  lemma {:induction false} ElsesCounted(nodes: seq<Node>)
    ensures Elses(nodes) > 0 <==> exists i :: 0 <= i < |nodes| && nodes[i].Else?
    decreases |nodes|
  {
    if nodes != [] {
      var n := |nodes| - 1;
      ElsesCounted(nodes[..n]);
      assert nodes == nodes[..n] + [nodes[n]];
    }
  }

  lemma ElseLastOne(nodes: seq<Node>, n: Node)
    ensures ElseLast(nodes + [n]) <==> ElseLast(nodes) && (n.If? ==> Elses(nodes) == 0)
  {
    ElsesCounted(nodes);
    var all := nodes + [n];
    assert forall i :: 0 <= i < |nodes| ==> all[i] == nodes[i];
    if ElseLast(all) {
      assert forall i :: 0 <= i < |nodes| && all[i].Else? ==> !all[|nodes|].If?;
    }
  }

  lemma PrefixOne(nodes: seq<Node>, n: Node)
    ensures Prefix(nodes + [n]) <==>
      && Prefix(nodes) && NodeValid(n)
      && (n.ClientFile? ==> ClientFiles(nodes) == 0)
      && (n.File? ==> Files(nodes) == 0 && Ifs(nodes) == 0)
      && (n.Sum? ==> Sums(nodes) == 0 && Ifs(nodes) == 0)
      && (n.Size? ==> Sizes(nodes) == 0 && Ifs(nodes) == 0)
      && (n.If? ==> Files(nodes) + Sums(nodes) + Sizes(nodes) == 0 && Elses(nodes) == 0)
      && (n.Else? ==> Elses(nodes) == 0 && Ifs(nodes) > 0)
  {
    hide NodeValid, ElseLast, ClientFiles, Files, Sums, Sizes, Ifs, Elses;
    CountsOne(nodes, n);
    ElseLastOne(nodes, n);
    assert forall i :: 0 <= i < |nodes| ==> (nodes + [n])[i] == nodes[i];
    assert (nodes + [n])[|nodes|] == n;
  }

  lemma CondClient(subs: seq<Sub>)
    ensures CondEntry(None, subs).Ok? ==> CondEntry(None, subs).value.client == 0
  {
    EntryAccepted(BLANK, subs);
  }

  lemma StepCounted(nodes: seq<Node>, st: PatchState, n: Node)
    requires Prefix(nodes) && Counted(nodes, st)
    ensures Step(st, n).Ok? <==> Prefix(nodes + [n])
    ensures Step(st, n).Ok? ==> Counted(nodes + [n], Step(st, n).value)
  {
    hide ElseLast, ClientFiles, Files, Sums, Sizes, Ifs, Elses, CondEntry;
    PrefixOne(nodes, n);
    CountsOne(nodes, n);
    if n.Else? {
      CondClient(n.children);
    }
  }

  lemma {:induction false} PrefixAccepted(nodes: seq<Node>)
    ensures UpTo(nodes).Ok? <==> Prefix(nodes)
    ensures UpTo(nodes).Ok? ==> Counted(nodes, UpTo(nodes).value)
    decreases |nodes|
  {
    hide Step, Counted, Prefix;
    if nodes == [] {
      assert Prefix([]) && Counted([], START) by {
        EmptyCounted();
      }
    } else {
      var n := |nodes| - 1;
      PrefixAccepted(nodes[..n]);
      assert nodes == nodes[..n] + [nodes[n]];
      if UpTo(nodes[..n]).Ok? {
        StepCounted(nodes[..n], UpTo(nodes[..n]).value, nodes[n]);
      } else {
        PrefixOne(nodes[..n], nodes[n]);
      }
    }
  }

  lemma EmptyCounted()
    ensures Prefix([]) && Counted([], START)
  {
  }

  /** What an accepted patch looks like: one unconditional entry, or conditions in order and at most
      one entry for all other clients, which is the last. */
  predicate WellFormed(pf: PatchFile) {
    && (pf.noIf <==> !pf.hasIf) && (pf.hasElse ==> pf.hasIf)
    && (pf.noIf ==> |pf.entries| == 1)
    && (pf.hasIf ==> |pf.entries| >= if pf.hasElse then 2 else 1)
    && (pf.hasElse ==> pf.entries[|pf.entries| - 1].client == 0)
  }

  /** The accepted elements are exactly those of the grammar. */
  lemma PatchAccepted(nodes: seq<Node>)
    ensures PatchOf(nodes).Ok? <==> Grammar(nodes)
    ensures PatchOf(nodes).Ok? ==> WellFormed(PatchOf(nodes).value)
    ensures PatchOf(nodes).Ok? && PatchOf(nodes).value.hasIf ==>
      |PatchOf(nodes).value.entries| == Ifs(nodes) + Elses(nodes)
    ensures PatchOf(nodes).Ok? ==> (PatchOf(nodes).value.hasElse <==> Elses(nodes) == 1)
  {
    hide UpTo, ElseLast, ClientFiles, Files, Sums, Sizes, Ifs, Elses, NodeValid;
    PrefixAccepted(nodes);
    assert Ifs(nodes) == 0 ==> ElseLast(nodes) by {
      NoIfs(nodes);
    }
  }

  lemma {:induction false} NoIfs(nodes: seq<Node>)
    ensures Ifs(nodes) == 0 ==> ElseLast(nodes)
    ensures Ifs(nodes) == 0 ==> forall i :: 0 <= i < |nodes| ==> !nodes[i].If?
    decreases |nodes|
  {
    if nodes != [] {
      var n := |nodes| - 1;
      NoIfs(nodes[..n]);
      assert nodes == nodes[..n] + [nodes[n]];
    }
  }

  // ---------------------------------------------------------------- what an accepted patch holds

  /** The conditions and the `else`, in order. */
  function Branches(nodes: seq<Node>): seq<Node> {
    if nodes == [] then []
    else
      var n := |nodes| - 1;
      Branches(nodes[..n]) + if nodes[n].If? || nodes[n].Else? then [nodes[n]] else []
  }

  predicate IsBranch(n: Node, e: Entry) {
    match n
    case If(client, children) => CondEntry(Some(client), children) == Ok(e)
    case Else(children) => CondEntry(None, children) == Ok(e)
    case _ => false
  }

  /** The entries are those of the branches, one by one. */
  predicate AreBranches(ns: seq<Node>, es: seq<Entry>) {
    |ns| == |es| && forall i :: 0 <= i < |ns| ==> IsBranch(ns[i], es[i])
  }

  /** The patch has what an element outside of the branches says. */
  predicate Tells(n: Node, pf: PatchFile) {
    match n
    case ClientFile(text) => pf.filename == if text.Some? then text.value else ""
    case File(text) => |pf.entries| == 1 && pf.entries[0].filename == if text.Some? then text.value else ""
    case Sum(v) => |pf.entries| == 1 && pf.entries[0].checksum == if v.Value? then v.n % 0x1_0000_0000 else 0
    case Size(v) => |pf.entries| == 1 && pf.entries[0].size == if v.Value? then v.n % 0x1_0000_0000 else 0
    case _ => true
  }

  /** The state of an unfinished patch: what was told, what was not told yet, and the branches. */
  predicate Told(nodes: seq<Node>, st: PatchState) {
    && (forall i :: 0 <= i < |nodes| ==> Tells(nodes[i], st.pf))
    && (!st.cfile ==> st.pf.filename == "")
    && (if st.pf.hasIf then AreBranches(Branches(nodes), st.pf.entries) && st.size && !st.pf.noIf
        else
          && Branches(nodes) == [] && |st.pf.entries| == 1 && st.pf.entries[0].client == 0 && !st.pf.hasElse
          && (!st.pf.noIf ==> !st.file && !st.sum && !st.size && st.pf.entries[0] == BLANK)
          && (!st.file ==> st.pf.entries[0].filename == "")
          && (!st.sum ==> st.pf.entries[0].checksum == 0)
          && (!st.size ==> st.pf.entries[0].size == 0))
    && (forall i :: 0 <= i < |nodes| ==>
          && (nodes[i].ClientFile? ==> st.cfile) && (nodes[i].File? ==> st.file && st.pf.noIf)
          && (nodes[i].Sum? ==> st.sum && st.pf.noIf) && (nodes[i].Size? ==> st.size && st.pf.noIf))
  }

  lemma StepTold(nodes: seq<Node>, st: PatchState, n: Node)
    requires Told(nodes, st) && Step(st, n).Ok?
    ensures Told(nodes + [n], Step(st, n).value)
  {
    hide CondEntry;
    var all := nodes + [n];
    assert all[..|nodes|] == nodes;
    assert forall i :: 0 <= i < |nodes| ==> all[i] == nodes[i];
  }

  lemma {:induction false} UpToTold(nodes: seq<Node>)
    requires UpTo(nodes).Ok?
    ensures Told(nodes, UpTo(nodes).value)
    decreases |nodes|
  {
    hide Step, Told;
    if nodes == [] {
      assert Told([], START) by {
        NothingTold();
      }
    } else {
      var n := |nodes| - 1;
      UpToTold(nodes[..n]);
      StepTold(nodes[..n], UpTo(nodes[..n]).value, nodes[n]);
      assert nodes == nodes[..n] + [nodes[n]];
    }
  }

  lemma NothingTold()
    ensures Told([], START)
  {
  }

  /** An accepted patch has the client's file name, and either the one entry of its elements or the
      entries of its branches, in order. */
  lemma PatchHolds(nodes: seq<Node>)
    requires PatchOf(nodes).Ok?
    ensures var pf := PatchOf(nodes).value;
      && (forall i :: 0 <= i < |nodes| ==> Tells(nodes[i], pf))
      && (pf.hasIf ==> AreBranches(Branches(nodes), pf.entries))
      && (pf.noIf ==> Branches(nodes) == [] && |pf.entries| == 1 && pf.entries[0].client == 0)
  {
    hide UpTo, Tells;
    UpToTold(nodes);
  }
}
