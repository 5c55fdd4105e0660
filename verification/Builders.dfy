/** The value builders of builders.c: nested builders write into lists that grow in
    place, and a script of calls leaves one value behind. */
module Builders {
  /** The type of an argument; NoKind is DICEY_TYPE_INVALID. */
  datatype Kind = NoKind | ArrayKind | TupleKind | PairKind | PlainKind(id: nat)

  /** struct dicey_arg.  Zeroed has a type and nothing in it. */
  datatype Arg =
    | Zeroed(kind: Kind)
    | Leaf(id: nat, payload: nat)
    | ArrayArg(elemKind: Kind, items: seq<Arg>)
    | TupleArg(items: seq<Arg>)
    | PairArg(first: Arg, second: Arg)

  function KindOf(a: Arg): Kind {
    match a
    case Zeroed(k) => k
    case Leaf(id, _) => PlainKind(id)
    case ArrayArg(_, _) => ArrayKind
    case TupleArg(_) => TupleKind
    case PairArg(_, _) => PairKind
  }

  /** Other stands for what code outside this model reports. */
  datatype Error =
    OK | EINVAL | EAGAIN | EOVERFLOW | EVALUE_TYPE_MISMATCH | EELEMENT_NOT_FOUND | Other(code: nat)

  // -------------------------------------------------------------------- scripts

  /** A well-nested script of builder calls: one value set as a whole, or a list that
      is started, filled through `next` by a script for each item, and ended. */
  datatype Script =
    | Put(value: Arg)
    | MakeArray(kind: Kind, kids: seq<Script>)
    | MakeTuple(kids: seq<Script>)
    | MakePair(kids: seq<Script>)

  datatype State = Idle | Pending | InArray | InPair | InTuple

  /** dicey_value_builder_is_list. */
  predicate IsList(st: State) {
    st.InArray? || st.InPair? || st.InTuple?
  }

  datatype Result<T> = Ok(value: T) | Err(error: Error)

  /** The number of items is counted in 16 bits. */
  const U16: nat := 0x1_0000

  /** What is left of the items of a list: those since the count last wrapped. */
  function Kept(items: seq<Arg>): seq<Arg> {
    items[|items| / U16 * U16..]
  }

  /** What a script leaves in a slot of the given kind, or the error that ends it. */
  function Built(slot: Kind, s: Script): (r: Result<Arg>)
    ensures r.Err? ==> r.error != OK
    decreases s, 0
  {
    match s
    case Put(v) =>
      if KindOf(v) == NoKind then Err(EINVAL)
      else if slot != NoKind && slot != KindOf(v) then Err(EVALUE_TYPE_MISMATCH)
      else Ok(v)
    case MakeArray(k, kids) =>
      var r := BuiltAll(k, kids);
      if r.Err? then Err(r.error) else Ok(ArrayArg(k, Kept(r.value)))
    case MakeTuple(kids) =>
      var r := BuiltAll(NoKind, kids);
      if r.Err? then Err(r.error) else Ok(TupleArg(Kept(r.value)))
    case MakePair(kids) =>
      var r := Filled(InPair, NoKind, kids);
      if r.Err? then Err(r.error)
      else if |r.value| < 2 then Err(EAGAIN)
      else Ok(PairArg(r.value[0], r.value[1]))
  }

  /** The items of a list in order, up to the first that fails. */
  function BuiltAll(slot: Kind, kids: seq<Script>): (r: Result<seq<Arg>>)
    ensures if r.Ok? then |r.value| == |kids| else r.error != OK
    decreases kids, 1
  {
    if kids == [] then Ok([])
    else
      var n := |kids| - 1;
      var rest := BuiltAll(slot, kids[..n]);
      if rest.Err? then rest
      else
        var last := Built(slot, kids[n]);
        if last.Err? then Err(last.error) else Ok(rest.value + [last.value])
  }

  /** The items of a list in the given state: a pair has no room for a third. */
  function Filled(st: State, slot: Kind, kids: seq<Script>): (r: Result<seq<Arg>>)
    ensures if r.Ok? then |r.value| == |kids| else r.error != OK
    decreases kids, 2
  {
    if st == InPair && |kids| > 2 then
      var r := BuiltAll(slot, kids[..2]);
      if r.Err? then r else Err(EOVERFLOW)
    else BuiltAll(slot, kids)
  }

  /** The value that a script spells out. */
  function Meant(s: Script): Arg
    decreases s, 0
  {
    match s
    case Put(v) => v
    case MakeArray(k, kids) => ArrayArg(k, MeantAll(kids))
    case MakeTuple(kids) => TupleArg(MeantAll(kids))
    case MakePair(kids) => if |kids| == 2 then PairArg(Meant(kids[0]), Meant(kids[1])) else Zeroed(NoKind)
  }

  function MeantAll(kids: seq<Script>): (r: seq<Arg>)
    ensures |r| == |kids|
    decreases kids, 1
  {
    if kids == [] then [] else MeantAll(kids[..|kids| - 1]) + [Meant(kids[|kids| - 1])]
  }

  /** What a caller can check of a script: whole values have a type, which in an
      array is the declared one; lists have fewer than 2^16 items; pairs have two. */
  predicate WellFormed(slot: Kind, s: Script)
    decreases s, 0
  {
    match s
    case Put(v) => KindOf(v) != NoKind && (slot == NoKind || slot == KindOf(v))
    case MakeArray(k, kids) => |kids| < U16 && AllWellFormed(k, kids)
    case MakeTuple(kids) => |kids| < U16 && AllWellFormed(NoKind, kids)
    case MakePair(kids) => |kids| == 2 && AllWellFormed(NoKind, kids)
  }

  predicate AllWellFormed(slot: Kind, kids: seq<Script>)
    decreases kids, 1
  {
    kids == [] || (AllWellFormed(slot, kids[..|kids| - 1]) && WellFormed(slot, kids[|kids| - 1]))
  }

  /** A script builds the value that it spells out exactly when it is well-formed. */
  lemma {:induction false} BuiltIsMeant(slot: Kind, s: Script)
    ensures Built(slot, s) == Ok(Meant(s)) <==> WellFormed(slot, s)
    decreases s, 0
  {
    match s
    case Put(v) =>
    case MakeArray(k, kids) =>
      BuiltAllIsMeant(k, kids);
      KeptAll(k, kids);
    case MakeTuple(kids) =>
      BuiltAllIsMeant(NoKind, kids);
      KeptAll(NoKind, kids);
    case MakePair(kids) =>
      if |kids| == 2 {
        BuiltAllIsMeant(NoKind, kids);
        MeantPair(kids);
      }
  }

  lemma {:induction false} BuiltAllIsMeant(slot: Kind, kids: seq<Script>)
    ensures BuiltAll(slot, kids) == Ok(MeantAll(kids)) <==> AllWellFormed(slot, kids)
    decreases kids, 1
  {
    if kids != [] {
      var n := |kids| - 1;
      BuiltAllIsMeant(slot, kids[..n]);
      BuiltIsMeant(slot, kids[n]);
      var r := BuiltAll(slot, kids);
      if r == Ok(MeantAll(kids)) {
        assert r.value[..n] == MeantAll(kids[..n]) && r.value[n] == Meant(kids[n]);
      }
    }
  }

  /** A list keeps all its items exactly when the count does not wrap. */
  lemma {:induction false} KeptAll(slot: Kind, kids: seq<Script>)
    ensures var r := BuiltAll(slot, kids);
            r.Ok? ==> (Kept(r.value) == MeantAll(kids) <==> r.value == MeantAll(kids) && |kids| < U16)
  {
  }

  lemma {:induction false} MeantPair(kids: seq<Script>)
    requires |kids| == 2
    ensures MeantAll(kids) == [Meant(kids[0]), Meant(kids[1])]
  {
    assert kids[..1] == [kids[0]] && kids[..1][..0] == [];
    assert MeantAll([kids[0]]) == MeantAll([]) + [Meant(kids[0])];
  }

  /** Whole values are checked against the type that their array declares, lists are
      not: the items of a well-formed array have its declared type exactly when the
      lists among them do. */
  lemma {:induction false} ArrayIsUniform(slot: Kind, k: Kind, kids: seq<Script>)
    requires WellFormed(slot, MakeArray(k, kids)) && k != NoKind
    ensures (forall i | 0 <= i < |kids| :: KindOf(MeantAll(kids)[i]) == k) <==>
            (forall i | 0 <= i < |kids| :: kids[i].Put? || KindOf(Meant(kids[i])) == k)
  {
    forall i | 0 <= i < |kids|
      ensures KindOf(MeantAll(kids)[i]) == k <==> kids[i].Put? || KindOf(Meant(kids[i])) == k
    {
      ItemIs(k, kids, i);
    }
  }

  lemma {:induction false} ItemIs(slot: Kind, kids: seq<Script>, i: nat)
    requires AllWellFormed(slot, kids) && i < |kids|
    ensures MeantAll(kids)[i] == Meant(kids[i]) && WellFormed(slot, kids[i])
    decreases |kids|
  {
    if i < |kids| - 1 {
      ItemIs(slot, kids[..|kids| - 1], i);
    }
  }

  /** An array of integers with a tuple in it. */
  lemma {:induction false} TupleAmongIntegers(i: nat, n: nat)
    ensures var script := MakeArray(PlainKind(i), [Put(Leaf(i, n)), MakeTuple([])]);
            && WellFormed(NoKind, script)
            && Built(NoKind, script) == Ok(ArrayArg(PlainKind(i), [Leaf(i, n), TupleArg([])]))
  {
    var kids := [Put(Leaf(i, n)), MakeTuple([])];
    assert kids[..1] == [kids[0]] && [kids[0]][..0] == [];
    assert AllWellFormed(PlainKind(i), []) && AllWellFormed(PlainKind(i), [kids[0]]);
    assert AllWellFormed(PlainKind(i), kids);
    assert MeantAll([kids[0]]) == MeantAll([]) + [Leaf(i, n)];
    assert MeantAll(kids) == [Leaf(i, n), TupleArg([])];
    BuiltIsMeant(NoKind, MakeArray(PlainKind(i), kids));
  }

  /** A list of 2^16 items comes out empty. */
  lemma {:induction false} WrappedListIsEmpty(slot: Kind, kids: seq<Script>)
    requires |kids| == 65536 && AllWellFormed(NoKind, kids)
    ensures Built(slot, MakeTuple(kids)) == Ok(TupleArg([]))
  {
    BuiltAllIsMeant(NoKind, kids);
    var items := BuiltAll(NoKind, kids).value;
    assert Kept(items) == items[U16..] == [];
  }

  /** What is left of a list is the end of it, as long as its count in 16 bits. */
  lemma {:induction false} ListLeft(slot: Kind, kids: seq<Script>)
    requires AllWellFormed(NoKind, kids)
    ensures Built(slot, MakeTuple(kids)) == Ok(TupleArg(MeantAll(kids)[|kids| - |kids| % 65536..]))
  {
    BuiltAllIsMeant(NoKind, kids);
  }

  /** The type of a built argument, case by case, and the values that slots of these
      types take. */
  lemma {:induction false} KindsSpelled(k: Kind, id: nat, payload: nat, items: seq<Arg>, a: Arg, b: Arg)
    ensures KindOf(Zeroed(k)) == k && KindOf(Leaf(id, payload)) == PlainKind(id)
    ensures KindOf(ArrayArg(k, items)).ArrayKind? && KindOf(TupleArg(items)).TupleKind? && KindOf(PairArg(a, b)).PairKind?
    ensures forall slot: Kind :: Built(slot, Put(TupleArg(items))).Ok? <==> slot.NoKind? || slot.TupleKind?
    ensures forall slot: Kind :: Built(slot, Put(PairArg(a, b))).Ok? <==> slot.NoKind? || slot.PairKind?
    ensures forall slot: Kind :: Built(slot, Put(ArrayArg(k, items))).Ok? <==> slot.NoKind? || slot.ArrayKind?
  {
  }

  // -------------------------------------------------------- the first error

  /** A call that a script makes, with what it meets: the declared kind of the slot
      that is set, or how many items the list has. */
  datatype Call =
    | StartCall
    | SetCall(slot: Kind, value: Arg)
    | NextCall(inPair: bool, count: nat)
    | EndCall(ofPair: bool, count: nat)

  /** All calls of a script in their order. */
  function Calls(slot: Kind, s: Script): seq<Call>
    decreases s, 0
  {
    match s
    case Put(v) => [SetCall(slot, v)]
    case MakeArray(k, kids) => [StartCall] + KidCalls(false, k, kids) + [EndCall(false, |kids|)]
    case MakeTuple(kids) => [StartCall] + KidCalls(false, NoKind, kids) + [EndCall(false, |kids|)]
    case MakePair(kids) => [StartCall] + KidCalls(true, NoKind, kids) + [EndCall(true, |kids|)]
  }

  function KidCalls(pair: bool, slot: Kind, kids: seq<Script>): seq<Call>
    decreases kids, 1
  {
    if kids == [] then []
    else
      var n := |kids| - 1;
      KidCalls(pair, slot, kids[..n]) + ([NextCall(pair, n)] + Calls(slot, kids[n]))
  }

  /** What is wrong with a call: a value without a type or of another type than the
      slot declares, a third item of a pair, or a pair that ends with fewer than two. */
  function Offence(c: Call): Error {
    match c
    case StartCall => OK
    case SetCall(slot, v) =>
      if KindOf(v) == NoKind then EINVAL
      else if slot == NoKind || slot == KindOf(v) then OK
      else EVALUE_TYPE_MISMATCH
    case NextCall(inPair, count) => if inPair && count >= 2 then EOVERFLOW else OK
    case EndCall(ofPair, count) => if ofPair && count < 2 then EAGAIN else OK
  }

  /** Call i is the first offending one, and err is its offence. */
  ghost predicate Offending(calls: seq<Call>, i: nat, err: Error) {
    i < |calls| && err != OK && Offence(calls[i]) == err && forall j | 0 <= j < i :: Offence(calls[j]) == OK
  }

  ghost predicate FirstOffence(calls: seq<Call>, err: Error) {
    if err == OK then forall i | 0 <= i < |calls| :: Offence(calls[i]) == OK
    else exists i :: Offending(calls, i, err)
  }

  lemma {:induction false} OneCall(c: Call)
    ensures FirstOffence([c], Offence(c))
  {
    if Offence(c) != OK {
      assert Offending([c], 0, Offence(c));
    }
  }

  lemma {:induction false} MoreCalls(a: seq<Call>, err: Error, b: seq<Call>, err': Error)
    requires FirstOffence(a, err) && (err == OK ==> FirstOffence(b, err'))
    ensures FirstOffence(a + b, if err != OK then err else err')
  {
    if err != OK {
      var i :| Offending(a, i, err);
      assert Offending(a + b, i, err);
    } else if err' != OK {
      var i :| Offending(b, i, err');
      assert Offending(a + b, |a| + i, err');
    }
  }

  /** A script ends with the offence of its first offending call, and with OK exactly
      when no call offends. */
  lemma {:induction false} BuiltReports(slot: Kind, s: Script)
    ensures FirstOffence(Calls(slot, s), ErrorOf(Built(slot, s)))
    decreases s, 0
  {
    match s
    case Put(v) =>
      OneCall(SetCall(slot, v));
    case MakeArray(k, kids) =>
      BuiltAllReports(false, k, kids);
      ListReports(KidCalls(false, k, kids), ErrorOf(BuiltAll(k, kids)), EndCall(false, |kids|));
    case MakeTuple(kids) =>
      BuiltAllReports(false, NoKind, kids);
      ListReports(KidCalls(false, NoKind, kids), ErrorOf(BuiltAll(NoKind, kids)), EndCall(false, |kids|));
    case MakePair(kids) =>
      PairReports(kids);
      ListReports(KidCalls(true, NoKind, kids), ErrorOf(Filled(InPair, NoKind, kids)), EndCall(true, |kids|));
  }

  /** A list: its start, its items and its end. */
  lemma {:induction false} ListReports(items: seq<Call>, err: Error, end: Call)
    requires FirstOffence(items, err)
    ensures FirstOffence([StartCall] + items + [end], if err != OK then err else Offence(end))
  {
    OneCall(StartCall);
    OneCall(end);
    MoreCalls([StartCall], OK, items, err);
    MoreCalls([StartCall] + items, err, [end], Offence(end));
  }

  lemma {:induction false} BuiltAllReports(pair: bool, slot: Kind, kids: seq<Script>)
    requires pair ==> |kids| <= 2
    ensures FirstOffence(KidCalls(pair, slot, kids), ErrorOf(BuiltAll(slot, kids)))
    decreases kids, 1
  {
    if kids != [] {
      var n := |kids| - 1;
      BuiltAllReports(pair, slot, kids[..n]);
      BuiltReports(slot, kids[n]);
      KidReports(pair, slot, kids, ErrorOf(BuiltAll(slot, kids[..n])), ErrorOf(Built(slot, kids[n])));
    }
  }

  lemma {:induction false} KidReports(pair: bool, slot: Kind, kids: seq<Script>, err: Error, err': Error)
    requires kids != [] && FirstOffence(KidCalls(pair, slot, kids[..|kids| - 1]), err)
    requires FirstOffence(Calls(slot, kids[|kids| - 1]), err')
    ensures FirstOffence(KidCalls(pair, slot, kids),
                         if err != OK then err else if pair && |kids| > 2 then EOVERFLOW else err')
  {
    var n := |kids| - 1;
    var next := NextCall(pair, n);
    OneCall(next);
    MoreCalls([next], Offence(next), Calls(slot, kids[n]), err');
    MoreCalls(KidCalls(pair, slot, kids[..n]), err, [next] + Calls(slot, kids[n]),
              if Offence(next) != OK then Offence(next) else err');
  }

  lemma {:induction false} PairReports(kids: seq<Script>)
    ensures FirstOffence(KidCalls(true, NoKind, kids), ErrorOf(Filled(InPair, NoKind, kids)))
    decreases kids, 2
  {
    if |kids| <= 2 {
      BuiltAllReports(true, NoKind, kids);
    } else {
      var n := |kids| - 1;
      PairReports(kids[..n]);
      BuiltReports(NoKind, kids[n]);
      KidReports(true, NoKind, kids, ErrorOf(Filled(InPair, NoKind, kids[..n])), ErrorOf(Built(NoKind, kids[n])));
      assert kids[..n][..2] == kids[..2];
      assert n == 2 ==> kids[..n] == kids[..2];
    }
  }

  // ------------------------------------------------------------------ the object

  const DEFAULT_VAL_CAP: nat := 16

  /** struct dicey_value_builder.  The slot that `_root` points to is place `at` of the
      array `root`; the four last fields are its `_list`. */
  class ValueBuilder {
    var state: State
    var root: array?<Arg>
    var at: nat
    var kind: Kind
    var nitems: nat
    var cap: nat
    var elems: array?<Arg>

    constructor ()
      ensures Cleared()
    {
      state, root, at, kind, nitems, cap, elems := Idle, null, 0, NoKind, 0, 0, null;
    }

    predicate Cleared()
      reads this
    {
      state == Idle && root == null && at == 0 && kind == NoKind && nitems == cap == 0 && elems == null
    }

    /** valbuilder_is_valid, with the slot inside its array. */
    predicate HasSlot()
      reads this
    {
      root != null && at < root.Length
    }

    /** In the middle of a list of the given state and element kind. */
    ghost predicate Listing(st: State, k: Kind)
      reads this, elems
    {
      && HasSlot() && state == st && IsList(st) && kind == k
      && nitems <= cap && nitems < U16
      && (if cap == 0 then elems == null else cap >= DEFAULT_VAL_CAP && elems != null && elems.Length == cap)
      && elems != root
    }

    /** The items so far. */
    ghost function Items(): seq<Arg>
      reads this, elems
      requires elems != null ==> nitems <= elems.Length
    {
      if elems == null then [] else elems[..nitems]
    }

    method Clear()
      modifies this
      ensures Cleared()
    {
      state, root, at, kind, nitems, cap, elems := Idle, null, 0, NoKind, 0, 0, null;
    }

    /** A builder for slot i of an array. */
    method Borrow(slots: array<Arg>, i: nat)
      modifies this
      ensures state == Pending && root == slots && at == i && kind == NoKind && nitems == cap == 0 && elems == null
    {
      state, root, at, kind, nitems, cap, elems := Pending, slots, i, NoKind, 0, 0, null;
    }

    /** valbuilder_list_start. */
    method ListStart(st: State, k: Kind) returns (err: Error)
      requires HasSlot() && IsList(st) && (st != InArray ==> k == NoKind)
      modifies this
      ensures err == if old(state) == Pending then OK else EINVAL
      ensures root == old(root) && at == old(at)
      ensures err == OK ==> Listing(st, k) && cap == 0 && Items() == []
      ensures err != OK ==> unchanged(this)
    {
      if state != Pending {
        return EINVAL;
      }
      kind, nitems, cap, elems := NoKind, 0, 0, null;
      if st == InArray {
        kind := k;
      }
      state := st;
      err := OK;
    }

    /** arglist_grow: a larger array with the items of the old one. */
    method Grow()
      requires if cap == 0 then elems == null else elems != null && elems.Length == cap
      modifies this`cap, this`elems
      ensures elems != null && fresh(elems) && elems.Length == cap
      ensures cap == if old(cap) == 0 then DEFAULT_VAL_CAP else old(cap) * 3 / 2
      ensures old(elems) != null ==> elems[..old(cap)] == old(elems[..])
    {
      var newCap := if cap == 0 then DEFAULT_VAL_CAP else cap * 3 / 2;
      var bigger := new Arg[newCap](_ => Zeroed(NoKind));
      if elems != null {
        var i := 0;
        while i < cap
          invariant elems == old(elems) != null && fresh(bigger) && bigger.Length == newCap
          invariant 0 <= i <= cap == elems.Length
          invariant bigger[..i] == elems[..i]
          invariant elems[..] == old(elems[..])
        {
          bigger[i] := elems[i];
          i := i + 1;
        }
      }
      elems, cap := bigger, newCap;
    }

    method MakeRoom()
      requires Listing(state, kind)
      modifies this`cap, this`elems
      ensures Listing(state, kind) && nitems < cap && Items() == old(Items())
      ensures elems == old(elems) || fresh(elems)
    {
      if nitems >= cap {
        ghost var before := if elems == null then [] else elems[..];
        Grow();
        assert elems[..nitems] == before;
      }
    }

    /** dicey_value_builder_next: room for one more item, and a builder for it. */
    method Next(elem: ValueBuilder) returns (err: Error)
      requires elem != this && HasSlot() && (IsList(state) ==> Listing(state, kind))
      modifies this, elem, elems
      ensures err == if !IsList(old(state)) then EINVAL
                     else if old(state) == InPair && old(nitems) >= 2 then EOVERFLOW else OK
      ensures err != OK ==> unchanged(this) && unchanged(elem) && (elems != null ==> unchanged(elems))
      ensures err == OK ==> NextItem(elem, old(nitems), old(Items())) && Listing(old(state), old(kind))
      ensures err == OK ==> root == old(root) && at == old(at) && (elems == old(elems) || fresh(elems))
    {
      match state {
        case InArray =>
        case InTuple =>
        case InPair =>
          if nitems >= 2 {
            return EOVERFLOW;
          }
        case _ =>
          return EINVAL;
      }
      MakeRoom();
      var i := nitems;
      elems[i] := if state == InArray then Zeroed(kind) else Zeroed(NoKind);
      nitems := (nitems + 1) % U16;
      elem.Borrow(elems, i);
      err := OK;
    }

    /** Item i is the builder `elem`'s slot, and the items before it are the old ones. */
    ghost predicate NextItem(elem: ValueBuilder, i: nat, before: seq<Arg>)
      reads this, elem, elems
    {
      && elems != null && i < elems.Length == cap && nitems == (i + 1) % U16
      && elems[..i] == before && elems[i] == Zeroed(if state == InArray then kind else NoKind)
      && elem.state == Pending && elem.root == elems && elem.at == i
    }

    /** dicey_value_builder_set. */
    method Set(value: Arg) returns (err: Error)
      requires HasSlot()
      modifies this`state, root
      ensures err == if old(state) != Pending || KindOf(value) == NoKind then EINVAL
                     else if KindOf(old(root[at])) in {NoKind, KindOf(value)} then OK
                     else EVALUE_TYPE_MISMATCH
      ensures root[..] == if err == OK then old(root[..])[at := value] else old(root[..])
      ensures state == if err == OK then Idle else old(state)
    {
      if state != Pending || KindOf(value) == NoKind {
        return EINVAL;
      }
      var k := KindOf(root[at]);
      if k != NoKind && k != KindOf(value) {
        return EVALUE_TYPE_MISMATCH;
      }
      root[at] := value;
      state := Idle;
      err := OK;
    }

    /** dicey_value_builder_array_end and dicey_value_builder_tuple_end. */
    method ListEnd(st: State) returns (err: Error)
      requires HasSlot() && st != InPair && IsList(st) && (state == st ==> Listing(st, kind))
      modifies this, root
      ensures err == if old(state) == st then OK else EINVAL
      ensures err == OK ==>
                Cleared() &&
                var v := if st == InArray then ArrayArg(old(kind), old(Items())) else TupleArg(old(Items()));
                old(root)[..] == old(root[..])[old(at) := v]
      ensures err != OK ==> unchanged(this) && unchanged(root)
    {
      if state != st {
        return EINVAL;
      }
      var items := if elems == null then [] else elems[..nitems];
      root[at] := if st == InArray then ArrayArg(kind, items) else TupleArg(items);
      Clear();
      err := OK;
    }

    /** dicey_value_builder_pair_end. */
    method PairEnd() returns (err: Error)
      requires HasSlot() && (state == InPair ==> Listing(InPair, kind))
      modifies this, root
      ensures err == if old(state) != InPair then EINVAL else if old(nitems) != 2 then EAGAIN else OK
      ensures err == OK ==> Cleared() && |old(Items())| == 2 &&
                             old(root)[..] == old(root[..])[old(at) := PairArg(old(Items())[0], old(Items())[1])]
      ensures err != OK ==> unchanged(this) && unchanged(root)
    {
      if state != InPair {
        return EINVAL;
      }
      if nitems != 2 {
        return EAGAIN;
      }
      root[at] := PairArg(elems[0], elems[1]);
      Clear();
      err := OK;
    }
  }

  // ------------------------------------------------------------ running a script

  function ErrorOf<T>(r: Result<T>): Error {
    if r.Err? then r.error else OK
  }

  lemma {:induction false} KeptSize(items: seq<Arg>)
    ensures |Kept(items)| == |items| % U16
  {
  }

  lemma {:induction false} KeptStep(items: seq<Arg>, v: Arg)
    ensures Kept(items + [v]) == Joined(Kept(items), v)
  {
    KeptSize(items);
  }

  lemma {:induction false} FirstError(slot: Kind, kids: seq<Script>, i: nat)
    requires i <= |kids| && BuiltAll(slot, kids[..i]).Err?
    ensures BuiltAll(slot, kids) == BuiltAll(slot, kids[..i])
  {
    if i == |kids| {
      assert kids[..i] == kids;
    } else {
      var n := |kids| - 1;
      assert kids[..n][..i] == kids[..i];
      FirstError(slot, kids[..n], i);
    }
  }

  lemma {:induction false} BuiltStep(slot: Kind, kids: seq<Script>, i: nat)
    requires i < |kids| && BuiltAll(slot, kids[..i]).Ok?
    ensures var r, last := BuiltAll(slot, kids[..i + 1]), Built(slot, kids[i]);
            r == if last.Err? then Err(last.error) else Ok(BuiltAll(slot, kids[..i]).value + [last.value])
  {
    assert kids[..i + 1][..i] == kids[..i];
  }

  /** Runs a script on a builder: the slot takes what the script builds, and no other
      slot of its array changes; a script that fails changes none, and reports its first
      offending call. */
  method Build(b: ValueBuilder, s: Script) returns (err: Error)
    requires b.HasSlot() && b.state == Pending
    modifies b, b.root
    ensures var r := Built(KindOf(old(b.root[b.at])), s);
            && err == ErrorOf(r) && FirstOffence(Calls(KindOf(old(b.root[b.at])), s), err)
            && old(b.root)[..] == (if r.Ok? then old(b.root[..])[old(b.at) := r.value] else old(b.root[..]))
            && (r.Ok? ==> b.state == Idle)
            && (r.Err? ==> b.root == old(b.root) && b.at == old(b.at))
            && (r.Err? ==> if s.Put? then b.state == Pending else IsList(b.state))
    decreases s, 0
  {
    BuiltReports(KindOf(b.root[b.at]), s);
    match s {
      case Put(v) =>
        err := b.Set(v);
      case MakeArray(k, kids) =>
        err := b.ListStart(InArray, k);
        err := BuildItems(b, InArray, k, kids);
        if err == OK {
          err := b.ListEnd(InArray);
        }
      case MakeTuple(kids) =>
        err := b.ListStart(InTuple, NoKind);
        err := BuildItems(b, InTuple, NoKind, kids);
        if err == OK {
          err := b.ListEnd(InTuple);
        }
      case MakePair(kids) =>
        err := b.ListStart(InPair, NoKind);
        err := BuildItems(b, InPair, NoKind, kids);
        if err == OK {
          err := b.PairEnd();
        }
    }
  }

  /** The items of a list that was just started. */
  method BuildItems(b: ValueBuilder, st: State, k: Kind, kids: seq<Script>) returns (err: Error)
    requires b.Listing(st, k) && b.cap == 0 && b.Items() == [] && (st != InArray ==> k == NoKind)
    modifies b
    ensures b.root == old(b.root) && b.at == old(b.at) && b.state == st
    ensures err == ErrorOf(Filled(st, k, kids))
    ensures err == OK ==> b.Listing(st, k) && b.Items() == Kept(Filled(st, k, kids).value)
    ensures b.elems == null || fresh(b.elems)
    decreases kids, 1
  {
    var i := 0;
    while i < |kids|
      invariant b.Listing(st, k) && b.root == old(b.root) && b.at == old(b.at)
      invariant b.elems == null || fresh(b.elems)
      invariant SoFar(st, k, kids, i, b.Items())
      decreases |kids| - i
    {
      ghost var items := b.Items();
      err := BuildKid(b, st, k, kids[i]);
      SoFarStep(st, k, kids, i, items, err);
      if err != OK {
        return;
      }
      i := i + 1;
    }
    assert kids[..i] == kids;
    err := OK;
  }

  /** The items of the first i kids are in the list. */
  ghost predicate SoFar(st: State, k: Kind, kids: seq<Script>, i: nat, items: seq<Arg>) {
    && i <= |kids| && (st == InPair ==> i <= 2)
    && BuiltAll(k, kids[..i]).Ok? && items == Kept(BuiltAll(k, kids[..i]).value)
  }

  lemma {:induction false} SoFarStep(st: State, k: Kind, kids: seq<Script>, i: nat, items: seq<Arg>, err: Error)
    requires SoFar(st, k, kids, i, items) && i < |kids|
    requires err == if st == InPair && |items| >= 2 then EOVERFLOW else ErrorOf(Built(k, kids[i]))
    ensures if err == OK then SoFar(st, k, kids, i + 1, Joined(items, Built(k, kids[i]).value))
            else err == ErrorOf(Filled(st, k, kids))
  {
    BuiltStep(k, kids, i);
    KeptSize(BuiltAll(k, kids[..i]).value);
    if err == OK {
      KeptStep(BuiltAll(k, kids[..i]).value, Built(k, kids[i]).value);
    } else if st != InPair || i < 2 {
      PairError(st, k, kids, i + 1);
    }
  }

  lemma {:induction false} PairError(st: State, k: Kind, kids: seq<Script>, i: nat)
    requires i <= |kids| && BuiltAll(k, kids[..i]).Err? && (st == InPair ==> i <= 2)
    ensures ErrorOf(Filled(st, k, kids)) == BuiltAll(k, kids[..i]).error
  {
    FirstError(k, kids, i);
    if st == InPair && |kids| > 2 {
      assert kids[..2][..i] == kids[..i];
      FirstError(k, kids[..2], i);
    }
  }

  /** A list with one more item, which may be the one that makes the count wrap. */
  function Joined(items: seq<Arg>, v: Arg): seq<Arg> {
    if (|items| + 1) % U16 == 0 then [] else items + [v]
  }

  /** One more item of a list, through a builder of its own. */
  method BuildKid(b: ValueBuilder, st: State, k: Kind, kid: Script) returns (err: Error)
    requires b.Listing(st, k) && (st != InArray ==> k == NoKind)
    modifies b, b.elems
    ensures b.root == old(b.root) && b.at == old(b.at) && b.state == st && (b.elems == old(b.elems) || fresh(b.elems))
    ensures err == if st == InPair && old(b.nitems) >= 2 then EOVERFLOW else ErrorOf(Built(k, kid))
    ensures err == OK ==> b.Listing(st, k) && b.Items() == Joined(old(b.Items()), Built(k, kid).value)
    decreases kid, 1
  {
    var elem := new ValueBuilder();
    ghost var before := b.Items();
    err := b.Next(elem);
    if err == OK {
      ghost var n, slots := elem.at, b.elems[..];
      assert slots[..n] == before;
      err := Build(elem, kid);
      if err == OK {
        ItemsJoined(before, Built(k, kid).value, slots, n, b.elems[..]);
      }
    }
  }

  lemma {:induction false} ItemsJoined(before: seq<Arg>, v: Arg, slots: seq<Arg>, n: nat, slots': seq<Arg>)
    requires n == |before| < |slots| && n < U16 && slots[..n] == before && slots' == slots[n := v]
    ensures slots'[..(n + 1) % U16] == Joined(before, v)
  {
  }
}
