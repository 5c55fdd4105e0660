/** The checker that walks a value and a signature's text in lockstep, against the
    judgement of the value by the signature's type tree. */
module ValueCheck {
  import opened Wrappers
  import opened TypeDescr

  /** The tag of a value is a type's tag, never the variant. */
  type ValueTag = c: char | IsTag(c) && c != 'v' witness '$'
  type LeafTag = c: char | IsPlainTag(c) && c != 'v' witness '$'

  datatype Value =
    | Leaf(tag: LeafTag)
    | ArrayOf(elemTag: ValueTag, elems: seq<Value>)
    | TupleOf(items: seq<Value>)
    | PairOf(first: Value, second: Value)

  function TagOf(v: Value): ValueTag {
    match v
    case Leaf(c) => c
    case ArrayOf(_, _) => '['
    case TupleOf(_) => '('
    case PairOf(_, _) => '{'
  }

  predicate IsCompatible(tag: ValueTag, c: char) {
    c == 'v' || tag == c
  }

  /** The outcome of a check; Aborts stands for a failed assertion. */
  datatype Verdict = Accepts | Rejects | Aborts

  // ------------------------------------------------------------ type judgement

  /** How a value fares against a type: parts are judged in order, and the first
      that is not accepted decides.  A tuple with too few items aborts. */
  function Judge(v: Value, t: Type): Verdict
    decreases v, 0
  {
    match t
    case Plain(c) => if IsCompatible(TagOf(v), c) then Accepts else Rejects
    case Array(e) => if v.ArrayOf? && IsCompatible(v.elemTag, Tag(e)) then Accepts else Rejects
    case Tuple(h, ts) => if v.TupleOf? then JudgeAll(v.items, [h] + ts) else Rejects
    case Pair(a, b) =>
      if !v.PairOf? then Rejects
      else if Judge(v.first, a) != Accepts then Judge(v.first, a)
      else Judge(v.second, b)
  }

  function JudgeAll(vs: seq<Value>, ts: seq<Type>): Verdict
    decreases vs, 1
  {
    if vs == [] then if ts == [] then Accepts else Aborts
    else if ts == [] then Rejects
    else if Judge(vs[0], ts[0]) != Accepts then Judge(vs[0], ts[0])
    else JudgeAll(vs[1..], ts[1..])
  }

  /** The value has the type: equal arities, arrays by their element tag, and the
      variant has every value. */
  ghost predicate Matches(v: Value, t: Type)
    decreases v
  {
    match t
    case Plain(c) => c == 'v' || v == Leaf(c)
    case Array(e) => v.ArrayOf? && (Tag(e) == 'v' || v.elemTag == Tag(e))
    case Tuple(h, ts) =>
      v.TupleOf? && |v.items| == 1 + |ts| && forall i | 0 <= i < |v.items| :: Matches(v.items[i], ([h] + ts)[i])
    case Pair(a, b) => v.PairOf? && Matches(v.first, a) && Matches(v.second, b)
  }

  /** In the order of the check, a tuple with too few items comes before anything
      that does not match. */
  ghost predicate CutShort(v: Value, t: Type)
    decreases v
  {
    match t
    case Plain(_) => false
    case Array(_) => false
    case Tuple(h, ts) =>
      v.TupleOf? &&
      ((|v.items| <= |ts| && forall i | 0 <= i < |v.items| :: Matches(v.items[i], ([h] + ts)[i]))
       || exists i | 0 <= i < |v.items| && i <= |ts| ::
            CutShort(v.items[i], ([h] + ts)[i]) && forall j | 0 <= j < i :: Matches(v.items[j], ([h] + ts)[j]))
    case Pair(a, b) => v.PairOf? && (CutShort(v.first, a) || (Matches(v.first, a) && CutShort(v.second, b)))
  }

  /** A check accepts exactly the values of the type, and aborts exactly on a value
      that is cut short. */
  lemma {:induction false} JudgeExact(v: Value, t: Type)
    ensures Judge(v, t) == Accepts <==> Matches(v, t)
    ensures Judge(v, t) == Aborts <==> CutShort(v, t)
    decreases v, 0
  {
    match t
    case Plain(_) =>
    case Array(_) =>
    case Pair(a, b) =>
      if v.PairOf? {
        JudgeExact(v.first, a);
        JudgeExact(v.second, b);
      }
    case Tuple(h, ts) =>
      if v.TupleOf? {
        forall i | 0 <= i < |v.items| && i <= |ts|
          ensures Judge(v.items[i], ([h] + ts)[i]) == Accepts <==> Matches(v.items[i], ([h] + ts)[i])
          ensures Judge(v.items[i], ([h] + ts)[i]) == Aborts <==> CutShort(v.items[i], ([h] + ts)[i])
        {
          JudgeExact(v.items[i], ([h] + ts)[i]);
        }
        JudgeAllExact(v.items, [h] + ts);
      }
  }

  /** The first n items are accepted. */
  ghost predicate Fine(vs: seq<Value>, ts: seq<Type>, n: nat)
    requires n <= |vs| && n <= |ts|
  {
    forall i | 0 <= i < n :: Judge(vs[i], ts[i]) == Accepts
  }

  lemma {:induction false} JudgeAllExact(vs: seq<Value>, ts: seq<Type>)
    ensures JudgeAll(vs, ts) == Accepts <==> |vs| == |ts| && Fine(vs, ts, |vs|)
    ensures JudgeAll(vs, ts) == Aborts <==>
              || (|vs| < |ts| && Fine(vs, ts, |vs|))
              || exists i | 0 <= i < |vs| && i < |ts| :: Judge(vs[i], ts[i]) == Aborts && Fine(vs, ts, i)
    decreases vs
  {
    if vs != [] && ts != [] && Judge(vs[0], ts[0]) == Accepts {
      var vs', ts' := vs[1..], ts[1..];
      JudgeAllExact(vs', ts');
      assert forall i | 0 <= i < |vs'| && i < |ts'| :: vs'[i] == vs[i + 1] && ts'[i] == ts[i + 1];
      assert forall n: nat | n <= |vs'| && n <= |ts'| :: Fine(vs', ts', n) <==> Fine(vs, ts, n + 1);
    }
  }

  // ------------------------------------------------------------------ checking

  /** take_elem: the next byte of the view, or 0 when there is none. */
  method TakeElem(sig: string, cur: nat) returns (c: char, cur': nat)
    requires cur <= |sig|
    ensures if cur == |sig| then c == '\0' && cur' == cur else c == sig[cur] && cur' == cur + 1
  {
    c, cur' := TakeOne(sig, cur);
  }

  /** What the signature holds at the cursor: the text of t, or no type at all. */
  ghost predicate Holds(sig: string, cur: nat, t: Option<Type>)
    requires cur <= |sig|
  {
    match t
    case Some(t) => Print(t) <= sig[cur..]
    case None => cur == |sig| || !IsTag(sig[cur])
  }

  /** checksig.  Where the signature holds the text of a type, the outcome is the
      judgement by that type, and an accepted value leaves the cursor right behind
      the text.  Where it holds no type, the value is rejected. */
  method CheckSig(sig: string, cur: nat, v: Value, ghost t: Option<Type>) returns (r: Verdict, cur': nat)
    requires cur <= |sig| && Holds(sig, cur, t)
    ensures cur <= cur' <= |sig|
    ensures t.None? ==> r == Rejects
    ensures t.Some? ==> r == Judge(v, t.value) && (r == Accepts ==> cur' == cur + |Print(t.value)|)
    decreases v, 1
  {
    var elemTy;
    elemTy, cur' := TakeElem(sig, cur);
    assert t.Some? ==> elemTy == Tag(t.value);
    if !IsCompatible(TagOf(v), elemTy) {
      return Rejects, cur';
    }
    match elemTy {
      case '[' => r, cur' := CheckArray(sig, cur', v, t.value);
      case '(' => r, cur' := CheckTuple(sig, cur', v, t.value);
      case '{' => r, cur' := CheckPair(sig, cur', v, t.value);
      case _ => r := Accepts;
    }
  }

  /** Behind '[': only the tag of the element type is compared. */
  method CheckArray(sig: string, cur: nat, v: Value, ghost t: Type) returns (r: Verdict, cur': nat)
    requires 0 < cur <= |sig| && t.Array? && Print(t) <= sig[cur - 1..] && v.ArrayOf?
    ensures cur <= cur' <= |sig| && r == Judge(v, t)
    ensures r == Accepts ==> cur' == cur - 1 + |Print(t)|
  {
    assert sig[cur - 1..][1..] == sig[cur..];
    InsideArray(t.elem, sig[cur - 1..]);
    var arrayTy, _ := TakeElem(sig, cur);
    assert arrayTy == Tag(t.elem);
    if !IsCompatible(v.elemTag, arrayTy) {
      return Rejects, cur;
    }
    var valid, rest, _ := InView(sig[cur..]);
    assert valid;
    cur' := |sig| - |rest|;
    var cpar;
    cpar, cur' := TakeElem(sig, cur');
    assert cpar == ']';
    return Accepts, cur';
  }

  /** Behind '{'. */
  method CheckPair(sig: string, cur: nat, v: Value, ghost t: Type) returns (r: Verdict, cur': nat)
    requires 0 < cur <= |sig| && t.Pair? && Print(t) <= sig[cur - 1..] && v.PairOf?
    ensures cur <= cur' <= |sig| && r == Judge(v, t)
    ensures r == Accepts ==> cur' == cur - 1 + |Print(t)|
    decreases v, 0
  {
    PairText(sig, cur, t);
    r, cur' := CheckSig(sig, cur, v.first, Some(t.first));
    if r != Accepts {
      return;
    }
    r, cur' := CheckSig(sig, cur', v.second, Some(t.second));
    if r != Accepts {
      return;
    }
    var cpar;
    cpar, cur' := TakeElem(sig, cur');
    assert cpar == '}';
  }

  lemma {:induction false} PairText(sig: string, cur: nat, t: Type)
    requires 0 < cur <= |sig| && t.Pair? && Print(t) <= sig[cur - 1..]
    ensures var mid := cur + |Print(t.first)|;
            var end := mid + |Print(t.second)|;
            && end < |sig| && Print(t.first) <= sig[cur..] && Print(t.second) <= sig[mid..]
            && sig[end] == '}' && end + 1 == cur - 1 + |Print(t)|
  {
    assert sig[cur - 1..][1..] == sig[cur..];
    InsidePair(t.first, t.second, sig[cur - 1..]);
    var mid := cur + |Print(t.first)|;
    assert sig[cur..][|Print(t.first)|..] == sig[mid..];
    var end := mid + |Print(t.second)|;
    assert sig[mid..][|Print(t.second)|..] == sig[end..];
    assert sig[end..][0] == '}';
  }

  /** Behind '('.  The closing parenthesis is asserted, not checked: a value with
      too few items meets another type instead. */
  method CheckTuple(sig: string, cur: nat, v: Value, ghost t: Type) returns (r: Verdict, cur': nat)
    requires 0 < cur <= |sig| && t.Tuple? && Print(t) <= sig[cur - 1..] && v.TupleOf?
    ensures cur <= cur' <= |sig| && r == Judge(v, t)
    ensures r == Accepts ==> cur' == cur - 1 + |Print(t)|
    decreases v, 0
  {
    ghost var ts := [t.head] + t.tail;
    TupleText(sig, cur, t);
    cur' := cur;
    for i := 0 to |v.items|
      invariant cur <= cur' <= |sig|
      invariant PrintAll(ts) + ")" <= sig[cur'..]
      invariant JudgeAll(v.items[i..], ts) == Judge(v, t)
      invariant cur' + |PrintAll(ts)| + 1 == cur - 1 + |Print(t)|
    {
      var here := cur';
      StartOf(ts, sig[here..]);
      ghost var next := if ts == [] then None else Some(ts[0]);
      NextItem(sig, here, ts);
      r, cur' := CheckSig(sig, here, v.items[i], next);
      assert v.items[i..][1..] == v.items[i + 1..];
      if r != Accepts {
        return;
      }
      assert sig[here..][|Print(ts[0])|..] == sig[cur'..];
      ts := ts[1..];
    }
    StartOf(ts, sig[cur'..]);
    var cpar;
    cpar, cur' := TakeElem(sig, cur');
    r := if cpar == ')' then Accepts else Aborts;
  }

  lemma {:induction false} TupleText(sig: string, cur: nat, t: Type)
    requires 0 < cur <= |sig| && t.Tuple? && Print(t) <= sig[cur - 1..]
    ensures var ts := [t.head] + t.tail;
            && PrintAll(ts) + ")" <= sig[cur..]
            && |PrintAll(ts)| + 2 == |Print(t)|
  {
    var ts := [t.head] + t.tail;
    assert sig[cur - 1..][1..] == sig[cur..];
    InsideTuple(t.head, t.tail, sig[cur - 1..]);
    assert ts[1..] == t.tail;
    assert PrintAll(ts) + ")" == Print(t.head) + (PrintAll(t.tail) + ")");
    JoinPrefix(Print(t.head), PrintAll(t.tail) + ")", sig[cur..]);
  }

  lemma {:induction false} NextItem(sig: string, cur: nat, ts: seq<Type>)
    requires cur <= |sig| && PrintAll(ts) + ")" <= sig[cur..]
    ensures Holds(sig, cur, if ts == [] then None else Some(ts[0]))
    ensures ts != [] ==> PrintAll(ts[1..]) + ")" <= sig[cur..][|Print(ts[0])|..]
  {
    StartOf(ts, sig[cur..]);
    if ts != [] {
      assert PrintAll(ts) + ")" == Print(ts[0]) + (PrintAll(ts[1..]) + ")");
      PrefixRest(Print(ts[0]), PrintAll(ts[1..]) + ")", sig[cur..]);
    }
  }

  /** The view of a value signature includes the string's terminator; the view of
      an operation's side does not. */
  method CheckView(view: string, v: Value, ghost side: string, ghost end: string) returns (r: Verdict)
    requires view == side + end && (end == "" || end == "\0")
    requires side == "" ==> end == "\0"
    requires side == "" || exists t :: IsValue(side, t)
    ensures side == "" ==> r == Rejects
    ensures forall t | IsValue(side, t) :: r == Judge(v, t)
  {
    ghost var t := None;
    if side != "" {
      ghost var u :| IsValue(side, u);
      t := Some(u);
      forall u' | IsValue(side, u')
        ensures u' == u
      {
        PrefixFree(u, u', side);
      }
    }
    assert view[0..] == view;
    var cur;
    r, cur := CheckSig(view, 0, v, t);
  }

  /** No type at all describes the text. */
  ghost predicate NoSignature(s: string) {
    (forall t :: !IsValue(s, t)) && (forall t, w, w', u :: !IsOp(s, t, w, w', u))
  }

  /** dicey_value_is_compatible_with: the value against a value signature, or
      against the input of an operation. */
  method IsCompatibleWith(v: Value, sigstr: string) returns (r: Verdict)
    ensures forall t | IsValue(sigstr, t) :: r == Judge(v, t)
    ensures forall t, w, w', u | IsOp(sigstr, t, w, w', u) :: r == Judge(v, t)
    ensures NoSignature(sigstr) ==> r == Rejects
  {
    var ok, d := Parse(sigstr);
    if !ok {
      return Rejects;
    }
    match d {
      case ValueDescr(s) =>
        r := CheckView(s + "\0", v, s, "\0");
      case OpDescr(input, _) =>
        SidesAreValues(sigstr, d);
        r := CheckView(input, v, input, "");
        assert forall t, w, w', u | IsOp(sigstr, t, w, w', u) :: IsValue(input, t);
    }
  }

  /** dicey_value_can_be_returned_from: errors always; otherwise the value against
      a value signature, or against the output of an operation. */
  method CanBeReturnedFrom(v: Value, sigstr: string) returns (r: Verdict)
    ensures TagOf(v) == 'e' ==> r == Accepts
    ensures TagOf(v) != 'e' ==> forall t | IsValue(sigstr, t) :: r == Judge(v, t)
    ensures TagOf(v) != 'e' ==> forall t, w, w', u | IsOp(sigstr, t, w, w', u) :: r == Judge(v, u)
    ensures TagOf(v) != 'e' && NoSignature(sigstr) ==> r == Rejects
  {
    if TagOf(v) == 'e' {
      return Accepts;
    }
    var ok, d := Parse(sigstr);
    if !ok {
      return Rejects;
    }
    match d {
      case ValueDescr(s) =>
        r := CheckView(s + "\0", v, s, "\0");
      case OpDescr(_, output) =>
        SidesAreValues(sigstr, d);
        r := CheckView(output, v, output, "");
        assert forall t, w, w', u | IsOp(sigstr, t, w, w', u) :: IsValue(output, u);
    }
  }

  lemma {:induction false} SidesAreValues(s: string, d: Descr)
    requires d.OpDescr? && s != ""
    requires forall t, w, w', u | IsOp(s, t, w, w', u) :: d == OpDescr(Print(t), Print(u))
    requires exists t, w, w', u :: IsOp(s, t, w, w', u)
    ensures d.input != "" && d.output != ""
    ensures exists t :: IsValue(d.input, t)
    ensures exists u :: IsValue(d.output, u)
  {
    var t, w, w', u :| IsOp(s, t, w, w', u);
    assert IsValue(d.input, t) && IsValue(d.output, u);
  }

  /** An empty tuple against "(i)" fails the assertion on the closing parenthesis. */
  method ShortTupleAborts() returns (r: Verdict)
    ensures r == Aborts
  {
    var t := Tuple(Plain('i'), []);
    assert IsValue("(i)", t);
    r := IsCompatibleWith(TupleOf([]), "(i)");
  }
}
