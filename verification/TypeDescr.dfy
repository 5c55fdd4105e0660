/** The signature language: type trees, their text, and the recursive-descent
    recogniser that moves a cursor over the text. */
module TypeDescr {

  // ----------------------------------------------------------------- grammar

  /** The tags of the types that have no parts, and 'v' for the variant. */
  predicate IsPlainTag(c: char) {
    c in "$bcfnixqutys#@%ev"
  }

  type PlainTag = c: char | IsPlainTag(c) witness '$'

  /** value = plain | '[' value ']' | '(' value {value} ')' | '{' value value '}' */
  datatype Type =
    | Plain(tag: PlainTag)
    | Array(elem: Type)
    | Tuple(head: Type, tail: seq<Type>)
    | Pair(first: Type, second: Type)

  function Print(t: Type): (s: string)
    ensures |s| > 0 && s[0] == Tag(t)
    decreases t, 0
  {
    match t
    case Plain(c) => [c]
    case Array(e) => "[" + Print(e) + "]"
    case Tuple(h, ts) => "(" + (Print(h) + PrintAll(ts)) + ")"
    case Pair(a, b) => "{" + (Print(a) + Print(b)) + "}"
  }

  function PrintAll(ts: seq<Type>): string
    decreases ts, 1
  {
    if ts == [] then "" else Print(ts[0]) + PrintAll(ts[1..])
  }

  /** The character a type's text starts with. */
  function Tag(t: Type): char {
    match t
    case Plain(c) => c
    case Array(_) => '['
    case Tuple(_, _) => '('
    case Pair(_, _) => '{'
  }

  predicate IsTag(c: char) {
    IsPlainTag(c) || c == '[' || c == '(' || c == '{'
  }

  predicate IsSpace(c: char) {
    c == ' ' || '\t' <= c <= '\r'
  }

  predicate Blank(w: string) {
    forall i | 0 <= i < |w| :: IsSpace(w[i])
  }

  /** operation = value [whitespace] '->' [whitespace] value */
  function PrintOp(t: Type, w: string, w': string, u: Type): string {
    Print(t) + (w + ("->" + (w' + Print(u))))
  }

  // ------------------------------------------------------- unique readability

  lemma {:induction false} PrefixRest(a: string, b: string, s: string)
    requires a + b <= s
    ensures a <= s && b <= s[|a|..]
  {
    assert a == s[..|a|] by {
      assert (a + b)[..|a|] == a;
    }
    assert b == (a + b)[|a|..];
  }

  /** What follows the opening bracket of a composite type. */
  lemma {:induction false} InsideArray(e: Type, s: string)
    requires Print(Array(e)) <= s
    ensures Print(e) <= s[1..] && "]" <= s[1..][|Print(e)|..]
  {
    assert Print(Array(e)) == "[" + (Print(e) + "]");
    PrefixRest("[", Print(e) + "]", s);
    PrefixRest(Print(e), "]", s[1..]);
  }

  lemma {:induction false} InsidePair(a: Type, b: Type, s: string)
    requires Print(Pair(a, b)) <= s
    ensures Print(a) <= s[1..] && Print(b) <= s[1..][|Print(a)|..]
    ensures "}" <= s[1..][|Print(a)|..][|Print(b)|..]
  {
    assert Print(Pair(a, b)) == "{" + (Print(a) + (Print(b) + "}"));
    PrefixRest("{", Print(a) + (Print(b) + "}"), s);
    PrefixRest(Print(a), Print(b) + "}", s[1..]);
    PrefixRest(Print(b), "}", s[1..][|Print(a)|..]);
  }

  lemma {:induction false} InsideTuple(h: Type, ts: seq<Type>, s: string)
    requires Print(Tuple(h, ts)) <= s
    ensures Print(h) <= s[1..] && PrintAll(ts) + ")" <= s[1..][|Print(h)|..]
  {
    assert Print(Tuple(h, ts)) == "(" + (Print(h) + (PrintAll(ts) + ")"));
    PrefixRest("(", Print(h) + (PrintAll(ts) + ")"), s);
    PrefixRest(Print(h), PrintAll(ts) + ")", s[1..]);
  }

  /** A text starts with the text of at most one type. */
  lemma {:induction false} PrefixFree(t: Type, u: Type, s: string)
    requires Print(t) <= s && Print(u) <= s
    ensures t == u
    decreases t, 0
  {
    assert Tag(t) == s[0] == Tag(u);
    var rest := s[1..];
    match t
    case Plain(_) =>
    case Array(e) =>
      InsideArray(e, s);
      InsideArray(u.elem, s);
      PrefixFree(e, u.elem, rest);
    case Pair(a, b) =>
      InsidePair(a, b, s);
      InsidePair(u.first, u.second, s);
      PrefixFree(a, u.first, rest);
      PrefixFree(b, u.second, rest[|Print(a)|..]);
    case Tuple(h, ts) =>
      InsideTuple(h, ts, s);
      InsideTuple(u.head, u.tail, s);
      PrefixFree(h, u.head, rest);
      SameTails(ts, u.tail, rest[|Print(h)|..]);
  }

  lemma {:induction false} SameTails(ts: seq<Type>, us: seq<Type>, s: string)
    requires PrintAll(ts) + ")" <= s && PrintAll(us) + ")" <= s
    ensures ts == us
    decreases ts, 2
  {
    PrefixRest(PrintAll(ts), ")", s);
    ListPrefix(ts, us, s);
    StartOf(us[|ts|..], s[|PrintAll(ts)|..]);
  }

  /** The closing parenthesis comes first exactly when no item does. */
  lemma {:induction false} StartOf(ts: seq<Type>, s: string)
    requires PrintAll(ts) + ")" <= s
    ensures |s| > 0 && (s[0] == ')' <==> ts == [])
  {
    if ts == [] {
      assert s[0] == ')';
    } else {
      assert (PrintAll(ts) + ")")[0] == Tag(ts[0]);
    }
  }

  /** Items read so far are the first items of the tuple that is there. */
  lemma {:induction false} ListPrefix(ts: seq<Type>, us: seq<Type>, s: string)
    requires PrintAll(ts) <= s && PrintAll(us) + ")" <= s
    ensures ts <= us && PrintAll(us[|ts|..]) + ")" <= s[|PrintAll(ts)|..]
    decreases ts, 1
  {
    if ts != [] {
      PrefixRest(Print(ts[0]), PrintAll(ts[1..]), s);
      assert s[0] == Tag(ts[0]) != ')';
      StartOf(us, s);
      assert PrintAll(us) + ")" == Print(us[0]) + (PrintAll(us[1..]) + ")");
      PrefixRest(Print(us[0]), PrintAll(us[1..]) + ")", s);
      PrefixFree(ts[0], us[0], s);
      ListPrefix(ts[1..], us[1..], s[|Print(ts[0])|..]);
      assert us[1..][|ts[1..]|..] == us[|ts|..];
    }
  }

  lemma {:induction false} PrintAllAppend(ts: seq<Type>, t: Type)
    ensures PrintAll(ts + [t]) == PrintAll(ts) + Print(t)
  {
    if ts == [] {
      assert PrintAll([t]) == Print(t);
    } else {
      assert (ts + [t])[1..] == ts[1..] + [t];
      PrintAllAppend(ts[1..], t);
    }
  }

  // -------------------------------------------------------------- recogniser

  /** No type's text starts here. */
  ghost predicate NoType(s: string) {
    forall u :: !(Print(u) <= s)
  }

  lemma {:induction false} NoArray(s: string)
    requires |s| > 0 && s[0] == '['
    requires NoType(s[1..]) || exists e :: Print(e) <= s[1..] && !("]" <= s[1..][|Print(e)|..])
    ensures NoType(s)
  {
    forall u | Print(u) <= s
      ensures false
    {
      assert Tag(u) == '[';
      InsideArray(u.elem, s);
      if e :| Print(e) <= s[1..] && !("]" <= s[1..][|Print(e)|..]) {
        PrefixFree(e, u.elem, s[1..]);
      }
    }
  }

  lemma {:induction false} NoPair(s: string)
    requires |s| > 0 && s[0] == '{'
    requires NoType(s[1..]) || exists a :: Print(a) <= s[1..] && NoPairFrom(s[1..][|Print(a)|..])
    ensures NoType(s)
  {
    forall u | Print(u) <= s
      ensures false
    {
      assert Tag(u) == '{';
      InsidePair(u.first, u.second, s);
      PairGoesOn(u.first, u.second, s[1..]);
    }
  }

  lemma {:induction false} PairGoesOn(a: Type, b: Type, s: string)
    requires Print(a) <= s && Print(b) <= s[|Print(a)|..] && "}" <= s[|Print(a)|..][|Print(b)|..]
    ensures !NoType(s) && forall a' | Print(a') <= s :: !NoPairFrom(s[|Print(a')|..])
  {
    SecondGoesOn(b, s[|Print(a)|..]);
    forall a' | Print(a') <= s
      ensures a' == a
    {
      PrefixFree(a', a, s);
    }
  }

  lemma {:induction false} SecondGoesOn(b: Type, s: string)
    requires Print(b) <= s && "}" <= s[|Print(b)|..]
    ensures !NoPairFrom(s)
  {
    forall b' | Print(b') <= s
      ensures b' == b
    {
      PrefixFree(b', b, s);
    }
  }

  /** No second component and closing brace start here. */
  ghost predicate NoPairFrom(s: string) {
    NoType(s) || exists b :: Print(b) <= s && !("}" <= s[|Print(b)|..])
  }

  /** Behind the first items of a tuple comes another item, or its end. */
  lemma {:induction false} TupleGoesOn(h: Type, us: seq<Type>, s: string, ts: seq<Type>)
    requires Print(Tuple(h, us)) <= s && PrintAll(ts) <= s[1..]
    ensures var rest := s[1..][|PrintAll(ts)|..];
            !NoType(rest) || (ts != [] && ")" <= rest)
  {
    InsideTuple(h, us, s);
    var all := [h] + us;
    assert all[1..] == us;
    assert PrintAll(all) + ")" == Print(h) + (PrintAll(us) + ")");
    JoinPrefix(Print(h), PrintAll(us) + ")", s[1..]);
    ListPrefix(ts, all, s[1..]);
    ItemOrEnd(all[|ts|..], s[1..][|PrintAll(ts)|..]);
  }

  lemma {:induction false} ItemOrEnd(ts: seq<Type>, s: string)
    requires PrintAll(ts) + ")" <= s
    ensures if ts == [] then ")" <= s else !NoType(s)
  {
    if ts == [] {
      assert PrintAll(ts) + ")" == ")";
    } else {
      assert PrintAll(ts) + ")" == Print(ts[0]) + (PrintAll(ts[1..]) + ")");
      PrefixRest(Print(ts[0]), PrintAll(ts[1..]) + ")", s);
    }
  }

  lemma {:induction false} NoTuple(s: string, ts: seq<Type>)
    requires |s| > 0 && s[0] == '(' && PrintAll(ts) <= s[1..]
    requires var rest := s[1..][|PrintAll(ts)|..];
             NoType(rest) && (ts != [] ==> !(")" <= rest))
    ensures NoType(s)
  {
    forall u | Print(u) <= s
      ensures false
    {
      assert Tag(u) == '(';
      TupleGoesOn(u.head, u.tail, s, ts);
    }
  }

  lemma {:induction false} JoinPrefix(a: string, b: string, s: string)
    requires a <= s && b <= s[|a|..]
    ensures a + b <= s
  {
  }

  method TakeOne(s: string, cur: nat) returns (c: char, cur': nat)
    requires cur <= |s|
    ensures if cur == |s| then c == '\0' && cur' == cur else c == s[cur] && cur' == cur + 1
  {
    if cur == |s| {
      return '\0', cur;
    }
    return s[cur], cur + 1;
  }

  /** parse_type: from a position inside the text it accepts exactly when a type's
      text starts there, and stops right after it.  At the end it accepts without
      having read anything. */
  method ParseType(s: string, cur: nat) returns (ok: bool, cur': nat, ghost t: Type)
    requires cur <= |s|
    ensures cur <= cur' <= |s|
    ensures cur == |s| ==> ok && cur' == cur
    ensures cur < |s| && ok ==> cur < cur' && s[cur..cur'] == Print(t)
    ensures cur < |s| && !ok ==> NoType(s[cur..])
    decreases |s| - cur, 1
  {
    if cur == |s| {
      return true, cur, Plain('$');
    }
    var first;
    first, cur' := TakeOne(s, cur);
    match first {
      case '[' => ok, cur', t := ParseArray(s, cur');
      case '{' => ok, cur', t := ParsePair(s, cur');
      case '(' => ok, cur', t := ParseTuple(s, cur');
      case _ =>
        ok := IsTag(first);  // is_valid_type
        t := if ok then Plain(first) else Plain('$');
        assert !ok ==> NoType(s[cur..]) by {
          assert forall u | Print(u) <= s[cur..] :: Tag(u) == first;
        }
    }
  }

  method ParseArray(s: string, cur: nat) returns (ok: bool, cur': nat, ghost t: Type)
    requires 0 < cur <= |s| && s[cur - 1] == '['
    ensures cur <= cur' <= |s|
    ensures ok ==> s[cur - 1..cur'] == Print(t)
    ensures !ok ==> NoType(s[cur - 1..])
    decreases |s| - cur, 2
  {
    ghost var from, e := s[cur - 1..], Plain('$');
    assert from[1..] == s[cur..];
    ok, cur', e := ParseType(s, cur);
    t := Array(e);
    if !ok {
      NoArray(from);
      return;
    }
    ghost var mid := cur';
    var c;
    c, cur' := TakeOne(s, cur');
    ok := c == ']';
    if ok {
      Bracketed(s, cur, mid);
    } else {
      assert cur < |s| ==> Print(e) <= s[cur..] && s[cur..][|Print(e)|..] == s[mid..];
      NoArray(from);
    }
  }

  method ParsePair(s: string, cur: nat) returns (ok: bool, cur': nat, ghost t: Type)
    requires 0 < cur <= |s| && s[cur - 1] == '{'
    ensures cur <= cur' <= |s|
    ensures ok ==> s[cur - 1..cur'] == Print(t)
    ensures !ok ==> NoType(s[cur - 1..])
    decreases |s| - cur, 2
  {
    ghost var a, b;
    t := Plain('$');
    ok, cur', a := ParseType(s, cur);
    if !ok {
      assert s[cur - 1..][1..] == s[cur..];
      NoPair(s[cur - 1..]);
      return;
    }
    ghost var mid := cur';
    ok, cur', b := ParseType(s, cur');
    if !ok {
      PairStops(s, cur, mid, a);
      return;
    }
    ghost var mid' := cur';
    var c;
    c, cur' := TakeOne(s, cur');
    ok := c == '}';
    if ok {
      t := Pair(a, b);
      PairText(s, cur, mid, mid', a, b);
    } else {
      SecondStops(s, mid, mid', b);
      PairStops(s, cur, mid, a);
    }
  }

  lemma {:induction false} Bracketed(s: string, cur: nat, close: nat)
    requires 0 < cur <= close < |s|
    ensures s[cur - 1..close + 1] == [s[cur - 1]] + s[cur..close] + [s[close]]
  {
  }

  lemma {:induction false} PairText(s: string, cur: nat, mid: nat, close: nat, a: Type, b: Type)
    requires 0 < cur <= mid <= close < |s| && s[cur - 1] == '{' && s[close] == '}'
    requires s[cur..mid] == Print(a) && s[mid..close] == Print(b)
    ensures s[cur - 1..close + 1] == Print(Pair(a, b))
  {
    Bracketed(s, cur, close);
    assert s[cur..close] == s[cur..mid] + s[mid..close];
  }

  lemma {:induction false} SecondStops(s: string, mid: nat, mid': nat, b: Type)
    requires mid <= mid' <= |s| && (mid < |s| ==> s[mid..mid'] == Print(b))
    requires mid' == |s| || s[mid'] != '}'
    ensures NoPairFrom(s[mid..])
  {
    if mid < |s| {
      assert Print(b) <= s[mid..] && s[mid..][|Print(b)|..] == s[mid'..];
    }
  }

  lemma {:induction false} PairStops(s: string, cur: nat, mid: nat, a: Type)
    requires 0 < cur <= mid <= |s| && s[cur - 1] == '{' && (cur < |s| ==> s[cur..mid] == Print(a))
    requires NoPairFrom(s[mid..])
    ensures NoType(s[cur - 1..])
  {
    assert s[cur - 1..][1..] == s[cur..];
    if cur < |s| {
      assert Print(a) <= s[cur..] && s[cur..][|Print(a)|..] == s[mid..];
    }
    NoPair(s[cur - 1..]);
  }

  method ParseTuple(s: string, cur: nat) returns (ok: bool, cur': nat, ghost t: Type)
    requires 0 < cur <= |s| && s[cur - 1] == '('
    ensures cur <= cur' <= |s|
    ensures ok ==> s[cur - 1..cur'] == Print(t)
    ensures !ok ==> NoType(s[cur - 1..])
    decreases |s| - cur, 2
  {
    ghost var ts: seq<Type> := [];
    t, cur' := Plain('$'), cur;
    while true
      invariant cur <= cur' <= |s|
      invariant s[cur..cur'] == PrintAll(ts)
      invariant ts != [] ==> cur < cur' < |s| && s[cur'] != ')'
      decreases |s| - cur'
    {
      ghost var x;
      var here := cur';
      ok, cur', x := ParseType(s, here);
      if !ok {
        TupleStops(s, cur, here, ts);
        return;
      }
      if cur' == |s| {
        ts := Longer(s, cur, here, cur', ts, x);
        TupleStops(s, cur, cur', ts);
        return false, cur', t;
      }
      ts := Longer(s, cur, here, cur', ts, x);
      if s[cur'] == ')' {
        ghost var close := cur';
        var c;
        c, cur' := TakeOne(s, cur');
        t := Tuple(ts[0], ts[1..]);
        Bracketed(s, cur, close);
        return true, cur', t;
      }
    }
  }

  /** One more item has been read, unless the text had ended. */
  lemma {:induction false} Longer(s: string, cur: nat, here: nat, next: nat, ts: seq<Type>, x: Type) returns (ts': seq<Type>)
    requires cur <= here <= next <= |s| && s[cur..here] == PrintAll(ts)
    requires if here == |s| then next == here else s[here..next] == Print(x)
    ensures s[cur..next] == PrintAll(ts') && (here < |s| ==> ts' == ts + [x])
  {
    ts' := ts;
    if here < |s| {
      ts' := ts + [x];
      PrintAllAppend(ts, x);
      assert s[cur..next] == s[cur..here] + s[here..next];
    }
  }

  lemma {:induction false} TupleStops(s: string, cur: nat, here: nat, ts: seq<Type>)
    requires 0 < cur <= here <= |s| && s[cur - 1] == '(' && s[cur..here] == PrintAll(ts)
    requires NoType(s[here..]) && (ts != [] ==> !(")" <= s[here..]))
    ensures NoType(s[cur - 1..])
  {
    assert s[cur - 1..][1..] == s[cur..];
    assert PrintAll(ts) <= s[cur..] && s[cur..][|PrintAll(ts)|..] == s[here..];
    NoTuple(s[cur - 1..], ts);
  }

  /** dicey_typedescr_in_view: drops the type at the front of the view. */
  method InView(view: string) returns (ok: bool, view': string, ghost t: Type)
    ensures view == "" ==> ok && view' == ""
    ensures view != "" && ok ==> view == Print(t) + view'
    ensures view != "" && !ok ==> NoType(view) && view' == view
    ensures forall u | Print(u) <= view :: ok && u == t && view' == view[|Print(u)|..]
  {
    var cur;
    ok, cur, t := ParseType(view, 0);
    assert view[0..] == view;
    view' := if ok then view[cur..] else view;
    forall u | Print(u) <= view
      ensures ok && u == t && view' == view[|Print(u)|..]
    {
      assert Print(t) <= view;
      PrefixFree(u, t, view);
    }
  }

  // -------------------------------------------------------------- operations

  method SkipWhitespace(s: string, cur: nat) returns (cur': nat)
    requires cur <= |s|
    ensures cur <= cur' <= |s| && Blank(s[cur..cur'])
    ensures cur' < |s| ==> !IsSpace(s[cur'])
  {
    cur' := cur;
    while cur' != |s| && IsSpace(s[cur'])
      invariant cur <= cur' <= |s| && forall x | cur <= x < cur' :: IsSpace(s[x])
      decreases |s| - cur'
    {
      cur' := cur' + 1;
    }
  }

  /** A maximal run of blanks is the run before the first non-blank. */
  lemma {:induction false} BlankRun(s: string, cur: nat, cur': nat, w: string)
    requires cur <= cur' <= |s| && Blank(s[cur..cur']) && (cur' < |s| ==> !IsSpace(s[cur']))
    requires Blank(w) && w < s[cur..] && !IsSpace(s[cur + |w|])
    ensures cur' == cur + |w|
  {
    assert forall x | cur <= x < cur' :: s[x] == s[cur..cur'][x - cur];
    assert forall x | cur <= x < cur + |w| :: s[x] == s[cur..][x - cur] == w[x - cur];
  }

  method MatchExact(s: string, cur: nat, tag: string) returns (ok: bool, cur': nat)
    requires cur <= |s|
    ensures cur <= cur' <= |s|
    ensures ok <==> tag <= s[cur..]
    ensures ok ==> cur' == cur + |tag|
  {
    cur' := cur;
    for i := 0 to |tag|
      invariant cur' == cur + i <= |s| && tag[..i] == s[cur..cur']
    {
      if cur' == |s| || s[cur'] != tag[i] {
        Mismatch(s, cur, tag, i);
        return false, cur';
      }
      cur' := cur' + 1;
    }
    ok := true;
  }

  lemma {:induction false} Mismatch(s: string, cur: nat, tag: string, i: nat)
    requires i < |tag| && cur + i <= |s| && (cur + i == |s| || s[cur + i] != tag[i])
    ensures !(tag <= s[cur..])
  {
    if cur + i < |s| {
      assert s[cur..][i] == s[cur + i];
    }
  }

  /** parse_arrow: '->' with any blanks around it. */
  method ParseArrow(s: string, cur: nat) returns (ok: bool, cur': nat, ghost w: string, ghost w': string)
    requires cur <= |s|
    ensures cur <= cur' <= |s|
    ensures ok ==> Blank(w) && Blank(w') && s[cur..cur'] == w + ("->" + w')
    ensures forall v, v', rest | ArrowAt(s[cur..], v, v', rest) :: ok && s[cur'..] == rest
  {
    w, w' := "", "";
    var a := SkipWhitespace(s, cur);
    var b, c;
    ok, b := MatchExact(s, a, "->");
    if !ok {
      NoArrow(s, cur, a);
      return false, b, w, w';
    }
    c := SkipWhitespace(s, b);
    w, w', cur' := s[cur..a], s[b..c], c;
    assert s[cur..c] == s[cur..a] + (s[a..b] + s[b..c]);
    ArrowEnds(s, cur, a, b, c);
  }

  lemma {:induction false} NoArrow(s: string, cur: nat, a: nat)
    requires cur <= a <= |s| && Blank(s[cur..a]) && (a < |s| ==> !IsSpace(s[a])) && !("->" <= s[a..])
    ensures forall v, v', rest :: !ArrowAt(s[cur..], v, v', rest)
  {
    forall v, v', rest | ArrowAt(s[cur..], v, v', rest)
      ensures a == cur + |v| && "->" <= s[cur + |v|..]
    {
      ArrowSteps(s, cur, v, v', rest);
      BlankRun(s, cur, a, v);
    }
  }

  lemma {:induction false} ArrowEnds(s: string, cur: nat, a: nat, b: nat, c: nat)
    requires cur <= a <= b <= c <= |s| && b == a + 2 && Blank(s[cur..a]) && Blank(s[b..c])
    requires (a < |s| ==> !IsSpace(s[a])) && (c < |s| ==> !IsSpace(s[c]))
    ensures forall v, v', rest | ArrowAt(s[cur..], v, v', rest) :: s[c..] == rest
  {
    forall v, v', rest | ArrowAt(s[cur..], v, v', rest)
      ensures s[c..] == rest
    {
      ArrowSteps(s, cur, v, v', rest);
      BlankRun(s, cur, a, v);
      BlankRun(s, b, c, v');
    }
  }

  /** The text is an arrow with blanks v and v' around it, and then the rest. */
  ghost predicate ArrowAt(s: string, v: string, v': string, rest: string) {
    && s == v + ("->" + (v' + rest))
    && Blank(v) && Blank(v') && rest != "" && !IsSpace(rest[0])
  }

  lemma {:induction false} ArrowSteps(s: string, cur: nat, v: string, v': string, rest: string)
    requires cur <= |s| && ArrowAt(s[cur..], v, v', rest)
    ensures var a := cur + |v|;
            && v < s[cur..] && !IsSpace(s[a]) && "->" <= s[a..]
            && v' < s[a + 2..] && !IsSpace(s[a + 2 + |v'|]) && s[a + 2 + |v'|..] == rest
  {
    var a := cur + |v|;
    assert s[a..] == "->" + (v' + rest) by {
      assert s[a..] == s[cur..][|v|..];
    }
    assert s[a + 2..] == v' + rest by {
      assert s[a + 2..] == s[a..][2..];
    }
    assert s[a + 2 + |v'|..] == s[a + 2..][|v'|..];
    assert s[a] == s[a..][0];
    assert s[a + 2 + |v'|] == s[a + 2 + |v'|..][0];
  }

  datatype Descr = ValueDescr(value: string) | OpDescr(input: string, output: string)

  /** The descriptions of a text in the language of the grammar. */
  ghost predicate IsValue(s: string, t: Type) {
    s == Print(t)
  }

  ghost predicate IsOp(s: string, t: Type, w: string, w': string, u: Type) {
    Blank(w) && Blank(w') && s == PrintOp(t, w, w', u)
  }

  /** dicey_typedescr_parse accepts a non-empty text exactly when the grammar does,
      and cuts an operation into the texts of its input and output.  It also
      accepts the empty text, as a value. */
  method Parse(s: string) returns (ok: bool, d: Descr)
    ensures s == "" ==> ok && d == ValueDescr("")
    ensures forall t | IsValue(s, t) :: ok && d == ValueDescr(s)
    ensures forall t, w, w', u | IsOp(s, t, w, w', u) :: ok && d == OpDescr(Print(t), Print(u))
    ensures s != "" && ok ==>
      match d
      case ValueDescr(_) => exists t :: IsValue(s, t)
      case OpDescr(_, _) => exists t, w, w', u :: IsOp(s, t, w, w', u)
  {
    d := ValueDescr(s);
    ghost var t;
    var cur;
    ok, cur, t := ParseType(s, 0);
    assert s[0..] == s;
    if !ok {
      Neither(s);
      return;
    }
    if cur == |s| {
      assert s != "" ==> IsValue(s, t);
      NotOp(s, t);
      return;
    }
    ok, d := ParseOp(s, cur, t);
  }

  /** The text behind a type that does not end the text. */
  method ParseOp(s: string, cur: nat, ghost t: Type) returns (ok: bool, d: Descr)
    requires cur < |s| && s[..cur] == Print(t)
    ensures forall t' :: !IsValue(s, t')
    ensures forall t', w, w', u | IsOp(s, t', w, w', u) :: ok && d == OpDescr(Print(t'), Print(u))
    ensures ok ==> d.OpDescr? && exists t', w, w', u :: IsOp(s, t', w, w', u)
  {
    d := ValueDescr(s);
    OnlyOp(s, t);
    ghost var w, w', u;
    var output;
    ok, output, w, w', u := ParseOutput(s, cur);
    if ok {
      d := OpDescr(s[..cur], output);
      assert IsOp(s, t, w, w', u) by {
        assert s == s[..cur] + s[cur..];
      }
    }
  }

  /** The part of an operation's text behind its input. */
  method ParseOutput(s: string, cur: nat)
    returns (ok: bool, output: string, ghost w: string, ghost w': string, ghost u: Type)
    requires cur <= |s|
    ensures ok ==> output == Print(u) && Blank(w) && Blank(w') && s[cur..] == w + ("->" + (w' + output))
    ensures forall v, v', u' | ArrowAt(s[cur..], v, v', Print(u')) :: ok && output == Print(u')
  {
    output, u := "", Plain('$');
    var mid, end;
    ok, mid, w, w' := ParseArrow(s, cur);
    if !ok || mid == |s| {
      return false, output, w, w', u;
    }
    ok, end, u := ParseType(s, mid);
    if !ok {
      return;
    }
    Whole(s, mid, end, u);
    if end != |s| {
      return false, output, w, w', u;
    }
    output := s[mid..];
    assert s[cur..] == s[cur..mid] + s[mid..];
  }

  lemma {:induction false} Neither(s: string)
    requires NoType(s)
    ensures forall t :: !IsValue(s, t)
    ensures forall t, w, w', u :: !IsOp(s, t, w, w', u)
  {
    assert forall t, w, w', u :: Print(t) <= PrintOp(t, w, w', u);
  }

  lemma {:induction false} NotOp(s: string, t: Type)
    requires s == "" || s == Print(t)
    ensures forall t', w, w', u :: !IsOp(s, t', w, w', u)
  {
    forall t', w, w', u | IsOp(s, t', w, w', u)
      ensures Print(t') < s && s == Print(t) && t' == t
    {
      PrefixFree(t, t', s);
    }
  }

  lemma {:induction false} OnlyOp(s: string, t: Type)
    requires Print(t) < s
    ensures forall t' :: !IsValue(s, t')
    ensures forall t', w, w', u | IsOp(s, t', w, w', u) :: t' == t && ArrowAt(s[|Print(t)|..], w, w', Print(u))
  {
    forall t' | IsValue(s, t')
      ensures t' == t
    {
      PrefixFree(t, t', s);
    }
    forall t', w, w', u | IsOp(s, t', w, w', u)
      ensures t' == t && ArrowAt(s[|Print(t)|..], w, w', Print(u))
    {
      assert Print(t') <= s;
      PrefixFree(t, t', s);
      assert Tag(u) == Print(u)[0];
    }
  }

  lemma {:induction false} Whole(s: string, mid: nat, end: nat, u: Type)
    requires mid <= end <= |s| && s[mid..end] == Print(u)
    ensures forall u' | s[mid..] == Print(u') :: u' == u && end == |s|
  {
    forall u' | s[mid..] == Print(u')
      ensures u' == u && end == |s|
    {
      assert Print(u) <= s[mid..];
      PrefixFree(u, u', s[mid..]);
    }
  }

  // ------------------------------------------------------ the characters themselves

  /** A text of one character is a signature exactly when that is one of the letters
      of the header's grammar, or '#'. */
  method ParseLetter(c: char) returns (ok: bool, d: Descr)
    ensures ok <==> || c == '$' || c == 'b' || c == 'c' || c == 'f' || c == 'n' || c == 'i' || c == 'x' || c == 'q'
                    || c == 'u' || c == 't' || c == 'y' || c == 's' || c == '@' || c == '%' || c == 'e' || c == 'v'
                    || c == '#'
    ensures ok ==> d == ValueDescr([c])
  {
    ok, d := Parse([c]);
    if IsPlainTag(c) {
      assert IsValue([c], Plain(c));
    }
    if ok {
      LetterIsPlain(c, d);
    }
  }

  lemma {:induction false} LetterIsPlain(c: char, d: Descr)
    requires match d
             case ValueDescr(_) => exists t :: IsValue([c], t)
             case OpDescr(_, _) => exists t, w, w', u :: IsOp([c], t, w, w', u)
    ensures IsPlainTag(c)
  {
    assert forall t, w, w', u :: |PrintOp(t, w, w', u)| > 1;
    assert d.ValueDescr?;
    var t :| IsValue([c], t);
    assert Tag(t) == c;
  }

  /** The blanks are the characters that isspace accepts in the C locale. */
  lemma {:induction false} BlanksSpelled(c: char)
    ensures IsSpace(c) <==>
            c == ' ' || c == '\t' || c == '\n' || c as int == 0x0b || c as int == 0x0c || c == '\r'
  {
  }

  /** Examples of the header. */
  method ParseOpExample() returns (ok: bool, d: Descr)
    ensures ok && d == OpDescr("i", "s")
  {
    ok, d := Parse("i -> s");
    assert IsOp("i -> s", Plain('i'), " ", " ", Plain('s'));
  }

  method ParseMapExample() returns (ok: bool, d: Descr)
    ensures ok && d == OpDescr("[{sv}]", "y")
  {
    ok, d := Parse("[{sv}] -> y");
    MapText();
    assert IsOp("[{sv}] -> y", Array(Pair(Plain('s'), Plain('v'))), " ", " ", Plain('y'));
  }

  method ParseTupleExample() returns (ok: bool, d: Descr)
    ensures ok && d == ValueDescr("(%@)")
  {
    ok, d := Parse("(%@)");
    TupleText();
    assert IsValue("(%@)", Tuple(Plain('%'), [Plain('@')]));
  }

  lemma {:induction false} MapText()
    ensures Print(Array(Pair(Plain('s'), Plain('v')))) == "[{sv}]"
  {
    assert Print(Pair(Plain('s'), Plain('v'))) == "{sv}";
  }

  lemma {:induction false} TupleText()
    ensures Print(Tuple(Plain('%'), [Plain('@')])) == "(%@)"
  {
    assert PrintAll([Plain('@')]) == Print(Plain('@')) + PrintAll([]);
  }
}
