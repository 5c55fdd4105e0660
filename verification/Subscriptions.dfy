/** A client's subscriptions: a hash set of formatted element descriptors that is
    meant to stand for a set of (path, trait, element) triples. */
module Subscriptions {
  import opened Wrappers
  import opened HashLayout
  import opened HashTable
  import opened HashTableApi

  const HASH: CByte := 35   // '#'
  const COLON: CByte := 58  // ':'

  datatype Element = Element(path: Key, traitName: Key, name: Key)

  /** dicey_element_descriptor_format: path '#' trait ':' element. */
  function Format(e: Element): Key {
    e.path + [HASH] + e.traitName + [COLON] + e.name
  }

  /** The characters are bytes other than the terminator. */
  predicate IsText(s: string) {
    forall i | 0 <= i < |s| :: 1 <= s[i] as int < 256
  }

  function Bytes(s: string): (key: Key)
    requires IsText(s)
    ensures |key| == |s|
  {
    seq(|s|, i requires 0 <= i < |s| => s[i] as int as CByte)
  }

  /** The key in characters. */
  lemma {:induction false} FormatSpelled(path: string, traitName: string, name: string)
    requires IsText(path) && IsText(traitName) && IsText(name)
    ensures var s := path + "#" + traitName + ":" + name;
            IsText(s) && Format(Element(Bytes(path), Bytes(traitName), Bytes(name))) == Bytes(s)
  {
    var s := path + "#" + traitName + ":" + name;
    assert Format(Element(Bytes(path), Bytes(traitName), Bytes(name))) == Bytes(s);
  }

  // ---------------------------------------------------- when keys are faithful

  predicate Proper(e: Element) {
    HASH !in e.path && COLON !in e.traitName
  }

  /** Two texts that agree, cut at the first occurrence of a separator. */
  lemma {:induction false} SameCut(a: Key, b: Key, a': Key, b': Key, sep: CByte)
    requires a + [sep] + b == a' + [sep] + b' && sep !in a && sep !in a'
    ensures a == a' && b == b'
  {
    var s := a + [sep] + b;
    assert s[|a|] == sep && s[|a'|] == (a' + [sep] + b')[|a'|] == sep;
    assert forall x | 0 <= x < |a| :: s[x] == a[x];
    assert forall x | 0 <= x < |a'| :: s[x] == a'[x];
    assert |a| == |a'|;
    assert a == s[..|a|] && a' == s[..|a'|];
    assert b == s[|a| + 1..] && b' == s[|a'| + 1..];
  }

  /** Among paths without '#' and traits without ':' the key names the element. */
  lemma {:induction false} FormatInjective(e: Element, f: Element)
    requires Proper(e) && Proper(f) && Format(e) == Format(f)
    ensures e == f
  {
    var b, b' := e.traitName + [COLON] + e.name, f.traitName + [COLON] + f.name;
    assert Format(e) == e.path + [HASH] + b && Format(f) == f.path + [HASH] + b';
    SameCut(e.path, b, f.path, b', HASH);
    SameCut(e.traitName, e.name, f.traitName, f.name, COLON);
  }

  /** Nothing in the element can be mistaken for one of its separators. */
  predicate Unambiguous(e: Element) {
    HASH !in e.path && HASH !in e.traitName && COLON !in e.traitName && COLON !in e.name
  }

  /** Among all elements whatsoever, exactly the unambiguous ones share their key
      with no other element. */
  lemma {:induction false} UniqueExactlyWhen(e: Element)
    ensures Unambiguous(e) <==> forall f | Format(f) == Format(e) :: f == e
  {
    if Unambiguous(e) {
      forall f | Format(f) == Format(e)
        ensures f == e
      {
        OnlyReading(e, f);
      }
    } else {
      var f := OtherReading(e);
    }
  }

  lemma {:induction false} OnlyReading(e: Element, f: Element)
    requires Unambiguous(e) && Format(f) == Format(e)
    ensures f == e
  {
    Layout(e);
    Layout(f);
    SameSeparators(e, f);
  }

  /** Where the separators stand: the path is what precedes '#'. */
  function HashAt(e: Element): nat { |e.path| }
  function ColonAt(e: Element): nat { |e.path| + 1 + |e.traitName| }

  lemma {:induction false} Layout(e: Element)
    ensures var s := Format(e);
            && HashAt(e) < ColonAt(e) < |s|
            && e.path == s[..HashAt(e)] && s[HashAt(e)] == HASH
            && e.traitName == s[HashAt(e) + 1..ColonAt(e)] && s[ColonAt(e)] == COLON
            && e.name == s[ColonAt(e) + 1..]
  {
  }

  lemma {:induction false} SameSeparators(e: Element, f: Element)
    requires Unambiguous(e) && Format(f) == Format(e)
    ensures HashAt(f) == HashAt(e) && ColonAt(f) == ColonAt(e)
  {
    Layout(e);
    Layout(f);
    var s, p, q := Format(e), HashAt(e), ColonAt(e);
    assert forall x | 0 <= x < p :: s[x] in e.path;
    assert forall x | p < x < q :: s[x] in e.traitName;
    assert forall x | q < x < |s| :: s[x] in e.name;
  }

  /** An ambiguous element's key is also the key of another element. */
  lemma {:induction false} OtherReading(e: Element) returns (f: Element)
    requires !Unambiguous(e)
    ensures f != e && Format(f) == Format(e)
  {
    if HASH in e.path {
      var a, b := Cut(e.path, HASH);
      f := Element(a, b + [HASH] + e.traitName, e.name);
      assert Format(f) == Format(e);
    } else if HASH in e.traitName {
      var a, b := Cut(e.traitName, HASH);
      f := Element(e.path + [HASH] + a, b, e.name);
      assert Format(f) == Format(e);
    } else if COLON in e.traitName {
      var a, b := Cut(e.traitName, COLON);
      f := Element(e.path, a, b + [COLON] + e.name);
      assert Format(f) == Format(e);
    } else {
      var a, b := Cut(e.name, COLON);
      f := Element(e.path, e.traitName + [COLON] + a, b);
      assert Format(f) == Format(e);
    }
    assert |f.path| != |e.path| || |f.traitName| != |e.traitName|;
  }

  lemma {:induction false} Cut(s: Key, sep: CByte) returns (a: Key, b: Key)
    requires sep in s
    ensures s == a + [sep] + b
  {
    var i :| 0 <= i < |s| && s[i] == sep;
    a, b := s[..i], s[i + 1..];
  }

  // ------------------------------------------------------------------ the set

  /** The non-null marker that hashset.c stores for every key. */
  const PHONY: Ptr := 1

  datatype Call<T> = Subscribe(subject: T) | Unsubscribe(subject: T) | IsSubscribed(subject: T)

  /** How a plain set answers: subscribing always succeeds, and unsubscribing tells
      whether there was a subscription. */
  function Reply<T>(s: set<T>, call: Call<T>): bool {
    call.Subscribe? || call.subject in s
  }

  function After<T>(s: set<T>, call: Call<T>): set<T> {
    match call
    case Subscribe(x) => s + {x}
    case Unsubscribe(x) => s - {x}
    case IsSubscribed(_) => s
  }

  function SetRun<T>(s: set<T>, calls: seq<Call<T>>): seq<bool>
    decreases |calls|
  {
    if calls == [] then [] else [Reply(s, calls[0])] + SetRun(After(s, calls[0]), calls[1..])
  }

  function OnKeys(calls: seq<Call<Element>>): seq<Call<Key>> {
    seq(|calls|, i requires 0 <= i < |calls| => OnKey(calls[i]))
  }

  function OnKey(call: Call<Element>): Call<Key> {
    match call
    case Subscribe(e) => Subscribe(Format(e))
    case Unsubscribe(e) => Unsubscribe(Format(e))
    case IsSubscribed(e) => IsSubscribed(Format(e))
  }

  /** struct dicey_client_data, as far as subscriptions go. */
  class ClientData {
    var subscriptions: Table?
    ghost var keys: set<Key>

    ghost predicate Valid(n: nat)
      reads this, subscriptions
    {
      StandsFor(subscriptions, Marked()) && Within(subscriptions, n)
    }

    ghost function Marked(): map<Key, Ptr>
      reads this
    {
      map k | k in keys :: PHONY
    }

    constructor ()
      ensures Valid(0) && keys == {} && subscriptions == null
    {
      subscriptions, keys := null, {};
    }

    /** dicey_client_data_subscribe; a failed insertion reads as out of memory. */
    method Subscribe(descr: Key, ghost n: nat) returns (ok: bool)
      requires Valid(n)
      modifies this, subscriptions
      ensures Valid(n + 1) && (subscriptions == old(subscriptions) || fresh(subscriptions))
      ensures keys == if ok then old(keys) + {descr} else old(keys)
      ensures !ok ==> EXHAUSTION <= n
    {
      ghost var m := Marked();
      var res, _, table := Set(subscriptions, descr, PHONY, m, n);
      subscriptions := table;
      ok := res != Failed;
      if ok {
        keys := keys + {descr};
        assert Marked() == m[descr := PHONY];
      }
    }

    /** dicey_client_data_unsubscribe. */
    method Unsubscribe(descr: Key, ghost n: nat) returns (was: bool)
      requires Valid(n)
      modifies this`keys, subscriptions
      ensures Valid(n)
      ensures was <==> descr in old(keys)
      ensures keys == old(keys) - {descr}
    {
      ghost var m := Marked();
      var value := Remove(subscriptions, Some(descr), m);
      keys := keys - {descr};
      assert Marked() == m - {descr};
      was := value != NULL;
    }

    /** dicey_client_data_is_subscribed. */
    method IsSubscribed(descr: Key, ghost n: nat) returns (subscribed: bool)
      requires Valid(n)
      ensures subscribed <==> descr in keys
    {
      subscribed := Contains(subscriptions, Some(descr), Marked());
    }
  }

  method RunFrom(client: ClientData, calls: seq<Call<Element>>, ghost n: nat) returns (outs: seq<bool>)
    requires client.Valid(n)
    modifies client, client.subscriptions
    ensures n + |calls| <= EXHAUSTION ==> outs == SetRun(old(client.keys), OnKeys(calls))
    decreases |calls|
  {
    if calls == [] {
      return [];
    }
    var out;
    match calls[0] {
      case Subscribe(e) => out := client.Subscribe(Format(e), n);
      case Unsubscribe(e) => out := client.Unsubscribe(Format(e), n);
      case IsSubscribed(e) => out := client.IsSubscribed(Format(e), n);
    }
    var rest := RunFrom(client, calls[1..], n + 1);
    assert OnKeys(calls)[1..] == OnKeys(calls[1..]);
    outs := [out] + rest;
  }

  /** A new client's calls are answered as by a set of descriptors. */
  method Run(calls: seq<Call<Element>>) returns (outs: seq<bool>)
    ensures |calls| <= EXHAUSTION ==> outs == SetRun({}, OnKeys(calls))
    ensures |calls| <= EXHAUSTION && (forall i | 0 <= i < |calls| :: Proper(calls[i].subject)) ==>
      outs == SetRun({}, calls)
  {
    var client := new ClientData();
    outs := RunFrom(client, calls, 0);
    if forall i | 0 <= i < |calls| :: Proper(calls[i].subject) {
      KeysStandForElements({}, calls);
      assert Keys({}) == {};
    }
  }

  ghost function Keys(s: set<Element>): set<Key> {
    set e | e in s :: Format(e)
  }

  /** Over proper elements, the set of keys answers as the set of elements does. */
  lemma {:induction false} KeysStandForElements(s: set<Element>, calls: seq<Call<Element>>)
    requires forall e | e in s :: Proper(e)
    requires forall i | 0 <= i < |calls| :: Proper(calls[i].subject)
    ensures SetRun(Keys(s), OnKeys(calls)) == SetRun(s, calls)
    decreases |calls|
  {
    if calls != [] {
      var e := calls[0].subject;
      forall f | f in s && Format(f) == Format(e)
        ensures f == e
      {
        FormatInjective(f, e);
      }
      var s' := After(s, calls[0]);
      assert After(Keys(s), OnKey(calls[0])) == Keys(s');
      assert OnKeys(calls)[1..] == OnKeys(calls[1..]);
      KeysStandForElements(s', calls[1..]);
    }
  }

  /** Beyond proper elements the promise breaks: the second of these two calls
      reports a subscription that was never made. */
  lemma {:induction false} CollidingElements()
    ensures var e, f := Element([97, 35, 98], [99], [100]), Element([97], [98, 35, 99], [100]);
            var calls := [Subscribe(e), IsSubscribed(f)];
            && e != f && !Proper(e)
            && SetRun({}, OnKeys(calls)) == [true, true]
            && SetRun({}, calls) == [true, false]
  {
    var e, f := Element([97, 35, 98], [99], [100]), Element([97], [98, 35, 99], [100]);
    assert Format(e) == Format(f);
    var calls := [Subscribe(e), IsSubscribed(f)];
    SecondReply({}, calls);
    SecondReply({}, OnKeys(calls));
  }

  lemma {:induction false} SecondReply<T>(s: set<T>, calls: seq<Call<T>>)
    requires |calls| == 2
    ensures SetRun(s, calls) == [Reply(s, calls[0]), Reply(After(s, calls[0]), calls[1])]
  {
    assert calls[1..][1..] == [];
    assert SetRun(After(s, calls[0]), calls[1..]) == [Reply(After(s, calls[0]), calls[1])];
  }
}
