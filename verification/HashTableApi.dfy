/** The public calls of hashtable.h, on a possibly null table, and what they amount
    to over whole runs: every run answers as a plain map does. */
module HashTableApi {
  import opened Wrappers
  import opened HashLayout
  import opened HashTable

  /** A possibly null table stands for a map. */
  ghost predicate StandsFor(table: Table?, m: map<Key, Ptr>)
    reads table
  {
    if table == null then m == map[] else
    && table.Valid()
    && (forall k :: k in m <==> table.At(k).Some?)
    && (forall k | k in m :: m[k] == table.At(k).value)
  }

  /** At most n insertions have gone into the table. */
  ghost predicate Within(table: Table?, n: nat)
    reads table
  {
    table != null ==> table.freeCur <= Prime(table.bucketsNo) + n && table.len <= n
  }

  /** The number of insertions without which no table is exhausted: the cells
      between the largest bucket count and the least capacity that cannot grow. */
  const EXHAUSTION: nat := 1431655766 - 100663319

  /** What a null pointer result or a missing key reads as. */
  function OrNull(m: map<Key, Ptr>, key: Option<Key>): Ptr {
    if key.Some? && key.value in m then m[key.value] else NULL
  }

  /** dicey_hashtable_set. */
  method Set(table: Table?, key: Key, value: Ptr, ghost m: map<Key, Ptr>, ghost n: nat)
    returns (res: SetResult, oldValue: Ptr, table': Table)
    requires StandsFor(table, m) && Within(table, n)
    modifies table
    ensures (table' == table || fresh(table')) && Within(table', n + 1)
    ensures StandsFor(table', if res == Failed then m else m[key := value])
    ensures res == Updated <==> key in m
    ensures oldValue == OrNull(m, Some(key))
    ensures res == Failed ==> EXHAUSTION <= n
  {
    if table == null {
      var t := new Table(0);
      res, oldValue, table' := SetIn(t, key, value, m, n);
    } else {
      res, oldValue, table' := SetIn(table, key, value, m, n);
    }
  }

  method SetIn(table: Table, key: Key, value: Ptr, ghost m: map<Key, Ptr>, ghost n: nat)
    returns (res: SetResult, oldValue: Ptr, table': Table)
    requires StandsFor(table, m) && Within(table, n)
    modifies table
    ensures (table' == table || fresh(table')) && Within(table', n + 1)
    ensures StandsFor(table', if res == Failed then m else m[key := value])
    ensures res == Updated <==> key in m
    ensures oldValue == OrNull(m, Some(key))
    ensures res == Failed ==> EXHAUSTION <= n
  {
    PrimeFacts(table.bucketsNo);
    res, oldValue, table' := HashSet(table, key, value);
    assert forall k :: k in (if res == Failed then m else m[key := value]) <==> table'.At(k).Some?;
  }

  /** dicey_hashtable_get. */
  method Get(table: Table?, key: Option<Key>, ghost m: map<Key, Ptr>) returns (value: Ptr)
    requires StandsFor(table, m)
    ensures value == OrNull(m, key)
  {
    value := NULL;
    if table != null && key.Some? {
      value := table.GetEntry(key.value);
    }
  }

  /** dicey_hashtable_contains: a key bound to a null value counts as absent. */
  method Contains(table: Table?, key: Option<Key>, ghost m: map<Key, Ptr>) returns (found: bool)
    requires StandsFor(table, m)
    ensures found <==> key.Some? && key.value in m && m[key.value] != NULL
  {
    var value := Get(table, key, m);
    found := value != NULL;
  }

  /** dicey_hashtable_remove. */
  method Remove(table: Table?, key: Option<Key>, ghost m: map<Key, Ptr>) returns (value: Ptr)
    requires StandsFor(table, m)
    modifies table
    ensures StandsFor(table, if key.Some? then m - {key.value} else m)
    ensures value == OrNull(m, key)
    ensures table != null ==> unchanged(table`freeCur, table`cap, table`bucketsNo) && table.len <= old(table.len)
  {
    value := NULL;
    if table != null && key.Some? {
      value := table.RemoveKey(key.value);
    }
  }

  /** dicey_hashtable_size. */
  method Size(table: Table?, ghost m: map<Key, Ptr>) returns (n: nat)
    requires StandsFor(table, m)
    ensures n == |m|
  {
    n := 0;
    if table != null {
      CountIsSize(table.entries, table.chains, m.Keys);
      n := table.len;
    }
  }

  // ---------------------------------------------------------------- iteration

  /** dicey_hashtable_iter_next: `cur` is the iterator's cell, None a null one. */
  method IterNext(table: Table?, cur: Option<nat>) returns (item: Option<(Key, Ptr)>, cur': Option<nat>)
    requires table != null ==> table.Valid()
    ensures table == null || cur == None ==> item == None
    ensures table != null && cur.Some? && cur.value <= table.cap ==>
      match item
      case None => LiveItems(table.entries[..cur.value]) == LiveItems(table.entries)
      case Some(kv) =>
        && cur'.Some? && cur.value < cur'.value <= table.cap
        && LiveItems(table.entries[..cur'.value]) == LiveItems(table.entries[..cur.value]) + [kv]
    ensures item == None ==> cur' == None
  {
    if table == null || cur == None || cur.value >= table.cap {
      if table != null {
        assert table.entries[..table.cap] == table.entries;
      }
      return None, None;
    }
    var cell := SkipEmpty(table.entries, cur.value);
    if cell == table.cap {
      return None, None;
    }
    TakeLive(table.entries, cell);
    return Some((table.entries[cell].key.value, table.entries[cell].value)), Some(cell + 1);
  }

  lemma {:induction false} TakeLive(cells: seq<Entry<Key>>, i: nat)
    requires i < |cells| && cells[i].key.Some?
    ensures LiveItems(cells[..i + 1]) == LiveItems(cells[..i]) + [(cells[i].key.value, cells[i].value)]
  {
    assert cells[..i + 1][..i] == cells[..i];
  }

  /** The next live cell, or the end. */
  method SkipEmpty(cells: seq<Entry<Key>>, from: nat) returns (cell: nat)
    requires from < |cells|
    ensures from <= cell <= |cells|
    ensures LiveItems(cells[..cell]) == LiveItems(cells[..from])
    ensures if cell == |cells| then LiveItems(cells[..from]) == LiveItems(cells) else cells[cell].key.Some?
  {
    cell := from;
    while cells[cell].key == None
      invariant from <= cell < |cells|
      invariant LiveItems(cells[..cell]) == LiveItems(cells[..from])
      decreases |cells| - cell
    {
      assert cells[..cell + 1][..cell] == cells[..cell];
      cell := cell + 1;
      if cell == |cells| {
        assert cells[..cell] == cells;
        return;
      }
    }
  }

  /** The bindings of the live cells, in cell order. */
  ghost function LiveItems(cells: seq<Entry<Key>>): seq<(Key, Ptr)> {
    if cells == [] then [] else
    var rest := LiveItems(cells[..|cells| - 1]);
    var last := cells[|cells| - 1];
    if last.key.Some? then rest + [(last.key.value, last.value)] else rest
  }

  /** Key and value of an item are those of a live cell below n. */
  ghost predicate Lists(cells: seq<Entry<Key>>, c: Chains<Key>, n: nat, kv: (Key, Ptr))
    requires Keyed(cells, c)
  {
    c.pos(kv.0).Some? && c.pos(kv.0).value < n && cells[c.pos(kv.0).value].value == kv.1
  }

  lemma {:induction false} LiveItemsAre(cells: seq<Entry<Key>>, c: Chains<Key>, n: nat)
    requires Keyed(cells, c) && n <= |cells|
    ensures |LiveItems(cells[..n])| == Count(cells[..n])
    ensures forall kv :: kv in LiveItems(cells[..n]) <==> Lists(cells, c, n, kv)
    ensures forall x, y | 0 <= x < y < |LiveItems(cells[..n])| ::
              LiveItems(cells[..n])[x].0 != LiveItems(cells[..n])[y].0
  {
    if n > 0 {
      LiveItemsAre(cells, c, n - 1);
      assert cells[..n][..n - 1] == cells[..n - 1];
      CellStep(cells, c, n - 1);
      var rest := LiveItems(cells[..n - 1]);
      assert forall x | 0 <= x < |rest| :: rest[x] in rest && Lists(cells, c, n - 1, rest[x]);
    }
  }

  /** A whole iteration yields every binding once and nothing else. */
  method Iterate(table: Table?, ghost m: map<Key, Ptr>) returns (items: seq<(Key, Ptr)>)
    requires StandsFor(table, m)
    ensures forall k, v: Ptr :: (k, v) in items <==> k in m && m[k] == v
    ensures forall x, y | 0 <= x < y < |items| :: items[x].0 != items[y].0
    ensures |items| == |m|
  {
    items := [];
    var cur := if table == null then None else Some(0);
    var done := false;
    while !done
      invariant table == null ==> cur == None && items == []
      invariant table != null && !done ==>
        cur.Some? && cur.value <= table.cap && items == LiveItems(table.entries[..cur.value])
      invariant table != null && done ==> items == LiveItems(table.entries)
      decreases !done, if table != null && cur.Some? then table.cap - cur.value else 0
    {
      var item;
      item, cur := IterNext(table, cur);
      match item {
        case None => done := true;
        case Some(kv) => items := items + [kv];
      }
    }
    if table != null {
      AllItems(table, m);
    }
  }

  lemma {:induction false} AllItems(table: Table, m: map<Key, Ptr>)
    requires StandsFor(table, m)
    ensures var items := LiveItems(table.entries);
            && (forall k, v: Ptr :: (k, v) in items <==> k in m && m[k] == v)
            && (forall x, y | 0 <= x < y < |items| :: items[x].0 != items[y].0)
            && |items| == |m|
  {
    LiveItemsAre(table.entries, table.chains, table.cap);
    assert table.entries[..table.cap] == table.entries;
    CountIsSize(table.entries, table.chains, m.Keys);
    forall k, v: Ptr
      ensures (k, v) in LiveItems(table.entries) <==> k in m && m[k] == v
    {
      assert (k, v) in LiveItems(table.entries) <==> Lists(table.entries, table.chains, table.cap, (k, v));
    }
  }

  // --------------------------------------------------------------------- runs

  datatype Op =
    | SetOp(key: Key, value: Ptr)
    | GetOp(lookup: Option<Key>)
    | ContainsOp(lookup: Option<Key>)
    | RemoveOp(lookup: Option<Key>)
    | SizeOp

  datatype Out = SetOut(res: SetResult, oldValue: Ptr) | PtrOut(p: Ptr) | FlagOut(b: bool) | SizeOut(n: nat)

  /** How a plain map answers. */
  function MapOut(m: map<Key, Ptr>, op: Op): Out {
    match op
    case SetOp(k, v) => SetOut(if k in m then Updated else Added, OrNull(m, Some(k)))
    case GetOp(k) => PtrOut(OrNull(m, k))
    case ContainsOp(k) => FlagOut(k.Some? && k.value in m && m[k.value] != NULL)
    case RemoveOp(k) => PtrOut(OrNull(m, k))
    case SizeOp => SizeOut(|m|)
  }

  /** How a plain map changes. */
  function MapNext(m: map<Key, Ptr>, op: Op): map<Key, Ptr> {
    match op
    case SetOp(k, v) => m[k := v]
    case RemoveOp(k) => if k.Some? then m - {k.value} else m
    case _ => m
  }

  /** The answers of a plain map to a whole run. */
  function MapRun(m: map<Key, Ptr>, ops: seq<Op>): seq<Out>
    decreases |ops|
  {
    if ops == [] then [] else [MapOut(m, ops[0])] + MapRun(MapNext(m, ops[0]), ops[1..])
  }

  const REFUSED: Out := SetOut(Failed, NULL)

  /** The answers of a plain map that may refuse to take a new key. */
  ghost predicate Answers(m: map<Key, Ptr>, ops: seq<Op>, outs: seq<Out>)
    decreases |ops|
  {
    if ops == [] || outs == [] then ops == [] && outs == []
    else if outs[0] == REFUSED then ops[0].SetOp? && ops[0].key !in m && Answers(m, ops[1..], outs[1..])
    else outs[0] == MapOut(m, ops[0]) && Answers(MapNext(m, ops[0]), ops[1..], outs[1..])
  }

  /** One call. */
  method Call(table: Table?, op: Op, ghost m: map<Key, Ptr>, ghost n: nat) returns (out: Out, table': Table?)
    requires StandsFor(table, m) && Within(table, n)
    modifies table
    ensures (table' == table || fresh(table')) && Within(table', n + 1)
    ensures StandsFor(table', if out == REFUSED then m else MapNext(m, op))
    ensures if out == REFUSED then op.SetOp? && op.key !in m && EXHAUSTION <= n else out == MapOut(m, op)
  {
    table' := table;
    match op {
      case SetOp(k, v) =>
        var res, oldValue;
        res, oldValue, table' := Set(table, k, v, m, n);
        out := SetOut(res, oldValue);
      case GetOp(k) =>
        var p := Get(table, k, m);
        out := PtrOut(p);
      case ContainsOp(k) =>
        var b := Contains(table, k, m);
        out := FlagOut(b);
      case RemoveOp(k) =>
        var p := Remove(table, k, m);
        out := PtrOut(p);
      case SizeOp =>
        var s := Size(table, m);
        out := SizeOut(s);
    }
  }

  /** The rest of a run, from a table that stands for m. */
  method RunFrom(table: Table?, ops: seq<Op>, ghost m: map<Key, Ptr>, ghost n: nat) returns (outs: seq<Out>)
    requires StandsFor(table, m) && Within(table, n)
    modifies table
    ensures Answers(m, ops, outs)
    ensures n + |ops| <= EXHAUSTION ==> outs == MapRun(m, ops)
    decreases |ops|
  {
    if ops == [] {
      return [];
    }
    var out, table' := Call(table, ops[0], m, n);
    var rest := RunFrom(table', ops[1..], if out == REFUSED then m else MapNext(m, ops[0]), n + 1);
    outs := [out] + rest;
  }

  /** Every run from the null table answers as a plain map does; only a run of more
      than a billion calls can have a new key refused, and that call changes nothing. */
  method Run(ops: seq<Op>) returns (outs: seq<Out>)
    ensures Answers(map[], ops, outs)
    ensures |ops| <= EXHAUSTION ==> outs == MapRun(map[], ops)
  {
    outs := RunFrom(null, ops, map[], 0);
  }
}
