/** The cell array of the chained hash table, as values: bucket head cells first,
    then overflow cells, then zeroed cells.  A cell's `next` is the offset of the
    following cell of its bucket, or 0. */
module HashLayout {
  import opened Wrappers

  /** The bytes of a C string, without its terminator. */
  type CByte = x: int | 1 <= x < 256 witness 1
  type Key = seq<CByte>

  /** A `void *` value; only its being null matters. */
  type Ptr = nat
  const NULL: Ptr := 0

  datatype Entry<K> = Entry(key: Option<K>, value: Ptr, next: nat)

  /** What calloc and the memset after realloc leave in a cell. */
  function Zeroed<K>(): Entry<K> {
    Entry(None, NULL, 0)
  }

  // ---------------------------------------------------------------- hashing

  /** The polynomial that djb2 evaluates, over unbounded integers. */
  function Horner(key: Key): (h: nat)
  {
    if key == [] then 5381 else Horner(key[..|key| - 1]) * 33 + key[|key| - 1]
  }

  function Hash(key: Key): nat {
    Horner(key) % U32
  }

  function Power33(n: nat): nat {
    if n == 0 then 1 else 33 * Power33(n - 1)
  }

  /** The bytes with their powers of 33, from the first byte on. */
  function Weighted(key: Key): nat {
    if key == [] then 0 else key[0] * Power33(|key| - 1) + Weighted(key[1..])
  }

  lemma {:induction false} WeightedAppend(key: Key, c: CByte)
    ensures Weighted(key + [c]) == 33 * Weighted(key) + c
  {
    if key == [] {
      assert Weighted([c]) == c * Power33(0) + Weighted([]);
    } else {
      WeightedAppend(key[1..], c);
      assert (key + [c])[1..] == key[1..] + [c];
      var x, p := key[0], Power33(|key| - 1);
      assert Power33(|key|) == 33 * p;
      assert x * (33 * p) == 33 * (x * p);
    }
  }

  /** The hash as a number. */
  lemma {:induction false} HashIsSum(key: Key)
    ensures Horner(key) == 5381 * Power33(|key|) + Weighted(key)
    ensures Hash(key) == (5381 * Power33(|key|) + Weighted(key)) % 0x1_0000_0000
  {
    if key != [] {
      var n := |key| - 1;
      HashIsSum(key[..n]);
      WeightedAppend(key[..n], key[n]);
      assert key == key[..n] + [key[n]];
    }
  }

  /** djb2 wraps its 32-bit accumulator at every byte; the result is the
      polynomial reduced once. */
  method Djb2(key: Key) returns (hash: nat)
    ensures hash == Horner(key) % U32
    ensures hash == (5381 * Power33(|key|) + Weighted(key)) % 0x1_0000_0000
  {
    HashIsSum(key);
    hash := 5381;
    for i := 0 to |key|
      invariant hash == Horner(key[..i]) % U32
    {
      assert key[..i + 1][..i] == key[..i];
      WrapEarly(Horner(key[..i]), key[i]);
      hash := ((hash * 32) % U32 + hash + key[i]) % U32;
    }
    assert key[..|key|] == key;
  }

  lemma {:induction false} WrapEarly(h: nat, c: nat)
    ensures ((h % U32 * 32) % U32 + h % U32 + c) % U32 == (h * 33 + c) % U32
  {
    var q, r := h / U32, h % U32;
    assert h * 33 + c == U32 * (33 * q) + (r * 33 + c);
    var s, t := (r * 32) / U32, (r * 32) % U32;
    assert r * 33 + c == U32 * s + (t + r + c);
    AddMultiple(33 * q, r * 33 + c);
    AddMultiple(s, t + r + c);
  }

  lemma {:induction false} AddMultiple(k: nat, x: nat)
    ensures (U32 * k + x) % U32 == x % U32
  {
  }

  // ------------------------------------------------------- well-formed arrays

  /** How an array's cells hang together.  The first `buckets` cells are heads and
      the first |owner| cells are allocated; `home` gives each key's bucket,
      `owner[i]` the bucket of cell i, `prev[j]` the cell whose `next` is j, and
      `pos(k)` the cell that holds key k, if any. */
  datatype Chains<!K(==)> = Chains(buckets: nat, home: K -> nat, owner: seq<nat>, prev: seq<nat>, pos: K -> Option<nat>) {
    function Free(): nat { |owner| }

    function Hold(key: K, i: nat): Chains<K> {
      this.(pos := (k: K) => if k == key then Some(i) else pos(k))
    }

    function Drop(key: K): Chains<K> {
      this.(pos := (k: K) => if k == key then None else pos(k))
    }

    /** Cell Free() now follows cell `last`. */
    function Link(last: nat): Chains<K>
      requires last < |owner|
    {
      this.(owner := owner + [owner[last]], prev := prev + [last])
    }
  }

  /** One chain per bucket: offsets strictly increase along a chain, and every
      overflow cell hangs off exactly one other cell. */
  ghost predicate Linked<K>(cells: seq<Entry<K>>, c: Chains<K>) {
    && 0 < c.buckets <= |c.owner| == |c.prev| <= |cells|
    && (forall i | 0 <= i < c.buckets :: c.owner[i] == i)
    && (forall i | 0 <= i < |c.owner| :: c.owner[i] < c.buckets)
    && (forall i {:trigger cells[i].next} | 0 <= i < |c.owner| && cells[i].next != 0 ::
          i < cells[i].next < |c.owner| && c.buckets <= cells[i].next
          && c.owner[cells[i].next] == c.owner[i])
    && (forall j | c.buckets <= j < |c.owner| :: c.prev[j] < j && cells[c.prev[j]].next == j)
    && (forall i | |c.owner| <= i < |cells| :: cells[i] == Zeroed())
  }

  ghost predicate Live<K>(cells: seq<Entry<K>>, i: int) {
    0 <= i < |cells| && cells[i].key.Some?
  }

  /** Every key is in one allocated cell, in its home bucket. */
  ghost predicate Keyed<K(!new)>(cells: seq<Entry<K>>, c: Chains<K>) {
    && |c.owner| <= |cells|
    && (forall k {:trigger c.pos(k)} | c.pos(k).Some? ::
          c.pos(k).value < |c.owner| && cells[c.pos(k).value].key == Some(k) && c.owner[c.pos(k).value] == c.home(k))
    && (forall i {:trigger Live(cells, i)} | Live(cells, i) :: c.pos(cells[i].key.value) == Some(i))
  }

  ghost predicate Rep<K(!new)>(cells: seq<Entry<K>>, c: Chains<K>) {
    Linked(cells, c) && Keyed(cells, c)
  }

  /** The value a well-formed array holds for a key. */
  ghost function Value<K(!new)>(cells: seq<Entry<K>>, c: Chains<K>, k: K): Option<Ptr>
    requires Keyed(cells, c)
  {
    match c.pos(k)
    case None => None
    case Some(i) => Some(cells[i].value)
  }

  /** The second array holds v for `key` and otherwise what the first one does. */
  ghost predicate Rebinds<K(!new)>(cells: seq<Entry<K>>, c: Chains<K>, after: seq<Entry<K>>, c': Chains<K>,
                                   key: K, v: Option<Ptr>)
    requires Keyed(cells, c) && Keyed(after, c')
  {
    forall k {:trigger Value(after, c', k)} :: Value(after, c', k) == if k == key then v else Value(cells, c, k)
  }

  /** No cell of bucket b is a hole. */
  ghost predicate BucketFull<K>(cells: seq<Entry<K>>, c: Chains<K>, b: nat)
    requires |c.owner| <= |cells|
  {
    forall i | 0 <= i < |c.owner| && c.owner[i] == b :: cells[i].key.Some?
  }

  // ------------------------------------------------------------ chain lemmas

  /** Two cells of one bucket are on one chain, so from the lower one the walk
      goes on and does not jump past the higher one. */
  lemma {:induction false} NextWithin<K>(cells: seq<Entry<K>>, c: Chains<K>, i: nat, j: nat)
    requires Linked(cells, c)
    requires i < j < c.Free() && c.owner[i] == c.owner[j]
    ensures 0 < cells[i].next <= j
    decreases j, i
  {
    assert c.buckets <= j;
    var q := c.prev[j];
    assert cells[q].next == j && c.owner[q] == c.owner[j];
    if q > i {
      NextWithin(cells, c, i, q);
    } else if q < i {
      NextWithin(cells, c, q, i);
    }
  }

  /** The offsets visited from cell i on. */
  ghost function Walk<K>(cells: seq<Entry<K>>, i: nat): seq<nat>
    decreases |cells| - i
  {
    if i >= |cells| then []
    else if i < cells[i].next then [i] + Walk(cells, cells[i].next)
    else [i]
  }

  ghost predicate Increasing(s: seq<nat>) {
    forall x, y | 0 <= x < y < |s| :: s[x] < s[y]
  }

  /** A walk visits, in increasing order, exactly the allocated cells of its
      bucket from its start on. */
  lemma {:induction false} WalkIsBucket<K>(cells: seq<Entry<K>>, c: Chains<K>, i: nat)
    requires Linked(cells, c) && i < c.Free()
    ensures Increasing(Walk(cells, i))
    ensures forall j :: j in Walk(cells, i) <==> i <= j < c.Free() && c.owner[j] == c.owner[i]
    decreases c.Free() - i
  {
    var n := cells[i].next;
    forall j | i < j < c.Free() && c.owner[j] == c.owner[i]
      ensures 0 < n <= j
    {
      NextWithin(cells, c, i, j);
    }
    if n == 0 {
      assert Walk(cells, i) == [i];
    } else {
      var rest := Walk(cells, n);
      assert Increasing(rest) && forall j :: j in rest <==> n <= j < c.Free() && c.owner[j] == c.owner[i] by {
        WalkIsBucket(cells, c, n);
      }
      WalkStep(i, rest);
      assert Walk(cells, i) == [i] + rest;
    }
  }

  lemma {:induction false} WalkStep(i: nat, rest: seq<nat>)
    requires Increasing(rest) && forall j | j in rest :: i < j
    ensures Increasing([i] + rest)
    ensures forall j :: j in [i] + rest <==> j == i || j in rest
  {
    assert forall x | 0 <= x < |rest| :: rest[x] in rest;
  }

  lemma {:induction false} OwnerBelow<K>(cells: seq<Entry<K>>, c: Chains<K>, j: nat)
    requires Linked(cells, c) && j < c.Free()
    ensures c.owner[j] <= j
  {
    if c.buckets <= j {
      var q := c.prev[j];
      assert c.owner[q] == c.owner[j];
      OwnerBelow(cells, c, q);
    }
  }

  /** Every allocated cell is on the chain of exactly one bucket, and nothing
      else is on a chain; a live key is on the chain of its own hash. */
  lemma {:induction false} ChainsPartition<K(!new)>(cells: seq<Entry<K>>, c: Chains<K>)
    requires Rep(cells, c)
    ensures forall b | 0 <= b < c.buckets :: Increasing(Walk(cells, b))
    ensures forall b, j | 0 <= b < c.buckets :: j in Walk(cells, b) <==> 0 <= j < c.Free() && c.owner[j] == b
    ensures forall k | c.pos(k).Some? :: c.pos(k).value in Walk(cells, c.home(k))
  {
    forall b | 0 <= b < c.buckets
      ensures Increasing(Walk(cells, b))
      ensures forall j :: j in Walk(cells, b) <==> 0 <= j < c.Free() && c.owner[j] == b
    {
      WalkIsBucket(cells, c, b);
      forall j | 0 <= j < c.Free() ensures c.owner[j] <= j {
        OwnerBelow(cells, c, j);
      }
    }
    forall k | c.pos(k).Some?
      ensures c.pos(k).value in Walk(cells, c.home(k))
    {
      var b := c.owner[c.pos(k).value];
      assert 0 <= b < c.buckets;
    }
  }

  // ----------------------------------------------------------------- lookup

  /** bucket_find_entry: walks the bucket's chain to `key`, noting the first hole
      on the way and the last cell. */
  method FindEntry<K(==, !new)>(cells: seq<Entry<K>>, ghost c: Chains<K>, bucket: nat, key: K)
    returns (found: Option<nat>, firstFree: Option<nat>, bucketEnd: nat)
    requires Rep(cells, c) && bucket == c.home(key) < c.buckets
    ensures found == c.pos(key)
    ensures firstFree.Some? ==>
      firstFree.value < c.Free() && c.owner[firstFree.value] == bucket && cells[firstFree.value].key == None
    ensures found == None ==>
      && bucketEnd < c.Free() && c.owner[bucketEnd] == bucket && cells[bucketEnd].next == 0
      && (firstFree == None <==> BucketFull(cells, c, bucket))
  {
    var cur := bucket;
    firstFree, bucketEnd := None, 0;
    while true
      invariant cur < c.Free() && c.owner[cur] == bucket
      invariant c.pos(key).Some? ==> cur <= c.pos(key).value
      invariant firstFree.Some? ==>
        firstFree.value < cur && c.owner[firstFree.value] == bucket && cells[firstFree.value].key == None
      invariant firstFree == None ==>
        forall i | 0 <= i < cur && c.owner[i] == bucket :: cells[i].key.Some?
      decreases |cells| - cur
    {
      var entry := cells[cur];
      if entry.key.Some? {
        if entry.key.value == key {
          assert Live(cells, cur);
          return Some(cur), firstFree, 0;
        }
      } else if firstFree == None {
        firstFree := Some(cur);
      }
      forall j | cur < j < c.Free() && c.owner[j] == bucket
        ensures 0 < entry.next <= j
      {
        NextWithin(cells, c, cur, j);
      }
      if entry.next == 0 {
        return None, firstFree, cur;
      }
      cur := entry.next;
    }
  }

  // ------------------------------------------------------------ cell updates

  /** Linking looks only at the offsets and at the zeroed end. */
  lemma {:induction false} SameLinks<K>(cells: seq<Entry<K>>, after: seq<Entry<K>>, c: Chains<K>, c': Chains<K>)
    requires Linked(cells, c) && |after| >= |cells|
    requires c'.buckets == c.buckets && c'.owner == c.owner && c'.prev == c.prev
    requires forall i | 0 <= i < c.Free() :: after[i].next == cells[i].next
    requires forall i | c.Free() <= i < |after| :: after[i] == Zeroed()
    ensures Linked(after, c')
  {
  }

  /** Overwriting the value of a live cell rebinds its key. */
  lemma {:induction false} UpdateValue<K(!new)>(cells: seq<Entry<K>>, c: Chains<K>, key: K, value: Ptr)
    requires Rep(cells, c) && c.pos(key).Some?
    ensures var i := c.pos(key).value;
            var after := cells[i := cells[i].(value := value)];
            Rep(after, c) && Rebinds(cells, c, after, c, key, Some(value))
  {
    var i := c.pos(key).value;
    var after := cells[i := cells[i].(value := value)];
    SameLinks(cells, after, c, c);
    assert forall x {:trigger Live(after, x)} | Live(after, x) :: Live(cells, x);
  }

  /** A hole of the right bucket takes a new key. */
  lemma {:induction false} FillHole<K(!new)>(cells: seq<Entry<K>>, c: Chains<K>, i: nat, key: K, value: Ptr)
    requires Rep(cells, c) && c.pos(key) == None
    requires i < c.Free() && cells[i].key == None && c.owner[i] == c.home(key)
    ensures var after := cells[i := Entry(Some(key), value, cells[i].next)];
            Rep(after, c.Hold(key, i)) && Rebinds(cells, c, after, c.Hold(key, i), key, Some(value))
  {
    var after := cells[i := Entry(Some(key), value, cells[i].next)];
    SameLinks(cells, after, c, c.Hold(key, i));
    NewKey(cells, after, c, c.Hold(key, i), i, key, value);
  }

  /** A cell that held no key now holds `key`; the other cells keep theirs. */
  lemma {:induction false} NewKey<K(!new)>(cells: seq<Entry<K>>, after: seq<Entry<K>>, c: Chains<K>, c': Chains<K>,
                        i: nat, key: K, value: Ptr)
    requires Keyed(cells, c) && c.pos(key) == None
    requires c'.home == c.home && c.owner <= c'.owner && |c'.owner| <= |cells| == |after|
    requires forall k {:trigger c'.pos(k)} :: c'.pos(k) == if k == key then Some(i) else c.pos(k)
    requires i < |c'.owner| && cells[i].key == None && c'.owner[i] == c.home(key)
    requires after[i].key == Some(key) && after[i].value == value
    requires forall x | 0 <= x < |cells| && x != i :: after[x].key == cells[x].key && after[x].value == cells[x].value
    ensures Keyed(after, c') && Rebinds(cells, c, after, c', key, Some(value))
  {
    forall x {:trigger Live(after, x)} | Live(after, x)
      ensures c'.pos(after[x].key.value) == Some(x)
    {
      if x != i {
        assert Live(cells, x);
      }
    }
  }

  /** Linking the first free cell behind the end of a bucket's chain. */
  lemma {:induction false} AppendCell<K(!new)>(cells: seq<Entry<K>>, c: Chains<K>, last: nat, key: K, value: Ptr)
    requires Rep(cells, c) && c.pos(key) == None
    requires last < c.Free() < |cells| && cells[last].next == 0 && c.owner[last] == c.home(key)
    ensures var after := cells[c.Free() := Entry(Some(key), value, 0)][last := cells[last].(next := c.Free())];
            var c' := c.Link(last).Hold(key, c.Free());
            Rep(after, c') && Rebinds(cells, c, after, c', key, Some(value))
  {
    var after := cells[c.Free() := Entry(Some(key), value, 0)][last := cells[last].(next := c.Free())];
    var c' := c.Link(last).Hold(key, c.Free());
    AppendLink(cells, after, c, c', last);
    NewKey(cells, after, c, c', c.Free(), key, value);
  }

  lemma {:induction false} AppendLink<K>(cells: seq<Entry<K>>, after: seq<Entry<K>>, c: Chains<K>, c': Chains<K>, last: nat)
    requires Linked(cells, c)
    requires last < c.Free() < |cells| == |after| && cells[last].next == 0
    requires after[last].next == c.Free() && after[c.Free()].next == 0
    requires forall x | 0 <= x < |cells| && x != c.Free() && x != last :: after[x] == cells[x]
    requires c'.buckets == c.buckets && c'.owner == c.owner + [c.owner[last]] && c'.prev == c.prev + [last]
    ensures Linked(after, c')
  {
    assert forall j | c.buckets <= j < c.Free() :: c.prev[j] != last;
  }

  /** Clearing a cell's key leaves a hole that stays linked. */
  lemma {:induction false} ClearCell<K(!new)>(cells: seq<Entry<K>>, c: Chains<K>, key: K)
    requires Rep(cells, c) && c.pos(key).Some?
    ensures var i := c.pos(key).value;
            var after := cells[i := Entry(None, NULL, cells[i].next)];
            Rep(after, c.Drop(key)) && Rebinds(cells, c, after, c.Drop(key), key, None)
  {
    var i := c.pos(key).value;
    var after := cells[i := Entry(None, NULL, cells[i].next)];
    SameLinks(cells, after, c, c.Drop(key));
    assert forall x {:trigger Live(after, x)} | Live(after, x) :: Live(cells, x);
  }

  /** Zeroed cells at the end change nothing. */
  lemma {:induction false} ExtendZeroed<K(!new)>(cells: seq<Entry<K>>, c: Chains<K>, longer: seq<Entry<K>>)
    requires Rep(cells, c)
    requires cells <= longer && forall i | |cells| <= i < |longer| :: longer[i] == Zeroed()
    ensures Rep(longer, c)
    ensures forall k :: Value(longer, c, k) == Value(cells, c, k)
  {
    assert forall i | 0 <= i < |cells| :: longer[i] == cells[i];
    SameLinks(cells, longer, c, c);
    assert forall x {:trigger Live(longer, x)} | Live(longer, x) :: Live(cells, x);
  }

  // -------------------------------------------------------------- live count

  /** The number of cells that hold a key. */
  ghost function Count<K>(cells: seq<Entry<K>>): (n: nat)
    ensures n <= |cells|
  {
    if cells == [] then 0
    else Count(cells[..|cells| - 1]) + if cells[|cells| - 1].key.Some? then 1 else 0
  }

  lemma {:induction false} CountUpdate<K>(cells: seq<Entry<K>>, i: nat, e: Entry<K>)
    requires i < |cells|
    ensures Count(cells[i := e]) ==
            Count(cells) - (if cells[i].key.Some? then 1 else 0) + if e.key.Some? then 1 else 0
  {
    var n := |cells| - 1;
    if i == n {
      assert cells[i := e][..n] == cells[..n];
    } else {
      assert cells[i := e][..n] == cells[..n][i := e];
      CountUpdate(cells[..n], i, e);
    }
  }

  lemma {:induction false} CountZeroed<K>(cells: seq<Entry<K>>, longer: seq<Entry<K>>)
    requires cells <= longer && forall i | |cells| <= i < |longer| :: longer[i] == Zeroed()
    ensures Count(longer) == Count(cells)
  {
    if |longer| == |cells| {
      assert longer == cells;
    } else {
      CountZeroed(cells, longer[..|longer| - 1]);
    }
  }

  /** A prefix that leaves out a live cell holds fewer keys. */
  lemma {:induction false} CountPrefix<K>(cells: seq<Entry<K>>, n: nat)
    requires n <= |cells|
    ensures Count(cells[..n]) <= Count(cells)
    ensures n < |cells| && cells[n].key.Some? ==> Count(cells[..n]) < Count(cells)
    decreases |cells| - n
  {
    if n < |cells| {
      assert cells[..n + 1][..n] == cells[..n];
      CountPrefix(cells, n + 1);
    } else {
      assert cells[..n] == cells;
    }
  }

  /** The live count is the number of keys that have a value. */
  lemma {:induction false} CountIsSize<K(!new)>(cells: seq<Entry<K>>, c: Chains<K>, keys: set<K>)
    requires Rep(cells, c) && forall k :: k in keys <==> Value(cells, c, k).Some?
    ensures |keys| == Count(cells)
  {
    CountKeys(cells, c, keys, |cells|);
    assert cells[..|cells|] == cells;
    assert KeysBelow(c, keys, |cells|) == keys;
  }

  ghost function KeysBelow<K>(c: Chains<K>, keys: set<K>, n: nat): set<K> {
    set k | k in keys && c.pos(k).Some? && c.pos(k).value < n
  }

  lemma {:induction false} CountKeys<K(!new)>(cells: seq<Entry<K>>, c: Chains<K>, keys: set<K>, n: nat)
    requires Keyed(cells, c) && n <= |cells| && forall k :: k in keys <==> Value(cells, c, k).Some?
    ensures |KeysBelow(c, keys, n)| == Count(cells[..n])
  {
    if n == 0 {
      assert KeysBelow(c, keys, 0) == {};
    } else {
      CountKeys(cells, c, keys, n - 1);
      assert cells[..n][..n - 1] == cells[..n - 1];
      KeysNext(cells, c, keys, n - 1);
    }
  }

  /** Cell n adds its key, if it has one. */
  lemma {:induction false} KeysNext<K(!new)>(cells: seq<Entry<K>>, c: Chains<K>, keys: set<K>, n: nat)
    requires Keyed(cells, c) && n < |cells| && forall k :: k in keys <==> Value(cells, c, k).Some?
    ensures cells[n].key == None ==> KeysBelow(c, keys, n + 1) == KeysBelow(c, keys, n)
    ensures cells[n].key.Some? ==>
              var k := cells[n].key.value;
              k !in KeysBelow(c, keys, n) && KeysBelow(c, keys, n + 1) == KeysBelow(c, keys, n) + {k}
  {
    if cells[n].key.Some? {
      assert Live(cells, n);
      assert Value(cells, c, cells[n].key.value).Some?;
    }
  }
}
