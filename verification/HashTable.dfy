/** The hash table itself: lookup, insertion with hole reuse, growth and rehash,
    removal and iteration, each proved against the plain map the table stands for. */
module HashTable {
  import opened Wrappers
  import opened HashLayout

  // ------------------------------------------------------------ bucket counts

  datatype List = End | More(head: int, tail: List)

  /** The list of bucket counts, written in five parts. */
  const PRIMES: List := More(53, More(97, More(193, More(389, More(769, PRIMES_5)))))
  const PRIMES_5: List := More(1543, More(3079, More(6151, More(12289, More(24593, PRIMES_10)))))
  const PRIMES_10: List := More(49157, More(98317, More(196613, More(393241, More(786433, PRIMES_15)))))
  const PRIMES_15: List := More(1572869, More(3145739, More(6291469, More(12582917, More(25165843, PRIMES_20)))))
  const PRIMES_20: List :=
    More(50331653, More(100663319, More(201326611, More(402653189, More(805306457, More(1610612741, End))))))

  /** Entry i of the list; -1 marks its end. */
  function Prime(i: nat): int {
    Nth(PRIMES, i)
  }

  function Nth(list: List, i: nat): int {
    match list
    case End => -1
    case More(head, tail) => if i == 0 then head else Nth(tail, i - 1)
  }

  const REHASH_THRESHOLD: nat := 75

  /** No table ever has more than Prime(TOP) buckets: from there on 32-bit
      arithmetic keeps the load factor below the threshold. */
  const TOP: nat := 21

  lemma {:induction false} PrimeFacts(i: nat)
    requires i <= TOP
    ensures 53 <= Prime(i) <= 100663319
    ensures i < TOP ==> Prime(i) <= 50331653 && Prime(i) + 2 <= Prime(i + 1)
    ensures i == TOP ==> Prime(i) == 100663319
  {
    assert Climbs(PRIMES_20, 1);
    assert Climbs(PRIMES_15, 6);
    assert Climbs(PRIMES_10, 11);
    assert Climbs(PRIMES_5, 16);
    assert Climbs(PRIMES, TOP);
    ClimbsAt(PRIMES, TOP, i);
  }

  /** From here n steps of at least 2 lead to 100663319. */
  predicate Climbs(list: List, n: nat) {
    list.More? && 53 <= list.head &&
    if n == 0 then list.head == 100663319
    else list.tail.More? && list.head + 2 <= list.tail.head && list.head <= 50331653 && Climbs(list.tail, n - 1)
  }

  lemma {:induction false} ClimbsAt(list: List, n: nat, i: nat)
    requires Climbs(list, n) && i <= n
    ensures 53 <= Nth(list, i)
    ensures i < n ==> Nth(list, i) <= 50331653 && Nth(list, i) + 2 <= Nth(list, i + 1)
    ensures i == n ==> Nth(list, i) == 100663319
  {
    if i > 0 {
      ClimbsAt(list.tail, n - 1, i - 1);
    }
  }

  function Home(buckets: nat): Key -> nat
    requires 0 < buckets
  {
    (k: Key) => Hash(k) % buckets
  }

  /** load_factor: the percentage as the code computes it, with a 32-bit product. */
  method LoadFactor(len: nat, buckets: nat) returns (percent: nat)
    requires 0 < buckets
    ensures percent >= REHASH_THRESHOLD <==> len * 100 % U32 >= 75 * buckets
  {
    percent := (len * 100 % U32) / buckets;
    DivLess(len * 100 % U32, buckets);
  }

  lemma {:induction false} DivLess(x: nat, p: nat)
    requires 0 < p
    ensures x / p < 75 <==> x < 75 * p
  {
    var q, r := x / p, x % p;
    assert x == p * q + r;
    if q < 75 {
      assert p * q <= p * 74;
    } else {
      assert p * q >= p * 75;
    }
  }

  /** The test for a rehash before the `len`-th key goes into Prime(i) buckets. */
  ghost predicate Overloaded(len: nat, i: nat)
    requires i <= TOP
  {
    len * 100 % U32 >= 75 * Prime(i)
  }

  /** Below the last reachable bucket count the 32-bit test is exact: one more
      key keeps the load bound exactly when the test lets it pass.  At that
      bucket count the test lets every length pass. */
  lemma {:induction false} OverloadedExact(len: nat, i: nat)
    requires i <= TOP && (i < TOP ==> 100 * len < 75 * Prime(i))
    ensures i < TOP ==> (Overloaded(len + 1, i) <==> 100 * (len + 1) >= 75 * Prime(i))
    ensures i == TOP ==> !Overloaded(len + 1, i)
  {
    PrimeFacts(i);
  }

  /** The test of hash_set, on the 32-bit successor of the length. */
  method NeedsRehash(len: nat, i: nat) returns (over: bool)
    requires i <= TOP && len < U32 - 1 && (i < TOP ==> 100 * len < 75 * Prime(i))
    ensures over <==> Overloaded(len + 1, i)
    ensures if over then i < TOP else i < TOP ==> 100 * (len + 1) < 75 * Prime(i)
  {
    PrimeFacts(i);
    var newLen := (len + 1) % U32;
    var load := LoadFactor(newLen, Prime(i));
    OverloadedExact(len, i);
    over := load >= REHASH_THRESHOLD;
  }

  /** At the threshold there is a next bucket count, and with it `len` keys and
      one more stay below the threshold. */
  lemma {:induction false} NextPrimeHasRoom(i: nat, len: nat, n: nat)
    requires i < TOP && 100 * len < 75 * Prime(i) && n <= len
    ensures 0 < Prime(i + 1) && !Overloaded(n + 1, i + 1)
  {
    PrimeFacts(i);
    PrimeFacts(i + 1);
  }

  /** The capacity that growth asks for, with a 32-bit product. */
  function Grown(cap: nat): nat {
    cap * 3 % U32 / 2
  }

  /** Growth is refused exactly when the product wraps. */
  lemma {:induction false} GrownExact(cap: nat)
    requires 53 <= cap < U32
    ensures Grown(cap) <= cap <==> 1431655766 <= cap
    ensures cap < 1431655766 ==> Grown(cap) == cap * 3 / 2 <= 0x7fff_ffff
  {
  }

  // ------------------------------------------------------------------- table

  datatype SetResult = Failed | Added | Updated

  /** struct dicey_hashtable, with its flexible array of cells. */
  class Table {
    var len: nat
    var cap: nat
    var bucketsNo: nat  // index into the list of bucket counts
    var freeCur: nat
    var entries: seq<Entry<Key>>
    ghost var chains: Chains<Key>

    ghost predicate Valid()
      reads this
    {
      && bucketsNo <= TOP && 0 < Prime(bucketsNo)
      && chains.buckets == Prime(bucketsNo) && chains.home == Home(Prime(bucketsNo))
      && cap == |entries| <= 0x7fff_ffff
      && freeCur == chains.Free()
      && Rep(entries, chains)
      && len == Count(entries)
      && (bucketsNo < TOP ==> 100 * len < 75 * Prime(bucketsNo))
    }

    /** The value the table holds for a key. */
    ghost function At(k: Key): Option<Ptr>
      requires Valid()
      reads this
    {
      Value(entries, chains, k)
    }

    /** The cell array would have to grow to hold `key`, and growth is refused. */
    ghost predicate Stuck(key: Key)
      requires Valid()
      reads this
    {
      BucketFull(entries, chains, chains.home(key)) && freeCur == cap && 1431655766 <= cap
    }

    /** hash_new: zeroed bucket heads. */
    constructor (i: nat)
      requires i <= TOP
      ensures Valid() && forall k :: At(k) == None
      ensures bucketsNo == i && len == 0 && freeCur == cap == Prime(i)
    {
      PrimeFacts(i);
      var p := Prime(i);
      var cells: seq<Entry<Key>> := seq(p, _ => Zeroed());
      CountZeroed([], cells);
      len, cap, bucketsNo, freeCur, entries := 0, p, i, p, cells;
      chains := Chains(p, Home(p), seq(p, (j: nat) => j), seq(p, (j: nat) => j), _ => None);
    }

    /** hash_get_entry_for_set on a non-null key. */
    method Locate(key: Key) returns (found: Option<nat>, firstFree: Option<nat>, bucketEnd: nat)
      requires Valid()
      ensures found == chains.pos(key)
      ensures firstFree.Some? ==> Hole(firstFree.value, key)
      ensures found == None ==> ChainEnd(bucketEnd, key)
      ensures found == None ==> (firstFree == None <==> BucketFull(entries, chains, chains.home(key)))
    {
      var hash := Djb2(key);
      found, firstFree, bucketEnd := FindEntry(entries, chains, hash % Prime(bucketsNo), key);
    }

    /** A held key's cell is in the chain of the bucket that its bytes give. */
    lemma {:induction false} LiveBucket(key: Key)
      requires Valid() && chains.pos(key).Some?
      ensures var i := chains.pos(key).value;
              && i < |entries| && entries[i].key == Some(key)
              && i in Walk(entries, (5381 * Power33(|key|) + Weighted(key)) % 0x1_0000_0000 % Prime(bucketsNo))
    {
      HashIsSum(key);
      ChainsPartition(entries, chains);
    }

    /** Cell i is a free cell of the bucket of `key`. */
    ghost predicate Hole(i: nat, key: Key)
      requires Valid()
      reads this
    {
      i < freeCur && chains.owner[i] == chains.home(key) && entries[i].key == None
    }

    /** Cell i is the last of the bucket of `key`. */
    ghost predicate ChainEnd(i: nat, key: Key)
      requires Valid()
      reads this
    {
      i < freeCur && chains.owner[i] == chains.home(key) && entries[i].next == 0
    }

    /** One more key keeps the load bound. */
    ghost predicate Room()
      reads this
    {
      bucketsNo < TOP ==> 100 * (len + 1) < 75 * Prime(bucketsNo)
    }

    /** hash_grow: half as much room again, zeroed. */
    method Grow() returns (ok: bool)
      requires Valid()
      modifies this`cap, this`entries
      ensures Valid() && forall k :: At(k) == old(At(k))
      ensures ok <==> old(cap) < 1431655766
      ensures cap == if ok then old(cap) * 3 / 2 else old(cap)
      ensures old(entries) <= entries
    {
      PrimeFacts(bucketsNo);
      GrownExact(cap);
      var newCap := Grown(cap);
      if newCap <= cap {
        return false;
      }
      var bigger := entries + seq(newCap - cap, _ => Zeroed());
      ExtendZeroed(entries, chains, bigger);
      CountZeroed(entries, bigger);
      entries, cap := bigger, newCap;
      return true;
    }

    /** Takes the first free cell for `key` and links it behind `last`. */
    method LinkCell(last: nat, key: Key, value: Ptr)
      requires Valid() && At(key) == None && ChainEnd(last, key) && freeCur < cap && Room()
      modifies this`len, this`freeCur, this`entries, this`chains
      ensures Valid() && forall k :: At(k) == if k == key then Some(value) else old(At(k))
      ensures len == old(len) + 1 && freeCur == old(freeCur) + 1
    {
      AppendCell(entries, chains, last, key, value);
      var taken := entries[freeCur := Entry(Some(key), value, 0)];
      CountUpdate(entries, freeCur, Entry(Some(key), value, 0));
      CountUpdate(taken, last, entries[last].(next := freeCur));
      entries := taken[last := entries[last].(next := freeCur)];
      chains := chains.Link(last).Hold(key, freeCur);
      freeCur, len := freeCur + 1, len + 1;
    }

    /** hash_bucket_append: links a new cell behind `last`, growing if need be. */
    method Append(last: nat, key: Key, value: Ptr) returns (ok: bool)
      requires Valid() && At(key) == None && ChainEnd(last, key) && Room()
      modifies this
      ensures Valid() && bucketsNo == old(bucketsNo)
      ensures ok <==> !(old(freeCur) == old(cap) && 1431655766 <= old(cap))
      ensures forall k :: At(k) == if ok && k == key then Some(value) else old(At(k))
      ensures len == if ok then old(len) + 1 else old(len)
      ensures freeCur <= old(freeCur) + 1
      ensures cap == old(cap) || (old(freeCur) == old(cap) && cap == old(cap) * 3 / 2)
    {
      if freeCur >= cap {
        ok := Grow();
        if !ok {
          return;
        }
        PrimeFacts(bucketsNo);
      }
      LinkCell(last, key, value);
      ok := true;
    }

    /** Puts `key` into hole i of its bucket. */
    method FillCell(i: nat, key: Key, value: Ptr)
      requires Valid() && At(key) == None && Hole(i, key) && Room()
      modifies this`len, this`entries, this`chains
      ensures Valid() && forall k :: At(k) == if k == key then Some(value) else old(At(k))
      ensures len == old(len) + 1
    {
      FillHole(entries, chains, i, key, value);
      CountUpdate(entries, i, Entry(Some(key), value, entries[i].next));
      entries := entries[i := Entry(Some(key), value, entries[i].next)];
      chains := chains.Hold(key, i);
      len := len + 1;
    }

    /** Overwrites the value of cell i, which holds `key`. */
    method Overwrite(i: nat, ghost key: Key, value: Ptr)
      requires Valid() && chains.pos(key) == Some(i)
      modifies this`entries
      ensures Valid() && forall k :: At(k) == if k == key then Some(value) else old(At(k))
    {
      UpdateValue(entries, chains, key, value);
      CountUpdate(entries, i, entries[i].(value := value));
      entries := entries[i := entries[i].(value := value)];
    }

    /** dicey_hashtable_remove on a non-null table and key. */
    method RemoveKey(key: Key) returns (value: Ptr)
      requires Valid()
      modifies this`len, this`entries, this`chains
      ensures Valid() && forall k :: At(k) == if k == key then None else old(At(k))
      ensures value == if old(At(key)).Some? then old(At(key)).value else NULL
      ensures len == if old(At(key)).Some? then old(len) - 1 else old(len)
    {
      var found, _, _ := Locate(key);
      if found == None {
        return NULL;
      }
      var i := found.value;
      value := entries[i].value;
      ClearCell(entries, chains, key);
      CountUpdate(entries, i, Entry(None, NULL, entries[i].next));
      entries := entries[i := Entry(None, NULL, entries[i].next)];
      chains := chains.Drop(key);
      len := len - 1;
    }

    /** dicey_hashtable_get_entry on a non-null table and key. */
    method GetEntry(key: Key) returns (value: Ptr)
      requires Valid()
      ensures value == if At(key).Some? then At(key).value else NULL
    {
      var found, _, _ := Locate(key);
      value := if found.Some? then entries[found.value].value else NULL;
    }
  }

  // --------------------------------------------------------------------- set

  /** hash_set.  A new key stays within the bucket count, or moves all keys to a
      table with the next one; it fails exactly when its bucket has no hole and
      growth is refused. */
  method HashSet(table: Table, key: Key, value: Ptr) returns (res: SetResult, oldValue: Ptr, table': Table)
    requires table.Valid()
    modifies table
    ensures table'.Valid() && (table' == table || fresh(table'))
    ensures forall k :: table'.At(k) == if res != Failed && k == key then Some(value) else old(table.At(k))
    ensures res == Updated <==> old(table.At(key)).Some?
    ensures oldValue == if res == Updated then old(table.At(key)).value else NULL
    ensures table'.len == if res == Added then old(table.len) + 1 else old(table.len)
    ensures old(table.At(key)).Some? ==> table' == table && unchanged(table`cap, table`freeCur, table`bucketsNo)
    ensures old(table.At(key)) == None ==> Inserted(table, key, res, table')
    decreases TOP - table.bucketsNo, 3
  {
    var existing, firstFree, bucketEnd := table.Locate(key);
    if existing.Some? {
      oldValue := table.entries[existing.value].value;
      table.Overwrite(existing.value, key, value);
      return Updated, oldValue, table;
    }
    oldValue := NULL;
    res, table' := Insert(table, firstFree, bucketEnd, key, value);
  }

  /** The outcome of inserting an absent key. */
  twostate predicate Inserted(table: Table, key: Key, res: SetResult, new table': Table)
    requires old(table.Valid())
    reads table'
  {
    && res != Updated
    && table'.len == (if res == Added then old(table.len) + 1 else old(table.len))
    && if Overloaded(old(table.len) + 1, old(table.bucketsNo)) then
         && res == Added && table'.bucketsNo == old(table.bucketsNo) + 1
         && table'.freeCur <= Prime(table'.bucketsNo) + table'.len
       else
         && (res == Failed <==> old(table.Stuck(key)))
         && table'.bucketsNo == old(table.bucketsNo)
         && table'.freeCur <= old(table.freeCur) + 1
         && (table'.cap == old(table.cap)
             || (old(table.freeCur) == old(table.cap) && table'.cap == old(table.cap) * 3 / 2))
  }

  /** hash_set once the key is known to be absent. */
  method Insert(table: Table, firstFree: Option<nat>, bucketEnd: nat, key: Key, value: Ptr)
    returns (res: SetResult, table': Table)
    requires table.Valid() && table.At(key) == None && table.ChainEnd(bucketEnd, key)
    requires firstFree.Some? ==> table.Hole(firstFree.value, key)
    requires firstFree == None <==> BucketFull(table.entries, table.chains, table.chains.home(key))
    modifies table
    ensures table'.Valid() && (table' == table || fresh(table'))
    ensures forall k :: table'.At(k) == if res != Failed && k == key then Some(value) else old(table.At(k))
    ensures Inserted(table, key, res, table')
    decreases TOP - table.bucketsNo, 2
  {
    table' := table;
    var over := NeedsRehash(table.len, table.bucketsNo);
    if over {
      table' := RehashAndSetNew(table, key, value);
      res := Added;
    } else {
      res := InsertHere(table, firstFree, bucketEnd, key, value);
    }
  }

  /** Insertion within the bucket count: into the first hole of the bucket, or
      else into a new cell. */
  method InsertHere(table: Table, firstFree: Option<nat>, bucketEnd: nat, key: Key, value: Ptr)
    returns (res: SetResult)
    requires table.Valid() && table.At(key) == None && table.ChainEnd(bucketEnd, key) && table.Room()
    requires firstFree.Some? ==> table.Hole(firstFree.value, key)
    requires firstFree == None <==> BucketFull(table.entries, table.chains, table.chains.home(key))
    requires !Overloaded(table.len + 1, table.bucketsNo)
    modifies table
    ensures table.Valid() && Inserted(table, key, res, table)
    ensures forall k :: table.At(k) == if res != Failed && k == key then Some(value) else old(table.At(k))
  {
    if firstFree.Some? {
      table.FillCell(firstFree.value, key, value);
      res := Added;
    } else {
      var ok := table.Append(bucketEnd, key, value);
      res := if ok then Added else Failed;
    }
  }

  /** One hash_set into the table being filled by a rehash from Prime(i) buckets
      and `len` keys: it neither rehashes, updates nor fails. */
  method MoveOne(i: nat, len: nat, table: Table, key: Key, value: Ptr) returns (table': Table)
    requires i < TOP && 100 * len < 75 * Prime(i)
    requires table.Valid() && table.bucketsNo == i + 1 && table.At(key) == None && table.len <= len
    requires table.freeCur <= Prime(i + 1) + table.len && table.cap <= 300_000_000
    modifies table
    ensures table'.Valid() && (table' == table || fresh(table'))
    ensures forall k :: table'.At(k) == if k == key then Some(value) else old(table.At(k))
    ensures table'.bucketsNo == i + 1 && table'.len == old(table.len) + 1
    ensures table'.freeCur <= Prime(i + 1) + table'.len && table'.cap <= 300_000_000
    decreases TOP - i, 0, 0
  {
    PrimeFacts(i);
    PrimeFacts(i + 1);
    NextPrimeHasRoom(i, len, table.len);
    var res, _, next := HashSet(table, key, value);
    assert res == Added;
    table' := next;
  }

  /** What the first n cells hold for a key. */
  ghost function Passed(cells: seq<Entry<Key>>, c: Chains<Key>, n: nat, k: Key): Option<Ptr>
    requires Keyed(cells, c) && n <= |cells|
  {
    if c.pos(k).Some? && c.pos(k).value < n then Value(cells, c, k) else None
  }

  lemma {:induction false} PassedNext(cells: seq<Entry<Key>>, c: Chains<Key>, i: nat)
    requires Keyed(cells, c) && i < |cells|
    ensures forall k :: Passed(cells, c, i + 1, k) ==
                        if cells[i].key == Some(k) then Some(cells[i].value) else Passed(cells, c, i, k)
    ensures cells[i].key.Some? ==> Passed(cells, c, i, cells[i].key.value) == None
  {
    CellStep(cells, c, i);
  }

  /** The state of a rehash of `cells` that has passed the first n cells. */
  ghost predicate Refilled(cells: seq<Entry<Key>>, c: Chains<Key>, n: nat, table: Table, i: nat)
    requires Keyed(cells, c) && n <= |cells|
    reads table
  {
    && table.Valid() && table.bucketsNo == i
    && (forall k :: table.At(k) == Passed(cells, c, n, k))
    && table.len == Count(cells[..n])
    && table.freeCur <= Prime(i) + table.len && table.cap <= 300_000_000
  }

  method StartRefill(table: Table) returns (table': Table)
    requires table.Valid() && table.bucketsNo < TOP
    ensures fresh(table') && Refilled(table.entries, table.chains, 0, table', table.bucketsNo + 1)
  {
    PrimeFacts(table.bucketsNo + 1);
    table' := new Table(table.bucketsNo + 1);
  }

  /** The loop of hash_rehash_and_set_new: every live entry goes to a table with
      the next bucket count. */
  method MoveAll(table: Table) returns (table': Table)
    requires table.Valid() && table.bucketsNo < TOP
    ensures fresh(table') && Refilled(table.entries, table.chains, table.cap, table', table.bucketsNo + 1)
    decreases TOP - table.bucketsNo, 0, 3
  {
    table' := StartRefill(table);
    for i := 0 to table.cap
      invariant fresh(table') && Refilled(table.entries, table.chains, i, table', table.bucketsNo + 1)
    {
      table' := MoveCell(table, i, table');
    }
  }

  /** Cell i holds the one key that lives there, and counts for one. */
  lemma {:induction false} CellStep(cells: seq<Entry<Key>>, c: Chains<Key>, i: nat)
    requires Keyed(cells, c) && i < |cells|
    ensures forall k {:trigger c.pos(k)} :: c.pos(k) == Some(i) <==> cells[i].key == Some(k)
    ensures cells[i].key.Some? ==> c.pos(cells[i].key.value) == Some(i)
    ensures Count(cells[..i + 1]) == Count(cells[..i]) + if cells[i].key.Some? then 1 else 0
    ensures Count(cells[..i + 1]) <= Count(cells)
  {
    assert cells[..i + 1][..i] == cells[..i];
    CountPrefix(cells, i + 1);
    if cells[i].key.Some? {
      assert Live(cells, i);
    }
  }

  /** An empty cell adds nothing. */
  lemma {:induction false} SkipCell(table: Table, i: nat, target: Table)
    requires table.Valid() && i < table.cap && table.entries[i].key == None
    requires Refilled(table.entries, table.chains, i, target, table.bucketsNo + 1)
    ensures Refilled(table.entries, table.chains, i + 1, target, table.bucketsNo + 1)
  {
    CellStep(table.entries, table.chains, i);
    PassedNext(table.entries, table.chains, i);
  }

  /** One round of that loop. */
  method MoveCell(table: Table, i: nat, target: Table) returns (table': Table)
    requires table.Valid() && table.bucketsNo < TOP && i < table.cap && target != table
    requires Refilled(table.entries, table.chains, i, target, table.bucketsNo + 1)
    modifies target
    ensures table' == target || fresh(table')
    ensures Refilled(table.entries, table.chains, i + 1, table', table.bucketsNo + 1)
    decreases TOP - table.bucketsNo, 0, 2
  {
    if table.entries[i].key.Some? {
      table' := MoveLive(table, i, target);
    } else {
      SkipCell(table, i, target);
      table' := target;
    }
  }

  method MoveLive(table: Table, i: nat, target: Table) returns (table': Table)
    requires table.Valid() && table.bucketsNo < TOP && i < table.cap && target != table
    requires table.entries[i].key.Some? && Refilled(table.entries, table.chains, i, target, table.bucketsNo + 1)
    modifies target
    ensures table' == target || fresh(table')
    ensures Refilled(table.entries, table.chains, i + 1, table', table.bucketsNo + 1)
    decreases TOP - table.bucketsNo, 0, 1
  {
    var entry := table.entries[i];
    CellStep(table.entries, table.chains, i);
    PassedNext(table.entries, table.chains, i);
    table' := MoveOne(table.bucketsNo, table.len, target, entry.key.value, entry.value);
  }

  /** A refilled table represents what the old one did. */
  lemma {:induction false} RefilledAll(table: Table, table': Table)
    requires table.Valid() && Refilled(table.entries, table.chains, table.cap, table', table.bucketsNo + 1)
    ensures forall k :: table'.At(k) == table.At(k)
    ensures table'.len == table.len
  {
    assert table.entries[..table.cap] == table.entries;
  }

  /** hash_rehash_and_set_new. */
  method RehashAndSetNew(table: Table, key: Key, value: Ptr) returns (table': Table)
    requires table.Valid() && table.bucketsNo < TOP && table.At(key) == None
    ensures table'.Valid() && fresh(table')
    ensures forall k :: table'.At(k) == if k == key then Some(value) else table.At(k)
    ensures table'.bucketsNo == table.bucketsNo + 1 && table'.len == table.len + 1
    ensures table'.freeCur <= Prime(table'.bucketsNo) + table'.len
    decreases TOP - table.bucketsNo, 1
  {
    table' := MoveAll(table);
    table' := SetNew(table, table', key, value);
  }

  /** The new key goes into the refilled table. */
  method SetNew(table: Table, filled: Table, key: Key, value: Ptr) returns (table': Table)
    requires table.Valid() && table.bucketsNo < TOP && table.At(key) == None && filled != table
    requires Refilled(table.entries, table.chains, table.cap, filled, table.bucketsNo + 1)
    modifies filled
    ensures table'.Valid() && (table' == filled || fresh(table'))
    ensures forall k :: table'.At(k) == if k == key then Some(value) else table.At(k)
    ensures table'.bucketsNo == table.bucketsNo + 1 && table'.len == table.len + 1
    ensures table'.freeCur <= Prime(table'.bucketsNo) + table'.len
    decreases TOP - table.bucketsNo, 0, 1
  {
    RefilledAll(table, filled);
    table' := MoveOne(table.bucketsNo, table.len, filled, key, value);
  }
}
