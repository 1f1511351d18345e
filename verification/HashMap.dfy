/** The chained hash map of libds/hashmap.c refines a finite map, whatever the hash function. */
module HashMaps {
  import opened Basics
  import opened Bytes

  /** What `put` copies: a block of bytes. */
  type Value = seq<byte>

  const DEFAULT_NUM_BUCKETS := 101

  /** `item_t`. */
  class Item {
    const key: string
    var val: Value
    var next: Item?

    constructor (key: string, val: Value)
      ensures this.key == key && this.val == val && next == null
    {
      this.key, this.val, next := key, val, null;
    }
  }

  // ----- one chain -----

  /** Item `j`, or null past the end and before the start. */
  function At(chain: seq<Item>, j: int): Item? {
    if 0 <= j < |chain| then chain[j] else null
  }

  /** `chain` is what the `next` links visit from `first` on. */
  ghost predicate Linked(first: Item?, chain: seq<Item>)
    reads chain`next
  {
    first == At(chain, 0) && forall j :: 0 <= j < |chain| ==> chain[j].next == At(chain, j + 1)
  }

  ghost predicate Distinct(chain: seq<Item>) {
    forall i, j :: 0 <= i < j < |chain| ==> chain[i] != chain[j]
  }

  /** A new last item, linked by the old last one. */
  method Append(first: Item?, ghost chain: seq<Item>, last: Item?, added: Item) returns (newFirst: Item?)
    requires Linked(first, chain) && Distinct(chain) && added !in chain && added.next == null
    requires last == At(chain, |chain| - 1)
    modifies (if last == null then {} else {last})`next
    ensures Linked(newFirst, chain + [added]) && Distinct(chain + [added])
  {
    if last == null {
      newFirst := added;
    } else {
      newFirst := first;
      last.next := added;
    }
  }

  /** Item `j` is unlinked by the one before it. */
  method Unlink(first: Item?, ghost chain: seq<Item>, last: Item?, itm: Item, ghost j: nat)
    returns (newFirst: Item?)
    requires Linked(first, chain) && Distinct(chain) && j < |chain| && itm == chain[j]
    requires last == At(chain, j - 1)
    modifies (if last == null then {} else {last})`next
    ensures Linked(newFirst, chain[..j] + chain[j + 1..])
  {
    if last == null {
      newFirst := itm.next;
    } else {
      newFirst := first;
      last.next := itm.next;
    }
    ghost var rest := chain[..j] + chain[j + 1..];
    assert forall k :: 0 <= k < |rest| ==> rest[k] == chain[if k < j then k else k + 1];
  }

  // ----- what the chains hold -----

  function Bucket(hash: string -> nat, buckets: nat, key: string): (h: nat)
    requires buckets > 0
    ensures h < buckets
  {
    hash(key) % buckets
  }

  ghost predicate Has(chain: seq<Item>, key: string) {
    exists j :: 0 <= j < |chain| && chain[j].key == key
  }

  /** Chain `h` holds exactly the entries of bucket `h`, each key once. */
  ghost predicate Fits(hash: string -> nat, buckets: nat, h: nat, chain: seq<Item>, contents: map<string, Value>)
    requires buckets > 0
    reads chain`val
  {
    && (forall j :: 0 <= j < |chain| ==> Bucket(hash, buckets, chain[j].key) == h)
    && (forall j :: 0 <= j < |chain| ==> chain[j].key in contents && contents[chain[j].key] == chain[j].val)
    && (forall i, j :: 0 <= i < j < |chain| ==> chain[i].key != chain[j].key)
    && (forall key :: key in contents && Bucket(hash, buckets, key) == h ==> Has(chain, key))
  }

  /** Every entry of `contents` sits in the chain of its own bucket. */
  ghost predicate Holds(hash: string -> nat, chains: seq<seq<Item>>, contents: map<string, Value>, items: set<Item>)
    reads items`val
  {
    && |chains| > 0
    && (forall h, itm :: 0 <= h < |chains| && itm in chains[h] ==> itm in items)
    && (forall h :: 0 <= h < |chains| ==> Fits(hash, |chains|, h, chains[h], contents))
  }

  /** An item is in the chain its key hashes to. */
  lemma InItsBucket(hash: string -> nat, chains: seq<seq<Item>>, contents: map<string, Value>, items: set<Item>,
                    h: nat, itm: Item)
    requires Holds(hash, chains, contents, items) && h < |chains| && itm in chains[h]
    ensures hash(itm.key) % |chains| == h
  {
    assert Fits(hash, |chains|, h, chains[h], contents);
  }

  /** The entries of other buckets do not matter. */
  lemma FitsOther(hash: string -> nat, buckets: nat, h: nat, chain: seq<Item>, contents: map<string, Value>,
                  values: map<string, Value>, key: string)
    requires buckets > 0 && Fits(hash, buckets, h, chain, contents) && Bucket(hash, buckets, key) != h
    requires forall k :: k != key ==> (k in contents <==> k in values) && (k in contents ==> contents[k] == values[k])
    ensures Fits(hash, buckets, h, chain, values)
  {
    hide Bucket, Has;
  }

  lemma FitsMore(hash: string -> nat, buckets: nat, chain: seq<Item>, contents: map<string, Value>, added: Item)
    requires buckets > 0 && Fits(hash, buckets, Bucket(hash, buckets, added.key), chain, contents)
    requires added.key !in contents
    ensures Fits(hash, buckets, Bucket(hash, buckets, added.key), chain + [added], contents[added.key := added.val])
  {
    hide Bucket;
    var h, more, values := Bucket(hash, buckets, added.key), chain + [added], contents[added.key := added.val];
    assert more[|chain|] == added;
    forall key | key in values && Bucket(hash, buckets, key) == h
      ensures Has(more, key)
    {
      if key != added.key {
        assert Has(chain, key);
        var j :| 0 <= j < |chain| && chain[j].key == key;
        assert more[j].key == key;
      }
    }
  }

  function Without(contents: map<string, Value>, key: string): map<string, Value> {
    contents - {key}
  }

  lemma FitsLess(hash: string -> nat, buckets: nat, h: nat, chain: seq<Item>, contents: map<string, Value>, j: nat)
    requires buckets > 0 && Fits(hash, buckets, h, chain, contents) && j < |chain|
    ensures Fits(hash, buckets, h, chain[..j] + chain[j + 1..], Without(contents, chain[j].key))
  {
    hide Bucket;
    var less, values := chain[..j] + chain[j + 1..], Without(contents, chain[j].key);
    assert forall i :: 0 <= i < |less| ==> less[i] == chain[if i < j then i else i + 1];
    forall key | key in values && Bucket(hash, buckets, key) == h
      ensures Has(less, key)
    {
      assert Has(chain, key);
      var i :| 0 <= i < |chain| && chain[i].key == key;
      assert less[if i < j then i else i - 1] == chain[i];
    }
  }

  /** An item of a chain gets a new value. */
  method SetVal(ghost hash: string -> nat, ghost buckets: nat, ghost h: nat, ghost chain: seq<Item>,
                ghost contents: map<string, Value>, itm: Item, val: Value)
    requires buckets > 0 && Fits(hash, buckets, h, chain, contents) && itm in chain
    modifies itm`val
    ensures Fits(hash, buckets, h, chain, contents[itm.key := val])
  {
    hide Bucket;
    ghost var values := contents[itm.key := val];
    itm.val := val;
    assert forall key :: key in values <==> key in contents;
  }

  function Appended(chains: seq<seq<Item>>, h: nat, itm: Item): seq<seq<Item>>
    requires h < |chains|
  {
    chains[h := chains[h] + [itm]]
  }

  function Dropped(chains: seq<seq<Item>>, h: nat, j: nat): seq<seq<Item>>
    requires h < |chains| && j < |chains[h]|
  {
    chains[h := chains[h][..j] + chains[h][j + 1..]]
  }

  /** An item of one of the chains gets a new value. */
  method SetAmong(ghost hash: string -> nat, ghost chains: seq<seq<Item>>, ghost contents: map<string, Value>,
                  ghost items: set<Item>, ghost h: nat, itm: Item, val: Value, ghost values: map<string, Value>)
    requires Holds(hash, chains, contents, items) && h < |chains| && itm in chains[h]
    requires values == contents[itm.key := val]
    modifies itm`val
    ensures Holds(hash, chains, values, items)
  {
    forall g | 0 <= g < |chains| && g != h
      ensures itm !in chains[g] && Fits(hash, |chains|, g, chains[g], values)
    {
      FitsOther(hash, |chains|, g, chains[g], contents, values, itm.key);
    }
    hide Bucket, Fits;
    SetVal(hash, |chains|, h, chains[h], contents, itm, val);
    forall g | 0 <= g < |chains|
      ensures Fits(hash, |chains|, g, chains[g], values)
    {
    }
  }

  lemma HoldsOneMore(hash: string -> nat, chains: seq<seq<Item>>, contents: map<string, Value>, items: set<Item>,
                     h: nat, added: Item)
    requires Holds(hash, chains, contents, items) && h == Bucket(hash, |chains|, added.key)
    requires added.key !in contents
    ensures Holds(hash, Appended(chains, h, added), contents[added.key := added.val], items + {added})
  {
    FitsMore(hash, |chains|, chains[h], contents, added);
    hide Bucket, Fits;
    var after, values := Appended(chains, h, added), contents[added.key := added.val];
    forall g | 0 <= g < |after|
      ensures Fits(hash, |after|, g, after[g], values)
    {
      if g != h {
        FitsOther(hash, |chains|, g, chains[g], contents, values, added.key);
      }
    }
  }

  lemma HoldsOneLess(hash: string -> nat, chains: seq<seq<Item>>, contents: map<string, Value>, items: set<Item>,
                     h: nat, j: nat)
    requires Holds(hash, chains, contents, items) && h < |chains| && j < |chains[h]|
    ensures Holds(hash, Dropped(chains, h, j), Without(contents, chains[h][j].key), items)
  {
    assert Fits(hash, |chains|, h, chains[h], contents);
    FitsLess(hash, |chains|, h, chains[h], contents, j);
    hide Bucket, Fits;
    var after, values := Dropped(chains, h, j), Without(contents, chains[h][j].key);
    forall g | 0 <= g < |after|
      ensures Fits(hash, |after|, g, after[g], values)
    {
      if g != h {
        FitsOther(hash, |chains|, g, chains[g], contents, values, chains[h][j].key);
      }
    }
  }

  function Count(contents: map<string, Value>): nat {
    |contents|
  }

  lemma CountMore(contents: map<string, Value>, key: string, val: Value)
    ensures Count(contents[key := val]) == Count(contents) + if key in contents then 0 else 1
  {
  }

  lemma CountLess(contents: map<string, Value>, key: string)
    requires key in contents
    ensures Count(Without(contents, key)) == Count(contents) - 1
  {
    assert (contents - {key}).Keys == contents.Keys - {key};
  }

  // ----- the list of keys -----

  /** The index of the first key that starts with `key`, the length of the list if none does. */
  function FirstWith(keys: seq<string>, key: string): (i: nat)
    ensures i <= |keys| && forall j :: 0 <= j < i ==> !(key <= keys[j])
    ensures i < |keys| ==> key <= keys[i]
  {
    if keys == [] || key <= keys[0] then 0 else 1 + FirstWith(keys[1..], key)
  }

  /** `vector_index` on the keys, comparing as many bytes as `key` has. */
  method IndexOf(keys: seq<string>, key: string) returns (i: int)
    ensures i == if FirstWith(keys, key) < |keys| then FirstWith(keys, key) else -1
  {
    i := 0;
    while i < |keys|
      invariant 0 <= i <= |keys| && forall j :: 0 <= j < i ==> !(key <= keys[j])
    {
      if key <= keys[i] {
        return;
      }
      i := i + 1;
    }
    i := -1;
  }

  /** The keys after a removal: the first one that starts with `key` goes. */
  function Forgotten(keys: seq<string>, key: string): seq<string> {
    var i := FirstWith(keys, key);
    if i < |keys| then keys[..i] + keys[i + 1..] else keys
  }

  /** The list names every key of the map once. */
  ghost predicate Lists(keys: seq<string>, contents: map<string, Value>) {
    && (forall i, j :: 0 <= i < j < |keys| ==> keys[i] != keys[j])
    && (forall key :: key in keys <==> key in contents)
  }

  lemma ListsOneMore(keys: seq<string>, contents: map<string, Value>, key: string, val: Value)
    requires Lists(keys, contents)
    ensures Lists(if key in contents then keys else keys + [key], contents[key := val])
  {
    if key !in contents {
      var more, values := keys + [key], contents[key := val];
      assert forall k :: k in more <==> k in keys || k == key;
    }
  }

  /** `vector_index` and `vector_remove` on the keys. */
  method Forget(keys: seq<string>, key: string) returns (less: seq<string>)
    ensures less == Forgotten(keys, key)
  {
    var i := IndexOf(keys, key);
    less := if 0 <= i then keys[..i] + keys[i + 1..] else keys;
  }

  lemma ListsWithout(keys: seq<string>, contents: map<string, Value>, i: nat)
    requires Lists(keys, contents) && i < |keys|
    ensures Lists(keys[..i] + keys[i + 1..], Without(contents, keys[i]))
  {
    var less := keys[..i] + keys[i + 1..];
    forall key
      ensures key in less <==> key in keys && key != keys[i]
    {
      if key in keys && key != keys[i] {
        var j :| 0 <= j < |keys| && keys[j] == key;
        assert less[if j < i then j else j - 1] == key;
      }
    }
  }

  lemma NotWithin(contents: map<string, Value>, key: string)
    ensures key !in Without(contents, key)
  {
  }

  /** A removal keeps the list exact precisely if no key that was put before `key` starts with it. */
  lemma ListsOneLess(keys: seq<string>, contents: map<string, Value>, key: string)
    requires Lists(keys, contents) && key in contents
    ensures Lists(Forgotten(keys, key), Without(contents, key)) <==>
      forall i, j :: 0 <= i < j < |keys| && keys[j] == key ==> !(key <= keys[i])
  {
    var i, less := FirstWith(keys, key), Forgotten(keys, key);
    var at :| 0 <= at < |keys| && keys[at] == key;
    assert i <= at;
    hide Without;
    if i == at {
      ListsWithout(keys, contents, i);
    } else {
      assert less[at - 1] == key;
      assert key !in Without(contents, key) by { NotWithin(contents, key); }
    }
  }

  // ----- the map -----

  class HashMap {
    const buckets: array<Item?>
    const hash: string -> nat
    var size: nat
    var keys: seq<string>
    ghost var contents: map<string, Value>
    ghost var chains: seq<seq<Item>>
    ghost var items: set<Item>

    ghost predicate Chained()
      reads this`chains, this`items, buckets, items`next
    {
      && |chains| == buckets.Length == DEFAULT_NUM_BUCKETS
      && (forall h, itm :: 0 <= h < |chains| && itm in chains[h] ==> itm in items)
      && (forall g, h, itm :: 0 <= g < |chains| && 0 <= h < |chains| && itm in chains[g] && itm in chains[h] ==> g == h)
      && (forall h :: 0 <= h < |chains| ==> Distinct(chains[h]) && Linked(buckets[h], chains[h]))
    }

    ghost predicate Valid()
      reads this, buckets, items
    {
      Chained() && Holds(hash, chains, contents, items) && size == Count(contents)
    }

    /** `create_hashmap`. */
    constructor (hash: string -> nat)
      ensures Valid() && fresh(buckets) && fresh(items) && contents == map[] && keys == [] && this.hash == hash
    {
      this.hash := hash;
      buckets := new Item?[DEFAULT_NUM_BUCKETS](_ => null);
      size, keys, contents, items := 0, [], map[], {};
      chains := seq(DEFAULT_NUM_BUCKETS, _ => []);
    }

    /** The walk all three operations start with: the item with the key and the one before it. */
    method Find(key: string) returns (h: nat, itm: Item?, last: Item?, ghost j: nat)
      requires Valid()
      ensures h == Bucket(hash, |chains|, key) && h < |chains| && j <= |chains[h]|
      ensures itm == At(chains[h], j) && last == At(chains[h], j - 1)
      ensures if itm != null then itm.key == key && key in contents && contents[key] == itm.val else key !in contents
    {
      h := Bucket(hash, buckets.Length, key);
      hide Bucket;
      assert Fits(hash, |chains|, h, chains[h], contents);
      ghost var chain := chains[h];
      assert Linked(buckets[h], chain);
      itm, last, j := buckets[h], null, 0;
      while itm != null
        invariant j <= |chain| && itm == At(chain, j) && last == At(chain, j - 1)
        invariant forall k :: 0 <= k < j ==> chain[k].key != key
        decreases |chain| - j
      {
        if itm.key == key {
          return;
        }
        last, itm, j := itm, itm.next, j + 1;
      }
      assert !Has(chain, key);
    }

    /** `hashmap_get`. */
    method Get(key: Option<string>) returns (val: Option<Value>)
      requires Valid()
      ensures val == if key.Some? && key.value in contents then Some(contents[key.value]) else None
    {
      if key.None? {
        return None;
      }
      var h, itm, _, _ := Find(key.value);
      val := if itm != null then Some(itm.val) else None;
    }

    /** The key is there: its item gets the new value. */
    method PutOver(h: nat, itm: Item, val: Value)
      requires Valid() && h < |chains| && itm in chains[h] && itm.key in contents
      modifies this`contents, items`val
      ensures Valid()
      ensures contents == old(contents)[itm.key := val]
    {
      assert Chained() && itm in items;
      hide Holds, Fits, Count, Chained;
      CountMore(contents, itm.key, val);
      ghost var values := contents[itm.key := val];
      SetAmong(hash, chains, contents, items, h, itm, val, values);
      contents := values;
    }

    method AppendTo(h: nat, last: Item?, added: Item)
      requires Chained() && h < |chains| && added !in items && added.next == null
      requires last == At(chains[h], |chains[h]| - 1)
      modifies this`chains, this`items, buckets, items`next
      ensures Chained() && items == old(items) + {added}
      ensures chains == Appended(old(chains), h, added)
    {
      hide Linked;
      assert last != null ==> last in chains[h];
      buckets[h] := Append(buckets[h], chains[h], last, added);
      chains, items := chains[h := chains[h] + [added]], items + {added};
    }

    /** The key is new: an item goes to the end of its chain. */
    method PutNew(key: string, val: Value, h: nat, last: Item?)
      requires Valid() && key !in contents && |chains| > 0 && h == Bucket(hash, |chains|, key)
      requires last == At(chains[h], |chains[h]| - 1)
      modifies this, buckets, items
      ensures Valid() && fresh(items - old(items))
      ensures contents == old(contents)[key := val] && keys == old(keys) + [key]
    {
      hide Bucket, Chained, Holds, Count, Appended;
      var added := new Item(key, val);
      HoldsOneMore(hash, chains, contents, items, h, added);
      CountMore(contents, key, val);
      ghost var after, values, all := Appended(chains, h, added), contents[key := val], items + {added};
      assert Holds(hash, after, values, all);
      AppendTo(h, last, added);
      assert Holds(hash, after, values, all) && chains == after && items == all;
      size, contents, keys := size + 1, values, keys + [key];
    }

    /** `hashmap_put`. */
    method Put(key: string, val: Value)
      requires Valid()
      modifies this, buckets, items
      ensures Valid() && fresh(items - old(items))
      ensures contents == old(contents)[key := val]
      ensures keys == old(keys) + if key in old(contents) then [] else [key]
    {
      var h, itm, last, j := Find(key);
      if itm != null {
        PutOver(h, itm, val);
      } else {
        PutNew(key, val, h, last);
      }
    }

    method UnlinkFrom(h: nat, last: Item?, itm: Item, ghost j: nat)
      requires Chained() && h < |chains| && j < |chains[h]| && itm == chains[h][j] && last == At(chains[h], j - 1)
      modifies this`chains, buckets, items`next
      ensures Chained() && items == old(items)
      ensures chains == Dropped(old(chains), h, j)
    {
      hide Linked;
      assert last != null ==> last in chains[h];
      buckets[h] := Unlink(buckets[h], chains[h], last, itm, j);
      chains := chains[h := chains[h][..j] + chains[h][j + 1..]];
    }

    /** The key is there: the item before it, or the bucket, links to the one behind it. */
    method RemoveFound(h: nat, itm: Item, last: Item?, ghost j: nat)
      requires Valid() && h < |chains| && j < |chains[h]| && itm == chains[h][j] && last == At(chains[h], j - 1)
      requires itm.key in contents
      modifies this, buckets, items
      ensures Valid() && items == old(items)
      ensures contents == Without(old(contents), itm.key) && keys == old(keys)
    {
      hide Bucket, Chained, Holds, Count, Dropped, Without;
      HoldsOneLess(hash, chains, contents, items, h, j);
      ghost var after, values := Dropped(chains, h, j), Without(contents, itm.key);
      ghost var all := items;
      assert Holds(hash, after, values, all);
      CountLess(contents, itm.key);
      UnlinkFrom(h, last, itm, j);
      assert Holds(hash, after, values, all) && chains == after;
      size, contents := size - 1, values;
    }

    /** `hashmap_remove`. */
    method Remove(key: string)
      requires Valid()
      modifies this, buckets, items
      ensures Valid() && items == old(items)
      ensures contents == old(contents) - {key}
      ensures keys == if key in old(contents) then Forgotten(old(keys), key) else old(keys)
    {
      hide Chained, Holds, Count, Forgotten;
      var h, itm, last, j := Find(key);
      if itm == null {
        assert contents - {key} == contents;
      } else {
        RemoveFound(h, itm, last, j);
        keys := Forget(keys, key);
      }
    }
  }

  lemma {:induction false} ForgetsTheOther()
    ensures Forgotten(["ab", "a"], "a") == ["a"]
  {
    assert "a" <= "ab";
    assert FirstWith(["ab", "a"], "a") == 0;
  }

  /** The witness for `ListsOneLess`: removing "a" from a map with "ab" leaves the name of the removed
      key in the list. */
  method RemoveShorterKey(hash: string -> nat, val: Value) returns (hm: HashMap)
    ensures hm.contents == map["ab" := val] && hm.keys == ["a"]
  {
    hm := new HashMap(hash);
    hm.Put("ab", val);
    hm.Put("a", val);
    hide Forgotten;
    hm.Remove("a");
    ForgetsTheOther();
  }
}
