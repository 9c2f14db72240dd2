/**
 * A hash table with byte-block keys, division-method hashing and chaining.
 * The slot count runs through a fixed table of primes; before an insertion
 * the table grows to the next prime while the load (elements per slot)
 * exceeds the bound alpha, until the last prime is reached.
 *
 * Each slot holds the (key, element) pairs of its chain, head first; the
 * chain operations used here (search by key, delete a node, prepend a new
 * node) act on those pairs as the linked-list module proves. The abstract
 * state is the ghost map `M` from keys to elements.
 */
module HtDivUint32 {
  import opened Base
  import Dll
  import UtilitiesMod

  type Key = seq<byte>

  /** The slot counts, increasing and roughly doubling. */
  const PRIMES: seq<nat> := [1543, 3119, 6211,
                             12343, 23981, 48673,
                             88843, 186581, 377369,
                             786551, 1483331, 3219497,
                             6278177, 12538919, 25166719,
                             51331771, 112663669, 211326637,
                             412653239, 785367311, 1611612763,
                             3221225479]
  const PRIMES_COUNT: nat := 22

  /** Every slot count is positive and fits in 32 bits. */
  lemma PrimeBounds(i: nat)
    requires i < PRIMES_COUNT
    ensures |PRIMES| == PRIMES_COUNT && 0 < PRIMES[i] < HALF
  {
  }

  /** The slot of a key in a table of `count` slots: the key's little-endian value mod count. */
  function Hash(key: Key, count: nat): (ix: nat)
    requires count > 0
    ensures ix < count
  {
    UtilitiesMod.LeValue(key) % count
  }

  /** The element stored with `key` in a chain, looking from the head. */
  function Find<E>(c: seq<(Key, E)>, key: Key): Option<E>
  {
    if c == [] then None
    else if c[0].0 == key then Some(c[0].1)
    else Find(c[1..], key)
  }

  /** The element a map holds for `key`, if any. */
  function Lookup<E>(m: map<Key, E>, key: Key): Option<E>
  {
    if key in m then Some(m[key]) else None
  }

  /** No key occurs twice in a chain. */
  ghost predicate DistinctKeys<E>(c: seq<(Key, E)>)
  {
    forall i, j :: 0 <= i < j < |c| ==> c[i].0 != c[j].0
  }

  /** Chain b holds only keys that hash to b, each once. */
  ghost predicate ChainOk<E>(c: seq<(Key, E)>, b: nat, count: nat)
    requires count > 0
  {
    (forall j :: 0 <= j < |c| ==> Hash(c[j].0, count) == b) && DistinctKeys(c)
  }

  /**
   * The chains `t` of a table with `count` slots represent the map m: every
   * chain is well placed, and searching a key's chain finds what m holds.
   */
  ghost predicate TableOk<E>(t: seq<seq<(Key, E)>>, count: nat, m: map<Key, E>)
  {
    count > 0 && |t| == count &&
    (forall b :: 0 <= b < count ==> ChainOk(t[b], b, count)) &&
    (forall key :: Find(t[Hash(key, count)], key) == Lookup(m, key))
  }

  /** Searching a chain for a key (as the list's key search does) finds the element Find gives. */
  lemma {:induction false} FindIsSearch<E>(c: seq<(Key, E)>, key: Key)
    ensures Find(c, key) == if Dll.KeyIndex(c, key) < |c| then Some(c[Dll.KeyIndex(c, key)].1) else None
  {
    if c != [] && c[0].0 != key {
      FindIsSearch(c[1..], key);
    }
  }

  /** A key that Find misses occurs nowhere in the chain. */
  lemma {:induction false} FindNone<E>(c: seq<(Key, E)>, key: Key)
    requires Find(c, key) == None
    ensures forall j :: 0 <= j < |c| ==> c[j].0 != key
  {
    if c != [] {
      FindNone(c[1..], key);
      assert forall j :: 1 <= j < |c| ==> c[j] == c[1..][j - 1];
    }
  }

  /** Dropping the first occurrence of a key from a chain of distinct keys hides that key only. */
  lemma {:induction false} FindRemoveAt<E>(c: seq<(Key, E)>, j: nat, key: Key)
    requires DistinctKeys(c) && j < |c|
    ensures Find(Dll.RemoveAt(c, j), key) == if key == c[j].0 then None else Find(c, key)
  {
    var r := Dll.RemoveAt(c, j);
    if j == 0 {
      assert r == c[1..];
      if key == c[0].0 {
        FindMissing(c[1..], key);
      }
    } else {
      assert r[1..] == Dll.RemoveAt(c[1..], j - 1);
      assert DistinctKeys(c[1..]);
      FindRemoveAt(c[1..], j - 1, key);
    }
  }

  /** A key absent from a chain is not found in it. */
  lemma {:induction false} FindMissing<E>(c: seq<(Key, E)>, key: Key)
    requires forall j :: 0 <= j < |c| ==> c[j].0 != key
    ensures Find(c, key) == None
  {
    if c != [] {
      FindMissing(c[1..], key);
    }
  }

  /** Dropping a pair keeps a chain well placed and its keys distinct. */
  lemma ChainRemoveAt<E>(c: seq<(Key, E)>, j: nat, b: nat, count: nat)
    requires count > 0 && j < |c| && ChainOk(c, b, count)
    ensures ChainOk(Dll.RemoveAt(c, j), b, count)
  {
    var r := Dll.RemoveAt(c, j);
    forall x, y | 0 <= x < y < |r|
      ensures r[x].0 != r[y].0
    {
      var x', y' := if x < j then x else x + 1, if y < j then y else y + 1;
      assert r[x] == c[x'] && r[y] == c[y'];
    }
  }

  /** Prepending a new key to its chain adds it to the represented map. */
  lemma TablePrepend<E>(t: seq<seq<(Key, E)>>, count: nat, m: map<Key, E>, key: Key, elt: E)
    requires TableOk(t, count, m) && key !in m
    ensures TableOk(t[Hash(key, count) := [(key, elt)] + t[Hash(key, count)]], count, m[key := elt])
  {
    var ix := Hash(key, count);
    var c := t[ix];
    var t' := t[ix := [(key, elt)] + c];
    assert Find(c, key) == None;
    FindNone(c, key);
    assert ([(key, elt)] + c)[1..] == c;
    forall k
      ensures Find(t'[Hash(k, count)], k) == Lookup(m[key := elt], k)
    {
      assert Find(t[Hash(k, count)], k) == Lookup(m, k);
    }
    assert ChainOk(t'[ix], ix, count) by {
      forall i, j | 0 <= i < j < |c| + 1
        ensures t'[ix][i].0 != t'[ix][j].0
      {
        assert t'[ix][j] == c[j - 1];
        if i > 0 {
          assert t'[ix][i] == c[i - 1];
        }
      }
    }
  }

  /**
   * Deleting the node of a present key from its chain removes the key from
   * the represented map; the node held the key's element.
   */
  lemma TableRemove<E>(t: seq<seq<(Key, E)>>, count: nat, m: map<Key, E>, key: Key, ix: nat, j: nat)
    requires TableOk(t, count, m) && ix == Hash(key, count)
    requires j == Dll.KeyIndex(t[ix], key) < |t[ix]|
    ensures key in m && m[key] == t[ix][j].1
    ensures TableOk(t[ix := Dll.RemoveAt(t[ix], j)], count, m - {key})
  {
    var c := t[ix];
    var t' := t[ix := Dll.RemoveAt(c, j)];
    FindIsSearch(c, key);
    assert Find(t[ix], key) == Lookup(m, key);
    ChainRemoveAt(c, j, ix, count);
    forall k
      ensures Find(t'[Hash(k, count)], k) == Lookup(m - {key}, k)
    {
      assert Find(t[Hash(k, count)], k) == Lookup(m, k);
      if Hash(k, count) == ix {
        FindRemoveAt(c, j, k);
      }
    }
  }

  /** A table whose chains are all empty represents the empty map. */
  lemma EmptyTable<E>(t: seq<seq<(Key, E)>>, count: nat, m: map<Key, E>)
    requires TableOk(t, count, m)
    requires forall b :: 0 <= b < |t| ==> t[b] == []
    ensures m == map[]
  {
    forall key
      ensures key !in m
    {
      assert Find(t[Hash(key, count)], key) == Lookup(m, key);
    }
    assert m.Keys == {};
  }

  /** Empty chains represent the empty map. */
  lemma EmptyChainsOk<E>(t: seq<seq<(Key, E)>>, count: nat)
    requires count > 0 && |t| == count && forall b :: 0 <= b < count ==> t[b] == []
    ensures TableOk(t, count, map[])
  {
    forall key
      ensures Find(t[Hash(key, count)], key) == Lookup(map[], key)
    {
    }
  }

  /** Moving a key from one of two disjoint maps to the other keeps them disjoint and their union. */
  lemma MoveKey<E>(done: map<Key, E>, rest: map<Key, E>, key: Key)
    requires done.Keys !! rest.Keys && key in rest
    ensures key !in done
    ensures done[key := rest[key]].Keys !! (rest - {key}).Keys
    ensures done[key := rest[key]] + (rest - {key}) == done + rest
  {
  }

  /** The elements of all chains, slot by slot, head first. */
  function AllElts<E>(t: seq<seq<(Key, E)>>): seq<E>
  {
    if t == [] then [] else AllElts(t[..|t| - 1]) + Dll.Elts(t[|t| - 1])
  }

  /** Every element found in some chain is among all the elements. */
  lemma {:induction false} FoundInAllElts<E>(t: seq<seq<(Key, E)>>, b: nat, key: Key, v: E)
    requires b < |t| && Find(t[b], key) == Some(v)
    ensures v in AllElts(t)
  {
    FoundInChain(t[b], key, v);
    if b < |t| - 1 {
      assert t[..|t| - 1][b] == t[b];
      FoundInAllElts(t[..|t| - 1], b, key, v);
    }
  }

  lemma {:induction false} FoundInChain<E>(c: seq<(Key, E)>, key: Key, v: E)
    requires Find(c, key) == Some(v)
    ensures v in Dll.Elts(c)
  {
    if c[0].0 != key {
      FoundInChain(c[1..], key, v);
      assert Dll.Elts(c[1..]) == Dll.Elts(c)[1..];
    } else {
      assert Dll.Elts(c)[0] == v;
    }
  }

  class HtDivUint32<E> {
    var countIx: nat
    var count: nat
    var numElts: nat
    /** The load-factor bound alpha, as the fraction alphaN / alphaD. */
    const alphaN: nat
    const alphaD: nat
    var keyElts: array<seq<(Key, E)>>
    ghost var M: map<Key, E>

    ghost predicate Valid()
      reads this, keyElts
    {
      countIx < PRIMES_COUNT && count == PRIMES[countIx] && keyElts.Length == count &&
      alphaN > 0 && alphaD > 0 &&
      numElts == |M| &&
      TableOk(keyElts[..], count, M)
    }

    /** ht_div_uint32_init: the first prime's count of empty slots, and no elements. */
    constructor (alphaN: nat, alphaD: nat)
      requires alphaN > 0 && alphaD > 0
      ensures Valid() && fresh(keyElts)
      ensures M == map[] && numElts == 0 && countIx == 0 && count == 1543
      ensures this.alphaN == alphaN && this.alphaD == alphaD
    {
      countIx := 0;
      count := PRIMES[0];
      numElts := 0;
      this.alphaN := alphaN;
      this.alphaD := alphaD;
      var a := new seq<(Key, E)>[PRIMES[0]](_ => []);
      keyElts := a;
      M := map[];
      EmptyChainsOk(a[..], PRIMES[0]);
    }

    /** The table's slot for a key, computed as the byte block's value mod count. */
    method HashIndex(key: Key) returns (ix: nat)
      requires Valid()
      ensures ix == Hash(key, count) && ix < count
    {
      PrimeBounds(countIx);
      ix := UtilitiesMod.MemMod(key, count);
    }

    /** ht_div_uint32_search: the element associated with the key, or None. */
    method Search(key: Key) returns (r: Option<E>)
      requires Valid()
      ensures r == Lookup(M, key)
    {
      var ix := HashIndex(key);
      var c := keyElts[ix];
      var i := Dll.KeyIndex(c, key);
      r := if i < |c| then Some(c[i].1) else None;
      FindIsSearch(c, key);
    }

    /**
     * copy_reinsert: prepends a copy of a pair to its chain without
     * searching; the key must not be in the table.
     */
    method CopyReinsert(key: Key, elt: E)
      requires Valid() && key !in M
      modifies this, keyElts
      ensures Valid() && keyElts == old(keyElts)
      ensures countIx == old(countIx) && count == old(count)
      ensures M == old(M)[key := elt] && numElts == old(numElts) + 1
    {
      var ix := HashIndex(key);
      TablePrepend(keyElts[..], count, M, key, elt);
      keyElts[ix] := [(key, elt)] + keyElts[ix];
      numElts := numElts + 1;
      M := M[key := elt];
    }

    /**
     * ht_grow: moves every pair into a table of the next prime's size,
     * emptying the old chains head first; at the last prime nothing changes.
     */
    method Grow()
      requires Valid()
      modifies this, keyElts
      ensures Valid() && (keyElts == old(keyElts) || fresh(keyElts))
      ensures M == old(M) && numElts == old(numElts)
      ensures old(countIx) == PRIMES_COUNT - 1 ==> countIx == old(countIx)
      ensures old(countIx) < PRIMES_COUNT - 1 ==> countIx == old(countIx) + 1
    {
      if countIx == PRIMES_COUNT - 1 {
        return;
      }
      var prev := keyElts;
      ghost var rest := M;
      countIx := countIx + 1;
      PrimeBounds(countIx);
      count := PRIMES[countIx];
      numElts := 0;
      keyElts := new seq<(Key, E)>[count](_ => []);
      M := map[];
      EmptyChainsOk(keyElts[..], count);
      MoveChains(prev, rest);
    }

    /** The outer loop of ht_grow: empties the old chains in slot order into this table. */
    method MoveChains(prev: array<seq<(Key, E)>>, ghost rest: map<Key, E>)
      requires Valid() && prev != keyElts
      requires TableOk(prev[..], prev.Length, rest) && M.Keys !! rest.Keys
      modifies this, keyElts, prev
      ensures Valid() && keyElts == old(keyElts) && countIx == old(countIx) && count == old(count)
      ensures M == old(M) + rest
    {
      ghost var left := rest;
      for i := 0 to prev.Length
        invariant Valid() && keyElts == old(keyElts) && countIx == old(countIx) && count == old(count)
        invariant TableOk(prev[..], prev.Length, left)
        invariant M.Keys !! left.Keys && M + left == old(M) + rest
        invariant forall b :: 0 <= b < i ==> prev[b] == []
      {
        left := MoveChain(prev, i, left);
      }
      EmptyTable(prev[..], prev.Length, left);
    }

    /**
     * The inner loop of ht_grow: reinserts the pairs of old chain i, head
     * first, deleting each from the old chain, until the chain is empty.
     */
    method MoveChain(prev: array<seq<(Key, E)>>, i: nat, ghost rest: map<Key, E>) returns (ghost rest': map<Key, E>)
      requires Valid() && prev != keyElts && i < prev.Length
      requires TableOk(prev[..], prev.Length, rest) && M.Keys !! rest.Keys
      modifies this, keyElts, prev
      ensures Valid() && keyElts == old(keyElts) && countIx == old(countIx) && count == old(count)
      ensures TableOk(prev[..], prev.Length, rest') && M.Keys !! rest'.Keys && M + rest' == old(M) + rest
      ensures prev[i] == [] && forall b :: 0 <= b < prev.Length && b != i ==> prev[b] == old(prev[b])
    {
      rest' := rest;
      while prev[i] != []
        invariant Valid() && keyElts == old(keyElts) && countIx == old(countIx) && count == old(count)
        invariant TableOk(prev[..], prev.Length, rest') && M.Keys !! rest'.Keys && M + rest' == old(M) + rest
        invariant forall b :: 0 <= b < prev.Length && b != i ==> prev[b] == old(prev[b])
        decreases |prev[i]|
      {
        var key, elt := prev[i][0].0, prev[i][0].1;
        ghost var t := prev[..];
        assert Hash(key, prev.Length) == i;
        assert Dll.KeyIndex(t[i], key) == 0;
        TableRemove(t, prev.Length, rest', key, i, 0);
        MoveKey(M, rest', key);
        CopyReinsert(key, elt);
        prev[i] := Dll.RemoveAt(prev[i], 0);
        assert prev[..] == t[i := Dll.RemoveAt(t[i], 0)];
        rest' := rest' - {key};
      }
    }

    /**
     * ht_div_uint32_insert: first grows while the load exceeds alpha and a
     * larger prime remains; then a new key is prepended to its chain, and an
     * existing key's node is deleted, its element handed to the element
     * destructor when there is one, and a new node prepended.
     */
    method Insert(key: Key, elt: E, hasFreeElt: bool) returns (freed: seq<E>)
      requires Valid()
      modifies this, keyElts
      ensures Valid() && (keyElts == old(keyElts) || fresh(keyElts))
      ensures M == old(M)[key := elt]
      ensures freed == if hasFreeElt && key in old(M) then [old(M)[key]] else []
      ensures numElts == if key in old(M) then old(numElts) else old(numElts) + 1
      ensures old(countIx) <= countIx
      ensures old(numElts) * alphaD <= alphaN * old(count) ==> countIx == old(countIx)
      ensures old(numElts) * alphaD <= alphaN * count || countIx == PRIMES_COUNT - 1
    {
      while numElts * alphaD > alphaN * count && countIx < PRIMES_COUNT - 1
        invariant Valid() && (keyElts == old(keyElts) || fresh(keyElts))
        invariant M == old(M) && numElts == old(numElts) && old(countIx) <= countIx
        invariant old(numElts) * alphaD <= alphaN * old(count) ==> countIx == old(countIx)
        decreases PRIMES_COUNT - countIx
      {
        Grow();
      }
      freed := Place(key, elt, hasFreeElt);
    }

    /**
     * The rest of ht_div_uint32_insert: a key not in its chain is prepended
     * to it and counted; a key in its chain has its node deleted, the old
     * element going to the element destructor when there is one, and a new
     * node prepended, and the count stays.
     */
    method Place(key: Key, elt: E, hasFreeElt: bool) returns (freed: seq<E>)
      requires Valid()
      modifies keyElts, this
      ensures Valid() && keyElts == old(keyElts) && countIx == old(countIx) && count == old(count)
      ensures M == old(M)[key := elt]
      ensures numElts == if key in old(M) then old(numElts) else old(numElts) + 1
      ensures freed == if hasFreeElt && key in old(M) then [old(M)[key]] else []
    {
      freed := [];
      var ix := HashIndex(key);
      var c := keyElts[ix];
      var j := Dll.KeyIndex(c, key);
      if j == |c| {
        FindIsSearch(c, key);
        TablePrepend(keyElts[..], count, M, key, elt);
        keyElts[ix] := [(key, elt)] + c;
        numElts := numElts + 1;
      } else {
        if hasFreeElt {
          freed := [c[j].1];
        }
        TableRemove(keyElts[..], count, M, key, ix, j);
        keyElts[ix] := Dll.RemoveAt(c, j);
        TablePrepend(keyElts[..], count, M - {key}, key, elt);
        keyElts[ix] := [(key, elt)] + keyElts[ix];
        assert (M - {key})[key := elt] == M[key := elt];
      }
      M := M[key := elt];
    }

    /**
     * ht_div_uint32_remove: a present key's element is copied out and its
     * node deleted; for an absent key `elt` comes back unchanged.
     */
    method Remove(key: Key, elt: E) returns (r: E)
      requires Valid()
      modifies this, keyElts
      ensures Valid() && keyElts == old(keyElts) && count == old(count)
      ensures M == old(M) - {key}
      ensures r == if key in old(M) then old(M)[key] else elt
      ensures numElts == if key in old(M) then old(numElts) - 1 else old(numElts)
    {
      r := elt;
      var ix := HashIndex(key);
      var c := keyElts[ix];
      var j := Dll.KeyIndex(c, key);
      if j < |c| {
        r := c[j].1;
        TableRemove(keyElts[..], count, M, key, ix, j);
        keyElts[ix] := Dll.RemoveAt(c, j);
        numElts := numElts - 1;
        M := M - {key};
      } else {
        FindIsSearch(c, key);
        assert Lookup(M, key) == None;
        assert M - {key} == M;
      }
    }

    /**
     * ht_div_uint32_delete: a present key's node is deleted, its element
     * handed to the element destructor when there is one.
     */
    method Delete(key: Key, hasFreeElt: bool) returns (freed: seq<E>)
      requires Valid()
      modifies this, keyElts
      ensures Valid() && keyElts == old(keyElts) && count == old(count)
      ensures M == old(M) - {key}
      ensures freed == if hasFreeElt && key in old(M) then [old(M)[key]] else []
      ensures numElts == if key in old(M) then old(numElts) - 1 else old(numElts)
    {
      freed := [];
      var ix := HashIndex(key);
      var c := keyElts[ix];
      var j := Dll.KeyIndex(c, key);
      if j < |c| {
        if hasFreeElt {
          freed := [c[j].1];
        }
        TableRemove(keyElts[..], count, M, key, ix, j);
        keyElts[ix] := Dll.RemoveAt(c, j);
        numElts := numElts - 1;
        M := M - {key};
      } else {
        FindIsSearch(c, key);
        assert Lookup(M, key) == None;
        assert M - {key} == M;
      }
    }

    /**
     * ht_div_uint32_free: frees every chain, slot by slot; with an element
     * destructor every stored element is handed to it.
     */
    method Free(hasFreeElt: bool) returns (freed: seq<E>)
      requires Valid()
      ensures !hasFreeElt ==> freed == []
      ensures hasFreeElt ==> freed == AllElts(keyElts[..])
      ensures hasFreeElt ==> forall key :: key in M ==> M[key] in freed
    {
      freed := [];
      for i := 0 to count
        invariant hasFreeElt ==> freed == AllElts(keyElts[..i])
        invariant !hasFreeElt ==> freed == []
      {
        if hasFreeElt {
          assert keyElts[..i + 1][..i] == keyElts[..i];
          freed := freed + Dll.Elts(keyElts[i]);
        }
      }
      assert keyElts[..count] == keyElts[..];
      forall key | key in M && hasFreeElt
        ensures M[key] in freed
      {
        assert Find(keyElts[..][Hash(key, count)], key) == Lookup(M, key);
        FoundInAllElts(keyElts[..], Hash(key, count), key, M[key]);
      }
    }
  }

  /**
   * The corner-case scenario: with alpha = 0.001, inserting one key 100000
   * times (element i on the i-th insertion) never grows the table and keeps
   * one element, the last one inserted.
   */
  method ReinsertOneKey(key: Key) returns (t: HtDivUint32<nat>)
    ensures fresh(t) && fresh(t.keyElts) && t.Valid()
    ensures t.countIx == 0 && t.count == 1543 && t.numElts == 1
    ensures t.M == map[key := 99999]
  {
    t := new HtDivUint32<nat>(1, 1000);
    for i := 0 to 100000
      invariant t.Valid() && fresh(t.keyElts)
      invariant t.countIx == 0 && t.alphaN == 1 && t.alphaD == 1000
      invariant t.M == if i == 0 then map[] else map[key := i - 1]
    {
      var freed := t.Insert(key, i, false);
    }
  }

  /**
   * The rest of the corner-case scenario: searching finds the last element,
   * and deleting the key then leaves an empty table of the same size.
   */
  method ReinsertThenDelete(key: Key) returns (found: Option<nat>, countAfterDelete: nat,
                                               numAfterDelete: nat, foundAfterDelete: Option<nat>)
    ensures found == Some(99999)
    ensures countAfterDelete == 1543 && numAfterDelete == 0 && foundAfterDelete == None
  {
    var t := ReinsertOneKey(key);
    found := t.Search(key);
    var freed := t.Delete(key, false);
    countAfterDelete := t.count;
    numAfterDelete := t.numElts;
    foundAfterDelete := t.Search(key);
  }
}
