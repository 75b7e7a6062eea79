// Chained hash tables (src/lib/hash.c).
module Hashing {
  import opened Wrappers
  import opened CArithmetic

  // ----- chains ---------------------------------------------------------------------

  datatype Binding<K, V> = Binding(key: K, data: V)

  type Chain<K, V> = seq<Binding<K, V>>

  // The first position from i on that binds k, or the length of the chain.
  function Position<K, V>(equal: (K, K) -> bool, c: Chain<K, V>, k: K, i: nat := 0): (p: nat)
    requires i <= |c|
    ensures i <= p <= |c| && (p < |c| ==> equal(c[p].key, k))
    ensures forall j :: i <= j < p ==> !equal(c[j].key, k)
    decreases |c| - i
  {
    if i == |c| || equal(c[i].key, k) then i else Position(equal, c, k, i + 1)
  }

  // Everything that k is bound to from position i on, newest first.
  function Bindings<K, V>(equal: (K, K) -> bool, c: Chain<K, V>, k: K, i: nat := 0): seq<V>
    requires i <= |c|
    decreases |c| - i
  {
    if i == |c| then []
    else if equal(c[i].key, k) then [c[i].data] + Bindings(equal, c, k, i + 1)
    else Bindings(equal, c, k, i + 1)
  }

  function Without<K, V>(c: Chain<K, V>, p: nat): Chain<K, V>
    requires p < |c|
  {
    c[..p] + c[p+1..]
  }

  lemma {:induction false} BindingsShift<K, V>(equal: (K, K) -> bool, c: Chain<K, V>, d: Chain<K, V>, k: K,
                                               i: nat, j: nat)
    requires i <= |c| && j <= |d| && c[i..] == d[j..]
    ensures Bindings(equal, c, k, i) == Bindings(equal, d, k, j)
    decreases |c| - i
  {
    if i < |c| {
      assert c[i] == c[i..][0] == d[j];
      assert c[i+1..] == c[i..][1..] == d[j..][1..] == d[j+1..];
      BindingsShift(equal, c, d, k, i + 1, j + 1);
    }
  }

  // The newest binding of k heads its stack.
  lemma {:induction false} BindingsFromPosition<K, V>(equal: (K, K) -> bool, c: Chain<K, V>, k: K, i: nat)
    requires i <= |c|
    ensures var p := Position(equal, c, k, i);
            Bindings(equal, c, k, i) == if p == |c| then [] else [c[p].data] + Bindings(equal, c, k, p + 1)
    decreases |c| - i
  {
    if i < |c| && !equal(c[i].key, k) {
      BindingsFromPosition(equal, c, k, i + 1);
    }
  }

  lemma {:induction false} BindingsWithout<K, V>(equal: (K, K) -> bool, c: Chain<K, V>, p: nat, k: K, i: nat)
    requires i <= p < |c|
    ensures !equal(c[p].key, k) ==> Bindings(equal, Without(c, p), k, i) == Bindings(equal, c, k, i)
    ensures equal(c[p].key, k) && (forall j :: i <= j < p ==> !equal(c[j].key, k)) ==>
              Bindings(equal, c, k, i) == [c[p].data] + Bindings(equal, Without(c, p), k, i)
    decreases p - i
  {
    if i == p {
      BindingsShift(equal, c, Without(c, p), k, p + 1, p);
    } else {
      BindingsWithout(equal, c, p, k, i + 1);
    }
  }

  lemma {:induction false} BindingsReplaced<K, V>(equal: (K, K) -> bool, c: Chain<K, V>, p: nat, data: V, k: K, i: nat)
    requires i <= p < |c|
    ensures var d := c[p := c[p].(data := data)];
            && (!equal(c[p].key, k) ==> Bindings(equal, d, k, i) == Bindings(equal, c, k, i))
            && (equal(c[p].key, k) && (forall j :: i <= j < p ==> !equal(c[j].key, k)) ==>
                  Bindings(equal, d, k, i) == [data] + Bindings(equal, c, k, p + 1))
    decreases p - i
  {
    var d := c[p := c[p].(data := data)];
    if i == p {
      BindingsShift(equal, c, d, k, p + 1, p + 1);
    } else {
      BindingsReplaced(equal, c, p, data, k, i + 1);
    }
  }

  // ----- tables ---------------------------------------------------------------------------

  function TotalLength<K, V>(chains: seq<Chain<K, V>>): nat {
    if chains == [] then 0 else TotalLength(chains[..|chains|-1]) + |chains[|chains|-1]|
  }

  lemma {:induction false} TotalLengthUpdated<K, V>(chains: seq<Chain<K, V>>, i: nat, c: Chain<K, V>)
    requires i < |chains|
    ensures TotalLength(chains[i := c]) == TotalLength(chains) - |chains[i]| + |c|
  {
    var n := |chains| - 1;
    if i < n {
      assert chains[i := c][..n] == chains[..n][i := c];
      TotalLengthUpdated(chains[..n], i, c);
    } else {
      assert chains[i := c][..n] == chains[..n];
    }
  }

  // What a caller of the C functions must provide: an equality that is an equivalence,
  // and hash codes that are not negative and the same for equal keys.
  ghost predicate GoodKeys<K(!new)>(equal: (K, K) -> bool, hashCode: (K, int) -> int, size: nat) {
    && size > 0
    && (forall a :: equal(a, a))
    && (forall a, b :: equal(a, b) ==> equal(b, a))
    && (forall a, b, c :: equal(a, b) && equal(b, c) ==> equal(a, c))
    && (forall a :: hashCode(a, size) >= 0)
    && (forall a, b :: equal(a, b) ==> hashCode(a, size) == hashCode(b, size))
  }

  datatype Table<!K(!new), V> = Table(equal: (K, K) -> bool, hashCode: (K, int) -> int, chains: seq<Chain<K, V>>) {

    ghost predicate Valid() {
      && GoodKeys(equal, hashCode, |chains|)
      && forall i, j :: 0 <= i < |chains| && 0 <= j < |chains[i]| ==> Index(chains[i][j].key) == i
    }

    function Index(k: K): int
      requires |chains| > 0
    {
      CMod(hashCode(k, |chains|), |chains|)
    }

    lemma IndexInRange(k: K)
      requires GoodKeys(equal, hashCode, |chains|)
      ensures 0 <= Index(k) < |chains|
    {
    }

    // The meaning of the table: the stack of a key, newest binding first.
    ghost function Stack(k: K): seq<V>
      requires GoodKeys(equal, hashCode, |chains|)
    {
      IndexInRange(k);
      Bindings(equal, chains[Index(k)], k)
    }

    ghost function Insert(k: K, data: V): Table<K, V>
      requires GoodKeys(equal, hashCode, |chains|)
    {
      IndexInRange(k);
      this.(chains := chains[Index(k) := [Binding(k, data)] + chains[Index(k)]])
    }

    ghost function Find(k: K): Option<V>
      requires GoodKeys(equal, hashCode, |chains|)
    {
      IndexInRange(k);
      var c := chains[Index(k)];
      var p := Position(equal, c, k);
      if p == |c| then None else Some(c[p].data)
    }

    ghost function Replace(k: K, data: V): Table<K, V>
      requires GoodKeys(equal, hashCode, |chains|)
    {
      IndexInRange(k);
      var c := chains[Index(k)];
      var p := Position(equal, c, k);
      if p == |c| then this else this.(chains := chains[Index(k) := c[p := c[p].(data := data)]])
    }

    ghost function Delete(k: K): Table<K, V>
      requires GoodKeys(equal, hashCode, |chains|)
    {
      IndexInRange(k);
      var c := chains[Index(k)];
      var p := Position(equal, c, k);
      if p == |c| then this else this.(chains := chains[Index(k) := Without(c, p)])
    }

    // Every entry is in the chain that the remainder of its hash code picks.
    lemma InItsChain(i: nat, j: nat)
      requires Valid() && i < |chains| && j < |chains[i]|
      ensures hashCode(chains[i][j].key, |chains|) % |chains| == i
    {
    }

    // Equal keys share a stack, whichever chain they hash to.
    lemma EqualKeysShareStack(a: K, b: K)
      requires Valid() && equal(a, b)
      ensures Stack(a) == Stack(b)
    {
      SameBindings(equal, chains[Index(a)], a, b, 0);
    }

    lemma FindSeesNewest(k: K)
      requires Valid()
      ensures Find(k) == if Stack(k) == [] then None else Some(Stack(k)[0])
    {
      BindingsFromPosition(equal, chains[Index(k)], k, 0);
    }

    lemma InsertKeepsValid(k: K, data: V)
      requires Valid()
      ensures 0 <= Index(k) < |chains| && Insert(k, data).Valid()
      ensures TotalLength(Insert(k, data).chains) == TotalLength(chains) + 1
    {
      TotalLengthUpdated(chains, Index(k), [Binding(k, data)] + chains[Index(k)]);
    }

    lemma InsertPushes(k: K, data: V, other: K)
      requires Valid()
      ensures Insert(k, data).Stack(other) == if equal(k, other) then [data] + Stack(other) else Stack(other)
    {
      var c := chains[Index(k)];
      BindingsShift(equal, [Binding(k, data)] + c, c, other, 1, 0);
    }

    lemma ReplaceKeepsValid(k: K, data: V)
      requires Valid()
      ensures 0 <= Index(k) < |chains| && Replace(k, data).Valid()
      ensures TotalLength(Replace(k, data).chains) == TotalLength(chains)
    {
      var c := chains[Index(k)];
      var p := Position(equal, c, k);
      if p < |c| {
        TotalLengthUpdated(chains, Index(k), c[p := c[p].(data := data)]);
      }
    }

    lemma ReplaceActsOnNewest(k: K, data: V, other: K)
      requires Valid()
      ensures Replace(k, data).Stack(other) ==
              if equal(k, other) && Stack(other) != [] then [data] + Stack(other)[1..] else Stack(other)
    {
      var c := chains[Index(k)];
      var p := Position(equal, c, k);
      if p < |c| {
        BindingsReplaced(equal, c, p, data, other, 0);
      }
      PositionOfEqual(equal, c, k, other, 0);
      BindingsFromPosition(equal, c, other, 0);
    }

    lemma DeleteKeepsValid(k: K)
      requires Valid()
      ensures 0 <= Index(k) < |chains| && Delete(k).Valid()
      ensures TotalLength(Delete(k).chains) == TotalLength(chains) - (if Find(k).None? then 0 else 1)
    {
      var c := chains[Index(k)];
      var p := Position(equal, c, k);
      if p < |c| {
        TotalLengthUpdated(chains, Index(k), Without(c, p));
      }
    }

    lemma DeletePopsNewest(k: K, other: K)
      requires Valid()
      ensures Delete(k).Stack(other) ==
              if equal(k, other) && Stack(other) != [] then Stack(other)[1..] else Stack(other)
    {
      var c := chains[Index(k)];
      var p := Position(equal, c, k);
      if p < |c| {
        BindingsWithout(equal, c, p, other, 0);
      }
      PositionOfEqual(equal, c, k, other, 0);
      BindingsFromPosition(equal, c, other, 0);
    }
  }

  ghost predicate Equivalence<K(!new)>(equal: (K, K) -> bool) {
    && (forall a, b :: equal(a, b) ==> equal(b, a))
    && (forall a, b, c :: equal(a, b) && equal(b, c) ==> equal(a, c))
  }

  lemma {:induction false} SameBindings<K(!new), V>(equal: (K, K) -> bool, c: Chain<K, V>, a: K, b: K, i: nat)
    requires Equivalence(equal) && equal(a, b) && i <= |c|
    ensures Bindings(equal, c, a, i) == Bindings(equal, c, b, i)
    decreases |c| - i
  {
    if i < |c| {
      SameBindings(equal, c, a, b, i + 1);
    }
  }

  lemma {:induction false} PositionOfEqual<K(!new), V>(equal: (K, K) -> bool, c: Chain<K, V>, a: K, b: K, i: nat)
    requires Equivalence(equal) && i <= |c|
    ensures equal(a, b) ==> Position(equal, c, a, i) == Position(equal, c, b, i)
    decreases |c| - i
  {
    if i < |c| {
      PositionOfEqual(equal, c, a, b, i + 1);
    }
  }

  // An insertion is undone by deleting the same key.
  lemma DeleteUndoesInsert<K(!new), V>(t: Table<K, V>, k: K, data: V)
    requires t.Valid()
    ensures t.Insert(k, data).Delete(k) == t
  {
    t.IndexInRange(k);
    var c := t.chains[t.Index(k)];
    var d := [Binding(k, data)] + c;
    assert Without(d, 0) == c;
    assert t.chains[t.Index(k) := d][t.Index(k) := c] == t.chains;
  }

  // ----- string keys --------------------------------------------------------------------------

  // The characters of a C string are signed when char is.
  function StringHash(s: seq<int>, size: int): int
    requires size > 0
  {
    CMod(Sum(s), size)
  }

  // It differs from the sum of the characters by a multiple of the size, is smaller than the
  // size, and has the sign of the sum; the order of the characters does not matter.
  lemma StringHashIs(s: seq<int>, t: seq<int>, size: int)
    requires size > 0
    ensures exists q :: Sum(s) == q * size + StringHash(s, size)
    ensures -size < StringHash(s, size) < size
    ensures (Sum(s) >= 0 ==> StringHash(s, size) >= 0) && (Sum(s) <= 0 ==> StringHash(s, size) <= 0)
    ensures StringHash(s + t, size) == StringHash(t + s, size)
  {
    CDivMod(Sum(s), size);
    SumConcat(s, t);
    SumConcat(t, s);
  }

  // Under the truncating %, a string hashes into the table exactly when its character
  // codes do not sum to a negative number that size does not divide.
  lemma StringHashInRange(s: seq<int>, size: int)
    requires size > 0
    ensures 0 <= CMod(StringHash(s, size), size) < size <==> Sum(s) >= 0 || Sum(s) % size == 0
  {
    var q, r := (-Sum(s)) / size, (-Sum(s)) % size;
    QuotientBounds(-Sum(s), size);
    QuotientUnique(r, 0, r, size);
    QuotientUnique(Sum(s) % size, 0, Sum(s) % size, size);
    if r == 0 {
      QuotientUnique(Sum(s), -q, 0, size);
    } else {
      QuotientUnique(Sum(s), -q - 1, size - r, size);
    }
  }

  // The code of a single character above 127 is negative, and so is its hash.
  lemma NegativeHash()
    ensures StringHash([-1], 2) == -1
  {
    assert Sum([]) == 0 && Sum([-1]) == -1;
  }

  // ----- the table in memory ---------------------------------------------------------------

  class Entry<K, V> {
    const key: K
    var data: V
    var next: Entry?<K, V>

    constructor (key: K, data: V, next: Entry?<K, V>)
      ensures this.key == key && this.data == data && this.next == next
    {
      this.key, this.data, this.next := key, data, next;
    }
  }

  function At<K, V>(es: seq<Entry<K, V>>, j: nat): Entry?<K, V> {
    if j < |es| then es[j] else null
  }

  // es are the entries of the linked list that starts at head, in order.
  ghost predicate Linked<K, V>(head: Entry?<K, V>, es: seq<Entry<K, V>>)
    reads es
  {
    && head == At(es, 0)
    && (forall j :: 0 <= j < |es| ==> es[j].next == At(es, j + 1))
    && (forall i, j :: 0 <= i < j < |es| ==> es[i] != es[j])
  }

  // What the entries hold, read as a chain of bindings.
  ghost predicate Holds<K, V>(es: seq<Entry<K, V>>, c: Chain<K, V>)
    reads es
  {
    && |es| == |c|
    && forall j :: 0 <= j < |es| ==> es[j].key == c[j].key && es[j].data == c[j].data
  }

  // Walks a chain to the first entry for a key.
  method Search<K, V>(head: Entry?<K, V>, equal: (K, K) -> bool, key: K, ghost es: seq<Entry<K, V>>,
                      ghost c: Chain<K, V>)
    returns (entry: Entry?<K, V>, ghost p: nat)
    requires Linked(head, es) && Holds(es, c)
    ensures p == Position(equal, c, key) && entry == At(es, p)
  {
    entry, p := head, 0;
    while entry != null
      invariant p <= |es| && entry == At(es, p)
      invariant Position(equal, c, key) == Position(equal, c, key, p)
      decreases |es| - p
    {
      if equal(entry.key, key) {
        return;
      }
      entry, p := entry.next, p + 1;
    }
  }

  // The same walk, remembering the entry whose link leads to the result.
  method SearchSlot<K, V>(head: Entry?<K, V>, equal: (K, K) -> bool, key: K, ghost es: seq<Entry<K, V>>,
                          ghost c: Chain<K, V>)
    returns (prev: Entry?<K, V>, entry: Entry?<K, V>, ghost p: nat)
    requires Linked(head, es) && Holds(es, c)
    ensures p == Position(equal, c, key) && entry == At(es, p)
    ensures prev == if p == 0 then null else es[p-1]
  {
    prev, entry, p := null, head, 0;
    while entry != null && !equal(entry.key, key)
      invariant p <= |c| && entry == At(es, p) && prev == (if p == 0 then null else es[p-1])
      invariant Position(equal, c, key) == Position(equal, c, key, p)
      decreases |c| - p
    {
      prev, entry, p := entry, entry.next, p + 1;
    }
  }

  class HashTable<!K(!new), V> {
    const size: nat
    const equal: (K, K) -> bool
    const hashCode: (K, int) -> int
    const table: array<Entry?<K, V>>
    var numEntries: int
    ghost var entries: seq<seq<Entry<K, V>>>
    ghost var chains: seq<Chain<K, V>>
    ghost var repr: set<Entry<K, V>>

    ghost function Abs(): Table<K, V>
      reads this
    {
      Table(equal, hashCode, chains)
    }

    // Chain i of the table is the linked list that starts in slot i.
    ghost predicate Bucket(i: nat)
      requires i < |entries| && i < table.Length && i < |chains|
      reads this`entries, this`chains, this`repr, table, repr, entries[i]
    {
      && (forall j :: 0 <= j < |entries[i]| ==> entries[i][j] in repr)
      && Linked(table[i], entries[i])
      && Holds(entries[i], chains[i])
    }

    ghost predicate Linkage()
      reads this`entries, this`chains, this`repr, table, repr
    {
      && 0 < size == table.Length == |entries| == |chains|
      && (forall i, j :: 0 <= i < size && 0 <= j < |entries[i]| ==> entries[i][j] in repr)
      && (forall i :: 0 <= i < size ==> Bucket(i))
    }

    ghost predicate Valid()
      reads this, table, repr
    {
      var valid := Linkage() && Abs().Valid() && numEntries == TotalLength(chains);
      valid
    }

    function Code(k: K): int
      requires size > 0
    {
      CMod(hashCode(k, size), size)
    }

    constructor (size: nat, equal: (K, K) -> bool, hashCode: (K, int) -> int)
      requires GoodKeys(equal, hashCode, size)
      ensures Valid() && fresh(table) && repr == {}
      ensures Abs() == Table(equal, hashCode, seq(size, _ => []))
    {
      this.size, this.equal, this.hashCode, numEntries := size, equal, hashCode, 0;
      table := new Entry?<K, V>[size](_ => null);
      entries, chains, repr := seq(size, _ => []), seq(size, _ => []), {};
      new;
      EmptyTotal(chains);
    }

    method Push(key: K, data: V, code: nat)
      requires Linkage() && code < size
      modifies this`entries, this`chains, this`repr, table
      ensures Linkage() && fresh(repr - old(repr))
      ensures chains == old(chains)[code := [Binding(key, data)] + old(chains)[code]]
    {
      assert Bucket(code);
      var entry := new Entry(key, data, table[code]);
      repr := repr + {entry};
      forall i: nat | i < size
        ensures Bucket(i)
      {
        assert old(Bucket(i));
      }
      LinkedOnto(entry, entries[code]);
      Reseat(entry, code, [entry] + entries[code], [Binding(key, data)] + chains[code]);
    }

    method Insert(data: V, key: K)
      requires Valid()
      modifies this`numEntries, this`entries, this`chains, this`repr, table
      ensures Valid() && fresh(repr - old(repr))
      ensures Abs() == old(Abs()).Insert(key, data)
    {
      Abs().InsertKeepsValid(key, data);
      Push(key, data, Code(key));
      numEntries := numEntries + 1;
    }

    method Find(key: K) returns (r: Option<V>)
      requires Valid()
      ensures r == Abs().Find(key)
    {
      var code := Code(key);
      assert Bucket(code);
      var entry, _ := Search(table[code], equal, key, entries[code], chains[code]);
      r := if entry != null then Some(entry.data) else None;
    }

    // Entries of different chains have keys of different codes, so no entry is shared.
    lemma EntryOnce(code: nat, p: nat)
      requires Valid() && code < size && p < |entries[code]|
      ensures entries[code][p] in repr && NotShared(entries[code][p], code)
    {
      assert Bucket(code);
      forall i, j | 0 <= i < size && 0 <= j < |entries[i]| && entries[i][j] == entries[code][p]
        ensures i == code
      {
        assert Bucket(i);
        assert Abs().Index(chains[i][j].key) == i && Abs().Index(chains[code][p].key) == code;
      }
    }

    ghost predicate NotShared(e: Entry<K, V>, code: nat)
      requires size <= |entries|
      reads this`entries
    {
      forall i :: 0 <= i < size && i != code ==> e !in entries[i]
    }

    method Replace(data: V, key: K) returns (r: Option<V>)
      requires Valid()
      modifies this`chains, repr
      ensures Valid() && Abs() == old(Abs()).Replace(key, data)
      ensures r == if old(Abs()).Find(key).Some? then Some(data) else None
    {
      Abs().ReplaceKeepsValid(key, data);
      var code := Code(key);
      assert Bucket(code);
      ghost var p;
      var entry;
      entry, p := Search(table[code], equal, key, entries[code], chains[code]);
      if entry == null {
        return None;
      }
      EntryOnce(code, p);
      Overwrite(entry, data, code, p);
      r := Some(entry.data);
    }

    method Overwrite(entry: Entry<K, V>, data: V, ghost code: nat, ghost p: nat)
      requires Linkage() && code < size && p < |entries[code]| == |chains[code]| && entry == entries[code][p]
      requires NotShared(entry, code)
      modifies this`chains, repr
      ensures Linkage() && entry.data == data
      ensures chains == old(chains)[code := old(chains)[code][p := old(chains)[code][p].(data := data)]]
    {
      assert Bucket(code);
      entry.data := data;
      chains := chains[code := chains[code][p := chains[code][p].(data := data)]];
      forall i: nat | i < size
        ensures Bucket(i)
      {
        assert old(Bucket(i));
      }
    }
  
    // Deletes through the slot that points at the entry: prev's link, or the slot in the
    // table when prev is null.
    method Delete(key: K)
      requires Valid()
      modifies this`numEntries, this`entries, this`chains, table, repr
      ensures Valid() && Abs() == old(Abs()).Delete(key)
    {
      Abs().DeleteKeepsValid(key);
      var code := Code(key);
      assert Bucket(code);
      ghost var p;
      var prev, entry;
      prev, entry, p := SearchSlot(table[code], equal, key, entries[code], chains[code]);
      if entry != null {
        if prev != null {
          EntryOnce(code, p - 1);
        }
        Unlink(prev, entry, code, p);
        numEntries := numEntries - 1;
      }
    }

    method Unlink(prev: Entry?<K, V>, entry: Entry<K, V>, code: nat, ghost p: nat)
      requires Linkage() && code < size && p < |entries[code]| == |chains[code]| && entry == entries[code][p]
      requires prev == if p == 0 then null else entries[code][p-1]
      requires prev != null ==> prev in repr && NotShared(prev, code)
      modifies this`entries, this`chains, table, repr
      ensures Linkage() && chains == old(chains)[code := Without(old(chains)[code], p)]
    {
      assert Bucket(code);
      ghost var es, c := entries[code], Without(chains[code], p);
      Bypass(prev, entry, es[0], es, chains[code], p);
      forall i: nat | i < size && i != code
        ensures Bucket(i)
      {
        assert old(Bucket(i));
      }
      Reseat(if prev == null then entry.next else table[code], code, es[..p] + es[p+1..], c);
    }

    // Slot code now starts the list of entries es, which are already linked.
    method Reseat(head: Entry?<K, V>, code: nat, ghost es: seq<Entry<K, V>>, ghost c: Chain<K, V>)
      requires 0 < size == table.Length == |entries| == |chains| && code < size
      requires forall i, j :: 0 <= i < size && 0 <= j < |entries[i]| ==> entries[i][j] in repr
      requires forall i :: 0 <= i < size && i != code ==> Bucket(i)
      requires Linked(head, es) && Holds(es, c) && forall j :: 0 <= j < |es| ==> es[j] in repr
      modifies this`entries, this`chains, table
      ensures Linkage() && chains == old(chains)[code := c]
    {
      table[code] := head;
      entries, chains := entries[code := es], chains[code := c];
      forall i: nat | i < size
        ensures Bucket(i)
      {
        assert i != code ==> old(Bucket(i));
      }
    }

    // A deep copy: the entries are new, keys and data are shared.
    method Copy() returns (nt: HashTable<K, V>)
      requires Valid()
      ensures nt.Valid() && nt.Abs() == Abs() && nt.numEntries == numEntries
      ensures fresh(nt) && fresh(nt.table) && fresh(nt.repr)
    {
      nt := new HashTable(size, equal, hashCode);
      CopyChains(nt);
      nt.numEntries := numEntries;
    }

    method CopyChains(nt: HashTable<K, V>)
      requires Linkage() && nt.Linkage() && nt.size == size
      requires nt != this && nt.table != table
      modifies nt`entries, nt`chains, nt`repr, nt.table
      ensures nt.Linkage() && nt.chains == chains && fresh(nt.repr - old(nt.repr))
    {
      for i := 0 to size
        invariant Linkage() && nt.Linkage() && fresh(nt.repr - old(nt.repr))
        invariant nt.chains[..i] == chains[..i]
      {
        assert Bucket(i);
        nt.CopySlot(table[i], i, entries[i], chains[i]);
      }
    }

    method CopySlot(head: Entry?<K, V>, code: nat, ghost es: seq<Entry<K, V>>, ghost c: Chain<K, V>)
      requires Linkage() && code < size && Linked(head, es) && Holds(es, c)
      modifies this`entries, this`chains, this`repr, table
      ensures Linkage() && fresh(repr - old(repr)) && chains == old(chains)[code := c]
    {
      ghost var nes;
      var copy;
      copy, nes := CopyEntry(head, es, c);
      repr := repr + (set e | e in nes);
      forall i: nat | i < size
        ensures Bucket(i)
      {
        assert old(Bucket(i));
      }
      Reseat(copy, code, nes, c);
    }
  }

  // Takes entry p out of a linked list. The slot that pointed at it is prev's link or,
  // when prev is null, the caller's pointer to the head.
  method Bypass<K, V>(prev: Entry?<K, V>, entry: Entry<K, V>, ghost head: Entry<K, V>, ghost es: seq<Entry<K, V>>,
                      ghost c: Chain<K, V>, ghost p: nat)
    requires Linked(head, es) && Holds(es, c) && p < |es| && entry == es[p]
    requires prev == if p == 0 then null else es[p-1]
    modifies if prev == null then {} else {prev}
    ensures entry.next == At(es, p + 1)
    ensures Linked(if p == 0 then entry.next else head, es[..p] + es[p+1..])
    ensures Holds(es[..p] + es[p+1..], Without(c, p))
  {
    if prev != null {
      prev.next := entry.next;
    }
    HoldsWithout(es, c, p);
    LinkedWithout(es, p);
  }

  lemma LinkedWithout<K, V>(es: seq<Entry<K, V>>, p: nat)
    requires p < |es| && forall i, j :: 0 <= i < j < |es| ==> es[i] != es[j]
    requires forall j :: 0 <= j < |es| ==> es[j].next == if j + 1 == p then At(es, p + 1) else At(es, j + 1)
    ensures Linked(if p == 0 then es[0].next else es[0], es[..p] + es[p+1..])
  {
    var fs := es[..p] + es[p+1..];
    forall j | 0 <= j < |fs|
      ensures fs[j].next == At(fs, j + 1)
    {
      assert fs[j] == es[if j < p then j else j + 1];
    }
  }

  lemma HoldsWithout<K, V>(es: seq<Entry<K, V>>, c: Chain<K, V>, p: nat)
    requires Holds(es, c) && p < |es|
    ensures Holds(es[..p] + es[p+1..], Without(c, p))
  {
    var fs, d := es[..p] + es[p+1..], Without(c, p);
    forall j | 0 <= j < |fs|
      ensures fs[j].key == d[j].key && fs[j].data == d[j].data
    {
      assert fs[j] == es[if j < p then j else j + 1] && d[j] == c[if j < p then j else j + 1];
    }
  }

  lemma LinkedOnto<K, V>(e: Entry<K, V>, es: seq<Entry<K, V>>)
    requires Linked(e.next, es) && e !in es
    ensures Linked(e, [e] + es)
  {
  }

  method CopyEntry<K, V>(e: Entry?<K, V>, ghost es: seq<Entry<K, V>>, ghost c: Chain<K, V>)
    returns (ne: Entry?<K, V>, ghost nes: seq<Entry<K, V>>)
    requires Linked(e, es) && Holds(es, c)
    ensures Linked(ne, nes) && Holds(nes, c)
    ensures forall j :: 0 <= j < |nes| ==> fresh(nes[j])
    decreases |es|
  {
    if e == null {
      return null, [];
    }
    var next, rest := CopyEntry(e.next, es[1..], c[1..]);
    ne := new Entry(e.key, e.data, next);
    nes := [ne] + rest;
    LinkedOnto(ne, rest);
  }

  // An operation on a table or on its copy.
  datatype Edit<K, V> =
    | Insertion(onCopy: bool, key: K, data: V)
    | Replacement(onCopy: bool, key: K, data: V)
    | Deletion(onCopy: bool, key: K)

  ghost function Apply<K(!new), V>(t: Table<K, V>, e: Edit<K, V>): (u: Table<K, V>)
    requires t.Valid()
    ensures u.Valid()
  {
    match e
    case Insertion(_, k, d) => t.InsertKeepsValid(k, d); t.Insert(k, d)
    case Replacement(_, k, d) => t.ReplaceKeepsValid(k, d); t.Replace(k, d)
    case Deletion(_, k) => t.DeleteKeepsValid(k); t.Delete(k)
  }

  // What the first n edits make of a table or of its copy, each as if it were alone.
  ghost function After<K(!new), V>(t: Table<K, V>, edits: seq<Edit<K, V>>, n: nat, onCopy: bool): (u: Table<K, V>)
    requires t.Valid() && n <= |edits|
    ensures u.Valid()
  {
    if n == 0 then t
    else
      var before := After(t, edits, n - 1, onCopy);
      if edits[n-1].onCopy == onCopy then Apply(before, edits[n-1]) else before
  }

  // A table in memory and what it stands for.
  ghost predicate Stands<K(!new), V>(t: HashTable<K, V>, u: Table<K, V>)
    reads t, t.table, t.repr
  {
    var stands := t.Valid() && t.Abs() == u && u.Valid();
    stands
  }

  method Perform<K(!new), V>(t: HashTable<K, V>, e: Edit<K, V>, ghost u: Table<K, V>)
    requires Stands(t, u)
    modifies t, t.table, t.repr
    ensures u.Valid() && Stands(t, Apply(u, e)) && fresh(t.repr - old(t.repr))
  {
    match e
    case Insertion(_, k, d) =>
      t.Insert(d, k);
    case Replacement(_, k, d) =>
      var r := t.Replace(d, k);
    case Deletion(_, k) =>
      t.Delete(k);
  }

  method PerformEither<K(!new), V>(t: HashTable<K, V>, nt: HashTable<K, V>, e: Edit<K, V>, ghost u: Table<K, V>,
                                   ghost w: Table<K, V>)
    requires Stands(t, u) && Stands(nt, w) && t != nt && t.table != nt.table && t.repr !! nt.repr
    modifies t, t.table, t.repr, nt, nt.table, nt.repr
    ensures u.Valid() && Stands(t, if e.onCopy then u else Apply(u, e))
    ensures w.Valid() && Stands(nt, if e.onCopy then Apply(w, e) else w)
    ensures t.repr !! nt.repr && fresh(t.repr - old(t.repr)) && fresh(nt.repr - old(nt.repr))
  {
    if e.onCopy {
      Perform(nt, e, w);
    } else {
      Perform(t, e, u);
    }
  }

  method PerformAll<K(!new), V>(t: HashTable<K, V>, nt: HashTable<K, V>, edits: seq<Edit<K, V>>, ghost u: Table<K, V>)
    requires Stands(t, u) && Stands(nt, u) && t != nt && t.table != nt.table && t.repr !! nt.repr
    modifies t, t.table, t.repr, nt, nt.table, nt.repr
    ensures u.Valid()
    ensures Stands(t, After(u, edits, |edits|, false)) && Stands(nt, After(u, edits, |edits|, true))
  {
    ghost var v, w := u, u;
    for i := 0 to |edits|
      invariant t.repr !! nt.repr && fresh(t.repr - old(t.repr)) && fresh(nt.repr - old(nt.repr))
      invariant v == After(u, edits, i, false) && w == After(u, edits, i, true)
      invariant Stands(t, v) && Stands(nt, w)
    {
      PerformEither(t, nt, edits[i], v, w);
      v, w := After(u, edits, i + 1, false), After(u, edits, i + 1, true);
    }
  }

  // After a copy, operations on the one and on the other, in any order, act as if each had a
  // table of its own.
  method CopiesAreIndependent<K(!new), V>(t: HashTable<K, V>, edits: seq<Edit<K, V>>) returns (nt: HashTable<K, V>)
    requires t.Valid()
    modifies t, t.table, t.repr
    ensures t.Valid() && old(t.Abs()).Valid() && t.Abs() == After(old(t.Abs()), edits, |edits|, false)
    ensures nt.Valid() && nt.Abs() == After(old(t.Abs()), edits, |edits|, true)
  {
    nt := t.Copy();
    PerformAll(t, nt, edits, t.Abs());
  }

  lemma {:induction false} EmptyTotal<K, V>(chains: seq<Chain<K, V>>)
    requires forall i :: 0 <= i < |chains| ==> chains[i] == []
    ensures TotalLength(chains) == 0
  {
    if chains != [] {
      EmptyTotal(chains[..|chains|-1]);
    }
  }
}
