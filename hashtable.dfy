/** The chained hash table of pancake/Hashtable.c: `size` headed lists, an
    entry for key k living in the list numbered hash(k, size). Abstractly the
    table is a finite map from configuration strings to Triples. */
module PancakeHashtable {
  import opened Common
  import opened PancakeList

  /** The odd multiplier of hash(). */
  const PRIME: nat := 3141592653589793239

  /** unsigned long arithmetic is modulo 2^64. */
  const WORD: nat := 0x1_0000_0000_0000_0000

  /** The character code of c, widened to 64 bits. */
  function Code(c: char): bv64 {
    (c as int) as bv64
  }

  /** The 7-bit-step rotation of the shift amount: it stays below 57. */
  function NextShift(shift: nat): (r: nat)
    requires shift < 57
    ensures r < 57
  {
    if shift + 7 >= 57 then shift + 7 - 57 else shift + 7
  }

  /** One step of hash(): sum ^= c << shift, then the shift advances. */
  function Step(st: (bv64, nat), c: char): (r: (bv64, nat))
    requires st.1 < 57
    ensures r.1 < 57
  {
    (st.0 ^ (Code(c) << st.1), NextShift(st.1))
  }

  /** The (sum, shift) accumulator of hash() after reading the characters of s. */
  function HashState(s: string): (st: (bv64, nat))
    ensures st.1 < 57
  {
    if s == [] then (0, 0) else Step(HashState(s[..|s| - 1]), s[|s| - 1])
  }

  /** The final scrambling of hash(): (prime * sum) % size, the product
      wrapping at 2^64 as unsigned long does. */
  function Finish(sum: bv64, size: int): (r: int)
    requires size > 0
    ensures 0 <= r < size
  {
    (PRIME * (sum as int)) % WORD % size
  }

  /** hash(key, size): deterministic, in [0, size). */
  function HashOf(key: string, size: int): (r: int)
    requires size > 0
    ensures 0 <= r < size
  {
    Finish(HashState(key).0, size)
  }

  /** hash(): the accumulator loop over the characters of key. */
  method Hash(key: string, size: int) returns (r: int)
    requires size > 0
    ensures r == HashOf(key, size)
    ensures 0 <= r < size
  {
    var st: (bv64, nat) := (0, 0);
    var i := 0;
    while i < |key|
      invariant 0 <= i <= |key|
      invariant st == HashState(key[..i])
    {
      assert key[..i + 1][..i] == key[..i];
      st := Step(st, key[i]);
      i := i + 1;
    }
    assert key[..i] == key;
    r := Finish(st.0, size);
  }

  /** hash(_, size) as a function value, the bucket index of every key. */
  function HashFn(size: int): (f: string -> int)
    requires size > 0
    ensures forall k :: 0 <= f(k) < size
  {
    k => HashOf(k, size)
  }

  /** Every node of chain i hashes to i, and no key repeats within a chain. */
  ghost predicate ChainOk(cells: seq<Cell>, i: int, hash: string -> int) {
    && UniqueKeys(cells)
    && forall j :: 0 <= j < |cells| ==> hash(cells[j].key) == i
  }

  /** The abstract table: the chains, in bucket order, represent contents
      when every chain is well formed and a key is stored exactly when the
      chain hash(key) holds it, with that payload. */
  ghost predicate TableOk(chains: seq<seq<Cell>>, contents: map<string, Triple>, hash: string -> int) {
    && |chains| > 0
    && (forall k :: 0 <= hash(k) < |chains|)
    && (forall i :: 0 <= i < |chains| ==> ChainOk(chains[i], i, hash))
    && (forall k {:trigger Find(chains[hash(k)], k)} :: k in contents <==> Find(chains[hash(k)], k).Some?)
    && (forall k {:trigger Find(chains[hash(k)], k)} :: k in contents ==> Find(chains[hash(k)], k) == Some(contents[k]))
  }

  /** A table of empty chains represents the empty map. */
  lemma EmptyTableOk(n: nat, hash: string -> int)
    requires n > 0 && forall k :: 0 <= hash(k) < n
    ensures TableOk(seq(n, _ => []), map[], hash)
  {
    var chains: seq<seq<Cell>> := seq(n, _ => []);
    forall k
      ensures Find(chains[hash(k)], k).None?
    {
      assert chains[hash(k)] == [];
    }
  }

  /** Looking a key up in chain hash(key) answers exactly what the map holds. */
  lemma LookupOk(chains: seq<seq<Cell>>, contents: map<string, Triple>, hash: string -> int, key: string)
    requires TableOk(chains, contents, hash)
    ensures Find(chains[hash(key)], key) == if key in contents then Some(contents[key]) else None
  {
  }

  /** The lookup half of TableOk. */
  ghost predicate LookupsOk(chains: seq<seq<Cell>>, contents: map<string, Triple>, hash: string -> int)
    requires forall k :: 0 <= hash(k) < |chains|
  {
    forall k :: Find(chains[hash(k)], k) == if k in contents then Some(contents[k]) else None
  }

  lemma TableOkByParts(chains: seq<seq<Cell>>, contents: map<string, Triple>, hash: string -> int)
    requires |chains| > 0 && forall k :: 0 <= hash(k) < |chains|
    requires forall i :: 0 <= i < |chains| ==> ChainOk(chains[i], i, hash)
    ensures TableOk(chains, contents, hash) <==> LookupsOk(chains, contents, hash)
  {
    if LookupsOk(chains, contents, hash) {
      forall k
        ensures k in contents <==> Find(chains[hash(k)], k).Some?
      {
        assert Find(chains[hash(k)], k) == if k in contents then Some(contents[k]) else None;
      }
    }
  }

  /** addH's update: appending a node for an absent key to its chain
      represents the map extended with that key. */
  lemma AddOk(chains: seq<seq<Cell>>, contents: map<string, Triple>, hash: string -> int, key: string, t: Triple)
    requires TableOk(chains, contents, hash) && key !in contents
    ensures TableOk(chains[hash(key) := chains[hash(key)] + [Cell(key, t)]], contents[key := t], hash)
  {
    var h := hash(key);
    var chains' := chains[h := chains[h] + [Cell(key, t)]];
    AddChainsOk(chains, contents, hash, key, t, chains');
    AddLookupsOk(chains, contents, hash, key, t);
    TableOkByParts(chains', contents[key := t], hash);
  }

  lemma AddChainsOk(chains: seq<seq<Cell>>, contents: map<string, Triple>, hash: string -> int, key: string, t: Triple,
                     chains': seq<seq<Cell>>)
    requires TableOk(chains, contents, hash) && key !in contents
    requires chains' == chains[hash(key) := chains[hash(key)] + [Cell(key, t)]]
    ensures forall i :: 0 <= i < |chains'| ==> ChainOk(chains'[i], i, hash)
  {
    var h := hash(key);
    assert Find(chains[h], key).None?;
    assert ChainOk(chains[h], h, hash);
  }

  lemma AddLookupsOk(chains: seq<seq<Cell>>, contents: map<string, Triple>, hash: string -> int, key: string, t: Triple)
    requires TableOk(chains, contents, hash) && key !in contents
    ensures LookupsOk(chains[hash(key) := chains[hash(key)] + [Cell(key, t)]], contents[key := t], hash)
  {
    var h := hash(key);
    var c := Cell(key, t);
    var chains' := chains[h := chains[h] + [c]];
    var contents' := contents[key := t];
    assert Find(chains[h], key).None?;
    forall k
      ensures Find(chains'[hash(k)], k) == if k in contents' then Some(contents'[k]) else None
    {
      if hash(k) == h {
        FindAppend(chains[h], c, k);
      } else {
        assert chains'[hash(k)] == chains[hash(k)];
      }
    }
  }

  /** removeH's update: unlinking the key's node from its chain represents
      the map without that key. */
  lemma RemoveOk(chains: seq<seq<Cell>>, contents: map<string, Triple>, hash: string -> int, key: string)
    requires TableOk(chains, contents, hash)
    ensures TableOk(chains[hash(key) := RemoveFirst(chains[hash(key)], key)], contents - {key}, hash)
  {
    var h := hash(key);
    var chains' := chains[h := RemoveFirst(chains[h], key)];
    RemoveChainsOk(chains, contents, hash, key, chains');
    RemoveLookupsOk(chains, contents, hash, key);
    TableOkByParts(chains', contents - {key}, hash);
  }

  lemma RemoveChainsOk(chains: seq<seq<Cell>>, contents: map<string, Triple>, hash: string -> int, key: string,
                        chains': seq<seq<Cell>>)
    requires TableOk(chains, contents, hash)
    requires chains' == chains[hash(key) := RemoveFirst(chains[hash(key)], key)]
    ensures forall i :: 0 <= i < |chains'| ==> ChainOk(chains'[i], i, hash)
  {
    var h := hash(key);
    var r := RemoveFirst(chains[h], key);
    assert ChainOk(chains[h], h, hash);
    RemoveFirstUnique(chains[h], key);
    RemoveFirstKeeps(chains[h], key);
    forall j | 0 <= j < |r|
      ensures hash(r[j].key) == h
    {
      assert r[j] in chains[h];
    }
  }

  lemma RemoveLookupsOk(chains: seq<seq<Cell>>, contents: map<string, Triple>, hash: string -> int, key: string)
    requires TableOk(chains, contents, hash)
    ensures LookupsOk(chains[hash(key) := RemoveFirst(chains[hash(key)], key)], contents - {key}, hash)
  {
    var h := hash(key);
    var chains' := chains[h := RemoveFirst(chains[h], key)];
    var contents' := contents - {key};
    assert ChainOk(chains[h], h, hash);
    RemoveFirstUnique(chains[h], key);
    forall k
      ensures Find(chains'[hash(k)], k) == if k in contents' then Some(contents'[k]) else None
    {
      if hash(k) != h {
        assert chains'[hash(k)] == chains[hash(k)];
      }
    }
  }

  /** The table holds at most one entry per key string: an entry for a key is
      only ever in chain hash(key), and never twice there. */
  lemma OneEntryPerKey(chains: seq<seq<Cell>>, contents: map<string, Triple>, hash: string -> int,
                       i: int, j: int, a: int, b: int)
    requires TableOk(chains, contents, hash)
    requires 0 <= i < |chains| && 0 <= j < |chains|
    requires 0 <= a < |chains[i]| && 0 <= b < |chains[j]|
    requires chains[i][a].key == chains[j][b].key
    ensures i == j && a == b
  {
    assert ChainOk(chains[i], i, hash) && ChainOk(chains[j], j, hash);
  }

  class Hashtable {
    var entry: array<List>
    var size: int
    /** The table's content as a map: key to payload. */
    ghost var Contents: map<string, Triple>
    ghost var Repr: set<object>

    /** The chains, in bucket order: Chains[i] is the node sequence of entry[i]. */
    ghost var Chains: seq<seq<Cell>>

    ghost predicate Valid()
      reads this, Repr
    {
      && this in Repr && entry in Repr
      && size == entry.Length && size == |Chains| && size > 0
      && (forall i :: 0 <= i < size ==> entry[i] in Repr)
      && (forall i, j :: 0 <= i < j < size ==> entry[i] != entry[j])
      && (forall i :: 0 <= i < size ==> entry[i].cells == Chains[i])
      && TableOk(Chains, Contents, HashFn(size))
    }

    /** createH: `size` empty chains. */
    constructor (n: int)
      requires n > 0
      ensures Valid() && fresh(Repr)
      ensures size == n && Contents == map[]
    {
      var first := new List();
      var e := new List[n](_ => first);
      var i := 1;
      while i < n
        invariant 1 <= i <= n
        invariant forall j :: 0 <= j < n ==> fresh(e[j]) && e[j].cells == []
        invariant forall j, l :: 0 <= j < l < i ==> e[j] != e[l]
      {
        var l := new List();
        e[i] := l;
        i := i + 1;
      }
      entry := e;
      size := n;
      Contents := map[];
      Chains := seq(n, _ => []);
      Repr := {this, e} + set j | 0 <= j < n :: e[j];
      EmptyTableOk(n, HashFn(n));
    }

    /** retrieveH: the payload stored for key, or None (NULL). */
    method RetrieveH(key: string) returns (r: Option<Triple>)
      requires Valid()
      ensures r == if key in Contents then Some(Contents[key]) else None
    {
      var index := Hash(key, size);
      r := entry[index].RetrieveL(key);
      LookupOk(Chains, Contents, HashFn(size), key);
    }

    /** addH: false and no change when the key already has an entry;
        otherwise the payload is appended to the key's chain and true is
        returned. Every caller passes key == triple.config. */
    method AddH(key: string, triple: Triple) returns (added: bool)
      requires Valid() && key == triple.config
      modifies Repr
      ensures Valid() && Repr == old(Repr)
      ensures added <==> key !in old(Contents)
      ensures Contents == if added then old(Contents)[key := triple] else old(Contents)
    {
      var index := Hash(key, size);
      assert HashFn(size)(key) == index;
      var found := entry[index].RetrieveL(key);
      LookupOk(Chains, Contents, HashFn(size), key);
      if found == None {
        AddOk(Chains, Contents, HashFn(size), key, triple);
        entry[index].AppendL(triple);
        Contents := Contents[key := triple];
        Chains := Chains[index := Chains[index] + [Cell(key, triple)]];
        added := true;
      } else {
        added := false;
      }
    }

    /** removeH: deletes the key's entry if present, a no-op otherwise; all
        other entries stay. */
    method RemoveH(key: string)
      requires Valid()
      modifies Repr
      ensures Valid() && Repr == old(Repr)
      ensures Contents == old(Contents) - {key}
    {
      var index := Hash(key, size);
      assert HashFn(size)(key) == index;
      RemoveOk(Chains, Contents, HashFn(size), key);
      entry[index].RemoveL(key);
      Contents := Contents - {key};
      Chains := Chains[index := RemoveFirst(Chains[index], key)];
    }

    /** destroyH: every chain is destroyed. */
    method DestroyH()
      requires Valid()
      modifies Repr
      ensures Valid() && Repr == old(Repr)
      ensures Contents == map[]
    {
      var i := 0;
      while i < size
        invariant 0 <= i <= size
        invariant entry == old(entry) && size == old(size) && Repr == old(Repr)
        invariant entry[..] == old(entry[..])
        invariant forall j :: 0 <= j < i ==> entry[j].cells == []
      {
        entry[i].DestroyL();
        i := i + 1;
      }
      Contents := map[];
      Chains := seq(size, _ => []);
      EmptyTableOk(size, HashFn(size));
    }
  }

  /** removeL keeps only nodes that were there before. */
  lemma RemoveFirstKeeps(cells: seq<Cell>, key: string)
    ensures forall c :: c in RemoveFirst(cells, key) ==> c in cells
  {
  }
}
