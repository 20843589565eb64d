/** The headed linked list of pancake/LinkedList.c, one chain of the hash
    table. Each node holds a key string and a pointer to a Triple (the search
    record of pancake.c); the key of a node is always its Triple's config. The
    list is modelled as the sequence of nodes that follow the sentinel head. */
module PancakeList {
  import opened Common

  /** The search record: a configuration, the configuration it was reached
      from (none for a root), its distance from the root, and which root
      (true: GOAL, false: INITIAL). */
  datatype Triple = Triple(config: string, prev: Option<string>, len: nat, fromGoal: bool)

  /** A node after the sentinel: its key and its payload. */
  datatype Cell = Cell(key: string, triple: Triple)

  /** No key occurs twice. */
  ghost predicate UniqueKeys(cells: seq<Cell>) {
    forall i, j :: 0 <= i < j < |cells| ==> cells[i].key != cells[j].key
  }

  /** Some node carries this key. */
  ghost predicate HasKey(cells: seq<Cell>, key: string) {
    exists i :: 0 <= i < |cells| && cells[i].key == key
  }

  /** The payload of the first node whose key equals key, or None. */
  function Find(cells: seq<Cell>, key: string): (r: Option<Triple>)
    ensures r.None? <==> !HasKey(cells, key)
    ensures r.Some? ==> exists i :: 0 <= i < |cells| && cells[i].key == key && r.value == cells[i].triple
                                   && forall j :: 0 <= j < i ==> cells[j].key != key
  {
    if cells == [] then None
    else if cells[0].key == key then Some(cells[0].triple)
    else
      var r := Find(cells[1..], key);
      assert forall i :: 1 <= i < |cells| ==> cells[i] == cells[1..][i - 1];
      r
  }

  /** The index of the first node with this key, or |cells| when there is none. */
  function FirstIndex(cells: seq<Cell>, key: string): (i: nat)
    ensures i <= |cells|
    ensures forall j :: 0 <= j < i ==> cells[j].key != key
    ensures i < |cells| ==> cells[i].key == key
  {
    if cells == [] || cells[0].key == key then 0 else 1 + FirstIndex(cells[1..], key)
  }

  /** The cells with the first node carrying key unlinked. */
  function RemoveFirst(cells: seq<Cell>, key: string): (r: seq<Cell>)
  {
    var i := FirstIndex(cells, key);
    if i == |cells| then cells else cells[..i] + cells[i + 1..]
  }

  /** removeL unlinks only the first matching node, keeps the order of the
      others, and is a no-op when the key is absent. */
  lemma RemoveFirstSpec(cells: seq<Cell>, key: string)
    ensures !HasKey(cells, key) ==> RemoveFirst(cells, key) == cells
    ensures HasKey(cells, key) ==>
      exists i :: 0 <= i < |cells| && cells[i].key == key
        && (forall j :: 0 <= j < i ==> cells[j].key != key)
        && RemoveFirst(cells, key) == cells[..i] + cells[i + 1..]
  {
    var i := FirstIndex(cells, key);
    if HasKey(cells, key) {
      var w :| 0 <= w < |cells| && cells[w].key == key;
      assert i <= w;
    }
  }

  /** With unique keys, no node with the key is left after removeL
      (LinkedList.c:112-114), the others stay unique, and lookups of every
      other key are unaffected. */
  lemma RemoveFirstUnique(cells: seq<Cell>, key: string)
    requires UniqueKeys(cells)
    ensures !HasKey(RemoveFirst(cells, key), key)
    ensures UniqueKeys(RemoveFirst(cells, key))
    ensures forall k :: k != key ==> Find(RemoveFirst(cells, key), k) == Find(cells, k)
  {
    var i := FirstIndex(cells, key);
    var r := RemoveFirst(cells, key);
    if i < |cells| {
      assert forall j :: 0 <= j < |r| ==> r[j] == (if j < i then cells[j] else cells[j + 1]);
      forall k | k != key
        ensures Find(r, k) == Find(cells, k)
      {
        FindRemovedElsewhere(cells, i, k);
      }
    }
  }

  /** Unlinking a node whose key differs from k does not change the lookup of k. */
  lemma {:induction false} FindRemovedElsewhere(cells: seq<Cell>, i: nat, k: string)
    requires i < |cells| && cells[i].key != k
    ensures Find(cells[..i] + cells[i + 1..], k) == Find(cells, k)
  {
    if i > 0 {
      var rest := cells[1..];
      FindRemovedElsewhere(rest, i - 1, k);
      assert cells[..i] + cells[i + 1..] == [cells[0]] + (rest[..i - 1] + rest[i..]);
    } else {
      assert cells[..i] + cells[i + 1..] == cells[1..];
    }
  }

  /** Appending a node with a fresh key: it is found afterwards and every
      other key is found as before. */
  lemma {:induction false} FindAppend(cells: seq<Cell>, c: Cell, k: string)
    requires !HasKey(cells, c.key)
    ensures Find(cells + [c], k) == if k == c.key then Some(c.triple) else Find(cells, k)
  {
    if cells != [] {
      assert (cells + [c])[1..] == cells[1..] + [c];
      FindAppend(cells[1..], c, k);
    }
  }

  class List {
    /** The nodes after the sentinel, in list order. */
    var cells: seq<Cell>

    /** createL: only the sentinel. */
    constructor ()
      ensures cells == []
    {
      cells := [];
    }

    /** appendL: one node at the end, key = triple.config, the rest in order. */
    method AppendL(triple: Triple)
      modifies this
      ensures cells == old(cells) + [Cell(triple.config, triple)]
    {
      cells := cells + [Cell(triple.config, triple)];
    }

    /** isEmptyL: true exactly when no node follows the sentinel. */
    method IsEmptyL() returns (e: bool)
      ensures e <==> cells == []
    {
      e := |cells| == 0;
    }

    /** retrieveL: the payload of the first node whose key equals key by
        content, found by walking the chain; None stands for NULL. */
    method RetrieveL(key: string) returns (r: Option<Triple>)
      ensures r == Find(cells, key)
    {
      var i := 0;
      while i < |cells| && cells[i].key != key
        invariant 0 <= i <= |cells|
        invariant Find(cells, key) == Find(cells[i..], key)
      {
        assert cells[i..][1..] == cells[i + 1..];
        i := i + 1;
      }
      if i < |cells| {
        r := Some(cells[i].triple);
      } else {
        r := None;
      }
    }

    /** removeL: walks prev/cur to the first node with the key and unlinks it. */
    method RemoveL(key: string)
      modifies this
      ensures cells == RemoveFirst(old(cells), key)
    {
      var i := 0;
      while i < |cells| && cells[i].key != key
        invariant 0 <= i <= |cells|
        invariant forall j :: 0 <= j < i ==> cells[j].key != key
      {
        i := i + 1;
      }
      FirstIndexAt(cells, key, i);
      if i < |cells| {
        cells := cells[..i] + cells[i + 1..];
      }
    }

    /** destroyL: the nodes and their payloads are released. */
    method DestroyL()
      modifies this
      ensures cells == []
    {
      cells := [];
    }
  }

  /** The position where the walk stops is the first index of the key. */
  lemma {:induction false} FirstIndexAt(cells: seq<Cell>, key: string, i: nat)
    requires i <= |cells|
    requires forall j :: 0 <= j < i ==> cells[j].key != key
    requires i < |cells| ==> cells[i].key == key
    ensures FirstIndex(cells, key) == i
  {
    if i > 0 {
      FirstIndexAt(cells[1..], key, i - 1);
    }
  }
}
