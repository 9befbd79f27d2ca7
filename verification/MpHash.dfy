/** The matchpoint hash table of the GDB server: chains of linked entries, changed in place. */
module MpHash {

  const SIZE := 1021

  datatype MpKey = MpKey(mtype: int, addr: nat)

  /** One matchpoint; only its place in the chain ever changes. */
  class MpEntry {
    const key: MpKey
    const instr: int
    var next: MpEntry?

    constructor (key: MpKey, instr: int, next: MpEntry?)
      ensures this.key == key && this.instr == instr && this.next == next
    {
      this.key, this.instr, this.next := key, instr, next;
    }
  }

  ghost function At(chain: seq<MpEntry>, i: nat): MpEntry? { if i < |chain| then chain[i] else null }

  /** The `next` fields from `first` on run through exactly `chain`. */
  ghost predicate Linked(first: MpEntry?, chain: seq<MpEntry>)
    reads set i | 0 <= i < |chain| :: chain[i]
  {
    first == At(chain, 0) && forall i :: 0 <= i < |chain| ==> chain[i].next == At(chain, i + 1)
  }

  function Hash(key: MpKey): (h: nat)
    ensures h < SIZE
  {
    key.addr % SIZE
  }

  /** All entries of a chain hash to `h`, and no two have the same key. */
  ghost predicate Keyed(chain: seq<MpEntry>, h: nat) {
    (forall i :: 0 <= i < |chain| ==> Hash(chain[i].key) == h) &&
    (forall i, j :: 0 <= i < j < |chain| ==> chain[i].key != chain[j].key)
  }

  ghost predicate InChain(chain: seq<MpEntry>, key: MpKey) { exists i :: 0 <= i < |chain| && chain[i].key == key }

  /** `entries` is exactly what the chain says about the keys that hash to it. */
  ghost predicate Describes(chain: seq<MpEntry>, h: nat, entries: map<MpKey, int>) {
    (forall i :: 0 <= i < |chain| ==> chain[i].key in entries && entries[chain[i].key] == chain[i].instr) &&
    (forall key :: key in entries && Hash(key) == h ==> InChain(chain, key))
  }

  ghost predicate Contents(chains: seq<seq<MpEntry>>, entries: map<MpKey, int>) {
    forall h :: 0 <= h < |chains| ==> Keyed(chains[h], h) && Describes(chains[h], h, entries)
  }

  class Table {
    const heads: array<MpEntry?>
    ghost var chains: seq<seq<MpEntry>>
    /** What the table stands for. */
    ghost var entries: map<MpKey, int>

    /** The entries the chains are made of. */
    ghost var repr: set<MpEntry>

    ghost predicate Valid()
      reads this, heads, repr
    {
      heads.Length == SIZE == |chains| && Contents(chains, entries) &&
      (forall h, i :: 0 <= h < SIZE && 0 <= i < |chains[h]| ==> chains[h][i] in repr) &&
      forall h :: 0 <= h < SIZE ==> Linked(heads[h], chains[h])
    }

    /** mp_hash_init. */
    constructor ()
      ensures Valid() && fresh(heads) && entries == map[] && repr == {}
    {
      heads := new MpEntry?[SIZE](_ => null);
      chains := seq(SIZE, _ => []);
      entries := map[];
      repr := {};
    }

    /** The walk that add, lookup and delete make: the entry with this key, and the one before it. */
    method Search(key: MpKey) returns (prev: MpEntry?, curr: MpEntry?, ghost i: nat)
      requires Valid()
      ensures i <= |chains[Hash(key)]| && curr == At(chains[Hash(key)], i)
      ensures prev == if i > 0 then At(chains[Hash(key)], i - 1) else null
      ensures curr != null <==> key in entries
      ensures curr != null ==> curr.key == key && curr.instr == entries[key]
    {
      var h := Hash(key);
      prev, curr, i := null, heads[h], 0;
      assert Linked(heads[h], chains[h]) && Keyed(chains[h], h) && Describes(chains[h], h, entries);
      while curr != null && curr.key != key
        invariant i <= |chains[h]| && curr == At(chains[h], i)
        invariant prev == if i > 0 then At(chains[h], i - 1) else null
        invariant forall k :: 0 <= k < i ==> chains[h][k].key != key
        decreases |chains[h]| - i
      {
        prev, curr, i := curr, curr.next, i + 1;
      }
    }

    /** mp_hash_lookup. */
    method Lookup(key: MpKey) returns (entry: MpEntry?)
      requires Valid()
      ensures entry != null <==> key in entries
      ensures entry != null ==> entry.key == key && entry.instr == entries[key]
    {
      ghost var i;
      var prev;
      prev, entry, i := Search(key);
    }

    /** mp_hash_add. */
    method Add(key: MpKey, instr: int)
      requires Valid()
      modifies this, heads
      ensures Valid() && fresh(repr - old(repr))
      ensures entries == if key in old(entries) then old(entries) else old(entries)[key := instr]
    {
      var prev, curr;
      ghost var i;
      hide Contents, Hash, Linked;
      prev, curr, i := Search(key);
      ghost var was := chains;
      if curr != null {
        return;
      }
      var h := Hash(key);
      var entry := Push(h, key, instr);
      Pushed(was, entry, entries);
      entries := entries[key := instr];
    }

    /** A new entry at the head of chain `h`. */
    method Push(h: nat, key: MpKey, instr: int) returns (entry: MpEntry)
      requires Valid() && h < SIZE
      modifies heads, this`chains, this`repr
      ensures fresh(entry) && entry.key == key && entry.instr == instr && repr == old(repr) + {entry}
      ensures chains == old(chains)[h := [entry] + old(chains)[h]]
      ensures forall k :: 0 <= k < SIZE ==> Linked(heads[k], chains[k])
      ensures forall k, j :: 0 <= k < SIZE && 0 <= j < |chains[k]| ==> chains[k][j] in repr
    {
      hide Contents;
      ghost var chain := chains[h];
      assert Linked(heads[h], chain);
      entry := new MpEntry(key, instr, heads[h]);
      heads[h] := entry;
      chains := chains[h := [entry] + chain];
      repr := repr + {entry};
      forall k | 0 <= k < SIZE
        ensures Linked(heads[k], chains[k])
      {
        assert old(Linked(heads[k], chains[k]));
      }
    }

    /** mp_hash_delete; the entry taken out of the chain is handed to the caller. */
    method Delete(key: MpKey) returns (entry: MpEntry?)
      requires Valid()
      modifies this, heads, repr
      ensures Valid() && repr <= old(repr)
      ensures entry != null <==> key in old(entries)
      ensures entry != null ==> entry.instr == old(entries)[key]
      ensures entries == old(entries) - {key}
    {
      var prev;
      ghost var i;
      hide Contents, Hash, Linked;
      prev, entry, i := Search(key);
      if entry == null {
        return;
      }
      var h := Hash(key);
      Unlinked(chains, h, i, entries);
      Unlink(h, prev, entry, i);
      entries := entries - {key};
    }

    /** The entry's neighbours are joined. */
    method Unlink(h: nat, prev: MpEntry?, entry: MpEntry, ghost i: nat)
      requires Valid() && h < SIZE && i < |chains[h]| && entry == chains[h][i]
      requires prev == if i > 0 then At(chains[h], i - 1) else null
      modifies heads, this`chains, repr
      ensures chains == old(chains)[h := old(chains)[h][..i] + old(chains)[h][i + 1..]]
      ensures forall k :: 0 <= k < SIZE ==> Linked(heads[k], chains[k])
      ensures forall k, j :: 0 <= k < SIZE && 0 <= j < |chains[k]| ==> chains[k][j] in repr
    {
      hide Contents, Hash;
      ghost var chain, before := chains[h], chains;
      ghost var rest := chain[..i] + chain[i + 1..];
      assert Linked(heads[h], chain);
      if prev == null {
        heads[h] := entry.next;
      } else {
        prev.next := entry.next;
      }
      chains := chains[h := rest];
      forall k | 0 <= k < SIZE
        ensures Linked(heads[k], chains[k])
      {
        assert old(Linked(heads[k], chains[k]));
        if i > 0 { Apart(before, entries, h, i - 1, k); }
        if k == h {
          forall j | 0 <= j < |rest|
            ensures rest[j].next == At(rest, j + 1)
          {
            var m := if j < i then j else j + 1;
            Without(chain, i, j);
            assert m != i - 1 ==> rest[j].next == old(chain[m].next);
          }
        }
      }
    }
  }

  /** The places of a chain without entry `i`. */
  lemma Without(chain: seq<MpEntry>, i: nat, j: nat)
    requires i < |chain| && j < |chain| - 1
    ensures var rest, m := chain[..i] + chain[i + 1..], if j < i then j else j + 1;
      rest[j] == chain[m] && At(rest, j + 1) == At(chain, if m == i - 1 then i + 1 else m + 1)
  {
  }

  /** No entry is in two places. */
  lemma Apart(chains: seq<seq<MpEntry>>, entries: map<MpKey, int>, h: nat, i: nat, k: nat)
    requires |chains| == SIZE && Contents(chains, entries) && h < SIZE && i < |chains[h]| && k < SIZE
    ensures forall j :: 0 <= j < |chains[k]| && (k != h || j != i) ==> chains[k][j] != chains[h][i]
  {
  }

  /** A new entry at the head of its chain adds its key. */
  lemma Pushed(chains: seq<seq<MpEntry>>, entry: MpEntry, entries: map<MpKey, int>)
    requires |chains| == SIZE && Contents(chains, entries) && entry.key !in entries
    ensures var h := Hash(entry.key);
      Contents(chains[h := [entry] + chains[h]], entries[entry.key := entry.instr])
  {
    var h := Hash(entry.key);
    var now := chains[h := [entry] + chains[h]];
    forall k | 0 <= k < SIZE
      ensures Keyed(now[k], k) && Describes(now[k], k, entries[entry.key := entry.instr])
    {
      assert Keyed(chains[k], k) && Describes(chains[k], k, entries);
      if k == h { PushedOn(chains[h], entry, entries, h); }
    }
  }

  lemma PushedOn(chain: seq<MpEntry>, entry: MpEntry, entries: map<MpKey, int>, h: nat)
    requires Keyed(chain, h) && Describes(chain, h, entries) && Hash(entry.key) == h && entry.key !in entries
    ensures Keyed([entry] + chain, h) && Describes([entry] + chain, h, entries[entry.key := entry.instr])
  {
    var now := [entry] + chain;
    forall key | key in entries[entry.key := entry.instr] && Hash(key) == h
      ensures InChain(now, key)
    {
      if key == entry.key {
        assert now[0].key == key;
      } else {
        var i :| 0 <= i < |chain| && chain[i].key == key;
        assert now[i + 1].key == key;
      }
    }
  }

  /** Taking an entry out of its chain takes its key out, and only that. */
  lemma Unlinked(chains: seq<seq<MpEntry>>, h: nat, i: nat, entries: map<MpKey, int>)
    requires |chains| == SIZE && Contents(chains, entries) && h < SIZE && i < |chains[h]|
    ensures Contents(chains[h := chains[h][..i] + chains[h][i + 1..]], entries - {chains[h][i].key})
  {
    var key := chains[h][i].key;
    var now := chains[h := chains[h][..i] + chains[h][i + 1..]];
    forall k | 0 <= k < SIZE
      ensures Keyed(now[k], k) && Describes(now[k], k, entries - {key})
    {
      assert Keyed(chains[k], k) && Describes(chains[k], k, entries);
      assert Hash(key) == h;
      if k == h { UnlinkedFrom(chains[h], i, entries, h); }
    }
  }

  lemma UnlinkedFrom(chain: seq<MpEntry>, i: nat, entries: map<MpKey, int>, h: nat)
    requires i < |chain| && Keyed(chain, h) && Describes(chain, h, entries)
    ensures Keyed(chain[..i] + chain[i + 1..], h) && Describes(chain[..i] + chain[i + 1..], h, entries - {chain[i].key})
  {
    var now := chain[..i] + chain[i + 1..];
    assert forall k :: 0 <= k < |now| ==> now[k] == chain[if k < i then k else k + 1];
    forall key | key in entries - {chain[i].key} && Hash(key) == h
      ensures InChain(now, key)
    {
      var k :| 0 <= k < |chain| && chain[k].key == key;
      assert now[if k < i then k else k - 1].key == key;
    }
  }
}
