/** The representation of the page index and of the page tables: hash buckets of pages that
    remember their key, and two-level tables. */
module VmIndex {
  import opened Wrappers
  import opened VmState

  const NUM_HASH_BUCKETS := 37
  const TABLE_ENTRIES := 1024

  /** Where caches lie in memory. */
  type Addresses = nat -> nat

  function Bucket(at: Addresses, k: Key): nat {
    (at(k.whose) + k.page) % 0x1_0000_0000 % NUM_HASH_BUCKETS
  }

  // ------------------------------------------------------------ hash buckets

  ghost predicate InBucket(p: nat, h: nat, owner: seq<Option<Key>>, index: map<Key, nat>, at: Addresses) {
    && p < |owner| && owner[p].Some? && Bucket(at, owner[p].value) == h
    && owner[p].value in index && index[owner[p].value] == p
  }

  ghost predicate BucketOk(pages: seq<nat>, h: nat, owner: seq<Option<Key>>, index: map<Key, nat>, at: Addresses) {
    Distinct(pages) && forall i :: 0 <= i < |pages| ==> InBucket(pages[i], h, owner, index, at)
  }

  ghost predicate Entered(buckets: seq<seq<nat>>, owner: seq<Option<Key>>, k: Key, p: nat, at: Addresses)
    requires |buckets| == NUM_HASH_BUCKETS
  {
    p in buckets[Bucket(at, k)] && p < |owner| && owner[p] == Some(k)
  }

  /** The buckets hold the plain map `index`. */
  ghost predicate Indexes(buckets: seq<seq<nat>>, owner: seq<Option<Key>>, index: map<Key, nat>, at: Addresses) {
    && |buckets| == NUM_HASH_BUCKETS
    && (forall h :: 0 <= h < NUM_HASH_BUCKETS ==> BucketOk(buckets[h], h, owner, index, at))
    && (forall k :: k in index ==> Entered(buckets, owner, k, index[k], at))
  }

  /** One page per key and one key per page. */
  lemma IndexInjective(buckets: seq<seq<nat>>, owner: seq<Option<Key>>, index: map<Key, nat>, at: Addresses, k: Key, l: Key)
    requires Indexes(buckets, owner, index, at) && k in index && l in index && index[k] == index[l]
    ensures k == l
  {
    assert Entered(buckets, owner, k, index[k], at) && Entered(buckets, owner, l, index[l], at);
  }

  lemma IndexInserts(buckets: seq<seq<nat>>, owner: seq<Option<Key>>, index: map<Key, nat>, at: Addresses, k: Key, p: nat)
    requires Indexes(buckets, owner, index, at) && k !in index && p < |owner| && p !in index.Values
    ensures Indexes(buckets[Bucket(at, k) := buckets[Bucket(at, k)] + [p]], owner[p := Some(k)], index[k := p], at)
  {
    var h := Bucket(at, k);
    var b, o, m := buckets[h := buckets[h] + [p]], owner[p := Some(k)], index[k := p];
    forall g | 0 <= g < NUM_HASH_BUCKETS ensures BucketOk(b[g], g, o, m, at) {
      assert BucketOk(buckets[g], g, owner, index, at);
      forall i | 0 <= i < |buckets[g]| ensures buckets[g][i] != p && InBucket(buckets[g][i], g, o, m, at) {
        assert InBucket(buckets[g][i], g, owner, index, at);
      }
    }
    forall l | l in m ensures Entered(b, o, l, m[l], at) {
      if l != k {
        assert Entered(buckets, owner, l, index[l], at) && index[l] in index.Values;
      }
    }
  }

  function Without(s: seq<nat>, p: nat): seq<nat> {
    if s == [] then [] else if s[0] == p then s[1..] else [s[0]] + Without(s[1..], p)
  }

  lemma {:induction false} WithoutOne(s: seq<nat>, p: nat)
    requires Distinct(s)
    ensures Distinct(Without(s, p))
    ensures forall q :: q in Without(s, p) <==> q in s && q != p
  {
    if s != [] {
      var rest := s[1..];
      assert s == [s[0]] + rest;
      assert Distinct(rest) && s[0] !in rest by {
        assert forall i :: 0 <= i < |rest| ==> rest[i] == s[i + 1];
      }
      WithoutOne(rest, p);
    }
  }

  lemma IndexRemoves(buckets: seq<seq<nat>>, owner: seq<Option<Key>>, index: map<Key, nat>, at: Addresses, k: Key)
    requires Indexes(buckets, owner, index, at) && k in index
    ensures Indexes(buckets[Bucket(at, k) := Without(buckets[Bucket(at, k)], index[k])], owner, index - {k}, at)
  {
    var h := Bucket(at, k);
    var b, m := buckets[h := Without(buckets[h], index[k])], index - {k};
    assert BucketOk(buckets[h], h, owner, index, at);
    WithoutOne(buckets[h], index[k]);
    forall g | 0 <= g < NUM_HASH_BUCKETS ensures BucketOk(b[g], g, owner, m, at) {
      assert BucketOk(buckets[g], g, owner, index, at);
      forall i | 0 <= i < |b[g]| ensures InBucket(b[g][i], g, owner, m, at) {
        assert b[g][i] in b[g];
        assert b[g][i] in buckets[g];
        assert Entered(buckets, owner, k, index[k], at);
      }
    }
    forall l | l in m ensures Entered(b, owner, l, m[l], at) {
      assert Entered(buckets, owner, l, index[l], at) && Entered(buckets, owner, k, index[k], at);
    }
  }

  /** A page that is in no cache forgets its last key when it is allocated. */
  lemma IndexForgets(buckets: seq<seq<nat>>, owner: seq<Option<Key>>, index: map<Key, nat>, at: Addresses, p: nat)
    requires Indexes(buckets, owner, index, at) && p < |owner| && p !in index.Values
    ensures Indexes(buckets, owner[p := None], index, at)
  {
    var o := owner[p := None];
    forall g | 0 <= g < NUM_HASH_BUCKETS ensures BucketOk(buckets[g], g, o, index, at) {
      assert BucketOk(buckets[g], g, owner, index, at);
      forall i | 0 <= i < |buckets[g]| ensures InBucket(buckets[g][i], g, o, index, at) {
        assert InBucket(buckets[g][i], g, owner, index, at);
      }
    }
    forall l | l in index ensures Entered(buckets, o, l, index[l], at) {
      assert Entered(buckets, owner, l, index[l], at) && index[l] in index.Values;
    }
  }

  // -------------------------------------------------------- two-level tables

  type Table = s: seq<Option<Pte>> | |s| == TABLE_ENTRIES witness seq(TABLE_ENTRIES, _ => None)

  function EmptyTable(): Table {
    seq(TABLE_ENTRIES, _ => None)
  }

  function DirectoryKey(k: Key): Key {
    Key(k.whose, k.page / TABLE_ENTRIES)
  }

  /** What the two levels say of a page of an address space. */
  function Walk(tables: map<Key, nat>, slots: map<nat, Table>, k: Key): Option<Pte> {
    if DirectoryKey(k) in tables && tables[DirectoryKey(k)] in slots
    then slots[tables[DirectoryKey(k)]][k.page % TABLE_ENTRIES]
    else None
  }

  ghost predicate Maps(tables: map<Key, nat>, slots: map<nat, Table>, ptes: map<Key, Pte>) {
    && (forall d :: d in tables ==> tables[d] in slots)
    && (forall d, e :: d in tables && e in tables && tables[d] == tables[e] ==> d == e)
    && (forall k :: Walk(tables, slots, k) == if k in ptes then Some(ptes[k]) else None)
  }

  lemma SlotsDiffer(k: Key, l: Key)
    requires DirectoryKey(k) == DirectoryKey(l) && k.page % TABLE_ENTRIES == l.page % TABLE_ENTRIES
    ensures k == l
  {
  }

  lemma EntryWritten(tables: map<Key, nat>, slots: map<nat, Table>, ptes: map<Key, Pte>, k: Key, e: Pte)
    requires Maps(tables, slots, ptes) && DirectoryKey(k) in tables
    ensures var t := tables[DirectoryKey(k)];
            Maps(tables, slots[t := slots[t][k.page % TABLE_ENTRIES := Some(e)]], ptes[k := e])
  {
    var t := tables[DirectoryKey(k)];
    var s := slots[t := slots[t][k.page % TABLE_ENTRIES := Some(e)]];
    forall l ensures Walk(tables, s, l) == if l in ptes[k := e] then Some(ptes[k := e][l]) else None {
      assert Walk(tables, slots, l) == if l in ptes then Some(ptes[l]) else None;
      if DirectoryKey(l) in tables && tables[DirectoryKey(l)] == t && l.page % TABLE_ENTRIES == k.page % TABLE_ENTRIES {
        SlotsDiffer(k, l);
      }
    }
  }

  lemma TableAdded(tables: map<Key, nat>, slots: map<nat, Table>, ptes: map<Key, Pte>, d: Key, t: nat)
    requires Maps(tables, slots, ptes) && d !in tables && t !in tables.Values
    ensures Maps(tables[d := t], slots[t := EmptyTable()], ptes)
  {
    forall l ensures Walk(tables[d := t], slots[t := EmptyTable()], l) == if l in ptes then Some(ptes[l]) else None {
      assert Walk(tables, slots, l) == if l in ptes then Some(ptes[l]) else None;
      if DirectoryKey(l) in tables {
        assert tables[DirectoryKey(l)] in tables.Values;
      }
    }
    var m := tables[d := t];
    forall a, b | a in m && b in m && m[a] == m[b] ensures a == b {
      assert a in tables ==> tables[a] in tables.Values;
      assert b in tables ==> tables[b] in tables.Values;
    }
  }
}
