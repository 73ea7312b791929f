/**
 The string interner of zmailer/lib/symbol.c: a splay tree of collision chains.
 */
module Symbol {
  import opened SplayTree
  import opened SplayRuns

  type Name = seq<bv8>

  /** An entry; its address is the id of the symbol. */
  class Syment {
    const name: Name
    var next: Syment?

    constructor (name: Name)
      ensures this.name == name && next == null
    {
      this.name := name;
      next := null;
    }

    /** pname */
    function PName(): Name {
      name
    }
  }

  /** The names along c are different, and each entry links to the one after it. */
  ghost predicate Linked(c: seq<Syment>)
    reads c
  {
    && (forall i {:trigger Step(c, i)} :: 0 <= i < |c| ==> Step(c, i))
    && (forall i, j {:trigger c[i], c[j]} :: 0 <= i < j < |c| ==> c[i].name != c[j].name)
  }

  ghost predicate Step(c: seq<Syment>, i: int)
    requires 0 <= i < |c|
    reads c[i]
  {
    c[i].next == if i + 1 < |c| then c[i + 1] else null
  }

  /** The loop shared by the three routines: walks a chain until it meets the name s.
      `se` is the entry with that name, or null; `pe` is the entry before it, or the last. */
  method Walk(first: Syment, s: Name, ghost c: seq<Syment>) returns (se: Syment?, pe: Syment?, ghost i: int)
    requires Linked(c) && c != [] && c[0] == first
    ensures 0 <= i <= |c| && (forall j :: 0 <= j < i ==> c[j].name != s)
    ensures if i < |c| then se == c[i] && c[i].name == s else se == null
    ensures pe == if i == 0 then null else c[i - 1]
  {
    pe := null;
    se := first;
    i := 0;
    while se != null && se.name != s
      invariant 0 <= i <= |c| && (forall j :: 0 <= j < i ==> c[j].name != s)
      invariant se == if i < |c| then c[i] else null
      invariant pe == if i == 0 then null else c[i - 1]
      decreases |c| - i
    {
      assert Step(c, i);
      pe := se;
      se := se.next;
      i := i + 1;
    }
  }

  /** pe->next = se->next */
  method SkipNext(se: Syment, pe: Syment, ghost c: seq<Syment>, ghost i: int)
    requires Linked(c) && 0 < i < |c| && se == c[i] && pe == c[i - 1]
    modifies pe`next
    ensures Linked(c[..i] + c[i + 1..])
  {
    assert Step(c, i);
    pe.next := se.next;
    forall j | 0 <= j < |c| && j != i - 1 ensures Step(c, j) {
      assert old(Step(c, j)) && c[j] != pe;
    }
    Spliced(c, i);
  }

  class SymbolTable {
    const spt: Sptree
    const hash: Name -> nat
    ghost var chain: map<nat, seq<Syment>>   // the collision chain of each hash value in use
    ghost var ids: set<Syment>               // the live symbols

    constructor (hash: Name -> nat)
      ensures Valid() && ids == {} && this.hash == hash && fresh(spt) && fresh(Nodes(spt))
    {
      spt := new Sptree();
      this.hash := hash;
      chain, ids := map[], {};
    }

    /** The chain of hash value k: never empty, hung on the tree, all entries live. */
    ghost predicate BucketOk(m: map<nat, Entry>, k: nat)
      requires k in chain && k in m
      reads this, ids
    {
      && chain[k] != []
      && (forall c :: c in chain[k] ==> c in ids && hash(c.name) == k)
      && Linked(chain[k])
      && m[k].data == chain[k][0]
    }

    /** The chains are those that the contents m of the tree lead to. */
    ghost predicate Buckets(m: map<nat, Entry>)
      reads this, ids
    {
      && m.Keys == chain.Keys
      && (forall id :: id in ids ==> hash(id.name) in chain && id in chain[hash(id.name)])
      && (forall k {:trigger BucketOk(m, k)} :: k in chain ==> BucketOk(m, k))
    }

    ghost predicate Valid()
      reads this, spt, spt.order, spt.pool, spt.root, ids
    {
      spt.Valid() && Buckets(spt.Contents())
    }

    /** Two live symbols are the same exactly if their names are. */
    lemma SameIdIffSameName(a: Syment, b: Syment)
      requires Valid() && a in ids && b in ids
      ensures a == b <==> a.name == b.name
    {
      if a.name == b.name {
        Unique(spt.Contents(), a, b);
      }
    }

    lemma Unique(m: map<nat, Entry>, a: Syment, b: Syment)
      requires Buckets(m) && a in ids && b in ids && a.name == b.name
      ensures a == b
    {
      assert BucketOk(m, hash(a.name));
    }

    // ---------------------------------------------------------------- the chains alone

    /** A first entry for its hash value. */
    ghost method Register(m: map<nat, Entry>, id: Syment, e: Entry)
      requires Buckets(m) && hash(id.name) !in chain && id.next == null && id !in ids && e.data == id
      modifies this`chain, this`ids
      ensures Buckets(m[hash(id.name) := e]) && ids == old(ids) + {id}
    {
      var k, m' := hash(id.name), m[hash(id.name) := e];
      chain, ids := chain[k := [id]], ids + {id};
      forall k' | k' in chain ensures BucketOk(m', k') {
        if k' == k {
          assert Step([id], 0);
        } else {
          assert old(BucketOk(m, k'));
        }
      }
    }

    /** A new entry at the end of the chain of its hash value. */
    method Append(s: Name, pe: Syment, ghost m: map<nat, Entry>) returns (id: Syment)
      requires Buckets(m) && hash(s) in chain && (forall x :: x in chain[hash(s)] ==> x.name != s)
      requires BucketOk(m, hash(s)) && pe == chain[hash(s)][|chain[hash(s)]| - 1]
      modifies this`chain, this`ids, pe`next
      ensures Buckets(m) && fresh(id) && id.name == s && ids == old(ids) + {id}
    {
      ghost var k, c := hash(s), chain[hash(s)];
      id := new Syment(s);
      pe.next := id;
      chain, ids := chain[k := c + [id]], ids + {id};
      forall i | 0 <= i < |c| - 1 ensures Step(c, i) {
        assert old(Step(c, i)) && c[i].name != c[|c| - 1].name;
      }
      Appended(c, id);
      forall k' | k' in chain ensures BucketOk(m, k') {
        assert old(BucketOk(m, k'));
        if k' != k {
          assert pe !in old(chain)[k'];
          assert Linked(chain[k']);
        }
      }
    }

    /** An entry that is not the first leaves its chain. */
    method Unchain(se: Syment, pe: Syment, ghost i: int, ghost m: map<nat, Entry>)
      requires Buckets(m) && hash(se.name) in chain && BucketOk(m, hash(se.name))
      requires var c := chain[hash(se.name)]; 0 < i < |c| && se == c[i] && pe == c[i - 1]
      modifies this`chain, this`ids, pe`next
      ensures Buckets(m) && ids == old(ids) - {se}
    {
      ghost var k, c := hash(se.name), chain[hash(se.name)];
      SkipNext(se, pe, c, i);
      chain, ids := chain[k := c[..i] + c[i + 1..]], ids - {se};
      forall k' | k' in chain ensures BucketOk(m, k') {
        assert old(BucketOk(m, k'));
        if k' != k {
          assert pe !in chain[k'] && se !in chain[k'];
          assert Linked(chain[k']);
        }
      }
    }

    /** The first entry leaves a chain of two or more. */
    ghost method Shorten(m: map<nat, Entry>, se: Syment, e: Entry)
      requires Buckets(m) && hash(se.name) in chain && BucketOk(m, hash(se.name)) && chain[hash(se.name)][0] == se
      requires |chain[hash(se.name)]| > 1 && e.data == chain[hash(se.name)][1]
      modifies this`chain, this`ids
      ensures Buckets(m[hash(se.name) := e]) && ids == old(ids) - {se}
    {
      var k, c, m' := hash(se.name), chain[hash(se.name)], m[hash(se.name) := e];
      var d := c[1..];
      forall j | 0 <= j < |d| ensures Step(d, j) {
        assert Step(c, j + 1);
      }
      chain, ids := chain[k := d], ids - {se};
      forall k' | k' in chain ensures BucketOk(m', k') {
        assert old(BucketOk(m, k'));
      }
    }

    /** The only entry of a chain leaves, and the chain with it. */
    ghost method Forget(m: map<nat, Entry>, se: Syment)
      requires Buckets(m) && hash(se.name) in chain && BucketOk(m, hash(se.name)) && chain[hash(se.name)] == [se]
      modifies this`chain, this`ids
      ensures Buckets(m - {hash(se.name)}) && ids == old(ids) - {se}
    {
      var k, m' := hash(se.name), m - {hash(se.name)};
      chain, ids := chain - {k}, ids - {se};
      forall k' | k' in chain ensures BucketOk(m', k') {
        assert old(BucketOk(m, k'));
      }
    }

    // ---------------------------------------------------------------- the routines

    /** The search common to the routines: the tree node of the hash value of s, the entry with
        the name s in its chain, and the entry before it (or the last one). */
    method Seek(s: Name) returns (spl: Spblk?, se: Syment?, pe: Syment?, ghost i: int)
      requires Valid()
      modifies spt, Nodes(spt)
      ensures Valid() && Nodes(spt) == old(Nodes(spt)) && spt.Contents() == old(spt.Contents())
      ensures if hash(s) !in chain then spl == null && se == null && pe == null && forall x :: x in ids ==> x.name != s
              else BucketOk(spt.Contents(), hash(s)) && SeekOk(s, chain[hash(s)], spl, se, pe, i)
    {
      var key := hash(s);
      var a;
      spl, a := Peek(spt, key);
      assert Buckets(old(spt.Contents()));
      se, pe, i := null, null, 0;
      if spl != null {
        assert BucketOk(spt.Contents(), key);
        se, pe, i := Walk(a.entry.data as Syment, s, chain[key]);
      }
    }

    ghost predicate SeekOk(s: Name, c: seq<Syment>, spl: Spblk?, se: Syment?, pe: Syment?, i: int)
      reads spt, spl
    {
      && spl != null && In(spt.order, spl) && spl.key == hash(s)
      && 0 <= i <= |c| && (forall j :: 0 <= j < i ==> c[j].name != s)
      && (if i < |c| then se == c[i] && c[i].name == s else se == null)
      && pe == if i == 0 then null else c[i - 1]
    }

    /** symbol_lookup_db_mem_: the id of the name s, or null if it has none. */
    method Lookup(s: Name) returns (id: Syment?)
      requires Valid()
      modifies spt, Nodes(spt)
      ensures Valid() && Nodes(spt) == old(Nodes(spt))
      ensures if id == null then forall x :: x in ids ==> x.name != s else id in ids && id.name == s
    {
      var pe;
      id, pe := SeekEntry(s);
    }

    /** The entry of the name s; if there is none, the last entry of its chain, if there is a chain. */
    method SeekEntry(s: Name) returns (se: Syment?, pe: Syment?)
      requires Valid()
      modifies spt, Nodes(spt)
      ensures Valid() && Nodes(spt) == old(Nodes(spt)) && spt.Contents() == old(spt.Contents())
      ensures se != null ==> se in ids && se.name == s
      ensures se == null ==> forall x :: x in ids ==> x.name != s
      ensures se == null ==> (pe == null <==> hash(s) !in chain)
      ensures se == null && pe != null ==> BucketOk(spt.Contents(), hash(s)) && pe == chain[hash(s)][|chain[hash(s)]| - 1]
    {
      var spl; ghost var i;
      spl, se, pe, i := Seek(s);
    }

    /** symbol_db_mem_: the id of the name s, made if it has none. */
    method Intern(s: Name) returns (id: Syment)
      requires Valid()
      modifies this, spt, Nodes(spt), ids
      ensures Valid() && id in ids && id.name == s && fresh(Nodes(spt) - old(Nodes(spt)))
      ensures if exists x :: x in old(ids) && x.name == s then ids == old(ids) else fresh(id) && ids == old(ids) + {id}
    {
      var se, pe := SeekEntry(s);
      if se != null {
        id := se;
      } else {
        id := Make(s, pe);
      }
    }

    /** A new symbol: at the end of the chain of its hash value, or in a chain of its own. */
    method Make(s: Name, pe: Syment?) returns (id: Syment)
      requires Valid() && forall x :: x in ids ==> x.name != s
      requires pe == null <==> hash(s) !in chain
      requires pe != null ==> BucketOk(spt.Contents(), hash(s)) && pe == chain[hash(s)][|chain[hash(s)]| - 1]
      modifies this`chain, this`ids, spt, Nodes(spt), ids
      ensures Valid() && fresh(id) && id.name == s && ids == old(ids) + {id} && fresh(Nodes(spt) - old(Nodes(spt)))
    {
      if pe != null {
        id := Append(s, pe, spt.Contents());
      } else {
        id := NewBucket(s);
      }
    }

    method NewBucket(s: Name) returns (id: Syment)
      requires Valid() && hash(s) !in chain
      modifies this`chain, this`ids, spt, Nodes(spt)
      ensures Valid() && fresh(id) && id.name == s && ids == old(ids) + {id} && fresh(Nodes(spt) - old(Nodes(spt)))
    {
      id := new Syment(s);
      HangNew(id);
    }

    method HangNew(id: Syment)
      requires Valid() && hash(id.name) !in chain && id.next == null && id !in ids
      modifies this`chain, this`ids, spt, Nodes(spt)
      ensures Valid() && ids == old(ids) + {id} && fresh(Nodes(spt) - old(Nodes(spt)))
    {
      ghost var m := spt.Contents();
      Bind(spt, hash(id.name), id, 0);
      Register(m, id, Entry(id, 0));
    }

    /** symbol_free_db_mem_: the name s, and no other, loses its id. */
    method Free(s: Name)
      requires Valid()
      modifies this, spt, Nodes(spt), ids
      ensures Valid() && Nodes(spt) == old(Nodes(spt))
      ensures ids == set x | x in old(ids) && x.name != s
    {
      var spl, se, pe; ghost var i;
      spl, se, pe, i := Seek(s);
      if se != null {
        forall x | x in ids && x.name == s ensures x == se {
          Unique(spt.Contents(), x, se);
        }
        Remove(spl, se, pe, i);
      }
    }

    /** The entry se leaves its chain. */
    method Remove(spl: Spblk, se: Syment, pe: Syment?, ghost i: int)
      requires Valid() && hash(se.name) in chain && BucketOk(spt.Contents(), hash(se.name))
      requires SeekOk(se.name, chain[hash(se.name)], spl, se, pe, i)
      modifies this`chain, this`ids, spt, Nodes(spt), ids
      ensures Valid() && Nodes(spt) == old(Nodes(spt)) && ids == old(ids) - {se}
    {
      if pe != null {
        Unchain(se, pe, i, spt.Contents());
      } else {
        Behead(spl, se);
      }
    }

    /** The first entry of its chain is freed; a tree node left without entries is deleted. */
    method Behead(spl: Spblk, se: Syment)
      requires Valid() && hash(se.name) in chain && BucketOk(spt.Contents(), hash(se.name))
      requires chain[hash(se.name)][0] == se && In(spt.order, spl) && spl.key == hash(se.name)
      modifies this`chain, this`ids, spt, Nodes(spt)
      ensures Valid() && Nodes(spt) == old(Nodes(spt)) && ids == old(ids) - {se}
    {
      ghost var m := spt.Contents();
      assert Step(chain[hash(se.name)], 0);
      if se.next == null {
        Forget(m, se);
        Unbind(spt, spl);
        assert Buckets(m - {hash(se.name)});
      } else {
        var next := se.next;
        Shorten(m, se, Entry(next, spl.mark));
        assert spt.order[spl.pos] == spl;
        Rebind(spt, spl, next);
        assert Buckets(m[hash(se.name) := Entry(next, old(spl.mark))]);
      }
    }

    /** symbol_null_db: the scan frees every entry, and no symbol is left. */
    method Clear() returns (freed: seq<Syment>)
      requires Valid()
      modifies this, spt, Nodes(spt)
      ensures Valid() && ids == {} && Nodes(spt) == old(Nodes(spt))
      ensures Once(freed) && forall id :: id in freed <==> id in old(ids)
    {
      freed := FreeEntries();
      spt.Null();
      chain, ids := map[], {};
    }

    /** The entries of the tree nodes at places below p have been freed, each once. */
    ghost predicate FreedBelow(freed: seq<Syment>, p: int)
      requires 0 <= p <= |spt.order|
      reads this, spt, spt.order
    {
      && Once(freed)
      && (forall id :: id in freed ==> id in ids && KeyBelow(hash(id.name), p))
      && (forall id :: id in ids && KeyBelow(hash(id.name), p) ==> id in freed)
    }

    ghost predicate KeyBelow(key: nat, p: int)
      requires 0 <= p <= |spt.order|
      reads spt, spt.order
    {
      exists i :: 0 <= i < p && spt.order[i].key == key
    }

    /** The scan of symbol_null_db: the successor of a node is taken before its entries are freed. */
    method FreeEntries() returns (freed: seq<Syment>)
      requires Valid()
      ensures Once(freed) && forall id :: id in freed <==> id in ids
    {
      freed := [];
      var x := spt.FHead();
      ghost var p := 0;
      while x != null
        invariant 0 <= p <= |spt.order| && x == At(spt.order, p) && FreedBelow(freed, p)
        decreases |spt.order| - p
      {
        x, freed := FreeRound(x, freed, p);
        p := p + 1;
      }
      AllKeysBelow();
    }

    method FreeRound(x: Spblk, freed: seq<Syment>, ghost p: int) returns (next: Spblk?, freed': seq<Syment>)
      requires Valid() && 0 <= p < |spt.order| && spt.order[p] == x && FreedBelow(freed, p)
      ensures next == At(spt.order, p + 1) && FreedBelow(freed', p + 1)
    {
      Located(p);
      next := spt.FNext(x);
      freed' := FreeNode(x, freed, p);
    }

    /** symbol_null on one tree node. */
    method FreeNode(x: Spblk, freed: seq<Syment>, ghost p: int) returns (freed': seq<Syment>)
      requires Valid() && 0 <= p < |spt.order| && spt.order[p] == x && FreedBelow(freed, p)
      ensures FreedBelow(freed', p + 1)
    {
      Located(p);
      ghost var c := chain[x.key];
      var more := FreeChain(x.data as Syment, c);
      freed' := freed + more;
      KeyNotBelow(p);
      forall key: nat ensures KeyBelow(key, p + 1) <==> KeyBelow(key, p) || key == x.key {
        OneMoreKey(key, p);
      }
      forall id | id in ids && hash(id.name) == x.key ensures id in c {
        assert id in chain[hash(id.name)];
      }
      ConcatOnce(freed, more);
    }

    lemma OneMoreKey(key: nat, p: int)
      requires 0 <= p < |spt.order|
      ensures KeyBelow(key, p + 1) <==> KeyBelow(key, p) || key == spt.order[p].key
    {
      if key == spt.order[p].key { assert 0 <= p < p + 1; }
    }

    /** The node at place p is in the tree, and its chain hangs on it. */
    lemma Located(p: int)
      requires Valid() && 0 <= p < |spt.order|
      ensures In(spt.order, spt.order[p]) && spt.order[p].pos == p
      ensures var x := spt.order[p]; x.key in chain && BucketOk(spt.Contents(), x.key) && x.data == chain[x.key][0]
    {
      assert Fits(spt.order, spt.g, p);
      TableHas(spt.Rows(), p);
      assert BucketOk(spt.Contents(), spt.order[p].key);
    }

    lemma KeyNotBelow(p: int)
      requires Valid() && 0 <= p < |spt.order|
      ensures !KeyBelow(spt.order[p].key, p)
    {
      spt.KeysAscend();
    }

    lemma AllKeysBelow()
      requires Valid()
      ensures forall id :: id in ids ==> KeyBelow(hash(id.name), |spt.order|)
    {
      forall id | id in ids ensures KeyBelow(hash(id.name), |spt.order|) {
        var i := TableAt(spt.Rows(), hash(id.name));
        assert spt.order[i].key == spt.Rows()[i].key;
      }
    }
  }

  /** No entry occurs twice. */
  ghost predicate Once(c: seq<Syment>) {
    forall i, j {:trigger c[i], c[j]} :: 0 <= i < j < |c| ==> c[i] != c[j]
  }

  lemma ConcatOnce(a: seq<Syment>, b: seq<Syment>)
    requires Once(a) && Once(b) && forall x :: x in a ==> x !in b
    ensures Once(a + b)
  {
    forall i, j | 0 <= i < j < |a + b| ensures (a + b)[i] != (a + b)[j] {
      assert i < |a| <= j ==> a[i] in a && b[j - |a|] in b;
    }
  }

  /** The loop of symbol_null: the next entry is read before the entry is freed. */
  method FreeChain(first: Syment, ghost c: seq<Syment>) returns (freed: seq<Syment>)
    requires Linked(c) && c != [] && c[0] == first
    ensures freed == c && Once(freed)
  {
    freed := [];
    var se: Syment? := first;
    while se != null
      invariant |freed| <= |c| && freed == c[..|freed|] && se == if |freed| < |c| then c[|freed|] else null
      decreases |c| - |freed|
    {
      assert Step(c, |freed|);
      var sn := se.next;
      freed := freed + [se];
      se := sn;
    }
  }

  lemma Spliced(c: seq<Syment>, i: int)
    requires 0 < i < |c| && c[i - 1].next == if i + 1 < |c| then c[i + 1] else null
    requires forall j {:trigger Step(c, j)} :: 0 <= j < |c| && j != i - 1 ==> Step(c, j)
    requires forall i, j {:trigger c[i], c[j]} :: 0 <= i < j < |c| ==> c[i].name != c[j].name
    ensures Linked(c[..i] + c[i + 1..])
  {
    var d := c[..i] + c[i + 1..];
    forall j | 0 <= j < |d| ensures Step(d, j) {
      if j < i - 1 {
        assert Step(c, j);
      } else if j >= i {
        assert Step(c, j + 1);
      }
    }
  }

  lemma Appended(c: seq<Syment>, id: Syment)
    requires c != [] && (forall x :: x in c ==> x.name != id.name)
    requires forall i {:trigger Step(c, i)} :: 0 <= i < |c| - 1 ==> Step(c, i)
    requires forall i, j {:trigger c[i], c[j]} :: 0 <= i < j < |c| ==> c[i].name != c[j].name
    requires c[|c| - 1].next == id && id.next == null
    ensures Linked(c + [id])
  {
    var d := c + [id];
    forall i | 0 <= i < |d| ensures Step(d, i) {
      if i < |c| - 1 { assert Step(c, i); }
    }
    forall i, j | 0 <= i < j < |d| ensures d[i].name != d[j].name {
      if j == |c| { assert d[i] in c; }
    }
  }
}
