/**
 zmailer/intl/l10nflist.c: the pool of locale files, sorted by file name, and the successors of each.
 Masks are numbers, and their bits are read by division.
 */
module L10nList {
  import opened Strcmp
  import opened BitCount

  /** The components of a locale name. */
  datatype Parts = Parts(language: string, territory: string, codeset: string, normalized: string, modifier: string,
                         special: string, sponsor: string, revision: string, filename: string)

  const CEN_REVISION := 1
  const CEN_SPONSOR := 2
  const CEN_SPECIAL := 4
  const XPG_NORM_CODESET := 8
  const XPG_CODESET := 16
  const TERRITORY := 32
  const CEN_AUDIENCE := 64
  const XPG_MODIFIER := 128

  predicate CenSpecific(c: nat) {
    Bit(c, CEN_REVISION) || Bit(c, CEN_SPONSOR) || Bit(c, CEN_SPECIAL) || Bit(c, CEN_AUDIENCE)
  }

  predicate XpgSpecific(c: nat) {
    Bit(c, XPG_CODESET) || Bit(c, XPG_NORM_CODESET) || Bit(c, XPG_MODIFIER)
  }

  /** The bit patterns for which successors are made. */
  predicate Allowed(c: nat, mask: nat) {
    Sub(c, mask) && (!CenSpecific(c) || !XpgSpecific(c)) && (!Bit(c, XPG_CODESET) || !Bit(c, XPG_NORM_CODESET))
  }

  function Joined(dirs: seq<string>): string {
    if dirs == [] then "" else if |dirs| == 1 then dirs[0] + "/" else dirs[0] + ":" + Joined(dirs[1..])
  }

  /** An absolute language makes the directories irrelevant. */
  function Effective(dirs: seq<string>, p: Parts): seq<string> {
    if p.language != [] && p.language[0] == '/' then [] else dirs
  }

  function NameOf(dirs: seq<string>, mask: nat, p: Parts): string {
    Joined(Effective(dirs, p)) + p.language
    + (if Bit(mask, TERRITORY) then "_" + p.territory else "")
    + (if Bit(mask, XPG_CODESET) then "." + p.codeset else "")
    + (if Bit(mask, XPG_NORM_CODESET) then "." + p.normalized else "")
    + (if Bit(mask, XPG_MODIFIER) || Bit(mask, CEN_AUDIENCE)
       then (if Bit(mask, CEN_AUDIENCE) then "+" else "@") + p.modifier else "")
    + (if Bit(mask, CEN_SPECIAL) then "+" + p.special else "")
    + (if Bit(mask, CEN_SPONSOR) || Bit(mask, CEN_REVISION)
       then "," + (if Bit(mask, CEN_SPONSOR) then p.sponsor else "") + (if Bit(mask, CEN_REVISION) then "_" + p.revision else "")
       else "")
    + "/" + p.filename
  }

  // ------------------------------------------------------------------ the successors

  /** dirlist_count */
  function DirCount(dirs: seq<string>): (n: nat)
    ensures n > 0
  {
    if dirs == [] then 1 else |dirs|
  }

  /** A successor: its directories and its mask. */
  datatype Target = Target(dirs: seq<string>, mask: nat)

  /** The successors for one bit pattern: one for each directory. */
  function Targets(dirs: seq<string>, c: nat): (ts: seq<Target>)
    ensures |ts| == DirCount(dirs)
  {
    if |dirs| > 1 then seq(|dirs|, i requires 0 <= i < |dirs| => Target([dirs[i]], c)) else [Target(dirs, c)]
  }

  /** The successors for the bit patterns below n, from the greatest on. */
  function Below(dirs: seq<string>, mask: nat, n: nat): seq<Target> {
    if n == 0 then [] else (if Allowed(n - 1, mask) then Targets(dirs, n - 1) else []) + Below(dirs, mask, n - 1)
  }

  lemma BelowNext(dirs: seq<string>, mask: nat, n: nat, done: seq<Target>, goal: seq<Target>)
    requires n > 0 && done + Below(dirs, mask, n) == goal
    ensures if Allowed(n - 1, mask)
      then (done + Targets(dirs, n - 1)) + Below(dirs, mask, n - 1) == goal && |done| + DirCount(dirs) <= |goal|
      else done + Below(dirs, mask, n - 1) == goal
  {
    var rest := Below(dirs, mask, n - 1);
    assert (done + Targets(dirs, n - 1)) + rest == done + (Targets(dirs, n - 1) + rest);
    assert [] + rest == rest;
  }

  /** The loop starts with the mask itself only if there are several directories. */
  function Bound(dirs: seq<string>, mask: nat): nat {
    if |dirs| > 1 then mask + 1 else mask
  }

  /** Not a real file: several directories, or a codeset in both forms. */
  predicate Settled(dirs: seq<string>, mask: nat) {
    |dirs| > 1 || (Bit(mask, XPG_CODESET) && Bit(mask, XPG_NORM_CODESET))
  }

  /** The number of elements of the successor array; one is part of the struct. */
  function Room(dirs: seq<string>, mask: nat): nat {
    Product(DirCount(dirs), Power(Pop(mask))) + (if |dirs| > 1 then 1 else 0) + 1
  }

  function Product(a: nat, b: nat): nat {
    a * b
  }

  lemma {:induction false} BelowSize(dirs: seq<string>, mask: nat, n: nat)
    ensures |Below(dirs, mask, n)| <= Product(DirCount(dirs), Count(mask, n))
  {
    if n > 0 {
      BelowSize(dirs, mask, n - 1);
      Distribute(DirCount(dirs), Count(mask, n - 1));
    }
  }

  lemma Distribute(d: nat, c: nat)
    ensures Product(d, c + 1) == Product(d, c) + d
  {
  }

  lemma Monotone(d: nat, a: nat, b: nat)
    requires a <= b
    ensures Product(d, a) <= Product(d, b)
  {
  }

  /** The successors and the terminating NULL fit the array. */
  lemma SuccessorsFit(dirs: seq<string>, mask: nat)
    requires mask < 0x1_0000
    ensures |Below(dirs, mask, Bound(dirs, mask))| < Room(dirs, mask)
  {
    var n, d := Bound(dirs, mask), DirCount(dirs);
    BelowSize(dirs, mask, n);
    CountIsPower(mask);
    PopCounts(mask);
    Monotone(d, Count(mask, n), Count(mask, mask + 1));
  }

  // ------------------------------------------------------------------ the pool

  /** struct loaded_l10nfile */
  class File {
    const filename: string
    const decided: bool
    var next: File?
    const successor: array<File?>

    constructor (name: string, settled: bool, room: nat)
      ensures filename == name && decided == settled && next == null && successor.Length == room && fresh(successor)
    {
      filename, decided, next := name, settled, null;
      successor := new File?[room](_ => null);
    }
  }

  ghost predicate Linked(files: seq<File>, i: int)
    requires 0 <= i < |files|
    reads files[i]
  {
    files[i].next == if i + 1 < |files| then files[i + 1] else null
  }

  ghost predicate Chain(h: File?, files: seq<File>)
    reads files
  {
    && h == (if files == [] then null else files[0])
    && forall i {:trigger files[i].next} :: 0 <= i < |files| ==> Linked(files, i)
  }

  predicate Greater(f: File, g: File) {
    Compare(f.filename, g.filename) > 0
  }

  /** Strictly decreasing by file name, so without duplicates. */
  ghost predicate Decreasing(files: seq<File>) {
    forall i, j {:trigger Greater(files[i], files[j])} :: 0 <= i < j < |files| ==> Greater(files[i], files[j])
  }

  /** The array of f holds the given successors, then NULL. */
  ghost predicate Filled(f: File, targets: seq<Target>, p: Parts)
    reads f.successor
  {
    Held(f, targets, p) && |targets| < f.successor.Length && f.successor[|targets|] == null
  }

  ghost predicate Held(f: File, targets: seq<Target>, p: Parts)
    reads f.successor
  {
    |targets| <= f.successor.Length && forall i {:trigger targets[i]} :: 0 <= i < |targets| ==> Holds(f.successor[i], targets[i], p)
  }

  predicate Holds(f: File?, t: Target, p: Parts) {
    f != null && f.filename == NameOf(t.dirs, t.mask, p)
  }

  lemma InsertDecreasing(files: seq<File>, k: nat, f: File)
    requires Decreasing(files) && k <= |files|
    requires (forall i :: 0 <= i < k ==> Greater(files[i], f)) && forall i :: k <= i < |files| ==> Greater(f, files[i])
    ensures Decreasing(files[..k] + [f] + files[k..])
  {
    var files' := files[..k] + [f] + files[k..];
    forall i, j | 0 <= i < j < |files'| ensures Greater(files'[i], files'[j]) {
      if i != k && j != k {
        assert Greater(files[if i < k then i else i - 1], files[if j < k then j else j - 1]);
      }
    }
  }

  lemma DecreasingDistinct(files: seq<File>)
    requires Decreasing(files)
    ensures forall i, j :: 0 <= i < j < |files| ==> files[i] != files[j]
  {
    forall i, j | 0 <= i < j < |files| ensures files[i] != files[j] {
      assert Greater(files[i], files[j]);
    }
  }

  /** f comes in front of place k. */
  method LinkIn(f: File, prev: File?, head: File?, ghost files: seq<File>, ghost k: nat) returns (h: File?)
    requires Chain(head, files) && f !in files && k <= |files| && prev == (if k == 0 then null else files[k - 1])
    requires forall i, j :: 0 <= i < j < |files| ==> files[i] != files[j]
    modifies f`next, (if prev == null then {} else {prev})`next
    ensures Chain(h, files[..k] + [f] + files[k..])
  {
    h := head;
    if prev == null {
      f.next := head;
      h := f;
    } else {
      assert Linked(files, k - 1);
      f.next := prev.next;
      prev.next := f;
    }
    ghost var files' := files[..k] + [f] + files[k..];
    forall i | 0 <= i < |files'| ensures Linked(files', i) {
      assert files'[i] == if i < k then files[i] else if i == k then f else files[i - 1];
      assert i < k - 1 ==> old(Linked(files, i));
      assert i > k ==> old(Linked(files, i - 1));
    }
  }

  class Pool {
    var head: File?
    ghost var files: seq<File>

    ghost predicate Valid()
      reads this, files
    {
      Chain(head, files) && Decreasing(files)
    }

    constructor ()
      ensures Valid() && files == []
    {
      head, files := null, [];
    }

    /** The search for a file name: the file, or where it belongs. */
    method Search(name: string) returns (found: File?, prev: File?, ghost k: nat)
      requires Valid()
      ensures k <= |files| && prev == if k == 0 then null else files[k - 1]
      ensures forall i :: 0 <= i < k ==> Compare(files[i].filename, name) > 0
      ensures found != null ==> k < |files| && found == files[k] && found.filename == name
      ensures found == null ==> forall i :: k <= i < |files| ==> Compare(name, files[i].filename) > 0
    {
      found, prev, k := head, null, 0;
      while found != null
        invariant k <= |files| && found == (if k < |files| then files[k] else null)
        invariant prev == if k == 0 then null else files[k - 1]
        invariant forall i :: 0 <= i < k ==> Compare(files[i].filename, name) > 0
        decreases |files| - k
      {
        var compare := Compare(found.filename, name);
        if compare == 0 { return; }
        if compare < 0 {
          Smaller(name, k);
          return null, prev, k;
        }
        assert Linked(files, k);
        prev := found;
        found := found.next;
        k := k + 1;
      }
    }

    lemma Smaller(name: string, k: nat)
      requires Valid() && k < |files| && Compare(files[k].filename, name) < 0
      ensures forall i :: k <= i < |files| ==> Compare(name, files[i].filename) > 0
    {
      CompareFlips(files[k].filename, name);
      forall i | k < i < |files| ensures Compare(name, files[i].filename) > 0 {
        assert Greater(files[k], files[i]);
        CompareChain(name, files[k].filename, files[i].filename);
      }
    }

    /** retval->next = *lastp; *lastp = retval */
    method Insert(f: File, prev: File?, ghost k: nat, ghost all: set<File>)
      requires Valid() && k <= |files| && prev == (if k == 0 then null else files[k - 1]) && f !in files
      requires forall i :: 0 <= i < k ==> Compare(files[i].filename, f.filename) > 0
      requires forall i :: k <= i < |files| ==> Compare(f.filename, files[i].filename) > 0
      requires f in all && forall g :: g in files ==> g in all
      modifies this`head, this`files, all`next
      ensures Valid() && files == old(files)[..k] + [f] + old(files)[k..]
    {
      InsertDecreasing(files, k, f);
      DecreasingDistinct(files);
      assert prev != null ==> prev in files;
      head := LinkIn(f, prev, head, files, k);
      files := files[..k] + [f] + files[k..];
    }

    /** What a call keeps: no file leaves the pool, and only new ones join it. */
    twostate predicate Grew()
      reads this
    {
      (forall f :: f in old(files) ==> f in files) && (forall f :: f in files ==> f in old(files) || fresh(f))
    }

    /** The first n successors of f are files of the pool. */
    ghost predicate Own(f: File, n: nat)
      reads this, f.successor
    {
      n <= f.successor.Length && forall i {:trigger f.successor[i]} :: 0 <= i < n ==> f.successor[i] in files
    }

    /** _nl_make_l10nflist: the file of a locale name; a new one gets its successors, made in the same way. */
    method Make(dirs: seq<string>, mask: nat, p: Parts, do_allocate: bool, ghost all: set<File>) returns (retval: File?)
      requires Valid() && mask < 0x1_0000 && forall f :: f in files ==> f in all
      modifies this`head, this`files, all`next
      ensures Valid() && Grew()
      ensures retval != null ==> retval in files && retval.filename == NameOf(dirs, mask, p)
      ensures retval == null ==> !do_allocate && forall f :: f in files ==> f.filename != NameOf(dirs, mask, p)
      ensures !do_allocate ==> files == old(files)
      ensures retval != null && retval !in old(files) ==>
        retval.decided == Settled(Effective(dirs, p), mask)
      ensures retval != null && retval !in old(files) ==>
        var d := Effective(dirs, p); var ts := Below(d, mask, Bound(d, mask)); Filled(retval, ts, p) && Own(retval, |ts|)
      decreases if |dirs| > 1 then 1 else 0, mask, 4
    {
      var d, name := Effective(dirs, p), NameOf(dirs, mask, p);
      var found, prev; ghost var k;
      found, prev, k := Search(name);
      if found != null || !do_allocate { return found; }
      retval := MakeNew(d, mask, p, name, prev, k, all);
    }

    /** The part for a name that is not in the pool. */
    method MakeNew(d: seq<string>, mask: nat, p: Parts, name: string, prev: File?, ghost k: nat, ghost all: set<File>)
      returns (f: File)
      requires Valid() && mask < 0x1_0000 && (forall g :: g in files ==> g in all)
      requires k <= |files| && prev == if k == 0 then null else files[k - 1]
      requires forall i :: 0 <= i < k ==> Compare(files[i].filename, name) > 0
      requires forall i :: k <= i < |files| ==> Compare(name, files[i].filename) > 0
      modifies this`head, this`files, all`next
      ensures Valid() && Grew() && f in files && fresh(f) && f.filename == name && f.decided == Settled(d, mask)
      ensures var ts := Below(d, mask, Bound(d, mask)); Filled(f, ts, p) && Own(f, |ts|)
      decreases if |d| > 1 then 1 else 0, mask, 3
    {
      SuccessorsFit(d, mask);
      f := Place(name, Settled(d, mask), Room(d, mask), prev, k, all);
      Fill(f, d, mask, p, all + {f});
    }

    /** A new file with room for its successors, in its place in the list. */
    method Place(name: string, decided: bool, room: nat, prev: File?, ghost k: nat, ghost all: set<File>) returns (f: File)
      requires Valid() && forall g :: g in files ==> g in all
      requires k <= |files| && prev == if k == 0 then null else files[k - 1]
      requires forall i :: 0 <= i < k ==> Compare(files[i].filename, name) > 0
      requires forall i :: k <= i < |files| ==> Compare(name, files[i].filename) > 0
      modifies this`head, this`files, all`next
      ensures Valid() && Grew() && f in files && fresh(f) && fresh(f.successor) && forall g :: g in files ==> g in all + {f}
      ensures f.filename == name && f.decided == decided && f.successor.Length == room
    {
      f := new File(name, decided, room);
      Insert(f, prev, k, all + {f});
    }

    /** The loop over the bit patterns. */
    method Fill(f: File, dirs: seq<string>, mask: nat, p: Parts, ghost all: set<File>)
      requires Valid() && mask < 0x1_0000 && |Below(dirs, mask, Bound(dirs, mask))| < f.successor.Length
      requires forall g :: g in files ==> g in all
      modifies this`head, this`files, all`next, f.successor
      ensures Valid() && Grew() && Filled(f, Below(dirs, mask, Bound(dirs, mask)), p)
      ensures Own(f, |Below(dirs, mask, Bound(dirs, mask))|)
      decreases if |dirs| > 1 then 1 else 0, mask, 2
    {
      var n, entries := Bound(dirs, mask), 0;
      ghost var done: seq<Target>, goal := [], Below(dirs, mask, Bound(dirs, mask));
      while n > 0
        invariant 0 <= n <= Bound(dirs, mask) && Valid() && Grew() && Held(f, done, p) && entries == |done| && Own(f, |done|)
        invariant done + Below(dirs, mask, n) == goal
      {
        entries, done := Pattern(f, dirs, mask, n, p, entries, done, goal, set g <- files);
        n := n - 1;
      }
      f.successor[entries] := null;
    }

    /** One bit pattern. */
    method Pattern(f: File, dirs: seq<string>, mask: nat, n: nat, p: Parts, entries: nat, ghost done: seq<Target>,
                   ghost goal: seq<Target>, ghost all: set<File>)
      returns (entries': nat, ghost done': seq<Target>)
      requires Valid() && mask < 0x1_0000 && 0 < n <= Bound(dirs, mask) && forall g :: g in files ==> g in all
      requires Held(f, done, p) && Own(f, entries) && entries == |done| && done + Below(dirs, mask, n) == goal && |goal| < f.successor.Length
      modifies this`head, this`files, all`next, f.successor
      ensures Valid() && Grew() && Held(f, done', p) && Own(f, entries') && entries' == |done'| && done' + Below(dirs, mask, n - 1) == goal
      decreases if |dirs| > 1 then 1 else 0, mask, 1
    {
      var cnt := n - 1;
      entries', done' := entries, done;
      BelowNext(dirs, mask, n, done, goal);
      if Allowed(cnt, mask) {
        entries' := Add(f, dirs, mask, cnt, p, entries, done, all);
        done' := done + Targets(dirs, cnt);
      }
    }

    /** The successors for one bit pattern, one for each directory. */
    method Add(f: File, dirs: seq<string>, mask: nat, cnt: nat, p: Parts, entries: nat, ghost done: seq<Target>, ghost all: set<File>)
      returns (entries': nat)
      requires Valid() && mask < 0x1_0000 && (cnt < mask || (|dirs| > 1 && cnt == mask)) && forall g :: g in files ==> g in all
      requires entries == |done| && entries + DirCount(dirs) <= f.successor.Length && Held(f, done, p) && Own(f, entries)
      modifies this`head, this`files, all`next, f.successor
      ensures Valid() && Grew() && entries' == entries + DirCount(dirs) && Held(f, done + Targets(dirs, cnt), p) && Own(f, entries')
      decreases if |dirs| > 1 then 1 else 0, mask, 0
    {
      var k := 0;
      ghost var ts := Targets(dirs, cnt);
      while k < DirCount(dirs)
        invariant 0 <= k <= DirCount(dirs) && Valid() && Grew() && Own(f, entries + k)
        invariant forall i {:trigger done[i]} :: 0 <= i < |done| ==> Holds(f.successor[i], done[i], p)
        invariant forall i {:trigger ts[i]} :: 0 <= i < k ==> Holds(f.successor[entries + i], ts[i], p)
      {
        var dir := if |dirs| > 1 then [dirs[k]] else dirs;
        var s := Make(dir, cnt, p, true, set g <- files);
        f.successor[entries + k] := s;
        k := k + 1;
      }
      entries' := entries + k;
    }
  }
}
