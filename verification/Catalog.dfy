/**
 The index of a message catalog (zmailer/intl/dcigettext.c and loadmsgcat.c): double hashing in a
 table of prime size, its augmentation by the loader, and binary search in the sorted strings.
 */
module Catalog {
  import opened Splitting
  import opened Strcmp
  import opened Division

  // ------------------------------------------------------------------ a prime table size

  ghost predicate Prime(m: nat) {
    m >= 2 && forall d :: 2 <= d < m ==> m % d != 0
  }

  lemma Bounded(m: nat, b: nat, p: int)
    requires 0 < b < m
    ensures b != m * p
  {
    if p >= 1 {
      assert m * p == m + m * (p - 1);
      assert m * (p - 1) >= 0;
    } else {
      assert m * -p >= 0;
    }
  }

  /** A prime divides no product of two smaller positive numbers. */
  lemma {:induction false} NoZeroDivisors(m: nat, a: nat, b: nat, p: int)
    requires Prime(m) && 0 < a < m && 0 < b < m
    ensures a * b != m * p
    decreases a
  {
    if a == 1 {
      Bounded(m, b, p);
    } else if a * b == m * p {
      var q, r := m / a, m % a;
      assert m == q * a + r;
      calc {
        r * b;
        (m - q * a) * b;
        m * b - q * (a * b);
        m * b - q * (m * p);
        m * (b - q * p);
      }
      NoZeroDivisors(m, r, b, b - q * p);
    }
  }

  // ------------------------------------------------------------------ the probe sequence

  /** The next slot: both branches keep the sum below the table size. */
  function Next(idx: nat, incr: nat, m: nat): (i: nat)
    requires idx < m && incr < m
    ensures i < m && (i == idx + incr || i == idx + incr - m)
  {
    if idx >= m - incr then idx - (m - incr) else idx + incr
  }

  /** The step of both probe loops. */
  method Advance(idx: nat, incr: nat, m: nat) returns (i: nat)
    requires idx < m && 0 < incr < m
    ensures i == (idx + incr) % m && i == Next(idx, incr, m)
  {
    if idx >= m - incr {
      i := idx - (m - incr);
    } else {
      i := idx + incr;
    }
  }

  /** The slot after k steps. */
  function Slot(h: nat, m: nat, k: nat): (i: nat)
    requires m > 2
    ensures i < m
  {
    if k == 0 then h % m else Next(Slot(h, m, k - 1), Incr(h, m), m)
  }

  function Incr(h: nat, m: nat): (i: nat)
    requires m > 2
    ensures 0 < i < m
  {
    1 + h % (m - 2)
  }

  /** j more steps add j times the increment, up to multiples of the table size. */
  lemma {:induction false} SlotSum(h: nat, m: nat, k: nat, j: nat) returns (c: int)
    requires m > 2
    ensures Slot(h, m, k + j) == Slot(h, m, k) + j * Incr(h, m) - m * c
  {
    if j == 0 {
      c := 0;
    } else {
      c := SlotSum(h, m, k, j - 1);
      var s, i := Slot(h, m, k + (j - 1)), Incr(h, m);
      assert Slot(h, m, k + j) == Next(s, i, m);
      assert j * i == (j - 1) * i + i;
      if Next(s, i, m) == s + i - m && m > 0 && Next(s, i, m) != s + i {
        assert m * (c + 1) == m * c + m;
        c := c + 1;
      }
    }
  }

  /** The slot after k steps, in closed form. */
  lemma SlotIs(h: nat, m: nat, k: nat)
    requires m > 2
    ensures Slot(h, m, k) == (h % m + k * (1 + h % (m - 2))) % m
  {
    var c := SlotSum(h, m, 0, k);
    assert 0 + k == k && k * Incr(h, m) >= 0;
    RemainderIs(h % m + k * Incr(h, m), m, c, Slot(h, m, k));
  }

  /** With a prime table size, no slot is visited twice in m steps. */
  lemma SlotsDiffer(h: nat, m: nat, j: nat, k: nat)
    requires Prime(m) && m > 2 && j < k < m
    ensures Slot(h, m, j) != Slot(h, m, k)
  {
    var c := SlotSum(h, m, j, k - j);
    assert j + (k - j) == k;
    NoZeroDivisors(m, k - j, Incr(h, m), c);
  }

  /** The slots visited in the first n steps. */
  ghost function Visited(h: nat, m: nat, n: nat): (s: set<nat>)
    requires m > 2
    ensures forall i :: i in s ==> i < m
  {
    if n == 0 then {} else Visited(h, m, n - 1) + {Slot(h, m, n - 1)}
  }

  lemma {:induction false} VisitedBy(h: nat, m: nat, n: nat, i: nat) returns (k: nat)
    requires m > 2 && i in Visited(h, m, n)
    ensures k < n && Slot(h, m, k) == i
  {
    if i == Slot(h, m, n - 1) {
      k := n - 1;
    } else {
      k := VisitedBy(h, m, n - 1, i);
    }
  }

  lemma {:induction false} VisitedSize(h: nat, m: nat, n: nat)
    requires Prime(m) && m > 2 && n <= m
    ensures |Visited(h, m, n)| == n
  {
    if n > 0 {
      VisitedSize(h, m, n - 1);
      if Slot(h, m, n - 1) in Visited(h, m, n - 1) {
        var k := VisitedBy(h, m, n - 1, Slot(h, m, n - 1));
        SlotsDiffer(h, m, k, n - 1);
      }
    }
  }

  lemma {:induction false} AtMost(s: set<nat>, m: nat)
    requires forall i :: i in s ==> i < m
    ensures |s| <= m
    decreases m
  {
    if m > 0 { AtMost(s - {m - 1}, m - 1); }
  }

  lemma Fills(s: set<nat>, m: nat, i: nat)
    requires (forall i :: i in s ==> i < m) && |s| == m && i < m
    ensures i in s
  {
    AtMost(s + {i}, m);
  }

  /** With a prime table size, every slot is visited within m steps. */
  lemma ReachesEverySlot(h: nat, m: nat, i: nat) returns (k: nat)
    requires Prime(m) && m > 2 && i < m
    ensures k < m && Slot(h, m, k) == i
  {
    VisitedSize(h, m, m);
    Fills(Visited(h, m, m), m, i);
    k := VisitedBy(h, m, m, i);
  }

  // ------------------------------------------------------------------ tables of strings

  /** A string of the catalog: the text before its NUL, and its recorded length. */
  datatype Entry = Entry(text: string, length: nat)

  type Hash = string -> nat

  /** A catalog with the strings of the file first, then those that depend on the system. */
  datatype Strings = Strings(entries: seq<Entry>, nstrings: nat)

  ghost predicate StringsOk(t: Strings) {
    && t.nstrings <= |t.entries|
    && forall e :: 0 <= e < |t.entries| ==>
         if e < t.nstrings then t.entries[e].length >= |t.entries[e].text| else t.entries[e].length > |t.entries[e].text|
  }

  /** Linear search: the first string that is equal to msgid. */
  function FirstOf(t: Strings, msgid: string, e: nat): (r: int)
    requires e <= |t.entries|
    ensures -1 <= r < |t.entries|
    ensures r >= 0 ==> r >= e && t.entries[r].text == msgid && forall i :: e <= i < r ==> t.entries[i].text != msgid
    ensures r == -1 ==> forall i :: e <= i < |t.entries| ==> t.entries[i].text != msgid
    decreases |t.entries| - e
  {
    if e == |t.entries| then -1 else if t.entries[e].text == msgid then e else FirstOf(t, msgid, e + 1)
  }

  /** Entry e is in the table, pos steps along its probe sequence, behind used slots only. */
  ghost predicate Findable(tab: seq<nat>, h: nat, e: nat, pos: nat) {
    && |tab| > 2 && pos < |tab| && tab[Slot(h, |tab|, pos)] == e + 1
    && forall k {:trigger Slot(h, |tab|, k)} :: 0 <= k < pos ==> tab[Slot(h, |tab|, k)] != 0
  }

  /** The first n entries are in the table, equal strings in their order. */
  ghost predicate TableOk(tab: seq<nat>, t: Strings, hash: Hash, n: nat, pos: seq<nat>) {
    && |tab| > 2 && Prime(|tab|) && n <= |t.entries| && |pos| == n
    && (forall i :: 0 <= i < |tab| ==> tab[i] <= n)
    && (forall i, j :: 0 <= i < j < |tab| && tab[i] != 0 ==> tab[i] != tab[j])
    && (forall e {:trigger pos[e]} :: 0 <= e < n ==> Findable(tab, hash(t.entries[e].text), e, pos[e]))
    && (forall e, f :: 0 <= e < f < n && t.entries[e].text == t.entries[f].text ==> pos[e] < pos[f])
  }

  /** The probe has made k steps without meeting an empty slot, and not passed the string it looks for. */
  ghost predicate Probing(tab: seq<nat>, t: Strings, hash: Hash, msgid: string, pos: seq<nat>, k: nat) {
    && TableOk(tab, t, hash, |t.entries|, pos)
    && (FirstOf(t, msgid, 0) >= 0 ==> k <= pos[FirstOf(t, msgid, 0)])
  }

  lemma EmptyMeansAbsent(tab: seq<nat>, t: Strings, hash: Hash, msgid: string, pos: seq<nat>, k: nat)
    requires Probing(tab, t, hash, msgid, pos, k) && tab[Slot(hash(msgid), |tab|, k)] == 0
    ensures FirstOf(t, msgid, 0) == -1
  {
    var f := FirstOf(t, msgid, 0);
    assert f >= 0 ==> Findable(tab, hash(msgid), f, pos[f]);
  }

  lemma HitIsFirst(tab: seq<nat>, t: Strings, hash: Hash, msgid: string, pos: seq<nat>, k: nat, e: nat)
    requires Probing(tab, t, hash, msgid, pos, k) && k < |tab| && tab[Slot(hash(msgid), |tab|, k)] == e + 1
    requires e < |t.entries| && t.entries[e].text == msgid
    ensures FirstOf(t, msgid, 0) == e
  {
    assert Findable(tab, hash(msgid), e, pos[e]);
    if k < pos[e] { SlotsDiffer(hash(msgid), |tab|, k, pos[e]); }
  }

  lemma MissGoesOn(tab: seq<nat>, t: Strings, hash: Hash, msgid: string, pos: seq<nat>, k: nat, e: nat)
    requires Probing(tab, t, hash, msgid, pos, k) && k < |tab| && tab[Slot(hash(msgid), |tab|, k)] == e + 1
    requires e < |t.entries| && t.entries[e].text != msgid
    ensures Probing(tab, t, hash, msgid, pos, k + 1)
  {
    var f := FirstOf(t, msgid, 0);
    assert f >= 0 ==> Findable(tab, hash(msgid), f, pos[f]);
  }

  /** What the entry in the slot after k steps means. */
  lemma Judge(tab: seq<nat>, t: Strings, hash: Hash, msgid: string, pos: seq<nat>, k: nat)
    requires Probing(tab, t, hash, msgid, pos, k) && k < |tab|
    ensures var x := tab[Slot(hash(msgid), |tab|, k)];
      && (x == 0 ==> FirstOf(t, msgid, 0) == -1)
      && (x > 0 ==> x - 1 < |t.entries|)
      && (x > 0 && t.entries[x - 1].text == msgid ==> FirstOf(t, msgid, 0) == x - 1)
      && (x > 0 && t.entries[x - 1].text != msgid ==> Probing(tab, t, hash, msgid, pos, k + 1))
  {
    var x := tab[Slot(hash(msgid), |tab|, k)];
    if x == 0 {
      EmptyMeansAbsent(tab, t, hash, msgid, pos, k);
    } else if t.entries[x - 1].text == msgid {
      HitIsFirst(tab, t, hash, msgid, pos, k, x - 1);
    } else {
      MissGoesOn(tab, t, hash, msgid, pos, k, x - 1);
    }
  }

  /** The comparison with string nstr: the lengths are only a shortcut. */
  method IsMsgid(t: Strings, nstr: nat, msgid: string) returns (same: bool)
    requires StringsOk(t) && nstr < |t.entries|
    ensures same <==> t.entries[nstr].text == msgid
  {
    if nstr < t.nstrings {
      same := t.entries[nstr].length >= |msgid| && msgid == t.entries[nstr].text;
    } else {
      same := t.entries[nstr].length > |msgid| && msgid == t.entries[nstr].text;
    }
  }

  /** The probe loop of _nl_find_msg: it ends, and finds what linear search finds. */
  method FindHashed(tab: array<nat>, t: Strings, hash: Hash, msgid: string, ghost pos: seq<nat>) returns (act: int)
    requires StringsOk(t) && TableOk(tab[..], t, hash, |t.entries|, pos)
    requires exists i :: 0 <= i < tab.Length && tab[i] == 0
    ensures act == FirstOf(t, msgid, 0)
  {
    ghost var i :| 0 <= i < tab.Length && tab[i] == 0;
    ghost var last := ReachesEverySlot(hash(msgid), tab.Length, i);
    act := Probe(tab, t, hash, msgid, pos, last);
  }

  /** Looks into one slot: the search ends there, or goes on. */
  method ProbeSlot(tab: array<nat>, t: Strings, hash: Hash, msgid: string, idx: nat, ghost pos: seq<nat>, ghost k: nat)
    returns (done: bool, act: int)
    requires StringsOk(t) && Probing(tab[..], t, hash, msgid, pos, k) && k < tab.Length && idx == Slot(hash(msgid), tab.Length, k)
    ensures done ==> act == FirstOf(t, msgid, 0)
    ensures !done ==> tab[idx] != 0 && Probing(tab[..], t, hash, msgid, pos, k + 1)
  {
    Judge(tab[..], t, hash, msgid, pos, k);
    var nstr := tab[idx];
    if nstr == 0 { return true, -1; }
    nstr := nstr - 1;
    done := IsMsgid(t, nstr, msgid);
    act := nstr;
  }

  method Probe(tab: array<nat>, t: Strings, hash: Hash, msgid: string, ghost pos: seq<nat>, ghost last: nat) returns (act: int)
    requires StringsOk(t) && Probing(tab[..], t, hash, msgid, pos, 0)
    requires last < tab.Length && tab[Slot(hash(msgid), tab.Length, last)] == 0
    ensures act == FirstOf(t, msgid, 0)
  {
    var m, h := tab.Length, hash(msgid);
    var idx, incr := h % m, 1 + h % (m - 2);
    ghost var k := 0;
    while true
      invariant k <= last && idx == Slot(h, m, k) && Probing(tab[..], t, hash, msgid, pos, k)
      decreases last - k
    {
      var done;
      done, act := ProbeSlot(tab, t, hash, msgid, idx, pos, k);
      if done { return; }
      idx := Advance(idx, incr, m);
      k := k + 1;
    }
  }

  // ------------------------------------------------------------------ the loader

  /** The probe for h meets its first empty slot after k steps. */
  ghost predicate FirstEmpty(tab: seq<nat>, h: nat, k: nat)
    requires |tab| > 2
  {
    && tab[Slot(h, |tab|, k)] == 0
    && forall j {:trigger Slot(h, |tab|, j)} :: 0 <= j < k ==> tab[Slot(h, |tab|, j)] != 0
  }

  /** Entry n has been put into the empty slot at the end of its probe. */
  lemma Inserted(tab: seq<nat>, t: Strings, hash: Hash, n: nat, pos: seq<nat>, k: nat)
    requires TableOk(tab, t, hash, n, pos) && n < |t.entries| && k < |tab|
    requires FirstEmpty(tab, hash(t.entries[n].text), k)
    ensures TableOk(tab[Slot(hash(t.entries[n].text), |tab|, k) := n + 1], t, hash, n + 1, pos + [k])
  {
    var h := hash(t.entries[n].text);
    var tab', pos' := tab[Slot(h, |tab|, k) := n + 1], pos + [k];
    forall e | 0 <= e < n + 1 ensures Findable(tab', hash(t.entries[e].text), e, pos'[e]) {
      if e < n {
        StaysFindable(tab, hash(t.entries[e].text), e, pos[e], Slot(h, |tab|, k), n + 1);
      } else {
        NowFindable(tab, h, n, k);
      }
    }
    forall e | 0 <= e < n && t.entries[e].text == t.entries[n].text ensures pos[e] < k {
      FoundBefore(tab, h, e, pos[e], k);
    }
  }

  /** Filling an empty slot hides nothing. */
  lemma StaysFindable(tab: seq<nat>, h: nat, e: nat, pos: nat, i: nat, x: nat)
    requires Findable(tab, h, e, pos) && i < |tab| && tab[i] == 0 && x > 0
    ensures Findable(tab[i := x], h, e, pos)
  {
  }

  lemma NowFindable(tab: seq<nat>, h: nat, e: nat, k: nat)
    requires |tab| > 2 && FirstEmpty(tab, h, k) && k < |tab|
    ensures Findable(tab[Slot(h, |tab|, k) := e + 1], h, e, k)
  {
  }

  lemma FoundBefore(tab: seq<nat>, h: nat, e: nat, pos: nat, k: nat)
    requires Findable(tab, h, e, pos) && FirstEmpty(tab, h, k)
    ensures pos < k
  {
  }

  function Empties(tab: seq<nat>): (n: nat)
    ensures n > 0 ==> exists i :: 0 <= i < |tab| && tab[i] == 0
  {
    if tab == [] then 0 else Empties(tab[..|tab| - 1]) + if tab[|tab| - 1] == 0 then 1 else 0
  }

  lemma {:induction false} FillOne(tab: seq<nat>, i: nat, x: nat)
    requires i < |tab| && tab[i] == 0 && x > 0
    ensures Empties(tab[i := x]) == Empties(tab) - 1
  {
    var n := |tab| - 1;
    if i < n {
      FillOne(tab[..n], i, x);
      assert tab[i := x][..n] == tab[..n][i := x];
    } else {
      assert tab[i := x][..n] == tab[..n];
    }
  }

  /** Probes for an empty slot. */
  method FindEmpty(tab: array<nat>, h: nat) returns (idx: nat, ghost k: nat)
    requires tab.Length > 2 && Prime(tab.Length) && Empties(tab[..]) > 0
    ensures k < tab.Length && FirstEmpty(tab[..], h, k) && idx == Slot(h, tab.Length, k)
  {
    var m := tab.Length;
    idx := h % m;
    var incr := 1 + h % (m - 2);
    ghost var i :| 0 <= i < m && tab[i] == 0;
    ghost var last := ReachesEverySlot(h, m, i);
    k := 0;
    while tab[idx] != 0
      invariant k <= last && idx == Slot(h, m, k)
      invariant forall j {:trigger Slot(h, m, j)} :: 0 <= j < k ==> tab[Slot(h, m, j)] != 0
      decreases last - k
    {
      idx := Advance(idx, incr, m);
      k := k + 1;
    }
  }

  /** Puts entry n into the table. */
  method InsertEntry(tab: array<nat>, t: Strings, hash: Hash, n: nat, ghost pos: seq<nat>) returns (ghost k: nat)
    requires TableOk(tab[..], t, hash, n, pos) && n < |t.entries| && Empties(tab[..]) > 0
    modifies tab
    ensures TableOk(tab[..], t, hash, n + 1, pos + [k]) && Empties(tab[..]) == old(Empties(tab[..])) - 1
  {
    var idx;
    idx, k := FindEmpty(tab, hash(t.entries[n].text));
    Inserted(tab[..], t, hash, n, pos, k);
    FillOne(tab[..], idx, n + 1);
    ghost var tab' := tab[..][idx := n + 1];
    tab[idx] := n + 1;
    assert tab[..] == tab';
  }

  /** The augmented hash table: a copy of the table of the file, and the system dependent strings. */
  method Augment(file: array<nat>, t: Strings, hash: Hash, ghost pos: seq<nat>) returns (tab: array<nat>, ghost pos': seq<nat>)
    requires t.nstrings <= |t.entries| && TableOk(file[..], t, hash, t.nstrings, pos)
    requires Empties(file[..]) >= |t.entries| - t.nstrings
    ensures fresh(tab) && TableOk(tab[..], t, hash, |t.entries|, pos') && pos <= pos'
    ensures Empties(tab[..]) == Empties(file[..]) - (|t.entries| - t.nstrings)
  {
    tab := new nat[file.Length];
    for i := 0 to file.Length
      invariant forall j :: 0 <= j < i ==> tab[j] == file[j]
    {
      tab[i] := file[i];
    }
    assert tab[..] == file[..];
    pos' := pos;
    for i := 0 to |t.entries| - t.nstrings
      invariant TableOk(tab[..], t, hash, t.nstrings + i, pos') && pos <= pos'
      invariant Empties(tab[..]) == Empties(file[..]) - i
      invariant file[..] == old(file[..])
    {
      ghost var k := InsertEntry(tab, t, hash, t.nstrings + i, pos');
      pos' := pos' + [k];
    }
  }

  /** Loading and looking up: the answer is that of linear search if the table keeps an empty slot. */
  method LoadAndFind(file: array<nat>, t: Strings, hash: Hash, msgid: string, ghost pos: seq<nat>) returns (act: int)
    requires StringsOk(t) && TableOk(file[..], t, hash, t.nstrings, pos) && Empties(file[..]) > |t.entries| - t.nstrings
    ensures act == FirstOf(t, msgid, 0)
  {
    ghost var pos';
    var tab;
    tab, pos' := Augment(file, t, hash, pos);
    act := FindHashed(tab, t, hash, msgid, pos');
  }

  // ------------------------------------------------------------------ binary search

  ghost predicate Sorted(t: Strings) {
    forall i, j :: 0 <= i < j < |t.entries| ==> Compare(t.entries[i].text, t.entries[j].text) < 0
  }

  /** The search in the sorted strings of a catalog without a hash table. */
  method FindSorted(t: Strings, msgid: string) returns (act: int)
    requires Sorted(t)
    ensures act == FirstOf(t, msgid, 0)
  {
    var bottom, top := 0, |t.entries|;
    while bottom < top
      invariant 0 <= bottom <= top <= |t.entries|
      invariant forall i :: 0 <= i < bottom || top <= i < |t.entries| ==> t.entries[i].text != msgid
    {
      act := (bottom + top) / 2;
      var text := t.entries[act].text;
      var cmp_val := Compare(msgid, text);
      if cmp_val < 0 {
        forall i | act < i < |t.entries| ensures t.entries[i].text != msgid {
          CompareFlips(text, t.entries[i].text);
        }
        top := act;
      } else if cmp_val > 0 {
        forall i | 0 <= i < act ensures t.entries[i].text != msgid {
          CompareFlips(t.entries[i].text, text);
        }
        bottom := act + 1;
      } else {
        return;
      }
    }
    return -1;
  }

  // ------------------------------------------------------------------ the variant for a number

  /** Where part k of a text begins. */
  function Start(g: seq<string>, k: nat): nat
    requires k <= |g|
  {
    if k == 0 then 0 else |g[0]| + 1 + Start(g[1..], k - 1)
  }

  /** strchr (p, '\0') and one more */
  method SkipString(data: string, p: nat) returns (q: nat)
    requires p < |data| && data[|data| - 1] == '\0'
    ensures p < q <= |data| && data[q - 1] == '\0' && '\0' !in data[p..q - 1]
  {
    q := p;
    while data[q] != '\0'
      invariant p <= q < |data| && '\0' !in data[p..q]
      decreases |data| - q
    {
      q := q + 1;
    }
    q := q + 1;
  }

  /** plural_lookup: the variant with the given index among the strings of a translation, each with its
      NUL; the first one if there are not that many. */
  method PluralLookup(data: string, value: nat, nplurals: nat) returns (p: nat)
    requires data != [] && data[|data| - 1] == '\0'
    ensures var g, index := Split(data, '\0'), if value >= nplurals then 0 else value;
      p == (if index < |g| - 1 then Start(g, index) else 0)
  {
    var index := if value >= nplurals then 0 else value;
    p := 0;
    var k := 0;
    ghost var g := Split(data, '\0');
    assert data[0..] == data && g[0..] == g;
    while index > k
      invariant k <= index && At(data, g, k, p)
    {
      var q := SkipString(data, p);
      NextPart(data, g, k, p, q);
      p := q;
      if p >= |data| { return 0; }
      k := k + 1;
    }
    assert '\0' in data[p..] by { assert data[p..][|data| - 1 - p] == '\0'; }
    SplitMany(data[p..], '\0');
  }

  /** p is where part k begins, and not the end. */
  ghost predicate At(data: string, g: seq<string>, k: nat, p: nat) {
    p < |data| && k < |g| && p == Start(g, k) && g[k..] == Split(data[p..], '\0')
  }

  lemma NextPart(data: string, g: seq<string>, k: nat, p: nat, q: nat)
    requires At(data, g, k, p) && p < q <= |data| && data[q - 1] == '\0' && '\0' !in data[p..q - 1]
    ensures q < |data| ==> At(data, g, k + 1, q)
    ensures q == |data| ==> k + 2 == |g|
  {
    var s, n := data[p..], q - 1 - p;
    assert s[..n] == data[p..q - 1] && s[n + 1..] == data[q..];
    SplitHead(s, '\0', n);
    assert g[k + 1..] == g[k..][1..] == Split(data[q..], '\0');
    StartNext(g, k);
    assert g[k] == g[k..][0] == s[..n];
  }

  lemma {:induction false} StartNext(g: seq<string>, k: nat)
    requires k < |g|
    ensures Start(g, k + 1) == Start(g, k) + |g[k]| + 1
  {
    if k > 0 { StartNext(g[1..], k - 1); }
  }
}
