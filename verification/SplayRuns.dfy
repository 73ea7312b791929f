/**
 Every run of operations on a splay tree answers as a finite map would.
 */
module SplayRuns {
  import opened SplayTree

  datatype Op =
    | Install(key: nat, data: object?, mark: int)
    | Lookup(key: nat)
    | Delete(key: nat)
    | Null

  datatype Answer = None | Some(entry: Entry)

  // ------------------------------------------------------------------ the finite map

  ghost function Next(m: map<nat, Entry>, op: Op): map<nat, Entry> {
    match op
    case Install(key, data, mark) => m[key := Entry(data, mark)]
    case Lookup(_) => m
    case Delete(key) => m - {key}
    case Null => map[]
  }

  /** What the operation finds: the entry of its key before the operation. */
  ghost function Found(m: map<nat, Entry>, op: Op): Answer {
    if op.Null? || op.key !in m then None else Some(m[op.key])
  }

  ghost function After(m: map<nat, Entry>, ops: seq<Op>): map<nat, Entry> {
    if ops == [] then m else Next(After(m, ops[..|ops| - 1]), ops[|ops| - 1])
  }

  ghost function Answers(m: map<nat, Entry>, ops: seq<Op>): seq<Answer> {
    if ops == [] then []
    else Answers(m, ops[..|ops| - 1]) + [Found(After(m, ops[..|ops| - 1]), ops[|ops| - 1])]
  }

  // ------------------------------------------------------------------ the splay tree

  ghost function Nodes(q: Sptree): set<Spblk>
    reads q
  {
    (set m | m in q.order) + (set m | m in q.pool)
  }

  method Peek(q: Sptree, key: nat) returns (n: Spblk?, a: Answer)
    requires q.Valid()
    modifies q, Nodes(q)
    ensures q.Valid() && q.Contents() == old(q.Contents()) && q.order == old(q.order) && q.pool == old(q.pool)
    ensures a == Found(old(q.Contents()), Lookup(key))
    ensures n != null ==> In(q.order, n) && n.key == key
    ensures n == null <==> key !in q.Contents()
  {
    n := q.Lookup(key);
    if n == null {
      a := None;
    } else {
      ghost var i :| 0 <= i < |q.order| && q.order[i] == n;
      assert Fits(q.order, q.g, i);
      TableHas(q.Rows(), i);
      a := Some(Entry(n.data, n.mark));
    }
  }

  method Bind(q: Sptree, key: nat, data: object?, mark: int)
    requires q.Valid()
    modifies q, Nodes(q)
    ensures q.Valid() && old(Nodes(q)) <= Nodes(q) && fresh(Nodes(q) - old(Nodes(q)))
    ensures q.Contents() == old(q.Contents())[key := Entry(data, mark)]
  {
    var n := q.Install(key, data, mark);
  }

  method Unbind(q: Sptree, n: Spblk)
    requires q.Valid() && In(q.order, n)
    modifies q, Nodes(q)
    ensures q.Valid() && Nodes(q) == old(Nodes(q))
    ensures q.Contents() == old(q.Contents()) - {old(n.key)}
  {
    assert q.order[n.pos] == n;
    q.Delete(n);
  }

  method Rebind(q: Sptree, n: Spblk, data: object?)
    requires q.Valid() && In(q.order, n)
    modifies n
    ensures q.Valid() && Nodes(q) == old(Nodes(q))
    ensures q.Contents() == old(q.Contents())[old(n.key) := Entry(data, old(n.mark))]
  {
    assert q.order[n.pos] == n;
    TableUpdate(q.Rows(), n.pos, Entry(data, n.mark));
    q.SetData(n, data, n.mark);
  }

  /** One operation.  No node is lost: each stays in the tree or in the free chain. */
  method Apply(q: Sptree, op: Op) returns (a: Answer)
    requires q.Valid()
    modifies q, Nodes(q)
    ensures q.Valid() && old(Nodes(q)) <= Nodes(q) && fresh(Nodes(q) - old(Nodes(q)))
    ensures q.Contents() == Next(old(q.Contents()), op) && a == Found(old(q.Contents()), op)
  {
    match op
    case Install(key, data, mark) =>
      var n;
      n, a := Peek(q, key);
      Bind(q, key, data, mark);
    case Lookup(key) =>
      var n;
      n, a := Peek(q, key);
    case Delete(key) =>
      var n;
      n, a := Peek(q, key);
      if n != null {
        Unbind(q, n);
      }
    case Null =>
      q.Null();
      a := None;
  }

  /** A whole run: same answers and same final contents as the finite map. */
  method Run(q: Sptree, ops: seq<Op>) returns (answers: seq<Answer>)
    requires q.Valid()
    modifies q, Nodes(q)
    ensures q.Valid() && old(Nodes(q)) <= Nodes(q) && fresh(Nodes(q) - old(Nodes(q)))
    ensures q.Contents() == After(old(q.Contents()), ops) && answers == Answers(old(q.Contents()), ops)
    ensures q.eltscnt == |q.Contents()|
  {
    answers := [];
    for i := 0 to |ops|
      invariant q.Valid() && old(Nodes(q)) <= Nodes(q) && fresh(Nodes(q) - old(Nodes(q)))
      invariant q.Contents() == After(old(q.Contents()), ops[..i])
      invariant answers == Answers(old(q.Contents()), ops[..i])
    {
      assert ops[..i + 1][..i] == ops[..i];
      var a := Apply(q, ops[i]);
      answers := answers + [a];
    }
    assert ops[..|ops|] == ops;
    TableSize(q.Rows());
  }

  lemma {:induction false} TableSize(rows: seq<Row>)
    requires Ascending(rows)
    ensures |Table(rows)| == |rows|
  {
    if rows != [] {
      var n := |rows| - 1;
      TableLacks(rows[..n], rows[n].key);
      TableSize(rows[..n]);
    }
  }
}
