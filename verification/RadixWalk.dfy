/** Four-level table walks over decoded entries, independent of how an entry is
    encoded in a word: what one changed entry does to every walk. */
module RadixWalk {

  import opened Options

  /** A decoded table entry.  `word` of a leaf is its descriptor. */
  datatype Entry = Fault | Next(table: nat) | Leaf(word: nat, level: nat)

  /** `entries(k, x, i)` is entry `i` of the level `k` table at address `x`. */
  type Entries = (nat, nat, nat) -> Entry

  /** The four table indices of an address, level 0 first. */
  type Path = p: seq<nat> | |p| == 4 && forall k :: 0 <= k < 4 ==> p[k] < 512 witness [0, 0, 0, 0]

  /** The walk from the level `k` table at `x`; it ends in a leaf or a fault. */
  function WalkFrom(e: Entries, x: nat, k: nat, p: Path): (r: Entry)
    requires k <= 3
    ensures !r.Next?
    decreases 3 - k
  {
    match e(k, x, p[k])
    case Next(next) => if k < 3 then WalkFrom(e, next, k + 1, p) else Fault
    case Fault => Fault
    case Leaf(w, l) => Leaf(w, l)
  }

  /** The table the walk along `p` reads at level `k`, if it gets there. */
  function TableAt(e: Entries, root: nat, p: Path, k: nat): Option<nat>
    requires k <= 3
  {
    if k == 0 then Some(root)
    else
      match TableAt(e, root, p, k - 1)
      case None => None
      case Some(above) =>
        var entry := e(k - 1, above, p[k - 1]);
        if entry.Next? then Some(entry.table) else None
  }

  lemma {:induction false} WalkThrough(e: Entries, root: nat, p: Path, k: nat)
    requires k <= 3 && TableAt(e, root, p, k).Some?
    ensures WalkFrom(e, root, 0, p) == WalkFrom(e, TableAt(e, root, p, k).value, k, p)
  {
    if k > 0 {
      WalkThrough(e, root, p, k - 1);
    }
  }

  /** How many tables, down to level `n`, the walk from the level `k` table at `x` misses;
      none below a leaf. */
  function Missing(e: Entries, x: nat, k: nat, n: nat, p: Path): nat
    requires k <= n <= 3
    decreases n - k
  {
    if k == n then 0
    else
      match e(k, x, p[k])
      case Next(next) => Missing(e, next, k + 1, n, p)
      case Leaf(_, _) => 0
      case Fault => n - k
  }

  // --- The tables form a tree ---

  /** The tables in use: the level of each, and the one slot that points at it. */
  datatype Tree = Tree(root: nat, level: map<nat, nat>, parent: map<nat, (nat, nat)>)

  ghost predicate EntryOk(t: Tree, x: nat, i: nat, entry: Entry)
    requires x in t.level
  {
    entry.Next? ==>
      var next := entry.table;
      && t.level[x] < 3
      && next in t.level && t.level[next] == t.level[x] + 1
      && next in t.parent && t.parent[next] == (x, i)
  }

  ghost predicate ParentOk(e: Entries, t: Tree, x: nat)
    requires x in t.parent
  {
    var (above, i) := t.parent[x];
    && x in t.level && above in t.level && i < 512
    && t.level[above] < 3 && e(t.level[above], above, i) == Next(x)
  }

  /** Levels never mix, every entry that points at a table is that table's parent
      slot, and every table but the root has one. */
  ghost predicate Shaped(e: Entries, t: Tree) {
    && t.root in t.level
    && (forall x :: x in t.level ==> t.level[x] <= 3 && (t.level[x] == 0 <==> x == t.root))
    && (forall x :: x in t.parent <==> x in t.level && x != t.root)
    && (forall x, i {:trigger e(t.level[x], x, i)} ::
          x in t.level && 0 <= i < 512 ==> EntryOk(t, x, i, e(t.level[x], x, i)))
    && (forall x {:trigger t.parent[x]} :: x in t.parent ==> ParentOk(e, t, x))
  }

  lemma {:induction false} TableAtLevel(e: Entries, t: Tree, p: Path, k: nat)
    requires Shaped(e, t) && k <= 3 && TableAt(e, t.root, p, k).Some?
    ensures var x := TableAt(e, t.root, p, k).value;
            && x in t.level && t.level[x] == k
            && (k > 0 ==> x in t.parent && TableAt(e, t.root, p, k - 1).Some?
                          && t.parent[x] == (TableAt(e, t.root, p, k - 1).value, p[k - 1]))
  {
    if k > 0 {
      TableAtLevel(e, t, p, k - 1);
    }
  }

  /** Two walks that meet in a table came to it by the same indices. */
  lemma {:induction false} SharedTable(e: Entries, t: Tree, p: Path, q: Path, k: nat)
    requires Shaped(e, t) && k <= 3
    requires TableAt(e, t.root, p, k).Some? && TableAt(e, t.root, p, k) == TableAt(e, t.root, q, k)
    ensures p[..k] == q[..k]
  {
    if k > 0 {
      TableAtLevel(e, t, p, k);
      TableAtLevel(e, t, q, k);
      SharedTable(e, t, p, q, k - 1);
      assert p[..k] == p[..k - 1] + [p[k - 1]] && q[..k] == q[..k - 1] + [q[k - 1]];
    }
  }

  lemma {:induction false} SameIndicesSameTable(e: Entries, root: nat, p: Path, q: Path, k: nat)
    requires k <= 3 && p[..k] == q[..k]
    ensures TableAt(e, root, p, k) == TableAt(e, root, q, k)
  {
    if k > 0 {
      assert p[..k - 1] == p[..k][..k - 1] && q[..k - 1] == q[..k][..k - 1];
      assert p[k - 1] == p[..k][k - 1] && q[k - 1] == q[..k][k - 1];
      SameIndicesSameTable(e, root, p, q, k - 1);
    }
  }

  // --- One entry changes ---

  /** On the tables of `t`, `e'` differs from `e` at most in slot (s, i). */
  ghost predicate OnlySlot(e: Entries, e': Entries, t: Tree, s: nat, i: nat) {
    forall x, j {:trigger e'(t.level[x], x, j)} ::
      x in t.level && 0 <= j < 512 && (x != s || j != i) ==> e'(t.level[x], x, j) == e(t.level[x], x, j)
  }

  /** Down to the table of the changed slot, every walk reads the same tables. */
  lemma {:induction false} ChangeKeepsAbove(e: Entries, e': Entries, t: Tree, s: nat, i: nat, p: Path, k: nat)
    requires Shaped(e, t) && s in t.level && OnlySlot(e, e', t, s, i) && k <= t.level[s]
    ensures TableAt(e', t.root, p, k) == TableAt(e, t.root, p, k)
  {
    if k > 0 {
      ChangeKeepsAbove(e, e', t, s, i, p, k - 1);
      if TableAt(e, t.root, p, k - 1).Some? {
        TableAtLevel(e, t, p, k - 1);
      }
    }
  }

  /** A walk that does not read the changed slot is as before. */
  lemma {:induction false} ChangeKeepsRest(e: Entries, e': Entries, t: Tree, s: nat, i: nat, p: Path, k: nat)
    requires Shaped(e, t) && s in t.level && OnlySlot(e, e', t, s, i)
    requires TableAt(e, t.root, p, t.level[s]) != Some(s) || p[t.level[s]] != i
    requires k <= 3 && TableAt(e, t.root, p, k).Some?
    ensures WalkFrom(e', TableAt(e, t.root, p, k).value, k, p) == WalkFrom(e, TableAt(e, t.root, p, k).value, k, p)
    decreases 3 - k
  {
    TableAtLevel(e, t, p, k);
    if k < 3 && TableAt(e, t.root, p, k + 1).Some? {
      ChangeKeepsRest(e, e', t, s, i, p, k + 1);
    }
  }

  ghost predicate Empty(e: Entries, k: nat, x: nat) {
    forall j {:trigger e(k, x, j)} :: 0 <= j < 512 ==> e(k, x, j) == Fault
  }

  function Grown(t: Tree, s: nat, i: nat, n: nat): Tree
    requires s in t.level
  {
    t.(level := t.level[n := t.level[s] + 1], parent := t.parent[n := (s, i)])
  }

  function Pruned(t: Tree, was: Entry): Tree {
    if was.Next? then t.(level := t.level - {was.table}, parent := t.parent - {was.table}) else t
  }

  /** Hooking an empty new table into a faulting slot keeps the tree and is
      invisible to every walk. */
  lemma LinkShaped(e: Entries, e': Entries, t: Tree, s: nat, i: nat, n: nat)
    requires Shaped(e, t) && s in t.level && i < 512 && OnlySlot(e, e', t, s, i)
    requires t.level[s] < 3 && n !in t.level
    requires e(t.level[s], s, i) == Fault && e'(t.level[s], s, i) == Next(n)
    requires Empty(e', t.level[s] + 1, n)
    ensures Shaped(e', Grown(t, s, i, n))
  {
    var t' := Grown(t, s, i, n);
    forall x, j {:trigger e'(t'.level[x], x, j)} | x in t'.level && 0 <= j < 512
      ensures EntryOk(t', x, j, e'(t'.level[x], x, j))
    {
      if x != n && (x != s || j != i) {
        assert e'(t.level[x], x, j) == e(t.level[x], x, j);
      }
    }
    forall x {:trigger t'.parent[x]} | x in t'.parent
      ensures ParentOk(e', t', x)
    {
      if x != n {
        assert ParentOk(e, t, x);
        var (above, j) := t.parent[x];
        assert e'(t.level[above], above, j) == e(t.level[above], above, j);
      }
    }
  }

  lemma LinkInvisible(e: Entries, e': Entries, t: Tree, s: nat, i: nat, n: nat, p: Path)
    requires Shaped(e, t) && s in t.level && OnlySlot(e, e', t, s, i)
    requires t.level[s] < 3
    requires e(t.level[s], s, i) == Fault && e'(t.level[s], s, i) == Next(n)
    requires Empty(e', t.level[s] + 1, n)
    ensures WalkFrom(e', t.root, 0, p) == WalkFrom(e, t.root, 0, p)
  {
    var k := t.level[s];
    if TableAt(e, t.root, p, k) == Some(s) && p[k] == i {
      ChangeKeepsAbove(e, e', t, s, i, p, k);
      WalkThrough(e, t.root, p, k);
      WalkThrough(e', t.root, p, k);
    } else {
      ChangeKeepsRest(e, e', t, s, i, p, 0);
    }
  }

  /** Overwriting a slot of level 2 or 3 with a leaf or a fault keeps the tree, less the
      level 3 table the slot pointed at, if any. */
  lemma OverwriteShaped(e: Entries, e': Entries, t: Tree, s: nat, i: nat)
    requires Shaped(e, t) && s in t.level && i < 512 && OnlySlot(e, e', t, s, i)
    requires 2 <= t.level[s] && !e'(t.level[s], s, i).Next?
    ensures Shaped(e', Pruned(t, e(t.level[s], s, i)))
  {
    var entry := e(t.level[s], s, i);
    var t' := Pruned(t, entry);
    assert EntryOk(t, s, i, entry);
    forall x, j {:trigger e'(t'.level[x], x, j)} | x in t'.level && 0 <= j < 512
      ensures EntryOk(t', x, j, e'(t'.level[x], x, j))
    {
      if x != s || j != i {
        assert e'(t.level[x], x, j) == e(t.level[x], x, j);
        assert EntryOk(t, x, j, e(t.level[x], x, j));
      }
    }
    forall x {:trigger t'.parent[x]} | x in t'.parent
      ensures ParentOk(e', t', x)
    {
      assert ParentOk(e, t, x);
      var (above, j) := t.parent[x];
      assert e'(t.level[above], above, j) == e(t.level[above], above, j);
    }
  }

  /** Overwriting the slot that the walk along `p` reads at level `k` changes the
      walks that share `p`'s first k+1 indices, and no others. */
  lemma OverwriteEffect(e: Entries, e': Entries, t: Tree, s: nat, p: Path, q: Path)
    requires Shaped(e, t) && s in t.level
    requires TableAt(e, t.root, p, t.level[s]) == Some(s)
    requires OnlySlot(e, e', t, s, p[t.level[s]]) && !e'(t.level[s], s, p[t.level[s]]).Next?
    ensures WalkFrom(e', t.root, 0, q)
         == if q[..t.level[s] + 1] == p[..t.level[s] + 1] then e'(t.level[s], s, p[t.level[s]])
            else WalkFrom(e, t.root, 0, q)
  {
    var k := t.level[s];
    assert q[..k + 1] == q[..k] + [q[k]] && p[..k + 1] == p[..k] + [p[k]];
    if q[..k + 1] == p[..k + 1] {
      assert q[..k] == q[..k + 1][..k] && p[..k] == p[..k + 1][..k] && q[k] == q[..k + 1][k];
      SameIndicesSameTable(e, t.root, p, q, k);
      ChangeKeepsAbove(e, e', t, s, p[k], q, k);
      WalkThrough(e', t.root, q, k);
    } else {
      if TableAt(e, t.root, q, k) == Some(s) {
        SharedTable(e, t, p, q, k);
      }
      ChangeKeepsRest(e, e', t, s, p[k], q, 0);
    }
  }

  /** If no entry of a table in use changes, no walk does. */
  lemma SameEntriesSameWalks(e: Entries, e': Entries, t: Tree, p: Path)
    requires Shaped(e, t) && OnlySlot(e, e', t, t.root, 512)
    ensures WalkFrom(e', t.root, 0, p) == WalkFrom(e, t.root, 0, p)
  {
    ChangeKeepsRest(e, e', t, t.root, 512, p, 0);
  }

  lemma SameEntriesShaped(e: Entries, e': Entries, t: Tree)
    requires Shaped(e, t) && OnlySlot(e, e', t, t.root, 512)
    ensures Shaped(e', t)
  {
    forall x, j {:trigger e'(t.level[x], x, j)} | x in t.level && 0 <= j < 512
      ensures EntryOk(t, x, j, e'(t.level[x], x, j))
    {
      assert EntryOk(t, x, j, e(t.level[x], x, j));
    }
    forall x {:trigger t.parent[x]} | x in t.parent
      ensures ParentOk(e', t, x)
    {
      assert ParentOk(e, t, x);
      var (above, j) := t.parent[x];
      assert e'(t.level[above], above, j) == e(t.level[above], above, j);
    }
  }
}
