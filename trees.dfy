/**
 * The b-tree pages the traversals of src/database.rs walk, and what such a
 * traversal collects. A traversal keeps a stack of page indexes: it pops an
 * index, skips it when there is no such page, and otherwise visits the page.
 * The visit inserts items into a set and pushes more page indexes. `Reach`
 * and `ReachAll` say what the sets end up holding, independently of the
 * order in which the stack is worked off.
 */
module Trees {
  import opened Errors
  import opened Records
  import opened Pages

  /**
   * A cell as the traversals see it: `page_number_left_child`, `rowid` and
   * `record`, each present or not according to the page type.
   */
  datatype TreeCell = TreeCell(leftChild: Option<int>, rowid: Option<int>, record: Option<Record>)

  /** A page as the traversals see it: its type, its cells in cell-pointer order, and `right_most_pointer`. */
  datatype TreePage = TreePage(pageType: PageType, cells: seq<TreeCell>, rightMost: Option<int>)

  /** What visiting a page, or one of its cells, does: the items inserted and the indexes pushed, in push order. */
  datatype Visit<T> = Visit(items: set<T>, pushes: seq<int>)

  /** One visit and then another. */
  function Then<T>(v: Visit<T>, w: Visit<T>): Visit<T>
  {
    Visit(v.items + w.items, v.pushes + w.pushes)
  }

  /** `v` followed by the outcome `r`, which may be a panic. */
  function After<T>(v: Visit<T>, r: Result<Visit<T>>): (s: Result<Visit<T>>)
    ensures s.Ok? <==> r.Ok?
  {
    match r
    case Ok(w) => Ok(Then(v, w))
    case Err(e) => Err(e)
  }

  lemma AfterThen<T>(u: Visit<T>, v: Visit<T>, r: Result<Visit<T>>)
    ensures After(u, After(v, r)) == After(Then(u, v), r)
  {
    if r.Ok? {
      assert u.pushes + (v.pushes + r.value.pushes) == (u.pushes + v.pushes) + r.value.pushes;
      assert u.items + (v.items + r.value.items) == (u.items + v.items) + r.value.items;
    }
  }

  lemma AfterNothing<T>(r: Result<Visit<T>>)
    ensures After(Visit({}, []), r) == r
  {
    if r.Ok? {
      assert [] + r.value.pushes == r.value.pushes;
      assert {} + r.value.items == r.value.items;
    }
  }

  /** The cells of a page visited in order; the first panic ends the visit. */
  function Fold<T>(visit: TreeCell -> Result<Visit<T>>, cells: seq<TreeCell>): Result<Visit<T>>
    decreases |cells|
  {
    if cells == [] then Ok(Visit({}, []))
    else
      var v :- visit(cells[0]);
      After(v, Fold(visit, cells[1..]))
  }

  /** One more cell of a fold done: the loop step of the traversals' cell loops. */
  lemma FoldStep<T>(visit: TreeCell -> Result<Visit<T>>, cells: seq<TreeCell>, k: nat, done: Visit<T>)
    requires k < |cells| && visit(cells[k]).Ok?
    requires Fold(visit, cells) == After(done, Fold(visit, cells[k..]))
    ensures Fold(visit, cells) == After(Then(done, visit(cells[k]).value), Fold(visit, cells[k + 1..]))
  {
    assert cells[k..][0] == cells[k] && cells[k..][1..] == cells[k + 1..];
    AfterThen(done, visit(cells[k]).value, Fold(visit, cells[k + 1..]));
  }

  /** A cell that panics ends the fold with that panic. */
  lemma FoldPanics<T>(visit: TreeCell -> Result<Visit<T>>, cells: seq<TreeCell>, k: nat, done: Visit<T>)
    requires k < |cells| && visit(cells[k]).Err?
    requires Fold(visit, cells) == After(done, Fold(visit, cells[k..]))
    ensures Fold(visit, cells).Err?
  {
    assert cells[k..][0] == cells[k];
  }

  /** All cells done. */
  lemma FoldEnd<T>(visit: TreeCell -> Result<Visit<T>>, cells: seq<TreeCell>, done: Visit<T>)
    requires Fold(visit, cells) == After(done, Fold(visit, cells[|cells|..]))
    ensures Fold(visit, cells) == Ok(done)
  {
    assert cells[|cells|..] == [];
    assert done.pushes + [] == done.pushes && done.items + {} == done.items;
  }

  /** A fold of one cell is that cell's visit. */
  lemma FoldSingle<T>(visit: TreeCell -> Result<Visit<T>>, cell: TreeCell)
    requires visit(cell).Ok?
    ensures Fold(visit, [cell]) == visit(cell)
  {
    assert [cell][1..] == [];
    var v := visit(cell).value;
    assert v.items + {} == v.items && v.pushes + [] == v.pushes;
  }

  /** A fold of cells that push nothing pushes nothing. */
  lemma {:induction false} LeafPushesNothing<T>(visit: TreeCell -> Result<Visit<T>>, cells: seq<TreeCell>)
    requires forall c :: visit(c).Ok? ==> visit(c).value.pushes == []
    ensures Fold(visit, cells).Ok? ==> Fold(visit, cells).value.pushes == []
    decreases |cells|
  {
    if cells != [] {
      LeafPushesNothing(visit, cells[1..]);
    }
  }

  /** A fold succeeds exactly when every cell's visit does. */
  lemma {:induction false} FoldOk<T>(visit: TreeCell -> Result<Visit<T>>, cells: seq<TreeCell>)
    ensures Fold(visit, cells).Ok? <==> forall k :: 0 <= k < |cells| ==> visit(cells[k]).Ok?
    decreases |cells|
  {
    if cells != [] {
      FoldOk(visit, cells[1..]);
      assert forall k :: 1 <= k < |cells| ==> cells[k] == cells[1..][k - 1];
    }
  }

  /** A fold inserts exactly what its cells insert. */
  lemma {:induction false} FoldItems<T>(visit: TreeCell -> Result<Visit<T>>, cells: seq<TreeCell>, x: T)
    requires Fold(visit, cells).Ok?
    ensures x in Fold(visit, cells).value.items <==>
      exists k :: 0 <= k < |cells| && visit(cells[k]).Ok? && x in visit(cells[k]).value.items
    decreases |cells|
  {
    if cells != [] {
      FoldItems(visit, cells[1..], x);
      if exists k :: 0 <= k < |cells| && visit(cells[k]).Ok? && x in visit(cells[k]).value.items {
        var k :| 0 <= k < |cells| && visit(cells[k]).Ok? && x in visit(cells[k]).value.items;
        if k > 0 {
          assert cells[1..][k - 1] == cells[k];
        }
      }
    }
  }

  /** A fold pushes exactly what its cells push. */
  lemma {:induction false} FoldPushes<T>(visit: TreeCell -> Result<Visit<T>>, cells: seq<TreeCell>, p: int)
    requires Fold(visit, cells).Ok?
    ensures p in Fold(visit, cells).value.pushes <==>
      exists k :: 0 <= k < |cells| && visit(cells[k]).Ok? && p in visit(cells[k]).value.pushes
    decreases |cells|
  {
    if cells != [] {
      FoldPushes(visit, cells[1..], p);
      if exists k :: 0 <= k < |cells| && visit(cells[k]).Ok? && p in visit(cells[k]).value.pushes {
        var k :| 0 <= k < |cells| && visit(cells[k]).Ok? && p in visit(cells[k]).value.pushes;
        if k > 0 {
          assert cells[1..][k - 1] == cells[k];
        }
      }
    }
  }

  /** The indexes a visit pushes; none when it panics. */
  function Pushes<T>(visit: TreePage -> Result<Visit<T>>, page: TreePage): seq<int>
  {
    if visit(page).Ok? then visit(page).value.pushes else []
  }

  /** The items a visit inserts; none when it panics. */
  function Items<T>(visit: TreePage -> Result<Visit<T>>, page: TreePage): set<T>
  {
    if visit(page).Ok? then visit(page).value.items else {}
  }

  /**
   * `rank` shows that the pushes never lead back to a page already on the
   * way: every page index pushed from page `i` has a lower rank. Without
   * this the source loops forever.
   */
  predicate Ranked<T>(pages: seq<TreePage>, rank: seq<nat>, visit: TreePage -> Result<Visit<T>>)
  {
    && |rank| == |pages|
    && forall i, j {:trigger Pushes(visit, pages[i])[j]} ::
         0 <= i < |pages| && 0 <= j < |Pushes(visit, pages[i])| && 0 <= Pushes(visit, pages[i])[j] < |pages| ==>
           rank[Pushes(visit, pages[i])[j]] < rank[i]
  }

  /** No page panics when visited. */
  predicate Safe<T>(pages: seq<TreePage>, visit: TreePage -> Result<Visit<T>>)
  {
    forall i :: 0 <= i < |pages| ==> visit(pages[i]).Ok?
  }

  /** The termination height of a stack entry: 0 for an index with no page. */
  function Height(pages: seq<TreePage>, rank: seq<nat>, p: int): nat
  {
    if 0 <= p < |pages| && |rank| == |pages| then rank[p] + 1 else 0
  }

  function MaxHeight(pages: seq<TreePage>, rank: seq<nat>, qs: seq<int>): (m: nat)
    ensures forall k :: 0 <= k < |qs| ==> Height(pages, rank, qs[k]) <= m
    ensures m == 0 || exists k :: 0 <= k < |qs| && m == Height(pages, rank, qs[k])
  {
    if qs == [] then 0
    else
      var a := MaxHeight(pages, rank, qs[..|qs| - 1]);
      var b := Height(pages, rank, qs[|qs| - 1]);
      if a >= b then a else b
  }

  /** The items a traversal started from page index `p` inserts. */
  function Reach<T>(pages: seq<TreePage>, rank: seq<nat>, visit: TreePage -> Result<Visit<T>>, p: int): set<T>
    requires Ranked(pages, rank, visit)
    decreases Height(pages, rank, p), 0, 0
  {
    if 0 <= p < |pages| then
      Items(visit, pages[p]) + ReachAll(pages, rank, visit, Pushes(visit, pages[p]))
    else {}
  }

  /** The items a traversal started from the stack `qs` inserts. */
  function ReachAll<T>(pages: seq<TreePage>, rank: seq<nat>, visit: TreePage -> Result<Visit<T>>, qs: seq<int>): set<T>
    requires Ranked(pages, rank, visit)
    decreases MaxHeight(pages, rank, qs), 1, |qs|
  {
    if qs == [] then {}
    else ReachAll(pages, rank, visit, qs[..|qs| - 1]) + Reach(pages, rank, visit, qs[|qs| - 1])
  }

  /** How many pops a traversal started from page index `p` takes. */
  function Size<T>(pages: seq<TreePage>, rank: seq<nat>, visit: TreePage -> Result<Visit<T>>, p: int): nat
    requires Ranked(pages, rank, visit)
    decreases Height(pages, rank, p), 0, 0
  {
    if 0 <= p < |pages| then 1 + SizeAll(pages, rank, visit, Pushes(visit, pages[p])) else 1
  }

  function SizeAll<T>(pages: seq<TreePage>, rank: seq<nat>, visit: TreePage -> Result<Visit<T>>, qs: seq<int>): nat
    requires Ranked(pages, rank, visit)
    decreases MaxHeight(pages, rank, qs), 1, |qs|
  {
    if qs == [] then 0
    else SizeAll(pages, rank, visit, qs[..|qs| - 1]) + Size(pages, rank, visit, qs[|qs| - 1])
  }

  /** Putting one stack on top of another collects the items of both. */
  lemma {:induction false} ReachAllAppend<T>(pages: seq<TreePage>, rank: seq<nat>, visit: TreePage -> Result<Visit<T>>, s: seq<int>, t: seq<int>)
    requires Ranked(pages, rank, visit)
    ensures ReachAll(pages, rank, visit, s + t) == ReachAll(pages, rank, visit, s) + ReachAll(pages, rank, visit, t)
    decreases |t|
  {
    if t == [] {
      assert s + t == s;
    } else {
      assert (s + t)[..|s + t| - 1] == s + t[..|t| - 1];
      ReachAllAppend(pages, rank, visit, s, t[..|t| - 1]);
    }
  }

  lemma {:induction false} SizeAllAppend<T>(pages: seq<TreePage>, rank: seq<nat>, visit: TreePage -> Result<Visit<T>>, s: seq<int>, t: seq<int>)
    requires Ranked(pages, rank, visit)
    ensures SizeAll(pages, rank, visit, s + t) == SizeAll(pages, rank, visit, s) + SizeAll(pages, rank, visit, t)
    decreases |t|
  {
    if t == [] {
      assert s + t == s;
    } else {
      assert (s + t)[..|s + t| - 1] == s + t[..|t| - 1];
      SizeAllAppend(pages, rank, visit, s, t[..|t| - 1]);
    }
  }

  /** A path of page indexes, each pushed by the visit of the page before it. */
  predicate PushPath<T>(pages: seq<TreePage>, visit: TreePage -> Result<Visit<T>>, path: seq<int>)
  {
    && path != []
    && (forall k :: 0 <= k < |path| ==> 0 <= path[k] < |pages|)
    && forall k :: 0 <= k < |path| - 1 ==> path[k + 1] in Pushes(visit, pages[path[k]])
  }

  lemma {:induction false} ReachAllHas<T>(pages: seq<TreePage>, rank: seq<nat>, visit: TreePage -> Result<Visit<T>>, qs: seq<int>, q: int)
    requires Ranked(pages, rank, visit) && q in qs
    ensures Reach(pages, rank, visit, q) <= ReachAll(pages, rank, visit, qs)
    decreases |qs|
  {
    if q != qs[|qs| - 1] {
      assert q in qs[..|qs| - 1] by {
        var k :| 0 <= k < |qs| && qs[k] == q;
        assert qs[..|qs| - 1][k] == q;
      }
      ReachAllHas(pages, rank, visit, qs[..|qs| - 1], q);
    }
  }

  /** A traversal from the head of a push path collects everything the page at its end inserts. */
  lemma {:induction false} ReachAlongPath<T>(pages: seq<TreePage>, rank: seq<nat>, visit: TreePage -> Result<Visit<T>>, path: seq<int>)
    requires Ranked(pages, rank, visit) && PushPath(pages, visit, path)
    ensures Items(visit, pages[path[|path| - 1]]) <= Reach(pages, rank, visit, path[0])
    decreases |path|
  {
    if |path| > 1 {
      var rest := path[1..];
      assert PushPath(pages, visit, rest) by {
        forall k | 0 <= k < |rest| - 1
          ensures rest[k + 1] in Pushes(visit, pages[rest[k]])
        {
          assert rest[k] == path[k + 1] && rest[k + 1] == path[k + 2];
        }
      }
      ReachAlongPath(pages, rank, visit, rest);
      ReachAllHas(pages, rank, visit, Pushes(visit, pages[path[0]]), path[1]);
    }
  }

  /** Something in `ReachAll` comes from one of the stack's entries. */
  lemma {:induction false} ReachAllFrom<T>(pages: seq<TreePage>, rank: seq<nat>, visit: TreePage -> Result<Visit<T>>, qs: seq<int>, x: T)
    requires Ranked(pages, rank, visit) && x in ReachAll(pages, rank, visit, qs)
    ensures exists k :: 0 <= k < |qs| && x in Reach(pages, rank, visit, qs[k])
    decreases |qs|
  {
    if x !in Reach(pages, rank, visit, qs[|qs| - 1]) {
      ReachAllFrom(pages, rank, visit, qs[..|qs| - 1], x);
      var k :| 0 <= k < |qs| - 1 && x in Reach(pages, rank, visit, qs[..|qs| - 1][k]);
      assert qs[..|qs| - 1][k] == qs[k];
    }
  }

  lemma PrependPath<T>(pages: seq<TreePage>, visit: TreePage -> Result<Visit<T>>, p: int, path: seq<int>)
    requires 0 <= p < |pages| && PushPath(pages, visit, path) && path[0] in Pushes(visit, pages[p])
    ensures PushPath(pages, visit, [p] + path) && ([p] + path)[|path|] == path[|path| - 1]
  {
    var longer := [p] + path;
    assert forall k :: 0 <= k < |path| ==> longer[k + 1] == path[k];
  }

  /**
   * Everything a traversal from `p` inserts is inserted by a page at the
   * end of a push path from `p`: with ReachAlongPath, `Reach` is exactly
   * what the pages reachable by pushes insert.
   */
  lemma {:induction false} ReachHasPath<T>(pages: seq<TreePage>, rank: seq<nat>, visit: TreePage -> Result<Visit<T>>, p: int, x: T)
    requires Ranked(pages, rank, visit) && x in Reach(pages, rank, visit, p)
    ensures exists path :: PushPath(pages, visit, path) && path[0] == p && x in Items(visit, pages[path[|path| - 1]])
    decreases Height(pages, rank, p)
  {
    assert 0 <= p < |pages|;
    if x in Items(visit, pages[p]) {
      assert PushPath(pages, visit, [p]);
    } else {
      var qs := Pushes(visit, pages[p]);
      ReachAllFrom(pages, rank, visit, qs, x);
      var k :| 0 <= k < |qs| && x in Reach(pages, rank, visit, qs[k]);
      var q := qs[k];
      assert 0 <= q < |pages| && rank[q] < rank[p];
      ReachHasPath(pages, rank, visit, q, x);
      var path :| PushPath(pages, visit, path) && path[0] == q && x in Items(visit, pages[path[|path| - 1]]);
      PrependPath(pages, visit, p, path);
      assert ([p] + path)[0] == p;
    }
  }
}
