/** The dependency graph the cells maintain between them (r_nodes_ and
    l_nodes_ in spreadsheet/cell.cpp), as adjacency maps keyed by position:
    walks, reachability, acyclicity, and the facts that cycle detection and
    cache invalidation rely on. */
module Graph {
  import opened Common

  /** Adjacency: for each cell, the cells at the other end of its edges. */
  type Edges = map<Position, set<Position>>

  /** p is a walk of zero or more edges of g. */
  ghost predicate IsPath(g: Edges, p: seq<Position>) {
    |p| >= 1 && forall i :: 0 <= i < |p| - 1 ==> p[i] in g && p[i + 1] in g[p[i]]
  }

  /** b can be reached from a along edges of g (a reaches itself). */
  ghost predicate Reaches(g: Edges, a: Position, b: Position) {
    exists p :: IsPath(g, p) && p[0] == a && p[|p| - 1] == b
  }

  /** No walk of one or more edges returns to where it started. */
  ghost predicate Acyclic(g: Edges) {
    forall p :: IsPath(g, p) && |p| >= 2 ==> p[0] != p[|p| - 1]
  }

  /** The cells of g whose value depends, directly or not, on x (x among
      them when it has an entry): with outgoing edges, the cone above x. */
  ghost function Dependents(g: Edges, x: Position): set<Position> {
    set d | d in g && Reaches(g, d, x)
  }

  lemma PathStartsInGraph(g: Edges, p: seq<Position>)
    requires IsPath(g, p) && |p| >= 2
    ensures p[0] in g
  {
  }

  /** A graph without nodes has no cycle. */
  lemma EmptyAcyclic()
    ensures Acyclic(map[])
  {
    forall p | IsPath(map[], p) && |p| >= 2
      ensures false
    {
      PathStartsInGraph(map[], p);
    }
  }

  lemma ReachesSelf(g: Edges, a: Position)
    ensures Reaches(g, a, a)
  {
    assert IsPath(g, [a]);
  }

  lemma ReachesStep(g: Edges, a: Position, b: Position, c: Position)
    requires a in g && b in g[a] && Reaches(g, b, c)
    ensures Reaches(g, a, c)
  {
    var p :| IsPath(g, p) && p[0] == b && p[|p| - 1] == c;
    var q := [a] + p;
    forall i | 0 <= i < |q| - 1
      ensures q[i] in g && q[i + 1] in g[q[i]]
    {
      if i > 0 {
        assert q[i] == p[i - 1] && q[i + 1] == p[i];
      }
    }
    assert IsPath(g, q) && q[0] == a && q[|q| - 1] == c;
  }

  lemma PathConcat(g: Edges, p: seq<Position>, q: seq<Position>)
    requires IsPath(g, p) && IsPath(g, q) && p[|p| - 1] == q[0]
    ensures IsPath(g, p + q[1..])
    ensures (p + q[1..])[0] == p[0] && (p + q[1..])[|p + q[1..]| - 1] == q[|q| - 1]
  {
    var r := p + q[1..];
    forall i | 0 <= i < |r| - 1
      ensures r[i] in g && r[i + 1] in g[r[i]]
    {
      if i < |p| - 1 {
        assert r[i] == p[i] && r[i + 1] == p[i + 1];
      } else {
        var j := i - |p| + 1;
        assert r[i] == q[j] && r[i + 1] == q[j + 1];
      }
    }
  }

  lemma ReachesTrans(g: Edges, a: Position, b: Position, c: Position)
    requires Reaches(g, a, b) && Reaches(g, b, c)
    ensures Reaches(g, a, c)
  {
    var p :| IsPath(g, p) && p[0] == a && p[|p| - 1] == b;
    var q :| IsPath(g, q) && q[0] == b && q[|q| - 1] == c;
    PathConcat(g, p, q);
  }

  lemma ReachesAppend(g: Edges, a: Position, b: Position, c: Position)
    requires Reaches(g, a, b) && b in g && c in g[b]
    ensures Reaches(g, a, c)
  {
    assert IsPath(g, [b, c]);
    ReachesTrans(g, a, b, c);
  }

  /** A cell that depends on x through a direct dependent m of x has a
      strictly smaller cone of dependents than x: this is the measure that
      makes the recursive cache invalidation terminate. */
  lemma {:induction false} DependentsShrink(g: Edges, m: Position, x: Position)
    requires Acyclic(g) && x in g && m in g && x in g[m]
    ensures Dependents(g, m) < Dependents(g, x) && x !in Dependents(g, m)
  {
    forall d | d in Dependents(g, m)
      ensures d in Dependents(g, x)
    {
      ReachesAppend(g, d, m, x);
    }
    ReachesSelf(g, x);
    assert x in Dependents(g, x);
    if x in Dependents(g, m) {
      var p :| IsPath(g, p) && p[0] == x && p[|p| - 1] == m;
      var q := p + [x];
      assert IsPath(g, q) by {
        forall i | 0 <= i < |q| - 1
          ensures q[i] in g && q[i + 1] in g[q[i]]
        {
          if i < |p| - 1 {
            assert q[i] == p[i] && q[i + 1] == p[i + 1];
          }
        }
      }
      assert false;
    }
  }

  /** Every dependent of x other than x depends on some direct dependent of x. */
  lemma {:induction false} DependentsUnfold(g: Edges, x: Position, d: Position)
    requires d in Dependents(g, x) && d != x
    ensures exists m :: m in g && x in g[m] && d in Dependents(g, m)
  {
    var p :| IsPath(g, p) && p[0] == d && p[|p| - 1] == x;
    var n := |p|;
    assert n >= 2;
    var m := p[n - 2];
    var pre := p[..n - 1];
    assert IsPath(g, pre) by {
      forall i | 0 <= i < |pre| - 1
        ensures pre[i] in g && pre[i + 1] in g[pre[i]]
      {
        assert pre[i] == p[i] && pre[i + 1] == p[i + 1];
      }
    }
    assert pre[0] == d && pre[|pre| - 1] == m;
    assert m in g && x in g[m];
    assert d in Dependents(g, m);
  }

  /** Splitting a walk of g2 at its first edge out of x: either no edge of
      the walk leaves x, and when g2 agrees with g on every other source the
      walk is a walk of g (j < 0); or j is the first visit of x that an edge
      leaves, and the walk's start reaches x in g. */
  lemma {:induction false} SplitAtFirst(g: Edges, g2: Edges, x: Position, p: seq<Position>) returns (j: int)
    requires IsPath(g2, p)
    requires forall a, b :: a in g2 && b in g2[a] && a != x ==> a in g && b in g[a]
    ensures j < 0 ==> IsPath(g, p)
    ensures j >= 0 ==> j < |p| - 1 && p[j] == x && Reaches(g, p[0], x)
  {
    if |p| == 1 {
      j := -1;
      assert IsPath(g, p);
    } else if p[0] == x {
      j := 0;
      ReachesSelf(g, x);
    } else {
      var q := p[1..];
      assert IsPath(g2, q) by {
        forall i | 0 <= i < |q| - 1
          ensures q[i] in g2 && q[i + 1] in g2[q[i]]
        {
          assert q[i] == p[i + 1] && q[i + 1] == p[i + 2];
        }
      }
      var k := SplitAtFirst(g, g2, x, q);
      assert p[0] in g2 && p[1] in g2[p[0]];
      assert p[0] in g && p[1] in g[p[0]];
      if k < 0 {
        j := -1;
        forall i | 0 <= i < |p| - 1
          ensures p[i] in g && p[i + 1] in g[p[i]]
        {
          if i > 0 {
            assert p[i] == q[i - 1] && p[i + 1] == q[i];
          }
        }
      } else {
        j := k + 1;
        ReachesStep(g, p[0], q[0], x);
      }
    }
  }

  /** Replacing the edges out of x by edges to cells that do not reach x
      (and adding cells without edges) keeps the graph acyclic. This is why a
      Cell::Set that passed the cycle search leaves no cycle behind. */
  lemma {:induction false} RewireKeepsAcyclic(g: Edges, g2: Edges, x: Position)
    requires Acyclic(g)
    requires forall a, b :: a in g2 && b in g2[a] && a != x ==> a in g && b in g[a]
    requires forall r :: x in g2 && r in g2[x] ==> !Reaches(g, r, x)
    ensures Acyclic(g2)
  {
    forall p | IsPath(g2, p) && |p| >= 2
      ensures p[0] != p[|p| - 1]
    {
      if p[0] == p[|p| - 1] {
        var j := SplitAtFirst(g, g2, x, p);
        if j >= 0 {
          var c := p[0];
          var r := p[j + 1];
          assert x in g2 && r in g2[x];
          var s := p[j + 1..];
          assert IsPath(g2, s) by {
            forall i | 0 <= i < |s| - 1
              ensures s[i] in g2 && s[i + 1] in g2[s[i]]
            {
              assert s[i] == p[j + 1 + i] && s[i + 1] == p[j + 2 + i];
            }
          }
          assert s[|s| - 1] == p[|p| - 1];
          assert s[0] == r && s[|s| - 1] == c;
          var k := SplitAtFirst(g, g2, x, s);
          if k < 0 {
            assert Reaches(g, r, c);
            ReachesTrans(g, r, c, x);
          }
        }
      }
    }
  }

  /** h holds every edge of g reversed. */
  ghost predicate Transposed(g: Edges, h: Edges) {
    forall a, b :: a in g && b in g[a] ==> b in h && a in h[b]
  }

  /** A walk of g read backwards is a walk of its transpose. */
  lemma {:induction false} ReachesTransposed(g: Edges, h: Edges, a: Position, b: Position)
    requires Transposed(g, h) && Reaches(g, a, b)
    ensures Reaches(h, b, a)
  {
    var p :| IsPath(g, p) && p[0] == a && p[|p| - 1] == b;
    var n := |p|;
    var r := seq(n, i requires 0 <= i < n => p[n - 1 - i]);
    forall i | 0 <= i < n - 1
      ensures r[i] in h && r[i + 1] in h[r[i]]
    {
      var j := n - 2 - i;
      assert p[j] in g && p[j + 1] in g[p[j]];
      assert r[i] == p[j + 1] && r[i + 1] == p[j];
    }
    assert IsPath(h, r) && r[0] == b && r[n - 1] == a;
  }

  /** A set that contains x and every successor of its members contains
      everything x reaches: what a finished forward search visited. */
  lemma {:induction false} ForwardClosed(g: Edges, closed: set<Position>, x: Position, d: Position)
    requires x in closed
    requires forall a, b :: a in closed && a in g && b in g[a] ==> b in closed
    requires Reaches(g, x, d)
    ensures d in closed
  {
    var p :| IsPath(g, p) && p[0] == x && p[|p| - 1] == d;
    var k := 0;
    while k < |p| - 1
      invariant 0 <= k < |p| && p[k] in closed
    {
      assert p[k] in g && p[k + 1] in g[p[k]];
      k := k + 1;
    }
  }
}
