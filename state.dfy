/** The state of a sheet as values: the cell storage, the two edge maps,
    the consistency relation between them, what an edit does to them, and
    the printable layout; with the lemmas the sheet's methods rely on. */
module SheetState {
  import opened Common
  import opened Cells
  import opened Graph

  /** Sheet::cells: a position maps to an owned cell, or to null once
      ClearCell has reset the pointer (the key stays). */
  type Storage = map<Position, Option<Content>>

  /** There is a cell (non-null pointer) at p. */
  predicate Live(cells: Storage, p: Position) {
    p in cells && cells[p].Some?
  }

  /** The cell at p is a formula with an invalid cache. */
  predicate Stale(cells: Storage, p: Position) {
    Live(cells, p) && !IsCacheValid(cells[p].value)
  }

  /** The cell at p holds a cached formula result. */
  predicate HasValidCache(cells: Storage, p: Position) {
    Live(cells, p) && cells[p].value.FormulaImpl? && cells[p].value.cache.Some?
  }

  /** The consistency Cell::Set maintains between the cells and their edge
      sets r_nodes_ (out) and l_nodes_ (inc): out and inc are mutual
      inverses, every edge ends at a stored cell, a cell's outgoing set is
      exactly the positions its content references, a null entry has no
      edges, every stored position is valid, and there is no cycle. */
  ghost predicate Linked(cells: Storage, out: Edges, inc: Edges) {
    && KeysMatch(cells, out, inc)
    && NullsBare(cells, out, inc)
    && OutIsRefs(cells, out)
    && TargetsLive(cells, out, inc)
    && InIsInverse(out, inc)
    && Acyclic(out)
  }

  /** One entry per position in all three maps, at valid positions only. */
  ghost predicate KeysMatch(cells: Storage, out: Edges, inc: Edges) {
    && out.Keys == cells.Keys
    && inc.Keys == cells.Keys
    && (forall p :: p in cells ==> IsValid(p))
  }

  ghost predicate NullsBare(cells: Storage, out: Edges, inc: Edges) {
    forall p :: p in cells && cells[p].None? ==> p in out && p in inc && out[p] == {} && inc[p] == {}
  }

  ghost predicate OutIsRefs(cells: Storage, out: Edges) {
    forall p :: p in cells && cells[p].Some? ==> p in out && out[p] == RefSet(cells[p].value)
  }

  ghost predicate TargetsLive(cells: Storage, out: Edges, inc: Edges) {
    forall a, b :: a in out && b in out[a] ==> Live(cells, b) && b in inc && a in inc[b]
  }

  ghost predicate InIsInverse(out: Edges, inc: Edges) {
    forall a, b :: b in inc && a in inc[b] ==> a in out && b in out[a]
  }


  /** Invalid caches propagate to dependents, except possibly along edges
      into the cells of `exempt`: the condition under which pruning the
      invalidation walk at an already invalid cell loses nothing. */
  ghost predicate CoherentExcept(cells: Storage, out: Edges, exempt: set<Position>) {
    forall a, b :: a in out && b in out[a] && b !in exempt && Stale(cells, b) ==> Stale(cells, a)
  }

  /** `after` differs from `before` at most by formula caches being reset. */
  ghost predicate OnlyCachesReset(before: Storage, after: Storage) {
    && before.Keys == after.Keys
    && forall p :: p in before ==>
         && (before[p].None? <==> after[p].None?)
         && (before[p].Some? ==>
               after[p].value == before[p].value || after[p].value == InvalidateCache(before[p].value))
  }

  /** The storage after Cell::Set at pos committed content c with the
      referenced positions R: pos holds c, and every referenced position
      without a cell gets a new Empty one. */
  function RewiredCells(cells: Storage, pos: Position, c: Content, R: set<Position>): Storage {
    map q | q in cells.Keys + R ::
      if q == pos then Some(c)
      else if q in R && !Live(cells, q) then Some(EmptyImpl)
      else cells[q]
  }

  /** The outgoing sets after that commit: pos points exactly at R, new
      cells point nowhere, everything else is as before. */
  function RewiredOut(out: Edges, pos: Position, R: set<Position>): Edges {
    map q | q in out.Keys + R :: if q == pos then R else if q in out then out[q] else {}
  }

  /** The incoming sets after that commit: pos is removed from every
      incoming set and added to those of R. */
  function RewiredIn(inc: Edges, pos: Position, R: set<Position>): Edges {
    map q | q in inc.Keys + R ::
      (if q in inc then inc[q] - {pos} else {}) + (if q in R then {pos} else {})
  }

  /** A position gets an entry (with no edges) when it has none. */
  function WithEntry(out: Edges, pos: Position): Edges {
    if pos in out then out else out[pos := {}]
  }

  /** What Cell::Set at pos decides for text, before changing anything:
      a formula that does not parse raises, then a reference to an invalid
      position raises (GetCellPtr throws), then a reference to a cell that
      reaches pos (pos itself included) raises as a circular dependency. */
  ghost function SetVerdict(out: Edges, parse: string -> Option<Formula>, pos: Position, text: string): (r: Outcome)
    ensures Classify(text, parse).Failure? ==> r == Fail(ParseError)
    ensures r == Pass <==>
              && Classify(text, parse).Success?
              && forall q :: q in RefSet(Classify(text, parse).value) ==> IsValid(q) && !Reaches(out, q, pos)
    ensures Classify(text, parse).Success? &&
            (exists q :: q in RefSet(Classify(text, parse).value) && !IsValid(q)) ==>
              r == Fail(InvalidPosition)
    ensures r.Fail? && r.error == CircularDependency ==>
              exists q :: q in RefSet(Classify(text, parse).value) && Reaches(out, q, pos)
  {
    match Classify(text, parse)
    case Failure(e) => Fail(e)
    case Success(c) =>
      if exists q :: q in GetReferencedCells(c) && !IsValid(q) then Fail(InvalidPosition)
      else if exists q :: q in GetReferencedCells(c) && Reaches(out, q, pos) then Fail(CircularDependency)
      else Pass
  }

  /** Filling the cache of a stored cell changes no reference, so the
      edges stay consistent. */
  lemma FillKeepsLinked(cells: Storage, out: Edges, inc: Edges, pos: Position, c: Content)
    requires Linked(cells, out, inc) && Live(cells, pos) && RefSet(c) == RefSet(cells[pos].value)
    ensures Linked(cells[pos := Some(c)], out, inc)
  {
    FillIsSameShape(cells, pos, c);
    ShapeKeepsLinked(cells, cells[pos := Some(c)], out, inc);
  }

  lemma FillIsSameShape(cells: Storage, pos: Position, c: Content)
    requires Live(cells, pos) && RefSet(c) == RefSet(cells[pos].value)
    ensures SameShape(cells, cells[pos := Some(c)])
  {
  }


  /** A cell whose cache becomes valid keeps the caches coherent as long as
      none of the cells it references is stale. */
  lemma FillKeepsCoherent(cells: Storage, out: Edges, pos: Position, c: Content)
    requires Coherent(cells, out) && Live(cells, pos) && IsCacheValid(c) && pos in out
    requires forall t :: t in out[pos] ==> !Stale(cells, t)
    ensures Coherent(cells[pos := Some(c)], out)
  {
    var b := cells[pos := Some(c)];
    forall x, y | x in out && y in out[x] && Stale(b, y)
      ensures Stale(b, x)
    {
      assert y != pos && Stale(cells, y);
    }
  }

  /** Resetting caches leaves content that holds no valid result as it is. */
  lemma ResetKeepsCleared(a: Storage, b: Storage, p: Position)
    requires OnlyCachesReset(a, b) && p in a && a[p].Some? && Cleared(a[p].value)
    ensures b[p] == a[p]
  {
  }

  /** Over consistent edges, the verdict of Cell::Set on text whose
      references are all valid follows the search along incoming edges: a
      cycle when it finds a reference, and otherwise a commit that needs
      no cycle check of its own. */
  lemma SearchVerdict(cells: Storage, out: Edges, inc: Edges, parse: string -> Option<Formula>,
                      pos: Position, text: string, found: bool)
    requires Linked(cells, out, inc) && Classify(text, parse).Success?
    requires var refs := GetReferencedCells(Classify(text, parse).value);
             && (forall q :: q in refs ==> IsValid(q))
             && (found <==> exists q :: q in refs && Reaches(inc, pos, q))
    ensures var c := Classify(text, parse).value;
            && SetVerdict(out, parse, pos, text) == (if found then Fail(CircularDependency) else Pass)
            && (!found ==> Cleared(c) && forall q :: q in RefSet(c) ==> IsValid(q) && !Reaches(out, q, pos))
  {
    var c := Classify(text, parse).value;
    forall q | q in GetReferencedCells(c)
      ensures Reaches(out, q, pos) <==> Reaches(inc, pos, q)
    {
      DependsIffWalks(cells, out, inc, q, pos);
    }
  }

  /** Sheet::GetPrintableSize's box: every stored cell lies inside it and
      each of its sides touches a stored cell, so it is (0, 0) exactly when
      nothing is stored. */
  ghost predicate IsPrintableSize(cells: Storage, s: Size) {
    && s.rows >= 0 && s.cols >= 0
    && (forall p :: Live(cells, p) ==> 0 <= p.row < s.rows && 0 <= p.col < s.cols)
    && (s.rows == 0 || exists p :: Live(cells, p) && p.row == s.rows - 1)
    && (s.cols == 0 || exists p :: Live(cells, p) && p.col == s.cols - 1)
  }

  /** One field of Sheet::PrintTexts: the cell's text when the cell is
      stored, non-null and its text is not empty; otherwise blank. */
  function Field(cells: Storage, row: int, col: int): string {
    var p := Position(row, col);
    if Live(cells, p) && GetText(cells[p].value) != "" then GetText(cells[p].value) else ""
  }

  /** The first n fields of a row, separated by tabs. */
  function Line(cells: Storage, row: int, n: nat): string {
    if n == 0 then ""
    else if n == 1 then Field(cells, row, 0)
    else Line(cells, row, n - 1) + "\t" + Field(cells, row, n - 1)
  }

  /** The first `rows` lines of the grid, each ended by a newline. */
  function TextGrid(cells: Storage, rows: nat, cols: nat): string {
    if rows == 0 then "" else TextGrid(cells, rows - 1, cols) + Line(cells, rows - 1, cols) + "\n"
  }

  /** Occurrences of ch in s. */
  function Count(s: string, ch: char): nat {
    if s == [] then 0 else Count(s[..|s| - 1], ch) + (if s[|s| - 1] == ch then 1 else 0)
  }


  /** What the cycle search relies on: every stored cell has an incoming
      set, and every cell in an incoming set is stored. */
  ghost predicate IncomingLive(cells: Storage, inc: Edges) {
    && (forall v :: Live(cells, v) ==> v in inc)
    && (forall v, m :: v in inc && m in inc[v] ==> Live(cells, m))
  }

  /** The facts of a consistent storage that the search and the invalidation
      walk use. */
  lemma LinkedFacts(cells: Storage, out: Edges, inc: Edges)
    requires Linked(cells, out, inc)
    ensures IncomingLive(cells, inc) && Transposed(out, inc) && Transposed(inc, out)
  {
    forall v, m | v in inc && m in inc[v]
      ensures Live(cells, m)
    {
      assert m in out && v in out[m];
    }
  }

  /** A walk along incoming edges from a stored cell only meets stored cells. */
  lemma WalkStaysLive(cells: Storage, inc: Edges, x: Position, d: Position)
    requires IncomingLive(cells, inc) && Live(cells, x) && Reaches(inc, x, d)
    ensures Live(cells, d)
  {
    var live := set v | v in cells.Keys && Live(cells, v);
    forall a, b | a in live && a in inc && b in inc[a]
      ensures b in live
    {
      assert Live(cells, b);
    }
    ForwardClosed(inc, live, x, d);
  }

  /** What the cache invalidation walk relies on: the incoming sets hold
      stored cells and are the transpose of the outgoing sets, every stored
      cell has an outgoing set that lists what its content references, and
      there is no cycle. */
  ghost predicate WalkReady(cells: Storage, out: Edges, inc: Edges) {
    && IncomingLive(cells, inc)
    && (forall v :: Live(cells, v) ==> v in out)
    && Transposed(out, inc)
    && Transposed(inc, out)
    && OutIsRefs(cells, out)
    && Acyclic(out)
  }

  /** No dependent of p holds a valid cache. */
  ghost predicate ConeCleared(cells: Storage, out: Edges, p: Position) {
    forall d :: d in Dependents(out, p) ==> !HasValidCache(cells, d)
  }

  lemma LinkedWalkReady(cells: Storage, out: Edges, inc: Edges)
    requires Linked(cells, out, inc)
    ensures WalkReady(cells, out, inc)
  {
    LinkedFacts(cells, out, inc);
  }

  lemma ResetKeepsWalkReady(a: Storage, b: Storage, out: Edges, inc: Edges)
    requires WalkReady(a, out, inc) && OnlyCachesReset(a, b)
    ensures WalkReady(b, out, inc)
    ensures forall v :: Live(a, v) <==> Live(b, v)
  {
    assert forall v :: Live(a, v) <==> Live(b, v);
    assert OutIsRefs(b, out) by {
      forall p | p in b && b[p].Some?
        ensures p in out && out[p] == RefSet(b[p].value)
      {
        assert a[p].Some?;
      }
    }
  }

  /** One step of the invalidation walk from p to m in p's incoming set goes
      to a stored cell with strictly fewer dependents, none of them p. */
  lemma WalkStep(cells: Storage, out: Edges, inc: Edges, p: Position, m: Position, exempt: set<Position>)
    requires WalkReady(cells, out, inc) && Live(cells, p) && p in inc && m in inc[p]
    requires exempt !! Dependents(out, p)
    ensures Live(cells, m)
    ensures Dependents(out, m) < Dependents(out, p)
    ensures exempt + {p} !! Dependents(out, m)
  {
    assert m in out && p in out[m];
    DependentsShrink(out, m, p);
  }

  /** Every entry outside the cone of p (the cells that depend on p, p
      included) is the same in `after` as in `before`. */
  ghost predicate OutsideConeUnchanged(before: Storage, after: Storage, out: Edges, p: Position) {
    forall q :: q in before && q !in Dependents(out, p) ==> q in after && after[q] == before[q]
  }

  /** Changing only p's own entry stays inside p's cone. */
  lemma ChangeAtRoot(a: Storage, out: Edges, p: Position, v: Option<Content>)
    requires p in out
    ensures OutsideConeUnchanged(a, a[p := v], out, p)
  {
    ReachesSelf(out, p);
  }

  /** A change confined to the cone of m, which lies inside the cone of p,
      extends a change confined to the cone of p. */
  lemma ConeFrameStep(a: Storage, b: Storage, c: Storage, out: Edges, p: Position, m: Position)
    requires OutsideConeUnchanged(a, b, out, p) && OutsideConeUnchanged(b, c, out, m)
    requires Dependents(out, m) <= Dependents(out, p)
    ensures OutsideConeUnchanged(a, c, out, p)
  {
  }

  /** The root of a cone is inside it, so what was at p before does not
      matter to a change confined to p's cone. */
  lemma RootOverwritten(a: Storage, w: Option<Content>, b: Storage, out: Edges, p: Position)
    requires OutsideConeUnchanged(a[p := w], b, out, p) && p in out
    ensures OutsideConeUnchanged(a, b, out, p)
  {
    ReachesSelf(out, p);
  }

  /** After the walk from m, a dependent of p, returns: what the loop over
      p's incoming set keeps holds again, and cones already cleared stay
      cleared. */
  lemma ChildWalked(a0: Storage, b: Storage, c: Storage, out: Edges, inc: Edges, p: Position, m: Position, s: set<Position>)
    requires WalkReady(b, out, inc) && Live(b, p) && Cleared(b[p].value)
    requires OnlyCachesReset(a0, b) && OnlyCachesReset(b, c)
    requires OutsideConeUnchanged(a0, b, out, p) && OutsideConeUnchanged(b, c, out, m)
    requires Dependents(out, m) <= Dependents(out, p) && p !in Dependents(out, m)
    ensures WalkReady(c, out, inc) && Live(c, p) && Cleared(c[p].value)
    ensures OnlyCachesReset(a0, c) && OutsideConeUnchanged(a0, c, out, p)
    ensures forall x :: x in s && ConeCleared(b, out, x) ==> ConeCleared(c, out, x)
  {
    ResetTrans(a0, b, c);
    ConeFrameStep(a0, b, c, out, p, m);
    ResetKeepsWalkReady(b, c, out, inc);
    ResetKeepsCones(b, c, out, s);
  }

  /** Later resets do not undo earlier ones. */
  lemma ResetKeepsCones(a: Storage, b: Storage, out: Edges, s: set<Position>)
    requires OnlyCachesReset(a, b)
    ensures forall m :: m in s && ConeCleared(a, out, m) ==> ConeCleared(b, out, m)
  {
    ResetKeepsNoCache(a, b);
  }

  /** Once p's own cache is reset and the cones of all its direct dependents
      are cleared, p's cone is cleared and invalid caches propagate along
      the edges into p as well. */
  lemma WalkDone(cells: Storage, out: Edges, inc: Edges, p: Position, exempt: set<Position>)
    requires WalkReady(cells, out, inc) && Live(cells, p) && p in inc && Cleared(cells[p].value)
    requires forall m :: m in inc[p] ==> ConeCleared(cells, out, m)
    requires CoherentExcept(cells, out, exempt + {p})
    ensures ConeCleared(cells, out, p)
    ensures CoherentExcept(cells, out, exempt)
  {
    forall d | d in Dependents(out, p)
      ensures !HasValidCache(cells, d)
    {
      if d != p {
        DependentsUnfold(out, p, d);
        var m :| m in out && p in out[m] && d in Dependents(out, m);
        assert m in inc[p];
      }
    }
    forall a, b | a in out && b in out[a] && b !in exempt && Stale(cells, b)
      ensures Stale(cells, a)
    {
      if b == p {
        ReachesSelf(out, p);
        ReachesStep(out, a, p, p);
        assert a in Dependents(out, p);
        assert a in inc[p];
        assert Live(cells, a);
        assert RefSet(cells[a].value) != {};
      }
    }
  }

  /** Along consistent edges, a cell depends on x exactly when a walk along
      incoming edges leads from x to it. */
  lemma DependsIffWalks(cells: Storage, out: Edges, inc: Edges, d: Position, x: Position)
    requires Linked(cells, out, inc)
    ensures Reaches(out, d, x) <==> Reaches(inc, x, d)
  {
    LinkedFacts(cells, out, inc);
    if Reaches(out, d, x) {
      ReachesTransposed(out, inc, d, x);
    }
    if Reaches(inc, x, d) {
      ReachesTransposed(inc, out, x, d);
    }
  }

  /** Coherence of caches with the whole graph. */
  ghost predicate Coherent(cells: Storage, out: Edges) {
    CoherentExcept(cells, out, {})
  }

  /** m sits in the stack above every occurrence of v: it will be popped
      before v is popped again. */
  ghost predicate PushedAfter(stack: seq<Position>, v: Position, m: Position) {
    exists j :: 0 <= j < |stack| && stack[j] == m && forall i :: 0 <= i < |stack| && stack[i] == v ==> i < j
  }

  /** The invariant of the search in Cell::SearchCircularDependency: every
      incoming neighbour of a visited cell is visited or still waits on the
      stack above that cell. */
  ghost predicate StackCovers(stack: seq<Position>, visited: set<Position>, inc: Edges) {
    forall v, m :: v in visited && v in inc && m in inc[v] ==> m in visited || PushedAfter(stack, v, m)
  }

  /** A cell popped a second time has all its incoming neighbours visited. */
  lemma PoppedTwice(stack: seq<Position>, visited: set<Position>, current: Position, inc: Edges)
    requires stack != [] && current == stack[|stack| - 1]
    requires StackCovers(stack, visited, inc)
    requires current in visited && current in inc
    ensures forall m :: m in inc[current] ==> m in visited
  {
    forall m | m in inc[current]
      ensures !PushedAfter(stack, current, m)
    {
      forall j | 0 <= j < |stack| && stack[j] == m
        ensures exists i :: 0 <= i < |stack| && stack[i] == current && j <= i
      {
        assert stack[|stack| - 1] == current;
      }
    }
  }

  /** One round of the search (pop current, mark it visited, push its
      unvisited incoming neighbours) keeps StackCovers. */
  lemma StackDiscipline(stack: seq<Position>, seen: set<Position>, current: Position, below: seq<Position>,
                        after: seq<Position>, visited: set<Position>, inc: Edges)
    requires stack != [] && current == stack[|stack| - 1] && below == stack[..|stack| - 1]
    requires StackCovers(stack, seen, inc)
    requires visited == seen + {current} && current in inc
    requires |after| >= |below| && after[..|below|] == below
    requires forall k :: |below| <= k < |after| ==> after[k] !in visited
    requires forall m :: m in inc[current] ==> m in visited || m in after[|below|..]
    ensures StackCovers(after, visited, inc)
  {
    forall v, m | v in visited && v in inc && m in inc[v] && m !in visited
      ensures PushedAfter(after, v, m)
    {
      if v == current {
        var k :| 0 <= k < |after| - |below| && after[|below|..][k] == m;
        var j := |below| + k;
        assert after[j] == m;
        forall i | 0 <= i < |after| && after[i] == v
          ensures i < j
        {
        }
      } else {
        assert v in seen;
        var j :| 0 <= j < |stack| && stack[j] == m && forall i :: 0 <= i < |stack| && stack[i] == v ==> i < j;
        assert j != |stack| - 1;
        assert after[j] == below[j] == stack[j];
        forall i | 0 <= i < |after| && after[i] == v
          ensures i < j
        {
          assert i < |below|;
          assert stack[i] == below[i];
        }
      }
    }
  }

  /** Resetting caches does not touch contents, references or edges. */
  lemma ResetKeepsLinked(a: Storage, b: Storage, out: Edges, inc: Edges)
    requires Linked(a, out, inc) && OnlyCachesReset(a, b)
    ensures Linked(b, out, inc)
  {
    ResetIsSameShape(a, b);
    ShapeKeepsLinked(a, b, out, inc);
  }

  /** b stores the same positions as a, with the same null entries and the
      same references: it can differ only in text and caches. */
  ghost predicate SameShape(a: Storage, b: Storage) {
    && a.Keys == b.Keys
    && forall p :: p in a ==>
         && (a[p].None? <==> b[p].None?)
         && (a[p].Some? ==> RefSet(b[p].value) == RefSet(a[p].value))
  }

  /** The edge consistency depends on the storage only through its shape. */
  lemma ShapeKeepsLinked(a: Storage, b: Storage, out: Edges, inc: Edges)
    requires Linked(a, out, inc) && SameShape(a, b)
    ensures Linked(b, out, inc)
  {
    ShapeKeepsNulls(a, b, out, inc);
    ShapeKeepsRefs(a, b, out);
    ShapeKeepsTargets(a, b, out, inc);
  }

  lemma ResetIsSameShape(a: Storage, b: Storage)
    requires OnlyCachesReset(a, b)
    ensures SameShape(a, b)
  {
  }

  lemma ShapeKeepsNulls(a: Storage, b: Storage, out: Edges, inc: Edges)
    requires NullsBare(a, out, inc) && SameShape(a, b)
    ensures NullsBare(b, out, inc)
  {
    forall p | p in b && b[p].None?
      ensures p in out && p in inc && out[p] == {} && inc[p] == {}
    {
      assert a[p].None?;
    }
  }

  lemma ShapeKeepsRefs(a: Storage, b: Storage, out: Edges)
    requires OutIsRefs(a, out) && SameShape(a, b)
    ensures OutIsRefs(b, out)
  {
    forall p | p in b && b[p].Some?
      ensures p in out && out[p] == RefSet(b[p].value)
    {
      assert a[p].Some?;
    }
  }

  lemma ShapeKeepsTargets(a: Storage, b: Storage, out: Edges, inc: Edges)
    requires TargetsLive(a, out, inc) && SameShape(a, b)
    ensures TargetsLive(b, out, inc)
  {
    forall x, y | x in out && y in out[x]
      ensures Live(b, y) && y in inc && x in inc[y]
    {
      assert Live(a, y);
    }
  }


  lemma ResetTrans(a: Storage, b: Storage, c: Storage)
    requires OnlyCachesReset(a, b) && OnlyCachesReset(b, c)
    ensures OnlyCachesReset(a, c)
  {
  }

  /** A cell that holds no valid cache keeps holding none while caches are reset. */
  lemma ResetKeepsNoCache(a: Storage, b: Storage)
    requires OnlyCachesReset(a, b)
    ensures forall d :: !HasValidCache(a, d) ==> !HasValidCache(b, d)
  {
  }

  /** Resetting the cache of p keeps coherence everywhere except along
      edges into p. */
  lemma InvalidatedOneCell(before: Storage, after: Storage, out: Edges, p: Position, e: set<Position>, f: set<Position>)
    requires Live(before, p) && after == before[p := Some(InvalidateCache(before[p].value))]
    requires CoherentExcept(before, out, e) && e <= f && p in f
    ensures CoherentExcept(after, out, f)
  {
  }

  /** Every cell on a walk into a stale cell is stale, when coherence holds
      away from `exempt` and the walk stays among the dependents. */
  lemma {:induction false} StaleAlongWalk(cells: Storage, out: Edges, exempt: set<Position>, w: seq<Position>, p: Position)
    requires IsPath(out, w) && w[|w| - 1] == p && p in out
    requires CoherentExcept(cells, out, exempt) && Stale(cells, p)
    requires exempt !! Dependents(out, p)
    ensures Stale(cells, w[0])
  {
    if |w| > 1 {
      var rest := w[1..];
      assert IsPath(out, rest) by {
        forall i | 0 <= i < |rest| - 1
          ensures rest[i] in out && rest[i + 1] in out[rest[i]]
        {
          assert rest[i] == w[i + 1] && rest[i + 1] == w[i + 2];
        }
      }
      assert rest[|rest| - 1] == p;
      StaleAlongWalk(cells, out, exempt, rest, p);
      assert w[0] in out && w[1] in out[w[0]];
      assert w[1] in out;
      assert w[1] in Dependents(out, p);
    }
  }

  /** When p is stale and coherence holds away from `exempt`, which is
      disjoint from p's dependents, every dependent of p is stale already:
      this is why InvalidateCacheRecursive may stop at an invalid cache. */
  lemma StaleCone(cells: Storage, out: Edges, exempt: set<Position>, p: Position)
    requires CoherentExcept(cells, out, exempt) && Stale(cells, p) && p in out
    requires exempt !! Dependents(out, p)
    ensures forall d :: d in Dependents(out, p) ==> Stale(cells, d) && !HasValidCache(cells, d)
  {
    forall d | d in Dependents(out, p)
      ensures Stale(cells, d)
    {
      var w :| IsPath(out, w) && w[0] == d && w[|w| - 1] == p;
      StaleAlongWalk(cells, out, exempt, w, p);
    }
  }

  /** A consistent graph has no edge from a cell to itself. */
  lemma NoSelfEdge(cells: Storage, out: Edges, inc: Edges, p: Position)
    requires Linked(cells, out, inc) && p in out
    ensures p !in out[p] && p !in inc[p]
  {
    var w := [p, p];
    assert |w| >= 2 && w[0] == w[|w| - 1];
    assert !IsPath(out, w);
  }

  /** Installing c at a stored pos is the commit with no references yet. */
  lemma RewiredNothing(cells: Storage, out: Edges, pos: Position, c: Content)
    requires pos in cells && pos in out
    ensures RewiredCells(cells, pos, c, {}) == cells[pos := Some(c)]
    ensures RewiredOut(out, pos, {}) == out[pos := {}]
  {
  }

  /** What the unhooking and hooking loops of Cell::Set need of a
      consistent sheet at a stored pos. */
  lemma RewireReady(cells: Storage, out: Edges, inc: Edges, pos: Position)
    requires Linked(cells, out, inc) && Live(cells, pos)
    ensures KeysMatch(cells, out, inc) && NullsBare(cells, out, inc) && pos in out
    ensures forall t :: t in out[pos] ==> t in inc
    ensures forall q :: q in inc && pos in inc[q] ==> q in out[pos]
  {
  }

  /** Every incoming set without pos. */
  function Unhooked(inc: Edges, pos: Position): Edges {
    map q | q in inc :: inc[q] - {pos}
  }

  lemma UnhookedIn(inc: Edges, pos: Position)
    ensures RewiredIn(inc, pos, {}) == Unhooked(inc, pos)
  {
    var l := RewiredIn(inc, pos, {});
    var r := Unhooked(inc, pos);
    assert l.Keys == r.Keys;
    forall q | q in l
      ensures l[q] == r[q]
    {
    }
  }

  /** One round of the hooking loop of Cell::Set, on the storage: creating
      an Empty cell at q when there is none moves the partial rewiring from
      `done` to done + {q}. */
  lemma CommitStepCells(cells: Storage, pos: Position, impl: Content, done: set<Position>, q: Position)
    requires q != pos
    ensures var c := RewiredCells(cells, pos, impl, done);
            && (Live(c, q) <==> Live(cells, q) || q in done)
            && (if Live(c, q) then c else c[q := Some(EmptyImpl)]) == RewiredCells(cells, pos, impl, done + {q})
  {
    var c := RewiredCells(cells, pos, impl, done);
    var lhs := if Live(c, q) then c else c[q := Some(EmptyImpl)];
    var rhs := RewiredCells(cells, pos, impl, done + {q});
    assert lhs.Keys == rhs.Keys;
    forall k | k in lhs
      ensures lhs[k] == rhs[k]
    {
    }
  }

  /** The same round on the outgoing sets: a new cell gets an empty set, and
      pos gains the edge to q. */
  lemma CommitStepOut(cells: Storage, out: Edges, inc: Edges, pos: Position, done: set<Position>, q: Position)
    requires KeysMatch(cells, out, inc) && NullsBare(cells, out, inc) && pos in cells && q != pos
    ensures var o := RewiredOut(out, pos, done);
            var o1 := if Live(cells, q) || q in done then o else o[q := {}];
            && pos in o1
            && o1[pos := o1[pos] + {q}] == RewiredOut(out, pos, done + {q})
  {
    var o := RewiredOut(out, pos, done);
    var o1 := if Live(cells, q) || q in done then o else o[q := {}];
    var lhs := o1[pos := o1[pos] + {q}];
    var rhs := RewiredOut(out, pos, done + {q});
    assert lhs.Keys == rhs.Keys;
    forall k | k in lhs
      ensures lhs[k] == rhs[k]
    {
    }
  }

  /** The same round on the incoming sets: a new cell gets an empty set, and
      q's set gains pos. */
  lemma CommitStepIn(cells: Storage, out: Edges, inc: Edges, pos: Position, done: set<Position>, q: Position)
    requires KeysMatch(cells, out, inc) && NullsBare(cells, out, inc) && pos in cells && q != pos
    ensures var n := RewiredIn(inc, pos, done);
            var n1 := if Live(cells, q) || q in done then n else n[q := {}];
            && q in n1
            && n1[q := n1[q] + {pos}] == RewiredIn(inc, pos, done + {q})
  {
    var n := RewiredIn(inc, pos, done);
    var n1 := if Live(cells, q) || q in done then n else n[q := {}];
    var lhs := n1[q := n1[q] + {pos}];
    var rhs := RewiredIn(inc, pos, done + {q});
    assert lhs.Keys == rhs.Keys;
    forall k | k in lhs
      ensures lhs[k] == rhs[k]
    {
      if k == q && !(Live(cells, q) || q in done) && q in inc {
        assert inc[q] == {};
      }
    }
  }

  /** Rewiring pos to the references of c, none of which reaches pos,
      keeps the storage and the edges consistent: inverse edge sets, exact
      outgoing sets, live targets, and no cycle. */
  lemma RewireKeepsLinked(cells: Storage, out: Edges, inc: Edges, pos: Position, c: Content)
    requires Linked(cells, out, inc) && Live(cells, pos)
    requires forall q :: q in RefSet(c) ==> IsValid(q) && !Reaches(out, q, pos)
    ensures Linked(RewiredCells(cells, pos, c, RefSet(c)), RewiredOut(out, pos, RefSet(c)), RewiredIn(inc, pos, RefSet(c)))
  {
    var R := RefSet(c);
    ReachesSelf(out, pos);
    assert pos !in R;
    RewireKeepsNulls(cells, out, inc, pos, c, R);
    RewireKeepsRefs(cells, out, inc, pos, c);
    RewireKeepsTargets(cells, out, inc, pos, c, R);
    RewireKeepsInverse(cells, out, inc, pos, R);
    RewireKeepsAcyclic(out, RewiredOut(out, pos, R), pos);
  }

  lemma RewireKeepsNulls(cells: Storage, out: Edges, inc: Edges, pos: Position, c: Content, R: set<Position>)
    requires KeysMatch(cells, out, inc) && NullsBare(cells, out, inc) && pos in cells
    requires forall q :: q in R ==> IsValid(q)
    ensures KeysMatch(RewiredCells(cells, pos, c, R), RewiredOut(out, pos, R), RewiredIn(inc, pos, R))
    ensures NullsBare(RewiredCells(cells, pos, c, R), RewiredOut(out, pos, R), RewiredIn(inc, pos, R))
  {
    var c2, o2, i2 := RewiredCells(cells, pos, c, R), RewiredOut(out, pos, R), RewiredIn(inc, pos, R);
    forall p | p in c2 && c2[p].None?
      ensures p in o2 && p in i2 && o2[p] == {} && i2[p] == {}
    {
      assert p in cells && cells[p].None? && p !in R && p != pos;
    }
  }

  lemma RewireKeepsRefs(cells: Storage, out: Edges, inc: Edges, pos: Position, c: Content)
    requires KeysMatch(cells, out, inc) && NullsBare(cells, out, inc) && OutIsRefs(cells, out) && pos in cells
    ensures OutIsRefs(RewiredCells(cells, pos, c, RefSet(c)), RewiredOut(out, pos, RefSet(c)))
  {
    var R := RefSet(c);
    var c2, o2 := RewiredCells(cells, pos, c, R), RewiredOut(out, pos, R);
    forall p | p in c2 && c2[p].Some?
      ensures p in o2 && o2[p] == RefSet(c2[p].value)
    {
      if p != pos {
        if p in R && !Live(cells, p) {
          assert c2[p] == Some(EmptyImpl);
          assert p in cells ==> out[p] == {};
        } else {
          assert Live(cells, p) && c2[p] == cells[p];
        }
      }
    }
  }

  lemma RewireKeepsTargets(cells: Storage, out: Edges, inc: Edges, pos: Position, c: Content, R: set<Position>)
    requires KeysMatch(cells, out, inc) && TargetsLive(cells, out, inc)
    requires pos in cells && pos !in R
    ensures TargetsLive(RewiredCells(cells, pos, c, R), RewiredOut(out, pos, R), RewiredIn(inc, pos, R))
  {
    var c2, o2, i2 := RewiredCells(cells, pos, c, R), RewiredOut(out, pos, R), RewiredIn(inc, pos, R);
    forall a, b | a in o2 && b in o2[a]
      ensures Live(c2, b) && b in i2 && a in i2[b]
    {
      RewireTargetAt(cells, out, inc, pos, c, R, a, b);
    }
  }

  lemma RewireTargetAt(cells: Storage, out: Edges, inc: Edges, pos: Position, c: Content, R: set<Position>, a: Position, b: Position)
    requires KeysMatch(cells, out, inc) && TargetsLive(cells, out, inc)
    requires pos in cells && pos !in R
    requires a in RewiredOut(out, pos, R) && b in RewiredOut(out, pos, R)[a]
    ensures Live(RewiredCells(cells, pos, c, R), b)
    ensures b in RewiredIn(inc, pos, R) && a in RewiredIn(inc, pos, R)[b]
  {
    var c2, i2 := RewiredCells(cells, pos, c, R), RewiredIn(inc, pos, R);
    if a != pos {
      assert a in out && b in out[a];
      assert Live(cells, b) && b in inc && a in inc[b];
      assert b in c2;
      assert c2[b].Some?;
      assert a in i2[b];
    } else {
      assert b in R && b != pos;
      assert b in c2;
    }
  }

  lemma RewireKeepsInverse(cells: Storage, out: Edges, inc: Edges, pos: Position, R: set<Position>)
    requires KeysMatch(cells, out, inc) && InIsInverse(out, inc) && pos in cells
    ensures InIsInverse(RewiredOut(out, pos, R), RewiredIn(inc, pos, R))
  {
    var o2, i2 := RewiredOut(out, pos, R), RewiredIn(inc, pos, R);
    forall a, b | b in i2 && a in i2[b]
      ensures a in o2 && b in o2[a]
    {
      if a != pos {
        assert b in inc && a in inc[b];
        assert o2[a] == out[a];
      }
    }
  }

  /** The edges that change when pos is rewired all leave pos, and pos's new
      content has no valid cache when it references anything; so coherence
      holds everywhere except along edges into pos. */
  lemma RewireCoherence(cells: Storage, out: Edges, pos: Position, c: Content)
    requires Live(cells, pos) && Coherent(cells, out)
    requires Cleared(c) && pos !in RefSet(c)
    ensures CoherentExcept(RewiredCells(cells, pos, c, RefSet(c)), RewiredOut(out, pos, RefSet(c)), {pos})
  {
    var R := RefSet(c);
    var c2, o2 := RewiredCells(cells, pos, c, R), RewiredOut(out, pos, R);
    forall a, b | a in o2 && b in o2[a] && b !in {pos} && Stale(c2, b)
      ensures Stale(c2, a)
    {
      if a == pos {
        assert R != {};
      } else {
        assert a in out && b in out[a];
        assert Stale(cells, b);
        assert Stale(cells, a);
      }
    }
  }

  /** Giving a position without a cell a new Empty cell (no edges) keeps
      the storage consistent and the caches coherent; a stored cell is left
      as it is. */
  lemma EmplaceKeepsLinked(cells: Storage, out: Edges, inc: Edges, pos: Position)
    requires Linked(cells, out, inc) && IsValid(pos)
    ensures Linked(Emplaced(cells, pos), WithEntry(out, pos), WithEntry(inc, pos))
    ensures Coherent(cells, out) ==> Coherent(Emplaced(cells, pos), WithEntry(out, pos))
    ensures Live(cells, pos) ==> WithEntry(out, pos) == out && WithEntry(inc, pos) == inc
  {
    if Live(cells, pos) {
      RewireReady(cells, out, inc, pos);
      ReferencedIff(cells, out, inc, pos);
    } else {
      EmplaceNewKeepsLinked(cells, out, inc, pos);
      if Coherent(cells, out) {
        EmplaceKeepsCoherent(cells, out, pos);
      }
    }
  }

  lemma EmplaceNewKeepsLinked(cells: Storage, out: Edges, inc: Edges, pos: Position)
    requires Linked(cells, out, inc) && IsValid(pos) && !Live(cells, pos)
    ensures Linked(Emplaced(cells, pos), WithEntry(out, pos), WithEntry(inc, pos))
    ensures pos in out ==> out[pos] == {}
  {
    EmplaceKeepsKeys(cells, out, inc, pos);
    EmplaceKeepsRefs(cells, out, inc, pos);
    EmplaceKeepsEdges(cells, out, inc, pos);
    EmplaceKeepsAcyclic(out, pos);
  }

  lemma EmplaceKeepsAcyclic(out: Edges, pos: Position)
    requires Acyclic(out) && (pos in out ==> out[pos] == {})
    ensures Acyclic(WithEntry(out, pos))
  {
    RewireKeepsAcyclic(out, WithEntry(out, pos), pos);
  }

  lemma EmplaceKeepsKeys(cells: Storage, out: Edges, inc: Edges, pos: Position)
    requires KeysMatch(cells, out, inc) && NullsBare(cells, out, inc) && IsValid(pos) && !Live(cells, pos)
    ensures KeysMatch(Emplaced(cells, pos), WithEntry(out, pos), WithEntry(inc, pos))
    ensures NullsBare(Emplaced(cells, pos), WithEntry(out, pos), WithEntry(inc, pos))
  {
    var c2, o2, i2 := Emplaced(cells, pos), WithEntry(out, pos), WithEntry(inc, pos);
    forall p | p in c2 && c2[p].None?
      ensures p in o2 && p in i2 && o2[p] == {} && i2[p] == {}
    {
      assert p != pos && c2[p] == cells[p];
    }
  }

  lemma EmplaceKeepsRefs(cells: Storage, out: Edges, inc: Edges, pos: Position)
    requires KeysMatch(cells, out, inc) && NullsBare(cells, out, inc) && OutIsRefs(cells, out) && !Live(cells, pos)
    ensures OutIsRefs(Emplaced(cells, pos), WithEntry(out, pos))
  {
    var c2, o2 := Emplaced(cells, pos), WithEntry(out, pos);
    forall p | p in c2 && c2[p].Some?
      ensures p in o2 && o2[p] == RefSet(c2[p].value)
    {
      if p == pos {
        assert pos in cells ==> out[pos] == {};
      } else {
        assert c2[p] == cells[p];
      }
    }
  }

  lemma EmplaceKeepsEdges(cells: Storage, out: Edges, inc: Edges, pos: Position)
    requires TargetsLive(cells, out, inc) && InIsInverse(out, inc)
    requires pos in cells ==> pos in out && pos in inc && out[pos] == {} && inc[pos] == {}
    ensures TargetsLive(Emplaced(cells, pos), WithEntry(out, pos), WithEntry(inc, pos))
    ensures InIsInverse(WithEntry(out, pos), WithEntry(inc, pos))
  {
    var c2, o2, i2 := Emplaced(cells, pos), WithEntry(out, pos), WithEntry(inc, pos);
    forall a, b | a in o2 && b in o2[a]
      ensures Live(c2, b) && b in i2 && a in i2[b]
    {
      assert o2[a] == out[a];
      assert Live(cells, b) && b in inc && a in inc[b];
      assert i2[b] == inc[b];
    }
    forall a, b | b in i2 && a in i2[b]
      ensures a in o2 && b in o2[a]
    {
      assert i2[b] == inc[b];
    }
  }

  lemma EmplaceKeepsCoherent(cells: Storage, out: Edges, pos: Position)
    requires Coherent(cells, out) && !Live(cells, pos)
    requires pos in out ==> out[pos] == {}
    ensures Coherent(Emplaced(cells, pos), WithEntry(out, pos))
  {
    var c2, o2 := Emplaced(cells, pos), WithEntry(out, pos);
    forall a, b | a in o2 && b in o2[a] && Stale(c2, b)
      ensures Stale(c2, a)
    {
      assert o2[a] == out[a];
      assert b != pos;
    }
  }

  /** A cell's incoming set is not empty exactly when some outgoing set
      holds it. */
  lemma ReferencedIff(cells: Storage, out: Edges, inc: Edges, pos: Position)
    requires Linked(cells, out, inc) && Live(cells, pos)
    ensures pos in inc
    ensures inc[pos] != {} <==> exists a :: a in out && pos in out[a]
  {
    if inc[pos] != {} {
      var a :| a in inc[pos];
      assert pos in out[a];
    }
  }

  /** Cell::Set's commit of an Empty cell at a stored pos of a consistent
      sheet: nothing is created, pos loses its outgoing edges and the
      incoming sets lose pos, pos's own included unchanged. */
  lemma CommitEmpty(cells: Storage, out: Edges, inc: Edges, pos: Position)
    requires Linked(cells, out, inc) && Live(cells, pos)
    ensures Cleared(EmptyImpl) && RefSet(EmptyImpl) == {}
    ensures RewiredCells(cells, pos, EmptyImpl, RefSet(EmptyImpl)) == cells[pos := Some(EmptyImpl)]
    ensures RewiredOut(out, pos, RefSet(EmptyImpl)) == out[pos := {}]
    ensures RewiredIn(inc, pos, RefSet(EmptyImpl)) == Unhooked(inc, pos)
    ensures pos in inc && Unhooked(inc, pos)[pos] == inc[pos]
  {
    assert RefSet(EmptyImpl) == {};
    RewiredNothing(cells, out, pos, EmptyImpl);
    NoSelfEdge(cells, out, inc, pos);
    UnhookedIn(inc, pos);
  }

  /** Overwriting the same entry on both sides keeps a cache-only difference. */
  lemma OverwriteBoth(a: Storage, w: Option<Content>, b: Storage, pos: Position, v: Option<Content>)
    requires OnlyCachesReset(a[pos := w], b) && pos in a
    ensures OnlyCachesReset(a[pos := v], b[pos := v])
  {
    assert a[pos := v].Keys == a[pos := w].Keys;
  }

  /** Resetting the pointer of an Empty cell that nothing references keeps
      the storage consistent and the caches coherent. */
  lemma ResetUnreferenced(before: Storage, after: Storage, out: Edges, inc: Edges, pos: Position)
    requires Linked(before, out, inc) && Live(before, pos) && before[pos].value == EmptyImpl
    requires inc[pos] == {} && after == before[pos := None]
    ensures Linked(after, out, inc)
    ensures Coherent(before, out) ==> Coherent(after, out)
    ensures forall d :: !HasValidCache(before, d) ==> !HasValidCache(after, d)
  {
    assert KeysMatch(after, out, inc);
    UnreferencedKeepsNulls(before, out, inc, pos);
    UnreferencedKeepsRefs(before, out, pos);
    UnreferencedKeepsTargets(before, out, inc, pos);
    if Coherent(before, out) {
      UnreferencedKeepsCoherent(before, out, pos);
    }
  }

  lemma UnreferencedKeepsNulls(cells: Storage, out: Edges, inc: Edges, pos: Position)
    requires NullsBare(cells, out, inc) && OutIsRefs(cells, out) && KeysMatch(cells, out, inc)
    requires Live(cells, pos) && cells[pos].value == EmptyImpl && inc[pos] == {}
    ensures NullsBare(cells[pos := None], out, inc)
  {
    assert out[pos] == RefSet(EmptyImpl) == {};
  }

  lemma UnreferencedKeepsRefs(cells: Storage, out: Edges, pos: Position)
    requires OutIsRefs(cells, out)
    ensures OutIsRefs(cells[pos := None], out)
  {
  }

  lemma UnreferencedKeepsTargets(cells: Storage, out: Edges, inc: Edges, pos: Position)
    requires TargetsLive(cells, out, inc) && pos in inc && inc[pos] == {}
    ensures TargetsLive(cells[pos := None], out, inc)
  {
    var after := cells[pos := None];
    forall a, b | a in out && b in out[a]
      ensures Live(after, b) && b in inc && a in inc[b]
    {
      assert a in inc[b];
      assert b != pos;
      assert after[b] == cells[b];
    }
  }

  lemma UnreferencedKeepsCoherent(cells: Storage, out: Edges, pos: Position)
    requires Coherent(cells, out) && Live(cells, pos) && cells[pos].value == EmptyImpl
    requires pos in out && out[pos] == {}
    requires forall a :: a in out ==> pos !in out[a]
    ensures Coherent(cells[pos := None], out)
  {
    var after := cells[pos := None];
    forall a, b | a in out && b in out[a] && Stale(after, b)
      ensures Stale(after, a)
    {
      assert b != pos && Stale(cells, b);
      assert a != pos;
    }
  }


  /** A reference to the cell being edited is always a cycle. */
  lemma SelfReferenceRejected(out: Edges, parse: string -> Option<Formula>, pos: Position, text: string)
    requires Classify(text, parse).Success?
    requires pos in GetReferencedCells(Classify(text, parse).value)
    ensures SetVerdict(out, parse, pos, text).Fail?
    ensures (forall q :: q in GetReferencedCells(Classify(text, parse).value) ==> IsValid(q)) ==>
              SetVerdict(out, parse, pos, text) == Fail(CircularDependency)
  {
    ReachesSelf(out, pos);
  }

  /** When b already references a, making a reference b closes a cycle and
      is rejected. */
  lemma MutualReferenceRejected(cells: Storage, out: Edges, inc: Edges, parse: string -> Option<Formula>,
                                a: Position, b: Position, text: string)
    requires Linked(cells, out, inc) && b in out && a in out[b]
    requires Classify(text, parse).Success?
    requires b in GetReferencedCells(Classify(text, parse).value)
    ensures SetVerdict(out, parse, a, text).Fail?
    ensures (forall q :: q in GetReferencedCells(Classify(text, parse).value) ==> IsValid(q)) ==>
              SetVerdict(out, parse, a, text) == Fail(CircularDependency)
  {
    ReachesSelf(out, a);
    ReachesStep(out, b, a, a);
  }

  /** Once pos holds content c, entering the same text at pos again passes
      every check: its references cannot reach pos, since with the edges
      pos -> q they would close a cycle. */
  lemma RepeatSetAccepted(cells: Storage, out: Edges, inc: Edges, parse: string -> Option<Formula>, pos: Position, text: string)
    requires Linked(cells, out, inc) && Live(cells, pos)
    requires Classify(text, parse).Success? && out[pos] == RefSet(Classify(text, parse).value)
    ensures SetVerdict(out, parse, pos, text) == Pass
  {
    var c := Classify(text, parse).value;
    forall q | q in GetReferencedCells(c)
      ensures IsValid(q) && !Reaches(out, q, pos)
    {
      assert q in out[pos];
      forall w | IsPath(out, w) && w[0] == q
        ensures w[|w| - 1] != pos
      {
        var cycle := [pos] + w;
        assert IsPath(out, cycle) by {
          forall i | 0 <= i < |cycle| - 1
            ensures cycle[i] in out && cycle[i + 1] in out[cycle[i]]
          {
            if i > 0 {
              assert cycle[i] == w[i - 1] && cycle[i + 1] == w[i];
            }
          }
        }
        assert cycle[|cycle| - 1] == w[|w| - 1];
      }
    }
  }

  /** Rewiring twice to the same references gives the same edge sets as
      rewiring once: the outgoing set is rebuilt from scratch. */
  lemma RewireIdempotent(out: Edges, inc: Edges, pos: Position, R: set<Position>)
    ensures RewiredOut(RewiredOut(out, pos, R), pos, R) == RewiredOut(out, pos, R)
    ensures RewiredIn(RewiredIn(inc, pos, R), pos, R) == RewiredIn(inc, pos, R)
  {
    var i1 := RewiredIn(inc, pos, R);
    var i2 := RewiredIn(i1, pos, R);
    assert i2.Keys == i1.Keys;
    forall q | q in i1
      ensures i2[q] == i1[q]
    {
    }
  }

  /** The as-written Sheet::ClearCell breaks consistency: with B1 = "=A1",
      Cell::Clear leaves an Empty B1 whose outgoing set still holds A1, and
      since nothing references B1 its pointer is then reset while B1 keeps
      that edge and still sits in A1's incoming set. */
  lemma ClearAsWrittenBreaksLinks()
    ensures var a, b := Position(0, 0), Position(0, 1);
            var cells := map[a := Some(TextImpl("5")), b := Some(FormulaImpl(Formula("A1", [a]), None))];
            var out := map[a := {}, b := {a}];
            var inc := map[a := {b}, b := {}];
            && Linked(cells, out, inc)
            && !Linked(cells[b := Some(EmptyImpl)], out, inc)
            && !Linked(cells[b := None], out, inc)
  {
    var a, b := Position(0, 0), Position(0, 1);
    var cells := map[a := Some(TextImpl("5")), b := Some(FormulaImpl(Formula("A1", [a]), None))];
    var out := map[a := {}, b := {a}];
    var inc := map[a := {b}, b := {}];
    assert RefSet(cells[b].value) == {a};
    forall w | IsPath(out, w) && |w| >= 2
      ensures w[0] != w[|w| - 1]
    {
      assert w[0] in out && w[1] in out[w[0]];
      var k := |w| - 2;
      assert w[k] in out && w[k + 1] in out[w[k]];
      assert w[k + 1] == a;
    }
    assert Linked(cells, out, inc);
    assert out[b] != RefSet(EmptyImpl);
  }

  /** What Sheet::SetCell then dereferences, as written: an entry is
      emplaced only when the key is missing, so a key whose pointer
      ClearCell reset yields null. */
  function EmplacedAsWritten(cells: Storage, pos: Position): (r: Storage)
    ensures pos in r && r.Keys == cells.Keys + {pos}
    ensures r[pos].None? <==> pos in cells && cells[pos].None?
  {
    if pos in cells then cells else cells[pos := Some(EmptyImpl)]
  }

  /** After ClearCell reset A's pointer, SetCell(A, ...) would call Set
      through a null pointer. */
  lemma EmplacedAsWrittenCanBeNull()
    ensures var a := Position(0, 0);
            EmplacedAsWritten(map[a := None], a)[a] == None
  {
  }

  /** The storage SetCell works on, as intended: a position without a cell,
      whether never stored or reset, gets a new Empty one; a stored cell is
      kept. */
  function Emplaced(cells: Storage, pos: Position): (r: Storage)
    ensures Live(r, pos) && r.Keys == cells.Keys + {pos}
    ensures forall q :: q in cells && q != pos ==> r[q] == cells[q]
    ensures Live(cells, pos) ==> r == cells
    ensures !Live(cells, pos) ==> r[pos] == Some(EmptyImpl)
  {
    if Live(cells, pos) then cells else cells[pos := Some(EmptyImpl)]
  }

  /** A printable box is determined by the storage. */
  lemma PrintableSizeUnique(cells: Storage, s1: Size, s2: Size)
    requires IsPrintableSize(cells, s1) && IsPrintableSize(cells, s2)
    ensures s1 == s2
  {
  }

  /** No stored text contains a newline or a tab. */
  ghost predicate PlainTexts(cells: Storage) {
    forall p :: Live(cells, p) ==> '\n' !in GetText(cells[p].value) && '\t' !in GetText(cells[p].value)
  }

  lemma {:induction false} CountAppend(s: string, t: string, ch: char)
    ensures Count(s + t, ch) == Count(s, ch) + Count(t, ch)
    decreases |t|
  {
    if t != [] {
      var init := t[..|t| - 1];
      assert (s + t)[..|s + t| - 1] == s + init;
      CountAppend(s, init, ch);
    } else {
      assert s + t == s;
    }
  }

  lemma {:induction false} CountAbsent(s: string, ch: char)
    requires ch !in s
    ensures Count(s, ch) == 0
    decreases |s|
  {
    if s != [] {
      CountAbsent(s[..|s| - 1], ch);
    }
  }

  /** A row of n fields has n - 1 tabs and no newline. */
  lemma {:induction false} LineLayout(cells: Storage, row: int, n: nat)
    requires PlainTexts(cells)
    ensures Count(Line(cells, row, n), '\n') == 0
    ensures Count(Line(cells, row, n), '\t') == TabsPerLine(n)
  {
    if n > 0 {
      var f := Field(cells, row, n - 1);
      CountAbsent(f, '\n');
      CountAbsent(f, '\t');
      if n > 1 {
        LineLayout(cells, row, n - 1);
        var l := Line(cells, row, n - 1);
        CountAppend(l, "\t", '\n');
        CountAppend(l, "\t", '\t');
        CountAppend(l + "\t", f, '\n');
        CountAppend(l + "\t", f, '\t');
      }
    }
  }

  /** The printout of a rows x cols box holds exactly rows newlines and
      rows * (cols - 1) tabs, when no text contains either. */
  lemma GridLayout(cells: Storage, rows: nat, cols: nat)
    requires PlainTexts(cells)
    ensures Count(TextGrid(cells, rows, cols), '\n') == rows
    ensures Count(TextGrid(cells, rows, cols), '\t') == rows * TabsPerLine(cols)
  {
    forall r | 0 <= r < rows
      ensures Count(Line(cells, r, cols), '\n') == 0
      ensures Count(Line(cells, r, cols), '\t') == TabsPerLine(cols)
    {
      LineLayout(cells, r, cols);
    }
    GridCounts(cells, rows, cols, '\n', 0);
    GridCounts(cells, rows, cols, '\t', TabsPerLine(cols));
  }

  /** When each of the first `rows` lines holds k copies of ch, the grid
      holds rows * k of them, plus one per line when ch is the newline. */
  lemma {:induction false} GridCounts(cells: Storage, rows: nat, cols: nat, ch: char, k: nat)
    requires forall r :: 0 <= r < rows ==> Count(Line(cells, r, cols), ch) == k
    ensures Count(TextGrid(cells, rows, cols), ch) == rows * k + (if ch == '\n' then rows else 0)
  {
    if rows > 0 {
      var g := TextGrid(cells, rows - 1, cols);
      var l := Line(cells, rows - 1, cols);
      GridCounts(cells, rows - 1, cols, ch, k);
      GridRowCounts(g, l, ch);
      assert TextGrid(cells, rows, cols) == (g + l) + "\n";
      GridArith(rows, k, Count(g, ch), Count(l, ch), ch == '\n');
    }
  }

  /** The arithmetic of one row of GridCounts. */
  lemma GridArith(rows: nat, k: nat, a: int, b: int, nl: bool)
    requires rows > 0 && b == k
    requires a == (rows - 1) * k + (if nl then rows - 1 else 0)
    ensures a + b + (if nl then 1 else 0) == rows * k + (if nl then rows else 0)
  {
    MulStep(rows, k);
  }

  /** Appending a line and its newline adds the line's count of ch, plus one
      when ch is the newline. */
  lemma GridRowCounts(g: string, l: string, ch: char)
    ensures Count((g + l) + "\n", ch) == Count(g, ch) + Count(l, ch) + (if ch == '\n' then 1 else 0)
  {
    CountAppend(g, l, ch);
    CountAppend(g + l, "\n", ch);
    assert Count("\n", ch) == (if ch == '\n' then 1 else 0) by {
      assert "\n"[..0] == [];
    }
  }

  /** Tabs in a printed line of `cols` fields. */
  function TabsPerLine(cols: nat): nat {
    if cols == 0 then 0 else cols - 1
  }

  lemma MulStep(n: nat, k: nat)
    requires n > 0
    ensures n * k == (n - 1) * k + k
  {
  }

  /** Every printed line ends the grid with a newline. */
  lemma GridEndsWithNewline(cells: Storage, rows: nat, cols: nat)
    requires rows > 0
    ensures TextGrid(cells, rows, cols)[|TextGrid(cells, rows, cols)| - 1] == '\n'
  {
  }
}
