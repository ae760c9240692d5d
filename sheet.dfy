/** The sheet of spreadsheet/sheet.cpp together with the graph-maintaining
    half of spreadsheet/cell.cpp (cycle search, Cell::Set, cache
    invalidation), on one object whose cells are identified by position. */
module Spreadsheet {
  import opened Common
  import opened Cells
  import opened Graph
  import opened SheetState

  class Sheet {
    var cells: Storage
    var outgoing: Edges
    var incoming: Edges
    /** ParseFormula: None when it throws a FormulaException. */
    const parse: string -> Option<Formula>

    ghost predicate Valid()
      reads this
    {
      Linked(cells, outgoing, incoming)
    }

    /** No dependent of an invalid cache holds a valid one. */
    ghost predicate CachesCoherent()
      reads this
    {
      Coherent(cells, outgoing)
    }

    /** An empty sheet (CreateSheet). */
    constructor (parse: string -> Option<Formula>)
      ensures Valid() && CachesCoherent()
      ensures cells == map[] && outgoing == map[] && incoming == map[] && this.parse == parse
    {
      cells, outgoing, incoming := map[], map[], map[];
      this.parse := parse;
      new;
      EmptyAcyclic();
    }

    /** Sheet::GetCellPtr / Sheet::GetCell: raises on an invalid position;
        otherwise the cell, with "never stored" and "reset by ClearCell"
        both reading as no cell. */
    function GetCell(pos: Position): (r: Result<Option<Content>, SheetError>)
      reads this
      ensures r.Failure? <==> !IsValid(pos)
      ensures r.Failure? ==> r.error == InvalidPosition
      ensures r.Success? ==> (r.value.Some? <==> Live(cells, pos))
      ensures r.Success? && r.value.Some? ==> Some(r.value.value) == cells[pos]
    {
      if !IsValid(pos) then Failure(InvalidPosition)
      else if pos !in cells then Success(None)
      else Success(cells[pos])
    }

    /** Cell::IsReferenced: some formula references the cell. */
    function IsReferenced(pos: Position): (b: bool)
      reads this
      requires Valid() && Live(cells, pos)
      ensures b <==> exists a :: a in outgoing && pos in outgoing[a]
    {
      ReferencedIff(cells, outgoing, incoming, pos);
      incoming[pos] != {}
    }

    /** Cell::SearchCircularDependency for new references refs of the cell
        at pos: GetCellPtr raises on an invalid reference; otherwise the
        answer is whether a walk along incoming edges leads from pos to a
        reference (pos itself included). */
    method SearchCircularDependency(pos: Position, refs: seq<Position>) returns (r: Result<bool, SheetError>)
      requires Live(cells, pos) && IncomingLive(cells, incoming)
      ensures r.Failure? <==> exists q :: q in refs && !IsValid(q)
      ensures r.Failure? ==> r.error == InvalidPosition
      ensures r.Success? ==> (r.value <==> exists q :: q in refs && Reaches(incoming, pos, q))
    {
      if refs == [] {
        return Success(false);
      }
      // the non-null cell pointers among the references
      var referenced: set<Position> := {};
      var i := 0;
      while i < |refs|
        invariant 0 <= i <= |refs|
        invariant forall q :: q in refs[..i] ==> IsValid(q)
        invariant forall q :: q in referenced <==> q in refs[..i] && Live(cells, q)
      {
        if !IsValid(refs[i]) {
          return Failure(InvalidPosition);
        }
        if Live(cells, refs[i]) {
          referenced := referenced + {refs[i]};
        }
        assert refs[..i + 1] == refs[..i] + [refs[i]];
        i := i + 1;
      }
      assert refs[..i] == refs;
      var found := WalksIntoAny(pos, referenced);
      forall q | q in refs && Reaches(incoming, pos, q)
        ensures q in referenced
      {
        WalkStaysLive(cells, incoming, pos, q);
      }
      return Success(found);
    }

    /** Lines 97-112 of Cell::SearchCircularDependency: a depth-first
        search from pos along incoming edges, with an explicit stack and a
        visited set, that stops at the first cell of targets it meets. */
    method WalksIntoAny(pos: Position, targets: set<Position>) returns (found: bool)
      requires Live(cells, pos) && IncomingLive(cells, incoming)
      ensures found <==> exists q :: q in targets && Reaches(incoming, pos, q)
    {
      var visited: set<Position> := {};
      var needVisit: seq<Position> := [pos];
      ReachesSelf(incoming, pos);
      while needVisit != []
        invariant forall k :: 0 <= k < |needVisit| ==> Live(cells, needVisit[k]) && Reaches(incoming, pos, needVisit[k])
        invariant forall v :: v in visited ==> Live(cells, v) && Reaches(incoming, pos, v)
        invariant pos in visited || pos in needVisit
        invariant visited !! targets
        invariant StackCovers(needVisit, visited, incoming)
        decreases cells.Keys - visited, |needVisit|
      {
        ghost var stack, seen := needVisit, visited;
        var current := needVisit[|needVisit| - 1];
        ghost var below := needVisit[..|needVisit| - 1];
        if current in seen {
          PoppedTwice(stack, seen, current, incoming);
        }
        needVisit := needVisit[..|needVisit| - 1];
        visited := visited + {current};
        if current in targets {
          return true;
        }
        needVisit := PushUnvisited(current, visited, needVisit);
        StackDiscipline(stack, seen, current, below, needVisit, visited, incoming);
        forall k | 0 <= k < |needVisit|
          ensures Live(cells, needVisit[k]) && Reaches(incoming, pos, needVisit[k])
        {
          if k >= |below| {
            ReachesAppend(incoming, pos, current, needVisit[k]);
          } else {
            assert needVisit[k] == stack[k];
          }
        }
      }
      forall q | q in targets && Reaches(incoming, pos, q)
        ensures false
      {
        ForwardClosed(incoming, visited, pos, q);
      }
      return false;
    }

    /** Lines 107-109 of Cell::SearchCircularDependency: push every cell of
        current's incoming set that is not visited yet. */
    method PushUnvisited(current: Position, visited: set<Position>, stack: seq<Position>) returns (after: seq<Position>)
      requires current in incoming
      ensures |after| >= |stack| && after[..|stack|] == stack
      ensures forall k :: |stack| <= k < |after| ==> after[k] in incoming[current] && after[k] !in visited
      ensures forall m :: m in incoming[current] ==> m in visited || m in after[|stack|..]
      ensures (forall m :: m in incoming[current] ==> m in visited) ==> after == stack
    {
      after := stack;
      var todo := incoming[current];
      while todo != {}
        invariant todo <= incoming[current]
        invariant |after| >= |stack| && after[..|stack|] == stack
        invariant forall k :: |stack| <= k < |after| ==> after[k] in incoming[current] && after[k] !in visited
        invariant forall m :: m in incoming[current] && m !in todo ==> m in visited || m in after[|stack|..]
        invariant (forall m :: m in incoming[current] ==> m in visited) ==> after == stack
        decreases todo
      {
        var m :| m in todo;
        if m !in visited {
          ghost var pre := after;
          after := after + [m];
          assert after[|stack|..] == pre[|stack|..] + [m];
        }
        todo := todo - {m};
      }
    }

    /** Cell::InvalidateCacheRecursive: when forced (needSwap) or when the
        cell's cache is valid (always so for Empty and Text), reset it and
        recurse into every cell of its incoming set; otherwise stop. The walk
        ends because the graph has no cycle: each step goes to a cell with
        fewer dependents. When invalid caches already propagated to
        dependents beforehand (except along edges into `exempt`, a ghost
        parameter that stands for the cells the walk came through), every
        dependent ends up without a valid cache. */
    method InvalidateCacheRecursive(p: Position, needSwap: bool, ghost exempt: set<Position>)
      requires Live(cells, p) && WalkReady(cells, outgoing, incoming)
      requires exempt !! Dependents(outgoing, p)
      modifies this`cells
      ensures outgoing == old(outgoing) && incoming == old(incoming)
      ensures OnlyCachesReset(old(cells), cells)
      ensures needSwap || IsCacheValid(old(cells)[p].value) ==> Cleared(cells[p].value)
      ensures !needSwap && !IsCacheValid(old(cells)[p].value) ==> cells == old(cells)
      ensures OutsideConeUnchanged(old(cells), cells, outgoing, p)
      ensures old(CoherentExcept(cells, outgoing, if needSwap then exempt + {p} else exempt)) ==>
                CoherentExcept(cells, outgoing, exempt) && ConeCleared(cells, outgoing, p)
      decreases Dependents(outgoing, p), 2
    {
      ghost var coherent := CoherentExcept(cells, outgoing, if needSwap then exempt + {p} else exempt);
      var c := cells[p].value;
      if IsCacheValid(c) || needSwap {
        cells := cells[p := Some(InvalidateCache(c))];
        ResetKeepsWalkReady(old(cells), cells, outgoing, incoming);
        if coherent {
          InvalidatedOneCell(old(cells), cells, outgoing, p, if needSwap then exempt + {p} else exempt, exempt + {p});
        }
        ghost var swapped := cells;
        ChangeAtRoot(old(cells), outgoing, p, swapped[p]);
        InvalidateDependents(p, exempt);
        ResetTrans(old(cells), swapped, cells);
        ConeFrameStep(old(cells), swapped, cells, outgoing, p, p);
      } else if coherent {
        StaleCone(cells, outgoing, exempt, p);
      }
    }

    /** The loop of lines 117-121 of Cell::InvalidateCacheRecursive: every
        cell whose formula references p is invalidated in turn. */
    method InvalidateDependents(p: Position, ghost exempt: set<Position>)
      requires Live(cells, p) && WalkReady(cells, outgoing, incoming)
      requires exempt !! Dependents(outgoing, p)
      requires Cleared(cells[p].value)
      modifies this`cells
      ensures outgoing == old(outgoing) && incoming == old(incoming)
      ensures OnlyCachesReset(old(cells), cells)
      ensures Cleared(cells[p].value)
      ensures OutsideConeUnchanged(old(cells), cells, outgoing, p)
      ensures old(CoherentExcept(cells, outgoing, exempt + {p})) ==>
                CoherentExcept(cells, outgoing, exempt) && ConeCleared(cells, outgoing, p)
      decreases Dependents(outgoing, p), 1
    {
      ghost var coherent := CoherentExcept(cells, outgoing, exempt + {p});
      var todo := incoming[p];
      while todo != {}
        invariant todo <= incoming[p]
        invariant WalkReady(cells, outgoing, incoming) && Live(cells, p)
        invariant OnlyCachesReset(old(cells), cells)
        invariant Cleared(cells[p].value)
        invariant OutsideConeUnchanged(old(cells), cells, outgoing, p)
        invariant coherent ==> CoherentExcept(cells, outgoing, exempt + {p})
        invariant coherent ==> forall m :: m in incoming[p] && m !in todo ==> ConeCleared(cells, outgoing, m)
        decreases todo
      {
        var m :| m in todo;
        InvalidateChild(p, m, exempt, old(cells), incoming[p]);
        todo := todo - {m};
      }
      if coherent {
        WalkDone(cells, outgoing, incoming, p, exempt);
      }
    }

    /** One round of the loop of lines 118-120 of
        Cell::InvalidateCacheRecursive: the walk from m, a cell that
        references p. Caches change only inside m's cone, which lies inside
        p's; cones already cleared (those of the cells of `done`) stay
        cleared. `start` is the storage before the loop. */
    method InvalidateChild(p: Position, m: Position, ghost exempt: set<Position>,
                           ghost start: Storage, ghost done: set<Position>)
      requires Live(cells, p) && WalkReady(cells, outgoing, incoming) && m in incoming[p]
      requires exempt !! Dependents(outgoing, p)
      requires Cleared(cells[p].value)
      requires OnlyCachesReset(start, cells) && OutsideConeUnchanged(start, cells, outgoing, p)
      modifies this`cells
      ensures outgoing == old(outgoing) && incoming == old(incoming)
      ensures WalkReady(cells, outgoing, incoming) && Live(cells, p) && Cleared(cells[p].value)
      ensures OnlyCachesReset(start, cells) && OutsideConeUnchanged(start, cells, outgoing, p)
      ensures forall x :: x in done && ConeCleared(old(cells), outgoing, x) ==> ConeCleared(cells, outgoing, x)
      ensures old(CoherentExcept(cells, outgoing, exempt + {p})) ==>
                CoherentExcept(cells, outgoing, exempt + {p}) && ConeCleared(cells, outgoing, m)
      decreases Dependents(outgoing, p), 0
    {
      WalkStep(cells, outgoing, incoming, p, m, exempt);
      InvalidateCacheRecursive(m, false, exempt + {p});
      ChildWalked(start, old(cells), cells, outgoing, incoming, p, m, done);
    }

    /** Lines 145-161 of Cell::Set, once the checks have passed: install the
        new content, unhook pos from the incoming sets of its old targets,
        then hook it to each referenced position, creating an Empty cell
        where there is none (where the source would go through SetCell). */
    method Rewire(pos: Position, impl: Content)
      requires Valid() && Live(cells, pos)
      requires forall q :: q in RefSet(impl) ==> IsValid(q) && !Reaches(outgoing, q, pos)
      modifies this`cells, this`outgoing, this`incoming
      ensures cells == RewiredCells(old(cells), pos, impl, RefSet(impl))
      ensures outgoing == RewiredOut(old(outgoing), pos, RefSet(impl))
      ensures incoming == RewiredIn(old(incoming), pos, RefSet(impl))
      ensures Valid()
    {
      ghost var cells0, out0, inc0 := cells, outgoing, incoming;
      ReachesSelf(outgoing, pos);
      RewireReady(cells, outgoing, incoming, pos);
      RewiredNothing(cells, outgoing, pos, impl);
      cells := cells[pos := Some(impl)];
      Unhook(pos);
      Hook(pos, impl, cells0, out0, inc0);
      RewireKeepsLinked(cells0, out0, inc0, pos, impl);
    }

    /** Lines 147-151 of Cell::Set: pos leaves the incoming set of every
        cell it referenced, and its own outgoing set is emptied. */
    method Unhook(pos: Position)
      requires pos in outgoing && forall t :: t in outgoing[pos] ==> t in incoming
      requires forall q :: q in incoming && pos in incoming[q] ==> q in outgoing[pos]
      modifies this`outgoing, this`incoming
      ensures outgoing == old(outgoing)[pos := {}]
      ensures incoming == RewiredIn(old(incoming), pos, {})
    {
      ghost var inc0 := incoming;
      var olds := outgoing[pos];
      while olds != {}
        invariant olds <= old(outgoing)[pos]
        invariant outgoing == old(outgoing)
        invariant incoming.Keys == inc0.Keys
        invariant forall q :: q in inc0 ==> incoming[q] == if q in old(outgoing)[pos] && q !in olds then inc0[q] - {pos} else inc0[q]
        decreases olds
      {
        var t :| t in olds;
        incoming := incoming[t := incoming[t] - {pos}];
        olds := olds - {t};
      }
      outgoing := outgoing[pos := {}];
      forall q | q in inc0
        ensures incoming[q] == inc0[q] - {pos}
      {
        if pos in inc0[q] {
          assert q in old(outgoing)[pos];
        }
      }
      assert incoming == Unhooked(inc0, pos);
      UnhookedIn(inc0, pos);
    }

    /** Lines 153-161 of Cell::Set: for each referenced position in turn,
        create an Empty cell there when there is none, then record the edge
        from pos to it in both directions. */
    method Hook(pos: Position, impl: Content, ghost cells0: Storage, ghost out0: Edges, ghost inc0: Edges)
      requires KeysMatch(cells0, out0, inc0) && NullsBare(cells0, out0, inc0) && pos in cells0
      requires pos !in RefSet(impl)
      requires cells == RewiredCells(cells0, pos, impl, {})
      requires outgoing == RewiredOut(out0, pos, {})
      requires incoming == RewiredIn(inc0, pos, {})
      modifies this`cells, this`outgoing, this`incoming
      ensures cells == RewiredCells(cells0, pos, impl, RefSet(impl))
      ensures outgoing == RewiredOut(out0, pos, RefSet(impl))
      ensures incoming == RewiredIn(inc0, pos, RefSet(impl))
    {
      var refs := GetReferencedCells(impl);
      var i := 0;
      ghost var done: set<Position> := {};
      while i < |refs|
        invariant 0 <= i <= |refs|
        invariant forall x :: x in done <==> x in refs[..i]
        invariant cells == RewiredCells(cells0, pos, impl, done)
        invariant outgoing == RewiredOut(out0, pos, done)
        invariant incoming == RewiredIn(inc0, pos, done)
      {
        assert refs[..i + 1] == refs[..i] + [refs[i]];
        assert refs[i] in RefSet(impl);
        HookOne(pos, refs[i], impl, cells0, out0, inc0, done);
        done := done + {refs[i]};
        i := i + 1;
      }
      assert refs[..i] == refs;
      assert done == RefSet(impl);
    }

    /** One round of the loop of lines 153-160 of Cell::Set: create an Empty
        cell at q when there is none, then record the edge from pos to q in
        both directions. */
    method HookOne(pos: Position, q: Position, impl: Content,
                   ghost cells0: Storage, ghost out0: Edges, ghost inc0: Edges, ghost done: set<Position>)
      requires KeysMatch(cells0, out0, inc0) && NullsBare(cells0, out0, inc0) && pos in cells0 && q != pos
      requires cells == RewiredCells(cells0, pos, impl, done)
      requires outgoing == RewiredOut(out0, pos, done)
      requires incoming == RewiredIn(inc0, pos, done)
      modifies this`cells, this`outgoing, this`incoming
      ensures cells == RewiredCells(cells0, pos, impl, done + {q})
      ensures outgoing == RewiredOut(out0, pos, done + {q})
      ensures incoming == RewiredIn(inc0, pos, done + {q})
    {
      CommitStepCells(cells0, pos, impl, done, q);
      CommitStepOut(cells0, out0, inc0, pos, done, q);
      CommitStepIn(cells0, out0, inc0, pos, done, q);
      if !Live(cells, q) {
        cells := cells[q := Some(EmptyImpl)];
        outgoing := outgoing[q := {}];
        incoming := incoming[q := {}];
      }
      outgoing := outgoing[pos := outgoing[pos] + {q}];
      incoming := incoming[q := incoming[q] + {pos}];
    }

    /** Lines 145-162 of Cell::Set, once the checks have passed: rewire pos
        to the new content, then invalidate caches from pos with
        needSwap = true. */
    method Commit(pos: Position, impl: Content)
      requires Valid() && Live(cells, pos) && Cleared(impl)
      requires forall q :: q in RefSet(impl) ==> IsValid(q) && !Reaches(outgoing, q, pos)
      modifies this`cells, this`outgoing, this`incoming
      ensures Valid()
      ensures outgoing == RewiredOut(old(outgoing), pos, RefSet(impl))
      ensures incoming == RewiredIn(old(incoming), pos, RefSet(impl))
      ensures OnlyCachesReset(RewiredCells(old(cells), pos, impl, RefSet(impl)), cells)
      ensures cells[pos] == Some(impl)
      ensures OutsideConeUnchanged(RewiredCells(old(cells), pos, impl, RefSet(impl)), cells, outgoing, pos)
      ensures old(CachesCoherent()) ==> CachesCoherent() && ConeCleared(cells, outgoing, pos)
    {
      ghost var cells0, out0 := cells, outgoing;
      ghost var coherent := CachesCoherent();
      ReachesSelf(outgoing, pos);
      Rewire(pos, impl);
      if coherent {
        RewireCoherence(cells0, out0, pos, impl);
        assert CoherentExcept(cells, outgoing, {} + {pos});
      }
      ghost var rewired := cells;
      LinkedWalkReady(cells, outgoing, incoming);
      InvalidateCacheRecursive(pos, true, {});
      ResetKeepsLinked(rewired, cells, outgoing, incoming);
      ResetKeepsCleared(rewired, cells, pos);
    }

    /** Cell::Set at pos: classify the text, raise (changing nothing) on a
        parse error, an invalid reference or a cycle; otherwise commit the
        new content and edges and invalidate the caches that depend on pos. */
    method Set(pos: Position, text: string) returns (r: Outcome)
      requires Valid() && Live(cells, pos)
      modifies this`cells, this`outgoing, this`incoming
      ensures Valid()
      ensures r == old(SetVerdict(outgoing, parse, pos, text))
      ensures r.Fail? ==> cells == old(cells) && outgoing == old(outgoing) && incoming == old(incoming)
      ensures r.Pass? ==>
                && Classify(text, parse).Success?
                && var c := Classify(text, parse).value;
                && outgoing == RewiredOut(old(outgoing), pos, RefSet(c))
                && incoming == RewiredIn(old(incoming), pos, RefSet(c))
                && OnlyCachesReset(RewiredCells(old(cells), pos, c, RefSet(c)), cells)
                && OutsideConeUnchanged(RewiredCells(old(cells), pos, c, RefSet(c)), cells, outgoing, pos)
                && cells[pos] == Some(c)
      ensures r.Pass? && old(CachesCoherent()) ==>
                && CachesCoherent()
                && ConeCleared(cells, outgoing, pos)
    {
      var classified := Classify(text, parse);
      if classified.Failure? {
        return Fail(classified.error);
      }
      var impl := classified.value;
      LinkedFacts(cells, outgoing, incoming);
      var search := SearchCircularDependency(pos, GetReferencedCells(impl));
      if search.Failure? {
        return Fail(search.error);
      }
      SearchVerdict(cells, outgoing, incoming, parse, pos, text, search.value);
      if search.value {
        return Fail(CircularDependency);
      }
      Commit(pos, impl);
      return Pass;
    }

    /** Cell::Clear as written: the content becomes Empty; no edge and no
        other cell's cache is touched. */
    method Clear(pos: Position)
      requires Live(cells, pos)
      modifies this`cells
      ensures cells == old(cells)[pos := Some(EmptyImpl)]
    {
      cells := cells[pos := Some(EmptyImpl)];
    }

    /** Sheet::SetCell: raises on an invalid position; puts a new Empty cell
        at pos when there is none, then runs Cell::Set there. The new entry
        stays even when Set raises. */
    method SetCell(pos: Position, text: string) returns (r: Outcome)
      requires Valid()
      modifies this`cells, this`outgoing, this`incoming
      ensures Valid()
      ensures !IsValid(pos) ==> r == Fail(InvalidPosition) && cells == old(cells) && outgoing == old(outgoing) && incoming == old(incoming)
      ensures IsValid(pos) ==> r == SetVerdict(WithEntry(old(outgoing), pos), parse, pos, text)
      ensures IsValid(pos) && r.Fail? ==>
                && cells == Emplaced(old(cells), pos)
                && outgoing == WithEntry(old(outgoing), pos)
                && incoming == WithEntry(old(incoming), pos)
      ensures r.Pass? ==>
                && Classify(text, parse).Success?
                && var c := Classify(text, parse).value;
                && outgoing == RewiredOut(WithEntry(old(outgoing), pos), pos, RefSet(c))
                && incoming == RewiredIn(WithEntry(old(incoming), pos), pos, RefSet(c))
                && OnlyCachesReset(RewiredCells(Emplaced(old(cells), pos), pos, c, RefSet(c)), cells)
                && OutsideConeUnchanged(RewiredCells(Emplaced(old(cells), pos), pos, c, RefSet(c)), cells, outgoing, pos)
                && GetCell(pos) == Success(Some(c))
      ensures r.Pass? && old(CachesCoherent()) ==> CachesCoherent() && ConeCleared(cells, outgoing, pos)
    {
      if !IsValid(pos) {
        return Fail(InvalidPosition);
      }
      Emplace(pos);
      r := Set(pos, text);
    }

    /** Lines 19-21 of Sheet::SetCell: a position without a cell gets a new
        Empty one with no edges. */
    method Emplace(pos: Position)
      requires Valid() && IsValid(pos)
      modifies this`cells, this`outgoing, this`incoming
      ensures Valid() && Live(cells, pos)
      ensures cells == Emplaced(old(cells), pos)
      ensures outgoing == WithEntry(old(outgoing), pos) && incoming == WithEntry(old(incoming), pos)
      ensures old(CachesCoherent()) ==> CachesCoherent()
    {
      ghost var cells0, out0, inc0 := cells, outgoing, incoming;
      if !Live(cells, pos) {
        cells := Emplaced(cells, pos);
        outgoing := WithEntry(outgoing, pos);
        incoming := WithEntry(incoming, pos);
      }
      EmplaceKeepsLinked(cells0, out0, inc0, pos);
    }

    /** Sheet::ClearCell as written: raises on an invalid position; does
        nothing when there is no cell; otherwise Cell::Clear, and the pointer
        is reset (the key stays) when nothing references the cell. */
    method ClearCellAsWritten(pos: Position) returns (r: Outcome)
      requires Valid()
      modifies this`cells
      ensures r == if IsValid(pos) then Pass else Fail(InvalidPosition)
      ensures !Live(old(cells), pos) ==> cells == old(cells)
      ensures Live(old(cells), pos) ==>
                cells == old(cells)[pos := if incoming[pos] == {} then None else Some(EmptyImpl)]
    {
      if !IsValid(pos) {
        return Fail(InvalidPosition);
      }
      if Live(cells, pos) {
        Clear(pos);
        if incoming[pos] == {} {
          cells := cells[pos := None];
        }
      }
      return Pass;
    }

    /** Sheet::ClearCell with the cell emptied the way Cell::Set("") does
        it (outgoing edges unhooked, dependents invalidated), then reset when
        nothing references it. Unlike the as-written version it keeps the
        graph consistent. */
    method ClearCell(pos: Position) returns (r: Outcome)
      requires Valid()
      modifies this`cells, this`outgoing, this`incoming
      ensures Valid()
      ensures r == if IsValid(pos) then Pass else Fail(InvalidPosition)
      ensures !Live(old(cells), pos) ==> cells == old(cells) && outgoing == old(outgoing) && incoming == old(incoming)
      ensures Live(old(cells), pos) ==>
                && pos in cells
                && cells[pos] == (if old(IsReferenced(pos)) then Some(EmptyImpl) else None)
                && OnlyCachesReset(old(cells)[pos := cells[pos]], cells)
                && OutsideConeUnchanged(old(cells), cells, outgoing, pos)
                && outgoing == old(outgoing)[pos := {}]
                && incoming == Unhooked(old(incoming), pos)
      ensures Live(old(cells), pos) && old(CachesCoherent()) ==>
                CachesCoherent() && ConeCleared(cells, outgoing, pos)
    {
      if !IsValid(pos) {
        return Fail(InvalidPosition);
      }
      if Live(cells, pos) {
        ghost var cells0 := cells;
        ClearContent(pos);
        ghost var emptied := cells;
        ResetIfUnreferenced(pos);
        OverwriteBoth(cells0, Some(EmptyImpl), emptied, pos, cells[pos]);
        ChangeAtRoot(emptied, outgoing, pos, cells[pos]);
        ConeFrameStep(cells0[pos := Some(EmptyImpl)], emptied, cells, outgoing, pos, pos);
        RootOverwritten(cells0, Some(EmptyImpl), cells, outgoing, pos);
      }
      return Pass;
    }

    /** Cell::Clear as intended: the cell becomes Empty the way Cell::Set("")
        would make it, so its outgoing edges are unhooked and the caches
        that depended on it are invalidated. */
    method ClearContent(pos: Position)
      requires Valid() && Live(cells, pos)
      modifies this`cells, this`outgoing, this`incoming
      ensures Valid()
      ensures pos in cells && cells[pos] == Some(EmptyImpl)
      ensures OnlyCachesReset(old(cells)[pos := Some(EmptyImpl)], cells)
      ensures OutsideConeUnchanged(old(cells)[pos := Some(EmptyImpl)], cells, outgoing, pos)
      ensures outgoing == old(outgoing)[pos := {}]
      ensures incoming == Unhooked(old(incoming), pos)
      ensures IsReferenced(pos) == old(IsReferenced(pos))
      ensures old(CachesCoherent()) ==> CachesCoherent() && ConeCleared(cells, outgoing, pos)
    {
      CommitEmpty(cells, outgoing, incoming, pos);
      Commit(pos, EmptyImpl);
    }

    /** Lines 32-34 of Sheet::ClearCell: the emptied cell's pointer is
        reset (the key stays) when no formula references it. */
    method ResetIfUnreferenced(pos: Position)
      requires Valid() && Live(cells, pos) && cells[pos].value == EmptyImpl
      modifies this`cells
      ensures Valid()
      ensures pos in cells && cells[pos] == if old(IsReferenced(pos)) then old(cells)[pos] else None
      ensures cells == old(cells)[pos := cells[pos]]
      ensures outgoing == old(outgoing) && incoming == old(incoming)
      ensures old(CachesCoherent()) ==> CachesCoherent()
      ensures forall d :: HasValidCache(cells, d) ==> HasValidCache(old(cells), d)
    {
      ghost var before := cells;
      ReferencedIff(cells, outgoing, incoming, pos);
      if !IsReferenced(pos) {
        cells := cells[pos := None];
        ResetUnreferenced(before, cells, outgoing, incoming, pos);
      }
    }

    /** Cell::GetValue with the cache used as intended (see Read):
        `evaluated` is what the formula evaluates to in the current sheet.
        Afterwards the cell's cache is valid. */
    method GetValue(pos: Position, evaluated: Value) returns (v: Value)
      requires Valid() && Live(cells, pos)
      modifies this`cells
      ensures v == Read(old(cells)[pos].value, evaluated).value
      ensures cells == old(cells)[pos := Some(Read(old(cells)[pos].value, evaluated).content)]
      ensures Valid() && IsCacheValid(cells[pos].value)
      ensures old(CachesCoherent()) && (forall t :: t in outgoing[pos] ==> !Stale(old(cells), t)) ==> CachesCoherent()
    {
      var reading := Read(cells[pos].value, evaluated);
      FillKeepsLinked(cells, outgoing, incoming, pos, reading.content);
      if CachesCoherent() && forall t :: t in outgoing[pos] ==> !Stale(cells, t) {
        FillKeepsCoherent(cells, outgoing, pos, reading.content);
      }
      cells := cells[pos := Some(reading.content)];
      v := reading.value;
    }

    /** Sheet::GetPrintableSize: one pass over the entries, growing the box
        to (row + 1, col + 1) of every non-null one. */
    method GetPrintableSize() returns (size: Size)
      requires forall p :: p in cells ==> IsValid(p)
      ensures IsPrintableSize(cells, size)
    {
      var rows, cols := 0, 0;
      var todo := cells.Keys;
      while todo != {}
        invariant todo <= cells.Keys
        invariant 0 <= rows && 0 <= cols
        invariant forall p :: Live(cells, p) && p !in todo ==> p.row < rows && p.col < cols
        invariant rows == 0 || exists p :: Live(cells, p) && p !in todo && p.row == rows - 1
        invariant cols == 0 || exists p :: Live(cells, p) && p !in todo && p.col == cols - 1
        decreases todo
      {
        var p :| p in todo;
        if cells[p].Some? {
          if p.row + 1 > rows {
            rows := p.row + 1;
          }
          if p.col + 1 > cols {
            cols := p.col + 1;
          }
        }
        todo := todo - {p};
      }
      size := Size(rows, cols);
    }

    /** Sheet::PrintTexts: the printable box row by row, fields separated
        by tabs, every row ended by a newline. */
    method PrintTexts() returns (out: string)
      requires forall p :: p in cells ==> IsValid(p)
      ensures exists s :: IsPrintableSize(cells, s) && out == TextGrid(cells, s.rows, s.cols)
      ensures forall s :: IsPrintableSize(cells, s) ==> out == TextGrid(cells, s.rows, s.cols)
    {
      var size := GetPrintableSize();
      out := "";
      var row := 0;
      while row < size.rows
        invariant 0 <= row <= size.rows
        invariant out == TextGrid(cells, row, size.cols)
      {
        var line := "";
        var col := 0;
        while col < size.cols
          invariant 0 <= col <= size.cols
          invariant line == Line(cells, row, col)
        {
          if col > 0 {
            line := line + "\t";
          }
          var p := Position(row, col);
          if p in cells && cells[p] != None && GetText(cells[p].value) != "" {
            line := line + GetText(cells[p].value);
          }
          col := col + 1;
        }
        out := out + line + "\n";
        row := row + 1;
      }
      forall s | IsPrintableSize(cells, s)
        ensures out == TextGrid(cells, s.rows, s.cols)
      {
        PrintableSizeUnique(cells, size, s);
      }
    }
  }
}
