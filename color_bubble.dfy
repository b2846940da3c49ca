/**
 * The colour-bomb booster of the bubble shooter: when it strikes the field it attaches,
 * then flood-fills and pops the same-coloured region behind every non-blank neighbour of
 * the cell it attached to, and finally resets (drops floaters, shifts the field, consumes
 * itself). Collaborators whose bodies are not part of this model (the field's own cell
 * choice, popping, floater removal and shifting) appear as entries of a recorded trace.
 */
module Booster {
  import opened BubbleGraph
  import opened FloodFill
  import opened HitFills

  /** Game events the booster reports to the engine. */
  datatype GameEvent = BoosterAdded | BoosterShot | BoosterConsumed | BoosterRemoved

  /** One observable effect, in the order the booster causes it. */
  datatype Effect =
    | GetBubble(struck: int, attached: int)  // the field attaches the booster next to `struck`, at cell `attached`
    | PopBubble(bubble: int)                 // a bubble is told to pop
    | PopFloater                             // the field drops bubbles cut off from the top
    | ShiftBubble                            // the field shifts its rows
    | Event(event: GameEvent)                // a game event reaches the engine

  /** The pop effects for a delete list, in list order. */
  function Pops(s: seq<int>): seq<Effect>
  {
    if s == [] then [] else Pops(s[..|s| - 1]) + [PopBubble(s[|s| - 1])]
  }

  lemma {:induction false} PopsAppend(a: seq<int>, b: seq<int>)
    ensures Pops(a + b) == Pops(a) + Pops(b)
    decreases |b|
  {
    if b != [] {
      var b' := b[..|b| - 1];
      assert (a + b)[..|a + b| - 1] == a + b';
      PopsAppend(a, b');
    } else {
      assert a + b == a;
    }
  }

  /** Popping one more delete list after earlier ones extends the trace by its pops. */
  lemma PopsExtend(prefix: seq<Effect>, groups: seq<seq<int>>, deleteList: seq<int>)
    ensures prefix + Pops(Flatten(groups + [deleteList])) == (prefix + Pops(Flatten(groups))) + Pops(deleteList)
  {
    assert (groups + [deleteList])[..|groups|] == groups;
    PopsAppend(Flatten(groups), deleteList);
  }

  /**
   * The gate of a hit: the struck bubble is not blank, the booster is at or below it
   * (`boosterY >= struckY`, y growing downwards) and the booster has not been consumed yet.
   */
  predicate HitGate(struckColor: Color, boosterY: int, struckY: int, consumed: bool)
  {
    struckColor != Blank && boosterY >= struckY && !consumed
  }

  /**
   * The bubble field: one cell per bubble, with its colour, its neighbour list, its
   * depth mark and its vertical coordinate.
   */
  class BubbleSystem {
    const color: array<Color>
    const edges: array<seq<int>>
    const depth: array<int>
    const y: array<int>
    /** The colours and the neighbour lists, which no operation changes, as values. */
    ghost const Colors: seq<Color>
    ghost const Edges: seq<seq<int>>

    ghost predicate Valid()
      reads this, edges, color
    {
      && color.Length == edges.Length == depth.Length == y.Length
      && depth != y
      && color[..] == Colors && edges[..] == Edges
      && EdgesInArena(Edges)
      && (forall v :: 0 <= v < |Edges| ==> InArena(Edges[v], |Edges|))
    }

    constructor (color: array<Color>, edges: array<seq<int>>, depth: array<int>, y: array<int>)
      requires color.Length == edges.Length == depth.Length == y.Length && depth != y
      requires EdgesInArena(edges[..])
      requires forall v :: 0 <= v < edges.Length ==> InArena(edges[v], edges.Length)
      ensures Valid()
      ensures this.color == color && this.edges == edges && this.depth == depth && this.y == y
    {
      this.color, this.edges, this.depth, this.y := color, edges, depth, y;
      Colors, Edges := color[..], edges[..];
    }
  }

  class ColorBubble {
    const system: BubbleSystem
    /** The booster's vertical coordinate (grows downwards). */
    var y: int
    /** Set once the booster has been spent on a hit. */
    var consume: bool
    /** Whether the booster is registered with the engine. */
    var inEngine: bool
    /** Everything the booster has caused so far. */
    var trace: seq<Effect>

    ghost predicate Valid()
      reads this, system, system.edges, system.color
    {
      system.Valid()
    }

    constructor (system: BubbleSystem)
      ensures this.system == system
      ensures !consume && !inEngine && trace == []
    {
      this.system := system;
      y, consume, inEngine, trace := 0, false, false, [];
    }

    /** Place the booster at its start coordinate and register it: consumption is cleared. */
    method Init(startY: int)
      modifies this
      ensures y == startY && !consume && inEngine
      ensures trace == old(trace) + [Event(BoosterAdded)]
    {
      y := startY;
      consume := false;
      AddToGameEngine();
    }

    method AddToGameEngine()
      modifies this`inEngine, this`trace
      ensures inEngine
      ensures trace == old(trace) + [Event(BoosterAdded)]
    {
      inEngine := true;
      trace := trace + [Event(BoosterAdded)];
    }

    /**
     * Unregister the booster; the event tells the engine whether it was spent on a hit
     * (`BoosterConsumed`) or removed unused (`BoosterRemoved`).
     */
    method RemoveFromGameEngine()
      modifies this`inEngine, this`trace
      ensures !inEngine
      ensures consume ==> trace == old(trace) + [Event(BoosterConsumed)]
      ensures !consume ==> trace == old(trace) + [Event(BoosterRemoved)]
    {
      inEngine := false;
      if consume {
        trace := trace + [Event(BoosterConsumed)];
      } else {
        trace := trace + [Event(BoosterRemoved)];
      }
    }

    method OnBubbleShoot()
      modifies this`trace
      ensures trace == old(trace) + [Event(BoosterShot)]
    {
      trace := trace + [Event(BoosterShot)];
    }

    /**
     * End of the booster's round: floaters are dropped before the field shifts, then the
     * booster is marked consumed and removed, which reports it as consumed.
     */
    method OnBubbleReset()
      modifies this`consume, this`inEngine, this`trace
      ensures consume && !inEngine
      ensures trace == old(trace) + [PopFloater, ShiftBubble, Event(BoosterConsumed)]
    {
      trace := trace + [PopFloater, ShiftBubble];
      consume := true;
      RemoveFromGameEngine();
    }

    /**
     * The booster strikes the bubble `struck`. Nothing happens unless the struck bubble is not
     * blank, the booster is at or below it and the booster is not yet spent. Otherwise the field
     * attaches the booster at the cell `attached`, a flood fill is run from every non-blank
     * neighbour of that cell, and the booster resets. `groups` are the delete lists of the fills
     * and `marks` the marks before the first fill and after each one.
     */
    method OnBubbleHit(struck: int, attached: int) returns (ghost groups: seq<seq<int>>, ghost marks: seq<seq<int>>)
      requires Valid() && 0 <= struck < system.depth.Length && 0 <= attached < system.depth.Length
      modifies this`trace, this`consume, this`inEngine, system.depth
      ensures !HitGate(system.Colors[struck], y, system.y[struck], old(consume)) ==>
        && groups == [] && marks == [system.depth[..]] && trace == old(trace)
        && consume == old(consume) && inEngine == old(inEngine)
        && system.depth[..] == old(system.depth[..])
      ensures HitGate(system.Colors[struck], y, system.y[struck], old(consume)) ==>
        var seeds := NonBlank(system.Colors, system.Edges[attached]);
        && |groups| == |seeds| && FillChain(system.Edges, system.Colors, seeds, marks, groups)
        && marks[0] == old(system.depth[..]) && marks[|groups|] == system.depth[..]
        && HitAccount(system.Edges, system.Colors, old(system.depth[..]), system.depth[..], seeds, groups)
        && trace == old(trace) + [GetBubble(struck, attached)] + Pops(Flatten(groups))
                    + [PopFloater, ShiftBubble, Event(BoosterConsumed)]
        && consume && !inEngine
    {
      groups, marks := [], [system.depth[..]];
      if HitGate(system.color[struck], y, system.y[struck], consume) {
        trace := trace + [GetBubble(struck, attached)];
        groups, marks := FillNeighbours(system.edges[attached]);
        OnBubbleReset();
      }
    }

    /**
     * The loop of a hit over the attached cell's neighbours, in edge order: a flood fill of
     * its own colour from each one that is not blank, with the marks of earlier fills left in
     * place.
     */
    method FillNeighbours(neighbours: seq<int>) returns (ghost groups: seq<seq<int>>, ghost marks: seq<seq<int>>)
      requires Valid() && InArena(neighbours, system.depth.Length)
      modifies this`trace, system.depth
      ensures var seeds := NonBlank(system.Colors, neighbours);
        && |groups| == |seeds| && FillChain(system.Edges, system.Colors, seeds, marks, groups)
        && marks[0] == old(system.depth[..]) && marks[|groups|] == system.depth[..]
      ensures HitAccount(system.Edges, system.Colors, old(system.depth[..]), system.depth[..],
                         NonBlank(system.Colors, neighbours), groups)
      ensures trace == old(trace) + Pops(Flatten(groups))
    {
      ghost var depth0, trace0 := system.depth[..], trace;
      groups, marks := [], [depth0];
      for i := 0 to |neighbours|
        invariant HitLoopValid(neighbours, i, depth0, trace0, groups, marks)
        modifies this`trace, system.depth
      {
        groups, marks := VisitNeighbour(neighbours, i, depth0, trace0, groups, marks);
      }
      assert neighbours[..|neighbours|] == neighbours;
      ChainAccount(system.Edges, system.Colors, NonBlank(system.Colors, neighbours), marks, groups);
    }

    /** The state of a hit's loop after the first `i` neighbours (see HitLoop). */
    ghost predicate HitLoopValid(neighbours: seq<int>, i: int, depth0: seq<int>, trace0: seq<Effect>,
                               groups: seq<seq<int>>, marks: seq<seq<int>>)
      reads this, system, system.edges, system.color, system.depth
    {
      && Valid()
      && HitLoop(system.Edges, system.Colors, system.depth[..], trace, neighbours, i, depth0, trace0, groups, marks)
    }

    /**
     * One turn of a hit's loop: a fill of its own colour from neighbour `i` when that one is
     * not blank; otherwise nothing changes.
     */
    method VisitNeighbour(neighbours: seq<int>, i: int, ghost depth0: seq<int>, ghost trace0: seq<Effect>,
                          ghost groups: seq<seq<int>>, ghost marks: seq<seq<int>>)
      returns (ghost groups': seq<seq<int>>, ghost marks': seq<seq<int>>)
      requires HitLoopValid(neighbours, i, depth0, trace0, groups, marks) && i < |neighbours|
      modifies this`trace, system.depth
      ensures HitLoopValid(neighbours, i + 1, depth0, trace0, groups', marks')
      ensures system.Colors[neighbours[i]] == Blank ==>
        && groups' == groups && marks' == marks
        && system.depth[..] == old(system.depth[..]) && trace == old(trace)
      ensures system.Colors[neighbours[i]] != Blank ==>
        OneFill(system.Edges, system.Colors, old(system.depth[..]), system.depth[..], old(trace), trace,
                   neighbours[i], groups, marks, groups', marks')
    {
      if system.color[neighbours[i]] != Blank {
        groups', marks' := FillFrom(neighbours, i, depth0, trace0, groups, marks);
      } else {
        HitLoopSkip(system.Edges, system.Colors, system.depth[..], trace, neighbours, i, depth0, trace0, groups, marks);
        groups', marks' := groups, marks;
      }
    }

    /**
     * The non-blank case of a turn: a flood fill of its own colour from neighbour `i`, which
     * adds one delete list and one set of marks to the chain.
     */
    method FillFrom(neighbours: seq<int>, i: int, ghost depth0: seq<int>, ghost trace0: seq<Effect>,
                    ghost groups: seq<seq<int>>, ghost marks: seq<seq<int>>)
      returns (ghost groups': seq<seq<int>>, ghost marks': seq<seq<int>>)
      requires HitLoopValid(neighbours, i, depth0, trace0, groups, marks) && i < |neighbours|
      requires system.Colors[neighbours[i]] != Blank
      modifies this`trace, system.depth
      ensures HitLoopValid(neighbours, i + 1, depth0, trace0, groups', marks')
      ensures OneFill(system.Edges, system.Colors, old(system.depth[..]), system.depth[..], old(trace), trace,
                         neighbours[i], groups, marks, groups', marks')
    {
      ghost var edges, color, pre, before := system.Edges, system.Colors, system.depth[..], trace;
      var b := neighbours[i];
      assert HitLoop(edges, color, pre, before, neighbours, i, depth0, trace0, groups, marks);
      var deleteList := Bfs(b, system.color[b]);
      ghost var post := system.depth[..];
      assert FillRun(edges, color, pre, post, b, color[b], deleteList);
      HitLoopFill(edges, color, pre, post, before, trace, neighbours, i, depth0, trace0, groups, marks, deleteList);
      groups', marks' := groups + [deleteList], marks + [system.depth[..]];
      assert groups'[..|groups|] == groups && groups'[|groups|] == deleteList;
    }

    /**
     * Breadth-first flood fill from `root` over the bubbles of colour `c` whose mark is still
     * unvisited. The root is marked 0, every bubble is marked with its parent's mark + 1 as it
     * is enqueued, and the visited bubbles are popped, in dequeue order, only after the queue
     * has run dry. The delete list is returned so that callers can state what was popped.
     */
    method Bfs(root: int, c: Color) returns (deleteList: seq<int>)
      requires Valid() && 0 <= root < system.depth.Length
      modifies this`trace, system.depth
      // the delete list is the breadth-first order (BfsOrder), with its colour, its reach and
      // the marks left (FillOutcome) and the depth labelling (BfsLabels)
      ensures FillRun(system.Edges, system.Colors, old(system.depth[..]), system.depth[..], root, c, deleteList)
      // deferred popping: each visited bubble once, in dequeue order
      ensures trace == old(trace) + Pops(deleteList)
    {
      ghost var edges, color, depth0 := system.Edges, system.Colors, system.depth[..];
      ghost var parent;
      deleteList, parent := Explore(root, c);
      ghost var depth := system.depth[..];
      for i := 0 to |deleteList|
        invariant trace == old(trace) + Pops(deleteList[..i])
        modifies this`trace
      {
        trace := trace + [PopBubble(deleteList[i])];
        assert deleteList[..i + 1][..i] == deleteList[..i];
      }
      assert deleteList[..|deleteList|] == deleteList;
      assert system.depth[..] == depth;
      DeleteListCharacterised(edges, color, depth0, depth, c, root, deleteList, parent);
    }

    /**
     * The queue loop of the flood fill: the root is marked 0 and enqueued, and bubbles are
     * dequeued onto the delete list until the queue runs dry. On exit the delete list is the
     * whole discovery order, with its parent pointers.
     */
    method Explore(root: int, c: Color) returns (deleteList: seq<int>, ghost parent: seq<int>)
      requires Valid() && 0 <= root < system.depth.Length
      modifies system.depth
      ensures BfsInvariant(system.Edges, system.Colors, old(system.depth[..]), system.depth[..],
                           c, root, |deleteList|, deleteList, parent)
      ensures deleteList == BfsOrder(system.Edges, system.Colors, old(system.depth[..]), root, c)
    {
      ghost var n := system.depth.Length;
      ghost var edges, color, depth0 := system.Edges, system.Colors, system.depth[..];
      var queue: seq<int> := [root];
      system.depth[root] := 0;
      deleteList := [];
      ghost var order := [root];
      parent := [0];
      while queue != []
        invariant system.Edges == edges && system.Colors == color
        invariant order == deleteList + queue && |order| <= n
        invariant BfsInvariant(edges, color, depth0, system.depth[..], c, root, |deleteList|, order, parent)
        invariant BfsRun(edges, Admit(color, depth0, c), order, |deleteList|) == BfsOrder(edges, color, depth0, root, c)
        modifies system.depth
        decreases 2 * n - |order| - |deleteList|
      {
        queue, deleteList, order, parent := VisitHead(queue, deleteList, order, parent, edges, color, depth0, c, root);
      }
      assert order == deleteList;
    }

    /**
     * One turn of the queue loop: the head of the queue moves to the delete list and its
     * admissible neighbours are marked and enqueued.
     */
    method VisitHead(queue: seq<int>, deleteList: seq<int>, ghost order: seq<int>, ghost parent: seq<int>,
                     ghost edges: seq<seq<int>>, ghost color: seq<Color>, ghost depth0: seq<int>, c: Color, root: int)
      returns (queue': seq<int>, deleteList': seq<int>, ghost order': seq<int>, ghost parent': seq<int>)
      requires Valid() && system.Edges == edges && system.Colors == color
      requires queue != [] && order == deleteList + queue
      requires BfsInvariant(edges, color, depth0, system.depth[..], c, root, |deleteList|, order, parent)
      modifies system.depth
      ensures order' == deleteList' + queue'
      ensures deleteList' == deleteList + [queue[0]] && |order| <= |order'| <= system.depth.Length
      ensures BfsInvariant(edges, color, depth0, system.depth[..], c, root, |deleteList'|, order', parent')
      ensures BfsRun(edges, Admit(color, depth0, c), order', |deleteList'|) ==
              BfsRun(edges, Admit(color, depth0, c), order, |deleteList|)
    {
      var current := queue[0];
      ghost var done := |deleteList|;
      assert order[done] == current;
      queue' := queue[1..];
      deleteList' := deleteList + [current];
      ghost var before := system.depth[..];
      ghost var added;
      queue', added := OfferNeighbours(current, c, queue');
      AdmitRemaining(edges, color, depth0, before, c, root, done, order, parent);
      DequeueStep(edges, color, depth0, before, system.depth[..], c, root, done, order, parent, added);
      parent' := parent + seq(|added|, _ => done);
      order' := order + added;
      QueueShift(order, deleteList, queue, added);
      OrderBound(edges, color, depth0, system.depth[..], c, root, |deleteList'|, order', parent');
    }

    /**
     * The inner loop of the flood fill: every neighbour of `current`, in edge order, that is
     * still unvisited and has colour `c` is marked with `current`'s mark + 1 and offered to
     * the queue.
     */
    method OfferNeighbours(current: int, c: Color, queue: seq<int>) returns (queue': seq<int>, ghost added: seq<int>)
      requires Valid() && 0 <= current < system.depth.Length
      requires system.depth[current] >= 0
      modifies system.depth
      ensures queue' == queue + added
      ensures added == NewNeighbours(system.Edges[current], Admit(system.Colors, old(system.depth[..]), c))
      ensures Offered(system.Edges, system.Colors, c, old(system.depth[..]), system.depth[..], current, added)
    {
      queue' := queue;
      added := [];
      var neighbours := system.edges[current];
      ghost var before, d := system.depth[..], system.depth[current];
      ghost var admit := Admit(system.Colors, before, c);
      assert system.Edges[current] == neighbours;
      forall k | 0 <= k < |neighbours| ensures 0 <= neighbours[k] < system.depth.Length {
        assert neighbours[k] in system.Edges[current];
      }
      for i := 0 to |neighbours|
        invariant queue' == queue + added
        invariant added == NewNeighbours(neighbours[..i], admit)
        invariant forall v :: 0 <= v < system.depth.Length ==>
          system.depth[v] == if v in added then d + 1 else before[v]
        modifies system.depth
      {
        var b := neighbours[i];
        NewNeighboursStep(neighbours, admit, i);
        NewNeighboursFacts(neighbours[..i], admit);
        if system.depth[b] == Unvisited && system.color[b] == c {
          system.depth[b] := system.depth[current] + 1;
          queue' := queue' + [b];
          added := added + [b];
        }
      }
      assert neighbours[..|neighbours|] == neighbours;
      OfferedNew(system.Edges, system.Colors, c, before, system.depth[..], current, added);
    }
  }

  /**
   * The state of a hit's loop after the first `i` neighbours: one fill per non-blank one
   * among them, chained on the marks in `marks`, and their pops recorded in `trace` after `trace0`.
   */
  ghost predicate HitLoop(edges: seq<seq<int>>, color: seq<Color>, depth: seq<int>, trace: seq<Effect>,
                         neighbours: seq<int>, i: int, depth0: seq<int>, trace0: seq<Effect>,
                         groups: seq<seq<int>>, marks: seq<seq<int>>)
  {
    && InArena(neighbours, |color|) && 0 <= i <= |neighbours|
    && |groups| == |NonBlank(color, neighbours[..i])|
    && NonBlank(color, neighbours[..i]) <= NonBlank(color, neighbours)
    && FillChain(edges, color, NonBlank(color, neighbours), marks, groups)
    && marks[0] == depth0 && marks[|groups|] == depth
    && trace == trace0 + Pops(Flatten(groups))
  }

  /**
   * One fill from the non-blank neighbour `b`, taking the marks from `pre` to `post` and the
   * trace from `before` to `after`: it adds one delete list, the breadth-first run from `b`
   * over `b`'s colour, and one set of marks, and the trace grows by its pops.
   */
  ghost predicate OneFill(edges: seq<seq<int>>, color: seq<Color>, pre: seq<int>, post: seq<int>,
                             before: seq<Effect>, after: seq<Effect>, b: int,
                             groups: seq<seq<int>>, marks: seq<seq<int>>, groups': seq<seq<int>>, marks': seq<seq<int>>)
  {
    && 0 <= b < |color|
    && |groups'| == |groups| + 1 && groups'[..|groups|] == groups && marks' == marks + [post]
    && FillRun(edges, color, pre, post, b, color[b], groups'[|groups|])
    && after == before + Pops(groups'[|groups|])
  }

  lemma HitLoopFill(edges: seq<seq<int>>, color: seq<Color>, pre: seq<int>, post: seq<int>,
                   before: seq<Effect>, after: seq<Effect>, neighbours: seq<int>, i: int,
                   depth0: seq<int>, trace0: seq<Effect>, groups: seq<seq<int>>, marks: seq<seq<int>>,
                   deleteList: seq<int>)
    requires HitLoop(edges, color, pre, before, neighbours, i, depth0, trace0, groups, marks) && i < |neighbours|
    requires color[neighbours[i]] != Blank
    requires FillRun(edges, color, pre, post, neighbours[i], color[neighbours[i]], deleteList)
    requires after == before + Pops(deleteList)
    ensures HitLoop(edges, color, post, after, neighbours, i + 1, depth0, trace0, groups + [deleteList], marks + [post])
  {
    var seeds := NonBlank(color, neighbours);
    NonBlankStep(color, neighbours, i);
    NonBlankPrefix(color, neighbours, i + 1);
    assert seeds[|groups|] == neighbours[i];
    ChainStep(edges, color, seeds, marks, groups, post, deleteList);
    PopsExtend(trace0, groups, deleteList);
  }

  lemma HitLoopSkip(edges: seq<seq<int>>, color: seq<Color>, depth: seq<int>, trace: seq<Effect>,
                   neighbours: seq<int>, i: int, depth0: seq<int>, trace0: seq<Effect>,
                   groups: seq<seq<int>>, marks: seq<seq<int>>)
    requires HitLoop(edges, color, depth, trace, neighbours, i, depth0, trace0, groups, marks) && i < |neighbours|
    requires color[neighbours[i]] == Blank
    ensures HitLoop(edges, color, depth, trace, neighbours, i + 1, depth0, trace0, groups, marks)
  {
    NonBlankStep(color, neighbours, i);
    NonBlankPrefix(color, neighbours, i + 1);
  }
}
