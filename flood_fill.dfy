/**
 * The proof side of the booster's breadth-first flood fill, on plain sequences: the state of
 * its queue loop, what one turn of the loop does, and what the finished fill amounts to.
 */
module FloodFill {
  import opened BubbleGraph

  /**
   * The state of the flood fill after `done` dequeues: `order` lists, in discovery order, the
   * root and every bubble enqueued so far (its first `done` entries are the delete list, the
   * rest is the queue), and `parent[k]` is the position of the bubble that enqueued `order[k]`.
   */
  ghost predicate BfsInvariant(edges: seq<seq<int>>, color: seq<Color>, depth0: seq<int>, depth: seq<int>,
                               c: Color, root: int, done: int, order: seq<int>, parent: seq<int>)
  {
    && |depth| == |edges|
    && Discovered(edges, color, depth0, c, root, done, order, parent)
    && Labelled(edges, depth, done, order, parent)
    && FirstParents(edges, order, parent)
    && Settled(edges, color, depth0, depth, c, done, order)
  }

  /** Everything but the root was unvisited with colour `c` when the fill began; nothing twice. */
  ghost predicate Discovered(edges: seq<seq<int>>, color: seq<Color>, depth0: seq<int>,
                             c: Color, root: int, done: int, order: seq<int>, parent: seq<int>)
  {
    && |color| == |depth0| == |edges|
    && EdgesInArena(edges)
    && 0 <= done <= |order| && |parent| == |order|
    && |order| >= 1 && order[0] == root
    && InArena(order, |edges|) && NoDup(order)
    && (forall k :: 1 <= k < |order| ==> order[k] in Admit(color, depth0, c))
  }

  /**
   * The marks: the root 0, every other discovered bubble its parent's mark + 1 (its parent
   * dequeued before it), marks never decreasing along the discovery order and, while the
   * queue is not empty, none more than one past the mark of its head.
   */
  ghost predicate Labelled(edges: seq<seq<int>>, depth: seq<int>, done: int, order: seq<int>, parent: seq<int>)
  {
    && |parent| == |order| >= 1 && InArena(order, |depth|) && InArena(order, |edges|)
    && depth[order[0]] == 0
    && (forall k :: 1 <= k < |order| ==>
          0 <= parent[k] < k && parent[k] < done && order[k] in edges[order[parent[k]]] &&
          depth[order[k]] == depth[order[parent[k]]] + 1)
    && (forall k :: 0 <= k < |order| ==> 0 <= depth[order[k]] <= k)
    && (forall k :: 1 <= k < |order| ==> depth[order[k - 1]] <= depth[order[k]])
    && (0 <= done < |order| ==> forall k :: 0 <= k < |order| ==> depth[order[k]] <= depth[order[done]] + 1)
  }

  /**
   * Every discovered bubble but the root was enqueued by the first dequeued bubble it
   * neighbours: none dequeued before its parent has it as a neighbour.
   */
  ghost predicate FirstParents(edges: seq<seq<int>>, order: seq<int>, parent: seq<int>)
  {
    && |parent| == |order| && InArena(order, |edges|)
    && (forall k, j {:trigger order[k] in edges[order[j]]} ::
          0 <= j < k < |order| && j < parent[k] ==> order[k] !in edges[order[j]])
  }

  /**
   * Nothing undiscovered has had its mark touched, and every admissible neighbour of a
   * dequeued bubble has been discovered.
   */
  ghost predicate Settled(edges: seq<seq<int>>, color: seq<Color>, depth0: seq<int>, depth: seq<int>,
                          c: Color, done: int, order: seq<int>)
  {
    && |color| == |depth0| == |depth|
    && 0 <= done <= |order|
    && (forall v :: 0 <= v < |depth| && v !in order ==> depth[v] == depth0[v])
    && (forall v, w :: v in order[..done] && 0 <= v < |edges| && w in edges[v] && w in Admit(color, depth0, c) ==>
          w in order)
  }

  /**
   * What the inner loop did for the dequeued bubble `current`: `added` lists, without
   * repetition, its neighbours that were unvisited with colour `c` (all of them), each now
   * marked one past `current`; no other mark changed.
   */
  ghost predicate Offered(edges: seq<seq<int>>, color: seq<Color>, c: Color, before: seq<int>, after: seq<int>,
                          current: int, added: seq<int>)
  {
    && |color| == |before| == |after| == |edges|
    && 0 <= current < |edges|
    && NoDup(added) && InArena(added, |edges|)
    && (forall a :: a in added ==>
          a in edges[current] && color[a] == c && before[a] == Unvisited && after[a] == before[current] + 1)
    && (forall w :: w in edges[current] && 0 <= w < |edges| && color[w] == c && before[w] == Unvisited ==> w in added)
    && (forall v :: 0 <= v < |after| && v !in added ==> after[v] == before[v])
  }

  /** The bubbles listed in `s`. */
  ghost function Members(s: seq<int>): set<int>
  {
    set x | x in s
  }

  /**
   * The bubbles of `ws` that lie in `allowed`, in list order, each at its first occurrence:
   * what one turn of the inner loop enqueues when `allowed` is what may still be enqueued.
   */
  ghost function NewNeighbours(ws: seq<int>, allowed: set<int>): seq<int>
  {
    if ws == [] then []
    else
      var init, w := ws[..|ws| - 1], ws[|ws| - 1];
      NewNeighbours(init, allowed) + (if w in allowed && w !in init then [w] else [])
  }

  /** The new neighbours are the allowed ones, without repetition. */
  lemma {:induction false} NewNeighboursFacts(ws: seq<int>, allowed: set<int>)
    ensures NoDup(NewNeighbours(ws, allowed))
    ensures forall w :: w in NewNeighbours(ws, allowed) <==> w in ws && w in allowed
    decreases |ws|
  {
    if ws != [] {
      var init, w := ws[..|ws| - 1], ws[|ws| - 1];
      NewNeighboursFacts(init, allowed);
      assert ws == init + [w];
    }
  }

  /** One more neighbour extends the new neighbours of a prefix by it when it is allowed and new. */
  lemma NewNeighboursStep(ws: seq<int>, allowed: set<int>, i: int)
    requires 0 <= i < |ws|
    ensures NewNeighbours(ws[..i + 1], allowed) ==
      NewNeighbours(ws[..i], allowed) + (if ws[i] in allowed && ws[i] !in ws[..i] then [ws[i]] else [])
  {
    assert ws[..i + 1][..i] == ws[..i];
  }

  /**
   * Breadth-first discovery as a value: `order` lists the bubbles discovered so far, the first
   * `done` of them dequeued. Dequeuing the next one appends its neighbours that are allowed and
   * not yet discovered, in edge order; once nothing is left to dequeue, `order` is the result.
   */
  ghost function BfsRun(edges: seq<seq<int>>, allowed: set<int>, order: seq<int>, done: nat): seq<int>
    requires EdgesInArena(edges) && InArena(order, |edges|)
    requires forall v :: v in allowed ==> 0 <= v < |edges|
    decreases |allowed - Members(order)|, |order| - done
  {
    if done >= |order| then order
    else
      var added := NewNeighbours(edges[order[done]], allowed - Members(order));
      RunShrinks(edges, allowed, order, done);
      assert added == [] ==> order + added == order;
      BfsRun(edges, allowed, order + added, done + 1)
  }

  /** A dequeue that discovers something leaves fewer allowed bubbles undiscovered. */
  lemma RunShrinks(edges: seq<seq<int>>, allowed: set<int>, order: seq<int>, done: nat)
    requires EdgesInArena(edges) && InArena(order, |edges|) && done < |order|
    requires forall v :: v in allowed ==> 0 <= v < |edges|
    ensures var added := NewNeighbours(edges[order[done]], allowed - Members(order));
      && InArena(order + added, |edges|)
      && (added != [] ==> |allowed - Members(order + added)| < |allowed - Members(order)|)
  {
    var rest := allowed - Members(order);
    var added := NewNeighbours(edges[order[done]], rest);
    NewNeighboursFacts(edges[order[done]], rest);
    forall k | 0 <= k < |order + added| ensures 0 <= (order + added)[k] < |edges| {
      if k >= |order| {
        assert (order + added)[k] == added[k - |order|] && added[k - |order|] in added;
      } else {
        assert (order + added)[k] == order[k];
      }
    }
    if added != [] {
      var a := added[0];
      assert allowed - Members(order + added) <= rest - {a};
      SubsetCard(allowed - Members(order + added), rest - {a});
    }
  }

  /** A subset is no larger than the set that holds it. */
  lemma SubsetCard(small: set<int>, large: set<int>)
    requires small <= large
    ensures |small| <= |large|
  {
    assert large == small + (large - small);
    assert small * (large - small) == {};
  }

  /** The delete list of a flood fill from `root` over colour `c` on the marks `depth`. */
  ghost function BfsOrder(edges: seq<seq<int>>, color: seq<Color>, depth: seq<int>, root: int, c: Color): seq<int>
    requires EdgesInArena(edges) && |color| == |depth| == |edges| && 0 <= root < |edges|
  {
    BfsRun(edges, Admit(color, depth, c), [root], 0)
  }

  /**
   * While the fill runs, what it may still enqueue is what it could enqueue at the start less
   * what it has discovered.
   */
  lemma AdmitRemaining(edges: seq<seq<int>>, color: seq<Color>, depth0: seq<int>, depth: seq<int>,
                       c: Color, root: int, done: int, order: seq<int>, parent: seq<int>)
    requires BfsInvariant(edges, color, depth0, depth, c, root, done, order, parent)
    ensures Admit(color, depth, c) == Admit(color, depth0, c) - Members(order)
  {
    forall v ensures v in Admit(color, depth, c) <==> v in Admit(color, depth0, c) - Members(order) {
      if v in order {
        var k :| 0 <= k < |order| && order[k] == v;
        assert depth[order[k]] >= 0;
      }
    }
  }

  /**
   * The inner loop's outcome from its reference: when the bubbles offered are the new
   * neighbours of `current` and exactly those got `current`'s mark + 1, the loop did what
   * `Offered` says.
   */
  lemma OfferedNew(edges: seq<seq<int>>, color: seq<Color>, c: Color, before: seq<int>, after: seq<int>,
                   current: int, added: seq<int>)
    requires |color| == |before| == |after| == |edges| && EdgesInArena(edges)
    requires 0 <= current < |edges| && before[current] >= 0
    requires added == NewNeighbours(edges[current], Admit(color, before, c))
    requires forall v :: 0 <= v < |after| ==> after[v] == if v in added then before[current] + 1 else before[v]
    ensures Offered(edges, color, c, before, after, current, added)
  {
    NewNeighboursFacts(edges[current], Admit(color, before, c));
    forall k | 0 <= k < |added| ensures 0 <= added[k] < |edges| {
      assert added[k] in added;
    }
  }

  /** Moving the head of the queue to the delete list and enqueueing `added` extends the order by `added`. */
  lemma QueueShift(order: seq<int>, deleteList: seq<int>, queue: seq<int>, added: seq<int>)
    requires queue != [] && order == deleteList + queue
    ensures order + added == (deleteList + [queue[0]]) + (queue[1..] + added)
    ensures order[|deleteList|] == queue[0]
  {
    assert queue == [queue[0]] + queue[1..];
  }

  /** The discovery order never outgrows the arena. */
  lemma OrderBound(edges: seq<seq<int>>, color: seq<Color>, depth0: seq<int>, depth: seq<int>,
                   c: Color, root: int, done: int, order: seq<int>, parent: seq<int>)
    requires BfsInvariant(edges, color, depth0, depth, c, root, done, order, parent)
    ensures |order| <= |edges|
  {
    DistinctBound(order, |edges|);
  }

  /** One turn of the outer loop keeps the invariant, one dequeue later. */
  lemma DequeueStep(edges: seq<seq<int>>, color: seq<Color>, depth0: seq<int>, before: seq<int>, after: seq<int>,
                    c: Color, root: int, done: int, order: seq<int>, parent: seq<int>, added: seq<int>)
    requires BfsInvariant(edges, color, depth0, before, c, root, done, order, parent) && done < |order|
    requires Offered(edges, color, c, before, after, order[done], added)
    ensures BfsInvariant(edges, color, depth0, after, c, root, done + 1, order + added,
                         parent + seq(|added|, _ => done))
  {
    var parent' := parent + seq(|added|, _ => done);
    StepDiscovered(edges, color, depth0, before, after, c, root, done, order, parent, added);
    StepLabelled(edges, color, depth0, before, after, c, root, done, order, parent, added);
    StepFirstParents(edges, color, depth0, before, after, c, root, done, order, parent, added);
    StepSettled(edges, color, depth0, before, after, c, root, done, order, parent, added);
  }

  lemma StepDiscovered(edges: seq<seq<int>>, color: seq<Color>, depth0: seq<int>, before: seq<int>, after: seq<int>,
                       c: Color, root: int, done: int, order: seq<int>, parent: seq<int>, added: seq<int>)
    requires BfsInvariant(edges, color, depth0, before, c, root, done, order, parent) && done < |order|
    requires Offered(edges, color, c, before, after, order[done], added)
    ensures Discovered(edges, color, depth0, c, root, done + 1, order + added, parent + seq(|added|, _ => done))
  {
    var order' := order + added;
    assert forall a :: a in added ==> a !in order && a in Admit(color, depth0, c);
    assert NoDup(order') by {
      forall i, j | 0 <= i < j < |order'| ensures order'[i] != order'[j] {
        if j >= |order| {
          assert order'[j] == added[j - |order|];
          if i >= |order| {
            assert order'[i] == added[i - |order|];
          } else {
            assert order'[i] == order[i];
          }
        }
      }
    }
    assert forall k :: 1 <= k < |order'| ==> order'[k] in Admit(color, depth0, c) by {
      forall k | 1 <= k < |order'| ensures order'[k] in Admit(color, depth0, c) {
        if k >= |order| {
          assert order'[k] == added[k - |order|];
        }
      }
    }
  }

  lemma StepLabelled(edges: seq<seq<int>>, color: seq<Color>, depth0: seq<int>, before: seq<int>, after: seq<int>,
                     c: Color, root: int, done: int, order: seq<int>, parent: seq<int>, added: seq<int>)
    requires BfsInvariant(edges, color, depth0, before, c, root, done, order, parent) && done < |order|
    requires Offered(edges, color, c, before, after, order[done], added)
    ensures Labelled(edges, after, done + 1, order + added, parent + seq(|added|, _ => done))
  {
  }

  lemma StepFirstParents(edges: seq<seq<int>>, color: seq<Color>, depth0: seq<int>, before: seq<int>, after: seq<int>,
                         c: Color, root: int, done: int, order: seq<int>, parent: seq<int>, added: seq<int>)
    requires BfsInvariant(edges, color, depth0, before, c, root, done, order, parent) && done < |order|
    requires Offered(edges, color, c, before, after, order[done], added)
    ensures FirstParents(edges, order + added, parent + seq(|added|, _ => done))
  {
    var order', parent' := order + added, parent + seq(|added|, _ => done);
    forall k, j | 0 <= j < k < |order'| && j < parent'[k] ensures order'[k] !in edges[order'[j]] {
      if k >= |order| {
        var a := added[k - |order|];
        assert order'[k] == a && parent'[k] == done && order'[j] == order[j];
        assert a in added && a !in order && a in Admit(color, depth0, c);
        assert order[j] in order[..done];
      } else {
        assert order'[k] == order[k] && parent'[k] == parent[k] && order'[j] == order[j];
      }
    }
  }

  lemma StepSettled(edges: seq<seq<int>>, color: seq<Color>, depth0: seq<int>, before: seq<int>, after: seq<int>,
                    c: Color, root: int, done: int, order: seq<int>, parent: seq<int>, added: seq<int>)
    requires BfsInvariant(edges, color, depth0, before, c, root, done, order, parent) && done < |order|
    requires Offered(edges, color, c, before, after, order[done], added)
    ensures Settled(edges, color, depth0, after, c, done + 1, order + added)
  {
  }

  /**
   * The marks a flood fill leaves on its delete list: the root (first) is 0, every later
   * bubble is one past some earlier bubble it neighbours (the one that enqueued it) and at
   * most one past every earlier bubble it neighbours, so one past the first of them; marks
   * never decrease along the list, and the k-th is at most k, so none is ever unvisited.
   */
  ghost predicate BfsLabels(edges: seq<seq<int>>, depth: seq<int>, deleteList: seq<int>)
  {
    && NeighbourLabels(edges, depth, deleteList)
    && (forall k :: 1 <= k < |deleteList| ==> depth[deleteList[k - 1]] <= depth[deleteList[k]])
    && (forall k :: 0 <= k < |deleteList| ==> 0 <= depth[deleteList[k]] <= k)
  }

  /** The root's mark and each later mark relative to the marks of its earlier neighbours. */
  ghost predicate NeighbourLabels(edges: seq<seq<int>>, depth: seq<int>, deleteList: seq<int>)
  {
    && |deleteList| >= 1 && InArena(deleteList, |depth|) && InArena(deleteList, |edges|)
    && depth[deleteList[0]] == 0
    && (forall k :: 1 <= k < |deleteList| ==>
          exists j :: 0 <= j < k && deleteList[k] in edges[deleteList[j]] &&
                      depth[deleteList[k]] == depth[deleteList[j]] + 1)
    && (forall j, k {:trigger deleteList[k] in edges[deleteList[j]]} ::
          0 <= j < k < |deleteList| && deleteList[k] in edges[deleteList[j]] ==>
          depth[deleteList[k]] <= depth[deleteList[j]] + 1)
  }

  /** Parent links that are first neighbours, with marks one past the parent's, give the labelling. */
  lemma LabelsFromParents(edges: seq<seq<int>>, depth: seq<int>, deleteList: seq<int>, parent: seq<int>)
    requires Labelled(edges, depth, |deleteList|, deleteList, parent)
    requires FirstParents(edges, deleteList, parent)
    ensures BfsLabels(edges, depth, deleteList)
  {
    forall k | 1 <= k < |deleteList|
      ensures exists j :: 0 <= j < k && deleteList[k] in edges[deleteList[j]] &&
                          depth[deleteList[k]] == depth[deleteList[j]] + 1
    {
      var j := parent[k];
      assert 0 <= j < k && deleteList[k] in edges[deleteList[j]];
    }
    forall j, k | 0 <= j < k < |deleteList| && deleteList[k] in edges[deleteList[j]]
      ensures depth[deleteList[k]] <= depth[deleteList[j]] + 1
    {
      LabelsMonotone(depth, deleteList, parent[k], j);
    }
  }

  /** Marks that never decrease between neighbours in a list never decrease along it. */
  lemma {:induction false} LabelsMonotone(depth: seq<int>, s: seq<int>, i: int, j: int)
    requires InArena(s, |depth|) && 0 <= i <= j < |s|
    requires forall k :: 1 <= k < |s| ==> depth[s[k - 1]] <= depth[s[k]]
    ensures depth[s[i]] <= depth[s[j]]
    decreases j - i
  {
    if i < j {
      LabelsMonotone(depth, s, i, j - 1);
    }
  }

  /**
   * The labelling fixes every mark on the list: two markings that both label the same list
   * agree on it.
   */
  lemma {:induction false} LabelsDetermined(edges: seq<seq<int>>, d1: seq<int>, d2: seq<int>,
                                            deleteList: seq<int>, k: int)
    requires NeighbourLabels(edges, d1, deleteList) && NeighbourLabels(edges, d2, deleteList)
    requires 0 <= k < |deleteList|
    ensures d1[deleteList[k]] == d2[deleteList[k]]
    decreases k
  {
    if k > 0 {
      var j1 :| 0 <= j1 < k && deleteList[k] in edges[deleteList[j1]] &&
                d1[deleteList[k]] == d1[deleteList[j1]] + 1;
      var j2 :| 0 <= j2 < k && deleteList[k] in edges[deleteList[j2]] &&
                d2[deleteList[k]] == d2[deleteList[j2]] + 1;
      LabelsDetermined(edges, d1, d2, deleteList, j1);
      LabelsDetermined(edges, d1, d2, deleteList, j2);
    }
  }

  /**
   * On a triangle filled from bubble 0, bubble 2 is enqueued by the root, so the marks are
   * `[0, 1, 1]`; marking it one past bubble 1 instead is not a breadth-first labelling.
   */
  lemma TriangleLabels()
    ensures BfsLabels([[1, 2], [0, 2], [0, 1]], [0, 1, 1], [0, 1, 2])
    ensures !BfsLabels([[1, 2], [0, 2], [0, 1]], [0, 1, 2], [0, 1, 2])
  {
    var edges, dl := [[1, 2], [0, 2], [0, 1]], [0, 1, 2];
    assert dl[1] in edges[dl[0]] && dl[2] in edges[dl[0]];
  }

  /**
   * When the queue is empty the delete list is the whole discovery order, and it is exactly
   * the set of bubbles the root reaches through admissible bubbles.
   */
  lemma DeleteListCharacterised(edges: seq<seq<int>>, color: seq<Color>, depth0: seq<int>, depth: seq<int>,
                                c: Color, root: int, deleteList: seq<int>, parent: seq<int>)
    requires BfsInvariant(edges, color, depth0, depth, c, root, |deleteList|, deleteList, parent)
    ensures FillOutcome(edges, color, depth0, depth, root, c, deleteList)
    ensures BfsLabels(edges, depth, deleteList)
  {
    LabelsFromParents(edges, depth, deleteList, parent);
    ListedIffReached(edges, color, depth0, depth, c, root, deleteList, parent);
  }

  /** With the queue empty, a bubble is listed exactly when the root reaches it through admissible bubbles. */
  lemma ListedIffReached(edges: seq<seq<int>>, color: seq<Color>, depth0: seq<int>, depth: seq<int>,
                         c: Color, root: int, deleteList: seq<int>, parent: seq<int>)
    requires BfsInvariant(edges, color, depth0, depth, c, root, |deleteList|, deleteList, parent)
    ensures Closed(edges, Admit(color, depth0, c), set x | x in deleteList)
    ensures forall x :: 0 <= x < |edges| ==> (x in deleteList <==> Reaches(edges, Admit(color, depth0, c), root, x))
  {
    var admit := Admit(color, depth0, c);
    assert deleteList[..|deleteList|] == deleteList;
    forall x | 0 <= x < |edges|
      ensures x in deleteList <==> Reaches(edges, admit, root, x)
    {
      if x in deleteList {
        var k :| 0 <= k < |deleteList| && deleteList[k] == x;
        TreeReaches(edges, admit, deleteList, parent, k);
      }
      if Reaches(edges, admit, root, x) {
        ClosedReach(edges, admit, (set v | v in deleteList), root, x);
      }
    }
  }

  /**
   * What one flood fill from `root` over colour `c` did to the marks `pre`, leaving `post`:
   * the facts a caller running several fills in a row relies on.
   */
  ghost predicate FillOutcome(edges: seq<seq<int>>, color: seq<Color>, pre: seq<int>, post: seq<int>,
                              root: int, c: Color, deleteList: seq<int>)
  {
    && |color| == |pre| == |post| == |edges| && 0 <= root < |edges|
    && |deleteList| >= 1 && deleteList[0] == root
    && NoDup(deleteList) && InArena(deleteList, |edges|)
    && (forall k :: 1 <= k < |deleteList| ==> deleteList[k] in Admit(color, pre, c))
    && (forall x :: 0 <= x < |edges| ==> (x in deleteList <==> Reaches(edges, Admit(color, pre, c), root, x)))
    && Closed(edges, Admit(color, pre, c), set x | x in deleteList)
    && (forall k :: 0 <= k < |deleteList| ==> post[deleteList[k]] != Unvisited)
    && (forall v :: 0 <= v < |post| && v !in deleteList ==> post[v] == pre[v])
  }

  /**
   * Completeness of one fill: when every mark but the root's is unvisited, the delete list is
   * exactly the bubbles joined to the root by bubbles of colour `c`.
   */
  lemma FillComplete(edges: seq<seq<int>>, color: seq<Color>, pre: seq<int>, post: seq<int>,
                     root: int, c: Color, deleteList: seq<int>)
    requires FillOutcome(edges, color, pre, post, root, c, deleteList)
    requires forall v :: 0 <= v < |pre| && v != root ==> pre[v] == Unvisited
    ensures forall x :: 0 <= x < |edges| ==> (x in deleteList <==> Reaches(edges, ColorSet(color, c), root, x))
  {
    var admit, same := Admit(color, pre, c), ColorSet(color, c);
    forall x | 0 <= x < |edges|
      ensures x in deleteList <==> Reaches(edges, same, root, x)
    {
      if Reaches(edges, admit, root, x) {
        ReachesMono(edges, admit, same, root, x);
      }
      if Reaches(edges, same, root, x) {
        ReachesAvoidingRoot(edges, same, root, x);
        ReachesMono(edges, same - {root}, admit, root, x);
      }
    }
  }

  /**
   * One whole flood fill from `root` over colour `c`, taking the marks from `pre` to `post`:
   * its delete list is the breadth-first order, with the outcome and labels that order has.
   */
  ghost predicate FillRun(edges: seq<seq<int>>, color: seq<Color>, pre: seq<int>, post: seq<int>,
                          root: int, c: Color, deleteList: seq<int>)
  {
    && EdgesInArena(edges) && |color| == |pre| == |post| == |edges| && 0 <= root < |edges|
    && deleteList == BfsOrder(edges, color, pre, root, c)
    && FillOutcome(edges, color, pre, post, root, c, deleteList)
    && BfsLabels(edges, post, deleteList)
  }

  /**
   * A flood fill's marks are determined: marks labelled along the delete list and unchanged
   * off it (as `FillOutcome` and `BfsLabels` state of every fill) are fixed by the marks before.
   */
  lemma MarksDetermined(edges: seq<seq<int>>, pre: seq<int>, post1: seq<int>, post2: seq<int>, deleteList: seq<int>)
    requires |post1| == |post2| == |pre|
    requires NeighbourLabels(edges, post1, deleteList) && NeighbourLabels(edges, post2, deleteList)
    requires forall v :: 0 <= v < |post1| && v !in deleteList ==> post1[v] == pre[v]
    requires forall v :: 0 <= v < |post2| && v !in deleteList ==> post2[v] == pre[v]
    ensures post1 == post2
  {
    forall v | 0 <= v < |post1| ensures post1[v] == post2[v] {
      if v in deleteList {
        var k :| 0 <= k < |deleteList| && deleteList[k] == v;
        LabelsDetermined(edges, post1, post2, deleteList, k);
      }
    }
  }
}
