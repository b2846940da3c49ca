/**
 * The account of one hit of the booster: the seeds (the non-blank neighbours of the cell it
 * attached to, in edge order), the delete list of the flood fill run from each, and what those
 * fills, sharing one set of marks, leave behind.
 */
module HitFills {
  import opened BubbleGraph
  import opened FloodFill

  /** The delete lists of successive flood fills, one after the other. */
  ghost function Flatten(groups: seq<seq<int>>): seq<int>
  {
    if groups == [] then [] else Flatten(groups[..|groups| - 1]) + groups[|groups| - 1]
  }

  lemma {:induction false} InFlatten(groups: seq<seq<int>>, v: int)
    ensures v in Flatten(groups) <==> exists k :: 0 <= k < |groups| && v in groups[k]
    decreases |groups|
  {
    if groups != [] {
      var init := groups[..|groups| - 1];
      InFlatten(init, v);
      assert forall k :: 0 <= k < |init| ==> init[k] == groups[k];
    }
  }

  /**
   * The neighbours a flood fill is started from: those of `edges` that are not blank,
   * in edge order.
   */
  function NonBlank(color: seq<Color>, edges: seq<int>): (seeds: seq<int>)
    requires InArena(edges, |color|)
    ensures |seeds| <= |edges| && InArena(seeds, |color|)
  {
    if edges == [] then []
    else
      var init, last := edges[..|edges| - 1], edges[|edges| - 1];
      NonBlank(color, init) + (if color[last] != Blank then [last] else [])
  }

  /** The seeds are exactly the neighbours that are not blank. */
  lemma {:induction false} NonBlankMembers(color: seq<Color>, edges: seq<int>)
    requires InArena(edges, |color|)
    ensures forall w :: w in NonBlank(color, edges) <==> w in edges && color[w] != Blank
    decreases |edges|
  {
    if edges != [] {
      var init := edges[..|edges| - 1];
      NonBlankMembers(color, init);
      assert edges == init + [edges[|edges| - 1]];
    }
  }

  /** One more edge extends the filtered prefix by that edge when it is not blank. */
  lemma NonBlankStep(color: seq<Color>, edges: seq<int>, i: int)
    requires InArena(edges, |color|) && 0 <= i < |edges|
    ensures NonBlank(color, edges[..i + 1]) ==
      NonBlank(color, edges[..i]) + (if color[edges[i]] != Blank then [edges[i]] else [])
  {
    assert edges[..i + 1][..i] == edges[..i];
  }

  /** The seeds of a prefix of the edges are a prefix of the seeds. */
  lemma {:induction false} NonBlankPrefix(color: seq<Color>, edges: seq<int>, i: int)
    requires InArena(edges, |color|) && 0 <= i <= |edges|
    ensures NonBlank(color, edges[..i]) <= NonBlank(color, edges)
    decreases |edges| - i
  {
    if i < |edges| {
      NonBlankStep(color, edges, i);
      NonBlankPrefix(color, edges, i + 1);
    } else {
      assert edges[..i] == edges;
    }
  }

  /** The delete lists of the fills after one more fill are the old ones followed by its list. */
  lemma FlattenSnoc(groups: seq<seq<int>>, deleteList: seq<int>)
    ensures Flatten(groups + [deleteList]) == Flatten(groups) + deleteList
  {
    assert (groups + [deleteList])[..|groups|] == groups;
  }

  /**
   * The fills of one hit so far, against the seeds they were started from and the marks
   * `depth0` the hit began with: fill `k` starts at `seeds[k]`, lists no bubble twice, keeps
   * to its seed's colour and reaches only bubbles joined to its seed by bubbles of that colour
   * that were unvisited when the hit began.
   */
  ghost predicate Seeded(edges: seq<seq<int>>, color: seq<Color>, depth0: seq<int>,
                         seeds: seq<int>, groups: seq<seq<int>>)
  {
    && |color| == |depth0| == |edges|
    && |groups| <= |seeds| && InArena(seeds, |edges|)
    && (forall k :: 0 <= k < |groups| ==>
          |groups[k]| >= 1 && groups[k][0] == seeds[k] && NoDup(groups[k]) && InArena(groups[k], |edges|))
    && (forall k, j :: 0 <= k < |groups| && 0 <= j < |groups[k]| ==> color[groups[k][j]] == color[seeds[k]])
    && (forall k, j :: 0 <= k < |groups| && 0 <= j < |groups[k]| ==>
          Reaches(edges, Admit(color, depth0, color[seeds[k]]), seeds[k], groups[k][j]))
  }

  /**
   * No fill lists, past its seed, a bubble that was marked when the hit began or that an
   * earlier fill listed; and a fill whose seed an earlier fill already listed lists nothing
   * but that seed.
   */
  ghost predicate Fresh(depth0: seq<int>, seeds: seq<int>, groups: seq<seq<int>>)
  {
    |groups| <= |seeds| && Unmarked(depth0, groups) && Disjoint(groups) && Rerooted(seeds, groups)
  }

  ghost predicate Unmarked(depth0: seq<int>, groups: seq<seq<int>>)
  {
    forall k, j :: 0 <= k < |groups| && 1 <= j < |groups[k]| ==>
      0 <= groups[k][j] < |depth0| && depth0[groups[k][j]] == Unvisited
  }

  ghost predicate Disjoint(groups: seq<seq<int>>)
  {
    forall k1, j1, k2, j2 :: 0 <= k1 < k2 < |groups| && 0 <= j1 < |groups[k1]| && 1 <= j2 < |groups[k2]| ==>
      groups[k1][j1] != groups[k2][j2]
  }

  ghost predicate Rerooted(seeds: seq<int>, groups: seq<seq<int>>)
    requires |groups| <= |seeds|
  {
    forall k1, j1, k2 :: 0 <= k1 < k2 < |groups| && 0 <= j1 < |groups[k1]| && groups[k1][j1] == seeds[k2] ==>
      |groups[k2]| == 1
  }

  /**
   * The marks after the fills: a bubble is marked exactly when it was marked when the hit
   * began or some fill listed it, and every same-coloured neighbour of a listed bubble is
   * marked.
   */
  ghost predicate Marked(edges: seq<seq<int>>, color: seq<Color>, depth0: seq<int>, depth: seq<int>,
                         groups: seq<seq<int>>)
  {
    && |depth| == |depth0| == |color| == |edges|
    && MarksRecord(depth0, depth, groups)
    && SameColourMarked(edges, color, depth, groups)
  }

  ghost predicate MarksRecord(depth0: seq<int>, depth: seq<int>, groups: seq<seq<int>>)
  {
    && |depth| == |depth0|
    && (forall v :: 0 <= v < |depth| ==> (depth[v] != Unvisited <==> depth0[v] != Unvisited || v in Flatten(groups)))
  }

  ghost predicate SameColourMarked(edges: seq<seq<int>>, color: seq<Color>, depth: seq<int>, groups: seq<seq<int>>)
  {
    forall k, j, w ::
      0 <= k < |groups| && 0 <= j < |groups[k]| && 0 <= groups[k][j] < |edges| && 0 <= groups[k][j] < |color| &&
      w in edges[groups[k][j]] && 0 <= w < |depth| && 0 <= w < |color| && color[w] == color[groups[k][j]]
      ==> depth[w] != Unvisited
  }

  /** Marks only ever get set, so what a fill may step onto now it could have stepped onto when the hit began. */
  lemma AdmitShrinks(edges: seq<seq<int>>, color: seq<Color>, depth0: seq<int>, depth: seq<int>,
                     groups: seq<seq<int>>, c: Color)
    requires Marked(edges, color, depth0, depth, groups)
    ensures Admit(color, depth, c) <= Admit(color, depth0, c)
  {
  }

  lemma InGroupInFlatten(groups: seq<seq<int>>)
    ensures forall k, j :: 0 <= k < |groups| && 0 <= j < |groups[k]| ==> groups[k][j] in Flatten(groups)
  {
    forall k, j | 0 <= k < |groups| && 0 <= j < |groups[k]| ensures groups[k][j] in Flatten(groups) {
      InFlatten(groups, groups[k][j]);
    }
  }

  lemma StepSeeded(edges: seq<seq<int>>, color: seq<Color>, depth0: seq<int>, pre: seq<int>, post: seq<int>,
                   seeds: seq<int>, groups: seq<seq<int>>, deleteList: seq<int>)
    requires Seeded(edges, color, depth0, seeds, groups) && Marked(edges, color, depth0, pre, groups)
    requires |groups| < |seeds|
    requires FillOutcome(edges, color, pre, post, seeds[|groups|], color[seeds[|groups|]], deleteList)
    ensures Seeded(edges, color, depth0, seeds, groups + [deleteList])
  {
    var i, groups' := |groups|, groups + [deleteList];
    var c := color[seeds[i]];
    AdmitShrinks(edges, color, depth0, pre, groups, c);
    forall j | 0 <= j < |deleteList|
      ensures color[deleteList[j]] == c && Reaches(edges, Admit(color, depth0, c), seeds[i], deleteList[j])
    {
      ReachesMono(edges, Admit(color, pre, c), Admit(color, depth0, c), seeds[i], deleteList[j]);
    }
    assert forall k :: 0 <= k < i ==> groups'[k] == groups[k];
    assert groups'[i] == deleteList;
  }

  /**
   * A fill's bubbles past its seed are new to the hit, and a fill whose seed an earlier fill
   * listed stops at the seed: that seed's same-coloured neighbours are all marked already.
   */
  lemma FillFresh(edges: seq<seq<int>>, color: seq<Color>, depth0: seq<int>, pre: seq<int>, post: seq<int>,
                  seeds: seq<int>, groups: seq<seq<int>>, deleteList: seq<int>)
    requires Seeded(edges, color, depth0, seeds, groups) && Marked(edges, color, depth0, pre, groups)
    requires |groups| < |seeds|
    requires FillOutcome(edges, color, pre, post, seeds[|groups|], color[seeds[|groups|]], deleteList)
    ensures forall j :: 1 <= j < |deleteList| ==>
      depth0[deleteList[j]] == Unvisited && deleteList[j] !in Flatten(groups)
    ensures forall k1, j1 :: 0 <= k1 < |groups| && 0 <= j1 < |groups[k1]| && groups[k1][j1] == seeds[|groups|] ==>
      |deleteList| == 1
  {
    var seed := seeds[|groups|];
    var admit := Admit(color, pre, color[seed]);
    forall j | 1 <= j < |deleteList|
      ensures depth0[deleteList[j]] == Unvisited && deleteList[j] !in Flatten(groups)
    {
      assert deleteList[j] in admit;
    }
    forall k1, j1 | 0 <= k1 < |groups| && 0 <= j1 < |groups[k1]| && groups[k1][j1] == seed
      ensures |deleteList| == 1
    {
      forall w | w in edges[seed] && 0 <= w < |pre| && color[w] == color[seed] ensures pre[w] != Unvisited {
        assert color[w] == color[groups[k1][j1]];
      }
      if |deleteList| > 1 {
        IsolatedRoot(edges, admit, seed, deleteList[1]);
        assert false;
      }
    }
  }

  lemma StepFresh(edges: seq<seq<int>>, color: seq<Color>, depth0: seq<int>, pre: seq<int>, post: seq<int>,
                  seeds: seq<int>, groups: seq<seq<int>>, deleteList: seq<int>)
    requires Seeded(edges, color, depth0, seeds, groups) && Fresh(depth0, seeds, groups)
    requires Marked(edges, color, depth0, pre, groups)
    requires |groups| < |seeds|
    requires FillOutcome(edges, color, pre, post, seeds[|groups|], color[seeds[|groups|]], deleteList)
    ensures Fresh(depth0, seeds, groups + [deleteList])
  {
    FillFresh(edges, color, depth0, pre, post, seeds, groups, deleteList);
    StepUnmarked(depth0, groups, deleteList);
    StepDisjoint(groups, deleteList);
    StepRerooted(seeds, groups, deleteList);
  }

  lemma StepUnmarked(depth0: seq<int>, groups: seq<seq<int>>, deleteList: seq<int>)
    requires Unmarked(depth0, groups)
    requires forall j :: 1 <= j < |deleteList| ==> 0 <= deleteList[j] < |depth0| && depth0[deleteList[j]] == Unvisited
    ensures Unmarked(depth0, groups + [deleteList])
  {
    var groups' := groups + [deleteList];
    forall k, j | 0 <= k < |groups'| && 1 <= j < |groups'[k]|
      ensures 0 <= groups'[k][j] < |depth0| && depth0[groups'[k][j]] == Unvisited
    {
      if k < |groups| {
        assert groups'[k] == groups[k];
      } else {
        assert groups'[k] == deleteList;
      }
    }
  }

  lemma StepDisjoint(groups: seq<seq<int>>, deleteList: seq<int>)
    requires Disjoint(groups)
    requires forall j :: 1 <= j < |deleteList| ==> deleteList[j] !in Flatten(groups)
    ensures Disjoint(groups + [deleteList])
  {
    var groups' := groups + [deleteList];
    InGroupInFlatten(groups);
    forall k1, j1, k2, j2 | 0 <= k1 < k2 < |groups'| && 0 <= j1 < |groups'[k1]| && 1 <= j2 < |groups'[k2]|
      ensures groups'[k1][j1] != groups'[k2][j2]
    {
      assert groups'[k1] == groups[k1];
      if k2 < |groups| {
        assert groups'[k2] == groups[k2];
      } else {
        assert groups'[k2] == deleteList;
        assert groups[k1][j1] in Flatten(groups);
      }
    }
  }

  lemma StepRerooted(seeds: seq<int>, groups: seq<seq<int>>, deleteList: seq<int>)
    requires |groups| < |seeds| && Rerooted(seeds, groups)
    requires forall k1, j1 :: 0 <= k1 < |groups| && 0 <= j1 < |groups[k1]| && groups[k1][j1] == seeds[|groups|] ==>
      |deleteList| == 1
    ensures Rerooted(seeds, groups + [deleteList])
  {
    var groups' := groups + [deleteList];
    forall k1, j1, k2 | 0 <= k1 < k2 < |groups'| && 0 <= j1 < |groups'[k1]| && groups'[k1][j1] == seeds[k2]
      ensures |groups'[k2]| == 1
    {
      assert groups'[k1] == groups[k1];
      if k2 < |groups| {
        assert groups'[k2] == groups[k2];
      } else {
        assert groups'[k2] == deleteList;
      }
    }
  }

  lemma StepMarked(edges: seq<seq<int>>, color: seq<Color>, depth0: seq<int>, pre: seq<int>, post: seq<int>,
                   seeds: seq<int>, groups: seq<seq<int>>, deleteList: seq<int>)
    requires Seeded(edges, color, depth0, seeds, groups) && Marked(edges, color, depth0, pre, groups)
    requires |groups| < |seeds|
    requires FillOutcome(edges, color, pre, post, seeds[|groups|], color[seeds[|groups|]], deleteList)
    ensures Marked(edges, color, depth0, post, groups + [deleteList])
  {
    forall v | v in deleteList ensures 0 <= v < |post| && post[v] != Unvisited {
      var k :| 0 <= k < |deleteList| && deleteList[k] == v;
    }
    StepRecord(depth0, pre, post, groups, deleteList);
    StepClosure(edges, color, pre, post, groups, color[seeds[|groups|]], deleteList);
  }

  lemma StepRecord(depth0: seq<int>, pre: seq<int>, post: seq<int>, groups: seq<seq<int>>, deleteList: seq<int>)
    requires MarksRecord(depth0, pre, groups) && |post| == |pre|
    requires forall v :: v in deleteList ==> 0 <= v < |post| && post[v] != Unvisited
    requires forall v :: 0 <= v < |post| && v !in deleteList ==> post[v] == pre[v]
    ensures MarksRecord(depth0, post, groups + [deleteList])
  {
    FlattenSnoc(groups, deleteList);
  }

  lemma StepClosure(edges: seq<seq<int>>, color: seq<Color>, pre: seq<int>, post: seq<int>,
                    groups: seq<seq<int>>, c: Color, deleteList: seq<int>)
    requires SameColourMarked(edges, color, pre, groups) && |post| == |pre| == |color|
    requires |deleteList| >= 1 && 0 <= deleteList[0] < |color| && color[deleteList[0]] == c
    requires forall k :: 1 <= k < |deleteList| ==> deleteList[k] in Admit(color, pre, c)
    requires Closed(edges, Admit(color, pre, c), set x | x in deleteList)
    requires forall v :: v in deleteList ==> 0 <= v < |post| && post[v] != Unvisited
    requires forall v :: 0 <= v < |post| && v !in deleteList ==> post[v] == pre[v]
    ensures SameColourMarked(edges, color, post, groups + [deleteList])
  {
    var i, groups' := |groups|, groups + [deleteList];
    var admit := Admit(color, pre, c);
    forall k, j, w | 0 <= k < |groups'| && 0 <= j < |groups'[k]| && 0 <= groups'[k][j] < |edges| &&
                     0 <= groups'[k][j] < |color| && w in edges[groups'[k][j]] && 0 <= w < |post| &&
                     0 <= w < |color| && color[w] == color[groups'[k][j]]
      ensures post[w] != Unvisited
    {
      if k < i {
        assert groups'[k] == groups[k];
      } else if pre[w] == Unvisited {
        assert groups'[k] == deleteList;
        assert color[deleteList[j]] == c by {
          if j > 0 {
            assert deleteList[j] in admit;
          }
        }
        assert w in admit;
      }
    }
  }

  /** The account of the fills run so far from a prefix of `seeds`. */
  ghost predicate HitSoFar(edges: seq<seq<int>>, color: seq<Color>, depth0: seq<int>, depth: seq<int>,
                           seeds: seq<int>, groups: seq<seq<int>>)
  {
    && Seeded(edges, color, depth0, seeds, groups) && Fresh(depth0, seeds, groups)
    && Marked(edges, color, depth0, depth, groups)
  }

  /** The account of a whole hit: one fill per seed. */
  ghost predicate HitAccount(edges: seq<seq<int>>, color: seq<Color>, depth0: seq<int>, depth: seq<int>,
                             seeds: seq<int>, groups: seq<seq<int>>)
  {
    |groups| == |seeds| && HitSoFar(edges, color, depth0, depth, seeds, groups)
  }

  /** One more fill, from the next seed, keeps the account of the hit. */
  lemma HitStep(edges: seq<seq<int>>, color: seq<Color>, depth0: seq<int>, pre: seq<int>, post: seq<int>,
                seeds: seq<int>, groups: seq<seq<int>>, deleteList: seq<int>)
    requires HitSoFar(edges, color, depth0, pre, seeds, groups) && |groups| < |seeds|
    requires FillOutcome(edges, color, pre, post, seeds[|groups|], color[seeds[|groups|]], deleteList)
    ensures HitSoFar(edges, color, depth0, post, seeds, groups + [deleteList])
  {
    StepSeeded(edges, color, depth0, pre, post, seeds, groups, deleteList);
    StepFresh(edges, color, depth0, pre, post, seeds, groups, deleteList);
    StepMarked(edges, color, depth0, pre, post, seeds, groups, deleteList);
  }

  /**
   * The fills of one hit, one after the other: fill `k` runs from `seeds[k]` over that seed's
   * colour on the marks `marks[k]` the earlier fills left, and leaves the marks `marks[k + 1]`.
   */
  ghost predicate FillChain(edges: seq<seq<int>>, color: seq<Color>, seeds: seq<int>,
                            marks: seq<seq<int>>, groups: seq<seq<int>>)
  {
    && EdgesInArena(edges) && |color| == |edges| && InArena(seeds, |edges|)
    && |marks| == |groups| + 1 && |groups| <= |seeds| && |marks[0]| == |edges|
    && (forall k {:trigger ChainLink(edges, color, seeds[k], marks[k], marks[k + 1], groups[k])} ::
          0 <= k < |groups| ==> ChainLink(edges, color, seeds[k], marks[k], marks[k + 1], groups[k]))
  }

  /** One fill of a chain: from `seed`, over that seed's colour, on the marks `pre`, leaving `post`. */
  ghost predicate ChainLink(edges: seq<seq<int>>, color: seq<Color>, seed: int,
                            pre: seq<int>, post: seq<int>, group: seq<int>)
  {
    0 <= seed < |color| && FillRun(edges, color, pre, post, seed, color[seed], group)
  }

  /** A fill from the next seed, on the marks the chain left, extends the chain. */
  lemma ChainStep(edges: seq<seq<int>>, color: seq<Color>, seeds: seq<int>, marks: seq<seq<int>>,
                  groups: seq<seq<int>>, post: seq<int>, deleteList: seq<int>)
    requires FillChain(edges, color, seeds, marks, groups) && |groups| < |seeds|
    requires FillRun(edges, color, marks[|groups|], post, seeds[|groups|], color[seeds[|groups|]], deleteList)
    ensures FillChain(edges, color, seeds, marks + [post], groups + [deleteList])
  {
    var marks', groups' := marks + [post], groups + [deleteList];
    forall k | 0 <= k < |groups'|
      ensures ChainLink(edges, color, seeds[k], marks'[k], marks'[k + 1], groups'[k])
    {
      if k < |groups| {
        assert marks'[k] == marks[k] && marks'[k + 1] == marks[k + 1] && groups'[k] == groups[k];
      } else {
        assert marks'[k] == marks[k] && marks'[k + 1] == post && groups'[k] == deleteList;
      }
    }
  }

  /**
   * The chain of fills keeps the account of the hit: what the chain lists and marks is what
   * `Seeded`, `Fresh` and `Marked` say of the marks it began with and those it leaves.
   */
  lemma {:induction false} ChainAccount(edges: seq<seq<int>>, color: seq<Color>, seeds: seq<int>,
                                        marks: seq<seq<int>>, groups: seq<seq<int>>)
    requires FillChain(edges, color, seeds, marks, groups)
    ensures HitSoFar(edges, color, marks[0], marks[|groups|], seeds, groups)
    decreases |groups|
  {
    var n := |groups|;
    if n > 0 {
      var marks', groups' := marks[..n], groups[..n - 1];
      ChainPrefix(edges, color, seeds, marks, groups);
      ChainAccount(edges, color, seeds, marks', groups');
      HitStep(edges, color, marks[0], marks[n - 1], marks[n], seeds, groups', groups[n - 1]);
      assert groups' + [groups[n - 1]] == groups;
    }
  }

  /** Dropping the last fill of a chain leaves a chain. */
  lemma ChainPrefix(edges: seq<seq<int>>, color: seq<Color>, seeds: seq<int>,
                    marks: seq<seq<int>>, groups: seq<seq<int>>)
    requires FillChain(edges, color, seeds, marks, groups) && |groups| > 0
    ensures FillChain(edges, color, seeds, marks[..|groups|], groups[..|groups| - 1])
    ensures var n := |groups|;
      FillOutcome(edges, color, marks[n - 1], marks[n], seeds[n - 1], color[seeds[n - 1]], groups[n - 1])
  {
    var n := |groups|;
    var marks', groups' := marks[..n], groups[..n - 1];
    forall k | 0 <= k < |groups'|
      ensures ChainLink(edges, color, seeds[k], marks'[k], marks'[k + 1], groups'[k])
    {
      assert marks'[k] == marks[k] && marks'[k + 1] == marks[k + 1] && groups'[k] == groups[k];
    }
    var last := n - 1;
    assert ChainLink(edges, color, seeds[last], marks[last], marks[last + 1], groups[last]);
  }

  /**
   * Completeness of a hit: when every mark is unvisited as the hit begins, the bubbles its
   * fills pop are exactly those joined to some seed by bubbles of that seed's colour.
   */
  lemma HitComplete(edges: seq<seq<int>>, color: seq<Color>, depth0: seq<int>, depth: seq<int>,
                    seeds: seq<int>, groups: seq<seq<int>>)
    requires EdgesInArena(edges)
    requires HitAccount(edges, color, depth0, depth, seeds, groups)
    requires forall v :: 0 <= v < |depth0| ==> depth0[v] == Unvisited
    ensures forall x :: 0 <= x < |edges| ==>
      (x in Flatten(groups) <==>
       exists k :: 0 <= k < |seeds| && Reaches(edges, ColorSet(color, color[seeds[k]]), seeds[k], x))
  {
    forall x | 0 <= x < |edges|
      ensures x in Flatten(groups) <==>
        exists k :: 0 <= k < |seeds| && Reaches(edges, ColorSet(color, color[seeds[k]]), seeds[k], x)
    {
      InFlatten(groups, x);
      if x in Flatten(groups) {
        var k, j :| 0 <= k < |groups| && 0 <= j < |groups[k]| && groups[k][j] == x;
        var c := color[seeds[k]];
        ReachesMono(edges, Admit(color, depth0, c), ColorSet(color, c), seeds[k], x);
      }
      if k :| 0 <= k < |seeds| && Reaches(edges, ColorSet(color, color[seeds[k]]), seeds[k], x) {
        HitRegionPopped(edges, color, depth0, depth, seeds, groups, k, x);
      }
    }
  }

  /** With clean marks on entry, the whole region of colour `color[seeds[k]]` around `seeds[k]` is popped. */
  lemma HitRegionPopped(edges: seq<seq<int>>, color: seq<Color>, depth0: seq<int>, depth: seq<int>,
                        seeds: seq<int>, groups: seq<seq<int>>, k: int, x: int)
    requires EdgesInArena(edges)
    requires HitAccount(edges, color, depth0, depth, seeds, groups)
    requires forall v :: 0 <= v < |depth0| ==> depth0[v] == Unvisited
    requires 0 <= k < |seeds| && Reaches(edges, ColorSet(color, color[seeds[k]]), seeds[k], x)
    ensures x in Flatten(groups)
  {
    var c := color[seeds[k]];
    var same := ColorSet(color, c);
    var marked := set v | 0 <= v < |depth| && depth[v] != Unvisited && color[v] == c;
    InGroupInFlatten(groups);
    assert groups[k][0] == seeds[k];
    forall v, w | v in marked && 0 <= v < |edges| && w in edges[v] && w in same
      ensures w in marked
    {
      InFlatten(groups, v);
      var k', j' :| 0 <= k' < |groups| && 0 <= j' < |groups[k']| && groups[k'][j'] == v;
    }
    ClosedReach(edges, same, marked, seeds[k], x);
  }

  /**
   * A bubble popped by two fills of one hit is the seed of the later fill, and that fill pops
   * nothing else: the only repeated pops are of seeds an earlier fill already reached.
   */
  lemma HitRepeats(depth0: seq<int>, seeds: seq<int>, groups: seq<seq<int>>, k1: int, j1: int, k2: int, j2: int)
    requires Fresh(depth0, seeds, groups) && |groups| == |seeds|
    requires forall k :: 0 <= k < |groups| ==> |groups[k]| >= 1 && groups[k][0] == seeds[k]
    requires 0 <= k1 < k2 < |groups| && 0 <= j1 < |groups[k1]| && 0 <= j2 < |groups[k2]|
    requires groups[k1][j1] == groups[k2][j2]
    ensures j2 == 0 && groups[k2] == [seeds[k2]]
  {
  }
}
