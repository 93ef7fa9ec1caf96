/** `walk_items`: the stack-based walk over the drive below the start
    item. The Graph listing is an abstract map from a folder id to the
    children it lists; an id the map lacks is a listing that fails. */
module Walk {
  import opened DriveItems

  type Listing = map<Id, seq<Item>>

  /** The ids of the folders among `items`, in listing order. */
  function FolderIds(items: seq<Item>): (ids: seq<Id>)
    ensures |ids| <= |items|
    ensures forall k :: 0 <= k < |ids| ==> exists j :: 0 <= j < |items| && items[j].folder && items[j].id == ids[k]
  {
    if items == [] then []
    else
      var last := items[|items| - 1];
      FolderIds(items[..|items| - 1]) + (if last.folder then [last.id] else [])
  }

  /** `idx` lists the positions of exactly the folders among `items`, in
      listing order, and `ids` holds their ids. */
  predicate FolderIndexMap(items: seq<Item>, ids: seq<Id>, idx: seq<int>) {
    IdsAtFolders(items, ids, idx) && Increasing(idx) && CoversFolders(items, idx)
  }

  predicate IdsAtFolders(items: seq<Item>, ids: seq<Id>, idx: seq<int>) {
    && |idx| == |ids|
    && forall k :: 0 <= k < |idx| ==> 0 <= idx[k] < |items| && items[idx[k]].folder && items[idx[k]].id == ids[k]
  }

  predicate Increasing(idx: seq<int>) {
    forall k, l :: 0 <= k < l < |idx| ==> idx[k] < idx[l]
  }

  predicate CoversFolders(items: seq<Item>, idx: seq<int>) {
    forall j :: 0 <= j < |items| && items[j].folder ==> j in idx
  }

  /** Every folder child is pushed, once, and in the order of the listing. */
  lemma {:induction false} FolderIdsInOrder(items: seq<Item>)
    ensures exists idx :: FolderIndexMap(items, FolderIds(items), idx)
    decreases |items|
  {
    if items == [] {
      assert FolderIndexMap(items, FolderIds(items), []);
    } else {
      var n := |items| - 1;
      FolderIdsInOrder(items[..n]);
      var idx0 :| FolderIndexMap(items[..n], FolderIds(items[..n]), idx0);
      var idx := if items[n].folder then idx0 + [n] else idx0;
      IdsAtFoldersStep(items, idx0);
      IncreasingStep(items, idx0);
      CoversFoldersStep(items, idx0);
      assert FolderIndexMap(items, FolderIds(items), idx);
    }
  }

  lemma IdsAtFoldersStep(items: seq<Item>, idx0: seq<int>)
    requires items != [] && IdsAtFolders(items[..|items| - 1], FolderIds(items[..|items| - 1]), idx0)
    ensures IdsAtFolders(items, FolderIds(items), if items[|items| - 1].folder then idx0 + [|items| - 1] else idx0)
  {
    var n := |items| - 1;
    var ids0 := FolderIds(items[..n]);
    IdsAtFoldersExtend(items, ids0, idx0);
    if items[n].folder {
      IdsAtFoldersPush(items, ids0, idx0);
    }
  }

  /** Positions into a listing stay valid when the listing grows. */
  lemma IdsAtFoldersExtend(items: seq<Item>, ids: seq<Id>, idx: seq<int>)
    requires items != [] && IdsAtFolders(items[..|items| - 1], ids, idx)
    ensures IdsAtFolders(items, ids, idx)
  {
    var pre := items[..|items| - 1];
    forall k | 0 <= k < |idx|
      ensures items[idx[k]] == pre[idx[k]]
    {
    }
  }

  lemma IdsAtFoldersPush(items: seq<Item>, ids: seq<Id>, idx: seq<int>)
    requires items != [] && items[|items| - 1].folder && IdsAtFolders(items, ids, idx)
    ensures IdsAtFolders(items, ids + [items[|items| - 1].id], idx + [|items| - 1])
  {
  }

  lemma IncreasingStep(items: seq<Item>, idx0: seq<int>)
    requires items != [] && Increasing(idx0)
    requires forall k :: 0 <= k < |idx0| ==> idx0[k] < |items| - 1
    ensures Increasing(if items[|items| - 1].folder then idx0 + [|items| - 1] else idx0)
  {
  }

  lemma CoversFoldersStep(items: seq<Item>, idx0: seq<int>)
    requires items != [] && CoversFolders(items[..|items| - 1], idx0)
    ensures CoversFolders(items, if items[|items| - 1].folder then idx0 + [|items| - 1] else idx0)
  {
    var n := |items| - 1;
    var pre := items[..n];
    forall j | 0 <= j < n && items[j].folder
      ensures j in idx0
    {
      assert pre[j] == items[j];
    }
  }

  /** Acyclicity, witnessed by a rank: a listed folder that has a rank
      lists only sub-folders of smaller rank. */
  ghost predicate Ranked(listing: Listing, rank: map<Id, nat>) {
    forall id, j :: id in listing && id in rank && 0 <= j < |listing[id]| && listing[id][j].folder ==>
      listing[id][j].id in rank && rank[listing[id][j].id] < rank[id]
  }

  ghost predicate AllRanked(ids: seq<Id>, rank: map<Id, nat>) {
    forall k :: 0 <= k < |ids| ==> ids[k] in rank
  }

  /** Every ranked folder can be listed. */
  ghost predicate Complete(listing: Listing, rank: map<Id, nat>) {
    forall id :: id in rank ==> id in listing
  }

  lemma FolderIdsRanked(listing: Listing, rank: map<Id, nat>, id: Id)
    requires Ranked(listing, rank) && id in listing && id in rank
    ensures forall k :: 0 <= k < |FolderIds(listing[id])| ==>
      FolderIds(listing[id])[k] in rank && rank[FolderIds(listing[id])[k]] < rank[id]
  {
  }

  /** One more than the largest rank of `ids`. */
  ghost function RankBound(ids: seq<Id>, rank: map<Id, nat>): (b: nat)
    requires AllRanked(ids, rank)
    ensures ids != [] ==> rank[ids[0]] + 1 <= b && RankBound(ids[1..], rank) <= b
  {
    if ids == [] then 0
    else
      var rest := RankBound(ids[1..], rank);
      if rest < rank[ids[0]] + 1 then rank[ids[0]] + 1 else rest
  }

  lemma {:induction false} RankBoundAtMost(ids: seq<Id>, rank: map<Id, nat>, n: nat)
    requires AllRanked(ids, rank)
    requires forall k :: 0 <= k < |ids| ==> rank[ids[k]] < n
    ensures RankBound(ids, rank) <= n
  {
    if ids != [] {
      RankBoundAtMost(ids[1..], rank, n);
    }
  }

  /** The items listed below folder `id`: its children, then what lies
      below each of its sub-folders. */
  ghost function Desc(listing: Listing, rank: map<Id, nat>, id: Id): seq<Item>
    requires Ranked(listing, rank) && id in rank
    decreases rank[id] + 1, 0
  {
    if id !in listing then []
    else
      FolderIdsRanked(listing, rank, id);
      RankBoundAtMost(FolderIds(listing[id]), rank, rank[id]);
      listing[id] + DescAll(listing, rank, FolderIds(listing[id]))
  }

  ghost function DescAll(listing: Listing, rank: map<Id, nat>, ids: seq<Id>): seq<Item>
    requires Ranked(listing, rank) && AllRanked(ids, rank)
    decreases RankBound(ids, rank), |ids|
  {
    if ids == [] then []
    else Desc(listing, rank, ids[0]) + DescAll(listing, rank, ids[1..])
  }

  lemma {:induction false} DescAllConcat(listing: Listing, rank: map<Id, nat>, a: seq<Id>, b: seq<Id>)
    requires Ranked(listing, rank) && AllRanked(a, rank) && AllRanked(b, rank)
    ensures AllRanked(a + b, rank)
    ensures DescAll(listing, rank, a + b) == DescAll(listing, rank, a) + DescAll(listing, rank, b)
    decreases |a|
  {
    AllRankedConcat(a, b, rank);
    if a == [] {
      assert a + b == b;
    } else {
      var ab := a + b;
      assert ab[0] == a[0] && ab[1..] == a[1..] + b;
      AllRankedTail(a, rank);
      DescAllConcat(listing, rank, a[1..], b);
      DescAllCons(listing, rank, ab);
      DescAllCons(listing, rank, a);
    }
  }

  lemma AllRankedConcat(a: seq<Id>, b: seq<Id>, rank: map<Id, nat>)
    requires AllRanked(a, rank) && AllRanked(b, rank)
    ensures AllRanked(a + b, rank)
  {
    forall k | 0 <= k < |a + b|
      ensures (a + b)[k] in rank
    {
      if k < |a| {
        assert (a + b)[k] == a[k];
      } else {
        assert (a + b)[k] == b[k - |a|];
      }
    }
  }

  lemma AllRankedTail(a: seq<Id>, rank: map<Id, nat>)
    requires a != [] && AllRanked(a, rank)
    ensures a[0] in rank && AllRanked(a[1..], rank)
  {
    forall k | 0 <= k < |a| - 1
      ensures a[1..][k] in rank
    {
      assert a[1..][k] == a[k + 1];
    }
  }

  lemma DescAllCons(listing: Listing, rank: map<Id, nat>, ids: seq<Id>)
    requires Ranked(listing, rank) && ids != [] && AllRanked(ids, rank)
    ensures AllRanked(ids[1..], rank)
    ensures DescAll(listing, rank, ids) == Desc(listing, rank, ids[0]) + DescAll(listing, rank, ids[1..])
  {
    AllRankedTail(ids, rank);
  }

  /** What is left for the walk to yield: the stack itself and everything
      below the folders on it. */
  ghost function Measure(listing: Listing, rank: map<Id, nat>, stack: seq<Id>): nat
    requires Ranked(listing, rank) && AllRanked(stack, rank)
  {
    |stack| + |DescAll(listing, rank, stack)|
  }

  /** Popping a listed folder and pushing its sub-folders shrinks the measure. */
  lemma MeasureStep(listing: Listing, rank: map<Id, nat>, rest: seq<Id>, cur: Id)
    requires Ranked(listing, rank) && AllRanked(rest + [cur], rank) && cur in listing
    ensures AllRanked(rest + FolderIds(listing[cur]), rank)
    ensures Measure(listing, rank, rest + FolderIds(listing[cur])) < Measure(listing, rank, rest + [cur])
  {
    var stack := rest + [cur];
    assert AllRanked(rest, rank) by {
      forall k | 0 <= k < |rest| ensures rest[k] in rank { assert rest[k] == stack[k]; }
    }
    assert cur in rank by { assert stack[|rest|] == cur; }
    var f := FolderIds(listing[cur]);
    FolderIdsRanked(listing, rank, cur);
    DescAllConcat(listing, rank, rest, f);
    DescAllConcat(listing, rank, rest, [cur]);
    assert DescAll(listing, rank, [cur]) == Desc(listing, rank, cur) + DescAll(listing, rank, []);
  }

  /** The sequence `walk_items` yields from a given stack, and whether it got
      through without a listing failing. The top of the stack is its last
      element. */
  ghost function WalkSpec(listing: Listing, rank: map<Id, nat>, stack: seq<Id>, recursive: bool): (r: (seq<Item>, bool))
    requires recursive ==> Ranked(listing, rank) && AllRanked(stack, rank)
    decreases if recursive then Measure(listing, rank, stack) else |stack|
  {
    if stack == [] then ([], true)
    else
      var cur := stack[|stack| - 1];
      var rest := stack[..|stack| - 1];
      if cur !in listing then ([], false)
      else
        var kids := listing[cur];
        if recursive then
          assert stack == rest + [cur];
          MeasureStep(listing, rank, rest, cur);
          var w := WalkSpec(listing, rank, rest + FolderIds(kids), recursive);
          (kids + w.0, w.1)
        else
          var w := WalkSpec(listing, rank, rest, recursive);
          (kids + w.0, w.1)
  }

  /** The sub-folders a visit pushes. */
  function Pushed(kids: seq<Item>, recursive: bool): seq<Id> {
    if recursive then FolderIds(kids) else []
  }

  /** One step of the walk: pop `cur`, yield its children, continue with
      the pushed sub-folders on top of the rest. */
  lemma WalkStep(listing: Listing, rank: map<Id, nat>, rest: seq<Id>, cur: Id, recursive: bool)
    requires recursive ==> Ranked(listing, rank) && AllRanked(rest + [cur], rank)
    ensures cur in listing ==>
      (recursive ==> AllRanked(rest + Pushed(listing[cur], recursive), rank)) &&
      WalkSpec(listing, rank, rest + [cur], recursive) ==
        (listing[cur] + WalkSpec(listing, rank, rest + Pushed(listing[cur], recursive), recursive).0,
         WalkSpec(listing, rank, rest + Pushed(listing[cur], recursive), recursive).1)
    ensures cur in listing && recursive ==>
      Measure(listing, rank, rest + Pushed(listing[cur], recursive)) < Measure(listing, rank, rest + [cur])
    ensures cur !in listing ==> WalkSpec(listing, rank, rest + [cur], recursive) == ([], false)
  {
    var stack := rest + [cur];
    assert stack[..|stack| - 1] == rest;
    if cur in listing {
      if recursive {
        MeasureStep(listing, rank, rest, cur);
      } else {
        assert rest + Pushed(listing[cur], recursive) == rest;
      }
    }
  }

  /** The inner loop of `walk_items`: yield each child in order and push
      the id of each sub-folder when recursive. */
  method YieldChildren(kids: seq<Item>, recursive: bool, stack0: seq<Id>, out0: seq<Item>)
    returns (stack: seq<Id>, out: seq<Item>)
    ensures stack == stack0 + Pushed(kids, recursive)
    ensures out == out0 + kids
  {
    stack, out := stack0, out0;
    for i := 0 to |kids|
      invariant stack == stack0 + Pushed(kids[..i], recursive)
      invariant out == out0 + kids[..i]
    {
      assert kids[..i + 1][..i] == kids[..i];
      if kids[i].folder && recursive {
        stack := stack + [kids[i].id];
      }
      out := out + [kids[i]];
    }
    assert kids[..|kids|] == kids;
  }

  /** One turn of the outer loop of `walk_items`: pop the top folder and,
      when it can be listed, yield its children and push its sub-folders.
      What is left to yield afterwards plus what was yielded now is what
      was left before. */
  method VisitTop(listing: Listing, recursive: bool, ghost rank: map<Id, nat>, stack0: seq<Id>, out0: seq<Item>)
    returns (stack: seq<Id>, out: seq<Item>, listed: bool)
    requires stack0 != []
    requires recursive ==> Ranked(listing, rank) && AllRanked(stack0, rank)
    ensures listed <==> stack0[|stack0| - 1] in listing
    ensures !listed ==> out == out0 && WalkSpec(listing, rank, stack0, recursive) == ([], false)
    ensures listed ==> recursive ==> AllRanked(stack, rank)
    ensures listed ==> out + WalkSpec(listing, rank, stack, recursive).0 == out0 + WalkSpec(listing, rank, stack0, recursive).0
    ensures listed ==> WalkSpec(listing, rank, stack, recursive).1 == WalkSpec(listing, rank, stack0, recursive).1
    ensures listed && recursive ==> Measure(listing, rank, stack) < Measure(listing, rank, stack0)
    ensures listed && !recursive ==> |stack| < |stack0|
  {
    var cur := stack0[|stack0| - 1];
    stack := stack0[..|stack0| - 1];
    assert stack0 == stack + [cur];
    WalkStep(listing, rank, stack, cur, recursive);
    out := out0;
    listed := cur in listing;
    if listed {
      var kids := listing[cur];
      stack, out := YieldChildren(kids, recursive, stack, out);
      assert out0 + (kids + WalkSpec(listing, rank, stack, recursive).0) == out + WalkSpec(listing, rank, stack, recursive).0;
    }
  }

  /** `walk_items(..., start_id, recursive)`: pops a folder, lists it, and
      yields each child, pushing the sub-folders when recursive. `ok` is
      false when a listing failed; `out` is what was yielded until then. */
  method WalkItems(listing: Listing, startId: Id, recursive: bool, ghost rank: map<Id, nat>)
    returns (out: seq<Item>, ok: bool)
    requires recursive ==> Ranked(listing, rank) && startId in rank
    ensures (out, ok) == WalkSpec(listing, rank, [startId], recursive)
  {
    var stack := [startId];
    out := [];
    ok := true;
    ghost var spec := WalkSpec(listing, rank, stack, recursive);
    assert out + spec.0 == spec.0;
    while stack != []
      invariant recursive ==> Ranked(listing, rank) && AllRanked(stack, rank)
      invariant ok
      invariant out + WalkSpec(listing, rank, stack, recursive).0 == spec.0
      invariant WalkSpec(listing, rank, stack, recursive).1 == spec.1
      decreases if recursive then Measure(listing, rank, stack) else |stack|
    {
      var listed;
      ghost var out0 := out;
      stack, out, listed := VisitTop(listing, recursive, rank, stack, out);
      if !listed {
        ok := false;
        assert out0 + [] == out0;
        return;
      }
    }
    assert out + WalkSpec(listing, rank, stack, recursive).0 == out;
  }

  /** Without recursion the walk yields exactly the children of the start
      item, or nothing and a failure when it cannot be listed. */
  lemma WalkNonRecursive(listing: Listing, rank: map<Id, nat>, startId: Id)
    ensures WalkSpec(listing, rank, [startId], false) ==
      if startId in listing then (listing[startId], true) else ([], false)
  {
    var none: seq<Id> := [];
    assert [startId][..0] == none;
    if startId in listing {
      assert WalkSpec(listing, rank, [startId], false).0 == listing[startId] + WalkSpec(listing, rank, none, false).0;
      assert listing[startId] + [] == listing[startId];
    }
  }

  /** On an acyclic, fully listable tree the recursive walk succeeds and
      yields every item below the stacked folders exactly as often as it
      occurs there. */
  lemma {:induction false} WalkCoversAll(listing: Listing, rank: map<Id, nat>, stack: seq<Id>)
    requires Ranked(listing, rank) && Complete(listing, rank) && AllRanked(stack, rank)
    ensures WalkSpec(listing, rank, stack, true).1
    ensures multiset(WalkSpec(listing, rank, stack, true).0) == multiset(DescAll(listing, rank, stack))
    decreases Measure(listing, rank, stack)
  {
    if stack != [] {
      var cur := stack[|stack| - 1];
      var rest := stack[..|stack| - 1];
      assert stack == rest + [cur];
      assert cur in rank;
      var kids := listing[cur];
      var f := FolderIds(kids);
      MeasureStep(listing, rank, rest, cur);
      WalkStep(listing, rank, rest, cur, true);
      assert Pushed(kids, true) == f;
      WalkCoversAll(listing, rank, rest + f);
      DescAllConcat(listing, rank, rest, f);
      DescAllConcat(listing, rank, rest, [cur]);
      assert DescAll(listing, rank, [cur]) == Desc(listing, rank, cur) + DescAll(listing, rank, []);
    }
  }

  /** `walk_items(..., start_id, True)` on an acyclic, fully listable tree
      yields each item below the start folder once per occurrence. */
  lemma WalkYieldsDescendants(listing: Listing, rank: map<Id, nat>, startId: Id)
    requires Ranked(listing, rank) && Complete(listing, rank) && startId in rank
    ensures WalkSpec(listing, rank, [startId], true).1
    ensures multiset(WalkSpec(listing, rank, [startId], true).0) == multiset(Desc(listing, rank, startId))
  {
    WalkCoversAll(listing, rank, [startId]);
    assert DescAll(listing, rank, [startId]) == Desc(listing, rank, startId) + DescAll(listing, rank, []);
  }
}
