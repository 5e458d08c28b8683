/** The stages of a delivery pipeline: rows in any order, each naming its successor. */
module StageChain {
  import opened Wrappers

  datatype Stage = Stage(id: string, next: Option<string>)

  /** The scripting language's test of an optional text: absent and empty are both false. */
  predicate Truthy(s: Option<string>) {
    s.Some? && |s.value| > 0
  }

  predicate IsNext(rows: seq<Stage>, id: string) {
    exists i :: 0 <= i < |rows| && Truthy(rows[i].next) && rows[i].next.value == id
  }

  predicate FirstAt(rows: seq<Stage>, i: nat)
    requires i < |rows|
  {
    !IsNext(rows, rows[i].id) && forall j :: 0 <= j < i ==> IsNext(rows, rows[j].id)
  }

  /** The first row that no row names as its successor. */
  method ComputeFirstStageId(rows: seq<Stage>) returns (first: Option<string>)
    ensures first.None? <==> forall i :: 0 <= i < |rows| ==> IsNext(rows, rows[i].id)
    ensures first.Some? ==> exists i :: 0 <= i < |rows| && FirstAt(rows, i) && rows[i].id == first.value
  {
    var nextIds: set<string> := {};
    var i := 0;
    while i < |rows|
      invariant 0 <= i <= |rows|
      invariant forall id :: id in nextIds <==> IsNext(rows[..i], id)
    {
      if Truthy(rows[i].next) {
        nextIds := nextIds + {rows[i].next.value};
      }
      NextGrows(rows, i);
      i := i + 1;
    }
    assert rows[..i] == rows;
    i := 0;
    while i < |rows|
      invariant 0 <= i <= |rows|
      invariant forall j :: 0 <= j < i ==> IsNext(rows, rows[j].id)
    {
      if rows[i].id !in nextIds {
        assert FirstAt(rows, i);
        return Some(rows[i].id);
      }
      i := i + 1;
    }
    return None;
  }

  lemma NextGrows(rows: seq<Stage>, i: nat)
    requires i < |rows|
    ensures forall id :: IsNext(rows[..i + 1], id) <==>
              IsNext(rows[..i], id) || (Truthy(rows[i].next) && rows[i].next.value == id)
  {
    var a, b := rows[..i], rows[..i + 1];
    forall id ensures IsNext(b, id) <==> IsNext(a, id) || (Truthy(rows[i].next) && rows[i].next.value == id) {
      if IsNext(a, id) {
        var j :| 0 <= j < |a| && Truthy(a[j].next) && a[j].next.value == id;
        assert b[j] == a[j];
      }
      if Truthy(rows[i].next) && rows[i].next.value == id {
        assert b[i] == rows[i];
      }
      if IsNext(b, id) {
        var j :| 0 <= j < |b| && Truthy(b[j].next) && b[j].next.value == id;
        assert j < i ==> a[j] == b[j];
      }
    }
  }

  // ----- the index: the last row of an id wins

  function Index(rows: seq<Stage>): (m: map<string, Stage>)
    ensures forall id :: id in m ==> m[id].id == id && m[id] in rows
    ensures forall s :: s in rows ==> s.id in m
  {
    if rows == [] then map[]
    else
      var k := |rows| - 1;
      assert rows == rows[..k] + [rows[k]];
      Index(rows[..k])[rows[k].id := rows[k]]
  }

  /** No later row has the id of row `i`. */
  predicate LastOfItsId(rows: seq<Stage>, i: nat)
    requires i < |rows|
  {
    forall j :: i < j < |rows| ==> rows[j].id != rows[i].id
  }

  lemma {:induction false} LastRowWins(rows: seq<Stage>, i: nat)
    requires i < |rows| && LastOfItsId(rows, i)
    ensures rows[i].id in Index(rows) && Index(rows)[rows[i].id] == rows[i]
  {
    var k := |rows| - 1;
    if i < k {
      LastRowWins(rows[..k], i);
    }
  }

  method IndexStagesById(rows: seq<Stage>) returns (m: map<string, Stage>)
    ensures m == Index(rows)
    ensures forall id :: id in m <==> exists i :: 0 <= i < |rows| && rows[i].id == id
    ensures forall i :: 0 <= i < |rows| && LastOfItsId(rows, i) ==> rows[i].id in m && m[rows[i].id] == rows[i]
  {
    m := map[];
    var i := 0;
    while i < |rows|
      invariant 0 <= i <= |rows| && m == Index(rows[..i])
    {
      assert rows[..i + 1][..i] == rows[..i];
      m := m[rows[i].id := rows[i]];
      i := i + 1;
    }
    assert rows[..i] == rows;
    forall k | 0 <= k < |rows| && LastOfItsId(rows, k) ensures rows[k].id in m && m[rows[k].id] == rows[k] {
      LastRowWins(rows, k);
    }
    forall k | 0 <= k < |rows| ensures rows[k].id in m {
      assert rows[k] in rows;
    }
  }

  // ----- following the successors

  function Follow(m: map<string, Stage>, cursor: Option<string>, visited: set<string>): seq<Stage>
    decreases m.Keys - visited
  {
    if !Truthy(cursor) || cursor.value in visited || cursor.value !in m then []
    else [m[cursor.value]] + Follow(m, m[cursor.value].next, visited + {cursor.value})
  }

  function Ordered(m: map<string, Stage>, first: Option<string>): seq<Stage> {
    Follow(m, first, {})
  }

  method OrderStagesFromFirst(m: map<string, Stage>, first: Option<string>) returns (ordered: seq<Stage>)
    ensures ordered == Ordered(m, first)
  {
    ordered := [];
    var visited: set<string> := {};
    var cursor := first;
    while Truthy(cursor) && cursor.value !in visited
      invariant visited <= m.Keys
      invariant Ordered(m, first) == ordered + Follow(m, cursor, visited)
      decreases m.Keys - visited
    {
      if cursor.value !in m {
        break;
      }
      var stage := m[cursor.value];
      ordered := ordered + [stage];
      visited := visited + {cursor.value};
      cursor := stage.next;
    }
  }

  /** Stages follow one another by their successor links. */
  predicate Linked(stages: seq<Stage>) {
    forall i :: 0 <= i < |stages| - 1 ==> stages[i].next == Some(stages[i + 1].id)
  }

  predicate DistinctIds(stages: seq<Stage>) {
    forall i, j :: 0 <= i < j < |stages| ==> stages[i].id != stages[j].id
  }

  /** Following the links from anywhere, on any graph, ends with distinct linked stages. */
  lemma {:induction false} FollowSound(rows: seq<Stage>, cursor: Option<string>, visited: set<string>)
    ensures var r := Follow(Index(rows), cursor, visited);
      && Linked(r) && DistinctIds(r)
      && (forall i :: 0 <= i < |r| ==> r[i].id !in visited && r[i] in rows)
      && (r != [] ==> cursor == Some(r[0].id))
    decreases Index(rows).Keys - visited
  {
    var m := Index(rows);
    if Truthy(cursor) && cursor.value !in visited && cursor.value in m {
      var stage := m[cursor.value];
      FollowSound(rows, stage.next, visited + {cursor.value});
      var rest := Follow(m, stage.next, visited + {cursor.value});
      assert forall i :: 0 < i < |[stage] + rest| ==> ([stage] + rest)[i] == rest[i - 1];
    }
  }

  /** Where following the links ends: the successor of the last listed stage, or the start. */
  function EndOf(r: seq<Stage>, cursor: Option<string>): Option<string> {
    if r == [] then cursor else r[|r| - 1].next
  }

  ghost predicate Listed(r: seq<Stage>, id: string) {
    exists i :: 0 <= i < |r| && r[i].id == id
  }

  /** It stops only where the next stage is missing, unknown, or already visited. */
  lemma {:induction false} FollowMaximal(m: map<string, Stage>, cursor: Option<string>, visited: set<string>)
    requires forall id :: id in m ==> m[id].id == id
    ensures var r := Follow(m, cursor, visited);
      var end := EndOf(r, cursor);
      !Truthy(end) || end.value !in m || end.value in visited || Listed(r, end.value)
    decreases m.Keys - visited
  {
    if Truthy(cursor) && cursor.value !in visited && cursor.value in m {
      var stage := m[cursor.value];
      var seen := visited + {cursor.value};
      FollowMaximal(m, stage.next, seen);
      var rest := Follow(m, stage.next, seen);
      var r := [stage] + rest;
      var end := EndOf(rest, stage.next);
      assert EndOf(r, cursor) == end;
      assert r[0].id == cursor.value;
      if Truthy(end) && Listed(rest, end.value) {
        var i :| 0 <= i < |rest| && rest[i].id == end.value;
        assert r[i + 1].id == end.value;
      }
    }
  }

  // ----- one chain in any row order

  predicate Chain(c: seq<Stage>) {
    && c != [] && Linked(c) && DistinctIds(c)
    && (forall i :: 0 <= i < |c| ==> |c[i].id| > 0)
    && !Truthy(c[|c| - 1].next)
  }

  ghost predicate SameRows(rows: seq<Stage>, c: seq<Stage>) {
    forall s :: s in rows <==> s in c
  }

  lemma {:induction false} IndexOfChain(rows: seq<Stage>, c: seq<Stage>, i: nat)
    requires Chain(c) && SameRows(rows, c) && i < |c|
    ensures c[i].id in Index(rows) && Index(rows)[c[i].id] == c[i]
  {
    assert c[i] in rows;
    var s := Index(rows)[c[i].id];
    assert s in c;
    var j :| 0 <= j < |c| && c[j] == s;
  }

  lemma FollowOne(m: map<string, Stage>, id: string, visited: set<string>)
    requires |id| > 0 && id in m && id !in visited
    ensures Follow(m, Some(id), visited) == [m[id]] + Follow(m, m[id].next, visited + {id})
  {
  }

  function IdsBefore(c: seq<Stage>, k: nat): (ids: set<string>)
    requires k <= |c|
  {
    set i | 0 <= i < k :: c[i].id
  }

  /** Following the links from stage `i` lists it and goes on with the next stage, if any. */
  predicate FollowsAt(m: map<string, Stage>, c: seq<Stage>, i: nat)
    requires i < |c|
  {
    Follow(m, Some(c[i].id), IdsBefore(c, i))
      == [c[i]] + if i + 1 < |c| then Follow(m, Some(c[i + 1].id), IdsBefore(c, i + 1)) else []
  }

  lemma ChainAt(rows: seq<Stage>, c: seq<Stage>, k: nat)
    requires Chain(c) && SameRows(rows, c) && k < |c|
    ensures FollowsAt(Index(rows), c, k)
  {
    IndexOfChain(rows, c, k);
    FollowOne(Index(rows), c[k].id, IdsBefore(c, k));
    assert IdsBefore(c, k + 1) == IdsBefore(c, k) + {c[k].id};
  }

  lemma {:induction false} FollowAll(m: map<string, Stage>, c: seq<Stage>, k: nat)
    requires k < |c| && forall i :: k <= i < |c| ==> FollowsAt(m, c, i)
    ensures Follow(m, Some(c[k].id), IdsBefore(c, k)) == c[k..]
    decreases |c| - k
  {
    assert FollowsAt(m, c, k);
    if k + 1 < |c| {
      FollowAll(m, c, k + 1);
    }
  }

  /** When the rows form one chain, following the links from its first stage lists the chain. */
  lemma FollowChain(rows: seq<Stage>, c: seq<Stage>)
    requires Chain(c) && SameRows(rows, c)
    ensures Ordered(Index(rows), Some(c[0].id)) == c
  {
    forall i | 0 <= i < |c| ensures FollowsAt(Index(rows), c, i) {
      ChainAt(rows, c, i);
    }
    FollowAll(Index(rows), c, 0);
    assert IdsBefore(c, 0) == {} && c[0..] == c;
  }

  /** In a chain every stage but the first is a successor. */
  lemma {:induction false} NextInChain(rows: seq<Stage>, c: seq<Stage>, k: nat)
    requires Chain(c) && SameRows(rows, c) && k < |c|
    ensures IsNext(rows, c[k].id) <==> k > 0
  {
    if k > 0 {
      assert c[k - 1] in rows;
      var q :| 0 <= q < |rows| && rows[q] == c[k - 1];
      assert c[k - 1].next == Some(c[k].id) && Truthy(Some(c[k].id));
      assert Truthy(rows[q].next) && rows[q].next.value == c[k].id;
    }
    if IsNext(rows, c[k].id) {
      var i :| 0 <= i < |rows| && Truthy(rows[i].next) && rows[i].next.value == c[k].id;
      assert rows[i] in c;
      var j :| 0 <= j < |c| && c[j] == rows[i];
      assert j != |c| - 1;
      assert c[j].next == Some(c[j + 1].id) && c[j + 1].id == c[k].id;
    }
  }

  lemma FirstOfChain(rows: seq<Stage>, c: seq<Stage>, first: Option<string>)
    requires Chain(c) && SameRows(rows, c)
    requires first.None? ==> forall i :: 0 <= i < |rows| ==> IsNext(rows, rows[i].id)
    requires first.Some? ==> exists i :: 0 <= i < |rows| && FirstAt(rows, i) && rows[i].id == first.value
    ensures first == Some(c[0].id)
  {
    assert c[0] in rows;
    NextInChain(rows, c, 0);
    if first.Some? {
      var i :| 0 <= i < |rows| && FirstAt(rows, i) && rows[i].id == first.value;
      assert rows[i] in c;
      var j :| 0 <= j < |c| && c[j] == rows[i];
      NextInChain(rows, c, j);
    }
  }

  // ----- the target

  /** The furthest listed stage that is completed. */
  method FindHighestReachedStageId(ordered: seq<Stage>, completed: set<string>) returns (id: Option<string>)
    ensures id.None? <==> forall i :: 0 <= i < |ordered| ==> ordered[i].id !in completed
    ensures id.Some? ==>
              exists k :: 0 <= k < |ordered| && FurthestAt(ordered, completed, k) && ordered[k].id == id.value
  {
    var i := |ordered|;
    while i > 0
      invariant 0 <= i <= |ordered|
      invariant forall j :: i <= j < |ordered| ==> ordered[j].id !in completed
    {
      if ordered[i - 1].id in completed {
        assert FurthestAt(ordered, completed, i - 1);
        return Some(ordered[i - 1].id);
      }
      i := i - 1;
    }
    return None;
  }

  predicate FurthestAt(ordered: seq<Stage>, completed: set<string>, k: nat)
    requires k < |ordered|
  {
    ordered[k].id in completed && forall j :: k < j < |ordered| ==> ordered[j].id !in completed
  }

  function ComputeTargetStageId(current: Option<string>, m: map<string, Stage>, first: Option<string>): Option<string> {
    if Truthy(current) && current.value in m && Truthy(m[current.value].next) then m[current.value].next else first
  }

  ghost predicate TargetMeaning(c: seq<Stage>, completed: set<string>, target: Option<string>)
    requires c != []
  {
    && (forall k :: 0 <= k < |c| - 1 && FurthestAt(c, completed, k) ==> target == Some(c[k + 1].id))
    && ((forall k :: 0 <= k < |c| ==> c[k].id !in completed) ==> target == Some(c[0].id))
    && (c[|c| - 1].id in completed ==> target == Some(c[0].id))
  }

  /** From the rows and the completed stages to the target, as the caller composes the steps. */
  method TargetStage(rows: seq<Stage>, completed: set<string>) returns (ordered: seq<Stage>, target: Option<string>)
    ensures Linked(ordered) && DistinctIds(ordered)
    ensures forall c: seq<Stage> :: Chain(c) && SameRows(rows, c) ==>
        ordered == c && TargetMeaning(c, completed, target)
  {
    var first := ComputeFirstStageId(rows);
    var m := IndexStagesById(rows);
    ordered := OrderStagesFromFirst(m, first);
    FollowSound(rows, first, {});
    var current := FindHighestReachedStageId(ordered, completed);
    target := ComputeTargetStageId(current, m, first);
    forall c: seq<Stage> | Chain(c) && SameRows(rows, c)
      ensures ordered == c && TargetMeaning(c, completed, target)
    {
      FirstOfChain(rows, c, first);
      FollowChain(rows, c);
      TargetOfChain(rows, c, completed, current);
    }
  }

  lemma FurthestIsUnique(c: seq<Stage>, completed: set<string>, j: nat, k: nat)
    requires j < |c| && k < |c| && FurthestAt(c, completed, j) && FurthestAt(c, completed, k)
    ensures j == k
  {
  }

  /** The successor of a stage of the chain, or the first stage after the last. */
  lemma SuccessorInChain(rows: seq<Stage>, c: seq<Stage>, k: nat)
    requires Chain(c) && SameRows(rows, c) && k < |c|
    ensures ComputeTargetStageId(Some(c[k].id), Index(rows), Some(c[0].id))
         == Some(c[if k + 1 < |c| then k + 1 else 0].id)
  {
    IndexOfChain(rows, c, k);
    if k + 1 < |c| {
      assert c[k].next == Some(c[k + 1].id);
    }
  }

  /** The successor of the furthest completed stage; the first stage when none is completed or the last one is. */
  lemma TargetOfChain(rows: seq<Stage>, c: seq<Stage>, completed: set<string>, current: Option<string>)
    requires Chain(c) && SameRows(rows, c)
    requires current.None? <==> forall i :: 0 <= i < |c| ==> c[i].id !in completed
    requires current.Some? ==> exists k :: 0 <= k < |c| && FurthestAt(c, completed, k) && c[k].id == current.value
    ensures TargetMeaning(c, completed, ComputeTargetStageId(current, Index(rows), Some(c[0].id)))
  {
    if current.Some? {
      var k :| 0 <= k < |c| && FurthestAt(c, completed, k) && c[k].id == current.value;
      SuccessorInChain(rows, c, k);
      TargetAt(c, completed, k, ComputeTargetStageId(current, Index(rows), Some(c[0].id)));
    }
  }

  lemma TargetAt(c: seq<Stage>, completed: set<string>, k: nat, target: Option<string>)
    requires k < |c| && FurthestAt(c, completed, k)
    requires target == Some(c[if k + 1 < |c| then k + 1 else 0].id)
    ensures TargetMeaning(c, completed, target)
  {
    forall j | 0 <= j < |c| - 1 && FurthestAt(c, completed, j) ensures target == Some(c[j + 1].id) {
      FurthestIsUnique(c, completed, j, k);
    }
  }
}
