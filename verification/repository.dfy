/**
 * The in-memory operations the board's handlers apply to the task list:
 * append a new task, delete by id, and set the status of a task by id.
 */
module Repository {
  import opened Tasks

  // ---------------------------------------------------------------------
  // Reference definitions
  // ---------------------------------------------------------------------

  /** The records of `ts` whose id differs from `id`, in their original order. */
  function Without(ts: seq<Task>, id: Id): (r: seq<Task>)
    ensures |r| <= |ts|
    ensures forall k :: 0 <= k < |r| ==> r[k].id != id
    ensures forall t :: t in r ==> t in ts
  {
    if ts == [] then []
    else if ts[0].id == id then Without(ts[1..], id)
    else [ts[0]] + Without(ts[1..], id)
  }

  /** `a` is `b` with some records left out and the rest kept in order. */
  predicate IsSubsequence(a: seq<Task>, b: seq<Task>)
    decreases |b|
  {
    if a == [] then true
    else if b == [] then false
    else (a[0] == b[0] && IsSubsequence(a[1..], b[1..])) || IsSubsequence(a, b[1..])
  }

  /** Two neighbouring records both carry `id`. */
  predicate AdjacentMatches(ts: seq<Task>, id: Id) {
    exists k :: 0 <= k < |ts| - 1 && ts[k].id == id && ts[k + 1].id == id
  }

  lemma {:induction false} WithoutAbsent(ts: seq<Task>, id: Id)
    requires !Contains(ts, id)
    ensures Without(ts, id) == ts
    decreases |ts|
  {
    if ts != [] {
      assert ts[0].id != id;
      assert !Contains(ts[1..], id) by {
        forall k | 0 <= k < |ts[1..]| ensures ts[1..][k].id != id {
          assert ts[1..][k] == ts[k + 1];
        }
      }
      WithoutAbsent(ts[1..], id);
    }
  }

  /** A suffix of a list with unique ids has unique ids. */
  lemma UniqueTail(ts: seq<Task>)
    requires ts != [] && UniqueIds(ts)
    ensures UniqueIds(ts[1..])
    ensures !Contains(ts[1..], ts[0].id)
  {
    forall i, j | 0 <= i < j < |ts[1..]| ensures ts[1..][i].id != ts[1..][j].id {
      assert ts[1..][i] == ts[i + 1] && ts[1..][j] == ts[j + 1];
    }
    forall k | 0 <= k < |ts[1..]| ensures ts[1..][k].id != ts[0].id {
      assert ts[1..][k] == ts[k + 1];
    }
  }

  /** Filtering a list with unique ids keeps them unique. */
  lemma {:induction false} WithoutKeepsUnique(ts: seq<Task>, id: Id)
    requires UniqueIds(ts)
    ensures UniqueIds(Without(ts, id))
    decreases |ts|
  {
    if ts != [] {
      UniqueTail(ts);
      WithoutKeepsUnique(ts[1..], id);
      if ts[0].id != id {
        var rest := Without(ts[1..], id);
        var r := [ts[0]] + rest;
        forall i, j | 0 <= i < j < |r| ensures r[i].id != r[j].id {
          if i == 0 {
            assert r[j] == rest[j - 1] && rest[j - 1] in ts[1..];
            var k :| 0 <= k < |ts[1..]| && ts[1..][k] == rest[j - 1];
          } else {
            assert r[i] == rest[i - 1] && r[j] == rest[j - 1];
          }
        }
      }
    }
  }

  // ---------------------------------------------------------------------
  // Add
  // ---------------------------------------------------------------------

  /**
   * The form-submit handler's new record: status "to-do", appended after
   * every existing record. The id comes from a UUID generator, so it is
   * fresh in practice; freshness appears below as an assumption.
   */
  function Add(ts: seq<Task>, id: Id, name: string, kind: string, due: DueDate): (r: seq<Task>)
    ensures |r| == |ts| + 1
    ensures r[..|ts|] == ts
    ensures r[|ts|].id == id && r[|ts|].name == name && r[|ts|].kind == kind
    ensures r[|ts|].due == due && r[|ts|].status == ToDo
    ensures Contains(r, id)
    ensures UniqueIds(ts) && !Contains(ts, id) ==> UniqueIds(r)
  {
    var r := ts + [Task(id, name, kind, due, ToDo)];
    assert r[|ts|].id == id;
    r
  }

  // ---------------------------------------------------------------------
  // Remove by id, as the delete handler's loop does it
  // ---------------------------------------------------------------------

  /**
   * What the delete loop leaves. It walks the list with an index that it
   * advances even after removing the record at that index, so the record
   * that slides into the freed slot is never examined: after each removal
   * the next record survives whatever its id.
   */
  function SpliceRemove(ts: seq<Task>, id: Id): seq<Task>
    decreases |ts|
  {
    if ts == [] then []
    else if ts[0].id != id then [ts[0]] + SpliceRemove(ts[1..], id)
    else if |ts| == 1 then []
    else [ts[1]] + SpliceRemove(ts[2..], id)
  }

  /**
   * The delete loop never drops a record whose id differs from the target,
   * and what it leaves is the input with some records left out, in order.
   */
  lemma {:induction false} SpliceRemoveKeepsOthers(ts: seq<Task>, id: Id)
    ensures Without(SpliceRemove(ts, id), id) == Without(ts, id)
    ensures IsSubsequence(SpliceRemove(ts, id), ts)
    decreases |ts|
  {
    if ts == [] {
    } else if ts[0].id != id {
      var rest := SpliceRemove(ts[1..], id);
      SpliceRemoveKeepsOthers(ts[1..], id);
      assert ([ts[0]] + rest)[1..] == rest;
    } else if |ts| > 1 {
      var rest := SpliceRemove(ts[2..], id);
      SpliceRemoveKeepsOthers(ts[2..], id);
      assert ts[1..][1..] == ts[2..];
      assert ([ts[1]] + rest)[1..] == rest;
    }
  }

  /** The delete loop itself, splicing out of the list it walks. */
  method RemoveById(ts: seq<Task>, id: Id) returns (r: seq<Task>)
    ensures r == SpliceRemove(ts, id)
    ensures Without(r, id) == Without(ts, id)
    ensures IsSubsequence(r, ts)
  {
    r := ts;
    var i := 0;
    while i < |r|
      invariant 0 <= i <= |r| + 1
      invariant Walked(r, i, id) == SpliceRemove(ts, id)
      decreases |r| + 1 - i
    {
      if r[i].id == id {
        SpliceStepRemove(r, i, id);
        r := r[..i] + r[i + 1..];
      } else {
        SpliceStepKeep(r, i, id);
      }
      i := i + 1;
    }
    WalkedDone(r, i, id);
    SpliceRemoveKeepsOthers(ts, id);
  }

  /**
   * What the delete loop will have left once it finishes, seen from list
   * `r` and index `i`: the prefix it has passed, then the rest processed.
   * The index overshoots the length by one when the last record is spliced.
   */
  function Walked(r: seq<Task>, i: nat, id: Id): seq<Task>
    requires i <= |r| + 1
  {
    if i <= |r| then r[..i] + SpliceRemove(r[i..], id) else r
  }

  /** Once the index has passed the end, nothing is left to process. */
  lemma WalkedDone(r: seq<Task>, i: nat, id: Id)
    requires |r| <= i <= |r| + 1
    ensures Walked(r, i, id) == r
  {
    if i == |r| {
      assert r[..i] == r && r[i..] == [];
    }
  }

  lemma SpliceStepKeep(r: seq<Task>, i: nat, id: Id)
    requires i < |r| && r[i].id != id
    ensures Walked(r, i + 1, id) == Walked(r, i, id)
  {
    assert r[i..][1..] == r[i + 1..];
    assert r[..i + 1] == r[..i] + [r[i]];
  }

  lemma SpliceStepRemove(r: seq<Task>, i: nat, id: Id)
    requires i < |r| && r[i].id == id
    ensures Walked(r[..i] + r[i + 1..], i + 1, id) == Walked(r, i, id)
  {
    var r' := r[..i] + r[i + 1..];
    if i + 1 < |r| {
      assert r[i..][1..][1..] == r[i + 2..];
      assert r[i..][1] == r[i + 1];
      assert r'[..i + 1] == r[..i] + [r[i + 1]];
      assert r'[i + 1..] == r[i + 2..];
    } else {
      assert r' == r[..i];
      assert SpliceRemove(r[i..], id) == [];
    }
  }

  lemma {:induction false} SpliceRemoveAbsent(ts: seq<Task>, id: Id)
    requires !Contains(ts, id)
    ensures SpliceRemove(ts, id) == ts
    decreases |ts|
  {
    if ts != [] {
      assert ts[0].id != id;
      assert !Contains(ts[1..], id) by {
        forall k | 0 <= k < |ts[1..]| ensures ts[1..][k].id != id {
          assert ts[1..][k] == ts[k + 1];
        }
      }
      SpliceRemoveAbsent(ts[1..], id);
    }
  }

  /** Without two neighbouring matches, the loop removes every match. */
  lemma {:induction false} SpliceRemoveNoAdjacent(ts: seq<Task>, id: Id)
    requires !AdjacentMatches(ts, id)
    ensures SpliceRemove(ts, id) == Without(ts, id)
    decreases |ts|
  {
    if ts == [] {
    } else if ts[0].id != id {
      assert !AdjacentMatches(ts[1..], id) by {
        forall k | 0 <= k < |ts[1..]| - 1
          ensures !(ts[1..][k].id == id && ts[1..][k + 1].id == id)
        {
          assert ts[1..][k] == ts[k + 1] && ts[1..][k + 1] == ts[k + 2];
        }
      }
      SpliceRemoveNoAdjacent(ts[1..], id);
    } else if |ts| > 1 {
      assert ts[1].id != id;
      assert !AdjacentMatches(ts[2..], id) by {
        forall k | 0 <= k < |ts[2..]| - 1
          ensures !(ts[2..][k].id == id && ts[2..][k + 1].id == id)
        {
          assert ts[2..][k] == ts[k + 2] && ts[2..][k + 1] == ts[k + 3];
        }
      }
      SpliceRemoveNoAdjacent(ts[2..], id);
      assert ts[1..][1..] == ts[2..];
    }
  }

  /** Two neighbouring matches always leave a match behind. */
  lemma {:induction false} SpliceRemoveAdjacentLeavesMatch(ts: seq<Task>, id: Id)
    requires AdjacentMatches(ts, id)
    ensures Contains(SpliceRemove(ts, id), id)
    decreases |ts|
  {
    var k :| 0 <= k < |ts| - 1 && ts[k].id == id && ts[k + 1].id == id;
    if ts[0].id != id {
      AdjacentInSuffix(ts, id, k, 1);
      SpliceRemoveAdjacentLeavesMatch(ts[1..], id);
      ContainsCons(ts[0], SpliceRemove(ts[1..], id), id);
    } else if ts[1].id == id {
      ContainsCons(ts[1], SpliceRemove(ts[2..], id), id);
    } else {
      AdjacentInSuffix(ts, id, k, 2);
      SpliceRemoveAdjacentLeavesMatch(ts[2..], id);
      ContainsCons(ts[1], SpliceRemove(ts[2..], id), id);
    }
  }

  /** A neighbouring pair of matches at or after `d` is still there in the suffix from `d`. */
  lemma AdjacentInSuffix(ts: seq<Task>, id: Id, k: nat, d: nat)
    requires d <= k < |ts| - 1 && ts[k].id == id && ts[k + 1].id == id
    ensures AdjacentMatches(ts[d..], id)
  {
    assert ts[d..][k - d] == ts[k] && ts[d..][k - d + 1] == ts[k + 1];
  }

  /** A record placed in front keeps every id of the list, and adds its own. */
  lemma ContainsCons(t: Task, rest: seq<Task>, id: Id)
    requires t.id == id || Contains(rest, id)
    ensures Contains([t] + rest, id)
  {
    if t.id == id {
      assert ([t] + rest)[0] == t;
    } else {
      var j :| 0 <= j < |rest| && rest[j].id == id;
      assert ([t] + rest)[j + 1] == rest[j];
    }
  }

  /**
   * The delete loop removes exactly the matching records if and only if no
   * two matching records are neighbours.
   */
  lemma {:induction false} SpliceRemoveExactIff(ts: seq<Task>, id: Id)
    ensures SpliceRemove(ts, id) == Without(ts, id) <==> !AdjacentMatches(ts, id)
  {
    if AdjacentMatches(ts, id) {
      SpliceRemoveAdjacentLeavesMatch(ts, id);
      var r := SpliceRemove(ts, id);
      var j :| 0 <= j < |r| && r[j].id == id;
      assert r != Without(ts, id);
    } else {
      SpliceRemoveNoAdjacent(ts, id);
    }
  }

  /** With unique ids, the delete loop removes exactly the matching records. */
  lemma {:induction false} SpliceRemoveUnique(ts: seq<Task>, id: Id)
    requires UniqueIds(ts)
    ensures SpliceRemove(ts, id) == Without(ts, id)
  {
    assert !AdjacentMatches(ts, id) by {
      forall k | 0 <= k < |ts| - 1 ensures ts[k].id != ts[k + 1].id {
      }
    }
    SpliceRemoveNoAdjacent(ts, id);
  }

  /** Deleting an id that is present once takes out exactly that one record. */
  lemma {:induction false} SpliceRemoveUniqueTakesOne(ts: seq<Task>, id: Id)
    requires UniqueIds(ts)
    ensures !Contains(SpliceRemove(ts, id), id)
    ensures UniqueIds(SpliceRemove(ts, id))
    ensures Contains(ts, id) ==> |SpliceRemove(ts, id)| == |ts| - 1
  {
    SpliceRemoveUnique(ts, id);
    WithoutKeepsUnique(ts, id);
    if Contains(ts, id) {
      var k :| 0 <= k < |ts| && ts[k].id == id;
      WithoutUniqueCount(ts, id, k);
    }
  }

  lemma {:induction false} WithoutUniqueCount(ts: seq<Task>, id: Id, k: nat)
    requires UniqueIds(ts) && k < |ts| && ts[k].id == id
    ensures |Without(ts, id)| == |ts| - 1
    decreases |ts|
  {
    UniqueTail(ts);
    if k == 0 {
      WithoutAbsent(ts[1..], id);
    } else {
      assert ts[1..][k - 1] == ts[k];
      WithoutUniqueCount(ts[1..], id, k - 1);
    }
  }

  /** A neighbouring duplicate of the deleted id survives the delete loop. */
  lemma AdjacentDuplicateSurvives(a: Task, b: Task)
    requires a.id == b.id
    ensures SpliceRemove([a, b], a.id) == [b]
  {
    assert [a, b][2..] == [];
  }

  /** Adding a fresh record and deleting it again gives the original list. */
  lemma {:induction false} AddThenRemove(ts: seq<Task>, id: Id, name: string, kind: string, due: DueDate)
    requires !Contains(ts, id)
    ensures SpliceRemove(Add(ts, id, name, kind, due), id) == ts
    decreases |ts|
  {
    var r := Add(ts, id, name, kind, due);
    if ts == [] {
      assert r == [Task(id, name, kind, due, ToDo)];
    } else {
      assert ts[0].id != id;
      assert !Contains(ts[1..], id) by {
        forall k | 0 <= k < |ts[1..]| ensures ts[1..][k].id != id {
          assert ts[1..][k] == ts[k + 1];
        }
      }
      AddThenRemove(ts[1..], id, name, kind, due);
      assert r[1..] == Add(ts[1..], id, name, kind, due);
    }
  }

  // ---------------------------------------------------------------------
  // Set status by id, as the drop handler's loop does it
  // ---------------------------------------------------------------------

  /** Every record carrying `id` gets status `s`; nothing else changes. */
  function SetStatus(ts: seq<Task>, id: Id, s: Status): (r: seq<Task>)
    ensures |r| == |ts|
    ensures forall k :: 0 <= k < |ts| && ts[k].id == id ==> r[k] == ts[k].(status := s)
    ensures forall k :: 0 <= k < |ts| && ts[k].id != id ==> r[k] == ts[k]
    decreases |ts|
  {
    if ts == [] then []
    else
      var head := if ts[0].id == id then ts[0].(status := s) else ts[0];
      var rest := SetStatus(ts[1..], id, s);
      assert forall k :: 1 <= k < |ts| ==> ([head] + rest)[k] == rest[k - 1] && ts[1..][k - 1] == ts[k];
      [head] + rest
  }

  /** Setting the status of an absent id leaves the list as it was. */
  lemma SetStatusAbsent(ts: seq<Task>, id: Id, s: Status)
    requires !Contains(ts, id)
    ensures SetStatus(ts, id, s) == ts
  {
  }

  /** Setting a status keeps every id in place, hence keeps ids unique. */
  lemma SetStatusKeepsIds(ts: seq<Task>, id: Id, s: Status)
    ensures forall k :: 0 <= k < |ts| ==> SetStatus(ts, id, s)[k].id == ts[k].id
    ensures UniqueIds(ts) ==> UniqueIds(SetStatus(ts, id, s))
    ensures forall x :: Contains(SetStatus(ts, id, s), x) <==> Contains(ts, x)
  {
    var r := SetStatus(ts, id, s);
    forall k | 0 <= k < |ts| ensures r[k].id == ts[k].id {
    }
  }

  /** Setting the same status twice is the same as setting it once. */
  lemma SetStatusIdempotent(ts: seq<Task>, id: Id, s: Status)
    ensures SetStatus(SetStatus(ts, id, s), id, s) == SetStatus(ts, id, s)
  {
    var r := SetStatus(ts, id, s);
    SetStatusKeepsIds(ts, id, s);
  }
}
