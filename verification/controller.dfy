/**
 * The board's event handlers. Each one loads the whole list, applies one
 * repository operation and saves the whole list back; the redraw that
 * follows is `Render.PrintProjectData` on the saved list.
 */
module Controller {
  import opened Tasks
  import opened Storage
  import opened Repository
  import opened Render

  /** Form submit: a new "to-do" task with a generated id is appended. */
  function Submit(stored: Stored, id: Id, name: string, kind: string, due: DueDate): (after: Stored)
    ensures after.Holds?
    ensures |Load(after)| == |Load(stored)| + 1
    ensures Load(after)[..|Load(stored)|] == Load(stored)
    ensures Load(after)[|Load(stored)|] == Task(id, name, kind, due, ToDo)
  {
    Save(Add(Load(stored), id, name, kind, due))
  }

  /** Delete click: the delete loop runs over the stored list. */
  function Delete(stored: Stored, id: Id): (after: Stored)
    ensures after.Holds?
    ensures Without(Load(after), id) == Without(Load(stored), id)
    ensures IsSubsequence(Load(after), Load(stored))
  {
    SpliceRemoveKeepsOthers(Load(stored), id);
    Save(SpliceRemove(Load(stored), id))
  }

  /** Drop on a lane: the lane element's id becomes the status of the dragged task. */
  function Drop(stored: Stored, id: Id, laneId: string): (after: Stored)
    ensures after.Holds?
    ensures |Load(after)| == |Load(stored)|
    ensures forall k :: 0 <= k < |Load(stored)| ==>
      Load(after)[k] == (if Load(stored)[k].id == id
                         then Load(stored)[k].(status := ParseStatus(laneId))
                         else Load(stored)[k])
  {
    Save(SetStatus(Load(stored), id, ParseStatus(laneId)))
  }

  /** Deleting an id nobody has leaves the stored list as it was. */
  lemma DeleteAbsentNoOp(stored: Stored, id: Id)
    requires !Contains(Load(stored), id)
    ensures Load(Delete(stored, id)) == Load(stored)
  {
    SpliceRemoveAbsent(Load(stored), id);
  }

  /** Dropping a card whose id nobody has rewrites the same list. */
  lemma DropAbsentNoOp(stored: Stored, id: Id, laneId: string)
    requires !Contains(Load(stored), id)
    ensures Load(Drop(stored, id, laneId)) == Load(stored)
  {
    SetStatusAbsent(Load(stored), id, ParseStatus(laneId));
  }

  /** A submitted task deleted by its id leaves the list it was added to. */
  lemma SubmitThenDelete(stored: Stored, id: Id, name: string, kind: string, due: DueDate)
    requires !Contains(Load(stored), id)
    ensures Load(Delete(Submit(stored, id, name, kind, due), id)) == Load(stored)
  {
    AddThenRemove(Load(stored), id, name, kind, due);
  }

  /**
   * With nothing stored, submitting one task gives a one-task list whose
   * task is in the to-do lane, and deleting it by its id stores the empty list.
   */
  lemma SubmitDeleteScenario(id: Id, day: Day)
    ensures var one := Load(Submit(Unset, id, "Write report", "Writing", DueOn(day)));
      one == [Task(id, "Write report", "Writing", DueOn(day), ToDo)]
      && InLane(one, TodoLane) == one
    ensures Delete(Submit(Unset, id, "Write report", "Writing", DueOn(day)), id) == Holds([])
  {
    var one := Load(Submit(Unset, id, "Write report", "Writing", DueOn(day)));
    assert one[..0] == [];
    assert SpliceRemove(one, id) == [];
  }

  /** After a drop on lane `l`, every task with the dropped id is drawn in `l` and in no other lane. */
  lemma DropLandsInLane(stored: Stored, id: Id, l: Lane)
    ensures var ts := Load(Drop(stored, id, LaneId(l)));
      forall k :: 0 <= k < |ts| && ts[k].id == id ==>
        ts[k] in InLane(ts, l) && forall m :: m != l ==> ts[k] !in InLane(ts, m)
  {
    var ts := Load(Drop(stored, id, LaneId(l)));
    forall k | 0 <= k < |ts| && ts[k].id == id
      ensures ts[k] in InLane(ts, l) && forall m :: m != l ==> ts[k] !in InLane(ts, m)
    {
      DropTargetRoundTrip(l);
      forall m ensures ts[k] in InLane(ts, m) <==> m == l {
        ExactlyOneLane(ts, k, m);
      }
    }
  }

  // ---------------------------------------------------------------------
  // Replaying a sequence of user actions
  // ---------------------------------------------------------------------

  datatype Action =
    | SubmitForm(id: Id, name: string, kind: string, due: DueDate)
    | ClickDelete(id: Id)
    | DropOn(id: Id, laneId: string)

  /** One action applied to an in-memory list, with no storage involved. */
  function Apply(ts: seq<Task>, a: Action): seq<Task> {
    match a
    case SubmitForm(id, name, kind, due) => Add(ts, id, name, kind, due)
    case ClickDelete(id) => SpliceRemove(ts, id)
    case DropOn(id, laneId) => SetStatus(ts, id, ParseStatus(laneId))
  }

  function ApplyAll(ts: seq<Task>, actions: seq<Action>): seq<Task>
    decreases |actions|
  {
    if actions == [] then ts else ApplyAll(Apply(ts, actions[0]), actions[1..])
  }

  /** One action run through its handler against the store. */
  function Handle(stored: Stored, a: Action): Stored {
    match a
    case SubmitForm(id, name, kind, due) => Submit(stored, id, name, kind, due)
    case ClickDelete(id) => Delete(stored, id)
    case DropOn(id, laneId) => Drop(stored, id, laneId)
  }

  function HandleAll(stored: Stored, actions: seq<Action>): Stored
    decreases |actions|
  {
    if actions == [] then stored else HandleAll(Handle(stored, actions[0]), actions[1..])
  }

  /** The store after a run of handlers holds what replaying the actions in memory computes. */
  lemma {:induction false} HandleAllMatchesApplyAll(stored: Stored, actions: seq<Action>)
    ensures Load(HandleAll(stored, actions)) == ApplyAll(Load(stored), actions)
    ensures actions != [] ==> HandleAll(stored, actions) == Save(ApplyAll(Load(stored), actions))
    decreases |actions|
  {
    if actions != [] {
      var next := Handle(stored, actions[0]);
      assert Load(next) == Apply(Load(stored), actions[0]);
      HandleAllMatchesApplyAll(next, actions[1..]);
    }
  }

  /** Every submitted id is new to the list at the moment it is added. */
  predicate FreshSubmits(ts: seq<Task>, actions: seq<Action>)
    decreases |actions|
  {
    actions == [] ||
    ((actions[0].SubmitForm? ==> !Contains(ts, actions[0].id))
     && FreshSubmits(Apply(ts, actions[0]), actions[1..]))
  }

  /** Ids stay unique through any run of actions whose submitted ids are fresh. */
  lemma {:induction false} ActionsKeepIdsUnique(ts: seq<Task>, actions: seq<Action>)
    requires UniqueIds(ts) && FreshSubmits(ts, actions)
    ensures UniqueIds(ApplyAll(ts, actions))
    decreases |actions|
  {
    if actions != [] {
      var a := actions[0];
      match a {
        case SubmitForm(id, name, kind, due) =>
        case ClickDelete(id) => SpliceRemoveUniqueTakesOne(ts, id);
        case DropOn(id, laneId) => SetStatusKeepsIds(ts, id, ParseStatus(laneId));
      }
      ActionsKeepIdsUnique(Apply(ts, a), actions[1..]);
    }
  }
}
