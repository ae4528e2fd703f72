/**
 * The rendering decisions of the board: which lane a card goes to, and
 * which emphasis a card gets from its due day. Element construction, CSS
 * classes and drag helpers are not modelled.
 */
module Render {
  import opened Tasks

  datatype Lane = TodoLane | InProgressLane | DoneLane

  /**
   * The lane a status is drawn in: "to-do" and "in-progress" have their
   * own lanes and every other status falls through to the done lane.
   */
  function LaneOf(s: Status): (l: Lane)
    ensures l == TodoLane <==> Label(s) == "to-do"
    ensures l == InProgressLane <==> Label(s) == "in-progress"
  {
    match s
    case ToDo => TodoLane
    case InProgress => InProgressLane
    case _ => DoneLane
  }

  /** The id of a lane's container element, which a drop reports as the new status. */
  function LaneId(l: Lane): string {
    match l
    case TodoLane => "to-do"
    case InProgressLane => "in-progress"
    case DoneLane => "done"
  }

  /** Dropping on a lane sets a status that is drawn in that same lane. */
  lemma DropTargetRoundTrip(l: Lane)
    ensures LaneOf(ParseStatus(LaneId(l))) == l
  {
  }

  /** The tasks drawn in lane `l`, in list order (the reference partition). */
  function InLane(ts: seq<Task>, l: Lane): (r: seq<Task>)
    decreases |ts|
  {
    if ts == [] then []
    else
      var last := ts[|ts| - 1];
      InLane(ts[..|ts| - 1], l) + (if LaneOf(last.status) == l then [last] else [])
  }

  /** The three lane containers after a redraw. */
  datatype Board = Board(todo: seq<Task>, inProgress: seq<Task>, done: seq<Task>)

  /**
   * The redraw loop: empties the three lanes, then appends each task's card
   * to the lane of its status, in list order.
   */
  method PrintProjectData(ts: seq<Task>) returns (b: Board)
    ensures b.todo == InLane(ts, TodoLane)
    ensures b.inProgress == InLane(ts, InProgressLane)
    ensures b.done == InLane(ts, DoneLane)
    ensures |b.todo| + |b.inProgress| + |b.done| == |ts|
  {
    var todo, inProgress, done := [], [], [];
    for k := 0 to |ts|
      invariant todo == InLane(ts[..k], TodoLane)
      invariant inProgress == InLane(ts[..k], InProgressLane)
      invariant done == InLane(ts[..k], DoneLane)
    {
      assert ts[..k + 1][..k] == ts[..k];
      var t := ts[k];
      match LaneOf(t.status)
      case TodoLane => todo := todo + [t];
      case InProgressLane => inProgress := inProgress + [t];
      case DoneLane => done := done + [t];
    }
    assert ts[..|ts|] == ts;
    b := Board(todo, inProgress, done);
    LanesPartition(ts);
  }

  /** The lanes split the list: sizes add up and no card is lost or doubled. */
  lemma LanesPartition(ts: seq<Task>)
    ensures |InLane(ts, TodoLane)| + |InLane(ts, InProgressLane)| + |InLane(ts, DoneLane)| == |ts|
    ensures multiset(InLane(ts, TodoLane)) + multiset(InLane(ts, InProgressLane))
            + multiset(InLane(ts, DoneLane)) == multiset(ts)
  {
    LaneSizesAddUp(ts);
    LaneMultisetsAddUp(ts);
  }

  lemma {:induction false} LaneSizesAddUp(ts: seq<Task>)
    ensures |InLane(ts, TodoLane)| + |InLane(ts, InProgressLane)| + |InLane(ts, DoneLane)| == |ts|
    decreases |ts|
  {
    if ts != [] {
      var init, last := ts[..|ts| - 1], ts[|ts| - 1];
      LaneSizesAddUp(init);
      match LaneOf(last.status) {
        case TodoLane =>
          assert |InLane(ts, TodoLane)| == |InLane(init, TodoLane)| + 1;
        case InProgressLane =>
          assert |InLane(ts, InProgressLane)| == |InLane(init, InProgressLane)| + 1;
        case DoneLane =>
          assert |InLane(ts, DoneLane)| == |InLane(init, DoneLane)| + 1;
      }
    }
  }

  lemma {:induction false} LaneMultisetsAddUp(ts: seq<Task>)
    ensures multiset(InLane(ts, TodoLane)) + multiset(InLane(ts, InProgressLane))
            + multiset(InLane(ts, DoneLane)) == multiset(ts)
    decreases |ts|
  {
    if ts != [] {
      LaneMultisetsAddUp(ts[..|ts| - 1]);
      LaneMultisetsSnoc(ts);
    }
  }

  /** The last task of a list adds itself to exactly one lane's multiset. */
  lemma LaneMultisetsSnoc(ts: seq<Task>)
    requires ts != []
    ensures var init, last := ts[..|ts| - 1], ts[|ts| - 1];
      && multiset(ts) == multiset(init) + multiset{last}
      && multiset(InLane(ts, TodoLane)) + multiset(InLane(ts, InProgressLane))
         + multiset(InLane(ts, DoneLane))
      == multiset(InLane(init, TodoLane)) + multiset(InLane(init, InProgressLane))
         + multiset(InLane(init, DoneLane)) + multiset{last}
  {
    var init, last := ts[..|ts| - 1], ts[|ts| - 1];
    assert ts == init + [last];
  }

  /** A task is drawn in a lane exactly when it is in the list and its status belongs there. */
  lemma {:induction false} InLaneMembership(ts: seq<Task>, l: Lane, t: Task)
    ensures t in InLane(ts, l) <==> t in ts && LaneOf(t.status) == l
    decreases |ts|
  {
    if ts != [] {
      var init := ts[..|ts| - 1];
      InLaneMembership(init, l, t);
      assert ts == init + [ts[|ts| - 1]];
    }
  }

  /** Every task of the list is drawn in its own lane and in no other. */
  lemma ExactlyOneLane(ts: seq<Task>, k: nat, l: Lane)
    requires k < |ts|
    ensures ts[k] in InLane(ts, l) <==> l == LaneOf(ts[k].status)
  {
    InLaneMembership(ts, l, ts[k]);
  }

  /** Each lane keeps the cards in the order of the list. */
  lemma {:induction false} InLaneKeepsOrder(ts: seq<Task>, l: Lane, i: nat, j: nat)
    requires i < j < |ts|
    requires LaneOf(ts[i].status) == l && LaneOf(ts[j].status) == l
    ensures exists p, q :: 0 <= p < q < |InLane(ts, l)| && InLane(ts, l)[p] == ts[i] && InLane(ts, l)[q] == ts[j]
    decreases |ts|
  {
    var init, last := ts[..|ts| - 1], ts[|ts| - 1];
    var before := InLane(init, l);
    var lane := InLane(ts, l);
    assert lane == before + (if LaneOf(last.status) == l then [last] else []);
    assert ts[i] == init[i];
    if j < |ts| - 1 {
      assert ts[j] == init[j];
      InLaneKeepsOrder(init, l, i, j);
      var p, q :| 0 <= p < q < |before| && before[p] == init[i] && before[q] == init[j];
      assert lane[p] == before[p] && lane[q] == before[q];
    } else {
      assert lane == before + [last];
      InLaneMembership(init, l, ts[i]);
      var p :| 0 <= p < |before| && before[p] == ts[i];
      assert lane[p] == ts[i] && lane[|before|] == ts[j];
    }
  }

  // ---------------------------------------------------------------------
  // Urgency of a card
  // ---------------------------------------------------------------------

  /** The emphasis a card gets: none, due today (warning), or overdue (danger). */
  datatype Urgency = Calm | Warning | Danger

  /**
   * Only tasks with a due date and a status other than "done" are
   * emphasised; the same-day test comes before the overdue test. A date
   * the date library cannot read compares as neither.
   */
  function UrgencyOf(t: Task, today: Day): (u: Urgency)
    ensures t.status == Done || !t.due.DueOn? ==> u == Calm
    ensures u == Warning <==> t.status != Done && t.due == DueOn(today)
    ensures u == Danger <==> t.status != Done && t.due.DueOn? && t.due.day < today
    ensures u == Calm <==> t.status == Done || !t.due.DueOn? || t.due.day > today
  {
    if t.due.NoDueDate? || t.status == Done then Calm
    else if t.due == DueOn(today) then Warning
    else if t.due.DueOn? && today > t.due.day then Danger
    else Calm
  }

  /** The styling decisions of one card: its emphasis, and whether its delete action gets a light border. */
  datatype CardStyle = CardStyle(emphasis: Urgency, lightBorder: bool)

  function StyleOf(t: Task, today: Day): (c: CardStyle)
    ensures c.emphasis == UrgencyOf(t, today)
    ensures c.lightBorder <==> t.status != Done && t.due.DueOn? && t.due.day < today
  {
    var u := UrgencyOf(t, today);
    CardStyle(u, u == Danger)
  }

  /** A warning card never gets the light border; only an overdue one does. */
  lemma LightBorderOnlyWhenOverdue(t: Task, today: Day)
    ensures StyleOf(t, today).lightBorder <==> StyleOf(t, today).emphasis == Danger
    ensures StyleOf(t, today).emphasis == Warning ==> !StyleOf(t, today).lightBorder
  {
  }
}
