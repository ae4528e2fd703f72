/**
 * The task record of the board and the vocabulary shared by every other
 * module: identifiers, statuses, due dates and id-uniqueness.
 */
module Tasks {

  /** Task identifiers are opaque strings (generated as UUIDs by the board). */
  type Id = string

  /** A calendar day, abstracted to a day number; larger is later. */
  type Day = int

  /**
   * The status of a task. The board stores statuses as strings; the three
   * lane names get their own constructors and every other string is kept
   * verbatim in `Other`.
   */
  datatype StatusName = ToDo | InProgress | Done | Other(text: string)

  /** An `Other` label never spells one of the three lane names. */
  predicate Canonical(s: StatusName) {
    s.Other? ==> s.text != "to-do" && s.text != "in-progress" && s.text != "done"
  }

  /** Statuses in canonical form: equal strings are equal statuses. */
  type Status = s: StatusName | Canonical(s) witness ToDo

  /** The string the board stores for a status. */
  function Label(s: StatusName): string {
    match s
    case ToDo => "to-do"
    case InProgress => "in-progress"
    case Done => "done"
    case Other(l) => l
  }

  /** Reads a stored status string (or a lane element's id) as a status. */
  function ParseStatus(name: string): (s: Status)
    ensures Label(s) == name
    ensures s == ToDo <==> name == "to-do"
    ensures s == Done <==> name == "done"
  {
    if name == "to-do" then ToDo
    else if name == "in-progress" then InProgress
    else if name == "done" then Done
    else Other(name)
  }

  /** Parsing the label of a canonical status gives the status back. */
  lemma ParseLabelRoundTrip(s: Status)
    ensures ParseStatus(Label(s)) == s
  {
  }

  /**
   * The due date of a task as the date library sees it: no date entered
   * (the empty string), a string it cannot read, or a day.
   */
  datatype DueDate = NoDueDate | Unreadable | DueOn(day: Day)

  /** One task record; `kind` is the free-text "type" field. */
  datatype Task = Task(id: Id, name: string, kind: string, due: DueDate, status: Status)

  /** Some record of `ts` carries the identifier `id`. */
  predicate Contains(ts: seq<Task>, id: Id) {
    exists k :: 0 <= k < |ts| && ts[k].id == id
  }

  /** No two records of `ts` share an identifier. */
  predicate UniqueIds(ts: seq<Task>) {
    forall i, j :: 0 <= i < j < |ts| ==> ts[i].id != ts[j].id
  }
}
