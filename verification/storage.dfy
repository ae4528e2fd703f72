/**
 * The storage adapter: the whole task list lives under one key of the
 * browser's key-value store, as JSON text. JSON (de)serialisation is left
 * out; the model sees what the text parses to.
 */
module Storage {
  import opened Tasks

  /**
   * What the stored text parses to. `Unset` stands for an absent key and for
   * every stored value that parses to something falsy (`null`, `false`, `0`,
   * `""`); `Holds` is a stored task list.
   */
  datatype Stored = Unset | Holds(tasks: seq<Task>)

  /** Reads the list; `Unset` falls back to the empty list. */
  function Load(stored: Stored): (ts: seq<Task>)
    ensures stored.Unset? ==> ts == []
    ensures stored.Holds? ==> ts == stored.tasks
  {
    match stored
    case Unset => []
    case Holds(ts) => ts
  }

  /** Overwrites the stored value with the whole list. */
  function Save(ts: seq<Task>): (stored: Stored)
    ensures stored.Holds?
    ensures Load(stored) == ts
  {
    Holds(ts)
  }

  /** Saving after loading changes nothing once a list has been stored. */
  lemma SaveLoadStable(stored: Stored)
    requires stored.Holds?
    ensures Save(Load(stored)) == stored
  {
  }
}
