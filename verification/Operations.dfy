/** The edits replicas exchange. */
module Operations {
  import opened Identifiers

  /** One writer's consecutive clocks, both ends included. */
  datatype Span = Span(replica: string, start: nat, end: nat) {
    ghost predicate Holds(x: ID) {
      x.replica == replica && start <= x.clock <= end
    }

    predicate Valid() {
      ValidReplica(replica) && start != 0 && start <= end <= MAX_CLOCK
    }
  }

  /** An insert of text after a character, or a delete of named characters. */
  datatype Op = Op(id: ID, after: ID, text: string, delete: seq<Span>) {

    predicate Valid() {
      var inserting, deleting := text != "", |delete| > 0;
      if inserting == deleting then false
      else if inserting then
        && ValidReplica(id.replica) && id.clock != 0
        && (after == ROOT || (ValidReplica(after.replica) && after.clock != 0))
        && id.clock + |text| <= MAX_CLOCK
      else
        forall i :: 0 <= i < |delete| ==> delete[i].Valid()
    }

    /** The k-th character of an insert takes the k-th clock from the op's own. */
    function CharId(k: nat): ID {
      ID(id.replica, id.clock + k)
    }

    ghost predicate Inserts(x: ID) {
      x.replica == id.replica && id.clock <= x.clock < id.clock + |text|
    }

    /** The first character goes after the op's anchor, each later one after the one before. */
    ghost function ParentOf(x: ID): ID
      requires Inserts(x)
    {
      if x.clock == id.clock then after else ID(x.replica, x.clock - 1)
    }

    ghost function ValueOf(x: ID): char
      requires Inserts(x)
    {
      text[x.clock - id.clock]
    }

    ghost predicate Deletes(x: ID) {
      text == "" && exists i :: 0 <= i < |delete| && delete[i].Holds(x)
    }
  }
}
