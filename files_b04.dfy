/** The fourth version's file: a state field with precondition checks. */
module FilesB04 {
  import opened Common

  datatype FileState = OPEN | CLOSED | DELETED

  class File {
    var state: FileState

    /** DELETED is declared but never assigned. */
    predicate Valid()
      reads this
    {
      state != DELETED
    }

    /** A new file is closed. */
    constructor()
      ensures state == CLOSED && Valid()
    {
      state := CLOSED;
    }

    function DoGetFileState(): (r: FileState)
      reads this
      ensures r == state
    {
      state
    }

    /** Only a closed file can be opened. */
    method Open() returns (s: Status)
      modifies this
      requires Valid()
      ensures Valid()
      ensures old(state) == CLOSED ==> s == Done && state == OPEN
      ensures old(state) != CLOSED ==> s == Failed(IllegalArgument) && state == old(state)
    {
      if DoGetFileState() != CLOSED {
        return Failed(IllegalArgument);
      }
      state := OPEN;
      return Done;
    }

    /** Only an open file can be read; whatever the count, nothing is read. */
    function Read(noBytes: int): (r: Result<seq<int>>)
      reads this
      ensures r.Ok? <==> state == OPEN
      ensures r.Ok? ==> r.value == []
      ensures r.Err? ==> r.error == IllegalArgument
    {
      if DoGetFileState() != OPEN then Err(IllegalArgument) else Ok([])
    }

    /** Only an open file can be closed. */
    method Close() returns (s: Status)
      modifies this
      requires Valid()
      ensures Valid()
      ensures old(state) == OPEN ==> s == Done && state == CLOSED
      ensures old(state) != OPEN ==> s == Failed(IllegalArgument) && state == old(state)
    {
      if DoGetFileState() != OPEN {
        return Failed(IllegalArgument);
      }
      state := CLOSED;
      return Done;
    }
  }

  /** Opening twice fails, and a closed file can be opened again. */
  method Reopen() returns (first: Status, second: Status, again: Status, read: Result<seq<int>>)
    ensures first == Done && second == Failed(IllegalArgument) && again == Done
    ensures read == Ok([])
  {
    var f := new File();
    first := f.Open();
    second := f.Open();
    var s := f.Close();
    again := f.Open();
    read := f.Read(8);
  }
}
