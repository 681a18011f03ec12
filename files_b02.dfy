/** The second version's object file: an open/closed flag over a buffer of objects. */
module FilesB02 {
  import opened Common

  class ObjFile<T> {
    var data: seq<T>
    var length: nat
    var isOpen: bool

    /** The recorded length is the length of the buffer. */
    predicate Valid()
      reads this
    {
      length == |data|
    }

    /** A new file is closed and empty. */
    constructor()
      ensures Valid() && data == [] && length == 0 && !isOpen
    {
      data := [];
      length := 0;
      isOpen := false;
    }

    function IsEmpty(): (r: bool)
      reads this
      ensures r <==> length == 0
      ensures Valid() ==> (r <==> data == [])
    {
      length == 0
    }

    function IsOpen(): (r: bool)
      reads this
      ensures r == isOpen
    {
      isOpen
    }

    function IsClosed(): (r: bool)
      reads this
      ensures r <==> !IsOpen()
    {
      !isOpen
    }

    method Open() returns (s: Status)
      modifies this
      requires Valid()
      ensures Valid() && data == old(data) && length == old(length)
      ensures old(isOpen) ==> s == Failed(NotClosed) && isOpen
      ensures !old(isOpen) ==> s == Done && isOpen
    {
      if !IsClosed() {
        return Failed(NotClosed);
      }
      isOpen := true;
      return Done;
    }

    /** A copy of the buffer; nothing changes. */
    function Read(): (r: Result<seq<T>>)
      reads this
      ensures r.Ok? <==> isOpen
      ensures r.Ok? ==> r.value == data
      ensures r.Err? ==> r.error == NotOpen
    {
      if !IsOpen() then Err(NotOpen) else Ok(data)
    }

    method Write(d: seq<T>) returns (s: Status)
      modifies this
      requires Valid()
      ensures Valid() && isOpen == old(isOpen)
      ensures old(isOpen) ==> s == Done && data == d && length == |d|
      ensures !old(isOpen) ==> s == Failed(NotOpen) && data == old(data) && length == old(length)
    {
      if !IsOpen() {
        return Failed(NotOpen);
      }
      data := d;
      length := |d|;
      return Done;
    }

    method Close() returns (s: Status)
      modifies this
      requires Valid()
      ensures Valid() && data == old(data) && length == old(length)
      ensures old(isOpen) ==> s == Done && !isOpen
      ensures !old(isOpen) ==> s == Failed(NotOpen) && !isOpen
    {
      if !IsOpen() {
        return Failed(NotOpen);
      }
      isOpen := false;
      return Done;
    }

    /** Empties a closed file; it stays closed. */
    method Delete() returns (s: Status)
      modifies this
      requires Valid()
      ensures Valid() && isOpen == old(isOpen)
      ensures !old(isOpen) ==> s == Done && data == [] && length == 0
      ensures old(isOpen) ==> s == Failed(NotClosed) && data == old(data) && length == old(length)
    {
      if !IsClosed() {
        return Failed(NotClosed);
      }
      data := [];
      length := 0;
      return Done;
    }
  }

  /** A whole life cycle: reading a closed file fails, what was written is read back, and a
      deleted file is empty and still closed. */
  method LifeCycle() returns (before: Result<seq<int>>, after: Result<seq<int>>, empty: bool, closed: bool)
    ensures before == Err(NotOpen)
    ensures after == Ok([1, 2])
    ensures empty && closed
  {
    var f := new ObjFile<int>();
    before := f.Read();
    var s := f.Open();
    s := f.Write([1, 2]);
    after := f.Read();
    s := f.Close();
    s := f.Delete();
    empty := f.IsEmpty();
    closed := f.IsClosed();
  }
}
