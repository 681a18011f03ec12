/** The first version: one mutable Name class backed by an array of masked components. */
module NamesB01 {
  import opened Common
  import opened Grammar

  class Name {
    var delimiter: char
    var components: seq<string>

    /** Copies the given components (expected to be masked); an absent or empty delimiter
        keeps the default. */
    constructor(other: array<string>, delimiter: Option<string>)
      requires delimiter.None? || |delimiter.value| <= 1
      ensures components == other[..]
      ensures this.delimiter == DelimiterOrDefault(delimiter)
    {
      components := other[..];
      this.delimiter := DelimiterOrDefault(delimiter);
    }

    /** Human-readable form: every component unmasked with the own delimiter, joined with the
        given delimiter or, when none is given, the own one. */
    function AsString(d: Option<string>): (r: string)
      reads this
      ensures components == [] ==> r == ""
      ensures (forall i :: 0 <= i < |components| ==> ESC !in components[i]) ==> r == Join(components, d.GetOr([delimiter]))
      ensures delimiter != ESC && (forall i :: 0 <= i < |components| ==> Escaped(components[i], delimiter)) ==>
                r == Join(UnescapedAll(components, delimiter), d.GetOr([delimiter]))
    {
      Rendered(components, delimiter, d.GetOr([delimiter]))
    }

    /** Machine-readable form: the masked components joined with the default delimiter. */
    function AsDataString(): (r: string)
      reads this
      ensures r == Join(components, [DEFAULT_DELIMITER])
      ensures Parseable(components, DEFAULT_DELIMITER) ==> Tokenize(r, DEFAULT_DELIMITER) == components
    {
      DataString(components)
    }

    function GetComponent(i: int): (r: Result<string>)
      reads this
      ensures r.Ok? <==> 0 <= i < |components|
      ensures r.Ok? ==> r.value == components[i]
      ensures r.Err? ==> r.error == OutOfBounds
    {
      if i < 0 || i >= |components| then Err(OutOfBounds) else Ok(components[i])
    }

    method SetComponent(i: int, c: string) returns (s: Status)
      modifies this
      ensures delimiter == old(delimiter)
      ensures 0 <= i < |old(components)| ==> s == Done && components == old(components)[i := c]
      ensures !(0 <= i < |old(components)|) ==> s == Failed(OutOfBounds) && components == old(components)
    {
      if i < 0 || i >= |components| {
        return Failed(OutOfBounds);
      }
      components := components[i := c];
      return Done;
    }

    function GetNoComponents(): (n: nat)
      reads this
      ensures n == |components|
    {
      |components|
    }

    method Insert(i: int, c: string) returns (s: Status)
      modifies this
      ensures delimiter == old(delimiter)
      ensures 0 <= i <= |old(components)| ==> s == Done && components == Inserted(old(components), i, c)
      ensures !(0 <= i <= |old(components)|) ==> s == Failed(OutOfBounds) && components == old(components)
    {
      if i < 0 || i > |components| {
        return Failed(OutOfBounds);
      }
      components := Inserted(components, i, c);
      return Done;
    }

    method Append(c: string)
      modifies this
      ensures delimiter == old(delimiter)
      ensures components == old(components) + [c]
    {
      components := components + [c];
    }

    method Remove(i: int) returns (s: Status)
      modifies this
      ensures delimiter == old(delimiter)
      ensures 0 <= i < |old(components)| ==> s == Done && components == Removed(old(components), i)
      ensures !(0 <= i < |old(components)|) ==> s == Failed(OutOfBounds) && components == old(components)
    {
      if i < 0 || i >= |components| {
        return Failed(OutOfBounds);
      }
      components := Removed(components, i);
      return Done;
    }
  }

  // -----------------------------------------------------------------------------------------------
  // The documented examples

  /** "oss.cs.fau.de" is a name with four components and the delimiter '.'; its data string and
      its human-readable form coincide. */
  method ExampleHostName() returns (n: nat, data: string, shown: string)
    ensures n == 4 && data == "oss.cs.fau.de" && shown == "oss.cs.fau.de"
  {
    var a := new string[4];
    a[0], a[1], a[2], a[3] := "oss", "cs", "fau", "de";
    assert a[..] == ["oss", "cs", "fau", "de"];
    var name := new Name(a, None);
    n := name.GetNoComponents();
    HostNameJoin();
    data := name.AsDataString();
    shown := name.AsString(None);
  }

  lemma HostNameJoin()
    ensures forall i :: 0 <= i < 4 ==> ESC !in ["oss", "cs", "fau", "de"][i]
    ensures Join(["oss", "cs", "fau", "de"], ".") == "oss.cs.fau.de"
  {
    var cs: seq<string> := ["oss", "cs", "fau", "de"];
    assert cs[1..] == ["cs", "fau", "de"] && cs[2..] == ["fau", "de"] && cs[3..] == ["de"];
  }

  /** "///" is a name with four empty components and the delimiter '/': that is its
      human-readable form, while its data string uses the default delimiter, "...". */
  method ExampleFourEmpty() returns (n: nat, shown: string, data: string)
    ensures n == 4 && shown == "///" && data == "..."
  {
    var a := new string[4];
    a[0], a[1], a[2], a[3] := "", "", "", "";
    assert a[..] == ["", "", "", ""];
    var name := new Name(a, Some("/"));
    n := name.GetNoComponents();
    FourEmptyJoin();
    shown := name.AsString(None);
    data := name.AsDataString();
  }

  lemma FourEmptyJoin()
    ensures forall i :: 0 <= i < 4 ==> ESC !in ["", "", "", ""][i]
    ensures Join(["", "", "", ""], "/") == "///" && Join(["", "", "", ""], ".") == "..."
  {
    var cs: seq<string> := ["", "", "", ""];
    assert cs[1..] == ["", "", ""] && cs[2..] == ["", ""] && cs[3..] == [""];
  }

  /** "Oh\.\.\." is one component with the delimiter '.', displayed as "Oh...". */
  method ExampleOhDots() returns (n: nat, shown: string)
    ensures n == 1 && shown == "Oh..."
  {
    var a := new string[1];
    a[0] := "Oh\\.\\.\\.";
    var name := new Name(a, None);
    n := name.GetNoComponents();
    ExampleOhDotsUnmask();
    shown := name.AsString(None);
  }

  /** The constructor copies: changing the caller's array afterwards leaves the name as it was. */
  method CopiedComponents() returns (before: Result<string>, after: Result<string>)
    ensures before == after == Ok("a")
  {
    var a := new string[1];
    a[0] := "a";
    var name := new Name(a, None);
    before := name.GetComponent(0);
    a[0] := "b";
    after := name.GetComponent(0);
  }
}
