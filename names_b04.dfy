/** The fourth version: both backings with contract checks. Preconditions raise IllegalArgument;
    postconditions raise MethodFailed after the state has already changed. */
module NamesB04 {
  import opened Common
  import opened Grammar

  /** Components kept as an array of masked strings. */
  class StringArrayName {
    var delimiter: char
    var components: seq<string>

    constructor Copy(source: seq<string>, delimiter: char)
      ensures components == source && this.delimiter == delimiter
    {
      components := source;
      this.delimiter := delimiter;
    }

    /** The constructor: a null source is an IllegalArgument, otherwise the array is copied. */
    static method New(source: Option<array<string>>, delimiter: char) returns (r: Result<StringArrayName>)
      ensures source.None? ==> r == Err(IllegalArgument)
      ensures source.Some? ==> (r.Ok? && fresh(r.value)
        && r.value.components == source.value[..] && r.value.delimiter == delimiter)
    {
      if source.None? {
        return Err(IllegalArgument);
      }
      var n := new StringArrayName.Copy(source.value[..], delimiter);
      return Ok(n);
    }

    /** An equal name that shares nothing with this one. */
    method Clone() returns (c: StringArrayName)
      ensures fresh(c) && c.components == components && c.delimiter == delimiter
    {
      c := new StringArrayName.Copy(components, delimiter);
    }

    function GetNoComponents(): (n: nat)
      reads this
      ensures n == |components|
    {
      |components|
    }

    function GetComponent(i: int): (r: Result<string>)
      reads this
      ensures r.Ok? <==> 0 <= i < |components|
      ensures r.Ok? ==> r.value == components[i]
      ensures r.Err? ==> r.error == IllegalArgument
    {
      if 0 <= i < |components| then Ok(components[i]) else Err(IllegalArgument)
    }

    /** The postcondition "component i is c" always holds, so MethodFailed is never raised. */
    method SetComponent(i: int, c: Option<string>) returns (s: Status)
      modifies this
      ensures delimiter == old(delimiter)
      ensures 0 <= i < |old(components)| && c.Some? ==> s == Done && components == old(components)[i := c.value]
      ensures !(0 <= i < |old(components)| && c.Some?) ==> s == Failed(IllegalArgument) && components == old(components)
    {
      if !(0 <= i < |components|) || c.None? {
        return Failed(IllegalArgument);
      }
      components := components[i := c.value];
      if components[i] != c.value {
        return Failed(MethodFailed);
      }
      return Done;
    }

    /** The postcondition "one component more" always holds. */
    method Insert(i: int, c: Option<string>) returns (s: Status)
      modifies this
      ensures delimiter == old(delimiter)
      ensures 0 <= i <= |old(components)| && c.Some? ==> s == Done && components == Inserted(old(components), i, c.value)
      ensures !(0 <= i <= |old(components)| && c.Some?) ==> s == Failed(IllegalArgument) && components == old(components)
    {
      if !(0 <= i <= |components|) || c.None? {
        return Failed(IllegalArgument);
      }
      var oldLength := |components|;
      components := Inserted(components, i, c.value);
      if |components| != oldLength + 1 {
        return Failed(MethodFailed);
      }
      return Done;
    }

    /** The postcondition "one component more" always holds, and c is the last one. */
    method Append(c: Option<string>) returns (s: Status)
      modifies this
      ensures delimiter == old(delimiter)
      ensures c.Some? ==> s == Done && components == old(components) + [c.value]
      ensures c.None? ==> s == Failed(IllegalArgument) && components == old(components)
    {
      if c.None? {
        return Failed(IllegalArgument);
      }
      var oldLength := |components|;
      components := components + [c.value];
      if |components| != oldLength + 1 {
        return Failed(MethodFailed);
      }
      return Done;
    }

    /** The postcondition "one component less" always holds. */
    method Remove(i: int) returns (s: Status)
      modifies this
      ensures delimiter == old(delimiter)
      ensures 0 <= i < |old(components)| ==> s == Done && components == Removed(old(components), i)
      ensures !(0 <= i < |old(components)|) ==> s == Failed(IllegalArgument) && components == old(components)
    {
      if !(0 <= i < |components|) {
        return Failed(IllegalArgument);
      }
      var oldLength := |components|;
      components := Removed(components, i);
      if |components| != oldLength - 1 {
        return Failed(MethodFailed);
      }
      return Done;
    }
  }

  // -----------------------------------------------------------------------------------------------
  // JavaScript array edits at indices the cached count allows but the fresh tokens may not have

  /** `a[i] = c`: past the end the array grows, and the holes it leaves join as "". */
  function Assigned(a: seq<string>, i: nat, c: string): (r: seq<string>)
    ensures |r| == if i < |a| then |a| else i + 1
    ensures r[i] == c
    ensures forall j :: 0 <= j < |a| && j != i ==> r[j] == a[j]
    ensures forall j :: |a| <= j < i ==> r[j] == ""
  {
    if i < |a| then a[i := c] else a + seq(i - |a|, _ => "") + [c]
  }

  /** `a.splice(i, 0, c)`: a start past the end inserts at the end. */
  function SplicedIn(a: seq<string>, i: nat, c: string): (r: seq<string>)
    ensures i <= |a| ==> r == Inserted(a, i, c)
    ensures i > |a| ==> r == a + [c]
  {
    if i <= |a| then Inserted(a, i, c) else a + [c]
  }

  /** `a.splice(i, 1)`: a start past the end removes nothing. */
  function SplicedOut(a: seq<string>, i: nat): (r: seq<string>)
    ensures i < |a| ==> r == Removed(a, i)
    ensures i >= |a| ==> r == a
  {
    if i < |a| then Removed(a, i) else a
  }

  /** The whole name kept as one masked text, with a cached component count that the index
      preconditions are checked against. */
  class StringName {
    var delimiter: char
    var name: string
    var noComponents: nat

    /** The components getComponentsAsArray computes afresh; joined again they give the text. */
    function Tokens(): (r: seq<string>)
      reads this
      ensures Join(r, [delimiter]) == name
      ensures r == [] <==> name == ""
    {
      JoinTokenize(name, delimiter);
      Tokenize(name, delimiter)
    }

    predicate CountFresh()
      reads this
    {
      noComponents == |Tokens()|
    }

    constructor Of(source: string, delimiter: char)
      ensures name == source && this.delimiter == delimiter && CountFresh()
    {
      name := source;
      this.delimiter := delimiter;
      new;
      UpdateComponentCount();
    }

    /** The constructor: a null source is an IllegalArgument; the count is computed from the text. */
    static method New(source: Option<string>, delimiter: char) returns (r: Result<StringName>)
      ensures source.None? ==> r == Err(IllegalArgument)
      ensures source.Some? ==> (r.Ok? && fresh(r.value)
        && r.value.name == source.value && r.value.delimiter == delimiter && r.value.CountFresh())
    {
      if source.None? {
        return Err(IllegalArgument);
      }
      var n := new StringName.Of(source.value, delimiter);
      return Ok(n);
    }

    method Clone() returns (c: StringName)
      ensures fresh(c) && c.name == name && c.delimiter == delimiter && c.CountFresh()
    {
      c := new StringName.Of(name, delimiter);
    }

    method UpdateComponentCount()
      modifies this
      ensures name == old(name) && delimiter == old(delimiter)
      ensures CountFresh()
    {
      if name == "" {
        noComponents := 0;
      } else {
        noComponents := |Tokenize(name, delimiter)|;
      }
    }

    function GetNoComponents(): (n: nat)
      reads this
      ensures n == noComponents
    {
      noComponents
    }

    /** The index is checked against the cached count; a fresh token list shorter than the count
        yields undefined, here None. */
    function GetComponent(i: int): (r: Result<Option<string>>)
      reads this
      ensures r.Ok? <==> 0 <= i < noComponents
      ensures r.Err? ==> r.error == IllegalArgument
      ensures r.Ok? ==> r.value == if i < |Tokens()| then Some(Tokens()[i]) else None
      ensures r.Ok? && CountFresh() ==> r.value == Some(Tokens()[i])
    {
      if !(0 <= i < noComponents) then Err(IllegalArgument)
      else
        var components := Tokens();
        Ok(if i < |components| then Some(components[i]) else None)
    }

    /** Index checked against the cached count; the count is not refreshed and there is no
        postcondition check. */
    method SetComponent(i: int, c: Option<string>) returns (s: Status)
      modifies this
      ensures delimiter == old(delimiter) && noComponents == old(noComponents)
      ensures 0 <= i < old(noComponents) && c.Some? ==> s == Done && name == Join(Assigned(old(Tokens()), i, c.value), [delimiter])
      ensures !(0 <= i < old(noComponents) && c.Some?) ==> s == Failed(IllegalArgument) && name == old(name)
      ensures s == Done && old(CountFresh()) && Parseable(old(Tokens())[i := c.value], delimiter)
        ==> Tokens() == old(Tokens())[i := c.value] && CountFresh()
    {
      if !(0 <= i < noComponents) || c.None? {
        return Failed(IllegalArgument);
      }
      var components := Tokenize(name, delimiter);
      components := Assigned(components, i, c.value);
      name := Join(components, [delimiter]);
      if Parseable(components, delimiter) {
        TokenizeJoin(components, delimiter);
      }
      return Done;
    }

    /** The count must grow by one, otherwise MethodFailed, with the new text already in place. */
    method Insert(i: int, c: Option<string>) returns (s: Status)
      modifies this
      ensures delimiter == old(delimiter)
      ensures !(0 <= i <= old(noComponents) && c.Some?) ==>
        s == Failed(IllegalArgument) && name == old(name) && noComponents == old(noComponents)
      ensures 0 <= i <= old(noComponents) && c.Some? ==>
        && name == Join(SplicedIn(old(Tokens()), i, c.value), [delimiter]) && CountFresh()
        && (s == Done <==> noComponents == old(noComponents) + 1)
        && (s != Done ==> s == Failed(MethodFailed))
      ensures 0 <= i <= old(noComponents) && c.Some? && old(CountFresh()) && Parseable(Inserted(old(Tokens()), i, c.value), delimiter)
        ==> s == Done && Tokens() == Inserted(old(Tokens()), i, c.value)
    {
      if !(0 <= i <= noComponents) || c.None? {
        return Failed(IllegalArgument);
      }
      var oldLength := noComponents;
      var components := Tokenize(name, delimiter);
      components := SplicedIn(components, i, c.value);
      name := Join(components, [delimiter]);
      if Parseable(components, delimiter) {
        TokenizeJoin(components, delimiter);
      }
      UpdateComponentCount();
      if noComponents != oldLength + 1 {
        return Failed(MethodFailed);
      }
      return Done;
    }

    /** Emptiness as the cached count says; the count must grow by one, otherwise MethodFailed. */
    method Append(c: Option<string>) returns (s: Status)
      modifies this
      ensures delimiter == old(delimiter)
      ensures c.None? ==> s == Failed(IllegalArgument) && name == old(name) && noComponents == old(noComponents)
      ensures c.Some? ==>
        && name == AppendedText(old(name), old(noComponents) == 0, delimiter, c.value) && CountFresh()
        && (s == Done <==> noComponents == old(noComponents) + 1)
        && (s != Done ==> s == Failed(MethodFailed))
      ensures c.Some? && old(CountFresh()) && Parseable(old(Tokens()) + [c.value], delimiter)
        ==> s == Done && Tokens() == old(Tokens()) + [c.value]
    {
      if c.None? {
        return Failed(IllegalArgument);
      }
      if old(CountFresh()) && Parseable(Tokens() + [c.value], delimiter) {
        AppendedTextAgrees(name, delimiter, c.value);
      }
      var oldLength := noComponents;
      if noComponents == 0 {
        name := c.value;
      } else {
        name := name + [delimiter] + c.value;
      }
      UpdateComponentCount();
      if noComponents != oldLength + 1 {
        return Failed(MethodFailed);
      }
      return Done;
    }

    /** The count must shrink by one, otherwise MethodFailed, with the new text already in place. */
    method Remove(i: int) returns (s: Status)
      modifies this
      ensures delimiter == old(delimiter)
      ensures !(0 <= i < old(noComponents)) ==>
        s == Failed(IllegalArgument) && name == old(name) && noComponents == old(noComponents)
      ensures 0 <= i < old(noComponents) ==>
        && name == Join(SplicedOut(old(Tokens()), i), [delimiter]) && CountFresh()
        && (s == Done <==> noComponents == old(noComponents) - 1)
        && (s != Done ==> s == Failed(MethodFailed))
      ensures 0 <= i < old(noComponents) && old(CountFresh()) && Removed(old(Tokens()), i) != [""]
        ==> s == Done && Tokens() == Removed(old(Tokens()), i)
    {
      if !(0 <= i < noComponents) {
        return Failed(IllegalArgument);
      }
      var oldLength := noComponents;
      var components := Tokenize(name, delimiter);
      TokenizeParseable(name, delimiter);
      if i < |components| {
        RemovedWellFormed(components, i, delimiter);
      }
      components := SplicedOut(components, i);
      name := Join(components, [delimiter]);
      if components != [""] && i < |old(Tokens())| {
        TokenizeJoin(components, delimiter);
      }
      UpdateComponentCount();
      if noComponents != oldLength - 1 {
        return Failed(MethodFailed);
      }
      return Done;
    }
  }

  // -----------------------------------------------------------------------------------------------
  // Inputs on which the string-backed postconditions fail

  /** Appending "" to an empty name leaves the text "" and the count 0. */
  method AppendEmptyToEmptyFails() returns (s: Status)
    ensures s == Failed(MethodFailed)
  {
    var n := new StringName.Of("", '.');
    s := n.Append(Some(""));
  }

  /** Appending a component with an unmasked delimiter adds two tokens. */
  method AppendUnmaskedDelimiterFails() returns (s: Status)
    ensures s == Failed(MethodFailed)
  {
    var n := new StringName.Of("a", '.');
    assert n.Tokens() == ["a"];
    s := n.Append(Some("b.c"));
    assert |n.Tokens()| == 3 by {
      var t := ["a", "b", "c"];
      assert Join(t, ".") == "a.b.c" by { assert t[1..] == ["b", "c"] && t[2..] == ["c"]; }
      assert Masked("a", '.') && Masked("b", '.') && Masked("c", '.');
      TokenizeJoin(t, '.');
    }
  }

  /** Inserting "" into an empty name joins [""] to the empty text. */
  method InsertEmptyIntoEmptyFails() returns (s: Status)
    ensures s == Failed(MethodFailed)
  {
    var n := new StringName.Of("", '.');
    s := n.Insert(0, Some(""));
  }

  /** Removing either component of "." leaves [""], which joins to the empty text, so the count
      drops from 2 to 0. */
  method RemoveFromDotFails(i: int) returns (s: Status)
    requires i == 0 || i == 1
    ensures s == Failed(MethodFailed)
  {
    var n := new StringName.Of(".", '.');
    assert n.Tokens() == ["", ""] by {
      var s := ".";
      assert FirstSepFrom(s, '.', 0) == 0;
      assert s[..0] == "" && s[1..] == "";
      assert Split("", '.') == [""];
    }
    s := n.Remove(i);
  }

  /** After setComponent(0, "x\") on "a.b" the text "x\.b" is one token while the count stays 2:
      getComponent(1) passes the index check and yields undefined. */
  method StaleCountYieldsUndefined() returns (r: Result<Option<string>>)
    ensures r == Ok(None)
  {
    var n := new StringName.Of("a.b", '.');
    assert n.Tokens() == ["a", "b"] by {
      var s := "a.b";
      assert FirstSepFrom(s, '.', 0) == 1;
      assert s[..1] == "a" && s[2..] == "b";
      assert Split("b", '.') == ["b"];
    }
    var st := n.SetComponent(0, Some("x\\"));
    assert n.name == "x\\.b";
    assert |n.Tokens()| == 1 by {
      var s := "x\\.b";
      assert FirstSepFrom(s, '.', 0) == |s| by {
        forall j | 0 <= j < |s| ensures !IsSep(s, '.', j) {
          assert j == 0 || j == 1 || j == 2 || j == 3;
        }
      }
    }
    r := n.GetComponent(1);
  }
}
