/** The second version: the Name interface with an array-backed and a string-backed class. */
module NamesB02 {
  import opened Common
  import opened Grammar
  import opened NameCore

  /** Components kept as an array of masked strings. */
  class StringArrayName {
    var delimiter: char
    var components: seq<string>

    /** Copies the given components; an absent or empty delimiter keeps the default. */
    constructor(source: array<string>, delimiter: Option<string>)
      requires delimiter.None? || |delimiter.value| <= 1
      ensures components == source[..]
      ensures this.delimiter == DelimiterOrDefault(delimiter)
    {
      components := source[..];
      this.delimiter := DelimiterOrDefault(delimiter);
    }

    /** What another name's concat sees of this one. */
    function View(): (v: View)
      reads this
      ensures Consistent(v) && Components(v) == components
    {
      NameCore.View(delimiter, |components|, components, OutOfBounds)
    }

    function AsString(d: Option<string>): (r: string)
      reads this
      ensures components == [] ==> r == ""
      ensures (forall i :: 0 <= i < |components| ==> ESC !in components[i]) ==> r == Join(components, d.GetOr([delimiter]))
      ensures delimiter != ESC && (forall i :: 0 <= i < |components| ==> Escaped(components[i], delimiter)) ==>
                r == Join(UnescapedAll(components, delimiter), d.GetOr([delimiter]))
    {
      Rendered(components, delimiter, d.GetOr([delimiter]))
    }

    function AsDataString(): (r: string)
      reads this
      ensures r == Join(components, [DEFAULT_DELIMITER])
      ensures Parseable(components, DEFAULT_DELIMITER) ==> Tokenize(r, DEFAULT_DELIMITER) == components
    {
      DataString(components)
    }

    function GetDelimiterCharacter(): (r: char)
      reads this
      ensures r == delimiter
    {
      delimiter
    }

    function IsEmpty(): (r: bool)
      reads this
      ensures r <==> components == []
    {
      |components| == 0
    }

    function GetNoComponents(): (n: nat)
      reads this
      ensures n == |components|
    {
      |components|
    }

    function GetComponent(i: int): (r: Result<string>)
      reads this
      ensures r.Ok? <==> 0 <= i < |components|
      ensures r.Ok? ==> r.value == components[i]
      ensures r.Err? ==> r.error == OutOfBounds
    {
      if i < 0 || i >= |components| then Err(OutOfBounds) else Ok(components[i])
    }

    method SetComponent(i: int, c: string) returns (s: Status)
      modifies this
      ensures delimiter == old(delimiter)
      ensures 0 <= i < |old(components)| ==> s == Done && components == old(components)[i := c]
      ensures !(0 <= i < |old(components)|) ==> s == Failed(OutOfBounds) && components == old(components)
    {
      if i < 0 || i >= |components| {
        return Failed(OutOfBounds);
      }
      components := components[i := c];
      return Done;
    }

    method Insert(i: int, c: string) returns (s: Status)
      modifies this
      ensures delimiter == old(delimiter)
      ensures 0 <= i <= |old(components)| ==> s == Done && components == Inserted(old(components), i, c)
      ensures !(0 <= i <= |old(components)|) ==> s == Failed(OutOfBounds) && components == old(components)
    {
      if i < 0 || i > |components| {
        return Failed(OutOfBounds);
      }
      components := Inserted(components, i, c);
      return Done;
    }

    method Append(c: string)
      modifies this
      ensures delimiter == old(delimiter)
      ensures components == old(components) + [c]
    {
      components := components + [c];
    }

    method Remove(i: int) returns (s: Status)
      modifies this
      ensures delimiter == old(delimiter)
      ensures 0 <= i < |old(components)| ==> s == Done && components == Removed(old(components), i)
      ensures !(0 <= i < |old(components)|) ==> s == Failed(OutOfBounds) && components == old(components)
    {
      if i < 0 || i >= |components| {
        return Failed(OutOfBounds);
      }
      components := Removed(components, i);
      return Done;
    }

    /** Appends the components other reports, one by one; if other cannot supply one of them,
        the ones before it stay appended and other's error is raised. */
    method Concat(other: View) returns (s: Status)
      modifies this
      ensures delimiter == old(delimiter)
      ensures components == old(components) + Visited(other)
      ensures s == if Consistent(other) then Done else Failed(other.miss)
    {
      var i := 0;
      while i < other.count
        invariant i <= other.count && i <= |other.parts|
        invariant delimiter == old(delimiter)
        invariant components == old(components) + other.parts[..i]
      {
        if i >= |other.parts| {
          assert other.parts[..i] == other.parts;
          return Failed(other.miss);
        }
        assert other.parts[..i + 1] == other.parts[..i] + [other.parts[i]];
        Append(other.parts[i]);
        i := i + 1;
      }
      return Done;
    }
  }

  /** The whole name kept as one masked text, with a cached component count. */
  class StringName {
    var delimiter: char
    var name: string
    var noComponents: nat

    /** The components getComponentsAsArray computes afresh: none exactly for the empty text. */
    function Tokens(): (r: seq<string>)
      reads this
      ensures r == [] <==> name == ""
    {
      Tokenize(name, delimiter)
    }

    /** The cached count agrees with the current text. */
    predicate CountFresh()
      reads this
    {
      noComponents == |Tokens()|
    }

    /** What another name's concat sees of this one: the cached count, fresh components. */
    function View(): (v: View)
      reads this
      ensures CountFresh() ==> Consistent(v) && Components(v) == Tokens()
    {
      if CountFresh() then
        assert Tokens()[..noComponents] == Tokens(); NameCore.View(delimiter, noComponents, Tokens(), OutOfBounds)
      else NameCore.View(delimiter, noComponents, Tokens(), OutOfBounds)
    }

    constructor(source: string, delimiter: Option<string>)
      requires delimiter.None? || |delimiter.value| <= 1
      ensures name == source && this.delimiter == DelimiterOrDefault(delimiter)
      ensures CountFresh()
    {
      name := source;
      this.delimiter := DelimiterOrDefault(delimiter);
      new;
      UpdateComponentCount();
    }

    method UpdateComponentCount()
      modifies this
      ensures name == old(name) && delimiter == old(delimiter)
      ensures CountFresh()
    {
      if name == "" {
        noComponents := 0;
      } else {
        noComponents := |Tokenize(name, delimiter)|;
      }
    }

    /** Human-readable form of the current tokens; a text without escapes shown with its own
        delimiter is the text itself. */
    function AsString(d: Option<string>): (r: string)
      reads this
      ensures r == Rendered(Tokens(), delimiter, d.GetOr([delimiter]))
      ensures ESC !in name && d.GetOr([delimiter]) == [delimiter] ==> r == name
    {
      if ESC !in name then
        RenderedPlain(name, delimiter); Rendered(Tokens(), delimiter, d.GetOr([delimiter]))
      else Rendered(Tokens(), delimiter, d.GetOr([delimiter]))
    }

    /** With the default delimiter the text is returned as it is; either way the result is the
        data string of the current tokens. */
    function AsDataString(): (r: string)
      reads this
      ensures r == DataString(Tokens())
    {
      if delimiter == DEFAULT_DELIMITER then
        JoinTokenize(name, delimiter); name
      else Join(Tokens(), [DEFAULT_DELIMITER])
    }

    function GetDelimiterCharacter(): (r: char)
      reads this
      ensures r == delimiter
    {
      delimiter
    }

    /** Emptiness as the cached count says. */
    function IsEmpty(): (r: bool)
      reads this
      ensures r <==> noComponents == 0
      ensures CountFresh() ==> (r <==> name == "")
    {
      noComponents == 0
    }

    function GetNoComponents(): (n: nat)
      reads this
      ensures n == noComponents
    {
      noComponents
    }

    /** Bounds are checked against a fresh tokenization, not the cached count. */
    function GetComponent(i: int): (r: Result<string>)
      reads this
      ensures r.Ok? <==> 0 <= i < |Tokens()|
      ensures r.Ok? ==> r.value == Tokens()[i]
      ensures r.Err? ==> r.error == OutOfBounds
    {
      var components := Tokens();
      if i < 0 || i >= |components| then Err(OutOfBounds) else Ok(components[i])
    }

    /** Replaces a token and rejoins; the cached count is left as it was. */
    method SetComponent(i: int, c: string) returns (s: Status)
      modifies this
      ensures delimiter == old(delimiter) && noComponents == old(noComponents)
      ensures 0 <= i < |old(Tokens())| ==> s == Done && name == Join(old(Tokens())[i := c], [delimiter])
      ensures !(0 <= i < |old(Tokens())|) ==> s == Failed(OutOfBounds) && name == old(name)
      ensures s == Done && Parseable(old(Tokens())[i := c], delimiter) ==> Tokens() == old(Tokens())[i := c]
    {
      var components := Tokenize(name, delimiter);
      if i < 0 || i >= |components| {
        return Failed(OutOfBounds);
      }
      components := components[i := c];
      name := Join(components, [delimiter]);
      if Parseable(components, delimiter) {
        TokenizeJoin(components, delimiter);
      }
      return Done;
    }

    method Insert(i: int, c: string) returns (s: Status)
      modifies this
      ensures delimiter == old(delimiter)
      ensures 0 <= i <= |old(Tokens())| ==> s == Done && name == Join(Inserted(old(Tokens()), i, c), [delimiter]) && CountFresh()
      ensures !(0 <= i <= |old(Tokens())|) ==> s == Failed(OutOfBounds) && name == old(name) && noComponents == old(noComponents)
      ensures s == Done && Parseable(Inserted(old(Tokens()), i, c), delimiter) ==> Tokens() == Inserted(old(Tokens()), i, c)
    {
      var components := Tokenize(name, delimiter);
      if i < 0 || i > |components| {
        return Failed(OutOfBounds);
      }
      components := Inserted(components, i, c);
      name := Join(components, [delimiter]);
      if Parseable(components, delimiter) {
        TokenizeJoin(components, delimiter);
      }
      UpdateComponentCount();
      return Done;
    }

    /** Builds the text directly, choosing by the cached emptiness; on a fresh count and a
        component that keeps the list parseable this is appending a token. */
    method Append(c: string)
      modifies this
      ensures delimiter == old(delimiter)
      ensures name == AppendedText(old(name), old(noComponents) == 0, delimiter, c)
      ensures CountFresh()
      ensures old(CountFresh()) && Parseable(old(Tokens()) + [c], delimiter) ==> Tokens() == old(Tokens()) + [c]
    {
      if old(CountFresh()) && Parseable(Tokens() + [c], delimiter) {
        AppendedTextAgrees(name, delimiter, c);
      }
      if IsEmpty() {
        name := c;
      } else {
        name := name + [delimiter] + c;
      }
      UpdateComponentCount();
    }

    method Remove(i: int) returns (s: Status)
      modifies this
      ensures delimiter == old(delimiter)
      ensures 0 <= i < |old(Tokens())| ==> s == Done && name == Join(Removed(old(Tokens()), i), [delimiter]) && CountFresh()
      ensures !(0 <= i < |old(Tokens())|) ==> s == Failed(OutOfBounds) && name == old(name) && noComponents == old(noComponents)
      ensures s == Done && Removed(old(Tokens()), i) != [""] ==> Tokens() == Removed(old(Tokens()), i)
    {
      var components := Tokenize(name, delimiter);
      if i < 0 || i >= |components| {
        return Failed(OutOfBounds);
      }
      TokenizeParseable(name, delimiter);
      RemovedWellFormed(components, i, delimiter);
      components := Removed(components, i);
      name := Join(components, [delimiter]);
      if components != [""] {
        TokenizeJoin(components, delimiter);
      }
      UpdateComponentCount();
      return Done;
    }

    /** Appends the components other reports, one by one. On a fresh count this is appending the
        components to the token list, unless an intermediate list would not be parseable. */
    method Concat(other: View) returns (s: Status)
      modifies this
      ensures delimiter == old(delimiter)
      ensures s == if Consistent(other) then Done else Failed(other.miss)
      ensures name == AppendedTexts(old(name), old(noComponents) == 0, delimiter, Visited(other))
      ensures noComponents == if Visited(other) == [] then old(noComponents) else |Tokens()|
      ensures old(CountFresh()) && Consistent(other) && AppendableInOrder(old(Tokens()), Components(other), delimiter)
        ==> Tokens() == old(Tokens()) + Components(other)
    {
      ghost var text, wasFresh, wasEmpty := name, CountFresh(), noComponents == 0;
      var i := 0;
      // getComponent raises once i passes the components other can supply
      while i < other.count && i < |other.parts|
        invariant i <= other.count && i <= |other.parts|
        invariant delimiter == old(delimiter)
        invariant name == AppendedTexts(text, wasEmpty, delimiter, other.parts[..i])
        invariant i == 0 ==> noComponents == old(noComponents)
        invariant i > 0 ==> CountFresh()
      {
        ghost var before, emptyBefore := name, noComponents == 0;
        assert emptyBefore == if i == 0 then wasEmpty else before == "";
        AppendedTextsStep(text, wasEmpty, delimiter, other.parts, i);
        Append(other.parts[i]);
        i := i + 1;
      }
      if i < other.count {
        assert other.parts[..i] == other.parts;
        return Failed(other.miss);
      }
      assert Components(other) == other.parts[..i];
      if wasFresh && AppendableInOrder(Tokenize(text, delimiter), Components(other), delimiter) {
        assert wasEmpty == (text == "");
        AppendedTextsAgree(text, delimiter, Components(other));
      }
      return Done;
    }
  }

  lemma TokensOfAB()
    ensures Tokenize("a.b", '.') == ["a", "b"]
  {
    var s := "a.b";
    assert FirstSepFrom(s, '.', 0) == 1;
    assert s[..1] == "a" && s[2..] == "b";
    assert Split("b", '.') == ["b"];
  }

  lemma TokensOfXYB()
    ensures Join(["a", "b"][0 := "x.y"], ".") == "x.y.b"
    ensures Tokenize("x.y.b", '.') == ["x", "y", "b"]
  {
    assert ["a", "b"][0 := "x.y"] == ["x.y", "b"];
    assert Join(["x.y", "b"], ".") == "x.y.b";
    TokenizeJoin(["x", "y", "b"], '.') by {
      assert Masked("x", '.') && Masked("y", '.') && Masked("b", '.');
    }
    assert Join(["x", "y", "b"], ".") == "x.y.b";
  }

  /** setComponent does not refresh the cached count: the name "a.b" after setComponent(0, "x.y")
      has the text "x.y.b", three tokens, and still reports two components. */
  method StaleName() returns (n: StringName)
    ensures fresh(n)
    ensures n.delimiter == '.' && n.name == "x.y.b" && n.noComponents == 2
    ensures n.Tokens() == ["x", "y", "b"]
  {
    n := new StringName("a.b", None);
    TokensOfAB();
    var st := n.SetComponent(0, "x.y");
    TokensOfXYB();
  }
}
