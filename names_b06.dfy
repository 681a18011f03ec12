/** The sixth version: immutable names. Every mutator returns a new name and leaves the receiver
    as it was, so both backings are values; concat is a fold over append results (NameCore). */
module NamesB06 {
  import opened Common
  import opened Grammar
  import opened NameCore

  // -----------------------------------------------------------------------------------------------
  // Array-backed

  datatype ArrayName = ArrayName(delimiter: char, components: seq<string>)

  /** The constructor: the delimiter is checked first (exactly one character, absent means the
      default), then a null source is rejected; the array is copied. */
  function NewArrayName(source: Option<seq<string>>, delimiter: Option<string>): (r: Result<ArrayName>)
    ensures r.Ok? <==> CheckedDelimiter(delimiter).Ok? && source.Some?
    ensures r.Ok? ==> r.value.components == source.value && r.value.delimiter == CheckedDelimiter(delimiter).value
    ensures r.Err? ==> r.error == IllegalArgument
  {
    match CheckedDelimiter(delimiter)
    case Err(e) => Err(e)
    case Ok(d) => if source.None? then Err(IllegalArgument) else Ok(ArrayName(d, source.value))
  }

  /** `clone`: the constructor applied to a copy of the components and the own delimiter. */
  function ArrayClone(n: ArrayName): (r: Result<ArrayName>)
    ensures r == Ok(n)
  {
    NewArrayName(Some(n.components), Some([n.delimiter]))
  }

  /** What the abstract layer sees of an array-backed name. */
  function ArrayView(n: ArrayName): (v: View)
    ensures Consistent(v) && Components(v) == n.components && v.delimiter == n.delimiter
  {
    View(n.delimiter, |n.components|, n.components, IllegalArgument)
  }

  function ArrayGetComponent(n: ArrayName, i: int): (r: Result<string>)
    ensures r.Ok? <==> 0 <= i < |n.components|
    ensures r.Ok? ==> r.value == n.components[i]
    ensures r.Err? ==> r.error == IllegalArgument
  {
    if 0 <= i < |n.components| then Ok(n.components[i]) else Err(IllegalArgument)
  }

  function ArraySetComponent(n: ArrayName, i: int, c: Option<string>): (r: Result<ArrayName>)
    ensures r.Ok? <==> 0 <= i < |n.components| && c.Some?
    ensures r.Ok? ==> r.value.delimiter == n.delimiter && |r.value.components| == |n.components|
    ensures r.Ok? ==> r.value.components[i] == c.value
    ensures r.Ok? ==> forall j :: 0 <= j < |n.components| && j != i ==> r.value.components[j] == n.components[j]
    ensures r.Err? ==> r.error == IllegalArgument
  {
    if !(0 <= i < |n.components|) || c.None? then Err(IllegalArgument)
    else Ok(ArrayName(n.delimiter, n.components[i := c.value]))
  }

  function ArrayInsert(n: ArrayName, i: int, c: Option<string>): (r: Result<ArrayName>)
    ensures r.Ok? <==> 0 <= i <= |n.components| && c.Some?
    ensures r.Ok? ==> r.value.delimiter == n.delimiter && r.value.components == Inserted(n.components, i, c.value)
    ensures r.Err? ==> r.error == IllegalArgument
  {
    if !(0 <= i <= |n.components|) || c.None? then Err(IllegalArgument)
    else Ok(ArrayName(n.delimiter, Inserted(n.components, i, c.value)))
  }

  function ArrayAppend(n: ArrayName, c: Option<string>): (r: Result<ArrayName>)
    ensures r.Ok? <==> c.Some?
    ensures r.Ok? ==> r.value.delimiter == n.delimiter && r.value.components == n.components + [c.value]
    ensures r.Err? ==> r.error == IllegalArgument
  {
    if c.None? then Err(IllegalArgument) else Ok(ArrayName(n.delimiter, n.components + [c.value]))
  }

  function ArrayRemove(n: ArrayName, i: int): (r: Result<ArrayName>)
    ensures r.Ok? <==> 0 <= i < |n.components|
    ensures r.Ok? ==> r.value.delimiter == n.delimiter && r.value.components == Removed(n.components, i)
    ensures r.Err? ==> r.error == IllegalArgument
  {
    if !(0 <= i < |n.components|) then Err(IllegalArgument)
    else Ok(ArrayName(n.delimiter, Removed(n.components, i)))
  }

  /** append as concat's fold calls it, with a component the other name supplied. */
  function ArrayAppendComponent(n: ArrayName, c: string): (r: Result<ArrayName>)
    ensures r == Ok(ArrayName(n.delimiter, n.components + [c]))
  {
    ArrayAppend(n, Some(c))
  }

  /** Appending the components one by one never fails and adds them in order. */
  lemma {:induction false} ArrayAppendAll(n: ArrayName, cs: seq<string>)
    ensures AppendAll(n, cs, ArrayAppendComponent) == Folded(ArrayName(n.delimiter, n.components + cs), None)
    decreases |cs|
  {
    if cs != [] {
      ArrayAppendAll(n, cs[..|cs| - 1]);
      assert n.components + cs[..|cs| - 1] + [cs[|cs| - 1]] == n.components + cs;
    } else {
      assert n.components + cs == n.components;
    }
  }

  /** concat of array-backed names: this's components followed by other's. */
  lemma ArrayConcat(n: ArrayName, other: View)
    requires Consistent(other)
    ensures ConcatSpec(n, other, ArrayAppendComponent) == Folded(ArrayName(n.delimiter, n.components + Components(other)), None)
  {
    ArrayAppendAll(n, Components(other));
  }

  /** The fold as written: concat of two array-backed names returns the joined component list. */
  method ArrayConcatNames(n: ArrayName, other: Option<ArrayName>) returns (r: Result<ArrayName>)
    ensures other.None? ==> r == Err(IllegalArgument)
    ensures other.Some? ==> r == Ok(ArrayName(n.delimiter, n.components + other.value.components))
  {
    if other.Some? {
      ArrayConcat(n, ArrayView(other.value));
      r := ConcatFold(n, Some(ArrayView(other.value)), ArrayAppendComponent);
    } else {
      r := ConcatFold(n, None, ArrayAppendComponent);
    }
  }

  // -----------------------------------------------------------------------------------------------
  // String-backed

  /** The text with the delimiter; the count the constructor caches is always |Tokens(n)|,
      since no value is ever changed after construction. */
  datatype StringName = StringName(delimiter: char, name: string)

  /** The components the tokenizer computes; joined again they give the text. */
  function Tokens(n: StringName): (r: seq<string>)
    ensures Join(r, [n.delimiter]) == n.name
    ensures r == [] <==> n.name == ""
  {
    JoinTokenize(n.name, n.delimiter);
    Tokenize(n.name, n.delimiter)
  }

  function Count(n: StringName): (k: nat)
    ensures k == 0 <==> n.name == ""
  {
    |Tokens(n)|
  }

  function NewStringName(source: Option<string>, delimiter: Option<string>): (r: Result<StringName>)
    ensures r.Ok? <==> CheckedDelimiter(delimiter).Ok? && source.Some?
    ensures r.Ok? ==> r.value.name == source.value && r.value.delimiter == CheckedDelimiter(delimiter).value
    ensures r.Err? ==> r.error == IllegalArgument
  {
    match CheckedDelimiter(delimiter)
    case Err(e) => Err(e)
    case Ok(d) => if source.None? then Err(IllegalArgument) else Ok(StringName(d, source.value))
  }

  /** `clone`: the constructor applied to the text and the own delimiter. */
  function StringClone(n: StringName): (r: Result<StringName>)
    ensures r == Ok(n)
  {
    NewStringName(Some(n.name), Some([n.delimiter]))
  }

  /** What the abstract layer sees of a string-backed name: always consistent. */
  function StringView(n: StringName): (v: View)
    ensures Consistent(v) && Components(v) == Tokens(n) && v.delimiter == n.delimiter
  {
    View(n.delimiter, Count(n), Tokens(n), IllegalArgument)
  }

  function StringGetComponent(n: StringName, i: int): (r: Result<string>)
    ensures r.Ok? <==> 0 <= i < |Tokens(n)|
    ensures r.Ok? ==> r.value == Tokens(n)[i]
    ensures r.Err? ==> r.error == IllegalArgument
  {
    if !(0 <= i < Count(n)) then Err(IllegalArgument) else Ok(Tokens(n)[i])
  }

  /** Re-joins the edited tokens (SetComponentAgrees says what the result holds). */
  function StringSetComponent(n: StringName, i: int, c: Option<string>): (r: Result<StringName>)
    ensures r.Ok? <==> 0 <= i < |Tokens(n)| && c.Some?
    ensures r.Ok? ==> r.value.delimiter == n.delimiter
    ensures r.Err? ==> r.error == IllegalArgument
  {
    if !(0 <= i < Count(n)) || c.None? then Err(IllegalArgument)
    else Ok(StringName(n.delimiter, Join(Tokens(n)[i := c.value], [n.delimiter])))
  }

  function StringInsert(n: StringName, i: int, c: Option<string>): (r: Result<StringName>)
    ensures r.Ok? <==> 0 <= i <= |Tokens(n)| && c.Some?
    ensures r.Ok? ==> r.value.delimiter == n.delimiter
    ensures r.Err? ==> r.error == IllegalArgument
  {
    if !(0 <= i <= Count(n)) || c.None? then Err(IllegalArgument)
    else Ok(StringName(n.delimiter, Join(Inserted(Tokens(n), i, c.value), [n.delimiter])))
  }

  function StringAppend(n: StringName, c: Option<string>): (r: Result<StringName>)
    ensures r.Ok? <==> c.Some?
    ensures r.Ok? ==> r.value == StringName(n.delimiter, AppendedText(n.name, n.name == "", n.delimiter, c.value))
    ensures r.Err? ==> r.error == IllegalArgument
  {
    if c.None? then Err(IllegalArgument)
    else Ok(StringName(n.delimiter, if Count(n) == 0 then c.value else n.name + [n.delimiter] + c.value))
  }

  function StringRemove(n: StringName, i: int): (r: Result<StringName>)
    ensures r.Ok? <==> 0 <= i < |Tokens(n)|
    ensures r.Ok? ==> r.value.delimiter == n.delimiter
    ensures r.Err? ==> r.error == IllegalArgument
  {
    if !(0 <= i < Count(n)) then Err(IllegalArgument)
    else Ok(StringName(n.delimiter, Join(Removed(Tokens(n), i), [n.delimiter])))
  }

  /** append as concat's fold calls it. */
  function StringAppendComponent(n: StringName, c: string): (r: Result<StringName>)
    ensures r.Ok? && r.value.delimiter == n.delimiter
    ensures Parseable(Tokens(n) + [c], n.delimiter) ==> Tokens(r.value) == Tokens(n) + [c]
  {
    if Parseable(Tokens(n) + [c], n.delimiter) then
      AppendedTextAgrees(n.name, n.delimiter, c); StringAppend(n, Some(c))
    else StringAppend(n, Some(c))
  }

  // -----------------------------------------------------------------------------------------------
  // The string backing agrees with the array backing on parseable component lists

  /** The array-backed name with the same components. */
  function AsArrayName(n: StringName): (a: ArrayName)
    ensures a.delimiter == n.delimiter && a.components == Tokens(n)
  {
    ArrayName(n.delimiter, Tokens(n))
  }

  /** A string-backed name and the array-backed name over its tokens are equal by isEqual and
      so hash alike. */
  lemma BackingsAreEqual(n: StringName)
    ensures SameComponents(StringView(n), ArrayView(AsArrayName(n)))
    ensures HashOf(DataString(Components(StringView(n)))) == HashOf(DataString(Components(ArrayView(AsArrayName(n)))))
  {
    var a, b := StringView(n), ArrayView(AsArrayName(n));
    assert forall i :: 0 <= i < a.count ==> a.parts[i] == b.parts[i];
  }

  lemma SetComponentAgrees(n: StringName, i: int, c: string)
    requires 0 <= i < |Tokens(n)| && Parseable(Tokens(n)[i := c], n.delimiter)
    ensures StringSetComponent(n, i, Some(c)).Ok?
    ensures Ok(AsArrayName(StringSetComponent(n, i, Some(c)).value)) == ArraySetComponent(AsArrayName(n), i, Some(c))
  {
    TokenizeJoin(Tokens(n)[i := c], n.delimiter);
  }

  lemma InsertAgrees(n: StringName, i: int, c: string)
    requires 0 <= i <= |Tokens(n)| && Parseable(Inserted(Tokens(n), i, c), n.delimiter)
    ensures StringInsert(n, i, Some(c)).Ok?
    ensures Ok(AsArrayName(StringInsert(n, i, Some(c)).value)) == ArrayInsert(AsArrayName(n), i, Some(c))
  {
    TokenizeJoin(Inserted(Tokens(n), i, c), n.delimiter);
  }

  lemma AppendAgrees(n: StringName, c: string)
    requires Parseable(Tokens(n) + [c], n.delimiter)
    ensures StringAppend(n, Some(c)).Ok?
    ensures Ok(AsArrayName(StringAppend(n, Some(c)).value)) == ArrayAppend(AsArrayName(n), Some(c))
  {
    AppendedTextAgrees(n.name, n.delimiter, c);
  }

  /** Removing never breaks parseability, except that a remaining single "" is lost. */
  lemma RemoveAgrees(n: StringName, i: int)
    requires 0 <= i < |Tokens(n)| && Removed(Tokens(n), i) != [""]
    ensures StringRemove(n, i).Ok?
    ensures Ok(AsArrayName(StringRemove(n, i).value)) == ArrayRemove(AsArrayName(n), i)
  {
    TokenizeParseable(n.name, n.delimiter);
    RemovedWellFormed(Tokens(n), i, n.delimiter);
    TokenizeJoin(Removed(Tokens(n), i), n.delimiter);
  }

  /** Appending "" to an empty name returns a name that still has no components: nothing
      checks the count afterwards in this version. */
  lemma AppendEmptyToEmpty(d: char)
    ensures StringAppend(StringName(d, ""), Some("")) == Ok(StringName(d, ""))
    ensures Count(StringAppend(StringName(d, ""), Some("")).value) == 0
  {
  }

  /** Appending the components one by one builds the text the string-backed appends build. */
  lemma {:induction false} StringAppendAll(n: StringName, cs: seq<string>)
    ensures AppendAll(n, cs, StringAppendComponent) == Folded(StringName(n.delimiter, AppendedTexts(n.name, n.name == "", n.delimiter, cs)), None)
    decreases |cs|
  {
    if cs != [] {
      StringAppendAll(n, cs[..|cs| - 1]);
    }
  }

  /** concat onto a string-backed name: other's components follow this one's, provided every
      intermediate list is parseable. */
  lemma StringConcat(n: StringName, other: View)
    requires Consistent(other) && AppendableInOrder(Tokens(n), Components(other), n.delimiter)
    ensures ConcatSpec(n, other, StringAppendComponent).failure.None?
    ensures Tokens(ConcatSpec(n, other, StringAppendComponent).state) == Tokens(n) + Components(other)
  {
    StringAppendAll(n, Components(other));
    AppendedTextsAgree(n.name, n.delimiter, Components(other));
  }

  /** The fold as written, onto a string-backed name. */
  method StringConcatNames(n: StringName, other: Option<View>) returns (r: Result<StringName>)
    ensures other.None? ==> r == Err(IllegalArgument)
    ensures other.Some? && Consistent(other.value) ==>
      r == Ok(StringName(n.delimiter, AppendedTexts(n.name, n.name == "", n.delimiter, Components(other.value))))
    ensures other.Some? && Consistent(other.value) && AppendableInOrder(Tokens(n), Components(other.value), n.delimiter) ==>
      r.Ok? && Tokens(r.value) == Tokens(n) + Components(other.value)
  {
    if other.Some? && Consistent(other.value) {
      StringAppendAll(n, Components(other.value));
      if AppendableInOrder(Tokens(n), Components(other.value), n.delimiter) {
        StringConcat(n, other.value);
      }
    }
    r := ConcatFold(n, other, StringAppendComponent);
  }
}
