/** The shared abstract layer of names (AbstractName in the third, fifth and sixth versions):
    rendering, the data string, equality, the hash and concatenation, written once against what
    a concrete name reports through getNoComponents and getComponent. */
module NameCore {
  import opened Common
  import opened Grammar

  /** What the abstract layer sees of a concrete name: its own delimiter, the count that
      getNoComponents reports, the list getComponent indexes into (getComponent(i) succeeds
      exactly for i < |parts|) and the error getComponent raises otherwise.
      A string-backed name whose cached count went stale has count != |parts|. */
  datatype View = View(delimiter: char, count: nat, parts: seq<string>, miss: Error)

  /** Every index below the reported count can be fetched. */
  predicate Consistent(v: View)
  {
    v.count <= |v.parts|
  }

  /** The components the abstract loops visit. */
  function Components(v: View): seq<string>
    requires Consistent(v)
  {
    v.parts[..v.count]
  }

  /** The components a loop up to the reported count visits before it stops, at the reported
      count or at the first index getComponent cannot supply. */
  function Visited(v: View): (r: seq<string>)
    ensures Consistent(v) ==> r == Components(v)
    ensures !Consistent(v) ==> r == v.parts
  {
    if Consistent(v) then Components(v) else v.parts
  }

  // ---------------------------------------------------------------------------------------------
  // Rendering

  /** `asString(delimiter)` of the third version: unmask with the own delimiter, join with d. */
  method AsString(v: View, d: string) returns (r: Result<string>)
    ensures Consistent(v) ==> r == Ok(Rendered(Components(v), v.delimiter, d))
    ensures !Consistent(v) ==> r == Err(v.miss)
  {
    var components: seq<string> := [];
    var i := 0;
    while i < v.count
      invariant i <= v.count && i <= |v.parts|
      invariant components == UnmaskAll(v.parts[..i], v.delimiter)
    {
      if i >= |v.parts| {
        return Err(v.miss);
      }
      components := components + [Unmask(v.parts[i], v.delimiter)];
      i := i + 1;
    }
    return Ok(Join(components, d));
  }

  /** `asString` of the fifth and sixth versions: an absent delimiter means the own one, and the
      delimiter used must be exactly one character. */
  method AsStringChecked(v: View, d: Option<string>) returns (r: Result<string>)
    ensures |d.GetOr([v.delimiter])| != 1 ==> r == Err(IllegalArgument)
    ensures |d.GetOr([v.delimiter])| == 1 && Consistent(v) ==> r == Ok(Rendered(Components(v), v.delimiter, d.GetOr([v.delimiter])))
    ensures |d.GetOr([v.delimiter])| == 1 && !Consistent(v) ==> r == Err(v.miss)
  {
    var sep := d.GetOr([v.delimiter]);
    if |sep| != 1 {
      return Err(IllegalArgument);
    }
    r := AsString(v, sep);
  }

  /** `asDataString`: the masked components joined with the default delimiter. */
  method AsDataString(v: View) returns (r: Result<string>)
    ensures Consistent(v) ==> r == Ok(DataString(Components(v)))
    ensures !Consistent(v) ==> r == Err(v.miss)
  {
    var parts: seq<string> := [];
    var i := 0;
    while i < v.count
      invariant i <= v.count && i <= |v.parts|
      invariant parts == v.parts[..i]
    {
      if i >= |v.parts| {
        return Err(v.miss);
      }
      parts := parts + [v.parts[i]];
      i := i + 1;
    }
    return Ok(Join(parts, [DEFAULT_DELIMITER]));
  }

  /** `toString` is the data string. */
  method ToString(v: View) returns (r: Result<string>)
    ensures Consistent(v) ==> r == Ok(DataString(Components(v)))
    ensures !Consistent(v) ==> r == Err(v.miss)
  {
    r := AsDataString(v);
  }

  /** `isEmpty`: no components reported. */
  function IsEmpty(v: View): (r: bool)
    ensures r <==> v.count == 0
    ensures r && Consistent(v) ==> Components(v) == []
  {
    v.count == 0
  }

  // ---------------------------------------------------------------------------------------------
  // Equality and hashing

  /** Two consistent views hold the same components, index by index. */
  predicate SameComponents(a: View, b: View)
  {
    && Consistent(a) && Consistent(b) && a.count == b.count
    && forall i :: 0 <= i < a.count ==> a.parts[i] == b.parts[i]
  }

  /** `isEqual(other)`: false for null or a different count, otherwise the components compared
      pairwise; the delimiters play no part. A getComponent that fails before a difference is
      found raises its error. */
  method IsEqual(v: View, other: Option<View>) returns (r: Result<bool>)
    ensures other.None? ==> r == Ok(false)
    ensures other.Some? && v.count != other.value.count ==> r == Ok(false)
    ensures other.Some? && Consistent(v) && Consistent(other.value) ==> r == Ok(SameComponents(v, other.value))
    ensures r.Err? ==> other.Some? && !(Consistent(v) && Consistent(other.value))
  {
    if other.None? {
      return Ok(false);
    }
    var w := other.value;
    if v.count != w.count {
      return Ok(false);
    }
    var i := 0;
    while i < v.count
      invariant i <= v.count && i <= |v.parts| && i <= |w.parts|
      invariant forall j :: 0 <= j < i ==> v.parts[j] == w.parts[j]
    {
      if i >= |v.parts| {
        return Err(v.miss);
      }
      if i >= |w.parts| {
        return Err(w.miss);
      }
      if v.parts[i] != w.parts[i] {
        return Ok(false);
      }
      i := i + 1;
    }
    return Ok(true);
  }

  /** What isEqual compares is an equivalence: reflexive, symmetric and transitive. */
  lemma SameComponentsIsEquivalence(a: View, b: View, c: View)
    ensures Consistent(a) ==> SameComponents(a, a)
    ensures SameComponents(a, b) ==> SameComponents(b, a)
    ensures SameComponents(a, b) && SameComponents(b, c) ==> SameComponents(a, c)
  {
  }

  /** Componentwise equality is equality of the component lists. */
  lemma SameComponentsMeansEqualLists(a: View, b: View)
    requires Consistent(a) && Consistent(b)
    ensures SameComponents(a, b) <==> Components(a) == Components(b)
  {
    if SameComponents(a, b) {
      assert forall i :: 0 <= i < a.count ==> Components(a)[i] == Components(b)[i];
    }
  }

  /** The renderers only see what getNoComponents and getComponent report, so names with the
      same components and own delimiter render alike, whatever their backing. */
  lemma SameComponentsRenderAlike(a: View, b: View, d: string)
    requires SameComponents(a, b) && a.delimiter == b.delimiter
    ensures Rendered(Components(a), a.delimiter, d) == Rendered(Components(b), b.delimiter, d)
    ensures DataString(Components(a)) == DataString(Components(b))
  {
    SameComponentsMeansEqualLists(a, b);
  }

  const TWO_32: int := 0x1_0000_0000
  const MIN_INT32: int := -0x8000_0000
  const MAX_INT32: int := 0x7fff_ffff

  /** JavaScript's ToInt32, the effect of `x | 0` and of the operands of `<<`. */
  function ToInt32(x: int): (r: int)
    ensures MIN_INT32 <= r <= MAX_INT32
    ensures (r - x) % TWO_32 == 0
  {
    (x + 0x8000_0000) % TWO_32 - 0x8000_0000
  }

  /** The hash of a text: h := 0, then h := ToInt32(31 * h + code) for each character in order. */
  function HashOf(s: string): (h: int)
    ensures MIN_INT32 <= h <= MAX_INT32
  {
    if s == [] then 0 else ToInt32(31 * HashOf(s[..|s| - 1]) + s[|s| - 1] as int)
  }

  /** One hash step as written, `((h << 5) - h + c) | 0`, is the 31-polynomial step. */
  lemma ShiftStep(h: int, c: int)
    requires MIN_INT32 <= h <= MAX_INT32
    ensures ToInt32(ToInt32(h * 32) - h + c) == ToInt32(31 * h + c)
  {
    var t := ToInt32(h * 32);
    var k := (h * 32 + 0x8000_0000) / TWO_32;
    assert t == h * 32 - k * TWO_32;
    assert ToInt32(t - h + c) == ToInt32(31 * h + c - k * TWO_32);
    ToInt32Periodic(31 * h + c, -k);
  }

  /** ToInt32 ignores multiples of 2^32. */
  lemma ToInt32Periodic(x: int, k: int)
    ensures ToInt32(x + k * TWO_32) == ToInt32(x)
  {
    var y := x + 0x8000_0000;
    assert (y + k * TWO_32) % TWO_32 == y % TWO_32 by {
      var q := y / TWO_32;
      var r := y % TWO_32;
      assert y + k * TWO_32 == (q + k) * TWO_32 + r;
    }
  }

  /** `getHashCode`: the hash of the data string, a signed 32-bit value. */
  method GetHashCode(v: View) returns (r: Result<int>)
    ensures Consistent(v) ==> r == Ok(HashOf(DataString(Components(v))))
    ensures !Consistent(v) ==> r == Err(v.miss)
    ensures r.Ok? ==> MIN_INT32 <= r.value <= MAX_INT32
  {
    var data := AsDataString(v);
    if data.Err? {
      return Err(data.error);
    }
    var s := data.value;
    var hashCode := 0;
    var i := 0;
    while i < |s|
      invariant i <= |s|
      invariant hashCode == HashOf(s[..i])
      invariant MIN_INT32 <= hashCode <= MAX_INT32
    {
      var c := s[i] as int;
      ShiftStep(hashCode, c);
      assert s[..i + 1][..i] == s[..i];
      hashCode := ToInt32(ToInt32(hashCode * 32) - hashCode + c);
      i := i + 1;
    }
    assert s[..i] == s;
    return Ok(hashCode);
  }

  /** Names equal by isEqual get equal hash codes. */
  lemma EqualNamesHashAlike(a: View, b: View)
    requires SameComponents(a, b)
    ensures HashOf(DataString(Components(a))) == HashOf(DataString(Components(b)))
  {
    SameComponentsMeansEqualLists(a, b);
  }

  /** The data string keeps components masked for the own delimiter, so with another own delimiter
      the round trip can fail: ["a.b"] with '/' is well formed, but its data string splits in two. */
  lemma DataStringRoundTripNeedsDefaultMasking(v: View)
    requires v == View('/', 1, ["a.b"], IllegalArgument)
    ensures Consistent(v) && Parseable(Components(v), '/')
    ensures Tokenize(DataString(Components(v)), DEFAULT_DELIMITER) == ["a", "b"]
  {
    assert Components(v) == ["a.b"];
    assert DataString(["a.b"]) == "a.b";
    var s := "a.b";
    assert FirstSepFrom(s, '.', 0) == 1;
    assert s[2..] == "b";
    assert FirstSepFrom("b", '.', 0) == 1;
    assert s[..1] == "a";
    assert Split("b", '.') == ["b"];
    assert Split(s, '.') == ["a"] + Split("b", '.');
    assert Masked(s, '/') by {
      forall j | 0 <= j < |s| ensures !IsSep(s, '/', j) {
        assert j == 0 || j == 1 || j == 2;
      }
    }
  }

  // ---------------------------------------------------------------------------------------------
  // Construction, invariant and the abstract clone of the fifth and sixth versions

  /** The constructor's delimiter: absent means the default; otherwise exactly one character. */
  function CheckedDelimiter(d: Option<string>): (r: Result<char>)
    ensures d.None? ==> r == Ok(DEFAULT_DELIMITER)
    ensures d.Some? ==> (r.Ok? <==> |d.value| == 1)
    ensures d.Some? && r.Ok? ==> [r.value] == d.value
    ensures r.Err? ==> r.error == IllegalArgument
  {
    match d
    case None => Ok(DEFAULT_DELIMITER)
    case Some(s) => if |s| == 1 then Ok(s[0]) else Err(IllegalArgument)
  }

  /** `assertClassInvariant`: the delimiter is one character, otherwise InvalidState. */
  function AssertClassInvariant(delimiter: string): (r: Status)
    ensures r == Done <==> |delimiter| == 1
    ensures r != Done ==> r == Failed(InvalidState)
  {
    if |delimiter| == 1 then Done else Failed(InvalidState)
  }

  /** A delimiter accepted by the constructor always passes the invariant check. */
  lemma ConstructedDelimiterKeepsInvariant(d: Option<string>)
    requires CheckedDelimiter(d).Ok?
    ensures AssertClassInvariant([CheckedDelimiter(d).value]) == Done
  {
  }

  /** The abstract `clone` always raises, whatever the name. */
  function AbstractClone(v: View): (r: Result<View>)
    ensures r.Err? && r.error == Unimplemented
  {
    Err(Unimplemented)
  }

  // ---------------------------------------------------------------------------------------------
  // Concatenation as repeated append

  /** The state reached by repeated appends and the error, if any, that stopped them. */
  datatype Folded<S> = Folded(state: S, failure: Option<Error>)

  /** Append cs one at a time from the left, stopping at the first append that fails. */
  function AppendAll<S(!new)>(start: S, cs: seq<string>, append: (S, string) -> Result<S>): (r: Folded<S>)
    ensures (forall t, c :: append(t, c).Ok?) ==> r.failure.None?
    ensures cs == [] ==> r == Folded(start, None)
    decreases |cs|
  {
    if cs == [] then Folded(start, None)
    else
      var f := AppendAll(start, cs[..|cs| - 1], append);
      if f.failure.Some? then f
      else match append(f.state, cs[|cs| - 1])
        case Ok(t) => Folded(t, None)
        case Err(e) => Folded(f.state, Some(e))
  }

  /** Once an append has failed, appending more components changes nothing. */
  lemma {:induction false} AppendAllStopped<S(!new)>(start: S, cs: seq<string>, i: nat, append: (S, string) -> Result<S>)
    requires i <= |cs| && AppendAll(start, cs[..i], append).failure.Some?
    ensures AppendAll(start, cs, append) == AppendAll(start, cs[..i], append)
    decreases |cs| - i
  {
    if i < |cs| {
      assert cs[..i + 1][..i] == cs[..i];
      AppendAllStopped(start, cs, i + 1, append);
    } else {
      assert cs[..i] == cs;
    }
  }

  /** Concatenating other: append each component other reports; a component other cannot
      supply raises other's error after the ones before it were appended. */
  function ConcatSpec<S(!new)>(start: S, other: View, append: (S, string) -> Result<S>): (r: Folded<S>)
    ensures !Consistent(other) ==> r.failure.Some?
    ensures Consistent(other) && (forall t, c :: append(t, c).Ok?) ==> r.failure.None?
  {
    if Consistent(other) then AppendAll(start, Components(other), append)
    else
      var f := AppendAll(start, other.parts, append);
      if f.failure.Some? then f else Folded(f.state, Some(other.miss))
  }

  /** The loop `for i < other.getNoComponents(): result := append(result, other.getComponent(i))`. */
  method AppendEach<S(!new)>(start: S, other: View, append: (S, string) -> Result<S>) returns (f: Folded<S>)
    ensures f == ConcatSpec(start, other, append)
  {
    var result := start;
    var i := 0;
    while i < other.count
      invariant i <= other.count && i <= |other.parts|
      invariant AppendAll(start, other.parts[..i], append) == Folded(result, None)
    {
      if i >= |other.parts| {
        assert other.parts[..i] == other.parts;
        return Folded(result, Some(other.miss));
      }
      assert other.parts[..i + 1][..i] == other.parts[..i];
      match append(result, other.parts[i]) {
        case Err(e) =>
          f := Folded(result, Some(e));
          if Consistent(other) {
            assert Components(other)[..i + 1] == other.parts[..i + 1];
            AppendAllStopped(start, Components(other), i + 1, append);
          } else {
            AppendAllStopped(start, other.parts, i + 1, append);
          }
          return;
        case Ok(t) =>
          result := t;
      }
      i := i + 1;
    }
    if !Consistent(other) {
      assert false;
    }
    return Folded(result, None);
  }

  /** `concat` of the fifth version: null is an IllegalArgument; otherwise the receiver's state
      is the one the appends reached, also when one of them raised. */
  method ConcatInPlace<S(!new)>(receiver: S, other: Option<View>, append: (S, string) -> Result<S>) returns (f: Folded<S>)
    ensures other.None? ==> f == Folded(receiver, Some(IllegalArgument))
    ensures other.Some? ==> f == ConcatSpec(receiver, other.value, append)
  {
    if other.None? {
      return Folded(receiver, Some(IllegalArgument));
    }
    f := AppendEach(receiver, other.value, append);
  }

  /** `concat` of the sixth version: a left fold over append results; the receiver is a value and
      is never changed, the outcome is the last result or the first error. */
  method ConcatFold<S(!new)>(receiver: S, other: Option<View>, append: (S, string) -> Result<S>) returns (r: Result<S>)
    ensures other.None? ==> r == Err(IllegalArgument)
    ensures other.Some? ==> var f := ConcatSpec(receiver, other.value, append);
      r == if f.failure.Some? then Err(f.failure.value) else Ok(f.state)
  {
    if other.None? {
      return Err(IllegalArgument);
    }
    var f := AppendEach(receiver, other.value, append);
    r := if f.failure.Some? then Err(f.failure.value) else Ok(f.state);
  }
}
