# Hierarchical names, modelled in Dafny

This project models the `Name` type of the adap-names TypeScript repository. It also models two
small file state machines from the same repository.

A name is a sequence of masked component strings plus a one-character delimiter. In the stored
(masked) form, a delimiter or a backslash that belongs inside a component is preceded by a
backslash. The repository writes names in several successive versions:

- **Array-backed names** hold the masked components as an array. The versions are
  `Name` (first), `StringArrayName` (second and fourth) and the immutable `StringArrayName`
  (sixth).
- **String-backed names** hold one delimited text and a cached component count. Every component
  access tokenizes the text again; `getNoComponents` and `isEmpty` read the cached count. The versions are `StringName` in the second, third, fourth and sixth
  versions.
- **`AbstractName`** (third, fifth and sixth versions) holds the shared layer: `asString`,
  `asDataString`, `isEqual`, the 32-bit hash and `concat`. It reaches the components only
  through `getNoComponents` and `getComponent`.

## Modules

| module | contents |
|---|---|
| `Common` | error kinds (`IllegalArgument`, `InvalidState`, `MethodFailed`, the plain "Index out of bounds" error `OutOfBounds`, and the file errors), `Result`, `Status`, `Option` |
| `Grammar` | unmasking (`replaceAll` as written), `Array.join`, the tokenizer, parseability, the component-list edits, and the round-trip lemmas |
| `NameCore` | the abstract layer over a `View`: what `getNoComponents` reports, the list `getComponent` indexes into, and the error it raises past that list |
| `NamesB01` | the first version's `Name` class |
| `NamesB02` | the second version's `StringArrayName` and `StringName` classes |
| `NamesB03` | the third version: `clone`, and stale-count scenarios through `NameCore` |
| `NamesB04` | the fourth version's classes with their precondition and postcondition checks |
| `NamesB06` | the sixth version's immutable names, as datatypes and functions |
| `FilesB02`, `FilesB04` | `ObjFile` and the fourth version's `File` |

### Decisions

- **Mutable source classes are Dafny classes.** Each has `seq` fields and `modifies` clauses.
  An exception becomes a returned `Status` or `Result` error.
- **The sixth version holds immutable values.** It is modelled as datatypes and functions that
  return `Result`.
- **The third version's `StringName` reuses `NamesB02.StringName`.** Its component operations
  in `src/adap-b03/names/StringName.ts` are the second version's code line for line, so the
  model does not write them twice. That covers getComponent (lines 26-32), setComponent (34-42),
  insert (44-52), append (54-61), remove (63-71) and the count refresh (82-88). `NamesB03` adds `clone`. The inherited operations are the
  `NameCore` members applied to `StringName.View()`.
- **The tokenizer follows the code.** The code splits with `split(/(?<!\\)d/)`: a delimiter
  splits unless the character directly before it is a backslash. The empty text gives no
  components.
  - A rule based on escape parity is what the masking scheme suggests: a delimiter would split
    after an even run of backslashes. The code does not count runs, and the model follows the
    code.
  - `Grammar.LookbehindIgnoresParity` proves an input on which the two rules differ.
- **The round-trip law holds only on parseable lists.** `Grammar.Parseable` is exactly the
  condition under which joining and then tokenizing gives a list back (`Grammar.ParseableIff`).
  It requires:
  - the list is not `[""]`;
  - every delimiter in a component is directly preceded by a backslash;
  - no component but the last ends in a backslash.
- **Display unmasks fully escaped components.** `asString` undoes the masking with two
  `replaceAll` passes. A component is fully escaped (`Grammar.Escaped`) when every backslash
  starts a pair with the delimiter or a backslash and no delimiter stands alone. On such a
  component the two passes give its intended text, each pair read as its second character
  (`Grammar.UnmaskEscaped`). Masking a raw text (`Grammar.Escape`) always yields such a component
  (`Grammar.EscapeUnescaped`), and the tokenizer never splits one (`Grammar.EscapedMasked`).
- **Stale counts are modelled.** String-backed `setComponent` does not refresh the cached
  count. A string-backed `View` can therefore report a count larger than the fresh tokens, in
  which case the abstract loops raise the concrete class's index error. Several scenario
  methods prove such cases.
- **The data string always uses `.`.** `asDataString` joins with `.` whatever the own delimiter
  is. So the data string of four empty components under `/` is `"..."` while their
  `asString()` is `"///"` (`NamesB01.ExampleFourEmpty`). The round trip through the data
  string also needs the components to be masked for `.`
  (`NameCore.DataStringRoundTripNeedsDefaultMasking`).

## Model

| member | source | states |
|---|---|---|
| Grammar.ReplacePair | src/adap-b01/names/Name.ts:44-45 | `replaceAll` of a two-character pattern by at most two characters never lengthens the text |
| Grammar.Unmask | src/adap-b01/names/Name.ts:38-46 | the displayed form of a component is never longer than the stored one |
| Grammar.FirstPassEscaped | src/adap-b01/names/Name.ts:44 | on a fully escaped component the first pass unmasks exactly the escaped delimiters, never reading the second backslash of a pair as an escape |
| Grammar.SecondPassEscaped | src/adap-b01/names/Name.ts:45 | after the first pass, the second collapses exactly the doubled backslashes |
| Grammar.UnmaskEscaped | src/adap-b01/names/Name.ts:30-46 | a fully escaped component is displayed as its intended text: `\d` shows as d, a doubled backslash as one |
| Grammar.UnmaskAllEscaped | src/adap-b01/names/Name.ts:38-46 | every fully escaped component of a list is displayed as its intended text |
| Grammar.EscapeUnescaped | src/adap-b01/names/Name.ts:30-34 | masking any raw text gives a fully escaped component whose intended text is the raw one |
| Grammar.EscapedMasked | src/adap-b02/names/StringName.ts:24-26 | the tokenizer never splits inside a fully escaped component |
| Grammar.Rendered | src/adap-b01/names/Name.ts:35-48 | components without backslashes are joined as stored; fully escaped components are joined as their intended texts |
| Grammar.DataString | src/adap-b01/names/Name.ts:50-58 | the empty list gives ""; tokenizing with `.` gives back components that are parseable for `.` |
| Grammar.UnmaskPlain | src/adap-b01/names/Name.ts:35-48 | a component without backslashes is displayed as stored |
| Grammar.UnmaskAllPlain | src/adap-b01/names/Name.ts:38-46 | unmasking every component keeps a list without backslashes unchanged |
| Grammar.JoinAppend | src/adap-b01/names/Name.ts:47 | `join` of a list with one more element adds one separator and that element (nothing for the first) |
| Grammar.DelimiterOrDefault | src/adap-b01/names/Name.ts:25-27 | an absent or empty delimiter argument keeps `.`, otherwise the given character is used |
| Grammar.Inserted | src/adap-b01/names/Name.ts:83-89 | `splice(i, 0, c)`: one element more, c at i, elements before i kept, elements after shifted up |
| Grammar.Removed | src/adap-b01/names/Name.ts:97-103 | `splice(i, 1)`: one element less, elements before i kept, later ones shifted down |
| Grammar.Tokenize | src/adap-b02/names/StringName.ts:20-27 | the empty text and only it has no components |
| Grammar.FirstSepFrom | src/adap-b02/names/StringName.ts:25-26 | the first separator at or after a position: holds the delimiter, not preceded by a backslash, and none before it |
| Grammar.JoinTokenize | src/adap-b02/names/StringName.ts:20-27 | joining the tokens with the delimiter gives back the text |
| Grammar.TokenizeParseable | src/adap-b02/names/StringName.ts:20-27 | every text tokenizes to a parseable list |
| Grammar.TokenizeJoin | src/adap-b02/names/StringName.ts:83-91 | a parseable list survives joining and tokenizing |
| Grammar.TokenizeInjective | src/adap-b02/names/StringName.ts:20-27 | texts with the same tokens are equal |
| Grammar.Split | src/adap-b02/names/StringName.ts:24-26 | `split` always yields at least one piece, even for the empty text |
| Grammar.ParseableIff | src/adap-b02/names/StringName.ts:20-27 | a list survives joining and tokenizing exactly when it is parseable |
| Grammar.SplitJoin | src/adap-b02/names/StringName.ts:24-26 | splitting the join of a nonempty well-formed list gives the list |
| Grammar.JoinSplit | src/adap-b02/names/StringName.ts:24-26 | joining the pieces of a split gives the text |
| Grammar.SplitWellFormed | src/adap-b02/names/StringName.ts:24-26 | the pieces of a split are well formed |
| Grammar.SplitPlain | src/adap-b02/names/StringName.ts:24-26 | a text without backslashes splits into components without backslashes |
| Grammar.RenderedPlain | src/adap-b02/names/StringName.ts:38-50 | a text without backslashes is displayed as stored with its own delimiter |
| Grammar.AppendedTextAgrees | src/adap-b02/names/StringName.ts:103-110 | on a parseable result, the text-building append equals appending a token |
| Grammar.AppendedTextsExtend | src/adap-b02/names/StringName.ts:103-110 | appends onto a name that does not count as empty only extend its text |
| Grammar.AppendedTextsStep | src/adap-b02/names/StringName.ts:123-126 | one more iteration of concat's loop appends the next component, seeing the cached emptiness only the first time |
| Grammar.AppendableInOrderPrefix | src/adap-b02/names/StringName.ts:122-127 | every intermediate list of an in-order append is parseable when the final one is |
| Grammar.AppendedTextsAgree | src/adap-b02/names/StringName.ts:122-127 | repeated text-building appends equal appending the tokens in order |
| Grammar.ConcatLosesLeadingEmpty | src/adap-b02/names/StringName.ts:103-110 | concat of `["", "a"]` onto an empty string-backed name yields `["a"]`, though `["", "a"]` is parseable |
| Grammar.ExampleOhDotsTokens | src/adap-b01/names/Name.ts:14 | `Oh\.\.\.` with `.` is one component |
| Grammar.ExampleOhDotsUnmask | src/adap-b01/names/Name.ts:14 | `Oh\.\.\.` is displayed as `Oh...` |
| Grammar.LookbehindIgnoresParity | src/adap-b02/names/StringName.ts:24-26 | in `a\\.b` the delimiter after an escaped backslash does not split |
| Grammar.RoundTripLosesSingleEmpty | src/adap-b02/names/StringName.ts:20-23 | `[""]` joins to the empty text, which has no components |
| Grammar.RoundTripLosesTrailingEscape | src/adap-b02/names/StringName.ts:24-26 | `["a\", "b"]` joins to `a\.b`, which is one component |
| NameCore.AsString | src/adap-b03/names/AbstractName.ts:17-38 | every reported component unmasked with the own delimiter and joined with d, or the index error when a component cannot be fetched |
| NameCore.AsStringChecked | src/adap-b05/names/AbstractName.ts:26-47 | an absent delimiter means the own one; one not of length 1 is IllegalArgument; otherwise as AsString |
| NameCore.AsDataString | src/adap-b03/names/AbstractName.ts:44-51 | the masked components joined with `.`, or the index error |
| NameCore.ToString | src/adap-b03/names/AbstractName.ts:40-42 | `toString` is the data string |
| NameCore.IsEmpty | src/adap-b03/names/AbstractName.ts:85-87 | empty exactly when the reported count is 0 |
| NameCore.IsEqual | src/adap-b03/names/AbstractName.ts:53-70 | false for null or a different count; otherwise the components are compared index by index, delimiters ignored; an error only when a component cannot be fetched |
| NameCore.SameComponentsIsEquivalence | src/adap-b03/names/AbstractName.ts:53-70 | isEqual's comparison is reflexive, symmetric and transitive |
| NameCore.SameComponentsMeansEqualLists | src/adap-b03/names/AbstractName.ts:62-68 | componentwise equality is equality of the component lists |
| NameCore.SameComponentsRenderAlike | src/adap-b03/names/AbstractName.ts:17-51 | names with equal components and own delimiter render and serialise alike, whatever the backing |
| NameCore.ToInt32 | src/adap-b03/names/AbstractName.ts:79-80 | `x \| 0` lies in the signed 32-bit range and differs from x by a multiple of 2^32 |
| NameCore.ShiftStep | src/adap-b03/names/AbstractName.ts:79-80 | `((h << 5) - h + c) \| 0` is the wrapped step 31·h + c |
| NameCore.ToInt32Periodic | src/adap-b03/names/AbstractName.ts:80 | ToInt32 ignores multiples of 2^32 |
| NameCore.HashOf | src/adap-b03/names/AbstractName.ts:72-83 | the reference hash, h := ToInt32(31·h + code) per character, is a signed 32-bit value |
| NameCore.GetHashCode | src/adap-b03/names/AbstractName.ts:72-83 | the wrapped 31-polynomial hash of the data string, a signed 32-bit value |
| NameCore.EqualNamesHashAlike | src/adap-b05/names/AbstractName.ts:79-88 | names equal by isEqual hash alike |
| NameCore.DataStringRoundTripNeedsDefaultMasking | src/adap-b03/names/AbstractName.ts:44-51 | `["a.b"]` under `/` is parseable, but its data string tokenizes to `["a", "b"]` |
| NameCore.CheckedDelimiter | src/adap-b05/names/AbstractName.ts:11-19 | absent means `.`; otherwise exactly one character, else IllegalArgument |
| NameCore.AssertClassInvariant | src/adap-b05/names/AbstractName.ts:117-119 | InvalidState exactly when the delimiter is not one character |
| NameCore.ConstructedDelimiterKeepsInvariant | src/adap-b06/names/AbstractName.ts:10-18 | a delimiter the constructor accepts passes the invariant check |
| NameCore.AbstractClone | src/adap-b05/names/AbstractName.ts:21-24 | the abstract clone always raises |
| NameCore.AppendAll | src/adap-b06/names/AbstractName.ts:103-116 | the left fold of appends: nothing to append leaves the start; an append that never fails makes the fold never fail |
| NameCore.ConcatSpec | src/adap-b03/names/AbstractName.ts:102-106 | a stale other always ends in an error; a consistent other with an append that never fails never does |
| NameCore.AppendAllStopped | src/adap-b06/names/AbstractName.ts:110-112 | after a failed append, later components change nothing |
| NameCore.AppendEach | src/adap-b03/names/AbstractName.ts:102-106 | the concat loop is the left-to-right append of the reported components, stopping at the first error |
| NameCore.ConcatInPlace | src/adap-b05/names/AbstractName.ts:107-114 | null other is IllegalArgument; otherwise the receiver reaches the state of the appends |
| NameCore.ConcatFold | src/adap-b06/names/AbstractName.ts:103-116 | null other is IllegalArgument; otherwise the fold's last result or its first error; the receiver is a value and is not changed |
| NamesB01.Name.constructor | src/adap-b01/names/Name.ts:22-28 | copies the caller's components; a falsy delimiter keeps `.` |
| NamesB01.Name.AsString | src/adap-b01/names/Name.ts:30-48 | the empty name renders as ""; components without backslashes are joined as stored; fully escaped components are joined as their intended texts |
| NamesB01.Name.AsDataString | src/adap-b01/names/Name.ts:50-58 | the masked components joined with `.`; it tokenizes back to components that are parseable for `.` |
| NamesB01.Name.GetComponent | src/adap-b01/names/Name.ts:60-66 | component i for 0 <= i < count, otherwise the index error |
| NamesB01.Name.SetComponent | src/adap-b01/names/Name.ts:69-75 | replaces exactly index i; out of range, an error and no change |
| NamesB01.Name.GetNoComponents | src/adap-b01/names/Name.ts:78-80 | the number of components |
| NamesB01.Name.Insert | src/adap-b01/names/Name.ts:83-89 | accepts 0 <= i <= count and inserts c at i; otherwise an error and no change |
| NamesB01.Name.Append | src/adap-b01/names/Name.ts:92-95 | c becomes the last component |
| NamesB01.Name.Remove | src/adap-b01/names/Name.ts:97-103 | removes index i for 0 <= i < count; otherwise an error and no change |
| NamesB01.ExampleHostName | src/adap-b01/names/Name.ts:12 | `oss.cs.fau.de` has four components, and so do its data string and display |
| NamesB01.ExampleFourEmpty | src/adap-b01/names/Name.ts:13 | four empty components under `/` display as `///`; their data string is `...` |
| NamesB01.ExampleOhDots | src/adap-b01/names/Name.ts:14 | one component `Oh\.\.\.` displays as `Oh...` |
| NamesB01.CopiedComponents | src/adap-b01/names/Name.ts:22-28 | changing the caller's array after construction leaves the name unchanged |
| NamesB02.StringArrayName.constructor | src/adap-b02/names/StringArrayName.ts:9-15 | copies the components; a falsy delimiter keeps `.` |
| NamesB02.StringArrayName.AsString | src/adap-b02/names/StringArrayName.ts:17-29 | components without backslashes are joined by d as stored; fully escaped components are joined as their intended texts |
| NamesB02.StringArrayName.AsDataString | src/adap-b02/names/StringArrayName.ts:31-34 | the masked components joined with `.`; it tokenizes back to components that are parseable for `.` |
| NamesB02.StringArrayName.GetDelimiterCharacter | src/adap-b02/names/StringArrayName.ts:36-38 | the delimiter chosen at construction |
| NamesB02.StringArrayName.IsEmpty | src/adap-b02/names/StringArrayName.ts:40-42 | empty exactly when there are no components |
| NamesB02.StringArrayName.GetNoComponents | src/adap-b02/names/StringArrayName.ts:44-46 | the number of components |
| NamesB02.StringArrayName.GetComponent | src/adap-b02/names/StringArrayName.ts:48-54 | component i in range, otherwise the index error |
| NamesB02.StringArrayName.SetComponent | src/adap-b02/names/StringArrayName.ts:56-61 | replaces exactly index i; out of range, an error and no change |
| NamesB02.StringArrayName.Insert | src/adap-b02/names/StringArrayName.ts:63-68 | inserts at 0 <= i <= count; otherwise an error and no change |
| NamesB02.StringArrayName.Append | src/adap-b02/names/StringArrayName.ts:70-73 | c becomes the last component |
| NamesB02.StringArrayName.Remove | src/adap-b02/names/StringArrayName.ts:75-80 | removes index i in range; otherwise an error and no change |
| NamesB02.StringArrayName.Concat | src/adap-b02/names/StringArrayName.ts:82-88 | other's components follow the receiver's, in order; a missing one raises other's error after those before it |
| NamesB02.StringName.Tokens | src/adap-b02/names/StringName.ts:20-27 | the components computed afresh: none exactly for the empty text |
| NamesB02.StringName.constructor | src/adap-b02/names/StringName.ts:10-17 | keeps the text; a falsy delimiter keeps `.`; the count is fresh |
| NamesB02.StringName.UpdateComponentCount | src/adap-b02/names/StringName.ts:30-36 | the cached count becomes the number of tokens |
| NamesB02.StringName.AsString | src/adap-b02/names/StringName.ts:38-50 | the fresh tokens rendered; a text without backslashes shown with its own delimiter is the text |
| NamesB02.StringName.AsDataString | src/adap-b02/names/StringName.ts:52-60 | the text itself under `.` and the re-joined tokens otherwise are both the data string of the tokens |
| NamesB02.StringName.GetDelimiterCharacter | src/adap-b02/names/StringName.ts:62-64 | the delimiter chosen at construction |
| NamesB02.StringName.IsEmpty | src/adap-b02/names/StringName.ts:66-68 | empty when the cached count is 0, which on a fresh count means the empty text |
| NamesB02.StringName.GetNoComponents | src/adap-b02/names/StringName.ts:70-72 | the cached count |
| NamesB02.StringName.GetComponent | src/adap-b02/names/StringName.ts:74-81 | token i of a fresh tokenization, bounds checked against it |
| NamesB02.StringName.SetComponent | src/adap-b02/names/StringName.ts:83-91 | re-joins the edited tokens and leaves the count alone; the tokens become the edited list when that is parseable |
| NamesB02.StringName.Insert | src/adap-b02/names/StringName.ts:93-101 | re-joins the spliced tokens and refreshes the count; the tokens become the spliced list when that is parseable |
| NamesB02.StringName.Append | src/adap-b02/names/StringName.ts:103-110 | c alone when the count is 0, else text + delimiter + c; fresh count; on a fresh count and a parseable result, one token more |
| NamesB02.StringName.Remove | src/adap-b02/names/StringName.ts:112-120 | re-joins the tokens without i and refreshes the count; the tokens become that list unless it is `[""]` |
| NamesB02.StringName.Concat | src/adap-b02/names/StringName.ts:122-127 | the text repeated appends build; on a fresh count, other's components follow when every intermediate list is parseable |
| NamesB02.StaleName | src/adap-b02/names/StringName.ts:83-91 | `a.b` after setComponent(0, `x.y`) has three tokens and still reports two |
| NamesB03.Clone | src/adap-b03/names/StringName.ts:16-19 | a new name over the same text and delimiter with a fresh count; equal to the original when its count was fresh |
| NamesB03.StaleCountHidesComponent | src/adap-b03/names/StringName.ts:34-42 | after a stale setComponent, asString drops a component and the clone is not isEqual to the original |
| NamesB03.StaleCountRaises | src/adap-b03/names/AbstractName.ts:22-25 | a stale count larger than the tokens makes asString raise the index error |
| NamesB04.StringArrayName.New | src/adap-b04/names/StringArrayName.ts:12-19 | null source is IllegalArgument; otherwise a copy |
| NamesB04.StringArrayName.Clone | src/adap-b04/names/StringArrayName.ts:21-23 | a fresh object with the same components and delimiter |
| NamesB04.StringArrayName.GetNoComponents | src/adap-b04/names/StringArrayName.ts:25-27 | the number of components |
| NamesB04.StringArrayName.GetComponent | src/adap-b04/names/StringArrayName.ts:29-34 | component i in range, otherwise IllegalArgument |
| NamesB04.StringArrayName.SetComponent | src/adap-b04/names/StringArrayName.ts:36-46 | bad index or null c is IllegalArgument; otherwise index i is c and MethodFailed never happens |
| NamesB04.StringArrayName.Insert | src/adap-b04/names/StringArrayName.ts:48-60 | bad index or null c is IllegalArgument; otherwise c is inserted and the count+1 check always passes |
| NamesB04.StringArrayName.Append | src/adap-b04/names/StringArrayName.ts:62-73 | null c is IllegalArgument; otherwise c is last and the count+1 check always passes |
| NamesB04.StringArrayName.Remove | src/adap-b04/names/StringArrayName.ts:75-86 | bad index is IllegalArgument; otherwise index i is removed and the count−1 check always passes |
| NamesB04.Assigned | src/adap-b04/names/StringName.ts:45 | `a[i] = c` past the end grows the array, and the holes join as "" |
| NamesB04.SplicedIn | src/adap-b04/names/StringName.ts:60 | `splice(i, 0, c)` with a start past the end appends |
| NamesB04.SplicedOut | src/adap-b04/names/StringName.ts:94 | `splice(i, 1)` with a start past the end removes nothing |
| NamesB04.StringName.Tokens | src/adap-b04/names/StringName.ts:104-110 | the components computed afresh; joined again they give the text, and there are none exactly for the empty text |
| NamesB04.StringName.New | src/adap-b04/names/StringName.ts:13-21 | null source is IllegalArgument; otherwise the text with a fresh count |
| NamesB04.StringName.Clone | src/adap-b04/names/StringName.ts:23-25 | a fresh object with the same text and delimiter and a fresh count |
| NamesB04.StringName.UpdateComponentCount | src/adap-b04/names/StringName.ts:112-118 | the cached count becomes the number of tokens |
| NamesB04.StringName.GetNoComponents | src/adap-b04/names/StringName.ts:27-29 | the cached count |
| NamesB04.StringName.GetComponent | src/adap-b04/names/StringName.ts:31-37 | bounds checked against the cached count; a fresh token, or undefined past the tokens |
| NamesB04.StringName.SetComponent | src/adap-b04/names/StringName.ts:39-50 | bounds checked against the cached count; re-joins the assigned list, holes included; the count is not refreshed |
| NamesB04.StringName.Insert | src/adap-b04/names/StringName.ts:52-67 | re-joins the spliced list and refreshes the count; MethodFailed exactly when the count did not grow by one; never on a fresh count and a parseable result |
| NamesB04.StringName.Append | src/adap-b04/names/StringName.ts:69-85 | builds the text by the cached emptiness; MethodFailed exactly when the count did not grow by one; never on a fresh count and a parseable result |
| NamesB04.StringName.Remove | src/adap-b04/names/StringName.ts:87-101 | re-joins the spliced list and refreshes the count; MethodFailed exactly when the count did not shrink by one; never on a fresh count unless `[""]` remains |
| NamesB04.AppendEmptyToEmptyFails | src/adap-b04/names/StringName.ts:69-85 | appending "" to an empty name raises MethodFailed |
| NamesB04.AppendUnmaskedDelimiterFails | src/adap-b04/names/StringName.ts:69-85 | appending `b.c` to `a` raises MethodFailed |
| NamesB04.InsertEmptyIntoEmptyFails | src/adap-b04/names/StringName.ts:52-67 | inserting "" into an empty name raises MethodFailed |
| NamesB04.RemoveFromDotFails | src/adap-b04/names/StringName.ts:87-101 | removing either component of `.` raises MethodFailed |
| NamesB04.StaleCountYieldsUndefined | src/adap-b04/names/StringName.ts:31-50 | after setComponent(0, `x\`) on `a.b`, getComponent(1) passes the check and yields undefined |
| NamesB06.NewArrayName | src/adap-b06/names/StringArrayName.ts:11-16 | a bad delimiter or a null source is IllegalArgument; otherwise a copy |
| NamesB06.ArrayClone | src/adap-b06/names/StringArrayName.ts:18-20 | the clone is equal to the original |
| NamesB06.ArrayView | src/adap-b06/names/StringArrayName.ts:22-29 | every reported component can be fetched, and they are the stored ones |
| NamesB06.ArrayGetComponent | src/adap-b06/names/StringArrayName.ts:26-29 | component i in range, otherwise IllegalArgument |
| NamesB06.ArraySetComponent | src/adap-b06/names/StringArrayName.ts:31-42 | a new name with only index i replaced; bad index or null c is IllegalArgument |
| NamesB06.ArrayInsert | src/adap-b06/names/StringArrayName.ts:44-52 | a new name with c inserted; bad index or null c is IllegalArgument |
| NamesB06.ArrayAppend | src/adap-b06/names/StringArrayName.ts:54-61 | a new name with c last; null c is IllegalArgument |
| NamesB06.ArrayRemove | src/adap-b06/names/StringArrayName.ts:63-70 | a new name without index i; bad index is IllegalArgument |
| NamesB06.ArrayAppendComponent | src/adap-b06/names/StringArrayName.ts:54-61 | append as concat's fold calls it: always succeeds, with c after the old components |
| NamesB06.ArrayAppendAll | src/adap-b06/names/AbstractName.ts:110-112 | folding appends over components never fails and adds them in order |
| NamesB06.ArrayConcat | src/adap-b06/names/AbstractName.ts:103-116 | concat onto an array-backed name: this's components, then other's |
| NamesB06.ArrayConcatNames | src/adap-b06/names/AbstractName.ts:103-116 | the fold as written returns the joined component list, or IllegalArgument for null |
| NamesB06.Tokens | src/adap-b06/names/StringName.ts:81-87 | the components computed afresh; joined again they give the text, and there are none exactly for the empty text |
| NamesB06.Count | src/adap-b06/names/StringName.ts:89-95 | the count is 0 exactly for the empty text |
| NamesB06.NewStringName | src/adap-b06/names/StringName.ts:12-18 | a bad delimiter or a null source is IllegalArgument; otherwise the text |
| NamesB06.StringClone | src/adap-b06/names/StringName.ts:20-22 | the clone is equal to the original |
| NamesB06.StringView | src/adap-b06/names/StringName.ts:24-32 | the count is always fresh, so every reported component can be fetched |
| NamesB06.StringGetComponent | src/adap-b06/names/StringName.ts:28-32 | token i in range, otherwise IllegalArgument |
| NamesB06.StringSetComponent | src/adap-b06/names/StringName.ts:34-44 | succeeds exactly for an index in range and a non-null c |
| NamesB06.StringInsert | src/adap-b06/names/StringName.ts:46-55 | succeeds exactly for 0 <= i <= count and a non-null c |
| NamesB06.StringAppend | src/adap-b06/names/StringName.ts:57-68 | c alone on the empty text, else text + delimiter + c; null c is IllegalArgument |
| NamesB06.StringRemove | src/adap-b06/names/StringName.ts:70-78 | succeeds exactly for an index in range |
| NamesB06.StringAppendComponent | src/adap-b06/names/StringName.ts:57-68 | append as concat's fold calls it: always succeeds, keeps the delimiter, and on a parseable result adds c as the last token |
| NamesB06.AsArrayName | src/adap-b06/names/StringName.ts:81-87 | the array-backed name over the tokens |
| NamesB06.BackingsAreEqual | src/adap-b06/names/AbstractName.ts:59-84 | a string-backed name is isEqual to the array-backed name over its tokens, and they hash alike |
| NamesB06.SetComponentAgrees | src/adap-b06/names/StringName.ts:34-44 | on a parseable result, string-backed setComponent equals the array-backed one |
| NamesB06.InsertAgrees | src/adap-b06/names/StringName.ts:46-55 | on a parseable result, string-backed insert equals the array-backed one |
| NamesB06.AppendAgrees | src/adap-b06/names/StringName.ts:57-68 | on a parseable result, string-backed append equals the array-backed one |
| NamesB06.RemoveAgrees | src/adap-b06/names/StringName.ts:70-78 | unless `[""]` remains, string-backed remove equals the array-backed one |
| NamesB06.AppendEmptyToEmpty | src/adap-b06/names/StringName.ts:57-68 | append("") on an empty name returns a name with no components |
| NamesB06.StringAppendAll | src/adap-b06/names/AbstractName.ts:110-112 | folding appends onto a string-backed name builds the text repeated appends build |
| NamesB06.StringConcat | src/adap-b06/names/AbstractName.ts:103-116 | concat onto a string-backed name appends other's tokens when every intermediate list is parseable |
| NamesB06.StringConcatNames | src/adap-b06/names/AbstractName.ts:103-116 | the fold as written onto a string-backed name: IllegalArgument for null, otherwise the built text |
| FilesB02.ObjFile.constructor | src/adap-b02/files2/ObjFile.ts:5-8 | a new file is closed, empty, and its length is 0 |
| FilesB02.ObjFile.IsEmpty | src/adap-b02/files2/ObjFile.ts:10-12 | empty exactly when the length is 0, that is, when there is no data |
| FilesB02.ObjFile.IsOpen | src/adap-b02/files2/ObjFile.ts:14-16 | the open flag |
| FilesB02.ObjFile.IsClosed | src/adap-b02/files2/ObjFile.ts:18-20 | always the negation of IsOpen |
| FilesB02.ObjFile.Open | src/adap-b02/files2/ObjFile.ts:22-25 | an open file raises "not closed"; a closed one becomes open; data unchanged |
| FilesB02.ObjFile.Read | src/adap-b02/files2/ObjFile.ts:27-31 | the data when open, otherwise "not open"; nothing changes |
| FilesB02.ObjFile.Write | src/adap-b02/files2/ObjFile.ts:33-38 | when open, the data and length become the new data's; otherwise "not open" and no change |
| FilesB02.ObjFile.Close | src/adap-b02/files2/ObjFile.ts:40-44 | when open, the file becomes closed; otherwise "not open" |
| FilesB02.ObjFile.Delete | src/adap-b02/files2/ObjFile.ts:46-51 | when closed, the data is emptied and the file stays closed; otherwise "not closed" |
| FilesB02.LifeCycle | src/adap-b02/files2/ObjFile.ts:22-51 | reading a closed file fails, what was written is read back, and a deleted file is empty and closed |
| FilesB04.File.constructor | src/adap-b04/files/File.ts:14-18 | a new file is CLOSED |
| FilesB04.File.DoGetFileState | src/adap-b04/files/File.ts:44-46 | the current state |
| FilesB04.File.Open | src/adap-b04/files/File.ts:20-26 | IllegalArgument unless CLOSED, then OPEN; never DELETED |
| FilesB04.File.Read | src/adap-b04/files/File.ts:28-34 | IllegalArgument unless OPEN; otherwise an empty array for any count; nothing changes |
| FilesB04.File.Close | src/adap-b04/files/File.ts:36-42 | IllegalArgument unless OPEN, then CLOSED; never DELETED |
| FilesB04.Reopen | src/adap-b04/files/File.ts:20-42 | opening twice fails, and a closed file opens again |

## Left out

- Concat aliasing: concat takes the other name as a `View` snapshot, so the model does not capture `a.concat(a)`. In the mutable versions that call re-reads the growing count on every iteration and does not terminate.
- Concat with a failing append: a fifth-version concrete name is not available, so `NameCore.ConcatInPlace` does not know any concrete append. It is generic in the receiver's state and its append.
- Delimiters of more than one character in the first three versions: the constructors there do not reject them. The model's own delimiter is a character, so the constructors require an argument of at most one character. The third version's `AbstractName` constructor also keeps an empty delimiter, which is likewise not modelled.
- Regular-expression metacharacters: the tokenizer builds a `RegExp` from the delimiter and escapes only `.`. The model treats every delimiter literally. A backslash delimiter, which makes that expression invalid, is not modelled separately.
- Non-integer indices: indices are integers. JavaScript would accept a fractional index, fail the bound checks that compare it, and set a property on the array.
- Characters as UTF-16 units: the hash counts each Dafny `char` as one code unit. Characters outside the Basic Multilingual Plane are not modelled.
- Constructor arguments that are not null checked: null or undefined `source` in the first three versions and the array argument of `ObjFile.write` are not modelled. The code would fail with a JavaScript TypeError on them.
- The fourth version's `AbstractName`, and `Node` and `Directory`, are not part of this model.
  - The fourth-version classes therefore take their delimiter as a character. Their `isEmpty` is taken to be "the cached count is 0", the same as the third version's. The `assertClassInvariant` calls are not modelled.
  - `File`'s constructor arguments, `baseName` and `parent`, go to `Node` and are left out.
- The fifth version's `File`, `RootNode` and `Directory` are not part of this model. The first is an exception-driven retry loop around a stub. The other two depend on classes that are not available.
- `NamesB06.StringSetComponent`, `NamesB06.StringInsert`, `NamesB06.StringRemove`: their own contracts state only when they succeed. The resulting tokens are stated by `SetComponentAgrees`, `InsertAgrees` and `RemoveAgrees`, under parseability.
- `NamesB06.StringName`: it does not store the cached count, because an immutable name's count is always the one its constructor computed (`Count`).
