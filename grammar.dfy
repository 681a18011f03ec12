/** The escape grammar of names: unmasking, joining, and the string-backed names' tokenizer,
    together with the edits on component lists that every backing performs. */
module Grammar {
  import opened Common

  /** The fixed escape character. */
  const ESC: char := '\\'

  /** The default delimiter, also the one every data string uses. */
  const DEFAULT_DELIMITER: char := '.'

  // ---------------------------------------------------------------------------------------------
  // Unmasking

  /** JavaScript's `s.replaceAll(a + b, rep)` for a two-character pattern: leftmost matches first,
      a replaced match is not scanned again. */
  function ReplacePair(s: string, a: char, b: char, rep: string): (r: string)
    ensures |rep| <= 2 ==> |r| <= |s|
    decreases |s|
  {
    if |s| < 2 then s
    else if s[0] == a && s[1] == b then rep + ReplacePair(s[2..], a, b, rep)
    else [s[0]] + ReplacePair(s[1..], a, b, rep)
  }

  /** A text in which the pattern's first character does not occur is left as it is. */
  lemma {:induction false} ReplacePairAbsent(s: string, a: char, b: char, rep: string)
    requires a !in s
    ensures ReplacePair(s, a, b, rep) == s
    decreases |s|
  {
    if |s| >= 2 {
      ReplacePairAbsent(s[1..], a, b, rep);
    }
  }

  /** A component made human-readable with its own delimiter d: escape+d becomes d, then a
      doubled escape becomes one escape. */
  function Unmask(c: string, d: char): (r: string)
    ensures |r| <= |c|
  {
    ReplacePair(ReplacePair(c, ESC, d, [d]), ESC, ESC, [ESC])
  }

  /** A component without any escape character is displayed exactly as stored. */
  lemma UnmaskPlain(c: string, d: char)
    requires ESC !in c
    ensures Unmask(c, d) == c
  {
    ReplacePairAbsent(c, ESC, d, [d]);
    ReplacePairAbsent(c, ESC, ESC, [ESC]);
  }

  /** Every component unmasked with the same own delimiter. */
  function UnmaskAll(cs: seq<string>, d: char): (r: seq<string>)
    ensures |r| == |cs|
    ensures forall i :: 0 <= i < |cs| ==> r[i] == Unmask(cs[i], d)
  {
    seq(|cs|, i requires 0 <= i < |cs| => Unmask(cs[i], d))
  }

  /** Components without any escape character are displayed exactly as stored. */
  lemma UnmaskAllPlain(cs: seq<string>, d: char)
    requires forall i :: 0 <= i < |cs| ==> ESC !in cs[i]
    ensures UnmaskAll(cs, d) == cs
  {
    forall i | 0 <= i < |cs| ensures UnmaskAll(cs, d)[i] == cs[i] {
      UnmaskPlain(cs[i], d);
    }
  }

  /** c is fully escaped for d: read from the left, every ESC starts a pair whose second
      character is d or ESC, and no delimiter stands alone. This is the masking a component
      must carry for its display to be its intended text. */
  predicate Escaped(c: string, d: char)
    decreases |c|
  {
    if c == "" then true
    else if c[0] == ESC then |c| >= 2 && (c[1] == d || c[1] == ESC) && Escaped(c[2..], d)
    else c[0] != d && Escaped(c[1..], d)
  }

  /** The intended text of a fully escaped component: each pair stands for its second character. */
  function Unescaped(c: string, d: char): string
    requires Escaped(c, d)
    decreases |c|
  {
    if c == "" then ""
    else if c[0] == ESC then [c[1]] + Unescaped(c[2..], d)
    else [c[0]] + Unescaped(c[1..], d)
  }

  /** Masking a raw text for d: every delimiter and every escape gets an escape before it. */
  function Escape(u: string, d: char): string
    decreases |u|
  {
    if u == "" then ""
    else if u[0] == d || u[0] == ESC then [ESC, u[0]] + Escape(u[1..], d)
    else [u[0]] + Escape(u[1..], d)
  }

  /** Escape and Unescaped are inverse: masking any raw text gives a fully escaped component
      whose intended text is the raw one. */
  lemma {:induction false} EscapeUnescaped(u: string, d: char)
    ensures Escaped(Escape(u, d), d) && Unescaped(Escape(u, d), d) == u
    decreases |u|
  {
    if u != "" {
      EscapeUnescaped(u[1..], d);
      var e := Escape(u, d);
      if u[0] == d || u[0] == ESC {
        assert e[2..] == Escape(u[1..], d);
      } else {
        assert e[1..] == Escape(u[1..], d);
      }
    }
  }

  /** The text between the two replaceAll passes: escaped delimiters are unmasked, escaped
      escapes are still doubled. */
  function DelimitersUnmasked(c: string, d: char): string
    requires Escaped(c, d)
    decreases |c|
  {
    if c == "" then ""
    else if c[0] == ESC && c[1] == d then [d] + DelimitersUnmasked(c[2..], d)
    else if c[0] == ESC then [ESC, ESC] + DelimitersUnmasked(c[2..], d)
    else [c[0]] + DelimitersUnmasked(c[1..], d)
  }

  /** The first pass scans a fully escaped component pair by pair: the second ESC of a doubled
      escape is never taken for the start of an escaped delimiter. */
  lemma {:induction false} FirstPassEscaped(c: string, d: char)
    requires d != ESC && Escaped(c, d)
    ensures ReplacePair(c, ESC, d, [d]) == DelimitersUnmasked(c, d)
    decreases |c|
  {
    if c != "" {
      if c[0] == ESC {
        FirstPassEscaped(c[2..], d);
        if c[1] == ESC {
          var rest := c[1..];
          assert rest[1..] == c[2..];
          assert ReplacePair(c, ESC, d, [d]) == [ESC] + ReplacePair(rest, ESC, d, [d]);
        }
      } else {
        FirstPassEscaped(c[1..], d);
      }
    }
  }

  /** The second pass collapses the doubled escapes the first pass left. */
  lemma {:induction false} SecondPassEscaped(c: string, d: char)
    requires d != ESC && Escaped(c, d)
    ensures ReplacePair(DelimitersUnmasked(c, d), ESC, ESC, [ESC]) == Unescaped(c, d)
    decreases |c|
  {
    if c != "" {
      var t := DelimitersUnmasked(c, d);
      if c[0] == ESC {
        SecondPassEscaped(c[2..], d);
        if c[1] == d {
          assert t[1..] == DelimitersUnmasked(c[2..], d);
        } else {
          assert t[2..] == DelimitersUnmasked(c[2..], d);
        }
      } else {
        SecondPassEscaped(c[1..], d);
        assert t[1..] == DelimitersUnmasked(c[1..], d);
      }
    }
  }

  /** The displayed form of a fully escaped component is its intended text: an escaped delimiter
      shows as the delimiter and an escaped escape as one escape. */
  lemma UnmaskEscaped(c: string, d: char)
    requires d != ESC && Escaped(c, d)
    ensures Unmask(c, d) == Unescaped(c, d)
  {
    FirstPassEscaped(c, d);
    SecondPassEscaped(c, d);
  }

  /** Every fully escaped component of a list shown as its intended text. */
  function UnescapedAll(cs: seq<string>, d: char): (r: seq<string>)
    requires forall i :: 0 <= i < |cs| ==> Escaped(cs[i], d)
    ensures |r| == |cs|
  {
    seq(|cs|, i requires 0 <= i < |cs| => Unescaped(cs[i], d))
  }

  lemma UnmaskAllEscaped(cs: seq<string>, d: char)
    requires d != ESC && forall i :: 0 <= i < |cs| ==> Escaped(cs[i], d)
    ensures UnmaskAll(cs, d) == UnescapedAll(cs, d)
  {
    forall i | 0 <= i < |cs| ensures UnmaskAll(cs, d)[i] == UnescapedAll(cs, d)[i] {
      UnmaskEscaped(cs[i], d);
    }
  }

  // ---------------------------------------------------------------------------------------------
  // Joining

  /** JavaScript's `cs.join(sep)`: the empty list gives "", separators only between elements. */
  function Join(cs: seq<string>, sep: string): (r: string)
  {
    if |cs| == 0 then ""
    else if |cs| == 1 then cs[0]
    else cs[0] + sep + Join(cs[1..], sep)
  }

  /** A join of two or more components is longer than its first component and a separator. */
  lemma JoinLength(cs: seq<string>, sep: string)
    requires |cs| >= 2
    ensures |Join(cs, sep)| >= |cs[0]| + |sep|
  {
  }

  /** Joining a list with one more element at the end adds one separator and that element. */
  lemma {:induction false} JoinAppend(cs: seq<string>, c: string, sep: string)
    ensures Join(cs + [c], sep) == if cs == [] then c else Join(cs, sep) + sep + c
    decreases |cs|
  {
    if |cs| >= 2 {
      assert (cs + [c])[1..] == cs[1..] + [c];
      JoinAppend(cs[1..], c, sep);
    } else if |cs| == 1 {
      assert (cs + [c])[1..] == [c];
    }
  }

  /** The human-readable form (`asString`): components unmasked with the own delimiter, joined with d. */
  function Rendered(cs: seq<string>, own: char, d: string): (r: string)
    ensures (forall i :: 0 <= i < |cs| ==> ESC !in cs[i]) ==> r == Join(cs, d)
    ensures own != ESC && (forall i :: 0 <= i < |cs| ==> Escaped(cs[i], own)) ==>
              r == Join(UnescapedAll(cs, own), d)
  {
    var plain := forall i :: 0 <= i < |cs| ==> ESC !in cs[i];
    var escaped := own != ESC && forall i :: 0 <= i < |cs| ==> Escaped(cs[i], own);
    if plain && escaped then
      UnmaskAllPlain(cs, own); UnmaskAllEscaped(cs, own); Join(UnmaskAll(cs, own), d)
    else if plain then
      UnmaskAllPlain(cs, own); Join(UnmaskAll(cs, own), d)
    else if escaped then
      UnmaskAllEscaped(cs, own); Join(UnmaskAll(cs, own), d)
    else Join(UnmaskAll(cs, own), d)
  }

  /** The delimiter of the first two versions' constructors: an absent or empty argument
      (JavaScript's falsy check) keeps the default. */
  function DelimiterOrDefault(d: Option<string>): (r: char)
    requires d.None? || |d.value| <= 1
    ensures d.Some? && |d.value| == 1 ==> r == d.value[0]
    ensures d.None? || d.value == "" ==> r == DEFAULT_DELIMITER
  {
    if d.Some? && d.value != "" then d.value[0] else DEFAULT_DELIMITER
  }

  // ---------------------------------------------------------------------------------------------
  // Tokenizing (a delimiter splits unless the character directly before it is the escape)

  /** Position k of s is a separator: it holds the delimiter and is not directly preceded by ESC. */
  predicate IsSep(s: string, d: char, k: int)
    requires 0 <= k < |s|
  {
    s[k] == d && (k == 0 || s[k - 1] != ESC)
  }

  /** The first separator at or after position i, or |s| when there is none. */
  function FirstSepFrom(s: string, d: char, i: nat): (k: nat)
    requires i <= |s|
    ensures i <= k <= |s|
    ensures k < |s| ==> IsSep(s, d, k)
    ensures forall j :: i <= j < k ==> !IsSep(s, d, j)
    decreases |s| - i
  {
    if i == |s| then i
    else if IsSep(s, d, i) then i
    else FirstSepFrom(s, d, i + 1)
  }

  /** JavaScript's `s.split(/(?<!\\)d/)`: the pieces between separators, at least one.
      A separator is the delimiter, so it is never ESC; the piece after it therefore starts
      like a fresh string and the lookbehind there sees no escape. */
  function Split(s: string, d: char): (r: seq<string>)
    ensures |r| >= 1
    decreases |s|
  {
    var k := FirstSepFrom(s, d, 0);
    if k == |s| then [s] else [s[..k]] + Split(s[k + 1..], d)
  }

  /** The string-backed names' `getComponentsAsArray`: the empty text has no components. */
  function Tokenize(s: string, d: char): (r: seq<string>)
    ensures s == "" <==> r == []
  {
    if s == "" then [] else Split(s, d)
  }

  /** No character of c is a separator: every delimiter in c is directly preceded within c by ESC. */
  predicate Masked(c: string, d: char)
  {
    forall j :: 0 <= j < |c| ==> !IsSep(c, d, j)
  }

  predicate EndsInEsc(c: string)
  {
    |c| > 0 && c[|c| - 1] == ESC
  }

  /** Every component masked, and no component but the last ends in an escape
      (it would mask the separator that follows it). */
  predicate WellFormed(cs: seq<string>, d: char)
  {
    && (forall i :: 0 <= i < |cs| ==> Masked(cs[i], d))
    && (forall i :: 0 <= i < |cs| - 1 ==> !EndsInEsc(cs[i]))
  }

  /** The component lists that survive a join followed by a tokenize: well formed, and not [""],
      whose join is the empty text. */
  predicate Parseable(cs: seq<string>, d: char)
  {
    cs != [""] && WellFormed(cs, d)
  }

  /** Joining the pieces of a split with the delimiter gives back the text. */
  lemma {:induction false} JoinSplit(s: string, d: char)
    ensures Join(Split(s, d), [d]) == s
    decreases |s|
  {
    var k := FirstSepFrom(s, d, 0);
    if k < |s| {
      JoinSplit(s[k + 1..], d);
      assert s == s[..k] + [d] + s[k + 1..];
    }
  }

  /** Tokenizing never loses text: joining the tokens with the delimiter gives back the text. */
  lemma JoinTokenize(s: string, d: char)
    ensures Join(Tokenize(s, d), [d]) == s
  {
    if s != "" { JoinSplit(s, d); }
  }

  /** A masked component that does not end in an escape can be put in front of a well-formed list. */
  lemma WellFormedCons(t: string, rest: seq<string>, d: char)
    requires Masked(t, d) && !EndsInEsc(t) && WellFormed(rest, d)
    ensures WellFormed([t] + rest, d)
  {
    var r := [t] + rest;
    forall i | 0 <= i < |r| ensures Masked(r[i], d) && (i < |r| - 1 ==> !EndsInEsc(r[i])) {
      if i > 0 { assert r[i] == rest[i - 1]; }
    }
  }

  /** The piece before the first separator is masked and does not end in an escape. */
  lemma SplitHead(s: string, d: char, k: nat)
    requires k < |s| && k == FirstSepFrom(s, d, 0)
    ensures Masked(s[..k], d) && !EndsInEsc(s[..k])
  {
    var t := s[..k];
    forall j | 0 <= j < |t| ensures !IsSep(t, d, j) {
      assert !IsSep(s, d, j);
    }
    if k > 0 { assert IsSep(s, d, k); }
  }

  /** The pieces of any split are well formed. */
  lemma {:induction false} SplitWellFormed(s: string, d: char)
    ensures WellFormed(Split(s, d), d)
    decreases |s|
  {
    var k := FirstSepFrom(s, d, 0);
    if k == |s| {
      forall j | 0 <= j < |s| ensures !IsSep(s, d, j) { }
    } else {
      SplitWellFormed(s[k + 1..], d);
      SplitHead(s, d, k);
      WellFormedCons(s[..k], Split(s[k + 1..], d), d);
    }
  }

  /** Every text tokenizes to a parseable list. */
  lemma TokenizeParseable(s: string, d: char)
    ensures Parseable(Tokenize(s, d), d)
  {
    if s != "" {
      SplitWellFormed(s, d);
      JoinSplit(s, d);
    }
  }

  /** Splitting the join of a nonempty well-formed list gives the list back. */
  lemma {:induction false} SplitJoin(cs: seq<string>, d: char)
    requires |cs| >= 1 && WellFormed(cs, d)
    ensures Split(Join(cs, [d]), d) == cs
    decreases |cs|
  {
    var c := cs[0];
    var s := Join(cs, [d]);
    if |cs| == 1 {
      assert s == c;
      assert Masked(c, d);
    } else {
      var tail := Join(cs[1..], [d]);
      assert s == c + [d] + tail;
      forall j | 0 <= j < |c| ensures !IsSep(s, d, j) {
        assert Masked(c, d);
        assert !IsSep(c, d, j);
      }
      assert IsSep(s, d, |c|) by {
        assert !EndsInEsc(cs[0]);
      }
      var k := FirstSepFrom(s, d, 0);
      assert k == |c|;
      assert s[..k] == c;
      assert s[k + 1..] == tail;
      assert WellFormed(cs[1..], d) by {
        forall i | 0 <= i < |cs[1..]| ensures Masked(cs[1..][i], d) { assert cs[1..][i] == cs[i + 1]; }
        forall i | 0 <= i < |cs[1..]| - 1 ensures !EndsInEsc(cs[1..][i]) { assert cs[1..][i] == cs[i + 1]; }
      }
      SplitJoin(cs[1..], d);
      assert cs == [c] + cs[1..];
    }
  }

  /** The round trip the data-string format promises: a parseable list survives join then tokenize. */
  lemma TokenizeJoin(cs: seq<string>, d: char)
    requires Parseable(cs, d)
    ensures Tokenize(Join(cs, [d]), d) == cs
  {
    if |cs| >= 2 {
      JoinLength(cs, [d]);
      SplitJoin(cs, d);
    } else if |cs| == 1 {
      SplitJoin(cs, d);
    }
  }

  /** A fully escaped component is masked: the tokenizer never splits inside it. */
  lemma {:induction false} EscapedMasked(c: string, d: char)
    requires d != ESC && Escaped(c, d)
    ensures Masked(c, d)
    decreases |c|
  {
    if c != "" {
      var k := if c[0] == ESC then 2 else 1;
      var rest := c[k..];
      EscapedMasked(rest, d);
      forall j | 0 <= j < |c| ensures !IsSep(c, d, j) {
        if j > k {
          assert !IsSep(rest, d, j - k);
          assert c[j] == rest[j - k] && c[j - 1] == rest[j - k - 1];
        } else if j == k {
          assert c[j] == rest[0];
        }
      }
    }
  }

  /** Parseable is exactly the condition for a list to survive joining and tokenizing. */
  lemma ParseableIff(cs: seq<string>, d: char)
    ensures Parseable(cs, d) <==> Tokenize(Join(cs, [d]), d) == cs
  {
    if Parseable(cs, d) {
      TokenizeJoin(cs, d);
    } else {
      TokenizeParseable(Join(cs, [d]), d);
    }
  }

  /** The data string: masked components joined with the default delimiter. Tokenized with the
      default delimiter it gives the components back when they are parseable for that delimiter. */
  function DataString(cs: seq<string>): (r: string)
    ensures cs == [] ==> r == ""
    ensures Parseable(cs, DEFAULT_DELIMITER) ==> Tokenize(r, DEFAULT_DELIMITER) == cs
  {
    if Parseable(cs, DEFAULT_DELIMITER) then
      TokenizeJoin(cs, DEFAULT_DELIMITER); Join(cs, [DEFAULT_DELIMITER])
    else Join(cs, [DEFAULT_DELIMITER])
  }

  /** Tokenize is a bijection between texts and parseable lists: equal token lists mean equal texts. */
  lemma TokenizeInjective(s: string, t: string, d: char)
    requires Tokenize(s, d) == Tokenize(t, d)
    ensures s == t
  {
    JoinTokenize(s, d);
    JoinTokenize(t, d);
  }

  /** A text without escapes splits into components without escapes. */
  lemma {:induction false} SplitPlain(s: string, d: char)
    requires ESC !in s
    ensures forall i :: 0 <= i < |Split(s, d)| ==> ESC !in Split(s, d)[i]
    decreases |s|
  {
    var k := FirstSepFrom(s, d, 0);
    if k < |s| {
      SplitPlain(s[k + 1..], d);
      assert ESC !in s[..k] by {
        forall j | 0 <= j < k ensures s[..k][j] != ESC { assert s[..k][j] == s[j]; }
      }
      assert ESC !in s[k + 1..] by {
        var rest := s[k + 1..];
        forall j | 0 <= j < |rest| ensures rest[j] != ESC { assert rest[j] == s[k + 1 + j]; }
      }
      var r := [s[..k]] + Split(s[k + 1..], d);
      assert forall i :: 1 <= i < |r| ==> r[i] == Split(s[k + 1..], d)[i - 1];
    }
  }

  /** A name text without escapes is displayed as it is stored when its own delimiter is used. */
  lemma RenderedPlain(s: string, d: char)
    requires ESC !in s
    ensures Rendered(Tokenize(s, d), d, [d]) == s
  {
    if s != "" {
      SplitPlain(s, d);
      UnmaskAllPlain(Tokenize(s, d), d);
    }
    JoinTokenize(s, d);
  }

  // ---------------------------------------------------------------------------------------------
  // Edits on component lists, shared by the array-backed and the string-backed names

  /** `splice(i, 0, c)` for 0 <= i <= |cs|. */
  function Inserted(cs: seq<string>, i: nat, c: string): (r: seq<string>)
    requires i <= |cs|
    ensures |r| == |cs| + 1 && r[i] == c
    ensures forall j :: 0 <= j < i ==> r[j] == cs[j]
    ensures forall j :: i < j < |r| ==> r[j] == cs[j - 1]
  {
    cs[..i] + [c] + cs[i..]
  }

  /** `splice(i, 1)` for 0 <= i < |cs|. */
  function Removed(cs: seq<string>, i: nat): (r: seq<string>)
    requires i < |cs|
    ensures |r| == |cs| - 1
    ensures forall j :: 0 <= j < i ==> r[j] == cs[j]
    ensures forall j :: i <= j < |r| ==> r[j] == cs[j + 1]
  {
    cs[..i] + cs[i + 1..]
  }

  /** The text a string-backed `append` builds: exactly c when the name counts as empty,
      otherwise the old text, the delimiter and c. */
  function AppendedText(name: string, isEmpty: bool, d: char, c: string): string
  {
    if isEmpty then c else name + [d] + c
  }

  /** On a text whose token list stays parseable with c added, the string-backed append with the
      emptiness counted afresh agrees with appending c to the token list. */
  lemma AppendedTextAgrees(name: string, d: char, c: string)
    requires Parseable(Tokenize(name, d) + [c], d)
    ensures Tokenize(AppendedText(name, name == "", d, c), d) == Tokenize(name, d) + [c]
  {
    var ts := Tokenize(name, d);
    JoinTokenize(name, d);
    JoinAppend(ts, c, [d]);
    TokenizeJoin(ts + [c], d);
  }

  /** Removing a component keeps a list well formed. */
  lemma RemovedWellFormed(cs: seq<string>, i: nat, d: char)
    requires i < |cs| && WellFormed(cs, d)
    ensures WellFormed(Removed(cs, i), d)
  {
  }

  /** The texts repeated string-backed appends build from the text name: the first append sees
      the cached emptiness isEmpty, every later one a freshly counted name, which is empty exactly
      when its text is. */
  function AppendedTexts(name: string, isEmpty: bool, d: char, cs: seq<string>): (r: string)
    decreases |cs|
  {
    if cs == [] then name
    else
      var t := AppendedTexts(name, isEmpty, d, cs[..|cs| - 1]);
      AppendedText(t, if |cs| == 1 then isEmpty else t == "", d, cs[|cs| - 1])
  }

  /** One more append: the texts for the first i + 1 components extend those for the first i;
      only the first append sees the cached emptiness. */
  lemma AppendedTextsStep(name: string, isEmpty: bool, d: char, cs: seq<string>, i: nat)
    requires i < |cs|
    ensures var t := AppendedTexts(name, isEmpty, d, cs[..i]);
      AppendedTexts(name, isEmpty, d, cs[..i + 1]) == AppendedText(t, if i == 0 then isEmpty else t == "", d, cs[i])
  {
    assert cs[..i + 1][..i] == cs[..i];
  }

  /** Appends onto a name that does not count as empty only extend its text. */
  lemma {:induction false} AppendedTextsExtend(name: string, isEmpty: bool, d: char, cs: seq<string>)
    requires !isEmpty && name != ""
    ensures |AppendedTexts(name, isEmpty, d, cs)| >= |name|
    ensures AppendedTexts(name, isEmpty, d, cs)[..|name|] == name
    decreases |cs|
  {
    if cs != [] {
      AppendedTextsExtend(name, isEmpty, d, cs[..|cs| - 1]);
    }
  }

  /** When repeated appends of cs to the token list ts agree with the list operation: every
      intermediate list is parseable, which holds when the final one is, ts is not the lost
      [""], and cs does not start with "" on an empty name. */
  predicate AppendableInOrder(ts: seq<string>, cs: seq<string>, d: char)
  {
    && Parseable(ts + cs, d)
    && ts != [""]
    && (ts == [] && cs != [] ==> cs[0] != "")
  }

  lemma AppendableInOrderPrefix(ts: seq<string>, cs: seq<string>, k: nat, d: char)
    requires k <= |cs| && AppendableInOrder(ts, cs, d)
    ensures AppendableInOrder(ts, cs[..k], d)
  {
    var p, q := ts + cs[..k], ts + cs;
    assert forall j :: 0 <= j < |p| ==> p[j] == q[j];
    if ts == [] && k >= 1 {
      assert p[0] == cs[0];
    }
  }

  /** Repeated string-backed appends agree with appending to the token list, in order. */
  lemma {:induction false} AppendedTextsAgree(name: string, d: char, cs: seq<string>)
    requires AppendableInOrder(Tokenize(name, d), cs, d)
    ensures Tokenize(AppendedTexts(name, name == "", d, cs), d) == Tokenize(name, d) + cs
    decreases |cs|
  {
    var ts := Tokenize(name, d);
    if cs == [] {
      assert ts + cs == ts;
    } else {
      var n := |cs|;
      var init := cs[..n - 1];
      AppendableInOrderPrefix(ts, cs, n - 1, d);
      AppendedTextsAgree(name, d, init);
      var t := AppendedTexts(name, name == "", d, init);
      assert Tokenize(t, d) == ts + init;
      assert cs == init + [cs[n - 1]];
      assert ts + cs == Tokenize(t, d) + [cs[n - 1]];
      if n > 1 {
        assert t != "";
      }
      AppendedTextAgrees(t, d, cs[n - 1]);
    }
  }

  // ---------------------------------------------------------------------------------------------
  // Worked examples of the grammar as written

  /** "Oh\.\.\." with delimiter '.' is one component. */
  lemma ExampleOhDotsTokens()
    ensures Tokenize("Oh\\.\\.\\.", '.') == ["Oh\\.\\.\\."]
  {
    var s := "Oh\\.\\.\\.";
    assert FirstSepFrom(s, '.', 0) == |s| by {
      forall j | 0 <= j < |s| ensures !IsSep(s, '.', j) {
        assert j == 0 || j == 1 || j == 2 || j == 3 || j == 4 || j == 5 || j == 6 || j == 7 || j == 8;
      }
    }
  }

  /** The component "Oh\.\.\." is displayed as "Oh...". */
  lemma ExampleOhDotsUnmask()
    ensures Unmask("Oh\\.\\.\\.", '.') == "Oh..."
  {
    assert ReplacePair("Oh\\.\\.\\.", ESC, '.', ".") == "Oh...";
    assert ReplacePair("Oh...", ESC, ESC, [ESC]) == "Oh...";
  }

  /** The one-character lookbehind ignores escape parity: in "a\\.b" the backslash before the
      delimiter is itself escaped, yet the delimiter does not split. */
  lemma LookbehindIgnoresParity()
    ensures Tokenize("a\\\\.b", '.') == ["a\\\\.b"]
  {
  }

  /** The single empty component does not survive the round trip: its join is the empty text. */
  lemma RoundTripLosesSingleEmpty()
    ensures Tokenize(Join([""], "."), '.') == []
  {
  }

  /** A non-last component ending in ESC masks the separator after it, so two components become one. */
  lemma RoundTripLosesTrailingEscape()
    ensures Join(["a\\", "b"], ".") == "a\\.b"
    ensures Tokenize("a\\.b", '.') == ["a\\.b"]
  {
  }

  /** An empty string-backed name loses a leading empty component when another name is concatenated:
      the first append leaves the text empty, so the second one starts afresh. */
  lemma ConcatLosesLeadingEmpty()
    ensures Parseable(["", "a"], '.')
    ensures Tokenize(AppendedTexts("", true, '.', ["", "a"]), '.') == ["a"]
  {
    assert AppendedTexts("", true, '.', [""]) == "";
    assert AppendedTexts("", true, '.', ["", "a"]) == "a";
  }
}
