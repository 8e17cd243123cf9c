/** The slice of Go's `strings`, `strconv`-style formatting and RE2 character
    classes that the core relies on. Strings are sequences of characters, one
    character standing for one byte of ASCII text, so `|s|` is Go's `len(s)`. */
module Strings {
  import opened Wrappers

  // ---------------------------------------------------------------------------
  // Character classes and case
  // ---------------------------------------------------------------------------

  /** unicode.IsSpace on ASCII: the class strings.TrimSpace and strings.Fields use.
      It includes the vertical tab. */
  predicate IsSpace(c: char) {
    c == ' ' || c == '\t' || c == '\n' || c == '\U{B}' || c == '\U{C}' || c == '\r'
  }

  /** The RE2 class `\s`, i.e. `[\t\n\f\r ]`: unlike IsSpace it leaves out the vertical tab. */
  predicate IsReSpace(c: char) {
    c == ' ' || c == '\t' || c == '\n' || c == '\U{C}' || c == '\r'
  }

  /** Every character is white space; the empty string is blank. */
  predicate IsBlank(s: string) {
    forall i :: 0 <= i < |s| ==> IsSpace(s[i])
  }

  /** No character is white space. */
  predicate HasNoSpace(s: string) {
    forall i :: 0 <= i < |s| ==> !IsSpace(s[i])
  }

  /** No white space at either end. */
  predicate IsTrimmed(s: string) {
    s == [] || (!IsSpace(s[0]) && !IsSpace(s[|s| - 1]))
  }

  predicate IsUpper(c: char) {
    'A' <= c <= 'Z'
  }

  /** unicode.ToLower on ASCII: a capital becomes its own small letter,
      32 code points later. */
  function LowerChar(c: char): (d: char)
    ensures IsUpper(c) ==> d as int == c as int + 32 && 'a' <= d <= 'z'
    ensures !IsUpper(d)
    ensures !IsUpper(c) ==> d == c
    ensures IsSpace(d) <==> IsSpace(c)
  {
    if IsUpper(c) then (c as int + 32) as char else c
  }

  /** strings.ToLower on ASCII text: same length, every letter lower-cased. */
  function Lower(s: string): (r: string)
    ensures |r| == |s|
    ensures forall i :: 0 <= i < |s| ==> r[i] == LowerChar(s[i])
  {
    seq(|s|, i requires 0 <= i < |s| => LowerChar(s[i]))
  }

  /** strings.EqualFold on ASCII text: equal once both sides are lower-cased. */
  predicate EqualFold(a: string, b: string) {
    Lower(a) == Lower(b)
  }

  // ---------------------------------------------------------------------------
  // Searching
  // ---------------------------------------------------------------------------

  predicate HasPrefix(s: string, p: string) {
    |p| <= |s| && s[..|p|] == p
  }

  predicate HasSuffix(s: string, p: string) {
    |p| <= |s| && s[|s| - |p|..] == p
  }

  /** t occurs in s starting at index i. */
  predicate OccursAt(s: string, t: string, i: int) {
    0 <= i && i + |t| <= |s| && s[i..i + |t|] == t
  }

  /** strings.Index: the first index at which t occurs in s, None for Go's -1. */
  function IndexOf(s: string, t: string): (r: Option<nat>)
    ensures r.Some? ==> OccursAt(s, t, r.value)
    ensures r.Some? ==> forall j :: 0 <= j < r.value ==> !OccursAt(s, t, j)
    ensures r.None? ==> forall j :: !OccursAt(s, t, j)
  {
    IndexFrom(s, t, 0)
  }

  /** The first occurrence of t in s at or after position i. */
  function IndexFrom(s: string, t: string, i: nat): (r: Option<nat>)
    ensures r.Some? ==> i <= r.value && OccursAt(s, t, r.value)
    ensures r.Some? ==> forall j :: i <= j < r.value ==> !OccursAt(s, t, j)
    ensures r.None? ==> forall j :: i <= j ==> !OccursAt(s, t, j)
    decreases |s| + 1 - i
  {
    if i > |s| then None
    else if OccursAt(s, t, i) then Some(i)
    else IndexFrom(s, t, i + 1)
  }

  /** Occurrences in a suffix are occurrences in the whole text, shifted. */
  lemma OccursInSuffix(s: string, t: string, from: nat, j: int)
    requires from <= |s|
    ensures 0 <= j ==> (OccursAt(s[from..], t, j) <==> OccursAt(s, t, from + j))
  {
    if 0 <= j && from + j + |t| <= |s| {
      assert s[from..][j..j + |t|] == s[from + j..from + j + |t|];
    }
  }

  /** Searching a suffix is searching the whole text from where the suffix
      starts: strings.Index(s[from:], t) is IndexFrom(s, t, from) - from. */
  lemma IndexOfSuffix(s: string, t: string, from: nat)
    requires from <= |s|
    ensures IndexFrom(s, t, from).None? <==> IndexOf(s[from..], t).None?
    ensures IndexFrom(s, t, from).Some? ==> IndexFrom(s, t, from).value == from + IndexOf(s[from..], t).value
  {
    var rest := s[from..];
    forall j | 0 <= j
      ensures OccursAt(rest, t, j) <==> OccursAt(s, t, from + j)
    {
      OccursInSuffix(s, t, from, j);
    }
    var whole := IndexFrom(s, t, from);
    var part := IndexOf(rest, t);
    if part.Some? {
      assert OccursAt(s, t, from + part.value);
    }
    if whole.Some? {
      assert OccursAt(rest, t, whole.value - from);
    }
  }

  /** strings.Contains. */
  predicate Contains(s: string, t: string) {
    IndexOf(s, t).Some?
  }

  lemma ContainsIff(s: string, t: string)
    ensures Contains(s, t) <==> exists i :: OccursAt(s, t, i)
  {
    var r := IndexOf(s, t);
    if r.Some? {
      assert OccursAt(s, t, r.value);
    }
  }

  /** strings.TrimSuffix: removes one trailing copy of suffix, if present. */
  function TrimSuffix(s: string, suffix: string): (r: string)
    ensures HasSuffix(s, suffix) ==> r + suffix == s
    ensures !HasSuffix(s, suffix) ==> r == s
  {
    if HasSuffix(s, suffix) then s[..|s| - |suffix|] else s
  }

  // ---------------------------------------------------------------------------
  // Trimming and splitting on white space
  // ---------------------------------------------------------------------------

  /** Length of the leading run of white space. */
  function LeadingSpaces(s: string): (n: nat)
    ensures n <= |s|
    ensures IsBlank(s[..n])
    ensures n < |s| ==> !IsSpace(s[n])
    decreases |s|
  {
    if s != [] && IsSpace(s[0]) then 1 + LeadingSpaces(s[1..]) else 0
  }

  /** Length of the trailing run of white space. */
  function TrailingSpaces(s: string): (n: nat)
    ensures n <= |s|
    ensures forall i :: |s| - n <= i < |s| ==> IsSpace(s[i])
    ensures n < |s| ==> !IsSpace(s[|s| - n - 1])
    decreases |s|
  {
    if s != [] && IsSpace(s[|s| - 1]) then 1 + TrailingSpaces(s[..|s| - 1]) else 0
  }

  /** strings.TrimSpace: the text between the leading and the trailing white space. */
  function TrimSpace(s: string): (r: string)
    ensures IsTrimmed(r)
    ensures r == [] <==> IsBlank(s)
    ensures LeadingSpaces(s) + |r| <= |s|
    ensures r == s[LeadingSpaces(s)..LeadingSpaces(s) + |r|]
    ensures IsBlank(s[LeadingSpaces(s) + |r|..])
  {
    var a := LeadingSpaces(s);
    var t := s[a..];
    var b := TrailingSpaces(t);
    var r := t[..|t| - b];
    assert s[a + |r|..] == t[|t| - b..];
    assert r == [] ==> s == s[..a] + t[|t| - b..];
    r
  }

  lemma {:induction false} LeadingOfPadded(w: string, t: string)
    requires IsBlank(w) && (t == [] || !IsSpace(t[0]))
    ensures LeadingSpaces(w + t) == |w|
    decreases |w|
  {
    if w != [] {
      assert (w + t)[1..] == w[1..] + t;
      LeadingOfPadded(w[1..], t);
    }
  }

  lemma {:induction false} TrailingOfPadded(t: string, v: string)
    requires IsBlank(v) && (t == [] || !IsSpace(t[|t| - 1]))
    ensures TrailingSpaces(t + v) == |v|
    decreases |v|
  {
    if v != [] {
      assert (t + v)[..|t + v| - 1] == t + v[..|v| - 1];
      TrailingOfPadded(t, v[..|v| - 1]);
    }
  }

  /** Trimming removes exactly the blank padding around trimmed text. */
  lemma TrimBlankPadding(w: string, p: string, v: string)
    requires IsBlank(w) && IsBlank(v) && p != [] && IsTrimmed(p)
    ensures TrimSpace(w + p + v) == p
  {
    var s := w + p + v;
    assert s == w + (p + v);
    LeadingOfPadded(w, p + v);
    assert s[|w|..] == p + v;
    TrailingOfPadded(p, v);
  }

  /** Length of the leading run of characters that are not white space. */
  function WordLength(s: string): (n: nat)
    ensures n <= |s|
    ensures HasNoSpace(s[..n])
    ensures n < |s| ==> IsSpace(s[n])
    decreases |s|
  {
    if s != [] && !IsSpace(s[0]) then 1 + WordLength(s[1..]) else 0
  }

  /** strings.Fields: the maximal runs of non-space characters, in order. */
  function Fields(s: string): (ws: seq<string>)
    ensures forall i :: 0 <= i < |ws| ==> ws[i] != [] && HasNoSpace(ws[i])
    ensures ws == [] <==> IsBlank(s)
    decreases |s|
  {
    var a := LeadingSpaces(s);
    var t := s[a..];
    if t == [] then
      assert s == s[..a];
      []
    else
      var n := WordLength(t);
      [t[..n]] + Fields(t[n..])
  }

  lemma FieldsOfWord(s: string)
    requires s != [] && HasNoSpace(s)
    ensures Fields(s) == [s]
  {
    assert LeadingSpaces(s) == 0;
    assert s[0..] == s;
    assert WordLength(s) == |s|;
    assert s[..|s|] == s;
    assert s[|s|..] == [];
    assert Fields([]) == [];
    assert Fields(s) == [s[..|s|]] + Fields(s[|s|..]);
  }

  /** Leading white space contributes no word. */
  lemma {:induction false} FieldsAfterBlank(w: string, s: string)
    requires IsBlank(w)
    ensures Fields(w + s) == Fields(s)
    decreases |w|
  {
    if w == [] {
      assert w + s == s;
    } else {
      var rest := w[1..] + s;
      ConsAppend(w, s);
      FieldsSkipSpace(w[0], rest);
      assert Fields(w + s) == Fields(rest);
      FieldsAfterBlank(w[1..], s);
    }
  }

  lemma ConsAppend<T>(w: seq<T>, s: seq<T>)
    requires w != []
    ensures w + s == [w[0]] + (w[1..] + s)
  {
  }

  lemma FieldsSkipSpace(c: char, s: string)
    requires IsSpace(c)
    ensures Fields([c] + s) == Fields(s)
  {
    var x := [c] + s;
    assert x[1..] == s;
    assert LeadingSpaces(x) == 1 + LeadingSpaces(s);
    assert x[LeadingSpaces(x)..] == s[LeadingSpaces(s)..];
  }

  /** A word ended by white space or by the end of the text is the first
      field, and the fields of the rest follow it. With FieldsAfterBlank and
      the blank case this determines Fields on every text. */
  lemma FieldsWordThen(word: string, s: string)
    requires word != [] && HasNoSpace(word)
    requires s == [] || IsSpace(s[0])
    ensures Fields(word + s) == [word] + Fields(s)
  {
    var x := word + s;
    assert LeadingSpaces(x) == 0;
    assert x[0..] == x;
    WordLengthOfWord(word, s);
    assert x[..|word|] == word;
    assert x[|word|..] == s;
  }

  lemma {:induction false} WordLengthOfWord(word: string, s: string)
    requires HasNoSpace(word)
    requires s == [] || IsSpace(s[0])
    ensures WordLength(word + s) == |word|
    decreases |word|
  {
    if word != [] {
      assert (word + s)[1..] == word[1..] + s;
      WordLengthOfWord(word[1..], s);
    } else {
      assert word + s == s;
    }
  }

  // ---------------------------------------------------------------------------
  // Splitting and joining on a separator
  // ---------------------------------------------------------------------------

  /** strings.Split with a one-character separator. It never returns an empty
      list: "" splits to [""], and a string without the separator to itself. */
  function Split(s: string, sep: char): (parts: seq<string>)
    ensures |parts| >= 1
    decreases |s|
  {
    if s == [] then [[]]
    else
      var rest := Split(s[1..], sep);
      if s[0] == sep then [[]] + rest
      else [[s[0]] + rest[0]] + rest[1..]
  }

  /** No part contains the separator; there is more than one part exactly when
      the separator occurs, and a string without it splits to itself. */
  lemma {:induction false} SplitParts(s: string, sep: char)
    ensures forall i :: 0 <= i < |Split(s, sep)| ==> sep !in Split(s, sep)[i]
    ensures |Split(s, sep)| == 1 <==> sep !in s
    ensures sep !in s ==> Split(s, sep) == [s]
    decreases |s|
  {
    if s != [] {
      SplitParts(s[1..], sep);
      assert s == [s[0]] + s[1..];
    }
  }

  /** strings.Join. */
  function Join(parts: seq<string>, sep: string): string
  {
    if parts == [] then []
    else if |parts| == 1 then parts[0]
    else parts[0] + sep + Join(parts[1..], sep)
  }

  /** Splitting and joining back with the same separator gives the input back. */
  lemma {:induction false} JoinSplit(s: string, sep: char)
    ensures Join(Split(s, sep), [sep]) == s
    decreases |s|
  {
    if s != [] {
      var rest := Split(s[1..], sep);
      JoinSplit(s[1..], sep);
      if s[0] == sep {
        assert Split(s, sep) == [[]] + rest;
        assert ([[]] + rest)[1..] == rest;
      } else if |rest| == 1 {
        assert Split(s, sep) == [[s[0]] + rest[0]];
      } else {
        var parts := [[s[0]] + rest[0]] + rest[1..];
        assert Split(s, sep) == parts;
        assert parts[1..] == rest[1..];
        assert Join(rest, [sep]) == rest[0] + [sep] + Join(rest[1..], [sep]);
      }
    }
  }

  /** One step of Split: the first character either ends the first part or joins it. */
  lemma SplitCons(x: char, r: string, sep: char)
    ensures x == sep ==> Split([x] + r, sep) == [[]] + Split(r, sep)
    ensures x != sep ==> Split([x] + r, sep) == [[x] + Split(r, sep)[0]] + Split(r, sep)[1..]
  {
    assert ([x] + r)[0] == x && ([x] + r)[1..] == r;
  }

  /** A separator-free prefix followed by the separator becomes the first part. */
  lemma {:induction false} SplitAfterPart(a: string, sep: char, b: string)
    requires sep !in a
    ensures Split(a + [sep] + b, sep) == [a] + Split(b, sep)
    decreases |a|
  {
    if a == [] {
      assert a + [sep] + b == [sep] + b;
      SplitCons(sep, b, sep);
    } else {
      var x, a' := a[0], a[1..];
      var rest := Split(a' + [sep] + b, sep);
      assert rest == [a'] + Split(b, sep) by {
        SplitAfterPart(a', sep, b);
      }
      assert a + [sep] + b == [x] + (a' + [sep] + b);
      SplitCons(x, a' + [sep] + b, sep);
      assert [x] + a' == a;
    }
  }

  // ---------------------------------------------------------------------------
  // Decimal rendering (fmt's %d on non-negative integers)
  // ---------------------------------------------------------------------------

  predicate IsDigit(c: char) {
    '0' <= c <= '9'
  }

  function DigitChar(d: nat): (c: char)
    requires d < 10
    ensures IsDigit(c)
  {
    ('0' as int + d) as char
  }

  function DigitValue(c: char): (d: nat)
    requires IsDigit(c)
    ensures d < 10 && DigitChar(d) == c
  {
    c as int - '0' as int
  }

  /** The decimal numeral of n, without leading zeros. */
  function Decimal(n: nat): (s: string)
    ensures s != []
    ensures forall i :: 0 <= i < |s| ==> IsDigit(s[i])
    ensures |s| > 1 ==> s[0] != '0'
  {
    if n < 10 then [DigitChar(n)] else Decimal(n / 10) + [DigitChar(n % 10)]
  }

  /** The value of a string of decimal digits. */
  function ParseDecimal(s: string): nat
    requires forall i :: 0 <= i < |s| ==> IsDigit(s[i])
  {
    if s == [] then 0 else ParseDecimal(s[..|s| - 1]) * 10 + DigitValue(s[|s| - 1])
  }

  lemma {:induction false} ParseDecimalInverts(n: nat)
    ensures ParseDecimal(Decimal(n)) == n
  {
    var s := Decimal(n);
    if n >= 10 {
      ParseDecimalInverts(n / 10);
      assert s[..|s| - 1] == Decimal(n / 10);
    }
  }

  /** Distinct numbers render to distinct numerals. */
  lemma DecimalInjective(n: nat, m: nat)
    requires Decimal(n) == Decimal(m)
    ensures n == m
  {
    ParseDecimalInverts(n);
    ParseDecimalInverts(m);
  }
}
