/** Snippet events as the search sees them, tag lookup (`getTagValue`) and the
    lenient free-text matcher (`matchesQuery`) of mcp_server.go. */
module Events {
  import opened Wrappers
  import opened Strings

  /** A kind-1337 code-snippet event. A tag is a list of strings whose element 0
      is the tag name and element 1 its value. Kind, timestamp and signature are
      never consulted by the core and are not modelled. */
  datatype Event = Event(id: string, pubkey: string, content: string, tags: seq<seq<string>>)

  // ---------------------------------------------------------------------------
  // Tag lookup
  // ---------------------------------------------------------------------------

  /** The tag has a value and its name is `name`. */
  predicate TagNamed(tag: seq<string>, name: string) {
    |tag| >= 2 && tag[0] == name
  }

  /** No tag with a value is named `name`. */
  predicate NoTagNamed(tags: seq<seq<string>>, name: string) {
    forall j :: 0 <= j < |tags| ==> !TagNamed(tags[j], name)
  }

  /** j is the first tag with a value named `name`. */
  predicate FirstTagNamed(tags: seq<seq<string>>, name: string, j: int) {
    0 <= j < |tags| && TagNamed(tags[j], name) && NoTagNamed(tags[..j], name)
  }

  /** The loop of getTagValue over a tag list. */
  function TagValueIn(tags: seq<seq<string>>, name: string, default: string): (v: string)
    ensures forall j :: FirstTagNamed(tags, name, j) ==> v == tags[j][1]
    ensures NoTagNamed(tags, name) ==> v == default
    decreases |tags|
  {
    if tags == [] then default
    else if TagNamed(tags[0], name) then tags[0][1]
    else
      var v := TagValueIn(tags[1..], name, default);
      assert forall j :: 1 <= j && FirstTagNamed(tags, name, j) ==> FirstTagNamed(tags[1..], name, j - 1) by {
        forall j | 1 <= j && FirstTagNamed(tags, name, j)
          ensures FirstTagNamed(tags[1..], name, j - 1)
        {
          assert tags[1..][..j - 1] == tags[..j][1..];
        }
      }
      v
  }

  /** getTagValue: the value of the first tag named `name` that has a value,
      otherwise `default`. Shorter tags never count. */
  function GetTagValue(ev: Event, name: string, default: string): (v: string)
    ensures forall j :: FirstTagNamed(ev.tags, name, j) ==> v == ev.tags[j][1]
    ensures NoTagNamed(ev.tags, name) ==> v == default
  {
    TagValueIn(ev.tags, name, default)
  }

  // ---------------------------------------------------------------------------
  // Query matching
  // ---------------------------------------------------------------------------

  /** The tag has a value whose lower-cased form contains `needle`. */
  predicate TagValueContains(tag: seq<string>, needle: string) {
    |tag| >= 2 && Contains(Lower(tag[1]), needle)
  }

  /** The fields the matcher searches: the lower-cased content and the
      lower-cased value of every tag that has one. Tag names are not searched. */
  predicate FieldHit(ev: Event, needle: string) {
    Contains(Lower(ev.content), needle) ||
    exists j :: 0 <= j < |ev.tags| && TagValueContains(ev.tags[j], needle)
  }

  /** The inner tag loop of matchesQuery. */
  function ScanTags(tags: seq<seq<string>>, needle: string): (b: bool)
    ensures b <==> exists j :: 0 <= j < |tags| && TagValueContains(tags[j], needle)
    decreases |tags|
  {
    if tags == [] then false
    else if TagValueContains(tags[0], needle) then true
    else
      var b := ScanTags(tags[1..], needle);
      assert forall j :: 1 <= j < |tags| ==> tags[j] == tags[1..][j - 1];
      b
  }

  /** Content first, then every tag. */
  function ScanFields(ev: Event, needle: string): (b: bool)
    ensures b <==> FieldHit(ev, needle)
  {
    Contains(Lower(ev.content), needle) || ScanTags(ev.tags, needle)
  }

  /** The word loop of matchesQuery: words shorter than two bytes are skipped. */
  function ScanWords(ev: Event, words: seq<string>): (b: bool)
    ensures b <==> exists i :: 0 <= i < |words| && |words[i]| >= 2 && FieldHit(ev, words[i])
    decreases |words|
  {
    if words == [] then false
    else if |words[0]| >= 2 && ScanFields(ev, words[0]) then true
    else
      var b := ScanWords(ev, words[1..]);
      assert forall i :: 1 <= i < |words| ==> words[i] == words[1..][i - 1];
      b
  }

  /** The query as the matcher compares it: trimmed, then lower-cased. */
  function NormalizeQuery(query: string): string {
    Lower(TrimSpace(query))
  }

  /** When a non-blank query matches: its whole normalised form, if it is two to
      ten bytes long, occurs in a field; or some white-space separated word of
      at least two bytes does. */
  ghost predicate QueryHit(ev: Event, q: string) {
    (2 <= |q| <= 10 && FieldHit(ev, q)) ||
    exists i :: 0 <= i < |Fields(q)| && |Fields(q)[i]| >= 2 && FieldHit(ev, Fields(q)[i])
  }

  lemma LowerBlank(s: string)
    ensures IsBlank(Lower(s)) <==> IsBlank(s)
  {
    if IsBlank(Lower(s)) {
      forall i | 0 <= i < |s| ensures IsSpace(s[i]) {
        assert IsSpace(Lower(s)[i]);
      }
    }
  }

  /** matchesQuery: a blank query matches every event; any other query matches
      exactly when QueryHit holds of its normalised form. */
  function MatchesQuery(ev: Event, query: string): (b: bool)
    ensures IsBlank(query) ==> b
    ensures !IsBlank(query) ==> (b <==> QueryHit(ev, NormalizeQuery(query)))
  {
    if query == [] then true
    else
      var q := NormalizeQuery(query);
      LowerBlank(TrimSpace(query));
      if 2 <= |q| <= 10 && ScanFields(ev, q) then true
      else
        var words := Fields(q);
        if words == [] then true
        else ScanWords(ev, words)
  }

  /** A query that is a single word after trimming matches exactly when that
      word occurs in a field, provided it has at least two bytes; a one-byte
      query matches nothing. */
  lemma SingleWordQuery(ev: Event, query: string)
    requires !IsBlank(query) && HasNoSpace(NormalizeQuery(query))
    ensures |NormalizeQuery(query)| >= 2 ==> (MatchesQuery(ev, query) <==> FieldHit(ev, NormalizeQuery(query)))
    ensures |NormalizeQuery(query)| < 2 ==> !MatchesQuery(ev, query)
  {
    var q := NormalizeQuery(query);
    LowerBlank(TrimSpace(query));
    FieldsOfWord(q);
  }

  /** Two tag lists that agree on which tags have a value and on those values. */
  predicate SameTagValues(t1: seq<seq<string>>, t2: seq<seq<string>>) {
    |t1| == |t2| &&
    forall j :: 0 <= j < |t1| ==>
      (|t1[j]| >= 2 <==> |t2[j]| >= 2) && (|t1[j]| >= 2 ==> t1[j][1] == t2[j][1])
  }

  /** Tag names, and tags without a value, never influence the matcher. */
  lemma MatchesIgnoresTagNames(ev: Event, ev': Event, query: string)
    requires ev.content == ev'.content && SameTagValues(ev.tags, ev'.tags)
    ensures MatchesQuery(ev, query) == MatchesQuery(ev', query)
  {
    forall needle: string ensures FieldHit(ev, needle) <==> FieldHit(ev', needle) {
      SameFieldHit(ev, ev', needle);
    }
    if !IsBlank(query) {
      var q := NormalizeQuery(query);
      assert QueryHit(ev, q) <==> QueryHit(ev', q);
    }
  }

  lemma SameFieldHit(ev: Event, ev': Event, needle: string)
    requires ev.content == ev'.content && SameTagValues(ev.tags, ev'.tags)
    ensures FieldHit(ev, needle) <==> FieldHit(ev', needle)
  {
    if FieldHit(ev, needle) && !Contains(Lower(ev.content), needle) {
      var j :| 0 <= j < |ev.tags| && TagValueContains(ev.tags[j], needle);
      assert TagValueContains(ev'.tags[j], needle);
    }
    if FieldHit(ev', needle) && !Contains(Lower(ev.content), needle) {
      var j :| 0 <= j < |ev'.tags| && TagValueContains(ev'.tags[j], needle);
      assert TagValueContains(ev.tags[j], needle);
    }
  }

  /** Lower-casing text without upper-case letters leaves it unchanged. */
  lemma LowerNoUpper(s: string)
    requires forall i :: 0 <= i < |s| ==> !IsUpper(s[i])
    ensures Lower(s) == s
  {
  }

  /** A trimmed query without upper-case letters is its own normal form. */
  lemma NormalizeTrimmed(q: string)
    requires q != [] && IsTrimmed(q)
    requires forall i :: 0 <= i < |q| ==> !IsUpper(q[i])
    ensures NormalizeQuery(q) == q
    ensures !IsBlank(q)
  {
    TrimBlankPadding("", q, "");
    assert "" + q + "" == q;
    LowerNoUpper(q);
  }

  /** A needle whose first character never occurs in s is not contained in s. */
  lemma FirstCharAbsent(s: string, t: string)
    requires t != [] && t[0] !in s
    ensures !Contains(s, t)
  {
    ContainsIff(s, t);
  }

  /** A two-to-ten byte query occurring in the lower-cased content matches. */
  lemma ContentShortcutHit(ev: Event, query: string, i: nat)
    requires !IsBlank(query) && 2 <= |NormalizeQuery(query)| <= 10
    requires OccursAt(Lower(ev.content), NormalizeQuery(query), i)
    ensures MatchesQuery(ev, query)
  {
    ContainsIff(Lower(ev.content), NormalizeQuery(query));
  }

  lemma NdkOccurs(c: string)
    requires c == "...uses NDK internally..."
    ensures OccursAt(Lower(c), "ndk", 8)
  {
    var lc := Lower(c);
    assert lc[8..11] == [lc[8], lc[9], lc[10]];
  }

  /** A short query is found case-insensitively inside the content. */
  lemma ShortQueryMatchesExample(ev: Event, query: string)
    requires ev.content == "...uses NDK internally..." && query == "ndk"
    ensures MatchesQuery(ev, query)
  {
    NdkOccurs(ev.content);
    NormalizeTrimmed(query);
    ContentShortcutHit(ev, query, 8);
  }

  lemma UnrelatedMiss(c: string, w: string)
    requires c == "unrelated content" && w == "xyz123longword"
    ensures !Contains(Lower(c), w)
  {
    LowerNoUpper(c);
    FirstCharAbsent(c, w);
  }

  lemma LongWordNormal(w: string)
    requires w == "xyz123longword"
    ensures NormalizeQuery(w) == w && !IsBlank(w) && HasNoSpace(w)
  {
    NormalizeTrimmed(w);
  }

  /** A long single-word query that occurs in no field does not match. */
  lemma LongQueryMissExample(ev: Event, query: string)
    requires ev.content == "unrelated content" && ev.tags == [] && query == "xyz123longword"
    ensures !MatchesQuery(ev, query)
  {
    UnrelatedMiss(ev.content, query);
    LongWordNormal(query);
    SingleWordQuery(ev, query);
  }
}
