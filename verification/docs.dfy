/** Documentation helpers of mcp_server.go: `extractSection`, used by the
    event-kinds and standard-tags resources, and the argument handling of
    `queryNostrDataHandler` up to the embedding call. */
module Docs {
  import opened Wrappers
  import opened Strings

  // ---------------------------------------------------------------------------
  // extractSection
  // ---------------------------------------------------------------------------

  /** `s` is the first occurrence of t in content. */
  predicate FirstAt(content: string, t: string, s: int) {
    OccursAt(content, t, s) && forall j :: 0 <= j < s ==> !OccursAt(content, t, j)
  }

  /** Reference definition of the section: it starts at the first occurrence
      `s` of the start marker and stops at `stop`, the first occurrence of the
      end marker at or after the end of the start marker, or the end of the
      content when there is none. An empty end marker occurs everywhere,
      the end of the content included. */
  ghost predicate SectionBounds(content: string, startMarker: string, endMarker: string, s: int, stop: int) {
    && FirstAt(content, startMarker, s)
    && s + |startMarker| <= stop <= |content|
    && (forall j :: s + |startMarker| <= j < stop ==> !OccursAt(content, endMarker, j))
    && (|| OccursAt(content, endMarker, stop)
        || (stop == |content| && forall j :: s + |startMarker| <= j ==> !OccursAt(content, endMarker, j)))
  }

  /** extractSection: the trimmed text from the first occurrence of the start
      marker up to the first occurrence of the end marker after it, or to the
      end of the content; "" when the start marker does not occur. extractSection
      searches the suffix after the start marker and adds the offset back;
      IndexOfSuffix shows that this is the search from that position. With a
      start marker that is not blank, the section is empty exactly when the
      start marker does not occur. */
  function ExtractSection(content: string, startMarker: string, endMarker: string): (r: string)
    ensures !Contains(content, startMarker) ==> r == ""
    ensures forall s, stop {:trigger SectionBounds(content, startMarker, endMarker, s, stop)} ::
      SectionBounds(content, startMarker, endMarker, s, stop) ==> r == TrimSpace(content[s..stop])
    ensures !IsBlank(startMarker) ==> (r == "" <==> !Contains(content, startMarker))
    ensures r == [] || IsTrimmed(r)
  {
    match IndexOf(content, startMarker)
    case None => ""
    case Some(s) =>
      var stop := match IndexFrom(content, endMarker, s + |startMarker|)
        case None => |content|
        case Some(e) => e;
      BoundsAreSearches(content, startMarker, endMarker, s, stop);
      StartMarkerKept(content, startMarker, s, stop);
      TrimSpace(content[s..stop])
  }

  /** The two searches of extractSection find bounds of the section, and
      they are the only ones. */
  lemma BoundsAreSearches(content: string, startMarker: string, endMarker: string, s: nat, stop: int)
    requires IndexOf(content, startMarker) == Some(s)
    requires stop == match IndexFrom(content, endMarker, s + |startMarker|)
      case None => |content|
      case Some(e) => e
    ensures s + |startMarker| <= stop <= |content|
    ensures SectionBounds(content, startMarker, endMarker, s, stop)
    ensures forall s', stop' {:trigger SectionBounds(content, startMarker, endMarker, s', stop')} ::
      SectionBounds(content, startMarker, endMarker, s', stop') ==> s' == s && stop' == stop
  {
    forall s', stop' | SectionBounds(content, startMarker, endMarker, s', stop')
      ensures s' == s && stop' == stop
    {
      assert s' == s;
    }
  }

  /** A section that starts at an occurrence of a non-blank start marker keeps
      that marker, so it does not trim to nothing. */
  lemma StartMarkerKept(content: string, startMarker: string, s: nat, stop: int)
    requires OccursAt(content, startMarker, s) && s + |startMarker| <= stop <= |content|
    ensures !IsBlank(startMarker) ==> TrimSpace(content[s..stop]) != ""
  {
    if !IsBlank(startMarker) {
      var t := content[s..stop];
      var i :| 0 <= i < |startMarker| && !IsSpace(startMarker[i]);
      assert t[i] == startMarker[i];
    }
  }

  /** An empty end marker occurs right after the start marker, so the
      section is the start marker alone, also when that is the whole content. */
  lemma EmptyEndMarkerSection(content: string, startMarker: string)
    requires Contains(content, startMarker)
    ensures ExtractSection(content, startMarker, "") == TrimSpace(startMarker)
  {
    var s := IndexOf(content, startMarker).value;
    var stop := s + |startMarker|;
    assert content[stop..stop] == "";
    assert OccursAt(content, "", stop);
    assert SectionBounds(content, startMarker, "", s, stop);
    assert content[s..stop] == startMarker;
  }

  /** With "##" as end marker a "###" subheading also ends the section, since
      it begins with "##". */
  lemma SubheadingEndsSection(content: string, startMarker: string, s: int, p: int)
    requires FirstAt(content, startMarker, s)
    requires s + |startMarker| <= p && OccursAt(content, "###", p)
    requires forall j :: s + |startMarker| <= j < p ==> !OccursAt(content, "##", j)
    ensures ExtractSection(content, startMarker, "##") == TrimSpace(content[s..p])
  {
    assert content[p..p + 2] == content[p..p + 3][..2];
    assert OccursAt(content, "##", p);
    assert SectionBounds(content, startMarker, "##", s, p);
  }

  // ---------------------------------------------------------------------------
  // queryNostrDataHandler
  // ---------------------------------------------------------------------------

  /** The arguments of a documentation query; `None` for an argument that is
      missing or of the wrong type. */
  datatype QueryArgs = QueryArgs(query: Option<string>, similarity: Option<real>, numResults: Option<int>)

  /** What the handler hands to the embedding model and the vector store. */
  datatype QueryPlan = QueryPlan(prompt: string, similarity: real, numResults: int)

  const QueryPrefix: string := "search_query: "

  /** The prefix ingestion puts in front of every stored document. */
  const DocumentPrefix: string := "search_document: "

  const DefaultSimilarity: real := 0.6
  const DefaultNumResults: int := 3

  /** queryNostrDataHandler up to the embedding call: a missing or empty query
      is rejected; otherwise the query is prefixed for the embedding model and
      the threshold and result count are the given ones, or their defaults
      when not given. */
  function PlanQuery(args: QueryArgs): (r: Result<QueryPlan, string>)
    ensures r.Failure? <==> args.query.None? || args.query.value == ""
    ensures r.Success? ==> HasPrefix(r.value.prompt, QueryPrefix)
    ensures r.Success? ==> r.value.prompt[|QueryPrefix|..] == args.query.value
    ensures r.Success? && args.similarity.None? ==> r.value.similarity == DefaultSimilarity
    ensures r.Success? && args.numResults.None? ==> r.value.numResults == DefaultNumResults
    ensures r.Success? && args.similarity.Some? ==> r.value.similarity == args.similarity.value
    ensures r.Success? && args.numResults.Some? ==> r.value.numResults == args.numResults.value
  {
    match args.query
    case None => Failure("query must be a non-empty string")
    case Some(q) =>
      if q == "" then Failure("query must be a non-empty string")
      else
        var similarity := match args.similarity case Some(x) => x case None => DefaultSimilarity;
        var numResults := match args.numResults case Some(n) => n case None => DefaultNumResults;
        Success(QueryPlan(QueryPrefix + q, similarity, numResults))
  }

  /** Query prompts and document prompts carry different prefixes: no query
      prompt starts like a stored document. */
  lemma QueryPromptIsNotDocument(args: QueryArgs)
    requires PlanQuery(args).Success?
    ensures !HasPrefix(PlanQuery(args).value.prompt, DocumentPrefix)
  {
    var p := PlanQuery(args).value.prompt;
    assert p[7] == QueryPrefix[7];
    assert DocumentPrefix[7] != QueryPrefix[7];
  }
}
