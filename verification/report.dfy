/** The text answer of the code-snippet search: `formatCodeSnippetResults` of
    mcp_server.go and the complete `searchCodeSnippetsHandler`. Encoding a
    public key as an npub is a parameter of the model. */
module Report {
  import opened Wrappers
  import opened Strings
  import opened Events
  import opened Search

  const NoResultsText: string := "No code snippets found matching the criteria."

  /** What the answer shows of one snippet, after the tag fallbacks. */
  datatype SnippetView = SnippetView(
    name: string,
    description: string,
    extension: string,
    runtime: string,
    license: string,
    language: string)

  /** The tag fallbacks of the formatter: the name comes from a non-empty
      `name` tag, else (no `name` tag, or an empty one) from the `f` tag,
      else "Unnamed Snippet"; the fence
      language is the searched language, else the `l` tag, else "text"; the
      optional lines are empty when their tag is absent. */
  function ViewOf(ev: Event, language: string): SnippetView {
    var named := GetTagValue(ev, "name", "");
    SnippetView(
      if named == "" then GetTagValue(ev, "f", "Unnamed Snippet") else named,
      GetTagValue(ev, "description", "No description provided"),
      GetTagValue(ev, "extension", ""),
      GetTagValue(ev, "runtime", ""),
      GetTagValue(ev, "license", ""),
      if language == "" then GetTagValue(ev, "l", "text") else language)
  }

  /** What the snippet view shows, in terms of the event's tags. */
  lemma ViewFallbacks(ev: Event, language: string)
    ensures var v := ViewOf(ev, language);
      && (forall j :: FirstTagNamed(ev.tags, "name", j) && ev.tags[j][1] != "" ==> v.name == ev.tags[j][1])
      && (NoTagNamed(ev.tags, "name") ==> (forall j :: FirstTagNamed(ev.tags, "f", j) ==> v.name == ev.tags[j][1]))
      && (NoTagNamed(ev.tags, "name") && NoTagNamed(ev.tags, "f") ==> v.name == "Unnamed Snippet")
      && (forall j :: FirstTagNamed(ev.tags, "name", j) && ev.tags[j][1] == "" ==>
            && (forall k :: FirstTagNamed(ev.tags, "f", k) ==> v.name == ev.tags[k][1])
            && (NoTagNamed(ev.tags, "f") ==> v.name == "Unnamed Snippet"))
      && (forall j :: FirstTagNamed(ev.tags, "description", j) ==> v.description == ev.tags[j][1])
      && (NoTagNamed(ev.tags, "description") ==> v.description == "No description provided")
      && (forall j :: FirstTagNamed(ev.tags, "extension", j) ==> v.extension == ev.tags[j][1])
      && (NoTagNamed(ev.tags, "extension") ==> v.extension == "")
      && (forall j :: FirstTagNamed(ev.tags, "runtime", j) ==> v.runtime == ev.tags[j][1])
      && (NoTagNamed(ev.tags, "runtime") ==> v.runtime == "")
      && (forall j :: FirstTagNamed(ev.tags, "license", j) ==> v.license == ev.tags[j][1])
      && (NoTagNamed(ev.tags, "license") ==> v.license == "")
      && (language != "" ==> v.language == language)
      && (language == "" ==> (forall j :: FirstTagNamed(ev.tags, "l", j) ==> v.language == ev.tags[j][1]))
      && (language == "" && NoTagNamed(ev.tags, "l") ==> v.language == "text")
  {
  }


  /** The first line of the answer, naming the filters that were given. */
  function Header(n: nat, language: string, author: string, query: string): string {
    var count := "Found " + Decimal(n) + " code snippets";
    if language != "" && author != "" then
      count + " for language '" + language + "' by author '" + author + "':\n\n"
    else if language != "" then count + " for language '" + language + "':\n\n"
    else if author != "" then count + " by author '" + author + "':\n\n"
    else count + " matching query '" + query + "':\n\n"
  }

  /** A metadata line that is written only when its value is non-empty. */
  function OptionalLine(caption: string, value: string): string {
    if value == "" then "" else caption + value + "\n"
  }

  /** The fenced code of one snippet. */
  function FenceOf(ev: Event, language: string): string {
    "```" + ViewOf(ev, language).language + "\n" + ev.content + "\n```\n\n"
  }

  /** The metadata lines of the snippet numbered `number`. */
  function BlockHead(number: nat, ev: Event, language: string, encodeKey: string -> string): string {
    var v := ViewOf(ev, language);
    "## Snippet " + Decimal(number) + ": " + v.name + "\n"
      + "**Description:** " + v.description + "\n"
      + OptionalLine("**Extension:** ", v.extension)
      + OptionalLine("**Runtime:** ", v.runtime)
      + OptionalLine("**License:** ", v.license)
      + "**Author:** " + encodeKey(ev.pubkey) + "\n"
  }

  /** The block of the snippet numbered `number`. */
  function Block(number: nat, ev: Event, language: string, encodeKey: string -> string): string {
    BlockHead(number, ev, language, encodeKey) + FenceOf(ev, language)
  }

  /** The block of each snippet, given its number. */
  function BlockRenderer(language: string, encodeKey: string -> string): (nat, Event) -> string {
    (number: nat, ev: Event) => Block(number, ev, language, encodeKey)
  }

  /** The blocks of the snippets, numbered from `first`. */
  function Blocks(evs: seq<Event>, first: nat, render: (nat, Event) -> string): (bs: seq<string>)
    ensures |bs| == |evs|
    decreases |evs|
  {
    if evs == [] then []
    else [render(first, evs[0])] + Blocks(evs[1..], first + 1, render)
  }

  /** Block i of the list is the block of the i-th snippet, numbered
      `first + i`. */
  lemma {:induction false} BlocksAt(evs: seq<Event>, first: nat, render: (nat, Event) -> string, i: nat)
    requires i < |evs|
    ensures Blocks(evs, first, render)[i] == render(first + i, evs[i])
    decreases i
  {
    if i > 0 {
      BlocksAt(evs[1..], first + 1, render, i - 1);
      assert evs[1..][i - 1] == evs[i] && first + 1 + (i - 1) == first + i;
    }
  }

  /** The concatenation of a list of strings. */
  function Concat(parts: seq<string>): string
    decreases |parts|
  {
    if parts == [] then "" else parts[0] + Concat(parts[1..])
  }

  /** formatCodeSnippetResults: a fixed message when nothing was found, else a
      header with the count followed by one numbered block per snippet. The
      `limit` argument of formatCodeSnippetResults is never read and is left out. */
  function FormatResults(events: seq<Event>, language: string, author: string, query: string,
                         encodeKey: string -> string): (out: string)
    ensures out == NoResultsText <==> events == []
  {
    if events == [] then NoResultsText
    else
      var h := Header(|events|, language, author, query);
      HeaderCounts(|events|, language, author, query);
      var out := h + Concat(Blocks(events, 1, BlockRenderer(language, encodeKey)));
      assert out[0] == h[0];
      out
  }

  lemma HeaderCounts(n: nat, language: string, author: string, query: string)
    ensures HasPrefix(Header(n, language, author, query), "Found " + Decimal(n) + " code snippets")
    ensures Header(n, language, author, query)[0] == 'F'
  {
  }

  /** A non-empty answer starts by counting the snippets it reports. */
  lemma FormatCounts(events: seq<Event>, language: string, author: string, query: string,
                     encodeKey: string -> string)
    requires events != []
    ensures HasPrefix(FormatResults(events, language, author, query, encodeKey),
                      "Found " + Decimal(|events|) + " code snippets")
  {
    HeaderCounts(|events|, language, author, query);
    PrefixExtends(Header(|events|, language, author, query), Concat(Blocks(events, 1, BlockRenderer(language, encodeKey))),
                  "Found " + Decimal(|events|) + " code snippets");
  }

  lemma PrefixExtends(s: string, rest: string, p: string)
    requires HasPrefix(s, p)
    ensures HasPrefix(s + rest, p)
  {
    assert (s + rest)[..|p|] == s[..|p|];
  }

  lemma OccursInside(a: string, t: string, b: string)
    ensures OccursAt(a + t + b, t, |a|)
  {
    assert (a + t + b)[|a|..|a| + |t|] == t;
  }

  lemma OccursAfter(a: string, s: string, t: string, p: int)
    requires OccursAt(s, t, p)
    ensures OccursAt(a + s, t, |a| + p)
  {
    assert (a + s)[|a| + p..|a| + p + |t|] == s[p..p + |t|];
  }

  lemma OccursWithin(s: string, t: string, u: string, p: int, q: int)
    requires OccursAt(s, t, p) && OccursAt(t, u, q)
    ensures OccursAt(s, u, p + q)
  {
    assert s[p + q..p + q + |u|] == u by {
      forall k | 0 <= k < |u|
        ensures s[p + q..p + q + |u|][k] == u[k]
      {
        assert s[p + q + k] == s[p..p + |t|][q + k];
      }
    }
  }

  /** Every part of a concatenation occurs in it, at position p. */
  lemma {:induction false} ConcatHasPart(parts: seq<string>, i: nat) returns (p: nat)
    requires i < |parts|
    ensures OccursAt(Concat(parts), parts[i], p)
    decreases i
  {
    if i == 0 {
      OccursInside("", parts[0], Concat(parts[1..]));
      assert "" + parts[0] + Concat(parts[1..]) == Concat(parts);
      p := 0;
    } else {
      var q := ConcatHasPart(parts[1..], i - 1);
      OccursAfter(parts[0], Concat(parts[1..]), parts[i], q);
      p := |parts[0]| + q;
    }
  }

  /** Every reported snippet's content appears in the answer, inside a code
      fence labelled with its language. */
  lemma FormatShowsEveryContent(events: seq<Event>, language: string, author: string, query: string,
                                encodeKey: string -> string, i: nat)
    requires i < |events|
    ensures exists p :: OccursAt(FormatResults(events, language, author, query, encodeKey),
                                 FenceOf(events[i], language), p)
  {
    var h := Header(|events|, language, author, query);
    var bs := Blocks(events, 1, BlockRenderer(language, encodeKey));
    var out := FormatResults(events, language, author, query, encodeKey);
    assert out == h + Concat(bs);
    var head := BlockHead(i + 1, events[i], language, encodeKey);
    var fence := FenceOf(events[i], language);
    BlocksAt(events, 1, BlockRenderer(language, encodeKey), i);
    assert bs[i] == Block(i + 1, events[i], language, encodeKey);
    var at := PartOccurs(h, bs, i, head, fence);
    assert OccursAt(out, fence, at);
  }

  /** Where the tail of part i sits in a header followed by all parts. */
  lemma PartOccurs(h: string, bs: seq<string>, i: nat, head: string, tail: string) returns (at: int)
    requires i < |bs| && bs[i] == head + tail
    ensures OccursAt(h + Concat(bs), tail, at)
  {
    var p := ConcatHasPart(bs, i);
    OccursAfter(h, Concat(bs), bs[i], p);
    OccursInside(head, tail, "");
    assert head + tail + "" == bs[i];
    OccursWithin(h + Concat(bs), bs[i], tail, |h| + p, |head|);
    at := |h| + p + |head|;
  }

  /** searchCodeSnippetsHandler: the search, then the text answer, using the
      resolved author in the header. */
  function SearchCodeSnippets(args: SearchArgs, decoded: Option<string>, cache: seq<Event>,
                              targeted: seq<RelayAnswer>, broad: seq<RelayAnswer>,
                              encodeKey: string -> string): (r: Result<string, string>)
    ensures r.Failure? <==> args.language == "" && args.author == "" && args.query == ""
    ensures r.Failure? ==> r.error == NoFilterError
    ensures r.Success? ==>
      (r.value == NoResultsText <==> SearchSnippets(args, decoded, cache, targeted, broad).value.events == [])
  {
    match SearchSnippets(args, decoded, cache, targeted, broad)
    case Failure(e) => Failure(e)
    case Success(o) =>
      Success(FormatResults(o.events, o.filters.language, o.filters.author, o.filters.query, encodeKey))
  }
}
