/** The ingestion side of main.go: the chunk identifiers, the parent-header
    line and the prompt built for every markdown chunk before it is embedded
    (`processMarkdownChunks`, `extractParentHeaders`, `extractNipIdentifier`).
    The markdown parser, the embedding model and the vector store are not
    modelled: the chunks are an input and the embedding call is a parameter. */
module Ingest {
  import opened Wrappers
  import opened Strings
  import opened Sentences
  import opened Docs

  // ---------------------------------------------------------------------------
  // extractParentHeaders
  // ---------------------------------------------------------------------------

  /** What an empty lineage renders as. */
  const RootHeaders: string := "Root"

  /** How the cleaned lineage parts are joined. */
  const HeaderSeparator: string := " > "

  /** The cleaning loop: every part trimmed, blank parts dropped. */
  function CleanParts(parts: seq<string>): (cs: seq<string>)
    ensures |cs| <= |parts|
    ensures forall j :: 0 <= j < |cs| ==> cs[j] != "" && IsTrimmed(cs[j])
    ensures parts == [] ==> cs == []
    ensures |parts| == 1 && IsBlank(parts[0]) ==> cs == []
    ensures |parts| == 1 && !IsBlank(parts[0]) ==> cs == [TrimSpace(parts[0])]
    decreases |parts|
  {
    if parts == [] then []
    else
      var c := TrimSpace(parts[0]);
      (if c != "" then [c] else []) + CleanParts(parts[1..])
  }

  /** extractParentHeaders: "Root" for an empty lineage; otherwise the parts
      between the '>' characters, trimmed, without the blank ones, joined by
      " > ". A lineage without '>' is only trimmed. */
  function ExtractParentHeaders(lineage: string): (r: string)
    ensures lineage == "" ==> r == RootHeaders
    ensures lineage != "" && '>' !in lineage ==> r == TrimSpace(lineage)
  {
    if lineage == "" then RootHeaders
    else
      SplitParts(lineage, '>');
      Join(CleanParts(Split(lineage, '>')), HeaderSeparator)
  }

  /** Cleaning keeps a character out of the parts when it was out of them. */
  lemma {:induction false} CleanPartsAvoid(parts: seq<string>, x: char)
    requires forall j :: 0 <= j < |parts| ==> x !in parts[j]
    ensures forall j :: 0 <= j < |CleanParts(parts)| ==> x !in CleanParts(parts)[j]
    decreases |parts|
  {
    if parts != [] {
      CleanPartsAvoid(parts[1..], x);
      var c := TrimSpace(parts[0]);
      assert c == parts[0][LeadingSpaces(parts[0])..LeadingSpaces(parts[0]) + |c|];
    }
  }

  /** Cleaning works part by part: with the one-part cases of its contract
      this determines CleanParts on every list. */
  lemma {:induction false} CleanPartsAppend(a: seq<string>, b: seq<string>)
    ensures CleanParts(a + b) == CleanParts(a) + CleanParts(b)
    decreases |a|
  {
    if a == [] {
      assert a + b == b;
    } else {
      assert (a + b)[1..] == a[1..] + b;
      CleanPartsAppend(a[1..], b);
    }
  }

  lemma CleanPartsCons(p: string, rest: seq<string>)
    ensures TrimSpace(p) != "" ==> CleanParts([p] + rest) == [TrimSpace(p)] + CleanParts(rest)
    ensures TrimSpace(p) == "" ==> CleanParts([p] + rest) == CleanParts(rest)
  {
    assert ([p] + rest)[1..] == rest;
  }

  /** Splitting the joined parts at '>' and cleaning gives the parts back, also
      after a blank prefix. */
  lemma {:induction false} SplitJoinClean(w: string, cs: seq<string>)
    requires IsBlank(w) && '>' !in w
    requires cs != []
    requires forall j :: 0 <= j < |cs| ==> cs[j] != "" && IsTrimmed(cs[j]) && '>' !in cs[j]
    ensures CleanParts(Split(w + Join(cs, HeaderSeparator), '>')) == cs
    decreases |cs|
  {
    if |cs| == 1 {
      SplitJoinSingle(w, cs[0]);
      assert Join(cs, HeaderSeparator) == cs[0];
      assert [cs[0]] == cs;
    } else {
      SplitJoinClean(" ", cs[1..]);
      SplitJoinStep(w, cs);
    }
  }

  /** The last part of SplitJoinClean. */
  lemma SplitJoinSingle(w: string, c: string)
    requires IsBlank(w) && '>' !in w
    requires c != "" && IsTrimmed(c) && '>' !in c
    ensures CleanParts(Split(w + c, '>')) == [c]
  {
    SplitParts(w + c, '>');
    TrimBlankPadding(w, c, "");
    assert w + c + "" == w + c;
    CleanPartsCons(w + c, []);
  }

  /** One step of SplitJoinClean: the first part, then the rest after its
      separator. */
  lemma SplitJoinStep(w: string, cs: seq<string>)
    requires IsBlank(w) && '>' !in w
    requires |cs| > 1 && cs[0] != "" && IsTrimmed(cs[0]) && '>' !in cs[0]
    requires CleanParts(Split(" " + Join(cs[1..], HeaderSeparator), '>')) == cs[1..]
    ensures CleanParts(Split(w + Join(cs, HeaderSeparator), '>')) == cs
  {
    var tail := Join(cs[1..], HeaderSeparator);
    var head := w + cs[0] + " ";
    assert Join(cs, HeaderSeparator) == cs[0] + HeaderSeparator + tail;
    var s := w + Join(cs, HeaderSeparator);
    AroundSeparator(w, cs[0], tail);
    assert s == head + ['>'] + (" " + tail);
    var rest := Split(" " + tail, '>');
    SplitAfterPart(head, '>', " " + tail);
    assert Split(s, '>') == [head] + rest;
    TrimBlankPadding(w, cs[0], " ");
    CleanPartsCons(head, rest);
    assert CleanParts([head] + rest) == [cs[0]] + cs[1..];
    HeadAndTail(cs);
  }

  lemma HeadAndTail<T>(s: seq<T>)
    requires s != []
    ensures [s[0]] + s[1..] == s
  {
  }

  /** The separator " > " is a '>' with a space on either side. */
  lemma AroundSeparator(w: string, c: string, tail: string)
    ensures w + (c + HeaderSeparator + tail) == (w + c + " ") + ['>'] + (" " + tail)
  {
    assert HeaderSeparator == " " + ['>'] + " ";
  }

  /** Joining non-empty parts gives a non-empty line. */
  lemma {:induction false} JoinNonEmpty(cs: seq<string>, sep: string)
    requires cs != [] && cs[0] != ""
    ensures Join(cs, sep) != ""
  {
    if |cs| > 1 {
      assert |Join(cs, sep)| >= |cs[0]|;
    }
  }

  /** A line of clean parts is its own parent-header line. */
  lemma HeadersOfJoin(cs: seq<string>)
    requires cs != []
    requires forall j :: 0 <= j < |cs| ==> cs[j] != "" && IsTrimmed(cs[j]) && '>' !in cs[j]
    ensures ExtractParentHeaders(Join(cs, HeaderSeparator)) == Join(cs, HeaderSeparator)
  {
    var line := Join(cs, HeaderSeparator);
    JoinNonEmpty(cs, HeaderSeparator);
    SplitJoinClean("", cs);
    assert "" + line == line;
  }

  /** A non-empty parent-header line is its own parent-header line. */
  lemma HeadersIdempotent(lineage: string)
    requires ExtractParentHeaders(lineage) != ""
    ensures ExtractParentHeaders(ExtractParentHeaders(lineage)) == ExtractParentHeaders(lineage)
  {
    if lineage == "" {
      assert Join([RootHeaders], HeaderSeparator) == RootHeaders;
      HeadersOfJoin([RootHeaders]);
    } else {
      var parts := Split(lineage, '>');
      var cs := CleanParts(parts);
      SplitParts(lineage, '>');
      CleanPartsAvoid(parts, '>');
      assert ExtractParentHeaders(lineage) == Join(cs, HeaderSeparator);
      HeadersOfJoin(cs);
    }
  }

  /** The parts are trimmed and joined with single spaces around '>':
      " A > B >C " gives "A > B > C". */
  lemma HeadersExample(lineage: string)
    requires lineage == " A > B >C "
    ensures ExtractParentHeaders(lineage) == "A > B > C"
  {
    var parts := [" A ", " B ", "C "];
    var cs := ["A", "B", "C"];
    ExampleSplit(lineage);
    ExampleClean(parts);
    ExampleJoin(cs);
  }

  lemma ExampleSplit(lineage: string)
    requires lineage == " A > B >C "
    ensures Split(lineage, '>') == [" A ", " B ", "C "]
  {
    assert lineage == " A " + ['>'] + (" B " + ['>'] + "C ");
    SplitAfterPart(" A ", '>', " B " + ['>'] + "C ");
    SplitAfterPart(" B ", '>', "C ");
    SplitParts("C ", '>');
  }

  lemma ExampleClean(parts: seq<string>)
    requires parts == [" A ", " B ", "C "]
    ensures CleanParts(parts) == ["A", "B", "C"]
  {
    TrimLetter(" A ", 1);
    TrimLetter(" B ", 1);
    TrimLetter("C ", 0);
    CleanThree(" A ", " B ", "C ");
  }

  /** A string that is one letter surrounded by spaces trims to that letter. */
  lemma TrimLetter(s: string, i: nat)
    requires i < |s| && !IsSpace(s[i])
    requires forall k :: 0 <= k < |s| && k != i ==> IsSpace(s[k])
    ensures TrimSpace(s) == [s[i]]
  {
    assert s == s[..i] + [s[i]] + s[i + 1..];
    TrimBlankPadding(s[..i], [s[i]], s[i + 1..]);
  }

  lemma CleanThree(a: string, b: string, c: string)
    requires TrimSpace(a) != "" && TrimSpace(b) != "" && TrimSpace(c) != ""
    ensures CleanParts([a, b, c]) == [TrimSpace(a), TrimSpace(b), TrimSpace(c)]
  {
    CleanPartsCons(a, [b, c]);
    CleanPartsCons(b, [c]);
    CleanPartsCons(c, []);
    assert [a, b, c] == [a] + [b, c] && [b, c] == [b] + [c] && [c] == [c] + [];
  }

  lemma ExampleJoin(cs: seq<string>)
    requires cs == ["A", "B", "C"]
    ensures Join(cs, HeaderSeparator) == "A > B > C"
  {
    assert cs[1..] == ["B", "C"] && cs[1..][1..] == ["C"];
    assert Join(["C"], HeaderSeparator) == "C";
    assert Join(["B", "C"], HeaderSeparator) == "B > C";
  }

  /** Every character of a part is a character of the split string. */
  lemma {:induction false} SplitKeepsChars(s: string, sep: char)
    ensures forall i, k :: 0 <= i < |Split(s, sep)| && 0 <= k < |Split(s, sep)[i]| ==> Split(s, sep)[i][k] in s
    decreases |s|
  {
    if s != [] {
      SplitKeepsChars(s[1..], sep);
      assert forall c :: c in s[1..] ==> c in s;
    }
  }

  lemma {:induction false} CleanBlankParts(parts: seq<string>)
    requires forall j :: 0 <= j < |parts| ==> IsBlank(parts[j])
    ensures CleanParts(parts) == []
    decreases |parts|
  {
    if parts != [] {
      CleanBlankParts(parts[1..]);
    }
  }

  /** A non-empty lineage made only of spaces and '>' gives an empty line, not
      "Root". */
  lemma SeparatorsOnlyLineage(lineage: string)
    requires lineage != ""
    requires forall k :: 0 <= k < |lineage| ==> lineage[k] == '>' || IsSpace(lineage[k])
    ensures ExtractParentHeaders(lineage) == ""
  {
    var parts := Split(lineage, '>');
    SplitParts(lineage, '>');
    SplitKeepsChars(lineage, '>');
    forall j | 0 <= j < |parts|
      ensures IsBlank(parts[j])
    {
      forall k | 0 <= k < |parts[j]|
        ensures IsSpace(parts[j][k])
      {
        assert parts[j][k] in lineage && parts[j][k] != '>';
      }
    }
    CleanBlankParts(parts);
  }

  // ---------------------------------------------------------------------------
  // extractNipIdentifier
  // ---------------------------------------------------------------------------

  /** extractNipIdentifier: the file name without a trailing ".md". */
  function ExtractNipIdentifier(filename: string): (ident: string)
    ensures HasSuffix(filename, ".md") ==> ident + ".md" == filename
    ensures !HasSuffix(filename, ".md") ==> ident == filename
  {
    TrimSuffix(filename, ".md")
  }

  /** The identifier of a markdown file is its name without the extension. */
  lemma NipIdentifierOfMarkdown(name: string)
    ensures ExtractNipIdentifier(name + ".md") == name
  {
    var f := name + ".md";
    assert f[|f| - 3..] == ".md";
    var ident := ExtractNipIdentifier(f);
    assert |ident| == |name|;
    assert ident == f[..|name|];
  }

  // ---------------------------------------------------------------------------
  // processMarkdownChunks
  // ---------------------------------------------------------------------------

  /** One chunk of the markdown parser: its header, its text and the headers
      above it, separated by '>'. */
  datatype Chunk = Chunk(header: string, content: string, lineage: string)

  /** What is sent to the embedding model: the id the vector is stored under
      and the prompt. */
  datatype EmbeddingRequest = EmbeddingRequest(id: string, prompt: string)

  const ChunkInfix: string := "-chunk-"

  const OverlapCaption: string := "\n\nContext from previous section:\n"

  /** The id of the n-th embedding of the process. */
  function ChunkId(ident: string, n: nat): string {
    ident + ChunkInfix + Decimal(n)
  }

  /** The prompt of a chunk without the overlap. */
  function SectionPrompt(chunk: Chunk): string {
    DocumentPrefix + SectionText(chunk)
  }

  /** The section, its parent headers and its text. */
  function SectionText(chunk: Chunk): string {
    "Section: " + chunk.header + "\nParent Sections: " + ExtractParentHeaders(chunk.lineage) + "\n\n" + chunk.content
  }

  /** The prompt of chunk i: the section prompt, followed by the overlap of the
      previous chunk when there is one with non-empty text. */
  function ChunkPrompt(chunks: seq<Chunk>, i: nat): string
    requires i < |chunks|
  {
    SectionPrompt(chunks[i]) + OverlapContext(chunks, i)
  }

  /** The context taken over from the previous chunk: its overlap under a
      caption, or nothing. */
  function OverlapContext(chunks: seq<Chunk>, i: nat): string
    requires i < |chunks|
  {
    if i > 0 && |chunks[i - 1].content| > 0 then
      var overlap := ExtractOverlap(chunks[i - 1].content);
      if overlap != "" then OverlapCaption + overlap else ""
    else ""
  }

  /** The request for chunk i of a file whose chunks are numbered after
      `counter`. */
  function Request(ident: string, counter: nat, chunks: seq<Chunk>, i: nat): EmbeddingRequest
    requires i < |chunks|
  {
    EmbeddingRequest(ChunkId(ident, counter + i + 1), ChunkPrompt(chunks, i))
  }

  /** Reference definition of what reaches the store: the vectors of the
      requests whose embedding succeeded, in order. */
  function Embedded<V>(requests: seq<EmbeddingRequest>, embed: EmbeddingRequest -> Option<V>): (vs: seq<V>)
    ensures |vs| <= |requests|
    decreases |requests|
  {
    if requests == [] then []
    else
      (match embed(requests[0]) case Some(v) => [v] case None => []) + Embedded(requests[1..], embed)
  }

  lemma {:induction false} EmbeddedAppend<V>(a: seq<EmbeddingRequest>, b: seq<EmbeddingRequest>,
                                              embed: EmbeddingRequest -> Option<V>)
    ensures Embedded(a + b, embed) == Embedded(a, embed) + Embedded(b, embed)
    decreases |a|
  {
    if a == [] {
      assert a + b == b;
    } else {
      assert (a + b)[0] == a[0];
      assert (a + b)[1..] == a[1..] + b;
      EmbeddedAppend(a[1..], b, embed);
    }
  }

  /** Distinct numbers give distinct ids. */
  lemma ChunkIdInjective(ident: string, a: nat, b: nat)
    requires ChunkId(ident, a) == ChunkId(ident, b)
    ensures a == b
  {
    var p := ident + ChunkInfix;
    assert (p + Decimal(a))[|p|..] == Decimal(a);
    assert (p + Decimal(b))[|p|..] == Decimal(b);
    DecimalInjective(a, b);
  }

  /** processMarkdownChunks over the chunks of one file: every chunk advances
      the process-wide counter and gets the id "<ident>-chunk-<counter>" and
      its prompt; the embedding is made for every chunk and the vector saved
      when it succeeded; a failed embedding skips the chunk. `filename` is the
      base name of the file and `counter` the counter before the file. */
  method ProcessMarkdownChunks<V>(filename: string, chunks: seq<Chunk>, counter: nat,
                                  embed: EmbeddingRequest -> Option<V>)
    returns (next: nat, requests: seq<EmbeddingRequest>, saved: seq<V>)
    ensures next == counter + |chunks|
    ensures |requests| == |chunks|
    ensures forall i :: 0 <= i < |chunks| ==>
      requests[i] == Request(ExtractNipIdentifier(filename), counter, chunks, i)
    ensures forall i, j :: 0 <= i < j < |requests| ==> requests[i].id != requests[j].id
    ensures saved == Embedded(requests, embed)
  {
    var ident := ExtractNipIdentifier(filename);
    next := counter;
    requests := [];
    saved := [];
    var i := 0;
    while i < |chunks|
      invariant 0 <= i <= |chunks|
      invariant next == counter + i
      invariant |requests| == i
      invariant requests == RequestsUpTo(ident, counter, chunks, i)
      invariant saved == Embedded(requests, embed)
    {
      next := next + 1;
      var request := EmbeddingRequest(ChunkId(ident, next), ChunkPrompt(chunks, i));
      assert request == Request(ident, counter, chunks, i);
      EmbeddedSnoc(requests, request, embed);
      match embed(request) {
        case Some(v) =>
          saved := saved + [v];
        case None =>
      }
      requests := requests + [request];
      i := i + 1;
    }
    forall k | 0 <= k < |chunks|
      ensures requests[k] == Request(ident, counter, chunks, k)
    {
      RequestAt(ident, counter, chunks, |chunks|, k);
    }
    RequestIdsDistinct(ident, counter, chunks);
  }

  /** The requests of the first n chunks. */
  function RequestsUpTo(ident: string, counter: nat, chunks: seq<Chunk>, n: nat): (rs: seq<EmbeddingRequest>)
    requires n <= |chunks|
    ensures |rs| == n
  {
    if n == 0 then [] else RequestsUpTo(ident, counter, chunks, n - 1) + [Request(ident, counter, chunks, n - 1)]
  }

  lemma {:induction false} RequestAt(ident: string, counter: nat, chunks: seq<Chunk>, n: nat, k: nat)
    requires k < n <= |chunks|
    ensures RequestsUpTo(ident, counter, chunks, n)[k] == Request(ident, counter, chunks, k)
  {
    var before := RequestsUpTo(ident, counter, chunks, n - 1);
    if k < n - 1 {
      RequestAt(ident, counter, chunks, n - 1, k);
      assert (before + [Request(ident, counter, chunks, n - 1)])[k] == before[k];
    }
  }

  lemma EmbeddedSnoc<V>(requests: seq<EmbeddingRequest>, request: EmbeddingRequest,
                        embed: EmbeddingRequest -> Option<V>)
    ensures embed(request).Some? ==> Embedded(requests + [request], embed) == Embedded(requests, embed) + [embed(request).value]
    ensures embed(request).None? ==> Embedded(requests + [request], embed) == Embedded(requests, embed)
  {
    EmbeddedAppend(requests, [request], embed);
    assert [request][1..] == [];
  }

  /** The requests of one file carry pairwise distinct ids. */
  lemma RequestIdsDistinct(ident: string, counter: nat, chunks: seq<Chunk>)
    ensures forall a, b :: 0 <= a < b < |chunks| ==>
      Request(ident, counter, chunks, a).id != Request(ident, counter, chunks, b).id
  {
    forall a, b | 0 <= a < b < |chunks|
      ensures Request(ident, counter, chunks, a).id != Request(ident, counter, chunks, b).id
    {
      if ChunkId(ident, counter + a + 1) == ChunkId(ident, counter + b + 1) {
        ChunkIdInjective(ident, counter + a + 1, counter + b + 1);
      }
    }
  }

  /** The overlap is added exactly when there is a previous chunk with
      non-empty text; the prompt always starts with the section prompt. */
  lemma ChunkPromptOverlap(chunks: seq<Chunk>, i: nat)
    requires i < |chunks|
    ensures HasPrefix(ChunkPrompt(chunks, i), SectionPrompt(chunks[i]))
    ensures ChunkPrompt(chunks, i) == SectionPrompt(chunks[i]) <==> i == 0 || chunks[i - 1].content == ""
  {
    var extra := OverlapContext(chunks, i);
    assert extra == "" <==> i == 0 || chunks[i - 1].content == "";
    AppendKeepsPrefix(SectionPrompt(chunks[i]), extra);
  }

  lemma AppendKeepsPrefix(base: string, extra: string)
    ensures HasPrefix(base + extra, base)
    ensures base + extra == base <==> extra == ""
  {
    assert (base + extra)[..|base|] == base;
  }

  /** Every stored document starts with the document prefix, so no query
      prompt of the documentation search is ever a stored prompt. */
  lemma StoredPromptIsNotQuery(chunks: seq<Chunk>, i: nat, args: QueryArgs)
    requires i < |chunks|
    requires PlanQuery(args).Success?
    ensures HasPrefix(ChunkPrompt(chunks, i), DocumentPrefix)
    ensures PlanQuery(args).value.prompt != ChunkPrompt(chunks, i)
  {
    ChunkPromptOverlap(chunks, i);
    PrefixOfPrefix(ChunkPrompt(chunks, i), DocumentPrefix, SectionText(chunks[i]));
    QueryPromptIsNotDocument(args);
  }

  lemma PrefixOfPrefix(s: string, p: string, q: string)
    requires HasPrefix(s, p + q)
    ensures HasPrefix(s, p)
  {
    assert s[..|p|] == (p + q)[..|p|];
  }
}
