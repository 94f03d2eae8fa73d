/** `process_pdf`: extract the text, summarise its first chunks, and answer
    the question from the opening of the text. The summarisation and
    question-answering models are opaque and come in as functions. */
module PdfProcessing {
  import opened Wrappers
  import opened Strings
  import opened Chunking
  import opened PdfExtraction

  /** Only this many leading chunks are summarised. */
  const SummarizedChunks: nat := 5

  /** The question-answering model sees at most this many leading characters. */
  const QaContextLength: nat := 10_000

  /** The answer given when no question is asked. */
  const NoQuestionAnswer: string := "No question provided."

  /** The dictionary `process_pdf` returns. */
  datatype Report = Report(summary: string, answer: string)

  /** Python's truth value of `question`: None and "" are false. */
  predicate Asked(question: Option<string>)
    ensures Asked(question) <==> question != None && question != Some("")
  {
    question.Some? && question.value != ""
  }

  /** `chunks[:5]`. */
  function FirstChunks(chunks: seq<string>): (head: seq<string>)
    ensures |head| == Min(SummarizedChunks, |chunks|)
    ensures forall i :: 0 <= i < |head| ==> head[i] == chunks[i]
  {
    chunks[..Min(SummarizedChunks, |chunks|)]
  }

  /** The summarizer's output for each chunk, in order. */
  function Fragments(chunks: seq<string>, summarizer: string -> string): (fs: seq<string>)
    ensures |fs| == |chunks|
  {
    seq(|chunks|, i requires 0 <= i < |chunks| => summarizer(chunks[i]))
  }

  /** The fragments joined, each followed by one space. */
  function Spaced(fragments: seq<string>): (s: string)
    ensures |s| == |Concat(fragments)| + |fragments|
    ensures fragments != [] ==> s[|s| - 1] == ' '
  {
    if fragments == [] then ""
    else Spaced(fragments[..|fragments| - 1]) + fragments[|fragments| - 1] + " "
  }

  /** The fragments joined with one space between neighbours. */
  function JoinWithSpaces(fragments: seq<string>): string {
    if |fragments| <= 1 then Concat(fragments)
    else JoinWithSpaces(fragments[..|fragments| - 1]) + " " + fragments[|fragments| - 1]
  }

  /** The summary `process_pdf` returns for the given chunks: it neither
      starts nor ends with whitespace, and it is empty when there are no
      chunks. */
  function Summary(chunks: seq<string>, summarizer: string -> string): (s: string)
    ensures s == [] || (!IsSpace(s[0]) && !IsSpace(s[|s| - 1]))
    ensures chunks == [] ==> s == []
  {
    Strip(Spaced(Fragments(FirstChunks(chunks), summarizer)))
  }

  /** The answer stage: without a question, the fixed sentinel and no model
      call; otherwise the model's answer for the question over the first
      QaContextLength characters of the text. */
  function Answer(question: Option<string>, text: string, qa: (string, string) -> string): (a: string)
    ensures !Asked(question) ==> a == NoQuestionAnswer
    ensures Asked(question) ==> a == qa(question.value, text[..Min(QaContextLength, |text|)])
  {
    if Asked(question) then qa(question.value, text[..Min(QaContextLength, |text|)])
    else NoQuestionAnswer
  }

  /** `process_pdf`. `summarized` records, in order, the chunks handed to the
      summarizer: the first min(5, number of chunks) chunks of the text. */
  method ProcessPdf(pdf: Pdf, question: Option<string>,
                    summarizer: string -> string, qa: (string, string) -> string)
    returns (report: Report, ghost summarized: seq<string>)
    ensures var chunks := ChunkText(Extract(pdf).text, DefaultMaxLength);
      && summarized == FirstChunks(chunks)
      && |summarized| == Min(SummarizedChunks, |chunks|)
      && report.summary == Strip(Spaced(Fragments(summarized, summarizer)))
      && report.summary == Summary(chunks, summarizer)
    ensures report.answer == Answer(question, Extract(pdf).text, qa)
  {
    var extraction := ExtractTextFromPdf(pdf);
    var text := extraction.text;
    var chunks := ChunkText(text, DefaultMaxLength);
    var head := chunks[..Min(SummarizedChunks, |chunks|)];
    var summary := "";
    summarized := [];
    for i := 0 to |head|
      invariant summarized == head[..i]
      invariant summary == Spaced(Fragments(summarized, summarizer))
    {
      assert Fragments(head[..i + 1], summarizer)[..i] == Fragments(head[..i], summarizer);
      summary := summary + summarizer(head[i]) + " ";
      summarized := summarized + [head[i]];
      assert summarized == head[..i + 1];
    }
    assert summarized == head;
    report := Report(Strip(summary), Answer(question, text, qa));
  }

  /** Spacing a non-empty list of fragments is joining them with single
      spaces and adding one trailing space. */
  lemma {:induction false} SpacedIsJoinedPlusSpace(fragments: seq<string>)
    requires fragments != []
    ensures Spaced(fragments) == JoinWithSpaces(fragments) + " "
  {
    var n := |fragments|;
    if n == 1 {
      assert fragments[..0] == [];
      assert Concat(fragments) == Concat(fragments[..0]) + fragments[0];
    } else {
      SpacedIsJoinedPlusSpace(fragments[..n - 1]);
    }
  }

  /** A fragment the summary separator cannot merge into: non-empty and
      neither starting nor ending with whitespace. */
  predicate Clean(fragment: string) {
    fragment != [] && !IsSpace(fragment[0]) && !IsSpace(fragment[|fragment| - 1])
  }

  /** Clean fragments joined with single spaces give a clean text. */
  lemma {:induction false} JoinedEnds(fragments: seq<string>)
    requires fragments != [] && forall i :: 0 <= i < |fragments| ==> Clean(fragments[i])
    ensures Clean(JoinWithSpaces(fragments))
  {
    var n := |fragments|;
    if n == 1 {
      assert fragments[..0] == [];
      assert Concat(fragments) == Concat(fragments[..0]) + fragments[0];
    } else {
      var init := fragments[..n - 1];
      JoinedEnds(init);
      var left := JoinWithSpaces(init) + " ";
      assert JoinWithSpaces(fragments) == left + fragments[n - 1];
      assert JoinWithSpaces(fragments)[0] == left[0];
    }
  }

  /** When every summary fragment is clean, the returned summary is the
      fragments separated by exactly one space, with nothing around them;
      with no fragments at all it is empty. */
  lemma SummaryOfCleanFragments(fragments: seq<string>)
    requires forall i :: 0 <= i < |fragments| ==> Clean(fragments[i])
    ensures Strip(Spaced(fragments)) == JoinWithSpaces(fragments)
  {
    if fragments == [] {
      assert AllSpace("");
    } else {
      SpacedIsJoinedPlusSpace(fragments);
      JoinedEnds(fragments);
      StripTrailingSpace(JoinWithSpaces(fragments));
    }
  }

  /** Stripping a clean text followed by one space gives the text back. */
  lemma StripTrailingSpace(text: string)
    requires Clean(text)
    ensures Strip(text + " ") == text
  {
    assert AllSpace("") && AllSpace(" ");
    StripPadded("", text, " ");
    assert "" + text + " " == text + " ";
  }

  /** Only the first SummarizedChunks * DefaultMaxLength characters of the
      text reach the summary: two texts that agree on them get the same
      summary, whatever follows. */
  lemma SummaryReadsOnlyOpening(text1: string, text2: string, summarizer: string -> string)
    requires text1[..Min(SummarizedChunks * DefaultMaxLength, |text1|)]
          == text2[..Min(SummarizedChunks * DefaultMaxLength, |text2|)]
    ensures Summary(ChunkText(text1, DefaultMaxLength), summarizer)
         == Summary(ChunkText(text2, DefaultMaxLength), summarizer)
  {
    ChunksOfPrefix(text1, DefaultMaxLength, SummarizedChunks);
    ChunksOfPrefix(text2, DefaultMaxLength, SummarizedChunks);
  }

  /** The answer reads only the first QaContextLength characters of the
      text, and without a question it does not depend on the model at all. */
  lemma AnswerReadsOnlyContext(question: Option<string>, text1: string, text2: string,
                               qa1: (string, string) -> string, qa2: (string, string) -> string)
    requires text1[..Min(QaContextLength, |text1|)] == text2[..Min(QaContextLength, |text2|)]
    requires Asked(question) ==> qa1 == qa2
    ensures Answer(question, text1, qa1) == Answer(question, text2, qa2)
  {
  }
}
