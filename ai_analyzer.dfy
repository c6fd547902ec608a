/**
 * `AIAnalyzer`: the text block a subreddit -> posts mapping is serialised to, the
 * prompts built around it, and the mapping of the model's answer or failure to
 * the one string the analyzer always returns. The generative-model call is the
 * parameter `generate`; what it answers for a prompt is outside the model.
 */
module AiAnalyzer {
  import opened Builtins
  import opened Lists
  import opened OrderedDict
  import opened DataProcessor

  /** The outcome of `self.model.generate_content(prompt).text`. */
  datatype Reply = Generated(text: string) | Failed(reason: string)

  const ExcerptLength := 200

  // ---------------------------------------------------------------------------
  // _format_reddit_data

  function SectionHeader(name: string): string
  {
    "\n--- r/" + name + " ---\n"
  }

  /**
   * The optional content line: present exactly when the content is non-empty,
   * holding at most the first 200 characters and always ending in "...\n".
   */
  function ContentLine(content: string): (r: string)
    ensures r == "" <==> content == ""
    ensures content != "" ==>
              && |r| >= 13 && r[..9] == "Content: " && r[|r| - 4..] == "...\n"
              && |r| - 13 <= ExcerptLength && |r| - 13 <= |content|
              && r[9..|r| - 4] == content[..|r| - 13]
              && (|content| <= ExcerptLength ==> r[9..|r| - 4] == content)
              && (|content| > ExcerptLength ==> |r| - 13 == ExcerptLength)
  {
    if content == "" then "" else "Content: " + Take(content, ExcerptLength) + "...\n"
  }

  function TitleLine(title: string): string
  {
    "Title: " + title + "\n"
  }

  function ScoreLine(p: Post): string
  {
    "Score: " + IntToString(p.score) + ", Comments: " + IntToString(p.numComments) + "\n\n"
  }

  function PostBlock(p: Post): string
  {
    TitleLine(p.title) + ContentLine(p.content) + ScoreLine(p)
  }

  /** The blocks of a section's posts, one after another. */
  function PostsBlock(posts: seq<Post>): string
  {
    Concat(Map(posts, PostBlock))
  }

  function SectionBlock(s: Section<Post>): string
  {
    SectionHeader(s.name) + PostsBlock(s.posts)
  }

  /** `_format_reddit_data`: each section's header and post blocks, sections in order. */
  function Serialize(data: Dict<Post>): string
  {
    Concat(Map(data, SectionBlock))
  }

  /** The text of one post as the loop body appends it, piece by piece. */
  function PostPieces(text: string, p: Post): string
  {
    var t := text + TitleLine(p.title);
    var t := if p.content != "" then t + ContentLine(p.content) else t;
    t + ScoreLine(p)
  }

  lemma PiecesAreBlock(text: string, p: Post)
    ensures PostPieces(text, p) == text + PostBlock(p)
  {
    if p.content == "" {
      assert ContentLine(p.content) == "";
    }
  }

  lemma PostsStep(posts: seq<Post>, j: nat, text: string)
    requires j < |posts| && text == PostsBlock(posts[..j])
    ensures PostPieces(text, posts[j]) == PostsBlock(posts[..j + 1])
  {
    ConcatMapPrefix(posts, j, PostBlock);
    PiecesAreBlock(text, posts[j]);
  }

  /** The inner loop of `_format_reddit_data`: one block per post, in order. */
  method FormatPosts(posts: seq<Post>) returns (text: string)
    ensures text == PostsBlock(posts)
  {
    text := "";
    for j := 0 to |posts|
      invariant text == PostsBlock(posts[..j])
    {
      var post := posts[j];
      PostsStep(posts, j, text);
      ghost var before := text;
      text := text + TitleLine(post.title);
      if post.content != "" {
        text := text + ContentLine(post.content);
      }
      text := text + ScoreLine(post);
      assert text == PostPieces(before, post);
    }
    assert posts[..|posts|] == posts;
  }

  lemma SectionsStep(data: Dict<Post>, i: nat, text: string, block: string)
    requires i < |data| && text == Serialize(data[..i]) && block == PostsBlock(data[i].posts)
    ensures text + SectionHeader(data[i].name) + block == Serialize(data[..i + 1])
  {
    ConcatMapPrefix(data, i, SectionBlock);
  }

  /** `_format_reddit_data`: a loop over the sections that accumulates into one string. */
  method FormatRedditData(data: Dict<Post>) returns (formatted: string)
    ensures formatted == Serialize(data)
    ensures data == [] ==> formatted == ""
  {
    formatted := "";
    for i := 0 to |data|
      invariant formatted == Serialize(data[..i])
    {
      var subreddit, posts := data[i].name, data[i].posts;
      var block := FormatPosts(posts);
      SectionsStep(data, i, formatted, block);
      formatted := formatted + SectionHeader(subreddit);
      formatted := formatted + block;
    }
    assert data[..|data|] == data;
  }

  /** Formatting a concatenation of mappings is concatenating their formattings. */
  lemma SerializeAppend(a: Dict<Post>, b: Dict<Post>)
    ensures Serialize(a + b) == Serialize(a) + Serialize(b)
  {
    MapAppend(a, b, SectionBlock);
    ConcatAppend(Map(a, SectionBlock), Map(b, SectionBlock));
  }

  /** Each section contributes its header followed by its posts' blocks, in its place. */
  lemma SerializeSection(a: Dict<Post>, s: Section<Post>, b: Dict<Post>)
    ensures Serialize(a + [s] + b) ==
            Serialize(a) + SectionHeader(s.name) + PostsBlock(s.posts) + Serialize(b)
  {
    ConcatMapSplit(a, s, b, SectionBlock);
    AppendRegroup(Serialize(a), SectionHeader(s.name), PostsBlock(s.posts), Serialize(b));
  }

  /**
   * Each post contributes its title line first and its score/comments line last;
   * both numbers read back from that line's text.
   */
  lemma PostBlockShape(p: Post)
    ensures var t := "Title: " + p.title + "\n";
            |PostBlock(p)| >= |t| + |ScoreLine(p)| && PostBlock(p)[..|t|] == t
    ensures PostBlock(p)[|PostBlock(p)| - |ScoreLine(p)|..] ==
            "Score: " + IntToString(p.score) + ", Comments: " + IntToString(p.numComments) + "\n\n"
    ensures ParseInt(IntToString(p.score)) == p.score
    ensures ParseInt(IntToString(p.numComments)) == p.numComments
  {
    var t := "Title: " + p.title + "\n";
    assert PostBlock(p) == t + ContentLine(p.content) + ScoreLine(p);
    assert PostBlock(p)[..|t|] == t;
    IntToStringRoundTrip(p.score);
    IntToStringRoundTrip(p.numComments);
  }

  // ---------------------------------------------------------------------------
  // Prompt selection in analyze_reddit_trends, and generate_content_ideas

  const I16 := "                "
  const I12 := "            "

  const TrendsHead := "\n" + I16 + "Analyze these Reddit posts and identify key trends:\n" + I16 + "\n" + I16
  const TrendsTail := "\n" + I16 + "\n" + I16 + "Provide:\n"
                      + I16 + "1. Top 3 trending topics\n"
                      + I16 + "2. Common themes\n"
                      + I16 + "3. Content strategy recommendations\n"
                      + I16 + "\n"
                      + I16 + "Keep your response professional and actionable.\n" + I16
  const SentimentHead := "\n" + I16 + "Analyze the sentiment and tone of these Reddit posts:\n" + I16 + "\n" + I16
  const SentimentTail := "\n" + I16 + "\n" + I16 + "Provide:\n"
                         + I16 + "1. Overall sentiment (positive/negative/neutral)\n"
                         + I16 + "2. Key emotional themes\n"
                         + I16 + "3. Community mood insights\n" + I16
  const GenericHead := "Analyze this Reddit data: "

  function PromptHead(analysisType: string): string
  {
    if analysisType == "trends" then TrendsHead
    else if analysisType == "sentiment" then SentimentHead
    else GenericHead
  }

  function PromptTail(analysisType: string): string
  {
    if analysisType == "trends" then TrendsTail
    else if analysisType == "sentiment" then SentimentTail
    else ""
  }

  /** The prompt `analyze_reddit_trends` builds: one of three templates, each embedding the data. */
  function AnalysisPrompt(formatted: string, analysisType: string): (prompt: string)
    ensures IsInfix(formatted, prompt)
  {
    InfixOfConcat(PromptHead(analysisType), formatted, PromptTail(analysisType));
    PromptHead(analysisType) + formatted + PromptTail(analysisType)
  }

  /** The formatted data can be recovered from the prompt: different data, different prompt. */
  lemma AnalysisPromptInjective(f1: string, f2: string, analysisType: string)
    requires AnalysisPrompt(f1, analysisType) == AnalysisPrompt(f2, analysisType)
    ensures f1 == f2
  {
    FrameInjective(PromptHead(analysisType), f1, f2, PromptTail(analysisType));
  }

  /** The trends and sentiment templates part at "these" against "the ". */
  lemma HeadsDiffer()
    ensures |TrendsHead| > 28 && |SentimentHead| > 28 && TrendsHead[28] != SentimentHead[28]
  {
    var pre := "\n" + I16;
    assert |pre| == 17;
    var t := "Analyze these Reddit posts and identify key trends:\n";
    var s := "Analyze the sentiment and tone of these Reddit posts:\n";
    assert TrendsHead == pre + t + I16 + "\n" + I16;
    assert SentimentHead == pre + s + I16 + "\n" + I16;
    assert t[11] == 's' && s[11] == ' ';
    assert TrendsHead[28] == t[11];
    assert SentimentHead[28] == s[11];
  }

  /** The three analysis types give three different prompts for the same data. */
  lemma AnalysisPromptsDiffer(formatted: string, other: string)
    requires other != "trends" && other != "sentiment"
    ensures AnalysisPrompt(formatted, "trends") != AnalysisPrompt(formatted, "sentiment")
    ensures AnalysisPrompt(formatted, "trends") != AnalysisPrompt(formatted, other)
    ensures AnalysisPrompt(formatted, "sentiment") != AnalysisPrompt(formatted, other)
  {
    var t := AnalysisPrompt(formatted, "trends");
    var s := AnalysisPrompt(formatted, "sentiment");
    var g := AnalysisPrompt(formatted, other);
    HeadsDiffer();
    assert t[28] == TrendsHead[28];
    assert s[28] == SentimentHead[28];
    assert t[0] == '\n' && s[0] == '\n';
    assert g[0] == 'A';
  }

  /** The error string for a failed model call: prefix and reason. */
  function Respond(reply: Reply, errorPrefix: string): (r: string)
    ensures reply.Generated? ==> r == reply.text
    ensures reply.Failed? ==> |r| >= |errorPrefix| && r[..|errorPrefix|] == errorPrefix
                              && r[|errorPrefix|..] == reply.reason
  {
    match reply
    case Generated(text) => text
    case Failed(reason) => errorPrefix + reason
  }

  const AnalyzeErrorPrefix := "Error analyzing data: "
  const IdeasErrorPrefix := "Error generating content ideas: "

  /**
   * `analyze_reddit_trends`: always a string, the model's text verbatim on success
   * and the error prefix followed by the reason on failure.
   */
  function AnalyzeRedditTrends(data: Dict<Post>, generate: string -> Reply, analysisType: string := "trends"): (r: string)
    ensures var reply := generate(AnalysisPrompt(Serialize(data), analysisType));
            && (reply.Generated? ==> r == reply.text)
            && (reply.Failed? ==> r == AnalyzeErrorPrefix + reply.reason)
  {
    var formattedData := Serialize(data);
    var prompt := AnalysisPrompt(formattedData, analysisType);
    Respond(generate(prompt), AnalyzeErrorPrefix)
  }

  /** The focus line of the content-ideas prompt: empty unless the topic is truthy. */
  function FocusLine(topic: Option<string>): string
  {
    if Truthy(topic) then "Focus on: " + topic.value else ""
  }

  const IdeasHead := "\n" + I12 + "Based on these Reddit posts, generate 5 content ideas:\n" + I12 + "\n" + I12
  const IdeasTail := "\n" + I12 + "\n" + I12 + "For each idea, provide:\n"
                     + I12 + "- Title\n"
                     + I12 + "- Key points to cover\n"
                     + I12 + "- Target audience\n"
                     + I12 + "- Content format suggestion\n" + I12

  const IdeasGap := "\n" + I12 + "\n" + I12

  function IdeasMiddle(topic: Option<string>): string
  {
    IdeasGap + FocusLine(topic) + IdeasTail
  }

  /** The prompt of `generate_content_ideas`: embeds the data, and the topic when it is truthy. */
  function IdeasPrompt(formatted: string, topic: Option<string>): (prompt: string)
    ensures IsInfix(formatted, prompt)
    ensures Truthy(topic) ==> IsInfix("Focus on: " + topic.value, prompt)
  {
    var p := IdeasHead + formatted + IdeasMiddle(topic);
    InfixOfConcat(IdeasHead, formatted, IdeasMiddle(topic));
    AppendRegroupTail(IdeasHead, formatted, IdeasGap, FocusLine(topic), IdeasTail);
    InfixOfConcat(IdeasHead + formatted + IdeasGap, FocusLine(topic), IdeasTail);
    p
  }

  /** A falsy topic (None or "") gives exactly the prompt without a topic. */
  lemma FalsyTopicIgnored(formatted: string, topic: Option<string>)
    requires !Truthy(topic)
    ensures IdeasPrompt(formatted, topic) == IdeasPrompt(formatted, None)
  {
  }

  /** The formatted data can be recovered from the content-ideas prompt. */
  lemma IdeasPromptInjective(f1: string, f2: string, topic: Option<string>)
    requires IdeasPrompt(f1, topic) == IdeasPrompt(f2, topic)
    ensures f1 == f2
  {
    FrameInjective(IdeasHead, f1, f2, IdeasMiddle(topic));
  }

  /**
   * `generate_content_ideas`: always a string, the model's text verbatim on success
   * and the error prefix followed by the reason on failure.
   */
  function GenerateContentIdeas(data: Dict<Post>, generate: string -> Reply, topic: Option<string> := None): (r: string)
    ensures var reply := generate(IdeasPrompt(Serialize(data), topic));
            && (reply.Generated? ==> r == reply.text)
            && (reply.Failed? ==> r == IdeasErrorPrefix + reply.reason)
  {
    var formattedData := Serialize(data);
    var prompt := IdeasPrompt(formattedData, topic);
    Respond(generate(prompt), IdeasErrorPrefix)
  }
}
