/**
 * The post-processing pipeline of `DataProcessor`: cleaning raw posts, keeping
 * the top posts by score and comment count, and deriving the display record.
 * Each of the three takes a subreddit -> posts mapping and builds a new one.
 */
module DataProcessor {
  import opened Builtins
  import opened Lists
  import opened OrderedDict

  /** A post as a dict from the collector: every field may be missing. */
  datatype RawPost = RawPost(
    title: Option<string>,
    content: Option<string>,
    score: Option<int>,
    author: Option<string>,
    url: Option<string>,
    numComments: Option<int>,
    createdUtc: Option<int>)

  /** A post after cleaning: every field present. */
  datatype Post = Post(
    title: string,
    content: string,
    score: int,
    author: string,
    url: string,
    numComments: int,
    createdUtc: int)

  /** A post as shown on the dashboard, with the two derived fields. */
  datatype DisplayPost = DisplayPost(
    title: string,
    content: string,
    score: int,
    author: string,
    url: string,
    numComments: int,
    createdDate: string,
    engagementRate: int)

  const DeletedTitle := "[deleted]"
  const UnknownAuthor := "Unknown"
  const DefaultMinScore := 10
  const DefaultMinComments := 5

  // ---------------------------------------------------------------------------
  // clean_reddit_data

  /** The guard of the cleaning loop, tested on the title BEFORE it is stripped. */
  predicate IsValidPost(p: RawPost)
  {
    Truthy(p.title) && p.title.value != DeletedTitle
  }

  /** The record the cleaning loop builds from a post that passed the guard. */
  function CleanPost(p: RawPost): Post
  {
    Post(Strip(p.title.GetOr("")), Strip(p.content.GetOr("")), p.score.GetOr(0),
         p.author.GetOr(UnknownAuthor), p.url.GetOr(""), p.numComments.GetOr(0),
         p.createdUtc.GetOr(0))
  }

  /**
   * A cleaned record holds the stripped title and content (so stripping them again
   * changes nothing) and every other field as given, or its default when missing.
   */
  lemma CleanPostFields(p: RawPost)
    ensures CleanPost(p).title == Strip(p.title.GetOr("")) && Strip(CleanPost(p).title) == CleanPost(p).title
    ensures CleanPost(p).content == Strip(p.content.GetOr("")) && Strip(CleanPost(p).content) == CleanPost(p).content
    ensures CleanPost(p).author == (if p.author.Some? then p.author.value else UnknownAuthor)
    ensures CleanPost(p).url == (if p.url.Some? then p.url.value else "")
    ensures CleanPost(p).score == (if p.score.Some? then p.score.value else 0)
    ensures CleanPost(p).numComments == (if p.numComments.Some? then p.numComments.value else 0)
    ensures CleanPost(p).createdUtc == (if p.createdUtc.Some? then p.createdUtc.value else 0)
  {
    StripIdempotent(p.title.GetOr(""));
    StripIdempotent(p.content.GetOr(""));
  }

  /** The posts one iteration of the outer cleaning loop collects for a subreddit. */
  function CleanSection(posts: seq<RawPost>): seq<Post>
  {
    Map(Filter(posts, IsValidPost), CleanPost)
  }

  /** `clean_reddit_data` as a function of its input. */
  function Clean(raw: Dict<RawPost>): Dict<Post>
  {
    MapNonEmpty(raw, CleanSection)
  }

  /** `clean_reddit_data`: the two nested loops that append to fresh lists and a fresh dict. */
  method CleanRedditData(raw: Dict<RawPost>) returns (cleaned: Dict<Post>)
    ensures cleaned == Clean(raw)
  {
    cleaned := [];
    for i := 0 to |raw|
      invariant cleaned == Clean(raw[..i])
    {
      var Section(subreddit, posts) := raw[i];
      var cleanedPosts: seq<Post> := [];
      for j := 0 to |posts|
        invariant cleanedPosts == CleanSection(posts[..j])
      {
        var post := posts[j];
        assert posts[..j + 1][..j] == posts[..j];
        if !Truthy(post.title) || post.title.value == DeletedTitle {
          continue;
        }
        var cleanedPost := Post(
          Strip(post.title.GetOr("")),
          Strip(post.content.GetOr("")),
          post.score.GetOr(0),
          post.author.GetOr(UnknownAuthor),
          post.url.GetOr(""),
          post.numComments.GetOr(0),
          post.createdUtc.GetOr(0));
        cleanedPosts := cleanedPosts + [cleanedPost];
      }
      assert posts[..|posts|] == posts;
      assert raw[..i + 1][..i] == raw[..i];
      if cleanedPosts != [] {
        cleaned := cleaned + [Section(subreddit, cleanedPosts)];
      }
    }
    assert raw[..|raw|] == raw;
  }

  /** An invalid post contributes nothing, whatever its other fields and wherever it stands. */
  lemma CleanDropsInvalid(before: seq<RawPost>, p: RawPost, after: seq<RawPost>)
    requires !IsValidPost(p)
    ensures CleanSection(before + [p] + after) == CleanSection(before + after)
  {
    FilterAppend(before + [p], after, IsValidPost);
    FilterAppend(before, [p], IsValidPost);
    FilterAppend(before, after, IsValidPost);
    assert [p][..0] == [];
    assert Filter([p], IsValidPost) == [];
    assert Filter(before + [p] + after, IsValidPost) == Filter(before + after, IsValidPost);
  }

  /** A valid post contributes its cleaned record, in its place. */
  lemma CleanKeepsValid(before: seq<RawPost>, p: RawPost, after: seq<RawPost>)
    requires IsValidPost(p)
    ensures CleanSection(before + [p] + after) == CleanSection(before) + [CleanPost(p)] + CleanSection(after)
  {
    FilterAppend(before + [p], after, IsValidPost);
    FilterAppend(before, [p], IsValidPost);
    assert [p][..0] == [];
    assert Filter([p], IsValidPost) == [p];
    var fb, fa := Filter(before, IsValidPost), Filter(after, IsValidPost);
    assert Filter(before + [p] + after, IsValidPost) == fb + [p] + fa;
    MapAppend(fb + [p], fa, CleanPost);
    MapAppend(fb, [p], CleanPost);
  }

  /** The cleaned posts of a subreddit are, in order, the cleaned records of some of its posts. */
  lemma CleanSectionSubsequence(posts: seq<RawPost>)
    ensures IsSubsequence(CleanSection(posts), Map(posts, CleanPost))
    ensures |CleanSection(posts)| <= |posts|
    ensures forall c :: c in CleanSection(posts) ==> c in Map(posts, CleanPost)
  {
    FilterIsSubsequence(posts, IsValidPost);
    MapSubsequence(Filter(posts, IsValidPost), posts, CleanPost);
    SubsequenceLength(CleanSection(posts), Map(posts, CleanPost));
  }

  /**
   * The shape of a cleaned mapping: no section is empty, its names are a
   * subsequence of the input's (so in input order), distinct names stay distinct,
   * and there are no more posts than before.
   */
  lemma CleanShape(raw: Dict<RawPost>)
    ensures forall k :: 0 <= k < |Clean(raw)| ==> Clean(raw)[k].posts != []
    ensures IsSubsequence(Names(Clean(raw)), Names(raw))
    ensures DistinctNames(raw) ==> DistinctNames(Clean(raw))
    ensures TotalPosts(Clean(raw)) <= TotalPosts(raw)
  {
    MapNonEmptyNames(raw, CleanSection);
    if DistinctNames(raw) {
      MapNonEmptyDistinct(raw, CleanSection);
    }
    forall k | 0 <= k < |raw|
      ensures |CleanSection(raw[k].posts)| <= |raw[k].posts|
    {
      CleanSectionSubsequence(raw[k].posts);
    }
    MapNonEmptyTotal(raw, CleanSection);
  }

  /** `cleaned[name]` is the cleaned list of `raw[name]` when that is non-empty, absent otherwise. */
  lemma CleanGet(raw: Dict<RawPost>, name: string)
    requires DistinctNames(raw)
    ensures Get(Clean(raw), name) ==
            match Get(raw, name)
            case None => None
            case Some(ps) => if CleanSection(ps) == [] then None else Some(CleanSection(ps))
  {
    MapNonEmptyGet(raw, CleanSection, name);
  }

  /** A cleaned post read back as a dict holding all seven fields. */
  function AsRaw(c: Post): (p: RawPost)
    ensures p.title.Some? && p.content.Some? && p.score.Some? && p.author.Some?
    ensures p.url.Some? && p.numComments.Some? && p.createdUtc.Some?
  {
    RawPost(Some(c.title), Some(c.content), Some(c.score), Some(c.author), Some(c.url),
            Some(c.numComments), Some(c.createdUtc))
  }

  function AsRawSection(posts: seq<Post>): seq<RawPost>
  {
    Map(posts, AsRaw)
  }

  /** A cleaned mapping fed back into the cleaner. */
  function AsRawDict(d: Dict<Post>): Dict<RawPost>
  {
    MapAll(d, AsRawSection)
  }

  /** Every post that passes the guard still passes it once its title is stripped. */
  predicate TitlesSurviveStrip(raw: Dict<RawPost>)
  {
    forall k, i :: 0 <= k < |raw| && 0 <= i < |raw[k].posts| && IsValidPost(raw[k].posts[i])
      ==> IsValidPost(AsRaw(CleanPost(raw[k].posts[i])))
  }

  /** A cleaned record survives being cleaned again, unchanged, when its title is still valid. */
  lemma RecleanPost(c: Post, p: RawPost)
    requires c == CleanPost(p)
    ensures CleanPost(AsRaw(c)) == c
  {
    CleanPostFields(p);
  }

  lemma CleanSectionOnCleaned(posts: seq<RawPost>)
    requires forall i :: 0 <= i < |posts| && IsValidPost(posts[i]) ==> IsValidPost(AsRaw(CleanPost(posts[i])))
    ensures CleanSection(AsRawSection(CleanSection(posts))) == CleanSection(posts)
  {
    var fs := Filter(posts, IsValidPost);
    var cs := Map(fs, CleanPost);
    var back := Map(cs, AsRaw);
    forall k | 0 <= k < |back|
      ensures IsValidPost(back[k]) && CleanPost(back[k]) == cs[k]
    {
      FilterMembership(posts, IsValidPost, fs[k]);
      var i :| 0 <= i < |posts| && posts[i] == fs[k];
      RecleanPost(cs[k], fs[k]);
    }
    FilterAllPass(back, IsValidPost);
    assert Map(back, CleanPost) == cs;
  }

  /**
   * Cleaning is idempotent on inputs whose valid titles stay valid once
   * stripped; see CleanNotIdempotent for an input where it is not.
   */
  lemma CleanIdempotentWhenTitlesSurvive(raw: Dict<RawPost>)
    requires TitlesSurviveStrip(raw)
    ensures Clean(AsRawDict(Clean(raw))) == Clean(raw)
  {
    var c := Clean(raw);
    forall k | 0 <= k < |c|
      ensures c[k].posts != [] && CleanSection(AsRawSection(c[k].posts)) == c[k].posts
    {
      MapNonEmptyOrigin(raw, CleanSection, k);
      var j :| 0 <= j < |raw| && raw[j].name == c[k].name && CleanSection(raw[j].posts) == c[k].posts;
      CleanSectionOnCleaned(raw[j].posts);
    }
    MapNonEmptyAfterMapAll(c, AsRawSection, CleanSection);
  }

  /** A whitespace-only title passes the guard and comes out as the empty title. */
  lemma WhitespaceTitleSurvives(p: RawPost)
    requires p.title.Some? && p.title.value != "" && AllSpace(p.title.value)
    ensures IsValidPost(p)
    ensures CleanSection([p]) == [CleanPost(p)]
    ensures CleanPost(p).title == ""
  {
    assert !IsSpace(DeletedTitle[0]);
    assert Filter([p], IsValidPost) == [p];
  }

  lemma TrimStartPadded()
    ensures TrimStart(" [deleted] ") == "[deleted] "
  {
    TrimStartSpace(" [deleted] ");
    TrimStartBracket("[deleted] ");
  }

  lemma TrimStartSpace(s: string)
    requires |s| > 0 && s[0] == ' '
    ensures TrimStart(s) == TrimStart(s[1..])
  {
  }

  lemma TrimStartBracket(s: string)
    requires |s| > 0 && s[0] == '['
    ensures TrimStart(s) == s
  {
  }

  lemma TrimEndPadded()
    ensures TrimEnd("[deleted] ") == DeletedTitle
  {
    var left := "[deleted] ";
    assert left[|left| - 1] == ' ' && left[..|left| - 1] == DeletedTitle;
    assert DeletedTitle[8] == ']';
  }

  /** The placeholder padded with blanks strips to the placeholder itself. */
  lemma StripPaddedPlaceholder()
    ensures Strip(" [deleted] ") == DeletedTitle
  {
    TrimStartPadded();
    TrimEndPadded();
  }

  /** Cleaning twice can drop what cleaning once kept: the guard runs before the strip. */
  lemma CleanNotIdempotent()
    ensures var raw := [Section("python", [RawPost(Some(" [deleted] "), None, None, None, None, None, None)])];
            Clean(raw) != [] && Clean(AsRawDict(Clean(raw))) == []
  {
    var p := RawPost(Some(" [deleted] "), None, None, None, None, None, None);
    var raw := [Section("python", [p])];
    assert [p][..0] == [];
    assert Filter([p], IsValidPost) == [p];
    StripPaddedPlaceholder();
    var c := CleanPost(p);
    assert c.title == DeletedTitle;
    assert CleanSection([p]) == [c];
    assert raw[..0] == [];
    assert Clean(raw) == [Section("python", [c])];
    var back := AsRawDict([Section("python", [c])]);
    assert [c][..0] == [];
    assert AsRawSection([c]) == [AsRaw(c)];
    assert back == [Section("python", [AsRaw(c)])];
    assert [AsRaw(c)][..0] == [];
    assert Filter([AsRaw(c)], IsValidPost) == [];
    assert back[..0] == [];
  }

  // ---------------------------------------------------------------------------
  // filter_top_posts

  /** The comprehension's condition: both thresholds met (a conjunction). */
  predicate IsTopPost(p: Post, minScore: int, minComments: int)
  {
    p.score >= minScore && p.numComments >= minComments
  }

  /** The comprehension over one subreddit's posts. */
  function TopPosts(posts: seq<Post>, minScore: int, minComments: int): seq<Post>
  {
    Filter(posts, p => IsTopPost(p, minScore, minComments))
  }

  /** `filter_top_posts` as a function of its inputs. */
  function FilterTop(data: Dict<Post>, minScore: int, minComments: int): Dict<Post>
  {
    MapNonEmpty(data, posts => TopPosts(posts, minScore, minComments))
  }

  /** `filter_top_posts`: an outer loop over the subreddits around a comprehension. */
  method FilterTopPosts(data: Dict<Post>, minScore: int := DefaultMinScore, minComments: int := DefaultMinComments)
    returns (filtered: Dict<Post>)
    ensures filtered == FilterTop(data, minScore, minComments)
  {
    filtered := [];
    for i := 0 to |data|
      invariant filtered == FilterTop(data[..i], minScore, minComments)
    {
      var Section(subreddit, posts) := data[i];
      var filteredPosts := TopPosts(posts, minScore, minComments);
      assert data[..i + 1][..i] == data[..i];
      if filteredPosts != [] {
        filtered := filtered + [Section(subreddit, filteredPosts)];
      }
    }
    assert data[..|data|] == data;
  }

  /** A post is kept exactly when it is there and meets both thresholds, in input order. */
  lemma TopPostsKeeps(posts: seq<Post>, minScore: int, minComments: int, p: Post)
    ensures p in TopPosts(posts, minScore, minComments) <==>
            p in posts && p.score >= minScore && p.numComments >= minComments
    ensures IsSubsequence(TopPosts(posts, minScore, minComments), posts)
  {
    FilterMembership(posts, q => IsTopPost(q, minScore, minComments), p);
    FilterIsSubsequence(posts, q => IsTopPost(q, minScore, minComments));
  }

  /** Each post contributes itself when it meets both thresholds and nothing otherwise, in its place, duplicates included. */
  lemma TopPostsAt(a: seq<Post>, p: Post, b: seq<Post>, minScore: int, minComments: int)
    ensures TopPosts(a + [p] + b, minScore, minComments)
            == TopPosts(a, minScore, minComments)
               + (if p.score >= minScore && p.numComments >= minComments then [p] else [])
               + TopPosts(b, minScore, minComments)
  {
    var f := (q: Post) => IsTopPost(q, minScore, minComments);
    FilterAppend(a + [p], b, f);
    FilterAppend(a, [p], f);
    assert [p][..0] == [];
  }

  /** With the default thresholds the boundary post is kept and a post short of comments is not. */
  lemma DefaultThresholdBoundary(p: Post, q: Post)
    requires p.score == 10 && p.numComments == 5
    requires q.score == 1000 && q.numComments == 4
    ensures TopPosts([p, q], DefaultMinScore, DefaultMinComments) == [p]
  {
    var f := (x: Post) => IsTopPost(x, DefaultMinScore, DefaultMinComments);
    assert [p, q][..1] == [p];
    assert Filter([p], f) == [p];
  }

  /**
   * The shape of a filtered mapping: no empty section, names in input order and
   * still distinct, no more posts than before; filtering again changes nothing.
   */
  lemma FilterTopShape(data: Dict<Post>, minScore: int, minComments: int)
    ensures forall k :: 0 <= k < |FilterTop(data, minScore, minComments)| ==>
              FilterTop(data, minScore, minComments)[k].posts != []
    ensures IsSubsequence(Names(FilterTop(data, minScore, minComments)), Names(data))
    ensures DistinctNames(data) ==> DistinctNames(FilterTop(data, minScore, minComments))
    ensures TotalPosts(FilterTop(data, minScore, minComments)) <= TotalPosts(data)
    ensures FilterTop(FilterTop(data, minScore, minComments), minScore, minComments)
            == FilterTop(data, minScore, minComments)
  {
    var f := (posts: seq<Post>) => TopPosts(posts, minScore, minComments);
    MapNonEmptyNames(data, f);
    if DistinctNames(data) {
      MapNonEmptyDistinct(data, f);
    }
    MapNonEmptyTotal(data, f);
    forall ps: seq<Post>
      ensures f(f(ps)) == f(ps)
    {
      FilterAllPass(TopPosts(ps, minScore, minComments), (p: Post) => IsTopPost(p, minScore, minComments));
    }
    MapNonEmptyIdempotent(data, f);
  }

  /** `filtered[name]` is the top posts of `data[name]` when there are any, absent otherwise. */
  lemma FilterTopGet(data: Dict<Post>, minScore: int, minComments: int, name: string)
    requires DistinctNames(data)
    ensures Get(FilterTop(data, minScore, minComments), name) ==
            match Get(data, name)
            case None => None
            case Some(ps) =>
              if TopPosts(ps, minScore, minComments) == [] then None
              else Some(TopPosts(ps, minScore, minComments))
  {
    MapNonEmptyGet(data, posts => TopPosts(posts, minScore, minComments), name);
  }

  // ---------------------------------------------------------------------------
  // format_for_display and _calculate_engagement

  /** `_calculate_engagement`: the additive engagement of a post. */
  function CalculateEngagement(p: Post): (e: int)
    ensures e - p.numComments == p.score
    ensures p.score >= 0 && p.numComments >= 0 ==> e >= p.score && e >= p.numComments
  {
    p.score + p.numComments
  }

  /**
   * The display record; `render` stands for
   * `datetime.fromtimestamp(t).strftime('%Y-%m-%d %H:%M')`, which depends on the clock's zone.
   */
  function Display(p: Post, render: int -> string): DisplayPost
  {
    DisplayPost(p.title, p.content, p.score, p.author, p.url, p.numComments,
                render(p.createdUtc), CalculateEngagement(p))
  }

  function DisplaySection(posts: seq<Post>, render: int -> string): seq<DisplayPost>
  {
    Map(posts, p => Display(p, render))
  }

  /** `format_for_display` as a function of its input. */
  function Format(data: Dict<Post>, render: int -> string): Dict<DisplayPost>
  {
    MapAll(data, posts => DisplaySection(posts, render))
  }

  /** The six fields passed through, the date rendered, and engagement = score + comments. */
  predicate DisplaysAs(d: DisplayPost, p: Post, render: int -> string)
  {
    && d.title == p.title && d.content == p.content && d.score == p.score
    && d.author == p.author && d.url == p.url && d.numComments == p.numComments
    && d.createdDate == render(p.createdUtc)
    && d.engagementRate == p.score + p.numComments
  }

  /**
   * `format_for_display`: nested loops appending to fresh lists. Every section is
   * kept (even an empty one), with as many posts, in the same order, each
   * displaying its source post.
   */
  method FormatForDisplay(data: Dict<Post>, render: int -> string) returns (formatted: Dict<DisplayPost>)
    ensures formatted == Format(data, render)
    ensures Names(formatted) == Names(data)
    ensures forall k :: 0 <= k < |data| ==> |formatted[k].posts| == |data[k].posts|
    ensures forall k, i :: 0 <= k < |data| && 0 <= i < |data[k].posts| ==>
              DisplaysAs(formatted[k].posts[i], data[k].posts[i], render)
  {
    formatted := [];
    for i := 0 to |data|
      invariant formatted == Format(data[..i], render)
    {
      var Section(subreddit, posts) := data[i];
      var formattedPosts: seq<DisplayPost> := [];
      for j := 0 to |posts|
        invariant formattedPosts == DisplaySection(posts[..j], render)
      {
        var post := posts[j];
        assert posts[..j + 1][..j] == posts[..j];
        var createdDate := render(post.createdUtc);
        var formattedPost := DisplayPost(post.title, post.content, post.score, post.author,
                                         post.url, post.numComments, createdDate,
                                         CalculateEngagement(post));
        formattedPosts := formattedPosts + [formattedPost];
      }
      assert posts[..|posts|] == posts;
      assert data[..i + 1][..i] == data[..i];
      formatted := formatted + [Section(subreddit, formattedPosts)];
    }
    assert data[..|data|] == data;
    FormatFields(data, render);
  }

  lemma FormatFields(data: Dict<Post>, render: int -> string)
    ensures Names(Format(data, render)) == Names(data)
    ensures forall k :: 0 <= k < |data| ==> |Format(data, render)[k].posts| == |data[k].posts|
    ensures forall k, i :: 0 <= k < |data| && 0 <= i < |data[k].posts| ==>
              DisplaysAs(Format(data, render)[k].posts[i], data[k].posts[i], render)
  {
    MapAllNames(data, posts => DisplaySection(posts, render));
  }

  /** Formatting keeps the number of posts and the distinctness of names. */
  lemma FormatShape(data: Dict<Post>, render: int -> string)
    ensures TotalPosts(Format(data, render)) == TotalPosts(data)
    ensures DistinctNames(data) ==> DistinctNames(Format(data, render))
  {
    MapAllTotal(data, posts => DisplaySection(posts, render));
    MapAllNames(data, posts => DisplaySection(posts, render));
  }
}
