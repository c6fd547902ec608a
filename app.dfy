/**
 * The two pieces of the application's page handler that are logic rather than
 * UI: turning the sidebar's text area into a list of subreddit names, and the
 * fetch handler's clean -> filter -> format pipeline with the totals it reports.
 */
module App {
  import opened Builtins
  import opened Lists
  import opened OrderedDict
  import opened DataProcessor

  predicate IsNonBlank(line: string)
  {
    Strip(line) != ""
  }

  predicate NonEmpty(s: string)
  {
    s != ""
  }

  /** The text area parsed into names: one per line, stripped, blank lines skipped. */
  function ParseSubreddits(input: string): seq<string>
  {
    Map(Filter(Split(input, '\n'), IsNonBlank), Strip)
  }

  /**
   * Every parsed name is non-empty and has no surrounding whitespace; the names
   * are the stripped non-blank lines in line order, so there are no more of them
   * than lines; and parsing is stripping every line and dropping the empty results.
   */
  lemma ParseSubredditsShape(input: string)
    ensures forall k :: 0 <= k < |ParseSubreddits(input)| ==>
              ParseSubreddits(input)[k] != "" && Strip(ParseSubreddits(input)[k]) == ParseSubreddits(input)[k]
    ensures IsSubsequence(ParseSubreddits(input), Map(Split(input, '\n'), Strip))
    ensures |ParseSubreddits(input)| <= |Split(input, '\n')|
    ensures ParseSubreddits(input) == Filter(Map(Split(input, '\n'), Strip), NonEmpty)
  {
    var lines := Split(input, '\n');
    var kept := Filter(lines, IsNonBlank);
    forall k | 0 <= k < |ParseSubreddits(input)|
      ensures ParseSubreddits(input)[k] != "" && Strip(ParseSubreddits(input)[k]) == ParseSubreddits(input)[k]
    {
      StripIdempotent(kept[k]);
    }
    FilterIsSubsequence(lines, IsNonBlank);
    MapSubsequence(kept, lines, Strip);
    MapFilterCommute(lines, IsNonBlank, Strip, NonEmpty);
  }

  /**
   * The fetch handler: clean the collected data, keep the top posts with the
   * default thresholds, format them for display, and report the number of posts
   * and of subreddits of the filtered data.
   */
  method FetchData(raw: Dict<RawPost>, render: int -> string)
    returns (filtered: Dict<Post>, formatted: Dict<DisplayPost>, postCount: nat, subredditCount: nat)
    ensures filtered == FilterTop(Clean(raw), DefaultMinScore, DefaultMinComments)
    ensures formatted == Format(filtered, render)
    ensures postCount == TotalPosts(filtered) && subredditCount == |filtered|
    ensures Names(formatted) == Names(filtered)
  {
    var cleaned := CleanRedditData(raw);
    filtered := FilterTopPosts(cleaned);
    formatted := FormatForDisplay(filtered, render);
    postCount := TotalPosts(filtered);
    subredditCount := |filtered|;
  }

  /** What the pipeline shows of a mapping. */
  function Pipeline(raw: Dict<RawPost>, render: int -> string): Dict<DisplayPost>
  {
    Format(FilterTop(Clean(raw), DefaultMinScore, DefaultMinComments), render)
  }

  /**
   * The shape of what is shown: no empty subreddit, subreddits in input order,
   * and distinct when the input's were.
   */
  lemma PipelineShape(raw: Dict<RawPost>, render: int -> string)
    ensures var shown := Pipeline(raw, render);
            && (forall k :: 0 <= k < |shown| ==> shown[k].posts != [])
            && IsSubsequence(Names(shown), Names(raw))
            && (DistinctNames(raw) ==> DistinctNames(shown))
  {
    var cleaned := Clean(raw);
    var filtered := FilterTop(cleaned, DefaultMinScore, DefaultMinComments);
    CleanShape(raw);
    FilterTopShape(cleaned, DefaultMinScore, DefaultMinComments);
    FormatFields(filtered, render);
    FormatShape(filtered, render);
    SubsequenceTransitive(Names(filtered), Names(cleaned), Names(raw));
  }

  /** As many posts are shown as the reported count, and no more than were collected. */
  lemma PipelineTotals(raw: Dict<RawPost>, render: int -> string)
    ensures TotalPosts(Pipeline(raw, render)) == TotalPosts(FilterTop(Clean(raw), DefaultMinScore, DefaultMinComments))
    ensures TotalPosts(Pipeline(raw, render)) <= TotalPosts(raw)
  {
    var cleaned := Clean(raw);
    CleanShape(raw);
    FilterTopShape(cleaned, DefaultMinScore, DefaultMinComments);
    FormatShape(FilterTop(cleaned, DefaultMinScore, DefaultMinComments), render);
  }

  /**
   * Every shown post meets both default thresholds and comes from a collected
   * post of the same subreddit whose title was present, non-empty and not the
   * "[deleted]" placeholder.
   */
  lemma ShownPostOrigin(raw: Dict<RawPost>, render: int -> string, k: nat, i: nat)
    requires k < |Pipeline(raw, render)| && i < |Pipeline(raw, render)[k].posts|
    ensures var d := Pipeline(raw, render)[k].posts[i];
            && d.score >= DefaultMinScore && d.numComments >= DefaultMinComments
            && exists j, p :: 0 <= j < |raw| && raw[j].name == Pipeline(raw, render)[k].name
                              && p in raw[j].posts && IsValidPost(p)
                              && DisplaysAs(d, CleanPost(p), render)
  {
    var cleaned := Clean(raw);
    var filtered := FilterTop(cleaned, DefaultMinScore, DefaultMinComments);
    var top := (posts: seq<Post>) => TopPosts(posts, DefaultMinScore, DefaultMinComments);
    FormatFields(filtered, render);
    var d := Pipeline(raw, render)[k].posts[i];
    var c := filtered[k].posts[i];
    assert DisplaysAs(d, c, render);
    MapNonEmptyOrigin(cleaned, top, k);
    var j1 :| 0 <= j1 < |cleaned| && cleaned[j1].name == filtered[k].name && top(cleaned[j1].posts) == filtered[k].posts;
    assert c in TopPosts(cleaned[j1].posts, DefaultMinScore, DefaultMinComments);
    TopPostsKeeps(cleaned[j1].posts, DefaultMinScore, DefaultMinComments, c);
    MapNonEmptyOrigin(raw, CleanSection, j1);
    var j :| 0 <= j < |raw| && raw[j].name == cleaned[j1].name && CleanSection(raw[j].posts) == cleaned[j1].posts;
    var valid := Filter(raw[j].posts, IsValidPost);
    MapImage(valid, CleanPost, c);
    var p :| p in valid && CleanPost(p) == c;
    FilterMembership(raw[j].posts, IsValidPost, p);
  }

  /** A post whose title is the "[deleted]" placeholder is never shown, whatever its score. */
  lemma DeletedPostNotShown(render: int -> string)
    ensures var raw := [Section("python", [RawPost(Some(DeletedTitle), None, Some(100), None, None, Some(50), None)])];
            Pipeline(raw, render) == []
  {
    var p := RawPost(Some(DeletedTitle), None, Some(100), None, None, Some(50), None);
    var raw := [Section("python", [p])];
    assert [p][..0] == [];
    assert Filter([p], IsValidPost) == [];
    assert raw[..0] == [];
    assert Clean(raw) == [];
  }

  /**
   * The placeholder check sees the title before it is stripped, so a padded
   * placeholder passes it and is shown as "[deleted]".
   */
  lemma PaddedPlaceholderShown(render: int -> string)
    ensures var raw := [Section("python", [RawPost(Some(" [deleted] "), None, Some(100), None, None, Some(50), None)])];
            |Pipeline(raw, render)| == 1 && |Pipeline(raw, render)[0].posts| == 1
            && Pipeline(raw, render)[0].posts[0].title == DeletedTitle
  {
    var p := RawPost(Some(" [deleted] "), None, Some(100), None, None, Some(50), None);
    var raw := [Section("python", [p])];
    assert [p][..0] == [];
    assert Filter([p], IsValidPost) == [p];
    StripPaddedPlaceholder();
    var c := CleanPost(p);
    assert c.title == DeletedTitle && c.score == 100 && c.numComments == 50;
    assert CleanSection([p]) == [c];
    assert raw[..0] == [];
    assert Clean(raw) == [Section("python", [c])];
    var top := (x: Post) => IsTopPost(x, DefaultMinScore, DefaultMinComments);
    assert [c][..0] == [];
    assert Filter([c], top) == [c];
    var cleaned := [Section("python", [c])];
    assert cleaned[..0] == [];
    assert FilterTop(cleaned, DefaultMinScore, DefaultMinComments) == cleaned;
    FormatFields(cleaned, render);
  }
}
