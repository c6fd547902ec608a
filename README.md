# AI content strategy assistant: a verified model of its data core

The application collects hot posts from a list of subreddits, cleans them,
keeps the popular ones, shows them on a dashboard and asks a generative model
for trends, sentiment or content ideas. This project models, in Dafny, the
logic between the Reddit client and the generative model:

- `DataProcessor` (`data_processor.dfy`): `clean_reddit_data`,
  `filter_top_posts`, `format_for_display` and `_calculate_engagement`.
  Each transform is a method with the loops of the original. It is proved equal
  to a specification function (`Clean`, `FilterTop`, `Format`), and the
  properties are lemmas about those functions.
- `AiAnalyzer` (`ai_analyzer.dfy`): `_format_reddit_data` (the text block a
  mapping is serialised to), the prompt templates of `analyze_reddit_trends` and
  `generate_content_ideas`, and how each maps the model's answer or failure to
  the string it returns. The model call is a parameter
  `generate: string -> Reply`.
- `Config` (`config.dfy`): `get_secret` over two finite maps (the secret store
  and the environment) and `validate_config` with its ordered missing-key list.
- `App` (`app.dfy`): the parser that turns the sidebar text into subreddit
  names, and the fetch handler's clean -> filter -> format pipeline with the
  totals it reports.
- Support modules:
  - `OrderedDict` (`ordered_dict.dfy`): the insertion-ordered dict from
    subreddit name to a post list, as a sequence of `Section(name, posts)`.
    Distinct names are a lemma-level invariant that every transform keeps.
  - `Lists` (`lists.dfy`): list comprehensions as `Filter`/`Map`/`Concat`.
  - `Builtins` (`builtins.dfy`): the Python built-ins used: `str.strip`
    with the `str.isspace` character set, `str.split`, `s[:n]`, `str(int)` and
    truthiness.

Where the code and its docstrings or surrounding documentation suggest
different behaviour, the model follows the code:
- `get_secret` returns a store value even when it is empty, without falling
  back to the environment.
- `clean_reddit_data` is not idempotent, because its title check runs before
  the title is stripped. `DataProcessor.CleanNotIdempotent` exhibits this, and
  `DataProcessor.CleanIdempotentWhenTitlesSurvive` states when idempotence does
  hold.

## Model

| member | source | states |
|---|---|---|
| Builtins.Strip | utils/data_processor.py:22-23 | the result is a contiguous piece of the input; only whitespace (Python's `isspace` set) surrounds it; it neither starts nor ends with whitespace; it is empty exactly when the input is all whitespace |
| Builtins.StripIdempotent | utils/data_processor.py:22-23 | stripping a stripped string changes nothing |
| Builtins.JoinSplit | app.py:52 | splitting on a newline loses nothing: joining the pieces gives the text back |
| Builtins.IntToStringRoundTrip | utils/ai_analyzer.py:93 | the decimal text of an integer reads back as that integer |
| OrderedDict.MapNonEmptyGet | utils/data_processor.py:12-34 | under distinct keys, `out[name]` is the transformed list when that is non-empty, and absent otherwise |
| DataProcessor.CleanRedditData | utils/data_processor.py:8-36 | the nested loops compute `Clean(raw)`, the per-subreddit filter-then-map with empty subreddits dropped |
| DataProcessor.CleanPostFields | utils/data_processor.py:21-29 | title and content are the stripped originals; author defaults to "Unknown", url to "", score, num_comments and created_utc to 0 |
| DataProcessor.CleanDropsInvalid | utils/data_processor.py:15-18 | a post whose title is missing, empty or exactly "[deleted]" contributes nothing, whatever its other fields and wherever it stands |
| DataProcessor.CleanKeepsValid | utils/data_processor.py:15-31 | a post passing the title guard contributes exactly its cleaned record, in its place |
| DataProcessor.CleanSectionSubsequence | utils/data_processor.py:13-31 | a subreddit's cleaned list is an order-preserving subsequence of its cleaned records, so it is no longer than the input and holds only cleaned records of input posts |
| DataProcessor.CleanShape | utils/data_processor.py:12-36 | no output subreddit is empty; output names are a subsequence of input names; distinct names stay distinct; the total post count does not grow |
| DataProcessor.CleanGet | utils/data_processor.py:12-34 | under distinct keys, `cleaned[name]` is the cleaned list of `raw[name]` when non-empty, and absent otherwise |
| DataProcessor.WhitespaceTitleSurvives | utils/data_processor.py:17-22 | any non-empty whitespace-only title passes the title guard, the post is kept, and its title comes out as "" |
| DataProcessor.CleanNotIdempotent | utils/data_processor.py:17-22 | a post titled " [deleted] " is kept by one cleaning and dropped by a second |
| DataProcessor.CleanIdempotentWhenTitlesSurvive | utils/data_processor.py:8-36 | cleaning again changes nothing when every kept title still passes the title guard after stripping |
| DataProcessor.FilterTopPosts | utils/data_processor.py:38-51 | the loop computes `FilterTop`: each subreddit's top posts, with empty subreddits dropped |
| DataProcessor.TopPostsKeeps | utils/data_processor.py:43-46 | a post is kept iff it is present and score >= min_score and num_comments >= min_comments; the kept list is an order-preserving subsequence |
| DataProcessor.TopPostsAt | utils/data_processor.py:43-46 | each post contributes itself exactly when score >= min_score and num_comments >= min_comments, and nothing otherwise, in its place; equal posts are each kept |
| DataProcessor.DefaultThresholdBoundary | utils/data_processor.py:38-46 | with the defaults 10 and 5, a post at exactly (10, 5) is kept and a post with score 1000 and 4 comments is dropped |
| DataProcessor.FilterTopShape | utils/data_processor.py:42-51 | no empty subreddit; names in input order and still distinct; no more posts; filtering twice with the same thresholds equals filtering once |
| DataProcessor.FilterTopGet | utils/data_processor.py:42-49 | under distinct keys, `filtered[name]` is the top posts of `data[name]` when there are any, and absent otherwise |
| DataProcessor.CalculateEngagement | utils/data_processor.py:102-106 | engagement minus comments is the score; when both are non-negative it is at least each of them, hence non-negative |
| DataProcessor.FormatForDisplay | utils/data_processor.py:74-100 | every subreddit is kept, even an empty one, with the same names and per-subreddit post count; each record copies six fields, renders the date and sets engagement_rate = score + num_comments |
| DataProcessor.FormatShape | utils/data_processor.py:78-98 | formatting keeps the total post count and the distinctness of names |
| AiAnalyzer.ContentLine | utils/ai_analyzer.py:91-92 | the content line is present iff the content is non-empty; it starts "Content: ", holds the first 200 characters of the content (exactly 200 when longer, all of it when shorter) and ends in "...\n" |
| AiAnalyzer.PostBlockShape | utils/ai_analyzer.py:90-93 | a post's block starts with "Title: " + title + "\n" and ends with "Score: S, Comments: C\n\n", whose numbers read back as the post's |
| AiAnalyzer.FormatPosts | utils/ai_analyzer.py:89-93 | the inner loop appends one block per post, in order |
| AiAnalyzer.FormatRedditData | utils/ai_analyzer.py:83-95 | the loop computes `Serialize`; an empty mapping gives ""; otherwise each section's header and post blocks in order |
| AiAnalyzer.SerializeAppend | utils/ai_analyzer.py:87-93 | formatting a concatenation of mappings is concatenating their formattings |
| AiAnalyzer.SerializeSection | utils/ai_analyzer.py:87-93 | each section contributes "\n--- r/" + name + " ---\n" then its posts' blocks, in its place |
| AiAnalyzer.AnalysisPrompt | utils/ai_analyzer.py:24-49 | each of the three prompts contains the formatted data |
| AiAnalyzer.AnalysisPromptInjective | utils/ai_analyzer.py:24-49 | for a fixed analysis type, different data give different prompts |
| AiAnalyzer.AnalysisPromptsDiffer | utils/ai_analyzer.py:24-49 | "trends", "sentiment" and any other value pick three different prompts for the same data |
| AiAnalyzer.Respond | utils/ai_analyzer.py:51-56 | a success yields the model's text verbatim; a failure yields the error prefix followed by the reason |
| AiAnalyzer.AnalyzeRedditTrends | utils/ai_analyzer.py:17-56 | always a string: the text the model gives for the selected prompt, or "Error analyzing data: " + reason |
| AiAnalyzer.IdeasPrompt | utils/ai_analyzer.py:62-75 | the prompt contains the formatted data, and "Focus on: " + topic when the topic is truthy |
| AiAnalyzer.FalsyTopicIgnored | utils/ai_analyzer.py:68 | a topic of None or "" yields exactly the prompt without a topic |
| AiAnalyzer.IdeasPromptInjective | utils/ai_analyzer.py:62-75 | for a fixed topic, different data give different prompts |
| AiAnalyzer.GenerateContentIdeas | utils/ai_analyzer.py:57-81 | always a string: the model's text for the ideas prompt, or "Error generating content ideas: " + reason |
| Config.GetSecret | utils/config.py:4-20 | the store's value when the store has the key, else the environment's value, else None |
| Config.GetSecretIsFirstSource | utils/config.py:15-20 | get_secret equals first-source resolution over [store, environment], or over [environment] when there is no store |
| Config.GetSecretFound | utils/config.py:15-20 | a value is found exactly when the store or the environment has the key |
| Config.StoreShadowsEnvironment | utils/config.py:17 | the store wins even when its value is "" and the environment has a non-empty one |
| Config.LoadSettings | utils/config.py:23-26 | each required setting is `get_secret` of its key name |
| Config.ValidateLoaded | utils/config.py:23-49 | validation of the loaded settings passes exactly when every required key resolves, through the store then the environment, to a non-empty value |
| Config.EmptyStoreValueFailsValidation | utils/config.py:17-49 | an empty store value for a required key makes validation fail, whatever the environment holds |
| Config.MissingKeysExact | utils/config.py:36-43 | a key is listed iff its value is None or ""; the list is a subsequence of the fixed key order |
| Config.NothingMissing | utils/config.py:43-49 | the missing list is empty iff all four values are truthy |
| Config.ValidateConfig | utils/config.py:29-49 | true iff all four required values are truthy |
| Config.MissingKeysUnrolled | utils/config.py:36-43 | the list is the falsy keys in the order GEMINI_API_KEY, REDDIT_CLIENT_ID, REDDIT_CLIENT_SECRET, REDDIT_USER_AGENT |
| Config.EmptyValueIsMissing | utils/config.py:36-43 | an empty GEMINI_API_KEY is reported missing just like an absent one, and validation fails |
| App.ParseSubredditsShape | app.py:52 | names are non-empty and already stripped; they are the stripped non-blank lines in order, no more than the lines; parsing equals stripping every line then dropping empty results |
| App.FetchData | app.py:76-83 | the displayed data is format(filter(clean(raw))) with thresholds 10 and 5; the totals are the filtered post count and subreddit count; the formatted data has the filtered data's names |
| App.PipelineShape | app.py:76-83 | what is shown has no empty subreddit, names in input order, and distinct names when the input's were |
| App.PipelineTotals | app.py:76-83 | the shown post count equals the filtered data's total, the reported count, and is no more than the collected count |
| App.ShownPostOrigin | app.py:76-81 | every shown post has score >= 10 and comments >= 5 and displays the cleaned record of a collected post of the same subreddit whose raw title was present, non-empty and not "[deleted]" |
| App.DeletedPostNotShown | app.py:76-81 | a post titled "[deleted]" with score 100 and 50 comments is not shown |
| App.PaddedPlaceholderShown | app.py:76-81 | a post titled " [deleted] " with score 100 and 50 comments is shown, with the title "[deleted]" |

## Left out

- The Reddit collector: `get_hot_posts` is a wrapper over the network client, and `get_trending_posts` only stores each fetch result. The pipeline takes the collected mapping as its input.
- The cache functions `save_to_cache` and `load_from_cache`: file I/O and JSON.
- Timestamp rendering (`datetime.fromtimestamp(...).strftime(...)`): it depends on the local time zone, so it is the parameter `render` of `Format`.
- `created_utc` is modelled as an integer. The collector may deliver a float, and floating point is not modelled.
- Python's `int()` on a non-numeric score or comment count raises. The raw model carries integers only, so that exception path is not modelled.
- A raw field that is present with value `None` is not modelled apart from an absent field; a raw field is either a value or absent. In the code, a `None` title is dropped by the title guard exactly like an absent one. A `None` content fails on `.strip()`. A `None` score or num_comments makes `int()` raise. A `None` author or url is kept as `None`. A `None` created_utc passes cleaning and makes `datetime.fromtimestamp` raise when formatting.
- `filter_top_posts`, `format_for_display` and `_calculate_engagement` take cleaned records only (`Post`, every field present). Their `.get(key, default)` reads on records missing a field are not modelled. An example is a post without `score`, which is kept when min_score <= 0.
- The generative-model client: creating it, configuring it with the API key, and the check of `validate_config` in the constructor. What the model answers is the parameter `generate`. Any exception it raises is its `Failed` reply.
- Printing the missing-key message in `validate_config`: console output only.
- `is_streamlit_cloud`, and the timing of the import-time constant loading. `Config.LoadSettings` states only which values are loaded.
- Exceptions from the secret store other than `KeyError` and `AttributeError`: they escape `get_secret` in the code. The model's store is either a finite map (a missing key is the `KeyError` case) or `None` (the `AttributeError` case, for example when no secrets file is configured).
- The secret store modelled as string-valued: `st.secrets` may hold other TOML values.
- AiAnalyzer.FormatPosts: the inner loop of `_format_reddit_data` is its own method. The appends, their order and the content-line branch are those of the original.
- App.ShownPostOrigin: states that the collected title was not "[deleted]", not that the shown title is not. App.PaddedPlaceholderShown shows a shown "[deleted]".
- The rest of the Streamlit page: widgets, session state, the analysis-type dispatch, and rendering the results.
