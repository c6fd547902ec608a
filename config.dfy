/**
 * Credential resolution and validation. A key is looked up in the deployment's
 * secret store first and in the process environment second; validation lists,
 * in a fixed order, the required keys whose value is missing or empty.
 * Both sources are finite maps; the secret store is `None` when looking a key
 * up in it raises `AttributeError` rather than `KeyError`.
 */
module Config {
  import opened Builtins
  import opened Lists

  // ---------------------------------------------------------------------------
  // get_secret

  /**
   * `get_secret(key)`: the store's value when the store has the key (even an
   * empty one), otherwise the environment's value, otherwise `None`.
   */
  function GetSecret(key: string, store: Option<map<string, string>>, env: map<string, string>): (r: Option<string>)
    ensures store.Some? && key in store.value ==> r == Some(store.value[key])
    ensures !(store.Some? && key in store.value) ==> r == (if key in env then Some(env[key]) else None)
  {
    match store
    case Some(secrets) =>
      if key in secrets then Some(secrets[key])
      else if key in env then Some(env[key]) else None
    case None =>
      if key in env then Some(env[key]) else None
  }

  /** Reference resolution: the value held by the first source, in priority order, that has the key. */
  function FirstSource(key: string, sources: seq<map<string, string>>): (r: Option<string>)
    ensures r.None? <==> forall k :: 0 <= k < |sources| ==> key !in sources[k]
  {
    if |sources| == 0 then None
    else if key in sources[0] then Some(sources[0][key])
    else FirstSource(key, sources[1..])
  }

  /** The sources `get_secret` consults, highest priority first. */
  function Sources(store: Option<map<string, string>>, env: map<string, string>): seq<map<string, string>>
  {
    match store
    case Some(secrets) => [secrets, env]
    case None => [env]
  }

  /** `get_secret` is first-source resolution over the store, then the environment. */
  lemma GetSecretIsFirstSource(key: string, store: Option<map<string, string>>, env: map<string, string>)
    ensures GetSecret(key, store, env) == FirstSource(key, Sources(store, env))
  {
    var s := Sources(store, env);
    if store.Some? {
      assert s[1..] == [env];
      assert s[1..][1..] == [];
    } else {
      assert s[1..] == [];
    }
  }

  /** The key is found exactly when one of the two sources has it. */
  lemma GetSecretFound(key: string, store: Option<map<string, string>>, env: map<string, string>)
    ensures GetSecret(key, store, env).Some? <==> (store.Some? && key in store.value) || key in env
  {
  }

  /**
   * The store is not a filler of gaps: a key it holds shadows the environment,
   * even when the stored value is the empty string.
   */
  lemma StoreShadowsEnvironment(key: string, secrets: map<string, string>, env: map<string, string>)
    requires key in secrets && key in env && secrets[key] == "" && env[key] != ""
    ensures GetSecret(key, Some(secrets), env) == Some("")
    ensures !Truthy(GetSecret(key, Some(secrets), env))
  {
  }

  // ---------------------------------------------------------------------------
  // validate_config

  /** The required keys, in the order of the `required_keys` dict. */
  datatype Key = GeminiApiKey | RedditClientId | RedditClientSecret | RedditUserAgent

  /** The name a key is stored and reported under. */
  function KeyName(k: Key): string
  {
    match k
    case GeminiApiKey => "GEMINI_API_KEY"
    case RedditClientId => "REDDIT_CLIENT_ID"
    case RedditClientSecret => "REDDIT_CLIENT_SECRET"
    case RedditUserAgent => "REDDIT_USER_AGENT"
  }

  const RequiredKeys: seq<Key> := [GeminiApiKey, RedditClientId, RedditClientSecret, RedditUserAgent]

  /** The module-level constants: the value `get_secret` resolved for each key at load time. */
  datatype Settings = Settings(
    geminiApiKey: Option<string>,
    redditClientId: Option<string>,
    redditClientSecret: Option<string>,
    redditUserAgent: Option<string>)
  {
    /** `required_keys[k]`. */
    function Value(k: Key): Option<string>
    {
      match k
      case GeminiApiKey => geminiApiKey
      case RedditClientId => redditClientId
      case RedditClientSecret => redditClientSecret
      case RedditUserAgent => redditUserAgent
    }
  }

  /** Resolving each required key with `get_secret`. */
  function LoadSettings(store: Option<map<string, string>>, env: map<string, string>): (s: Settings)
    ensures forall k: Key :: s.Value(k) == GetSecret(KeyName(k), store, env)
  {
    Settings(GetSecret(KeyName(GeminiApiKey), store, env), GetSecret(KeyName(RedditClientId), store, env),
             GetSecret(KeyName(RedditClientSecret), store, env), GetSecret(KeyName(RedditUserAgent), store, env))
  }

  /** `missing_keys`: the required keys whose value is falsy, in dict order. */
  function MissingKeys(s: Settings): (r: seq<Key>)
    ensures |r| <= |RequiredKeys|
  {
    Filter(RequiredKeys, k => !Truthy(s.Value(k)))
  }

  /**
   * A key is listed exactly when its value is `None` or empty, and the list
   * keeps the fixed order of the required keys.
   */
  lemma MissingKeysExact(s: Settings, k: Key)
    ensures k in MissingKeys(s) <==> !Truthy(s.Value(k))
    ensures IsSubsequence(MissingKeys(s), RequiredKeys)
  {
    FilterMembership(RequiredKeys, k => !Truthy(s.Value(k)), k);
    FilterIsSubsequence(RequiredKeys, k => !Truthy(s.Value(k)));
  }

  /** No key is missing exactly when the list is empty. */
  lemma NothingMissing(s: Settings)
    ensures MissingKeys(s) == [] <==> forall k: Key :: Truthy(s.Value(k))
  {
    forall k: Key {
      MissingKeysExact(s, k);
    }
    if MissingKeys(s) != [] {
      assert MissingKeys(s)[0] in MissingKeys(s);
    }
  }

  /** `validate_config()`: true exactly when no required key is missing. */
  function ValidateConfig(s: Settings): (ok: bool)
    ensures ok <==> forall k: Key :: Truthy(s.Value(k))
  {
    NothingMissing(s);
    MissingKeys(s) == []
  }

  /** The contribution of one key to the missing-key list. */
  function MissingIf(s: Settings, k: Key): seq<Key>
  {
    if Truthy(s.Value(k)) then [] else [k]
  }

  /** The comprehension over the four entries, one entry at a time. */
  lemma MissingKeysUnrolled(s: Settings)
    ensures MissingKeys(s) == MissingIf(s, GeminiApiKey) + MissingIf(s, RedditClientId)
                              + MissingIf(s, RedditClientSecret) + MissingIf(s, RedditUserAgent)
  {
    var p := k => !Truthy(s.Value(k));
    var r := RequiredKeys;
    assert r[..3][..2][..1][..0] == [];
    assert r[..3][..2][..1] == r[..1] && r[..3][..2] == r[..2] && r[..3] == r[..|r| - 1];
    assert Filter(r[..1], p) == MissingIf(s, GeminiApiKey);
    assert Filter(r[..2], p) == Filter(r[..1], p) + MissingIf(s, RedditClientId);
    assert Filter(r[..3], p) == Filter(r[..2], p) + MissingIf(s, RedditClientSecret);
  }

  /** An empty value counts as missing just as an absent one does; the others still pass. */
  lemma EmptyValueIsMissing(rest: string)
    requires rest != ""
    ensures MissingKeys(Settings(Some(""), Some(rest), Some(rest), Some(rest))) == [GeminiApiKey]
    ensures MissingKeys(Settings(None, Some(rest), Some(rest), Some(rest))) == [GeminiApiKey]
    ensures !ValidateConfig(Settings(Some(""), Some(rest), Some(rest), Some(rest)))
  {
    MissingKeysUnrolled(Settings(Some(""), Some(rest), Some(rest), Some(rest)));
    MissingKeysUnrolled(Settings(None, Some(rest), Some(rest), Some(rest)));
  }

  /** Validation of the loaded settings passes exactly when every key resolves to a non-empty value. */
  lemma ValidateLoaded(store: Option<map<string, string>>, env: map<string, string>)
    ensures ValidateConfig(LoadSettings(store, env)) <==> forall k: Key :: Truthy(GetSecret(KeyName(k), store, env))
  {
  }

  /**
   * An empty value in the store makes validation fail, even when the environment
   * holds a non-empty value for the same key: the store shadows the environment.
   */
  lemma EmptyStoreValueFailsValidation(secrets: map<string, string>, env: map<string, string>, k: Key)
    requires KeyName(k) in secrets && secrets[KeyName(k)] == ""
    ensures !ValidateConfig(LoadSettings(Some(secrets), env))
  {
    ValidateLoaded(Some(secrets), env);
    assert !Truthy(GetSecret(KeyName(k), Some(secrets), env));
  }
}
