/**
 * The page: the initial settings chosen from the `config` query value, the
 * token the page writes back into its address, and the snippet it offers
 * for the fixed public host.
 */
module App {
  import opened Wrappers
  import opened Unicode
  import opened Base64
  import opened Json
  import opened JsonRoundTrip
  import opened Types
  import opened Defaults
  import opened SettingsJson
  import opened Embed

  /**
   * `init` as written, on the `config` query value (`None` when absent):
   * a nonempty value that decodes to a truthy JSON value is used as the
   * settings whatever its shape; otherwise the defaults.
   */
  function InitAsWritten(cfg: Option<string>): (r: Json)
    ensures cfg.None? || cfg.value == "" ==> r == ToJson(DefaultSettings)
    ensures r != ToJson(DefaultSettings) ==>
      cfg.Some? && cfg.value != "" && FromBase64Config(cfg.value) == Some(r) && Truthy(r)
    ensures cfg.Some? && cfg.value != "" && FromBase64Config(cfg.value).Some? && Truthy(FromBase64Config(cfg.value).value)
      ==> r == FromBase64Config(cfg.value).value
  {
    if cfg.Some? && cfg.value != "" then
      match FromBase64Config(cfg.value)
      case Some(parsed) => if Truthy(parsed) then parsed else ToJson(DefaultSettings)
      case None => ToJson(DefaultSettings)
    else ToJson(DefaultSettings)
  }

  /** The initial settings with the shape check: a nonempty value that decodes to settings, or else the defaults. */
  function InitialSettings(cfg: Option<string>): (r: HeadlineSettings)
    ensures cfg.None? || cfg.value == "" ==> r == DefaultSettings
    ensures r != DefaultSettings ==> cfg.Some? && cfg.value != "" && DecodeSettings(cfg.value) == Some(r)
    ensures cfg.Some? && cfg.value != "" && DecodeSettings(cfg.value).Some? ==> r == DecodeSettings(cfg.value).value
  {
    if cfg.Some? && cfg.value != "" then
      match DecodeSettings(cfg.value)
      case Some(s) => s
      case None => DefaultSettings
    else DefaultSettings
  }

  /** Without a `config` value, or with an empty one, the page starts from the defaults. */
  lemma InitWithoutToken()
    ensures InitialSettings(None) == DefaultSettings && InitialSettings(Some("")) == DefaultSettings
    ensures InitAsWritten(None) == ToJson(DefaultSettings) && InitAsWritten(Some("")) == ToJson(DefaultSettings)
  {
  }

  lemma TokenNotEmpty(s: HeadlineSettings)
    ensures ToBase64Config(s) != ""
  {
    TokenShape(s);
    assert |Stringify(ToJson(s))| > 0;
    assert |Utf8Encode(Stringify(ToJson(s)))| > 0 by {
      var t := Stringify(ToJson(s));
      assert Utf8Encode(t) == EncodeChar(t[0]) + Utf8Encode(t[1..]);
    }
  }

  /** A token made from settings brings the page back to exactly those settings. */
  lemma InitFromToken(s: HeadlineSettings)
    ensures InitialSettings(Some(ToBase64Config(s))) == s
    ensures InitAsWritten(Some(ToBase64Config(s))) == ToJson(s)
  {
    TokenNotEmpty(s);
    FromBase64ConfigRoundTrip(s);
    DecodeSettingsRoundTrip(s);
  }

  /** A value that does not decode leaves the page on the defaults. */
  lemma InitRejected(cfg: string)
    ensures FromBase64Config(cfg) == None ==> InitAsWritten(Some(cfg)) == ToJson(DefaultSettings)
    ensures DecodeSettings(cfg) == None ==> InitialSettings(Some(cfg)) == DefaultSettings
  {
  }

  /** Wherever the state the page starts from as written is a settings record, it is the one the shape check picks. */
  lemma InitAgrees(cfg: Option<string>)
    ensures FromJson(InitAsWritten(cfg)).Some? ==> FromJson(InitAsWritten(cfg)) == Some(InitialSettings(cfg))
  {
    FromJsonToJson(DefaultSettings);
  }

  lemma EmptyObjectToken()
    ensures FromBase64Config("e30=") == Some(JObject([]))
  {
    EmptyObjectBytes();
    EmptyObjectBase64();
    AtobBtoa([123, 125]);
    Utf8RoundTrip("{}");
    ParseStringify(JObject([]));
  }

  lemma EmptyObjectBytes()
    ensures Stringify(JObject([])) == "{}"
    ensures Utf8Encode("{}") == [123, 125]
  {
    assert Utf8Encode("{}") == EncodeChar('{') + Utf8Encode("}");
  }

  lemma EmptyObjectBase64()
    ensures Btoa([123, 125]) == "e30="
  {
    assert Sextets([123, 125]) == "e30";
  }

  /**
   * As written, the token `e30=` (the text `{}`) is taken as the settings:
   * an object without a single field, which the renderer then reads `text`
   * of. With the shape check the page starts from the defaults.
   */
  lemma ShapelessTokenAccepted()
    ensures InitAsWritten(Some("e30=")) == JObject([])
    ensures FromJson(JObject([])) == None
    ensures InitialSettings(Some("e30=")) == DefaultSettings
  {
    EmptyObjectToken();
  }

  // ---- the address and the snippet ----

  /** The address the page writes on every change: its path, `?config=`, and the token computed in place. */
  function AddressOf(pathname: string, s: HeadlineSettings): string
  {
    pathname + "?config=" + Btoa(Utf8Encode(Stringify(ToJson(s))))
  }

  /** The address carries the same token `toBase64Config` makes, and that token brings the settings back. */
  lemma AddressToken(pathname: string, s: HeadlineSettings)
    ensures AddressOf(pathname, s) == pathname + "?config=" + ToBase64Config(s)
    ensures InitialSettings(Some(ToBase64Config(s))) == s
  {
    InitFromToken(s);
  }

  const Host: string := "https://headline-widget-avik.netlify.app"

  function AppSnippet(s: HeadlineSettings): string
  {
    EmbedSnippet(Host, s)
  }

  /** The page's snippet points at the public host, `/?config=` and the token, with no slash doubled or lost. */
  lemma AppSnippetSrc(s: HeadlineSettings)
    ensures SrcAttribute(AppSnippet(s)) == Some(Host + "/?config=" + ToBase64Config(s))
  {
    assert Host[|Host| - 1] == 'p';
    StripSlashKeeps(Host);
    assert '"' !in Host;
    SnippetSrc(Host, s);
  }
}
