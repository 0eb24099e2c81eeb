/**
 * The settings codec of the widget: a record becomes a URL-safe-enough
 * token (JSON text, UTF-8 bytes, base64) and a token becomes a parsed value
 * again, with every failure on the way turned into "no value". Also the
 * iframe snippet that embeds a configured widget.
 */
module Embed {
  import opened Wrappers
  import opened Unicode
  import opened Base64
  import opened Json
  import opened JsonRoundTrip
  import opened Types
  import opened SettingsJson

  /** `toBase64Config`: `btoa` of the UTF-8 bytes of `JSON.stringify(settings)`. */
  function ToBase64Config(s: HeadlineSettings): (r: string)
    ensures Atob(r) == Some(Utf8Encode(Stringify(ToJson(s))))
  {
    AtobBtoa(Utf8Encode(Stringify(ToJson(s))));
    Btoa(Utf8Encode(Stringify(ToJson(s))))
  }

  /**
   * `fromBase64Config` as written: `atob`, strict UTF-8 decoding, `JSON.parse`;
   * `None` where any of them throws. The parsed value is returned whatever its shape.
   */
  function FromBase64Config(token: string): (r: Option<Json>)
    ensures r.Some? ==> exists text :: Atob(token) == Some(Utf8Encode(text)) && Parse(text) == r
    ensures forall text :: Atob(token) == Some(Utf8Encode(text)) ==> r == Parse(text)
    ensures Atob(token).None? ==> r.None?
  {
    match Atob(token)
    case None => None
    case Some(bytes) =>
      Utf8DecodeOfEncoding(bytes);
      match Utf8Decode(bytes)
      case None => None
      case Some(text) =>
        Utf8DecodeIsEncoding(bytes);
        assert Atob(token) == Some(Utf8Encode(text));
        Parse(text)
  }

  /** The decoding with the shape check the declared result type calls for. */
  function DecodeSettings(token: string): (r: Option<HeadlineSettings>)
    ensures FromBase64Config(token).None? ==> r.None?
    ensures r.Some? ==> FromBase64Config(token).Some? && FromJson(FromBase64Config(token).value) == r
    ensures FromBase64Config(token).Some? ==> r == FromJson(FromBase64Config(token).value)
  {
    var j :- FromBase64Config(token);
    FromJson(j)
  }

  /** A token decodes to the JSON value of the settings it was made from, whatever characters the text holds. */
  lemma FromBase64ConfigRoundTrip(s: HeadlineSettings)
    ensures FromBase64Config(ToBase64Config(s)) == Some(ToJson(s))
  {
    var text := Stringify(ToJson(s));
    AtobBtoa(Utf8Encode(text));
    Utf8RoundTrip(text);
    ParseStringify(ToJson(s));
  }

  /** A token decodes, shape check included, to the settings it was made from. */
  lemma DecodeSettingsRoundTrip(s: HeadlineSettings)
    ensures DecodeSettings(ToBase64Config(s)) == Some(s)
  {
    FromBase64ConfigRoundTrip(s);
    FromJsonToJson(s);
  }

  /** A token has 4 * ceil(n / 3) characters for n bytes of UTF-8, each from the base64 alphabet or `=`. */
  lemma TokenShape(s: HeadlineSettings)
    ensures var n := |Utf8Encode(Stringify(ToJson(s)))|;
      |ToBase64Config(s)| == 4 * ((n + 2) / 3)
    ensures forall i :: 0 <= i < |ToBase64Config(s)| ==>
      ToBase64Config(s)[i] == '=' || IsAlphabetChar(ToBase64Config(s)[i])
  {
    BtoaShape(Utf8Encode(Stringify(ToJson(s))));
  }

  /**
   * A token decodes to `j` exactly when it is base64 of the UTF-8 encoding of
   * a text that parses as `j`; on every other token the result is `None`.
   */
  lemma FromBase64ConfigIff(token: string, j: Json)
    ensures FromBase64Config(token) == Some(j) <==>
      exists text :: Atob(token) == Some(Utf8Encode(text)) && Parse(text) == Some(j)
  {
    if FromBase64Config(token) == Some(j) {
      var bytes := Atob(token).value;
      var text := Utf8Decode(bytes).value;
      Utf8DecodeIff(bytes, text);
    }
    if exists text :: Atob(token) == Some(Utf8Encode(text)) && Parse(text) == Some(j) {
      var text :| Atob(token) == Some(Utf8Encode(text)) && Parse(text) == Some(j);
      Utf8RoundTrip(text);
    }
  }

  /** A character outside the alphabet, `=` and whitespace makes `atob` throw, and the result is `None`. */
  lemma RejectsForeignChar(token: string, c: char)
    requires c in token && !IsAsciiWhitespace(c) && c != '=' && !IsAlphabetChar(c)
    ensures FromBase64Config(token) == None
  {
    AtobRejectsForeignChar(token, c);
  }

  /** A base64 body of length 4k + 1 makes `atob` throw, and the result is `None`. */
  lemma RejectsLength(token: string)
    requires |RemoveWhitespace(token)| % 4 == 1
    ensures FromBase64Config(token) == None
  {
    AtobRejectsLength(token);
  }

  /** Bytes that are no UTF-8 encoding make `decodeURIComponent` throw, and the result is `None`. */
  lemma RejectsMalformedUtf8(token: string, bytes: seq<byte>)
    requires Atob(token) == Some(bytes)
    requires forall text :: Utf8Encode(text) != bytes
    ensures FromBase64Config(token) == None
  {
    if Utf8Decode(bytes).Some? {
      Utf8DecodeIff(bytes, Utf8Decode(bytes).value);
    }
  }

  /** A text that is not JSON makes `JSON.parse` throw, and the result is `None`. */
  lemma RejectsMalformedJson(token: string, text: string)
    requires Atob(token) == Some(Utf8Encode(text))
    requires Parse(text) == None
    ensures FromBase64Config(token) == None
  {
    Utf8RoundTrip(text);
  }

  // ---- the embed snippet ----

  /** `hostUrl.replace(/\/$/, '')`: one `/` at the very end is dropped. */
  function StripSlash(host: string): (r: string)
    ensures r == host || r + "/" == host
    ensures r != host <==> host != [] && host[|host| - 1] == '/'
  {
    if host != [] && host[|host| - 1] == '/' then
      assert host[..|host| - 1] + "/" == host;
      host[..|host| - 1]
    else host
  }

  /** Exactly one trailing slash is removed. */
  lemma StripSlashOnce(host: string)
    ensures StripSlash(host + "/") == host
  {
    assert (host + "/")[..|host|] == host;
  }

  /** A host without a trailing slash is kept as it is. */
  lemma StripSlashKeeps(host: string)
    requires host == [] || host[|host| - 1] != '/'
    ensures StripSlash(host) == host
  {
  }

  const SnippetHead: string := "<iframe src=\""
  const SnippetTail: string := ['"'] + " style=\"width:100%;height:120px;border:0;overflow:hidden\" loading=\"lazy\" title=\"Headline Widget\"></iframe>"

  /** The widget's address: the host without its trailing slash, `/?config=`, the token. */
  function EmbedSrc(host: string, s: HeadlineSettings): (r: string)
    ensures '"' !in host ==> '"' !in r
  {
    TokenHasNoQuote(s);
    var stripped, token := StripSlash(host), ToBase64Config(s);
    assert '"' !in host ==> '"' !in stripped;
    assert '"' !in "/?config=";
    stripped + "/?config=" + token
  }

  /** `embedSnippet`: the fixed iframe markup around the widget's address for these settings. */
  function EmbedSnippet(host: string, s: HeadlineSettings): (r: string)
    ensures '"' !in host ==> SrcAttribute(r) == Some(EmbedSrc(host, s))
  {
    var src := EmbedSrc(host, s);
    assert '"' !in host ==> SrcAttribute(SnippetHead + src + SnippetTail) == Some(src) by {
      if '"' !in host { SrcOfMarkup(src); }
    }
    SnippetHead + src + SnippetTail
  }

  /** The text before the first `"`. */
  function UpToQuote(t: string): string
  {
    if t == [] || t[0] == '"' then [] else [t[0]] + UpToQuote(t[1..])
  }

  lemma {:induction false} UpToQuoteAppend(a: string, b: string)
    requires '"' !in a && b != [] && b[0] == '"'
    ensures UpToQuote(a + b) == a
  {
    if a == [] {
      assert a + b == b;
    } else {
      assert (a + b)[1..] == a[1..] + b;
      UpToQuoteAppend(a[1..], b);
      assert [a[0]] + a[1..] == a;
    }
  }

  /** The value of the snippet's `src` attribute: the text after `<iframe src="` up to the next `"`. */
  function SrcAttribute(snippet: string): Option<string>
  {
    if |snippet| >= |SnippetHead| && snippet[..|SnippetHead|] == SnippetHead
    then Some(UpToQuote(snippet[|SnippetHead|..]))
    else None
  }

  lemma TokenHasNoQuote(s: HeadlineSettings)
    ensures '"' !in ToBase64Config(s)
  {
    TokenShape(s);
  }

  /** The markup around a quote-free `src` gives that `src` back as the attribute's value. */
  lemma SrcOfMarkup(src: string)
    requires '"' !in src
    ensures SrcAttribute(SnippetHead + src + SnippetTail) == Some(src)
  {
    var snippet := SnippetHead + src + SnippetTail;
    assert snippet[..|SnippetHead|] == SnippetHead;
    assert snippet[|SnippetHead|..] == src + SnippetTail;
    assert SnippetTail[0] == '"';
    UpToQuoteAppend(src, SnippetTail);
  }

  /**
   * For a host without `"`, the snippet's `src` attribute is exactly the host
   * without its trailing slash, `/?config=` and the token: the token cannot
   * end the attribute early, and nothing else in the markup varies.
   */
  lemma SnippetSrc(host: string, s: HeadlineSettings)
    requires '"' !in host
    ensures SrcAttribute(EmbedSnippet(host, s)) == Some(StripSlash(host) + "/?config=" + ToBase64Config(s))
  {
  }

  /** A host given with or without its trailing slash gives the same snippet. */
  lemma SnippetIgnoresTrailingSlash(host: string, s: HeadlineSettings)
    requires host == [] || host[|host| - 1] != '/'
    ensures EmbedSnippet(host + "/", s) == EmbedSnippet(host, s)
  {
    StripSlashOnce(host);
    StripSlashKeeps(host);
  }
}
