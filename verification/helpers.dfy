/** The URL and translation helpers of app/utils/helpers.py. The file system and the clock
    that `get_versioned_url` consults are parameters: `mtimes` maps the files that exist to
    their modification time in whole seconds, `clock` is `int(time.time())`. */
module Helpers {
  import opened Wrappers
  import opened Strings
  import opened PercentEncoding

  const StaticPrefix: string := "/static/"
  const PublicPrefix: string := "public/"

  /** Translations as loaded from the JSON files: language, then section, then key. */
  type Translations = map<string, map<string, map<string, string>>>

  /** The file a `/static/` URL is served from: `path.replace("/static/", "public/")`. */
  function StaticFile(path: string): (r: string)
    ensures !Contains(path, StaticPrefix) ==> r == path
    ensures StartsWith(path, StaticPrefix) && !Contains(path[|StaticPrefix|..], StaticPrefix) ==>
              r == PublicPrefix + path[|StaticPrefix|..]
    // Later occurrences are replaced as well, as Python's `str.replace` does.
    ensures StartsWith(path, StaticPrefix) ==>
              r == PublicPrefix + ReplaceAll(path[|StaticPrefix|..], StaticPrefix, PublicPrefix)
  {
    ReplaceAll(path, StaticPrefix, PublicPrefix)
  }

  /** Every `/static/` in the path is replaced, not only the leading one: for instance
      `/static/a/static/b.css` is served from `public/a/public/b.css`. */
  lemma StaticFileReplacesEveryOccurrence(dir: string, file: string)
    requires forall i :: 0 <= i < |dir| ==> dir[i] != '/'
    requires !Contains(file, StaticPrefix)
    ensures StaticFile(StaticPrefix + dir + StaticPrefix + file) == PublicPrefix + dir + PublicPrefix + file
  {
    var rest := StaticPrefix + file;
    calc {
      StaticFile(StaticPrefix + dir + StaticPrefix + file);
      { Regroup(StaticPrefix, dir, StaticPrefix, file); }
      StaticFile(StaticPrefix + dir + rest);
      { SplitAfterPrefix(StaticPrefix, dir, rest); }
      PublicPrefix + ReplaceAll(dir + rest, StaticPrefix, PublicPrefix);
      { ReplaceAllCopiesPlain(dir, rest, StaticPrefix, PublicPrefix); }
      PublicPrefix + (dir + ReplaceAll(rest, StaticPrefix, PublicPrefix));
      { SplitAfterPrefix(StaticPrefix, file, []);
        assert StaticPrefix + file + [] == rest && file + [] == file; }
      PublicPrefix + (dir + (PublicPrefix + file));
      { Regroup(PublicPrefix, dir, PublicPrefix, file); }
      PublicPrefix + dir + PublicPrefix + file;
    }
  }

  /** `get_versioned_url(path, version)`. A `/static/` path is percent-encoded and gets
      `?v=` and the version: the one given, else the file's modification time, else the
      current time. Any other path is returned as it is. */
  function GetVersionedUrl(path: string, version: Option<string>, mtimes: map<string, nat>, clock: nat): (r: string)
    ensures !StartsWith(path, StaticPrefix) ==> r == path
    ensures StartsWith(path, StaticPrefix) ==>
              && StartsWith(r, Quote(path))
              && r[|Quote(path)|..] == "?v=" + VersionOf(path, version, mtimes, clock)
  {
    if StartsWith(path, StaticPrefix) then
      var q, tail := Quote(path), "?v=" + VersionOf(path, version, mtimes, clock);
      SplitAfterPrefix(q, tail, []);
      assert q + tail + [] == q + tail && tail + [] == tail;
      q + tail
    else path
  }

  /** The version string `get_versioned_url` settles on for a static path. */
  function VersionOf(path: string, version: Option<string>, mtimes: map<string, nat>, clock: nat): (r: string)
    ensures version.Some? ==> r == version.value
    ensures version.None? ==>
              && (forall k :: 0 <= k < |r| ==> '0' <= r[k] <= '9')
              && DecimalValue(r) == if StaticFile(path) in mtimes then mtimes[StaticFile(path)] else clock
  {
    DecimalRoundTrip(if StaticFile(path) in mtimes then mtimes[StaticFile(path)] else clock);
    if version.Some? then version.value
    else if StaticFile(path) in mtimes then NatToDecimal(mtimes[StaticFile(path)])
    else NatToDecimal(clock)
  }

  /** A versioned static URL can be taken apart again: the part before `?v=` percent-decodes
      to the path's UTF-8 bytes, and without an explicit version the rest reads back as the
      file's modification time, or the clock for a missing file. */
  lemma VersionedUrlDecodes(path: string, mtimes: map<string, nat>, clock: nat)
    requires StartsWith(path, StaticPrefix)
    ensures |Quote(path)| + 3 <= |GetVersionedUrl(path, None, mtimes, clock)|
    ensures var r, q := GetVersionedUrl(path, None, mtimes, clock), Quote(path);
            && UnquoteToBytes(r[..|q|]) == Utf8(path)
            && r[|q|..|q| + 3] == "?v="
            && var digits := r[|q| + 3..];
               && (forall k :: 0 <= k < |digits| ==> '0' <= digits[k] <= '9')
               && DecimalValue(digits) == if StaticFile(path) in mtimes then mtimes[StaticFile(path)] else clock
  {
    var r, q, v := GetVersionedUrl(path, None, mtimes, clock), Quote(path), VersionOf(path, None, mtimes, clock);
    assert r == q + ("?v=" + v);
    SplitVersioned(r, q, v);
  }

  lemma SplitVersioned(r: string, q: string, v: string)
    requires r == q + ("?v=" + v)
    ensures |q| + 3 <= |r| && r[..|q|] == q && r[|q|..|q| + 3] == "?v=" && r[|q| + 3..] == v
  {
    assert r[..|q|] == q;
    assert r[|q|..] == "?v=" + v;
  }

  /** An explicit version is used verbatim, whatever the file system says. */
  lemma ExplicitVersionWins(path: string, v: string, mtimes: map<string, nat>, clock: nat,
                            mtimes': map<string, nat>, clock': nat)
    ensures GetVersionedUrl(path, Some(v), mtimes, clock) == GetVersionedUrl(path, Some(v), mtimes', clock')
    ensures StartsWith(path, StaticPrefix) ==> GetVersionedUrl(path, Some(v), mtimes, clock) == Quote(path) + "?v=" + v
  {
  }

  /** `get_current_language_from_path(path)`: a plain prefix test on `/en`. */
  function GetCurrentLanguageFromPath(path: string): (r: string)
    ensures r == "en" || r == "nl"
    ensures r == "en" <==> StartsWith(path, "/en")
  {
    if StartsWith(path, "/en") then "en" else "nl"
  }

  /** `get_language_root_url(language)`. */
  function GetLanguageRootUrl(language: string): (r: string)
    ensures r == "/en" <==> language == "en"
    ensures r != "/en" ==> r == "/"
  {
    if language == "en" then "/en" else "/"
  }

  /** The root URL of a page's language is itself a page of that language. */
  lemma RootUrlKeepsLanguage(path: string)
    ensures GetCurrentLanguageFromPath(GetLanguageRootUrl(GetCurrentLanguageFromPath(path))) == GetCurrentLanguageFromPath(path)
  {
  }

  /** `get_translated_text(translations, language, section, key, default)`: three nested
      `.get` calls, each level defaulting to empty, with no fallback to another language. */
  function GetTranslatedText(translations: Translations, language: string, section: string, key: string, default: string): (r: string)
    ensures (&& language in translations && section in translations[language]
             && key in translations[language][section]) ==> r == translations[language][section][key]
    ensures (|| language !in translations || section !in translations[language]
             || key !in translations[language][section]) ==> r == default
  {
    if language in translations && section in translations[language] && key in translations[language][section]
    then translations[language][section][key]
    else default
  }

  /** No fallback: a key missing in one language gives the default even when the other
      language has it. */
  lemma NoLanguageFallback(translations: Translations, section: string, key: string, default: string)
    requires "nl" in translations && section in translations["nl"] && key in translations["nl"][section]
    requires "en" in translations && section in translations["en"] && key !in translations["en"][section]
    ensures GetTranslatedText(translations, "en", section, key, default) == default
    ensures GetTranslatedText(translations, "nl", section, key, default) == translations["nl"][section][key]
  {
  }

  /** The two shapes `create_error_response` returns. */
  datatype ErrorResponse =
    | JsonError(success: bool, message: string)
    | Redirect(url: string, statusCode: nat)

  /** `create_error_response(message, is_ajax, redirect_url)`: a JSON failure body for AJAX,
      otherwise a 302 redirect with the message appended as `?error=`. */
  function CreateErrorResponse(message: string, isAjax: bool, redirectUrl: string): (r: ErrorResponse)
    ensures isAjax <==> r.JsonError?
    ensures r.JsonError? ==> !r.success && r.message == message
    ensures r.Redirect? ==> r.statusCode == 302 && StartsWith(r.url, redirectUrl)
                            && r.url[|redirectUrl|..] == "?error=" + message
  {
    if isAjax then JsonError(false, message) else Redirect(redirectUrl + "?error=" + message, 302)
  }
}
