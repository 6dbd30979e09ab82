/** The request-level helpers of `TeambeeApp` (main.py): translated text with a Dutch
    fallback, the language root URL, cache-busting URLs with a per-file version cache, and the
    header's link to the same page in the other language. The request is reduced to its
    language and path; the file system is a map from existing files to modification times. */
module App {
  import opened Wrappers
  import opened Strings
  import Helpers
  import LanguageRouting

  /** `get_text(section, key, default)`. `language` is the stored request's language, `None`
      when no request is stored. The current language is tried, then Dutch, then the default. */
  function GetText(translations: Helpers.Translations, language: Option<string>, section: string, key: string, default: string): (r: string)
    ensures language.None? ==> r == default
  {
    if language.None? then default
    else
      var lang := language.value;
      if lang in translations && section in translations[lang] && key in translations[lang][section]
      then translations[lang][section][key]
      else if "nl" in translations && section in translations["nl"] && key in translations["nl"][section]
      then translations["nl"][section][key]
      else default
  }

  /** `get_text` is `get_translated_text` for the request's language, with the Dutch text
      (or else the default) as its default. */
  lemma GetTextFallsBackToDutch(translations: Helpers.Translations, lang: string, section: string, key: string, default: string)
    ensures GetText(translations, Some(lang), section, key, default)
            == Helpers.GetTranslatedText(translations, lang, section, key,
                 Helpers.GetTranslatedText(translations, "nl", section, key, default))
  {
  }

  /** Text present in Dutch only is shown on English pages in Dutch; text present in
      neither gives the default. */
  lemma DutchFallbackCases(translations: Helpers.Translations, section: string, key: string, default: string)
    ensures var nl := "nl" in translations && section in translations["nl"] && key in translations["nl"][section];
            var en := "en" in translations && section in translations["en"] && key in translations["en"][section];
            && (!en && nl ==> GetText(translations, Some("en"), section, key, default) == translations["nl"][section][key])
            && (!en && !nl ==> GetText(translations, Some("en"), section, key, default) == default)
  {
  }

  /** `get_language_root_url(request)`. */
  function GetLanguageRootUrl(language: string): (r: string)
    ensures r == Helpers.GetLanguageRootUrl(language)
  {
    if language == "en" then "/en" else "/"
  }

  /** The result of `versioned_url` and the `file_versions` cache after it. */
  datatype Versioned = Versioned(url: string, cache: map<string, string>)

  /** `versioned_url(path)`. A `/static/` path takes its file's cached version, else the
      file's modification time (which is then cached), else the global version; the path is
      not encoded. Any other path takes the global version. */
  function VersionedUrl(cache: map<string, string>, mtimes: map<string, nat>, globalVersion: string, path: string): (r: Versioned)
    ensures forall k :: k in cache ==> k in r.cache && r.cache[k] == cache[k]
    ensures r.cache.Keys <= cache.Keys + {Helpers.StaticFile(path)}
    ensures StartsWith(r.url, path) && StartsWith(r.url[|path|..], "?v=")
    ensures !StartsWith(path, Helpers.StaticPrefix) ==> r == Versioned(path + "?v=" + globalVersion, cache)
    ensures StartsWith(path, Helpers.StaticPrefix) && Helpers.StaticFile(path) in cache ==>
              r == Versioned(path + "?v=" + cache[Helpers.StaticFile(path)], cache)
    // An uncached file on disk is versioned by its modification time, which is then cached.
    ensures StartsWith(path, Helpers.StaticPrefix) && Helpers.StaticFile(path) !in cache && Helpers.StaticFile(path) in mtimes ==>
              var f := Helpers.StaticFile(path);
              var v := NatToDecimal(mtimes[f]);
              r == Versioned(path + "?v=" + v, cache[f := v])
  {
    var isStatic, file := StartsWith(path, Helpers.StaticPrefix), Helpers.StaticFile(path);
    var version := if !isStatic then globalVersion
                   else if file in cache then cache[file]
                   else if file in mtimes then NatToDecimal(mtimes[file])
                   else globalVersion;
    var url := path + "?v=" + version;
    SplitAfterPrefix(path, "?v=", version);
    SplitAfterPrefix("?v=", version, []);
    Versioned(url, if isStatic && file !in cache && file in mtimes then cache[file := version] else cache)
  }

  /** Once a static file has been seen on disk its URL is fixed: after any other call in
      between, and whatever the file system says by then, the same path gets the same URL. */
  lemma VersionedUrlStable(cache: map<string, string>, mtimes: map<string, nat>, globalVersion: string, path: string,
                           other: string, mtimes2: map<string, nat>, mtimes3: map<string, nat>)
    requires StartsWith(path, Helpers.StaticPrefix)
    requires Helpers.StaticFile(path) in cache || Helpers.StaticFile(path) in mtimes
    ensures var first := VersionedUrl(cache, mtimes, globalVersion, path);
            var between := VersionedUrl(first.cache, mtimes2, globalVersion, other);
            VersionedUrl(between.cache, mtimes3, globalVersion, path).url == first.url
  {
  }

  /** A static file missing from disk is never cached: every call uses the global version. */
  lemma MissingFileUsesGlobalVersion(cache: map<string, string>, mtimes: map<string, nat>, globalVersion: string, path: string)
    requires StartsWith(path, Helpers.StaticPrefix)
    requires Helpers.StaticFile(path) !in cache && Helpers.StaticFile(path) !in mtimes
    ensures VersionedUrl(cache, mtimes, globalVersion, path) == Versioned(path + "?v=" + globalVersion, cache)
  {
  }

  /** The link `_create_header` puts in the language switcher. */
  datatype AltLink = AltLink(language: string, path: string)

  /** The alternate-language link for the current page: from Dutch, `/en` in front of the
      path (`/en` alone for the root); from English, the path without a leading `/en`, with an
      empty result mapped to `/`. */
  function HeaderAltLink(language: string, path: string): (r: AltLink)
    ensures language == "nl" <==> r.language == "en"
    ensures language == "nl" ==> r.path == (if path == "/" then "/en" else "/en" + path)
    ensures language != "nl" ==> r.language == "nl" && r.path != ""
    ensures language != "nl" ==>
              var alt := if StartsWith(path, "/en") then path[3..] else path;
              r.path == (if alt == "" || alt == "/" then "/" else alt)
    ensures language != "nl" && !StartsWith(path, "/en") && path != "" ==> r.path == path
  {
    if language == "nl" then
      AltLink("en", "/en" + (if path != "/" then path else ""))
    else
      var alt := if StartsWith(path, "/en") then path[3..] else path;
      AltLink("nl", if alt == "" || alt == "/" then "/" else alt)
  }

  /** Switching from Dutch to English and back returns to the page, for any non-empty path. */
  lemma {:induction false} AltLinkRoundTripFromDutch(path: string)
    requires path != ""
    ensures HeaderAltLink("en", HeaderAltLink("nl", path).path).path == path
  {
    var en := HeaderAltLink("nl", path).path;
    if path != "/" {
      assert en[..3] == "/en" && en[3..] == path;
    }
  }

  /** Switching from an English page to Dutch and back returns to the page, except for
      `/en/`, which comes back as `/en`. */
  lemma {:induction false} AltLinkRoundTripFromEnglish(path: string)
    requires StartsWith(path, "/en")
    ensures path != "/en/" ==> HeaderAltLink("nl", HeaderAltLink("en", path).path).path == path
    ensures HeaderAltLink("nl", HeaderAltLink("en", "/en/").path).path == "/en"
  {
    var nl := HeaderAltLink("en", path).path;
    var rest := path[3..];
    assert path == "/en" + rest;
    if rest == "" || rest == "/" {
      assert nl == "/";
    } else {
      assert nl == rest;
    }
  }

  /** The English link from a Dutch page is routed by the language middleware to the same
      page in English. */
  lemma {:induction false} AltLinkRoutesToSamePage(path: string)
    requires StartsWith(path, "/")
    ensures var link := HeaderAltLink("nl", path).path;
            LanguageRouting.Dispatch(link) == LanguageRouting.Routed("en", if path == "/" then "/en" else path)
  {
    if path != "/" {
      LanguageRouting.EnglishPrefixRoundTrip(path);
    }
  }
}
