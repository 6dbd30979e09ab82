/** `LanguageMiddleware.dispatch` (app/middleware/language.py): the language of a request
    and the path the router sees. */
module LanguageRouting {
  import opened Strings
  import Helpers

  /** `request.state.language` and `request.scope["path"]` after the middleware ran. */
  datatype Routed = Routed(language: string, path: string)

  /** A path starting with `/en` is English and loses its first three characters, except
      `/en` and `/en/` themselves; any other path is Dutch and routed as it is. */
  function Dispatch(path: string): (r: Routed)
    ensures r.language == "en" <==> StartsWith(path, "/en")
    ensures r.language != "en" ==> r.language == "nl" && r.path == path
    ensures path == "/en" || path == "/en/" ==> r.path == path
    ensures r.language == "en" && path != "/en" && path != "/en/" ==> path == "/en" + r.path
  {
    if StartsWith(path, "/en") then
      Routed("en", if path != "/en" && path != "/en/" then path[3..] else path)
    else Routed("nl", path)
  }

  /** The middleware and `get_current_language_from_path` classify every path alike. */
  lemma DispatchAgreesWithHelper(path: string)
    ensures Dispatch(path).language == Helpers.GetCurrentLanguageFromPath(path)
  {
  }

  /** The test is a raw prefix test, not a path-segment test: `/english` is English and is
      routed as `glish`, a path without its leading slash. */
  lemma EnglishPrefixIsRaw()
    ensures Dispatch("/english") == Routed("en", "glish")
  {
  }

  /** Prefixing a Dutch route with `/en` gives back that route in English, for every route
      but the root (whose English form `/en` is routed unchanged). */
  lemma {:induction false} EnglishPrefixRoundTrip(p: string)
    requires StartsWith(p, "/") && p != "/"
    ensures Dispatch("/en" + p) == Routed("en", p)
  {
    var q := "/en" + p;
    assert q[..3] == "/en" && q[3..] == p;
  }
}
