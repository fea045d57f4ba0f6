/**
 * `middleware.ts`: the locale routing in front of every page. Admin paths
 * and paths that look like files pass through; a path that already starts
 * with a locale segment passes through; any other path is redirected to the
 * same path under the negotiated locale.
 *
 * Locale negotiation (`Negotiator` and `@formatjs/intl-localematcher`) is a
 * value the caller supplies: the matched locale, or `None` when matching
 * throws.
 */
module Middleware {
  import opened Wrappers
  import opened Text

  const Locales: seq<string> := ["en", "fa"]
  const DefaultLocale: string := "fa"

  /** `getLocale`: the matcher's answer, or the default when it throws. */
  function GetLocale(matched: Option<string>): (locale: string)
    requires matched.Some? ==> matched.value in Locales
    ensures locale in Locales
    ensures matched.None? ==> locale == DefaultLocale
  {
    if matched.Some? then matched.value else DefaultLocale
  }

  datatype Decision = PassThrough | RedirectTo(path: string)

  /** `pathname.startsWith('/admin') || pathname.includes('.')`. */
  predicate Skipped(pathname: string) {
    StartsWith(pathname, "/admin") || Contains(pathname, ".")
  }

  /** The path already starts with `/<locale>/` or is exactly `/<locale>`, for some locale. */
  predicate HasLocale(pathname: string) {
    exists i :: 0 <= i < |Locales| && (StartsWith(pathname, "/" + Locales[i] + "/") || pathname == "/" + Locales[i])
  }

  function Route(pathname: string, matched: Option<string>): (d: Decision)
    requires matched.Some? ==> matched.value in Locales
    ensures Skipped(pathname) ==> d == PassThrough
    ensures !Skipped(pathname) && HasLocale(pathname) ==> d == PassThrough
    ensures !Skipped(pathname) && !HasLocale(pathname) ==> d == RedirectTo("/" + GetLocale(matched) + pathname)
    ensures d.RedirectTo? ==> exists l :: l in Locales && d.path == "/" + l + pathname
  {
    if Skipped(pathname) then PassThrough
    else if !HasLocale(pathname) then
      var locale := GetLocale(matched);
      RedirectTo("/" + locale + pathname)
    else PassThrough
  }

  /** A redirect never leads to another: the target already carries its locale. */
  lemma RedirectTargetPassesThrough(pathname: string, matched: Option<string>, next: Option<string>)
    requires matched.Some? ==> matched.value in Locales
    requires next.Some? ==> next.value in Locales
    requires |pathname| > 0 && pathname[0] == '/'
    requires Route(pathname, matched).RedirectTo?
    ensures Route(Route(pathname, matched).path, next) == PassThrough
  {
    var target := Route(pathname, matched).path;
    var locale := GetLocale(matched);
    var i := if locale == "en" then 0 else 1;
    assert target == "/" + Locales[i] + pathname;
    assert StartsWith(target, "/" + Locales[i] + "/") by {
      assert target[..|Locales[i]| + 2] == "/" + Locales[i] + "/";
    }
  }

  /** The checks are textual: `/administrator` counts as an admin path. */
  lemma AdministratorSkipped(matched: Option<string>)
    requires matched.Some? ==> matched.value in Locales
    ensures Route("/administrator", matched) == PassThrough
  {
    assert "/administrator"[..6] == "/admin";
  }

  lemma EnglishNotSkipped()
    ensures !Skipped("/english")
  {
    AbsentCharNotFound("/english", '.');
    assert "/english"[1] != "/admin"[1];
  }

  lemma EnglishHasNoLocale()
    ensures !HasLocale("/english")
  {
    var p := "/english";
    forall i | 0 <= i < |Locales|
      ensures !StartsWith(p, "/" + Locales[i] + "/") && p != "/" + Locales[i]
    {
      var q := "/" + Locales[i];
      if i == 0 {
        assert p[3] != (q + "/")[3];
      } else {
        assert p[1] != q[1];
      }
      assert |p| != |q|;
    }
  }

  /** ... and `/english` does not count as localized, so it is redirected. */
  lemma EnglishRedirected(matched: Option<string>)
    requires matched.Some? ==> matched.value in Locales
    ensures Route("/english", matched) == RedirectTo("/" + GetLocale(matched) + "/english")
  {
    EnglishNotSkipped();
    EnglishHasNoLocale();
  }
}
