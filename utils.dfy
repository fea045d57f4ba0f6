/**
 * `lib/utils.ts`: the text direction of a locale and the site settings.
 * Only `admin.dashboard` is a constant in that file; the repository of
 * episode files, the GitHub logins allowed into the admin area and the
 * page shown after logout are read elsewhere and are parameters here.
 */
module Utils {
  /** `settings.admin.dashboard`. */
  const AdminDashboard: string := "/admin"

  /** `getLangDir`: Farsi is written right to left, everything else left to right. */
  function GetLangDir(lang: string): (dir: string)
    ensures dir == "rtl" || dir == "ltr"
    ensures dir == "rtl" <==> lang == "fa"
  {
    if lang == "fa" then "rtl" else "ltr"
  }
}
