/**
 * `createEpisodeSchema` of `lib/validations/episodes.ts`: the field rules
 * an episode form must satisfy. Each rule is a predicate on one form value;
 * `BaseErrors` names every field that breaks its rule, as zod reports all
 * field errors at once.
 *
 * A form value is what the action hands to the schema: a missing key, a
 * `null` (`formData.get` of an absent field), a string, or a date (valid or
 * not). Lengths are JavaScript string lengths (UTF-16 code units). zod's
 * `.url()` is a predicate the caller supplies.
 */
module EpisodeValidation {
  import opened Text

  datatype Field = Missing | Null | Text(s: string) | Date(ms: int) | InvalidDate

  /** The keys the schema looks at. */
  datatype EpisodeForm = EpisodeForm(
    slug: Field, scheduledAt: Field, resourcesUrl: Field, contentName: Field, topicId: Field,
    titleEn: Field, titleFa: Field, descriptionEn: Field, descriptionFa: Field)

  /** `[a-z0-9-]`. */
  predicate IsSlugChar(c: char) {
    'a' <= c <= 'z' || '0' <= c <= '9' || c == '-'
  }

  /** `[a-zA-Z0-9_.-]`. */
  predicate IsNameChar(c: char) {
    'a' <= c <= 'z' || 'A' <= c <= 'Z' || '0' <= c <= '9' || c == '_' || c == '.' || c == '-'
  }

  /** `.min(1).regex(/^[a-z0-9-]+$/)`. */
  predicate IsSlug(s: string) {
    |s| >= 1 && forall i :: 0 <= i < |s| ==> IsSlugChar(s[i])
  }

  /** `.min(1).regex(/^[a-zA-Z0-9_.-]+\.md$/)`: one or more name characters, then `.md`. */
  predicate IsContentName(s: string) {
    |s| >= 4 && EndsWith(s, ".md") && forall i :: 0 <= i < |s| - 3 ==> IsNameChar(s[i])
  }

  predicate SlugOk(f: Field) {
    f.Text? && IsSlug(f.s)
  }

  /** `z.date()`: a date that is not `Invalid Date`. */
  predicate ScheduledAtOk(f: Field) {
    f.Date?
  }

  /** `.url().optional().or(z.literal(""))`. */
  predicate ResourcesUrlOk(f: Field, isUrl: string -> bool) {
    f.Missing? || (f.Text? && (f.s == "" || isUrl(f.s)))
  }

  predicate ContentNameOk(f: Field) {
    f.Text? && IsContentName(f.s)
  }

  /** `z.string().optional()`. */
  predicate TopicIdOk(f: Field) {
    f.Missing? || f.Text?
  }

  /** `z.string().min(4)`. */
  predicate TitleOk(f: Field) {
    f.Text? && Utf16Length(f.s) >= 4
  }

  const MaxDescription: nat := 1000

  /** `.max(1000).optional().or(z.literal(""))`. */
  predicate DescriptionOk(f: Field) {
    f.Missing? || (f.Text? && (f.s == "" || Utf16Length(f.s) <= MaxDescription))
  }

  /** The keys of the form, as zod names them in its field errors. */
  datatype FieldName =
    | SlugKey | ScheduledAtKey | ResourcesUrlKey | ContentNameKey | TopicIdKey
    | TitleEnKey | TitleFaKey | DescriptionEnKey | DescriptionFaKey

  /** Field `k` of `form` breaks its rule. */
  predicate Broken(form: EpisodeForm, isUrl: string -> bool, k: FieldName) {
    match k
    case SlugKey => !SlugOk(form.slug)
    case ScheduledAtKey => !ScheduledAtOk(form.scheduledAt)
    case ResourcesUrlKey => !ResourcesUrlOk(form.resourcesUrl, isUrl)
    case ContentNameKey => !ContentNameOk(form.contentName)
    case TopicIdKey => !TopicIdOk(form.topicId)
    case TitleEnKey => !TitleOk(form.titleEn)
    case TitleFaKey => !TitleOk(form.titleFa)
    case DescriptionEnKey => !DescriptionOk(form.descriptionEn)
    case DescriptionFaKey => !DescriptionOk(form.descriptionFa)
  }

  /** The fields that break the base schema's rules. */
  function BaseErrors(form: EpisodeForm, isUrl: string -> bool): (errors: set<FieldName>)
    ensures SlugKey in errors <==> !SlugOk(form.slug)
    ensures ScheduledAtKey in errors <==> !ScheduledAtOk(form.scheduledAt)
    ensures ResourcesUrlKey in errors <==> !ResourcesUrlOk(form.resourcesUrl, isUrl)
    ensures ContentNameKey in errors <==> !ContentNameOk(form.contentName)
    ensures TopicIdKey in errors <==> !TopicIdOk(form.topicId)
    ensures TitleEnKey in errors <==> !TitleOk(form.titleEn)
    ensures TitleFaKey in errors <==> !TitleOk(form.titleFa)
    ensures DescriptionEnKey in errors <==> !DescriptionOk(form.descriptionEn)
    ensures DescriptionFaKey in errors <==> !DescriptionOk(form.descriptionFa)
  {
    set k: FieldName | Broken(form, isUrl, k)
  }

  /** The form passes the base schema exactly when every rule holds. */
  predicate BaseValid(form: EpisodeForm, isUrl: string -> bool) {
    && SlugOk(form.slug) && ScheduledAtOk(form.scheduledAt) && ResourcesUrlOk(form.resourcesUrl, isUrl)
    && ContentNameOk(form.contentName) && TopicIdOk(form.topicId)
    && TitleOk(form.titleEn) && TitleOk(form.titleFa)
    && DescriptionOk(form.descriptionEn) && DescriptionOk(form.descriptionFa)
  }

  lemma NoErrorsIffValid(form: EpisodeForm, isUrl: string -> bool)
    ensures BaseErrors(form, isUrl) == {} <==> BaseValid(form, isUrl)
  {
    var errors := BaseErrors(form, isUrl);
    if !BaseValid(form, isUrl) {
      if !SlugOk(form.slug) { assert SlugKey in errors; }
      else if !ScheduledAtOk(form.scheduledAt) { assert ScheduledAtKey in errors; }
      else if !ResourcesUrlOk(form.resourcesUrl, isUrl) { assert ResourcesUrlKey in errors; }
      else if !ContentNameOk(form.contentName) { assert ContentNameKey in errors; }
      else if !TopicIdOk(form.topicId) { assert TopicIdKey in errors; }
      else if !TitleOk(form.titleEn) { assert TitleEnKey in errors; }
      else if !TitleOk(form.titleFa) { assert TitleFaKey in errors; }
      else if !DescriptionOk(form.descriptionEn) { assert DescriptionEnKey in errors; }
      else { assert DescriptionFaKey in errors; }
    } else {
      forall k: FieldName ensures k !in errors {
      }
    }
  }

  /** Since `.`, `m` and `d` are name characters, a content name is a name-character string ending in `.md`. */
  lemma ContentNameIffAllNameChars(s: string)
    ensures IsContentName(s) <==>
              |s| >= 4 && EndsWith(s, ".md") && forall i :: 0 <= i < |s| ==> IsNameChar(s[i])
  {
    if |s| >= 4 && EndsWith(s, ".md") {
      assert s[|s| - 3..] == ".md";
      forall i | |s| - 3 <= i < |s| ensures IsNameChar(s[i]) {
        assert s[i] == s[|s| - 3..][i - (|s| - 3)];
      }
    }
  }

  /** A content name never contains `/`, so `episodes/<contentName>` is a file directly in that folder. */
  lemma ContentNameHasNoSlash(s: string)
    requires IsContentName(s)
    ensures IndexOf(s, "/").None?
  {
    ContentNameIffAllNameChars(s);
    AbsentCharNotFound(s, '/');
  }

  /** A slug never contains upper-case letters, so lower-casing leaves it unchanged. */
  lemma SlugIsLowerCase(s: string)
    requires IsSlug(s)
    ensures ToLower(s) == s
  {
  }

  /** Titles of at least four characters pass; the length counts UTF-16 units, so fewer characters may too. */
  lemma FourCharacterTitleOk(s: string)
    requires |s| >= 4
    ensures TitleOk(Text(s))
  {
  }
}
