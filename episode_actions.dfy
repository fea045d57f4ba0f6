/**
 * `createEpisode` of `lib/actions/episodes.ts`: the admin action that adds
 * an upcoming episode. It checks that the signed-in user is an admin,
 * builds the object to validate from the form, validates it against the
 * base schema extended with a lower-casing slug and a parsed `topicId`,
 * inserts the row and redirects to the admin page.
 *
 * As written, the object handed to the schema never has `titleEn` or
 * `titleFa`, which the base schema requires, so validation fails for every
 * form (`ActionValidationAlwaysFails`) and `CreateEpisode` never reaches the
 * insert. `CreateEpisodeCorrected` passes the titles and descriptions
 * through and runs the rest of the action unchanged.
 */
module EpisodeActions {
  import opened Wrappers
  import opened Text
  import opened Schema
  import opened Sessions
  import opened EpisodeValidation

  /** The submitted form: `formData.get(key)` is the string under `key`, or `null`. */
  type FormData = map<string, string>

  function Get(form: FormData, key: string): (f: Field)
    ensures f.Null? || f.Text?
  {
    if key in form then Text(form[key]) else Null
  }

  /** `new Date(string)`: milliseconds, or `None` for `Invalid Date`. */
  type DateParser = string -> Option<int>

  /** The object the action validates: `rawFormData` with `scheduledAt` turned into a date. */
  function ParsedData(form: FormData, parseDate: DateParser): (p: EpisodeForm)
    // the titles and descriptions are never taken from the form
    ensures p.titleEn.Missing? && p.titleFa.Missing? && p.descriptionEn.Missing? && p.descriptionFa.Missing?
    // `|| ""`: a missing or empty resources URL becomes the empty string
    ensures p.resourcesUrl.Text? && ("resourcesUrl" !in form ==> p.resourcesUrl.s == "")
    // an empty or missing date is `undefined`; one that does not parse is `Invalid Date`
    ensures p.scheduledAt.Missing? <==> "scheduledAt" !in form || form["scheduledAt"] == ""
    ensures p.scheduledAt.Date? ==> Some(p.scheduledAt.ms) == parseDate(form["scheduledAt"])
  {
    EpisodeForm(
      slug := Get(form, "slug"),
      scheduledAt := ScheduledField(form, parseDate),
      resourcesUrl := if "resourcesUrl" in form && form["resourcesUrl"] != "" then Text(form["resourcesUrl"]) else Text(""),
      contentName := Get(form, "contentName"),
      topicId := Get(form, "topicId"),
      titleEn := Missing, titleFa := Missing, descriptionEn := Missing, descriptionFa := Missing)
  }

  function ScheduledField(form: FormData, parseDate: DateParser): Field {
    if "scheduledAt" in form && form["scheduledAt"] != "" then
      match parseDate(form["scheduledAt"])
      case Some(ms) => Date(ms)
      case None => InvalidDate
    else Missing
  }

  /** `topicId` after the extended schema's transform. */
  datatype Topic = NoTopic | TopicNumber(n: int) | TopicNaN

  /** `val ? parseInt(val, 10) : null`, with `null` itself passed through. */
  function TopicValue(f: Field): (t: Topic)
    requires f.Null? || f.Text?
    ensures f.Null? || f == Text("") ==> t == NoTopic
    ensures f.Text? && f.s != "" ==> (t.TopicNaN? <==> ParseInt(f.s).None?)
    ensures f.Text? && f.s != "" && ParseInt(f.s).Some? ==> t == TopicNumber(ParseInt(f.s).value)
  {
    if f.Null? || f.s == "" then NoTopic
    else
      match ParseInt(f.s)
      case None => TopicNaN
      case Some(n) => TopicNumber(n)
  }

  /** A topic id typed as digits comes back as that number. */
  lemma TopicOfDigits(n: nat)
    ensures TopicValue(Text(NatToString(n))) == TopicNumber(n)
  {
    ParseIntOfNatToString(n);
  }

  /** The extended rules: the slug only has to be a string, `topicId` a string or `null`. */
  predicate ExtendedSlugOk(f: Field) {
    f.Text?
  }

  predicate ExtendedTopicIdOk(f: Field) {
    f.Text? || f.Null?
  }

  /** What validation hands on: the values the insert uses. */
  datatype ValidatedEpisode = ValidatedEpisode(
    slug: string, scheduledAt: int, resourcesUrl: Option<string>, contentName: string, topic: Topic)

  /** The fields that break the extended schema's rules. */
  function ExtendedErrors(form: EpisodeForm, isUrl: string -> bool): (errors: set<FieldName>)
    ensures SlugKey in errors <==> !ExtendedSlugOk(form.slug)
    ensures TopicIdKey in errors <==> !ExtendedTopicIdOk(form.topicId)
    ensures forall k :: k != SlugKey && k != TopicIdKey ==> (k in errors <==> k in BaseErrors(form, isUrl))
  {
    var base := BaseErrors(form, isUrl) - {SlugKey, TopicIdKey};
    base + (if ExtendedSlugOk(form.slug) then {} else {SlugKey})
         + (if ExtendedTopicIdOk(form.topicId) then {} else {TopicIdKey})
  }

  /** `createEpisodeSchema.safeParse` with the extended schema. */
  function ExtendedParse(form: EpisodeForm, isUrl: string -> bool): (r: Result<ValidatedEpisode, set<FieldName>>)
    ensures r.Failure? <==> ExtendedErrors(form, isUrl) != {}
    ensures r.Failure? ==> r.error == ExtendedErrors(form, isUrl)
    // the slug is lower-cased and nothing more; the other values are the form's
    ensures r.Success? ==>
              && form.slug.Text? && r.value.slug == ToLower(form.slug.s)
              && form.scheduledAt == Date(r.value.scheduledAt)
              && form.contentName == Text(r.value.contentName) && IsContentName(r.value.contentName)
              && r.value.topic == TopicValue(form.topicId)
              && (r.value.resourcesUrl.None? <==> form.resourcesUrl.Missing?)
              && (r.value.resourcesUrl.Some? ==> form.resourcesUrl == Text(r.value.resourcesUrl.value))
  {
    var errors := ExtendedErrors(form, isUrl);
    if errors != {} then Failure(errors)
    else
      assert SlugKey !in errors && TopicIdKey !in errors && ScheduledAtKey !in errors && ContentNameKey !in errors;
      assert ResourcesUrlKey !in errors;
      Success(ValidatedEpisode(
        ToLower(form.slug.s), form.scheduledAt.ms,
        if form.resourcesUrl.Missing? then None else Some(form.resourcesUrl.s),
        form.contentName.s, TopicValue(form.topicId)))
  }

  /**
   * As written the action can never validate: whatever the form holds, the
   * titles are missing, so both title errors are always reported.
   */
  lemma ActionValidationAlwaysFails(form: FormData, parseDate: DateParser, isUrl: string -> bool)
    ensures ExtendedParse(ParsedData(form, parseDate), isUrl).Failure?
    ensures TitleEnKey in ExtendedParse(ParsedData(form, parseDate), isUrl).error
    ensures TitleFaKey in ExtendedParse(ParsedData(form, parseDate), isUrl).error
  {
    var p := ParsedData(form, parseDate);
    assert TitleEnKey in BaseErrors(p, isUrl);
    assert TitleEnKey in ExtendedErrors(p, isUrl);
  }

  /** The extended slug rule replaces the base one: a slug the base regex refuses still passes, lower-cased. */
  lemma ExtendedSlugSkipsRegex()
    ensures !SlugOk(Text("My Slug")) && ExtendedSlugOk(Text("My Slug"))
    ensures !SlugOk(Text("")) && ExtendedSlugOk(Text(""))
    ensures ToLower("My Slug") == "my slug"
  {
    assert !IsSlugChar("My Slug"[0]);
  }

  /** The row the action inserts: always `upcoming`, with exactly the validated values. */
  function NewEpisodeOf(v: ValidatedEpisode): (n: NewEpisode)
    ensures n.status == Some(Upcoming)
    ensures n.slug == Some(v.slug) && n.scheduledAt == Some(v.scheduledAt) && n.contentName == v.contentName
    ensures n.resourcesUrl == v.resourcesUrl
    ensures v.topic.TopicNumber? ==> n.topicId == Some(v.topic.n)
    ensures !v.topic.TopicNumber? ==> n.topicId.None?
  {
    NewEpisode(
      Some(Upcoming), Some(v.slug), Some(v.scheduledAt), v.contentName,
      if v.topic.TopicNumber? then Some(v.topic.n) else None,
      v.resourcesUrl)
  }

  datatype ActionResult =
    | Message(message: string)
    | ValidationFailed(errors: set<FieldName>, message: string)
    | Redirected(location: string)

  const AdminPath: string := "/admin"

  /** The guard: a signed-in user whose GitHub login is on the admin list. */
  predicate Authorized(current: ValidationResult, adminUsers: seq<string>) {
    current.Authenticated? && current.user.username in adminUsers
  }

  function DuplicateSlugMessage(slug: string): string {
    "Failed to create episode: slug '" + slug + "' already exists."
  }

  /** The insert and what follows it: the unique-slug error, or revalidate and redirect to `/admin`. */
  method InsertValidated(db: Database, v: ValidatedEpisode) returns (r: ActionResult, revalidated: seq<string>)
    requires db.Valid()
    modifies db
    ensures db.Valid()
    ensures db.users == old(db.users) && db.sessions == old(db.sessions) && db.nextUserId == old(db.nextUserId)
    ensures var ins := InsertEpisode(old(db.episodes), old(db.nextEpisodeId), NewEpisodeOf(v));
            && (ins.None? ==> r == Message(DuplicateSlugMessage(v.slug)) && revalidated == []
                              && db.episodes == old(db.episodes) && db.nextEpisodeId == old(db.nextEpisodeId))
            && (ins.Some? ==> r == Redirected(AdminPath) && revalidated == [AdminPath]
                              && db.episodes == ins.value && db.nextEpisodeId == old(db.nextEpisodeId) + 1)
  {
    var inserted := InsertEpisode(db.episodes, db.nextEpisodeId, NewEpisodeOf(v));
    if inserted.None? {
      return Message(DuplicateSlugMessage(v.slug)), [];
    }
    db.episodes := inserted.value;
    db.nextEpisodeId := db.nextEpisodeId + 1;
    return Redirected(AdminPath), [AdminPath];
  }

  /** `createEpisode` as written. */
  method CreateEpisode(
    db: Database, jar: CookieJar, now: int, hash: Hasher, adminUsers: seq<string>,
    form: FormData, parseDate: DateParser, isUrl: string -> bool)
    returns (r: ActionResult, revalidated: seq<string>)
    requires db.Valid()
    modifies db
    ensures db.Valid()
    // the session lookup may renew or drop the caller's session, and nothing else changes
    ensures db.sessions == CurrentSession(jar.cookies, old(db.sessions), old(db.users), now, hash).1
    ensures db.users == old(db.users) && db.episodes == old(db.episodes)
    ensures db.nextUserId == old(db.nextUserId) && db.nextEpisodeId == old(db.nextEpisodeId)
    ensures revalidated == []
    ensures !Authorized(CurrentSession(jar.cookies, old(db.sessions), old(db.users), now, hash).0, adminUsers)
            ==> r == Message("unauthorized")
    ensures Authorized(CurrentSession(jar.cookies, old(db.sessions), old(db.users), now, hash).0, adminUsers)
            ==> r == ValidationFailed(ExtendedErrors(ParsedData(form, parseDate), isUrl), "Validation failed.")
  {
    revalidated := [];
    var current := GetCurrentSession(db, jar, now, hash);
    if !Authorized(current, adminUsers) {
      return Message("unauthorized"), [];
    }
    var validated := ExtendedParse(ParsedData(form, parseDate), isUrl);
    ActionValidationAlwaysFails(form, parseDate, isUrl);
    if validated.Failure? {
      return ValidationFailed(validated.error, "Validation failed."), [];
    }
    // the insert is unreachable: see ActionValidationAlwaysFails
    assert false;
  }

  /** The object the action evidently meant to validate: the form's titles and descriptions included. */
  function CorrectedParsedData(form: FormData, parseDate: DateParser): (p: EpisodeForm)
    ensures p.slug == ParsedData(form, parseDate).slug && p.scheduledAt == ParsedData(form, parseDate).scheduledAt
    ensures p.titleEn == Get(form, "titleEn") && p.titleFa == Get(form, "titleFa")
  {
    ParsedData(form, parseDate).(
      titleEn := Get(form, "titleEn"),
      titleFa := Get(form, "titleFa"),
      descriptionEn := if "descriptionEn" in form then Text(form["descriptionEn"]) else Missing,
      descriptionFa := if "descriptionFa" in form then Text(form["descriptionFa"]) else Missing)
  }

  /** A complete, well-formed form is accepted by the corrected action, with its slug lower-cased. */
  lemma CorrectedAcceptsCompleteForm(form: FormData, parseDate: DateParser, isUrl: string -> bool)
    requires "slug" in form && "contentName" in form && IsContentName(form["contentName"])
    requires "scheduledAt" in form && form["scheduledAt"] != "" && parseDate(form["scheduledAt"]).Some?
    requires "resourcesUrl" !in form || form["resourcesUrl"] == "" || isUrl(form["resourcesUrl"])
    requires "titleEn" in form && Utf16Length(form["titleEn"]) >= 4
    requires "titleFa" in form && Utf16Length(form["titleFa"]) >= 4
    requires "descriptionEn" in form ==> Utf16Length(form["descriptionEn"]) <= MaxDescription
    requires "descriptionFa" in form ==> Utf16Length(form["descriptionFa"]) <= MaxDescription
    ensures ExtendedParse(CorrectedParsedData(form, parseDate), isUrl).Success?
    ensures ExtendedParse(CorrectedParsedData(form, parseDate), isUrl).value.slug == ToLower(form["slug"])
  {
    var p := CorrectedParsedData(form, parseDate);
    CompleteFormFieldsPass(form, parseDate, isUrl);
    var errors := ExtendedErrors(p, isUrl);
    forall k: FieldName ensures k !in errors {
      if k != SlugKey && k != TopicIdKey {
        assert !Broken(p, isUrl, k);
      }
    }
    assert errors == {};
  }

  lemma CompleteFormFieldsPass(form: FormData, parseDate: DateParser, isUrl: string -> bool)
    requires "slug" in form && "contentName" in form && IsContentName(form["contentName"])
    requires "scheduledAt" in form && form["scheduledAt"] != "" && parseDate(form["scheduledAt"]).Some?
    requires "resourcesUrl" !in form || form["resourcesUrl"] == "" || isUrl(form["resourcesUrl"])
    requires "titleEn" in form && Utf16Length(form["titleEn"]) >= 4
    requires "titleFa" in form && Utf16Length(form["titleFa"]) >= 4
    requires "descriptionEn" in form ==> Utf16Length(form["descriptionEn"]) <= MaxDescription
    requires "descriptionFa" in form ==> Utf16Length(form["descriptionFa"]) <= MaxDescription
    ensures var p := CorrectedParsedData(form, parseDate);
            && ExtendedSlugOk(p.slug) && ExtendedTopicIdOk(p.topicId)
            && ScheduledAtOk(p.scheduledAt) && ResourcesUrlOk(p.resourcesUrl, isUrl) && ContentNameOk(p.contentName)
            && TitleOk(p.titleEn) && TitleOk(p.titleFa) && DescriptionOk(p.descriptionEn) && DescriptionOk(p.descriptionFa)
  {
  }

  /** `createEpisode` with the titles and descriptions passed to validation. */
  method CreateEpisodeCorrected(
    db: Database, jar: CookieJar, now: int, hash: Hasher, adminUsers: seq<string>,
    form: FormData, parseDate: DateParser, isUrl: string -> bool)
    returns (r: ActionResult, revalidated: seq<string>)
    requires db.Valid()
    modifies db
    ensures db.Valid()
    ensures db.users == old(db.users) && db.nextUserId == old(db.nextUserId)
    ensures db.sessions == CurrentSession(jar.cookies, old(db.sessions), old(db.users), now, hash).1
    // no admin, or a form that fails validation: no row is added
    ensures !Authorized(CurrentSession(jar.cookies, old(db.sessions), old(db.users), now, hash).0, adminUsers)
            ==> r == Message("unauthorized") && db.episodes == old(db.episodes)
    ensures var p := ExtendedParse(CorrectedParsedData(form, parseDate), isUrl);
            p.Failure? ==> db.episodes == old(db.episodes) && (r.Message? || r == ValidationFailed(p.error, "Validation failed."))
    // otherwise the validated episode is inserted as upcoming, unless its slug is taken
    ensures var p := ExtendedParse(CorrectedParsedData(form, parseDate), isUrl);
            Authorized(CurrentSession(jar.cookies, old(db.sessions), old(db.users), now, hash).0, adminUsers) && p.Success? ==>
              var ins := InsertEpisode(old(db.episodes), old(db.nextEpisodeId), NewEpisodeOf(p.value));
              && (ins.None? ==> r == Message(DuplicateSlugMessage(p.value.slug)) && db.episodes == old(db.episodes))
              && (ins.Some? ==> r == Redirected(AdminPath) && revalidated == [AdminPath] && db.episodes == ins.value)
  {
    revalidated := [];
    var current := GetCurrentSession(db, jar, now, hash);
    if !Authorized(current, adminUsers) {
      return Message("unauthorized"), [];
    }
    var validated := ExtendedParse(CorrectedParsedData(form, parseDate), isUrl);
    if validated.Failure? {
      return ValidationFailed(validated.error, "Validation failed."), [];
    }
    r, revalidated := InsertValidated(db, validated.value);
  }
}
