/**
 * The per-file parsing steps of `app/api/sync-content/route.ts`: the
 * `frontmatterSchema` check of the metadata block and the split of the
 * Markdown body into its English and Farsi halves on the literal `:::fa:::`.
 *
 * Extracting the metadata block (gray-matter), the zod URL and date
 * coercions and the Markdown-to-HTML rendering are library calls; they reach
 * the model as functions supplied by the caller.
 */
module SyncMarkdown {
  import opened Wrappers
  import opened Text

  const FaMarker: string := ":::fa:::"

  /** `markdownBody.split(":::fa:::")`, keeping `parts[0] || ""` and `parts[1] || ""`. */
  function SplitBilingual(body: string): (r: (string, string))
    // neither half ever contains the marker
    ensures IndexOf(r.0, FaMarker).None? && IndexOf(r.1, FaMarker).None?
    // without a marker the whole body is English and the Farsi half is empty
    ensures IndexOf(body, FaMarker).None? ==> r == (body, "")
    // with one, the English half is everything before the first marker
    ensures IndexOf(body, FaMarker).Some? ==> r.0 == body[..IndexOf(body, FaMarker).value]
    // and the Farsi half is a prefix of what follows it
    ensures IndexOf(body, FaMarker).Some? ==>
              StartsWith(body[IndexOf(body, FaMarker).value + |FaMarker|..], r.1)
  {
    var parts := Split(body, FaMarker);
    SplitPartsAvoidSeparator(body, FaMarker);
    match IndexOf(body, FaMarker)
    case None => (parts[0], "")
    case Some(i) =>
      var rest := body[i + |FaMarker|..];
      assert parts == [body[..i]] + Split(rest, FaMarker);
      assert parts[1] == Split(rest, FaMarker)[0];
      (parts[0], parts[1])
  }

  /** With exactly one marker, `en + ":::fa:::" + fa` gives back the body. */
  lemma OneMarkerReassembles(body: string)
    requires IndexOf(body, FaMarker).Some?
    requires IndexOf(body[IndexOf(body, FaMarker).value + |FaMarker|..], FaMarker).None?
    ensures SplitBilingual(body).0 + FaMarker + SplitBilingual(body).1 == body
  {
    var i := IndexOf(body, FaMarker).value;
    var rest := body[i + |FaMarker|..];
    SplitWithoutSeparator(rest, FaMarker);
    assert Split(body, FaMarker) == [body[..i], rest];
    Reassemble(body, i, FaMarker);
  }

  /**
   * With a second marker, the Farsi half stops there: everything after the
   * second marker is dropped.
   */
  lemma SecondMarkerTruncates(body: string)
    requires IndexOf(body, FaMarker).Some?
    requires IndexOf(body[IndexOf(body, FaMarker).value + |FaMarker|..], FaMarker).Some?
    ensures var i := IndexOf(body, FaMarker).value;
            var rest := body[i + |FaMarker|..];
            SplitBilingual(body).1 == rest[..IndexOf(rest, FaMarker).value]
  {
    var i := IndexOf(body, FaMarker).value;
    var rest := body[i + |FaMarker|..];
    var j := IndexOf(rest, FaMarker).value;
    assert Split(rest, FaMarker)[0] == rest[..j];
    assert Split(body, FaMarker) == [body[..i]] + Split(rest, FaMarker);
  }

  /** A value of the metadata block as the YAML reader hands it over. */
  datatype Value = Str(s: string) | Number(n: real) | Boolean(b: bool) | DateValue(ms: int) | NullValue | Structured

  /** gray-matter's result: the metadata block and the Markdown body after it. */
  datatype Matter = Matter(data: map<string, Value>, content: string)

  /** The zod checks the model does not spell out: `.url()` and `z.coerce.date()`. */
  datatype ZodChecks = ZodChecks(isUrl: string -> bool, coerceDate: Option<Value> -> Option<int>)

  datatype Frontmatter = Frontmatter(titleEn: string, titleFa: string, audioUrl: string, publishedAt: int)

  function Lookup(data: map<string, Value>, key: string): Option<Value> {
    if key in data then Some(data[key]) else None
  }

  /** `z.string().min(1)`: a string of at least one character. */
  predicate NonEmptyString(v: Option<Value>) {
    v.Some? && v.value.Str? && v.value.s != ""
  }

  /** `z.string().url()`. */
  predicate UrlString(v: Option<Value>, z: ZodChecks) {
    v.Some? && v.value.Str? && z.isUrl(v.value.s)
  }

  /**
   * `frontmatterSchema.safeParse`: `titleEn` and `titleFa` non-empty strings,
   * `audioUrl` a URL, `publishedAt` coercible to a date; other keys pass through.
   */
  function ValidateFrontmatter(data: map<string, Value>, z: ZodChecks): (r: Option<Frontmatter>)
    ensures r.Some? <==>
              && NonEmptyString(Lookup(data, "titleEn"))
              && NonEmptyString(Lookup(data, "titleFa"))
              && UrlString(Lookup(data, "audioUrl"), z)
              && z.coerceDate(Lookup(data, "publishedAt")).Some?
    ensures r.Some? ==>
              && Lookup(data, "titleEn") == Some(Str(r.value.titleEn)) && r.value.titleEn != ""
              && Lookup(data, "titleFa") == Some(Str(r.value.titleFa)) && r.value.titleFa != ""
              && Lookup(data, "audioUrl") == Some(Str(r.value.audioUrl)) && z.isUrl(r.value.audioUrl)
              && z.coerceDate(Lookup(data, "publishedAt")) == Some(r.value.publishedAt)
  {
    var titleEn := Lookup(data, "titleEn");
    var titleFa := Lookup(data, "titleFa");
    var audioUrl := Lookup(data, "audioUrl");
    var publishedAt := z.coerceDate(Lookup(data, "publishedAt"));
    if NonEmptyString(titleEn) && NonEmptyString(titleFa) && UrlString(audioUrl, z) && publishedAt.Some? then
      Some(Frontmatter(titleEn.value.s, titleFa.value.s, audioUrl.value.s, publishedAt.value))
    else None
  }

  /** The schema is not strict: keys other than the four it names never change the verdict. */
  lemma ExtraKeysIgnored(data: map<string, Value>, extra: map<string, Value>, z: ZodChecks)
    requires forall k :: k in extra ==> k != "titleEn" && k != "titleFa" && k != "audioUrl" && k != "publishedAt"
    ensures ValidateFrontmatter(data + extra, z) == ValidateFrontmatter(data, z)
  {
    assert Lookup(data + extra, "titleEn") == Lookup(data, "titleEn");
    assert Lookup(data + extra, "titleFa") == Lookup(data, "titleFa");
    assert Lookup(data + extra, "audioUrl") == Lookup(data, "audioUrl");
    assert Lookup(data + extra, "publishedAt") == Lookup(data, "publishedAt");
  }
}
