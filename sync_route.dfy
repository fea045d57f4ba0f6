/**
 * `POST` of `app/api/sync-content/route.ts`: the GitHub push webhook that
 * publishes episodes from Markdown files.
 *
 * The handler checks the signature, gates on a `push` to a `.../main` ref,
 * collects the changed `episodes/<name>.md` files, and for each one fetches
 * `episodes/<name>` at the pushed revision, validates its metadata, renders
 * both language halves and updates the first episode row whose
 * `contentName` is that name. Every failure inside the per-file `try` skips
 * that file only.
 *
 * `PostSpec` says what one delivery answers, what the episodes table
 * becomes and which paths are revalidated; the `Post` method runs the
 * per-file loop over a `Database` and is proved against it.
 */
module SyncRoute {
  import opened Wrappers
  import opened Text
  import opened Schema
  import opened SyncSignature
  import opened SyncMarkdown
  import opened SyncCandidates

  /** The parts of the JSON payload the handler reads; any of them may be missing. */
  datatype Payload = Payload(ref: Option<string>, after: Option<string>, commits: Option<seq<Commit>>)

  /** `octokit.repos.getContent`: a throw, a directory or non-file entry, or a file's decoded text. */
  datatype FetchResult = FetchFailed | NotAFile | FileContent(text: string)

  /** The library calls the handler makes; `None` stands for a throw. */
  datatype Services = Services(
    hmac: Hmac,
    parseJson: string -> Option<Payload>,
    fetch: (string, Option<string>, string, Option<string>) -> FetchResult,  // owner, repo, path, ref
    matter: string -> Option<Matter>,
    render: string -> Option<string>,
    zod: ZodChecks)

  datatype Request = Request(rawBody: string, signature: Option<string>, event: Option<string>)

  /** A response, or `Crashed` when the handler throws outside any `try`. */
  datatype Response = Response(status: int, message: string) | Crashed

  const MainSuffix: string := "/main"

  datatype GateResult = Proceed(payload: Payload) | Stop(status: int, message: string)

  /** The `try` block after the signature: parse, event check, branch check. */
  function Gate(rawBody: string, event: Option<string>, parseJson: string -> Option<Payload>): (g: GateResult)
    ensures g.Proceed? <==>
              && parseJson(rawBody).Some?
              && event == Some("push")
              && parseJson(rawBody).value.ref.Some?
              && EndsWith(parseJson(rawBody).value.ref.value, MainSuffix)
    ensures g.Proceed? ==> Some(g.payload) == parseJson(rawBody)
    ensures parseJson(rawBody).None? ==> g == Stop(400, "Invalid payload")
    ensures parseJson(rawBody).Some? && event != Some("push") ==> g == Stop(200, "Ignoring non-push event")
    ensures parseJson(rawBody).Some? && event == Some("push") && parseJson(rawBody).value.ref.None?
            ==> g == Stop(400, "Invalid payload")
    ensures parseJson(rawBody).Some? && event == Some("push") && parseJson(rawBody).value.ref.Some?
            && !EndsWith(parseJson(rawBody).value.ref.value, MainSuffix)
            ==> g == Stop(200, "Ignoring push to non-main branch")
    ensures g.Stop? && g.status == 200 ==> g.message in {"Ignoring non-push event", "Ignoring push to non-main branch"}
  {
    match parseJson(rawBody)
    case None => Stop(400, "Invalid payload")
    case Some(p) =>
      if event != Some("push") then Stop(200, "Ignoring non-push event")
      else if p.ref.None? then Stop(400, "Invalid payload")
      else if !EndsWith(p.ref.value, MainSuffix) then Stop(200, "Ignoring push to non-main branch")
      else Proceed(p)
  }

  /** `settings.contentRepo.split("/")`: the owner and, if there is one, the repository name. */
  function RepoParts(contentRepo: string): (string, Option<string>) {
    var parts := Split(contentRepo, "/");
    (parts[0], if |parts| >= 2 then Some(parts[1]) else None)
  }

  /** Where the per-file loop fetches from: owner, repository, revision (`payload.after`), services. */
  datatype SyncContext = SyncContext(owner: string, repo: Option<string>, after: Option<string>, svc: Services)

  /** The database lookup `where contentName = name limit 1`: the first matching row. */
  function FindByContentName(rows: seq<Episode>, name: string): (r: Option<nat>)
    ensures r.Some? ==> r.value < |rows| && rows[r.value].contentName == name
    ensures r.Some? ==> forall j :: 0 <= j < r.value ==> rows[j].contentName != name
    ensures r.None? ==> forall j :: 0 <= j < |rows| ==> rows[j].contentName != name
  {
    if |rows| == 0 then None
    else if rows[0].contentName == name then Some(0)
    else
      match FindByContentName(rows[1..], name)
      case None => None
      case Some(k) => Some(k + 1)
  }

  /** What the per-file `try` decides: skip the file, or publish row `index` with these values. */
  datatype Step = Skip | Publish(index: nat, frontmatter: Frontmatter, htmlEn: string, htmlFa: string)

  /** The per-file body up to the update: fetch, parse, validate, split, render, look up. */
  function Plan(rows: seq<Episode>, name: string, ctx: SyncContext): (s: Step)
    // only the first row carrying the file's name is ever chosen
    ensures s.Publish? ==> Some(s.index) == FindByContentName(rows, name)
    // the file read is `episodes/<name>` at the pushed revision, and it is a file
    ensures s.Publish? ==> ctx.svc.fetch(ctx.owner, ctx.repo, EpisodesDir + name, ctx.after).FileContent?
    // its metadata passed the schema, and those are the values written
    ensures s.Publish? ==>
              var text := ctx.svc.fetch(ctx.owner, ctx.repo, EpisodesDir + name, ctx.after).text;
              && ctx.svc.matter(text).Some?
              && ValidateFrontmatter(ctx.svc.matter(text).value.data, ctx.svc.zod) == Some(s.frontmatter)
              && var halves := SplitBilingual(ctx.svc.matter(text).value.content);
                 ctx.svc.render(halves.0) == Some(s.htmlEn) && ctx.svc.render(halves.1) == Some(s.htmlFa)
    // a fetch that fails or is not a file, or metadata the schema refuses, skips the file
    ensures !ctx.svc.fetch(ctx.owner, ctx.repo, EpisodesDir + name, ctx.after).FileContent? ==> s.Skip?
    ensures FindByContentName(rows, name).None? ==> s.Skip?
  {
    match ctx.svc.fetch(ctx.owner, ctx.repo, EpisodesDir + name, ctx.after)
    case FetchFailed => Skip
    case NotAFile => Skip
    case FileContent(text) =>
      match ctx.svc.matter(text)
      case None => Skip
      case Some(m) =>
        match ValidateFrontmatter(m.data, ctx.svc.zod)
        case None => Skip
        case Some(fm) =>
          var halves := SplitBilingual(m.content);
          match (ctx.svc.render(halves.0), ctx.svc.render(halves.1))
          case (Some(htmlEn), Some(htmlFa)) =>
            (match FindByContentName(rows, name)
             case None => Skip
             case Some(k) => Publish(k, fm, htmlEn, htmlFa))
          case _ => Skip
  }

  /** The `.set({...})` of the update: status and the synced fields, nothing else. */
  function Published(e: Episode, fm: Frontmatter, htmlEn: string, htmlFa: string): (p: Episode)
    ensures p.id == e.id && p.slug == e.slug && p.scheduledAt == e.scheduledAt && p.contentName == e.contentName
    ensures p.topicId == e.topicId && p.resourcesUrl == e.resourcesUrl
    ensures p.status == EpisodeStatus.Published
    ensures p.titleEn == Some(fm.titleEn) && p.titleFa == Some(fm.titleFa) && p.audioUrl == Some(fm.audioUrl)
    ensures p.descriptionEn == Some(htmlEn) && p.descriptionFa == Some(htmlFa) && p.publishedAt == Some(fm.publishedAt)
  {
    e.(status := EpisodeStatus.Published, titleEn := Some(fm.titleEn), titleFa := Some(fm.titleFa),
       descriptionEn := Some(htmlEn), descriptionFa := Some(htmlFa),
       audioUrl := Some(fm.audioUrl), publishedAt := Some(fm.publishedAt))
  }

  /** `update episodes set ... where id = <id>`. */
  function UpdateWhereId(rows: seq<Episode>, id: int, fm: Frontmatter, htmlEn: string, htmlFa: string)
    : (r: seq<Episode>)
    ensures |r| == |rows|
    ensures forall i :: 0 <= i < |rows| ==>
              r[i] == if rows[i].id == id then Published(rows[i], fm, htmlEn, htmlFa) else rows[i]
  {
    seq(|rows|, i requires 0 <= i < |rows| => if rows[i].id == id then Published(rows[i], fm, htmlEn, htmlFa) else rows[i])
  }

  /** A slug interpolated into a template literal: a missing one prints as `null`. */
  function SlugText(slug: Option<string>): string {
    if slug.Some? then slug.value else "null"
  }

  /** The `revalidatePath` calls after an update, in order. */
  function RevalidatedPaths(slug: Option<string>): (paths: seq<string>)
    ensures |paths| == 5 && paths[0] == "/" && paths[1] == "/episodes"
    ensures paths[2] == "/episodes/" + SlugText(slug)
    ensures paths[3] == "/en/episodes/" + SlugText(slug) && paths[4] == "/fa/episodes/" + SlugText(slug)
  {
    var s := SlugText(slug);
    ["/", "/episodes", "/episodes/" + s, "/en/episodes/" + s, "/fa/episodes/" + s]
  }

  predicate DistinctIds(rows: seq<Episode>) {
    forall i, j :: 0 <= i < j < |rows| ==> rows[i].id != rows[j].id
  }

  /** `b` is `a` with possibly different synced fields: same rows, same keys and creation-time values. */
  predicate SameRows(a: seq<Episode>, b: seq<Episode>) {
    && |a| == |b|
    && forall i :: 0 <= i < |a| ==>
         && a[i].id == b[i].id && a[i].slug == b[i].slug && a[i].contentName == b[i].contentName
         && a[i].scheduledAt == b[i].scheduledAt && a[i].topicId == b[i].topicId
         && a[i].resourcesUrl == b[i].resourcesUrl
  }

  /** One iteration of the per-file loop: the table afterwards and the paths revalidated. */
  function SyncOne(rows: seq<Episode>, name: string, ctx: SyncContext): (r: (seq<Episode>, seq<string>))
    requires DistinctIds(rows)
    ensures SameRows(rows, r.0)
    // a skipped file changes nothing and revalidates nothing
    ensures Plan(rows, name, ctx).Skip? ==> r == (rows, [])
    // otherwise exactly the first row named `name` is published, with the five paths revalidated
    ensures Plan(rows, name, ctx).Publish? ==>
              var s := Plan(rows, name, ctx);
              && r.0[s.index] == Published(rows[s.index], s.frontmatter, s.htmlEn, s.htmlFa)
              && (forall i :: 0 <= i < |rows| && i != s.index ==> r.0[i] == rows[i])
              && r.1 == RevalidatedPaths(rows[s.index].slug)
  {
    match Plan(rows, name, ctx)
    case Skip => (rows, [])
    case Publish(k, fm, htmlEn, htmlFa) =>
      (UpdateWhereId(rows, rows[k].id, fm, htmlEn, htmlFa), RevalidatedPaths(rows[k].slug))
  }

  /** The per-file loop over `files`: each file is handled whatever happened to the ones before it. */
  function SyncAll(rows: seq<Episode>, files: seq<FileInfo>, ctx: SyncContext): (r: (seq<Episode>, seq<string>))
    requires DistinctIds(rows)
    ensures SameRows(rows, r.0)
    // a row that changed is published, and some file in the list carries its name
    ensures forall i :: 0 <= i < |rows| && r.0[i] != rows[i] ==>
              r.0[i].status == EpisodeStatus.Published && exists f :: f in files && f.filename == rows[i].contentName
    decreases |files|
  {
    if |files| == 0 then (rows, [])
    else
      var before := SyncAll(rows, files[..|files| - 1], ctx);
      var last := files[|files| - 1];
      assert DistinctIds(before.0) by {
        assert SameRows(rows, before.0);
      }
      var step := SyncOne(before.0, last.filename, ctx);
      forall i | 0 <= i < |rows| && step.0[i] != rows[i]
        ensures step.0[i].status == EpisodeStatus.Published
        ensures exists f :: f in files && f.filename == rows[i].contentName
      {
        if step.0[i] != before.0[i] {
          assert last in files;
        } else {
          var f :| f in files[..|files| - 1] && f.filename == rows[i].contentName;
          assert f in files;
        }
      }
      (step.0, before.1 + step.1)
  }

  /** One more iteration of the loop is one more `SyncOne` on the rows so far. */
  lemma SyncAllStep(rows: seq<Episode>, files: seq<FileInfo>, i: nat, ctx: SyncContext)
    requires DistinctIds(rows) && i < |files|
    ensures DistinctIds(SyncAll(rows, files[..i], ctx).0)
    ensures var before := SyncAll(rows, files[..i], ctx);
            var step := SyncOne(before.0, files[i].filename, ctx);
            SyncAll(rows, files[..i + 1], ctx) == (step.0, before.1 + step.1)
  {
    assert files[..i + 1][..i] == files[..i];
    assert SameRows(rows, SyncAll(rows, files[..i], ctx).0);
  }

  lemma SameRowsKeepsEpisodesValid(a: seq<Episode>, b: seq<Episode>, nextEpisodeId: int)
    requires EpisodesValid(a, nextEpisodeId) && SameRows(a, b)
    ensures EpisodesValid(b, nextEpisodeId)
  {
  }

  /** Handling the same file twice leaves the table as handling it once. */
  lemma SyncOneIdempotent(rows: seq<Episode>, name: string, ctx: SyncContext)
    requires DistinctIds(rows)
    ensures DistinctIds(SyncOne(rows, name, ctx).0)
    ensures SyncOne(SyncOne(rows, name, ctx).0, name, ctx).0 == SyncOne(rows, name, ctx).0
  {
    var once := SyncOne(rows, name, ctx).0;
    assert SameRows(rows, once);
  }

  /** What one delivery answers, what the episodes table becomes and which paths are revalidated. */
  function PostSpec(rows: seq<Episode>, req: Request, secret: string, contentRepo: string, svc: Services)
    : (r: (Response, seq<Episode>, seq<string>))
    requires DistinctIds(rows)
    ensures SameRows(rows, r.1)
    // nothing but the final 200 ever follows a write
    ensures r.1 != rows || r.2 != [] ==> r.0 == Response(200, "Sync process initiated")
  {
    match VerifySignature(secret, req.signature, req.rawBody, svc.hmac)
    case ComparisonThrows => (Crashed, rows, [])
    case SignatureInvalid => (Response(401, "Invalid signature"), rows, [])
    case SignatureValid =>
      match Gate(req.rawBody, req.event, svc.parseJson)
      case Stop(status, message) => (Response(status, message), rows, [])
      case Proceed(p) =>
        if p.commits.None? then (Crashed, rows, [])
        else
          match CollectSpec(p.commits.value)
          case None => (Crashed, rows, [])
          case Some(files) =>
            var (owner, repo) := RepoParts(contentRepo);
            var synced := SyncAll(rows, UniqueByFilename(files), SyncContext(owner, repo, p.after, svc));
            (Response(200, "Sync process initiated"), synced.0, synced.1)
  }

  /** A delivery whose signature does not check out is answered 401 and writes nothing. */
  lemma BadSignatureRejected(rows: seq<Episode>, req: Request, secret: string, contentRepo: string, svc: Services)
    requires DistinctIds(rows)
    requires secret == "" || req.signature.None? || VerifySignature(secret, req.signature, req.rawBody, svc.hmac) == SignatureInvalid
    ensures PostSpec(rows, req, secret, contentRepo, svc) == (Response(401, "Invalid signature"), rows, [])
  {
  }

  /** The table only changes for a signed `push` to a `.../main` ref whose changed files could all be read. */
  lemma WritesOnlyOnSignedMainPush(rows: seq<Episode>, req: Request, secret: string, contentRepo: string, svc: Services)
    requires DistinctIds(rows)
    requires PostSpec(rows, req, secret, contentRepo, svc).1 != rows
    ensures VerifySignature(secret, req.signature, req.rawBody, svc.hmac) == SignatureValid
    ensures req.event == Some("push")
    ensures var p := svc.parseJson(req.rawBody);
            p.Some? && p.value.ref.Some? && EndsWith(p.value.ref.value, MainSuffix)
    ensures var p := svc.parseJson(req.rawBody);
            p.value.commits.Some? && CollectSpec(p.value.commits.value).Some?
  {
  }

  /**
   * Once the candidates are collected the answer is 200 "Sync process
   * initiated", whatever happens to the individual files.
   */
  lemma CollectedPushAnswers200(rows: seq<Episode>, req: Request, secret: string, contentRepo: string, svc: Services)
    requires DistinctIds(rows)
    requires VerifySignature(secret, req.signature, req.rawBody, svc.hmac) == SignatureValid
    requires Gate(req.rawBody, req.event, svc.parseJson).Proceed?
    requires var p := Gate(req.rawBody, req.event, svc.parseJson).payload;
             p.commits.Some? && CollectSpec(p.commits.value).Some?
    ensures PostSpec(rows, req, secret, contentRepo, svc).0 == Response(200, "Sync process initiated")
  {
  }

  /** One iteration of the per-file loop: plan the file against the current table and apply it. */
  method SyncFile(db: Database, name: string, ctx: SyncContext) returns (paths: seq<string>)
    requires db.Valid()
    modifies db
    ensures db.Valid()
    ensures (db.episodes, paths) == SyncOne(old(db.episodes), name, ctx)
    ensures db.users == old(db.users) && db.sessions == old(db.sessions)
    ensures db.nextUserId == old(db.nextUserId) && db.nextEpisodeId == old(db.nextEpisodeId)
  {
    paths := [];
    var step := Plan(db.episodes, name, ctx);
    if step.Publish? {
      var row := db.episodes[step.index];
      db.episodes := UpdateWhereId(db.episodes, row.id, step.frontmatter, step.htmlEn, step.htmlFa);
      paths := RevalidatedPaths(row.slug);
    }
    SameRowsKeepsEpisodesValid(old(db.episodes), db.episodes, db.nextEpisodeId);
  }

  /** The per-file loop over the collected files. */
  method SyncFiles(db: Database, files: seq<FileInfo>, ctx: SyncContext) returns (revalidated: seq<string>)
    requires db.Valid()
    modifies db
    ensures db.Valid()
    ensures (db.episodes, revalidated) == SyncAll(old(db.episodes), files, ctx)
    ensures db.users == old(db.users) && db.sessions == old(db.sessions)
    ensures db.nextUserId == old(db.nextUserId) && db.nextEpisodeId == old(db.nextEpisodeId)
  {
    revalidated := [];
    for i := 0 to |files|
      invariant db.Valid()
      invariant (db.episodes, revalidated) == SyncAll(old(db.episodes), files[..i], ctx)
      invariant db.users == old(db.users) && db.sessions == old(db.sessions)
      invariant db.nextUserId == old(db.nextUserId) && db.nextEpisodeId == old(db.nextEpisodeId)
    {
      SyncAllStep(old(db.episodes), files, i, ctx);
      var paths := SyncFile(db, files[i].filename, ctx);
      revalidated := revalidated + paths;
    }
    assert files[..|files|] == files;
  }

  /** The handler: signature, gate, candidate collection, then the per-file loop over the database. */
  method Post(db: Database, req: Request, secret: string, contentRepo: string, svc: Services)
    returns (resp: Response, revalidated: seq<string>)
    requires db.Valid()
    modifies db
    ensures db.Valid()
    ensures (resp, db.episodes, revalidated) == PostSpec(old(db.episodes), req, secret, contentRepo, svc)
    ensures db.users == old(db.users) && db.sessions == old(db.sessions)
    ensures db.nextUserId == old(db.nextUserId) && db.nextEpisodeId == old(db.nextEpisodeId)
  {
    revalidated := [];
    var check := VerifySignature(secret, req.signature, req.rawBody, svc.hmac);
    if check == ComparisonThrows {
      return Crashed, [];
    }
    if check == SignatureInvalid {
      return Response(401, "Invalid signature"), [];
    }
    var gate := Gate(req.rawBody, req.event, svc.parseJson);
    if gate.Stop? {
      return Response(gate.status, gate.message), [];
    }
    var payload := gate.payload;
    var (owner, repo) := RepoParts(contentRepo);
    if payload.commits.None? {
      return Crashed, [];
    }
    var collected := CollectMarkdownFiles(payload.commits.value);
    if collected.None? {
      return Crashed, [];
    }
    var unique := UniqueByFilename(collected.value);
    revalidated := SyncFiles(db, unique, SyncContext(owner, repo, payload.after, svc));
    resp := Response(200, "Sync process initiated");
  }
}
