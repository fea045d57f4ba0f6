/**
 * `lib/db/schema.ts`: the `users`, `sessions` and `episodes` tables and
 * their constraints. The `Database` class holds the three tables as fields
 * the operations in the other modules update in place; `Valid` is the
 * conjunction of the declared constraints (primary keys, `github_id` unique,
 * `slug` unique when present, `sessions.user_id` referencing `users.id`).
 *
 * An episode row carries every column the code reads or writes, which is
 * more than the table declaration lists (`titleEn`, `titleFa`,
 * `descriptionEn`, `descriptionFa`, `resourcesUrl` are written by the code
 * but not declared). Timestamps are integers (milliseconds).
 */
module Schema {
  import opened Wrappers

  datatype User = User(id: int, githubId: int, username: string)

  datatype Session = Session(id: string, userId: int, expiresAt: int)

  /** The `status` enum: exactly two values. */
  datatype EpisodeStatus = Upcoming | Published

  datatype Episode = Episode(
    id: int,
    status: EpisodeStatus,
    slug: Option<string>,
    scheduledAt: Option<int>,
    contentName: string,
    topicId: Option<int>,
    resourcesUrl: Option<string>,
    titleEn: Option<string>,
    titleFa: Option<string>,
    descriptionEn: Option<string>,
    descriptionFa: Option<string>,
    audioUrl: Option<string>,
    publishedAt: Option<int>)

  /** The values an insert into `episodes` supplies; an absent status takes the column default. */
  datatype NewEpisode = NewEpisode(
    status: Option<EpisodeStatus>,
    slug: Option<string>,
    scheduledAt: Option<int>,
    contentName: string,
    topicId: Option<int>,
    resourcesUrl: Option<string>)

  /** Primary key `id` equals the map key, ids come from the auto-increment counter, `github_id` is unique. */
  predicate UsersValid(users: map<int, User>, nextUserId: int) {
    && 1 <= nextUserId
    && (forall id :: id in users ==> users[id].id == id && 1 <= id < nextUserId)
    && (forall a, b :: a in users && b in users && users[a].githubId == users[b].githubId ==> a == b)
  }

  /** Primary key `id` equals the map key; `user_id` references an existing user. */
  predicate SessionsValid(sessions: map<string, Session>, users: map<int, User>) {
    forall sid :: sid in sessions ==> sessions[sid].id == sid && sessions[sid].userId in users
  }

  /** Auto-incremented, distinct ids; `slug` unique among the rows that have one. */
  predicate EpisodesValid(rows: seq<Episode>, nextEpisodeId: int) {
    && 1 <= nextEpisodeId
    && (forall i :: 0 <= i < |rows| ==> 1 <= rows[i].id < nextEpisodeId)
    && (forall i, j :: 0 <= i < j < |rows| ==> rows[i].id != rows[j].id)
    && (forall i, j :: 0 <= i < j < |rows| && rows[i].slug.Some? ==> rows[i].slug != rows[j].slug)
  }

  predicate SlugTaken(rows: seq<Episode>, slug: string) {
    exists i :: 0 <= i < |rows| && rows[i].slug == Some(slug)
  }

  predicate GithubIdTaken(users: map<int, User>, githubId: int) {
    exists id :: id in users && users[id].githubId == githubId
  }

  /** `INSERT INTO users`: refused when the GitHub id is already present (unique). */
  function InsertUser(users: map<int, User>, nextUserId: int, githubId: int, username: string)
    : (r: Option<map<int, User>>)
    requires UsersValid(users, nextUserId)
    ensures r.None? <==> GithubIdTaken(users, githubId)
    ensures r.Some? ==> UsersValid(r.value, nextUserId + 1)
    ensures r.Some? ==> r.value.Keys == users.Keys + {nextUserId}
    ensures r.Some? ==> r.value[nextUserId] == User(nextUserId, githubId, username)
    ensures r.Some? ==> forall id :: id in users ==> r.value[id] == users[id]
  {
    if GithubIdTaken(users, githubId) then None
    else Some(users[nextUserId := User(nextUserId, githubId, username)])
  }

  /** `INSERT INTO sessions`: refused on a duplicate id (primary key) or an unknown user (reference). */
  function InsertSession(sessions: map<string, Session>, users: map<int, User>, s: Session)
    : (r: Option<map<string, Session>>)
    requires SessionsValid(sessions, users)
    ensures r.None? <==> s.id in sessions || s.userId !in users
    ensures r.Some? ==> SessionsValid(r.value, users)
    ensures r.Some? ==> r.value.Keys == sessions.Keys + {s.id} && r.value[s.id] == s
    ensures r.Some? ==> forall sid :: sid in sessions ==> r.value[sid] == sessions[sid]
  {
    if s.id in sessions || s.userId !in users then None
    else Some(sessions[s.id := s])
  }

  /** `INSERT INTO episodes`: refused when the slug is already used (unique); status defaults to upcoming. */
  function InsertEpisode(rows: seq<Episode>, nextEpisodeId: int, v: NewEpisode): (r: Option<seq<Episode>>)
    requires EpisodesValid(rows, nextEpisodeId)
    ensures r.None? <==> v.slug.Some? && SlugTaken(rows, v.slug.value)
    ensures r.Some? ==> EpisodesValid(r.value, nextEpisodeId + 1)
    ensures r.Some? ==> |r.value| == |rows| + 1 && r.value[..|rows|] == rows
    ensures r.Some? ==> var e := r.value[|rows|];
      && e.id == nextEpisodeId
      && e.status == (if v.status.Some? then v.status.value else Upcoming)
      && e.slug == v.slug && e.scheduledAt == v.scheduledAt && e.contentName == v.contentName
      && e.topicId == v.topicId && e.resourcesUrl == v.resourcesUrl
      && e.titleEn.None? && e.titleFa.None? && e.descriptionEn.None? && e.descriptionFa.None?
      && e.audioUrl.None? && e.publishedAt.None?
  {
    if v.slug.Some? && SlugTaken(rows, v.slug.value) then None
    else
      var row := Episode(
        nextEpisodeId, if v.status.Some? then v.status.value else Upcoming,
        v.slug, v.scheduledAt, v.contentName, v.topicId, v.resourcesUrl,
        None, None, None, None, None, None);
      assert (rows + [row])[..|rows|] == rows;
      Some(rows + [row])
  }

  /** `ON DELETE CASCADE`: removing a user removes its sessions and no others. */
  function CascadeDeleteUser(users: map<int, User>, sessions: map<string, Session>, userId: int)
    : (r: (map<int, User>, map<string, Session>))
    requires SessionsValid(sessions, users)
    ensures SessionsValid(r.1, r.0)
    ensures r.0.Keys == users.Keys - {userId}
    ensures forall sid :: sid in r.1 <==> sid in sessions && sessions[sid].userId != userId
    ensures forall sid :: sid in r.1 ==> r.1[sid] == sessions[sid]
  {
    (users - {userId}, map sid | sid in sessions && sessions[sid].userId != userId :: sessions[sid])
  }

  predicate TablesValid(
    users: map<int, User>, sessions: map<string, Session>, episodes: seq<Episode>,
    nextUserId: int, nextEpisodeId: int)
  {
    UsersValid(users, nextUserId) && SessionsValid(sessions, users) && EpisodesValid(episodes, nextEpisodeId)
  }

  /** The site's database: the three tables and the auto-increment counters. */
  class Database {
    var users: map<int, User>
    var sessions: map<string, Session>
    var episodes: seq<Episode>
    var nextUserId: int
    var nextEpisodeId: int

    predicate Valid()
      reads this
    {
      TablesValid(users, sessions, episodes, nextUserId, nextEpisodeId)
    }

    constructor ()
      ensures Valid()
      ensures users == map[] && sessions == map[] && episodes == []
    {
      users, sessions, episodes := map[], map[], [];
      nextUserId, nextEpisodeId := 1, 1;
    }

    /** Deleting a user row, with the cascade the `sessions.user_id` reference declares. */
    method DeleteUser(userId: int)
      requires Valid()
      modifies this
      ensures Valid()
      ensures (users, sessions) == CascadeDeleteUser(old(users), old(sessions), userId)
      ensures episodes == old(episodes)
    {
      var r := CascadeDeleteUser(users, sessions, userId);
      users, sessions := r.0, r.1;
    }
  }
}
