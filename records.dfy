/** Constants of config/settings.py that the modelled code reads. */
module Settings {
  /** Rows requested per page (`page[size]`). */
  const PageSize: nat := 100
  /** Page cap of the campus directory fetch. */
  const CampusMaxPages: nat := 20
  /** Seconds waited after a 429 that carries no Retry-After header. */
  const DefaultRetryAfter: nat := 2
  /** Only this many leading users get a per-user detail request. */
  const DetailCap: nat := 50
  /** Page cap of every activity endpoint, whatever `max_users` is. */
  const ActivityPageCap: nat := 10
}

/**
 * The records of the 42 intranet API as the dashboard reads them, with the
 * JSON looseness made explicit: a missing or JSON-null field is `None`,
 * timestamps arrive already parsed (`None` when absent or unparseable), and
 * every HTTP call is answered by one `Reply`.
 */
module Records {
  import opened Seqs

  /**
   * A JSON object member as `dict.get` sees it: absent, present as JSON
   * null, or present with a value.
   */
  datatype Member<T> = Absent | Null | Present(value: T)
  {
    /** `d.get(key, default)`: the default only when the key is absent; JSON null reads as `None`. */
    function Get(default: T): Option<T>
    {
      match this
      case Absent => Some(default)
      case Null => None
      case Present(v) => Some(v)
    }
  }

  /**
   * One element of a user's `campus` list, or the user's `campus` object;
   * `id` is `None` when absent or null (the code only compares it).
   */
  datatype CampusRef = CampusRef(id: Option<int>, name: Member<string>)

  /**
   * The shapes a user's `campus` field takes: a list whose elements may be
   * JSON null (a missing field reads as the empty list), an object, or
   * anything else (null included).
   */
  datatype CampusField =
    | CampusList(entries: seq<Option<CampusRef>>)
    | CampusDict(ref: CampusRef)
    | CampusOther

  /** The nested `cursus` object of a `cursus_users` entry; `CursusNull` is JSON null. */
  datatype CursusInfo = CursusObj(name: Option<string>, slug: Option<string>) | CursusNull

  /**
   * One `cursus_users` entry; a missing `level` reads as 0, a missing
   * `cursus` as an empty object. `EntryNull` is an entry that is JSON null.
   */
  datatype CursusUser = CursusUser(cursus: CursusInfo, level: real) | EntryNull

  /**
   * A raw user record. `updated` and `created` are `updated_at` and
   * `created_at` once parsed; `locationActive`, `lastLocation` and
   * `activityDate` are the keys the fetchers write into the record.
   */
  datatype User = User(
    id: Option<int>,
    login: string,
    updated: Option<int>,
    created: Option<int>,
    campus: CampusField,
    location: Option<string>,
    cursusUsers: seq<CursusUser>,
    locationActive: Option<bool>,
    lastLocation: Option<int>,
    activityDate: Option<int>)

  /** Python truthiness of an id: present and non-zero. */
  predicate TruthyId(id: Option<int>) { id.Some? && id.value != 0 }

  /** A campus of the directory. */
  datatype Campus = Campus(id: int, name: string, country: Option<string>, city: Option<string>)

  /**
   * The `Retry-After` header of a 429 as `int()` reads it: absent, an
   * integer, or text `int()` rejects (the HTTP-date form, say).
   */
  datatype RetryAfter = NoHeader | Seconds(n: int) | NotAnInteger

  /**
   * The answer to one HTTP call: status 200 with its decoded JSON body, 429
   * with its `Retry-After` header, 403, any other status (neither 200, 403
   * nor 429), or an exception (timeout, connection error, malformed JSON).
   */
  datatype Reply<B> = Ok(body: B) | TooMany(retryAfter: RetryAfter) | Forbidden | OtherStatus | Failed

  /**
   * The answer to the `i`-th call of a recorded exchange; a call past the end
   * of the recording fails like a network error.
   */
  function ReplyAt<B>(replies: seq<Reply<B>>, i: nat): (r: Reply<B>)
    ensures i >= |replies| ==> r.Failed?
  {
    if i < |replies| then replies[i] else Failed
  }

  /**
   * A row of the users table once flattened: `Login`, `Nombre`, `Estado`,
   * `Nivel`, `Wallet`, `Evaluation Points`, `Campus` and `Última conexión`
   * (`lastSeen`, parsed; `None` is NaT).
   */
  datatype Row = Row(
    login: string,
    name: string,
    status: string,
    level: real,
    wallet: int,
    evalPoints: int,
    campus: Option<string>,
    lastSeen: Option<int>)
}
