/** The `links` table as a value, and what each route of the server does to
    it: create, get one, list, delete and redirect. Each route is a function
    from the table before the request to the response and the table after it;
    the lemmas state what the routes promise. */
module Links {
  import opened ShortCodes

  datatype Option<+T> = None | Some(value: T)

  /** One row of the `links` table. Timestamps are ticks of a logical clock. */
  datatype Link = Link(
    id: nat,
    originalUrl: string,
    shortCode: string,
    clickCount: nat,
    createdAt: nat,
    lastClickedAt: Option<nat>)

  /** What a route answers; the HTTP status is given beside each case. */
  datatype Response =
    | Created(link: Link)          // 201, the inserted row
    | Found(link: Link)            // 200, one row
    | Listed(links: seq<Link>)     // 200, all rows
    | Deleted                      // 204
    | Redirect(location: string)   // 302 to the stored URL
    | BadRequest(message: string)  // 400
    | Conflict(message: string)    // 409
    | NotFound(message: string)    // 404

  const URL_REQUIRED: string := "URL is required"
  const INVALID_CODE: string := "Short code must be 6-8 alphanumeric characters."
  const CODE_EXISTS: string := "Short code already exists."
  const LINK_NOT_FOUND: string := "Link not found"

  /** The table: rows keyed by `short_code` (the unique constraint), the next
      value of the `id` sequence, and the clock that stamps `created_at` and
      `last_clicked_at`. */
  datatype Table = Table(rows: map<string, Link>, nextId: nat, clock: nat)

  const EMPTY_TABLE: Table := Table(map[], 0, 0)

  /** JavaScript truthiness of a request field that holds a string: absent
      (`undefined`, `null`) and `""` are falsy. */
  predicate IsPresent(field: Option<string>) {
    field.Some? && field.value != ""
  }

  /** Every row is stored under its own short code. */
  ghost predicate KeyedByCode(rows: map<string, Link>) {
    forall c :: c in rows ==> rows[c].shortCode == c
  }

  /** No two rows were created at the same tick. */
  ghost predicate DistinctCreation(rows: map<string, Link>) {
    forall c, d :: c in rows && d in rows && c != d ==> rows[c].createdAt != rows[d].createdAt
  }

  /** No two rows share an id. */
  ghost predicate DistinctIds(rows: map<string, Link>) {
    forall c, d :: c in rows && d in rows && c != d ==> rows[c].id != rows[d].id
  }

  /** The table invariant: short codes are unique (each row sits under its
      own code) and well-formed, URLs are non-empty, ids and creation ticks
      are unique and were issued before the current counters. */
  ghost predicate Valid(t: Table) {
    && KeyedByCode(t.rows)
    && DistinctIds(t.rows)
    && DistinctCreation(t.rows)
    && forall c :: c in t.rows ==>
         && IsValidCustomCode(c)
         && t.rows[c].originalUrl != ""
         && t.rows[c].id < t.nextId
         && t.rows[c].createdAt < t.clock
  }

  // ----- Create: POST /api/links -----

  /** The code the request asks for: the custom code when present, the
      generated one otherwise. */
  function ChosenCode(shortCode: Option<string>, picks: seq<AlphabetIndex>): (code: string)
    requires |picks| == CODE_LENGTH
    ensures IsPresent(shortCode) ==> code == shortCode.value
    ensures !IsPresent(shortCode) ==> |code| == CODE_LENGTH && IsValidCustomCode(code)
  {
    if IsPresent(shortCode) then shortCode.value
    else
      GeneratedCodeIsValid(picks);
      GeneratedCode(picks)
  }

  /** `INSERT ... RETURNING *` under the unique constraint on `short_code`:
      a duplicate code is the unique-violation error `23505`. */
  function Insert(t: Table, url: string, code: string): (out: (Response, Table))
    ensures out.0.Created? <==> code !in t.rows
    ensures !out.0.Created? ==> out == (Conflict(CODE_EXISTS), t)
    ensures out.0.Created? ==>
      && out.0.link.shortCode == code
      && out.0.link.originalUrl == url
      && out.0.link.clickCount == 0
      && out.0.link.lastClickedAt == None
      && out.1.rows == t.rows[code := out.0.link]
  {
    if code in t.rows then
      (Conflict(CODE_EXISTS), t)
    else
      var link := Link(t.nextId, url, code, 0, t.clock, None);
      (Created(link), Table(t.rows[code := link], t.nextId + 1, t.clock + 1))
  }

  /** The create route: URL check, then custom-code check or generation, then
      one insert attempt. A colliding generated code is not retried. */
  function CreateLink(t: Table, url: Option<string>, shortCode: Option<string>, picks: seq<AlphabetIndex>): (out: (Response, Table))
    requires |picks| == CODE_LENGTH
    ensures out.0.Created? || out.0.BadRequest? || out.0.Conflict?
    ensures !out.0.Created? ==> out.1 == t
    ensures out.0.Created? ==> IsPresent(url) && out.1.rows.Keys == t.rows.Keys + {out.0.link.shortCode}
  {
    if !IsPresent(url) then
      (BadRequest(URL_REQUIRED), t)
    else if IsPresent(shortCode) && !IsValidCustomCode(shortCode.value) then
      (BadRequest(INVALID_CODE), t)
    else
      Insert(t, url.value, ChosenCode(shortCode, picks))
  }

  /** Which response create gives, in the order the checks are made, and
      that every rejection leaves the table as it was. */
  lemma CreateOutcome(t: Table, url: Option<string>, shortCode: Option<string>, picks: seq<AlphabetIndex>)
    requires |picks| == CODE_LENGTH
    ensures var (r, t') := CreateLink(t, url, shortCode, picks);
      && (r.Created? || r.BadRequest? || r.Conflict?)
      && (r == BadRequest(URL_REQUIRED) <==> !IsPresent(url))
      && (r == BadRequest(INVALID_CODE) <==>
            IsPresent(url) && IsPresent(shortCode) &&
            !(6 <= |shortCode.value| <= 8 && AllAlphanumeric(shortCode.value)))
      && (r.Conflict? <==>
            IsPresent(url) &&
            (!IsPresent(shortCode) || (6 <= |shortCode.value| <= 8 && AllAlphanumeric(shortCode.value))) &&
            ChosenCode(shortCode, picks) in t.rows)
      && (r.Conflict? ==> r.message == CODE_EXISTS)
      && (r.Created? <==>
            IsPresent(url) &&
            (!IsPresent(shortCode) || (6 <= |shortCode.value| <= 8 && AllAlphanumeric(shortCode.value))) &&
            ChosenCode(shortCode, picks) !in t.rows)
      && (!r.Created? ==> t' == t)
  {
    if IsPresent(shortCode) {
      ValidCustomCodeIff(shortCode.value);
    }
  }

  /** A successful create adds exactly one row, holding the given URL, the
      custom code verbatim or a six-character generated code, and a zero
      click count; every earlier row is kept as it was. */
  lemma CreateAddsOneRow(t: Table, url: Option<string>, shortCode: Option<string>, picks: seq<AlphabetIndex>)
    requires |picks| == CODE_LENGTH
    ensures var (r, t') := CreateLink(t, url, shortCode, picks);
      r.Created? ==>
        && IsPresent(url)
        && r.link.shortCode == ChosenCode(shortCode, picks)
        && r.link.shortCode !in t.rows
        && r.link.originalUrl == url.value
        && r.link.clickCount == 0
        && r.link.lastClickedAt == None
        && (IsPresent(shortCode) ==> r.link.shortCode == shortCode.value)
        && (!IsPresent(shortCode) ==> |r.link.shortCode| == CODE_LENGTH && AllAlphanumeric(r.link.shortCode))
        && t'.rows == t.rows[r.link.shortCode := r.link]
        && |t'.rows| == |t.rows| + 1
        && GetLink(t', r.link.shortCode) == Found(r.link)
  {
    var (r, t') := CreateLink(t, url, shortCode, picks);
    if r.Created? && !IsPresent(shortCode) {
      GeneratedCodeIsValid(picks);
    }
  }

  /** A successful insert of a well-formed code and a non-empty URL keeps
      the table invariant. */
  lemma InsertPreservesValid(t: Table, url: string, code: string)
    requires Valid(t) && url != "" && IsValidCustomCode(code)
    ensures Valid(Insert(t, url, code).1)
  {
    if code !in t.rows {
      var link := Link(t.nextId, url, code, 0, t.clock, None);
      var rows' := t.rows[code := link];
      assert Insert(t, url, code).1 == Table(rows', t.nextId + 1, t.clock + 1);
      AddedRowIsDistinct(t.rows, code, link);
    }
  }

  /** A row whose id and creation tick exceed every stored one keeps ids and
      creation ticks distinct. */
  lemma AddedRowIsDistinct(rows: map<string, Link>, code: string, link: Link)
    requires code !in rows && DistinctIds(rows) && DistinctCreation(rows)
    requires forall c :: c in rows ==> rows[c].id < link.id && rows[c].createdAt < link.createdAt
    ensures DistinctIds(rows[code := link]) && DistinctCreation(rows[code := link])
  {
    var rows' := rows[code := link];
    assert forall c :: c in rows' && c != code ==> rows'[c] == rows[c];
  }

  /** Create keeps the table invariant; in particular short codes stay unique
      and every stored code, custom or generated, is well-formed. */
  lemma CreatePreservesValid(t: Table, url: Option<string>, shortCode: Option<string>, picks: seq<AlphabetIndex>)
    requires Valid(t) && |picks| == CODE_LENGTH
    ensures Valid(CreateLink(t, url, shortCode, picks).1)
  {
    if IsPresent(url) {
      if !IsPresent(shortCode) {
        GeneratedCodeIsValid(picks);
        InsertPreservesValid(t, url.value, GeneratedCode(picks));
      } else if IsValidCustomCode(shortCode.value) {
        InsertPreservesValid(t, url.value, shortCode.value);
      }
    }
  }

  // ----- Get one: GET /api/links/:code -----

  /** `SELECT * FROM links WHERE short_code = $1`. */
  function Lookup(t: Table, code: string): (found: Option<Link>)
    ensures found.Some? <==> code in t.rows
    ensures found.Some? ==> found.value == t.rows[code]
    ensures found.Some? && KeyedByCode(t.rows) ==> found.value.shortCode == code
  {
    if code in t.rows then Some(t.rows[code]) else None
  }

  /** The get-one route: the row with that code, or not-found. */
  function GetLink(t: Table, code: string): (r: Response)
    ensures r.Found? || r == NotFound(LINK_NOT_FOUND)
    ensures r.Found? <==> code in t.rows
    ensures r.Found? ==> r.link == t.rows[code]
    ensures r.Found? && KeyedByCode(t.rows) ==> r.link.shortCode == code
  {
    match Lookup(t, code)
    case None => NotFound(LINK_NOT_FOUND)
    case Some(link) => Found(link)
  }

  // ----- List: GET /api/links -----

  /** The row under `c` is the newest among the rows under `keys`. */
  predicate IsNewest(rows: map<string, Link>, keys: set<string>, c: string)
    requires keys <= rows.Keys
  {
    c in keys && forall d :: d in keys ==> rows[d].createdAt <= rows[c].createdAt
  }

  lemma {:induction false} NewestExists(rows: map<string, Link>, keys: set<string>)
    requires keys <= rows.Keys && keys != {}
    ensures exists c :: IsNewest(rows, keys, c)
    decreases keys
  {
    var x :| x in keys;
    if keys != {x} {
      var rest := keys - {x};
      NewestExists(rows, rest);
      var y :| IsNewest(rows, rest, y);
      if rows[x].createdAt <= rows[y].createdAt {
        assert IsNewest(rows, keys, y);
      } else {
        assert IsNewest(rows, keys, x);
      }
    } else {
      assert IsNewest(rows, keys, x);
    }
  }

  /** Strictly decreasing creation ticks: newest first, no duplicates. */
  predicate NewestFirst(s: seq<Link>) {
    forall i, j :: 0 <= i < j < |s| ==> s[i].createdAt > s[j].createdAt
  }

  /** Two newest-first sequences with the same members start alike. */
  lemma NewestFirstSameHead(s: seq<Link>, u: seq<Link>)
    requires s != [] && u != []
    requires forall x :: x in s <==> x in u
    requires NewestFirst(s) && NewestFirst(u)
    ensures s[0] == u[0]
  {
    assert s[0] in u;
    assert u[0] in s;
    var k :| 0 <= k < |u| && u[k] == s[0];
    var m :| 0 <= m < |s| && s[m] == u[0];
    assert u[0].createdAt <= s[0].createdAt;
    assert k == 0;
  }

  /** ... and then have the same members after the head. */
  lemma NewestFirstSameTail(s: seq<Link>, u: seq<Link>)
    requires s != [] && u != [] && s[0] == u[0]
    requires forall x :: x in s <==> x in u
    requires NewestFirst(s) && NewestFirst(u)
    ensures forall x :: x in s[1..] <==> x in u[1..]
  {
    forall x
      ensures x in s[1..] ==> x in u[1..]
    {
      if x in s[1..] {
        var i :| 1 <= i < |s| && s[i] == x;
        assert x in s;
        var j :| 0 <= j < |u| && u[j] == x;
        assert j != 0;
        assert u[1..][j - 1] == x;
      }
    }
    forall x
      ensures x in u[1..] ==> x in s[1..]
    {
      if x in u[1..] {
        var i :| 1 <= i < |u| && u[i] == x;
        assert x in u;
        var j :| 0 <= j < |s| && s[j] == x;
        assert j != 0;
        assert s[1..][j - 1] == x;
      }
    }
  }

  /** Two newest-first sequences of the same rows are the same sequence, so
      the listing order is fully determined when creation ticks differ. */
  lemma {:induction false} NewestFirstIsUnique(s: seq<Link>, u: seq<Link>)
    requires forall x :: x in s <==> x in u
    requires NewestFirst(s) && NewestFirst(u)
    ensures s == u
    decreases |s|
  {
    assert |u| > 0 ==> u[0] in u;
    if s != [] {
      assert s[0] in u;
      NewestFirstSameHead(s, u);
      NewestFirstSameTail(s, u);
      NewestFirstIsUnique(s[1..], u[1..]);
      assert s == [s[0]] + s[1..];
      assert u == [u[0]] + u[1..];
    }
  }

  /** `s` lists the rows under `keys`, newest first: each row once, and
      nothing else. */
  ghost predicate ListsNewestFirst(rows: map<string, Link>, keys: set<string>, s: seq<Link>)
    requires keys <= rows.Keys
  {
    && |s| == |keys|
    && (forall i :: 0 <= i < |s| ==> s[i].shortCode in keys && rows[s[i].shortCode] == s[i])
    && (forall c :: c in keys ==> rows[c] in s)
    && NewestFirst(s)
  }

  /** Every row listed after the newest one is strictly older. */
  lemma OthersAreOlder(rows: map<string, Link>, keys: set<string>, c: string, rest: seq<Link>)
    requires keys <= rows.Keys && DistinctCreation(rows)
    requires IsNewest(rows, keys, c)
    requires forall i :: 0 <= i < |rest| ==> rest[i].shortCode in keys - {c} && rows[rest[i].shortCode] == rest[i]
    ensures forall i :: 0 <= i < |rest| ==> rest[i].createdAt < rows[c].createdAt
  {
    forall i | 0 <= i < |rest|
      ensures rest[i].createdAt < rows[c].createdAt
    {
      var d := rest[i].shortCode;
      assert rows[d].createdAt <= rows[c].createdAt;
    }
  }

  /** The rows of the prepended listing all come from `keys`. */
  lemma PrependedRowsAreKeyed(rows: map<string, Link>, keys: set<string>, c: string, rest: seq<Link>)
    requires keys <= rows.Keys && KeyedByCode(rows) && c in keys
    requires forall i :: 0 <= i < |rest| ==> rest[i].shortCode in keys - {c} && rows[rest[i].shortCode] == rest[i]
    ensures var s := [rows[c]] + rest;
      forall i :: 0 <= i < |s| ==> s[i].shortCode in keys && rows[s[i].shortCode] == s[i]
  {
    var s := [rows[c]] + rest;
    forall i | 0 <= i < |s|
      ensures s[i].shortCode in keys && rows[s[i].shortCode] == s[i]
    {
      if i > 0 {
        assert s[i] == rest[i - 1];
      }
    }
  }

  /** Every row under `keys` appears in the prepended listing. */
  lemma PrependedCoversKeys(rows: map<string, Link>, keys: set<string>, c: string, rest: seq<Link>)
    requires keys <= rows.Keys && c in keys
    requires forall d :: d in keys - {c} ==> rows[d] in rest
    ensures forall d :: d in keys ==> rows[d] in [rows[c]] + rest
  {
    forall d | d in keys
      ensures rows[d] in [rows[c]] + rest
    {
      if d != c {
        assert rows[d] in rest;
      }
    }
  }

  /** Putting the newest row in front of a listing of the others lists them all. */
  lemma PrependNewest(rows: map<string, Link>, keys: set<string>, c: string, rest: seq<Link>)
    requires keys <= rows.Keys && KeyedByCode(rows) && DistinctCreation(rows)
    requires IsNewest(rows, keys, c)
    requires ListsNewestFirst(rows, keys - {c}, rest)
    ensures ListsNewestFirst(rows, keys, [rows[c]] + rest)
  {
    var s := [rows[c]] + rest;
    assert |keys - {c}| == |keys| - 1;
    OthersAreOlder(rows, keys, c, rest);
    assert NewestFirst(s) by {
      assert forall i :: 0 < i < |s| ==> s[i] == rest[i - 1];
    }
    PrependedRowsAreKeyed(rows, keys, c, rest);
    PrependedCoversKeys(rows, keys, c, rest);
  }

  /** The rows under `keys`, newest first. */
  function ListFrom(rows: map<string, Link>, keys: set<string>): (s: seq<Link>)
    requires keys <= rows.Keys && KeyedByCode(rows) && DistinctCreation(rows)
    ensures ListsNewestFirst(rows, keys, s)
    decreases keys
  {
    if keys == {} then []
    else
      NewestExists(rows, keys);
      var c :| IsNewest(rows, keys, c);
      var rest := ListFrom(rows, keys - {c});
      PrependNewest(rows, keys, c, rest);
      [rows[c]] + rest
  }

  /** `SELECT * FROM links ORDER BY created_at DESC`: every row exactly once,
      newest first. */
  function ListLinks(t: Table): (s: seq<Link>)
    requires Valid(t)
    ensures |s| == |t.rows|
    ensures forall i :: 0 <= i < |s| ==> s[i].shortCode in t.rows && t.rows[s[i].shortCode] == s[i]
    ensures forall c :: c in t.rows ==> t.rows[c] in s
    ensures NewestFirst(s)
  {
    assert |t.rows.Keys| == |t.rows|;
    ListFrom(t.rows, t.rows.Keys)
  }

  /** The contract of ListLinks determines its result: any sequence that
      holds exactly the table's rows, newest first, is the listing. */
  lemma ListingIsDetermined(t: Table, s: seq<Link>)
    requires Valid(t)
    requires forall i :: 0 <= i < |s| ==> s[i].shortCode in t.rows && t.rows[s[i].shortCode] == s[i]
    requires forall c :: c in t.rows ==> t.rows[c] in s
    requires NewestFirst(s)
    ensures s == ListLinks(t)
  {
    var l := ListLinks(t);
    forall x
      ensures x in s <==> x in l
    {
      if x in l {
        var i :| 0 <= i < |l| && l[i] == x;
        assert t.rows[x.shortCode] in s;
      }
      if x in s {
        var i :| 0 <= i < |s| && s[i] == x;
        assert t.rows[x.shortCode] in l;
      }
    }
    NewestFirstIsUnique(s, l);
  }

  // ----- Delete: DELETE /api/links/:code -----

  /** `DELETE FROM links WHERE short_code = $1`; no row deleted is not-found. */
  function DeleteLink(t: Table, code: string): (out: (Response, Table))
    ensures out.0 == Deleted <==> code in t.rows
    ensures out.0 != Deleted ==> out == (NotFound(LINK_NOT_FOUND), t)
    ensures out.1.rows == t.rows - {code}
  {
    if code in t.rows then
      (Deleted, Table(t.rows - {code}, t.nextId, t.clock))
    else
      (NotFound(LINK_NOT_FOUND), t)
  }

  /** Delete removes exactly the row under that code, after which get and
      redirect answer not-found; an unknown code changes nothing. */
  lemma DeleteOutcome(t: Table, code: string)
    ensures var (r, t') := DeleteLink(t, code);
      && (code in t.rows ==>
            && r == Deleted
            && t'.rows.Keys == t.rows.Keys - {code}
            && |t'.rows| == |t.rows| - 1
            && (forall c :: c in t'.rows ==> t'.rows[c] == t.rows[c])
            && GetLink(t', code) == NotFound(LINK_NOT_FOUND)
            && RedirectLink(t', code) == (NotFound(LINK_NOT_FOUND), t'))
      && (code !in t.rows ==> r == NotFound(LINK_NOT_FOUND) && t' == t)
  {
  }

  lemma DeletePreservesValid(t: Table, code: string)
    requires Valid(t)
    ensures Valid(DeleteLink(t, code).1)
  {
  }

  // ----- Redirect: GET /:code -----

  /** One more visit to a row, at time `now`. */
  function Bumped(link: Link, now: nat): (bumped: Link) {
    link.(clickCount := link.clickCount + 1, lastClickedAt := Some(now))
  }

  /** `UPDATE links SET click_count = click_count + 1, last_clicked_at = NOW()
      WHERE id = $1`: every row with that id is bumped. */
  function IncrementClicks(rows: map<string, Link>, id: nat, now: nat): (rows': map<string, Link>)
    ensures rows'.Keys == rows.Keys
  {
    map c | c in rows :: if rows[c].id == id then Bumped(rows[c], now) else rows[c]
  }

  /** Because ids are unique, the update by id touches the found row only. */
  lemma IncrementTouchesOneRow(rows: map<string, Link>, code: string, now: nat)
    requires DistinctIds(rows) && code in rows
    ensures IncrementClicks(rows, rows[code].id, now) == rows[code := Bumped(rows[code], now)]
  {
    var lhs := IncrementClicks(rows, rows[code].id, now);
    var rhs := rows[code := Bumped(rows[code], now)];
    assert lhs.Keys == rhs.Keys;
    forall c | c in lhs
      ensures lhs[c] == rhs[c]
    {
      if c != code {
        assert rows[c].id != rows[code].id;
      }
    }
  }

  /** The redirect route: find by code; if found, count the visit and send
      the visitor to the stored URL. */
  function RedirectLink(t: Table, code: string): (out: (Response, Table))
    ensures out.0.Redirect? <==> code in t.rows
    ensures code !in t.rows ==> out == (NotFound(LINK_NOT_FOUND), t)
    ensures code in t.rows ==> out.0.location == t.rows[code].originalUrl && out.1.rows.Keys == t.rows.Keys
  {
    match Lookup(t, code)
    case None => (NotFound(LINK_NOT_FOUND), t)
    case Some(link) =>
      (Redirect(link.originalUrl), Table(IncrementClicks(t.rows, link.id, t.clock), t.nextId, t.clock + 1))
  }

  /** An unknown code is not-found and counts nothing; a known code redirects
      to its URL, and its click count, alone among the rows, grows by one. */
  lemma RedirectOutcome(t: Table, code: string)
    requires Valid(t)
    ensures var (r, t') := RedirectLink(t, code);
      && (code !in t.rows ==> r == NotFound(LINK_NOT_FOUND) && t' == t)
      && (code in t.rows ==>
            && r == Redirect(t.rows[code].originalUrl)
            && t'.rows.Keys == t.rows.Keys
            && t'.rows[code].clickCount == t.rows[code].clickCount + 1
            && t'.rows[code] == Bumped(t.rows[code], t.clock)
            && (forall c :: c in t.rows && c != code ==> t'.rows[c] == t.rows[c]))
  {
    if code in t.rows {
      IncrementTouchesOneRow(t.rows, code, t.clock);
    }
  }

  lemma RedirectPreservesValid(t: Table, code: string)
    requires Valid(t)
    ensures Valid(RedirectLink(t, code).1)
  {
    if code in t.rows {
      IncrementTouchesOneRow(t.rows, code, t.clock);
    }
  }

  /** The table after `n` visits to `code`. */
  function VisitedTimes(t: Table, code: string, n: nat): (t': Table)
    decreases n
  {
    if n == 0 then t else VisitedTimes(RedirectLink(t, code).1, code, n - 1)
  }

  /** Visits keep the table invariant. */
  lemma {:induction false} VisitsKeepValid(t: Table, code: string, n: nat)
    requires Valid(t)
    ensures Valid(VisitedTimes(t, code, n))
    decreases n
  {
    if n > 0 {
      RedirectPreservesValid(t, code);
      VisitsKeepValid(RedirectLink(t, code).1, code, n - 1);
    }
  }

  /** `n` visits to a known code raise its click count by exactly `n` and
      leave every other row alone; unique ids are all this needs. */
  lemma {:induction false} VisitsAreAllCounted(t: Table, code: string, n: nat)
    requires DistinctIds(t.rows) && code in t.rows
    ensures var t' := VisitedTimes(t, code, n);
      && t'.rows.Keys == t.rows.Keys
      && t'.rows[code].clickCount == t.rows[code].clickCount + n
      && t'.rows[code].originalUrl == t.rows[code].originalUrl
      && (forall c :: c in t.rows && c != code ==> t'.rows[c] == t.rows[c])
    decreases n
  {
    if n > 0 {
      var next := RedirectLink(t, code).1;
      IncrementTouchesOneRow(t.rows, code, t.clock);
      assert next.rows == t.rows[code := Bumped(t.rows[code], t.clock)];
      assert DistinctIds(next.rows) by {
        forall c | c in next.rows
          ensures next.rows[c].id == t.rows[c].id
        {
        }
      }
      VisitsAreAllCounted(next, code, n - 1);
    }
  }

  /** Create with a generated code, visit it, delete it, visit it again. */
  lemma CreateVisitDelete(t: Table, url: string, picks: seq<AlphabetIndex>)
    requires Valid(t) && url != "" && |picks| == CODE_LENGTH
    requires GeneratedCode(picks) !in t.rows
    ensures var (created, t1) := CreateLink(t, Some(url), None, picks);
      && created.Created?
      && var code := created.link.shortCode;
      && |code| == CODE_LENGTH
      && created.link.clickCount == 0
      && var (visited, t2) := RedirectLink(t1, code);
      && visited == Redirect(url)
      && t2.rows[code].clickCount == 1
      && var (deleted, t3) := DeleteLink(t2, code);
      && deleted == Deleted
      && RedirectLink(t3, code).0 == NotFound(LINK_NOT_FOUND)
  {
    var (created, t1) := CreateLink(t, Some(url), None, picks);
    CreateAddsOneRow(t, Some(url), None, picks);
    CreatePreservesValid(t, Some(url), None, picks);
    RedirectOutcome(t1, created.link.shortCode);
  }
}
