/** The server's handlers as methods on the `links` table they share. The
    table is a map from short code to row that the handlers update in place;
    each handler is proved to do what the matching route of module Links
    says, so the lemmas proved there hold of the handlers too. */
module Store {
  import opened ShortCodes
  import opened Links

  class LinkStore {
    var rows: map<string, Link>
    var nextId: nat
    var clock: nat

    /** The table this store currently holds. */
    function Snapshot(): (t: Table)
      reads this
    {
      Table(rows, nextId, clock)
    }

    ghost predicate Valid()
      reads this
    {
      Links.Valid(Snapshot())
    }

    /** An empty table. */
    constructor ()
      ensures Valid()
      ensures Snapshot() == EMPTY_TABLE
    {
      rows := map[];
      nextId := 0;
      clock := 0;
    }

    /** POST /api/links with body fields `url` and `shortCode`; `picks` are
        the six random draws the generator would make. */
    method Create(url: Option<string>, shortCode: Option<string>, picks: seq<AlphabetIndex>) returns (r: Response)
      requires Valid() && |picks| == CODE_LENGTH
      modifies this
      ensures Valid()
      ensures (r, Snapshot()) == CreateLink(old(Snapshot()), url, shortCode, picks)
      ensures r.Created? ==> rows == old(rows)[r.link.shortCode := r.link] && r.link.shortCode !in old(rows)
      ensures !r.Created? ==> rows == old(rows)
    {
      ghost var before := Snapshot();
      if !IsPresent(url) {
        return BadRequest(URL_REQUIRED);
      }
      var code: string;
      if IsPresent(shortCode) {
        if !IsValidCustomCode(shortCode.value) {
          return BadRequest(INVALID_CODE);
        }
        code := shortCode.value;
      } else {
        code := GenerateShortCode(picks);
      }
      assert code == ChosenCode(shortCode, picks);
      if code in rows {
        return Conflict(CODE_EXISTS);
      }
      var link := Link(nextId, url.value, code, 0, clock, None);
      rows := rows[code := link];
      nextId := nextId + 1;
      clock := clock + 1;
      r := Created(link);
      assert code !in before.rows && link == Link(before.nextId, url.value, code, 0, before.clock, None);
      assert (r, Snapshot()) == Insert(before, url.value, code);
      InsertPreservesValid(before, url.value, code);
    }

    /** GET /api/links: every row, newest first. */
    function List(): (r: Response)
      reads this
      requires Valid()
      ensures r.Listed? && |r.links| == |rows|
      ensures forall c :: c in rows ==> rows[c] in r.links
      ensures forall i, j :: 0 <= i < j < |r.links| ==> r.links[i].createdAt > r.links[j].createdAt
    {
      Listed(ListLinks(Snapshot()))
    }

    /** GET /api/links/:code. */
    function Get(code: string): (r: Response)
      reads this
      ensures r.Found? || r == NotFound(LINK_NOT_FOUND)
      ensures r.Found? <==> code in rows
      ensures r.Found? ==> r.link == rows[code]
    {
      GetLink(Snapshot(), code)
    }

    /** DELETE /api/links/:code. */
    method Delete(code: string) returns (r: Response)
      requires Valid()
      modifies this
      ensures Valid()
      ensures (r, Snapshot()) == DeleteLink(old(Snapshot()), code)
      ensures r == Deleted <==> code in old(rows)
      ensures rows == old(rows) - {code}
      ensures Get(code) == NotFound(LINK_NOT_FOUND)
    {
      DeletePreservesValid(Snapshot(), code);
      if code !in rows {
        return NotFound(LINK_NOT_FOUND);
      }
      rows := rows - {code};
      r := Deleted;
    }

    /** GET /:code: look the code up; if found, count the visit and redirect. */
    method Redirect(code: string) returns (r: Response)
      requires Valid()
      modifies this
      ensures Valid()
      ensures (r, Snapshot()) == RedirectLink(old(Snapshot()), code)
      ensures code !in old(rows) ==> r == NotFound(LINK_NOT_FOUND) && rows == old(rows)
      ensures code in old(rows) ==>
        && r == Links.Redirect(old(rows)[code].originalUrl)
        && rows == old(rows)[code := Bumped(old(rows)[code], old(clock))]
    {
      RedirectPreservesValid(Snapshot(), code);
      RedirectOutcome(Snapshot(), code);
      if code in rows {
        IncrementTouchesOneRow(rows, code, clock);
      }
      var found := Lookup(Snapshot(), code);
      if found.None? {
        return NotFound(LINK_NOT_FOUND);
      }
      var link := found.value;
      rows := IncrementClicks(rows, link.id, clock);
      clock := clock + 1;
      r := Links.Redirect(link.originalUrl);
    }
  }
}
