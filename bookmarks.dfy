/** The bookmark table and the bookmark request handlers.

    The table is an in-memory sequence of rows in insertion order; the store
    numbers rows from 1, so id 0 marks a bookmark that is not saved yet. The
    current user is the identity the caller was authenticated as, and URL
    validity is the library predicate `validUrl`, both given as inputs. */
module Bookmarks {
  import opened Common
  import opened ShortCode

  /** One row of the bookmark table. */
  datatype Bookmark = Bookmark(
    id: nat,
    url: string,
    body: Option<string>,
    shortUrl: string,
    visits: nat,
    userId: nat)

  /** The id of a bookmark that has not been saved. */
  const Unsaved: nat := 0

  /** One entry of the statistics response. */
  datatype StatEntry = StatEntry(visits: nat, url: string, id: nat, shortUrl: string)

  function StatOf(b: Bookmark): (e: StatEntry) {
    StatEntry(b.visits, b.url, b.id, b.shortUrl)
  }

  /** Some row has this URL, whoever owns it. */
  predicate UrlStored(rows: seq<Bookmark>, url: string) {
    exists i :: 0 <= i < |rows| && rows[i].url == url
  }

  /** Some row has this id and belongs to this user. */
  predicate Owns(rows: seq<Bookmark>, id: nat, user: nat) {
    exists i :: 0 <= i < |rows| && rows[i].id == id && rows[i].userId == user
  }

  /** The short codes of the given rows. */
  function CodesOf(rows: seq<Bookmark>): (codes: set<string>)
    ensures forall i :: 0 <= i < |rows| ==> rows[i].shortUrl in codes
    ensures forall c :: c in codes ==> exists i :: 0 <= i < |rows| && rows[i].shortUrl == c
  {
    set i | 0 <= i < |rows| :: rows[i].shortUrl
  }

  /** `BookMark(url=..., body=..., user_id=...)`: the keyword arguments are
      stored, the visit counter takes its column default 0, and the short code
      is overwritten with the allocator's result whether or not one was
      passed. None when the allocator does not finish within `draws`. */
  function Construct(url: string, body: Option<string>, userId: nat, passedShortUrl: Option<string>,
                     existing: set<string>, draws: seq<Draw>): (r: Option<Bookmark>)
    ensures r.Some? <==> exists k :: 0 <= k < |draws| && Candidate(draws[k]) !in existing
    ensures r.Some? ==> r.value.shortUrl == Generate(existing, draws).code
    ensures r.Some? ==> IsCode(r.value.shortUrl) && r.value.shortUrl !in existing
    ensures r.Some? ==> r.value.url == url && r.value.body == body && r.value.userId == userId
    ensures r.Some? ==> r.value.visits == 0 && r.value.id == Unsaved
  {
    match Generate(existing, draws)
    case Code(c) => Some(Bookmark(Unsaved, url, body, c, 0, userId))
    case _ => None
  }

  /** The rows that belong to `user`, in table order: the filter of the
      list and statistics handlers. */
  function Owned(rows: seq<Bookmark>, user: nat): (r: seq<Bookmark>)
    ensures |r| <= |rows|
    ensures forall k :: 0 <= k < |r| ==> r[k].userId == user && r[k] in rows
  {
    if rows == [] then []
    else
      var last := rows[|rows| - 1];
      var before := Owned(rows[..|rows| - 1], user);
      if last.userId == user then before + [last] else before
  }

  /** Every row of `user` is in the filter, and only those rows are. */
  lemma {:induction false} OwnedExactly(rows: seq<Bookmark>, user: nat, b: Bookmark)
    ensures b in Owned(rows, user) <==> b in rows && b.userId == user
  {
    if rows != [] {
      var init := rows[..|rows| - 1];
      OwnedExactly(init, user, b);
      assert rows == init + [rows[|rows| - 1]];
    }
  }

  /** The filter keeps one entry per owned row: its length is the number of
      rows of `user`. */
  lemma {:induction false} OwnedCount(rows: seq<Bookmark>, user: nat)
    ensures |Owned(rows, user)| == |set i | 0 <= i < |rows| && rows[i].userId == user|
  {
    var s := set i | 0 <= i < |rows| && rows[i].userId == user;
    if rows != [] {
      var n := |rows| - 1;
      var init := rows[..n];
      var t := set i | 0 <= i < n && init[i].userId == user;
      OwnedCount(init, user);
      if rows[n].userId == user {
        assert s == t + {n};
      } else {
        assert s == t;
      }
    } else {
      assert s == {};
    }
  }

  /** Every id lies in [1, bound) and ids increase along the table. */
  ghost predicate IdsWellFormed(rows: seq<Bookmark>, bound: nat) {
    (forall i :: 0 <= i < |rows| ==> 1 <= rows[i].id < bound) &&
    (forall i, j :: 0 <= i < j < |rows| ==> rows[i].id < rows[j].id)
  }

  /** No two rows share a short code. The column has no uniqueness
      constraint: only the allocator's check keeps this. */
  ghost predicate DistinctCodes(rows: seq<Bookmark>) {
    forall i, j :: 0 <= i < j < |rows| ==> rows[i].shortUrl != rows[j].shortUrl
  }

  /** Removing the row at position i keeps every other row, in order, and
      keeps the ids well formed and the codes distinct. */
  lemma RemoveAt(rows: seq<Bookmark>, i: nat, bound: nat)
    requires i < |rows|
    ensures var rest := rows[..i] + rows[i + 1..];
      forall k :: 0 <= k < |rest| ==> rest[k] == rows[if k < i then k else k + 1]
    ensures IdsWellFormed(rows, bound) ==> IdsWellFormed(rows[..i] + rows[i + 1..], bound)
    ensures DistinctCodes(rows) ==> DistinctCodes(rows[..i] + rows[i + 1..])
    ensures IdsWellFormed(rows, bound) ==>
      forall b :: b in rows[..i] + rows[i + 1..] <==> b in rows && b.id != rows[i].id
  {
  }

  class BookmarkTable {
    var rows: seq<Bookmark>
    var nextId: nat

    /** Ids lie below the store's id counter, which starts at 1, and increase
        in insertion order. */
    ghost predicate Valid()
      reads this
    {
      1 <= nextId && IdsWellFormed(rows, nextId)
    }

    constructor ()
      ensures Valid() && DistinctCodes(rows)
      ensures rows == [] && nextId == 1
    {
      rows := [];
      nextId := 1;
    }

    /** `save()`: the store assigns the next id and appends the row. */
    method Save(b: Bookmark) returns (saved: Bookmark)
      requires Valid()
      modifies this
      ensures Valid()
      ensures saved == b.(id := old(nextId))
      ensures rows == old(rows) + [saved] && nextId == old(nextId) + 1
    {
      saved := b.(id := nextId);
      rows := rows + [saved];
      nextId := nextId + 1;
    }

    /** POST: validate the URL, refuse a URL any user already stored, build
        the bookmark with a fresh short code, and save it. */
    method Create(currentUser: nat, url: string, body: Option<string>,
                  validUrl: string -> bool, draws: seq<Draw>)
      returns (status: Status, created: Option<Bookmark>)
      requires Valid()
      modifies this
      ensures Valid()
      ensures !validUrl(url) ==> status == BadRequest400 && unchanged(this)
      ensures validUrl(url) && UrlStored(old(rows), url) ==> status == Conflict409 && unchanged(this)
      ensures status == Created201 <==>
        validUrl(url) && !UrlStored(old(rows), url) && Generate(CodesOf(old(rows)), draws).Code?
      ensures status == NoResponse <==>
        validUrl(url) && !UrlStored(old(rows), url) && Generate(CodesOf(old(rows)), draws).OutOfDraws?
      ensures status != Created201 ==> created == None && unchanged(this)
      ensures status == Created201 ==>
        created == Some(Bookmark(old(nextId), url, body, Generate(CodesOf(old(rows)), draws).code, 0, currentUser)) &&
        rows == old(rows) + [created.value] && nextId == old(nextId) + 1
      ensures status == Created201 ==> created.value.shortUrl !in CodesOf(old(rows))
      ensures DistinctCodes(old(rows)) ==> DistinctCodes(rows)
    {
      if !validUrl(url) {
        return BadRequest400, None;
      }
      if FirstWhere(rows, (b: Bookmark) => b.url == url).Some? {
        return Conflict409, None;
      }
      var built := Construct(url, body, currentUser, None, CodesOf(rows), draws);
      if built.None? {
        return NoResponse, None;
      }
      var saved := Save(built.value);
      status, created := Created201, Some(saved);
      assert forall i :: 0 <= i < |old(rows)| ==> old(rows)[i].shortUrl in CodesOf(old(rows));
    }

    /** GET without an id: every bookmark of the current user, in table order. */
    method List(currentUser: nat) returns (data: seq<Bookmark>)
      ensures data == Owned(rows, currentUser)
      ensures forall b :: b in data <==> b in rows && b.userId == currentUser
    {
      data := [];
      for i := 0 to |rows|
        invariant data == Owned(rows[..i], currentUser)
      {
        assert rows[..i + 1][..i] == rows[..i];
        if rows[i].userId == currentUser {
          data := data + [rows[i]];
        }
      }
      assert rows[..|rows|] == rows;
      forall b ensures b in data <==> b in rows && b.userId == currentUser {
        OwnedExactly(rows, currentUser, b);
      }
    }

    /** GET with an id: the row with that id if the current user owns it. */
    method GetOne(id: nat, currentUser: nat) returns (status: Status, found: Option<Bookmark>)
      ensures status == Ok200 || status == NotFound404
      ensures status == NotFound404 <==> !Owns(rows, id, currentUser)
      ensures found.Some? <==> status == Ok200
      ensures found.Some? ==> found.value in rows && found.value.id == id && found.value.userId == currentUser
    {
      match FirstWhere(rows, (b: Bookmark) => b.userId == currentUser && b.id == id)
      case None =>
        status, found := NotFound404, None;
      case Some(i) =>
        status, found := Ok200, Some(rows[i]);
    }

    /** PUT/PATCH: look the row up among the current user's, then validate
        the URL, then replace its body and URL in place. */
    method Update(id: nat, currentUser: nat, url: string, body: Option<string>, validUrl: string -> bool)
      returns (status: Status, updated: Option<Bookmark>)
      requires Valid()
      modifies this
      ensures Valid() && nextId == old(nextId)
      ensures !Owns(old(rows), id, currentUser) ==> status == NotFound404 && updated == None && unchanged(this)
      ensures Owns(old(rows), id, currentUser) && !validUrl(url) ==>
        status == BadRequest400 && updated == None && unchanged(this)
      ensures Owns(old(rows), id, currentUser) && validUrl(url) ==> status == Ok200
      ensures status == Ok200 ==>
        |rows| == |old(rows)| &&
        forall k :: 0 <= k < |rows| ==>
          rows[k] == if old(rows)[k].id == id then old(rows)[k].(url := url, body := body) else old(rows)[k]
      ensures status == Ok200 ==>
        updated.Some? && updated.value in rows && updated.value.id == id &&
        updated.value.userId == currentUser && updated.value.url == url && updated.value.body == body
      ensures DistinctCodes(old(rows)) ==> DistinctCodes(rows)
    {
      match FirstWhere(rows, (b: Bookmark) => b.userId == currentUser && b.id == id)
      case None =>
        return NotFound404, None;
      case Some(i) =>
        if !validUrl(url) {
          return BadRequest400, None;
        }
        var changed := rows[i].(url := url, body := body);
        rows := rows[i := changed];
        status, updated := Ok200, Some(changed);
    }

    /** DELETE: remove the row with that id if the current user owns it. */
    method Delete(id: nat, currentUser: nat) returns (status: Status)
      requires Valid()
      modifies this
      ensures Valid() && nextId == old(nextId)
      ensures !Owns(old(rows), id, currentUser) ==> status == NotFound404 && unchanged(this)
      ensures Owns(old(rows), id, currentUser) ==>
        status == NoContent204 &&
        exists i :: 0 <= i < |old(rows)| && old(rows)[i].id == id && old(rows)[i].userId == currentUser &&
                    rows == old(rows)[..i] + old(rows)[i + 1..]
      ensures status == NoContent204 ==> forall b :: b in rows <==> b in old(rows) && b.id != id
      ensures DistinctCodes(old(rows)) ==> DistinctCodes(rows)
    {
      match FirstWhere(rows, (b: Bookmark) => b.userId == currentUser && b.id == id)
      case None =>
        return NotFound404;
      case Some(i) =>
        RemoveAt(rows, i, nextId);
        rows := rows[..i] + rows[i + 1..];
        status := NoContent204;
    }

    /** GET stats: visits, URL, id and short code of each of the current
        user's bookmarks, in table order. */
    method Stats(currentUser: nat) returns (data: seq<StatEntry>)
      ensures |data| == |Owned(rows, currentUser)|
      ensures forall k :: 0 <= k < |data| ==> data[k] == StatOf(Owned(rows, currentUser)[k])
      ensures forall b :: b in rows && b.userId == currentUser ==> StatOf(b) in data
    {
      data := [];
      for i := 0 to |rows|
        invariant |data| == |Owned(rows[..i], currentUser)|
        invariant forall k :: 0 <= k < |data| ==> data[k] == StatOf(Owned(rows[..i], currentUser)[k])
      {
        assert rows[..i + 1][..i] == rows[..i];
        if rows[i].userId == currentUser {
          data := data + [StatOf(rows[i])];
        }
      }
      assert rows[..|rows|] == rows;
      forall b | b in rows && b.userId == currentUser ensures StatOf(b) in data {
        OwnedExactly(rows, currentUser, b);
        var k :| 0 <= k < |Owned(rows, currentUser)| && Owned(rows, currentUser)[k] == b;
        assert data[k] == StatOf(b);
      }
    }
  }
}
