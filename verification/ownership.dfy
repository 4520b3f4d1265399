/** `get_owned_games` (itch.py:27-67): the WHERE filter of the ownership
    query, the licence rule, and the update of the owned-games cache. */
module Ownership {
  import opened Wrappers
  import PyDict

  datatype LicenseType = FreeToPlay | SinglePurchase

  /** The columns of a `games` row the plugin reads: `id` (column 0),
      `title` (2), `min_price` (10) and `can_be_bought` (11, stored as 0/1). */
  datatype GameRow = GameRow(id: int, title: string, minPrice: int, canBeBought: int)

  /** One row of `games LEFT JOIN download_keys LEFT JOIN collection_games`
      before the WHERE clause; `None` is SQL NULL from an unmatched join. */
  datatype JoinRow = JoinRow(game: GameRow, downloadKeyId: Option<int>, collectionId: Option<int>)

  /** Galaxy's `Game`; `dlcs` is always `None` and is not carried. */
  datatype Game = Game(gameId: int, title: string, license: LicenseType)

  type OwnedCache = PyDict.Dict<int, Game>

  /** `get_owned_games` returns the updated cache and `list(cache.values())`. */
  datatype Owned = Owned(cache: OwnedCache, games: seq<Game>)

  /** The WHERE clause: a free game in some collection, or a game with a
      download key. */
  predicate Qualifies(j: JoinRow): (b: bool)
    ensures j.downloadKeyId.Some? ==> b
    ensures j.collectionId.Some? && j.game.minPrice == 0 ==> b
    ensures b && j.downloadKeyId.None? ==> j.collectionId.Some? && j.game.minPrice == 0
  {
    (j.collectionId.Some? && j.game.minPrice == 0) || j.downloadKeyId.Some?
  }

  /** `SELECT games.* ... WHERE ...`: the game part of every qualifying join
      row, in order; a game reached by several join rows occurs once per row. */
  function Select(joins: seq<JoinRow>): (rows: seq<GameRow>)
    ensures |rows| <= |joins|
    ensures |rows| == |joins| <==> forall i :: 0 <= i < |joins| ==> Qualifies(joins[i])
  {
    if |joins| == 0 then []
    else (if Qualifies(joins[0]) then [joins[0].game] else []) + Select(joins[1..])
  }

  /** A game row is returned exactly when some qualifying join row carries it. */
  lemma {:induction false} SelectMembership(joins: seq<JoinRow>, row: GameRow)
    ensures row in Select(joins) <==> exists j :: j in joins && Qualifies(j) && j.game == row
    decreases |joins|
  {
    if |joins| > 0 {
      SelectMembership(joins[1..], row);
      assert joins == [joins[0]] + joins[1..];
    }
  }

  /** The ids the query returns. */
  function SelectedIds(joins: seq<JoinRow>): set<int> {
    set j | j in joins && Qualifies(j) :: j.game.id
  }

  function License(row: GameRow): (l: LicenseType)
    ensures row.minPrice <= 0 ==> l == FreeToPlay
    ensures row.canBeBought != 1 ==> l == FreeToPlay
    ensures row.canBeBought == 1 && row.minPrice > 0 ==> l == SinglePurchase
  {
    if row.canBeBought == 1 && row.minPrice > 0 then SinglePurchase else FreeToPlay
  }

  function ToGame(row: GameRow): (g: Game)
    ensures g.gameId == row.id && g.title == row.title
    ensures g.license == License(row)
  {
    Game(row.id, row.title, License(row))
  }

  /** The assignments `cache[id] = Game(...)` the loop performs, in order. */
  function Writes(rows: seq<GameRow>): (kvs: seq<(int, Game)>)
    ensures |kvs| == |rows|
    ensures forall i :: 0 <= i < |rows| ==> kvs[i] == (rows[i].id, ToGame(rows[i]))
  {
    seq(|rows|, i requires 0 <= i < |rows| => (rows[i].id, ToGame(rows[i])))
  }

  /** The last row with the given id, if any. */
  function LastRowWith(rows: seq<GameRow>, id: int): (r: Option<GameRow>)
    ensures r.Some? ==> r.value in rows && r.value.id == id
    ensures r.None? ==> forall row :: row in rows ==> row.id != id
  {
    if |rows| == 0 then None
    else if rows[|rows| - 1].id == id then Some(rows[|rows| - 1])
    else LastRowWith(rows[..|rows| - 1], id)
  }

  /** Every cached game is stored under its own id. */
  ghost predicate KeyedById(c: OwnedCache) {
    forall k :: k in c.entries ==> c.entries[k].gameId == k
  }

  /** The cache the plugin starts with, `{}`, meets the precondition of
      `GetOwnedGames`. */
  lemma FreshOwnedCache()
    ensures PyDict.Valid(PyDict.Empty<int, Game>()) && KeyedById(PyDict.Empty<int, Game>())
  {
  }

  /** The licence rule: a paid purchase exactly when the game can be bought
      and its minimum price is positive. */
  lemma LicenseRule(row: GameRow)
    ensures License(row) == SinglePurchase <==> row.canBeBought == 1 && row.minPrice > 0
    ensures License(row) == FreeToPlay <==> row.canBeBought != 1 || row.minPrice <= 0
  {
  }

  /** Price dominates buyability: a buyable game with minimum price 0 is free. */
  lemma PriceDominates(row: GameRow)
    requires row.canBeBought == 1 && row.minPrice == 0
    ensures License(row) == FreeToPlay
  {
  }

  /** A game owned only through a collection (no download key) is always
      classified free, since the collection path of the filter needs price 0. */
  lemma CollectionOnlyIsFree(j: JoinRow)
    requires Qualifies(j) && j.downloadKeyId.None?
    ensures License(j.game) == FreeToPlay
  {
  }

  lemma {:induction false} LastWriteIsLastRow(rows: seq<GameRow>, id: int)
    ensures PyDict.LastWrite(Writes(rows), id) ==
      match LastRowWith(rows, id)
      case Some(row) => Some(ToGame(row))
      case None => None
    decreases |rows|
  {
    if |rows| > 0 {
      var init := rows[..|rows| - 1];
      assert Writes(rows)[..|rows| - 1] == Writes(init);
      if rows[|rows| - 1].id != id {
        LastWriteIsLastRow(init, id);
      }
    }
  }

  /** The loop of `get_owned_games`: `cache[row.id] = Game(...)` for every
      selected row, in query order. */
  function UpdateOwned(cache: OwnedCache, joins: seq<JoinRow>): (c: OwnedCache)
    requires PyDict.Valid(cache)
    ensures PyDict.Valid(c)
    ensures cache.entries.Keys <= c.entries.Keys
    ensures cache.order <= c.order
  {
    PyDict.PutAllKeys(cache, Writes(Select(joins)));
    PyDict.PutAll(cache, Writes(Select(joins)))
  }

  /** The entry the update is meant to leave for `id`. */
  function EntryAfter(cache: OwnedCache, joins: seq<JoinRow>, id: int): Option<Game> {
    match LastRowWith(Select(joins), id)
    case Some(row) => Some(ToGame(row))
    case None => PyDict.Lookup(cache, id)
  }

  /** The cache entry for `id` after an update: the game built from the last
      query row with that id, or the previous entry when the query returned
      no such row (entries are never deleted). */
  lemma OwnedEntry(cache: OwnedCache, joins: seq<JoinRow>, id: int)
    requires PyDict.Valid(cache)
    ensures PyDict.Lookup(UpdateOwned(cache, joins), id) == EntryAfter(cache, joins, id)
  {
    PyDict.PutAllLookup(cache, Writes(Select(joins)), id);
    LastWriteIsLastRow(Select(joins), id);
  }

  /** When every qualifying join row for `id` carries the same game row (the
      duplicates a game in several collections produces), the cache holds the
      single game built from that row. */
  lemma DuplicatesCollapse(cache: OwnedCache, joins: seq<JoinRow>, row: GameRow)
    requires PyDict.Valid(cache)
    requires exists j :: j in joins && Qualifies(j) && j.game == row
    requires forall j :: j in joins && Qualifies(j) && j.game.id == row.id ==> j.game == row
    ensures PyDict.Lookup(UpdateOwned(cache, joins), row.id) == Some(ToGame(row))
  {
    OwnedEntry(cache, joins, row.id);
    SelectMembership(joins, row);
    var last := LastRowWith(Select(joins), row.id);
    assert last.Some?;
    SelectMembership(joins, last.value);
  }

  lemma {:induction false} KeysOfWrites(rows: seq<GameRow>, joins: seq<JoinRow>)
    requires rows == Select(joins)
    ensures PyDict.KeysOf(Writes(rows)) == SelectedIds(joins)
  {
    forall id | id in PyDict.KeysOf(Writes(rows))
      ensures id in SelectedIds(joins)
    {
      var i :| 0 <= i < |rows| && Writes(rows)[i].0 == id;
      SelectMembership(joins, rows[i]);
    }
    forall id | id in SelectedIds(joins)
      ensures id in PyDict.KeysOf(Writes(rows))
    {
      var j :| j in joins && Qualifies(j) && j.game.id == id;
      SelectMembership(joins, j.game);
      var i :| 0 <= i < |rows| && rows[i] == j.game;
      assert Writes(rows)[i].0 == id;
    }
  }

  /** An update adds exactly the ids the query returned, removes none, and
      keeps every cached id at its place in the listing order. */
  lemma OwnedKeys(cache: OwnedCache, joins: seq<JoinRow>)
    requires PyDict.Valid(cache)
    ensures UpdateOwned(cache, joins).entries.Keys == cache.entries.Keys + SelectedIds(joins)
    ensures cache.order <= UpdateOwned(cache, joins).order
  {
    PyDict.PutAllKeys(cache, Writes(Select(joins)));
    KeysOfWrites(Select(joins), joins);
  }

  /** Updating preserves the invariant that every game sits under its own id. */
  lemma OwnedKeyedById(cache: OwnedCache, joins: seq<JoinRow>)
    requires PyDict.Valid(cache) && KeyedById(cache)
    ensures KeyedById(UpdateOwned(cache, joins))
  {
    var c := UpdateOwned(cache, joins);
    forall k | k in c.entries
      ensures c.entries[k].gameId == k
    {
      OwnedEntry(cache, joins, k);
      var last := LastRowWith(Select(joins), k);
      if last.Some? {
        assert c.entries[k] == ToGame(last.value);
      } else {
        assert c.entries[k] == cache.entries[k];
      }
    }
  }

  /** In a cache keyed by id, the listing names the ids in cache order. */
  lemma ListedIds(c: OwnedCache)
    requires PyDict.Valid(c) && KeyedById(c)
    ensures forall i :: 0 <= i < |c.order| ==> PyDict.Values(c)[i].gameId == c.order[i]
  {
  }

  /** `get_owned_games`: the updated cache and the list of its values, which
      names every id exactly once and holds every game the query selected. */
  function GetOwnedGames(cache: OwnedCache, joins: seq<JoinRow>): (r: Owned)
    requires PyDict.Valid(cache) && KeyedById(cache)
    ensures PyDict.Valid(r.cache) && KeyedById(r.cache)
    ensures r.cache.entries.Keys == cache.entries.Keys + SelectedIds(joins)
    ensures |r.games| == |r.cache.entries|
    ensures forall i, j :: 0 <= i < j < |r.games| ==> r.games[i].gameId != r.games[j].gameId
    ensures forall id :: id in SelectedIds(joins) ==> exists i :: 0 <= i < |r.games| && r.games[i].gameId == id
    ensures r.games == PyDict.Values(r.cache)
    ensures forall id :: PyDict.Lookup(r.cache, id) == EntryAfter(cache, joins, id)
  {
    var c := UpdateOwned(cache, joins);
    OwnedKeys(cache, joins);
    OwnedKeyedById(cache, joins);
    var games := PyDict.Values(c);
    ListedIds(c);
    assert forall id :: id in SelectedIds(joins) ==> exists i :: 0 <= i < |games| && games[i].gameId == id by {
      forall id | id in SelectedIds(joins)
        ensures exists i :: 0 <= i < |games| && games[i].gameId == id
      {
        var i :| 0 <= i < |c.order| && c.order[i] == id;
      }
    }
    assert forall id :: PyDict.Lookup(c, id) == EntryAfter(cache, joins, id) by {
      forall id {
        OwnedEntry(cache, joins, id);
      }
    }
    Owned(c, games)
  }

  /** Every listed game either was cached before or is built from a row the
      query returned. */
  lemma OwnedListProvenance(cache: OwnedCache, joins: seq<JoinRow>, g: Game)
    requires PyDict.Valid(cache)
    requires g in PyDict.Values(UpdateOwned(cache, joins))
    ensures g in cache.entries.Values || exists row :: row in Select(joins) && g == ToGame(row)
  {
    var c := UpdateOwned(cache, joins);
    var i :| 0 <= i < |c.order| && PyDict.Values(c)[i] == g;
    var k := c.order[i];
    OwnedEntry(cache, joins, k);
    var last := LastRowWith(Select(joins), k);
    if last.Some? {
      assert g == ToGame(last.value);
    } else {
      assert PyDict.Lookup(cache, k) == Some(g);
      assert g in cache.entries.Values;
    }
  }
}
