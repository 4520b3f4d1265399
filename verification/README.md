# itch.io library integration for GOG Galaxy — a Dafny model

The plugin (`itch.py`) exposes the games the local itch client knows about to
GOG Galaxy. Around its plumbing (sqlite queries, subprocesses, the Galaxy RPC)
sit three small derivation rules, modelled here as pure functions over
explicit state:

1. **Owned games** (`get_owned_games`). The ownership query keeps a game if it
   is free and in a collection, or if it has a download key. Each selected row
   is classified `SinglePurchase` or `FreeToPlay` and written into the
   id-keyed owned-games cache. Writes overwrite; nothing is deleted. The
   result lists the cache's values.
2. **Installed games** (`__exe_from_json`, `get_local_games`). A cave's verdict
   resolves to `join(basePath, candidates[0].path)`, always from the first
   candidate. A game is recorded under `str(game_id)` only if that path is
   non-empty and exists. A malformed verdict raises out of the scan, and the
   rows before it stay recorded.
3. **Playtime** (`launch_game`, lines 140-159, and its helpers). A session
   adds `int((end - start) / 60)` minutes to the stored total (0 when absent).
   The new total goes under `time<id>` and the end time under `last<id>` in
   the string-to-string persistent cache. Reads give "absent", not 0.

Modules:

- `Wrappers` (`wrappers.dfy`): `Option`, `Result`, and `Somes`, which keeps
  the `Some` values of a sequence.
- `Decimal` (`decimal.dfy`): Python's `str(n)` for integers, and the part of
  `int(s)` that reads it back.
- `PyDict` (`pydict.dfy`): an insertion-ordered dictionary. It is the state of
  both in-memory caches: assignment overwrites in place or appends, and the
  value listing follows insertion order.
- `Ownership` (`ownership.dfy`), `Installation` (`installation.dfy`),
  `Playtime` (`playtime.dfy`): the three rules above.

Each rule is checked against an independent reference definition:

- The caches are checked against a reference "last write wins, else the old
  entry" lookup.
- The scan loop is checked against a batch of assignments over its
  well-formed prefix.
- Stored numbers round-trip through their decimal text.
- A series of sessions is checked against the sum of its minutes.

Three behaviours of the code worth noting, each followed by the model:

- A malformed verdict aborts the whole installation scan. Rows already
  processed stay in the cache. The code has no `try`/`except`, so nothing
  skips the bad row and continues.
- Session minutes truncate toward zero (Python `int()` of a true division),
  not floor. The two differ only when `end < start`.
- A game counts as buyable only when its `can_be_bought` column equals 1.

## Model

| member | source | states |
|---|---|---|
| Ownership.Qualifies | itch.py:40-41 | A join row qualifies exactly when it has a download key, or a collection id together with price 0 (both directions). |
| Ownership.Select | itch.py:35-43 | The query gives at most one game row per join row, and one per join row exactly when every join row qualifies. |
| Ownership.ToGame | itch.py:54-61 | The cached game carries the row's id and title and the licence the rule computes for that row. |
| Ownership.License | itch.py:50-58 | A price of 0 or less, or `can_be_bought` other than 1, gives FreeToPlay. A buyable game with a positive price gives SinglePurchase. |
| Ownership.UpdateOwned | itch.py:47-61 | Updating keeps the cache a valid dict and never removes an id or reorders the ids already there. |
| Ownership.FreshOwnedCache | itch.py:206 | The empty owned-games cache is valid and keyed by game id, so the first `get_owned_games` may run on it. |
| Ownership.SelectMembership | itch.py:35-43 | A game row is in the query result exactly when some join row carrying it has a collection id and price 0, or has a download key. |
| Ownership.LicenseRule | itch.py:50-58 | The licence is SinglePurchase iff `can_be_bought` is 1 and `min_price > 0`; otherwise FreeToPlay (both directions). |
| Ownership.PriceDominates | itch.py:50-58 | A buyable game whose minimum price is 0 is FreeToPlay. |
| Ownership.CollectionOnlyIsFree | itch.py:38-58 | A row selected only through a collection (no download key) is always FreeToPlay, since that branch of the filter demands price 0. |
| Ownership.OwnedEntry | itch.py:47-61 | After an update, the entry for an id is the game built from the last selected row with that id; ids not selected keep their previous entry, or stay absent. |
| Ownership.DuplicatesCollapse | itch.py:43-61 | When several join rows carry the same game row, the cache holds exactly the one game built from it. |
| Ownership.OwnedKeys | itch.py:60-61 | An update adds exactly the selected ids, removes none, and keeps every cached id at its place in the listing order. |
| Ownership.OwnedKeyedById | itch.py:60-61 | Every cached game stays stored under its own id. |
| Ownership.ListedIds | itch.py:67 | In a cache keyed by id, the returned list names the ids in the cache's order. |
| Ownership.GetOwnedGames | itch.py:47-67 | The returned list is the cache's values in insertion order: one game per cached id, never two games with one id, and every selected id included. Cached ids are the old ids plus the selected ids. Each id's entry is the game built from its last selected row, or the old entry when no row selects it. |
| Ownership.OwnedListProvenance | itch.py:60-67 | Every listed game was cached before or is built from a row the query returned. |
| Installation.Join | itch.py:129 | The joined path ends with the candidate path, starts with the base path unless the candidate is absolute, and is empty only when both are. |
| Installation.ExeFromVerdict | itch.py:122-129 | Null or empty candidates give no path; a path exists iff the list is non-empty and both keys are present, and it is base joined with the first candidate; invalid JSON and missing keys raise. |
| Installation.FirstCandidateOnly | itch.py:126-129 | Two verdicts that agree on the first candidate resolve alike, whatever candidates follow. |
| Installation.FirstCandidateLimitation | itch.py:108-129 | With candidates `a` then `b`, where only `join(base, "b")` exists, the game is not recorded. |
| Installation.Entry | itch.py:108-117 | A row yields a cache entry iff its resolved path is non-empty and exists. The entry is keyed by `str(game_id)` and is the installed game with that id and exactly that path. |
| Installation.ScanRow | itch.py:104-118 | One iteration raises iff the verdict is malformed; a skipped row leaves the cache unchanged; an installed row assigns exactly its entry. |
| Installation.Scan | itch.py:104-118 | The scan loop never removes a cached key. |
| Installation.WellFormedPrefix | itch.py:104-108 | Counts the leading rows whose verdict resolves; the row right after them, if any, is malformed. |
| Installation.ScanReference | itch.py:104-118 | The scanned cache is the batch of installed-row assignments over the well-formed prefix; the first malformed row's error is raised, otherwise none. |
| Installation.LocalEntryProvenance | itch.py:104-120 | After a scan every entry is either the old entry or the installed game of a scanned row, under `str(game_id)`, with a non-empty existing path. |
| Installation.LocalInstalledPresent | itch.py:110-117 | When the scan completes, every row whose resolved path is non-empty and exists has an entry under `str(game_id)`. |
| Installation.LocalListDistinct | itch.py:113-120 | The cache stays keyed by `str(game_id)`, so the returned list names each game id once. |
| Installation.GetLocalGames | itch.py:96-120 | `get_local_games` raises iff some verdict is malformed, and it never removes a key. The cache it leaves is the old cache with the entries of the rows before the first malformed one assigned in order. On success it returns the cache's values in insertion order. |
| Decimal.NatToString | itch.py:156-158 | Decimal digits without leading zeros whose value is the number written. |
| Installation.Key | itch.py:113 | The key `str(game_id)` reads back as the game id. |
| Installation.FreshLocalCache | itch.py:207 | The empty local-games cache is valid and keyed by `str(game_id)`. |
| Decimal.ParseInt | itch.py:170-176 | Text reads as a number exactly when it is one or more ASCII digits, optionally after a '-'. Digits read as their decimal value, and '-' followed by digits reads as the negated value. Any other text is rejected by this reader. |
| Decimal.IntToString | itch.py:156-176 | A number stored with `str` is read back by `int` as the same number. |
| Decimal.IntToStringInjective | itch.py:113 | Distinct game ids give distinct `str(game_id)` keys. |
| PyDict.Empty | itch.py:206-207 | A fresh cache is valid and holds no key. |
| PyDict.Put | itch.py:60-61 | Assignment sets the key, leaves every other key as it was, adds only that key, and keeps existing keys in place. |
| PyDict.PutAllLookup | itch.py:47-61 | After a batch of assignments each key holds its last written value, or its old value if it was never assigned. |
| PyDict.PutAllKeys | itch.py:47-61 | A batch of assignments adds exactly the assigned keys and removes none. |
| PyDict.Values | itch.py:67 | The value listing has one element per key, in insertion order. |
| PyDict.ValuesMembership | itch.py:120 | A value is listed exactly when some key holds it. |
| Playtime.KeysNeverCollide | itch.py:178-184 | A `time<a>` key never equals a `last<b>` key. |
| Playtime.TimePlayedKey | itch.py:178-180 | The play-time key is "time" followed by the game id. |
| Playtime.LastPlayedTimeKey | itch.py:182-184 | The last-played key is "last" followed by the game id. |
| Playtime.GetTimePlayed | itch.py:168-171 | The play time reads as None exactly when its key is absent. It raises, naming that key, exactly when the stored text is not a number. A stored number reads as its value. |
| Playtime.GetLastPlayedTime | itch.py:173-176 | The last-played time reads as None exactly when its key is absent. It raises, naming that key, exactly when the stored text is not a number. A stored number reads as its value. |
| Playtime.KeysInjective | itch.py:178-184 | Each key family determines the game id. |
| Playtime.ReadInt | itch.py:168-176 | An absent key reads as None, not 0; a stored non-number raises; a stored number reads as its value. |
| Playtime.SessionMinutes | itch.py:147 | Session minutes are the whole minutes of the duration, truncated toward zero in both signs. |
| Playtime.SessionExamples | itch.py:147 | 90 s gives 1 minute, 59 s gives 0, and -90 s gives -1. |
| Playtime.Store | itch.py:155-158 | After the two writes, both read back as written, only the two keys are added, and every other key keeps its value. |
| Playtime.RecordSession | itch.py:140-158 | New total = stored total (0 if absent) + session minutes, stored under `time<id>` with `end` under `last<id>`; never below the old total when `end >= start`; a malformed stored total raises before any write. |
| Playtime.OtherGamesUnaffected | itch.py:155-184 | A session of one game leaves both readings of every other game unchanged. |
| Playtime.NeverPlayedIsUnknown | itch.py:168-176 | A game never launched reads as unknown, distinct from zero minutes. |
| Playtime.SessionsAccumulate | itch.py:147-158 | Over a series of launches the stored total is the starting total plus the sum of the session minutes. |
| Playtime.TotalNeverDecreases | itch.py:147-149 | Sessions that do not run backwards add a non-negative number of minutes. |

## Left out

- sqlite connections and query execution (itch.py:28-45, 72-86, 97-103, 132-137). Query results are input sequences: the ownership query's rows before its WHERE clause, and the caves rows. `get_user_data`, `authenticate` and `pass_login_credentials` only run a query and wrap its row.
- The LEFT JOIN itself is not modelled. The input to `Ownership.Select` is its output. A NULL `min_price` is not modelled either, because the column is an integer that is never NULL in the client's schema.
- JSON parsing. A verdict is a parsed datatype. Text that is not valid JSON is an `Option.None` verdict. Other JSON shapes are not modelled: a list where an object is expected, or a non-string path.
- `Installation.Join` models `os.path.join` as POSIX `posixpath.join` for two arguments. The Windows drive and backslash rules of `ntpath.join` are left out. `os.path.exists` is the `fileExists` parameter.
- Process launch and wall-clock time in `launch_game` (lines 132-145). `start` and `end` are integer inputs. The verdict query and exe resolution that precede the launch are left out too.
- Playtime.SessionMinutes: it is exact integer truncation. Python divides in floating point first, so for durations of about 1.7·10^16 seconds (near 2^54) and beyond, rounding could differ.
- Decimal.ParseInt: same restriction as the next line; whitespace, '+', underscores and non-ASCII digits, which Python's `int()` accepts, are rejected here.
- Decimal.IntToString: the reader accepts only an optional '-' and ASCII digits. Python's `int()` also accepts surrounding whitespace, a leading '+', underscores between digits and non-ASCII digits. Such stored texts read as malformed here.
- Galaxy API plumbing:
  - `update_game_time` and `push_cache`. The model returns the `GameTime` and the new cache instead.
  - `get_os_compatibility`, a constant.
  - `get_game_time`, which always reports None/None.
  - `ItchLocalGame.toGalaxyLocalGame`, which drops the path.
  - The `dlcs=None` field of `Game`.
- `install_game` and `uninstall_game`, which only open an `itch://games/<id>` URI. Also logging, `main`, and the platform-dependent database path.
- Concurrency. The caches and the persistent map are mutated by one coroutine at a time, so every operation is a function from old state to new state.
