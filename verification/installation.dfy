/** `__exe_from_json` and `get_local_games` (itch.py:96-129): resolving a
    cave's verdict to an executable path, and the existence-gated update of
    the local-games cache. */
module Installation {
  import opened Wrappers
  import Decimal
  import PyDict

  /** One entry of the verdict's `candidates` list; `path` is `None` when
      the entry has no "path" key. */
  datatype Candidate = Candidate(path: Option<string>)

  /** The verdict's "candidates" member: absent, JSON null, or a list. */
  datatype Candidates = Missing | Null | Listed(items: seq<Candidate>)

  /** A parsed verdict; `basePath` is `None` when the "basePath" key is absent. */
  datatype Verdict = Verdict(basePath: Option<string>, candidates: Candidates)

  /** A row of `SELECT game_id, verdict FROM caves`; `verdict` is `None` when
      its text is not valid JSON. */
  datatype CaveRow = CaveRow(gameId: int, verdict: Option<Verdict>)

  /** The exceptions `json.loads` and the dictionary lookups raise. */
  datatype ScanError = MalformedJson | MissingKey(name: string)

  datatype LocalGameState = Installed

  /** `ItchLocalGame`: Galaxy's local game plus the resolved executable. */
  datatype LocalGame = LocalGame(gameId: int, path: string, state: LocalGameState)

  type LocalCache = PyDict.Dict<string, LocalGame>

  /** Outcome of the scan loop: the cache as far as the loop got, and the
      exception that stopped it, if any. */
  datatype Scanned = Scanned(cache: LocalCache, error: Option<ScanError>)

  /** What `get_local_games` leaves behind: the cache, and either the list
      it returns or the exception it raises. */
  datatype LocalGames = LocalGames(cache: LocalCache, games: Result<seq<LocalGame>, ScanError>)

  const Sep: char := '/'

  /** `os.path.join(base, path)` for two arguments, as on POSIX: an absolute
      `path` replaces `base`; otherwise one separator is put between them
      unless `base` is empty or already ends in one. */
  function Join(base: string, path: string): (r: string)
    ensures |path| <= |r| && r[|r| - |path|..] == path
    ensures !(|path| > 0 && path[0] == Sep) ==> base <= r
    ensures r == "" <==> base == "" && path == ""
  {
    if |path| > 0 && path[0] == Sep then path
    else if base == "" || base[|base| - 1] == Sep then base + path
    else base + [Sep] + path
  }

  /** `__exe_from_json`: no path for a null or empty candidate list,
      otherwise `basePath` joined with the FIRST candidate's path. */
  function ExeFromVerdict(v: Option<Verdict>): (r: Result<Option<string>, ScanError>)
    ensures r == Success(None) <==>
      v.Some? && (v.value.candidates.Null? || (v.value.candidates.Listed? && |v.value.candidates.items| == 0))
    ensures r.Success? && r.value.Some? <==>
      && v.Some? && v.value.candidates.Listed? && |v.value.candidates.items| > 0
      && v.value.basePath.Some? && v.value.candidates.items[0].path.Some?
    ensures r.Success? && r.value.Some? ==>
      r.value.value == Join(v.value.basePath.value, v.value.candidates.items[0].path.value)
  {
    match v
    case None => Failure(MalformedJson)
    case Some(verdict) =>
      match verdict.candidates
      case Missing => Failure(MissingKey("candidates"))
      case Null => Success(None)
      case Listed(items) =>
        if |items| == 0 then Success(None)
        else if verdict.basePath.None? then Failure(MissingKey("basePath"))
        else if items[0].path.None? then Failure(MissingKey("path"))
        else Success(Some(Join(verdict.basePath.value, items[0].path.value)))
  }

  /** The cache key of a game: `str(game_id)`. */
  function Key(gameId: int): (k: string)
    ensures Decimal.ParseInt(k) == Some(gameId)
  {
    Decimal.IntToString(gameId)
  }

  /** The cache assignment a well-formed row causes: present only when the
      resolved path is non-empty and exists. */
  function Entry(row: CaveRow, fileExists: string -> bool): (e: Option<(string, LocalGame)>)
    ensures e.Some? ==> e.value.0 == Key(row.gameId) && e.value.1.gameId == row.gameId
    ensures e.Some? ==> e.value.1.path != "" && fileExists(e.value.1.path)
    ensures e.Some? <==>
      var exe := ExeFromVerdict(row.verdict);
      exe.Success? && exe.value.Some? && exe.value.value != "" && fileExists(exe.value.value)
    ensures e.Some? ==> e.value.1 == LocalGame(row.gameId, ExeFromVerdict(row.verdict).value.value, Installed)
  {
    match ExeFromVerdict(row.verdict)
    case Success(Some(p)) =>
      if p == "" || !fileExists(p) then None
      else Some((Key(row.gameId), LocalGame(row.gameId, p, Installed)))
    case _ => None
  }

  /** One iteration of the loop in `get_local_games`. */
  function ScanRow(cache: LocalCache, row: CaveRow, fileExists: string -> bool): (r: Result<LocalCache, ScanError>)
    requires PyDict.Valid(cache)
    ensures r.Success? <==> ExeFromVerdict(row.verdict).Success?
    ensures r.Success? ==> PyDict.Valid(r.value)
    ensures r.Success? && Entry(row, fileExists).None? ==> r.value == cache
    ensures r.Success? && Entry(row, fileExists).Some? ==>
      r.value == PyDict.Put(cache, Entry(row, fileExists).value.0, Entry(row, fileExists).value.1)
  {
    match ExeFromVerdict(row.verdict)
    case Failure(e) => Failure(e)
    case Success(None) => Success(cache)
    case Success(Some(p)) =>
      if p == "" || !fileExists(p) then Success(cache)
      else Success(PyDict.Put(cache, Key(row.gameId), LocalGame(row.gameId, p, Installed)))
  }

  /** The loop of `get_local_games`: rows in order until one raises. */
  function Scan(cache: LocalCache, rows: seq<CaveRow>, fileExists: string -> bool): (r: Scanned)
    requires PyDict.Valid(cache)
    ensures PyDict.Valid(r.cache)
    ensures cache.entries.Keys <= r.cache.entries.Keys
    decreases |rows|
  {
    if |rows| == 0 then Scanned(cache, None)
    else
      match ScanRow(cache, rows[0], fileExists)
      case Failure(e) => Scanned(cache, Some(e))
      case Success(next) => Scan(next, rows[1..], fileExists)
  }

  /** `get_local_games`: the scanned cache, and the listing of its values
      unless a row raised. */
  function GetLocalGames(cache: LocalCache, rows: seq<CaveRow>, fileExists: string -> bool): (r: LocalGames)
    requires PyDict.Valid(cache)
    ensures PyDict.Valid(r.cache)
    ensures cache.entries.Keys <= r.cache.entries.Keys
    ensures r.games.Success? <==> forall i :: 0 <= i < |rows| ==> ExeFromVerdict(rows[i].verdict).Success?
    ensures r.games.Success? ==> |r.games.value| == |r.cache.entries|
    ensures r.cache == PyDict.PutAll(cache, InstallWrites(rows[..WellFormedPrefix(rows)], fileExists))
    ensures r.games.Success? ==> r.games.value == PyDict.Values(r.cache)
  {
    var s := Scan(cache, rows, fileExists);
    ScanReference(cache, rows, fileExists);
    match s.error
    case Some(e) => LocalGames(s.cache, Failure(e))
    case None => LocalGames(s.cache, Success(PyDict.Values(s.cache)))
  }

  /** Number of leading rows that resolve without raising. */
  function WellFormedPrefix(rows: seq<CaveRow>): (n: nat)
    ensures n <= |rows|
    ensures forall i :: 0 <= i < n ==> ExeFromVerdict(rows[i].verdict).Success?
    ensures n < |rows| ==> ExeFromVerdict(rows[n].verdict).Failure?
    decreases |rows|
  {
    if |rows| == 0 || ExeFromVerdict(rows[0].verdict).Failure? then 0
    else
      var n := 1 + WellFormedPrefix(rows[1..]);
      assert forall i :: 1 <= i < |rows| ==> rows[i] == rows[1..][i - 1];
      n
  }

  /** The cache assignment of each row, `None` for rows that are skipped. */
  function EntriesOf(rows: seq<CaveRow>, fileExists: string -> bool): (es: seq<Option<(string, LocalGame)>>)
    ensures |es| == |rows|
    ensures forall i :: 0 <= i < |rows| ==> es[i] == Entry(rows[i], fileExists)
  {
    seq(|rows|, i requires 0 <= i < |rows| => Entry(rows[i], fileExists))
  }

  /** The cache assignments of the installed rows, in row order. */
  function InstallWrites(rows: seq<CaveRow>, fileExists: string -> bool): seq<(string, LocalGame)> {
    Somes(EntriesOf(rows, fileExists))
  }

  /** Only the first candidate is consulted: verdicts that agree on it
      resolve alike, whatever follows it. */
  lemma FirstCandidateOnly(base: Option<string>, first: Candidate, rest1: seq<Candidate>, rest2: seq<Candidate>)
    ensures ExeFromVerdict(Some(Verdict(base, Listed([first] + rest1))))
         == ExeFromVerdict(Some(Verdict(base, Listed([first] + rest2))))
  {
  }

  /** Candidates `a` then `b` where only `join(base, "b")` exists: the game is
      not recorded, because `b` is never tried. */
  lemma FirstCandidateLimitation(cache: LocalCache, id: int, base: string, fileExists: string -> bool)
    requires PyDict.Valid(cache)
    requires !fileExists(Join(base, "a")) && fileExists(Join(base, "b"))
    ensures ScanRow(cache, CaveRow(id, Some(Verdict(Some(base), Listed([Candidate(Some("a")), Candidate(Some("b"))])))), fileExists)
         == Success(cache)
  {
  }

  /** The scan equals the reference update: the installed rows of the
      well-formed prefix assigned in order; the first malformed row, if any,
      supplies the error. */
  lemma {:induction false} ScanReference(cache: LocalCache, rows: seq<CaveRow>, fileExists: string -> bool)
    requires PyDict.Valid(cache)
    ensures Scan(cache, rows, fileExists).cache
         == PyDict.PutAll(cache, InstallWrites(rows[..WellFormedPrefix(rows)], fileExists))
    ensures Scan(cache, rows, fileExists).error ==
      if WellFormedPrefix(rows) < |rows| then Some(ExeFromVerdict(rows[WellFormedPrefix(rows)].verdict).error)
      else None
    decreases |rows|
  {
    if |rows| > 0 && ExeFromVerdict(rows[0].verdict).Success? {
      var next := ScanRow(cache, rows[0], fileExists).value;
      var tail := rows[1..];
      assert Scan(cache, rows, fileExists) == Scan(next, tail, fileExists);
      ScanReference(next, tail, fileExists);
      var n := WellFormedPrefix(rows);
      var m := WellFormedPrefix(tail);
      assert n == m + 1;
      assert rows[..n][0] == rows[0];
      assert rows[..n][1..] == tail[..m];
      assert n < |rows| ==> rows[n] == tail[m];
      InstallWritesCons(rows[..n], fileExists);
      match Entry(rows[0], fileExists)
      case Some(kv) =>
        PyDict.PutAllCons(cache, kv.0, kv.1, InstallWrites(tail[..m], fileExists));
      case None =>
        assert next == cache;
    }
  }

  lemma InstallWritesCons(rows: seq<CaveRow>, fileExists: string -> bool)
    requires |rows| > 0
    ensures InstallWrites(rows, fileExists) ==
      match Entry(rows[0], fileExists)
      case Some(kv) => [kv] + InstallWrites(rows[1..], fileExists)
      case None => InstallWrites(rows[1..], fileExists)
  {
    assert EntriesOf(rows, fileExists)[1..] == EntriesOf(rows[1..], fileExists);
  }

  /** Every entry after a scan is either the entry the cache already had or
      the installed game of a scanned row, stored under `str(game_id)` with a
      non-empty path that exists. */
  lemma LocalEntryProvenance(cache: LocalCache, rows: seq<CaveRow>, fileExists: string -> bool, k: string)
    requires PyDict.Valid(cache)
    requires k in Scan(cache, rows, fileExists).cache.entries
    ensures var e := Scan(cache, rows, fileExists).cache.entries[k];
      || (k in cache.entries && e == cache.entries[k])
      || (exists i :: 0 <= i < |rows| && Entry(rows[i], fileExists) == Some((k, e)))
  {
    var n := WellFormedPrefix(rows);
    var w := InstallWrites(rows[..n], fileExists);
    ScanReference(cache, rows, fileExists);
    PyDict.PutAllLookup(cache, w, k);
    if PyDict.LastWrite(w, k).Some? {
      WrittenByRow(rows, n, fileExists, k);
    }
  }

  /** The last install write to `k` within the first `n` rows comes from one
      of those rows. */
  lemma WrittenByRow(rows: seq<CaveRow>, n: nat, fileExists: string -> bool, k: string)
    requires n <= |rows|
    requires PyDict.LastWrite(InstallWrites(rows[..n], fileExists), k).Some?
    ensures exists i :: (0 <= i < |rows| &&
      Entry(rows[i], fileExists) == Some((k, PyDict.LastWrite(InstallWrites(rows[..n], fileExists), k).value)))
  {
    var w := InstallWrites(rows[..n], fileExists);
    var kv := (k, PyDict.LastWrite(w, k).value);
    PyDict.LastWriteWritten(w, k);
    SomesSound(EntriesOf(rows[..n], fileExists), kv);
    var i :| 0 <= i < n && Entry(rows[..n][i], fileExists) == Some(kv);
    assert rows[..n][i] == rows[i];
  }

  /** When the scan completes, every row whose resolved path is non-empty
      and exists has an entry under `str(game_id)`. */
  lemma LocalInstalledPresent(cache: LocalCache, rows: seq<CaveRow>, fileExists: string -> bool, i: nat)
    requires PyDict.Valid(cache) && i < |rows|
    ensures Scan(cache, rows, fileExists).error.None? && Entry(rows[i], fileExists).Some? ==>
      Key(rows[i].gameId) in Scan(cache, rows, fileExists).cache.entries
  {
    ScanReference(cache, rows, fileExists);
    if Scan(cache, rows, fileExists).error.None? && Entry(rows[i], fileExists).Some? {
      var n := WellFormedPrefix(rows);
      assert rows[..n] == rows;
      var w := InstallWrites(rows, fileExists);
      var kv := Entry(rows[i], fileExists).value;
      SomesComplete(EntriesOf(rows, fileExists), i);
      var j :| 0 <= j < |w| && w[j] == kv;
      assert kv.0 in PyDict.KeysOf(w);
      PyDict.PutAllKeys(cache, w);
    }
  }

  /** Every cached game sits under `str` of its own id. */
  ghost predicate KeyedByStrId(c: LocalCache) {
    forall k :: k in c.entries ==> k == Key(c.entries[k].gameId)
  }

  /** The cache the plugin starts with, `{}`, is valid and keyed by
      `str(game_id)`. */
  lemma FreshLocalCache()
    ensures PyDict.Valid(PyDict.Empty<string, LocalGame>()) && KeyedByStrId(PyDict.Empty<string, LocalGame>())
  {
  }

  /** The scan keeps the cache keyed by `str(game_id)`; hence the returned
      list names each game id exactly once. */
  lemma LocalListDistinct(cache: LocalCache, rows: seq<CaveRow>, fileExists: string -> bool)
    requires PyDict.Valid(cache) && KeyedByStrId(cache)
    ensures KeyedByStrId(GetLocalGames(cache, rows, fileExists).cache)
    ensures var r := GetLocalGames(cache, rows, fileExists);
      r.games.Success? ==>
        forall i, j :: 0 <= i < j < |r.games.value| ==> r.games.value[i].gameId != r.games.value[j].gameId
  {
    var c := Scan(cache, rows, fileExists).cache;
    forall k | k in c.entries
      ensures k == Key(c.entries[k].gameId)
    {
      LocalEntryProvenance(cache, rows, fileExists, k);
    }
  }
}
