/** Playtime bookkeeping of `launch_game` (itch.py:140-159) over the plugin's
    persistent cache, with the key and read helpers (itch.py:168-184). */
module Playtime {
  import opened Wrappers
  import Decimal

  /** The persistent cache: string keys to string values. */
  type Cache = map<string, string>

  /** `int(value)` raised `ValueError` on a stored text that is not a number. */
  datatype ReadError = ValueError(key: string)

  /** Galaxy's `GameTime` as passed to `update_game_time`. */
  datatype GameTime = GameTime(gameId: string, timePlayed: int, lastPlayedTime: int)

  /** The cache after a session, and the game time reported for it. */
  datatype Session = Session(cache: Cache, gameTime: GameTime)

  /** `_time_played_key`: `f'time{game_id}'`. */
  function TimePlayedKey(gameId: string): (k: string)
    ensures |k| == |gameId| + 4 && k[..4] == "time" && k[4..] == gameId
  {
    "time" + gameId
  }

  /** `_last_played_time_key`: `f'last{game_id}'`. */
  function LastPlayedTimeKey(gameId: string): (k: string)
    ensures |k| == |gameId| + 4 && k[..4] == "last" && k[4..] == gameId
  {
    "last" + gameId
  }

  /** The two key families never meet: their first letters differ. */
  lemma KeysNeverCollide(a: string, b: string)
    ensures TimePlayedKey(a) != LastPlayedTimeKey(b)
  {
    assert TimePlayedKey(a)[0] == 't';
    assert LastPlayedTimeKey(b)[0] == 'l';
  }

  /** Each key family determines the game id. */
  lemma KeysInjective(a: string, b: string)
    ensures TimePlayedKey(a) == TimePlayedKey(b) ==> a == b
    ensures LastPlayedTimeKey(a) == LastPlayedTimeKey(b) ==> a == b
  {
    if TimePlayedKey(a) == TimePlayedKey(b) {
      assert a == TimePlayedKey(a)[4..];
    }
    if LastPlayedTimeKey(a) == LastPlayedTimeKey(b) {
      assert a == LastPlayedTimeKey(a)[4..];
    }
  }

  /** `int(cache[key]) if key in cache else None`. */
  function ReadInt(c: Cache, key: string): (r: Result<Option<int>, ReadError>)
    ensures r == Success(None) <==> key !in c
    ensures r.Failure? <==> key in c && Decimal.ParseInt(c[key]).None?
    ensures r.Success? && r.value.Some? ==> Decimal.ParseInt(c[key]) == r.value
  {
    if key !in c then Success(None)
    else
      match Decimal.ParseInt(c[key])
      case Some(n) => Success(Some(n))
      case None => Failure(ValueError(key))
  }

  /** `_get_time_played`. */
  function GetTimePlayed(c: Cache, gameId: string): (r: Result<Option<int>, ReadError>)
    ensures r == Success(None) <==> TimePlayedKey(gameId) !in c
    ensures r.Failure? ==> r.error == ValueError(TimePlayedKey(gameId))
    ensures r.Failure? <==> TimePlayedKey(gameId) in c && Decimal.ParseInt(c[TimePlayedKey(gameId)]).None?
    ensures r.Success? && r.value.Some? ==> Decimal.ParseInt(c[TimePlayedKey(gameId)]) == r.value
  {
    ReadInt(c, TimePlayedKey(gameId))
  }

  /** `_get_last_played_time`. */
  function GetLastPlayedTime(c: Cache, gameId: string): (r: Result<Option<int>, ReadError>)
    ensures r == Success(None) <==> LastPlayedTimeKey(gameId) !in c
    ensures r.Failure? ==> r.error == ValueError(LastPlayedTimeKey(gameId))
    ensures r.Failure? <==> LastPlayedTimeKey(gameId) in c && Decimal.ParseInt(c[LastPlayedTimeKey(gameId)]).None?
    ensures r.Success? && r.value.Some? ==> Decimal.ParseInt(c[LastPlayedTimeKey(gameId)]) == r.value
  {
    ReadInt(c, LastPlayedTimeKey(gameId))
  }

  /** `int((end - start) / 60)`: whole minutes, truncated toward zero. */
  function SessionMinutes(start: int, end: int): (m: int)
    ensures start <= end ==> 0 <= m && 60 * m <= end - start < 60 * (m + 1)
    ensures end < start ==> m <= 0 && 60 * (m - 1) < end - start <= 60 * m
  {
    var d := end - start;
    if d >= 0 then d / 60 else -((-d) / 60)
  }

  /** The two writes at the end of a session: the new total under
      `time<id>` and the end time under `last<id>`, both as decimal text.
      Both read back as written, and every other key keeps its value. */
  function Store(c: Cache, gameId: string, total: int, end: int): (c': Cache)
    ensures GetTimePlayed(c', gameId) == Success(Some(total))
    ensures GetLastPlayedTime(c', gameId) == Success(Some(end))
    ensures c'.Keys == c.Keys + {TimePlayedKey(gameId), LastPlayedTimeKey(gameId)}
    ensures forall k :: k in c && k != TimePlayedKey(gameId) && k != LastPlayedTimeKey(gameId) ==> c'[k] == c[k]
  {
    KeysNeverCollide(gameId, gameId);
    c[TimePlayedKey(gameId) := Decimal.IntToString(total)][LastPlayedTimeKey(gameId) := Decimal.IntToString(end)]
  }

  /** The bookkeeping after the game process exits: add the session's
      minutes to the stored total (0 when absent), report it, and store the
      new total and the end time. A stored total that is not a number
      raises before anything is written. */
  function RecordSession(c: Cache, gameId: string, start: int, end: int): (r: Result<Session, ReadError>)
    ensures r.Success? <==> GetTimePlayed(c, gameId).Success?
    ensures r.Success? ==>
      r.value.gameTime == GameTime(gameId, GetTimePlayed(c, gameId).value.GetOr(0) + SessionMinutes(start, end), end)
    ensures r.Success? ==> r.value.cache == Store(c, gameId, r.value.gameTime.timePlayed, end)
    ensures r.Success? && start <= end ==> r.value.gameTime.timePlayed >= GetTimePlayed(c, gameId).value.GetOr(0)
  {
    match GetTimePlayed(c, gameId)
    case Failure(e) => Failure(e)
    case Success(previous) =>
      var total := previous.GetOr(0) + SessionMinutes(start, end);
      Success(Session(Store(c, gameId, total, end), GameTime(gameId, total, end)))
  }

  /** A session of one game leaves both readings of every other game as
      they were. */
  lemma OtherGamesUnaffected(c: Cache, gameId: string, other: string, start: int, end: int)
    requires other != gameId
    requires RecordSession(c, gameId, start, end).Success?
    ensures var c' := RecordSession(c, gameId, start, end).value.cache;
      GetTimePlayed(c', other) == GetTimePlayed(c, other) && GetLastPlayedTime(c', other) == GetLastPlayedTime(c, other)
  {
    KeysInjective(gameId, other);
    KeysNeverCollide(other, gameId);
    KeysNeverCollide(gameId, other);
  }

  /** A game never launched reads as unknown, not as zero minutes. */
  lemma NeverPlayedIsUnknown(c: Cache, gameId: string)
    requires TimePlayedKey(gameId) !in c && LastPlayedTimeKey(gameId) !in c
    ensures GetTimePlayed(c, gameId) == Success(None) && GetTimePlayed(c, gameId) != Success(Some(0))
    ensures GetLastPlayedTime(c, gameId) == Success(None)
  {
  }

  /** Sessions of 90 and 59 seconds count one and zero minutes. */
  lemma SessionExamples()
    ensures SessionMinutes(1000, 1090) == 1
    ensures SessionMinutes(1000, 1059) == 0
    ensures SessionMinutes(1090, 1000) == -1
  {
  }

  /** Several sessions of one game, each launch reading what the previous
      one stored. */
  function RecordSessions(c: Cache, gameId: string, sessions: seq<(int, int)>): Result<Cache, ReadError>
    decreases |sessions|
  {
    if |sessions| == 0 then Success(c)
    else
      match RecordSession(c, gameId, sessions[0].0, sessions[0].1)
      case Failure(e) => Failure(e)
      case Success(s) => RecordSessions(s.cache, gameId, sessions[1..])
  }

  /** Total whole minutes of a list of (start, end) sessions. */
  function TotalMinutes(sessions: seq<(int, int)>): int
    decreases |sessions|
  {
    if |sessions| == 0 then 0 else SessionMinutes(sessions[0].0, sessions[0].1) + TotalMinutes(sessions[1..])
  }

  /** Playtime accrues across launches: the stored total after a series of
      sessions is the starting total plus every session's minutes, and
      only the first read can fail. */
  lemma {:induction false} SessionsAccumulate(c: Cache, gameId: string, sessions: seq<(int, int)>)
    requires GetTimePlayed(c, gameId).Success?
    ensures RecordSessions(c, gameId, sessions).Success?
    ensures GetTimePlayed(RecordSessions(c, gameId, sessions).value, gameId).Success?
    ensures GetTimePlayed(RecordSessions(c, gameId, sessions).value, gameId).value.GetOr(0)
         == GetTimePlayed(c, gameId).value.GetOr(0) + TotalMinutes(sessions)
    decreases |sessions|
  {
    if |sessions| > 0 {
      var next := FirstSession(c, gameId, sessions);
      SessionsAccumulate(next, gameId, sessions[1..]);
    }
  }

  /** Unrolls the first session of a series. */
  lemma FirstSession(c: Cache, gameId: string, sessions: seq<(int, int)>) returns (next: Cache)
    requires GetTimePlayed(c, gameId).Success? && |sessions| > 0
    ensures RecordSessions(c, gameId, sessions) == RecordSessions(next, gameId, sessions[1..])
    ensures GetTimePlayed(next, gameId) ==
      Success(Some(GetTimePlayed(c, gameId).value.GetOr(0) + SessionMinutes(sessions[0].0, sessions[0].1)))
  {
    next := RecordSession(c, gameId, sessions[0].0, sessions[0].1).value.cache;
  }

  /** Sessions that do not run backwards never decrease the stored total. */
  lemma {:induction false} TotalNeverDecreases(sessions: seq<(int, int)>)
    requires forall i :: 0 <= i < |sessions| ==> sessions[i].0 <= sessions[i].1
    ensures TotalMinutes(sessions) >= 0
    decreases |sessions|
  {
    if |sessions| > 0 {
      assert forall i :: 0 <= i < |sessions[1..]| ==> sessions[1..][i] == sessions[i + 1];
      TotalNeverDecreases(sessions[1..]);
    }
  }
}
