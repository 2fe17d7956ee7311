/**
 The `urls` table and its time arithmetic: configuration constants, the
 entry record, the clock (`time.time()` is a float; `int(...)` truncates it),
 the remaining-TTL helper `seconds_left` and the upsert of `save_mapping`.
 */
module Mappings {
  import opened Text

  /** `DELETE_AFTER_SECONDS`: every entry lives ten minutes. */
  const DELETE_AFTER_SECONDS: int := 10 * 60
  /** `UPLOAD_FOLDER`, i.e. `os.path.join("static", "uploads")`. */
  const UPLOAD_FOLDER: string := "static/uploads"
  /** Targets that start with this prefix name an uploaded file. */
  const UPLOAD_PREFIX: string := "/uploads/"

  datatype Option<T> = None | Some(value: T)

  /** One row of `urls`; its `code` is the key it is stored under. */
  datatype Entry = Entry(target: string, createdAt: int, hits: nat)

  /** The `urls` table: `code` is its primary key. */
  type Table = map<string, Entry>

  /** Python's `int(t)` for a float: truncation toward zero. */
  function Trunc(t: real): (n: int)
    ensures 0.0 <= t ==> 0 <= n && n as real <= t < n as real + 1.0
    ensures t < 0.0 ==> n <= 0 && n as real - 1.0 < t <= n as real
  {
    if 0.0 <= t then t.Floor else -((-t).Floor)
  }

  /**
   The reaper's expiry test: more than a TTL has elapsed, counted in whole
   seconds of a truncated clock. On a clock reading a whole number of seconds
   it agrees with the redirect's test.
   */
  predicate ExpiredAt(createdAt: int, now: int): (b: bool)
    ensures b <==> ExpiredBy(createdAt, now as real)
  {
    now - createdAt > DELETE_AFTER_SECONDS
  }

  /**
   The redirect's expiry test: more than a TTL has elapsed, measured on the
   unrounded (float) clock. Once it holds, at least a full TTL has elapsed
   on the truncated clock too.
   */
  predicate ExpiredBy(createdAt: int, t: real): (b: bool)
    ensures b ==> Trunc(t) - createdAt >= DELETE_AFTER_SECONDS
  {
    t - createdAt as real > DELETE_AFTER_SECONDS as real
  }

  /**
   `seconds_left(created_at)` read at clock value `t`: the whole seconds of
   TTL still to run, never negative, zero once a full TTL has elapsed.
   */
  function SecondsLeft(createdAt: int, t: real): (r: int)
    ensures 0 <= r
    ensures createdAt <= Trunc(t) ==> r <= DELETE_AFTER_SECONDS
    ensures r == 0 <==> Trunc(t) - createdAt >= DELETE_AFTER_SECONDS
    ensures r != 0 ==> Trunc(t) + r == createdAt + DELETE_AFTER_SECONDS
  {
    var left := DELETE_AFTER_SECONDS - (Trunc(t) - createdAt);
    if 0 < left then left else 0
  }

  /** While `seconds_left` is positive, the redirect still serves the entry. */
  lemma SecondsLeftMeansLive(createdAt: int, t: real)
    requires SecondsLeft(createdAt, t) > 0
    ensures !ExpiredBy(createdAt, t)
  {
  }

  /** Once the redirect refuses an entry, `seconds_left` reports 0. */
  lemma ExpiredMeansNoSecondsLeft(createdAt: int, t: real)
    requires ExpiredBy(createdAt, t)
    ensures SecondsLeft(createdAt, t) == 0
  {
  }

  /**
   An entry the reaper selects at clock value `t` is one the redirect refuses
   at the same clock value: the reaper never deletes a servable entry.
   */
  lemma ReapableMeansExpired(createdAt: int, t: real)
    requires ExpiredAt(createdAt, Trunc(t))
    ensures ExpiredBy(createdAt, t)
  {
  }

  /**
   The two tests differ near the boundary: exactly one TTL after creation the
   countdown shows 0 while the redirect still serves, and half a second later
   the redirect refuses an entry the reaper does not yet select (for clock
   values after the epoch, where `int` rounds down).
   */
  lemma BoundaryWindow(createdAt: int)
    requires 0 <= createdAt + DELETE_AFTER_SECONDS
    ensures SecondsLeft(createdAt, (createdAt + DELETE_AFTER_SECONDS) as real) == 0
    ensures !ExpiredBy(createdAt, (createdAt + DELETE_AFTER_SECONDS) as real)
    ensures ExpiredBy(createdAt, (createdAt + DELETE_AFTER_SECONDS) as real + 0.5)
    ensures !ExpiredAt(createdAt, Trunc((createdAt + DELETE_AFTER_SECONDS) as real + 0.5))
  {
    assert Trunc((createdAt + DELETE_AFTER_SECONDS) as real + 0.5) == createdAt + DELETE_AFTER_SECONDS;
  }

  /**
   The insert-or-replace of `save_mapping`, stamped `now`: `code` now holds a fresh entry with no hits, whether or not it existed,
   and every other code keeps its entry.
   */
  function Upsert(m: Table, code: string, target: string, now: int): (r: Table)
    ensures r.Keys == m.Keys + {code}
    ensures r[code] == Entry(target, now, 0)
    ensures forall c :: c in m && c != code ==> r[c] == m[c]
  {
    m[code := Entry(target, now, 0)]
  }

  /** A second upsert of the same code wins outright; the first leaves no trace. */
  lemma UpsertLastWriteWins(m: Table, code: string, t1: string, n1: int, t2: string, n2: int)
    ensures Upsert(Upsert(m, code, t1, n1), code, t2, n2) == Upsert(m, code, t2, n2)
  {
  }
}
