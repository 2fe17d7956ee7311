/**
 The lookup path of `redirect_code`: resolve a code to NotFound, Expired or
 the stored target, and count a hit only when the target is served.
 */
module Lookups {
  import opened Text
  import opened Mappings

  /**
   The answers of the redirect: 404, 410, a download of an uploaded file
   (named relative to the upload folder) or a redirect to the stored URL.
   */
  datatype Outcome = NotFound | Expired | Download(name: string) | RedirectTo(target: string)
  {
    predicate Served() { Download? || RedirectTo? }
  }

  /** The answer for `code` at clock value `t`, given the table before the call. */
  function Lookup(m: Table, code: string, t: real): (o: Outcome)
    ensures o == NotFound <==> code !in m
    ensures o == Expired <==> code in m && ExpiredBy(m[code].createdAt, t)
    ensures o.Download? <==> code in m && !ExpiredBy(m[code].createdAt, t) && StartsWith(m[code].target, UPLOAD_PREFIX)
    ensures o.Download? ==> UPLOAD_PREFIX + o.name == m[code].target
    ensures o.RedirectTo? ==> o.target == m[code].target
  {
    if code !in m then NotFound
    else
      var e := m[code];
      if ExpiredBy(e.createdAt, t) then Expired
      else if StartsWith(e.target, UPLOAD_PREFIX) then
        var name := RemoveFirst(e.target, UPLOAD_PREFIX);
        assert UPLOAD_PREFIX + name == e.target;
        Download(name)
      else RedirectTo(e.target)
  }

  /**
   The table after the lookup: the hit counter of `code` goes up by one when
   the lookup served it; no other entry, and no other field, changes.
   */
  function AfterLookup(m: Table, code: string, t: real): (r: Table)
    ensures r.Keys == m.Keys
    ensures forall c :: c in m && c != code ==> r[c] == m[c]
    ensures code in m ==> r[code].target == m[code].target && r[code].createdAt == m[code].createdAt
    ensures code in m ==> r[code].hits == m[code].hits + (if Lookup(m, code, t).Served() then 1 else 0)
  {
    if Lookup(m, code, t).Served() then m[code := m[code].(hits := m[code].hits + 1)] else m
  }

  /** NotFound and Expired leave the table exactly as it was. */
  lemma RefusalChangesNothing(m: Table, code: string, t: real)
    requires !Lookup(m, code, t).Served()
    ensures AfterLookup(m, code, t) == m
  {
  }

  /** Hit counters never decrease, whatever is looked up. */
  lemma HitsMonotone(m: Table, code: string, t: real)
    ensures forall c :: c in m ==> m[c].hits <= AfterLookup(m, code, t)[c].hits
  {
  }

  /** The table after a sequence of lookups of `code` at the clock values `ts`. */
  function AfterLookups(m: Table, code: string, ts: seq<real>): Table
    decreases |ts|
  {
    if ts == [] then m else AfterLookups(AfterLookup(m, code, ts[0]), code, ts[1..])
  }

  /**
   N successful lookups of a live code add exactly N to its hit counter and
   change nothing else.
   */
  lemma {:induction false} HitsCountLookups(m: Table, code: string, ts: seq<real>)
    requires code in m
    requires forall i :: 0 <= i < |ts| ==> !ExpiredBy(m[code].createdAt, ts[i])
    ensures code in AfterLookups(m, code, ts)
    ensures AfterLookups(m, code, ts) == m[code := m[code].(hits := m[code].hits + |ts|)]
    decreases |ts|
  {
    if ts == [] {
      assert m[code := m[code].(hits := m[code].hits + 0)] == m;
    } else {
      var m1 := AfterLookup(m, code, ts[0]);
      assert m1 == m[code := m[code].(hits := m[code].hits + 1)];
      HitsCountLookups(m1, code, ts[1..]);
    }
  }

  /**
   After `save_mapping(code, target)` at clock value `t0`, a lookup within the
   TTL serves `target`, and every other code answers as before.
   */
  lemma LookupAfterUpsert(m: Table, code: string, target: string, t0: real, t: real, other: string)
    requires !ExpiredBy(Trunc(t0), t)
    requires other != code
    ensures Lookup(Upsert(m, code, target, Trunc(t0)), code, t).Served()
    ensures Lookup(Upsert(m, code, target, Trunc(t0)), code, t)
         == if StartsWith(target, UPLOAD_PREFIX) then Download(target[|UPLOAD_PREFIX|..]) else RedirectTo(target)
    ensures Lookup(Upsert(m, code, target, Trunc(t0)), other, t) == Lookup(m, other, t)
  {
  }

  /**
   An entry created at `t0` is served one second before its TTL runs out and
   when it runs out, and refused as expired one second after.
   */
  lemma TtlBoundary(m: Table, code: string, target: string, t0: int)
    ensures Lookup(Upsert(m, code, target, t0), code, (t0 + DELETE_AFTER_SECONDS - 1) as real).Served()
    ensures Lookup(Upsert(m, code, target, t0), code, (t0 + DELETE_AFTER_SECONDS) as real).Served()
    ensures Lookup(Upsert(m, code, target, t0), code, (t0 + DELETE_AFTER_SECONDS + 1) as real) == Expired
  {
  }
}
