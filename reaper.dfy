/**
 One sweep of the cleanup daemon, as functions of the table it starts from:
 which rows it selects, which table it leaves, and which upload files it
 asks the filesystem to remove.
 */
module Reaper {
  import opened Text
  import opened Mappings
  import opened Lookups

  /**
   The sweep treats a target as an uploaded file by its prefix alone: exactly
   the targets of the form `/uploads/<name>`.
   */
  predicate IsArtifact(target: string): (b: bool)
    ensures b ==> |UPLOAD_PREFIX| <= |target| && target == UPLOAD_PREFIX + target[|UPLOAD_PREFIX|..]
    ensures !b ==> forall name :: target != UPLOAD_PREFIX + name
  {
    StartsWith(target, UPLOAD_PREFIX)
  }

  /**
   The file the sweep removes for an artifact target: the target with its
   first upload prefix deleted, joined onto the upload folder.
   */
  function ArtifactPath(target: string): (path: string)
    ensures IsArtifact(target) ==> path == Join(UPLOAD_FOLDER, target[|UPLOAD_PREFIX|..])
  {
    Join(UPLOAD_FOLDER, RemoveFirst(target, UPLOAD_PREFIX))
  }

  /** The path a file upload was saved under is the path its sweep removes. */
  lemma UploadArtifactPath(filename: string)
    ensures IsArtifact(UPLOAD_PREFIX + filename)
    ensures ArtifactPath(UPLOAD_PREFIX + filename) == Join(UPLOAD_FOLDER, filename)
  {
    assert (UPLOAD_PREFIX + filename)[..|UPLOAD_PREFIX|] == UPLOAD_PREFIX;
    assert (UPLOAD_PREFIX + filename)[|UPLOAD_PREFIX|..] == filename;
  }

  /** The codes the sweep's query selects at whole-second time `now`. */
  function ExpiredCodes(m: Table, now: int): (s: set<string>)
    ensures forall c :: c in s <==> c in m && ExpiredAt(m[c].createdAt, now)
  {
    set c | c in m && ExpiredAt(m[c].createdAt, now)
  }

  /** The file removal the sweep attempts for one selected target. */
  function ArtifactRemoval(target: string): set<string>
  {
    if IsArtifact(target) then {ArtifactPath(target)} else {}
  }

  /**
   The files the sweep asks to remove while deleting the rows `codes`: the
   path of every artifact target among them, and nothing for no rows.
   */
  function ArtifactsOf(m: Table, codes: set<string>): (paths: set<string>)
    ensures forall c :: c in codes && c in m && IsArtifact(m[c].target) ==> ArtifactPath(m[c].target) in paths
    ensures codes == {} ==> paths == {}
  {
    set c | c in codes && c in m && IsArtifact(m[c].target) :: ArtifactPath(m[c].target)
  }

  /** Deleting one more row adds its artifact, if it has one, to the removals. */
  lemma ArtifactsOfInsert(m: Table, codes: set<string>, c: string)
    requires c in m
    ensures ArtifactsOf(m, codes + {c}) == ArtifactsOf(m, codes) + ArtifactRemoval(m[c].target)
  {
    var before, after := ArtifactsOf(m, codes), ArtifactsOf(m, codes + {c});
    forall p | p in after
      ensures p in before + ArtifactRemoval(m[c].target)
    {
      var d :| d in codes + {c} && d in m && IsArtifact(m[d].target) && p == ArtifactPath(m[d].target);
      if d != c {
        assert d in codes;
      }
    }
    forall p | p in before + ArtifactRemoval(m[c].target)
      ensures p in after
    {
      if p in before {
        var d :| d in codes && d in m && IsArtifact(m[d].target) && p == ArtifactPath(m[d].target);
        assert d in codes + {c};
      }
    }
  }

  /**
   The files one sweep at `now` asks to remove: the path of every expired
   artifact row, and nothing when no row has expired.
   */
  function Artifacts(m: Table, now: int): (paths: set<string>)
    ensures forall c :: c in m && ExpiredAt(m[c].createdAt, now) && IsArtifact(m[c].target) ==> ArtifactPath(m[c].target) in paths
    ensures (forall c :: c in m ==> !ExpiredAt(m[c].createdAt, now)) ==> paths == {}
  {
    ArtifactsOf(m, ExpiredCodes(m, now))
  }

  /**
   The sweep asks to remove nothing but the paths of expired rows with an
   upload target.
   */
  lemma ArtifactsOnlyUploads(m: Table, now: int, p: string)
    ensures p in Artifacts(m, now) ==>
      exists c :: c in m && ExpiredAt(m[c].createdAt, now) && IsArtifact(m[c].target) && p == ArtifactPath(m[c].target)
  {
    if p in Artifacts(m, now) {
      var c :| c in ExpiredCodes(m, now) && c in m && IsArtifact(m[c].target) && p == ArtifactPath(m[c].target);
    }
  }

  /** When no expired row has an upload target, the sweep asks to remove no file. */
  lemma ExpiredUrlRemovesNothing(m: Table, now: int)
    requires forall c :: c in m && ExpiredAt(m[c].createdAt, now) ==> !IsArtifact(m[c].target)
    ensures Artifacts(m, now) == {}
  {
    if p :| p in Artifacts(m, now) {
      ArtifactsOnlyUploads(m, now, p);
    }
  }

  /**
   The table one sweep at `now` leaves: every expired row is gone, every
   live row is still there, untouched.
   */
  function Reap(m: Table, now: int): (r: Table)
    ensures forall c :: c in r ==> c in m && r[c] == m[c] && !ExpiredAt(r[c].createdAt, now)
    ensures forall c :: c in m && !ExpiredAt(m[c].createdAt, now) ==> c in r
  {
    m - ExpiredCodes(m, now)
  }

  /** The files left after one sweep, when removing the paths in `failing` raises. */
  function FilesAfter(files: set<string>, m: Table, now: int, failing: set<string>): (r: set<string>)
    ensures r <= files
    ensures forall p :: p in files && p !in r <==> p in files && p in Artifacts(m, now) && p !in failing
  {
    files - (Artifacts(m, now) - failing)
  }

  /** A second sweep at the same time deletes no row and removes no file. */
  lemma SweepIdempotent(m: Table, now: int, files: set<string>, failing: set<string>)
    ensures Reap(Reap(m, now), now) == Reap(m, now)
    ensures Artifacts(Reap(m, now), now) == {}
    ensures FilesAfter(files, Reap(m, now), now, failing) == files
  {
    var r := Reap(m, now);
    assert ExpiredCodes(r, now) == {};
    assert r - {} == r;
  }

  /** Sweeping at a later time subsumes an earlier sweep. */
  lemma {:induction false} LaterSweepSubsumes(m: Table, n1: int, n2: int)
    requires n1 <= n2
    ensures Reap(Reap(m, n1), n2) == Reap(m, n2)
  {
    var a := Reap(Reap(m, n1), n2);
    var b := Reap(m, n2);
    assert a.Keys == b.Keys;
  }

  /**
   A sweep at clock value `t` changes no answer of the redirect at `t` except
   that an Expired row becomes NotFound: it never removes a servable entry and
   never makes an expired one servable.
   */
  lemma SweepKeepsAnswers(m: Table, code: string, t: real)
    ensures var before, after := Lookup(m, code, t), Lookup(Reap(m, Trunc(t)), code, t);
      after == before || (before == Expired && after == NotFound)
  {
    if code in m && code !in Reap(m, Trunc(t)) {
      ReapableMeansExpired(m[code].createdAt, t);
    }
  }

  /**
   The sweep asks to remove the saved file of an expired file entry, and the
   file is gone afterwards unless its removal raises.
   */
  lemma ExpiredUploadIsRemoved(m: Table, code: string, filename: string, now: int, files: set<string>, failing: set<string>)
    requires code in m && m[code].target == UPLOAD_PREFIX + filename
    requires ExpiredAt(m[code].createdAt, now)
    ensures Join(UPLOAD_FOLDER, filename) in Artifacts(m, now)
    ensures Join(UPLOAD_FOLDER, filename) !in failing ==> Join(UPLOAD_FOLDER, filename) !in FilesAfter(files, m, now, failing)
  {
    UploadArtifactPath(filename);
  }
}
