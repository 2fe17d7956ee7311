/**
 The shortener's mutable state and the operations that change it in place:
 the `urls` table (code -> entry) and the set of files present in the upload
 folder. Each method is specified by the pure functions of the other modules.
 */
module Store {
  import opened Text
  import opened Codes
  import opened Mappings
  import opened Lookups
  import opened Reaper
  import opened Uploads

  /** What `upload_file` renders: the new short code, or an error message. */
  datatype Response = ShortLink(code: string) | ErrorMessage(message: string)

  /** Two rounds of removals amount to removing their union. */
  lemma RemovalsCompose(files: set<string>, a: set<string>, b: set<string>, failing: set<string>)
    ensures files - (a - failing) - (b - failing) == files - ((a + b) - failing)
  {
  }

  class Shortener {
    /** The `urls` table, keyed by code. */
    var urls: Table
    /** The paths of the files present under the upload folder. */
    var files: set<string>

    /** Opens the store over an existing table and upload folder. */
    constructor (table: Table, present: set<string>)
      ensures urls == table && files == present
    {
      urls := table;
      files := present;
    }

    /** `save_mapping`: insert or replace the row for `code`, stamped with the clock `t`. */
    method SaveMapping(code: string, target: string, t: real)
      modifies this`urls
      ensures urls == Upsert(old(urls), code, target, Trunc(t))
    {
      urls := urls[code := Entry(target, Trunc(t), 0)];
    }

    /** `get_row`: the row stored under `code`, whatever its age. */
    method GetRow(code: string) returns (row: Option<Entry>)
      ensures row.Some? <==> code in urls
      ensures row.Some? ==> row.value == urls[code]
    {
      if code in urls {
        row := Some(urls[code]);
      } else {
        row := None;
      }
    }

    /**
     `redirect_code` at clock value `t`: answers NotFound, Expired or the stored
     target, and bumps the hit counter only when it serves the target.
     */
    method Redirect(code: string, t: real) returns (outcome: Outcome)
      modifies this`urls
      ensures outcome == Lookup(old(urls), code, t)
      ensures urls == AfterLookup(old(urls), code, t)
    {
      var row := GetRow(code);
      if row.None? {
        return NotFound;
      }
      var e := row.value;
      if t - e.createdAt as real > DELETE_AFTER_SECONDS as real {
        return Expired;
      }
      if code in urls {
        urls := urls[code := urls[code].(hits := urls[code].hits + 1)];
      }
      if StartsWith(e.target, UPLOAD_PREFIX) {
        outcome := Download(RemoveFirst(e.target, UPLOAD_PREFIX));
      } else {
        outcome := RedirectTo(e.target);
      }
    }

    /**
     One iteration of the cleanup daemon at clock value `t`: select the expired
     rows, remove the upload file of each artifact row when it exists (a
     removal of a path in `failing` raises and is ignored), and delete every
     selected row regardless.
     */
    method Sweep(t: real, failing: set<string>)
      modifies this
      ensures urls == Reap(old(urls), Trunc(t))
      ensures files == FilesAfter(old(files), old(urls), Trunc(t), failing)
    {
      var now := Trunc(t);
      var expired := ExpiredCodes(urls, now);
      var table := urls;  // the rows as the selecting query saw them
      ghost var present := files;
      var pending := expired;
      while pending != {}
        invariant pending <= expired
        invariant urls == table - (expired - pending)
        invariant files == present - (ArtifactsOf(table, expired - pending) - failing)
        decreases pending
      {
        var code :| code in pending;
        ghost var done := expired - pending;
        RemoveArtifact(table[code].target, failing);
        ArtifactsOfInsert(table, done, code);
        RemovalsCompose(present, ArtifactsOf(table, done), ArtifactRemoval(table[code].target), failing);
        urls := urls - {code};
        pending := pending - {code};
        assert expired - pending == done + {code};
      }
      assert expired - pending == expired;
    }

    /**
     The artifact step of the sweep for one selected target: when the target
     names an upload and its file exists, remove it, unless removal raises.
     */
    method RemoveArtifact(target: string, failing: set<string>)
      modifies this`files
      ensures files == old(files) - (ArtifactRemoval(target) - failing)
    {
      if StartsWith(target, UPLOAD_PREFIX) {
        var path := Join(UPLOAD_FOLDER, RemoveFirst(target, UPLOAD_PREFIX));
        if path in files && path !in failing {
          files := files - {path};
        }
      }
    }

    /**
     `upload_file` at clock value `t`, with `draws` from the random source and
     `secure` standing for the file name sanitiser: acts on the handler's
     decision. A request with both or neither of file and URL is rejected and
     changes nothing; otherwise the file (if any) is saved and the new mapping
     upserted.
     */
    method Upload(req: Request, t: real, draws: seq<nat>, secure: string -> string) returns (response: Response)
      requires ValidDraws(draws) && |draws| == CODE_LENGTH
      modifies this
      ensures match Classify(req, Trunc(t), draws, secure)
        case RejectBoth =>
          response == ErrorMessage(BOTH_MESSAGE) && urls == old(urls) && files == old(files)
        case RejectNeither =>
          response == ErrorMessage(NEITHER_MESSAGE) && urls == old(urls) && files == old(files)
        case SaveFile(code, filename) =>
          && response == ShortLink(code)
          && files == old(files) + {Join(UPLOAD_FOLDER, filename)}
          && urls == Upsert(old(urls), code, UPLOAD_PREFIX + filename, Trunc(t))
        case SaveUrl(code, url) =>
          response == ShortLink(code) && files == old(files) && urls == Upsert(old(urls), code, url, Trunc(t))
    {
      match Classify(req, Trunc(t), draws, secure)
      case RejectBoth =>
        response := ErrorMessage(BOTH_MESSAGE);
      case SaveFile(code, filename) =>
        files := files + {Join(UPLOAD_FOLDER, filename)};
        SaveMapping(code, UPLOAD_PREFIX + filename, t);
        response := ShortLink(code);
      case SaveUrl(code, url) =>
        SaveMapping(code, url, t);
        response := ShortLink(code);
      case RejectNeither =>
        response := ErrorMessage(NEITHER_MESSAGE);
    }
  }
}
