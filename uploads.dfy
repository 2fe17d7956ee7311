/**
 The branch logic of `upload_file`: a request carries a file, a URL, or
 neither or both; the first two are stored under the custom code or, when
 that is blank, under a generated one.
 */
module Uploads {
  import opened Text
  import opened Codes
  import opened Mappings
  import opened Reaper

  const BOTH_MESSAGE: string := "Error: Provide EITHER a URL OR a file, not both."
  const NEITHER_MESSAGE: string := "Error: Please provide a file or a URL."

  /**
   The upload form: the name of the file part if one was sent, and the raw
   `url` and `code` fields ("" when a field is absent).
   */
  datatype Request = Request(file: Option<string>, url: string, code: string)

  /** A file counts only when the file part is present and names a file. */
  predicate HasFile(req: Request): (b: bool)
    ensures req.file.None? ==> !b
    ensures req.file == Some("") ==> !b
    ensures req.file.Some? && |req.file.value| > 0 ==> b
  {
    req.file.Some? && req.file.value != ""
  }

  /**
   The code the request is stored under: the stripped custom code, or, when
   that is blank, a generated code of `|draws|` alphanumeric symbols.
   */
  function ChosenCode(raw: string, draws: seq<nat>): (code: string)
    requires ValidDraws(draws)
    ensures !AllSpace(raw) ==> code == Strip(raw) && code != []
    ensures AllSpace(raw) ==> |code| == |draws| && forall i :: 0 <= i < |code| ==> IsAlnum(code[i])
  {
    var custom := Strip(raw);
    if custom != "" then custom else GenerateCode(draws)
  }

  /** What the handler decides to do with a request. */
  datatype Decision =
    | RejectBoth
    | RejectNeither
    | SaveFile(code: string, filename: string)
    | SaveUrl(code: string, url: string)
  {
    /** The target stored in the table when the request is accepted. */
    function Target(): string
      requires SaveFile? || SaveUrl?
    {
      if SaveFile? then UPLOAD_PREFIX + filename else url
    }
  }

  /**
   The decision for `req` when the clock reads `stamp` whole seconds, the
   random source hands out `draws` and the file name sanitiser is `secure`:
   exactly one of file and URL must be present.
   */
  function Classify(req: Request, stamp: int, draws: seq<nat>, secure: string -> string): (d: Decision)
    requires ValidDraws(draws)
    ensures d.RejectBoth? <==> HasFile(req) && !AllSpace(req.url)
    ensures d.RejectNeither? <==> !HasFile(req) && AllSpace(req.url)
    ensures d.SaveFile? <==> HasFile(req) && AllSpace(req.url)
    ensures d.SaveUrl? <==> !HasFile(req) && !AllSpace(req.url)
    ensures d.SaveFile? ==> d.filename == IntToString(stamp) + "_" + secure(req.file.value)
    ensures d.SaveUrl? ==> d.url == Strip(req.url) && d.url != []
    ensures d.SaveFile? || d.SaveUrl? ==> d.code == ChosenCode(req.code, draws)
  {
    var url := Strip(req.url);
    var code := ChosenCode(req.code, draws);
    if HasFile(req) && url != "" then RejectBoth
    else if HasFile(req) then SaveFile(code, IntToString(stamp) + "_" + secure(req.file.value))
    else if url != "" then SaveUrl(code, url)
    else RejectNeither
  }

  /**
   With a blank custom code and the default generator length, an accepted
   request is stored under a six-symbol alphanumeric code.
   */
  lemma BlankCodeIsGenerated(req: Request, stamp: int, draws: seq<nat>, secure: string -> string)
    requires ValidDraws(draws) && |draws| == CODE_LENGTH
    requires AllSpace(req.code)
    ensures var d := Classify(req, stamp, draws, secure);
      d.SaveFile? || d.SaveUrl? ==> |d.code| == 6 && forall i :: 0 <= i < 6 ==> IsAlnum(d.code[i])
  {
  }

  /**
   An accepted file upload is stored as an artifact target, and the file the
   sweep removes for it is the file the handler saved.
   */
  lemma FileTargetIsArtifact(req: Request, stamp: int, draws: seq<nat>, secure: string -> string)
    requires ValidDraws(draws)
    ensures var d := Classify(req, stamp, draws, secure);
      d.SaveFile? ==> IsArtifact(d.Target()) && ArtifactPath(d.Target()) == Join(UPLOAD_FOLDER, d.filename)
  {
    var d := Classify(req, stamp, draws, secure);
    if d.SaveFile? {
      UploadArtifactPath(d.filename);
    }
  }

  /** The stamp in front of a saved file's name determines the clock value. */
  lemma {:induction false} StampedNameInjective(stamp1: int, stamp2: int, name: string)
    requires IntToString(stamp1) + "_" + name == IntToString(stamp2) + "_" + name
    ensures stamp1 == stamp2
  {
    var a, b := IntToString(stamp1), IntToString(stamp2);
    assert |a| == |b|;
    assert a == (a + "_" + name)[..|a|];
    assert b == (b + "_" + name)[..|b|];
    IntToStringInjective(stamp1, stamp2);
  }

  /**
   Two uploads of the same file at different whole-second clock values are
   saved under different names.
   */
  lemma DistinctStampsDistinctFiles(req: Request, stamp1: int, stamp2: int, draws: seq<nat>, secure: string -> string)
    requires ValidDraws(draws) && HasFile(req) && AllSpace(req.url)
    requires stamp1 != stamp2
    ensures Classify(req, stamp1, draws, secure).filename != Classify(req, stamp2, draws, secure).filename
  {
    var name := secure(req.file.value);
    if IntToString(stamp1) + "_" + name == IntToString(stamp2) + "_" + name {
      StampedNameInjective(stamp1, stamp2, name);
    }
  }

  /**
   The sweep recognises artifacts by prefix only. A URL that itself starts
   with the upload prefix is accepted and stored as a URL entry, yet its
   target is one the sweep treats as an uploaded file ...
   */
  lemma UrlWithUploadPrefixIsArtifact(url: string, code: string, stamp: int, draws: seq<nat>, secure: string -> string)
    requires ValidDraws(draws)
    requires StartsWith(url, UPLOAD_PREFIX) && !IsSpace(url[|url| - 1])
    ensures var d := Classify(Request(None, url, code), stamp, draws, secure);
      d.SaveUrl? && d.url == url && IsArtifact(d.Target())
  {
    assert url[0] == UPLOAD_PREFIX[0];
    assert TrimStart(url) == url;
  }

  /**
   ... so once it expires the sweep removes a file for it, for this URL one
   outside the upload folder.
   */
  lemma UrlUnderUploadPrefixIsRemoved()
    ensures IsArtifact("/uploads/../../urls.db")
    ensures ArtifactPath("/uploads/../../urls.db") == "static/uploads/../../urls.db"
  {
    var url, rest := "/uploads/../../urls.db", "../../urls.db";
    assert url == UPLOAD_PREFIX + rest;
    UploadArtifactPath(rest);
    assert Join(UPLOAD_FOLDER, rest) == UPLOAD_FOLDER + "/" + rest by {
      assert !StartsWith(rest, "/") by { assert rest[0] != '/'; }
      assert UPLOAD_FOLDER[|UPLOAD_FOLDER| - 1] != '/';
    }
    assert UPLOAD_FOLDER + "/" + rest == "static/uploads/../../urls.db";
  }
}
