/**
 Two entry lifecycles driven through the store's methods, checked from their
 contracts alone: a URL entry that is served, expires and is reaped, and a
 file entry whose upload is removed by the sweep.
 */
module Scenarios {
  import opened Text
  import opened Mappings
  import opened Lookups
  import opened Reaper
  import opened Store

  method UrlLifecycle()
  {
    var s := new Shortener(map[], {});
    s.SaveMapping("abc123", "https://example.com", 0.0);
    assert s.urls["abc123"] == Entry("https://example.com", 0, 0);

    var o := s.Redirect("abc123", 599.0);
    assert !StartsWith("https://example.com", UPLOAD_PREFIX) by {
      assert "https://example.com"[0] != UPLOAD_PREFIX[0];
    }
    assert o == RedirectTo("https://example.com");
    assert s.urls["abc123"].hits == 1;

    o := s.Redirect("abc123", 601.0);
    assert o == Expired;
    assert s.urls["abc123"].hits == 1;

    s.Sweep(601.0, {});
    assert "abc123" !in s.urls;
    o := s.Redirect("abc123", 601.0);
    assert o == NotFound;
  }

  /** The table and the upload folder after the first sweep of `FileLifecycle`. */
  lemma FileSwept(path: string)
    requires path == Join(UPLOAD_FOLDER, "1_a.png")
    ensures var saved := Upsert(map[], "x", UPLOAD_PREFIX + "1_a.png", 1);
      Reap(saved, 602) == map[] && FilesAfter({path}, saved, 602, {}) == {}
  {
    var saved := Upsert(map[], "x", UPLOAD_PREFIX + "1_a.png", 1);
    assert saved.Keys == {"x"} && saved["x"].createdAt == 1;
    ExpiredUploadIsRemoved(saved, "x", "1_a.png", 602, {path}, {});
    assert Reap(saved, 602).Keys == {};
  }

  method FileLifecycle()
  {
    var path := Join(UPLOAD_FOLDER, "1_a.png");
    var s := new Shortener(map[], {path});
    assert Trunc(1.0) == 1 && Trunc(602.0) == 602;
    FileSwept(path);

    s.SaveMapping("x", UPLOAD_PREFIX + "1_a.png", 1.0);
    s.Sweep(602.0, {});
    assert s.files == {} && s.urls == map[];

    // A second sweep at the same time changes nothing.
    SweepIdempotent(map[], 602, {}, {});
    s.Sweep(602.0, {});
    assert s.files == {} && s.urls == map[];
  }
}
