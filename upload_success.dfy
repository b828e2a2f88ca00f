/** The panel shown once an upload completes: the file's name with its size label. */
module UploadSuccess {
  import SizeFormat

  /**
   * `{file.name} ({formatFileSize(file.size)})`: the summary opens with the
   * name and closes with the size label in parentheses, so both can be read
   * back from it.
   */
  function Summary(name: string, size: nat): (s: string)
    ensures |s| == |name| + |SizeFormat.FormatFileSize(size)| + 3
    ensures s[..|name|] == name
    ensures s[|name|..|name| + 2] == " ("
    ensures s[|name| + 2..|s| - 1] == SizeFormat.FormatFileSize(size)
    ensures s[|s| - 1] == ')'
  {
    var shown := SizeFormat.FormatFileSize(size);
    var s := name + " (" + shown + ")";
    assert s == name + (" (" + shown + ")");
    assert s[|name|..] == " (" + shown + ")";
    s
  }

  /** A summary in bytes. */
  lemma SummaryExamples()
    ensures Summary("a.txt", 10) == "a.txt (10 bytes)"
  {
    var shown := SizeFormat.FormatFileSize(10);
    assert shown == "10 bytes" by {
      assert SizeFormat.Decimal(10) == "10";
    }
    assert "a.txt (10 bytes)" == "a.txt" + " (" + shown + ")";
  }

  /** A summary at a rounding tie. */
  lemma SummaryTie()
    ensures Summary("photo.png", 1280) == "photo.png (1.3 KB)"
  {
    var shown := SizeFormat.FormatFileSize(1280);
    assert shown == "1.3 KB" by {
      SizeFormat.KilobyteExamples();
    }
    assert "photo.png (1.3 KB)" == "photo.png" + " (" + shown + ")";
  }
}
