/**
 * The file-type gate of the upload handler: a dropped file is processed only
 * when its MIME type matches the anchored pattern `^text/(csv|plain)$`.
 */
module FileType {
  import opened Options
  import opened AsciiText

  const MediaPrefix := "text/"

  /**
   * The regular expression `^text\/(csv|plain)$` without flags: the whole type
   * string is `text/` followed by exactly one of the two alternatives.
   */
  predicate MatchesCsvType(mime: string) {
    StartsWith(mime, MediaPrefix) && (mime[|MediaPrefix|..] == "csv" || mime[|MediaPrefix|..] == "plain")
  }

  /**
   * `file && !file.type.match(...)` is the rejection test: a missing file is
   * never rejected here (it is handed to the parser as is), a present one must match.
   */
  function Admits(file: Option<string>): (ok: bool)
    ensures ok <==> file == None || file.value == "text/csv" || file.value == "text/plain"
  {
    match file
    case None => true
    case Some(mime) =>
      assert MatchesCsvType(mime) <==> mime == "text/csv" || mime == "text/plain" by {
        if mime == "text/csv" || mime == "text/plain" {
          assert mime[..5] == MediaPrefix;
        }
        if MatchesCsvType(mime) {
          assert mime == mime[..5] + mime[5..];
        }
      }
      MatchesCsvType(mime)
  }

  /**
   * The match is case-sensitive, anchored at both ends and knows no parameters:
   * spellings a browser may report for a CSV file are refused.
   */
  lemma OtherSpellingsRejected()
    ensures !Admits(Some("text/CSV"))
    ensures !Admits(Some("text/csv;charset=utf-8"))
    ensures !Admits(Some("application/vnd.ms-excel"))
    ensures !Admits(Some(""))
  {
  }
}
