/** The output-path rule of `save_file_result`: the chosen path gets a
    `.csv` suffix unless it already ends with one. Writing the file
    (`to_csv`) is not modelled. */
module Export {
  import opened Wrappers
  import opened Convert

  const CsvSuffix: string := ".csv"

  /** Python's `s.endswith(suffix)`. */
  predicate EndsWith(s: string, suffix: string) {
    |suffix| <= |s| && s[|s| - |suffix|..] == suffix
  }

  /** The path `to_csv` writes to: the chosen path, extended by `.csv` only
      when it does not already end with it. */
  function CsvPath(path: string): (r: string)
    ensures EndsWith(r, CsvSuffix)
    ensures |path| <= |r| && r[..|path|] == path
    ensures r == path || r == path + CsvSuffix
    ensures r == path <==> EndsWith(path, CsvSuffix)
  {
    if !EndsWith(path, CsvSuffix) then
      var r := path + CsvSuffix;
      assert r[|r| - |CsvSuffix|..] == CsvSuffix;
      r
    else path
  }

  /** Applying the suffix rule twice equals applying it once. */
  lemma CsvPathIdempotent(path: string)
    ensures CsvPath(CsvPath(path)) == CsvPath(path)
  {
  }

  /** `save_file_result`: a file is written only when the dialog returned a
      path and extraction has produced a frame; the path written is the
      suffixed one. */
  function SaveTarget(path: Option<string>, data: Option<Frame>): (r: Option<string>)
    ensures r.Some? <==> path.Some? && path.value != "" && data.Some?
    ensures r.Some? ==> EndsWith(r.value, CsvSuffix) && r.value == CsvPath(path.value)
  {
    if path.Some? && path.value != "" && data.Some? then Some(CsvPath(path.value)) else None
  }
}
