/**
 * The choice of file format in load_monitoring_data and
 * save_monitoring_data (scripts/tpp_utils.py): by the path's suffix,
 * compared case-sensitively, `.csv` first, then `.json`, and a ValueError
 * for anything else. The reading and writing themselves are not modelled.
 */
module FileFormats {
  import opened Wrappers

  /** The ValueError "Unsupported file format: <path>". */
  datatype FormatError = UnsupportedFormat(path: string)

  /** How load_monitoring_data reads each format into a data frame. */
  datatype Loader =
    | ReadCsv          // pd.read_csv
    | ReadJsonRecords  // json.load, then a DataFrame of the records

  /** How save_monitoring_data writes each format. */
  datatype Saver =
    | WriteCsvWithoutIndex  // to_csv(index=False)
    | WriteJsonRecords      // timestamps as text, to_dict('records'), json.dump with indent 2

  /** `str.endswith`: exact, case-sensitive comparison of the last characters. */
  predicate EndsWith(s: string, suffix: string)
  {
    |suffix| <= |s| && s[|s| - |suffix|..] == suffix
  }

  /** A path that ends with a suffix ends with the suffix's last character. */
  lemma LastCharacter(path: string, suffix: string)
    requires suffix != []
    ensures EndsWith(path, suffix) ==> path[|path| - 1] == suffix[|suffix| - 1]
  {
    if EndsWith(path, suffix) {
      assert path[|path| - |suffix|..][|suffix| - 1] == path[|path| - 1];
    }
  }

  /** No path ends with both suffixes, so the order of the two tests does not matter. */
  lemma SuffixesExclusive(path: string)
    ensures !(EndsWith(path, ".csv") && EndsWith(path, ".json"))
  {
    LastCharacter(path, ".csv");
    LastCharacter(path, ".json");
  }

  /** load_monitoring_data's choice of reader: `.csv`, then `.json`, else ValueError. */
  function LoaderFor(path: string): (r: Result<Loader, FormatError>)
    ensures r == Ok(ReadCsv) <==> EndsWith(path, ".csv")
    ensures r == Ok(ReadJsonRecords) <==> EndsWith(path, ".json")
    ensures r.Err? <==> !EndsWith(path, ".csv") && !EndsWith(path, ".json")
    ensures r.Err? ==> r.error == UnsupportedFormat(path)
  {
    SuffixesExclusive(path);
    if EndsWith(path, ".csv") then Ok(ReadCsv)
    else if EndsWith(path, ".json") then Ok(ReadJsonRecords)
    else Err(UnsupportedFormat(path))
  }

  /** save_monitoring_data's choice of writer: `.csv`, then `.json`, else ValueError. */
  function SaverFor(path: string): (r: Result<Saver, FormatError>)
    ensures r == Ok(WriteCsvWithoutIndex) <==> EndsWith(path, ".csv")
    ensures r == Ok(WriteJsonRecords) <==> EndsWith(path, ".json")
    ensures r.Err? <==> !EndsWith(path, ".csv") && !EndsWith(path, ".json")
    ensures r.Err? ==> r.error == UnsupportedFormat(path)
  {
    SuffixesExclusive(path);
    if EndsWith(path, ".csv") then Ok(WriteCsvWithoutIndex)
    else if EndsWith(path, ".json") then Ok(WriteJsonRecords)
    else Err(UnsupportedFormat(path))
  }

  /**
   * Loading and saving classify paths alike: a path that can be saved can
   * be loaded, in the same format, and a path one rejects the other rejects
   * with the same error.
   */
  lemma LoadAndSaveAgree(path: string)
    ensures LoaderFor(path).Err? <==> SaverFor(path).Err?
    ensures LoaderFor(path).Err? ==> LoaderFor(path).error == SaverFor(path).error == UnsupportedFormat(path)
    ensures LoaderFor(path) == Ok(ReadCsv) <==> SaverFor(path) == Ok(WriteCsvWithoutIndex)
    ensures LoaderFor(path) == Ok(ReadJsonRecords) <==> SaverFor(path) == Ok(WriteJsonRecords)
  {
  }

  /** Suffix matching is case-sensitive: upper-case suffixes are rejected. */
  lemma UpperCaseSuffixRejected(stem: string)
    ensures LoaderFor(stem + ".CSV").Err? && SaverFor(stem + ".CSV").Err?
    ensures LoaderFor(stem + ".JSON").Err? && SaverFor(stem + ".JSON").Err?
  {
    var p, q := stem + ".CSV", stem + ".JSON";
    assert p[|p| - 1] == 'V' && q[|q| - 1] == 'N';
    LastCharacter(p, ".csv");
    LastCharacter(p, ".json");
    LastCharacter(q, ".csv");
    LastCharacter(q, ".json");
  }
}
