/** Optional values, results and the failure conditions of the bikeshare pipeline. */
module Results {

  /** An optional value: a validated answer, or a statistic that is skipped. */
  datatype Option<+T> = None | Some(value: T)

  /** The conditions under which the pipeline stops instead of producing a report. */
  datatype Failure =
    | UnknownCity      // the city is not a key of the dataset registry (a KeyError)
    | MissingSource    // the registry names a data file that is not available
    | UnknownMonth     // the month is neither "all" nor one of the six month names (a ValueError)
    | UnknownDay       // the day is neither "all" nor one of the seven weekday names (a ValueError)
    | NoDataForFilter  // an aggregation was asked of an empty collection of values

  /** Either a value or the failure that prevented it. */
  datatype Result<+T> = Ok(value: T) | Err(error: Failure)
}
