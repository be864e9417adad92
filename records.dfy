/** The records the analyzer works on: one row of the loaded call-log table
    and the configuration the pipeline is run with. */
module Records {

  /** A value that may be missing: a null or NaN cell of the table is None. */
  datatype Option<+T> = None | Some(value: T)

  /** One row of the combined call-log table. `createdAt` is the "Created at"
      column already parsed to an integer instant (seconds since the epoch, UTC). */
  datatype CallRecord = CallRecord(
    direction: string,
    to: string,
    from: string,
    duration: Option<nat>,
    createdAt: int
  )

  /** The user the report is about and the minimum number of seconds a call
      must last to count as active (ACTIVE_CALL_SECONDS_THRESHOLD). */
  datatype Config = Config(user: string, threshold: int)
}
