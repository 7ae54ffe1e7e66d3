/** The failures the bootstrap can surface (its `anyhow` errors, by cause); each one aborts the run. */
module Errors {
  datatype Error =
    | TransportError     // the HTTP request failed
    | TimeSyncError      // the server time is not a decimal u64
    | PathEncodingError  // a path is not valid UTF-8
    | SpawnError         // a subprocess could not be started or waited on
}
