/**
 * The Prometheus registry, abstracted to a map from gauge (metric name plus label values)
 * to its current value.
 */
module Metrics {

  /**
   * One gauge of the exporter: a metric, with its label values where it has labels.
   * Label values are text. A Go string is a byte sequence, so the kernel release that
   * `charsToString` builds (`Kernel.CharsToString`, bytes) reaches the `release` label only
   * through `kernel.Version`, which is not part of this model; the two stay separate types.
   */
  datatype Key =
    | StatusOp(op: string)                           // update_engine_status{op}
    | LastCheckedTime                                // update_engine_last_checked_time_s
    | LastDbusUpdate                                 // update_engine_last_dbus_update
    | UpdateProgress                                 // update_engine_update_progress_pct
    | NewVersionAvailable                            // update_engine_new_version_available
    | TimeInCurrentStatus                            // update_engine_time_in_current_status_s
    | Os(id: string, version: string, board: string) // update_engine_os{id,version,board}
    | Kernel(release: string)                        // update_engine_kernel{release}

  /** The registry: every gauge set so far and its value. */
  type Gauges = map<Key, real>

  /** The value a boolean is published as. */
  function Indicator(b: bool): real
  {
    if b then 1.0 else 0.0
  }
}
