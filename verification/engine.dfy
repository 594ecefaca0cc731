/**
 * The interface of the update-engine D-Bus client the exporter consumes: the status
 * record it delivers and the names of the engine's operation states. The client itself
 * (connecting, subscribing, decoding D-Bus signals) is not part of this model.
 */
module Engine {

  /** The fields of one status event that the exporter reads. */
  datatype Status = Status(
    lastCheckedTime: int,      // Unix seconds of the engine's last update check
    progress: real,            // download/verify progress, copied through unchanged
    currentOperation: string,  // one of the state names below, or anything else the engine sends
    newVersion: string         // the version on offer, "0.0.0" when there is none
  )

  /** The version string the engine reports when no new version is on offer. */
  const NoVersion: string := "0.0.0"

  const Idle: string := "UPDATE_STATUS_IDLE"
  const CheckingForUpdate: string := "UPDATE_STATUS_CHECKING_FOR_UPDATE"
  const UpdateAvailable: string := "UPDATE_STATUS_UPDATE_AVAILABLE"
  const Downloading: string := "UPDATE_STATUS_DOWNLOADING"
  const Verifying: string := "UPDATE_STATUS_VERIFYING"
  const Finalizing: string := "UPDATE_STATUS_FINALIZING"
  const UpdatedNeedReboot: string := "UPDATE_STATUS_UPDATED_NEED_REBOOT"
  const ReportingErrorEvent: string := "UPDATE_STATUS_REPORTING_ERROR_EVENT"

  /** The eight states the exporter publishes a gauge for, in the order it writes them. */
  const States: seq<string> := [
    Idle, CheckingForUpdate, UpdateAvailable, Downloading,
    Verifying, Finalizing, UpdatedNeedReboot, ReportingErrorEvent
  ]
}
