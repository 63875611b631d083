/** The status of a request that the monkey tests share between a worker and its callbacks. */
module RequestStatus {
  datatype Status =
    | RequestInvalid
    | RequestCreated
    | RequestStart
    | RequestStarted
    | RequestFailed
    | RequestRunning
    | RequestStop
    | RequestClosed
    | RequestCancelled
    | RequestReleased
}
