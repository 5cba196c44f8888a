/** Failure-carrying datatypes shared by the directory model. */
module Results {

  datatype Option<+T> = None | Some(value: T)

  /** The ways a directory operation rejects. Each constructor corresponds to
      an exception the client throws (its own `Error`s, or the TypeError a
      missing or mis-shaped stored field provokes). */
  datatype Error =
    | BadArgument(reason: string)      // a caller-supplied value of the wrong kind
    | ClusterMissing(slug: string)     // the slug is not in the all-clusters map
    | ChannelMissing(channel: string)  // the channel is not in the channel list
    | NoEnvironment(path: string)      // the cluster's path yields no environment
    | Unreadable(path: string)         // a stored document or field is absent or of the wrong shape

  datatype Result<+T> = Ok(value: T) | Err(error: Error)
}
