/** Shared vocabulary: the option type and the error codes the model distinguishes. */
module Common {

  datatype Option<+T> = None | Some(value: T)

  /** Return codes of littlefs (lfs.h, enum lfs_error) that some modelled branch tests. */
  datatype Error = Corrupt | NoEnt | NoSpc | FBig | Inval

  datatype Result<+T> = Ok(value: T) | Err(error: Error)
}
