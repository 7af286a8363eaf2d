/** The Sleuth Kit plumbing the journal reader is written against: the block-walk
    callback's return value, the error numbers it sets, and an option type. */
module Tsk {

  /** What a `tsk_fs_block_walk` callback answers: go on, stop early, or fail the walk. */
  datatype WalkRet = Cont | Stop | WalkError

  /** The `tsk_error_set_errno` codes the journal reader uses. */
  datatype ErrNo = FsArg | FsCorrupt | FsFwalk | FsWalkRng

  datatype Option<T> = None | Some(value: T)
}
