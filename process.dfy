/** What the model sees of an external command (`git`, `repo info`): the
    result of xshell's `Cmd::output`. The commands themselves are not
    modelled; their results are inputs. */
module Process {

  /** A finished command: whether the exit status was success, and its
      standard output and standard error, already decoded. */
  datatype Output = Output(success: bool, stdout: string, stderr: string)

  /** `Failed` is the error `Cmd::output` returns: the command could not be
      started, or it exited unsuccessfully and its status was not ignored.
      `Ran` carries the output; its status can be unsuccessful only for a
      command whose status is ignored. */
  datatype Run =
    | Failed
    | Ran(output: Output)
}
