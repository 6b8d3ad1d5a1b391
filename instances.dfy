/**
 The entities of a multirun launch: an instance (id, colour, prefix and its
 command), the command's process, and the operating system's answer to one
 launch attempt.
 */
module Instances {

  datatype Option<T> = None | Some(value: T)

  /** An operating-system process handle. */
  datatype Process = Process(pid: nat)

  /** A command; `process` is set once the command has been started. */
  datatype Command = Command(process: Option<Process>)

  datatype Instance = Instance(id: nat, color: string, prefix: string, cmd: Option<Command>)

  /**
   How the operating system answered one instance's launch: the first of the
   three calls (stdout pipe, stderr pipe, start) that failed, or the process
   that was started.
   */
  datatype Attempt = StdoutPipeFailed | StderrPipeFailed | StartFailed | Started(process: Process)
}
