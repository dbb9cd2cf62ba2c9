/** Processes as the agent sees them, and the platform resolver that looks them up. */
module ProcessModel {
  import opened Wrappers
  import opened Bytes

  datatype Instance = Instance(pid: i32, startPrimary: u64, startSecondary: u64)

  datatype Executable = Executable(
    device: u64, inode: u64, generation: Option<u32>, size: u64,
    modifiedSeconds: i64, modifiedNanoseconds: i64,
    changedSeconds: i64, changedNanoseconds: i64)

  datatype StableIdentity = ByExecutable(executable: Executable) | ByInstance(instance: Instance)

  datatype ProcessInfo = ProcessInfo(
    instance: Instance, parentPid: i32, sessionId: Option<i32>, uid: u32,
    executable: Option<Executable>, executablePath: Option<string>)
  {
    function Pid(): i32 {
      instance.pid
    }

    function Stable(): StableIdentity {
      match executable
      case Some(e) => ByExecutable(e)
      case None => ByInstance(instance)
    }
  }

  /**
   * What the operating system answers during one walk. `infos` and `uids` are separate
   * probes and may disagree; `bridges` holds the verified parents across a macOS login
   * boundary, keyed by child, boundary pid and peer uid.
   */
  datatype Resolver = Resolver(
    infos: map<i32, ProcessInfo>,
    uids: map<i32, u32>,
    bridges: map<(ProcessInfo, i32, u32), ProcessInfo>)
  {
    /** Looking a pid up yields a process of that pid. */
    ghost predicate AnswersForPid() {
      forall pid :: pid in infos ==> infos[pid].Pid() == pid
    }

    /** The platform returns a bridged parent only when it runs under the peer's uid. */
    ghost predicate BridgesKeepUid() {
      forall k :: k in bridges ==> bridges[k].uid == k.2
    }
  }
}
