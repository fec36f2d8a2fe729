/** The daemon's status of its folders and the authorisation that reads it
    (internal/daemon/daemon.go:31-38, 95-119 and 302-329). */
module Status {
  import opened Model

  /** The zero time of LastSuccess is `succeeded` false; an empty LastError is no error. */
  datatype FolderStatus = FolderStatus(source: string, entries: int, succeeded: bool, lastError: string, received: int, reused: int)

  const UNKNOWN: FolderStatus := FolderStatus("", 0, false, "", 0, 0)

  /** The arguments of update: what a scan or a pass counted up to its end or its error. An error has a
      message. */
  datatype Report = Report(count: int, stats: Stats, error: Option<string>)

  function After(s: FolderStatus, r: Report): FolderStatus {
    if r.error.Some? then s.(lastError := r.error.value)
    else FolderStatus(s.source, r.count, true, "", s.received + r.stats.received, s.reused + r.stats.reused)
  }

  function AfterAll(s: FolderStatus, log: seq<Report>): FolderStatus {
    if log == [] then s else After(AfterAll(s, log[..|log| - 1]), log[|log| - 1])
  }

  /** A folder of the configuration: its source, and who may read it. */
  datatype Access = Access(source: string, peers: seq<string>)

  predicate Admits(s: FolderStatus) {
    s.succeeded && s.lastError == ""
  }

  function DeviceId(devices: map<string, string>, name: string): string {
    if name in devices then devices[name] else ""
  }

  /** A configured peer has its configured device; a peer that is not configured, none. */
  predicate IsDevice(devices: map<string, string>, name: string, device: string) {
    if name in devices then devices[name] == device else device == ""
  }

  class Board {
    var folders: map<string, FolderStatus>

    constructor (folders: map<string, FolderStatus>)
      ensures this.folders == folders
    {
      this.folders := folders;
    }

    function Of(id: string): FolderStatus
      reads this
    {
      if id in folders then folders[id] else UNKNOWN
    }

    /** update: one folder's line, and only that. */
    method Update(id: string, r: Report)
      modifies this
      ensures folders.Keys == old(folders).Keys + {id}
      ensures forall g :: g in old(folders) && g != id ==> folders[g] == old(folders)[g]
      ensures id in old(folders) ==> folders[id] == After(old(folders)[id], r)
      ensures id !in old(folders) ==> folders[id] == After(FolderStatus("", 0, false, "", 0, 0), r)
    {
      var s := Of(id);
      if r.error.Some? {
        s := s.(lastError := r.error.value);
      } else {
        s := s.(lastError := "", succeeded := true, entries := r.count);
        s := s.(received := s.received + r.stats.received, reused := s.reused + r.stats.reused);
      }
      folders := folders[id := s];
    }

    /** authorize: the folder is configured, one of its peers has this device, its marker is in place,
        and a local folder's last scan in this process succeeded. */
    method Authorize(access: map<string, Access>, devices: map<string, string>, marked: set<string>, peer: string, id: string)
      returns (ok: bool)
      ensures ok <==> && id in access && id in marked
                      && (exists i :: 0 <= i < |access[id].peers| && IsDevice(devices, access[id].peers[i], peer))
                      && (access[id].source == "local" ==> id in folders && folders[id].succeeded && folders[id].lastError == "")
    {
      if id !in access {
        return false;
      }
      var f := access[id];
      var allowed := false;
      for i := 0 to |f.peers|
        invariant allowed <==> exists j :: 0 <= j < i && IsDevice(devices, f.peers[j], peer)
      {
        if DeviceId(devices, f.peers[i]) == peer {
          allowed := true;
          break;
        }
      }
      if !allowed || id !in marked {
        return false;
      }
      if f.source == "local" {
        var s := Of(id);
        return s.succeeded && s.lastError == "";
      }
      return true;
    }
  }

  /** The bytes of all reports, and of the failed ones alone. */
  function Received(log: seq<Report>, failedOnly: bool): int {
    if log == [] then 0
    else
      var r := log[|log| - 1];
      Received(log[..|log| - 1], failedOnly) + if r.error.Some? || !failedOnly then r.stats.received else 0
  }

  function Reused(log: seq<Report>, failedOnly: bool): int {
    if log == [] then 0
    else
      var r := log[|log| - 1];
      Reused(log[..|log| - 1], failedOnly) + if r.error.Some? || !failedOnly then r.stats.reused else 0
  }

  /** The totals of the status fall short of what all passes reported by exactly what the failed ones
      reported. */
  lemma {:induction false} TotalsOmitFailures(s: FolderStatus, log: seq<Report>)
    ensures var t := AfterAll(s, log);
            && t.received - s.received == Received(log, false) - Received(log, true)
            && t.reused - s.reused == Reused(log, false) - Reused(log, true)
  {
    if log != [] {
      TotalsOmitFailures(s, log[..|log| - 1]);
    }
  }

  /** In a process, the status of a local folder lets readers through exactly while its last report is a
      success, and then shows that report's count. */
  lemma {:induction false} GateFollowsLastReport(source: string, log: seq<Report>)
    requires forall i :: 0 <= i < |log| ==> log[i].error != Some("")
    ensures var s := AfterAll(UNKNOWN.(source := source), log);
            && (Admits(s) <==> log != [] && log[|log| - 1].error.None?)
            && (Admits(s) ==> s.entries == log[|log| - 1].count)
  {
    if log != [] {
      GateFollowsLastReport(source, log[..|log| - 1]);
    }
  }
}
