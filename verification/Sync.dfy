/** Latest-wins choice between the browser's snapshot and the cloud document. */
module Sync {
  import opened Wrappers
  import opened Entities

  /** What `loadLocal` returns: the stored state and when it was last saved (0 when unknown). */
  datatype Snapshot = Snapshot(projects: seq<Project>, activeIndex: int, updatedAt: int)

  /**
   * The cloud document as read: each field may be absent. `updatedAt` is
   * the timestamp's `toMillis()`, None when the field has no such method.
   */
  datatype CloudDoc = CloudDoc(projects: Option<seq<Project>>, activeIndex: Option<int>, updatedAt: Option<int>)

  /** The cloud document's time: its milliseconds, or 0 without a timestamp. */
  function CloudTime(cloud: CloudDoc): (t: int)
    ensures cloud.updatedAt.Some? ==> t == cloud.updatedAt.value
    ensures cloud.updatedAt.None? ==> t == 0
  {
    cloud.updatedAt.GetOr(0)
  }

  /** The snapshot the cloud document stands for when it wins. */
  function FromCloud(cloud: CloudDoc): (r: Snapshot)
    ensures r.projects == (if cloud.projects.Some? then cloud.projects.value else [])
    ensures r.activeIndex == (if cloud.activeIndex.Some? then cloud.activeIndex.value else -1)
    ensures r.updatedAt == CloudTime(cloud)
  {
    Snapshot(cloud.projects.GetOr([]), cloud.activeIndex.GetOr(-1), CloudTime(cloud))
  }

  /** `resolve(local, cloud)`: the cloud document wins unless the local snapshot is strictly newer. */
  function Resolve(local: Snapshot, cloud: Option<CloudDoc>): (r: Snapshot)
    ensures cloud.None? ==> r == local
    ensures cloud.Some? && CloudTime(cloud.value) >= local.updatedAt ==> r == FromCloud(cloud.value)
    ensures cloud.Some? && CloudTime(cloud.value) < local.updatedAt ==> r == local
    ensures cloud.Some? ==> r.updatedAt == (if CloudTime(cloud.value) >= local.updatedAt then CloudTime(cloud.value) else local.updatedAt)
  {
    if cloud.None? then local
    else if CloudTime(cloud.value) >= local.updatedAt then FromCloud(cloud.value)
    else local
  }

  /** The result is one of the two candidates: never a mix of local and cloud fields. */
  lemma ResolveIsOneSide(local: Snapshot, cloud: Option<CloudDoc>)
    ensures Resolve(local, cloud) == local || (cloud.Some? && Resolve(local, cloud) == FromCloud(cloud.value))
  {
  }

  /** Equal timestamps go to the cloud document. */
  lemma TieGoesToCloud(local: Snapshot, cloud: CloudDoc)
    requires CloudTime(cloud) == local.updatedAt
    ensures Resolve(local, Some(cloud)) == FromCloud(cloud)
  {
  }

  /** A cloud document without a timestamp counts as time 0: it wins exactly when the local time is 0 or less. */
  lemma UntimedCloud(local: Snapshot, cloud: CloudDoc)
    requires cloud.updatedAt.None?
    ensures Resolve(local, Some(cloud)) == (if local.updatedAt <= 0 then FromCloud(cloud) else local)
  {
  }

  /** Resolving against the same document a second time changes nothing. */
  lemma ResolveIdempotent(local: Snapshot, cloud: Option<CloudDoc>)
    ensures Resolve(Resolve(local, cloud), cloud) == Resolve(local, cloud)
  {
  }

  /** A winning cloud document's selection is taken as it is, even when it names no project. */
  lemma ActiveIndexNotValidated()
    ensures Resolve(Snapshot([], -1, 5), Some(CloudDoc(Some([]), Some(3), Some(7)))) == Snapshot([], 3, 7)
    ensures Resolve(Snapshot([], 2, 5), Some(CloudDoc(None, None, Some(5)))) == Snapshot([], -1, 5)
    ensures Resolve(Snapshot([], 0, 0), Some(CloudDoc(None, Some(0), None))).activeIndex == 0
  {
  }
}
