/**
 * The per-resource deletion records the janitor package queues for its workers:
 * the project, the zone and the delete request of one image or one instance.
 */
module JanitorDeleter {
  import Naming
  import opened Compute
  import opened Operations

  datatype DeleteMetadata =
    | ImageDeleteMetadata(project: string, image: Resource)
    | InstanceDeleteMetadata(project: string, instance: Resource)
  {
    /** The project the resource lives in. */
    function Project(): (p: string)
      ensures p == project
    {
      match this
      case ImageDeleteMetadata(p, _) => p
      case InstanceDeleteMetadata(p, _) => p
    }

    /** Images are global, so they report no zone; an instance reports its zone URL. */
    function Zone(): (z: string)
      ensures ImageDeleteMetadata? ==> z == ""
      ensures InstanceDeleteMetadata? ==> z == instance.zone
    {
      if ImageDeleteMetadata? then "" else instance.zone
    }

    /**
     * The delete request: by image name, or by instance name in the zone named by
     * the zone URL's last segment, always in the record's project.
     */
    function Call(): (c: DeleteCall)
      ensures c.project == project
      ensures ImageDeleteMetadata? <==> c.ImagesDelete?
      ensures ImageDeleteMetadata? ==> c.image == image.name
      ensures InstanceDeleteMetadata? ==> c.instance == instance.name && c.zone == Naming.NameFromURL(instance.zone)
    {
      match this
      case ImageDeleteMetadata(p, im) => ImagesDelete(p, im.name)
      case InstanceDeleteMetadata(p, ins) => InstancesDelete(p, Naming.NameFromURL(ins.zone), ins.name)
    }

    /** The queue entry a worker acts on: it polls in `Project()` and issues `Call()`. */
    function AsJob(): Job
    {
      Job(Project(), Call())
    }
  }

  /**
   * The request of an instance record targets a zone name with no `/`, which is the
   * last segment of the instance's zone URL, and the request's project is the record's.
   */
  lemma CallTargets(m: DeleteMetadata)
    ensures m.Call().project == m.Project()
    ensures m.ImageDeleteMetadata? ==> m.Call() == ImagesDelete(m.project, m.image.name)
    ensures m.InstanceDeleteMetadata? ==>
            m.Call().InstancesDelete? && m.Call().instance == m.instance.name &&
            '/' !in m.Call().zone && |m.Call().zone| <= |m.Zone()| &&
            m.Zone()[|m.Zone()| - |m.Call().zone|..] == m.Call().zone
  {
  }

  /** The jobs the workers see for a queue of records. */
  function JobsOf(ms: seq<DeleteMetadata>): (jobs: seq<Job>)
    ensures |jobs| == |ms|
  {
    seq(|ms|, k requires 0 <= k < |ms| => ms[k].AsJob())
  }
}
