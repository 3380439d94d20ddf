/**
 * The job record of the dependency-ordered job manager
 * (`7.Simple_Job_Manager/JobNode.java`).
 */
module JobNodes {
  import opened Wrappers

  /**
   * One registered job: its class name (also its key in the registry),
   * the names it depends on (order and repetitions kept), the absolute
   * time in milliseconds at which it should first run, and whether it is
   * periodic with which period.
   */
  datatype JobNode = JobNode(
    jobClassName: string,
    dependencies: seq<string>,
    executionTime: int,
    isPeriodic: bool,
    period: int)

  /**
   * The constructor of JobNode. A `null` dependency list (`None`) becomes the
   * empty list; every other argument is stored as given, the period even for
   * a job that is not periodic.
   */
  function NewJobNode(jobClassName: string, dependencies: Option<seq<string>>,
                      executionTime: int, isPeriodic: bool, period: int): (node: JobNode)
    ensures node.jobClassName == jobClassName
    ensures dependencies.None? ==> node.dependencies == []
    ensures dependencies.Some? ==> node.dependencies == dependencies.value
    ensures node.executionTime == executionTime
    ensures node.isPeriodic == isPeriodic && node.period == period
  {
    JobNode(jobClassName,
            if dependencies.Some? then dependencies.value else [],
            executionTime, isPeriodic, period)
  }
}
