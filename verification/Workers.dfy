/** The workers that the caching strategies keep: one component at one version each. */
module Workers {
  import opened Vsm

  datatype Worker = Worker(component: nat, version: Version)
}
