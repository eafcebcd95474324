/** Expiry followed by a rebuild, on the tree the jobs share. */
module NaiveTreeCleanup {
  import opened Points
  import opened KdTree
  import BurstTreeJobs

  /** `NaiveTreeCleanupJob.Execute`: the same contract as `TreeCleanupJob`. */
  method NaiveTreeCleanupJob(currentTime: real, maxAge: real, tree: BurstKdTree)
    requires tree.Valid()
    modifies tree
    ensures tree.Valid()
    ensures tree.State() == BurstTreeJobs.CleanupSpec(old(tree.State()), currentTime, maxAge)
  {
    var buffer := [];
    var i := 0;
    while i < |tree.points|
      invariant 0 <= i <= |tree.points|
      invariant tree.State() == old(tree.State())
      invariant buffer == Survivors(tree.points[..i], currentTime, maxAge)
    {
      assert tree.points[..i + 1][..i] == tree.points[..i];
      if currentTime - tree.points[i].timestamp < maxAge {
        buffer := buffer + [tree.points[i]];
      }
      i := i + 1;
    }
    assert tree.points[..i] == tree.points;

    if |buffer| != |tree.points| {
      BurstTreeJobs.Rebuild(tree, buffer);
    }
  }
}
