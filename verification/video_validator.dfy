/** `EnsureImportableVideoValidator`
    (backend/Queue/Validators/EnsureImportableVideoValidator.cs): a job must
    add at least one video file. The entries the job's transaction tracks
    are given as a sequence. */
module EnsureImportableVideoValidator {
  import opened Wrappers
  import DavItems
  import FilenameUtil

  datatype EntityState = Added | Unchanged | Modified | Deleted

  datatype Tracked = Tracked(state: EntityState, item: DavItems.DavItem)

  /** An entry that satisfies the validator: added, not a directory, and
      with a video extension (the validator keeps its own copy of the same
      extension list as `FilenameUtil`). */
  predicate ImportableVideo(t: Tracked) {
    t.state == Added && t.item.itemType != DavItems.Directory && FilenameUtil.IsVideoFile(t.item.name)
  }

  predicate HasImportableVideo(entries: seq<Tracked>) {
    exists i :: 0 <= i < |entries| && ImportableVideo(entries[i])
  }

  /** `IsValid`: some added non-directory entry has a video extension. */
  method IsValid(entries: seq<Tracked>) returns (valid: bool)
    ensures valid <==> HasImportableVideo(entries)
  {
    valid := false;
    var i := 0;
    while i < |entries|
      invariant 0 <= i <= |entries|
      invariant valid <==> exists j :: 0 <= j < i && ImportableVideo(entries[j])
    {
      if ImportableVideo(entries[i]) {
        valid := true;
      }
      i := i + 1;
    }
  }

  /** `ThrowIfValidationFails`: fails with `NoVideoFilesFound` exactly when
      no added file, directories aside, is a video file. */
  method ThrowIfValidationFails(entries: seq<Tracked>) returns (r: Result<()>)
    ensures r.Err? <==> forall i :: (0 <= i < |entries| && entries[i].state == Added
                                      && entries[i].item.itemType != DavItems.Directory)
                                     ==> !FilenameUtil.IsVideoFile(entries[i].item.name)
    ensures r.Err? ==> r.error == NoVideoFilesFound
  {
    var valid := IsValid(entries);
    if !valid {
      return Err(NoVideoFilesFound);
    }
    return Ok(());
  }
}
