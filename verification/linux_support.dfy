/** The `LinuxSupport` object: install and uninstall performed step by step
    on the file system it holds, each step a host call that updates the
    object's fields. Each method is proved to end in the state, and with
    the result, that the `Lifecycle` functions give, so the lemmas proved
    there (round trip, idempotence, independent removals) hold of it. */
module LinuxIntegration {

  import opened Wrappers
  import opened Paths
  import opened DesktopEntries
  import opened FileSystems
  import opened Lifecycle

  class LinuxSupport {
    /** The profile directory the running browser reports. */
    const profileDir: Path
    /** The file system as the host sees it: regular files and directories. */
    var files: map<Path, Content>
    var dirs: set<Path>

    function Snapshot(): FileSystem
      reads this
    {
      FileSystem(files, dirs)
    }

    ghost predicate Valid()
      reads this
    {
      IsAbsolute(profileDir) && WellFormed(Snapshot())
    }

    constructor (profileDir: Path, initial: FileSystem)
      requires IsAbsolute(profileDir) && WellFormed(initial)
      ensures Valid() && this.profileDir == profileDir && Snapshot() == initial
    {
      this.profileDir := profileDir;
      files := initial.files;
      dirs := initial.dirs;
    }

    /** Creates the private directory, saves the icon when the provider has
        one, and writes the launcher descriptor. Errors reach the caller
        and leave what was done so far in place. */
    method Install(ssb: Ssb, icon: Option<Icon>, faults: InstallFaults) returns (outcome: Outcome)
      requires Valid()
      modifies this
      ensures Valid()
      ensures Snapshot() == Lifecycle.Install(old(Snapshot()), profileDir, ssb, icon, faults).fs
      ensures outcome == Lifecycle.Install(old(Snapshot()), profileDir, ssb, icon, faults).outcome
      ensures icon.None? ==> outcome.Failed? && files == old(files)
      ensures outcome.Failed? ==> SameAt(old(Snapshot()), Snapshot(), LauncherPath(ssb.name, ssb.id))
      ensures outcome.Done? ==>
        var dir := PrivateDir(profileDir, ssb.id);
        && dir in dirs
        && LauncherPath(ssb.name, ssb.id) in files
        && files[LauncherPath(ssb.name, ssb.id)] == Text(DesktopEntry(ssb.name, profileDir, ssb.id, IconPath(dir)))
    {
      var dir := PrivateDir(profileDir, ssb.id);
      var made := MakeDirectory(Snapshot(), {SsbRoot(profileDir)}, dir, faults.makeDirectory);
      if made.Failure? {
        return Failed(DirectoryFailed(made.error));
      }
      dirs := made.value.dirs;

      var iconFile: Option<Path> := Some(IconPath(dir));
      if icon.Some? {
        if faults.loadImage {
          return Failed(ImageLoadFailed);
        }
        // The save is not awaited: a failed save is never seen here.
        var saved := Write(Snapshot(), iconFile.value, Png(IconSize, IconSize, icon.value.src), faults.saveIcon);
        if saved.Success? {
          files := saved.value.files;
        }
      } else {
        iconFile := None;
      }

      var desktopFile := LauncherPath(ssb.name, ssb.id);
      if iconFile.None? {
        // Rendering the descriptor reads the path of the null icon file.
        return Failed(NullIconFile);
      }
      var text := DesktopEntry(ssb.name, profileDir, ssb.id, iconFile.value);
      var written := Write(Snapshot(), desktopFile, Text(text), faults.write);
      if written.Failure? {
        return Failed(WriteFailed(written.error));
      }
      files := written.value.files;
      outcome := Done;
    }

    /** Removes the launcher descriptor, then the private directory with
        everything in it; each removal is guarded on its own, so nothing
        fails to the caller. What the guards caught is returned. */
    method Uninstall(ssb: Ssb, faults: UninstallFaults) returns (diagnostics: seq<IOError>)
      requires Valid()
      modifies this
      ensures Valid()
      ensures Snapshot() == Lifecycle.Uninstall(old(Snapshot()), profileDir, ssb, faults).fs
      ensures diagnostics == Lifecycle.Uninstall(old(Snapshot()), profileDir, ssb, faults).diagnostics
      ensures !faults.removeDirectory ==> forall q :: Under(q, PrivateDir(profileDir, ssb.id)) ==> q !in files && q !in dirs
      ensures !faults.removeLauncher && LauncherPath(ssb.name, ssb.id) !in old(dirs) ==>
        LauncherPath(ssb.name, ssb.id) !in files && LauncherPath(ssb.name, ssb.id) !in dirs
    {
      diagnostics := [];
      var desktopFile := LauncherPath(ssb.name, ssb.id);
      var removed := Remove(Snapshot(), desktopFile, false, faults.removeLauncher);
      if removed.Success? {
        files, dirs := removed.value.files, removed.value.dirs;
      } else {
        diagnostics := diagnostics + [removed.error];
      }

      var dir := PrivateDir(profileDir, ssb.id);
      var pruned := Remove(Snapshot(), dir, true, faults.removeDirectory);
      if pruned.Success? {
        files, dirs := pruned.value.files, pruned.value.dirs;
      } else {
        diagnostics := diagnostics + [pruned.error];
      }
      UninstallEffect(old(Snapshot()), profileDir, ssb, faults);
    }
  }
}
