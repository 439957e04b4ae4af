/** The install/uninstall lifecycle of a site-specific browser on Linux, as
    functions from one file-system state to the next. The class in
    `LinuxIntegration` performs the same steps imperatively and is proved
    to agree with these functions; the lemmas here state what the steps
    achieve together (round trip, idempotence, independent removals). */
module Lifecycle {

  import opened Wrappers
  import opened Paths
  import opened DesktopEntries
  import opened FileSystems

  /** The SSB's identity as the registry hands it over. */
  datatype Ssb = Ssb(id: string, name: string)

  /** What the icon provider answers for an SSB: a loadable source reference. */
  datatype Icon = Icon(src: string)

  /** Width and height of the saved icon. */
  const IconSize: nat := 128

  /** Which host steps the operating system refuses during one install. */
  datatype InstallFaults = InstallFaults(makeDirectory: bool, loadImage: bool, saveIcon: bool, write: bool)

  /** Which of the two removals the operating system refuses during one uninstall. */
  datatype UninstallFaults = UninstallFaults(removeLauncher: bool, removeDirectory: bool)

  const NoInstallFaults: InstallFaults := InstallFaults(false, false, false, false)
  const NoUninstallFaults: UninstallFaults := UninstallFaults(false, false)

  /** The errors install lets reach its caller. */
  datatype InstallError =
    | DirectoryFailed(cause: IOError)
    | ImageLoadFailed
    | NullIconFile          // `iconFile.path` read after `iconFile = null`
    | WriteFailed(cause: IOError)

  datatype Outcome = Done | Failed(error: InstallError)

  datatype Installed = Installed(fs: FileSystem, outcome: Outcome)

  /** Uninstall has no error result; what it caught is returned as diagnostics. */
  datatype Uninstalled = Uninstalled(fs: FileSystem, diagnostics: seq<IOError>)

  /** The state of install after the directory and icon steps: the icon
      reference it goes on with, or the error that ended it. */
  datatype Prepared =
    | Ready(fs: FileSystem, iconFile: Option<Path>)
    | Aborted(fs: FileSystem, error: InstallError)

  /** Install changes files only at the icon path and the launcher path, and
      directories only by creating the SSB root and the private directory. */
  ghost predicate InstallFootprint(before: FileSystem, after: FileSystem, profileDir: Path, ssb: Ssb) {
    var dir := PrivateDir(profileDir, ssb.id);
    && (forall q :: q != IconPath(dir) && q != LauncherPath(ssb.name, ssb.id) ==>
          (q in before.files <==> q in after.files) && (q in before.files ==> before.files[q] == after.files[q]))
    && (after.dirs == before.dirs || after.dirs == before.dirs + {SsbRoot(profileDir), dir})
  }

  /** `saveIcon`, which install does not await: a failed save never reaches
      install, the icon is then just missing. */
  function SaveIcon(fs: FileSystem, path: Path, icon: Icon, denied: bool): (r: FileSystem)
    ensures forall q :: q != path ==> SameAt(fs, r, q)
    ensures !denied && path !in fs.dirs ==> path in r.files && r.files[path] == Png(IconSize, IconSize, icon.src)
    ensures denied || path in fs.dirs ==> r == fs
    ensures WellFormed(fs) ==> WellFormed(r)
  {
    match Write(fs, path, Png(IconSize, IconSize, icon.src), denied)
    case Success(saved) => saved
    case Failure(_) => fs
  }

  /** Install's first steps: create `<profileDir>/ssb/<id>` (ignoring an
      existing one), then save the icon if the provider has one. Without an
      icon, the icon reference becomes null. */
  function Prepare(fs: FileSystem, profileDir: Path, ssb: Ssb, icon: Option<Icon>, faults: InstallFaults): (r: Prepared)
    ensures forall q :: q != IconPath(PrivateDir(profileDir, ssb.id)) ==>
      (q in fs.files <==> q in r.fs.files) && (q in fs.files ==> fs.files[q] == r.fs.files[q])
    ensures r.fs.dirs == fs.dirs || r.fs.dirs == fs.dirs + {SsbRoot(profileDir), PrivateDir(profileDir, ssb.id)}
    ensures WellFormed(fs) ==> WellFormed(r.fs)
    ensures r.Ready? ==> PrivateDir(profileDir, ssb.id) in r.fs.dirs && SsbRoot(profileDir) in r.fs.dirs
    ensures r.Ready? ==> r.iconFile == if icon.Some? then Some(IconPath(PrivateDir(profileDir, ssb.id))) else None
    ensures icon.None? ==> r.fs.files == fs.files
    ensures IsAbsolute(profileDir) ==> SameAt(fs, r.fs, LauncherPath(ssb.name, ssb.id))
  {
    LauncherApart(profileDir, ssb);
    var dir := PrivateDir(profileDir, ssb.id);
    match MakeDirectory(fs, {SsbRoot(profileDir)}, dir, faults.makeDirectory)
    case Failure(e) => Aborted(fs, DirectoryFailed(e))
    case Success(made) =>
      match icon
      case None => Ready(made, None)
      case Some(i) =>
        if faults.loadImage then Aborted(made, ImageLoadFailed)
        else Ready(SaveIcon(made, IconPath(dir), i, faults.saveIcon), Some(IconPath(dir)))
  }

  /** Under an absolute profile directory the launcher is none of the paths
      the directory and icon steps touch. */
  lemma LauncherApart(profileDir: Path, ssb: Ssb)
    ensures var launcher, dir := LauncherPath(ssb.name, ssb.id), PrivateDir(profileDir, ssb.id);
      IsAbsolute(profileDir) ==> launcher != SsbRoot(profileDir) && launcher != dir && launcher != IconPath(dir)
  {
    if IsAbsolute(profileDir) {
      ArtifactsApart(profileDir, ssb.name, ssb.id, LauncherPath(ssb.name, ssb.id));
    }
  }

  /** The final step: write the descriptor, overwriting any earlier one. */
  function WriteLauncher(fs: FileSystem, ssb: Ssb, text: string, denied: bool): (r: Installed)
    ensures forall q :: q != LauncherPath(ssb.name, ssb.id) ==> SameAt(fs, r.fs, q)
    ensures r.outcome.Done? <==> !denied && LauncherPath(ssb.name, ssb.id) !in fs.dirs
    ensures r.outcome.Done? ==> r.fs.files == fs.files[LauncherPath(ssb.name, ssb.id) := Text(text)]
    ensures r.outcome.Failed? ==> r.fs == fs
    ensures r.fs.dirs == fs.dirs
    ensures WellFormed(fs) ==> WellFormed(r.fs)
  {
    match Write(fs, LauncherPath(ssb.name, ssb.id), Text(text), denied)
    case Success(written) => Installed(written, Done)
    case Failure(e) => Installed(fs, Failed(WriteFailed(e)))
  }

  /** `install` as the source has it. Without an icon the descriptor text
      reads the path of a null icon file, so install fails after creating
      the directory and before writing the descriptor. */
  function Install(fs: FileSystem, profileDir: Path, ssb: Ssb, icon: Option<Icon>, faults: InstallFaults): (r: Installed)
    ensures InstallFootprint(fs, r.fs, profileDir, ssb)
    ensures WellFormed(fs) ==> WellFormed(r.fs)
    ensures icon.None? ==> r.outcome.Failed? && r.fs.files == fs.files
    ensures IsAbsolute(profileDir) && r.outcome.Failed? ==> SameAt(fs, r.fs, LauncherPath(ssb.name, ssb.id))
    ensures r.outcome.Done? ==>
      && PrivateDir(profileDir, ssb.id) in r.fs.dirs
      && LauncherPath(ssb.name, ssb.id) in r.fs.files
      && r.fs.files[LauncherPath(ssb.name, ssb.id)]
         == Text(DesktopEntry(ssb.name, profileDir, ssb.id, IconPath(PrivateDir(profileDir, ssb.id))))
  {
    match Prepare(fs, profileDir, ssb, icon, faults)
    case Aborted(partial, e) => Installed(partial, Failed(e))
    case Ready(prepared, iconFile) =>
      if iconFile.None? then Installed(prepared, Failed(NullIconFile))
      else WriteLauncher(prepared, ssb, DesktopEntry(ssb.name, profileDir, ssb.id, iconFile.value), faults.write)
  }

  /** `install` as evidently intended: without an icon the descriptor is
      written all the same, with no `Icon=` key. */
  function InstallIntended(fs: FileSystem, profileDir: Path, ssb: Ssb, icon: Option<Icon>, faults: InstallFaults): (r: Installed)
    ensures InstallFootprint(fs, r.fs, profileDir, ssb)
    ensures WellFormed(fs) ==> WellFormed(r.fs)
    ensures IsAbsolute(profileDir) && r.outcome.Failed? ==> SameAt(fs, r.fs, LauncherPath(ssb.name, ssb.id))
    ensures r.outcome.Done? ==>
      && PrivateDir(profileDir, ssb.id) in r.fs.dirs
      && LauncherPath(ssb.name, ssb.id) in r.fs.files
      && r.fs.files[LauncherPath(ssb.name, ssb.id)]
         == Text(RenderEntry(ssb.name, profileDir, ssb.id,
                             if icon.Some? then Some(IconPath(PrivateDir(profileDir, ssb.id))) else None))
  {
    match Prepare(fs, profileDir, ssb, icon, faults)
    case Aborted(partial, e) => Installed(partial, Failed(e))
    case Ready(prepared, iconFile) =>
      WriteLauncher(prepared, ssb, RenderEntry(ssb.name, profileDir, ssb.id, iconFile), faults.write)
  }

  /** What a guarded step caught: nothing, or its one error. */
  function Caught(step: Result<FileSystem, IOError>): (d: seq<IOError>)
    ensures |d| <= 1 && (d == [] <==> step.Success?)
    ensures step.Failure? ==> d == [step.error]
  {
    if step.Failure? then [step.error] else []
  }

  /** `uninstall`: remove the descriptor, then remove the private directory
      recursively, each in its own guard. Nothing is raised; what the guards
      caught is returned as diagnostics. */
  function Uninstall(fs: FileSystem, profileDir: Path, ssb: Ssb, faults: UninstallFaults): (r: Uninstalled)
    ensures |r.diagnostics| <= 2
    ensures WellFormed(fs) ==> WellFormed(r.fs)
  {
    var first := Remove(fs, LauncherPath(ssb.name, ssb.id), false, faults.removeLauncher);
    var afterFirst := if first.Success? then first.value else fs;
    var second := Remove(afterFirst, PrivateDir(profileDir, ssb.id), true, faults.removeDirectory);
    var afterSecond := if second.Success? then second.value else afterFirst;
    Uninstalled(afterSecond, Caught(first) + Caught(second))
  }

  /** Whether the launcher removal leaves the launcher in place. */
  predicate LauncherKept(fs: FileSystem, ssb: Ssb, faults: UninstallFaults) {
    var launcher := LauncherPath(ssb.name, ssb.id);
    faults.removeLauncher || (launcher in fs.dirs && HasEntriesBelow(fs, launcher))
  }

  /** The two removals are independent: a failure of the first never stops
      the second, the second never touches the launcher, and every path
      outside the two artifacts is left as it was. */
  lemma UninstallEffect(fs: FileSystem, profileDir: Path, ssb: Ssb, faults: UninstallFaults)
    requires IsAbsolute(profileDir)
    ensures var launcher, dir := LauncherPath(ssb.name, ssb.id), PrivateDir(profileDir, ssb.id);
      var r := Uninstall(fs, profileDir, ssb, faults);
      && (forall q :: q != launcher && !Under(q, dir) ==> SameAt(fs, r.fs, q))
      && (forall q :: Under(q, dir) ==> if faults.removeDirectory then SameAt(fs, r.fs, q) else !Exists(r.fs, q))
      && (if LauncherKept(fs, ssb, faults) then SameAt(fs, r.fs, launcher) else !Exists(r.fs, launcher))
      && r.diagnostics
         == (if faults.removeLauncher then [PermissionDenied(launcher)]
             else if LauncherKept(fs, ssb, faults) then [DirectoryNotEmpty(launcher)] else [])
            + (if faults.removeDirectory then [PermissionDenied(dir)] else [])
  {
    var launcher, dir := LauncherPath(ssb.name, ssb.id), PrivateDir(profileDir, ssb.id);
    ArtifactsApart(profileDir, ssb.name, ssb.id, launcher);
  }

  /** Whatever install did, complete or partial, uninstall undoes it: from
      any state install can leave, uninstall reaches the state it reaches
      from the state before install, up to the shared `ssb` root directory. */
  lemma UninstallUndoesFootprint(before: FileSystem, after: FileSystem, profileDir: Path, ssb: Ssb)
    requires IsAbsolute(profileDir) && WellFormed(before) && WellFormed(after)
    requires InstallFootprint(before, after, profileDir, ssb)
    ensures var a, b := Uninstall(after, profileDir, ssb, NoUninstallFaults), Uninstall(before, profileDir, ssb, NoUninstallFaults);
      && a.fs.files == b.fs.files
      && a.fs.dirs - {SsbRoot(profileDir)} == b.fs.dirs - {SsbRoot(profileDir)}
      && a.diagnostics == b.diagnostics
  {
    var launcher, dir, root := LauncherPath(ssb.name, ssb.id), PrivateDir(profileDir, ssb.id), SsbRoot(profileDir);
    var icon := IconPath(dir);
    var a, b := Uninstall(after, profileDir, ssb, NoUninstallFaults), Uninstall(before, profileDir, ssb, NoUninstallFaults);
    UninstallEffect(after, profileDir, ssb, NoUninstallFaults);
    UninstallEffect(before, profileDir, ssb, NoUninstallFaults);
    ArtifactsApart(profileDir, ssb.name, ssb.id, dir);
    ArtifactsApart(profileDir, ssb.name, ssb.id, launcher);
    // Outside the private directory and the launcher, install changed only the SSB root.
    forall q | q != launcher && !Under(q, dir)
      ensures (q in before.files <==> q in after.files) && (q in before.files ==> before.files[q] == after.files[q])
      ensures q != root ==> (q in before.dirs <==> q in after.dirs)
    {
    }
    assert launcher != root && launcher != dir;
    assert HasEntriesBelow(after, launcher) == HasEntriesBelow(before, launcher) by {
      forall q | Below(q, launcher) ensures Exists(after, q) == Exists(before, q) {
        ArtifactsApart(profileDir, ssb.name, ssb.id, q);
      }
    }
    assert LauncherKept(after, ssb, NoUninstallFaults) == LauncherKept(before, ssb, NoUninstallFaults);
    forall q ensures (q in a.fs.files <==> q in b.fs.files) && (q in a.fs.files ==> a.fs.files[q] == b.fs.files[q]) {
      if q == launcher && LauncherKept(before, ssb, NoUninstallFaults) {
        assert q !in before.files && q !in after.files;
      }
    }
    assert a.fs.files == b.fs.files;
    forall q ensures q in a.fs.dirs - {root} <==> q in b.fs.dirs - {root} {
    }
  }

  /** Round trip: install (with or without icon, whatever it ran into) and
      then uninstall leave the file system as uninstall alone would. */
  lemma InstallThenUninstall(fs: FileSystem, profileDir: Path, ssb: Ssb, icon: Option<Icon>, faults: InstallFaults)
    requires IsAbsolute(profileDir) && WellFormed(fs)
    ensures var a := Uninstall(Install(fs, profileDir, ssb, icon, faults).fs, profileDir, ssb, NoUninstallFaults);
      var b := Uninstall(fs, profileDir, ssb, NoUninstallFaults);
      a.fs.files == b.fs.files && a.fs.dirs - {SsbRoot(profileDir)} == b.fs.dirs - {SsbRoot(profileDir)}
  {
    UninstallUndoesFootprint(fs, Install(fs, profileDir, ssb, icon, faults).fs, profileDir, ssb);
  }

  /** From a state holding neither the launcher nor anything in the private
      directory, install followed by a clean uninstall gives back every file
      and every directory except the shared `<profileDir>/ssb`. */
  lemma InstallThenUninstallRestores(fs: FileSystem, profileDir: Path, ssb: Ssb, icon: Option<Icon>, faults: InstallFaults)
    requires IsAbsolute(profileDir) && WellFormed(fs)
    requires !Exists(fs, LauncherPath(ssb.name, ssb.id))
    requires forall q :: Under(q, PrivateDir(profileDir, ssb.id)) ==> !Exists(fs, q)
    ensures var a := Uninstall(Install(fs, profileDir, ssb, icon, faults).fs, profileDir, ssb, NoUninstallFaults);
      a.fs.files == fs.files && a.fs.dirs - {SsbRoot(profileDir)} == fs.dirs - {SsbRoot(profileDir)}
  {
    InstallThenUninstall(fs, profileDir, ssb, icon, faults);
    UninstallNothingInstalled(fs, profileDir, ssb);
  }

  /** Round trip for the corrected install as well. */
  lemma IntendedInstallThenUninstall(fs: FileSystem, profileDir: Path, ssb: Ssb, icon: Option<Icon>, faults: InstallFaults)
    requires IsAbsolute(profileDir) && WellFormed(fs)
    ensures var a := Uninstall(InstallIntended(fs, profileDir, ssb, icon, faults).fs, profileDir, ssb, NoUninstallFaults);
      var b := Uninstall(fs, profileDir, ssb, NoUninstallFaults);
      a.fs.files == b.fs.files && a.fs.dirs - {SsbRoot(profileDir)} == b.fs.dirs - {SsbRoot(profileDir)}
  {
    UninstallUndoesFootprint(fs, InstallIntended(fs, profileDir, ssb, icon, faults).fs, profileDir, ssb);
  }

  /** After an uninstall that nothing refused, neither the descriptor nor
      anything under the private directory remains, unless the descriptor
      path is a directory with entries in it. */
  lemma UninstallRemovesArtifacts(fs: FileSystem, profileDir: Path, ssb: Ssb)
    requires IsAbsolute(profileDir)
    requires !(LauncherPath(ssb.name, ssb.id) in fs.dirs && HasEntriesBelow(fs, LauncherPath(ssb.name, ssb.id)))
    ensures var r := Uninstall(fs, profileDir, ssb, NoUninstallFaults);
      && !Exists(r.fs, LauncherPath(ssb.name, ssb.id))
      && (forall q :: Under(q, PrivateDir(profileDir, ssb.id)) ==> !Exists(r.fs, q))
      && r.diagnostics == []
  {
    UninstallEffect(fs, profileDir, ssb, NoUninstallFaults);
  }

  /** Install with an icon succeeds when nothing is refused and nothing of
      the wrong kind sits in the way; it then leaves the 128x128 icon, the
      descriptor whose `Icon=` line names it, and the private directory. */
  lemma InstallWithIcon(fs: FileSystem, profileDir: Path, ssb: Ssb, icon: Icon)
    requires IsAbsolute(profileDir) && WellFormed(fs)
    requires SsbRoot(profileDir) !in fs.files && PrivateDir(profileDir, ssb.id) !in fs.files
    requires LauncherPath(ssb.name, ssb.id) !in fs.dirs && IconPath(PrivateDir(profileDir, ssb.id)) !in fs.dirs
    ensures var r := Install(fs, profileDir, ssb, Some(icon), NoInstallFaults);
      var dir := PrivateDir(profileDir, ssb.id);
      && r.outcome == Done
      && dir in r.fs.dirs
      && IconPath(dir) in r.fs.files && r.fs.files[IconPath(dir)] == Png(128, 128, icon.src)
      && LauncherPath(ssb.name, ssb.id) in r.fs.files
      && r.fs.files[LauncherPath(ssb.name, ssb.id)] == Text(DesktopEntry(ssb.name, profileDir, ssb.id, IconPath(dir)))
  {
    var dir := PrivateDir(profileDir, ssb.id);
    ArtifactsApart(profileDir, ssb.name, ssb.id, dir);
    assert IconPath(dir) != SsbRoot(profileDir) && IconPath(dir) != dir;
    assert IconPath(dir) != LauncherPath(ssb.name, ssb.id);
  }

  /** Install with an icon followed by uninstall leaves neither artifact. */
  lemma InstallWithIconThenUninstall(fs: FileSystem, profileDir: Path, ssb: Ssb, icon: Icon)
    requires IsAbsolute(profileDir) && WellFormed(fs)
    requires SsbRoot(profileDir) !in fs.files && PrivateDir(profileDir, ssb.id) !in fs.files
    requires LauncherPath(ssb.name, ssb.id) !in fs.dirs && IconPath(PrivateDir(profileDir, ssb.id)) !in fs.dirs
    ensures var installed := Install(fs, profileDir, ssb, Some(icon), NoInstallFaults);
      var r := Uninstall(installed.fs, profileDir, ssb, NoUninstallFaults);
      && installed.outcome == Done
      && !Exists(r.fs, LauncherPath(ssb.name, ssb.id))
      && (forall q :: Under(q, PrivateDir(profileDir, ssb.id)) ==> !Exists(r.fs, q))
      && r.diagnostics == []
  {
    InstallWithIcon(fs, profileDir, ssb, icon);
    var installed := Install(fs, profileDir, ssb, Some(icon), NoInstallFaults);
    assert LauncherPath(ssb.name, ssb.id) in installed.fs.files;
    UninstallRemovesArtifacts(installed.fs, profileDir, ssb);
  }

  /** The code as written: without an icon, install fails on the null icon
      file once the directory exists, with no icon and no descriptor written. */
  lemma NoIconInstallFails(fs: FileSystem, profileDir: Path, ssb: Ssb)
    requires WellFormed(fs)
    requires SsbRoot(profileDir) !in fs.files && PrivateDir(profileDir, ssb.id) !in fs.files
    ensures var r := Install(fs, profileDir, ssb, None, NoInstallFaults);
      && r.outcome == Failed(NullIconFile)
      && PrivateDir(profileDir, ssb.id) in r.fs.dirs
      && r.fs.files == fs.files
  {
  }

  /** The corrected install: without an icon the descriptor is written all
      the same, holding the five template lines and no `Icon=` key, and no
      icon file appears. */
  lemma IntendedInstallWithoutIcon(fs: FileSystem, profileDir: Path, ssb: Ssb)
    requires IsAbsolute(profileDir) && WellFormed(fs)
    requires SsbRoot(profileDir) !in fs.files && PrivateDir(profileDir, ssb.id) !in fs.files
    requires LauncherPath(ssb.name, ssb.id) !in fs.dirs
    requires NoLineFeed(ssb.name) && NoLineFeed(profileDir) && NoLineFeed(ssb.id)
    ensures var r := InstallIntended(fs, profileDir, ssb, None, NoInstallFaults);
      var launcher := LauncherPath(ssb.name, ssb.id);
      && r.outcome == Done
      && launcher in r.fs.files && r.fs.files[launcher].Text?
      && SplitLines(r.fs.files[launcher].text) == HeadLines(ssb.name, profileDir, ssb.id)
      && r.fs.files == fs.files[launcher := r.fs.files[launcher]]
  {
    var dir := PrivateDir(profileDir, ssb.id);
    ArtifactsApart(profileDir, ssb.name, ssb.id, dir);
    DescriptorLines(ssb.name, profileDir, ssb.id, "");
  }

  /** Creating the private directory ignores an existing one: install never
      fails on it, and what was in it stays (apart from the icon it saves). */
  lemma InstallKeepsExistingDirectory(fs: FileSystem, profileDir: Path, ssb: Ssb, icon: Option<Icon>, faults: InstallFaults)
    requires WellFormed(fs) && !faults.makeDirectory
    requires SsbRoot(profileDir) in fs.dirs && PrivateDir(profileDir, ssb.id) in fs.dirs
    ensures var r := Install(fs, profileDir, ssb, icon, faults);
      && !(r.outcome.Failed? && r.outcome.error.DirectoryFailed?)
      && r.fs.dirs == fs.dirs
  {
  }

  /** Install is idempotent: a second identical install changes nothing and
      ends as the first did; the descriptor is overwritten with the same text. */
  lemma InstallIdempotent(fs: FileSystem, profileDir: Path, ssb: Ssb, icon: Option<Icon>, faults: InstallFaults)
    requires IsAbsolute(profileDir)
    ensures var once := Install(fs, profileDir, ssb, icon, faults);
      Install(once.fs, profileDir, ssb, icon, faults) == once
  {
    var dir, root, launcher := PrivateDir(profileDir, ssb.id), SsbRoot(profileDir), LauncherPath(ssb.name, ssb.id);
    ArtifactsApart(profileDir, ssb.name, ssb.id, dir);
    var once := Install(fs, profileDir, ssb, icon, faults);
    var made := MakeDirectory(fs, {root}, dir, faults.makeDirectory);
    if made.Success? && !(icon.Some? && faults.loadImage) {
      var m := made.value;
      assert root in once.fs.dirs && dir in once.fs.dirs;
      assert root !in once.fs.files && dir !in once.fs.files by {
        assert IconPath(dir) != root && IconPath(dir) != dir && launcher != root && launcher != dir;
      }
      assert once.fs.dirs + {root} + {dir} == once.fs.dirs;
      assert MakeDirectory(once.fs, {root}, dir, faults.makeDirectory) == Success(once.fs);
      if icon.Some? {
        var path := IconPath(dir);
        var saved := SaveIcon(m, path, icon.value, faults.saveIcon);
        var text := DesktopEntry(ssb.name, profileDir, ssb.id, path);
        assert once == WriteLauncher(saved, ssb, text, faults.write);
        assert SaveIcon(once.fs, path, icon.value, faults.saveIcon) == once.fs by {
          if !faults.saveIcon && path !in once.fs.dirs {
            assert path != launcher;
            var png := Png(IconSize, IconSize, icon.value.src);
            assert once.fs.files[path] == png;
            assert once.fs.files[path := png] == once.fs.files;
          }
        }
        if once.outcome.Done? {
          assert once.fs.files[launcher := Text(text)] == once.fs.files;
        }
      }
    }
  }

  /** Uninstall can be retried: a clean uninstall after any earlier one,
      however far that got, ends where a single clean uninstall ends. */
  lemma UninstallRetry(fs: FileSystem, profileDir: Path, ssb: Ssb, faults: UninstallFaults)
    requires IsAbsolute(profileDir)
    ensures var first := Uninstall(fs, profileDir, ssb, faults);
      Uninstall(first.fs, profileDir, ssb, NoUninstallFaults).fs == Uninstall(fs, profileDir, ssb, NoUninstallFaults).fs
  {
    var launcher, dir := LauncherPath(ssb.name, ssb.id), PrivateDir(profileDir, ssb.id);
    var first := Uninstall(fs, profileDir, ssb, faults);
    var a, b := Uninstall(first.fs, profileDir, ssb, NoUninstallFaults), Uninstall(fs, profileDir, ssb, NoUninstallFaults);
    UninstallEffect(fs, profileDir, ssb, faults);
    UninstallEffect(first.fs, profileDir, ssb, NoUninstallFaults);
    UninstallEffect(fs, profileDir, ssb, NoUninstallFaults);
    assert HasEntriesBelow(first.fs, launcher) == HasEntriesBelow(fs, launcher) by {
      forall q | Below(q, launcher) ensures Exists(first.fs, q) == Exists(fs, q) {
        ArtifactsApart(profileDir, ssb.name, ssb.id, q);
      }
    }
    forall q ensures SameAt(a.fs, b.fs, q) {
      if q == launcher && LauncherKept(fs, ssb, NoUninstallFaults) {
        assert LauncherKept(first.fs, ssb, NoUninstallFaults);
      }
    }
    assert a.fs.files == b.fs.files;
    assert a.fs.dirs == b.fs.dirs;
  }

  /** Uninstall is idempotent: a second clean uninstall changes nothing and
      reports what the first reported. */
  lemma UninstallIdempotent(fs: FileSystem, profileDir: Path, ssb: Ssb)
    requires IsAbsolute(profileDir)
    ensures var once := Uninstall(fs, profileDir, ssb, NoUninstallFaults);
      Uninstall(once.fs, profileDir, ssb, NoUninstallFaults) == once
  {
    var launcher := LauncherPath(ssb.name, ssb.id);
    var once := Uninstall(fs, profileDir, ssb, NoUninstallFaults);
    UninstallRetry(fs, profileDir, ssb, NoUninstallFaults);
    UninstallEffect(fs, profileDir, ssb, NoUninstallFaults);
    UninstallEffect(once.fs, profileDir, ssb, NoUninstallFaults);
    assert HasEntriesBelow(once.fs, launcher) == HasEntriesBelow(fs, launcher) by {
      forall q | Below(q, launcher) ensures Exists(once.fs, q) == Exists(fs, q) {
        ArtifactsApart(profileDir, ssb.name, ssb.id, q);
      }
    }
  }

  /** Uninstalling an SSB that was never installed changes nothing and
      reports nothing. */
  lemma UninstallNothingInstalled(fs: FileSystem, profileDir: Path, ssb: Ssb)
    requires IsAbsolute(profileDir)
    requires !Exists(fs, LauncherPath(ssb.name, ssb.id))
    requires forall q :: Under(q, PrivateDir(profileDir, ssb.id)) ==> !Exists(fs, q)
    ensures Uninstall(fs, profileDir, ssb, NoUninstallFaults) == Uninstalled(fs, [])
  {
  }

  /** Paths for SSB `abc123` named `Example` under the profile
      `/home/user/.floorp/p`: the launcher, ... */
  lemma ExampleLauncherPath()
    ensures LauncherPath("Example", "abc123") == "~/.local/share/applications/floorp-Example-abc123.desktop"
  {
  }

  /** ... the `ssb` root and the private directory, ... */
  lemma ExamplePrivateDir()
    ensures SsbRoot("/home/user/.floorp/p") == "/home/user/.floorp/p/ssb"
    ensures PrivateDir("/home/user/.floorp/p", "abc123") == "/home/user/.floorp/p/ssb/abc123"
  {
  }

  /** ... and the icon. */
  lemma ExampleIconPath()
    ensures IconPath("/home/user/.floorp/p/ssb/abc123") == "/home/user/.floorp/p/ssb/abc123/icon.png"
  {
  }
}
