# Linux desktop integration of Floorp's site-specific browsers, in Dafny

Floorp can pin a web app as a *site-specific browser* (SSB) that runs in its
own window. On Linux, `LinuxSupport` makes such an SSB show up in the desktop's
application launcher. `install(ssb)` does three things:

- it creates a private directory `<profileDir>/ssb/<id>`;
- it saves the SSB's icon there as `icon.png` at 128×128;
- it writes a freedesktop.org Desktop Entry file
  `~/.local/share/applications/floorp-<name>-<id>.desktop`.

`uninstall(ssb)` removes the descriptor and then removes the private directory
recursively. Each removal is guarded on its own, so uninstall never fails to
its caller.

The model has six modules:

- `Paths` (paths.dfy) derives the paths. `PathUtils.join` is concatenation with `/`.
- `DesktopEntries` (desktop_entry.dfy) renders the descriptor template. Name, profile
  directory, id and icon path go in verbatim. It also gives the line structure
  a reader sees (`JoinLines` and its inverse `SplitLines`).
- `FileSystems` (file_system.dfy) models the host's file calls over an abstract file
  system: a map from file paths to contents plus a set of directories.
  - `makeDirectory` with `ignoreExisting`;
  - `write`, which overwrites;
  - `remove`, recursive or not, where an absent path is no error.
  An operating-system refusal is a `denied` flag.
- `Lifecycle` (lifecycle.dfy) states install and uninstall as functions from state to
  state and proves what they achieve:
  - round trip;
  - idempotence of both operations;
  - retrying uninstall;
  - independence of the two removals;
  - the behaviour without an icon.
- `LinuxIntegration.LinuxSupport` (linux_support.dfy) is a class whose fields are that
  file system. Its `Install` and `Uninstall` methods do the source's steps one at a
  time. Each is proved to end in the state, and with the result, that the
  `Lifecycle` functions give.
- `Wrappers` (wrappers.dfy) holds `Option` and `Result`.

The icon provider's answer is an `Option<Icon>` input. OS failures are flags in
`InstallFaults` and `UninstallFaults`. Uninstall returns the errors its guards
caught instead of logging them.

The class invariant `Valid()` asks for two things:

- the profile directory is absolute, which the browser's profile path always is;
- no path is both a file and a directory, which holds of any real file system.

In the model, the unexpanded `~` keeps the launcher (under `~/…`) apart from the
private directory under an absolute profile directory: the two lie in disjoint
subtrees (`Paths.ArtifactsApart`). On a real system `~` is the home directory,
and the separation rests on the profile directory and the applications directory
not nesting (see Left out).

The model follows the code as written, including where it differs from what
the comments or a reader would expect:

- The descriptor's fields are not escaped. `SixLinesIffNoLineFeed` shows what
  that means: a line feed in the name adds lines to the file.
- Without an icon, install fails rather than completing (see Findings).
- Install followed by uninstall does not always restore the earlier state. It
  ends where uninstall alone would end, apart from the shared `<profileDir>/ssb`
  directory, which install may create and uninstall never removes. So a launcher
  or private directory that was there before is removed too. From a state holding
  neither, every file and every other directory comes back
  (`InstallThenUninstallRestores`).

## Model

| member | source | states |
|---|---|---|
| `Paths.Join` | browser/components/ssb/LinuxSupport.sys.mjs:31 | joining puts `name` as an entry directly inside `base`: the result lies below `base` and ends with exactly `name` |
| `Paths.SsbRoot` | browser/components/ssb/LinuxSupport.sys.mjs:31 | the `ssb` directory lies inside the profile directory |
| `Paths.PrivateDir` | browser/components/ssb/LinuxSupport.sys.mjs:31 | the private directory `<profileDir>/ssb/<id>` lies inside both the `ssb` directory and the profile; uninstall's line 85 is the same expression, modelled by this one function |
| `Paths.IconPath` | browser/components/ssb/LinuxSupport.sys.mjs:37 | the icon file lies strictly inside the private directory |
| `Paths.LauncherName` | browser/components/ssb/LinuxSupport.sys.mjs:52 | the file name starts with `floorp-`, ends with `.desktop` and is exactly as long as `floorp-<name>-<id>.desktop` |
| `Paths.LauncherPath` | browser/components/ssb/LinuxSupport.sys.mjs:49-53 | the descriptor lies directly in `~/.local/share/applications` under the name `LauncherName`; uninstall's lines 75-79 are the same expression, modelled by this one function |
| `Paths.UnderSameStart` | browser/components/ssb/LinuxSupport.sys.mjs:87 | everything a recursive removal of a path reaches shares that path's first character |
| `Paths.ArtifactsApart` | browser/components/ssb/LinuxSupport.sys.mjs:74-90 | with an absolute profile directory, no path is both the launcher (or inside it) and inside the private directory; the `ssb` root lies in neither; the icon lies in the private directory and not at the launcher |
| `Paths.PrivateDirInjective` | browser/components/ssb/LinuxSupport.sys.mjs:31 | two SSB ids with the same private directory are equal |
| `Paths.LauncherPathInjective` | browser/components/ssb/LinuxSupport.sys.mjs:49-53 | for ids of equal length, equal launcher paths mean equal names and equal ids |
| `Paths.LauncherPathCollision` | browser/components/ssb/LinuxSupport.sys.mjs:52 | without that restriction two different SSBs (`a-b`/`c` and `a`/`b-c`) get the same launcher file |
| `DesktopEntries.DesktopEntry` | browser/components/ssb/LinuxSupport.sys.mjs:57-62 | the descriptor is the literal template `[Desktop Entry]\nType=Application\nTerminal=false\nName=<name>\nExec=/usr/bin/floorp --profile "<profileDir>" --start-ssb "<id>"\nIcon=<iconPath>`, with no trailing line feed and the fields substituted verbatim |
| `DesktopEntries.RenderEntry` | browser/components/ssb/LinuxSupport.sys.mjs:57-62 | with an icon path the text is the source's descriptor; when no field holds a line feed it reads back as the five head lines, followed by `Icon=<path>` exactly when there is an icon |
| `DesktopEntries.SplitLines` | browser/components/ssb/LinuxSupport.sys.mjs:57-62 | reading a text line by line gives at least one line and no line holds a line feed |
| `DesktopEntries.JoinSplit` | browser/components/ssb/LinuxSupport.sys.mjs:57-62 | joining the lines read from any text gives the text back |
| `DesktopEntries.SplitJoin` | browser/components/ssb/LinuxSupport.sys.mjs:57-62 | lines without line feeds, joined and read back, are the same lines |
| `DesktopEntries.LineCount` | browser/components/ssb/LinuxSupport.sys.mjs:57-62 | a text reads as one line more than it has line feeds |
| `DesktopEntries.DescriptorLines` | browser/components/ssb/LinuxSupport.sys.mjs:57-62 | when no field holds a line feed, the descriptor reads as exactly `[Desktop Entry]`, `Type=Application`, `Terminal=false`, `Name=<name>`, `Exec=/usr/bin/floorp --profile "<profileDir>" --start-ssb "<id>"`, `Icon=<iconPath>`; without the icon line it reads as the first five |
| `DesktopEntries.SixLinesIffNoLineFeed` | browser/components/ssb/LinuxSupport.sys.mjs:57-62 | the descriptor has exactly six lines if and only if none of name, profile directory, id and icon path holds a line feed, because nothing is escaped |
| `FileSystems.MakeDirectory` | browser/components/ssb/LinuxSupport.sys.mjs:32-35 | fails exactly when refused or when a regular file is in the way; otherwise it adds the directory and its ancestor and changes no file; a directory already there leaves the state unchanged (`ignoreExisting`) |
| `FileSystems.Write` | browser/components/ssb/LinuxSupport.sys.mjs:54-64 | succeeds exactly when not refused and the path is not a directory; it then overwrites that one file and nothing else |
| `FileSystems.Prune` | browser/components/ssb/LinuxSupport.sys.mjs:87 | nothing at or below the path remains, and every other path is as it was |
| `FileSystems.Remove` | browser/components/ssb/LinuxSupport.sys.mjs:80 | fails exactly when refused, or when a non-recursive removal meets a directory with entries; on success the path is gone; a recursive removal takes everything below it too; nothing else changes |
| `Lifecycle.SaveIcon` | browser/components/ssb/LinuxSupport.sys.mjs:43 | the unawaited save writes a 128×128 PNG of the icon source at the icon path unless refused or a directory is there, touches no other path, and never fails to install; when refused, or when a directory is at the icon path, nothing changes |
| `Lifecycle.Prepare` | browser/components/ssb/LinuxSupport.sys.mjs:31-47 | the directory and icon steps change no file but the icon, add at most the `ssb` root and the private directory, and go on with the icon path when there is an icon and with a null reference when there is none |
| `Lifecycle.WriteLauncher` | browser/components/ssb/LinuxSupport.sys.mjs:54-64 | the descriptor write succeeds exactly when not refused and the launcher path is no directory; it then overwrites the launcher file with the text; on failure nothing changes |
| `Lifecycle.Install` | browser/components/ssb/LinuxSupport.sys.mjs:29-65 | install touches only the icon, the launcher, the `ssb` root and the private directory; without an icon it fails and writes no file; with an absolute profile directory a failed install leaves the launcher path as it was; on success the private directory exists and the launcher holds the descriptor naming the icon path |
| `Lifecycle.InstallIntended` | browser/components/ssb/LinuxSupport.sys.mjs:44-62 | the corrected install has the same footprint, leaves the launcher path as it was when it fails (absolute profile directory), and on success writes the descriptor, with an `Icon=` line only when there is an icon |
| `Lifecycle.Caught` | browser/components/ssb/LinuxSupport.sys.mjs:81-83 | a guard catches nothing when the step succeeds, and when it fails it catches exactly that step's error, as the one entry |
| `Lifecycle.Uninstall` | browser/components/ssb/LinuxSupport.sys.mjs:72-91 | uninstall never fails: it reports at most two caught errors and keeps the file system well formed |
| `Lifecycle.UninstallEffect` | browser/components/ssb/LinuxSupport.sys.mjs:74-90 | the two removals are independent. A failed launcher removal does not stop the directory removal. Everything under the private directory goes exactly when that removal is not refused. The launcher goes unless refused or a non-empty directory. No other path changes. The diagnostics list exactly the caught errors, in order |
| `Lifecycle.UninstallUndoesFootprint` | browser/components/ssb/LinuxSupport.sys.mjs:72-91 | from any state install can leave, complete or partial, uninstall ends where it ends without that install, apart from the `ssb` root, with the same diagnostics |
| `Lifecycle.InstallThenUninstall` | browser/components/ssb/LinuxSupport.sys.mjs:29-91 | round trip: install (any icon answer, any install refusals) followed by an unrefused uninstall gives the same files, and the same directories apart from the `ssb` root, as that uninstall alone |
| `Lifecycle.InstallThenUninstallRestores` | browser/components/ssb/LinuxSupport.sys.mjs:29-91 | from a state with no launcher and nothing in the private directory, install followed by a clean uninstall gives back every file, and every directory except the `ssb` root |
| `Lifecycle.IntendedInstallThenUninstall` | browser/components/ssb/LinuxSupport.sys.mjs:29-91 | the same round trip for the corrected install |
| `Lifecycle.UninstallRemovesArtifacts` | browser/components/ssb/LinuxSupport.sys.mjs:74-90 | after an unrefused uninstall neither the launcher nor anything under the private directory exists, and nothing was caught, unless the launcher path is a directory with entries in it |
| `Lifecycle.InstallWithIcon` | browser/components/ssb/LinuxSupport.sys.mjs:29-65 | with an icon and nothing refused or in the way, install succeeds. It leaves the private directory, a 128×128 icon at `<dir>/icon.png` and the descriptor whose `Icon=` names that path |
| `Lifecycle.InstallWithIconThenUninstall` | browser/components/ssb/LinuxSupport.sys.mjs:29-91 | install with an icon succeeds, and a following uninstall leaves neither the descriptor nor the directory nor anything under it |
| `Lifecycle.NoIconInstallFails` | browser/components/ssb/LinuxSupport.sys.mjs:44-62 | as written: without an icon, install fails on the null icon file after creating the directory, with no icon and no descriptor written |
| `Lifecycle.IntendedInstallWithoutIcon` | browser/components/ssb/LinuxSupport.sys.mjs:44-62 | corrected: without an icon, install succeeds and writes a descriptor that reads as the five template lines without `Icon=`. It writes no other file |
| `Lifecycle.InstallKeepsExistingDirectory` | browser/components/ssb/LinuxSupport.sys.mjs:32-35 | an existing private directory is no error for install and the set of directories stays the same |
| `Lifecycle.InstallIdempotent` | browser/components/ssb/LinuxSupport.sys.mjs:29-65 | a second identical install changes nothing and has the same outcome: one descriptor with the same content |
| `Lifecycle.UninstallRetry` | browser/components/ssb/LinuxSupport.sys.mjs:72-91 | an unrefused uninstall after any earlier uninstall, however far that got, ends where one unrefused uninstall ends |
| `Lifecycle.UninstallIdempotent` | browser/components/ssb/LinuxSupport.sys.mjs:72-91 | a second uninstall changes nothing and reports the same |
| `Lifecycle.UninstallNothingInstalled` | browser/components/ssb/LinuxSupport.sys.mjs:72-91 | uninstalling an SSB with no launcher and nothing under its directory changes nothing and reports nothing |
| `Lifecycle.ExampleLauncherPath` | browser/components/ssb/LinuxSupport.sys.mjs:49-53 | SSB `abc123` named `Example` gets the launcher `~/.local/share/applications/floorp-Example-abc123.desktop` |
| `Lifecycle.ExamplePrivateDir` | browser/components/ssb/LinuxSupport.sys.mjs:31 | under the profile `/home/user/.floorp/p` its private directory is `/home/user/.floorp/p/ssb/abc123`, inside `/home/user/.floorp/p/ssb` |
| `Lifecycle.ExampleIconPath` | browser/components/ssb/LinuxSupport.sys.mjs:37 | its icon is `/home/user/.floorp/p/ssb/abc123/icon.png` |
| `LinuxIntegration.LinuxSupport.Install` | browser/components/ssb/LinuxSupport.sys.mjs:29-65 | the step-by-step install, including `iconFile` being reassigned to null, ends in `Lifecycle.Install`'s state and outcome and keeps the object valid; a failed install leaves the launcher path as it was |
| `LinuxIntegration.LinuxSupport.Uninstall` | browser/components/ssb/LinuxSupport.sys.mjs:72-91 | the two guarded removals end in `Lifecycle.Uninstall`'s state and diagnostics. Unless refused, nothing under the private directory remains, and the launcher is gone if it was not a directory |

## Left out

- Icon decoding, resizing and PNG encoding (`ImageTools.loadImage`, `saveIcon`) are a foreign library. A saved icon is a `Png(128, 128, source)` value, and a failed image load is a fault flag.
- The icon lookup `SiteSpecificBrowserIdUtils.getIconBySSBId` and `Services.io.newURI` are foreign calls. Their answer is the `Option<Icon>` input, and a lookup that throws is not modelled.
- Asynchronous scheduling is not modelled; the steps run in sequence. The icon save is not awaited, so on a real system it may race the descriptor write. The model only keeps the consequence that its failure never reaches install.
- Concurrent installs and uninstalls of the same SSB are not modelled.
- `PathUtils.join` normalisation is not modelled, nor the expansion of `~` in `~/.local/share/applications`. Joining is concatenation with `/`, and the applications directory is that literal string.
- The `from` option of `makeDirectory` is modelled as creating the `ssb` root along with the private directory. The profile directory itself is taken to exist.
- A write does not check that its parent directory exists (for instance, a missing applications directory).
- `TextEncoder` UTF-8 encoding is not modelled; the descriptor content is a string.
- `console.error` logging is replaced by the diagnostics that `Uninstall` returns.
- Real causes of OS errors (permissions, full disk) become boolean fault flags per step.
- The module import and export lines are not modelled.
- `Paths.LauncherPathInjective`: injectivity is proved only for ids of equal length, because without it the derivation is not injective (`Paths.LauncherPathCollision`).
- `Lifecycle.InstallThenUninstall`: install then an unrefused uninstall ends where that uninstall alone ends, up to the shared `<profileDir>/ssb` directory, which install may create and uninstall never removes.
- `Paths.ArtifactsApart`: on a real system, where `~` expands to the home directory, the separation of the launcher from the private directory assumes that the profile directory and `~/.local/share/applications` do not nest; the model proves it from the unexpanded `~` alone.

## Findings

| source | as written | input that shows it | evidently intended | confidence | as-written member | corrected member |
|---|---|---|---|---|---|---|
| browser/components/ssb/LinuxSupport.sys.mjs:44-62 | without an icon, `iconFile` is set to null and the descriptor template then reads `iconFile.path`, which throws: install fails after creating the private directory and before writing the descriptor | any SSB for which the icon provider returns nothing, e.g. id `abc123`, name `Example` | the launcher is still written; the comment asks for a default icon, and the model omits the `Icon=` key | high, not executed | `Lifecycle.NoIconInstallFails` | `Lifecycle.IntendedInstallWithoutIcon` |
