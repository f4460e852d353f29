# clr-boot-manager: verified model

A Dafny model of the parts of clr-boot-manager that decide what a machine can boot: native and image updates
with kernel garbage collection, the names that tie kernels to their files, the kernel command line, the
`loader.conf` and `syslinux.cfg` round trips, EFI boot variables, atomic copies and freestanding initrds.

`dafny verify dfyconfig.toml` checks everything.

## How it is built

- `Disks` is one map from paths to contents together with the history of every state it went through: each
  entry of the history is a possible crash point. Every system call may fail at any time; `faults` counts the
  calls that failed although nothing stood in their way.
- `Names` defines a kernel's identity (type, version, release), every file name generated from it, and which
  files a kernel owns. A name is canonical when its type has 1 to 31 characters and no dot, its version 1 to 15
  and no dash, its release fits an `int16_t`, and neither has glob metacharacters. A kernel counts as canonical if
  besides its module directory, if any, is its own.
- `Kernels` and `Plans` describe what an update selects and in which order it acts; a run is a prefix of a plan
  that only a failing fatal step cuts short.
- `BootManagers` installs, removes and sets the default on the disk; each method says which paths it may touch
  at any crash point, whatever fails.
- `Traces` ties the events of a run to the disk: each has its own stretch of the history, touches only the paths
  of its step, and has achieved its step when it succeeded.
- `Safety` states what an update keeps at every state, `Updates`, `NativeUpdate` and `ImageUpdate` are the
  update itself, `Guarantees` draws the conclusions: kept kernels are untouched, copies in place stay, removals
  come last, a second run is quiet. `Restarts` continues with any number of updates, and with one after a crash.
- `Entries` reads a boot entry the way a boot loader does; `TextLines` splits texts into lines.
- What the main operations compute also has laws that speak neither of the functions that specify it nor of the loops
  that compute it, but of files, lines, words, kernels and events: `CmdlineLaws`, `KernelLaws`, `NameLaws`,
  `SelectionLaws`, `EntryLaws`, `SyslinuxLaws`, `BootVarLaws`.
- `CommandLine` works in place on character buffers, `Systemd` on the buffer it parses backwards, `BootVar` on
  the arrays of the source, `SystemKernels` on the fixed buffers of the uname parser.

Where the code and its own comments disagree the code is followed. `boot_manager_update_image` announces to
return the status of the bootloader update (src/bootman/update.c:142), but `ret` starts out true, so a failing
bootloader update does not change the result; `ImageUpdate.UpdateImage` states that.

Six expectations one may have of the code do not hold, and are settled exactly:

- The default that a native update writes is removed by the same update if the default link of one type names
  an unkept kernel of another (`Plans.DefaultSurvives`, `Plans.CrossTypeDefaultIsRemoved`,
  `Guarantees.DefaultIsLeft`).
- A removal takes the modules of a kernel that is kept, when both were found with a module directory of the older
  naming and have version and release in common (`Guarantees.SharedModules`, `Guarantees.RemoveTakesModules`).
- A crash in the middle of a removal can leave a source that no later update finds: the one whose command line file
  was already gone (`Restarts.CutIsNeverCollected`, `Restarts.CutRemoval`).
- A boot entry can name extra initrds that were never copied: those of the system, for a kernel that has a user
  initrd too, when the user has no extra of that name (`Guarantees.ExtraBackedExactly`, `Guarantees.EntryIsBacked`,
  `Guarantees.SystemExtrasUnbacked`, `Guarantees.InstallLeavesUnbacked`).
- `syslinux.cfg` is not read back correctly when a line in front of the DEFAULT line contains "DEFAULT ": in a path,
  an initrd's name or a command line, or because a field that a space follows ends in "DEFAULT"
  (`Syslinux.ConfigReadsBack`, `Syslinux.OccursInStanza`, `Syslinux.FieldsReadBack`, `Syslinux.KeymapHidesDefault`).
- A successful copy of the freestanding initrds can lose one whose name another is staged under
  (`Freestanding.Initrds.Copy`, `Freestanding.CopiesStandIff`, `Freestanding.LosingOrder`).

## Model

| member | source | states |
|---|---|---|
| `NativeUpdate.UpdateNative` | src/bootman/update.c:149-377 | A whole native update on the disk. Nothing happens only if there is no kernel or the directory cannot be read. Whatever fails, the steps taken are a run of the plan of a selection among the kernels found, the history is cut into one stretch per step and the cleanup behind them (`IsTold`), and with canonical names every state of the disk on the way is safe (`SafeRun`); success removes the sources of all scheduled kernels and brings the freestanding initrds up to date unless one is staged under another's name; on a sane system configuration a run in which no system call fails and no freestanding source is missing succeeds, repairs the running kernel and deletes every file scheduled for removal |
| `NativeUpdate.UpdateFound` | src/bootman/update.c:166-377 | The same when kernels were found: sorting loses none of them, and the scene is the state the run begins in |
| `NativeUpdate.RunNative` | src/bootman/update.c:171-377 | The same from the sorted kernels on: selection, bootloader update (whose failure only turns the result false), copy of the freestanding initrds (whose failure ends the run without cleanup), installation, removal, cleanup |
| `NativeUpdate.InstallAndCollect` | src/bootman/update.c:215-377 | A failing installation or default skips every removal and goes to the cleanup; otherwise removals follow the written default; either way the events are a run, tell the history, and the history satisfies `SafeRun` |
| `NativeUpdate.InstallSelected` | src/bootman/update.c:215-344 | The installations and the default form a run of the selection's installation plan; when it succeeds the removal list is exactly `Removals`, and every tip, last booted kernel and repaired running kernel is completely installed |
| `NativeUpdate.Finish` | src/bootman/update.c:345-377 | The end of a run whose first events are given: removals and cleanup after complete installations, only the cleanup after failed ones; the report joins all events to one run that tells the whole history |
| `NativeUpdate.CollectAndClean` | src/bootman/update.c:346-377 | Removals, then cleanup: at every state from here on the kept kernels stay installed and the default stays written; true only when every removal, the cleanup and the earlier bootloader update succeeded |
| `NativeUpdate.RemoveOldKernels` | src/bootman/update.c:350-366 | From a finished installation to the last removal, at every state: only paths of removed kernels are touched, everything secured stays installed |
| `NativeUpdate.CopyFreestandingStep` | src/bootman/update.c:209-212 | The first step of a run touches only freestanding files on the ESP and, when it succeeds, has each unmasked initrd in place, unless one that must be copied is staged under the name of another (`Freestanding.CopiesStandIff`) |
| `NativeUpdate.CleanUp` | src/bootman/update.c:368-372 | Only stale freestanding copies go; afterwards none is left, and the copies that were in place still are |
| `NativeUpdate.CleanAfterFailure` | src/bootman/update.c:368-372 | A run that failed before its removals still touches nothing but the ESP, and no copy that was in place; its cleanup leaves nothing stale unless a call fails |
| `NativeUpdate.StoppedEarly` | src/bootman/update.c:209-212 | A run that cannot copy the freestanding initrds is a one-event run of some selection's plan, and safe |
| `NativeUpdate.Reported` | src/bootman/update.c:209-366 | A run is put together from its parts: the second event is the repair, removals could start where the preparation ended, and a run that failed before has none |
| `Updates.InstallAll` | src/bootman/update.c:215-344 | Repair of the running kernel, then tip and last booted kernel of each type, then the default; only the repair may fail without ending the run; keeps the invariant that only the ESP was touched and no copy in place disturbed |
| `Updates.InstallTypes` | src/bootman/update.c:227-344 | The walk over the types and then the default: the default is written only after every installation succeeded |
| `Updates.RepairRunning` | src/bootman/update.c:215-225 | The repair is one non-fatal event; it leaves the running kernel installed when it succeeds |
| `Updates.UpdateTypes` | src/bootman/update.c:227-318 | Walks the types in any order of the hash map: the events are a run of the types' installation plan, the removals are those of all types walked, and all tips and last booted kernels are installed when it succeeds |
| `Updates.UpdateNext` | src/bootman/update.c:228-317 | One turn of the walk: its events join those before; a turn that fails leaves a run of a full plan |
| `Updates.UpdateType` | src/bootman/update.c:228-317 | One type: its sorted kernels, its tip, its last booted kernel, both installed in this order, and exactly the other non-running kernels scheduled |
| `Updates.InstallKeepers` | src/bootman/update.c:248-277 | The tip is installed, and only if that succeeds the last booted kernel; both are then installed, and the events are a run of the type's plan |
| `Updates.FindTip` | src/bootman/update.c:234-246 | The tip is the kernel of this type that the type's default link names, else the first behind sorting by release; what a tip is, whatever finds it, is `SelectionLaws.TipIs` |
| `Updates.ScheduleDrops` | src/bootman/update.c:280-316 | Exactly the type's kernels that are neither running, tip nor last booted are scheduled, in order, and none without a running kernel |
| `Updates.FindDefault` | src/bootman/update.c:320-329 | The default is looked up among all kernels, by the type of the running kernel, else by the uname's |
| `Updates.SetNewDefault` | src/bootman/update.c:331-344 | Writing the default touches no kernel's files and, when it succeeds, loader.conf names the kernel |
| `Updates.CollectKernels` | src/bootman/update.c:357-366 | The removal loop stops at the first failure; at every state everything secured stays installed; on success all sources are gone, and without faults every removable file of every removed kernel |
| `Updates.CollectNext` | src/bootman/update.c:357-366 | One turn of the removal loop: what was removed before stays gone, the sources of those to come stay there, and a failing removal ends the run |
| `Updates.InstallStep` | src/bootman/update.c:217-224 | An installation inside a run: success adds the kernel to those installed, failure drops it, and no other installed kernel and no copy in place is disturbed |
| `Updates.WalkStops` | src/bootman/update.c:249-254 | A run that stops inside one type is a run of the plan of a full selection |
| `Updates.RanSelected` | src/bootman/update.c:227-344 | The separate events of repair, installations and default together are one run of the plan |
| `Plans.RemovalsExact` | src/bootman/update.c:279-316 | For any hash-map order and any order of kernels with equal release, the removals are, each once, all kernels but the running one, the tips and the last booted ones; none when the running kernel is unknown |
| `Plans.KeptFew` | src/bootman/update.c:227-318 | At most two kernels per type and the running one are kept |
| `Plans.RemovalsAreSafe` | src/bootman/update.c:215-366 | In every prefix of every run: a removal names no running, tip or last booted kernel and no kernel removed before, and comes after the successful installation of every tip and last booted kernel and after the default was written |
| `Plans.PreparationCovers` | src/bootman/update.c:215-344 | No removal is planned before every tip and last booted kernel has been installed and the default written |
| `Plans.FixedPoint` | src/bootman/update.c:225-318 | With distinct releases inside each type, selecting again among the survivors gives the same running kernel, tips and last booted kernels, and nothing to remove |
| `Plans.SameKeepers` | src/bootman/update.c:225-318 | With distinct releases inside each type, selecting among what an interrupted run left, cut-off kernels included, finds the same running kernel, tips and last booted kernels |
| `Plans.SameNewDefault` | src/bootman/update.c:320-329 | The second run writes the same default, if the first did not remove it |
| `Plans.DefaultIsTip` | src/bootman/update.c:320-329 | The default that is written is the tip of the type it was looked up for exactly when the link names a kernel of that type |
| `Plans.DefaultSurvives` | src/bootman/update.c:320-366 | A default whose link stays within its type is never removed by the run; in general it is removed exactly when its own type does not keep it |
| `Plans.CrossTypeDefaultIsRemoved` | src/bootman/update.c:325-366 | Without that condition the property fails: for every tree of this shape a kernel is selected as the new default and scheduled for removal; what that means on the disk is `Guarantees.DefaultIsLeft` |
| `Plans.WalkSelects` | src/bootman/update.c:227-329 | Walking the types in any order completes a selection |
| `Plans.CompleteTypes` | src/bootman/update.c:227-318 | The choices of an interrupted walk can be completed for the remaining types |
| `Plans.PartsRun` | src/bootman/update.c:209-366 | Copy, installation and removals, each a run of its part, make up a run of the whole plan, complete when its parts are |
| `SelectionLaws.TipIs` | src/bootman/update.c:235-246 | The tip of a type is the kernel that the type's default link names if that is of the type; otherwise no kernel of the type, booted or not, has a higher release |
| `SelectionLaws.LastGoodIs` | src/bootman/kernel.c:560-580 | The last booted kernel of a type has booted and no booted kernel of the type has a higher release; there is one as soon as one booted |
| `SelectionLaws.RemovedIff` | src/bootman/update.c:227-318 | With distinct releases inside each type: a kernel is removed if and only if the running one is known and it is not that one, neither linked nor, without a link, the highest of its type, nor the highest booted one of its type |
| `SelectionLaws.NewDefaultIs` | src/bootman/update.c:320-329 | The default is the kernel of whatever type that the link of the running kernel's type names; without a running kernel the link of the uname's type counts; without either there is none |
| `SelectionLaws.FailureEnds` | src/bootman/update.c:209-366 | In every run the copy comes first, and an event that fails is the last one, except the repair of the running kernel right behind the copy, which never is the last |
| `SelectionLaws.StepsAre` | src/bootman/update.c:215-344 | In every run only kernels that are kept are installed, and when the default is written, every tip and every last booted kernel has been installed with success |
| `Guarantees.KeptKernelsUntouched` | src/bootman/update.c:345-366 | At every moment of a run, whatever fails: no file off the ESP of a kernel that is not removed is touched |
| `Guarantees.CopiesInPlaceStay` | src/bootman/update.c:215-277 | A kernel that is not removed and had its copies on the ESP in place keeps them in place at every moment of the run |
| `Guarantees.EveryStateIsTold` | src/bootman/update.c:209-372 | Every state a run goes through belongs to one event, and differs from where that event began only in paths of its step, or belongs to the cleanup behind the last event |
| `Guarantees.InstallsDeliver` | src/bootman/update.c:215-277 | A kernel whose installation is reported as successful is completely installed when the event ends |
| `Guarantees.RemovalsComeLast` | src/bootman/update.c:227-366 | From the first removal on, at every moment, every tip, last booted and repaired running kernel is completely installed and the default is written |
| `Guarantees.HighestIsInstalled` | src/bootman/update.c:235-277 | From the first removal on, at every moment, each type has a kernel that is installed, can be booted and is not removed: the linked one, or without such a link one of the highest release of all kernels of the type, booted or not |
| `Guarantees.FrontIsInstalled` | src/bootman/update.c:227-277 | With distinct releases inside each type: from the first removal on, at every moment, the linked or else the highest kernel of each type is completely installed, and so is its highest booted one |
| `Guarantees.NothingKeptChanges` | src/bootman/update.c:345-372 | From the first removal on no file of a kernel that is not removed changes, off the ESP or on it: not even the copies and the entry of a running kernel whose repair failed |
| `Guarantees.DefaultBoots` | src/bootman/update.c:320-366 | From the first removal on, at every moment: a default whose link stays within its type is what loader.conf parses back to, and it has what an installed kernel needs to boot: entry, image, initrd and extras (`Guarantees.InstalledBoots`) |
| `Guarantees.InstalledBoots` | src/bootloaders/systemd-class.c:233-355 | What an installed kernel has: an entry that a loader reads line by line as naming the kernel's copy, its command line behind the root arguments and its own initrd; its image and initrd on the ESP equal to their sources, the user's before the system's, and every extra beside the one chosen |
| `Guarantees.KeptKernelsBoot` | src/bootman/update.c:215-366 | From the first removal on, at every moment, this holds of every tip, every last booted kernel and the repaired running kernel |
| `Guarantees.DefaultNamesEntry` | src/bootloaders/systemd-class.c:409-451 | For a kernel of any name: the first line of loader.conf as written for it names the entry an installation of it writes, with the release as it is stored |
| `Guarantees.DefaultIsLeft` | src/bootman/update.c:320-366 | At the end of a run whose removals succeeded loader.conf names the default, and the source of that kernel is there if and only if it was kept |
| `Guarantees.OnlyEspBefore` | src/bootman/update.c:209-344 | Until removals start, nothing off the ESP is touched |
| `Guarantees.OnlyEspWhenUnknown` | src/bootman/update.c:188-192 | With an unknown running kernel nothing off the ESP is touched at all |
| `Guarantees.ExactlyKeptSurvive` | src/bootman/update.c:357-366 | After success enumeration finds exactly the kernels that were kept |
| `Guarantees.SecondRunIsQuiet` | src/bootman/update.c:149-377 | On the disk: a second run after one that went well removes nothing, and at every moment of it all kernel and initrd copies are what they were |
| `Guarantees.UpdateFit` | src/bootman/update.c:149-377 | On a sane system with canonical names, a known running kernel, releases that tell the kernels of a type apart and freestanding sources that are there, a run without faults goes well and leaves such a system again |
| `Guarantees.UpdateTwice` | src/bootman/update.c:149-377 | Two updates in a row on such a system, without faults: both succeed, and the second removes nothing and leaves every copy as it was at every moment; and whatever the system, the second is quiet if the first went well |
| `Guarantees.RemovalIsThorough` | src/bootman/kernel.c:789-949 | Of the files that bear a found kernel's identity, removal deletes exactly those that are not user initrds, not initrds of a kernel without a system initrd, not leftovers beside the ESP copy, and not modules outside /usr on a build that keeps none below it |
| `Guarantees.RemovesAll` | src/bootman/kernel.c:789-949 | Among the files that a removal deletes are, if they are there, source, command line, configuration, System.map, vmlinux, module and header directories, marker, the copy on the ESP, that of old versions, and the entry |
| `Guarantees.RemovesInitrds` | src/bootman/kernel.c:892-918 | Of a kernel with a system initrd a removal deletes that initrd and all that extend its name, in the kernel directory and on the ESP |
| `Guarantees.SharedModules` | src/bootman/kernel.c:165-180 | A removal deletes the module directory of another kernel if and only if both were found with one of the older naming and have version and release in common |
| `Guarantees.RemoveTakesModules` | src/bootman/kernel.c:831-858 | Such a removal, when no call fails, leaves the other kernel without its modules |
| `Guarantees.EntryIsBacked` | src/bootloaders/systemd-class.c:274-305 | When the freestanding initrds are on the ESP, every initrd named by the entry of an installed kernel is there, except a system extra of a kernel that also has a user initrd when the user has no extra of that name |
| `Guarantees.EntriesAreBacked` | src/bootloaders/systemd-class.c:274-305 | In a run that hypothesis is met: from the first removal on, at every moment, every initrd named by the entry of a tip, a last booted or a repaired running kernel is on the ESP, with that one exception, unless a freestanding initrd that had to be copied was staged under the name of another |
| `Guarantees.OverlayStaysCopied` | src/bootman/bootman.c:956-1060 | From the successful copy on, at every moment of the run and of its cleanup, each unmasked freestanding initrd equals its copy |
| `Guarantees.EnvironmentIsValid` | src/bootman/bootman.c:822-954 | What enumeration leaves has freestanding keys and sources only, and an unmasked microcode initrd |
| `Guarantees.ExtraBackedExactly` | src/bootman/kernel.c:708-745 | Being installed puts a system extra on the ESP, whatever else the ESP holds, if and only if the kernel has no user initrd or the user has an extra of that name |
| `Guarantees.SystemExtrasUnbacked` | src/bootloaders/systemd-class.c:286-287 | The exception is real: such an extra is named by the entry and can be missing from an ESP on which entry and copies count as installed |
| `Guarantees.InstallLeavesUnbacked` | src/bootman/kernel.c:679-756 | No installation mends it: run on such a disk it succeeds, and the file its entry names is still missing |
| `Guarantees.StillTame` | src/bootman/update.c:357-366 | What a successful run leaves is again a tree of canonical names |
| `Restarts.UpdateRepeatedly` | src/bootman/update.c:149-377 | Any number of further updates without faults succeed; the kernels and, at every moment, all their copies stay as the first one left them |
| `Restarts.CrashKernels` | src/bootman/kernel.c:85-345 | In every state of a run enumeration finds each kernel that is not to be removed, unchanged, and besides these only remnants of others |
| `Restarts.CrashFit` | src/bootman/update.c:149-377 | Every state a run goes through is one in which an update succeeds: names are canonical, the running kernel is found, releases stay apart |
| `Restarts.CrashConverges` | src/bootman/update.c:149-377 | An update after a crash at any moment finds the same running kernel, tips and last booted kernels, and when it goes well leaves exactly the kernels the first one would have left |
| `Restarts.UpdateAfterCrash` | src/bootman/update.c:149-377 | Such an update, without faults, succeeds with that outcome, and of the sources that were to go it leaves those whose removal the crash cut in two and no other |
| `Restarts.CutIsNeverCollected` | src/bootman/kernel.c:868-938 | After a crash and a second run the source of a kernel that was to be removed is still there if and only if at the crash its command line file was gone and the source was not |
| `Restarts.CutStays` | src/bootman/kernel.c:143-145 | Such a kernel stays cut in two whatever runs follow |
| `Restarts.CutRemoval` | src/bootman/kernel.c:868-938 | Every removal without faults passes through such a state |
| `Safety.InstallPrepares` | src/bootman/kernel.c:679-756 | An installation, successful or not, disturbs no other installed kernel and no copy that was in place |
| `Safety.RemovalCollects` | src/bootman/kernel.c:789-949 | A removal disturbs none of the kernels that are kept, at any crash point |
| `Safety.CleanupCollects` | src/bootman/bootman.c:1007-1060 | Neither does the cleanup of freestanding initrds |
| `Safety.FinalKernels` | src/bootman/kernel.c:291-344 | Once their sources are gone, the removed kernels, and no others, are no longer found |
| `Safety.SurvivorSpared` | src/bootman/kernel.c:789-949 | No removal of another kernel touches a file of a kernel that stays |
| `Traces.StateHasEvent` | src/bootman/update.c:209-366 | A chain of events covers its history: each state lies in the stretch of one event and respects its step's paths |
| `Traces.LeadsThen` | src/bootman/update.c:209-366 | Two chains of events, the second beginning where the first ended, are one |
| `Safety.CollectingSpares` | src/bootman/kernel.c:789-949 | From the first removal on no path of a kernel that stays may be touched |
| `Safety.OffEspKernels` | src/bootman/kernel.c:83-289 | Enumeration depends on nothing on the ESP |
| `ImageUpdate.UpdateImage` | src/bootman/update.c:68-144 | The events are a run of copy, installation of every kernel and default, tell the whole history, and complete exactly when the result is true, whatever became of the bootloader update; only the ESP is touched and no copy in place; on success every kernel found is installed and one of the highest release is the default; without kernels or with an unreadable directory nothing happens; with kernels, no failing call and no missing freestanding source it succeeds |
| `ImageUpdate.InstallImage` | src/bootman/update.c:108-143 | The same for what was found |
| `ImageUpdate.InstallAndSet` | src/bootman/update.c:117-140 | All kernels in order, then the default, which is written only when every one was installed; the events are a run of that plan and tell the history |
| `ImageUpdate.InstallEach` | src/bootman/update.c:122-131 | The loop installs every kernel, stopping at a failure; none installed earlier is disturbed |
| `ImageUpdate.ImageSteps` | src/bootman/update.c:91-147 | In every run of an image update the copy comes first, an event that fails is the last one, and the default, which is the first kernel, is written when all have been installed |
| `BootManagers.BootManager.InstallKernel` | src/bootman/bootman.c:322-339 | Touches only the kernel's own paths on the ESP at any crash point; success means copies and entry are in place; copies that were in place are not written again; fails only for a failing call or a missing source |
| `BootManagers.BootManager.InstallBlobs` | src/bootman/kernel.c:679-756 | Kernel, initrd (the user's before the system's) and extra initrds are equal to their sources afterwards; files of old versions are cleaned up without affecting that |
| `BootManagers.BootManager.InstallInitrd` | src/bootman/kernel.c:714-745 | Initrd and extras of one source directory |
| `BootManagers.BootManager.CopyExtras` | src/bootman/kernel.c:662-674 | All files matched by the glob are copied or already match |
| `BootManagers.BootManager.CopyGlobResult` | src/bootman/kernel.c:645-660 | The loop over them, stopping at a failure |
| `BootManagers.BootManager.CopyIfNeeded` | src/bootman/kernel.c:710-715 | Nothing is written when the files match; afterwards they do |
| `BootManagers.BootManager.RemoveLegacy` | src/bootman/kernel.c:595-643 | The files of old versions go, and nothing else |
| `BootManagers.BootManager.WriteEntry` | src/bootloaders/systemd-class.c:233-355 | The entry holds exactly the composed text; an equal entry is not written again |
| `BootManagers.BootManager.RemoveKernel` | src/bootman/bootman.c:384-400 | Only removable paths of the kernel are touched; success means its source is gone; without faults everything removable is gone, entry included |
| `BootManagers.BootManager.RemoveBlobs` | src/bootman/kernel.c:789-949 | The same without the entry; a failure to remove extra initrds keeps the source |
| `BootManagers.BootManager.RemoveInitrds` | src/bootman/kernel.c:892-918 | Initrds and extras of a kernel with a system initrd; only extras that cannot be removed count as failure |
| `BootManagers.BootManager.RemoveExtras` | src/bootman/kernel.c:772-784 | All matches of the glob are gone on success |
| `BootManagers.BootManager.RemoveGlobResult` | src/bootman/kernel.c:758-770 | The loop goes on after a failure and reports it |
| `BootManagers.BootManager.GetKernels` | src/bootman/kernel.c:291-344 | The kernels found are kernels of the tree, each once, and all of them when nothing fails |
| `BootManagers.BootManager.ReadKernels` | src/bootman/kernel.c:312-341 | The readdir loop: empty files and names that fail inspection are skipped; what the others yield is `KernelLaws.FoundWith`, `KernelLaws.FoundModules` and `KernelLaws.RemovedAfterMerging` |
| `BootManagers.BootManager.SetDefaultKernel` | src/bootman/bootman.c:424-465 | Only a kernel found again under the same type, version and release becomes the default |
| `BootManagers.BootManager.WriteDefaultConfig` | src/bootloaders/systemd-class.c:382-451 | loader.conf names the kernel; an equal file is not written again |
| `Kernels.InspectFrame` | src/bootman/kernel.c:83-289 | Inspection of a name depends only on the files it looks at |
| `Kernels.FullCmdlineWords` | src/bootman/kernel.c:264-279 | Without removals a kernel's words come first, then the global ones, and none fuse; what removals apply to is `KernelLaws.RemovedAfterMerging` |
| `KernelLaws.RemovedAfterMerging` | src/bootman/kernel.c:264-279 | Removals apply to the merged line: the kernel's own command line, a space and the global one |
| `KernelLaws.OneRemovalTakes` | src/bootman/kernel.c:264-279 | With one removal file of one clean line: wherever in the merged line it first matches, if it is cut, exactly its words go and the others keep their order, if and only if the match starts a word |
| `KernelLaws.RemovalReachesGlobal` | src/bootman/kernel.c:271-279 | Of "quiet" and a global "splash", removing "splash" leaves "quiet " |
| `KernelLaws.FoundExactly` | src/bootman/kernel.c:312-341 | A canonical name is that of a kernel found if and only if its file is not empty and its command line file is there |
| `KernelLaws.FoundWith` | src/bootman/kernel.c:111-288 | What is recorded of a kernel: the identity its name tells, that release as 16 bits hold it, the command line made of its own file, and for each flag whether that file is there |
| `KernelLaws.FoundModules` | src/bootman/kernel.c:147-180 | A kernel is found with the module directory of its own name, without that with the one outside /usr, and only without either with one of the older naming |
| `Kernels.DistinctIdents` | src/bootman/kernel.c:83-289 | Kernels of one tree are told apart by type, version and release |
| `Kernels.SortDescending` | src/bootman/bootman.c:480-489 | Some permutation in descending order of release; kernels of equal release may come in any order |
| `Kernels.GetRunningKernel` | src/bootman/kernel.c:521-558 | Exact match on type, version and release, else the first of the same type and release; `KernelLaws.RunningIs` says when which is found |
| `KernelLaws.RunningIs` | src/bootman/kernel.c:521-558 | A kernel that the uname names in full is the running one if there is one; else one of its type and release; and none is known if and only if there is neither |
| `Kernels.FirstIsUnique` | src/bootman/kernel.c:521-558 | When only one kernel can be meant the order of the list does not matter |
| `Kernels.GetDefaultForType` | src/bootman/kernel.c:370-392 | The kernel whose name the type's link holds |
| `Kernels.GetLastBooted` | src/bootman/kernel.c:560-580 | The last booting kernel whose release is not below any earlier one's |
| `Kernels.LastBootedIsHighest` | src/bootman/kernel.c:560-580 | That is a booting kernel of the highest release, of several the last in the list, and there is one as soon as a kernel boots |
| `Kernels.MapKernels` | src/bootman/kernel.c:400-435 | Maps exactly the types that occur to their kernels in order |
| `Kernels.TypesPartition` | src/bootman/kernel.c:400-435 | Splitting by type loses, invents and repeats no kernel |
| `Names.KernelNameReadsBack` | src/bootman/kernel.c:112-138 | A file name generated from a canonical identity is read back as that identity |
| `NameLaws.KernelNameIsRead` | src/bootman/kernel.c:111-115 | A file name is read as an identity if and only if it is the namespace, a type of 1 to 31 characters without a dot, a version of 1 to 15 without a dash and a number, joined by dot, dot and dash, with whatever behind |
| `NameLaws.UnameIsRead` | src/bootman/kernel.c:437-508 | A uname is read as an identity if and only if it is a version of 1 to 30 characters without a dash, 1 to 29 characters that begin with a number, and a type of 1 to 30, joined by dash and dot; the number is cut to 64 and then to 16 bits |
| `NameLaws.NumberIsRead` | src/bootman/kernel.c:470-486 | What strtol makes of blanks, a sign, digits and a rest; without digits there is no number |
| `NameLaws.NamesExample` | src/bootman/kernel.c:111-115 | The names of kernel, uname, older module directory and entry of one kernel, letter by letter |
| `NameLaws.FilesExample` | src/bootman/kernel.c:118-187 | Those of its command line, configuration, System.map, vmlinux, headers and boot marker |
| `NameLaws.CopiesExample` | src/bootman/kernel.c:123-206 | Those of its initrd and its copy |
| `Names.UnameReadsBack` | src/bootman/kernel.c:437-508 | So is a uname, exactly when the type has at most 30 characters |
| `Names.KernelNameDetermines` | src/bootman/kernel.c:186-205 | Kernel names, with any extension, determine the kernel |
| `Names.UnameDetermines` | src/bootman/kernel.c:58-68 | So do unames, and with them markers, configuration and module names |
| `Names.UntypedDetermines` | src/bootman/kernel.c:165-171 | An untyped module directory tells version and release only, and is never a typed one |
| `Names.EntryNameDetermines` | src/bootloaders/systemd-class.c:160-181 | So do loader entries, although type and vendor prefix may contain dashes |
| `Names.OwnershipDisjoint` | src/bootman/kernel.c:772-949 | Two canonical kernels share no file: no source, copy, extra initrd, marker or entry, and no `initrd-….*` match |
| `Installs.OthersSpare` | src/bootman/kernel.c:679-949 | What installing or removing one kernel may touch belongs to no other |
| `Installs.FreestandingSpares` | src/bootman/bootman.c:956-1060 | No freestanding initrd belongs to a kernel |
| `Installs.SourceApart` | src/bootman/kernel.c:920-941 | A kernel's source is none of the files removed before it |
| `Installs.InstalledFrame` | src/bootman/kernel.c:679-756 | Being installed depends only on the kernel's own files |
| `Installs.CopiedOne` | src/bootman/kernel.c:645-660 | Copying one extra initrd leaves the others matching, staging file included |
| `SystemKernels.SystemKernel.Parse` | src/bootman/kernel.c:437-508 | Agrees with `ParseUname`; every write stays inside its 32-character buffer |
| `SystemKernels.SystemKernel.ParseRest` | src/bootman/kernel.c:470-505 | Release and type, in bounds |
| `SystemKernels.ReportBooted` | src/cli/ops/report_booted.c:30-70 | Writes the marker of the parsed identity, nothing when the uname cannot be parsed |
| `SystemKernels.ReportFlagsOne` | src/bootman/kernel.c:283-287 | After a report the next enumeration finds the same kernels and flags exactly the reported one beyond those flagged before |
| `Disks.Disk.CopyFile` | src/lib/files.c:409-450 | For any positive chunk sizes the target ends equal to the source, and is a prefix of it at every crash point |
| `Disks.Disk.CopyFileAtomic` | src/lib/files.c:452-482 | At every crash point the target is the complete old file, absent, or the complete new file, and once the old one is gone the new content is complete under one of the two names; nothing else is touched |
| `Disks.Disk.FileSetText` | src/lib/files.c:359-386 | Writes the text; a crash may leave a prefix or no file |
| `Util.RStrip` | src/lib/util.c:19-44 | The buffer holds the string without its trailing whitespace, NUL-terminated in bounds, and is otherwise unchanged |
| `Freestanding.Initrds.Enumerate` | src/bootman/bootman.c:943-954 | From an empty start each name is decided by the user's link to /dev/null, else the user's file, else the system's link, else the system's file (`Freestanding.IsDecided`); the early microcode initrd is some unmasked one if there is any, and the user's if the user has one |
| `Freestanding.Initrds.EnumerateDir` | src/bootman/bootman.c:822-941 | One directory is laid under what was there: a link to /dev/null masks the name, a file that is not empty is an initrd, and nothing else adds a key (`Freestanding.IsLaid`); the microcode initrd, once chosen, stays, and is always an unmasked key |
| `Freestanding.UserOverSystem` | src/bootman/bootman.c:943-954 | Each key takes the user's entry or mask if there is one, else the system's |
| `Freestanding.CopiedFrom` | src/bootman/bootman.c:956-1005 | When the copies stand, the copy on the ESP is that of the user's file, without one that of the system's, unless a link masks the name |
| `Freestanding.UcodeNames` | src/bootman/bootman.c:914-929 | A microcode initrd is one whose name is something and then -ucode.cpio |
| `Freestanding.Initrds.Copy` | src/bootman/bootman.c:956-1005 | On success the copy of an unmasked initrd equals its source if and only if no later turn staged its own copy under that name; only freestanding names are touched |
| `Freestanding.CopiesStandIff` | src/bootman/bootman.c:956-1005 | In whatever order the hash map is walked all copies stand, if and only if no initrd that must be copied is staged under the name of another unmasked one |
| `Freestanding.LosingOrder` | src/bootman/bootman.c:967-1003 | Otherwise there is an order in which the copy of `a.TmpWrite` is lost to the staging of `a`, although every copy succeeds |
| `Freestanding.Initrds.RemoveOld` | src/bootman/bootman.c:1007-1060 | On success every freestanding file on the ESP is a key; only files that are no key are removed |
| `Freestanding.EntryListsEachOnce` | src/bootloaders/systemd-class.c:274-305 | An entry lists the microcode initrd first, each unmasked key once and no masked key, in any order of the map |
| `Freestanding.EntryOrder` | src/bootloaders/systemd-class.c:274-305 | An entry lists the microcode initrd first, directly behind it the kernel's own, behind that the kernel's extras in order, and behind these only unmasked freestanding ones |
| `Freestanding.AddedOverlay` | src/bootman/bootman.c:843-938 | The directory loop computes the overlay |
| `Freestanding.AddedUcode` | src/bootman/bootman.c:914-929 | It chooses the first candidate that is neither masked nor hidden |
| `Systemd.ComposeEntry` | src/bootloaders/systemd-class.c:266-333 | The writer's loops produce the entry text with the initrds in order; which these are is `Freestanding.EntryOrder`, and what a loader reads of them `EntryLaws.InitrdIsRead` |
| `Entries.EntryIsRead` | src/bootloaders/systemd-class.c:260-333 | A loader that reads the entry line by line finds one title, the installed kernel, the initrds in order and no other, and one line of options that ends in the command line, when no field has a newline |
| `EntryLaws.OwnInitrdIsRead` | src/bootloaders/systemd-class.c:268-289 | A loader that reads a written entry finds the kernel's copy and, directly behind the microcode initrd if there is one, the kernel's own initrd, if the kernel has one of the user's or of the system's |
| `EntryLaws.InitrdIsRead` | src/bootloaders/systemd-class.c:274-305 | A loader finds an initrd in a written entry if and only if it is the kernel's own, extends that name beside a system initrd in the kernel directory, or is freestanding and not masked |
| `EntryLaws.OptionWords` | src/bootloaders/systemd-class.c:307-333 | The words of the options line: root=PARTUUID= with the partition's UUID if that is known, else root=UUID= with the file system's; then encryption, subvolume, keymap and font as configured; then the words of the command line |
| `EntryLaws.LoaderLines` | src/bootloaders/systemd-class.c:409-433 | The lines of loader.conf: the default entry, the timeout if it is positive, the console mode if there is one |
| `Entries.EntryTextIs` | src/bootloaders/systemd-class.c:260-333 | The entry is made of these lines |
| `TextLines.UnlinesReadsBack` | src/bootloaders/syslinux-common.c:54-66 | A text written line by line is read back line by line |
| `Systemd.ParseKernelFromLoader` | src/bootloaders/systemd-class.c:453-557 | The backwards walk that cuts the buffer at dashes computes `ParseLoader` |
| `Systemd.WalkBack` | src/bootloaders/systemd-class.c:483-541 | Its loop, in bounds, for any text |
| `Systemd.EntryReadsBack` | src/bootloaders/systemd-class.c:160-181 | An entry name is parsed back to its identity, with dashes allowed in prefix and type |
| `NameLaws.EntryNameIsRead` | src/bootloaders/systemd-class.c:483-541 | An entry name is read as an identity if and only if it is anything of the prefix's length and one, a type of 1 to 31 characters, a version of 1 to 15 and some text, neither of these two with a dash, joined by dashes; the release is the number the text begins with, 0 without one, and must be a long that is not negative |
| `NameLaws.DefaultIsRead` | src/bootloaders/systemd-class.c:470-481 | In any text the default is what stands behind the first "default ", up to the end of that line; there is none exactly when that does not occur |
| `Systemd.LoaderReadsBack` | src/bootloaders/systemd-class.c:409-557 | loader.conf is read back as the kernel it was written for, whatever timeout and console-mode lines follow |
| `CommandLine.ParseFile` | src/lib/cmdline.c:32-120 | The output is the stripped, non-empty, non-comment lines joined by single spaces (`CmdlineLaws.ParsedConcat`, `CmdlineLaws.ParsedLine`), and the count returned is the number of characters written; negative exactly after a failing write, which leaves a beginning of that output |
| `CmdlineLaws.ParsedConcat` | src/lib/cmdline.c:50-105 | Every line counts: for all texts, parsing one, a newline and the other gives what parsing both gives, with a space between if neither is empty |
| `CmdlineLaws.ParsedLine` | src/lib/cmdline.c:57-97 | A line whose first character that is not blank is # counts for nothing; of any other the characters between outer blanks are left |
| `CmdlineLaws.ThreeLines` | src/lib/cmdline.c:50-105 | Parsing the lines one, two and three gives "one two three" |
| `CommandLine.ParsedTwice` | src/lib/cmdline.c:32-120 | Parsing the output again gives the same output |
| `CommandLine.WordsOfJoin` | src/lib/cmdline.c:32-120 | Joining lines keeps their words |
| `CommandLine.MergeFiles` | src/lib/cmdline.c:372-429 | The words of the merged line are those of the unmasked vendor files, the local `cmdline`, then the local files, in order (`CmdlineLaws.MergedIs`); nothing is returned exactly when a write failed |
| `CmdlineLaws.MergedIs` | src/lib/cmdline.c:295-429 | The merged words, file by file: a vendor file counts unless a local file of its name leads somewhere, a link to /dev/null and a broken one count for nothing, and each other file contributes the words of its parsed text |
| `CommandLine.ParseDirectory` | src/lib/cmdline.c:295-345 | One directory; the separator flags never let two files' words fuse, with empty files in between; negative exactly when a write failed |
| `CommandLine.ParseWords` | src/lib/cmdline.c:303-343 | One file appends its words behind separated text |
| `CommandLine.RemoveFiles` | src/lib/cmdline.c:347-370 | The in-place loop refines the fold over files and lines, files that cannot be opened included; when all open, the buffer is a C string of the returned length that holds the result; otherwise the length it keeps is the string's exactly when no such file had blanks to strip |
| `CommandLine.RemoveFile` | src/lib/cmdline.c:127-245 | One file: strip, if the length is right; then cut the first occurrence of each stripped line (`CmdlineLaws.RemovalsConcat`, `CmdlineLaws.RemovalLine`); a file that cannot be opened returns a negative code and leaves the stripped string |
| `CmdlineLaws.RemovalsConcat` | src/lib/cmdline.c:150-240 | Every line of a removal file counts: removing what one text, a newline and another say is removing what the first says and then what the second says |
| `CmdlineLaws.RemovalLine` | src/lib/cmdline.c:150-240 | One line removes its text between outer blanks, a comment or blank line nothing |
| `CmdlineLaws.RemovedElse` | src/lib/cmdline.c:187-212 | A line that does not occur, or whose first match goes on in something else than a space, removes nothing |
| `CmdlineLaws.FilesConcat` | src/lib/cmdline.c:347-370 | Every removal file counts: several files are applied one after the other |
| `CommandLine.FindLoose` | src/lib/cmdline.c:187-190 | A line is found in the string only, whatever stands in the buffer behind its NUL |
| `CommandLine.UnreadableTakesNothing` | src/lib/cmdline.c:134-146 | A removal file that cannot be opened takes no word, and changes nothing at all exactly when there are no blanks to strip |
| `CommandLine.CutFirst` | src/lib/cmdline.c:200-236 | First occurrence found; it goes with one following space, or when it is at the end; else it stays |
| `CommandLine.Splice` | src/lib/cmdline.c:214-230 | memmove and terminator, in bounds, whatever stands behind the string |
| `CommandLine.RemovedFromIsFold` | src/lib/cmdline.c:150-240 | The loop over the lines of a file is a fold |
| `CommandLine.RemovalTakesWholeWords` | src/lib/cmdline.c:200-236 | A cut takes exactly the line's words, and keeps all others in order, if and only if the match starts at a word boundary |
| `CommandLine.RemovalInsideAWord` | src/lib/cmdline.c:200-236 | Otherwise words are cut in two: an example |
| `WordList.WordsConcat` | src/lib/cmdline.c:312-340 | Texts that a space separates keep their words |
| `WordList.WordsFuse` | src/lib/cmdline.c:312-340 | Texts that none separates fuse two words into one |
| `BootVar.Firmware.Create` | src/lib/bootvar.c:450-485 | No variable is overwritten and at most one is added; on success the data is in a boot record whose number heads BootOrder; on failure BootOrder is unchanged; succeeds, when no call fails, exactly when there are records and a BootOrder and the data is there or the number the search yields (`FreeNoIsFree`) fits sixteen bits |
| `BootVar.Firmware.CreateTwice` | src/lib/bootvar.c:450-485 | A second call changes neither the variables nor BootOrder |
| `BootVar.Firmware.AddBootRec` | src/lib/bootvar.c:352-391 | The first record with the data, else a new one |
| `BootVar.Firmware.NewBootRec` | src/lib/bootvar.c:361-390 | The new record gets a name no variable has |
| `BootVar.Firmware.FindBootRec` | src/lib/bootvar.c:253-278 | The first record with equal data, when none fails to be read |
| `BootVar.Firmware.ReadBootRecs` | src/lib/bootvar.c:89-135 | The records are exactly the global variables named Boot and four hexadecimal digits, and none of another vendor's variables of such a name |
| `BootVar.Firmware.FindFreeNo` | src/lib/bootvar.c:214-250 | The search through the sorted array yields `FreeNo`, -1 without records; the "no gap" correction never fires |
| `BootVar.FreeNoIsFree` | src/lib/bootvar.c:214-250 | The number is absent from the records and at most their count; it is the least absent one exactly when no number below it is taken twice |
| `BootVarLaws.FreeNoCounts` | src/lib/bootvar.c:214-250 | The number is, without any sorting, the least n such that at most n records have a number that is not above n |
| `BootVar.StopIsFree` | src/lib/bootvar.c:241-248 | Where the loop stops, the number is free and differs from the last entry |
| `BootVar.NameReadsBack` | src/lib/bootvar.c:368-370 | A name that fits reads back as its number |
| `BootVarLaws.NameIsUpperCase` | src/lib/bootvar.c:368-370 | A name that is written consists of Boot and the four hexadecimal digits of the number, in upper case |
| `BootVarLaws.BootNames` | src/lib/bootvar.c:101-114 | A name is that of a boot variable if and only if it is Boot, four hexadecimal digits in either case, and nothing behind them that begins with a fifth |
| `BootVarLaws.DigitCounts` | src/lib/bootvar.c:101-114 | What a hexadecimal digit counts in either case |
| `BootVar.NameFits` | src/lib/bootvar.c:368-370 | It fits exactly when the number has sixteen bits |
| `BootVar.FreeNameIsNew` | src/lib/bootvar.c:364-374 | The name of the free number is not taken |
| `BootVar.Firmware.PushToBootOrder` | src/lib/bootvar.c:139-206 | BootOrder becomes the number followed by the old entries without it |
| `BootVar.MoveToFront` | src/lib/bootvar.c:163-192 | Both branches compute that, inside the array allocated |
| `BootVar.PushedCounts` | src/lib/bootvar.c:163-192 | The number occurs once, every other entry as often as before |
| `BootVarLaws.PushedSplits` | src/lib/bootvar.c:163-192 | The other entries keep their order: what is left of two lists, one behind the other, is what is left of both |
| `BootVarLaws.PushedIs` | src/lib/bootvar.c:163-192 | A number that stands in BootOrder once, or not at all, goes to the front of the others |
| `BootVar.PushedTwice` | src/lib/bootvar.c:163-192 | Pushing twice is pushing once |
| `Syslinux.ConfigReadsBack` | src/bootloaders/syslinux-common.c:32-210 | For every queue, whatever its fields contain: reading the written file yields the path of the first queued kernel that matches the default, or nothing, if and only if the first kernel that matches it, or whose path, initrds, command line or root fields put "DEFAULT " into its lines, is the default under a path without newline, or what its lines yield is the right answer by chance |
| `Syslinux.UnmatchedReadsBack` | src/bootloaders/syslinux-common.c:32-210 | When no kernel matches, nothing is read back if and only if no field puts "DEFAULT " into the file |
| `Syslinux.FieldsReadBack` | src/bootloaders/syslinux-common.c:32-210 | When no path, initrd or command line contains "DEFAULT " and no path a newline: the file is read back if and only if the queue is empty, its first kernel matches the default, no root field contains "DEFAULT " or ends in "DEFAULT" in front of a space, or what stands behind the first "DEFAULT " is the right answer |
| `Syslinux.ConfigReads` | src/bootloaders/syslinux-common.c:32-210 | For every queue: what is read is what the first kernel yields whose lines yield anything |
| `Syslinux.OccursInStanza` | src/bootloaders/syslinux-common.c:130-210 | The lines of a kernel contain "DEFAULT " exactly when it is the default, or its path, an initrd, a root field or its command line contains it, or a root field that a space follows ends in "DEFAULT" |
| `Syslinux.KeymapHidesDefault` | src/bootloaders/syslinux-common.c:199-206 | The round trip does fail: with a keymap called DEFAULT and a first kernel that does not match, the reader returns the end of that kernel's line |
| `Syslinux.AppendHides` | src/bootloaders/syslinux-common.c:182-210 | An APPEND line contains "DEFAULT " exactly when a field or the command line does, or a field that a space follows ends in "DEFAULT" |
| `Syslinux.ChosenIsFirst` | src/bootloaders/syslinux-common.c:130-145 | A kernel matches the default when type, version and stored release are the same; what is read back is the first match, or nothing when there is none |
| `Syslinux.Context.SetAndGet` | src/bootloaders/syslinux-common.c:32-235 | The round trip through the disk, for every queue and with the same condition; without faults the file is written |
| `Syslinux.Context.InstallKernel` | src/bootloaders/syslinux-common.c:75-95 | A source path is queued once; a queue without duplicates stays so |
| `Syslinux.Context.SetDefaultKernel` | src/bootloaders/syslinux-common.c:97-235 | The file holds the composed text; nothing else is touched |
| `Syslinux.Context.GetDefaultKernel` | src/bootloaders/syslinux-common.c:32-73 | The getline loop computes `DefaultFrom` |
| `Syslinux.ComposeConfig` | src/bootloaders/syslinux-common.c:123-211 | The writer's loop produces the stanzas in queue order |
| `Syslinux.ComposeStanza` | src/bootloaders/syslinux-common.c:136-210 | One stanza |
| `Syslinux.ComposeInitrds` | src/bootloaders/syslinux-common.c:150-177 | The comma-separated initrds; which these are is `SyslinuxLaws.InitrdsAre`, and that they are read back `SyslinuxLaws.StanzaIsRead` |
| `SyslinuxLaws.StanzaIsRead` | src/bootloaders/syslinux-common.c:136-210 | Read line by line, the file holds the stanza of every queued kernel: DEFAULT in front of it if it matches, LABEL and KERNEL with its path, INITRD with its initrds between commas if there are any, APPEND with root arguments and command line |
| `SyslinuxLaws.InitrdsAre` | src/bootloaders/syslinux-common.c:150-177 | That list starts with the microcode initrd; directly behind it comes the kernel's own, if it has one of the user's or of the system's; all others are freestanding and not masked |
| `SyslinuxLaws.LabelsAreRead` | src/bootloaders/syslinux-common.c:123-146 | The labels of the file are the paths of the queued kernels, in order, and no other; TIMEOUT comes first, 100 without a default, else as configured if positive |
| `Syslinux.ReadsFirst` | src/bootloaders/syslinux-common.c:54-66 | The loop over the lines returns what stands behind the file's first "DEFAULT ", up to the end of its line, for any text |

## Left out

- Boot loaders in updates: `BootManagers` models the systemd-class loader on UEFI; GRUB2, shim and the syslinux family are not steps of an update (the syslinux queue, writer and reader are in `Syslinux`).
- The boot loader's own files: installing or updating it is one call that succeeds or fails and touches none of the modelled files.
- Mounting, unmounting, `sync`, MBR blobs, external commands, logging, option parsing, device probing: foreign calls, taken as inputs or left out.
- Case-insensitive path building on FAT.
- Masking is a flag on the entry: the text of symbolic links and buffers `readlink` leaves unterminated are not modelled; links count as non-empty.
- Names of a directory come in an order that depends only on the set of names; so does the iteration over a hash map.
- `glob` reading errors while an entry is written: the code ignores them and writes the entry without the extra initrds.
- Mapping errors when two files are compared or an old configuration is read: the comparison is taken to succeed.
- The contents of module and header directories: such a directory is there or it is not, also when its removal is cut short.
- The file `(null)` and the glob `(null).*`, which the code looks up for a kernel without a system initrd.
- NUL characters inside files and names.
- `sscanf` on numbers outside `int`; `strtol` is modelled with its saturation.
- `sendfile` that moves nothing although something is left would make the source loop for ever; the model's calls move at least one character or fail.
- A malformed list of boot records after a failed enumeration is not used; `bootvar_has_boot_rec`, the computation of the load option from the partition, and the test mode.
- The command that removes or sets a kernel by name, and listing kernels: lookups over the modelled operations.
- A last line of `syslinux.cfg` that ends in "DEFAULT " without a newline: the source reads in front of its buffer there; the model yields the empty string.
- Out-of-memory aborts and the lifetime of buffers.
- Disks.Disk.FileSetText: a crash may leave the file missing or cut short, as in the source; entries and loader.conf are therefore only claimed complete from the first removal on, not at every moment.
- NativeUpdate.UpdateNative: what it says about files needs canonical names, kernels that were not found with a module directory of the older naming, and no source named `*.TmpWrite`; without them the order of its steps is still proved.
- Restarts.UpdateAfterCrash: it also needs that no module directory of the older naming stands beside a kernel's own, since a cut-off removal would make that one count.
- Names.UnameReadsBack: a type of 31 characters is allowed in file names but refused by the uname parser.
