# Verified model of the WPE / Sailfish OS build's own algorithms

This project models, in Dafny, the parts of the repository that have real state, loops or arithmetic, and
proves what they promise for every input, every interleaving and every failure pattern. Each module follows
one source component. Code that changes state step by step is a class or a method with loops, proved equal to
a function of the old state; the promises are then theorems about that function.

| file | component |
|---|---|
| Bytes.dfy, ElfHash.dfy, Retagging.dfy, ElfImage.dfy, Verneed.dfy, VerneedRepair.dfy, GlibcPatch.dfy, ElfTable.dfy, SampleImage.dfy | the ELF version retagger, and smallest images it works on |
| ViewBackend.dfy | ownership of exported images, and frame-complete signals |
| Subsurface.dfy | the direct-composite subsurface: failing creation, ordered teardown |
| TileCoverage.dfy | scroll direction with hysteresis, cover and keep rectangles |
| Fling.dfy | kinetic scrolling and its end test |
| AdblockRequest.dfy | host relatedness and the URL-extension class |
| StampCache.dfy | when a cached WebKit library is kept |
| BoundedStrings.dfy | `strlcpy` and `strlcat` |
| Gesture.dfy | the swipe script, decoded by the type B multi-touch protocol |
| StatLines.dfy | the `/proc` stat parser |

## Main results

**Retagger.** `GlibcPatch.MeaningPreserved` is about the whole of `patch()` from reading the file to writing
it: decode the version-requirement table of the patched image, and it is the original table with the six
versions renamed and every hash that of its new name, *if and only if* no occurrence of a version string
reaches into a file name, or into a version name other than as the whole name. Its hypothesis is that no digit
of an occurrence and no hash field lies on structural bytes, that no hash field lies on a name, and that two
hash fields are equal or disjoint. The walk reads the array it writes, so the proof rests on frame lemmas for
every level of the section, Verneed and Vernaux chains. The walk has no precondition: on every byte array it
returns or raises. `ElfTable` says byte by byte, by the offsets of the ELF format, what the table of an image is; the
parser computes exactly that table (`ElfTable.ParsedIffRead`), so the results can be read without it: after the walk
every entry that the bytes spell out, in any section and at any place of its chains, holds the hash of its name
(`ElfTable.TableRepaired`), and the patched file spells out the renamed table (`ElfTable.PatchedTableIsRead`).
`SampleImage` builds an image around any version name, shows that it meets the hypothesis, and
follows three through `patch()`: one whose name is intact, one whose name is not, one that a second run changes.

**Image ownership.** Over every interleaving of exports, paints, swap notifications, mode switches and view
loss, images are conserved. With a producer that waits for its frame-complete, nothing is dropped, commits are
in export order, and the image on the texture is never released.

**Subsurface.** For every pattern of platform failures and every order of public calls the teardown rules hold
and nothing leaks, exactly when the first attempt binds no registry interface twice. For every run it is proved where
a created surface is and how big its window is, and exactly when that is what the last rectangle asks for.

**Build stamps.** For whatever state a prefix is in, killed runs included, every next run that completes leaves its
own library exactly when the stamps that are there name every build tree the next run may be pointed at. Runs that
complete or stop early keep it so, forever, exactly when each version keeps to one source directory.

### Where a promise needs a condition

- A mid-run switch to direct compositing can signal two frame-completes for one export. It is safe for every
  continuation exactly when no image is pending and no update is requested (`ViewBackend.SwitchSafeIffClean`).
  The application only switches before the first export, where both hold.
- `elf_hash` decodes names as ASCII with replacement, so its hash can differ from the gABI's on other names. It always
  agrees on ASCII names (`ElfHash.HashIsGabiWord`) and never on a name with exactly one byte outside ASCII, wherever
  that byte stands (`ElfHash.OneNonAsciiByteHashesDifferently`); with two such bytes it can agree
  (`ElfHash.NonAsciiNameCanAgree`). In every name the first ASCII character after the last other byte settles it
  (`ElfHash.SettledByOneCharacter`).
- Patching an image twice is patching it once exactly when no new hash completes a version word that starts before its
  field (`GlibcPatch.PatchedTwiceIff`); there is an image on which the second run differs
  (`SampleImage.SecondRunDiffers`).
- A version built in one source directory and then, with the stamps of another build, pointed at another that holds
  an older build is "already built": that older build is installed under the newer stamps. Example: toolchain T in
  directory a, toolchain U in b, U in a again (`StampCache.SecondDirectoryMislabels`). A completed run always leaves
  its own library exactly when that cannot happen (`StampCache.AlwaysOwnIff`), so always while WPE_SOURCE_DIR and
  CI_CACHE_ROOT stay as they are (`StampCache.FixedDirectoryAlwaysOwn`). A first run killed between the last two
  stamp writes makes the next one skip its feature check (`StampCache.FirstCrashIff`).
- What a direction flip keeps after the rectangles were fitted to the contents depends on the fit. Away from the
  contents' edges, every fit that grows a cover by at most some lengths is harmless exactly when both directions cover
  the same, or those lengths are at most half a tile, plus the difference of the two budgets where the smaller one lies
  (`TileCoverage.FlipSafeIffSmallGrowth`). Near the edges such fits are harmless too (`SmallGrowthIsSafe`), as are
  fits that clip or slide (`FlipEvictsNothingAfterFit`).
- A rectangle without a size counts as applied although not all of it was sent: one without a width, given before
  creation, does not move the surface, even when it is set again (`Subsurface.PositionNeverSent`), and a later one
  leaves the window as it was (`Subsurface.SizeNeverSent`). `Subsurface.PlatformGeometryIff` has the exact condition;
  a rectangle with a size always arrives.
- Every task is listed exactly when no thread name holds a line break (`StatLines.AllListedIff`). When a task ends
  before its stat file is read, the task printed after it is lost (`StatLines.StatsRoundTrip`).
- `destroy()` unbinds the context before it deletes the GL names, so those two calls do nothing; the names go
  away with the context (`Subsurface.UnbindSettled`).
- Registry globals: see above (`Subsurface.LifetimeSafeIff`).

## Model

| member | source | states |
|---|---|---|
| ElfHash.ElfHash | patch-glibc-versions.py:26-34 | the in-place loop computes the 32-bit masked hash of a decoded name, always below 2^28 |
| ElfHash.HashIsGabiWord | patch-glibc-versions.py:26-34 | on ASCII names the stored hash is the word of the System V gABI function ("Hash Table", chapter 5), for a 32-bit and for a 64-bit `unsigned long` |
| ElfHash.FoldMeaning | patch-glibc-versions.py:30-33 | the fold, bit by bit: the top four bits go away, each of bits 4 to 7 is added modulo 2 to the bit 24 places higher, the others stay |
| ElfHash.HashOfNewVersion | patch-glibc-versions.py:26-34 | GLIBC_2.17 hashes to 0x06969197 |
| ElfHash.HashOfOtherVersion | patch-glibc-versions.py:26-34 | GLIBC_2.2.5 hashes to 0x09691a75 |
| ElfHash.OneNonAsciiByteHashesDifferently | patch-glibc-versions.py:86-87 | a byte outside ASCII hashes as U+FFFD, so a name with exactly one such byte, anywhere, never gets the gABI word, for both word sizes |
| ElfHash.NonAsciiEndHashesDifferently | patch-glibc-versions.py:86-87 | nor does a name that ends in such a byte, whatever the rest is, unless the byte's low nibble is 0xD |
| ElfHash.SettledByOneCharacter | patch-glibc-versions.py:26-34 | whatever a name holds, the hashes agree iff they agree one ASCII character after its last other byte |
| ElfHash.NonAsciiNameCanAgree | patch-glibc-versions.py:86-87 | a name with two bytes outside ASCII that gets the gABI word |
| Retagging.Overwrite | patch-glibc-versions.py:113 | slice assignment stores the eleven bytes and nothing else |
| Retagging.ReplaceAll | patch-glibc-versions.py:107-115 | find-and-overwrite in place equals rewriting all original occurrences at once; the flag says whether there was one |
| Retagging.ReplaceVersions | patch-glibc-versions.py:103-115 | the six passes equal one simultaneous substitution of all six words; the flag is true iff the bytes changed, iff some word occurred |
| Retagging.HitsApart | patch-glibc-versions.py:17-24 | occurrences of any of the words never overlap |
| Retagging.HitAfterSubstitute | patch-glibc-versions.py:105-115 | a pass neither creates nor hides occurrences of other words |
| Retagging.SubstituteTwice | patch-glibc-versions.py:105-115 | two passes amount to one substitution of both word sets |
| Retagging.PassesAreSimultaneous | patch-glibc-versions.py:105-115 | any list of passes amounts to one substitution of its set of words |
| Retagging.OrderIrrelevant | patch-glibc-versions.py:17-24 | the order (and repetition) of the replacement list does not matter, and no old word is left anywhere |
| Retagging.VersionsSpelled | patch-glibc-versions.py:17-24 | the six old words and the new one, by their characters |
| Retagging.SubstituteMeaning | patch-glibc-versions.py:102-115 | every eleven bytes that were one of the six words are the new one, none is left, and a byte that changed was inside one |
| Retagging.ChangedBytes | patch-glibc-versions.py:9-11 | exactly the two digits of each occurrence change, and no string end appears or goes away |
| ElfImage.ParseAgain | patch-glibc-versions.py:36-98 | an image changed only outside its structure and string ends has the same layout, with names and hashes read from the new bytes |
| Verneed.GetName | patch-glibc-versions.py:50-56 | reads the NUL-terminated bytes at an offset, or raises past the end |
| Bytes.CStringIff | patch-glibc-versions.py:50-56 | the name at an offset is the text up to its first NUL, inside the image |
| Bytes.LittleEndian | patch-glibc-versions.py:42-45 | the 16-, 32- and 64-bit fields, by their bytes |
| Verneed.FixEntry | patch-glibc-versions.py:82-90 | one turn of the inner loop: raises on a short entry or name, else corrects the hash and yields vna_next |
| Verneed.FixAuxChain | patch-glibc-versions.py:80-94 | the Vernaux loop, which terminates on every array although it writes what it traverses |
| Verneed.FixNeedChain | patch-glibc-versions.py:74-98 | the Verneed loop, with vn_next read before the chain is repaired |
| Verneed.FixVerneedHashes | patch-glibc-versions.py:36-100 | the whole walk on any byte array: identification, section headers, names, chains; returns or raises |
| VerneedRepair.EntriesRepaired | patch-glibc-versions.py:80-94 | along one chain every hash field ends up right and nothing else changes |
| VerneedRepair.ImageRepaired | patch-glibc-versions.py:58-100 | every reachable entry holds the hash of its name, only hash fields changed, the flag is true iff a byte changed, the layout stays, and a second call changes nothing and returns False |
| VerneedRepair.RepairedHashIsGabiWord | patch-glibc-versions.py:82-90 | after a repair an ASCII version carries the hash a gABI loader computes |
| GlibcPatch.Patch | patch-glibc-versions.py:103-126 | both passes over one file; it is written only when something changed and the walk did not raise |
| GlibcPatch.ImageUnchanged | patch-glibc-versions.py:36-126 | on every byte array: a walk that corrects nothing leaves it alone, and raises iff the image claims the handled format but cannot be read to the end |
| GlibcPatch.NameBecomes | patch-glibc-versions.py:105-115 | a name in the string table becomes its renaming iff no occurrence reaches into it except as the whole name |
| GlibcPatch.RenameMeaning | patch-glibc-versions.py:17-24 | the renaming is that of the six names and no others |
| GlibcPatch.MeaningPreserved | patch-glibc-versions.py:36-126 | the decoded requirement table of the patched file is the original one with the six versions renamed and hashed anew, iff every name is intact |
| ElfTable.ParsedIffRead | patch-glibc-versions.py:36-98 | an image has a table iff its bytes spell it out: section k at e_shoff + k * e_shentsize for each k below e_shnum, its name, its own sh_link, and both chains by vn_aux, vn_next and vna_next to their ends |
| ElfTable.TableRepaired | patch-glibc-versions.py:58-100 | every entry so spelled out, in every section, holds the hash of its name after the walk, and each byte that changed is in the hash field of one |
| ElfTable.PatchedTableIsRead | patch-glibc-versions.py:102-126 | when every name is intact, the patched file spells out the renamed table |
| GlibcPatch.PatchedTwice | patch-glibc-versions.py:103-126 | a second run of patch() changes nothing, unless a hash stored by the first one completes a version word that starts before its field |
| GlibcPatch.PatchedTwiceIff | patch-glibc-versions.py:103-126 | when the patched image meets the hypothesis again, that is exact |
| SampleImage.SampleRepairable | patch-glibc-versions.py:58-98 | around every version name without NULs there is an image that meets the hypothesis of the two theorems |
| SampleImage.WholeNameIsRenamed | patch-glibc-versions.py:9-24 | a requirement of GLIBC_2.34 comes out as one of GLIBC_2.17, by its characters, with the hash 0x06969197 |
| SampleImage.PartOfNameIsRewritten | patch-glibc-versions.py:107-113 | a requirement of XGLIBC_2.34, which is none of the six versions, is rewritten all the same |
| SampleImage.SecondRunDiffers | patch-glibc-versions.py:103-126 | an image on which it does: the ten bytes before the hash field begin a version word, and the new hash starts with the NUL that ends it |
| ViewBackend.Backend.DisplayExported | qt5-plugin/WPEQtViewBackend.cpp:240-278 | the new state and the calls made, on the direct path, the queued path and after view loss |
| ViewBackend.Backend.BindTexture | qt5-plugin/WPEQtViewBackend.cpp:187-225 | binds the pending image, else the committed one, and requests an update only for a pending one |
| ViewBackend.Backend.FrameRendered | qt5-plugin/WPEQtViewBackend.cpp:227-238 | signals, releases and commits, only when an update was requested |
| ViewBackend.Backend.TearDown | qt5-plugin/WPEQtViewBackend.cpp:154-164 | the destructor releases what is held |
| ViewBackend.StepLedger | qt5-plugin/WPEQtViewBackend.cpp:187-278 | every step keeps: each exported image is held or released, exactly once |
| ViewBackend.ImagesConserved | qt5-plugin/WPEQtViewBackend.cpp:154-278 | over every run an image is released at most once and only if exported, at most two are out, and after the destructor all are released exactly once |
| ViewBackend.SignalsAnswerExports | qt5-plugin/WPEQtViewBackend.cpp:227-257 | in every run that switches modes only when clean, each frame-complete answers an export made since the previous one |
| ViewBackend.ExportBetweenSignals | qt5-plugin/WPEQtViewBackend.cpp:227-257 | read off the trace: between any two frame-completes there is an export |
| ViewBackend.DirectSignalsOnce | qt5-plugin/WPEQtViewBackend.cpp:246-257 | in pure direct-composite mode there are as many signals as exports |
| ViewBackend.DirectPresentsEach | qt5-plugin/WPEQtViewBackend.cpp:246-257 | in direct mode every export is presented once and in order, the last one is never released, and each other one only after its successor was presented |
| ViewBackend.CallsInOrder | qt5-plugin/WPEQtViewBackend.cpp:227-278 | the calls of one operation in their order: present, answer, release |
| ViewBackend.DirtySwitchSignalsTwice | qt5-plugin/WPEQtViewBackend.h:74 | switching while something is outstanding admits a continuation with two signals for one export, in which the view never paints in direct mode (qt5-plugin/WPEQtView.cpp:287-293) |
| ViewBackend.DirtySwitchReached | qt5-plugin/WPEQtViewBackend.cpp:240-278 | such a run from the start: export, switch, and the next export is signalled twice |
| ViewBackend.SwitchSafeIffClean | qt5-plugin/WPEQtViewBackend.h:71-74 | a switch to direct mode is safe for every continuation iff nothing is pending or requested |
| ViewBackend.FlowControlledRendering | qt5-plugin/WPEQtViewBackend.cpp:187-278 | with flow control: no frame dropped, commits in export order, the image on the texture not released |
| ViewBackend.CommittedFramesWereShown | qt5-plugin/WPEQtViewBackend.cpp:187-238 | with flow control an image is promoted only while it is the one on the texture |
| ViewBackend.PaintAndSwapCommit | qt5-plugin/WPEQtViewBackend.cpp:187-238 | and a paint followed by the swap promotes the waiting frame and answers the producer |
| ViewBackend.ExportAfterViewLoss | qt5-plugin/WPEQtViewBackend.cpp:259-278 | without a view an export is released at once, with what waited before it, and not answered |
| ViewBackend.NothingDispatched | qt5-plugin/WPEQtViewBackend.cpp:227-278 | without an exportable nothing is released or answered in any run |
| ViewBackend.ExportDropsIffWaiting | qt5-plugin/WPEQtViewBackend.cpp:259-262 | an export releases exactly the frame that was still waiting, if any |
| ViewBackend.ProducerAheadReleasesShown | qt5-plugin/WPEQtViewBackend.cpp:259-262 | without flow control the image on the texture can be released |
| Subsurface.WaylandSubsurface.OnGlobal | qt5-plugin/WPEWaylandSubsurface.cpp:55-61 | binds the two interfaces of interest, null when the bind fails |
| Subsurface.WaylandSubsurface.BindAll | qt5-plugin/WPEWaylandSubsurface.cpp:63-89 | the round trip on the private queue, and its teardown |
| Subsurface.WaylandSubsurface.CreateEgl | qt5-plugin/WPEWaylandSubsurface.cpp:91-171 | creation up to the first failing call |
| Subsurface.WaylandSubsurface.Ensure | qt5-plugin/WPEWaylandSubsurface.cpp:173-221 | the whole creation, with its early returns and the cleanup after EGL failure |
| Subsurface.WaylandSubsurface.Resize | qt5-plugin/WPEWaylandSubsurface.cpp:223-236 | stores the geometry, and applies it when valid and different |
| Subsurface.WaylandSubsurface.Show | qt5-plugin/WPEWaylandSubsurface.cpp:238-276 | draws only when valid, with the context made current, through its texture and program names |
| Subsurface.WaylandSubsurface.TearDown | qt5-plugin/WPEWaylandSubsurface.cpp:278-298 | destroys in order and clears every owned field |
| Subsurface.SetupEglSettled | qt5-plugin/WPEWaylandSubsurface.cpp:91-171 | wherever EGL setup stops, fields and platform still agree |
| Subsurface.BindGlobalsCleanIff | qt5-plugin/WPEWaylandSubsurface.cpp:63-89 | no live proxy stays on the destroyed private queue iff no successful bind is repeated |
| Subsurface.UnbindSettled | qt5-plugin/WPEWaylandSubsurface.cpp:280-283 | the GL names are deleted with no context current, so the calls do nothing |
| Subsurface.DestroySettled | qt5-plugin/WPEWaylandSubsurface.cpp:278-298 | from any reachable state destroy() respects role objects (qt5-plugin/wayland-headers/wayland-client-protocol.h:528-533) and EGL order, and leaves nothing alive |
| Subsurface.GeometryCurrent | qt5-plugin/WPEWaylandSubsurface.cpp:217-236 | the rectangle that counts as applied is the one that was set last |
| Subsurface.PlatformGeometryIff | qt5-plugin/WPEWaylandSubsurface.cpp:205-236 | over every run: the position sent is that of the last rectangle iff the one at creation had a width, or was at the origin, where a new subsurface is (qt5-plugin/wayland-headers/wayland-client-protocol.h:6130), or the rectangle changed since; the window has the size of the last rectangle that had one, which settles when that is the size present() draws for |
| Subsurface.PositionNeverSent | qt5-plugin/WPEWaylandSubsurface.cpp:208-226 | a rectangle without a width set before creation: the surface stays at the origin, and setting it again does nothing |
| Subsurface.SizeNeverSent | qt5-plugin/WPEWaylandSubsurface.cpp:232-234 | a rectangle without a size set after creation: the surface moves, the window keeps its size |
| Subsurface.LifetimeSafe | qt5-plugin/WPEWaylandSubsurface.cpp:55-298 | for every failure pattern and order of calls: no dead handle and no dead GL name used, ordered teardown, one creation attempt, everything created is destroyed by destructor end |
| Subsurface.LifetimeSafeIff | qt5-plugin/WPEWaylandSubsurface.cpp:55-298 | for every run of public calls: the lifetime is clean iff its first attempt, if it reaches the globals, repeats no successful bind |
| Subsurface.AttemptOutcome | qt5-plugin/WPEWaylandSubsurface.cpp:173-221 | the first attempt, after any calls before it: valid iff every step succeeded, and exactly which objects are alive for each failure: nothing after an EGL failure, the globals and the surface otherwise |
| Subsurface.SetupStopsAtFailure | qt5-plugin/WPEWaylandSubsurface.cpp:91-171 | which handles and names exist, and what is current, by the first failing call |
| Subsurface.ShownImagesAreDrawn | qt5-plugin/WPEWaylandSubsurface.cpp:238-276 | frames are drawn for exactly the images shown while valid and with the context current |
| TileCoverage.BackingStore.UpdateGeometry | patches/webkit/webkit-directional-tile-coverage-env.patch:63-84 | direction tracking only for moves of an unchanged viewport over unchanged contents |
| TileCoverage.AccumulatorIsTrailingRun | patches/webkit/webkit-directional-tile-coverage-env.patch:71-76 | the accumulator is the sum of the longest trailing run of moves in one direction |
| TileCoverage.DirectionIsLatestLongRun | patches/webkit/webkit-directional-tile-coverage-env.patch:77-78 | the direction is the sign of the latest accumulation beyond half a viewport, 0 before the first |
| TileCoverage.ShortRunKeepsDirection | patches/webkit/webkit-directional-tile-coverage-env.patch:64-80 | a run of at most half a viewport never flips the direction |
| TileCoverage.DirectionNeverForgotten | patches/webkit/webkit-directional-tile-coverage-env.patch:77-78 | a known direction never becomes unknown |
| TileCoverage.BackingStore.CoverAndKeep | patches/webkit/webkit-directional-tile-coverage-env.patch:98-117 | the two rectangles, updated step by step, for every visible rectangle and the assertion that keep contains cover |
| TileCoverage.BudgetSpent | patches/webkit/webkit-directional-tile-coverage-env.patch:98-107 | the unfitted cover: in a known direction its height is the visible height times the multiplier, rounded down, seven tenths of the addition ahead; a quarter of the width more on each side; centred without a direction |
| TileCoverage.KeepContainsCover | patches/webkit/webkit-directional-tile-coverage-env.patch:93-111 | cover contains visible, keep contains cover, the budget is spent in full in a known direction, 70% of it ahead |
| TileCoverage.KeepIsSymmetric | patches/webkit/webkit-directional-tile-coverage-env.patch:108-110 | keep reaches as far up and down as cover does on its longer side |
| TileCoverage.FinalKeepPixels | patches/webkit/webkit-directional-tile-coverage-env.patch:112-117 | the final keep area is the contents within half a tile of the hull of the kept area and the fitted cover |
| TileCoverage.FlipEvictsNothing | patches/webkit/webkit-directional-tile-coverage-env.patch:95-97 | both directions keep the same rectangle, which holds what was painted for either and for none |
| TileCoverage.FinalKeepContainsCover | patches/webkit/webkit-directional-tile-coverage-env.patch:112-117 | still so after fitting, for every fit that stays inside the contents |
| TileCoverage.FlipSafeIffSmallGrowth | patches/webkit/webkit-directional-tile-coverage-env.patch:95-117 | away from the contents' edges: no fit that grows a cover by at most `side`, `rise` and `drop` makes a flip evict anything, iff both directions cover the same or these are at most half a tile, plus the budget difference on the side of the smaller budget |
| TileCoverage.SmallGrowthIsSafe | patches/webkit/webkit-directional-tile-coverage-env.patch:95-117 | near the edges such a fit is harmless as well |
| TileCoverage.FlipEvictsNothingAfterFit | patches/webkit/webkit-directional-tile-coverage-env.patch:95-117 | nor does a fit that clips, or one that slides the rectangle inside |
| Fling.PerAxisData.constructor | patches/webkit/webkit-kinetic-decel-friction-env.patch:54-64 | coefficients, clamped offset and initial velocity |
| Fling.PerAxisData.AnimateScroll | patches/webkit/webkit-kinetic-jank-resilient-end.patch:16-37 | one tick: closed form, edges, end test, rounding |
| Fling.Friction | patches/webkit/webkit-kinetic-decel-friction-env.patch:38-49 | always in 0.3 to 8, and the configured value when that is in range |
| Fling.RestingPlaceConserved | patches/webkit/webkit-kinetic-decel-friction-env.patch:57-72 | offset plus velocity over friction is conserved while coasting |
| Fling.MovesWithItsSpeed | patches/webkit/webkit-kinetic-decel-friction-env.patch:69-72 | over a tick the axis moves at least as far as its final speed would take it |
| Fling.EndsOnlyWhenSlow | patches/webkit/webkit-kinetic-jank-resilient-end.patch:22-37 | away from the edges a tick ends the fling only below 250 px/s, a catch-up or first tick only below 1 px/s |
| Fling.StopsIff | patches/webkit/webkit-kinetic-jank-resilient-end.patch:33-37 | inside the range a tick stops the axis, on a whole pixel, iff it is slower than 1 px/s, or it ticked before, at least 4 ms ago, and moved less than a pixel since; else it stays on the curve |
| Fling.FlingSurvivesJank | patches/webkit/webkit-kinetic-jank-resilient-end.patch:3-15 | the same two bounds for whole flings at arbitrary non-decreasing tick times, with the conserved resting place and the coast bound velocity over friction |
| Fling.FlingEndsInTime | patches/webkit/webkit-kinetic-jank-resilient-end.patch:33-37 | a fling inside its range stops at the first tick below 1 px/s, at the latest at the first one after initial speed over friction, in seconds |
| Fling.ClosedForm | patches/webkit/webkit-kinetic-decel-friction-env.patch:6-8 | offset and velocity at any time are the documented closed form |
| Fling.EndingSnaps | patches/webkit/webkit-kinetic-jank-resilient-end.patch:34-37 | ending stops on a whole pixel at most half a pixel away |
| Fling.RoundsHalfAway | patches/webkit/webkit-kinetic-jank-resilient-end.patch:35 | halves are rounded away from zero |
| Fling.EdgesBounce | patches/webkit/webkit-kinetic-decel-friction-env.patch:74-75 | past an edge the axis is put on it with a velocity back inside that is the distance it overshot; inside, on the curve |
| Fling.StartOutside | patches/webkit/webkit-kinetic-decel-friction-env.patch:54-64 | a start outside the range is clamped and has no velocity |
| AdblockRequest.RelatedIffLabelSuffix | web-extension/atlantic-adblock-extension.c:109-118 | hosts are related iff the lower-cased label list of one is a suffix of the other's, empty labels included |
| AdblockRequest.RelatedIsReflexiveSymmetric | web-extension/atlantic-adblock-extension.c:109-118 | reflexive and symmetric |
| AdblockRequest.RelatedIsNotTransitive | web-extension/atlantic-adblock-extension.c:109-118 | but siblings are not related through their parent |
| AdblockRequest.LowerIsAscii | web-extension/atlantic-adblock-extension.c:110-118 | case folding is that of the 26 ASCII letters |
| AdblockRequest.CaseDoesNotMatter | web-extension/atlantic-adblock-extension.c:110-118 | CDN.A.Com is related to a.cOM, CDNA.Com is not |
| AdblockRequest.ThirdPartyIffNoSuffix | web-extension/atlantic-adblock-extension.c:120-131 | third party iff the page is known and neither label list ends the other |
| AdblockRequest.MissingHosts | web-extension/atlantic-adblock-extension.c:120-131 | a missing host is third party, an empty page or an unparsed URI is first party |
| AdblockRequest.KindForUri | web-extension/atlantic-adblock-extension.c:78-106 | the backward scan classifies by the text after the last dot of the last segment before the query |
| AdblockRequest.KindOfExtension | web-extension/atlantic-adblock-extension.c:88-103 | the copy stays inside the 12-byte buffer and only extensions of 1 to 11 bytes are classified |
| AdblockRequest.ScanFindsExtension | web-extension/atlantic-adblock-extension.c:82-87 | where the loop stops is exactly the extension, or there is none |
| AdblockRequest.ExtensionIs | web-extension/atlantic-adblock-extension.c:78-87 | the extension of folder/stem.ext, and that a segment without a dot has none |
| AdblockRequest.Classes | web-extension/atlantic-adblock-extension.c:94-103 | the class of each extension |
| AdblockRequest.UrlClass | web-extension/atlantic-adblock-extension.c:78-106 | a whole URL with its query: the class of the lower-cased extension of 1 to 11 characters |
| AdblockRequest.QueryIrrelevant | web-extension/atlantic-adblock-extension.c:78-81 | appending "?" and any text never changes the extension or the class |
| StampCache.BuildPrefix.CheckStamps | scripts/build-webkit.sh:98-139 | the three checks delete the library on a mismatch; a missing toolchain or features stamp passes, a missing version stamp does not |
| StampCache.BuildPrefix.Run | scripts/build-webkit.sh:98-211 | one run in its own source directory, stopped at any stage; without a toolchain file it stops at once (set -e with pipefail) |
| StampCache.BuildPrefix.Recompile | scripts/build-webkit.sh:141-205 | sources removed and unpacked (scripts/common.sh:11 never leaves CI_CACHE_ROOT empty), build, install, then the three stamps in order |
| StampCache.BuildCoherent | scripts/build-webkit.sh:98-211 | a run that completes or stops before installing keeps "library present implies the three stamps and the build tree name it", and if it completes, the library is its own |
| StampCache.AlwaysOwnIff | scripts/build-webkit.sh:6-15 | from an empty prefix every completed run leaves its own library, iff a version that can be built in one directory is pointed at no other that can hold a build |
| StampCache.FixedDirectoryAlwaysOwn | scripts/build-webkit.sh:6-15 | so it always does while the directory is a function of the version, shared or not |
| StampCache.SecondDirectoryMislabels | scripts/build-webkit.sh:206-208 | the run that goes wrong otherwise: it reinstalls what was built in that directory before the last build elsewhere |
| StampCache.NextRunOwnIff | scripts/build-webkit.sh:98-211 | in every state of a prefix: every next run that completes leaves its own library iff the stamps, where they let a library pass, name every build tree a run of the stamped version is pointed at |
| StampCache.FirstCrashIff | scripts/build-webkit.sh:187-205 | a killed first run misleads a later one iff it was killed between the last two stamps |
| StampCache.CacheHit | scripts/build-webkit.sh:206-211 | a library with matching stamps is kept and installed again from its build tree; the run completes iff the tree is there |
| StampCache.CacheMiss | scripts/build-webkit.sh:141-205 | a mismatch rebuilds in the run's own directory and writes all stamps; it completes iff the tarball unpacks into that directory |
| StampCache.ChecksExactly | scripts/build-webkit.sh:98-139 | the library goes exactly when one of the checks reached so far fails |
| StampCache.RebuildUpTo | scripts/build-webkit.sh:141-205 | what a rebuild that is killed at a stage has done |
| BoundedStrings.Strlcpy | shims/compat/libglibc-compat.c:109-118 | the bytes written and the length returned |
| BoundedStrings.Strlcat | shims/compat/libglibc-compat.c:120-125 | the bytes written and the length returned, an unterminated destination untouched |
| BoundedStrings.StrlcpyMeaning | shims/compat/libglibc-compat.c:109-118 | whatever the buffer held, it then holds the text cut to size - 1 bytes, uncut iff the result is below size; size 0 writes nothing |
| BoundedStrings.StrlcatMeaning | shims/compat/libglibc-compat.c:105-125 | the new string is the concatenation cut to size - 1; the result reaches size iff something was cut; bytes past size are untouched |
| BoundedStrings.ChainCutsOnce | shims/compat/libglibc-compat.c:105-125 | a chain of calls cuts the whole concatenation once |
| Gesture.Touch.Down | scripts/devtools/evtouch.py:73-81 | the eight events of a touch |
| Gesture.Touch.Move | scripts/devtools/evtouch.py:83-89 | the six events of a move |
| Gesture.Touch.Up | scripts/devtools/evtouch.py:91-95 | the four events of a lift |
| Gesture.Swipe | scripts/devtools/swipe.py:15-26 | the emitted stream decodes to one contact: down, twenty moves, lifted once |
| Gesture.SwipePath | scripts/devtools/swipe.py:15-26 | from the mapped start to exactly the mapped target, monotone on each axis, inside the device range |
| Gesture.StepSizes | scripts/devtools/swipe.py:21-24 | pixel steps are the floor or the ceiling of a twentieth of the distance, for either sign |
| Gesture.BetweenIs | scripts/devtools/swipe.py:22-23 | pixel i is the exact twentieth rounded down |
| Gesture.AXIs | scripts/devtools/evtouch.py:64-65 | ax is the exact proportion rounded down, exact at both edges, the identity on a 1:1 panel |
| Gesture.AYIs | scripts/devtools/evtouch.py:67-68 | and so is ay |
| Gesture.WireFormat | scripts/devtools/evtouch.py:73-95 | the events by their numbers in the kernel's input interface |
| Gesture.AxisMaps | scripts/devtools/evtouch.py:64-68 | the mapping to device units is monotone and exact at both screen edges |
| StatLines.ReadStats | scripts/devtools/atldbg/commands/cpu.py:27-47 | splits the output into lines, then the loop: skipped lines, dictionary updates, and the one conversion outside the try block |
| StatLines.LineRoundTrip | scripts/devtools/atldbg/commands/cpu.py:31-46 | a printed line parses to its own tid, name, owner and utime plus stime, whatever the name holds |
| StatLines.LineOfShape | scripts/devtools/atldbg/commands/cpu.py:34-46 | any line with a parenthesised name: skipped when the first word or a time is no number or fields are missing, raising when only the owner is none, else its own thread |
| StatLines.UnparsableSkips | scripts/devtools/atldbg/commands/cpu.py:32-38 | lines without a bar or without a closing parenthesis are skipped |
| StatLines.SplitAnySpace | scripts/devtools/atldbg/commands/cpu.py:42 | any run of white space separates fields |
| StatLines.SplitAnyBreak | scripts/devtools/atldbg/commands/cpu.py:31 | any break character ends a line, and a carriage return with a line feed ends one |
| StatLines.LastLineCounts | scripts/devtools/atldbg/commands/cpu.py:46 | of several lines for one thread the last counts |
| StatLines.RaiseEndsAll | scripts/devtools/atldbg/commands/cpu.py:46 | an owner that is no number ends the loop |
| StatLines.StatsRoundTrip | scripts/devtools/atldbg/commands/cpu.py:20-47 | from the whole printed text: every shown task is listed under its tid with its name, time and owner, and nothing else, except tasks printed right after one whose stat file was gone |
| StatLines.AllListedIff | scripts/devtools/atldbg/commands/cpu.py:27-46 | when no stat file was gone, every task is listed iff no name holds a line break |

## Left out

- `patchelf --add-needed`, argument handling, the legacy path lists and the progress messages of the retagger: no algorithm.
- Retagger offsets are unbounded integers; Python raises an exception for an offset beyond the platform's index size, which the model also reports as raising, since no array is that long.
- ElfHash.SettledByOneCharacter: with two or more bytes outside ASCII it reduces agreement to a shorter name and does not decide it; there the two hashes are those of different texts and agree only by collision.
- vn_cnt is decoded but, as in the script, does not steer the walk.
- GL and EGL drawing, shaders, input events, fullscreen handling and Qt signal plumbing of the view: only the image ledger, the signals and the mode switch are modelled. Steps are atomic: the paint sync blocks the GUI thread, and the swap notification is queued to it (qt5-plugin/WPEQtView.cpp:97-107, 282-317).
- Subsurface: a null wl_registry is not modelled (the code does not check for it), and get_subsurface is taken to fail on a null surface. GL shader objects, which no field holds, are not tracked.
- TileCoverage: the initial rectangles (the visible one), `IntRect` and `adjustForContentsRect` are WebKit's and not part of this repository; rectangles follow their documented pixel meaning on unbounded integers, and the fit is a parameter: what is proved about it is which fits the design tolerates. The multiplier is a real number, and sizes are never negative.
- Fling: arithmetic is over real numbers, and `exp` is a parameter of which only its functional equation and `exp(x) >= 1 + x` are used. The caller's use of the returned velocity is not part of this repository.
- AdblockRequest: the Sec-Fetch-Dest and Accept ladders, `g_uri_parse` and the filter engine; hosts and URLs enter as strings.
- StampCache: file hashes stand for their files (no collisions), and patching and compiling are taken to yield what the toolchain, features and unpacked version say. Source directories are resolved paths, none inside another, and the tarball of a version holds one folder `wpewebkit-<version>`. The Qt plugin stamp is left out: it is the same check with one stamp.
- BoundedStrings: a sum of lengths beyond `size_t` is not modelled; it cannot arise from strings in memory.
- Gesture: `time.sleep` and the ioctl that reads the axis ranges; the ranges are parameters, ordered as the kernel reports them.
- StatLines: the remote shell, beyond what each of its turns prints. Underscores, surrounding blanks and digits of other scripts in `int()` are not modelled; no printed line has them.
- Terminal output, packaging, profiles, the network and SSH tools, and the other compatibility stubs: no hard property.
