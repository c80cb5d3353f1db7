# baltitoolbox core, modelled in Dafny

This project models the sequential logic of the Kotlin Android helper library *baltitoolbox*
(`balti.module.baltitoolbox`) and proves properties of it:

- `Misc.removeDuplicateSlashes`: path normalisation. The input is trimmed. If fewer than two
  characters remain, the original path is returned. Otherwise a sentinel space is appended and a
  one-behind scan copies every character except a '/' that is directly followed by another '/'.
  The model is an imperative loop over a `seq<char>` accumulator. It is proved equal to
  `CollapseSlashes`, an independent recursive definition that turns every maximal run of '/'
  into a single '/'.
- `Misc.getPercentage`: `(count * 100) / total` on 32-bit `Int`, with 0 when `total` is 0. The
  model writes out the wrap-around of the product and the quotient, and division that truncates
  toward zero.
- the unit choice of `Misc.getHumanReadableStorageSpace`: four guarded divide-by-1024 stages that
  move the unit from B (or KB) up to at most TB. Stage `j` fires exactly when the size exceeds
  `1024^j`.
- `Misc.iterateBufferedReader`: an early-exit loop over the lines of a reader, modelled as a class
  holding the lines and a cursor. `loopFunction` is a pure predicate, and a flag records whether
  `onManualBreakFunction` ran.
- `AndroidUI.chainDialogs`: every dialog is an index with a dismiss-listener slot
  (`NoListener`, `ShowNext(j)` or `InvokeEndJob`) and a shown flag. The method wires the slots in
  a loop and then shows dialog 0. Dismissal is a small state machine, and lemmas walk a chain
  through it.
- `AndroidUI.getErrorDialog` / `showErrorDialog`: the configuration of the error dialog
  (cancellable, icon, title), what the user can then do to close it, and the contract
  "return what `getErrorDialog` built, and show it only if there is one".

Files:

- `wrappers.dfy`: `Option`.
- `kotlin_std.dfy`: the Kotlin runtime pieces the core relies on: `Char.isWhitespace`,
  `String.trim()`, 32-bit wrap-around, and JVM integer division.
- `misc.dfy`: the `Misc` object.
- `android_ui.dfy`: the `AndroidUI` object.

Code and documentation disagree in one place, recorded under "## Findings": for a list of a
single dialog, `chainDialogs` never runs `endJob`, although its documentation says `endJob` runs
after the last dialog is dismissed. `DialogList.ChainDialogs` follows the code. The documented
wiring is modelled beside it (`AndroidUI.DocumentedChained`), with its own proof.

## Model

| member | source | states |
|---|---|---|
| KotlinStd.Trim | src/main/java/balti/module/baltitoolbox/functions/Misc.kt:369 | `trim()` returns a string no longer than its input that neither starts nor ends with whitespace |
| KotlinStd.TrimCuts | src/main/java/balti/module/baltitoolbox/functions/Misc.kt:369 | the trim is an infix of the input, and everything cut off on either side is whitespace |
| KotlinStd.TrimOfTrimmed | src/main/java/balti/module/baltitoolbox/functions/Misc.kt:369 | a string that neither starts nor ends with whitespace is its own trim |
| KotlinStd.Utf16LengthBelowTwo | src/main/java/balti/module/baltitoolbox/functions/Misc.kt:370 | `String.length` counts UTF-16 units: a string is shorter than 2 exactly when it is empty or one character of the Basic Multilingual Plane |
| KotlinStd.Wrap32 | src/main/java/balti/module/baltitoolbox/functions/Misc.kt:265 | the 32-bit `Int` result equals the exact result modulo 2^32, and an in-range result is unchanged |
| KotlinStd.TruncDiv | src/main/java/balti/module/baltitoolbox/functions/Misc.kt:265 | `/` on `Int` truncates toward zero: the remainder is smaller than the divisor in magnitude, never has the opposite sign of the dividend, and the quotient is no larger than the dividend in magnitude |
| Misc.RemoveDuplicateSlashes | src/main/java/balti/module/baltitoolbox/functions/Misc.kt:367-402 | the scan returns the untrimmed `path` when its trim is shorter than 2 UTF-16 units; otherwise it returns the trimmed path with every run of '/' collapsed to one '/', and the result has no "//" |
| Misc.CollapseSnoc | src/main/java/balti/module/baltitoolbox/functions/Misc.kt:386-400 | one scan step: a new character is appended to the collapsed output unless it is a '/' directly after a '/' |
| Misc.QualifiesForRemovalSkips | src/main/java/balti/module/baltitoolbox/functions/Misc.kt:378-382 | `qualifyForRemoval(ptr, behindPtr)` holds exactly when the scan adds nothing for the new character; otherwise the collapsed prefix grows by exactly that character |
| Misc.CollapseNoDoubleSlash | src/main/java/balti/module/baltitoolbox/functions/Misc.kt:396-399 | the collapsed output never contains two adjacent '/' |
| Misc.CollapseKeepsOtherChars | src/main/java/balti/module/baltitoolbox/functions/Misc.kt:386-401 | collapsing keeps every character other than '/', in order |
| Misc.CollapseFixpoint | src/main/java/balti/module/baltitoolbox/functions/Misc.kt:386-401 | a string is unchanged by collapsing if and only if it has no "//" |
| Misc.CollapseLast | src/main/java/balti/module/baltitoolbox/functions/Misc.kt:386-401 | the last character of a non-empty string survives collapsing |
| Misc.CollapseAppend | src/main/java/balti/module/baltitoolbox/functions/Misc.kt:386-401 | collapsing works piece by piece when the cut does not fall inside a run of '/' |
| Misc.CollapseSegments | src/main/java/balti/module/baltitoolbox/functions/Misc.kt:360-364 | a path made of slash-free words separated by runs of '/' collapses to the same words with every run shortened to one '/' |
| Misc.RemoveDuplicateSlashesIdempotent | src/main/java/balti/module/baltitoolbox/functions/Misc.kt:367-402 | normalising the result again returns the same string |
| Misc.RemoveDuplicateSlashesResult | src/main/java/balti/module/baltitoolbox/functions/Misc.kt:372-401 | for a trim of 2 or more UTF-16 units, the result has no "//", keeps the other characters of the trimmed path in order, starts and ends with the trimmed path's first and last characters, and is its own trim, so the sentinel space is never emitted |
| Misc.RemoveDuplicateSlashesFirstExample | src/main/java/balti/module/baltitoolbox/functions/Misc.kt:363 | "//aaa////bbb/ccc//ddd/" becomes "/aaa/bbb/ccc/ddd/" |
| Misc.RemoveDuplicateSlashesSecondExample | src/main/java/balti/module/baltitoolbox/functions/Misc.kt:364 | "a/b/bbb//c///dd/dde///" becomes "a/b/bbb/c/dd/dde/" |
| Misc.RemoveDuplicateSlashesSurrogatePair | src/main/java/balti/module/baltitoolbox/functions/Misc.kt:369-370 | `" \U{1F600} "` (one character outside the Basic Multilingual Plane between spaces) has a trim of length 2, so it goes through the scan and comes back trimmed |
| Misc.GetPercentage | src/main/java/balti/module/baltitoolbox/functions/Misc.kt:264-267 | the percentage is 0 whenever `total` is 0 |
| Misc.GetPercentageTruncates | src/main/java/balti/module/baltitoolbox/functions/Misc.kt:264-267 | while `count * 100` fits in an `Int`, the result is `count * 100 / total` rounded toward zero |
| Misc.GetPercentageExample | src/main/java/balti/module/baltitoolbox/functions/Misc.kt:264-267 | `getPercentage(50, 200) == 25` |
| Misc.GetPercentageInRange | src/main/java/balti/module/baltitoolbox/functions/Misc.kt:264-267 | for `0 <= count <= total` with `count * 100` within `Int`, the result is the rounded-down percentage and lies in 0..100 |
| Misc.GetPercentageOverflow | src/main/java/balti/module/baltitoolbox/functions/Misc.kt:265 | the product wraps around: `getPercentage(25000000, 50000000)` is -35 |
| Misc.GetPercentageWide | src/main/java/balti/module/baltitoolbox/functions/Misc.kt:264-267 | the corrected percentage, with the product formed in `Long`, is 0 whenever `total` is 0 |
| Misc.GetPercentageWideInRange | src/main/java/balti/module/baltitoolbox/functions/Misc.kt:264-267 | for every `0 <= count <= total` with `total > 0`, the corrected percentage is the rounded-down percentage, in 0..100 |
| Misc.StagesFiredExactly | src/main/java/balti/module/baltitoolbox/functions/Misc.kt:127-137 | divide stage `j` fires exactly when the size exceeds `1024^j` |
| Misc.Divide | src/main/java/balti/module/baltitoolbox/functions/Misc.kt:127-132 | the local `divide` fires only when the value exceeds 1024: it then divides the value by 1024 once and sets the unit to its annotation; otherwise value and unit are unchanged |
| Misc.HumanReadableStorageSpace | src/main/java/balti/module/baltitoolbox/functions/Misc.kt:117-140 | the unit starts at B (or at KB with `isSpaceInKB`, which also skips the B-to-KB stage), advances once per stage that fires and never past TB; the value is the size divided by 1024 once per advance; the value is at most 1024 unless the unit is TB; the separator is one space exactly when `spaceBeforeUnit` |
| Misc.StorageExample | src/main/java/balti/module/baltitoolbox/functions/Misc.kt:109-110 | 3453262 bytes are shown in MB, with a value in [3.285, 3.295), which `%.2f` prints as "3.29" |
| Misc.LineReader.ReadLine | src/main/java/balti/module/baltitoolbox/functions/Misc.kt:211-212 | `readLine()` returns the next line and advances by one, or `None` at the end without advancing |
| Misc.FirstBreak | src/main/java/balti/module/baltitoolbox/functions/Misc.kt:210-216 | the index of the first line whose trimmed text makes `loopFunction` return true, with every earlier line returning false, or `None` when no line does |
| Misc.IterateBufferedReader | src/main/java/balti/module/baltitoolbox/functions/Misc.kt:208-220 | `loopFunction` is given the trimmed lines in order up to and including the first that returns true (or all lines); no later line is read; `onManualBreakFunction` runs exactly when such a line exists and the function is non-null |
| AndroidUI.DialogList.ChainDialogs | src/main/java/balti/module/baltitoolbox/functions/AndroidUI.kt:24-44 | with more than one dialog, dialog `i` gets the listener "show dialog `i + 1`" and the last gets "invoke `endJob`"; with one or none no listener changes; dialog 0 is shown when the list is non-empty |
| AndroidUI.ChainedDismissShowsNext | src/main/java/balti/module/baltitoolbox/functions/AndroidUI.kt:28-34 | with `n > 1`, dismissing dialog `i < n - 1` hides it, shows dialog `i + 1` and changes nothing else |
| AndroidUI.ChainedDismissLast | src/main/java/balti/module/baltitoolbox/functions/AndroidUI.kt:35-39 | with `n > 1`, dismissing the last dialog shows nothing and invokes `endJob` exactly when it is non-null |
| AndroidUI.ChainedShowsFirst | src/main/java/balti/module/baltitoolbox/functions/AndroidUI.kt:27-43 | the call shows exactly dialog 0 of a non-empty list, leaves the listeners of a list of one unchanged, and leaves an empty list entirely unchanged |
| AndroidUI.ChainWalk | src/main/java/balti/module/baltitoolbox/functions/AndroidUI.kt:15-17 | after the first `k` dialogs of a fresh chain are dismissed in order, exactly dialog `k` is showing and `endJob` has not run |
| AndroidUI.ChainFinish | src/main/java/balti/module/baltitoolbox/functions/AndroidUI.kt:35-39 | after every dialog of a chain is dismissed in order, none is showing and `endJob` ran once if non-null, otherwise never |
| AndroidUI.ChainSingle | src/main/java/balti/module/baltitoolbox/functions/AndroidUI.kt:27 | with a single dialog, dismissing it never invokes `endJob` |
| AndroidUI.DocumentedDiffersOnlyForOne | src/main/java/balti/module/baltitoolbox/functions/AndroidUI.kt:21-40 | the documented wiring (the last dialog always invokes `endJob`) and the code's wiring agree for every list except one of a single dialog, where the code keeps the dialog's listener |
| AndroidUI.DocumentedChainFinish | src/main/java/balti/module/baltitoolbox/functions/AndroidUI.kt:21 | with the documented wiring, dismissing every dialog of any non-empty chain in turn leaves none showing and runs `endJob` once if it is non-null, a single dialog included |
| AndroidUI.GetErrorDialog | src/main/java/balti/module/baltitoolbox/functions/AndroidUI.kt:63-94 | no dialog exactly when the builder throws; otherwise the dialog is cancellable if and only if there is no `onCloseClick`, the icon is `stat_sys_warning` exactly when `iconResource == 0` and `iconResource` otherwise, and the title, message and button text are the arguments |
| AndroidUI.ErrorDialogClosing | src/main/java/balti/module/baltitoolbox/functions/AndroidUI.kt:48-50 | with `onCloseClick`, the dialog closes only through the close button, which runs the callback; without it, back and a touch outside close it as well |
| AndroidUI.ErrorDialogDisplay.ShowErrorDialog | src/main/java/balti/module/baltitoolbox/functions/AndroidUI.kt:100-121 | returns exactly what `getErrorDialog` built, and shows it only when that is non-null |

## Left out

- Kotlin strings are sequences of UTF-16 code units, while the model's strings are sequences of Unicode scalar values. The length test of `removeDuplicateSlashes` (Misc.kt:370) counts UTF-16 units in the model too (`Utf16Length`). The scan itself runs over characters rather than code units. This gives the same string, because the two halves of a surrogate pair are never '/' and so are always copied, one after the other.
- `Char.isWhitespace` is the fixed set of code points for which the JVM's `Character.isWhitespace` or `Character.isSpaceChar` holds. The model takes that set as given rather than reading the Unicode database.
- The `catch` branch of `removeDuplicateSlashes` (Misc.kt:404-407) cannot be reached: after the length check and the sentinel, indices 0 and 1 exist. No branch models it.
- Misc.HumanReadableStorageSpace: `value` is an exact real. `Long.toDouble()` rounds once |fileSize| exceeds 2^53. The rounding is monotonic, and 1024^1..1024^4 are exact doubles, so every comparison with a threshold, and hence the unit, agrees with the source for every `Long`. The value agrees with the source only for |fileSize| <= 2^53: above that, the source divides the rounded double. The `%.2f` text is not modelled, because it is floating-point formatting; the method returns the value, separator and unit separately.
- Misc.IterateBufferedReader: `loopFunction` has no side effects in the model, reading never throws, and `passed` records what it was given. `onManualBreakFunction` appears only as a flag saying whether it ran.
- AndroidUI.DialogList.ChainDialogs: the model assumes the entries of `dialogList` are distinct objects. A list holding one dialog twice would overwrite its listener, and that aliasing is not modelled.
- Android framework behaviour is an assumption of the model: dismissing a dialog that is not showing does nothing; `show()` marks a dialog as showing; a dismiss listener installed by the caller before `chainDialogs` appears as `NoListener`.
- AndroidUI.GetErrorDialog: `activityContext`, the `AlertDialog.Builder` calls and the toast fallback (AndroidUI.kt:72-91) are framework calls. Whether the builder throws is a parameter. The default title and button text come from string resources (`getStringFromRes`), so the model takes both as arguments.
- The other members of Misc.kt:
  - `tryIt` (exception wrappers around arbitrary closures);
  - `doBackgroundTask`, `runSuspendFunction` and `runOnMainThread` (thread and coroutine dispatch);
  - `isPackageInstalled`, `getAppName`, `openWebLink`, `playStoreLink`, `makeNotificationChannel`, `Misc.showErrorDialog`, `activityStart`, `serviceStart` and `observeOnce` (Android framework calls);
  - `timeInMillis` (wall clock).
- GlobalAccessForIDE.kt, ToolboxHQ.kt and GetResources.kt: forwarding wrappers, framework handles and resource lookups without logic of their own.

## Findings

| source | as written | input that shows it | evidently intended | confidence | as-written member | corrected member |
|---|---|---|---|---|---|---|
| src/main/java/balti/module/baltitoolbox/functions/Misc.kt:265 | `(count*100)/total` multiplies in 32-bit `Int`, so for `count > 21474836` the product wraps around | `getPercentage(25000000, 50000000)` is -35 instead of 50 | the percentage of `count` in `total`, in 0..100 for `0 <= count <= total`, e.g. by multiplying in `Long` | medium, not executed | Misc.GetPercentageOverflow | Misc.GetPercentageWideInRange |
| src/main/java/balti/module/baltitoolbox/functions/AndroidUI.kt:27 | the whole listener wiring is guarded by `size > 1`, so a list of a single dialog gets no dismiss listener | `chainDialogs(listOf(d), endJob)`, then dismissing `d`: `endJob` never runs | `endJob` runs once the last dialog is dismissed, as the documentation at AndroidUI.kt:21 says, and in a list of one that is the only dialog | medium, not executed | AndroidUI.ChainSingle | AndroidUI.DocumentedChainFinish |
