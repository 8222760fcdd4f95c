# Verified models of the firmware emulator

A Dafny 4.11 model of the parts of the emulator that carry the hardest
correctness properties, with proofs:

- the tree algorithms on the storage API: the directory walk with its path string
  and stack of indices, recursive remove, recursive copy, rename, and the search
  for a free file name (`FileTree`, `Storage`, `Preorder`, `DirWalk`,
  `RemoveTree`, `CopyTree`, `NextName`);
- the u8g2 rasterisers in their 8-bit arithmetic: clipped lines, circle, disc,
  rounded box, and the ellipse in its 16-bit arithmetic (`Canvas`, `Circle`,
  `CircleExact`, `RBox`, `EllipseCurve`, `EllipseBounds`, `EllipseRange`,
  `EllipseLines`, `EllipseExact`, `EllipseCondition`, `Ellipse`);
- the u8g2 font: bit reader, run-length glyph decoder, glyph lookup
  (`BitReader`, `GlyphDecode`, `GlyphSample`, `GlyphLookup`);
- the pthread monitors: semaphore, mutex, event flag, message queue (`Monitors`,
  `Semaphore`, `Mutex`, `EventBits`, `EventFlag`, `MessageQueue`), and the blocking
  open of the storage service built on them (`StorageGlue`, `OpenProtocol`,
  `OpenRuns`, `CloseFlag`, `StoragePaths`, `StorageServer`);
- the line editor of the command line and the terminal it drives (`Terminal`,
  `CliEditor`).

Code that updates state is modelled by classes and loops, proved against
functions and predicates; what the system promises is then proved about those.

`dafny verify dfyconfig.toml` checks the whole project.

## How to read the model

**Files.** `FileTree.Tree` maps every existing path to what is there; `Text`
spells a path the way clients build it, `Resolve` reads a spelling back. The
directories at the top are the storages "ext" and "int", which can be neither
created nor removed, and "/any" is a second spelling of one of them. The class
`Storage` gives each storage operation the contract that `storage.h` documents,
with the order of directory entries an arbitrary function of the directory and its
names, and with arbitrary write faults unless the storage is `reliable`. A walk that
is stepped out of a directory reopens the parent and relies on the same order again.
The tree algorithms run alone: their contracts ask that nobody else holds the paths
they need.

**Pixels.** A `Canvas` is the set of pixels painted in one colour, with the clip
window. Coordinates are bytes and wrap, circle variables are signed bytes and
wrap, ellipse variables have 16 bits and wrap, as in the default build
(lib/u8g2/u8g2.h:169-177). The drawing methods are total, except that an ellipse
needs loops that end; where they are exact, the contract says for which arguments.
The ellipse is proved in two layers: `EllipseCurves` over unbounded integers, and
`EllipseRanges` for the radii with which 16 bits do the same; `EllipseCondition`
shows that there are no others.

**Monitors.** Each method of a monitor is what one thread does under the lock
between getting the lock and returning or waiting. `Valid()` is kept by every
method, so it holds after every interleaving. A signal wakes any nonempty part of
the sleepers, sleepers may wake for no reason, and a timeout hits only a sleeper
that has not been woken.

**Open protocol.** `OpenProtocol` is a state machine whose steps are taken by the
clients and by the single server thread; a close notification reaches the
subscribers one at a time, with other steps in between. `Run` is a sequence of
enabled steps.

## What turned out to need a condition

- A rename of a file to itself, under the same spelling or with "/any" for its
  storage, deletes the file: the code removes an existing file at the target before
  it copies (flipper/storage/storage_external_api.c:423-427). `CopyTree.Rename`
  states that a failed rename keeps the source if and only if this is not the case.
- The prefix test that keeps a directory from being moved into itself finds exactly
  the targets that are spelled with the same storage name (`CopyTree.PrefixTest`). A
  target inside the source but spelled with the other name gets past it, and the
  copy then goes into what it is copying; `CopyTree.Rename` excludes it.
- The root directory of a storage cannot be removed, so asking to move or to delete
  it runs into a check that stops the program
  (flipper/storage/storage_external_api.c:861-862); `RemoveTree.RemoveRecursive` and
  `CopyTree.Rename` exclude it.
- `storage_get_next_filename` returns a name that is taken if and only if the counter
  wrapped, or a number was needed and `max_len` does not exceed the base name
  (`NextName.AnswerIsFree`). It ends if and only if one of the 65537 names it can try
  is free (`NextName.EndsExactlyIfFree`, `NextName.NextFilename`).
- The circle arithmetic stays within a signed byte exactly for radii up to 64
  (`Circles.StartInRange`). Circle and disc are drawn right beyond that, as long as f
  itself fits: exactly for radii up to 76, and 82 and 83
  (`CircleExactness.PlotsCircleExactly`).
- The ellipse, with M the larger and m the smaller radius: it is plotted as it is over
  unbounded integers if and only if M^2 max(2, 2m) <= 32767, which is when the values
  that the loops start from fit 16 bits (`EllipseCondition.WholeExactlyIfFits`,
  `EllipseBounds.StartsFitExactly`). For any other radii the loop along the longer
  radius plots nothing, or the error term wraps and it chooses another point before it
  first leaves its starting row or column. No store at all wraps, of a value that is
  not used any more or of a coordinate, if and only if both radii are positive and
  M^2 max(3, 2m) <= 32767 (`EllipseRanges.StoresFitExactly`).
- With both radii zero the ellipse loops go on for ever, over unbounded integers too
  (`EllipseRanges.ZeroRadiiNeverEnd`). With one radius zero the first loop ends on a
  vertical line exactly for radii up to 156, and on a horizontal one exactly for radii
  other than 128 (`EllipseLines.SteepLineEnds`, `EllipseLines.FlatLineEnds`).
- The rounded box: with sides of at least 2r the discs and boxes make it if and only
  if no side is 2r with r below 2 (`RoundedBox.ExactFromTwiceTheRadius`). With a
  side below 2r the length between the corners wraps (`RoundedBox.Between`).
- A figure that starts left of or above the display, its coordinates modulo 256, is
  drawn right where the part outside does not wrap into the window
  (`Painting.ShownFromStart`, `Circles.DrawCircle`, `RoundedBox.DrawRBox`). An ellipse
  of radius 128 or more there is skipped although the window may show some of it
  (`Ellipses.WideBoxIsSkipped`).
- Where no coordinate wraps, skipping a glyph whose bounding box misses the window
  loses nothing if and only if
  none of its dots beyond the last line is in the window, other than on pixels that
  are painted already (`GlyphDecoding.SkipLosesNothing`); a complete glyph that
  loses one is in `GlyphDecoding.SkipCanLoseADot`.
- The command line and the terminal differ after end-of-transmission on a nonempty
  line, and after a completion request on a nonempty line of blanks
  (`CliEditor.LosesStep`); after every other key they agree.
- The mutex count equals the owner's nesting if and only if nobody is nested 2^32
  times or more (`Mutexes.Mutex.OneOwner`).

## Model

| member | source | states |
|---|---|---|
| `FileTree.CutJoined` | helpers/toolbox/dir_walk.c:108-111 | cutting a joined path at its last slash gives back the directory and the name |
| `FileTree.ResolveText` | helpers/toolbox/dir_walk.c:72-76 | a path built by appending "/name" components names the entry it was built for, whichever name its storage is spelled with |
| `FileTree.TextResolve` | helpers/toolbox/dir_walk.c:42-46 | a string that names a well-formed path is a spelling of that path |
| `FileTree.SpellEntry` | helpers/toolbox/dir_walk.c:108-113 | spelling an existing entry, reading it back and cutting off its last component are consistent |
| `Preorder.PreorderVisitsAll` | helpers/toolbox/dir_walk.c:56-139 | the recursive preorder of a directory holds exactly the entries strictly below it |
| `Preorder.PreorderVisitsOnce` | helpers/toolbox/dir_walk.c:56-139 | and each of them once |
| `Preorder.PreorderParentsFirst` | flipper/storage/storage_external_api.c:460-484 | and every entry after its parent directory |
| `Preorder.FlatVisits` | helpers/toolbox/dir_walk.c:86-94 | a walk that is not recursive visits exactly the entries of the directory itself |
| `Preorder.FromFrame` | flipper/storage/storage_external_api.c:460-484 | the walk of a directory depends on nothing outside it |
| `DirWalking.ReadEntry` | helpers/toolbox/dir_walk.c:64-94 | reading an entry leaves its contents and then its later siblings to be read |
| `DirWalking.EnterEntry` | helpers/toolbox/dir_walk.c:86-94 | pushing the index and extending the path leaves the same entries to read |
| `DirWalking.LeaveEntry` | helpers/toolbox/dir_walk.c:101-113 | popping the index and cutting the path leaves the same entries to read |
| `DirWalking.DirWalk.Open` | helpers/toolbox/dir_walk.c:42-46 | after opening a directory the entries still to read are its whole preorder; it fails exactly for what is no directory |
| `DirWalking.DirWalk.StepIn` | helpers/toolbox/dir_walk.c:86-94 | stepping into a directory keeps the invariant that ties path, index stack and open directory to the position in the tree |
| `DirWalking.DirWalk.StepOut` | helpers/toolbox/dir_walk.c:101-129 | reopening the parent and re-reading up to the saved index always succeeds and changes nothing of what is left to read |
| `DirWalking.DirWalk.Reopen` | helpers/toolbox/dir_walk.c:106-129 | the directory that is open afterwards is the one the path names, read up to the index |
| `DirWalking.DirWalk.Rewind` | helpers/toolbox/dir_walk.c:115-129 | the rewind succeeds exactly if the directory still has that many entries |
| `DirWalking.DirWalk.Next` | helpers/toolbox/dir_walk.c:64-69 | one directory read is one step of the recursive preorder |
| `DirWalking.DirWalk.TakeEntry` | helpers/toolbox/dir_walk.c:70-94 | an entry is handed out, with its full path and its info, exactly if there is no callback or the callback holds of its own name and info; a directory is entered either way |
| `DirWalking.DirWalk.Iterate` | helpers/toolbox/dir_walk.c:63-135 | one pass of the loop hands out the next entry, or passes over it because the callback turns it down, or moves to another directory and is closer to the end |
| `DirWalking.DirWalk.Read` | helpers/toolbox/dir_walk.c:48-147 | a read passes over the entries that the callback turns down by their own name and info, hands out the first one it accepts, or ends the walk with nothing left, and terminates |
| `DirWalking.ReadMeans` | helpers/toolbox/dir_walk.c:48-84 | with the callback written out: it fails for every entry passed over and holds for the last component of the returned path and the returned info; without a callback the answer is the very next entry; at the end it fails for all that was left |
| `DirWalking.DirWalk.Close` | helpers/toolbox/dir_walk.c:149-157 | closing gives back the open directory and clears path, index and stack |
| `DirWalking.WalkIsComplete` | helpers/toolbox/dir_walk.c:56-139 | a fresh walk has every entry strictly below the root to read, or if it is not recursive every entry directly in it, and each once |
| `DirWalking.ReadToEnd` | helpers/toolbox/dir_walk.c:56-147 | reading until the end returns, in preorder, the spellings of the entries that were to be read, leaving out exactly those that the callback turns down |
| `DirWalking.ListTree` | helpers/toolbox/dir_walk.c:42-157 | open, read to the end and close: the texts are those of exactly the entries below the directory, or directly in it, whose own name and info the callback accepts, each once; nothing stays open |
| `StorageService.Storage.Stat` | flipper/storage/storage.h:214-220 | contract of the storage API used by the tree algorithms: existence and kind of a path; a path on no storage is an invalid name |
| `StorageService.Storage.Mkdir` | flipper/storage/storage.h:253-258 | contract: creates one directory under an existing one on a storage, or changes nothing; a path on no storage is an invalid name |
| `StorageService.Storage.CopyFile` | flipper/storage/storage_external_api.c:505-520 | contract: a new file with the contents of the source, or an error and at most a partial target |
| `StorageService.Storage.Remove` | flipper/storage/storage_processing.c:359-374 | contract: removes a file or an empty directory that nobody has open, but not the root directory of a storage |
| `StorageService.DirHandle.Open` | flipper/storage/storage.h:162-170 | contract: a directory on a storage is held open until it is closed, even if opening failed |
| `StorageService.DirHandle.Read` | flipper/storage/storage.h:178-185 | contract: entries in order, each once, and the not-exist error at the end |
| `RemoveTree.SimplyRemove` | flipper/storage/storage_external_api.c:880-884 | removing what is not there counts as success |
| `RemoveTree.RemoveRecursive` | flipper/storage/storage_external_api.c:819-878 | when nothing in the subtree is open, recursive remove ends, succeeds and deletes exactly the subtree |
| `RemoveTree.DeleteFrom` | flipper/storage/storage_external_api.c:837-872 | the loop with one path string and one handle deletes everything at or below the start; measure: entries left, then depth still below |
| `RemoveTree.EmptyDir` | flipper/storage/storage_external_api.c:843-854 | one listing: files are removed as they are read, up to the first subdirectory or until the directory is empty |
| `RemoveTree.AllGone` | flipper/storage/storage_external_api.c:861-871 | once the start is gone and only entries below it were deleted, the tree is the old one without the subtree |
| `CopyTree.GraftBack` | flipper/storage/storage_external_api.c:469-471 | moving a path from one prefix to another and back is the identity |
| `CopyTree.GraftText` | flipper/storage/storage_external_api.c:469-471 | the string operation of the copy loop yields a spelling of the entry's place in the copy, whichever names the two storages are spelled with |
| `CopyTree.PrefixTest` | flipper/storage/storage_external_api.c:409-421 | the prefix comparison of a rename finds exactly the targets inside the source directory that are spelled with the same storage name |
| `CopyTree.NextEntry` | flipper/storage/storage_external_api.c:469-483 | the next entry's parent has been copied and the entry itself has not, so it can be created |
| `CopyTree.StillValid` | flipper/storage/storage_external_api.c:460-484 | creating entries outside the walked directory does not disturb the walk |
| `CopyTree.CopyEntries` | flipper/storage/storage_external_api.c:460-484 | the copy loop ends with a complete copy or an error; on reliable storage always with a copy |
| `CopyTree.CopyRecursive` | flipper/storage/storage_external_api.c:440-493 | on success the tree is the old one plus a copy of the source, names and contents, at the fresh target; on failure nothing outside the target changed |
| `CopyTree.Copy` | flipper/storage/storage_external_api.c:495-525 | the same for files and directories; succeeds on reliable storage whenever the target can be created |
| `CopyTree.CopyMeans` | flipper/storage/storage_external_api.c:440-525 | a copy, entry by entry: everything at or below the source is at its place below the target with its contents, and nothing else is there; nothing outside the target has changed, whatever the answer |
| `CopyTree.SourceUntouched` | flipper/storage/storage_external_api.c:440-493 | a copy to a fresh place outside the source leaves the source as it was |
| `CopyTree.CopiedThenRemoved` | flipper/storage/storage_external_api.c:427-434 | copy then recursive remove moves the whole subtree |
| `CopyTree.FailedRename` | flipper/storage/storage_external_api.c:423-430 | a failed rename has lost nothing of the source, unless a file was renamed to itself under either spelling |
| `CopyTree.TwoSpellings` | flipper/storage/storage_processing.c:83-96 | every path on the storage that "/any" stands for has two different spellings |
| `CopyTree.Rename` | flipper/storage/storage_external_api.c:400-438 | success means the subtree moved exactly; on reliable storage it succeeds exactly for movable requests; failure keeps the source except for a file renamed to itself under either spelling |
| `CopyTree.MovedMeans` | flipper/storage/storage_external_api.c:423-434 | a move, entry by entry: whatever was at or below the source is at its place below the target with its contents, nothing is left at the source or new at the target, and nothing else changed |
| `CopyTree.RenameMeans` | flipper/storage/storage_external_api.c:400-438 | a rename that fails has changed nothing outside the target, and nothing of the source unless a file was renamed to itself |
| `CopyTree.MoveBack` | flipper/storage/storage_external_api.c:400-438 | moving a subtree to a fresh place and back restores the file system |
| `NextName.ValueOfDecimal` | flipper/storage/storage_external_api.c:906 | the decimal suffixes are distinct: each can be read back |
| `NextName.DecimalIsCanonical` | flipper/storage/storage_external_api.c:906 | a suffix has digits only and no leading zero, and below ten it is one digit |
| `NextName.Candidates` | flipper/storage/storage_external_api.c:894-906 | a candidate is the directory, a slash, the base name, the suffix if there is one, and the extension |
| `NextName.NamesDiffer` | flipper/storage/storage_external_api.c:902-907 | all 65537 candidate names are different |
| `NextName.SmallDirectoryHasFree` | flipper/storage/storage_external_api.c:904-907 | pigeonhole: a directory of at most 65536 entries leaves a candidate free, so the search ends |
| `NextName.EndsExactlyIfFree` | flipper/storage/storage_external_api.c:904-907 | some try of the endless sequence is free if and only if one of the first 65537 is: otherwise the search never ends |
| `NextName.NextFilename` | flipper/storage/storage_external_api.c:892-915 | if a candidate is free the search ends with the first free one of base, base1, base2, ... under a 16-bit counter |
| `NextName.AnswerIsFree` | flipper/storage/storage_external_api.c:908-912 | the answer names that free candidate if and only if the counter did not wrap and, where a number was needed, the limit exceeds the base name |
| `Painting.ClipIntersection` | lib/u8g2/u8g2_hvline.c:61-108 | the clipped line holds exactly the window's positions of the line, with the code's treatment of lines that run past 255 |
| `Painting.ShownFromNegative` | lib/u8g2/u8g2_hvline.c:86-95 | a start left of zero, modulo 256, is clipped like the negative number it stands for |
| `Painting.ShownFromStart` | lib/u8g2/u8g2_hvline.c:61-108 | so the clipped stretch is the part of the stretch that the window shows, whether it starts inside or left of zero |
| `Painting.Canvas.DrawHVLine` | lib/u8g2/u8g2_hvline.c:142-176 | a line in any of four directions paints exactly its pixels in the clip window; length 0 paints nothing |
| `Painting.Canvas.DrawVLine` | lib/u8g2/u8g2_hvline.c:186-192 | a vertical line, also one that starts above the display, paints exactly its pixels in the window |
| `Painting.Canvas.DrawHLine` | lib/u8g2/u8g2_hvline.c:178-184 | a horizontal line, also one that starts left of the display, paints exactly its pixels in the window |
| `Painting.Canvas.DrawPixel` | lib/u8g2/u8g2_hvline.c:194-202 | a pixel is painted exactly if it is in the window |
| `Painting.Canvas.DrawBox` | lib/u8g2/u8g2_box.c:42-51 | a box, also one that hangs out on the left or at the top, paints exactly its pixels in the window, skipped or not |
| `Circles.NearestIsUnique` | lib/u8g2/u8g2_circle.c:81-112 | for each column there is one integer nearest to the circle |
| `Circles.CircleInHalves` | lib/u8g2/u8g2_circle.c:81-112 | the circle is where (2 hi - 1)^2 < 4 (r^2 - lo^2) < (2 hi + 1)^2 in the octant lo <= hi, mirrored in the others, and the disc is where the first half holds |
| `Circles.SectorMeans` | lib/u8g2/u8g2.h:3662-3667 | which quadrant each bit of the option selects |
| `Circles.StepInRange` | lib/u8g2/u8g2_circle.c:100-108 | for radii up to 64 no sum in a step leaves the signed byte |
| `Circles.StartInRange` | lib/u8g2/u8g2_circle.c:83-94 | the starting values fit a signed byte if and only if the radius is at most 64 |
| `Circles.StepTracks` | lib/u8g2/u8g2_circle.c:100-108 | each step keeps f = (x+1)^2 + y^2 - y - r^2 and the plotted pair on the nearest-integer circle |
| `Circles.PassTracks` | lib/u8g2/u8g2_circle.c:101-108 | as long as f fits, the loop body in eight bits goes on to the circle's next pixel, whatever else wraps |
| `Circles.ExcessFits` | lib/u8g2/u8g2_circle.c:100-108 | f fits everywhere on circles of radius up to 76, 82 and 83 |
| `CircleExactness.PlotsCircleExactly` | lib/u8g2/u8g2_circle.c:81-112 | the loop in eight bits plots the circle's pixels for exactly these radii |
| `Circles.CircleStep` | lib/u8g2/u8g2_circle.c:100-111 | each step adds exactly the circle's pixels in the new column and row |
| `Circles.CircleEnd` | lib/u8g2/u8g2_circle.c:100-111 | when x passes y the whole circle is painted |
| `Circles.DrawCircleLoop` | lib/u8g2/u8g2_circle.c:81-112 | for these radii, where no pixel wraps into the window, the loop paints exactly the selected quadrants of the circle |
| `Circles.DrawCircle` | lib/u8g2/u8g2_circle.c:114-124 | the same with the bounding-box test: skipping loses nothing, also for a circle partly left of or above the display |
| `Circles.DiscColumns` | lib/u8g2/u8g2_circle.c:137-200 | every column of the disc is one gap-free span from the centre row to the outline |
| `Circles.CircleIsEdge` | lib/u8g2/u8g2_circle.c:81-112 | the circle is the edge of the disc |
| `Circles.DiscStep` | lib/u8g2/u8g2_circle.c:188-199 | each step adds exactly the disc's pixels in the new column and row |
| `Circles.DiscEnd` | lib/u8g2/u8g2_circle.c:188-199 | when x passes y the whole disc is painted |
| `Circles.DrawDiscLoop` | lib/u8g2/u8g2_circle.c:169-200 | for these radii, where no pixel wraps into the window, the loop paints exactly the selected quarters of the disc |
| `Circles.DrawDisc` | lib/u8g2/u8g2_circle.c:202-212 | the same with the bounding-box test, also for a disc partly left of or above the display |
| `RoundedBox.PartsMakeRBox` | lib/u8g2/u8g2_box.c:90-133 | four quarter discs and three boxes make the rectangle without the corner pixels outside the discs, for sides above 2r and, from radius 2 on, of 2r |
| `RoundedBox.ExactFromTwiceTheRadius` | lib/u8g2/u8g2_box.c:90-133 | for sides of at least 2r that is exactly when they do: with a side of 2r and a radius below 2 a corner is filled |
| `RoundedBox.RBoxMeans` | lib/u8g2/u8g2_box.c:76-134 | the rounded box is the rectangle, but in each of the four corner squares only a quarter of a disc |
| `RoundedBox.DrawRBox` | lib/u8g2/u8g2_box.c:76-134 | the rounded box paints exactly that, skipped or not, also when it hangs out on the left or at the top with the centres of its corners inside |
| `EllipseCurves.CurveStep` | lib/u8g2/u8g2_circle.c:296-308 | over unbounded integers each step keeps err = ry^2 x^2 + rx^2 y^2 - rx^2 ry^2 and the derived values, and takes the closer of its two candidates |
| `EllipseCurves.BestLowered` | lib/u8g2/u8g2_circle.c:302-307 | the lowered point is the best of its line while the slope condition holds |
| `EllipseCurves.BestKept` | lib/u8g2/u8g2_circle.c:302-307 | the kept point is the best of its line |
| `EllipseCurves.BestIsClosest` | lib/u8g2/u8g2_circle.c:296-342 | no point of the line is closer to the curve |
| `EllipseCurves.LoopKeeps` | lib/u8g2/u8g2_circle.c:296-308 | the loop invariant over unbounded integers, and the measure |
| `EllipseCurves.LoopEnds` | lib/u8g2/u8g2_circle.c:296-342 | over unbounded integers both loops end, having plotted a whole run, unless both radii are zero |
| `EllipseCurves.RunIsClosest` | lib/u8g2/u8g2_circle.c:296-342 | every plotted point is the closest to the curve of its whole row or column, inside the bounding box, next to its predecessor |
| `EllipseCurves.OneWholeRun` | lib/u8g2/u8g2_circle.c:296-342 | the run is determined by the radii |
| `EllipseBounds.StartsFitExactly` | lib/u8g2/u8g2_circle.c:269-294 | the values that the two loops start from fit 16 bits if and only if M^2 max(2, 2m) <= 32767 for the larger radius M and the smaller m |
| `EllipseBounds.MiddleErrFits` | lib/u8g2/u8g2_circle.c:300 | then err fits in the middle of every pass, where it is largest |
| `EllipseBounds.PointFits` | lib/u8g2/u8g2_circle.c:296-308 | and all values fit wherever a point is plotted |
| `EllipseRanges.SameValues` | lib/u8g2/u8g2_circle.c:296-308 | so the 16-bit values are the exact ones as long as the loop goes on, and it goes on exactly as long |
| `EllipseRanges.CodeRunIsWhole` | lib/u8g2/u8g2_circle.c:296-342 | for these radii the code's loops end and plot exactly the whole runs |
| `EllipseRanges.StoresFitExactly` | lib/u8g2/u8g2_circle.c:269-342 | no store of the two loops wraps, 16-bit value or coordinate, used or not, if and only if both radii are positive and M^2 max(3, 2m) <= 32767 |
| `EllipseRanges.PlotsNothing` | lib/u8g2/u8g2_circle.c:292-296 | a loop plots nothing if and only if its first stop value, cut to 16 bits, is negative |
| `EllipseLines.LineIsWholeExactly` | lib/u8g2/u8g2_circle.c:269-342 | an ellipse with one radius zero is plotted as it is over unbounded integers if and only if its starting values fit |
| `EllipseRanges.CircleOf26` | lib/u8g2/u8g2_circle.c:292-342 | which it is for both loops at radii (26, 26) |
| `EllipseRanges.ZeroRadiiNeverEnd` | lib/u8g2/u8g2_circle.c:296-308 | nor does it with both radii zero, over unbounded integers and in 16 bits |
| `EllipseLines.SteepLineEnds` | lib/u8g2/u8g2_circle.c:296-308 | the first loop ends on a vertical line exactly for radii up to 156 |
| `EllipseLines.FlatLineEnds` | lib/u8g2/u8g2_circle.c:296-308 | and on a horizontal line exactly for radii other than 128 |
| `EllipseExactness.CodeChoice` | lib/u8g2/u8g2_circle.c:296-307 | until the code first lowers its coordinate, err is the 16 bits of m^2 v^2 in line v, and that with the constant change of err decides |
| `EllipseExactness.WrongIsNotWhole` | lib/u8g2/u8g2_circle.c:296-308 | a line where the two loops decide differently makes the code's run another one |
| `EllipseCondition.UnfitFails` | lib/u8g2/u8g2_circle.c:269-308 | for every pair of radii that do not fit, the loop along the longer one plots nothing or has such a line |
| `EllipseCondition.WholeExactlyIfFits` | lib/u8g2/u8g2_circle.c:256-342 | the code plots an ellipse as it is over unbounded integers if and only if the starting values fit |
| `Ellipses.DrawSides` | lib/u8g2/u8g2_circle.c:256-308 | the first loop, in 16 bits, paints exactly the mirror images of the points it plots |
| `Ellipses.DrawCaps` | lib/u8g2/u8g2_circle.c:310-342 | the second loop likewise |
| `Ellipses.DrawEllipse` | lib/u8g2/u8g2_circle.c:344-359 | both together, with the bounding-box test; the runs painted are the whole ones of the exact loops if and only if the starting values fit, and then the test loses nothing |
| `Ellipses.EllipsePixels` | lib/u8g2/u8g2_circle.c:229-256 | which pixels two runs stand for: the k-th point of the first lies in the k-th row to either side of the centre, that of the second in the k-th column |
| `Ellipses.WideBoxIsSkipped` | lib/u8g2/u8g2_circle.c:352-356 | an ellipse that starts left of zero and is wider than the coordinate range is skipped whatever of it the window shows |
| `Ellipses.FittingEnds` | lib/u8g2/u8g2_circle.c:296-342 | for radii whose starting values fit both loops end |
| `BitReading.WindowBit` | lib/u8g2/u8g2_font.c:239-255 | bit by bit, what is assembled from two bytes and masked |
| `BitReading.WindowValue` | lib/u8g2/u8g2_font.c:234-259 | the assembled byte is the value of the field, least significant bit first |
| `BitReading.ValueOfSpelling` | lib/u8g2/u8g2_font.c:235-262 | a number written into a field least significant bit first is the number read from it |
| `BitReading.Reader.GetUnsignedBits` | lib/u8g2/u8g2_font.c:234-259 | a read returns the next field and moves past it, across byte boundaries |
| `BitReading.Reader.GetSignedBits` | lib/u8g2/u8g2_font.c:276-285 | a signed field is its value minus half its range, in spite of wrapping casts |
| `GlyphDecoding.AddVectorPlaces` | lib/u8g2/u8g2_font.c:288-322 | the coordinate displacement is a rotation of the local point, where nothing wraps |
| `GlyphDecoding.PieceIsRun` | lib/u8g2/u8g2_font.c:390-457 | a piece of one glyph line is a run of linear positions |
| `GlyphDecoding.LineIsPiece` | lib/u8g2/u8g2_font.c:406-450 | the line drawn in direction d is the piece, turned |
| `GlyphDecoding.Decoder.DecodeLen` | lib/u8g2/u8g2_font.c:373-462 | a run is wrapped at the glyph width: exactly its linear positions are painted, the position moves on by its length |
| `GlyphDecoding.RunAddsDots` | lib/u8g2/u8g2_font.c:577-580 | drawing a run appends its dots to those drawn |
| `GlyphDecoding.Decoder.DrawCycles` | lib/u8g2/u8g2_font.c:577-580 | a group is drawn once for every repeat bit, each bit consumed once |
| `GlyphDecoding.Decoder.DecodeRuns` | lib/u8g2/u8g2_font.c:569-583 | the groups are drawn in order until the lines are filled; exactly their bits are consumed |
| `GlyphDecoding.Decoder.ReadHeader` | lib/u8g2/u8g2_font.c:464-510 | the five header fields are read one behind the other: width, height, x, y, delta |
| `GlyphDecoding.SizeOfSpelling` | lib/u8g2/u8g2_font.c:475-478 | if the bits at the glyph spell a width and then a height, these are the header's |
| `GlyphDecoding.LeftOfSpelling` | lib/u8g2/u8g2_font.c:508 | the bits behind the size spell x, moved up by half the range of its field |
| `GlyphDecoding.UpOfSpelling` | lib/u8g2/u8g2_font.c:509 | the bits behind x spell y likewise |
| `GlyphDecoding.DeltaOfSpelling` | lib/u8g2/u8g2_font.c:510 | the bits behind y spell delta likewise, and the runs follow |
| `GlyphDecoding.UpperLeftMeans` | lib/u8g2/u8g2_font.c:512-515 | the corner of the glyph lies x to the right of the origin and height + y above it, as seen in each of the four directions |
| `GlyphDecoding.CycleColours` | lib/u8g2/u8g2_font.c:577-580 | each repetition of a group is its background run and then its foreground run |
| `GlyphDecoding.BoxIsTight` | lib/u8g2/u8g2_font.c:525-563 | the bounding box holds the pixels of the glyph's lines and no others, in every direction |
| `GlyphDecoding.DotsInBox` | lib/u8g2/u8g2_font.c:525-563 | all dots of a colour lie in the lines of the box if and only if none lies beyond the last one |
| `GlyphDecoding.SkipLosesNothing` | lib/u8g2/u8g2_font.c:565 | a glyph whose box misses the window has nothing more to show if and only if every dot beyond its last line is outside the window or painted already |
| `GlyphDecoding.BoxedGlyphIsSafe` | lib/u8g2/u8g2_font.c:525-565 | in particular a glyph whose dots all lie in the lines of its box loses nothing |
| `GlyphDecoding.SkipCanLoseADot` | lib/u8g2/u8g2_font.c:525-565 | a glyph can lose a dot that way |
| `GlyphDecoding.SmallGlyphIsWellFormed` | lib/u8g2/u8g2_font.c:464-510 | that one is complete, header and runs, as the decoder asks for it |
| `GlyphDecoding.Decoder.DrawDots` | lib/u8g2/u8g2_font.c:525-583 | in sight the canvas shows exactly the dots; out of sight it is unchanged, which shows them exactly under that condition |
| `GlyphDecoding.Decoder.DecodeGlyph` | lib/u8g2/u8g2_font.c:498-589 | decoding paints local pixel (lx, ly) exactly when position ly * width + lx of the expanded runs is foreground, placed and turned about the drawing origin where nothing wraps; background likewise unless transparent; and returns the delta field |
| `GlyphSample.DrawSample` | lib/u8g2/u8g2_font.c:498-589 | a glyph in full: four bytes with fields of different widths and x other than y, the four pixels they paint in each colour, and the delta returned |
| `GlyphDecoding.DirectionIsRotation` | lib/u8g2/u8g2_font.c:288-322 | the placed glyph in direction d is the one in direction 0 turned by d quarter turns about the origin |
| `GlyphDecoding.PaintedTurned` | lib/u8g2/u8g2_font.c:498-589 | so what two decodings of a glyph add, in direction d and upright, are quarter turns of each other wherever both windows show them |
| `GlyphDecoding.UpperLeftIsPlace` | lib/u8g2/u8g2_font.c:512-515 | the corner the decoder computes is the placed corner of the glyph, where nothing wraps |
| `GlyphLookup.ScanFinds` | lib/u8g2/u8g2_font.c:610-616 | the plain scan returns the first record with the encoding, and only if there is one |
| `GlyphLookup.ScanWritten` | lib/u8g2/u8g2_font.c:610-650 | the scan of a section written record by record, a 16-bit encoding with its high byte first, finds the glyph of the first record with the encoding, and nothing if there is none |
| `GlyphLookup.BigEndian` | lib/u8g2/u8g2_font.c:127-140 | [n / 256, n % 256] reads as n |
| `GlyphLookup.SkipBelow` | lib/u8g2/u8g2_font.c:604-608 | starting later in the chain loses nothing for encodings from the limit up |
| `GlyphLookup.FindBlock` | lib/u8g2/u8g2_font.c:632-640 | the block table leads to a place from which the scan gives the same result as from the start of the section |
| `GlyphLookup.GetGlyphData` | lib/u8g2/u8g2_font.c:599-669 | on a well-formed font the lookup ends and returns what a plain scan returns: of the narrow section for encodings up to 255, of the wide one above |
| `Monitors.Signal` | flipper/core/message_queue.c:88-89 | a signal wakes at least one sleeper if there is one |
| `Semaphores.Semaphore.Acquire` | flipper/core/semaphore.c:40-70 | takes a count, waits or times out; the count balances the calls; while somebody sleeps every available count has a woken thread |
| `Semaphores.Semaphore.Release` | flipper/core/semaphore.c:72-86 | adds a count up to the maximum and signals |
| `Semaphores.Semaphore.TimeOut` | flipper/core/semaphore.c:55-63 | a timed-out wait changes no count |
| `Semaphores.SleepersAreServed` | flipper/core/semaphore.c:40-86 | while somebody sleeps and the count is not zero, as many woken threads as counts are on their way |
| `Mutexes.OneMore` | flipper/core/mutex.c:40-48 | a further level of nesting keeps count and ledger in agreement modulo 2^32 |
| `Mutexes.OneLess` | flipper/core/mutex.c:87-91 | a released level keeps them in agreement |
| `Mutexes.Mutex.OneOwner` | flipper/core/mutex.c:34-94 | the owner is the only holder and the count is its acquires minus releases, if and only if no thread is nested 2^32 times or more |
| `Mutexes.Mutex.Acquire` | flipper/core/mutex.c:34-75 | outcome and new owner in every case; a free mutex with a sleeper has a woken thread on its way |
| `Mutexes.Mutex.Release` | flipper/core/mutex.c:77-94 | outcome, owner and signal in every case |
| `Mutexes.SleepersAreServed` | flipper/core/mutex.c:34-94 | while somebody sleeps on a free mutex some woken thread is on its way, and the owner never waits for its own mutex |
| `EventFlags.ClearingSatisfiesNobody` | flipper/core/event_flag.c:40-52 | clearing flags makes no waiting condition true |
| `EventFlags.GrantedValue` | flipper/core/event_flag.c:115-116 | a granted wait returns no error code; all requested flags with wait-all, else a nonempty part of them |
| `EventFlags.EventFlag.Set` | flipper/core/event_flag.c:25-38 | sets the flags and wakes everybody; invalid bits are refused |
| `EventFlags.EventFlag.Clear` | flipper/core/event_flag.c:40-52 | clears the flags; nobody ever sleeps on a condition that holds |
| `EventFlags.EventFlag.Wait` | flipper/core/event_flag.c:80-121 | grants, waits or times out by the condition, refuses invalid flags, and keeps that nobody sleeps on a condition that holds |
| `EventFlags.ConditionMeans` | flipper/core/event_flag.c:63-68 | the condition, flag by flag: with wait-all every requested flag is up, otherwise some requested flag is |
| `EventFlags.WaitMeans` | flipper/core/event_flag.c:80-121 | the outcome, flag by flag: granted exactly if the condition holds, returning the requested flags that are up and, without no-clear, taking all requested flags down; otherwise nothing is changed and the call times out or sleeps |
| `EventFlags.SleeperMisses` | flipper/core/event_flag.c:95-112 | nobody sleeps on a condition that holds: a sleeper with wait-all misses a requested flag, any other one misses all |
| `EventFlags.ChangeMeans` | flipper/core/event_flag.c:25-52 | setting and clearing, flag by flag |
| `MessageQueues.NextSlot` | flipper/core/message_queue.c:84-85 | the indices go round the ring |
| `MessageQueues.SignalServes` | flipper/core/message_queue.c:88 | after one more message and one signal, every message still has a woken reader coming |
| `MessageQueues.MessageQueue.Store` | flipper/core/message_queue.c:84-86 | a message is stored behind the contents of the ring |
| `MessageQueues.MessageQueue.Take` | flipper/core/message_queue.c:117-119 | the oldest message is taken out of the ring |
| `MessageQueues.MessageQueue.Put` | flipper/core/message_queue.c:60-91 | stores at the end, waits or times out; keeps: contents = puts minus gets in order, and no reader or writer sleeps without a woken one for each message or place |
| `MessageQueues.MessageQueue.Get` | flipper/core/message_queue.c:93-124 | returns the oldest message, waits or times out; keeps the same |
| `MessageQueues.MessageQueue.Reset` | flipper/core/message_queue.c:152-162 | empties the queue and wakes all writers; keeps the same |
| `MessageQueues.FirstInFirstOut` | flipper/core/message_queue.c:60-124 | the n-th message got since the last reset is the n-th put |
| `MessageQueues.SleepersAreServed` | flipper/core/message_queue.c:60-124 | while a reader sleeps every message has a woken reader on its way, and while a writer sleeps every free place has a woken writer |
| `StorageGlue.FileTable.PathAlreadyOpen` | flipper/storage/storage_glue.c:99-115 | true exactly if the table lists the path |
| `StorageGlue.FileTable.HasFile` | flipper/storage/storage_glue.c:78-97 | true exactly if the table lists the id |
| `StorageGlue.FileTable.Push` | flipper/storage/storage_glue.c:129-134 | adds one entry at the end |
| `StorageGlue.FileTable.Pop` | flipper/storage/storage_glue.c:136-153 | removes one entry with the id, if there is one |
| `StorageGlue.PushKeepsDistinct` | flipper/storage/storage_glue.c:129-134 | a new path under a new id keeps paths and ids unique |
| `StorageGlue.RemoveKeepsDistinct` | flipper/storage/storage_glue.c:136-153 | a removal keeps them unique and frees exactly that path |
| `OpenProtocol.OpenKeeps` | flipper/storage/storage_processing.c:107-132 | handling an open request keeps the invariant of the protocol |
| `OpenProtocol.CloseKeeps` | flipper/storage/storage_processing.c:134-149 | handling a close request keeps it: clients waiting for the path will be notified |
| `OpenProtocol.StartKeeps` | flipper/core/pubsub.c:42-55 | subscribing before the attempt keeps it |
| `OpenProtocol.RetryKeeps` | flipper/storage/storage_external_api.c:103-109 | returning from the wait keeps it |
| `OpenProtocol.NotifyKeeps` | flipper/core/pubsub.c:82-92 | notifying one subscriber keeps it, with other steps in between |
| `OpenProtocol.FinishKeeps` | flipper/core/pubsub.c:57-80 | unsubscribing keeps it |
| `OpenProtocol.EveryRunKeeps` | flipper/storage/storage_external_api.c:80-116 | every run keeps it |
| `OpenProtocol.NoCloseIsMissed` | flipper/storage/storage_external_api.c:80-116 | in every reachable state each table lists a path at most once, and a refused client that was not notified has its path in the table or its notification on the way |
| `OpenProtocol.WaitsForAHolder` | flipper/storage/storage_external_api.c:80-116 | a waiting client waits for a file that another client has open and has yet to close |
| `OpenRuns.OpenMeans` | flipper/storage/storage_processing.c:107-132 | an open request: an invalid name is answered, a path in the table leaves the client refused, any other path adds one entry under a new id and is answered |
| `OpenRuns.RetryMeans` | flipper/storage/storage_external_api.c:103-109 | a refused client can try again exactly if its flag is raised; it then asks for the same path with its flag lowered |
| `OpenRuns.LeavesRefused` | flipper/storage/storage_external_api.c:100-112 | in every run a refused client stays refused until it tries again with its flag raised |
| `OpenRuns.AnsweredByOpen` | flipper/storage/storage_external_api.c:100-112 | in every run a client that waits for a path is answered only by an open request for that same path, in a state whose table does not list it |
| `CloseFlags.CloseCallback` | flipper/storage/storage_external_api.c:80-89 | a close notification raises the client's event flag and wakes it |
| `CloseFlags.AwaitClose` | flipper/storage/storage_external_api.c:103-109 | the wait of the open loop returns if and only if the flag is raised, and lowers it |
| `CloseFlags.NobodySleepsRaised` | flipper/storage/storage_external_api.c:103-109 | no client sleeps while its flag is raised |
| `StorageServer.StorageApp.GetData` | flipper/storage/storage_processing.c:47-103 | the key of the entry that the path names component by component, or a refusal exactly if that is on no storage |
| `StoragePaths.LocateAgrees` | flipper/storage/storage_processing.c:47-103 | telling the storages apart by the first characters and rewriting "/any" in place agrees with reading the path component by component |
| `StoragePaths.SameKeyExactly` | flipper/storage/storage_processing.c:83-96 | two paths get the same key in the tables if and only if they name the same entry |
| `StorageServer.StorageApp.ProcessFileOpen` | flipper/storage/storage_processing.c:107-132 | refuses a path that its table lists as already open and changes no table; otherwise adds exactly one entry and answers what the file system says; a name on no storage is invalid and changes no table |
| `StorageServer.StorageApp.GetStorageByFile` | flipper/storage/storage_processing.c:30-40 | finds the storage whose table has the file |
| `StorageServer.StorageApp.ProcessFileClose` | flipper/storage/storage_processing.c:134-149 | takes exactly one entry, with the file's id, out of its table and goes on to publish; a held file is always found |
| `StorageServer.StorageApp.Subscribe` | flipper/core/pubsub.c:42-55 | adds the subscription at the end of the list, with the flag down |
| `StorageServer.StorageApp.Unsubscribe` | flipper/core/pubsub.c:57-80 | finds the subscription and removes that one; the client goes on with its file, or idle without one |
| `StorageServer.StorageApp.NotifyNext` | flipper/storage/storage_external_api.c:80-89 | the callback raises the flag of the next subscriber and nothing else changes |
| `StorageServer.StorageApp.Publish` | flipper/core/pubsub.c:82-92 | every subscriber is notified, nothing else changes |
| `Terminals.FeedBackspace` | flipper/cli/cli.c:153-160 | cursor left and delete character remove the character before the cursor |
| `Terminals.FeedInsert` | flipper/cli/cli.c:369-372 | a character between insert mode on and off goes in at the cursor |
| `Terminals.FeedText` | flipper/cli/cli.c:361-364 | text printed at the end of the row is appended |
| `Terminals.FeedPrompt` | flipper/cli/cli.c:139-143 | a prompt shows exactly the prompt and the line on a new row |
| `Terminals.ControlMeans` | flipper/cli/cli.c:153-160 | what the five control functions that the editor sends do to row, cursor and mode |
| `Terminals.CharMeans` | flipper/cli/cli.c:360-374 | a printed character is inserted or replaces the one under the cursor, by the mode |
| `CliEditor.Cli.HandleBackspace` | flipper/cli/cli.c:153-166 | removes the character before the cursor on both sides |
| `CliEditor.Cli.HandlePrintable` | flipper/cli/cli.c:360-374 | inserts the character at the cursor on both sides |
| `CliEditor.Cli.HandleEscape` | flipper/cli/cli.c:305-328 | the cursor keys move both cursors; up brings the last line back on both sides |
| `CliEditor.Cli.HandleEnter` | flipper/cli/cli.c:201-250 | the command is looked up by the first word of the trimmed line, remembered, and a new prompt is shown |
| `CliEditor.TrimMeans` | flipper/cli/cli.c:168-171 | the trimmed line is the stretch of the line that neither begins nor ends with a blank and has only blanks around it |
| `CliEditor.FirstWordMeans` | flipper/cli/cli.c:214-223 | the command is the line up to the first blank |
| `CliEditor.CompletesCut` | flipper/cli/cli.c:268-286 | cutting at the first difference gives the longest common beginning |
| `CliEditor.Cli.HandleAutocomplete` | flipper/cli/cli.c:252-303 | the line becomes the longest text common to all commands that begin with it |
| `CliEditor.Cli.ProcessInput` | flipper/cli/cli.c:330-378 | key by key what becomes of line, cursor and last line, and both sides stay in step except after two keys on a nonempty line |
| `CliEditor.Type` | flipper/cli/cli.c:330-378 | after any sequence of printable characters, backspaces, cursor keys and line ends the line and cursor are what the keys make of them one by one, and the terminal shows them |
| `CliEditor.TypingInserts` | flipper/cli/cli.c:360-374 | typing a text inserts it at the cursor and leaves the cursor behind it |
| `CliEditor.TypingIntoEmpty` | flipper/cli/cli.c:360-374 | typed into a fresh prompt it is the line, with the cursor at its end |
| `CliEditor.BackspacesUndo` | flipper/cli/cli.c:153-166 | as many backspaces restore line and cursor, wherever the cursor was |

## Left out

- The back ends `storage_ext` and `storage_int`: the theorems about trees are over the documented contracts of the storage API. The back ends in the repository differ from it (their mkdir removes a directory, their directory read does not set the error id), so the theorems do not carry over to them as they stand.
- File names longer than the 255-byte buffers of the walk and the remove loop, which would be truncated, and walks of more than 2^32 entries in one directory.
- Paths that are not in their canonical spelling (a doubled or a trailing slash): they name no entry in the model.
- A filter callback with side effects; in the model it is a function of name and info.
- Copying a directory into itself, which `storage_common_copy` does not refuse: whether it ends depends on the order in which a directory shows entries created while it is read. The copy theorems ask for a target outside the source.
- CopyTree.Rename: asks that a directory is not moved into itself under its storage's other name, which its prefix test misses, and that a whole storage is not moved; in both cases the code may not return.
- A card that is not ready: its storage has no entries in the model, where the service answers that it is not ready; "/any" stands for one storage throughout an operation.
- StorageService.Storage.Remove: has no write faults, because the remove loop stops the program on an error it does not expect (flipper/storage/storage_external_api.c:851, 862).
- StorageService.Storage.CopyFile: a contract for the two file streams and `stream_copy_full`, whose buffering is not modelled.
- `storage_common_merge` and `storage_common_migrate`: they combine the walk, the copy and the free-name search once more.
- Reading, writing, seeking and truncating files, timestamps, the SD card operations, aliases for application directories, and paths with "..".
- Painting.Canvas.DrawHVLine: paints one colour; colours, XOR drawing and the rotated pixel buffer behind `draw_l90` are left out.
- EllipseCurves.CurveStep: is over unbounded integers, the inner layer; `EllipseRanges.SameValues` says for which radii the 16-bit values are these.
- EllipseCurves.LoopKeeps: likewise.
- EllipseCurves.LoopEnds: likewise.
- Ellipses.DrawEllipse: for radii whose starting values wrap it says that what the 16-bit loops plot is painted, which is not the whole ellipse, but not which pixels those are.
- RoundedBox.DrawRBox: says nothing of a box with the centres of its left or upper corners outside the display.
- Filled ellipses, frames, arcs and triangles: they repeat the loops modelled here.
- GlyphDecoding.Decoder.DecodeGlyph: foreground and background go to two canvases instead of two colours of one; the baseline offset and the advance of `u8g2_DrawGlyph` are left out.
- GlyphLookup.GetGlyphData: asks for a well-formed font, which is what the pointer arithmetic asks for; reads past the data of a malformed font are not modelled.
- Wall-clock time and scheduling: timeouts are steps that may happen, and the proofs are about safety and wake-ups, not about latency.
- MessageQueues.MessageQueue.Put: messages are values; the byte copy with `msg_size` is left out.
- OpenProtocol.NoCloseIsMissed: file ids are fresh numbers where the code takes addresses of list nodes; only opened files are closed; a client whose storage is unmounted meanwhile is left out. Directories use the same steps (flipper/storage/storage_processing.c:269-301).
- CliEditor.Cli.ProcessInput: the cursor starts at 0; running commands, the text of messages, a disconnecting terminal and lines wider than the screen are left out; what a command prints is taken to be plain text.
- Sound, light and vibration, the window, the build scripts, the record registry and the M*LIB containers.
