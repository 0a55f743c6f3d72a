# docui image list panel: rows, filter and selection

This project is a Dafny model of the row and selection logic of docui's image
list panel (`panel/imagePanel.go`). docui is a terminal control panel for a
container backend. The model covers the following:

- **Row derivation.** `GetImageList` empties the panel's rows and rebuilds them
  from the backend's image listing. It makes one row per `(image, repoTag)`
  pair. When the filter text is set, it keeps a row only if the lower-cased
  filter occurs in the lower-cased `repo:tag`.
- **Selection.** The selected row is the one at list origin + list cursor. Past
  the last row, selection yields the `NoImage` error. An action refers to a row
  by its ID when the repository or the tag is `<none>`, and by `repo:tag`
  otherwise.
- **Pull reference.** The text typed into the pull form is split at its first
  colon. With no colon, the tag is `latest`.
- **Create-container validators.** HostPort and Port must be given together.
  HostVolume and Volume must be given together. Image is required.
- **Filter input.** Arrow keys only move the input's cursor. Every other key
  sets the filter to what `ReadViewBuffer` returns for the input's text. When
  the list view is found, it also rebuilds the rows. Closing the input either
  resets (clears the filter) or commits (sets the filter from the input's text
  and moves the list cursor to (0,0)). Both paths then rebuild the rows once,
  when the list view is found.
- **Remove dangling images.** With no rows, an error is shown and no
  confirmation opens.

Files and modules:

- `go_strings.dfy`, module `GoStrings`: models of the Go library calls used.
  These are `strings.ToLower` (ASCII letters only), `strings.Index` with its
  first-occurrence contract, and `strings.SplitN(s, sep, 2)`.
- `image_rows.dfy`, module `ImageRows`: the backend record, the row record and
  `ImageName`. It also holds the specification functions `Rows`, `TagRows` and
  `KeepRows`, and the lemmas about them.
- `pull_ref.dfy`, module `PullRef`: the split of the pull reference and its
  round trip with `ImageName`.
- `create_form.dfy`, module `CreateContainerForm`: the validator closures as
  predicates over a map from field name to text.
- `image_panel.dfy`, module `ImagePanel`: two classes.
  - `ImageList` holds the fields `images`, `filter` and the list view's
    cursor and origin. Its methods are `GetImageList`, `Edit`,
    `CloseFilterPanel`, `ResetFilterPanel`, `Selected`, `GetImageName`,
    `CreateContainerPanel` and `RemoveDanglingImages`.
  - `InputView` is the one-line text field the filter is typed into.

Some things are parameters rather than part of the model:

- The backend's image listing is a parameter `backend` of every operation that
  rebuilds the rows. It stands for the backend call made at that moment.
- Four helpers whose code is not part of this model are fields of the datatype
  `External`, taken as given functions:
  - `common.ParseRepoTag`
  - `common.ParseDateToString`
  - `common.ParseSizeToString`
  - `ReadViewBuffer`
- In `Edit` and the filter close, the lookup of the panel's list view can fail.
  This is the boolean `listViewFound`.

Some behaviour of the code is worth spelling out:

- Committing the filter calls `SetCursor(0, 0)` on the list view. This resets
  the cursor but not the origin. After a commit, the selection is therefore the
  row at the list origin, which is not necessarily the first row.
  `CloseFilterPanel` states exactly this.
- `Form.Validate` and the order it runs the validators in are not modelled.
  `AllHoldCharacterised` describes when all of them pass, which does not depend
  on that order.
- The pull reference is split at its first colon, so a registry host with a
  port is split at the port: `localhost:5000/app:v1` is pulled as name
  `localhost` with tag `5000/app:v1` (`PullRefRegistryPort`).

## Model

| member | source | states |
|---|---|---|
| `GoStrings.ToLower` | panel/imagePanel.go:646 | The result has the same length as the input, and each character goes through the ASCII lower-case map. |
| `GoStrings.IndexOf` | panel/imagePanel.go:646 | The result is -1 exactly when the needle does not occur. Otherwise it is a position where the needle occurs, with no earlier occurrence. |
| `GoStrings.SplitN2` | panel/imagePanel.go:350 | With no separator, the result is the one-element list `[s]`. Otherwise it is two parts that join back to `s` around the first separator. |
| `ImageRows.ShortId` | panel/imagePanel.go:651 | The displayed ID is the twelve characters at positions 7 to 18 of the backend ID. |
| `ImageRows.RowsShortIds` | panel/imagePanel.go:651 | Every derived row carries a twelve-character ID. |
| `ImageRows.MakeRow` | panel/imagePanel.go:651-661 | A row's ID is the twelve characters at positions 7 to 18 of the backend ID. Its repository and tag are `ParseRepoTag` of the repoTag. Its created and size fields are the date and size helpers applied to the backend image. |
| `ImageRows.KeepIsSubstring` | panel/imagePanel.go:644-649 | A row is kept exactly when lower(filter) occurs in lower(repo:tag). The `filter != ""` guard changes nothing, because the empty filter occurs everywhere. |
| `ImageRows.KeepIsIndexTest` | panel/imagePanel.go:644-649 | The kept test is the code's own test: empty filter, or `strings.Index` is not -1. |
| `ImageRows.KeepIgnoresFilterCase` | panel/imagePanel.go:646 | Lower-casing the filter first keeps the same rows. |
| `ImageRows.KeepIgnoresRowCase` | panel/imagePanel.go:645-646 | Lower-casing the row's repository and tag keeps the same rows. |
| `ImageRows.KeepRowsMembership` | panel/imagePanel.go:644-649 | A row survives filtering exactly when it was present and the filter accepts it (both directions). |
| `ImageRows.KeepRowsEmptyFilter` | panel/imagePanel.go:644 | An empty filter keeps every row, in order. |
| `ImageRows.RowsAppend` | panel/imagePanel.go:640-667 | The rows of two listings placed one after the other are the first listing's rows followed by the second's. |
| `ImageRows.RowsSplitAt` | panel/imagePanel.go:640-667 | The rows are those of the images before image k, then image k's rows, then those of the images after it. |
| `ImageRows.TagRowsUnfiltered` | panel/imagePanel.go:641-663 | With no filter, an image yields exactly one row per repoTag, in repoTag order. |
| `ImageRows.RowsUnfilteredCount` | panel/imagePanel.go:636-667 | With no filter, the number of rows is the total number of repoTags. An image with no repoTags contributes none. |
| `ImageRows.RowsUnfilteredAt` | panel/imagePanel.go:640-663 | With no filter, the row for repoTag j of image k is at position (number of repoTags before image k) + j. |
| `ImageRows.TagRowsFiltered` | panel/imagePanel.go:641-649 | One image's filtered rows are its unfiltered rows with the rejected ones removed. |
| `ImageRows.RowsFiltered` | panel/imagePanel.go:644-649 | Filtering while building gives the unfiltered rows with the rejected ones dropped. The kept rows stay in the same relative order. |
| `ImageRows.RowsFilteredMembership` | panel/imagePanel.go:644-649 | A row is present under a filter exactly when it is present unfiltered and lower(filter) occurs in lower(repo:tag). |
| `ImageRows.FilterExample` | panel/imagePanel.go:644-649 | Rows alpine:latest, ubuntu:20.04 and nginx:&lt;none&gt;: the filter "al" keeps only alpine:latest, and the empty filter keeps all three. |
| `ImageRows.ImageName` | panel/imagePanel.go:676-681 | The name is either the row's ID or its `repo:tag`. It is non-empty whenever the ID is. |
| `ImageRows.ImageNameUntagged` | panel/imagePanel.go:677-678 | A `<none>` repository or tag makes the name the row's ID. |
| `ImageRows.ImageNameTagged` | panel/imagePanel.go:679-681 | Otherwise the name is `repo:tag`. |
| `ImageRows.ImageNameNonEmpty` | panel/imagePanel.go:676-681 | A row with a non-empty ID has a non-empty name. |
| `PullRef.ParsePullRef` | panel/imagePanel.go:350-359 | Without a colon, the result is (text, "latest"). Otherwise the name has no colon, and name + ":" + tag is the text. |
| `PullRef.JoinThenParse` | panel/imagePanel.go:350-359 | Splitting name:tag gives back (name, tag) when the name has no colon. The tag may be empty or contain colons. |
| `PullRef.ParseThenJoin` | panel/imagePanel.go:350-359 | Splitting text that contains a colon, then joining the parts, gives back the text. |
| `PullRef.ImageNameParses` | panel/imagePanel.go:676-681 | Splitting the name of a fully tagged row gives back its repository and tag, when the repository has no colon. |
| `PullRef.PullRefWithoutTag` | panel/imagePanel.go:355-356 | "alpine" is pulled as alpine:latest. |
| `PullRef.PullRefWithTag` | panel/imagePanel.go:357-358 | "alpine:3.18" is pulled as alpine:3.18. |
| `PullRef.PullRefEmptyTag` | panel/imagePanel.go:350-358 | "alpine:" is pulled with an empty tag. |
| `PullRef.PullRefColonInTag` | panel/imagePanel.go:350 | "a:b:c" is pulled as name a, tag b:c. |
| `PullRef.PullRefRegistryPort` | panel/imagePanel.go:350-358 | "localhost:5000/app:v1" is pulled as name localhost, tag 5000/app:v1: the split falls at the registry port's colon. |
| `CreateContainerForm.Passes` | panel/imagePanel.go:220-262 | A validator always accepts a non-empty value for its own field. When a port or volume validator fails, some other field of the form is filled in. |
| `CreateContainerForm.PortsPaired` | panel/imagePanel.go:220-236 | The HostPort and Port validators both pass exactly when both fields are empty or both are given. |
| `CreateContainerForm.VolumesPaired` | panel/imagePanel.go:241-256 | The HostVolume and Volume validators both pass exactly when both fields are empty or both are given. |
| `CreateContainerForm.ImageRequired` | panel/imagePanel.go:258-262 | The Image validator passes exactly when Image is non-empty. |
| `CreateContainerForm.AllHoldCharacterised` | panel/imagePanel.go:220-262 | All the form's validators pass exactly when both pairs match up and Image is given. |
| `CreateContainerForm.PortExample` | panel/imagePanel.go:220-236 | Port 8080 with no HostPort fails with "no specified HostPort". With both empty, every validator passes. |
| `ImagePanel.Classify` | panel/imagePanel.go:53-66 | A character typed without modifier is written, whatever the key. Otherwise space writes a blank and either backspace deletes. An arrow counts as a move exactly when no plain character was typed. Edits nothing only for a key outside these cases. |
| `ImagePanel.InputView.EditWrite` | panel/imagePanel.go:54-57 | A written character is inserted at the cursor, and the cursor moves past it. |
| `ImagePanel.InputView.EditDelete` | panel/imagePanel.go:58-59 | Backspace removes the character before the cursor, if there is one. |
| `ImagePanel.InputView.MoveCursor` | panel/imagePanel.go:60-65 | The text is unchanged. The cursor moves by dx, limited to the text. |
| `ImagePanel.ImageList.constructor` | panel/imagePanel.go:37-46 | A new panel has no rows and an empty filter. Its cursor and origin are 0, as `SetView` sets them at panel/imagePanel.go:100-101. |
| `ImagePanel.ImageList.GetImageList` | panel/imagePanel.go:636-668 | The new rows are `Rows(backend, filter)`, so every property of `Rows` above holds of them. Every row has a twelve-character ID. |
| `ImagePanel.ImageList.AppendImageRows` | panel/imagePanel.go:641-666 | The inner loop appends exactly the kept rows of one image, in repoTag order. |
| `ImagePanel.ImageList.Edit` | panel/imagePanel.go:52-73 | Arrow keys only move the input's cursor; filter, rows and text stay the same. Every other key, including one that matches no case, edits the text as stated. It then sets the filter to the input's text and rebuilds the rows when the list view is found. Every row keeps its twelve-character ID. |
| `ImagePanel.ImageList.CloseFilterPanel` | panel/imagePanel.go:727-745 | Reset sets the filter to "" and leaves the list cursor alone. Commit sets the list cursor to (0,0) and the filter to the input's text. Both then rebuild the rows from the new filter. Every row keeps its twelve-character ID. |
| `ImagePanel.ImageList.ResetFilterPanel` | panel/imagePanel.go:747-750 | After a reset the filter is empty and every row is back: one per repoTag. |
| `ImagePanel.ImageList.Selected` | panel/imagePanel.go:176-189 | The result is `NoImage` exactly when origin + cursor >= the number of rows. Otherwise it is the row at origin + cursor. |
| `ImagePanel.ImageList.GetImageName` | panel/imagePanel.go:670-684 | The selection error is passed through unchanged. Otherwise the result is `ImageName` of the selected row, which is never empty. |
| `ImagePanel.ImageList.CreateContainerPanel` | panel/imagePanel.go:191-262 | With no selection, the `NoImage` error is shown. Otherwise the form opens with Image set to the selected row's name. That name is non-empty, so the Image validator accepts it. |
| `ImagePanel.ImageList.RemoveDanglingImages` | panel/imagePanel.go:706-723 | With no rows, the result is the `NoImage` error and no confirmation opens. Otherwise the confirmation question is asked. |

## Left out

- `panel/task.go` has nothing to model: `Refresh` does nothing and `Edit` only forwards keys to the view.
- The 5-second refresh goroutine, `Refresh`'s `g.Update` scheduling, and the nested `g.Update` callbacks in `CreateContainer`, `SaveImage`, `ImportImage` and `LoadImage` are left out, because they are concurrency and UI scheduling.
- Every Docker client call is left out because it is external I/O. This covers pull, inspect, create, save, import, load, remove and remove-dangling, as well as the confirm callbacks that make these calls. The file opening in `SaveImage` is left out for the same reason.
- Terminal layout is left out: `SetView`, the form geometry, key-binding registration, `DetailImage`'s JSON popup and `SearchImagePanel`.
- The panel's `form` and `Data` fields are left out, and so is the construction of the pull, save, import and load forms. These are library glue with no logic of their own.
- `RemoveImage` and `SaveImagePanel` are not modelled separately. They guard on `GetImageName` exactly as `CreateContainerPanel` does.
- Rendering is not modelled: `v.Clear()`, `OutputFormatedLine` and the header line.
- Four helpers are external: `common.ParseRepoTag`, `common.ParseDateToString`, `common.ParseSizeToString` and `ReadViewBuffer`. Their code is not part of this model. They are given functions in `External`, and nothing is assumed about their results.
- `Form.Validate`, `Require`, `GetFieldText` and the form's close and teardown are not part of this model. The validators read the fields from a map that holds every validated field.
- The panic branches on view-lookup failure are left out:
  - `Refresh`'s panic.
  - `DeleteView`'s panic when the filter closes.
  - `selected` discards the error of its view lookup; the model assumes the list view exists.
  - The later `DeleteKeybindings` and `SwitchPanel` steps.
- `GoStrings.ToLower`: only ASCII letters are mapped. Go's `strings.ToLower` maps all of Unicode.
- `ImagePanel.InputView.MoveCursor`: a single-line approximation of gocui's editor. The cursor stays within the text, and moves across lines and the origin are not modelled. `EditWrite` and `EditDelete` are single-line approximations in the same way.
- `ImagePanel.ImageList.GetImageList`: requires every backend image that has a repoTag to have an ID of at least 19 characters, even when the filter would skip all of that image's rows, which is stronger than the source needs. The source would not slice such an ID in that case. Backend IDs (`sha256:` plus 64 hex digits) always pass. `Edit`, `CloseFilterPanel` and `ResetFilterPanel` have the same requirement.
- Cursor and origin are natural numbers. gocui never makes them negative for this view.
