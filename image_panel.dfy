/**
 * The image list panel as an object: its rows, its filter text and the cursor
 * and origin of its list view, with the operations that rebuild the rows,
 * edit the filter and read the selection.
 */
module ImagePanel {
  import opened GoStrings
  import opened ImageRows

  /** The selection error: no row under the cursor. */
  datatype Error = NoImage

  datatype Result<T> = Ok(value: T) | Err(error: Error)

  /** What an action opens on top of the panel. */
  datatype Overlay =
    | ErrorMessage(error: Error)
    | ConfirmMessage(question: string)
    | CreateForm(imageText: string)

  const RemoveDanglingQuestion := "Are you sure you want to remove dangling images?"

  /** The terminal key codes the filter editor tells apart; every other key is `OtherKey`. */
  datatype Key = KeySpace | KeyBackspace | KeyBackspace2 | KeyArrowLeft | KeyArrowRight | OtherKey(code: int)

  /** The effect of a keystroke on the filter input, chosen in the order the editor tests its cases. */
  datatype EditAction = Write(c: char) | Delete | MoveLeft | MoveRight | NoEdit

  /**
   * The editor's case analysis: a character typed without modifier is written,
   * space writes a blank, either backspace deletes, the arrows move, and any
   * other key edits nothing.
   */
  function Classify(key: Key, ch: char, mod: int): (r: EditAction)
    ensures ch != '\0' && mod == 0 ==> r == Write(ch)
    ensures r.Write? ==> r.c == ch || (key == KeySpace && r.c == ' ')
    ensures r == Delete ==> key == KeyBackspace || key == KeyBackspace2
    ensures MovesOnly(r) <==> !(ch != '\0' && mod == 0) && (key == KeyArrowLeft || key == KeyArrowRight)
    ensures r == NoEdit ==> key.OtherKey? && !(ch != '\0' && mod == 0)
  {
    if ch != '\0' && mod == 0 then Write(ch)
    else if key == KeySpace then Write(' ')
    else if key == KeyBackspace || key == KeyBackspace2 then Delete
    else if key == KeyArrowLeft then MoveLeft
    else if key == KeyArrowRight then MoveRight
    else NoEdit
  }

  /** Arrow keys only move the cursor; every other keystroke re-reads the filter. */
  predicate MovesOnly(a: EditAction)
  {
    a == MoveLeft || a == MoveRight
  }

  /** The one-line text field the filter is typed into, with its cursor. */
  class InputView {
    var text: string
    var cursor: nat

    ghost predicate Valid()
      reads this
    {
      cursor <= |text|
    }

    constructor (text: string)
      ensures Valid() && this.text == text && cursor == 0
    {
      this.text := text;
      cursor := 0;
    }

    /** Inserts `c` at the cursor and moves past it. */
    method EditWrite(c: char)
      requires Valid()
      modifies this
      ensures Valid()
      ensures text == old(text[..cursor]) + [c] + old(text[cursor..]) && cursor == old(cursor) + 1
    {
      text := text[..cursor] + [c] + text[cursor..];
      cursor := cursor + 1;
    }

    /** Backspace: removes the character before the cursor, if any. */
    method EditDelete()
      requires Valid()
      modifies this
      ensures Valid()
      ensures old(cursor) == 0 ==> text == old(text) && cursor == 0
      ensures old(cursor) > 0 ==>
        text == old(text[..cursor - 1]) + old(text[cursor..]) && cursor == old(cursor) - 1
    {
      if cursor > 0 {
        text := text[..cursor - 1] + text[cursor..];
        cursor := cursor - 1;
      }
    }

    /** Moves the cursor by `dx`, staying within the text. */
    method MoveCursor(dx: int)
      requires Valid()
      modifies this
      ensures Valid() && text == old(text)
      ensures cursor == if old(cursor) + dx < 0 then 0 else if old(cursor) + dx > |text| then |text| else old(cursor) + dx
    {
      var c := cursor + dx;
      cursor := if c < 0 then 0 else if c > |text| then |text| else c;
    }
  }

  /** The image list panel. */
  class ImageList {
    const ext: External
    var images: seq<Image>
    var filter: string
    // cursor and origin of the panel's list view
    var cursorX: nat
    var cursorY: nat
    var originX: nat
    var originY: nat

    /** Every row carries the twelve-character short ID. */
    ghost predicate Valid()
      reads this
    {
      forall k :: 0 <= k < |images| ==> |images[k].id| == ShortIdLength
    }

    constructor (ext: External)
      ensures Valid() && this.ext == ext
      ensures images == [] && filter == ""
      ensures cursorX == 0 && cursorY == 0 && originX == 0 && originY == 0
    {
      this.ext := ext;
      images := [];
      filter := "";
      cursorX, cursorY, originX, originY := 0, 0, 0, 0;
    }

    /**
     * Rebuilds the rows from the backend listing: first emptied, then one row
     * appended per repoTag the filter keeps, in listing order.
     */
    method GetImageList(backend: seq<BackendImage>)
      requires Sliceable(backend)
      modifies this`images
      ensures images == Rows(backend, filter, ext)
      ensures Valid()
    {
      images := [];
      for k := 0 to |backend|
        invariant Sliceable(backend[..k])
        invariant images == Rows(backend[..k], filter, ext)
      {
        SliceableAt(backend, k);
        AppendImageRows(backend[k]);
        RowsStep(backend, k, filter, ext);
      }
      assert backend[..|backend|] == backend;
      RowsShortIds(backend, filter, ext);
    }

    /** The inner loop of the rebuild: appends the kept rows of one backend image. */
    method AppendImageRows(image: BackendImage)
      requires SliceableImage(image)
      modifies this`images
      ensures images == old(images) + TagRows(image, image.repoTags, filter, ext)
    {
      for j := 0 to |image.repoTags|
        invariant images == old(images) + TagRows(image, image.repoTags[..j], filter, ext)
      {
        var repoTag := image.repoTags[j];
        var (repo, tag) := ext.parseRepoTag(repoTag);
        TagRowsStep(image, image.repoTags, j, filter, ext);
        KeepIsIndexTest(filter, repo, tag);
        if filter != "" {
          var fullName := repo + ":" + tag;
          if IndexOf(ToLower(fullName), ToLower(filter)) == -1 {
            continue;
          }
        }
        var id := ShortId(image.id);
        var created := ext.parseDateToString(image.created);
        var size := ext.parseSizeToString(image.size);
        images := images + [Image(id, repo, tag, created, size)];
      }
      assert image.repoTags[..|image.repoTags|] == image.repoTags;
    }

    /**
     * One keystroke in the filter input `v`. The arrows only move the input's
     * cursor; every other key, one that edits nothing included, stores the
     * input's text as the filter and, when the list view is found, rebuilds the
     * rows.
     */
    method Edit(v: InputView, key: Key, ch: char, mod: int, backend: seq<BackendImage>, listViewFound: bool)
      requires Valid() && v.Valid() && Sliceable(backend)
      modifies this`filter, this`images, v
      ensures Valid() && v.Valid()
      ensures MovesOnly(Classify(key, ch, mod)) ==>
        filter == old(filter) && images == old(images) && v.text == old(v.text)
      ensures !MovesOnly(Classify(key, ch, mod)) ==>
        filter == ext.readViewBuffer(v.text)
        && images == if listViewFound then Rows(backend, filter, ext) else old(images)
      ensures Classify(key, ch, mod) == MoveLeft ==>
        v.cursor == if old(v.cursor) == 0 then 0 else old(v.cursor) - 1
      ensures Classify(key, ch, mod) == MoveRight ==>
        v.cursor == if old(v.cursor) == |v.text| then |v.text| else old(v.cursor) + 1
      ensures Classify(key, ch, mod).Write? ==>
        v.text == old(v.text[..v.cursor]) + [Classify(key, ch, mod).c] + old(v.text[v.cursor..])
        && v.cursor == old(v.cursor) + 1
      ensures Classify(key, ch, mod) == Delete ==>
        if old(v.cursor) == 0 then v.text == old(v.text) && v.cursor == 0
        else v.text == old(v.text[..v.cursor - 1]) + old(v.text[v.cursor..]) && v.cursor == old(v.cursor) - 1
      ensures Classify(key, ch, mod) == NoEdit ==> v.text == old(v.text) && v.cursor == old(v.cursor)
    {
      if ch != '\0' && mod == 0 {
        v.EditWrite(ch);
      } else if key == KeySpace {
        v.EditWrite(' ');
      } else if key == KeyBackspace || key == KeyBackspace2 {
        v.EditDelete();
      } else if key == KeyArrowLeft {
        v.MoveCursor(-1);
        return;
      } else if key == KeyArrowRight {
        v.MoveCursor(1);
        return;
      }

      filter := ext.readViewBuffer(v.text);

      if listViewFound {
        GetImageList(backend);
      }
    }

    /**
     * Closing the filter input `v`. The reset path clears the filter and leaves
     * the list cursor alone; the commit path puts the list cursor at (0,0) and
     * stores the input's text as the filter. Either way the rows are rebuilt
     * once, when the list view is found.
     */
    method CloseFilterPanel(v: InputView, isReset: bool, backend: seq<BackendImage>, listViewFound: bool)
      requires Valid() && Sliceable(backend)
      modifies this`filter, this`images, this`cursorX, this`cursorY
      ensures Valid()
      ensures isReset ==> filter == "" && cursorX == old(cursorX) && cursorY == old(cursorY)
      ensures !isReset ==> filter == ext.readViewBuffer(v.text) && cursorX == 0 && cursorY == 0
      ensures images == if listViewFound then Rows(backend, filter, ext) else old(images)
    {
      if isReset {
        filter := "";
      } else {
        cursorX, cursorY := 0, 0;
        filter := ext.readViewBuffer(v.text);
      }
      if listViewFound {
        GetImageList(backend);
      }
    }

    /** The reset binding of the filter input: close with the filter cleared, so every row is back. */
    method ResetFilterPanel(v: InputView, backend: seq<BackendImage>, listViewFound: bool)
      requires Valid() && Sliceable(backend)
      modifies this`filter, this`images, this`cursorX, this`cursorY
      ensures Valid()
      ensures filter == "" && cursorX == old(cursorX) && cursorY == old(cursorY)
      ensures listViewFound ==> images == Rows(backend, "", ext) && |images| == TagCount(backend)
      ensures !listViewFound ==> images == old(images)
    {
      CloseFilterPanel(v, true, backend, listViewFound);
      if listViewFound {
        RowsUnfilteredCount(backend, ext);
      }
    }

    /** The row under the list cursor: at origin plus cursor, or `NoImage` past the last row. */
    method Selected() returns (r: Result<Image>)
      ensures r.Err? <==> originY + cursorY >= |images|
      ensures r.Err? ==> r.error == NoImage
      ensures r.Ok? ==> r.value == images[originY + cursorY]
    {
      var index := originY + cursorY;
      var length := |images|;
      if index >= length {
        return Err(NoImage);
      }
      return Ok(images[index]);
    }

    /** The name of the selected row, or the selection error unchanged. */
    method GetImageName() returns (r: Result<string>)
      ensures r.Err? <==> originY + cursorY >= |images|
      ensures r.Err? ==> r.error == NoImage
      ensures r.Ok? ==> r.value == ImageName(images[originY + cursorY])
      ensures r.Ok? && Valid() ==> r.value != ""
    {
      var image := Selected();
      if image.Err? {
        return Err(image.error);
      }
      assert Valid() ==> ImageName(image.value) != "" by {
        if Valid() {
          assert |images[originY + cursorY].id| == ShortIdLength;
          ImageNameNonEmpty(image.value);
        }
      }
      return Ok(ImageName(image.value));
    }

    /**
     * Opening the create-container form: the selection error is shown instead
     * of the form; otherwise the form opens with Image set to the selected
     * row's name, which is never empty (so the Image validator accepts it).
     */
    method CreateContainerPanel() returns (r: Overlay)
      requires Valid()
      ensures r.ErrorMessage? || r.CreateForm?
      ensures r.ErrorMessage? <==> originY + cursorY >= |images|
      ensures r.ErrorMessage? ==> r.error == NoImage
      ensures r.CreateForm? ==> r.imageText == ImageName(images[originY + cursorY])
      ensures r.CreateForm? ==> r.imageText != ""
    {
      var name := GetImageName();
      if name.Err? {
        return ErrorMessage(name.error);
      }
      return CreateForm(name.value);
    }

    /**
     * The guard before removing dangling images: with no rows the `NoImage`
     * error is shown and no confirmation opens.
     */
    method RemoveDanglingImages() returns (r: Overlay)
      ensures r == ErrorMessage(NoImage) <==> |images| == 0
      ensures r != ErrorMessage(NoImage) ==> r == ConfirmMessage(RemoveDanglingQuestion)
    {
      if |images| == 0 {
        return ErrorMessage(NoImage);
      }
      return ConfirmMessage(RemoveDanglingQuestion);
    }
  }
}
