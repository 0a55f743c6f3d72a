/**
 * The rows of the image list panel: how they are derived from the backend's
 * image listing, how the filter selects among them, and the name a row stands
 * for when an action needs an image reference.
 */
module ImageRows {
  import opened GoStrings

  /** One entry of the backend's image listing; only the fields the panel reads. */
  datatype BackendImage = BackendImage(id: string, repoTags: seq<string>, created: int, size: int)

  /** One displayed row: ID, REPOSITORY, TAG, CREATED and SIZE columns. */
  datatype Image = Image(id: string, repo: string, tag: string, created: string, size: string)

  /**
   * Helpers of the program whose code is not part of this model, taken as given
   * functions: `common.ParseRepoTag`, `common.ParseDateToString`,
   * `common.ParseSizeToString` and the panel package's `ReadViewBuffer`
   * (here applied to the text held by an input view).
   */
  datatype External = External(
    parseRepoTag: string -> (string, string),
    parseDateToString: int -> string,
    parseSizeToString: int -> string,
    readViewBuffer: string -> string)

  /** The placeholder the backend reports for a missing repository or tag. */
  const NoneLabel := "<none>"

  /** Length of the displayed ID: the slice `ID[7:19]`. */
  const ShortIdLength := 12

  /** An image that yields a row has an ID long enough for the slice `ID[7:19]`. */
  predicate SliceableImage(b: BackendImage)
  {
    b.repoTags == [] || |b.id| >= 19
  }

  /** Every image of the listing is `SliceableImage`. */
  predicate Sliceable(backend: seq<BackendImage>)
    decreases |backend|
  {
    backend == [] || (Sliceable(backend[..|backend| - 1]) && SliceableImage(backend[|backend| - 1]))
  }

  /** `image.ID[7:19]`: drops the `sha256:` prefix and keeps twelve characters. */
  function ShortId(id: string): (r: string)
    requires |id| >= 19
    ensures |r| == ShortIdLength
    ensures forall k :: 0 <= k < ShortIdLength ==> r[k] == id[7 + k]
  {
    id[7..19]
  }

  /** The row built for one repoTag of one backend image. */
  function MakeRow(b: BackendImage, repoTag: string, ext: External): (r: Image)
    requires |b.id| >= 19
    ensures |r.id| == ShortIdLength && forall k :: 0 <= k < ShortIdLength ==> r.id[k] == b.id[7 + k]
    ensures (r.repo, r.tag) == ext.parseRepoTag(repoTag)
    ensures r.created == ext.parseDateToString(b.created) && r.size == ext.parseSizeToString(b.size)
  {
    var (repo, tag) := ext.parseRepoTag(repoTag);
    Image(ShortId(b.id), repo, tag, ext.parseDateToString(b.created), ext.parseSizeToString(b.size))
  }

  /**
   * The filter test: an empty filter keeps everything; otherwise the lower-cased
   * filter must occur in the lower-cased `repo:tag`.
   */
  ghost predicate Keep(filter: string, repo: string, tag: string)
  {
    filter == "" || Occurs(ToLower(filter), ToLower(repo + ":" + tag))
  }

  /** Whether the filter keeps the row built for `repoTag`. */
  ghost predicate KeepTag(filter: string, repoTag: string, ext: External)
  {
    var (repo, tag) := ext.parseRepoTag(repoTag);
    Keep(filter, repo, tag)
  }

  /** The rows of one backend image for the repoTags `tags`, in repoTag order. */
  ghost function TagRows(b: BackendImage, tags: seq<string>, filter: string, ext: External): (r: seq<Image>)
    requires tags == [] || |b.id| >= 19
    ensures |r| <= |tags|
    decreases |tags|
  {
    if tags == [] then []
    else
      var last := tags[|tags| - 1];
      TagRows(b, tags[..|tags| - 1], filter, ext)
        + (if KeepTag(filter, last, ext) then [MakeRow(b, last, ext)] else [])
  }

  /** The rows of the panel for a backend listing: image order, then repoTag order. */
  ghost function Rows(backend: seq<BackendImage>, filter: string, ext: External): (r: seq<Image>)
    requires Sliceable(backend)
    decreases |backend|
  {
    if backend == [] then []
    else
      var n := |backend| - 1;
      Rows(backend[..n], filter, ext) + TagRows(backend[n], backend[n].repoTags, filter, ext)
  }

  /** The rows among `rows` that the filter keeps, in their original order. */
  ghost function KeepRows(filter: string, rows: seq<Image>): (r: seq<Image>)
    ensures |r| <= |rows|
    decreases |rows|
  {
    if rows == [] then []
    else
      var last := rows[|rows| - 1];
      KeepRows(filter, rows[..|rows| - 1]) + (if Keep(filter, last.repo, last.tag) then [last] else [])
  }

  /** Total number of repoTags in a listing. */
  function TagCount(backend: seq<BackendImage>): nat
    decreases |backend|
  {
    if backend == [] then 0 else TagCount(backend[..|backend| - 1]) + |backend[|backend| - 1].repoTags|
  }

  /**
   * The name an action uses for a row: the ID when the repository or the tag is
   * `<none>`, otherwise `repo:tag`.
   */
  function ImageName(img: Image): (r: string)
    ensures r == img.id || r == img.repo + ":" + img.tag
    ensures img.id != "" ==> r != ""
  {
    if img.repo == NoneLabel || img.tag == NoneLabel then img.id else img.repo + ":" + img.tag
  }

  // ---------------------------------------------------------------------------
  // The filter test

  /**
   * The `filter != ""` guard only saves work: the row is kept exactly when the
   * lower-cased filter occurs in the lower-cased `repo:tag`, empty filter included.
   */
  lemma KeepIsSubstring(filter: string, repo: string, tag: string)
    ensures Keep(filter, repo, tag) <==> Occurs(ToLower(filter), ToLower(repo + ":" + tag))
  {
    if filter == "" {
      EmptyOccurs(ToLower(repo + ":" + tag));
    }
  }

  /** The test as the loop writes it: skip when `strings.Index` reports -1. */
  lemma KeepIsIndexTest(filter: string, repo: string, tag: string)
    ensures Keep(filter, repo, tag)
        <==> filter == "" || IndexOf(ToLower(repo + ":" + tag), ToLower(filter)) != -1
  {
  }

  /** The filter is case-insensitive: lower-casing it first changes nothing. */
  lemma KeepIgnoresFilterCase(filter: string, repo: string, tag: string)
    ensures Keep(ToLower(filter), repo, tag) <==> Keep(filter, repo, tag)
  {
    ToLowerIdempotent(filter);
  }

  /** Lower-casing `repo:tag` lower-cases the two parts. */
  lemma ToLowerJoin(repo: string, tag: string)
    ensures ToLower(repo + ":" + tag) == ToLower(repo) + ":" + ToLower(tag)
  {
    ToLowerAppend(repo + ":", tag);
    ToLowerAppend(repo, ":");
    assert ToLower(":") == ":";
  }

  /** The filter is case-insensitive in the row's repository and tag too. */
  lemma KeepIgnoresRowCase(filter: string, repo: string, tag: string)
    ensures Keep(filter, ToLower(repo), ToLower(tag)) <==> Keep(filter, repo, tag)
  {
    ToLowerJoin(repo, tag);
    ToLowerJoin(ToLower(repo), ToLower(tag));
    ToLowerIdempotent(repo);
    ToLowerIdempotent(tag);
  }

  // ---------------------------------------------------------------------------
  // KeepRows is an order-preserving filter

  lemma {:induction false} KeepRowsAppend(filter: string, a: seq<Image>, b: seq<Image>)
    ensures KeepRows(filter, a + b) == KeepRows(filter, a) + KeepRows(filter, b)
    decreases |b|
  {
    if b == [] {
      assert a + b == a;
    } else {
      var n := |b| - 1;
      assert (a + b)[..|a + b| - 1] == a + b[..n];
      assert (a + b)[|a + b| - 1] == b[n];
      KeepRowsAppend(filter, a, b[..n]);
    }
  }

  /** A row survives the filter exactly when it was there and the filter keeps it. */
  lemma {:induction false} KeepRowsMembership(filter: string, rows: seq<Image>, row: Image)
    ensures row in KeepRows(filter, rows) <==> row in rows && Keep(filter, row.repo, row.tag)
    decreases |rows|
  {
    if rows != [] {
      var n := |rows| - 1;
      KeepRowsMembership(filter, rows[..n], row);
      assert rows == rows[..n] + [rows[n]];
    }
  }

  /** An empty filter keeps every row. */
  lemma {:induction false} KeepRowsEmptyFilter(rows: seq<Image>)
    ensures KeepRows("", rows) == rows
    decreases |rows|
  {
    if rows != [] {
      var n := |rows| - 1;
      KeepRowsEmptyFilter(rows[..n]);
      assert rows == rows[..n] + [rows[n]];
    }
  }

  // ---------------------------------------------------------------------------
  // Rows: one row per (image, repoTag), in order; filtering is a subsequence

  lemma {:induction false} SliceablePrefix(backend: seq<BackendImage>, n: nat)
    requires Sliceable(backend) && n <= |backend|
    ensures Sliceable(backend[..n])
    decreases |backend|
  {
    if n < |backend| {
      var m := |backend| - 1;
      SliceablePrefix(backend[..m], n);
      assert backend[..m][..n] == backend[..n];
    } else {
      assert backend[..n] == backend;
    }
  }

  lemma SliceableAt(backend: seq<BackendImage>, k: nat)
    requires Sliceable(backend) && k < |backend|
    ensures SliceableImage(backend[k])
  {
    SliceablePrefix(backend, k + 1);
    assert backend[..k + 1][k] == backend[k];
    assert backend[..k + 1][..k] == backend[..k];
  }

  lemma {:induction false} SliceableSplit(a: seq<BackendImage>, b: seq<BackendImage>)
    requires Sliceable(a + b)
    ensures Sliceable(a) && Sliceable(b)
    decreases |b|
  {
    if b == [] {
      assert a + b == a;
    } else {
      var n := |b| - 1;
      var ab := a + b;
      assert ab[..|ab| - 1] == a + b[..n];
      assert ab[|ab| - 1] == b[n];
      SliceableSplit(a, b[..n]);
    }
  }

  lemma AppendAssoc<T>(x: seq<T>, y: seq<T>, z: seq<T>)
    ensures (x + y) + z == x + (y + z)
  {
  }

  lemma {:induction false} RowsAppend(a: seq<BackendImage>, b: seq<BackendImage>, filter: string, ext: External)
    requires Sliceable(a + b)
    ensures Sliceable(a) && Sliceable(b)
    ensures Rows(a + b, filter, ext) == Rows(a, filter, ext) + Rows(b, filter, ext)
    decreases |b|
  {
    SliceableSplit(a, b);
    if b == [] {
      assert a + b == a;
    } else {
      var n := |b| - 1;
      var ab := a + b;
      assert ab[..|ab| - 1] == a + b[..n];
      assert ab[|ab| - 1] == b[n];
      RowsAppend(a, b[..n], filter, ext);
      AppendAssoc(Rows(a, filter, ext), Rows(b[..n], filter, ext), TagRows(b[n], b[n].repoTags, filter, ext));
    }
  }

  /** Rows of one more repoTag: the rows so far, then the new tag's row if the filter keeps it. */
  lemma TagRowsStep(b: BackendImage, tags: seq<string>, j: nat, filter: string, ext: External)
    requires j < |tags| && |b.id| >= 19
    ensures TagRows(b, tags[..j + 1], filter, ext)
        == TagRows(b, tags[..j], filter, ext) + (if KeepTag(filter, tags[j], ext) then [MakeRow(b, tags[j], ext)] else [])
  {
    assert tags[..j + 1][..j] == tags[..j];
  }

  /** Rows of one more image: the rows so far, then that image's rows. */
  lemma RowsStep(backend: seq<BackendImage>, k: nat, filter: string, ext: External)
    requires Sliceable(backend) && k < |backend|
    ensures Sliceable(backend[..k]) && Sliceable(backend[..k + 1])
    ensures Rows(backend[..k + 1], filter, ext)
        == Rows(backend[..k], filter, ext) + TagRows(backend[k], backend[k].repoTags, filter, ext)
  {
    SliceablePrefix(backend, k);
    SliceablePrefix(backend, k + 1);
    assert backend[..k + 1][..k] == backend[..k];
  }

  /** Every row of one image carries the twelve-character short ID. */
  lemma {:induction false} TagRowsShortIds(b: BackendImage, tags: seq<string>, filter: string, ext: External)
    requires tags == [] || |b.id| >= 19
    ensures forall k :: 0 <= k < |TagRows(b, tags, filter, ext)| ==> |TagRows(b, tags, filter, ext)[k].id| == ShortIdLength
    decreases |tags|
  {
    if tags != [] {
      TagRowsShortIds(b, tags[..|tags| - 1], filter, ext);
    }
  }

  /** Every row of the panel carries the twelve-character short ID. */
  lemma {:induction false} RowsShortIds(backend: seq<BackendImage>, filter: string, ext: External)
    requires Sliceable(backend)
    ensures forall k :: 0 <= k < |Rows(backend, filter, ext)| ==> |Rows(backend, filter, ext)[k].id| == ShortIdLength
    decreases |backend|
  {
    if backend != [] {
      var n := |backend| - 1;
      RowsShortIds(backend[..n], filter, ext);
      TagRowsShortIds(backend[n], backend[n].repoTags, filter, ext);
    }
  }

  /** Without a filter an image yields exactly one row per repoTag, in repoTag order. */
  lemma {:induction false} TagRowsUnfiltered(b: BackendImage, tags: seq<string>, ext: External)
    requires tags == [] || |b.id| >= 19
    ensures |TagRows(b, tags, "", ext)| == |tags|
    ensures forall j :: 0 <= j < |tags| ==> TagRows(b, tags, "", ext)[j] == MakeRow(b, tags[j], ext)
    decreases |tags|
  {
    if tags != [] {
      var n := |tags| - 1;
      TagRowsUnfiltered(b, tags[..n], ext);
    }
  }

  /** Without a filter the listing yields one row per repoTag: an untagged image yields none. */
  lemma {:induction false} RowsUnfilteredCount(backend: seq<BackendImage>, ext: External)
    requires Sliceable(backend)
    ensures |Rows(backend, "", ext)| == TagCount(backend)
    decreases |backend|
  {
    if backend != [] {
      var n := |backend| - 1;
      RowsUnfilteredCount(backend[..n], ext);
      TagRowsUnfiltered(backend[n], backend[n].repoTags, ext);
    }
  }

  /** The rows of a listing around its image `k`: those before, that image's, those after. */
  lemma RowsSplitAt(backend: seq<BackendImage>, k: int, filter: string, ext: External)
    requires Sliceable(backend) && 0 <= k < |backend|
    ensures Sliceable(backend[..k]) && SliceableImage(backend[k]) && Sliceable(backend[k + 1..])
    ensures Rows(backend, filter, ext)
        == (Rows(backend[..k], filter, ext) + TagRows(backend[k], backend[k].repoTags, filter, ext))
           + Rows(backend[k + 1..], filter, ext)
  {
    var pre, mid, post := backend[..k], [backend[k]], backend[k + 1..];
    assert backend == (pre + mid) + post;
    RowsAppend(pre + mid, post, filter, ext);
    RowsAppend(pre, mid, filter, ext);
    SliceableAt(backend, k);
    assert mid[..0] == [];
  }

  /**
   * Without a filter, the row for repoTag `j` of image `k` stands at position
   * `TagCount(backend[..k]) + j`: rows follow image order, then repoTag order.
   */
  lemma RowsUnfilteredAt(backend: seq<BackendImage>, k: int, j: int, ext: External)
    requires Sliceable(backend)
    requires 0 <= k < |backend| && 0 <= j < |backend[k].repoTags|
    ensures TagCount(backend[..k]) + j < |Rows(backend, "", ext)|
    ensures SliceableImage(backend[k])
      && Rows(backend, "", ext)[TagCount(backend[..k]) + j] == MakeRow(backend[k], backend[k].repoTags[j], ext)
  {
    RowsSplitAt(backend, k, "", ext);
    var b := backend[k];
    var x, y, z := Rows(backend[..k], "", ext), TagRows(b, b.repoTags, "", ext), Rows(backend[k + 1..], "", ext);
    RowsUnfilteredCount(backend[..k], ext);
    TagRowsUnfilteredAt(b, b.repoTags, j, ext);
    IndexMiddle(x, y, z, j);
  }

  lemma TagRowsUnfilteredAt(b: BackendImage, tags: seq<string>, j: int, ext: External)
    requires 0 <= j < |tags| && |b.id| >= 19
    ensures |TagRows(b, tags, "", ext)| == |tags| && TagRows(b, tags, "", ext)[j] == MakeRow(b, tags[j], ext)
  {
    TagRowsUnfiltered(b, tags, ext);
  }

  lemma IndexMiddle<T>(x: seq<T>, y: seq<T>, z: seq<T>, j: int)
    requires 0 <= j < |y|
    ensures |x| + j < |(x + y) + z| && ((x + y) + z)[|x| + j] == y[j]
  {
  }

  lemma {:induction false} TagRowsFiltered(b: BackendImage, tags: seq<string>, filter: string, ext: External)
    requires tags == [] || |b.id| >= 19
    ensures TagRows(b, tags, filter, ext) == KeepRows(filter, TagRows(b, tags, "", ext))
    decreases |tags|
  {
    if tags != [] {
      var n := |tags| - 1;
      var last := tags[n];
      TagRowsFiltered(b, tags[..n], filter, ext);
      var row := MakeRow(b, last, ext);
      KeepRowsAppend(filter, TagRows(b, tags[..n], "", ext), [row]);
      assert [row][..0] == [];
    }
  }

  /**
   * Filtering while building keeps exactly the unfiltered rows the filter
   * accepts, in the same relative order.
   */
  lemma {:induction false} RowsFiltered(backend: seq<BackendImage>, filter: string, ext: External)
    requires Sliceable(backend)
    ensures Rows(backend, filter, ext) == KeepRows(filter, Rows(backend, "", ext))
    decreases |backend|
  {
    if backend != [] {
      var n := |backend| - 1;
      RowsFiltered(backend[..n], filter, ext);
      TagRowsFiltered(backend[n], backend[n].repoTags, filter, ext);
      KeepRowsAppend(filter, Rows(backend[..n], "", ext), TagRows(backend[n], backend[n].repoTags, "", ext));
    }
  }

  /** A row is shown under a filter exactly when it is shown unfiltered and the filter accepts it. */
  lemma RowsFilteredMembership(backend: seq<BackendImage>, filter: string, ext: External, row: Image)
    requires Sliceable(backend)
    ensures row in Rows(backend, filter, ext)
        <==> row in Rows(backend, "", ext) && Occurs(ToLower(filter), ToLower(row.repo + ":" + row.tag))
  {
    RowsFiltered(backend, filter, ext);
    KeepRowsMembership(filter, Rows(backend, "", ext), row);
    KeepIsSubstring(filter, row.repo, row.tag);
  }

  // ---------------------------------------------------------------------------
  // ImageName

  /** A `<none>` repository or tag makes the row go by its ID. */
  lemma ImageNameUntagged(img: Image)
    requires img.repo == NoneLabel || img.tag == NoneLabel
    ensures ImageName(img) == img.id
  {
  }

  /** A fully tagged row goes by `repo:tag`. */
  lemma ImageNameTagged(img: Image)
    requires img.repo != NoneLabel && img.tag != NoneLabel
    ensures ImageName(img) == img.repo + ":" + img.tag
  {
  }

  /** A row with a non-empty ID always has a non-empty name. */
  lemma ImageNameNonEmpty(img: Image)
    requires img.id != ""
    ensures ImageName(img) != ""
  {
  }

  // ---------------------------------------------------------------------------
  // The filter example: alpine:latest, ubuntu:20.04, nginx:<none> under "al"

  /** A string without upper-case ASCII letters is its own lower-case form. */
  lemma ToLowerOfLower(s: string)
    requires forall k :: 0 <= k < |s| ==> !('A' <= s[k] <= 'Z')
    ensures ToLower(s) == s
  {
  }

  /** A filter whose first character is absent from `repo:tag` drops the row. */
  lemma DroppedWithoutFirstChar(filter: string, repo: string, tag: string)
    requires filter != "" && forall k :: 0 <= k < |filter| ==> !('A' <= filter[k] <= 'Z')
    requires forall k :: 0 <= k < |repo + ":" + tag| ==> !('A' <= (repo + ":" + tag)[k] <= 'Z')
    requires filter[0] !in repo + ":" + tag
    ensures !Keep(filter, repo, tag)
  {
    ToLowerOfLower(filter);
    ToLowerOfLower(repo + ":" + tag);
    if Occurs(filter, repo + ":" + tag) {
      OccursFirstChar(filter, repo + ":" + tag);
    }
  }

  lemma AlpineKept()
    ensures Keep("al", "alpine", "latest") && Keep("AL", "alpine", "latest")
  {
    var name := "alpine" + ":" + "latest";
    assert name == "alpine:latest";
    ToLowerOfLower(name);
    ToLowerOfLower("al");
    assert ToLower("AL") == "al";
    assert MatchAt(ToLower(name), ToLower("al"), 0);
    assert Occurs(ToLower("al"), ToLower(name));
    assert Occurs(ToLower("AL"), ToLower(name));
  }

  lemma OthersDropped()
    ensures !Keep("al", "ubuntu", "20.04") && !Keep("al", "nginx", NoneLabel)
  {
    var u := "ubuntu" + ":" + "20.04";
    assert u == "ubuntu:20.04";
    DroppedWithoutFirstChar("al", "ubuntu", "20.04");
    var x := "nginx" + ":" + NoneLabel;
    assert x == "nginx:<none>";
    DroppedWithoutFirstChar("al", "nginx", NoneLabel);
  }

  lemma FilterExample()
    ensures
      var alpine := Image("0123456789ab", "alpine", "latest", "", "");
      var ubuntu := Image("0123456789ac", "ubuntu", "20.04", "", "");
      var nginx := Image("0123456789ad", "nginx", NoneLabel, "", "");
      KeepRows("al", [alpine, ubuntu, nginx]) == [alpine]
        && KeepRows("", [alpine, ubuntu, nginx]) == [alpine, ubuntu, nginx]
  {
    var alpine := Image("0123456789ab", "alpine", "latest", "", "");
    var ubuntu := Image("0123456789ac", "ubuntu", "20.04", "", "");
    var nginx := Image("0123456789ad", "nginx", NoneLabel, "", "");
    var rows := [alpine, ubuntu, nginx];
    AlpineKept();
    OthersDropped();
    assert KeepRows("al", [alpine]) == [alpine] by {
      assert [alpine][..0] == [];
    }
    assert KeepRows("al", [alpine, ubuntu]) == [alpine] by {
      assert [alpine, ubuntu][..1] == [alpine];
    }
    assert rows[..2] == [alpine, ubuntu];
    KeepRowsEmptyFilter(rows);
  }
}
