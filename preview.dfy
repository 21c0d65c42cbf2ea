/**
 * The preview half of a sharable dataset: which frames keep their content
 * (`set_preview_frames` inside `share_dataset`), and the media listing
 * `get_media` that blanks the id and url of every other frame.
 */
module Preview {
  import opened Documents

  /** `math.ceil(0.05 * n)`, the number of preview frames for n frames. */
  function PreviewCount(n: nat): (c: nat)
    ensures n <= 20 * c
    ensures c > 0 ==> 20 * (c - 1) < n
  {
    (n + 19) / 20
  }

  /**
   * `linspace(0, n - 1, count, dtype=int)`: `count` points evenly spaced from
   * 0 to n - 1, each rounded down.
   */
  function PreviewFrames(n: nat): seq<int> {
    var c := PreviewCount(n);
    if c == 0 then []
    else if c == 1 then [0]
    else seq(c, i requires 0 <= i < c => i * (n - 1) / (c - 1))
  }

  /** Multiplying by a positive number is strictly monotone. */
  lemma MulCancel(d: int, a: int, b: int)
    requires d > 0 && d * a < d * b
    ensures a < b
  {
  }

  /** Euclidean division is determined by quotient and remainder. */
  lemma DivByParts(x: int, d: int, q: int, r: int)
    requires d > 0 && 0 <= r < d && x == d * q + r
    ensures x / d == q
  {
    var q', r' := x / d, x % d;
    assert x == d * q' + r' && 0 <= r' < d;
    assert d * q' < d * (q + 1);
    MulCancel(d, q', q + 1);
    assert d * q < d * (q' + 1);
    MulCancel(d, q, q' + 1);
  }

  /** Adding the divisor adds one to the quotient. */
  lemma DivAddDivisor(x: int, d: int)
    requires d > 0 && x >= 0
    ensures (x + d) / d == x / d + 1
  {
    DivByParts(x + d, d, x / d + 1, x % d);
  }

  /** Rounding down keeps order. */
  lemma DivMonotone(x: int, y: int, d: int)
    requires d > 0 && 0 <= x <= y
    ensures x / d <= y / d
  {
    var qx, qy := x / d, y / d;
    assert d * qx <= x && y < d * qy + d;
    assert d * qx < d * (qy + 1);
    MulCancel(d, qx, qy + 1);
  }

  /** Consecutive points at least one apart round down to distinct values. */
  lemma StepIncreases(j: nat, k: nat, m: nat, d: nat)
    requires 0 < d <= m && j < k
    ensures j * m / d < k * m / d
  {
    assert k * m >= (j + 1) * m == j * m + m >= j * m + d;
    DivMonotone(j * m + d, k * m, d);
    DivAddDivisor(j * m, d);
  }

  /** A point between 0 and d * m / d lies in [0, m]. */
  lemma StepInRange(k: nat, m: nat, d: nat)
    requires 0 < d && k <= d
    ensures 0 <= k * m / d <= m
    ensures k == d ==> k * m / d == m
  {
    assert k * m <= d * m;
    DivMonotone(0, k * m, d);
    DivMonotone(k * m, d * m, d);
    DivByParts(d * m, d, m, 0);
  }

  /**
   * The preview selection for n frames: ceil(n / 20) entries, strictly
   * increasing, all in [0, n - 1], starting at 0 and, with two or more
   * entries, ending at n - 1; empty exactly when there are no frames.
   */
  lemma {:induction false} PreviewFramesShape(n: nat)
    ensures |PreviewFrames(n)| == PreviewCount(n)
    ensures PreviewFrames(n) == [] <==> n == 0
    ensures n >= 1 ==> PreviewFrames(n)[0] == 0
    ensures |PreviewFrames(n)| >= 2 ==> PreviewFrames(n)[|PreviewFrames(n)| - 1] == n - 1
    ensures forall k :: 0 <= k < |PreviewFrames(n)| ==> 0 <= PreviewFrames(n)[k] < n
    ensures forall j, k :: 0 <= j < k < |PreviewFrames(n)| ==> PreviewFrames(n)[j] < PreviewFrames(n)[k]
  {
    var c := PreviewCount(n);
    var r := PreviewFrames(n);
    if c >= 2 {
      var m: nat := n - 1;
      var d: nat := c - 1;
      assert d <= m;
      forall k | 0 <= k < c ensures 0 <= r[k] <= m {
        StepInRange(k, m, d);
      }
      StepInRange(d, m, d);
      assert r[0] == 0;
      forall j, k | 0 <= j < k < c ensures r[j] < r[k] {
        StepIncreases(j, k, m, d);
      }
    }
  }

  /** Twenty frames give the single preview frame 0; forty-one give 0, 20 and 40. */
  lemma PreviewFramesExamples()
    ensures PreviewFrames(0) == []
    ensures PreviewFrames(20) == [0]
    ensures PreviewFrames(41) == [0, 20, 40]
  {
    assert PreviewFrames(41)[1] == 20;
  }

  /** One lowercase hexadecimal digit. */
  function HexDigit(d: nat): char
    requires d < 16
  {
    "0123456789abcdef"[d]
  }

  /** `str(_id)`: an id written in hexadecimal, never empty. */
  function IdText(id: nat): (s: string)
    ensures |s| > 0
    ensures forall k :: 0 <= k < |s| ==> s[k] in "0123456789abcdef"
    decreases id
  {
    if id < 16 then [HexDigit(id)] else IdText(id / 16) + [HexDigit(id % 16)]
  }

  const MediaPrefix := "/api/v1/dive_dataset/"
  const DownloadSuffix := "/download"
  const TilesSuffix := "/tiles/internal_metadata"

  /** `get_url`: the download route of an item of a dataset, or '' when not a preview. */
  function GetUrl(datasetId: FolderId, itemId: ItemId, preview: bool): (url: string)
    ensures url == "" <==> !preview
    ensures preview ==> |url| > |MediaPrefix| + |DownloadSuffix|
                        && url[..|MediaPrefix|] == MediaPrefix
                        && url[|url| - |DownloadSuffix|..] == DownloadSuffix
  {
    if preview then MediaPrefix + IdText(datasetId) + "/media/" + IdText(itemId) + DownloadSuffix else ""
  }

  /**
   * `get_large_image_metadata_url`: the tile-metadata route of an item (the
   * model type defaults to 'item'), or '' when not a preview (the default).
   */
  function GetLargeImageMetadataUrl(fileId: ItemId, modelType: string := "item", preview: bool := false): (url: string)
    ensures url == "" <==> !preview
    ensures preview ==> |url| > 7 + |TilesSuffix|
                        && url[..7] == "api/v1/" && url[|url| - |TilesSuffix|..] == TilesSuffix
  {
    if preview then "api/v1/" + modelType + "/" + IdText(fileId) + TilesSuffix else ""
  }

  /** One entry of a dataset's source-media listing. */
  datatype MediaResource = MediaResource(id: string, url: string, filename: string)

  /** The resource for frame `index`: id and url only when it is a preview frame. */
  function Resource(folder: Folder, frame: Item, preview: bool, largeImage: bool): MediaResource {
    MediaResource(
      if preview then IdText(frame.id) else "",
      if largeImage then GetLargeImageMetadataUrl(frame.id, "item", preview) else GetUrl(folder.id, frame.id, preview),
      frame.name)
  }

  /**
   * `get_media(folder, user)`. `images` and `largeImages` stand for what
   * `crud.valid_images` and `crud.valid_large_images` return for the folder.
   * Every frame yields one resource carrying its filename; its id and url are
   * non-empty exactly when its index is one of the folder's preview frames.
   * A folder that fails `verify_sharable_dataset` is refused, a type other
   * than image-sequence or large-image raises ValueError, and a folder without
   * `previewFrames` fails on the first membership test.
   */
  function GetMedia(folder: Folder, images: seq<Item>, largeImages: seq<Item>): (r: Result<seq<MediaResource>>)
    ensures !VerifySharableDataset(folder) ==> r == Err(ValidationFailed)
    ensures VerifySharableDataset(folder) && folder.meta.mediaType !in {Some(ImageSequence), Some(LargeImage)} ==>
              r == Err(ValueError)
    ensures r.Ok? ==> folder.meta.mediaType in {Some(ImageSequence), Some(LargeImage)}
    ensures r.Ok? ==>
              var frames := if folder.meta.mediaType == Some(ImageSequence) then images else largeImages;
              && |r.value| == |frames|
              && forall k :: 0 <= k < |frames| ==>
                   && r.value[k].filename == frames[k].name
                   && (r.value[k].id != "" <==> folder.meta.previewFrames.Some? && k in folder.meta.previewFrames.value)
                   && (r.value[k].url != "" <==> r.value[k].id != "")
                   && (r.value[k].id != "" ==> r.value[k].id == IdText(frames[k].id))
                   && (r.value[k].id != "" ==>
                         r.value[k].url == (if folder.meta.mediaType == Some(LargeImage)
                                            then GetLargeImageMetadataUrl(frames[k].id, "item", true)
                                            else GetUrl(folder.id, frames[k].id, true)))
    ensures r.Err? && VerifySharableDataset(folder) && folder.meta.mediaType in {Some(ImageSequence), Some(LargeImage)} ==>
              && r == Err(TypeError) && folder.meta.previewFrames.None?
              && (if folder.meta.mediaType == Some(ImageSequence) then images else largeImages) != []
    ensures && VerifySharableDataset(folder) && folder.meta.mediaType in {Some(ImageSequence), Some(LargeImage)}
            && folder.meta.previewFrames.None?
            && (if folder.meta.mediaType == Some(ImageSequence) then images else largeImages) != [] ==>
              r == Err(TypeError)
  {
    if !VerifySharableDataset(folder) then Err(ValidationFailed)
    else if folder.meta.mediaType !in {Some(ImageSequence), Some(LargeImage)} then Err(ValueError)
    else
      var large := folder.meta.mediaType == Some(LargeImage);
      var frames := if large then largeImages else images;
      if frames == [] then Ok([])
      else if folder.meta.previewFrames.None? then Err(TypeError)
      else
        var pf := folder.meta.previewFrames.value;
        Ok(seq(|frames|, k requires 0 <= k < |frames| => Resource(folder, frames[k], k in pf, large)))
  }
}
