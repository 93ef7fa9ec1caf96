/** The items a Graph listing yields, which of them the resizer takes up,
    and the two names it plans for each image it processes. */
module DriveItems {
  import opened Wrappers
  import opened Text
  import opened PosixPath

  type Id = string

  /** A `driveItem`, reduced to the fields the core reads. `name` is
      `item.get("name", "")`; `folder` says whether the `folder` key is
      present; `file` is the `file` facet, as a map of its properties, when
      the key is present; `parentPath` is `parentReference.path` or "". */
  datatype Item = Item(
    id: Id,
    name: string,
    folder: bool,
    file: Option<map<string, string>>,
    parentId: Id,
    parentPath: string)

  /** `IMG_EXT`. */
  const ImageExtensions: seq<string> := [".jpg", ".jpeg", ".png", ".bmp", ".tif", ".tiff", ".webp", ".heic"]

  const OriginalTag: string := "_original"
  const ResizedTag: string := "_2k"

  /** `name.endswith(IMG_EXT)`. */
  predicate HasImageExtension(name: string) {
    exists e :: e in ImageExtensions && EndsWith(name, e)
  }

  /** `item["file"].get("mimeType", "")`. */
  function MimeType(facet: map<string, string>): string {
    if "mimeType" in facet then facet["mimeType"] else ""
  }

  /** `is_image_item`: a non-empty file facet whose lower-cased MIME type
      starts with `image/`, or a lower-cased name ending in a listed
      extension. */
  predicate IsImageItem(it: Item) {
    && it.file.Some?
    && |it.file.value| > 0
    && (StartsWith(Lower(MimeType(it.file.value)), "image/") || HasImageExtension(Lower(it.name)))
  }

  /** What the walk loop in `main` does with an item before counting it. */
  datatype Selection = NotImage | AlreadySuffixed | Candidate(base: string, ext: string)

  /** The skip rules at the top of the loop in `main`: folders and
      non-images are passed over silently, names whose base already carries
      one of the two tags are skipped, everything else is a candidate. */
  function Select(it: Item): (s: Selection)
    ensures s.Candidate? <==>
      && !it.folder
      && it.file.Some? && |it.file.value| > 0
      && (StartsWith(Lower(MimeType(it.file.value)), "image/") || HasImageExtension(Lower(it.name)))
      && !EndsWith(SplitExt(it.name).0, ResizedTag)
      && !EndsWith(SplitExt(it.name).0, OriginalTag)
    ensures s.AlreadySuffixed? <==> !it.folder && IsImageItem(it) && !s.Candidate?
    ensures s.Candidate? ==> (s.base, s.ext) == SplitExt(it.name)
  {
    if it.folder || !IsImageItem(it) then NotImage
    else
      var (base, ext) := SplitExt(it.name);
      if EndsWith(base, ResizedTag) || EndsWith(base, OriginalTag) then AlreadySuffixed
      else Candidate(base, ext)
  }

  /** `plan_names`: the name the original is renamed to and the name the
      resized copy is uploaded under. */
  function PlanNames(name: string): (r: (string, string))
    ensures r.0 != r.1 && r.0 != name && r.1 != name
    ensures StartsWith(r.0, SplitExt(name).0) && EndsWith(r.0, SplitExt(name).1)
    ensures StartsWith(r.1, SplitExt(name).0) && EndsWith(r.1, SplitExt(name).1)
  {
    var (base, ext) := SplitExt(name);
    (base + OriginalTag + ext, base + ResizedTag + ext)
  }

  /** Both planned names keep the extension: `splitext` of each gives the
      original base with its tag, and the original extension. */
  lemma PlanNamesSplit(name: string)
    ensures SplitExt(PlanNames(name).0) == (SplitExt(name).0 + OriginalTag, SplitExt(name).1)
    ensures SplitExt(PlanNames(name).1) == (SplitExt(name).0 + ResizedTag, SplitExt(name).1)
  {
    assert PlainTag(OriginalTag) && PlainTag(ResizedTag);
    SplitExtInsert(name, OriginalTag);
    SplitExtInsert(name, ResizedTag);
  }

  /** The files the resizer creates are never taken up again: an item that
      carries one of the two planned names of a name is not a candidate. */
  lemma PlannedNamesNotCandidates(it: Item, name: string)
    requires it.name == PlanNames(name).0 || it.name == PlanNames(name).1
    ensures !Select(it).Candidate?
  {
    PlanNamesSplit(name);
    var base := SplitExt(name).0;
    assert EndsWith(base + OriginalTag, OriginalTag);
    assert EndsWith(base + ResizedTag, ResizedTag);
  }
}
