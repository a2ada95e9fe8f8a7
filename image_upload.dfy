/** The image-selection rule of `handleImageUpload` in src/App.js: a
    selection of more than ten files is refused with an alert; otherwise a
    preview of each chosen file is appended after the images already held. */
module ImageUpload {

  /** A file picked in the browser's file dialog. */
  datatype SelectedFile = SelectedFile(name: string, content: seq<bv8>)

  /** The `blob:` URL that `URL.createObjectURL` hands out for a file. The
      model only records which file it resolves to. */
  datatype ObjectUrl = BlobUrl(file: SelectedFile)

  /** One entry of the `images` state: `{ url, name }`. */
  datatype Preview = Preview(url: ObjectUrl, name: string)

  /** The largest selection the upload handler accepts. */
  const MaxSelection: nat := 10

  predicate SelectionAccepted(files: seq<SelectedFile>) {
    |files| <= MaxSelection
  }

  /** The previews built from a selection, one per file, in selection order. */
  function Previews(files: seq<SelectedFile>): (r: seq<Preview>)
    ensures |r| == |files|
    ensures forall k :: 0 <= k < |files| ==> r[k].url == BlobUrl(files[k]) && r[k].name == files[k].name
  {
    seq(|files|, k requires 0 <= k < |files| => Preview(BlobUrl(files[k]), files[k].name))
  }

  /** The `images` state after one selection event: unchanged when the
      selection is refused, otherwise the old list followed by one preview
      per chosen file. */
  function AfterSelection(images: seq<Preview>, files: seq<SelectedFile>): (r: seq<Preview>)
    ensures !SelectionAccepted(files) ==> r == images
    ensures SelectionAccepted(files) ==> |r| == |images| + |files|
    ensures SelectionAccepted(files) ==> r[..|images|] == images
    ensures SelectionAccepted(files) ==>
      forall k :: 0 <= k < |files| ==> r[|images| + k] == Preview(BlobUrl(files[k]), files[k].name)
  {
    if SelectionAccepted(files) then images + Previews(files) else images
  }

  /** The file behind every preview is still reachable after a selection:
      an accepted selection never loses or reorders earlier entries. */
  lemma AfterSelectionKeepsOld(images: seq<Preview>, files: seq<SelectedFile>, k: nat)
    requires k < |images|
    ensures k < |AfterSelection(images, files)|
    ensures AfterSelection(images, files)[k] == images[k]
  {
    if SelectionAccepted(files) {
      assert AfterSelection(images, files)[..|images|] == images;
    }
  }

  /** The limit applies to each selection on its own, not to the running
      total: two accepted selections of ten leave twenty images. */
  lemma {:induction false} LimitIsPerSelection(f1: seq<SelectedFile>, f2: seq<SelectedFile>)
    requires |f1| == MaxSelection && |f2| == MaxSelection
    ensures |AfterSelection(AfterSelection([], f1), f2)| == 2 * MaxSelection
  {
    assert SelectionAccepted(f1) && SelectionAccepted(f2);
  }

  /** A refused selection followed by an accepted one ends where the accepted
      one alone would: the refusal leaves no trace. */
  lemma RefusedSelectionLeavesNoTrace(images: seq<Preview>, bad: seq<SelectedFile>, good: seq<SelectedFile>)
    requires !SelectionAccepted(bad)
    ensures AfterSelection(AfterSelection(images, bad), good) == AfterSelection(images, good)
  {
  }

  /** Two accepted selections in a row add the same previews as one
      selection of their concatenation, when that is itself accepted. */
  lemma {:induction false} SelectionsCompose(images: seq<Preview>, f1: seq<SelectedFile>, f2: seq<SelectedFile>)
    requires SelectionAccepted(f1 + f2)
    ensures AfterSelection(AfterSelection(images, f1), f2) == AfterSelection(images, f1 + f2)
  {
    assert SelectionAccepted(f1) && SelectionAccepted(f2);
    PreviewsAppend(f1, f2);
    assert (images + Previews(f1)) + Previews(f2) == images + (Previews(f1) + Previews(f2));
  }

  /** The previews of two selections side by side are the previews of each. */
  lemma PreviewsAppend(f1: seq<SelectedFile>, f2: seq<SelectedFile>)
    ensures Previews(f1 + f2) == Previews(f1) + Previews(f2)
  {
    var l := Previews(f1 + f2);
    var r := Previews(f1) + Previews(f2);
    forall k | 0 <= k < |l| ensures l[k] == r[k] {
      if k < |f1| {
        assert (f1 + f2)[k] == f1[k];
      } else {
        assert (f1 + f2)[k] == f2[k - |f1|];
      }
    }
  }

  /** The component state that holds the chosen images. */
  class ImagePicker {
    var images: seq<Preview>

    constructor ()
      ensures images == []
    {
      images := [];
    }

    /** The `change` handler of the file input. `alerted` is true when the
        "up to 10 images" alert is shown instead of updating the list. */
    method HandleImageUpload(files: seq<SelectedFile>) returns (alerted: bool)
      modifies this
      ensures alerted <==> |files| > MaxSelection
      ensures images == AfterSelection(old(images), files)
      ensures alerted ==> images == old(images)
      ensures !alerted ==> images == old(images) + Previews(files)
    {
      if |files| > MaxSelection {
        alerted := true;
        return;
      }
      alerted := false;
      var newImages := Previews(files);
      images := images + newImages;
    }
  }
}
