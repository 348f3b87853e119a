/**
 * The file bookkeeping of the `MiniPaint` sketch editor (generate_png.py):
 * the list of page files, one image and one bounded undo history per file,
 * the current file, and the save step that rebuilds the page's layout and
 * merges it into the layout history. Images are opaque tokens; widgets,
 * drawing and file writes are outside the model.
 */
module MiniPaintApp {
  import opened Wrappers
  import opened LayoutModel
  import opened TextAttachment
  import opened LayoutBuilder
  import opened LayoutHistory
  import opened FileNames
  import opened BoundedHistory

  /** A canvas image: the blank white canvas or some drawing. */
  datatype Image = Blank | Sketch(id: nat)

  const InitialFile: string := "landing.png"
  const HistoryLimit: nat := 10

  predicate Distinct(files: seq<string>)
  {
    forall i, j :: 0 <= i < j < |files| ==> files[i] != files[j]
  }

  /** `[f for f in files if f != name]`. */
  function Without(files: seq<string>, name: string): (r: seq<string>)
    ensures forall f :: f in r <==> f in files && f != name
    ensures name !in files ==> r == files
    ensures Distinct(files) ==> Distinct(r)
    ensures Distinct(files) && name in files ==> |r| == |files| - 1
  {
    if files == [] then []
    else if files[0] == name then Without(files[1..], name)
    else
      var rest := Without(files[1..], name);
      assert Distinct(files) ==> files[0] !in files[1..];
      [files[0]] + rest
  }

  /** The position of the first file other than `name`, or `|files|` when there is none. */
  function FirstOther(files: seq<string>, name: string): (i: nat)
    ensures i <= |files|
    ensures i < |files| ==> files[i] != name
    ensures forall j :: 0 <= j < i ==> files[j] == name
  {
    if files == [] || files[0] != name then 0 else 1 + FirstOther(files[1..], name)
  }

  /** Between two distinct files, the first one other than a listed file exists. */
  lemma FirstOtherExists(files: seq<string>, name: string)
    requires Distinct(files) && |files| > 1
    ensures FirstOther(files, name) < |files|
  {
    assert files[0] != files[1];
  }

  /** `history` with `img` pushed onto the buffer of `f`. */
  function Pushed(history: map<string, seq<Image>>, f: string, img: Image, limit: nat): map<string, seq<Image>>
    requires f in history
  {
    history[f := PushBounded(history[f], img, limit)]
  }

  /**
   * The bookkeeping invariant over plain values: at least one file, no
   * duplicates, the current file is listed, every listed file and no other
   * has an image and a history, histories are within the limit, and the
   * canvas image is the current file's image.
   */
  ghost predicate Consistent(files: seq<string>, images: map<string, Image>, history: map<string, seq<Image>>,
                             current: string, img: Image, limit: nat)
  {
    && files != [] && Distinct(files)
    && current in files
    && (forall f :: f in images <==> f in files)
    && (forall f :: f in history <==> f in files)
    && (forall f :: f in history ==> |history[f]| <= limit)
    && img == images[current]
  }

  lemma PushConsistent(files: seq<string>, images: map<string, Image>, history: map<string, seq<Image>>,
                       current: string, img: Image, limit: nat, f: string)
    requires Consistent(files, images, history, current, img, limit) && f in files
    ensures Consistent(files, images, Pushed(history, f, images[f], limit), current, img, limit)
  {
  }

  lemma ListConsistent(files: seq<string>, images: map<string, Image>, history: map<string, seq<Image>>,
                       current: string, img: Image, limit: nat, name: string)
    requires Consistent(files, images, history, current, img, limit) && name !in files
    ensures Consistent(files + [name], images[name := Blank], history[name := []], current, img, limit)
  {
  }

  lemma MoveConsistent(files: seq<string>, images: map<string, Image>, history: map<string, seq<Image>>,
                       current: string, img: Image, limit: nat, f: string)
    requires Consistent(files, images, history, current, img, limit) && f in files
    ensures Consistent(files, images, history, f, images[f], limit)
  {
  }

  lemma DropConsistent(files: seq<string>, images: map<string, Image>, history: map<string, seq<Image>>,
                       current: string, img: Image, limit: nat, name: string)
    requires Consistent(files, images, history, current, img, limit) && name in files && name != current
    ensures Consistent(Without(files, name), images - {name}, history - {name}, current, img, limit)
  {
  }

  /** `next(f for f in files if f != name)`, given that such a file exists. */
  method FindOther(files: seq<string>, name: string) returns (i: nat)
    requires FirstOther(files, name) < |files|
    ensures i == FirstOther(files, name)
  {
    i := 0;
    while files[i] == name
      invariant i <= FirstOther(files, name)
      invariant forall j :: 0 <= j < i ==> files[j] == name
      decreases FirstOther(files, name) - i
    {
      i := i + 1;
    }
  }

  /** A snapshot pushed onto a buffer that is then dropped leaves no trace. */
  lemma PushedDropped(history: map<string, seq<Image>>, f: string, img: Image, limit: nat)
    requires f in history
    ensures Pushed(history, f, img, limit) - {f} == history - {f}
  {
  }

  class MiniPaint {
    var files: seq<string>
    var fileImages: map<string, Image>
    var fileHistory: map<string, seq<Image>>
    var currentFile: string
    var img: Image
    const historyLimit: nat

    /**
     * The bookkeeping invariant; `img` equal to the current file's image
     * stands for the source keeping one image object under both names.
     */
    ghost predicate Valid()
      reads this
    {
      Consistent(files, fileImages, fileHistory, currentFile, img, historyLimit)
    }

    /** One blank page `landing.png` with an empty history, limit 10. */
    constructor ()
      ensures Valid()
      ensures files == [InitialFile] && currentFile == InitialFile
      ensures fileImages == map[InitialFile := Blank] && fileHistory == map[InitialFile := []]
      ensures img == Blank && historyLimit == HistoryLimit
    {
      files := [InitialFile];
      currentFile := InitialFile;
      fileImages := map[InitialFile := Blank];
      fileHistory := map[InitialFile := []];
      historyLimit := HistoryLimit;
      img := Blank;
    }

    /**
     * Push a snapshot of `filename`'s image onto its history, dropping the
     * oldest snapshot past the limit; a file without an image is ignored.
     */
    method RecordFileHistory(filename: string)
      requires Valid()
      modifies this
      ensures Valid()
      ensures filename !in old(fileImages) ==> fileHistory == old(fileHistory)
      ensures filename in old(fileImages) ==>
        fileHistory == Pushed(old(fileHistory), filename, old(fileImages)[filename], historyLimit)
      ensures files == old(files) && fileImages == old(fileImages)
      ensures currentFile == old(currentFile) && img == old(img)
    {
      if filename !in fileImages {
        return;
      }
      PushConsistent(files, fileImages, fileHistory, currentFile, img, historyLimit, filename);
      var hist := if filename in fileHistory then fileHistory[filename] else [];
      hist := hist + [fileImages[filename]];
      if |hist| > historyLimit {
        hist := hist[1..];
      }
      fileHistory := fileHistory[filename := hist];
    }

    /** The image of `filename`, made blank with an empty history when it has none. */
    method GetOrCreateImage(filename: string) returns (image: Image)
      modifies this
      ensures filename in old(fileImages) ==> fileImages == old(fileImages) && fileHistory == old(fileHistory)
      ensures filename !in old(fileImages) ==>
        fileImages == old(fileImages)[filename := Blank] && fileHistory == old(fileHistory)[filename := []]
      ensures image == fileImages[filename]
      ensures files == old(files) && currentFile == old(currentFile) && img == old(img)
    {
      if filename !in fileImages {
        fileImages := fileImages[filename := Blank];
        fileHistory := fileHistory[filename := []];
      }
      image := fileImages[filename];
    }

    /**
     * Make `filename` current: a no-op for the current file; otherwise the
     * current image is stored and snapshotted, and an unknown name is listed
     * with a blank image and an empty history.
     */
    method SwitchFile(filename: string)
      requires Valid()
      modifies this
      ensures Valid()
      ensures filename == old(currentFile) ==>
        && files == old(files) && fileImages == old(fileImages) && fileHistory == old(fileHistory)
        && currentFile == old(currentFile) && img == old(img)
      ensures filename != old(currentFile) ==>
        && currentFile == filename
        && files == (if filename in old(files) then old(files) else old(files) + [filename])
        && fileImages == (if filename in old(files) then old(fileImages) else old(fileImages)[filename := Blank])
        && fileHistory == (var pushed := Pushed(old(fileHistory), old(currentFile), old(img), historyLimit);
                           if filename in old(files) then pushed else pushed[filename := []])
        && img == fileImages[filename]
    {
      if filename == currentFile {
        return;
      }
      assert fileImages[currentFile := img] == fileImages;
      fileImages := fileImages[currentFile := img];
      RecordFileHistory(currentFile);
      if filename !in files {
        ListConsistent(files, fileImages, fileHistory, currentFile, img, historyLimit, filename);
        MoveConsistent(files + [filename], fileImages[filename := Blank], fileHistory[filename := []],
                       currentFile, img, historyLimit, filename);
      } else {
        MoveConsistent(files, fileImages, fileHistory, currentFile, img, historyLimit, filename);
      }
      currentFile := filename;
      if filename !in files {
        files := files + [filename];
      }
      img := GetOrCreateImage(filename);
    }

    /**
     * Add the page named in the dialog's answer: nothing happens when the
     * answer normalizes to no name or to a listed one; otherwise the name is
     * listed with a blank image and an empty history and becomes current.
     */
    method AddFileEntry(input: Option<string>)
      requires Valid()
      modifies this
      ensures Valid()
      ensures NormalizedName(input).None? || NormalizedName(input).value in old(files) ==>
        && files == old(files) && fileImages == old(fileImages) && fileHistory == old(fileHistory)
        && currentFile == old(currentFile) && img == old(img)
      ensures NormalizedName(input).Some? && NormalizedName(input).value !in old(files) ==>
        var name := NormalizedName(input).value;
        && files == old(files) + [name] && currentFile == name
        && fileImages == old(fileImages)[name := Blank] && img == Blank
        && fileHistory == Pushed(old(fileHistory), old(currentFile), old(img), historyLimit)[name := []]
    {
      var normalized := NormalizedName(input);
      if normalized.None? {
        return;
      }
      var name := normalized.value;
      if name in files {
        return;
      }
      AppendFile(name);
    }

    /** The tail of `add_file_entry` for a new name: list it, blank, and switch to it. */
    method AppendFile(name: string)
      requires Valid() && name !in files
      modifies this
      ensures Valid()
      ensures files == old(files) + [name] && currentFile == name
      ensures fileImages == old(fileImages)[name := Blank] && img == Blank
      ensures fileHistory == Pushed(old(fileHistory), old(currentFile), old(img), historyLimit)[name := []]
    {
      ListConsistent(files, fileImages, fileHistory, currentFile, img, historyLimit, name);
      ghost var pushed := Pushed(fileHistory, currentFile, img, historyLimit);
      assert Pushed(fileHistory[name := []], currentFile, img, historyLimit) == pushed[name := []];
      files := files + [name];
      fileImages := fileImages[name := Blank];
      fileHistory := fileHistory[name := []];
      SwitchFile(name);
    }

    /**
     * Remove the current page, keeping at least one: with two or more files
     * the first other file becomes current and the old current file leaves
     * the list, the images and the histories.
     */
    method RemoveFileEntry()
      requires Valid()
      modifies this
      ensures Valid()
      ensures |old(files)| <= 1 ==>
        && files == old(files) && fileImages == old(fileImages) && fileHistory == old(fileHistory)
        && currentFile == old(currentFile) && img == old(img)
      ensures |old(files)| > 1 ==>
        && FirstOther(old(files), old(currentFile)) < |old(files)|
        && currentFile == old(files)[FirstOther(old(files), old(currentFile))]
        && files == Without(old(files), old(currentFile))
        && fileImages == old(fileImages) - {old(currentFile)}
        && fileHistory == old(fileHistory) - {old(currentFile)}
        && img == old(fileImages)[currentFile]
    {
      if |files| <= 1 {
        return;
      }
      var toRemove := currentFile;
      ghost var history0 := fileHistory;
      FirstOtherExists(files, toRemove);
      var i := FindOther(files, toRemove);
      SwitchFile(files[i]);
      PushedDropped(history0, toRemove, old(img), historyLimit);
      DropFile(toRemove);
    }

    /** Forget a file that is not current: unlist it and drop its image and history. */
    method DropFile(name: string)
      requires Valid() && name in files && name != currentFile
      modifies this
      ensures Valid()
      ensures files == Without(old(files), name)
      ensures fileImages == old(fileImages) - {name} && fileHistory == old(fileHistory) - {name}
      ensures currentFile == old(currentFile) && img == old(img)
    {
      DropConsistent(files, fileImages, fileHistory, currentFile, img, historyLimit, name);
      files := Without(files, name);
      fileImages := fileImages - {name};
      fileHistory := fileHistory - {name};
    }

    /** `clear_canvas`: the current page gets a new blank image. */
    method ClearCanvas()
      requires Valid()
      modifies this
      ensures Valid()
      ensures img == Blank && fileImages == old(fileImages)[old(currentFile) := Blank]
      ensures files == old(files) && fileHistory == old(fileHistory) && currentFile == old(currentFile)
    {
      img := Blank;
      fileImages := fileImages[currentFile := img];
    }

    /**
     * A stroke on the canvas: it changes `img` in place, which is also the
     * current file's image; snapshots already in the history stay as they were.
     */
    method Paint(sketch: Image)
      requires Valid()
      modifies this
      ensures Valid()
      ensures img == sketch && fileImages == old(fileImages)[old(currentFile) := sketch]
      ensures files == old(files) && fileHistory == old(fileHistory) && currentFile == old(currentFile)
    {
      img := sketch;
      fileImages := fileImages[currentFile := img];
    }

    /**
     * Save the current page: snapshot it into its history, rebuild its layout
     * from the detector's and the OCR engine's results on the saved image, and
     * merge that layout into the prior layout history under the page's name.
     */
    method GeneratePng(prior: Document<Layout>, det: Detection, ocr: seq<OcrEntry>)
      returns (layout: Layout, history: map<string, Layout>)
      requires Valid()
      modifies this
      ensures Valid()
      ensures fileHistory == Pushed(old(fileHistory), old(currentFile), old(img), historyLimit)
      ensures files == old(files) && fileImages == old(fileImages)
      ensures currentFile == old(currentFile) && img == old(img)
      ensures IsBuiltLayout(det, ocr, layout)
      ensures history == Merged(prior, currentFile, layout)
    {
      var filename := currentFile;
      RecordFileHistory(currentFile);
      layout := BuildLayout(det, ocr);
      history := MergeLayoutHistory(prior, filename, layout);
    }
  }
}
