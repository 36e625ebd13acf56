/** What the merge handler's loop does to the upload folder and to the PDF
    writer: each upload is saved under its own name, in submission order,
    so a later upload of a name replaces an earlier one, while the writer
    receives every upload's bytes in that same order. */
module Staging {
  import opened Common

  /** The folder after `file.save(os.path.join(UPLOAD_FOLDER, file.filename))`
      for each upload of `files`, in order, at time `now`. */
  function StageAll(folder: Folder, files: seq<Upload>, now: real): Folder
    decreases |files|
  {
    if files == [] then folder
    else
      var last := files[|files| - 1];
      StageAll(folder, files[..|files| - 1], now)[last.filename := Entry(last.data, now)]
  }

  /** The bytes handed to `merger.append`, in order. */
  function Contents(files: seq<Upload>): (docs: seq<Bytes>)
    ensures |docs| == |files|
    ensures forall i :: 0 <= i < |files| ==> docs[i] == files[i].data
    decreases |files|
  {
    if files == [] then [] else Contents(files[..|files| - 1]) + [files[|files| - 1].data]
  }

  /** The declared names of `files`, in order. */
  function Names(files: seq<Upload>): (names: seq<string>)
    ensures |names| == |files|
    ensures forall i :: 0 <= i < |files| ==> names[i] == files[i].filename
    decreases |files|
  {
    if files == [] then [] else Names(files[..|files| - 1]) + [files[|files| - 1].filename]
  }

  /** Staging adds exactly the uploaded names and leaves every other entry
      as it was. */
  lemma {:induction false} StageAllKeys(folder: Folder, files: seq<Upload>, now: real)
    ensures forall k :: k in StageAll(folder, files, now) <==> k in folder || k in Names(files)
    ensures forall k :: k in folder && k !in Names(files) ==> StageAll(folder, files, now)[k] == folder[k]
    decreases |files|
  {
    if files != [] {
      var init := files[..|files| - 1];
      StageAllKeys(folder, init, now);
      assert Names(files) == Names(init) + [files[|files| - 1].filename];
    }
  }

  /** Index of the last upload named `name`, or -1 when there is none. */
  function LastNamed(files: seq<Upload>, name: string): (r: int)
    ensures -1 <= r < |files|
    ensures r >= 0 ==> files[r].filename == name
    ensures forall j :: r < j < |files| ==> files[j].filename != name
    decreases |files|
  {
    if files == [] then -1
    else if files[|files| - 1].filename == name then |files| - 1
    else LastNamed(files[..|files| - 1], name)
  }

  /** Last writer wins: after staging, a name holds the bytes of the last
      upload that carried it, and every other entry is untouched; no entry
      is removed. */
  lemma {:induction false} LastWriterWins(folder: Folder, files: seq<Upload>, now: real)
    ensures forall k :: k in StageAll(folder, files, now) <==> k in folder || LastNamed(files, k) >= 0
    ensures forall k :: LastNamed(files, k) >= 0 ==>
              StageAll(folder, files, now)[k] == Entry(files[LastNamed(files, k)].data, now)
    ensures forall k :: k in folder && LastNamed(files, k) < 0 ==> StageAll(folder, files, now)[k] == folder[k]
    decreases |files|
  {
    if files != [] {
      var init := files[..|files| - 1];
      LastWriterWins(folder, init, now);
      forall k ensures LastNamed(files, k) == (if files[|files| - 1].filename == k then |files| - 1 else LastNamed(init, k)) {
      }
    }
  }

  /** Staging depends on the names only through their last occurrence: with
      distinct names, every upload ends up in the folder under its name. */
  lemma DistinctNamesAllStaged(folder: Folder, files: seq<Upload>, now: real)
    requires forall i, j :: 0 <= i < j < |files| ==> files[i].filename != files[j].filename
    ensures forall i :: 0 <= i < |files| ==>
              files[i].filename in StageAll(folder, files, now)
              && StageAll(folder, files, now)[files[i].filename] == Entry(files[i].data, now)
  {
    LastWriterWins(folder, files, now);
    forall i | 0 <= i < |files|
      ensures LastNamed(files, files[i].filename) == i
    {
    }
  }
}
