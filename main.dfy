/**
 * The uploader's wiring around the queue: the file-creation handler that filters and
 * de-duplicates new paths, the start-up scan of files already present, and one step of
 * the polling loop that drives a selected item through the client and reports back.
 * The watcher, the directory listing, the connectivity probe and the server's responses
 * are inputs.
 */
module Uploader {
  import opened Wrappers
  import Text
  import Queue
  import Client

  /** `ImageUploadHandler.IMAGE_EXTENSIONS`. */
  const ImageExtensions: set<string> := {".jpg", ".jpeg", ".png", ".gif", ".webp"}

  /** Is the lower-cased suffix of the path an allowed image extension? */
  predicate IsImagePath(path: string) {
    Text.Lower(Text.Suffix(path)) in ImageExtensions
  }

  /** The file name ends, ignoring case, with the extension `ext`, and has something before it. */
  predicate HasExtension(name: string, ext: string) {
    |ext| < |name| && Text.Lower(name)[|name| - |ext|..] == ext
  }

  /** Every allowed extension is a '.' followed by at least one character that is not a '.'. */
  lemma ExtensionShape(e: string)
    requires e in ImageExtensions
    ensures |e| >= 2 && e[0] == '.' && forall j :: 1 <= j < |e| ==> e[j] != '.'
  {
  }

  /** Every allowed extension ends in 'g', 'f' or 'p'. */
  lemma ExtensionLastChar(e: string)
    requires e in ImageExtensions
    ensures e[|e| - 1] == 'g' || e[|e| - 1] == 'f' || e[|e| - 1] == 'p'
  {
  }

  /** An accepted path's name ends, ignoring case, with its allowed extension. */
  lemma ImagePathHasExtension(path: string)
    requires IsImagePath(path)
    ensures HasExtension(Text.Name(path), Text.Lower(Text.Suffix(path)))
  {
    ExtensionShape(Text.Lower(Text.Suffix(path)));
    SuffixHasExtension(path);
  }

  /** A non-empty suffix, lower-cased, ends the lower-cased file name without being all of it. */
  lemma SuffixHasExtension(path: string)
    requires Text.Suffix(path) != ""
    ensures HasExtension(Text.Name(path), Text.Lower(Text.Suffix(path)))
  {
    var n, ext := Text.Name(path), Text.Suffix(path);
    Text.LowerDrop(n, |n| - |ext|);
  }

  /** A name that ends, ignoring case, with an allowed extension and is longer than it has that suffix. */
  lemma HasExtensionIsImagePath(path: string, e: string)
    requires e in ImageExtensions && HasExtension(Text.Name(path), e)
    ensures Text.Lower(Text.Suffix(path)) == e
  {
    var n := Text.Name(path);
    ExtensionShape(e);
    var i := |n| - |e|;
    var ln := Text.Lower(n);
    assert ln[i..] == e;
    assert n[i] == '.' by {
      assert ln[i] == e[0];
    }
    forall j | i < j < |n| ensures n[j] != '.' {
      assert ln[j] == e[j - i];
    }
    assert Text.LastIndex(n, '.') == i;
    Text.LowerDrop(n, i);
  }

  /**
   * An independent reading of the filter: a path is accepted exactly when its file name
   * ends, ignoring case, with one of the allowed extensions and is longer than it (so a
   * file called just `.jpg` is not an image, nor is `photo.jpg.txt`).
   */
  lemma IsImagePathIff(path: string)
    ensures IsImagePath(path) <==> exists e :: e in ImageExtensions && HasExtension(Text.Name(path), e)
  {
    if IsImagePath(path) {
      ImagePathHasExtension(path);
    }
    if e :| e in ImageExtensions && HasExtension(Text.Name(path), e) {
      HasExtensionIsImagePath(path, e);
    }
  }

  /** An upper-case extension is accepted. */
  lemma UpperCaseAccepted()
    ensures IsImagePath("IMAGE.JPG")
  {
    var p := "IMAGE.JPG";
    Text.LastIndexAt(p, '/', -1);
    assert Text.Name(p) == p;
    assert Text.Lower(p)[5..] == ".jpg";
    HasExtensionIsImagePath(p, ".jpg");
  }

  /** A path whose name ends, ignoring case, with an allowed extension ends in that extension's last letter. */
  lemma HasExtensionLastChar(path: string, e: string)
    requires e in ImageExtensions && HasExtension(Text.Name(path), e)
    ensures path != "" && Text.LowerChar(path[|path| - 1]) in "gfp"
  {
    var n := Text.Name(path);
    ExtensionLastChar(e);
    assert Text.Lower(n)[|n| - 1] == e[|e| - 1];
    assert n[|n| - 1] == path[|path| - 1];
  }

  /** A path whose last character is a `t`, whatever its case, is not accepted. */
  lemma LastCharTRejected(path: string)
    requires path != "" && Text.LowerChar(path[|path| - 1]) == 't'
    ensures !IsImagePath(path)
  {
    if IsImagePath(path) {
      ImagePathHasExtension(path);
      HasExtensionLastChar(path, Text.Lower(Text.Suffix(path)));
      assert false;
    }
  }

  /** A file whose name ends in `.txt`, in any directory and with any stem, is not accepted. */
  lemma TextFileRejected(stem: string)
    ensures !IsImagePath(stem + ".txt")
  {
    var p := stem + ".txt";
    assert p[|p| - 1] == 't';
    LastCharTRejected(p);
  }

  /** A hidden file whose whole name is an image extension has no suffix, so it is not accepted. */
  lemma BareExtensionRejected(dir: string)
    ensures !IsImagePath(dir + "/.jpg")
  {
    var p := dir + "/.jpg";
    Text.LastIndexAt(p, '/', |dir|);
    assert Text.Name(p) == ".jpg";
    Text.LastIndexAt(".jpg", '.', 0);
  }

  /** The filter does not depend on case: `IMAGE.JPG` is accepted like `image.jpg`. */
  lemma IsImagePathIgnoresCase(p: string, q: string)
    requires Text.Lower(p) == Text.Lower(q)
    ensures IsImagePath(p) <==> IsImagePath(q)
  {
    Text.SuffixIgnoresCase(p, q);
  }

  /** A path the watcher accepts is exactly one the client sends with an image MIME type. */
  lemma AcceptedIffImageMime(path: string)
    ensures IsImagePath(path) <==> Client.MimeType(path) != Client.OctetStream
  {
    assert Client.MimeTypes.Keys == ImageExtensions;
  }

  /** Does `on_created` queue this event, given the paths already recorded? */
  predicate Accepts(isDirectory: bool, path: string, processed: set<string>) {
    !isDirectory && IsImagePath(path) && path !in processed
  }

  /** Once a path is recorded, a second event for it is ignored. */
  lemma AcceptsOnce(isDirectory: bool, path: string, processed: set<string>)
    ensures !Accepts(isDirectory, path, processed + {path})
  {
  }

  /** One entry of the watched directory. */
  datatype Entry = Entry(path: string, isFile: bool)

  /** The paths of the regular files among the entries whose path `keep` accepts, collected in listing order. */
  function CollectFiles(entries: seq<Entry>, keep: string -> bool): (r: set<string>)
    ensures forall p :: p in r ==> keep(p)
  {
    if |entries| == 0 then {}
    else
      var e := entries[|entries| - 1];
      CollectFiles(entries[..|entries| - 1], keep) + (if e.isFile && keep(e.path) then {e.path} else {})
  }

  /** Listing one more entry adds its path exactly when it is a regular file that `keep` accepts. */
  lemma CollectFilesStep(entries: seq<Entry>, keep: string -> bool, i: nat)
    requires i < |entries|
    ensures entries[i].isFile && keep(entries[i].path) ==>
      CollectFiles(entries[..i + 1], keep) == CollectFiles(entries[..i], keep) + {entries[i].path}
    ensures !(entries[i].isFile && keep(entries[i].path)) ==>
      CollectFiles(entries[..i + 1], keep) == CollectFiles(entries[..i], keep)
  {
    assert entries[..i + 1][..i] == entries[..i];
  }

  /** A path is collected exactly when some entry with that path is a regular file that `keep` accepts. */
  lemma {:induction false} CollectFilesIff(entries: seq<Entry>, keep: string -> bool, p: string)
    ensures p in CollectFiles(entries, keep) <==>
      exists i :: 0 <= i < |entries| && entries[i].isFile && keep(entries[i].path) && entries[i].path == p
  {
    if |entries| > 0 {
      var init := entries[..|entries| - 1];
      CollectFilesIff(init, keep, p);
      assert forall i :: 0 <= i < |init| ==> init[i] == entries[i];
    }
  }

  /** The regular files among the entries whose extension is allowed. */
  function ExistingImages(entries: seq<Entry>): set<string> {
    CollectFiles(entries, IsImagePath)
  }

  /** A path found at start-up exactly when some entry with that path is a regular file with an allowed extension. */
  lemma ExistingImagesIff(entries: seq<Entry>, p: string)
    ensures p in ExistingImages(entries) <==>
      exists i :: 0 <= i < |entries| && entries[i].isFile && IsImagePath(entries[i].path) && entries[i].path == p
  {
    CollectFilesIff(entries, IsImagePath, p);
  }

  /** Files present at start-up are recorded as handled, so no event for one of them is queued. */
  lemma StartupFilesNeverQueued(entries: seq<Entry>, isDirectory: bool, path: string)
    requires path in ExistingImages(entries)
    ensures !Accepts(isDirectory, path, ExistingImages(entries))
  {
  }

  /** `scan_existing_files` over the listing of the watched directory. */
  method ScanExistingFiles(entries: seq<Entry>) returns (existing: set<string>)
    ensures existing == ExistingImages(entries)
  {
    existing := {};
    var i := 0;
    while i < |entries|
      invariant 0 <= i <= |entries|
      invariant existing == CollectFiles(entries[..i], IsImagePath)
    {
      var e := entries[i];
      CollectFilesStep(entries, IsImagePath, i);
      if e.isFile && IsImagePath(e.path) {
        existing := existing + {e.path};
      }
      i := i + 1;
    }
    assert entries[..i] == entries;
  }

  /** The message recorded for a failed attempt: the client's error, or "Unknown error" when it gave none. */
  function FailureMessage(error: Option<string>): (msg: string)
    ensures msg != ""
    ensures error.Some? && error.value != "" ==> msg == error.value
    ensures error.None? || error.value == "" ==> msg == "Unknown error"
  {
    if error.None? || error.value == "" then "Unknown error" else error.value
  }

  class ImageUploadHandler {
    const uploadQueue: Queue.UploadQueue
    var processedFiles: set<string>

    constructor (uploadQueue: Queue.UploadQueue, processedFiles: set<string>)
      ensures this.uploadQueue == uploadQueue && this.processedFiles == processedFiles
    {
      this.uploadQueue := uploadQueue;
      this.processedFiles := processedFiles;
    }

    /**
     * `on_created`: a new image file that is not yet recorded is queued once, with the
     * empty caption, and recorded; any other event changes nothing.
     */
    method OnCreated(isDirectory: bool, srcPath: string, now: int, write: Queue.WriteOutcome)
      modifies this, uploadQueue
      ensures Accepts(isDirectory, srcPath, old(processedFiles)) ==>
        uploadQueue.items == old(uploadQueue.items) + [Queue.NewItem(srcPath, "", now)]
        && processedFiles == old(processedFiles) + {srcPath}
        && uploadQueue.disk == Queue.AfterWrite(old(uploadQueue.disk), uploadQueue.items, write)
      ensures !Accepts(isDirectory, srcPath, old(processedFiles)) ==>
        uploadQueue.items == old(uploadQueue.items) && uploadQueue.disk == old(uploadQueue.disk)
        && processedFiles == old(processedFiles)
      ensures srcPath in processedFiles || !Accepts(isDirectory, srcPath, old(processedFiles))
    {
      if isDirectory {
        return;
      }
      if !IsImagePath(srcPath) {
        return;
      }
      if srcPath in processedFiles {
        return;
      }
      uploadQueue.Add(srcPath, "", now, write);
      processedFiles := processedFiles + {srcPath};
    }
  }

  /**
   * `process_upload_queue`, one poll step. Nothing happens when the queue is empty, when
   * the server is unreachable, or when every item is backing off. Otherwise the first
   * eligible item is attempted: on success exactly that record is removed, on failure
   * exactly that record gets one more failure, stamped `later`.
   */
  method ProcessUploadQueue(uploadQueue: Queue.UploadQueue, client: Client.PixelfedClient,
                            connected: bool, upload: Client.Response, post: Client.Response,
                            now: int, later: int, write: Queue.WriteOutcome)
    modifies uploadQueue
    ensures var q := old(uploadQueue.items);
      q == [] || !connected || Queue.FirstEligible(q, now).None? ==>
        uploadQueue.items == q && uploadQueue.disk == old(uploadQueue.disk)
    ensures var q := old(uploadQueue.items);
      q != [] && connected && Queue.FirstEligible(q, now).Some? ==>
        var k := Queue.FirstEligible(q, now).value;
        var a := client.UploadAndPost(q[k].filePath, q[k].caption, upload, post);
        && uploadQueue.items == (if a.success then q[..k] + q[k + 1..]
                                 else q[k := Queue.Failed(q[k], later, FailureMessage(a.error))])
        && uploadQueue.disk == Queue.AfterWrite(old(uploadQueue.disk), uploadQueue.items, write)
  {
    if uploadQueue.Size() == 0 {
      return;
    }
    if !connected {
      return;
    }
    var next := uploadQueue.GetNext(now);
    if next.None? {
      return;
    }
    var item := next.value;
    ghost var q := uploadQueue.items;
    ghost var k := Queue.FirstEligible(q, now).value;
    Queue.SelectedIsFirstEqual(q, now);
    assert item == q[k] && item in q;
    var attempt := client.UploadAndPost(item.filePath, item.caption, upload, post);
    Queue.ActAtFirstIndex(q, item, k, later, FailureMessage(attempt.error));
    if attempt.success {
      uploadQueue.MarkSuccess(item, write);
    } else {
      uploadQueue.MarkFailure(item, FailureMessage(attempt.error), later, write);
    }
  }
}
