/** The state `useImageConverter` (src/hooks/useImageConverter.ts) keeps:
    the uploaded files in order, the converted files, and the progress of
    each file by id. Every state setter becomes a method that reassigns the
    fields; the ids that `Date.now` and `Math.random` make are passed in. */
module ConverterState {
  import opened Wrappers
  import opened ConverterTypes
  import opened FilterString
  import opened ImageFormats
  import opened Transforms
  import opened Pipeline

  /** `FileMetadata`, without its object URLs. */
  datatype FileEntry = FileEntry(id: string, file: ImageFile)

  /** `ConvertedFile`, without its download URL. */
  datatype ConvertedEntry = ConvertedEntry(
    id: string, original: FileEntry, converted: ImageFile, originalSize: nat, convertedSize: nat, format: ImageFormat)

  datatype Status = Pending | Processing | Completed | Failed

  /** `ConversionProgress`. */
  datatype Progress = Progress(fileId: string, percent: nat, status: Status, error: Option<string>)

  function FileId(f: FileEntry): string {
    f.id
  }

  function ConvertedId(e: ConvertedEntry): string {
    e.id
  }

  /** `s.filter(x => key(x) !== id)`. */
  function Drop<T(!new)>(s: seq<T>, key: T -> string, id: string): (r: seq<T>)
    ensures forall x :: x in r <==> x in s && key(x) != id
    ensures |r| <= |s|
  {
    if s == [] then []
    else (if key(s[0]) == id then [] else [s[0]]) + Drop(s[1..], key, id)
  }

  /** Filtering keeps the order: it filters each part of a sequence on its
      own. */
  lemma {:induction false} DropAppend<T(!new)>(a: seq<T>, b: seq<T>, key: T -> string, id: string)
    ensures Drop(a + b, key, id) == Drop(a, key, id) + Drop(b, key, id)
  {
    if a == [] {
      assert a + b == b;
    } else {
      var head := if key(a[0]) == id then [] else [a[0]];
      calc {
        Drop(a + b, key, id);
      == { assert (a + b)[0] == a[0] && (a + b)[1..] == a[1..] + b; }
        head + Drop(a[1..] + b, key, id);
      == { DropAppend(a[1..], b, key, id); }
        head + (Drop(a[1..], key, id) + Drop(b, key, id));
      ==
        (head + Drop(a[1..], key, id)) + Drop(b, key, id);
      }
    }
  }

  /** Filtering out an id nothing has changes nothing. */
  lemma {:induction false} DropAbsent<T(!new)>(s: seq<T>, key: T -> string, id: string)
    requires forall i :: 0 <= i < |s| ==> key(s[i]) != id
    ensures Drop(s, key, id) == s
  {
    if s != [] {
      DropAbsent(s[1..], key, id);
    }
  }

  predicate Unique<T(!new)>(s: seq<T>, key: T -> string) {
    forall i, j :: 0 <= i < j < |s| ==> key(s[i]) != key(s[j])
  }

  /** Filtering keeps keys unique. */
  lemma {:induction false} DropUnique<T(!new)>(s: seq<T>, key: T -> string, id: string)
    requires Unique(s, key)
    ensures Unique(Drop(s, key, id), key)
  {
    if s != [] {
      var t := s[1..];
      assert Unique(t, key) by {
        forall i, j | 0 <= i < j < |t| ensures key(t[i]) != key(t[j]) {
          assert t[i] == s[i + 1] && t[j] == s[j + 1];
        }
      }
      DropUnique(t, key, id);
      var rest := Drop(t, key, id);
      forall y | y in rest ensures key(y) != key(s[0]) {
        var j :| 0 <= j < |t| && t[j] == y;
        assert s[j + 1] == y;
      }
      var r := Drop(s, key, id);
      assert r == (if key(s[0]) == id then [] else [s[0]]) + rest;
      forall i, j | 0 <= i < j < |r| ensures key(r[i]) != key(r[j]) {
        if key(s[0]) != id {
          if i == 0 {
            assert r[j] == rest[j - 1] && rest[j - 1] in rest;
          } else {
            assert r[i] == rest[i - 1] && r[j] == rest[j - 1];
          }
        }
      }
    }
  }

  /** The entries `addFiles` makes, one per file, with the given ids. */
  function Entries(newFiles: seq<ImageFile>, ids: seq<string>): (r: seq<FileEntry>)
    requires |ids| == |newFiles|
    ensures |r| == |newFiles|
    ensures forall i :: 0 <= i < |r| ==> r[i] == FileEntry(ids[i], newFiles[i])
  {
    if newFiles == [] then [] else [FileEntry(ids[0], newFiles[0])] + Entries(newFiles[1..], ids[1..])
  }

  predicate HasConverted(cs: seq<ConvertedEntry>, id: string) {
    exists e :: e in cs && e.id == id
  }

  /** No listed file has this id. */
  predicate Unlisted(fs: seq<FileEntry>, id: string) {
    forall f | f in fs :: f.id != id
  }

  /** A file whose last conversion ended, one way or the other. */
  predicate Settled(progress: map<string, Progress>, id: string) {
    id in progress && progress[id].status in {Completed, Failed}
  }

  /** The ids of `fs`, in order. */
  function Ids(fs: seq<FileEntry>): (r: seq<string>)
    ensures |r| == |fs| && forall i :: 0 <= i < |fs| ==> r[i] == fs[i].id
  {
    if fs == [] then [] else Ids(fs[..|fs| - 1]) + [fs[|fs| - 1].id]
  }

  /** The ids of one more file of a list are the ids so far and its id. */
  lemma IdsExtended(fs: seq<FileEntry>, i: nat)
    requires i < |fs|
    ensures Ids(fs[..i + 1]) == Ids(fs[..i]) + [fs[i].id]
  {
    assert fs[..i + 1][..i] == fs[..i];
  }

  /** A second write to a key replaces the first. */
  lemma Overwritten(m: map<string, Progress>, id: string, first: Progress, second: Progress)
    ensures m[id := first][id := second] == m[id := second]
  {
  }

  /** The options the hook starts with. */
  function DefaultOptions(): ConversionOptions {
    ConversionOptions(Png, 80, None, None, true, Some(Fit), None, None, Some(NoFlip),
                      Some(Filters(None, None, None, None, None, None)), Some(TargetFileSize(false, 1.0, MB)))
  }

  /** With the starting options every conversion runs the filter stage with
      `'none'` and a resize that keeps the size, and nothing else before the
      final conversion. */
  lemma DefaultsPlan(show: real -> string)
    ensures Planned(DefaultOptions(), show) == [FilterStep("none"), ResizeStep(ResizeRequestOf(DefaultOptions()))]
    ensures forall w: nat, h: nat :: ResizeCanvas(w, h, ResizeRequestOf(DefaultOptions())) == Dims(w, h)
  {
    var o := DefaultOptions();
    assert Parts(o.filters.value) == [];
    assert PlannedBelow(o, show, 1) == [FilterStep("none")];
    assert PlannedBelow(o, show, 4) == [FilterStep("none")];
  }

  class ImageConverter {
    var files: seq<FileEntry>
    var convertedFiles: seq<ConvertedEntry>
    var progress: map<string, Progress>
    var options: ConversionOptions

    /** At most one converted entry per id; each has a progress entry, and
        every completed id has a converted entry. */
    ghost predicate Valid()
      reads this
    {
      && Unique(convertedFiles, ConvertedId)
      && (forall e | e in convertedFiles :: e.id in progress)
      && (forall id | id in progress && progress[id].status == Completed :: HasConverted(convertedFiles, id))
    }

    constructor ()
      ensures Valid()
      ensures files == [] && convertedFiles == [] && progress == map[] && options == DefaultOptions()
    {
      files := [];
      convertedFiles := [];
      progress := map[];
      options := DefaultOptions();
    }

    /** `setOptions`. */
    method SetOptions(o: ConversionOptions)
      requires Valid()
      modifies this
      ensures Valid()
      ensures options == o && files == old(files) && convertedFiles == old(convertedFiles) && progress == old(progress)
    {
      options := o;
    }

    /** `addFiles`: the new entries go after the existing ones, in the order
        given. */
    method AddFiles(newFiles: seq<ImageFile>, ids: seq<string>)
      requires Valid() && |ids| == |newFiles|
      modifies this
      ensures Valid()
      ensures files == old(files) + Entries(newFiles, ids)
      ensures files[..|old(files)|] == old(files)
      ensures convertedFiles == old(convertedFiles) && progress == old(progress) && options == old(options)
    {
      files := files + Entries(newFiles, ids);
    }

    /** `removeFile`: the id leaves all three collections; every other entry
        stays, in its order. */
    method RemoveFile(id: string)
      requires Valid()
      modifies this
      ensures Valid()
      ensures files == Drop(old(files), FileId, id)
      ensures convertedFiles == Drop(old(convertedFiles), ConvertedId, id)
      ensures progress == old(progress) - {id}
      ensures options == old(options)
      ensures (forall f | f in files :: f.id != id) && !HasConverted(convertedFiles, id) && id !in progress
    {
      files := Drop(files, FileId, id);
      DropUnique(convertedFiles, ConvertedId, id);
      var kept := Drop(convertedFiles, ConvertedId, id);
      forall other | other in progress && other != id && progress[other].status == Completed
        ensures HasConverted(kept, other)
      {
        var e :| e in convertedFiles && e.id == other;
        assert e in kept;
      }
      convertedFiles := kept;
      progress := progress - {id};
    }

    /** The first update of `convertFile`: the file is processing, at 0. */
    method StartConversion(id: string)
      requires Valid()
      modifies this
      ensures Valid()
      ensures progress == old(progress)[id := Progress(id, 0, Processing, None)]
      ensures files == old(files) && convertedFiles == old(convertedFiles) && options == old(options)
    {
      progress := progress[id := Progress(id, 0, Processing, None)];
    }

    /** The success branch of `convertFile`: the id's old converted entry
        is replaced by the new one, placed last, and the file completes at
        100. */
    method Complete(entry: FileEntry, result: ImageFile)
      requires Valid()
      modifies this
      ensures Valid()
      ensures files == old(files) && options == old(options)
      ensures convertedFiles == Drop(old(convertedFiles), ConvertedId, entry.id) +
        [ConvertedEntry(entry.id, entry, result, entry.file.size, result.size, options.format)]
      ensures progress == old(progress)[entry.id := Progress(entry.id, 100, Completed, None)]
      ensures forall e | e in old(convertedFiles) && e.id != entry.id :: e in convertedFiles
    {
      var converted := ConvertedEntry(entry.id, entry, result, entry.file.size, result.size, options.format);
      DropUnique(convertedFiles, ConvertedId, entry.id);
      var kept := Drop(convertedFiles, ConvertedId, entry.id);
      var next := kept + [converted];
      assert Unique(next, ConvertedId) by {
        forall i, j | 0 <= i < j < |next| ensures ConvertedId(next[i]) != ConvertedId(next[j]) {
          if j == |kept| {
            assert next[i] == kept[i] && kept[i] in kept;
          } else {
            assert next[i] == kept[i] && next[j] == kept[j];
          }
        }
      }
      forall other | other in progress && other != entry.id && progress[other].status == Completed
        ensures HasConverted(next, other)
      {
        var e :| e in convertedFiles && e.id == other;
        assert e in next;
      }
      assert HasConverted(next, entry.id) by {
        assert converted in next;
      }
      convertedFiles := next;
      progress := progress[entry.id := Progress(entry.id, 100, Completed, None)];
    }

    /** The failure branch of `convertFile`: the file is in error at 0 with
        the message, and the converted files stay. */
    method Fail(entry: FileEntry, message: string)
      requires Valid()
      modifies this
      ensures Valid()
      ensures files == old(files) && options == old(options) && convertedFiles == old(convertedFiles)
      ensures progress == old(progress)[entry.id := Progress(entry.id, 0, Failed, Some(message))]
    {
      progress := progress[entry.id := Progress(entry.id, 0, Failed, Some(message))];
    }

    /** The updates `convertFile` makes once the pipeline has answered. */
    method Finish(entry: FileEntry, outcome: Result<ImageFile>)
      requires Valid()
      modifies this
      ensures Valid()
      ensures files == old(files) && options == old(options)
      ensures outcome.Ok? ==>
        && convertedFiles == Drop(old(convertedFiles), ConvertedId, entry.id) +
             [ConvertedEntry(entry.id, entry, outcome.value, entry.file.size, outcome.value.size, options.format)]
        && progress == old(progress)[entry.id := Progress(entry.id, 100, Completed, None)]
      ensures outcome.Err? ==>
        && convertedFiles == old(convertedFiles)
        && progress == old(progress)[entry.id := Progress(entry.id, 0, Failed, Some(outcome.error))]
      ensures forall e | e in old(convertedFiles) && e.id != entry.id :: e in convertedFiles
    {
      if outcome.Ok? {
        Complete(entry, outcome.value);
      } else {
        Fail(entry, outcome.error);
      }
    }

    /** `convertAndCompressImage(file, options)` under the current options:
        on success every planned stage ran; a failure happens in a stage.
        The outcome is the one `Outcome` describes, and its name, type and
        detected format are those the pipeline promises. */
    method Run(entry: FileEntry, enc: Encoder, show: real -> string, sqrt: real -> real, library: Library)
      returns (outcome: Result<ImageFile>, steps: seq<Step>)
      requires options.rotate.Some? ==> options.rotate.value % 90 == 0
      ensures outcome.Ok? ==> Planned(options, show) <= steps
      ensures outcome.Err? ==> steps != []
      ensures Outcome(entry.file, options, enc, sqrt, library, outcome)
      ensures outcome.Ok? && !TargetEnabled(options) ==> GetImageFormat(outcome.value) == Reported(options.format)
      ensures outcome.Ok? && TargetRuns(options) ==>
        outcome.value.name == ReplaceExtension(entry.file.name, FormatName(options.format)) &&
        outcome.value.mime == MimeType(options.format) && GetImageFormat(outcome.value) == Reported(options.format)
      ensures outcome.Ok? && TargetEnabled(options) && !TargetRuns(options) && 1 <= options.quality ==>
        outcome.value.name == entry.file.name && outcome.value.mime == entry.file.mime
    {
      outcome, steps := ConvertAndCompress(entry.file, options, enc, show, sqrt, library);
    }

    /** `convertFile`, returning what the pipeline produced. On success the
        id's old converted entry is dropped, the new one goes last, and the
        file is completed at 100; on failure the converted files stay and
        the file is in error at 0 with the pipeline's message. Either way no
        other id's progress or converted entry changes. */
    method ConvertFile(entry: FileEntry, enc: Encoder, show: real -> string, sqrt: real -> real, library: Library)
      returns (outcome: Result<ImageFile>)
      requires Valid()
      requires options.rotate.Some? ==> options.rotate.value % 90 == 0
      modifies this
      ensures Valid()
      ensures files == old(files) && options == old(options)
      ensures outcome.Ok? ==>
        && convertedFiles == Drop(old(convertedFiles), ConvertedId, entry.id) +
             [ConvertedEntry(entry.id, entry, outcome.value, entry.file.size, outcome.value.size, options.format)]
        && progress == old(progress)[entry.id := Progress(entry.id, 100, Completed, None)]
      ensures outcome.Err? ==>
        && convertedFiles == old(convertedFiles)
        && progress == old(progress)[entry.id := Progress(entry.id, 0, Failed, Some(outcome.error))]
      ensures Outcome(entry.file, options, enc, sqrt, library, outcome)
      ensures Settled(progress, entry.id)
      ensures forall id | id in old(progress) && id != entry.id :: id in progress && progress[id] == old(progress)[id]
      ensures forall e | e in old(convertedFiles) && e.id != entry.id :: e in convertedFiles
    {
      StartConversion(entry.id);
      ghost var started := progress;
      var steps;
      outcome, steps := Run(entry, enc, show, sqrt, library);
      Finish(entry, outcome);
      Overwritten(old(progress), entry.id, started[entry.id], progress[entry.id]);
    }

    /** One round of `convertAll`: `convertFile` on `entry`, seen through
        what the loop keeps track of (the entry settles, nothing else moves). */
    method ConvertNext(entry: FileEntry, enc: Encoder, show: real -> string, sqrt: real -> real, library: Library)
      requires Valid()
      requires options.rotate.Some? ==> options.rotate.value % 90 == 0
      modifies this
      ensures Valid()
      ensures files == old(files) && options == old(options)
      ensures Settled(progress, entry.id)
      ensures forall id | id in old(progress) && id != entry.id :: id in progress && progress[id] == old(progress)[id]
      ensures forall e | e in old(convertedFiles) && e.id != entry.id :: e in convertedFiles
    {
      var _ := ConvertFile(entry, enc, show, sqrt, library);
    }

    /** `convertAll`: the files converted one after the other in list order,
        which `order`, the ids in the order they were converted, records.
        Afterwards every file has settled, completed with a converted entry
        or in error, and ids of no listed file keep their progress and
        converted entries. */
    method ConvertAll(enc: Encoder, show: real -> string, sqrt: real -> real, library: Library)
      returns (ghost order: seq<string>)
      requires Valid()
      requires options.rotate.Some? ==> options.rotate.value % 90 == 0
      modifies this
      ensures Valid()
      ensures files == old(files) && options == old(options)
      ensures forall f | f in files :: Settled(progress, f.id)
      ensures forall f | f in files && f.id in progress && progress[f.id].status == Completed :: HasConverted(convertedFiles, f.id)
      ensures forall id | id in old(progress) && Unlisted(files, id) :: id in progress && progress[id] == old(progress)[id]
      ensures forall e | e in old(convertedFiles) && Unlisted(files, e.id) :: e in convertedFiles
      ensures order == Ids(files)
    {
      var i := 0;
      order := [];
      while i < |files|
        invariant 0 <= i <= |files|
        invariant order == Ids(files[..i])
        invariant Valid()
        invariant files == old(files) && options == old(options)
        invariant forall j :: 0 <= j < i ==> Settled(progress, files[j].id)
        invariant forall id | id in old(progress) && Unlisted(files, id) :: id in progress && progress[id] == old(progress)[id]
        invariant forall e | e in old(convertedFiles) && Unlisted(files, e.id) :: e in convertedFiles
      {
        var entry := files[i];
        assert entry in files;
        ghost var before := progress;
        ConvertNext(entry, enc, show, sqrt, library);
        order := order + [entry.id];
        IdsExtended(files, i);
        forall j | 0 <= j <= i ensures Settled(progress, files[j].id) {
          if files[j].id != entry.id {
            assert Settled(before, files[j].id);
          }
        }
        i := i + 1;
      }
    }

    /** `clearAll`: all three collections are emptied. */
    method ClearAll()
      requires Valid()
      modifies this
      ensures Valid()
      ensures files == [] && convertedFiles == [] && progress == map[]
      ensures options == old(options)
    {
      files := [];
      convertedFiles := [];
      progress := map[];
    }
  }
}
