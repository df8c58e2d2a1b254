/** The byte and file accounting of frontend/upload.js. The page keeps module-level
    counters and the `currentUploads` dictionary (upload id to the bytes reported so far);
    the tus client's `onProgress`, `onSuccess` and `onError` callbacks and `cancelUpload`
    update them. The counters are the fields of an UploadSession; the value-level
    Counters and the functions on it say what each callback does, and the lemmas follow
    whole sessions. The tus client itself, the DOM, timers, speed estimates and the
    log request are outside the model. */
module UploadClient {
  import opened Wrappers
  import opened Text
  import opened UriCodec
  import opened TusServer

  /** An entry of `filesWithPaths`: the File object's name, size, MIME type and
      modification time, and the optional relative path within a dropped folder. */
  datatype FileItem = FileItem(name: string, size: nat, mime: string, lastModified: nat, relativePath: Option<string>)

  /** `relativePath || file.name`. */
  function SourcePath(item: FileItem): string
  {
    OrElse(item.relativePath, item.name)
  }

  /** A value spliced into a template string; an absent one reads "undefined". */
  function Template(v: Option<string>): string
  {
    match v
    case None => "undefined"
    case Some(s) => s
  }

  /** The key of the upload in `currentUploads`. */
  function FileId(item: FileItem): string
  {
    Template(item.relativePath) + "-" + NatToString(item.size) + "-" + NatToString(item.lastModified)
  }

  /** The metadata object handed to the tus client. */
  datatype ClientMetadata = ClientMetadata(filename: string, relativePath: string, targetPath: string, filetype: Option<string>)

  function MetadataFor(item: FileItem, target: string): ClientMetadata
  {
    ClientMetadata(item.name, EncodeURIComponent(SourcePath(item)), target,
                   if item.mime != "" then Some(item.mime) else None)
  }

  /** The fields of the metadata as the server reads them. */
  function AsServerMetadata(m: ClientMetadata): Metadata
  {
    Metadata(Some(m.filename), Some(m.relativePath), Some(m.targetPath))
  }

  /** The counters and the dictionary of uploads in flight. */
  datatype Counters = Counters(
    isCancelled: bool,
    currentUploads: map<string, int>,
    totalBytesToUpload: int,
    totalBytesUploaded: int,
    uploadedFileCount: int,
    totalFilesToUpload: int)

  /** The state `showUploadModal` resets to. */
  function Fresh(): Counters
  {
    Counters(false, map[], 0, 0, 0, 0)
  }

  /** `filesWithPaths.reduce((sum, item) => sum + item.file.size, 0)`. */
  function SumSizes(items: seq<FileItem>): nat
  {
    if items == [] then 0 else SumSizes(items[..|items| - 1]) + items[|items| - 1].size
  }

  /** The dictionary after the uploads are registered in order, each at 0 bytes. */
  function Registered(items: seq<FileItem>): map<string, int>
  {
    if items == [] then map[]
    else Registered(items[..|items| - 1])[FileId(items[|items| - 1]) := 0]
  }

  lemma RegisteredSnoc(items: seq<FileItem>, k: nat)
    requires k < |items|
    ensures Registered(items[..k + 1]) == Registered(items[..k])[FileId(items[k]) := 0]
  {
    assert items[..k + 1][..k] == items[..k];
  }

  function FileIds(items: seq<FileItem>): set<string>
  {
    set i | 0 <= i < |items| :: FileId(items[i])
  }

  /** The state once `startTusUpload` has registered every upload. */
  function Started(items: seq<FileItem>): Counters
  {
    Counters(false, Registered(items), SumSizes(items), 0, 0, |items|)
  }

  /** `onProgress(bytesUploaded)` of the upload with the given id. */
  function Progress(c: Counters, id: string, bytesUploaded: nat): Counters
  {
    if id in c.currentUploads then
      c.(totalBytesUploaded := c.totalBytesUploaded + (bytesUploaded - c.currentUploads[id]),
         currentUploads := c.currentUploads[id := bytesUploaded])
    else c
  }

  /** `onSuccess` of the upload with the given id and file size. */
  function Success(c: Counters, id: string, size: nat): Counters
  {
    if c.isCancelled || id !in c.currentUploads then c
    else
      var delta := size - c.currentUploads[id];
      c.(totalBytesUploaded := if delta > 0 then c.totalBytesUploaded + delta else c.totalBytesUploaded,
         uploadedFileCount := c.uploadedFileCount + 1,
         currentUploads := c.currentUploads - {id})
  }

  /** `onError` of the upload with the given id. */
  function Error(c: Counters, id: string): Counters
  {
    if c.isCancelled then c
    else c.(currentUploads := c.currentUploads - {id}, totalFilesToUpload := c.totalFilesToUpload - 1)
  }

  /** Every state the page reaches: a cancelled session has no uploads left. */
  predicate Consistent(c: Counters)
  {
    c.isCancelled ==> c.currentUploads == map[]
  }

  /** `cancelUpload`: the uploads are aborted and forgotten, once. */
  function Cancel(c: Counters): Counters
  {
    if c.isCancelled then c else c.(isCancelled := true, currentUploads := map[])
  }

  /** `hideUploadModal`: cancels unless every counted file has finished. */
  function Hide(c: Counters): Counters
  {
    if c.uploadedFileCount > 0 && c.uploadedFileCount == c.totalFilesToUpload then c else Cancel(c)
  }

  /** The page's state. */
  class UploadSession {
    var isCancelled: bool
    var currentUploads: map<string, int>
    var totalBytesToUpload: int
    var totalBytesUploaded: int
    var uploadedFileCount: int
    var totalFilesToUpload: int

    function State(): Counters
      reads this
    {
      Counters(isCancelled, currentUploads, totalBytesToUpload, totalBytesUploaded, uploadedFileCount, totalFilesToUpload)
    }

    /** The module-level initial values. */
    constructor ()
      ensures State() == Fresh()
    {
      isCancelled := false;
      currentUploads := map[];
      totalBytesToUpload := 0;
      totalBytesUploaded := 0;
      uploadedFileCount := 0;
      totalFilesToUpload := 0;
    }

    /** `startTusUpload`: reset, set the totals, then build each upload's metadata and
        register it at 0 bytes. */
    method StartTusUpload(items: seq<FileItem>, target: string) returns (metas: seq<ClientMetadata>)
      modifies this
      ensures State() == Started(items)
      ensures |metas| == |items|
      ensures forall i :: 0 <= i < |items| ==> metas[i] == MetadataFor(items[i], target)
    {
      isCancelled := false;
      currentUploads := map[];
      totalBytesToUpload := 0;
      totalBytesUploaded := 0;
      uploadedFileCount := 0;
      totalFilesToUpload := 0;

      totalFilesToUpload := |items|;
      totalBytesToUpload := SumSizes(items);
      metas := [];
      for k := 0 to |items|
        invariant !isCancelled
        invariant currentUploads == Registered(items[..k])
        invariant |metas| == k
        invariant forall i :: 0 <= i < k ==> metas[i] == MetadataFor(items[i], target)
        invariant totalBytesUploaded == 0 && uploadedFileCount == 0
        invariant totalFilesToUpload == |items| && totalBytesToUpload == SumSizes(items)
      {
        if isCancelled {
          continue;
        }
        var item := items[k];
        var metadata := BuildMetadata(item, target);
        metas := metas + [metadata];
        RegisteredSnoc(items, k);
        currentUploads := currentUploads[FileId(item) := 0];
      }
      assert items[..|items|] == items;
    }

    /** The metadata object of one upload; `filetype` is added only for a typed file. */
    static method BuildMetadata(item: FileItem, target: string) returns (metadata: ClientMetadata)
      ensures metadata == MetadataFor(item, target)
    {
      metadata := ClientMetadata(item.name, EncodeURIComponent(SourcePath(item)), target, None);
      if item.mime != "" {
        metadata := metadata.(filetype := Some(item.mime));
      }
    }

    method OnProgress(id: string, bytesUploaded: nat)
      modifies this
      ensures State() == Progress(old(State()), id, bytesUploaded)
    {
      if id in currentUploads {
        var previousUploaded := currentUploads[id];
        var delta := bytesUploaded - previousUploaded;
        totalBytesUploaded := totalBytesUploaded + delta;
        currentUploads := currentUploads[id := bytesUploaded];
      }
    }

    method OnSuccess(id: string, size: nat)
      modifies this
      ensures State() == Success(old(State()), id, size)
    {
      if isCancelled {
        return;
      }
      if id in currentUploads {
        var delta := size - currentUploads[id];
        if delta > 0 {
          totalBytesUploaded := totalBytesUploaded + delta;
        }
        uploadedFileCount := uploadedFileCount + 1;
        currentUploads := currentUploads - {id};
      }
    }

    method OnError(id: string)
      modifies this
      ensures State() == Error(old(State()), id)
    {
      if isCancelled {
        return;
      }
      if id in currentUploads {
        currentUploads := currentUploads - {id};
      }
      totalFilesToUpload := totalFilesToUpload - 1;
    }

    method CancelUpload()
      modifies this
      ensures State() == Cancel(old(State()))
    {
      if isCancelled {
        return;
      }
      isCancelled := true;
      currentUploads := map[];
    }

    method HideUploadModal()
      modifies this
      ensures State() == Hide(old(State()))
    {
      if !(uploadedFileCount > 0 && uploadedFileCount == totalFilesToUpload) {
        CancelUpload();
      }
    }
  }

  // ---------------------------------------------------------------- properties

  /** The server recovers exactly the path the client chose, and a MIME type is sent
      exactly when the file has one. */
  lemma ServerRecoversPath(item: FileItem, target: string)
    ensures DecodedPath(AsServerMetadata(MetadataFor(item, target))) == Some(SourcePath(item))
    ensures MetadataFor(item, target).filetype.Some? <==> item.mime != ""
    ensures MetadataFor(item, target).filetype.Some? ==> MetadataFor(item, target).filetype.value == item.mime
  {
    var p := SourcePath(item);
    DecodeEncode(p);
    if p == "" {
      assert !Truthy(item.relativePath) && item.name == "";
    } else {
      assert EncodeURIComponent(p) == EncodeChar(p[0]) + EncodeURIComponent(p[1..]);
      assert |EncodeChar(p[0])| >= 1;
    }
  }

  /** Starting registers one entry per distinct upload id, each at 0 bytes. */
  lemma {:induction false} RegisteredSpec(items: seq<FileItem>)
    ensures Registered(items).Keys == FileIds(items)
    ensures forall id :: id in Registered(items) ==> Registered(items)[id] == 0
  {
    if items != [] {
      var init := items[..|items| - 1];
      RegisteredSpec(init);
      FileIdsSnoc(items);
    }
  }

  lemma FileIdsSnoc(items: seq<FileItem>)
    requires items != []
    ensures FileIds(items) == FileIds(items[..|items| - 1]) + {FileId(items[|items| - 1])}
  {
    var init := items[..|items| - 1];
    forall id | id in FileIds(items)
      ensures id in FileIds(init) + {FileId(items[|items| - 1])}
    {
      var i :| 0 <= i < |items| && FileId(items[i]) == id;
      if i < |init| {
        assert init[i] == items[i];
        assert id in FileIds(init) by {
          assert 0 <= i < |init| && FileId(init[i]) == id;
        }
      } else {
        assert id == FileId(items[|items| - 1]);
      }
    }
    forall id | id in FileIds(init)
      ensures id in FileIds(items)
    {
      var i :| 0 <= i < |init| && FileId(init[i]) == id;
      assert items[i] == init[i];
    }
  }

  /** The total of two lists of files is the sum of their totals. */
  lemma {:induction false} SumSizesAppend(a: seq<FileItem>, b: seq<FileItem>)
    ensures SumSizes(a + b) == SumSizes(a) + SumSizes(b)
    decreases |b|
  {
    if b == [] {
      assert a + b == a;
    } else {
      var b' := b[..|b| - 1];
      assert (a + b)[..|a + b| - 1] == a + b';
      assert (a + b)[|a + b| - 1] == b[|b| - 1];
      SumSizesAppend(a, b');
    }
  }

  /** Reports for one upload, taken in order. */
  function ProgressAll(c: Counters, id: string, reports: seq<nat>): Counters
  {
    if reports == [] then c else Progress(ProgressAll(c, id, reports[..|reports| - 1]), id, reports[|reports| - 1])
  }

  /** The deltas of successive reports add up: after the reports, the total has grown
      by the last report less what the upload had reported before, and only the
      upload's entry and the total change. */
  lemma {:induction false} ProgressTelescopes(c: Counters, id: string, reports: seq<nat>)
    requires id in c.currentUploads && reports != []
    ensures var d := ProgressAll(c, id, reports);
      && d.totalBytesUploaded == c.totalBytesUploaded + reports[|reports| - 1] - c.currentUploads[id]
      && d.currentUploads == c.currentUploads[id := reports[|reports| - 1]]
      && d.(totalBytesUploaded := c.totalBytesUploaded, currentUploads := c.currentUploads) == c
  {
    var init := reports[..|reports| - 1];
    if init != [] {
      ProgressTelescopes(c, id, init);
    }
  }

  /** A freshly registered upload that reports progress and then succeeds adds exactly
      its size to the total when no report exceeded the size, and its last report when
      one did; it is counted once and leaves the dictionary. */
  lemma CompletedFileCountsItsSize(c: Counters, id: string, reports: seq<nat>, size: nat)
    requires !c.isCancelled && id in c.currentUploads && c.currentUploads[id] == 0
    ensures var d := Success(ProgressAll(c, id, reports), id, size);
      var last := if reports == [] then 0 else reports[|reports| - 1];
      && d.totalBytesUploaded == c.totalBytesUploaded + (if last <= size then size else last)
      && d.uploadedFileCount == c.uploadedFileCount + 1
      && d.currentUploads == c.currentUploads - {id}
  {
    if reports != [] {
      ProgressTelescopes(c, id, reports);
    }
  }

  /** A second success for the same upload changes nothing. */
  lemma SuccessOnce(c: Counters, id: string, size: nat, size': nat)
    ensures Success(Success(c, id, size), id, size') == Success(c, id, size)
  {
  }

  /** Cancelling twice is cancelling once, and once cancelled no callback changes
      anything. */
  lemma CancelIdempotent(c: Counters, id: string, bytes: nat, size: nat)
    requires Consistent(c)
    ensures Cancel(Cancel(c)) == Cancel(c)
    ensures Progress(Cancel(c), id, bytes) == Cancel(c)
    ensures Success(Cancel(c), id, size) == Cancel(c)
    ensures Error(Cancel(c), id) == Cancel(c)
    ensures Cancel(c).isCancelled && Cancel(c).currentUploads == map[]
  {
  }

  /** What happens to the page's counters: `startTusUpload`, the tus callbacks, the
      cancel button and `hideUploadModal`. */
  datatype Event =
    | Start(items: seq<FileItem>)
    | Report(id: string, bytes: nat)
    | Succeeded(id: string, size: nat)
    | Failed(id: string)
    | CancelClicked
    | HideClicked

  function Apply(c: Counters, e: Event): Counters
  {
    match e
    case Start(items) => Started(items)
    case Report(id, bytes) => Progress(c, id, bytes)
    case Succeeded(id, size) => Success(c, id, size)
    case Failed(id) => Error(c, id)
    case CancelClicked => Cancel(c)
    case HideClicked => Hide(c)
  }

  /** The counters after the events, from the module's initial values. */
  function Run(events: seq<Event>): Counters
  {
    if events == [] then Fresh() else Apply(Run(events[..|events| - 1]), events[|events| - 1])
  }

  /** Every event keeps a cancelled session empty. */
  lemma ApplyConsistent(c: Counters, e: Event)
    requires Consistent(c)
    ensures Consistent(Apply(c, e))
  {
  }

  /** Every state the page reaches is consistent. */
  lemma {:induction false} RunConsistent(events: seq<Event>)
    ensures Consistent(Run(events))
  {
    if events != [] {
      RunConsistent(events[..|events| - 1]);
      ApplyConsistent(Run(events[..|events| - 1]), events[|events| - 1]);
    }
  }

  /** In every reachable session, once cancelled, no callback and no further cancel
      changes anything, until the next `startTusUpload`. */
  lemma CancelledSessionIgnoresCallbacks(events: seq<Event>, id: string, bytes: nat, size: nat)
    ensures var c := Run(events);
      c.isCancelled ==>
        && Progress(c, id, bytes) == c && Success(c, id, size) == c && Error(c, id) == c
        && Cancel(c) == c && Hide(c).isCancelled
  {
    RunConsistent(events);
    CancelIdempotent(Run(events), id, bytes, size);
  }

  /** Each upload ends with a success or an error; `ok[i]` says which. */
  function Settle(c: Counters, items: seq<FileItem>, ok: seq<bool>): Counters
    requires |ok| == |items|
  {
    if items == [] then c
    else
      var prev := Settle(c, items[..|items| - 1], ok[..|ok| - 1]);
      var item := items[|items| - 1];
      if ok[|ok| - 1] then Success(prev, FileId(item), item.size) else Error(prev, FileId(item))
  }

  function CountTrue(ok: seq<bool>): nat
  {
    if ok == [] then 0 else CountTrue(ok[..|ok| - 1]) + (if ok[|ok| - 1] then 1 else 0)
  }

  predicate DistinctIds(items: seq<FileItem>)
  {
    forall i, j :: 0 <= i < j < |items| ==> FileId(items[i]) != FileId(items[j])
  }

  /** Settling uploads with distinct registered ids counts each success once, takes each
      failure off the number of files and removes every settled entry. */
  lemma {:induction false} SettleSpec(c: Counters, items: seq<FileItem>, ok: seq<bool>)
    requires |ok| == |items| && !c.isCancelled && DistinctIds(items)
    requires FileIds(items) <= c.currentUploads.Keys
    ensures var d := Settle(c, items, ok);
      && !d.isCancelled
      && d.uploadedFileCount == c.uploadedFileCount + CountTrue(ok)
      && d.totalFilesToUpload == c.totalFilesToUpload - (|ok| - CountTrue(ok))
      && d.currentUploads.Keys == c.currentUploads.Keys - FileIds(items)
  {
    if items != [] {
      var init := items[..|items| - 1];
      var last := items[|items| - 1];
      FileIdsSnoc(items);
      assert DistinctIds(init) by {
        forall i, j | 0 <= i < j < |init|
          ensures FileId(init[i]) != FileId(init[j])
        {
          assert init[i] == items[i] && init[j] == items[j];
        }
      }
      SettleSpec(c, init, ok[..|ok| - 1]);
      forall i | 0 <= i < |init|
        ensures FileId(init[i]) != FileId(last)
      {
        assert init[i] == items[i];
      }
    }
  }

  /** A session whose uploads have distinct ids and have all settled keeps its modal
      result exactly when at least one succeeded: every settled file is then counted,
      so hiding the modal cancels nothing. When none succeeded, hiding cancels. */
  lemma SettledSession(items: seq<FileItem>, ok: seq<bool>)
    requires |ok| == |items| && DistinctIds(items)
    ensures var d := Settle(Started(items), items, ok);
      && d.uploadedFileCount == d.totalFilesToUpload == CountTrue(ok)
      && d.currentUploads == map[]
      && (Hide(d) == d <==> CountTrue(ok) > 0)
  {
    RegisteredSpec(items);
    SettleSpec(Started(items), items, ok);
    var d := Settle(Started(items), items, ok);
    assert d.currentUploads.Keys == {};
    CountTrueBound(ok);
  }

  lemma {:induction false} CountTrueBound(ok: seq<bool>)
    ensures CountTrue(ok) <= |ok|
  {
    if ok != [] {
      CountTrueBound(ok[..|ok| - 1]);
    }
  }

  // ---------------------------------------------------------------- the log summary

  function Quote(item: FileItem): string
  {
    "'" + SourcePath(item) + "'"
  }

  function JoinComma(parts: seq<string>): string
  {
    if parts == [] then ""
    else if |parts| == 1 then parts[0]
    else JoinComma(parts[..|parts| - 1]) + ", " + parts[|parts| - 1]
  }

  function Quoted(items: seq<FileItem>): (r: seq<string>)
    ensures |r| == |items|
  {
    seq(|items|, i requires 0 <= i < |items| => Quote(items[i]))
  }

  /** The counts that close the summary of n files. */
  function CountTail(n: nat): string
  {
    (if n > 2 then " 외 " + NatToString(n - 2) + "개" else "") + " (" + NatToString(n) + "개)"
  }

  /** The `fileSummary` of the upload log line. */
  function FileSummary(items: seq<FileItem>): string
  {
    var n := |items|;
    if n == 1 then Quote(items[0])
    else JoinComma(Quoted(items[..if n < 2 then n else 2])) + CountTail(n)
  }

  /** One file is named alone; otherwise the first two files, at most, are named and the
      counts follow. */
  lemma FileSummaryShape(items: seq<FileItem>)
    ensures |items| == 0 ==> FileSummary(items) == CountTail(0)
    ensures |items| == 1 ==> FileSummary(items) == Quote(items[0])
    ensures |items| >= 2 ==> FileSummary(items) == Quote(items[0]) + ", " + Quote(items[1]) + CountTail(|items|)
  {
    if |items| == 0 {
      assert Quoted(items[..0]) == [];
    } else if |items| >= 2 {
      FirstTwo(items);
    }
  }

  lemma FirstTwo(items: seq<FileItem>)
    requires |items| >= 2
    ensures JoinComma(Quoted(items[..2])) == Quote(items[0]) + ", " + Quote(items[1])
  {
    var q := Quoted(items[..2]);
    assert q == [Quote(items[0]), Quote(items[1])];
    assert q[..1] == [Quote(items[0])];
  }
}
