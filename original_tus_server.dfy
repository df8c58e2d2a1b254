/** The earlier server, backend/temp-test/original-tus-server.js, around its draft
    `processTusFile`: the same in-flight registry, a completion check that runs when a
    PATCH response has been sent, and a replay at start-up that hands every sidecar with
    a blob to the dispatcher without looking at its offset or size. */
module DraftServer {
  import opened Wrappers
  import opened Text
  import opened Paths
  import opened Storage
  import opened TusServer
  import opened TusEngine
  import opened DraftFinalize

  /** The route prefix of the tus endpoint. */
  const TUS_API_PATH: string := "/api/tus/upload/"

  predicate StartsWith(s: string, prefix: string)
  {
    |prefix| <= |s| && s[..|prefix|] == prefix
  }

  /** The check runs on a PATCH response with status 204 under the tus route. */
  predicate IsPatchCompletion(httpMethod: string, url: string, status: int)
  {
    httpMethod == "PATCH" && StartsWith(url, TUS_API_PATH) && status == 204
  }

  /** The completion check of a finished PATCH request; `read` gives the parsed
      sidecar by its name in the staging directory (None when reading or parsing
      throws). The upload is dispatched, without a size, when the response status is
      204, the sidecar and the blob exist, and the blob's size printed in decimal is
      the `Upload-Length` header. */
  function PatchFinished(fs: FS, cfg: Config, httpMethod: string, url: string, status: int,
                         uploadLength: Option<string>, read: string -> Option<SidecarRecord>): Option<Upload>
  {
    if !IsPatchCompletion(httpMethod, url, status) then None
    else
      var id := url[|TUS_API_PATH|..];
      if !Exists(fs, SidecarPath(cfg, id)) then None
      else match read(id + ".json")
        case None => None
        case Some(rec) =>
          var blob := Blob(cfg, id);
          if !Exists(fs, blob) then None
          else if Truthy(uploadLength) && NatToString(StatSize(fs, blob)) == uploadLength.value
          then Some(Upload(Some(id), rec.metadata, None))
          else None
  }

  /** The check dispatches exactly when every one of its conditions holds; the header
      must be the blob's size written in canonical decimal (no sign, no leading zero). */
  lemma PatchFinishedSpec(fs: FS, cfg: Config, httpMethod: string, url: string, status: int,
                          uploadLength: Option<string>, read: string -> Option<SidecarRecord>)
    ensures var r := PatchFinished(fs, cfg, httpMethod, url, status, uploadLength, read);
      r.Some? <==>
        && IsPatchCompletion(httpMethod, url, status)
        && var id := url[|TUS_API_PATH|..];
          && Exists(fs, SidecarPath(cfg, id)) && read(id + ".json").Some?
          && Exists(fs, Blob(cfg, id))
          && uploadLength.Some? && IsCanonicalDecimal(uploadLength.value)
          && DecimalValue(uploadLength.value) == StatSize(fs, Blob(cfg, id))
    ensures var r := PatchFinished(fs, cfg, httpMethod, url, status, uploadLength, read);
      r.Some? ==> r.value.id == Some(url[|TUS_API_PATH|..]) && r.value.size.None?
  {
    var r := PatchFinished(fs, cfg, httpMethod, url, status, uploadLength, read);
    if IsPatchCompletion(httpMethod, url, status) {
      var id := url[|TUS_API_PATH|..];
      var blob := Blob(cfg, id);
      if !Exists(fs, SidecarPath(cfg, id)) || read(id + ".json").None? || !Exists(fs, blob) {
        assert r.None?;
      } else {
        LengthMatches(StatSize(fs, blob), uploadLength);
        var rec := read(id + ".json").value;
        assert r == if Truthy(uploadLength) && NatToString(StatSize(fs, blob)) == uploadLength.value
          then Some(Upload(Some(id), rec.metadata, None)) else None;
      }
    }
  }

  /** The header test of the check: `String(size) === header` for a present header. */
  lemma LengthMatches(n: nat, h: Option<string>)
    ensures (Truthy(h) && NatToString(n) == h.value) <==>
      (h.Some? && IsCanonicalDecimal(h.value) && DecimalValue(h.value) == n)
  {
    if h.Some? {
      NatToStringMatches(n, h.value);
    }
  }

  /** A header with a leading zero never matches: "010" does not complete a 10-byte upload. */
  lemma PatchLeadingZeroRejected(fs: FS, cfg: Config, url: string, read: string -> Option<SidecarRecord>)
    ensures PatchFinished(fs, cfg, "PATCH", url, 204, Some("010"), read).None?
  {
    PatchFinishedSpec(fs, cfg, "PATCH", url, 204, Some("010"), read);
  }

  /** The ids the start-up replay hands to the dispatcher. */
  function ReplayIds(fs: FS, cfg: Config, names: seq<string>, read: string -> Option<SidecarRecord>): set<string>
  {
    set n | n in names && Replayed(fs, cfg, n, read) :: IdOf(n)
  }

  /** The replay dispatches the sidecar n: its blob path exists, it parses, and its id
      is not empty (an empty id is refused by the dispatcher). */
  predicate Replayed(fs: FS, cfg: Config, n: string, read: string -> Option<SidecarRecord>)
  {
    IsSidecarName(n) && IdOf(n) != "" && Exists(fs, Blob(cfg, IdOf(n))) && read(n).Some?
  }

  class DraftEngine {
    const cfg: Config
    var fs: FS
    var processingFiles: set<string>
    var scheduled: seq<Upload>

    ghost predicate Valid()
      reads this
    {
      && (forall i :: 0 <= i < |scheduled| ==> Truthy(scheduled[i].id))
      && (forall i, j :: 0 <= i < j < |scheduled| ==> scheduled[i].id != scheduled[j].id)
      && processingFiles == IdsOf(scheduled)
    }

    constructor(cfg: Config, fs: FS)
      ensures Valid()
      ensures this.cfg == cfg && this.fs == fs && processingFiles == {} && scheduled == []
    {
      this.cfg := cfg;
      this.fs := fs;
      processingFiles := {};
      scheduled := [];
    }

    /** `handleCompletedUpload(file)` up to the `setTimeout` that schedules the work. */
    method HandleCompletedUpload(file: Upload) returns (accepted: bool)
      requires Valid()
      modifies this
      ensures Valid()
      ensures accepted <==> Truthy(file.id) && file.id.value !in old(processingFiles)
      ensures accepted ==> processingFiles == old(processingFiles) + {file.id.value}
                           && scheduled == old(scheduled) + [file]
      ensures !accepted ==> processingFiles == old(processingFiles) && scheduled == old(scheduled)
      ensures fs == old(fs)
    {
      if !Truthy(file.id) || file.id.value in processingFiles {
        return false;
      }
      var id := file.id.value;
      processingFiles := processingFiles + {id};
      scheduled := scheduled + [file];
      accepted := true;
      assert IdsOf(scheduled) == IdsOf(old(scheduled)) + {id} by {
        forall x | x in IdsOf(scheduled)
          ensures x in IdsOf(old(scheduled)) + {id}
        {
          var i :| 0 <= i < |scheduled| && scheduled[i].id.Some? && scheduled[i].id.value == x;
          if i < |old(scheduled)| {
            assert old(scheduled)[i] == scheduled[i];
          }
        }
        assert scheduled[|scheduled| - 1].id.value == id;
        forall x | x in IdsOf(old(scheduled))
          ensures x in IdsOf(scheduled)
        {
          var i :| 0 <= i < |old(scheduled)| && old(scheduled)[i].id.Some? && old(scheduled)[i].id.value == x;
          assert scheduled[i] == old(scheduled)[i];
        }
      }
    }

    /** The timer fires for scheduled[i]: the draft `processTusFile` runs, its result is
        dropped, and the `finally` removes the id. */
    method Finish(i: nat, iso: string, renameOk: bool)
      requires Valid() && i < |scheduled|
      modifies this
      ensures Valid()
      ensures var file := old(scheduled[i]);
        fs == DraftFinalizeStep(old(fs), cfg, file.id.value, file.metadata, iso, renameOk).fs
      ensures processingFiles == old(processingFiles) - {old(scheduled[i]).id.value}
      ensures scheduled == old(scheduled[..i] + scheduled[i + 1..])
    {
      var file := scheduled[i];
      var ok, fs1 := DraftProcessTusFile(fs, cfg, file.id.value, file.metadata, iso, renameOk);
      fs := fs1;
      var id := file.id.value;
      RemoveAt(scheduled, i);
      processingFiles := processingFiles - {id};
      scheduled := scheduled[..i] + scheduled[i + 1..];
    }

    /** The `finish` listener of a PATCH response. */
    method OnPatchFinish(httpMethod: string, url: string, status: int,
                         uploadLength: Option<string>, read: string -> Option<SidecarRecord>)
      requires Valid()
      modifies this
      ensures Valid()
      ensures fs == old(fs)
      ensures var r := PatchFinished(old(fs), cfg, httpMethod, url, status, uploadLength, read);
        processingFiles == old(processingFiles) + (if r.Some? && Truthy(r.value.id) then {r.value.id.value} else {})
    {
      var r := PatchFinished(fs, cfg, httpMethod, url, status, uploadLength, read);
      if r.Some? {
        var _ := HandleCompletedUpload(r.value);
      }
    }

    /** The start-up replay: every sidecar whose blob path exists and whose content
        parses is dispatched, complete or not. */
    method Replay(names: seq<string>, read: string -> Option<SidecarRecord>)
      requires Valid()
      modifies this
      ensures Valid()
      ensures fs == old(fs)
      ensures processingFiles == old(processingFiles) + ReplayIds(fs, cfg, names, read)
    {
      var k := 0;
      while k < |names|
        invariant 0 <= k <= |names|
        invariant Valid() && fs == old(fs)
        invariant processingFiles == old(processingFiles) + ReplayIds(fs, cfg, names[..k], read)
      {
        ReplayOne(names[k], read);
        assert processingFiles == old(processingFiles) + ReplayIds(fs, cfg, names[..k + 1], read) by {
          assert names[..k + 1] == names[..k] + [names[k]];
          ReplayIdsSnoc(fs, cfg, names[..k], names[k], read);
        }
        k := k + 1;
      }
      assert names[..k] == names;
    }

    /** One entry of the replay loop. */
    method ReplayOne(name: string, read: string -> Option<SidecarRecord>)
      requires Valid()
      modifies this
      ensures Valid()
      ensures fs == old(fs)
      ensures processingFiles == old(processingFiles) + (if Replayed(fs, cfg, name, read) then {IdOf(name)} else {})
    {
      if IsSidecarName(name) {
        var id := IdOf(name);
        if Exists(fs, Blob(cfg, id)) {
          var rec := read(name);
          if rec.Some? {
            var _ := HandleCompletedUpload(Upload(Some(id), rec.value.metadata, None));
          }
        }
      }
    }
  }

  lemma ReplayIdsSnoc(fs: FS, cfg: Config, names: seq<string>, n: string, read: string -> Option<SidecarRecord>)
    ensures ReplayIds(fs, cfg, names + [n], read) == ReplayIds(fs, cfg, names, read) +
      (if Replayed(fs, cfg, n, read) then {IdOf(n)} else {})
  {
    var all := names + [n];
    forall x | x in ReplayIds(fs, cfg, all, read)
      ensures x in ReplayIds(fs, cfg, names, read) + (if Replayed(fs, cfg, n, read) then {IdOf(n)} else {})
    {
      var y :| y in all && Replayed(fs, cfg, y, read) && IdOf(y) == x;
      if y != n {
        assert y in names;
      }
    }
    assert n in all;
    forall x | x in ReplayIds(fs, cfg, names, read)
      ensures x in ReplayIds(fs, cfg, all, read)
    {
      var y :| y in names && Replayed(fs, cfg, y, read) && IdOf(y) == x;
      assert y in all;
    }
  }

  /** The replay dispatches a partial upload that the scan of the current engine skips:
      a 10-byte upload with 3 bytes received. */
  lemma ReplayIgnoresOffset(cfg: Config, read: string -> Option<SidecarRecord>, m: Metadata)
    requires read("7.json") == Some(SidecarRecord(Number(10), Number(3), m))
    ensures var fs: FS := map[Blob(cfg, "7") := File(3)];
      && "7" in ReplayIds(fs, cfg, ["7", "7.json"], read)
      && Plan(["7", "7.json"], read) == [ScanIncomplete("7")]
  {
    var names := ["7", "7.json"];
    var fs: FS := map[Blob(cfg, "7") := File(3)];
    assert Replayed(fs, cfg, "7.json", read);
    assert IsSidecarName("7.json") && IdOf("7.json") == "7";
    assert !IsSidecarName("7");
    assert "7" in BlobNames(names);
    assert names[..1] == ["7"];
    assert PlanPrefix(names, 1, read) == [];
    assert Classify("7.json", BlobNames(names), read) == ScanIncomplete("7");
  }
}
