/** The version files of a container product, `data/<product>/versions/<title>.yaml`:
    the `dump-versions` command that writes one file per catalog version, and the
    `clone` command that derives a new version file from an existing one by
    text replacement. */
module VersionFiles {
  import opened Common
  import opened FileStore
  import opened Replace
  import opened Catalog

  /** The file a catalog version is dumped to. */
  function PathOf<F>(product: string, v: CatalogVersion<F>): Path
  {
    VersionFile(product, v.versionTitle)
  }

  /** No two versions share a title, so no two share a file. */
  predicate DistinctTitles<F>(versions: seq<CatalogVersion<F>>)
  {
    forall i, j :: 0 <= i < j < |versions| ==> versions[i].versionTitle != versions[j].versionTitle
  }

  /** Every version file holds the marshalled version. */
  predicate AllHold<F>(d: Disk, product: string, versions: seq<CatalogVersion<F>>,
                       marshal: CatalogVersion<F> -> Result<Bytes, string>)
  {
    forall k :: 0 <= k < |versions| ==>
      marshal(versions[k]).Success? && d.Read(PathOf(product, versions[k])) == Success(marshal(versions[k]).value)
  }

  // ---- dumpVersions ----

  /** The write loop of dumpVersions as the Go code has it: each version is
      marshalled and written if its file differs, and the loop returns success at
      the first version whose file is already up to date. */
  function DumpLoop<F>(d: Disk, product: string, versions: seq<CatalogVersion<F>>,
                       marshal: CatalogVersion<F> -> Result<Bytes, string>): (Outcome, Disk)
    decreases |versions|
  {
    if versions == [] then (Pass, d)
    else
      match marshal(versions[0])
      case Failure(m) => (Fail(External(m)), d)
      case Success(data) =>
        var (w, d1) := d.WriteIfChanged(PathOf(product, versions[0]), data);
        match w
        case Failed(e) => (Fail(e), d1)
        case Unchanged => (Pass, d1)
        case Written => DumpLoop(d1, product, versions[1..], marshal)
  }

  /** dumpVersions: the entity is looked up with the container-product lookup, then
      described, then its versions are written. `describe` stands for DescribeEntity
      followed by json.Unmarshal. */
  function DumpVersionsSpec<F, D>(d: Disk, product: string, answer: Result<Page, ApiError>,
                                  describe: string -> Result<EntityDetails<F, D>, string>,
                                  marshal: CatalogVersion<F> -> Result<Bytes, string>): (Outcome, Disk)
  {
    match LookupContainerEntity(product, answer)
    case Failure(e) => (Fail(e), d)
    case Success(id) =>
      match describe(id)
      case Failure(m) => (Fail(External(m)), d)
      case Success(details) => DumpLoop(d, product, details.versions, marshal)
  }

  /** The loop changes no file but the versions' own, and no write permission. */
  lemma {:induction false} DumpLoopFrame<F>(d: Disk, product: string, versions: seq<CatalogVersion<F>>,
                                            marshal: CatalogVersion<F> -> Result<Bytes, string>, q: Path)
    requires forall k :: 0 <= k < |versions| ==> q != PathOf(product, versions[k])
    ensures DumpLoop(d, product, versions, marshal).1.Read(q) == d.Read(q)
    ensures DumpLoop(d, product, versions, marshal).1.readOnly == d.readOnly
    decreases |versions|
  {
    if versions != [] && marshal(versions[0]).Success? {
      var (w, d1) := d.WriteIfChanged(PathOf(product, versions[0]), marshal(versions[0]).value);
      if w == Written {
        DumpLoopFrame(d1, product, versions[1..], marshal, q);
      }
    }
  }

  /** The loop stopped at version `n`: every version before `n` had a file that
      differed from its data in `d` and now holds it, version `n` (if any) is the
      first whose file already held its data, and the files of version `n` and after
      are as they were in `d`. */
  predicate StoppedAt<F>(d: Disk, dn: Disk, product: string, versions: seq<CatalogVersion<F>>,
                         marshal: CatalogVersion<F> -> Result<Bytes, string>, n: int)
  {
    && 0 <= n <= |versions|
    && (forall j :: 0 <= j < n ==> !AllHold(d, product, [versions[j]], marshal))
    && AllHold(dn, product, versions[..n], marshal)
    && (n < |versions| ==> AllHold(d, product, [versions[n]], marshal))
    && forall k :: n <= k < |versions| ==> dn.Read(PathOf(product, versions[k])) == d.Read(PathOf(product, versions[k]))
  }

  /** A first version written, and the rest of the loop stopped at `m`: the whole
      loop stopped at `m + 1`. */
  lemma StoppedAtAfterWrite<F>(d: Disk, d1: Disk, dn: Disk, product: string, versions: seq<CatalogVersion<F>>,
                               marshal: CatalogVersion<F> -> Result<Bytes, string>, m: int)
    requires versions != [] && DistinctTitles(versions)
    requires marshal(versions[0]).Success?
    requires d.Read(PathOf(product, versions[0])) != Success(marshal(versions[0]).value)
    requires d1.Read(PathOf(product, versions[0])) == Success(marshal(versions[0]).value)
    requires forall q :: q != PathOf(product, versions[0]) ==> d1.Read(q) == d.Read(q)
    requires dn.Read(PathOf(product, versions[0])) == d1.Read(PathOf(product, versions[0]))
    requires StoppedAt(d1, dn, product, versions[1..], marshal, m)
    ensures StoppedAt(d, dn, product, versions, marshal, m + 1)
  {
    var tail := versions[1..];
    forall k | 1 <= k < |versions|
      ensures d1.Read(PathOf(product, versions[k])) == d.Read(PathOf(product, versions[k]))
    {
      assert versions[0].versionTitle != versions[k].versionTitle;
    }
    assert AllHold(dn, product, versions[..m + 1], marshal) by {
      forall k | 0 <= k < m + 1
        ensures marshal(versions[k]).Success? &&
                dn.Read(PathOf(product, versions[k])) == Success(marshal(versions[k]).value)
      {
        if k > 0 {
          assert versions[k] == tail[..m][k - 1];
        }
      }
    }
    forall j | 0 <= j < m + 1
      ensures !AllHold(d, product, [versions[j]], marshal)
    {
      if j > 0 {
        assert versions[j] == tail[j - 1];
        assert !AllHold(d1, product, [tail[j - 1]], marshal);
      } else {
        assert [versions[0]][0] == versions[0];
      }
    }
    if m + 1 < |versions| {
      assert versions[m + 1] == tail[m];
      assert AllHold(d, product, [versions[m + 1]], marshal);
    }
    assert forall k :: m + 1 <= k < |versions| ==> versions[k] == tail[k - 1];
  }

  /** What a successful dump leaves behind, as written: for some position `n`, the
      versions before `n` all had stale files and now hold their data, version `n`
      (if any) is the first whose file was already up to date and stopped the loop,
      and the files of version `n` and after are as they were. */
  lemma {:induction false} DumpLoopStopsAtFirstUnchanged<F>(d: Disk, product: string, versions: seq<CatalogVersion<F>>,
                                                            marshal: CatalogVersion<F> -> Result<Bytes, string>)
    requires DistinctTitles(versions)
    ensures DumpLoop(d, product, versions, marshal).0 == Pass ==>
              exists n :: StoppedAt(d, DumpLoop(d, product, versions, marshal).1, product, versions, marshal, n)
    decreases |versions|
  {
    var (r, dn) := DumpLoop(d, product, versions, marshal);
    if versions == [] {
      assert StoppedAt(d, dn, product, versions, marshal, 0);
    } else if r == Pass {
      var data := marshal(versions[0]).value;
      var p0 := PathOf(product, versions[0]);
      var (w, d1) := d.WriteIfChanged(p0, data);
      if w == Unchanged {
        assert AllHold(d, product, versions[..0], marshal);
        assert AllHold(d, product, [versions[0]], marshal);
        assert StoppedAt(d, dn, product, versions, marshal, 0);
      } else {
        var tail := versions[1..];
        assert DistinctTitles(tail);
        DumpLoopStopsAtFirstUnchanged(d1, product, tail, marshal);
        var m :| StoppedAt(d1, dn, product, tail, marshal, m);
        DumpLoopFrame(d1, product, tail, marshal, p0);
        StoppedAtAfterWrite(d, d1, dn, product, versions, marshal, m);
      }
    }
  }

  /** Version `v`'s step cannot succeed on `d`: it does not marshal, its file exists
      but cannot be read, or its file must be written and the write is refused. */
  predicate Blocks<F>(d: Disk, product: string, v: CatalogVersion<F>,
                      marshal: CatalogVersion<F> -> Result<Bytes, string>)
  {
    var p := PathOf(product, v);
    || marshal(v).Failure?
    || (d.Read(p).Failure? && !d.Read(p).error.NotExist?)
    || (d.Read(p) != Success(marshal(v).value) && p in d.readOnly)
  }

  /** The loop reaches version `k` and fails there: every earlier version had a
      stale file in `d`, and version `k` blocks. */
  predicate FailsAt<F>(d: Disk, product: string, versions: seq<CatalogVersion<F>>,
                       marshal: CatalogVersion<F> -> Result<Bytes, string>, k: int)
  {
    && 0 <= k < |versions|
    && (forall j :: 0 <= j < k ==> !AllHold(d, product, [versions[j]], marshal))
    && Blocks(d, product, versions[k], marshal)
  }

  /** A first version with a stale file written: the loop fails at a later version
      of the whole list exactly when it fails there in the rest of the list. */
  lemma FailsAtAfterWrite<F>(d: Disk, d1: Disk, product: string, versions: seq<CatalogVersion<F>>,
                             marshal: CatalogVersion<F> -> Result<Bytes, string>)
    requires versions != [] && DistinctTitles(versions)
    requires !AllHold(d, product, [versions[0]], marshal)
    requires d1.readOnly == d.readOnly
    requires forall q :: q != PathOf(product, versions[0]) ==> d1.Read(q) == d.Read(q)
    ensures forall k :: 1 <= k < |versions| ==>
              (FailsAt(d, product, versions, marshal, k) <==> FailsAt(d1, product, versions[1..], marshal, k - 1))
  {
    var tail := versions[1..];
    forall k | 1 <= k < |versions|
      ensures d1.Read(PathOf(product, versions[k])) == d.Read(PathOf(product, versions[k]))
    {
      assert versions[0].versionTitle != versions[k].versionTitle;
    }
    forall k | 1 <= k < |versions|
      ensures FailsAt(d, product, versions, marshal, k) <==> FailsAt(d1, product, tail, marshal, k - 1)
    {
      assert versions[k] == tail[k - 1];
      forall j | 1 <= j < k
        ensures AllHold(d, product, [versions[j]], marshal) <==> AllHold(d1, product, [tail[j - 1]], marshal)
      {
        assert versions[j] == tail[j - 1];
      }
      if FailsAt(d1, product, tail, marshal, k - 1) {
        forall j | 0 <= j < k
          ensures !AllHold(d, product, [versions[j]], marshal)
        {
          if j > 0 {
            assert !AllHold(d1, product, [tail[j - 1]], marshal);
          }
        }
      }
    }
  }

  /** When the dump loop as written fails: exactly when some version blocks and
      every version before it had a stale file. A version whose file is already up
      to date before any blocking one makes the loop succeed. */
  lemma {:induction false} DumpLoopFailsExactly<F>(d: Disk, product: string, versions: seq<CatalogVersion<F>>,
                                                   marshal: CatalogVersion<F> -> Result<Bytes, string>)
    requires DistinctTitles(versions)
    ensures DumpLoop(d, product, versions, marshal).0.Fail? <==>
              exists k :: FailsAt(d, product, versions, marshal, k)
    decreases |versions|
  {
    if versions != [] {
      var p0 := PathOf(product, versions[0]);
      if marshal(versions[0]).Failure? {
        assert FailsAt(d, product, versions, marshal, 0);
      } else {
        var data := marshal(versions[0]).value;
        var (w, d1) := d.WriteIfChanged(p0, data);
        if w.Failed? {
          assert FailsAt(d, product, versions, marshal, 0);
        } else if w == Unchanged {
          assert AllHold(d, product, [versions[0]], marshal);
          assert forall k :: 0 <= k < |versions| ==> !FailsAt(d, product, versions, marshal, k);
        } else {
          var tail := versions[1..];
          assert DistinctTitles(tail);
          DumpLoopFailsExactly(d1, product, tail, marshal);
          assert !AllHold(d, product, [versions[0]], marshal) by {
            assert [versions[0]][0] == versions[0];
          }
          FailsAtAfterWrite(d, d1, product, versions, marshal);
          assert !FailsAt(d, product, versions, marshal, 0);
          if exists k :: FailsAt(d1, product, tail, marshal, k) {
            var k :| FailsAt(d1, product, tail, marshal, k);
            assert FailsAt(d, product, versions, marshal, k + 1);
          }
        }
      }
    }
  }

  /** The loop as written succeeds whenever every version marshals and every version
      file is either absent or readable, and writable. */
  lemma DumpLoopPassesWhenWritable<F>(d: Disk, product: string, versions: seq<CatalogVersion<F>>,
                                      marshal: CatalogVersion<F> -> Result<Bytes, string>)
    requires DistinctTitles(versions)
    requires forall k :: 0 <= k < |versions| ==>
               && marshal(versions[k]).Success?
               && PathOf(product, versions[k]) !in d.readOnly
               && (PathOf(product, versions[k]) in d.files ==> d.files[PathOf(product, versions[k])] != Unreadable)
    ensures DumpLoop(d, product, versions, marshal).0 == Pass
  {
    DumpLoopFailsExactly(d, product, versions, marshal);
  }

  /** A second dump with the same versions writes nothing: the first version's file
      already holds its data, so the loop returns at once. This is why the early
      return goes unnoticed on repeated runs. */
  lemma DumpLoopRerunWritesNothing<F>(d: Disk, product: string, versions: seq<CatalogVersion<F>>,
                                      marshal: CatalogVersion<F> -> Result<Bytes, string>)
    requires DistinctTitles(versions)
    requires DumpLoop(d, product, versions, marshal).0 == Pass
    ensures var d' := DumpLoop(d, product, versions, marshal).1;
            DumpLoop(d', product, versions, marshal) == (Pass, d')
  {
    var d' := DumpLoop(d, product, versions, marshal).1;
    if versions != [] {
      DumpLoopStopsAtFirstUnchanged(d, product, versions, marshal);
      var n :| StoppedAt(d, d', product, versions, marshal, n);
      if n > 0 {
        assert versions[..n][0] == versions[0];
      } else {
        assert [versions[0]][0] == versions[0];
      }
    }
  }

  /** The loop as its comment intends it: a version whose file is up to date is
      skipped, and the loop goes on with the next one. */
  function DumpLoopContinuing<F>(d: Disk, product: string, versions: seq<CatalogVersion<F>>,
                                 marshal: CatalogVersion<F> -> Result<Bytes, string>): (Outcome, Disk)
    decreases |versions|
  {
    if versions == [] then (Pass, d)
    else
      match marshal(versions[0])
      case Failure(m) => (Fail(External(m)), d)
      case Success(data) =>
        var (w, d1) := d.WriteIfChanged(PathOf(product, versions[0]), data);
        if w.Failed? then (Fail(w.error), d1)
        else DumpLoopContinuing(d1, product, versions[1..], marshal)
  }

  lemma {:induction false} DumpLoopContinuingFrame<F>(d: Disk, product: string, versions: seq<CatalogVersion<F>>,
                                                      marshal: CatalogVersion<F> -> Result<Bytes, string>, q: Path)
    requires forall k :: 0 <= k < |versions| ==> q != PathOf(product, versions[k])
    ensures DumpLoopContinuing(d, product, versions, marshal).1.Read(q) == d.Read(q)
    decreases |versions|
  {
    if versions != [] && marshal(versions[0]).Success? {
      var (w, d1) := d.WriteIfChanged(PathOf(product, versions[0]), marshal(versions[0]).value);
      if !w.Failed? {
        DumpLoopContinuingFrame(d1, product, versions[1..], marshal, q);
      }
    }
  }

  /** With the corrected loop, a successful dump leaves every version's file holding
      that version's data. */
  lemma {:induction false} DumpLoopContinuingWritesAll<F>(d: Disk, product: string, versions: seq<CatalogVersion<F>>,
                                                          marshal: CatalogVersion<F> -> Result<Bytes, string>)
    requires DistinctTitles(versions)
    ensures DumpLoopContinuing(d, product, versions, marshal).0 == Pass ==>
              AllHold(DumpLoopContinuing(d, product, versions, marshal).1, product, versions, marshal)
    decreases |versions|
  {
    var (r, dn) := DumpLoopContinuing(d, product, versions, marshal);
    if r == Pass && versions != [] {
      var data := marshal(versions[0]).value;
      var p0 := PathOf(product, versions[0]);
      var (w, d1) := d.WriteIfChanged(p0, data);
      var tail := versions[1..];
      assert DistinctTitles(tail);
      DumpLoopContinuingWritesAll(d1, product, tail, marshal);
      DumpLoopContinuingFrame(d1, product, tail, marshal, p0);
      forall k | 0 <= k < |versions|
        ensures marshal(versions[k]).Success? &&
                dn.Read(PathOf(product, versions[k])) == Success(marshal(versions[k]).value)
      {
        if k > 0 {
          assert versions[k] == tail[k - 1];
        }
      }
    }
  }

  /** When the corrected loop fails: exactly when some version blocks. Unlike the
      loop as written, an up-to-date file earlier on does not stop it. */
  lemma {:induction false} DumpLoopContinuingFailsExactly<F>(d: Disk, product: string, versions: seq<CatalogVersion<F>>,
                                                             marshal: CatalogVersion<F> -> Result<Bytes, string>)
    requires DistinctTitles(versions)
    ensures DumpLoopContinuing(d, product, versions, marshal).0.Fail? <==>
              exists k :: 0 <= k < |versions| && Blocks(d, product, versions[k], marshal)
    decreases |versions|
  {
    if versions != [] && marshal(versions[0]).Success? {
      var p0 := PathOf(product, versions[0]);
      var (w, d1) := d.WriteIfChanged(p0, marshal(versions[0]).value);
      if !w.Failed? {
        var tail := versions[1..];
        assert DistinctTitles(tail);
        DumpLoopContinuingFailsExactly(d1, product, tail, marshal);
        assert !Blocks(d, product, versions[0], marshal);
        forall k | 1 <= k < |versions|
          ensures Blocks(d, product, versions[k], marshal) <==> Blocks(d1, product, tail[k - 1], marshal)
        {
          assert versions[0].versionTitle != versions[k].versionTitle;
          assert versions[k] == tail[k - 1];
        }
        if exists k :: 0 <= k < |tail| && Blocks(d1, product, tail[k], marshal) {
          var k :| 0 <= k < |tail| && Blocks(d1, product, tail[k], marshal);
          assert Blocks(d, product, versions[k + 1], marshal);
        }
      }
    }
  }

  /** With the corrected loop, a run over files that already hold their data
      succeeds and changes nothing. */
  lemma {:induction false} DumpLoopContinuingUpToDate<F>(d: Disk, product: string, versions: seq<CatalogVersion<F>>,
                                                         marshal: CatalogVersion<F> -> Result<Bytes, string>)
    requires AllHold(d, product, versions, marshal)
    ensures DumpLoopContinuing(d, product, versions, marshal) == (Pass, d)
    decreases |versions|
  {
    if versions != [] {
      var tail := versions[1..];
      assert AllHold(d, product, tail, marshal) by {
        forall k | 0 <= k < |tail|
          ensures marshal(tail[k]).Success? && d.Read(PathOf(product, tail[k])) == Success(marshal(tail[k]).value)
        {
          assert tail[k] == versions[k + 1];
        }
      }
      DumpLoopContinuingUpToDate(d, product, tail, marshal);
    }
  }

  /** The early return at work: two versions, the first file already up to date and
      the second stale. The loop as written succeeds and leaves the second file
      stale; the corrected loop brings it up to date. */
  lemma EarlyReturnLeavesLaterVersionStale()
    ensures
      var marshal: CatalogVersion<Bytes> -> Result<Bytes, string> := (v: CatalogVersion<Bytes>) => Success(v.fields);
      var versions := [CatalogVersion("1.0", [1 as byte]), CatalogVersion("2.0", [2 as byte])];
      var d := Disk(map[VersionFile("p", "1.0") := Readable([1]), VersionFile("p", "2.0") := Readable([9])], {});
      && DumpLoop(d, "p", versions, marshal) == (Pass, d)
      && d.Read(VersionFile("p", "2.0")) != Success(marshal(versions[1]).value)
      && DumpLoopContinuing(d, "p", versions, marshal).0 == Pass
      && DumpLoopContinuing(d, "p", versions, marshal).1.Read(VersionFile("p", "2.0")) == Success([2])
  {
    var marshal: CatalogVersion<Bytes> -> Result<Bytes, string> := (v: CatalogVersion<Bytes>) => Success(v.fields);
    var versions := [CatalogVersion("1.0", [1 as byte]), CatalogVersion("2.0", [2 as byte])];
    var d := Disk(map[VersionFile("p", "1.0") := Readable([1]), VersionFile("p", "2.0") := Readable([9])], {});
    assert "1.0" != "2.0" by {
      assert "1.0"[0] != "2.0"[0];
    }
    assert d.WriteIfChanged(VersionFile("p", "1.0"), [1]) == (Unchanged, d);
    assert versions[1..] == [versions[1]];
  }

  /** dumpVersions as the Go code runs it: look the entity up, describe it, then
      write each version's file unless it is unchanged, returning at the first
      unchanged one. */
  method DumpVersions<F, D>(fs: FileSystem, product: string, answer: Result<Page, ApiError>,
                            describe: string -> Result<EntityDetails<F, D>, string>,
                            marshal: CatalogVersion<F> -> Result<Bytes, string>)
    returns (r: Outcome)
    modifies fs
    ensures (r, fs.State()) == DumpVersionsSpec(old(fs.State()), product, answer, describe, marshal)
  {
    var id := GetProductEntityID(product, "ContainerProduct", answer);
    if id.Failure? {
      return Fail(ContainerError(id.error));
    }
    var details := describe(id.value);
    if details.Failure? {
      return Fail(External(details.error));
    }
    var versions := details.value.versions;
    var i := 0;
    while i < |versions|
      invariant 0 <= i <= |versions|
      invariant DumpLoop(fs.State(), product, versions[i..], marshal) == DumpLoop(old(fs.State()), product, versions, marshal)
    {
      assert versions[i..][0] == versions[i] && versions[i..][1..] == versions[i + 1..];
      var version := versions[i];
      var data := marshal(version);
      if data.Failure? {
        return Fail(External(data.error));
      }
      var w := fs.WriteIfChanged(PathOf(product, version), data.value);
      if w.Failed? {
        return Fail(w.error);
      }
      if w == Unchanged {
        return Pass;
      }
      i := i + 1;
    }
    return Pass;
  }

  // ---- cloneProductVersion ----

  /** The replacement step: every occurrence of the source version's text becomes
      the destination version's text. */
  function Rewrite(input: Bytes, srcVersion: string, dstVersion: string): Bytes
    requires srcVersion != ""
  {
    ReplaceAll(input, Utf8(srcVersion), Utf8(dstVersion))
  }

  /** Reads the source file, rewrites it and writes the destination file. */
  function CloneWrite(d: Disk, product: string, srcVersion: string, dstVersion: string): (Outcome, Disk)
    requires srcVersion != ""
  {
    match d.Read(VersionFile(product, srcVersion))
    case Failure(e) => (Fail(SourceReadFailed(e)), d)
    case Success(input) =>
      var (r, d1) := d.Write(VersionFile(product, dstVersion), Rewrite(input, srcVersion, dstVersion));
      (if r.Fail? then Fail(DestinationWriteFailed(r.error)) else Pass, d1)
  }

  /** cloneProductVersion as the Go code has it: when the destination file exists
      and is byte-equal to the raw source file, nothing is written; a destination
      that exists but cannot be read is an error. */
  function Clone(d: Disk, product: string, srcVersion: string, dstVersion: string): (Outcome, Disk)
    requires srcVersion != ""
  {
    var src, dst := VersionFile(product, srcVersion), VersionFile(product, dstVersion);
    match d.Read(dst)
    case Success(existing) =>
      (match d.Read(src)
       case Failure(e) => (Fail(SourceReadFailed(e)), d)
       case Success(srcData) =>
         if existing == srcData then (Pass, d) else CloneWrite(d, product, srcVersion, dstVersion))
    case Failure(e) =>
      if !e.NotExist? then (Fail(DestinationReadFailed(e)), d)
      else CloneWrite(d, product, srcVersion, dstVersion)
  }

  /** What a clone does: it fails without a change when the destination cannot be
      read for a reason other than its absence, or the source cannot be read; it
      writes nothing when the destination equals the raw source; it fails exactly in
      those cases and when it must write a destination whose write is refused;
      otherwise the destination ends up holding the rewritten source. No other file
      changes. */
  lemma CloneRules(d: Disk, product: string, srcVersion: string, dstVersion: string)
    requires srcVersion != ""
    ensures var src, dst := VersionFile(product, srcVersion), VersionFile(product, dstVersion);
            var (r, d') := Clone(d, product, srcVersion, dstVersion);
            && (d.Read(dst).Failure? && !d.Read(dst).error.NotExist? ==>
                  r == Fail(DestinationReadFailed(d.Read(dst).error)) && d' == d)
            && (d.Read(src).Failure? && (d.Read(dst).Success? || d.Read(dst).error.NotExist?) ==>
                  r == Fail(SourceReadFailed(d.Read(src).error)) && d' == d)
            && (d.Read(dst).Success? && d.Read(dst) == d.Read(src) ==> r == Pass && d' == d)
            && (r.Fail? <==>
                  (d.Read(dst).Failure? && !d.Read(dst).error.NotExist?) ||
                  d.Read(src).Failure? ||
                  (d.Read(dst) != d.Read(src) && dst in d.readOnly))
            && (r == Pass ==>
                  d.Read(src).Success? &&
                  (d'.Read(dst) == Success(Rewrite(d.Read(src).value, srcVersion, dstVersion)) ||
                   (d' == d && d.Read(dst) == d.Read(src))))
            && (forall q :: q != dst ==> d'.Read(q) == d.Read(q))
  {
  }

  /** Cloning twice changes nothing more: after a successful clone, a second clone
      succeeds and leaves every file as the first left it. */
  lemma CloneTwice(d: Disk, product: string, srcVersion: string, dstVersion: string)
    requires srcVersion != ""
    requires Clone(d, product, srcVersion, dstVersion).0 == Pass
    ensures var d' := Clone(d, product, srcVersion, dstVersion).1;
            Clone(d', product, srcVersion, dstVersion) == (Pass, d')
  {
    var src, dst := VersionFile(product, srcVersion), VersionFile(product, dstVersion);
    var d' := Clone(d, product, srcVersion, dstVersion).1;
    if d' != d {
      var output := Rewrite(d.Read(src).value, srcVersion, dstVersion);
      assert src != dst;
      assert d'.files == d.files[dst := Readable(output)];
      assert d'.files[dst := Readable(output)] == d'.files;
    }
  }

  /** The raw-copy skip at work: a destination that is a byte copy of the source is
      left as it is although the rewrite would change it. */
  lemma CloneSkipsRawCopy()
    ensures
      var d := Disk(map[VersionFile("p", "1") := Readable([49]), VersionFile("p", "2") := Readable([49])], {});
      && Clone(d, "p", "1", "2") == (Pass, d)
      && Rewrite([49], "1", "2") == [50]
      && d.Read(VersionFile("p", "2")) != Success(Rewrite([49], "1", "2"))
      && CloneChecked(d, "p", "1", "2").1.Read(VersionFile("p", "2")) == Success([50])
  {
    assert "1"[1..] == [];
    assert "2"[1..] == [];
    assert Utf8("1") == [49];
    assert Utf8("2") == [50];
    var pat: Bytes := [49];
    assert ReplaceAll(pat[1..], pat, [50]) == [];
    assert ReplaceAll([49], [49], [50]) == [50];
    assert "1" != "2" by {
      assert "1"[0] != "2"[0];
    }
  }

  /** The clone as the skip's message intends it: nothing is written when the
      destination already holds what the clone would write. */
  function CloneChecked(d: Disk, product: string, srcVersion: string, dstVersion: string): (Outcome, Disk)
    requires srcVersion != ""
  {
    var src, dst := VersionFile(product, srcVersion), VersionFile(product, dstVersion);
    match d.Read(dst)
    case Success(existing) =>
      (match d.Read(src)
       case Failure(e) => (Fail(SourceReadFailed(e)), d)
       case Success(srcData) =>
         if existing == Rewrite(srcData, srcVersion, dstVersion) then (Pass, d)
         else CloneWrite(d, product, srcVersion, dstVersion))
    case Failure(e) =>
      if !e.NotExist? then (Fail(DestinationReadFailed(e)), d)
      else CloneWrite(d, product, srcVersion, dstVersion)
  }

  /** With the corrected check, a successful clone always leaves the destination
      holding the rewritten source, and writes only when it did not already; it
      fails exactly when the destination cannot be read for a reason other than its
      absence, the source cannot be read, or a needed write is refused. */
  lemma CloneCheckedWritesRewrite(d: Disk, product: string, srcVersion: string, dstVersion: string)
    requires srcVersion != ""
    ensures var src, dst := VersionFile(product, srcVersion), VersionFile(product, dstVersion);
            var (r, d') := CloneChecked(d, product, srcVersion, dstVersion);
            && (r == Pass ==>
                  d.Read(src).Success? && d'.Read(dst) == Success(Rewrite(d.Read(src).value, srcVersion, dstVersion)))
            && ((r == Pass && d.Read(src).Success? &&
                 d.Read(dst) == Success(Rewrite(d.Read(src).value, srcVersion, dstVersion))) ==> d' == d)
            && (r.Fail? <==>
                  (d.Read(dst).Failure? && !d.Read(dst).error.NotExist?) ||
                  d.Read(src).Failure? ||
                  (d.Read(dst) != Success(Rewrite(d.Read(src).value, srcVersion, dstVersion)) &&
                   dst in d.readOnly))
            && (forall q :: q != dst ==> d'.Read(q) == d.Read(q))
  {
    var src, dst := VersionFile(product, srcVersion), VersionFile(product, dstVersion);
    if srcVersion == dstVersion && d.Read(src).Success? {
      ReplaceByItself(d.Read(src).value, Utf8(srcVersion));
    }
  }

  /** cloneProductVersion as the Go code runs it. */
  method CloneProductVersion(fs: FileSystem, product: string, srcVersion: string, dstVersion: string)
    returns (r: Outcome)
    requires srcVersion != ""
    modifies fs
    ensures (r, fs.State()) == Clone(old(fs.State()), product, srcVersion, dstVersion)
  {
    var srcPath, dstPath := VersionFile(product, srcVersion), VersionFile(product, dstVersion);
    var existing := fs.ReadFile(dstPath);
    if existing.Success? {
      var srcData := fs.ReadFile(srcPath);
      if srcData.Failure? {
        return Fail(SourceReadFailed(srcData.error));
      }
      if existing.value == srcData.value {
        return Pass;
      }
    } else if !existing.error.NotExist? {
      return Fail(DestinationReadFailed(existing.error));
    }
    var input := fs.ReadFile(srcPath);
    if input.Failure? {
      return Fail(SourceReadFailed(input.error));
    }
    var output := Rewrite(input.value, srcVersion, dstVersion);
    var written := fs.WriteFile(dstPath, output);
    if written.Fail? {
      return Fail(DestinationWriteFailed(written.error));
    }
    return Pass;
  }
}
