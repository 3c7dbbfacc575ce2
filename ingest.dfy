/** The task-sync child process (`lib/children/ingest.js`): wipe the group's
    device data, route each archive of the task to a vendor decoder by the
    last segment of its reference, stamp every decoded entry with the group,
    give it a content-derived storage key, save it, and report per-file
    counts and an exit code.  The vendor decoders, the download and the
    event-stream plumbing are inputs of the model (see README). */
module Ingest {
  import opened Wrappers
  import opened Records
  import opened Store

  // ---------------------------------------------------------------------
  // Vendor dispatch

  datatype Vendor = Diasend | Carelink | Dexcom

  /** The exact last path segment that selects each decoder. */
  function Tag(v: Vendor): string
  {
    match v
    case Diasend => "diasend.xls"
    case Carelink => "carelink.csv"
    case Dexcom => "dexcom"
  }

  /** `url.split('/').pop()`: the text after the last `/`. */
  function Tail(url: string): string
  {
    if url == [] then []
    else if url[|url| - 1] == '/' then []
    else Tail(url[..|url| - 1]) + [url[|url| - 1]]
  }

  /** `Tail(url)` is the longest suffix of `url` without a `/`: the whole
      reference when it has no `/`, otherwise what follows the last one. */
  lemma {:induction false} TailIsLastSegment(url: string)
    ensures '/' !in Tail(url)
    ensures |Tail(url)| <= |url| && Tail(url) == url[|url| - |Tail(url)|..]
    ensures |Tail(url)| < |url| ==> url[|url| - |Tail(url)| - 1] == '/'
  {
    if url != [] && url[|url| - 1] != '/' {
      var init, c := url[..|url| - 1], url[|url| - 1];
      TailIsLastSegment(init);
      var t' := Tail(init);
      assert Tail(url) == t' + [c];
      assert url == init + [c];
      var j := |init| - |t'|;
      assert url[j..] == init[j..] + [c];
      if j > 0 {
        assert url[j - 1] == init[j - 1];
      }
    }
  }

  /** The decoder chosen for a reference.  The source tests the three tags
      with three independent `if`s; the last test that matches wins. */
  function Route(url: string): (v: Option<Vendor>)
    ensures forall w :: v == Some(w) <==> Tail(url) == Tag(w)
    ensures v.None? <==> forall w :: Tail(url) != Tag(w)
  {
    var tail := Tail(url);
    var afterDiasend := if tail == "diasend.xls" then Some(Diasend) else None;
    var afterCarelink := if tail == "carelink.csv" then Some(Carelink) else afterDiasend;
    if tail == "dexcom" then Some(Dexcom) else afterCarelink
  }

  /** Only the text after the last `/` is looked at. */
  lemma TailAfterLastSlash(dir: string, name: string)
    requires '/' !in name
    ensures Tail(dir + "/" + name) == name
  {
    var s := dir + "/" + name;
    TailIsLastSegment(s);
    assert s[|dir|] == '/';
    assert s[|s| - |name|..] == name;
  }

  /** Whatever precedes the last `/`, a last segment that is exactly a tag
      selects that tag's decoder. */
  lemma TaggedNameRoutes(dir: string, v: Vendor)
    ensures Route(dir + "/" + Tag(v)) == Some(v)
  {
    match v
    case Diasend => TailAfterLastSlash(dir, "diasend.xls");
    case Carelink => TailAfterLastSlash(dir, "carelink.csv");
    case Dexcom => TailAfterLastSlash(dir, "dexcom");
  }

  /** Whatever precedes the last `/`, a last segment that is no tag selects
      nothing. */
  lemma UntaggedNameDoesNotRoute(dir: string, name: string)
    requires '/' !in name
    requires forall w :: name != Tag(w)
    ensures Route(dir + "/" + name) == None
  {
    TailAfterLastSlash(dir, name);
  }

  /** A reference whose last segment merely ends with a tag routes nowhere:
      tags are compared for equality, not as suffixes. */
  lemma SuffixDoesNotRoute()
    ensures Route("/tmp/a_carelink.csv") == None
    ensures Route("https://host/b_dexcom") == None
  {
    UntaggedNameDoesNotRoute("/tmp", "a_carelink.csv");
    assert "/tmp" + "/" + "a_carelink.csv" == "/tmp/a_carelink.csv";
    UntaggedNameDoesNotRoute("https://host", "b_dexcom");
    assert "https://host" + "/" + "b_dexcom" == "https://host/b_dexcom";
  }

  /** The comparison is case-sensitive. */
  lemma TagsAreCaseSensitive()
    ensures Route("exports/Diasend.xls") == None
  {
    UntaggedNameDoesNotRoute("exports", "Diasend.xls");
    assert "exports" + "/" + "Diasend.xls" == "exports/Diasend.xls";
  }

  /** A local path, a URL and a bare tag each route. */
  lemma ExactTagRoutes()
    ensures Route("/tmp/carelink.csv") == Some(Carelink)
    ensures Route("https://host/dexcom") == Some(Dexcom)
    ensures Route("dexcom") == Some(Dexcom)
  {
    TaggedNameRoutes("/tmp", Carelink);
    assert Tag(Carelink) == "carelink.csv";
    assert "/tmp" + "/" + "carelink.csv" == "/tmp/carelink.csv";
    TaggedNameRoutes("https://host", Dexcom);
    assert Tag(Dexcom) == "dexcom";
    assert "https://host" + "/" + "dexcom" == "https://host/dexcom";
    TailIsLastSegment("dexcom");
    assert "dexcom"[6 - |Tail("dexcom")|..] == Tail("dexcom");
  }

  // ---------------------------------------------------------------------
  // Markup stage

  /** `markup`'s per-entry step: `entry.groupId = meta.groupId`. */
  function MarkedUp(r: Record, g: string): (m: Record)
    ensures m.groupId == Some(g)
    ensures m.(groupId := r.groupId) == r
  {
    r.(groupId := Some(g))
  }

  /** The markup stream as a whole: one entry out per entry in, in order,
      none rejected. */
  function MarkupAll(rs: seq<Record>, g: string): (ms: seq<Record>)
    ensures |ms| == |rs|
    ensures forall i :: 0 <= i < |rs| ==> ms[i] == MarkedUp(rs[i], g)
  {
    if rs == [] then [] else MarkupAll(rs[..|rs| - 1], g) + [MarkedUp(rs[|rs| - 1], g)]
  }

  method Markup(entry: Entry, g: string)
    modifies entry
    ensures entry.View() == MarkedUp(old(entry.View()), g)
  {
    entry.groupId := Some(g);
  }

  // ---------------------------------------------------------------------
  // Identity and persistence

  /** `id`: the digest of `type`, `String(value)` and `deviceTime`, fed to
      the hasher one after the other. */
  function ContentId(h: Hash, kind: string, value: Value, deviceTime: string): string
  {
    h(kind + ValueString(value) + deviceTime)
  }

  /** `_id`: the digest of `id` followed by `groupId`. */
  function StorageKey(h: Hash, id: string, groupId: string): string
  {
    h(id + groupId)
  }

  /** The entry `persist` hands to `save`, or `None` when `hasher.update` is
      given an absent field and throws. */
  function Identify(h: Hash, r: Record): (res: Option<Record>)
    ensures res.None? <==>
      r.storeId.None? && (r.groupId.None? || (r.id.None? && (r.kind.None? || r.deviceTime.None?)))
    ensures res.Some? ==> res.value.storeId.Some?
    ensures res.Some? ==> res.value.(id := r.id, storeId := r.storeId) == r
    ensures res.Some? && r.id.Some? ==> res.value.id == r.id
  {
    if r.storeId.Some? then Some(r)
    else if r.id.None? && (r.kind.None? || r.deviceTime.None?) then None
    else if r.groupId.None? then None
    else
      var id := if r.id.Some? then r.id.value else ContentId(h, r.kind.value, r.value, r.deviceTime.value);
      Some(r.(id := Some(id), storeId := Some(StorageKey(h, id, r.groupId.value))))
  }

  /** An entry that already has `_id` is saved exactly as it is. */
  lemma PersistKeepsKeyedEntry(h: Hash, r: Record)
    requires r.storeId.Some?
    ensures Identify(h, r) == Some(r)
  {
  }

  /** An entry with `id` but no `_id` keeps its `id` and is keyed by it. */
  lemma PersistKeysById(h: Hash, r: Record)
    requires r.storeId.None? && r.id.Some? && r.groupId.Some?
    ensures Identify(h, r) == Some(r.(storeId := Some(StorageKey(h, r.id.value, r.groupId.value))))
  {
  }

  /** An entry with neither identifier gets both, from its content. */
  lemma PersistDerivesBothIds(h: Hash, r: Record)
    requires r.storeId.None? && r.id.None?
    requires r.kind.Some? && r.deviceTime.Some? && r.groupId.Some?
    ensures var id := ContentId(h, r.kind.value, r.value, r.deviceTime.value);
      Identify(h, r) == Some(r.(id := Some(id), storeId := Some(StorageKey(h, id, r.groupId.value))))
  {
  }

  /** For entries without identifiers, `_id` depends on `type`, `value`,
      `deviceTime` and `groupId` alone. */
  lemma PersistKeyDeterministic(h: Hash, r1: Record, r2: Record)
    requires r1.storeId.None? && r1.id.None? && r2.storeId.None? && r2.id.None?
    requires r1.kind == r2.kind && r1.value == r2.value
    requires r1.deviceTime == r2.deviceTime && r1.groupId == r2.groupId
    requires Identify(h, r1).Some?
    ensures Identify(h, r2).Some?
    ensures Identify(h, r1).value.storeId == Identify(h, r2).value.storeId
    ensures Identify(h, r1).value.id == Identify(h, r2).value.id
  {
  }

  /** Persisting is an upsert: an entry persisted a second time keeps its
      key, and the store ends up with the one row. */
  lemma PersistTwiceOneRow(h: Hash, rows: Rows, r: Record)
    requires Identify(h, r).Some?
    ensures var r1 := Identify(h, r).value;
      Identify(h, r1) == Some(r1) && Upsert(Upsert(rows, r1), r1) == Upsert(rows, r1)
  {
  }

  /** Under the assumption that the hash is injective, the same reading
      persisted for two different groups gets two different keys. */
  lemma PersistGroupIsolation(h: Hash, r1: Record, r2: Record)
    requires Injective(h)
    requires r1.storeId.None? && r1.id.None? && r2.storeId.None? && r2.id.None?
    requires r1.kind == r2.kind && r1.value == r2.value && r1.deviceTime == r2.deviceTime
    requires r1.groupId != r2.groupId
    requires Identify(h, r1).Some? && Identify(h, r2).Some?
    ensures Identify(h, r1).value.storeId != Identify(h, r2).value.storeId
  {
    var id := ContentId(h, r1.kind.value, r1.value, r1.deviceTime.value);
    var g1, g2 := r1.groupId.value, r2.groupId.value;
    assert (id + g1)[|id|..] == g1 && (id + g2)[|id|..] == g2;
  }

  /** The parts are concatenated without separators, so whatever the hash,
      records whose fields split the same text differently share an `id`,
      and (id, group) pairs that do share a key. */
  lemma KeysIgnoreFieldBoundaries(h: Hash, deviceTime: string)
    ensures ContentId(h, "ab", Text("c"), deviceTime) == ContentId(h, "a", Text("bc"), deviceTime)
    ensures StorageKey(h, "x1", "2") == StorageKey(h, "x", "12")
  {
    assert "ab" + "c" == "a" + "bc";
    assert "x1" + "2" == "x" + "12";
  }

  /** The identifier half of `persist`'s iterator: fill in `id` and `_id`
      in place, or report that `hasher.update` threw. */
  method AssignKeys(entry: Entry, h: Hash) returns (ok: bool)
    modifies entry
    ensures ok == Identify(h, old(entry.View())).Some?
    ensures ok ==> entry.View() == Identify(h, old(entry.View())).value
  {
    ghost var r := entry.View();
    var hasher := new Hasher(h);
    if entry.storeId.None? {
      if entry.id.None? {
        if entry.kind.None? {
          return false;
        }
        hasher.Update(entry.kind.value);
        hasher.Update(ValueString(entry.value));
        if entry.deviceTime.None? {
          return false;
        }
        hasher.Update(entry.deviceTime.value);
        assert hasher.fed == r.kind.value + ValueString(r.value) + r.deviceTime.value;
        var id := hasher.Digest();
        entry.id := Some(id);
        hasher := new Hasher(h);
      }
      if entry.groupId.None? {
        return false;
      }
      hasher.Update(entry.id.value);
      hasher.Update(entry.groupId.value);
      assert hasher.fed == entry.id.value + entry.groupId.value;
      var key := hasher.Digest();
      entry.storeId := Some(key);
    }
    assert entry.View() == Identify(h, r).value;
    ok := true;
  }

  /** `persist`'s iterator: assign the identifiers in place, then save. */
  method Persist(entry: Entry, store: DeviceStore, h: Hash) returns (ok: bool)
    modifies entry, store
    ensures ok == Identify(h, old(entry.View())).Some?
    ensures ok ==> entry.View() == Identify(h, old(entry.View())).value
    ensures ok ==> store.rows == Upsert(old(store.rows), entry.View())
    ensures !ok ==> store.rows == old(store.rows)
  {
    ok := AssignKeys(entry, h);
    if ok {
      store.Save(entry.View());
    }
  }

  // ---------------------------------------------------------------------
  // One archive

  /** What a vendor decoder produced for one archive: the records it emitted
      and whether it then ended normally or signalled an error. */
  datatype Decoded = Complete(records: seq<Record>) | Failed(records: seq<Record>)

  /** One element of the array handed to `end`: the entries persisted from a
      routed archive, or the reference itself when no decoder matched. */
  datatype ArchiveResult = Persisted(entries: seq<Record>) | PassedThrough(reference: string)

  /** Every entry belongs to group `g` and has a storage key. */
  predicate Stamped(es: seq<Record>, g: string)
  {
    forall i :: 0 <= i < |es| ==> es[i].groupId == Some(g) && es[i].storeId.Some?
  }

  /** Markup then identity for every record of an archive; `None` as soon as
      one of them makes `persist` throw. */
  function IdentifyAll(h: Hash, rs: seq<Record>): (res: Option<seq<Record>>)
    ensures res.None? <==> exists i :: 0 <= i < |rs| && Identify(h, rs[i]).None?
    ensures res.Some? ==> |res.value| == |rs|
    ensures res.Some? ==> forall i :: 0 <= i < |rs| ==> Identify(h, rs[i]) == Some(res.value[i])
  {
    var steps := seq(|rs|, i requires 0 <= i < |rs| => Identify(h, rs[i]));
    assert forall i :: 0 <= i < |rs| ==> steps[i] == Identify(h, rs[i]);
    AllSome(steps)
  }

  /** The result one archive contributes.  A reference that matches no tag
      is never downloaded and is its own result; a decoder error only cuts
      the archive short: what was persisted before it is the result. */
  function ArchiveResultOf(h: Hash, g: string, url: string, d: Decoded): (res: Option<ArchiveResult>)
    ensures Route(url).None? ==> res == Some(PassedThrough(url))
    ensures Route(url).Some? && res.Some? ==>
      res.value.Persisted? && |res.value.entries| == |d.records| && Stamped(res.value.entries, g)
    ensures Route(url).Some? && res.Some? ==>
      forall i :: 0 <= i < |d.records| ==> Identify(h, MarkedUp(d.records[i], g)) == Some(res.value.entries[i])
    ensures Route(url).Some? ==>
      (res.None? <==> exists i :: 0 <= i < |d.records| && Identify(h, MarkedUp(d.records[i], g)).None?)
  {
    if Route(url).None? then Some(PassedThrough(url))
    else
      match IdentifyAll(h, MarkupAll(d.records, g))
      case None => None
      case Some(saved) => Some(Persisted(saved))
  }

  /** One decoded record through the stream: the decoder emits a fresh
      entry object, markup stamps it, persist keys and saves it. */
  method IngestRecord(store: DeviceStore, h: Hash, g: string, rec: Record) returns (stored: Option<Record>)
    modifies store
    ensures stored == Identify(h, MarkedUp(rec, g))
    ensures stored.Some? ==> store.rows == Upsert(old(store.rows), stored.value)
    ensures stored.None? ==> store.rows == old(store.rows)
  {
    var entry := new Entry(rec);
    Markup(entry, g);
    var ok := Persist(entry, store, h);
    stored := if ok then Some(entry.View()) else None;
  }

  /** Keying one more entry extends the entries keyed so far. */
  lemma IdentifyAllSnoc(h: Hash, rs: seq<Record>, i: nat, done: seq<Record>, e: Record)
    requires i < |rs|
    requires IdentifyAll(h, rs[..i]) == Some(done)
    requires Identify(h, rs[i]) == Some(e)
    ensures IdentifyAll(h, rs[..i + 1]) == Some(done + [e])
  {
    var es := done + [e];
    forall j | 0 <= j < i + 1
      ensures Identify(h, rs[..i + 1][j]) == Some(es[j])
    {
      if j < i {
        assert rs[..i][j] == rs[j];
        assert Identify(h, rs[..i][j]) == Some(done[j]);
      }
    }
    var got := IdentifyAll(h, rs[..i + 1]);
    assert got.Some?;
    assert got.value == es;
  }

  /** The pipeline for one routed archive: its records go through markup
      and persist one after the other, in the order the decoder emitted
      them. */
  method IngestArchive(store: DeviceStore, h: Hash, g: string, records: seq<Record>)
    returns (saved: Option<seq<Record>>)
    modifies store
    ensures saved == IdentifyAll(h, MarkupAll(records, g))
    ensures saved.Some? ==> Keyed(saved.value) && store.rows == SaveAll(old(store.rows), saved.value)
  {
    ghost var marked := MarkupAll(records, g);
    var done: seq<Record> := [];
    assert marked[..0] == [];
    for i := 0 to |records|
      invariant IdentifyAll(h, marked[..i]) == Some(done)
      invariant Keyed(done)
      invariant store.rows == SaveAll(old(store.rows), done)
    {
      var stored := IngestRecord(store, h, g, records[i]);
      if stored.None? {
        assert Identify(h, marked[i]).None?;
        return None;
      }
      IdentifyAllSnoc(h, marked, i, done, stored.value);
      assert (done + [stored.value])[..i] == done;
      done := done + [stored.value];
    }
    assert marked[..|records|] == marked;
    saved := Some(done);
  }

  /** `ingest`'s iterator for one archive reference: download and decode
      it when a tag matches, otherwise pass the reference through. */
  method ProcessArchive(store: DeviceStore, h: Hash, g: string, url: string, d: Decoded)
    returns (res: Option<ArchiveResult>)
    modifies store
    ensures res == ArchiveResultOf(h, g, url, d)
    ensures res.Some? ==> Keyed(EntriesOf(res.value))
    ensures res.Some? ==> store.rows == SaveAll(old(store.rows), EntriesOf(res.value))
  {
    if Route(url).None? {
      return Some(PassedThrough(url));
    }
    var saved := IngestArchive(store, h, g, d.records);
    res := if saved.None? then None else Some(Persisted(saved.value));
  }

  // ---------------------------------------------------------------------
  // The whole task

  /** The stored metadata of a sync task. */
  datatype Task = Task(groupId: string, archives: seq<string>)

  /** What `end` logs and returns: the exit code, the count it reports per
      file and the number of files. */
  datatype Report = Report(exitCode: int, counts: seq<nat>, files: nat)

  /** How a run ends: the remove failed and the error was thrown, `persist`
      threw on an entry, or every archive went through and `end` reported. */
  datatype Run = WipeFailed | Crashed | Finished(results: seq<ArchiveResult>, report: Report)

  /** The entries of one archive result. */
  function EntriesOf(a: ArchiveResult): seq<Record>
  {
    match a
    case Persisted(es) => es
    case PassedThrough(_) => []
  }

  /** Every entry persisted by a run, in the order they were saved. */
  function Saved(results: seq<ArchiveResult>): seq<Record>
  {
    if results == [] then [] else Saved(results[..|results| - 1]) + EntriesOf(results[|results| - 1])
  }

  /** The results of all archives, in task order; `None` when one of them
      makes `persist` throw. */
  function RunResults(h: Hash, g: string, archives: seq<string>, outcomes: seq<Decoded>)
    : (res: Option<seq<ArchiveResult>>)
    requires |archives| == |outcomes|
    ensures res.None? <==>
      exists i :: 0 <= i < |archives| && ArchiveResultOf(h, g, archives[i], outcomes[i]).None?
    ensures res.Some? ==> |res.value| == |archives|
    ensures res.Some? ==>
      forall i :: 0 <= i < |archives| ==> ArchiveResultOf(h, g, archives[i], outcomes[i]) == Some(res.value[i])
  {
    var steps := seq(|archives|, i requires 0 <= i < |archives| => ArchiveResultOf(h, g, archives[i], outcomes[i]));
    assert forall i :: 0 <= i < |archives| ==> steps[i] == ArchiveResultOf(h, g, archives[i], outcomes[i]);
    AllSome(steps)
  }

  /** Every entry a run persists belongs to the task's group and is keyed. */
  lemma {:induction false} SavedStamped(h: Hash, g: string, archives: seq<string>, outcomes: seq<Decoded>, results: seq<ArchiveResult>)
    requires |archives| == |outcomes| == |results|
    requires forall i :: 0 <= i < |results| ==> ArchiveResultOf(h, g, archives[i], outcomes[i]) == Some(results[i])
    ensures Stamped(Saved(results), g)
  {
    if results != [] {
      var n := |results| - 1;
      SavedStamped(h, g, archives[..n], outcomes[..n], results[..n]);
      assert ArchiveResultOf(h, g, archives[n], outcomes[n]) == Some(results[n]);
    }
  }

  /** Markup of the first `m` records is the first `m` marked entries. */
  lemma MarkupPrefix(rs: seq<Record>, g: string, m: nat)
    requires m <= |rs|
    ensures MarkupAll(rs[..m], g) == MarkupAll(rs, g)[..m]
  {
    var all, pre := MarkupAll(rs, g), MarkupAll(rs[..m], g);
    forall j | 0 <= j < m
      ensures pre[j] == all[..m][j]
    {
      assert rs[..m][j] == rs[j];
    }
  }

  /** If every entry of an archive can be keyed, so can every prefix, with
      the same keyed entries. */
  lemma IdentifyAllPrefix(h: Hash, rs: seq<Record>, es: seq<Record>, m: nat)
    requires IdentifyAll(h, rs) == Some(es)
    requires m <= |rs|
    ensures IdentifyAll(h, rs[..m]) == Some(es[..m])
  {
    var pre := rs[..m];
    forall j | 0 <= j < m
      ensures Identify(h, pre[j]) == Some(es[..m][j])
    {
      assert pre[j] == rs[j];
    }
    var got := IdentifyAll(h, pre);
    assert got.Some?;
    assert got.value == es[..m];
  }

  /** A decoder error after the first `m` records of an archive: those `m`
      records are persisted as they would have been anyway, and the
      archive still yields a result. */
  lemma FailedArchiveKeepsPrefix(h: Hash, g: string, url: string, d: Decoded, a: ArchiveResult, m: nat)
    requires ArchiveResultOf(h, g, url, d) == Some(a)
    requires m <= |d.records|
    ensures ArchiveResultOf(h, g, url, Failed(d.records[..m])) ==
      Some(if Route(url).None? then PassedThrough(url) else Persisted(a.entries[..m]))
  {
    if Route(url).Some? {
      MarkupPrefix(d.records, g, m);
      IdentifyAllPrefix(h, MarkupAll(d.records, g), a.entries, m);
    }
  }

  /** A decoder error in archive `n` after `m` records leaves every other
      archive's result as it was, and archive `n` keeps the entries
      persisted from those first `m` records: the task goes on. */
  lemma FailureIsolated(h: Hash, g: string, archives: seq<string>, outcomes: seq<Decoded>,
                        rs: seq<ArchiveResult>, n: nat, m: nat)
    requires |archives| == |outcomes|
    requires RunResults(h, g, archives, outcomes) == Some(rs)
    requires n < |archives| && m <= |outcomes[n].records|
    ensures RunResults(h, g, archives, outcomes[n := Failed(outcomes[n].records[..m])]) ==
      Some(rs[n := if Route(archives[n]).None? then PassedThrough(archives[n]) else Persisted(rs[n].entries[..m])])
  {
    var failed := outcomes[n := Failed(outcomes[n].records[..m])];
    var x := if Route(archives[n]).None? then PassedThrough(archives[n]) else Persisted(rs[n].entries[..m]);
    var want := rs[n := x];
    FailedArchiveKeepsPrefix(h, g, archives[n], outcomes[n], rs[n], m);
    forall i | 0 <= i < |archives|
      ensures ArchiveResultOf(h, g, archives[i], failed[i]) == Some(want[i])
    {
    }
    var got := RunResults(h, g, archives, failed);
    assert got.Some?;
    assert got.value == want;
  }

  /** After a completed sync, the only rows of the group are entries this
      run persisted; every entry it persisted has a row; rows of other
      groups that no entry of the run overwrote are untouched. */
  lemma ResyncReplacesGroup(rows: Rows, g: string, es: seq<Record>)
    requires Stamped(es, g)
    ensures Keyed(es)
    ensures var after := SaveAll(WithoutGroup(rows, g), es);
      && (forall k :: k in after && after[k].groupId == Some(g) ==> after[k] in es)
      && (forall i :: 0 <= i < |es| ==> es[i].storeId.value in after)
      && (forall k :: k in rows && rows[k].groupId != Some(g) && k !in KeysOf(es) ==>
            k in after && after[k] == rows[k])
  {
    var wiped := WithoutGroup(rows, g);
    SaveAllContents(wiped, es);
    KeysOfMembers(es);
  }

  /** Syncing the same task again, with the same decoder output, leaves the
      store exactly as the first sync left it. */
  lemma ResyncIdempotent(rows: Rows, g: string, es: seq<Record>)
    requires Stamped(es, g)
    ensures Keyed(es)
    ensures var once := SaveAll(WithoutGroup(rows, g), es);
      SaveAll(WithoutGroup(once, g), es) == once
  {
    var wiped := WithoutGroup(rows, g);
    var once := SaveAll(wiped, es);
    var again := WithoutGroup(once, g);
    SaveAllContents(wiped, es);
    forall k | k !in KeysOf(es)
      ensures (k in wiped <==> k in again) && (k in wiped ==> again[k] == wiped[k])
    {
      if k in wiped {
        assert once[k] == wiped[k];
      }
    }
    SaveAllOverwrites(wiped, again, es);
    SaveAllContents(again, es);
    KeysOfMembers(es);
    assert SaveAll(again, es) == once;
  }

  /** A task whose references are `/tmp/a_carelink.csv` and
      `https://host/b_dexcom`: neither last segment is exactly a tag, so both
      references are passed through undecoded, the run persists nothing
      (the group is left empty) and `end` logs the reference lengths. */
  lemma SuffixTaggedTaskSavesNothing(h: Hash, g: string, outcomes: seq<Decoded>)
    requires |outcomes| == 2
    ensures var archives := ["/tmp/a_carelink.csv", "https://host/b_dexcom"];
      var rs := [PassedThrough(archives[0]), PassedThrough(archives[1])];
      && RunResults(h, g, archives, outcomes) == Some(rs)
      && Saved(rs) == []
      && RecordCount(rs[0]) == 19 && RecordCount(rs[1]) == 21
  {
    var archives := ["/tmp/a_carelink.csv", "https://host/b_dexcom"];
    SuffixDoesNotRoute();
    var rs := [PassedThrough(archives[0]), PassedThrough(archives[1])];
    var got := RunResults(h, g, archives, outcomes);
    assert got.Some?;
    assert got.value == rs;
    assert rs[..1][..0] == [];
    assert Saved(rs[..1]) == [];
  }

  /** Decoded readings that all carry a type and a device time all get
      through `persist`. */
  lemma CompleteReadingsPersist(h: Hash, g: string, readings: seq<Record>)
    requires forall i :: 0 <= i < |readings| ==>
      readings[i].kind.Some? && readings[i].deviceTime.Some?
    ensures IdentifyAll(h, MarkupAll(readings, g)).Some?
  {
    var marked := MarkupAll(readings, g);
    assert forall i :: 0 <= i < |readings| ==> Identify(h, marked[i]).Some?;
  }

  /** A task whose references are `/tmp/carelink.csv` and
      `https://host/dexcom`, where the first archive's decoder fails before
      emitting anything and the second decodes ten complete readings: the
      run goes on past the failure and reports 0 and 10 records. */
  lemma TaskContinuesPastFailedArchive(h: Hash, g: string, readings: seq<Record>)
    requires |readings| == 10
    requires forall i :: 0 <= i < 10 ==>
      readings[i].kind.Some? && readings[i].deviceTime.Some? && readings[i].storeId.None?
    ensures var archives := ["/tmp/carelink.csv", "https://host/dexcom"];
      var got := RunResults(h, g, archives, [Failed([]), Complete(readings)]);
      && got.Some? && |got.value| == 2
      && got.value[0] == Persisted([])
      && RecordCount(got.value[0]) == 0 && RecordCount(got.value[1]) == 10
      && Stamped(Saved(got.value), g)
  {
    var archives := ["/tmp/carelink.csv", "https://host/dexcom"];
    var outcomes := [Failed([]), Complete(readings)];
    ExactTagRoutes();
    CompleteReadingsPersist(h, g, readings);
    var entries := IdentifyAll(h, MarkupAll(readings, g)).value;
    var none := IdentifyAll(h, MarkupAll([], g));
    assert none.Some? && none.value == [];
    var rs := [Persisted([]), Persisted(entries)];
    assert ArchiveResultOf(h, g, archives[0], outcomes[0]) == Some(rs[0]);
    assert ArchiveResultOf(h, g, archives[1], outcomes[1]) == Some(rs[1]);
    RunResultsOf(h, g, archives, outcomes, rs);
    SavedStamped(h, g, archives, outcomes, rs);
  }

  /** The number `end` logs for a file: `e.length` of its result, which for
      a passed-through reference is the length of the reference text. */
  function RecordCount(a: ArchiveResult): nat
  {
    match a
    case Persisted(es) => |es|
    case PassedThrough(url) => |url|
  }

  /** `end(err, results)`: 255 when an error was passed, 0 otherwise, one
      count per file and the number of files. */
  method End(err: bool, results: seq<ArchiveResult>) returns (report: Report)
    ensures report.exitCode == if err then 255 else 0
    ensures report.files == |results| && |report.counts| == |results|
    ensures forall i :: 0 <= i < |results| ==> report.counts[i] == RecordCount(results[i])
  {
    var finis := 0;
    if err {
      finis := 255;
    }
    var counts: seq<nat> := [];
    for i := 0 to |results|
      invariant |counts| == i
      invariant forall j :: 0 <= j < i ==> counts[j] == RecordCount(results[j])
    {
      counts := counts + [RecordCount(results[i])];
    }
    report := Report(finis, counts, |results|);
  }

  /** One more archive result: its entries are saved after the earlier ones. */
  lemma SavedAppend(rows: Rows, done: seq<ArchiveResult>, a: ArchiveResult)
    requires Keyed(Saved(done)) && Keyed(EntriesOf(a))
    ensures Saved(done + [a]) == Saved(done) + EntriesOf(a)
    ensures Keyed(Saved(done + [a]))
    ensures SaveAll(rows, Saved(done + [a])) == SaveAll(SaveAll(rows, Saved(done)), EntriesOf(a))
  {
    assert (done + [a])[..|done|] == done;
    SaveAllAppend(rows, Saved(done), EntriesOf(a));
  }

  /** One archive that makes `persist` throw makes the whole run throw. */
  lemma RunResultsFails(h: Hash, g: string, archives: seq<string>, outcomes: seq<Decoded>, i: nat)
    requires |archives| == |outcomes| && i < |archives|
    requires ArchiveResultOf(h, g, archives[i], outcomes[i]).None?
    ensures RunResults(h, g, archives, outcomes).None?
  {
  }

  /** The results of one more archive extend the results so far. */
  lemma RunResultsSnoc(h: Hash, g: string, archives: seq<string>, outcomes: seq<Decoded>, i: nat,
                       done: seq<ArchiveResult>, a: ArchiveResult)
    requires |archives| == |outcomes| && i < |archives|
    requires RunResults(h, g, archives[..i], outcomes[..i]) == Some(done)
    requires ArchiveResultOf(h, g, archives[i], outcomes[i]) == Some(a)
    ensures RunResults(h, g, archives[..i + 1], outcomes[..i + 1]) == Some(done + [a])
  {
    var rs := done + [a];
    forall j | 0 <= j < i + 1
      ensures ArchiveResultOf(h, g, archives[..i + 1][j], outcomes[..i + 1][j]) == Some(rs[j])
    {
      if j < i {
        assert archives[..i][j] == archives[j] && outcomes[..i][j] == outcomes[j];
        assert ArchiveResultOf(h, g, archives[..i][j], outcomes[..i][j]) == Some(done[j]);
      }
    }
    RunResultsOf(h, g, archives[..i + 1], outcomes[..i + 1], rs);
  }

  /** Results that agree with every archive's own result are the run's. */
  lemma RunResultsOf(h: Hash, g: string, archives: seq<string>, outcomes: seq<Decoded>, rs: seq<ArchiveResult>)
    requires |archives| == |outcomes| == |rs|
    requires forall j :: 0 <= j < |rs| ==> ArchiveResultOf(h, g, archives[j], outcomes[j]) == Some(rs[j])
    ensures RunResults(h, g, archives, outcomes) == Some(rs)
  {
    var all := RunResults(h, g, archives, outcomes);
    assert all.Some?;
    assert all.value == rs;
  }

  /** The archive stream of one task: every reference goes through
      `ingest`'s iterator, one after the other, in task order. */
  method IngestAll(store: DeviceStore, h: Hash, g: string, archives: seq<string>, outcomes: seq<Decoded>)
    returns (results: Option<seq<ArchiveResult>>)
    requires |outcomes| == |archives|
    modifies store
    ensures results == RunResults(h, g, archives, outcomes)
    ensures results.Some? ==> Keyed(Saved(results.value))
    ensures results.Some? ==> store.rows == SaveAll(old(store.rows), Saved(results.value))
  {
    var done: seq<ArchiveResult> := [];
    RunResultsOf(h, g, archives[..0], outcomes[..0], done);
    for i := 0 to |archives|
      invariant RunResults(h, g, archives[..i], outcomes[..i]) == Some(done)
      invariant Keyed(Saved(done))
      invariant store.rows == SaveAll(old(store.rows), Saved(done))
    {
      var res := ProcessArchive(store, h, g, archives[i], outcomes[i]);
      if res.None? {
        RunResultsFails(h, g, archives, outcomes, i);
        return None;
      }
      SavedAppend(old(store.rows), done, res.value);
      RunResultsSnoc(h, g, archives, outcomes, i, done, res.value);
      done := done + [res.value];
    }
    assert archives[..|archives|] == archives && outcomes[..|archives|] == outcomes;
    results := Some(done);
  }

  /** `sync`: remove the group's data, then run every archive of the task
      through the pipeline in order and hand the results to `end`.  The
      database's answer to the remove is the input `removeFails`; the
      decoders' output per archive is `outcomes`. */
  method Sync(store: DeviceStore, task: Task, h: Hash, outcomes: seq<Decoded>, removeFails: bool)
    returns (run: Run)
    requires |outcomes| == |task.archives|
    modifies store
    ensures removeFails ==> run == WipeFailed && store.rows == old(store.rows)
    ensures !removeFails && RunResults(h, task.groupId, task.archives, outcomes).None? ==> run == Crashed
    ensures !removeFails && RunResults(h, task.groupId, task.archives, outcomes).Some? ==>
      var rs := RunResults(h, task.groupId, task.archives, outcomes).value;
      && Stamped(Saved(rs), task.groupId)
      && run.Finished? && run.results == rs
      && run.report.exitCode == 0 && run.report.files == |task.archives|
      && |run.report.counts| == |rs|
      && (forall i :: 0 <= i < |rs| ==> run.report.counts[i] == RecordCount(rs[i]))
      && store.rows == SaveAll(WithoutGroup(old(store.rows), task.groupId), Saved(rs))
  {
    var err := store.Remove(task.groupId, removeFails);
    if err {
      return WipeFailed;
    }
    var results := IngestAll(store, h, task.groupId, task.archives, outcomes);
    if results.None? {
      return Crashed;
    }
    SavedStamped(h, task.groupId, task.archives, outcomes, results.value);
    var report := End(false, results.value);
    run := Finished(results.value, report);
  }
}
