/** The `entries` module (`lib/entries.js`): its one operation `add` gives a
    device-data entry a default `deviceTime`, a storage key `_id` hashed
    from its content and group (or re-hashed from the `_id` it already
    has), and saves it. */
module Entries {
  import opened Wrappers
  import opened Records
  import opened Store
  import Ingest

  // ---------------------------------------------------------------------
  // The default device time

  /** A reading of the local clock, as `moment()` sees it. */
  datatype LocalTime = LocalTime(year: nat, month: nat, day: nat, hour: nat, minute: nat, second: nat)

  /** `n` in decimal, left-padded with zeros to at least `width` digits. */
  function Pad(n: nat, width: nat): (r: string)
    ensures |r| >= width && |r| >= 1
    ensures forall i :: 0 <= i < |r| ==> '0' <= r[i] <= '9'
    ensures |DecimalDigits(n)| <= width ==> |r| == width
    decreases width
  {
    var digits := DecimalDigits(n);
    if |digits| >= width then digits else "0" + Pad(n, width - 1)
  }

  /** The `YYYY-MM-DD` half of the default device time. */
  function DatePart(t: LocalTime): string
  {
    Pad(t.year, 4) + "-" + Pad(t.month, 2) + "-" + Pad(t.day, 2)
  }

  /** The `HH:mm:ss` half of the default device time. */
  function ClockPart(t: LocalTime): string
  {
    Pad(t.hour, 2) + ":" + Pad(t.minute, 2) + ":" + Pad(t.second, 2)
  }

  /** `moment().format('YYYY-MM-DDTHH:mm:ss')`. */
  function Format(t: LocalTime): string
  {
    DatePart(t) + "T" + ClockPart(t)
  }

  /** A clock reading whose fields have their calendar ranges and a
      four-digit year. */
  predicate Calendar(t: LocalTime)
  {
    t.year <= 9999 && 1 <= t.month <= 12 && 1 <= t.day <= 31
    && t.hour < 24 && t.minute < 60 && t.second < 60
  }

  /** A value `n < 10^k` has at most `k` decimal digits. */
  lemma {:induction false} DigitsBelow(n: nat, k: nat, bound: nat)
    requires bound == Power10(k) && n < bound && k >= 1
    ensures |DecimalDigits(n)| <= k
    decreases k
  {
    if n >= 10 {
      assert k >= 2;
      DigitsBelow(n / 10, k - 1, Power10(k - 1));
    }
  }

  /** `10^k`, the least number with `k + 1` decimal digits. */
  function Power10(k: nat): (p: nat)
    ensures p >= 1
    ensures |DecimalDigits(p)| == k + 1
  {
    if k == 0 then 1
    else
      var q := Power10(k - 1);
      assert (10 * q) / 10 == q && (10 * q) % 10 == 0;
      10 * q
  }

  /** `Pad` puts the digits of `n` at the right and zeros before them. */
  lemma {:induction false} PadValue(n: nat, width: nat)
    ensures var r, d := Pad(n, width), DecimalDigits(n);
      |d| <= |r| && r[|r| - |d|..] == d && forall i :: 0 <= i < |r| - |d| ==> r[i] == '0'
    decreases width
  {
    var r, d := Pad(n, width), DecimalDigits(n);
    if |d| < width {
      PadValue(n, width - 1);
      var r' := Pad(n, width - 1);
      assert r == "0" + r';
      assert r[|r| - |d|..] == r'[|r'| - |d|..];
    }
  }

  /** Reading back a padded field gives the number. */
  lemma {:induction false} PadRoundTrip(n: nat, width: nat)
    ensures DigitsValue(Pad(n, width)) == n
    decreases width
  {
    if |DecimalDigits(n)| < width {
      PadRoundTrip(n, width - 1);
      LeadingZero(Pad(n, width - 1));
    } else {
      DecimalDigitsRoundTrip(n);
    }
  }

  /** A number below `10^width` fills its field exactly. */
  lemma PadWidth(n: nat, width: nat)
    requires width >= 1 && n < Power10(width)
    ensures |Pad(n, width)| == width
  {
    DigitsBelow(n, width, Power10(width));
  }

  lemma DatePartShape(t: LocalTime)
    requires t.year <= 9999 && t.month < 100 && t.day < 100
    ensures var s := DatePart(t);
      && |s| == 10 && s[4] == '-' && s[7] == '-'
      && s[..4] == Pad(t.year, 4) && s[5..7] == Pad(t.month, 2) && s[8..] == Pad(t.day, 2)
  {
    assert Power10(2) == 100 && Power10(4) == 10000;
    PadWidth(t.year, 4);
    PadWidth(t.month, 2);
    PadWidth(t.day, 2);
    var y, m, d := Pad(t.year, 4), Pad(t.month, 2), Pad(t.day, 2);
    var s := DatePart(t);
    assert s == y + "-" + m + "-" + d;
    assert s[..4] == y && s[5..7] == m && s[8..] == d;
  }

  lemma ClockPartShape(t: LocalTime)
    requires t.hour < 100 && t.minute < 100 && t.second < 100
    ensures var s := ClockPart(t);
      && |s| == 8 && s[2] == ':' && s[5] == ':'
      && s[..2] == Pad(t.hour, 2) && s[3..5] == Pad(t.minute, 2) && s[6..] == Pad(t.second, 2)
  {
    assert Power10(2) == 100;
    PadWidth(t.hour, 2);
    PadWidth(t.minute, 2);
    PadWidth(t.second, 2);
    var hh, mi, ss := Pad(t.hour, 2), Pad(t.minute, 2), Pad(t.second, 2);
    var s := ClockPart(t);
    assert s == hh + ":" + mi + ":" + ss;
    assert s[..2] == hh && s[3..5] == mi && s[6..] == ss;
  }

  /** The default device time of a calendar reading is the nineteen
      characters `YYYY-MM-DDTHH:mm:ss`, each field the zero-padded digits
      of the clock's year, month, day, hour, minute and second. */
  lemma FormatShape(t: LocalTime)
    requires Calendar(t)
    ensures var s := Format(t);
      && |s| == 19 && s[4] == '-' && s[7] == '-' && s[10] == 'T' && s[13] == ':' && s[16] == ':'
      && s[..4] == Pad(t.year, 4) && s[5..7] == Pad(t.month, 2) && s[8..10] == Pad(t.day, 2)
      && s[11..13] == Pad(t.hour, 2) && s[14..16] == Pad(t.minute, 2) && s[17..] == Pad(t.second, 2)
  {
    DatePartShape(t);
    ClockPartShape(t);
    var d, c := DatePart(t), ClockPart(t);
    var s := Format(t);
    assert s == d + "T" + c;
    assert s[..10] == d && s[11..] == c;
    assert s[..4] == d[..4] && s[5..7] == d[5..7] && s[8..10] == d[8..];
    assert s[11..13] == c[..2] && s[14..16] == c[3..5] && s[17..] == c[6..];
  }

  /** Each field of the default device time reads back as the clock's
      value. */
  lemma FormatReadsBack(t: LocalTime)
    requires Calendar(t)
    ensures var s := Format(t);
      && DigitsValue(s[..4]) == t.year && DigitsValue(s[5..7]) == t.month
      && DigitsValue(s[8..10]) == t.day && DigitsValue(s[11..13]) == t.hour
      && DigitsValue(s[14..16]) == t.minute && DigitsValue(s[17..]) == t.second
  {
    FormatShape(t);
    PadRoundTrip(t.year, 4);
    PadRoundTrip(t.month, 2);
    PadRoundTrip(t.day, 2);
    PadRoundTrip(t.hour, 2);
    PadRoundTrip(t.minute, 2);
    PadRoundTrip(t.second, 2);
  }

  /** JavaScript truthiness of the `deviceTime` field: present and not the
      empty string. */
  predicate Truthy(t: Option<string>)
  {
    t.Some? && t.value != ""
  }

  /** `entry.deviceTime = entry.deviceTime || now`. */
  function WithDeviceTime(r: Record, now: LocalTime): (m: Record)
    ensures Truthy(m.deviceTime)
    ensures m.(deviceTime := r.deviceTime) == r
    ensures Truthy(r.deviceTime) ==> m.deviceTime == r.deviceTime
    ensures !Truthy(r.deviceTime) ==> m.deviceTime == Some(Format(now))
  {
    if Truthy(r.deviceTime) then r else r.(deviceTime := Some(Format(now)))
  }

  // ---------------------------------------------------------------------
  // The storage key

  /** The digest `add` assigns to `_id` once `deviceTime` is set, or `None`
      when `hasher.update` is given an absent field and throws. */
  function AddedKey(h: Hash, r: Record): (k: Option<string>)
    requires r.deviceTime.Some?
    ensures k.None? <==> r.groupId.None? || (r.storeId.None? && r.kind.None?)
  {
    if r.storeId.None? then
      if r.kind.None? || r.groupId.None? then None
      else Some(h(r.kind.value + ValueString(r.value) + r.deviceTime.value + r.groupId.value))
    else if r.groupId.None? then None
    else Some(Ingest.StorageKey(h, r.storeId.value, r.groupId.value))
  }

  /** How `add` ends: the entry was saved, or `hasher.update` threw after
      `deviceTime` had already been set on the object. */
  datatype AddOutcome = Stored(entry: Record) | Threw(entry: Record)

  /** The entry object after `add`, and whether it reached `save`. */
  function Added(h: Hash, r: Record, now: LocalTime): (res: AddOutcome)
    ensures res.entry.(deviceTime := r.deviceTime, storeId := r.storeId) == r
    ensures Truthy(res.entry.deviceTime)
    ensures res.entry.deviceTime == WithDeviceTime(r, now).deviceTime
    ensures res.Threw? <==> r.groupId.None? || (r.storeId.None? && r.kind.None?)
    ensures res.Threw? ==> res.entry.storeId == r.storeId
    ensures res.Stored? ==> res.entry.storeId.Some?
  {
    var d := WithDeviceTime(r, now);
    match AddedKey(h, d)
    case None => Threw(d)
    case Some(k) => Stored(d.(storeId := Some(k)))
  }

  /** The hashing step of `add`, on an entry whose device time is set; it
      reads the entry and leaves it alone. */
  method HashKey(entry: Entry, h: Hash) returns (key: Option<string>)
    requires entry.deviceTime.Some?
    ensures key == AddedKey(h, entry.View())
  {
    var hasher := new Hasher(h);
    if entry.storeId.None? {
      if entry.kind.None? {
        return None;
      }
      hasher.Update(entry.kind.value);
      hasher.Update(ValueString(entry.value));
      hasher.Update(entry.deviceTime.value);
      if entry.groupId.None? {
        return None;
      }
      hasher.Update(entry.groupId.value);
      assert hasher.fed == entry.kind.value + ValueString(entry.value) + entry.deviceTime.value + entry.groupId.value;
    } else {
      hasher.Update(entry.storeId.value);
      if entry.groupId.None? {
        return None;
      }
      hasher.Update(entry.groupId.value);
      assert hasher.fed == entry.storeId.value + entry.groupId.value;
    }
    var digest := hasher.Digest();
    key := Some(digest);
  }

  /** `add(entry, cb)`: default the device time, compute `_id` with one
      hasher, save. */
  method Add(entry: Entry, store: DeviceStore, h: Hash, now: LocalTime) returns (saved: bool)
    modifies entry, store
    ensures entry.View() == Added(h, old(entry.View()), now).entry
    ensures saved == Added(h, old(entry.View()), now).Stored?
    ensures saved ==> store.rows == Upsert(old(store.rows), entry.View())
    ensures !saved ==> store.rows == old(store.rows)
  {
    ghost var r := entry.View();
    if !Truthy(entry.deviceTime) {
      entry.deviceTime := Some(Format(now));
    }
    assert entry.View() == WithDeviceTime(r, now);
    var key := HashKey(entry, h);
    if key.None? {
      return false;
    }
    entry.storeId := key;
    store.Save(entry.View());
    saved := true;
  }

  // ---------------------------------------------------------------------
  // Properties of add

  /** A new entry is keyed by its type, value, final device time and group,
      fed in that order; an entry without a device time is keyed with the
      clock reading. */
  lemma AddKeysByContent(h: Hash, r: Record, now: LocalTime)
    requires r.storeId.None? && r.kind.Some? && r.groupId.Some?
    ensures var t := if Truthy(r.deviceTime) then r.deviceTime.value else Format(now);
      Added(h, r, now) ==
        Stored(r.(deviceTime := Some(t),
                  storeId := Some(h(r.kind.value + ValueString(r.value) + t + r.groupId.value))))
  {
  }

  /** Equal type, value, device time and group, and no `_id`: equal keys,
      whenever each is added. */
  lemma AddKeyDeterministic(h: Hash, r1: Record, r2: Record, now1: LocalTime, now2: LocalTime)
    requires r1.storeId.None? && r2.storeId.None?
    requires r1.kind == r2.kind && r1.value == r2.value && r1.groupId == r2.groupId
    requires Truthy(r1.deviceTime) && r1.deviceTime == r2.deviceTime
    requires Added(h, r1, now1).Stored?
    ensures Added(h, r2, now2).Stored?
    ensures Added(h, r1, now1).entry.storeId == Added(h, r2, now2).entry.storeId
  {
  }

  /** The other side of the default: a reading without a device time,
      added at two clock readings that format differently, gets two keys
      under an injective hash, so adding it again does not deduplicate. */
  lemma AddDefaultTimeDefeatsDedup(h: Hash, r: Record, now1: LocalTime, now2: LocalTime)
    requires Injective(h)
    requires r.storeId.None? && r.kind.Some? && r.groupId.Some? && !Truthy(r.deviceTime)
    requires Format(now1) != Format(now2)
    ensures Added(h, r, now1).Stored? && Added(h, r, now2).Stored?
    ensures Added(h, r, now1).entry.storeId != Added(h, r, now2).entry.storeId
  {
    var c := r.kind.value + ValueString(r.value);
    var g := r.groupId.value;
    var t1, t2 := Format(now1), Format(now2);
    assert Added(h, r, now1).entry.storeId == Some(h(c + t1 + g));
    assert Added(h, r, now2).entry.storeId == Some(h(c + t2 + g));
    assert (c + t1 + g)[|c|..|c + t1 + g| - |g|] == t1;
    assert (c + t2 + g)[|c|..|c + t2 + g| - |g|] == t2;
  }

  /** An entry that already has `_id` is stored under the digest of that
      `_id` followed by its group. */
  lemma AddRehashesKey(h: Hash, r: Record, now: LocalTime)
    requires r.storeId.Some? && r.groupId.Some?
    ensures Added(h, r, now).Stored?
    ensures Added(h, r, now).entry.storeId == Some(Ingest.StorageKey(h, r.storeId.value, r.groupId.value))
  {
  }

  /** Adding the entry object again keeps its device time but moves it to a
      new key, the digest of the previous key and the group. */
  lemma AddAgainRekeys(h: Hash, r: Record, now1: LocalTime, now2: LocalTime)
    requires Added(h, r, now1).Stored?
    ensures var e := Added(h, r, now1).entry;
      Added(h, e, now2) == Stored(e.(storeId := Some(Ingest.StorageKey(h, e.storeId.value, e.groupId.value))))
  {
  }

  /** So `add` is not idempotent: with a hash that never returns its own
      input, adding the same object twice leaves two rows. */
  lemma AddTwiceTwoRows(rows: Rows, now: LocalTime)
    ensures var h: Hash := s => "h" + s;
      var r := Record(Some("smbg"), Number(5), Some("2014-03-01T08:00:00"), Some("g"), None, None, map[]);
      var e1 := Added(h, r, now).entry;
      var e2 := Added(h, e1, now).entry;
      && e1.storeId.Some? && e2.storeId.Some?
      && e1.storeId != e2.storeId
      && Upsert(Upsert(rows, e1), e2).Keys == rows.Keys + {e1.storeId.value, e2.storeId.value}
  {
    var h: Hash := s => "h" + s;
    var r := Record(Some("smbg"), Number(5), Some("2014-03-01T08:00:00"), Some("g"), None, None, map[]);
    var e1 := Added(h, r, now).entry;
    AddAgainRekeys(h, r, now, now);
    var e2 := Added(h, e1, now).entry;
    assert |e2.storeId.value| > |e1.storeId.value|;
  }

  /** Under the assumption that the hash is injective, the same reading
      added for two groups gets two keys. */
  lemma AddGroupIsolation(h: Hash, r1: Record, r2: Record, now: LocalTime)
    requires Injective(h)
    requires r1.storeId.None? && r2.storeId.None?
    requires r1.kind == r2.kind && r1.value == r2.value && r1.deviceTime == r2.deviceTime
    requires r1.groupId != r2.groupId
    requires Added(h, r1, now).Stored? && Added(h, r2, now).Stored?
    ensures Added(h, r1, now).entry.storeId != Added(h, r2, now).entry.storeId
  {
    var t := WithDeviceTime(r1, now).deviceTime.value;
    var c := r1.kind.value + ValueString(r1.value) + t;
    var g1, g2 := r1.groupId.value, r2.groupId.value;
    assert r1.kind.value + ValueString(r1.value) + t + g1 == c + g1;
    assert r2.kind.value + ValueString(r2.value) + t + g2 == c + g2;
    assert (c + g1)[|c|..] == g1 && (c + g2)[|c|..] == g2;
  }

  /** `add` and the ingestion's `persist` key the same new reading
      differently: `persist` hashes the content digest with the group, `add`
      the content itself with the group.  Under an injective hash the two
      keys agree exactly when the hash maps the content text to itself. */
  lemma PersistAndAddDisagree(h: Hash, r: Record, now: LocalTime)
    requires Injective(h)
    requires r.storeId.None? && r.id.None?
    requires r.kind.Some? && Truthy(r.deviceTime) && r.groupId.Some?
    ensures Ingest.Identify(h, r).Some? && Added(h, r, now).Stored?
    ensures var c := r.kind.value + ValueString(r.value) + r.deviceTime.value;
      Ingest.Identify(h, r).value.storeId == Added(h, r, now).entry.storeId <==> h(c) == c
  {
    var c := r.kind.value + ValueString(r.value) + r.deviceTime.value;
    var g := r.groupId.value;
    assert Ingest.Identify(h, r).value.storeId == Some(h(h(c) + g));
    assert Added(h, r, now).entry.storeId == Some(h(c + g));
    if h(h(c) + g) == h(c + g) {
      assert h(c) + g == c + g;
      assert (h(c) + g)[..|h(c) + g| - |g|] == h(c);
      assert (c + g)[..|c + g| - |g|] == c;
    }
  }
}
