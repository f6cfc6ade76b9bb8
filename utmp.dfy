/**
  The utmp/wtmp reader of src/utmp.rs. The file is an append-only array of
  packed 384-byte entries, newest last. It is scanned from its last entry
  backwards; every decoded entry is merged into a name-keyed "latest" map, the
  scan stops after merging the first entry a caller-supplied predicate
  accepts, and accounts of the directory that were never seen receive a
  "never logged in" record.
*/
module Utmp {
  import opened Wrappers
  import opened Bytes
  import opened Unicode
  import opened Common

  /**
    `size_of::<RStruct>()` for the packed entry: rtype (4 bytes, offset 0), pid (4),
    line (32, offset 8), id (4), user (32, offset 44), host (256), exit (4),
    session (4), sec (4, offset 340), usec (4), addr (16) and unused (20).
  */
  const EntrySize: nat := 384

  /** The fields of an entry that the reader uses; the others are never read. */
  datatype Entry = Entry(rtype: i32, line: seq<byte>, user: seq<byte>, sec: i32)

  predicate WellFormed(e: Entry) {
    |e.line| == 32 && |e.user| == 32
  }

  /** Field-by-field little-endian decoding of one packed entry. */
  function DecodeEntry(b: seq<byte>): (e: Entry)
    requires |b| == EntrySize
    ensures WellFormed(e)
  {
    Entry(ToI32(U32LE(b[0..4])), b[8..40], b[44..76], ToI32(U32LE(b[340..344])))
  }

  /** The packed bytes of an entry, with every field the reader ignores set to zero. */
  function EncodeEntry(e: Entry): (b: seq<byte>)
    requires WellFormed(e)
    ensures |b| == EntrySize
  {
    EncodeU32LE(AsU32(e.rtype)) + Zeros(4) + e.line + Zeros(4) + e.user + Zeros(264)
    + EncodeU32LE(AsU32(e.sec)) + Zeros(40)
  }

  /** The decoder reads every field back from where the encoder put it. */
  lemma EntryRoundTrip(e: Entry)
    requires WellFormed(e)
    ensures DecodeEntry(EncodeEntry(e)) == e
  {
    var b := EncodeEntry(e);
    assert b[0..4] == EncodeU32LE(AsU32(e.rtype));
    assert b[8..40] == e.line;
    assert b[44..76] == e.user;
    assert b[340..344] == EncodeU32LE(AsU32(e.sec));
    U32RoundTrip(AsU32(e.rtype));
    U32RoundTrip(AsU32(e.sec));
  }

  /**
    `stringify`: a fixed-width text field as UTF-8 with its NUL padding removed;
    `InvalidData` when the bytes are not valid UTF-8.
  */
  function Stringify(b: seq<byte>): (r: Result<string>)
    ensures r.Ok? <==> Utf8Decode(b).Some?
    ensures r.Err? ==> r.error == InvalidData
    ensures r.Ok? ==> r.value == [] || (r.value[0] != '\0' && r.value[|r.value| - 1] != '\0')
  {
    match Utf8Decode(b)
    case None => Err(InvalidData)
    case Some(s) => Ok(TrimNul(s))
  }

  /** Text between NUL runs encodes as zero bytes around the text's encoding. */
  lemma EncodeFramed(b: seq<byte>, s: string, t: string, lead: nat)
    requires Utf8Encode(s) == b && lead + |t| <= |s|
    requires s == s[..lead] + t + s[lead + |t|..] && AllNul(s[..lead]) && AllNul(s[lead + |t|..])
    ensures b == Zeros(lead) + Utf8Encode(t) + Zeros(|s| - lead - |t|)
  {
    var pre, post := s[..lead], s[lead + |t|..];
    Utf8EncodeAppend(pre + t, post);
    Utf8EncodeAppend(pre, t);
    EncodeNuls(pre);
    EncodeNuls(post);
  }

  /** An accepted field is zero bytes, then the UTF-8 encoding of the text, then zero bytes. */
  lemma StringifyFraming(b: seq<byte>)
    requires Stringify(b).Ok?
    ensures var s := Utf8Decode(b).value;
            var t := Stringify(b).value;
            var lead := LeadingNuls(s);
            lead + |t| <= |s| && b == Zeros(lead) + Utf8Encode(t) + Zeros(|s| - lead - |t|)
  {
    var s := Utf8Decode(b).value;
    TrimNulSplit(s);
    Utf8DecodeCanonical(b);
    EncodeFramed(b, s, TrimNul(s), LeadingNuls(s));
  }

  /** `read_utmp`'s sanity check: a known tag range and a nonzero time. */
  predicate Plausible(st: Entry) {
    0 <= st.rtype <= 10 && st.sec != 0
  }

  /**
    `read_utmp` on a filled buffer: the decoded entry, or `InvalidData` when its
    rtype is outside 0..10 or its time is zero.
  */
  function ReadUtmp(buf: seq<byte>): (r: Result<Entry>)
    ensures r.Ok? <==> EntrySize <= |buf| && Plausible(DecodeEntry(buf[..EntrySize]))
    ensures r.Ok? ==> r.value == DecodeEntry(buf[..EntrySize])
    ensures r.Err? ==> r.error == if |buf| < EntrySize then UnexpectedEof else InvalidData
  {
    match ReadStruct(buf, EntrySize)
    case Err(e) => Err(e)
    case Ok(raw) =>
      var st := DecodeEntry(raw);
      if st.rtype < 0 || st.rtype > 10 || st.sec == 0 then Err(InvalidData) else Ok(st)
  }

  /**
    `map_record`: the unified record of an entry. Both text fields must be UTF-8
    and the tag one of the ten kinds, otherwise `InvalidData`; the uid is the
    directory's uid for the name, if any; a zero time means never.
  */
  function MapRecord(umap: map<string, u32>, st: Entry): (r: Result<Record>)
    ensures r.Ok? <==> Utf8Decode(st.line).Some? && Utf8Decode(st.user).Some? && 0 <= st.rtype <= 9
    ensures r.Err? ==> r.error == InvalidData
    ensures r.Ok? ==>
      && r.value.name == Stringify(st.user).value
      && r.value.tty == Stringify(st.line).value
      && TagOf(r.value.rtype) == st.rtype
      && (r.value.uid.Some? <==> r.value.name in umap)
      && (r.value.uid.Some? ==> r.value.uid.value == umap[r.value.name])
      && (r.value.lastLogin == Never <==> st.sec == 0)
      && (r.value.lastLogin.Last? ==> r.value.lastLogin.secs == AsU32(st.sec))
  {
    match Stringify(st.line)
    case Err(e) => Err(e)
    case Ok(tty) =>
      match Stringify(st.user)
      case Err(e) => Err(e)
      case Ok(name) =>
        match RecordTypeFrom(st.rtype)
        case Err(e) => Err(e)
        case Ok(rtype) =>
          TrimNulIdempotent(Utf8Decode(st.line).value);
          Ok(Record(rtype, Get(umap, name), name, TrimNul(tty), UnixTimestamp(AsU32(st.sec))))
  }

  /**
    One step of the scan: `read_utmp` then `map_record`. A record comes out only
    for a full entry whose tag is one of the ten kinds, whose time is nonzero and
    whose text fields are UTF-8; such a record always carries a concrete time.
  */
  function ReadEntry(umap: map<string, u32>, buf: seq<byte>): (r: Result<Record>)
    ensures r.Ok? <==>
      && EntrySize <= |buf|
      && var st := DecodeEntry(buf[..EntrySize]);
         0 <= st.rtype <= 9 && st.sec != 0 && Utf8Decode(st.line).Some? && Utf8Decode(st.user).Some?
    ensures r.Err? ==> r.error == if |buf| < EntrySize then UnexpectedEof else InvalidData
    ensures r.Ok? ==> r.value.lastLogin.Last? && r.value.uid == Get(umap, r.value.name)
  {
    match ReadUtmp(buf)
    case Err(e) => Err(e)
    case Ok(st) => MapRecord(umap, st)
  }

  /** `set_latest` keeps the stored record only when both times are concrete and the stored one is later. */
  predicate KeepsStored(all: map<string, Record>, rec: Record) {
    && rec.name in all
    && all[rec.name].lastLogin.Last?
    && rec.lastLogin.Last?
    && all[rec.name].lastLogin.secs > rec.lastLogin.secs
  }

  /**
    `set_latest`: the entry for `rec.name` becomes `rec` unless the stored one
    is strictly later (ties and `Never` on either side replace); every other
    key is unchanged.
  */
  function SetLatest(all: map<string, Record>, rec: Record): (r: map<string, Record>)
    ensures r.Keys == all.Keys + {rec.name}
    ensures r[rec.name] == if KeepsStored(all, rec) then all[rec.name] else rec
    ensures forall n :: n in all && n != rec.name ==> r[n] == all[n]
  {
    if KeepsStored(all, rec) then all else all[rec.name := rec]
  }

  // ---------------------------------------------------------------- the scan, as a specification

  /** Decodes one entry buffer into a record; the reader uses `Step(umap)`. */
  type Decoder = seq<byte> -> Result<Record>

  /** `read_utmp` followed by `map_record` against the directory `umap`. */
  function Step(umap: map<string, u32>): Decoder
  {
    (b: seq<byte>) => ReadEntry(umap, b)
  }

  /** The `k`-th entry counted from the end of the file (`k == 0` is the newest). */
  function SlotFromEnd(file: seq<byte>, k: nat): (b: seq<byte>)
    requires EntrySize * (k + 1) <= |file|
    ensures |b| == EntrySize
  {
    file[|file| - EntrySize * (k + 1)..|file| - EntrySize * k]
  }

  /**
    The records the scan merges, in the order it merges them, when the cursor
    stands at `seek`: the entry just below the cursor, and then the rest unless
    `until` accepted it. A decode error aborts with that error; a cursor that is
    neither 0 nor at least one entry is where the source's unsigned subtraction
    underflows, and the seek that follows fails with `InvalidInput`.
  */
  function TraceFrom(dec: Decoder, file: seq<byte>, until: Record -> bool, seek: nat): Result<seq<Record>>
    requires seek <= |file|
    decreases seek
  {
    if seek == 0 then Ok([])
    else if seek < EntrySize then Err(InvalidInput)
    else match dec(file[seek - EntrySize..seek])
      case Err(e) => Err(e)
      case Ok(rec) =>
        if until(rec) then Ok([rec])
        else match TraceFrom(dec, file, until, seek - EntrySize)
          case Err(e) => Err(e)
          case Ok(rest) => Ok([rec] + rest)
  }

  /** The records the whole scan merges, starting at the end of the file. */
  function Trace(dec: Decoder, file: seq<byte>, until: Record -> bool): Result<seq<Record>>
  {
    TraceFrom(dec, file, until, |file|)
  }

  /** The latest-map after merging `rs` in order with `set_latest`. */
  function MergeAll(rs: seq<Record>): map<string, Record>
  {
    if rs == [] then map[] else SetLatest(MergeAll(rs[..|rs| - 1]), rs[|rs| - 1])
  }

  /** The map after the loop that adds a `new_record` for every directory account not yet present. */
  function FillNever(records: map<string, Record>, umap: map<string, u32>): map<string, Record>
  {
    map n | n in records.Keys + umap.Keys :: if n in records then records[n] else NewRecord(umap[n], n)
  }

  /** What `read_until` returns (as a name-keyed map rather than in hash order). */
  function Resolve(umap: map<string, u32>, file: seq<byte>, until: Record -> bool): Result<map<string, Record>>
  {
    match Trace(Step(umap), file, until)
    case Err(e) => Err(e)
    case Ok(rs) => Ok(FillNever(MergeAll(rs), umap))
  }

  // ---------------------------------------------------------------- what the scan does

  lemma {:induction false} TraceFromVisits(dec: Decoder, file: seq<byte>, until: Record -> bool, seek: nat)
    requires seek <= |file| && TraceFrom(dec, file, until, seek).Ok?
    ensures var rs := TraceFrom(dec, file, until, seek).value;
            && EntrySize * |rs| <= seek
            && (forall k :: 0 <= k < |rs| ==>
                  dec(file[seek - EntrySize * (k + 1)..seek - EntrySize * k]) == Ok(rs[k]))
            && (forall k :: 0 <= k < |rs| - 1 ==> !until(rs[k]))
            && (EntrySize * |rs| == seek || until(rs[|rs| - 1]))
    decreases seek
  {
    if seek > 0 {
      var s := seek - EntrySize;
      var rec := dec(file[s..seek]).value;
      if !until(rec) {
        TraceFromVisits(dec, file, until, s);
        var rest := TraceFrom(dec, file, until, s).value;
        var rs := [rec] + rest;
        assert TraceFrom(dec, file, until, seek).value == rs;
        forall k | 0 <= k < |rs|
          ensures dec(file[seek - EntrySize * (k + 1)..seek - EntrySize * k]) == Ok(rs[k])
        {
          if k > 0 {
            assert seek - EntrySize * (k + 1) == s - EntrySize * ((k - 1) + 1);
            assert seek - EntrySize * k == s - EntrySize * (k - 1);
          }
        }
      }
    }
  }

  /**
    The scan visits the entries at offsets len-384, len-768, ... in strictly
    decreasing order: the `k`-th merged record is the one decoded from the
    `k`-th entry from the end. Every merged record but the last was rejected by
    `until`, and the scan ends either at offset 0 or right after the first
    record `until` accepts.
  */
  lemma TraceVisits(dec: Decoder, file: seq<byte>, until: Record -> bool)
    requires Trace(dec, file, until).Ok?
    ensures var rs := Trace(dec, file, until).value;
            && EntrySize * |rs| <= |file|
            && (forall k :: 0 <= k < |rs| ==> dec(SlotFromEnd(file, k)) == Ok(rs[k]))
            && (forall k :: 0 <= k < |rs| - 1 ==> !until(rs[k]))
            && (EntrySize * |rs| == |file| || until(rs[|rs| - 1]))
  {
    TraceFromVisits(dec, file, until, |file|);
  }

  /** The newest `j` entries decode and none of them satisfies `until`. */
  ghost predicate PassesFirst(dec: Decoder, file: seq<byte>, until: Record -> bool, j: nat) {
    && EntrySize * j <= |file|
    && forall k :: 0 <= k < j ==>
         dec(SlotFromEnd(file, k)).Ok? && !until(dec(SlotFromEnd(file, k)).value)
  }

  lemma {:induction false} TraceSkip(dec: Decoder, file: seq<byte>, until: Record -> bool, j: nat)
    requires PassesFirst(dec, file, until, j)
    ensures var tail := TraceFrom(dec, file, until, |file| - EntrySize * j);
            var all := Trace(dec, file, until);
            && (tail.Err? ==> all == tail)
            && (tail.Ok? ==> all.Ok? && |all.value| == j + |tail.value| && all.value[j..] == tail.value)
  {
    if j > 0 {
      TraceSkip(dec, file, until, j - 1);
      var s1 := |file| - EntrySize * (j - 1);
      var s := |file| - EntrySize * j;
      assert s1 - EntrySize == s;
      assert SlotFromEnd(file, j - 1) == file[s..s1];
      var rec := dec(file[s..s1]).value;
      assert !until(rec);
      var tail := TraceFrom(dec, file, until, s);
      if tail.Ok? {
        var all := Trace(dec, file, until).value;
        assert all[j - 1..] == [rec] + tail.value;
        assert all[j..] == all[j - 1..][1..];
      }
    }
  }

  /** Early stop: when the `j` newest entries pass and the next one satisfies `until`, exactly `j + 1` records are merged; older entries are never read. */
  lemma TraceStopsAt(dec: Decoder, file: seq<byte>, until: Record -> bool, j: nat, rec: Record)
    requires PassesFirst(dec, file, until, j)
    requires EntrySize * (j + 1) <= |file|
    requires dec(SlotFromEnd(file, j)) == Ok(rec) && until(rec)
    ensures Trace(dec, file, until).Ok?
    ensures |Trace(dec, file, until).value| == j + 1 && Trace(dec, file, until).value[j] == rec
  {
    TraceSkip(dec, file, until, j);
    var s := |file| - EntrySize * j;
    assert SlotFromEnd(file, j) == file[s - EntrySize..s];
  }

  /** Any decode error among the entries the scan reaches aborts the whole call with that error. */
  lemma TraceAbortsAt(dec: Decoder, file: seq<byte>, until: Record -> bool, j: nat, e: ErrorKind)
    requires PassesFirst(dec, file, until, j)
    requires EntrySize * (j + 1) <= |file|
    requires dec(SlotFromEnd(file, j)) == Err(e)
    ensures Trace(dec, file, until) == Err(e)
  {
    TraceSkip(dec, file, until, j);
    var s := |file| - EntrySize * j;
    assert SlotFromEnd(file, j) == file[s - EntrySize..s];
  }

  /** A file whose length is not a multiple of 384 fails once the scan gets below the last whole entry. */
  lemma TraceMisaligned(dec: Decoder, file: seq<byte>, until: Record -> bool, j: nat)
    requires PassesFirst(dec, file, until, j)
    requires EntrySize * j < |file| < EntrySize * (j + 1)
    ensures Trace(dec, file, until) == Err(InvalidInput)
  {
    TraceSkip(dec, file, until, j);
  }

  /** A scan that reaches offset 0 merges one record per entry. */
  lemma TraceWhole(dec: Decoder, file: seq<byte>, until: Record -> bool, j: nat)
    requires PassesFirst(dec, file, until, j)
    requires EntrySize * j == |file|
    ensures Trace(dec, file, until).Ok? && |Trace(dec, file, until).value| == j
  {
    TraceSkip(dec, file, until, j);
  }

  // ---------------------------------------------------------------- latest-wins

  predicate AllLast(rs: seq<Record>) {
    forall k :: 0 <= k < |rs| ==> rs[k].lastLogin.Last?
  }

  /** Record `k` is the one the merge keeps for `n`: no later record for `n` is as recent. */
  predicate Chosen(rs: seq<Record>, n: string, k: int) {
    && 0 <= k < |rs|
    && rs[k].name == n
    && forall j :: k < j < |rs| && rs[j].name == n ==> Secs(rs[j].lastLogin) < Secs(rs[k].lastLogin)
  }

  /** The names merged by `rs`. */
  function Names(rs: seq<Record>): set<string>
  {
    set k | 0 <= k < |rs| :: rs[k].name
  }

  /** The merge holds one entry per name it saw. */
  lemma {:induction false} MergeAllKeys(rs: seq<Record>)
    ensures MergeAll(rs).Keys == Names(rs)
  {
    if rs != [] {
      var pre := rs[..|rs| - 1];
      MergeAllKeys(pre);
      assert Names(rs) == Names(pre) + {rs[|rs| - 1].name} by {
        forall n | n in Names(rs) ensures n in Names(pre) + {rs[|rs| - 1].name} {
          var k :| 0 <= k < |rs| && rs[k].name == n;
          if k < |rs| - 1 {
            assert pre[k] == rs[k];
          }
        }
        forall n | n in Names(pre) ensures n in Names(rs) {
          var k :| 0 <= k < |pre| && pre[k].name == n;
          assert rs[k] == pre[k];
        }
      }
    }
  }

  /**
    Latest wins, first half: when every record has a concrete time, the merge
    keeps for each name a time at least that of each of the name's records.
  */
  lemma {:induction false} MergeAllMax(rs: seq<Record>, k: nat)
    requires AllLast(rs) && k < |rs|
    ensures rs[k].name in MergeAll(rs)
    ensures MergeAll(rs)[rs[k].name].lastLogin.Last?
    ensures Secs(rs[k].lastLogin) <= Secs(MergeAll(rs)[rs[k].name].lastLogin)
  {
    var pre, last := rs[..|rs| - 1], rs[|rs| - 1];
    if k < |rs| - 1 {
      assert pre[k] == rs[k];
      assert AllLast(pre) by {
        assert forall j :: 0 <= j < |pre| ==> pre[j] == rs[j];
      }
      MergeAllMax(pre, k);
    }
  }

  /**
    Latest wins, second half: the record kept for a name is one of that name's
    records with no later record of that name as recent, that is the latest,
    and of equally recent ones the last merged.
  */
  lemma {:induction false} MergeAllChosen(rs: seq<Record>, n: string)
    requires AllLast(rs) && n in MergeAll(rs)
    ensures exists k :: Chosen(rs, n, k) && MergeAll(rs)[n] == rs[k]
  {
    var pre, last := rs[..|rs| - 1], rs[|rs| - 1];
    var m' := MergeAll(pre);
    assert AllLast(pre) by {
      assert forall j :: 0 <= j < |pre| ==> pre[j] == rs[j];
    }
    if n == last.name && !KeepsStored(m', last) {
      assert Chosen(rs, n, |rs| - 1);
    } else {
      assert MergeAll(rs)[n] == m'[n];
      MergeAllChosen(pre, n);
      var k :| Chosen(pre, n, k) && m'[n] == pre[k];
      assert pre[k] == rs[k];
      forall j | k < j < |rs| && rs[j].name == n ensures Secs(rs[j].lastLogin) < Secs(rs[k].lastLogin) {
        if j < |rs| - 1 {
          assert pre[j] == rs[j];
        }
      }
      assert Chosen(rs, n, k);
    }
  }

  // ---------------------------------------------------------------- the result of the scan

  /** Every merged record has a concrete time and the directory's uid for its name. */
  ghost predicate Consistent(umap: map<string, u32>, rs: seq<Record>) {
    forall k :: 0 <= k < |rs| ==> rs[k].lastLogin.Last? && rs[k].uid == Get(umap, rs[k].name)
  }

  /** The records of a scan come from `map_record` on entries with a nonzero time. */
  lemma TraceConsistent(umap: map<string, u32>, file: seq<byte>, until: Record -> bool)
    requires Trace(Step(umap), file, until).Ok?
    ensures Consistent(umap, Trace(Step(umap), file, until).value)
    ensures AllLast(Trace(Step(umap), file, until).value)
  {
    var rs := Trace(Step(umap), file, until).value;
    TraceVisits(Step(umap), file, until);
    forall k | 0 <= k < |rs| ensures rs[k].lastLogin.Last? && rs[k].uid == Get(umap, rs[k].name) {
      assert ReadEntry(umap, SlotFromEnd(file, k)) == Ok(rs[k]);
    }
  }

  /** The merged map of consistent records: each record under its own name, with the directory's uid. */
  lemma MergeConsistent(umap: map<string, u32>, rs: seq<Record>, n: string)
    requires Consistent(umap, rs) && AllLast(rs) && n in MergeAll(rs)
    ensures MergeAll(rs)[n].name == n && MergeAll(rs)[n].uid == Get(umap, n)
  {
    MergeAllChosen(rs, n);
  }

  /**
    The resolved map covers the directory: its keys are the directory's names
    and the names the scan merged; every record sits under its own name with the
    directory's uid for that name; a directory account the scan never saw has
    a synthesised `Never` record.
  */
  lemma ResolveCovers(umap: map<string, u32>, file: seq<byte>, until: Record -> bool)
    requires Resolve(umap, file, until).Ok?
    ensures var m := Resolve(umap, file, until).value;
            var rs := Trace(Step(umap), file, until).value;
            && m.Keys == umap.Keys + Names(rs)
            && (forall n :: n in m ==> m[n].name == n && m[n].uid == Get(umap, n))
            && (forall n :: n in umap && n !in Names(rs) ==> m[n] == NewRecord(umap[n], n))
  {
    var rs := Trace(Step(umap), file, until).value;
    TraceConsistent(umap, file, until);
    MergeAllKeys(rs);
    var merged := MergeAll(rs);
    var m := Resolve(umap, file, until).value;
    assert m == FillNever(merged, umap);
    forall n | n in merged ensures merged[n].name == n && merged[n].uid == Get(umap, n) {
      MergeConsistent(umap, rs, n);
    }
  }

  /** Latest wins for the scan: every merged record's name maps to a record at least as recent. */
  lemma ResolveLatest(umap: map<string, u32>, file: seq<byte>, until: Record -> bool, k: nat)
    requires Resolve(umap, file, until).Ok?
    requires k < |Trace(Step(umap), file, until).value|
    ensures var m := Resolve(umap, file, until).value;
            var rs := Trace(Step(umap), file, until).value;
            rs[k].name in m && m[rs[k].name].lastLogin.Last?
            && Secs(rs[k].lastLogin) <= Secs(m[rs[k].name].lastLogin)
  {
    var rs := Trace(Step(umap), file, until).value;
    TraceConsistent(umap, file, until);
    MergeAllMax(rs, k);
  }

  /** The predicate `read_all` scans with: nothing stops the scan. */
  function NoStop(r: Record): bool { false }

  /** The predicate of `search_uid`. */
  function UidIs(uid: u32): Record -> bool { (r: Record) => r.uid == Some(uid) }

  /** The predicate of `search_username`. */
  function NameIs(name: string): Record -> bool { (r: Record) => r.name == name }

  /** `read_all` succeeds exactly when the file is whole entries and every one of them decodes. */
  lemma ReadAllSucceeds(umap: map<string, u32>, file: seq<byte>)
    ensures Trace(Step(umap), file, NoStop).Ok? <==>
            |file| % EntrySize == 0
            && forall k :: 0 <= k < |file| / EntrySize ==> ReadEntry(umap, SlotFromEnd(file, k)).Ok?
  {
    if Trace(Step(umap), file, NoStop).Ok? {
      TraceVisits(Step(umap), file, NoStop);
      var rs := Trace(Step(umap), file, NoStop).value;
      assert EntrySize * |rs| == |file|;
      assert |file| / EntrySize == |rs|;
    } else if |file| % EntrySize == 0 && forall k :: 0 <= k < |file| / EntrySize ==> ReadEntry(umap, SlotFromEnd(file, k)).Ok? {
      var n := |file| / EntrySize;
      assert EntrySize * n == |file|;
      TraceWhole(Step(umap), file, NoStop, n);
    }
  }

  /**
    A point lookup by name whose newest entry belongs to that name reads that one
    entry only: it returns that record, however the older entries look.
  */
  lemma SearchUsernameStopsAtNewest(umap: map<string, u32>, file: seq<byte>, username: string, rec: Record)
    requires EntrySize <= |file|
    requires ReadEntry(umap, SlotFromEnd(file, 0)) == Ok(rec) && rec.name == username
    ensures Trace(Step(umap), file, NameIs(username)) == Ok([rec])
    ensures Resolve(umap, file, NameIs(username)).Ok?
    ensures Resolve(umap, file, NameIs(username)).value[username] == rec
  {
    StopsAtNewest(Step(umap), file, NameIs(username), rec);
    MergeSnoc([], rec);
    assert [] + [rec] == [rec];
    assert MergeAll([rec]) == map[username := rec];
  }

  /** A newest entry that `until` accepts is the whole scan. */
  lemma StopsAtNewest(dec: Decoder, file: seq<byte>, until: Record -> bool, rec: Record)
    requires EntrySize <= |file|
    requires dec(SlotFromEnd(file, 0)) == Ok(rec) && until(rec)
    ensures Trace(dec, file, until) == Ok([rec])
  {
    assert PassesFirst(dec, file, until, 0);
    TraceStopsAt(dec, file, until, 0, rec);
  }

  /** Merging one more record is one more `set_latest`. */
  lemma MergeSnoc(done: seq<Record>, rec: Record)
    ensures MergeAll(done + [rec]) == SetLatest(MergeAll(done), rec)
  {
    assert (done + [rec])[..|done|] == done;
  }

  /** `done` merged before whatever the rest of the scan yields. */
  function Prepend(done: seq<Record>, rest: Result<seq<Record>>): Result<seq<Record>>
  {
    match rest
    case Err(e) => Err(e)
    case Ok(rs) => Ok(done + rs)
  }

  lemma PrependNothing(rest: Result<seq<Record>>)
    ensures Prepend([], rest) == rest
  {
    if rest.Ok? {
      assert [] + rest.value == rest.value;
    }
  }

  /** A record `until` rejects is merged and the scan goes on one entry lower. */
  lemma ScanContinues(dec: Decoder, file: seq<byte>, until: Record -> bool, seek: nat, done: seq<Record>, rec: Record)
    requires EntrySize <= seek <= |file|
    requires dec(file[seek - EntrySize..seek]) == Ok(rec) && !until(rec)
    ensures Prepend(done + [rec], TraceFrom(dec, file, until, seek - EntrySize)) == Prepend(done, TraceFrom(dec, file, until, seek))
  {
    var rest := TraceFrom(dec, file, until, seek - EntrySize);
    if rest.Ok? {
      assert done + [rec] + rest.value == done + ([rec] + rest.value);
    }
  }

  /** A record `until` accepts is the last one merged. */
  lemma ScanStops(dec: Decoder, file: seq<byte>, until: Record -> bool, seek: nat, done: seq<Record>, rec: Record)
    requires EntrySize <= seek <= |file|
    requires dec(file[seek - EntrySize..seek]) == Ok(rec) && until(rec)
    ensures Prepend(done, TraceFrom(dec, file, until, seek)) == Ok(done + [rec])
  {
  }

  /**
    The loop of `read_until`: from the last entry backwards, decode with `dec`
    and merge with `set_latest`, stopping after the first record `until`
    accepts. Returns the merged map of the trace, or the first error.
  */
  method Scan(dec: Decoder, file: seq<byte>, until: Record -> bool) returns (r: Result<map<string, Record>>)
    ensures Trace(dec, file, until).Err? ==> r == Err(Trace(dec, file, until).error)
    ensures Trace(dec, file, until).Ok? ==> r == Ok(MergeAll(Trace(dec, file, until).value))
  {
    var seek: nat := |file|;
    var records: map<string, Record> := map[];
    ghost var done: seq<Record> := [];
    PrependNothing(Trace(dec, file, until));
    while seek > 0
      invariant seek <= |file|
      invariant records == MergeAll(done)
      invariant Prepend(done, TraceFrom(dec, file, until, seek)) == Trace(dec, file, until)
      decreases seek
    {
      if seek < EntrySize {
        // `seek -= ST_SIZE` underflows; the seek to the wrapped offset fails
        return Err(InvalidInput);
      }
      var rec := dec(file[seek - EntrySize..seek]);
      if rec.Err? {
        return Err(rec.error);
      }
      MergeSnoc(done, rec.value);
      records := SetLatest(records, rec.value);
      if until(rec.value) {
        ScanStops(dec, file, until, seek, done, rec.value);
        done := done + [rec.value];
        break;
      }
      ScanContinues(dec, file, until, seek, done, rec.value);
      done := done + [rec.value];
      seek := seek - EntrySize;
    }
    if seek == 0 {
      assert done + [] == done;
    }
    assert Trace(dec, file, until) == Ok(done);
    r := Ok(records);
  }

  /**
    `read_until`: the scan with `read_utmp` and `map_record` against the
    directory, then a `Never` record for every directory account not seen.
  */
  method ReadUntil(umap: map<string, u32>, file: seq<byte>, until: Record -> bool)
    returns (r: Result<map<string, Record>>)
    ensures r == Resolve(umap, file, until)
    ensures r.Ok? ==> umap.Keys <= r.value.Keys && forall n :: n in r.value ==> r.value[n].name == n
  {
    var scanned := Scan(Step(umap), file, until);
    if scanned.Err? {
      return Err(scanned.error);
    }
    var all := FillMissing(scanned.value, umap);
    r := Ok(all);
    ResolveCovers(umap, file, until);
  }

  /** The loop at the end of `read_until`: a `new_record` for every directory account without a record. */
  method FillMissing(records: map<string, Record>, umap: map<string, u32>) returns (all: map<string, Record>)
    ensures all == FillNever(records, umap)
    ensures all.Keys == records.Keys + umap.Keys
    ensures forall n :: n in records ==> all[n] == records[n]
    ensures forall n :: n in umap && n !in records ==> all[n] == NewRecord(umap[n], n)
  {
    all := records;
    var pending := umap.Keys;
    while pending != {}
      invariant pending <= umap.Keys
      invariant all.Keys == records.Keys + (umap.Keys - pending)
      invariant forall n :: n in records ==> all[n] == records[n]
      invariant forall n :: n in umap.Keys - pending && n !in records ==> all[n] == NewRecord(umap[n], n)
      decreases pending
    {
      var user :| user in pending;
      if user !in all {
        all := all[user := NewRecord(umap[user], user)];
      }
      pending := pending - {user};
    }
  }

  /** `Utmp::read_all`: the scan over the whole file. */
  method ReadAll(umap: map<string, u32>, file: seq<byte>) returns (r: Result<map<string, Record>>)
    ensures r == Resolve(umap, file, NoStop)
    ensures r.Ok? <==> |file| % EntrySize == 0
                       && forall k :: 0 <= k < |file| / EntrySize ==> ReadEntry(umap, SlotFromEnd(file, k)).Ok?
  {
    r := ReadUntil(umap, file, NoStop);
    ReadAllSucceeds(umap, file);
  }

  /** The bytes `is_valid` examines: the first read of a fresh file into a zeroed 384-byte buffer. */
  function FirstRead(file: seq<byte>): (b: seq<byte>)
    ensures |b| == EntrySize
  {
    if |file| >= EntrySize then file[..EntrySize] else file + Zeros(EntrySize - |file|)
  }

  /** `is_valid`: the first entry has a tag in 0..10 and a nonzero time. */
  function IsValid(file: seq<byte>): (valid: bool)
    ensures valid <==> Plausible(DecodeEntry(FirstRead(file)))
  {
    ReadUtmp(FirstRead(file)).Ok?
  }

  /** A file that starts with an encoded entry is valid exactly when that entry is plausible. */
  lemma IsValidEncoded(e: Entry, rest: seq<byte>)
    requires WellFormed(e)
    ensures IsValid(EncodeEntry(e) + rest) <==> 0 <= e.rtype <= 10 && e.sec != 0
  {
    assert FirstRead(EncodeEntry(e) + rest) == EncodeEntry(e);
    EntryRoundTrip(e);
  }

  /** `primary_file`: the first of `/var/run/utmp`, `/var/log/utmp`, `/var/log/wtmp` that is a regular file. */
  method PrimaryFile(isFile: string -> bool) returns (r: Result<string>)
    ensures r == if isFile("/var/run/utmp") then Ok("/var/run/utmp")
                 else if isFile("/var/log/utmp") then Ok("/var/log/utmp")
                 else if isFile("/var/log/wtmp") then Ok("/var/log/wtmp")
                 else Err(NotFound)
  {
    var paths := ["/var/run/utmp", "/var/log/utmp", "/var/log/wtmp"];
    r := FirstRegularFile(paths, isFile);
    if r.Ok? {
      var i :| 0 <= i < |paths| && paths[i] == r.value && isFile(paths[i]) && forall j :: 0 <= j < i ==> !isFile(paths[j]);
      if i == 1 {
        assert !isFile(paths[0]);
      } else if i == 2 {
        assert !isFile(paths[0]) && !isFile(paths[1]);
      }
    } else {
      assert !(0 <= 0 < |paths| && isFile(paths[0]));
      assert !(0 <= 1 < |paths| && isFile(paths[1]));
      assert !(0 <= 2 < |paths| && isFile(paths[2]));
    }
  }

  /** The uids of the user-session records with a known uid among `names`. */
  function SessionUidsIn(all: map<string, Record>, names: set<string>): set<u32>
    requires names <= all.Keys
  {
    set n | n in names && all[n].rtype == UserProcess && all[n].uid.Some? :: all[n].uid.value
  }

  /** The uids `iter_accounts` reports: those of user-session records with a known uid. */
  function SessionUids(all: map<string, Record>): set<u32>
  {
    SessionUidsIn(all, all.Keys)
  }

  lemma SessionUidsStep(all: map<string, Record>, names: set<string>, n: string)
    requires names <= all.Keys && n in all
    ensures SessionUidsIn(all, names + {n}) ==
              SessionUidsIn(all, names)
              + if all[n].rtype == UserProcess && all[n].uid.Some? then {all[n].uid.value} else {}
  {
  }

  /**
    The loop of `iter_accounts`: the user-session records with a uid, keyed by
    that uid. The order of a hash map decides which of two records with the same
    uid is kept, so the choice is left open.
  */
  method Sessions(all: map<string, Record>) returns (results: map<u32, Record>)
    ensures results.Keys == SessionUids(all)
    ensures forall u :: u in results ==>
              results[u] in all.Values && results[u].rtype == UserProcess && results[u].uid == Some(u)
  {
    results := map[];
    var pending := all.Keys;
    ghost var seen: set<string> := {};
    while pending != {}
      invariant pending <= all.Keys && seen == all.Keys - pending
      invariant results.Keys == SessionUidsIn(all, seen)
      invariant forall u :: u in results ==>
                  results[u] in all.Values && results[u].rtype == UserProcess && results[u].uid == Some(u)
      decreases pending
    {
      var n :| n in pending;
      var rec := all[n];
      SessionUidsStep(all, seen, n);
      if rec.rtype == UserProcess && rec.uid.Some? {
        results := results[rec.uid.value := rec];
      }
      seen := seen + {n};
      pending := pending - {n};
    }
  }

  /** `iter_accounts`: the user sessions of `read_all`, one per uid. */
  method IterAccounts(umap: map<string, u32>, file: seq<byte>) returns (r: Result<map<u32, Record>>)
    ensures Resolve(umap, file, NoStop).Err? ==> r == Err(Resolve(umap, file, NoStop).error)
    ensures Resolve(umap, file, NoStop).Ok? ==>
              var all := Resolve(umap, file, NoStop).value;
              && r.Ok?
              && r.value.Keys == SessionUids(all)
              && forall u :: u in r.value ==>
                   r.value[u] in all.Values && r.value[u].rtype == UserProcess && r.value[u].uid == Some(u)
  {
    var records := ReadAll(umap, file);
    if records.Err? {
      return Err(records.error);
    }
    var results := Sessions(records.value);
    r := Ok(results);
  }

  /** The resolved map holds a record with uid `uid` exactly when the directory has an account with that uid. */
  lemma ResolveHasUid(umap: map<string, u32>, file: seq<byte>, until: Record -> bool, uid: u32)
    requires Resolve(umap, file, until).Ok?
    ensures var m := Resolve(umap, file, until).value;
            (exists n :: n in m && m[n].uid == Some(uid)) <==> uid in umap.Values
  {
    var m := Resolve(umap, file, until).value;
    ResolveCovers(umap, file, until);
    if uid in umap.Values {
      var n :| n in umap && umap[n] == uid;
      assert n in m && m[n].uid == Some(uid);
    }
  }

  /**
    `search_uid`: scans until the first record with that uid, then returns a
    resolved record with that uid; `InvalidInput` when the directory has no
    account with it.
  */
  method SearchUid(uid: u32, umap: map<string, u32>, file: seq<byte>) returns (r: Result<Record>)
    ensures Resolve(umap, file, UidIs(uid)).Err? ==> r == Err(Resolve(umap, file, UidIs(uid)).error)
    ensures Resolve(umap, file, UidIs(uid)).Ok? ==>
              && (r.Ok? <==> uid in umap.Values)
              && (r.Ok? ==> r.value.uid == Some(uid) && r.value in Resolve(umap, file, UidIs(uid)).value.Values)
              && (r.Err? ==> r.error == InvalidInput)
  {
    var records := ReadUntil(umap, file, UidIs(uid));
    if records.Err? {
      return Err(records.error);
    }
    var all := records.value;
    ResolveHasUid(umap, file, UidIs(uid), uid);
    var pending := all.Keys;
    while pending != {}
      invariant pending <= all.Keys
      invariant forall n :: n in all.Keys - pending ==> all[n].uid != Some(uid)
      decreases pending
    {
      var n :| n in pending;
      if all[n].uid == Some(uid) {
        return Ok(all[n]);
      }
      pending := pending - {n};
    }
    return Err(InvalidInput);
  }

  /**
    `search_username`: scans until the first record with that name, then
    returns the resolved record for it; `InvalidInput` when the name is neither
    in the directory nor among the merged records.
  */
  method SearchUsername(username: string, umap: map<string, u32>, file: seq<byte>) returns (r: Result<Record>)
    ensures Resolve(umap, file, NameIs(username)).Err? ==> r == Err(Resolve(umap, file, NameIs(username)).error)
    ensures Resolve(umap, file, NameIs(username)).Ok? ==>
              var all := Resolve(umap, file, NameIs(username)).value;
              r == if username in all then Ok(all[username]) else Err(InvalidInput)
  {
    var records := ReadUntil(umap, file, NameIs(username));
    if records.Err? {
      return Err(records.error);
    }
    var all := records.value;
    var pending := all.Keys;
    while pending != {}
      invariant pending <= all.Keys
      invariant username in all ==> username in pending
      decreases pending
    {
      var n :| n in pending;
      if all[n].name == username {
        return Ok(all[n]);
      }
      pending := pending - {n};
    }
    return Err(InvalidInput);
  }
}
