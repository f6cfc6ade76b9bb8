/**
  The lastlog reader of src/lastlog.rs. The file is an array of packed 292-byte
  slots indexed by uid: slot `uid` starts at byte `uid * 292` and holds that
  account's last login time and terminal. Reads go straight to the slot; the
  whole-directory listing visits the accounts in ascending uid order and stops
  at the first failure.
*/
module LastLog {
  import opened Wrappers
  import opened Bytes
  import opened Unicode
  import opened Common

  /** `size_of::<RStruct>()` for the packed slot: time (4 bytes), tty (32) and host (256). */
  const SlotSize: nat := 292

  datatype Slot = Slot(time: u32, tty: seq<byte>, host: seq<byte>)

  predicate WellFormed(s: Slot) {
    |s.tty| == 32 && |s.host| == 256
  }

  /** Field-by-field little-endian decoding of one packed slot. */
  function DecodeSlot(b: seq<byte>): (s: Slot)
    requires |b| == SlotSize
    ensures WellFormed(s)
  {
    Slot(U32LE(b[0..4]), b[4..36], b[36..292])
  }

  function EncodeSlot(s: Slot): (b: seq<byte>)
    requires WellFormed(s)
    ensures |b| == SlotSize
  {
    EncodeU32LE(s.time) + s.tty + s.host
  }

  /** Decoding reads back every field of an encoded slot. */
  lemma SlotRoundTrip(s: Slot)
    requires WellFormed(s)
    ensures DecodeSlot(EncodeSlot(s)) == s
  {
    var b := EncodeSlot(s);
    assert b[0..4] == EncodeU32LE(s.time);
    assert b[4..36] == s.tty;
    assert b[36..292] == s.host;
    U32RoundTrip(s.time);
  }

  /** Every 292 bytes are the encoding of the slot they decode to. */
  lemma SlotCanonical(b: seq<byte>)
    requires |b| == SlotSize
    ensures EncodeSlot(DecodeSlot(b)) == b
  {
    U32Canonical(b[0..4]);
    assert b == b[0..4] + b[4..36] + b[36..292];
  }

  /**
    `map_record`: the record of account `name` with uid `uid`. The terminal field
    must be UTF-8 (otherwise `InvalidData`) and loses its NUL padding; a zero
    time means never. The host field is not used.
  */
  function MapRecord(name: string, uid: u32, st: Slot): (r: Result<Record>)
    ensures r.Ok? <==> Utf8Decode(st.tty).Some?
    ensures r.Err? ==> r.error == InvalidData
    ensures r.Ok? ==>
      && r.value.rtype == UserProcess && r.value.uid == Some(uid) && r.value.name == name
      && r.value.tty == TrimNul(Utf8Decode(st.tty).value)
      && (r.value.lastLogin == Never <==> st.time == 0)
      && (r.value.lastLogin.Last? ==> r.value.lastLogin.secs == st.time)
  {
    match Utf8Decode(st.tty)
    case None => Err(InvalidData)
    case Some(tty) => Ok(Record(UserProcess, Some(uid), name, TrimNul(tty), UnixTimestamp(st.time)))
  }

  /** The file holds the whole of slot `uid`. */
  predicate HasSlot(file: seq<byte>, uid: nat) {
    SlotSize * (uid + 1) <= |file|
  }

  /** The bytes of slot `uid`. */
  function SlotBytes(file: seq<byte>, uid: nat): (b: seq<byte>)
    requires HasSlot(file, uid)
    ensures |b| == SlotSize
  {
    file[SlotSize * uid..SlotSize * (uid + 1)]
  }

  /**
    `read_lastlog`: seeks to `uid * 292`, reads exactly one slot and maps it.
    The read fails with `UnexpectedEof` when the file ends before the slot
    does; a terminal field that is not UTF-8 fails with `InvalidData`.
  */
  function ReadLastlog(file: seq<byte>, name: string, uid: u32): (r: Result<Record>)
    ensures r.Ok? <==> HasSlot(file, uid) && Utf8Decode(DecodeSlot(SlotBytes(file, uid)).tty).Some?
    ensures r.Err? ==> r.error == if HasSlot(file, uid) then InvalidData else UnexpectedEof
    ensures r.Ok? ==>
      var st := DecodeSlot(SlotBytes(file, uid));
      && r.value.rtype == UserProcess && r.value.uid == Some(uid) && r.value.name == name
      && r.value.tty == TrimNul(Utf8Decode(st.tty).value)
      && r.value.lastLogin == UnixTimestamp(st.time)
  {
    var start := SlotSize * uid as nat;
    if start + SlotSize > |file| then Err(UnexpectedEof)
    else
      match ReadStruct(file[start..], SlotSize)
      case Err(e) => Err(e)
      case Ok(buffer) =>
        assert buffer == SlotBytes(file, uid);
        MapRecord(name, uid, DecodeSlot(buffer))
  }

  /**
    Reading back a written slot: with the slot for `uid` stored at its offset,
    the record carries the stored time (`Never` exactly when it is zero) and
    the stored terminal without its padding, whatever surrounds the slot.
  */
  lemma SlotWriteRead(before: seq<byte>, s: Slot, after: seq<byte>, name: string, uid: u32)
    requires WellFormed(s) && |before| == SlotSize * uid
    requires Utf8Decode(s.tty).Some?
    ensures var r := ReadLastlog(before + EncodeSlot(s) + after, name, uid);
            && r.Ok?
            && r.value.lastLogin == (if s.time == 0 then Never else Last(s.time))
            && r.value.tty == TrimNul(Utf8Decode(s.tty).value)
  {
    var file := before + EncodeSlot(s) + after;
    assert HasSlot(file, uid);
    assert SlotBytes(file, uid) == EncodeSlot(s);
    SlotRoundTrip(s);
    assert DecodeSlot(SlotBytes(file, uid)) == s;
  }

  /** `is_valid`: the slot of the guessed current user (uid 0 when unknown) can be read. */
  function IsValid(file: seq<byte>, user: Option<string>, nmap: map<string, u32>): (valid: bool)
    ensures valid <==>
            var uid := if user.Some? && user.value in nmap then nmap[user.value] else 0;
            HasSlot(file, uid) && Utf8Decode(DecodeSlot(SlotBytes(file, uid)).tty).Some?
  {
    ReadLastlog(file, "", GuessUid(user, nmap)).Ok?
  }

  /** `primary_file`: `/var/log/lastlog` when it is a regular file. */
  method PrimaryFile(isFile: string -> bool) returns (r: Result<string>)
    ensures r == if isFile("/var/log/lastlog") then Ok("/var/log/lastlog") else Err(NotFound)
  {
    var paths := ["/var/log/lastlog"];
    r := FirstRegularFile(paths, isFile);
    if r.Err? {
      assert !(0 <= 0 < |paths| && isFile(paths[0]));
    }
  }

  /**
    `search_uid`: the account's name comes from the directory (`InvalidInput`
    when `uid` has no account), then its slot is read.
  */
  function SearchUid(uid: u32, idmap: map<u32, string>, file: seq<byte>): (r: Result<Record>)
    ensures uid !in idmap ==> r == Err(InvalidInput)
    ensures r.Ok? <==> uid in idmap && ReadLastlog(file, idmap[uid], uid).Ok?
    ensures r.Ok? ==> r.value.uid == Some(uid) && r.value.name == idmap[uid]
    ensures uid in idmap && r.Err? ==> r.error == ReadLastlog(file, idmap[uid], uid).error
  {
    if uid !in idmap then Err(InvalidInput) else ReadLastlog(file, idmap[uid], uid)
  }

  /**
    `search_username`: the account's uid comes from the directory
    (`InvalidInput` when the name has no account), then its slot is read.
  */
  function SearchUsername(username: string, nmap: map<string, u32>, file: seq<byte>): (r: Result<Record>)
    ensures username !in nmap ==> r == Err(InvalidInput)
    ensures r.Ok? <==> username in nmap && ReadLastlog(file, username, nmap[username]).Ok?
    ensures r.Ok? ==> r.value.uid == Some(nmap[username]) && r.value.name == username
    ensures username in nmap && r.Err? ==> r.error == ReadLastlog(file, username, nmap[username]).error
  {
    if username !in nmap then Err(InvalidInput) else ReadLastlog(file, username, nmap[username])
  }

  /** A directory built from one list of accounts answers both lookups with the same record. */
  lemma SearchAgree(users: seq<User>, i: nat, file: seq<byte>)
    requires i < |users|
    requires forall j :: 0 <= j < |users| && j != i ==> users[j].uid != users[i].uid && users[j].name != users[i].name
    ensures SearchUsername(users[i].name, NameMap(users), file) == SearchUid(users[i].uid, IdMap(users), file)
  {
    IdMapLatest(users, i);
    NameMapLatest(users, i);
  }

  // ---------------------------------------------------------------- iter_accounts

  /** The smallest uid of a set. */
  ghost function Least(s: set<u32>): (m: u32)
    requires s != {}
    ensures m in s && forall y :: y in s ==> m <= y
    decreases |s|
  {
    var x :| x in s;
    var others := s - {x};
    if others == {} then
      assert forall y :: y in s ==> y == x || y in others;
      x
    else
      var m := Least(others);
      assert forall y :: y in s ==> y == x || y in others;
      if x < m then x else m
  }

  /** The uids of a set in ascending order (`sort_by_key` on the uid). */
  ghost function Ascending(s: set<u32>): (r: seq<u32>)
    decreases s
  {
    if s == {} then []
    else
      var m := Least(s);
      [m] + Ascending(s - {m})
  }

  /** `Ascending(s)` holds as many uids as `s`. */
  lemma {:induction false} AscendingLength(s: set<u32>)
    ensures |Ascending(s)| == |s|
    decreases s
  {
    if s != {} {
      var m := Least(s);
      AscendingLength(s - {m});
    }
  }

  /** `Ascending(s)` holds exactly the uids of `s`. */
  lemma {:induction false} AscendingMembers(s: set<u32>)
    ensures forall u :: u in Ascending(s) <==> u in s
    decreases s
  {
    if s != {} {
      var m := Least(s);
      AscendingMembers(s - {m});
    }
  }

  /** `Ascending(s)` is strictly increasing, so no uid appears twice. */
  lemma {:induction false} AscendingIncreasing(s: set<u32>)
    ensures forall j, k :: 0 <= j < k < |Ascending(s)| ==> Ascending(s)[j] < Ascending(s)[k]
    decreases s
  {
    if s != {} {
      var m := Least(s);
      var rest := s - {m};
      AscendingIncreasing(rest);
      AscendingMembers(rest);
      var t := Ascending(rest);
      var r := Ascending(s);
      assert r == [m] + t;
      assert forall k :: 0 <= k < |t| ==> t[k] in rest;
      assert forall k :: 1 <= k < |r| ==> r[k] == t[k - 1];
    }
  }

  /** Reads one account's slot; the listing uses `ReadUid(idmap, file)`. */
  type UidReader = u32 -> Result<Record>

  /** `read_lastlog` of the account `uid` of the directory. */
  function ReadUid(idmap: map<u32, string>, file: seq<byte>): UidReader
  {
    (uid: u32) => if uid in idmap then ReadLastlog(file, idmap[uid], uid) else Err(InvalidInput)
  }

  /** The records of `uids`, read in that order; the first failing read ends the listing with its error. */
  function Collect(read: UidReader, uids: seq<u32>): Result<seq<Record>>
  {
    if uids == [] then Ok([])
    else match read(uids[0])
      case Err(e) => Err(e)
      case Ok(rec) =>
        match Collect(read, uids[1..])
        case Err(e) => Err(e)
        case Ok(rest) => Ok([rec] + rest)
  }

  /** Position `k` is the first in `uids` whose read fails. */
  predicate FirstFailure(read: UidReader, uids: seq<u32>, k: int) {
    && 0 <= k < |uids|
    && read(uids[k]).Err?
    && forall j :: 0 <= j < k ==> read(uids[j]).Ok?
  }

  /**
    The listing succeeds exactly when every read does; it then holds the
    record of `uids[k]` at position `k`. On failure, the error is that of the
    first read in the order that fails.
  */
  lemma {:induction false} CollectMeaning(read: UidReader, uids: seq<u32>)
    ensures var r := Collect(read, uids);
            && (r.Ok? <==> forall k :: 0 <= k < |uids| ==> read(uids[k]).Ok?)
            && (r.Ok? ==> |r.value| == |uids| && forall k :: 0 <= k < |uids| ==> Ok(r.value[k]) == read(uids[k]))
            && (r.Err? ==> exists k :: FirstFailure(read, uids, k) && r.error == read(uids[k]).error)
  {
    if uids != [] {
      var rest := uids[1..];
      CollectMeaning(read, rest);
      var r := Collect(read, uids);
      if read(uids[0]).Err? {
        assert FirstFailure(read, uids, 0);
      } else {
        assert forall k :: 1 <= k < |uids| ==> uids[k] == rest[k - 1];
        if r.Err? {
          var k :| FirstFailure(read, rest, k) && r.error == read(rest[k]).error;
          assert FirstFailure(read, uids, k + 1);
        }
      }
    }
  }

  /** `records` gathered before whatever the rest of the listing yields. */
  function Prefix(records: seq<Record>, rest: Result<seq<Record>>): Result<seq<Record>>
  {
    match rest
    case Err(e) => Err(e)
    case Ok(rs) => Ok(records + rs)
  }

  lemma PrefixStep(records: seq<Record>, rec: Record, rest: Result<seq<Record>>)
    ensures Prefix(records + [rec], rest) == Prefix(records, Prefix([rec], rest))
  {
    if rest.Ok? {
      assert records + [rec] + rest.value == records + ([rec] + rest.value);
    }
  }

  lemma PrefixNothing(rest: Result<seq<Record>>)
    ensures Prefix([], rest) == rest
  {
    if rest.Ok? {
      assert [] + rest.value == rest.value;
    }
  }

  /** The loop of `iter_accounts` over uids taken smallest first, reading through `read`. */
  method ReadAscending(read: UidReader, uids: set<u32>) returns (r: Result<seq<Record>>)
    ensures r == Collect(read, Ascending(uids))
  {
    var records: seq<Record> := [];
    var pending := uids;
    PrefixNothing(Collect(read, Ascending(pending)));
    while pending != {}
      invariant pending <= uids
      invariant Prefix(records, Collect(read, Ascending(pending))) == Collect(read, Ascending(uids))
      decreases pending
    {
      ghost var least := Least(pending);
      var uid :| uid in pending && forall y :: y in pending ==> uid <= y;
      assert uid <= least && least <= uid;
      var rest := pending - {uid};
      assert Ascending(pending) == [uid] + Ascending(rest);
      assert Ascending(pending)[1..] == Ascending(rest);
      var record := read(uid);
      if record.Err? {
        return Err(record.error);
      }
      PrefixStep(records, record.value, Collect(read, Ascending(rest)));
      records := records + [record.value];
      pending := rest;
    }
    assert records + [] == records;
    r := Ok(records);
  }

  /**
    `iter_accounts`: every directory account's slot, read in ascending uid
    order; the first failing read fails the whole call.
  */
  method IterAccounts(idmap: map<u32, string>, file: seq<byte>) returns (r: Result<seq<Record>>)
    ensures r == Collect(ReadUid(idmap, file), Ascending(idmap.Keys))
  {
    r := ReadAscending(ReadUid(idmap, file), idmap.Keys);
  }

  /** Reading an order that lists exactly a set of uids succeeds exactly when every read of the set does. */
  lemma CollectAllOk(read: UidReader, order: seq<u32>, uids: set<u32>)
    requires forall u :: u in order <==> u in uids
    ensures Collect(read, order).Ok? <==> forall u :: u in uids ==> read(u).Ok?
  {
    CollectMeaning(read, order);
    if Collect(read, order).Ok? {
      forall u | u in uids ensures read(u).Ok? {
        var k :| 0 <= k < |order| && order[k] == u;
        assert read(order[k]).Ok?;
      }
    } else {
      var k :| FirstFailure(read, order, k);
      assert order[k] in uids;
    }
  }

  /** Reading an ascending order fails with the error of the smallest uid whose read fails. */
  lemma CollectFirstError(read: UidReader, order: seq<u32>, uids: set<u32>)
    requires forall u :: u in order <==> u in uids
    requires forall j, k :: 0 <= j < k < |order| ==> order[j] < order[k]
    ensures var r := Collect(read, order);
            r.Err? ==> exists u :: u in uids && read(u).Err? && r.error == read(u).error
                                   && forall v :: v in uids && v < u ==> read(v).Ok?
  {
    CollectMeaning(read, order);
    var r := Collect(read, order);
    if r.Err? {
      var k :| FirstFailure(read, order, k) && r.error == read(order[k]).error;
      var u := order[k];
      forall v | v in uids && v < u ensures read(v).Ok? {
        var j :| 0 <= j < |order| && order[j] == v;
        assert read(order[j]).Ok?;
      }
    }
  }

  /**
    Reading a set of uids smallest first: the listing succeeds exactly when
    every read does, and then holds the record of the `k`-th smallest uid at
    position `k`; otherwise it fails with the error of the smallest uid whose
    read fails.
  */
  lemma CollectAscending(read: UidReader, uids: set<u32>)
    ensures var order := Ascending(uids);
            var r := Collect(read, order);
            && |order| == |uids|
            && (r.Ok? <==> forall u :: u in uids ==> read(u).Ok?)
            && (r.Ok? ==> |r.value| == |uids| && forall k :: 0 <= k < |r.value| ==> Ok(r.value[k]) == read(order[k]))
            && (r.Err? ==> exists u :: u in uids && read(u).Err? && r.error == read(u).error
                                       && forall v :: v in uids && v < u ==> read(v).Ok?)
  {
    var order := Ascending(uids);
    AscendingLength(uids);
    AscendingMembers(uids);
    AscendingIncreasing(uids);
    CollectMeaning(read, order);
    CollectAllOk(read, order, uids);
    CollectFirstError(read, order, uids);
  }

  /** A directory account's read yields that account's slot, tagged with its uid. */
  lemma ReadUidTagged(idmap: map<u32, string>, file: seq<byte>, u: u32)
    ensures var r := ReadUid(idmap, file)(u);
            r.Ok? ==> u in idmap && r.value.uid == Some(u) && r.value.name == idmap[u]
  {
  }

  /** Every successful read through `read` gives the record of that very directory account. */
  predicate Tagged(read: UidReader, idmap: map<u32, string>) {
    forall u :: read(u).Ok? ==> u in idmap && read(u).value.uid == Some(u) && read(u).value.name == idmap[u]
  }

  /** A successful ascending listing through a tagged reader is one record per account, by ascending uid. */
  lemma CollectTagged(read: UidReader, idmap: map<u32, string>)
    requires Tagged(read, idmap)
    ensures var r := Collect(read, Ascending(idmap.Keys));
            r.Ok? ==> && |r.value| == |idmap|
                      && (forall k :: 0 <= k < |r.value| ==> r.value[k].uid.Some? && r.value[k].uid.value in idmap
                                                             && r.value[k].name == idmap[r.value[k].uid.value])
                      && (forall j, k :: 0 <= j < k < |r.value| ==> r.value[j].uid.value < r.value[k].uid.value)
  {
    var order := Ascending(idmap.Keys);
    CollectAscending(read, idmap.Keys);
    AscendingIncreasing(idmap.Keys);
    var r := Collect(read, order);
    if r.Ok? {
      forall k | 0 <= k < |r.value|
        ensures r.value[k].uid == Some(order[k]) && order[k] in idmap && r.value[k].name == idmap[order[k]]
      {
        assert Ok(r.value[k]) == read(order[k]);
      }
    }
  }

  /**
    What a successful `iter_accounts` holds: one record per directory
    account, each carrying that account's uid and name, in strictly ascending
    uid order (when it fails, `CollectAscending` says with which error).
  */
  lemma IterAccountsMeaning(idmap: map<u32, string>, file: seq<byte>)
    ensures var r := Collect(ReadUid(idmap, file), Ascending(idmap.Keys));
            r.Ok? ==> && |r.value| == |idmap|
                      && (forall k :: 0 <= k < |r.value| ==> r.value[k].uid.Some? && r.value[k].uid.value in idmap
                                                             && r.value[k].name == idmap[r.value[k].uid.value])
                      && (forall j, k :: 0 <= j < k < |r.value| ==> r.value[j].uid.value < r.value[k].uid.value)
  {
    var read := ReadUid(idmap, file);
    forall u ensures read(u).Ok? ==> u in idmap && read(u).value.uid == Some(u) && read(u).value.name == idmap[u] {
      ReadUidTagged(idmap, file, u);
    }
    CollectTagged(read, idmap);
  }
}
