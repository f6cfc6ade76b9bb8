/**
  The older standalone lastlog API of src/lib.rs, which reads the same
  292-byte slot file as src/lastlog.rs but reports records without an
  account name: a record is a uid, a terminal and a login time. The full
  listing is keyed by account name; a lookup by name needs the name to be
  listed exactly once in the account directory.
*/
module Legacy {
  import opened Wrappers
  import opened Bytes
  import opened Unicode
  import opened Common
  import LastLog

  /** The `Record` of src/lib.rs: no kind and no name. */
  datatype Login = Login(uid: u32, tty: string, lastLogin: LoginTime)

  /**
    `read_lastlog`: seeks to `uid * 292` and reads exactly one slot; when the
    file ends before the slot does, the read fails with `UnexpectedEof`.
  */
  function ReadSlot(file: seq<byte>, uid: u32): (r: Result<LastLog.Slot>)
    ensures r.Ok? <==> LastLog.HasSlot(file, uid)
    ensures r.Ok? ==> LastLog.WellFormed(r.value) && LastLog.EncodeSlot(r.value) == LastLog.SlotBytes(file, uid)
    ensures r.Err? ==> r.error == UnexpectedEof
  {
    var start := LastLog.SlotSize * uid as nat;
    if start + LastLog.SlotSize > |file| then Err(UnexpectedEof)
    else
      match ReadStruct(file[start..], LastLog.SlotSize)
      case Err(e) => Err(e)
      case Ok(buffer) =>
        assert buffer == LastLog.SlotBytes(file, uid);
        LastLog.SlotCanonical(buffer);
        Ok(LastLog.DecodeSlot(buffer))
  }

  /**
    `map_record`: the terminal field must be UTF-8 (otherwise `InvalidData`)
    and loses its NUL padding; a zero time means never; the uid is kept.
  */
  function MapRecord(uid: u32, st: LastLog.Slot): (r: Result<Login>)
    ensures r.Ok? <==> Utf8Decode(st.tty).Some?
    ensures r.Err? ==> r.error == InvalidData
    ensures r.Ok? ==>
      && r.value.uid == uid
      && r.value.tty == TrimNul(Utf8Decode(st.tty).value)
      && (r.value.lastLogin == Never <==> st.time == 0)
      && (r.value.lastLogin.Last? ==> r.value.lastLogin.secs == st.time)
  {
    match Utf8Decode(st.tty)
    case None => Err(InvalidData)
    case Some(tty) => Ok(Login(uid, TrimNul(tty), UnixTimestamp(st.time)))
  }

  /** `search_uid`: the slot of `uid`, read and mapped; the directory is not consulted. */
  function SearchUid(uid: u32, file: seq<byte>): (r: Result<Login>)
    ensures r.Ok? <==> LastLog.HasSlot(file, uid) && Utf8Decode(LastLog.DecodeSlot(LastLog.SlotBytes(file, uid)).tty).Some?
    ensures r.Err? ==> r.error == if LastLog.HasSlot(file, uid) then InvalidData else UnexpectedEof
    ensures r.Ok? ==>
      var st := LastLog.DecodeSlot(LastLog.SlotBytes(file, uid));
      && r.value.uid == uid
      && r.value.tty == TrimNul(Utf8Decode(st.tty).value)
      && r.value.lastLogin == UnixTimestamp(st.time)
  {
    match ReadSlot(file, uid)
    case Err(e) => Err(e)
    case Ok(st) =>
      LastLog.SlotRoundTrip(st);
      MapRecord(uid, st)
  }

  /**
    The old and the current reader agree slot for slot: whatever the name the
    current reader attaches, `search_uid` fails exactly when it does, with the
    same error, and otherwise reports the same uid, terminal and time.
  */
  lemma SearchUidAgrees(uid: u32, file: seq<byte>, name: string)
    ensures SearchUid(uid, file) ==
              match LastLog.ReadLastlog(file, name, uid)
              case Err(e) => Err(e)
              case Ok(rec) => Ok(Login(uid, rec.tty, rec.lastLogin))
  {
    var r := LastLog.ReadLastlog(file, name, uid);
    if LastLog.HasSlot(file, uid) {
      var st := ReadSlot(file, uid).value;
      LastLog.SlotRoundTrip(st);
      assert st == LastLog.DecodeSlot(LastLog.SlotBytes(file, uid));
    }
  }

  // ---------------------------------------------------------------- iter_accounts

  /** Reads one account's record by uid; both whole-directory calls use `SlotReader(file)`. */
  type Reader = u32 -> Result<Login>

  /** `search_uid` on the slot file. */
  function SlotReader(file: seq<byte>): Reader
  {
    (uid: u32) => SearchUid(uid, file)
  }

  /**
    The manifest `iter_accounts` builds: the record of every account in
    directory order, stored under the account's name (a later account of the
    same name replaces an earlier one); the first account whose read fails
    fails the whole call with its error.
  */
  function Manifest(read: Reader, users: seq<User>): (r: Result<map<string, Login>>)
    ensures r.Ok? ==> forall n :: n in r.value ==>
              exists i :: 0 <= i < |users| && users[i].name == n && Ok(r.value[n]) == read(users[i].uid)
    decreases |users|
  {
    if users == [] then Ok(map[])
    else
      var u := users[|users| - 1];
      assert forall i :: 0 <= i < |users| - 1 ==> users[..|users| - 1][i] == users[i];
      match Manifest(read, users[..|users| - 1])
      case Err(e) => Err(e)
      case Ok(log) =>
        match read(u.uid)
        case Err(e) => Err(e)
        case Ok(rec) => Ok(log[u.name := rec])
  }

  /** Position `k` holds the first account whose read fails. */
  predicate FirstFailure(read: Reader, users: seq<User>, k: int) {
    && 0 <= k < |users|
    && read(users[k].uid).Err?
    && forall j :: 0 <= j < k ==> read(users[j].uid).Ok?
  }

  /** The manifest fails exactly when some read does, and then with the error of the first such account. */
  lemma {:induction false} ManifestOutcome(read: Reader, users: seq<User>)
    ensures var r := Manifest(read, users);
            && (r.Ok? <==> forall i :: 0 <= i < |users| ==> read(users[i].uid).Ok?)
            && (r.Err? ==> exists k :: FirstFailure(read, users, k) && r.error == read(users[k].uid).error)
    decreases |users|
  {
    if users != [] {
      var init := users[..|users| - 1];
      assert forall i :: 0 <= i < |init| ==> init[i] == users[i];
      ManifestOutcome(read, init);
      var r := Manifest(read, users);
      if Manifest(read, init).Err? {
        var k :| FirstFailure(read, init, k) && Manifest(read, init).error == read(init[k].uid).error;
        assert FirstFailure(read, users, k);
      } else if r.Err? {
        assert FirstFailure(read, users, |users| - 1);
      }
    }
  }

  /** A successful manifest has exactly the directory's names as keys. */
  lemma {:induction false} ManifestKeys(read: Reader, users: seq<User>)
    ensures var r := Manifest(read, users);
            r.Ok? ==> r.value.Keys == NamesOf(users)
    decreases |users|
  {
    if users != [] {
      var init := users[..|users| - 1];
      ManifestKeys(read, init);
      NamesSnoc(users);
    }
  }

  /** The names of the directory's accounts. */
  function NamesOf(users: seq<User>): set<string>
  {
    set i | 0 <= i < |users| :: users[i].name
  }

  lemma NamesSnoc(users: seq<User>)
    requires users != []
    ensures NamesOf(users) == NamesOf(users[..|users| - 1]) + {users[|users| - 1].name}
  {
    var init := users[..|users| - 1];
    var names, before := NamesOf(users), NamesOf(init);
    forall i | 0 <= i < |users| ensures users[i].name in before + {users[|users| - 1].name} {
      if i < |init| {
        assert init[i].name == users[i].name;
      }
    }
    forall i | 0 <= i < |init| ensures init[i].name in names {
      assert users[i].name == init[i].name;
    }
    assert users[|users| - 1].name in names;
  }

  /** Under each name, a successful manifest holds the record of the last account with that name. */
  lemma {:induction false} ManifestLatest(read: Reader, users: seq<User>, i: nat)
    requires i < |users|
    requires forall j :: i < j < |users| ==> users[j].name != users[i].name
    ensures var r := Manifest(read, users);
            r.Ok? ==> users[i].name in r.value && Ok(r.value[users[i].name]) == read(users[i].uid)
    decreases |users|
  {
    var init := users[..|users| - 1];
    var last := users[|users| - 1];
    var r := Manifest(read, users);
    if r.Ok? && i < |init| {
      assert init[i] == users[i];
      assert forall j :: i < j < |init| ==> init[j] == users[j];
      ManifestLatest(read, init, i);
      assert last.name != users[i].name;
    }
  }

  lemma ManifestStep(read: Reader, users: seq<User>, i: nat)
    requires i < |users|
    ensures Manifest(read, users[..i + 1]) ==
              match Manifest(read, users[..i])
              case Err(e) => Err(e)
              case Ok(log) =>
                match read(users[i].uid)
                case Err(e) => Err(e)
                case Ok(rec) => Ok(log[users[i].name := rec])
  {
    assert users[..i + 1][..i] == users[..i];
  }

  /** A failing read right after a successful prefix fails the whole manifest with its error. */
  lemma ManifestFails(read: Reader, users: seq<User>, i: nat)
    requires i < |users| && Manifest(read, users[..i]).Ok? && read(users[i].uid).Err?
    ensures Manifest(read, users) == Err(read(users[i].uid).error)
  {
    var prefix := users[..i];
    ManifestOutcome(read, prefix);
    ManifestOutcome(read, users);
    assert forall j :: 0 <= j < i ==> prefix[j] == users[j];
  }

  /**
    `iter_accounts`: parses the directory (a malformed line aborts), then
    reads and maps the slot of every account in turn into the manifest.
  */
  method IterAccounts(lines: seq<string>, file: seq<byte>) returns (r: Result<map<string, Login>>)
    ensures !AllParse(lines) ==> r == Err(Panicked)
    ensures AllParse(lines) ==> r == Manifest(SlotReader(file), Users(lines))
  {
    var parsed := ReadPasswd(lines);
    if parsed.Err? {
      return Err(parsed.error);
    }
    var users := parsed.value;
    ghost var read := SlotReader(file);
    var log: map<string, Login> := map[];
    for i := 0 to |users|
      invariant Manifest(read, users[..i]) == Ok(log)
    {
      ManifestStep(read, users, i);
      var slot := ReadSlot(file, users[i].uid);
      if slot.Err? {
        assert read(users[i].uid) == Err(slot.error);
        ManifestFails(read, users, i);
        return Err(slot.error);
      }
      var record := MapRecord(users[i].uid, slot.value);
      if record.Err? {
        assert read(users[i].uid) == Err(record.error);
        ManifestFails(read, users, i);
        return Err(record.error);
      }
      assert read(users[i].uid) == record;
      log := log[users[i].name := record.value];
    }
    assert users[..|users|] == users;
    r := Ok(log);
  }

  // ---------------------------------------------------------------- search_username

  /** The directory accounts with that name, in directory order (the `filter`). */
  function Named(users: seq<User>, name: string): (r: seq<User>)
    ensures forall k :: 0 <= k < |r| ==> r[k].name == name && r[k] in users
    decreases |users|
  {
    if users == [] then []
    else (if users[0].name == name then [users[0]] else []) + Named(users[1..], name)
  }

  /** An account listed once under a name is all the filter keeps. */
  lemma {:induction false} NamedUnique(users: seq<User>, name: string, i: nat)
    requires i < |users| && users[i].name == name
    requires forall j :: 0 <= j < |users| && j != i ==> users[j].name != name
    ensures Named(users, name) == [users[i]]
    decreases |users|
  {
    if i == 0 {
      NamedNone(users[1..], name);
    } else {
      NamedUnique(users[1..], name, i - 1);
    }
  }

  /** No account under a name leaves the filter empty. */
  lemma {:induction false} NamedNone(users: seq<User>, name: string)
    requires forall j :: 0 <= j < |users| ==> users[j].name != name
    ensures Named(users, name) == []
    decreases |users|
  {
    if users != [] {
      NamedNone(users[1..], name);
    }
  }

  /** Two accounts under one name leave at least two in the filter. */
  lemma {:induction false} NamedTwice(users: seq<User>, name: string, i: nat, j: nat)
    requires i < j < |users| && users[i].name == name && users[j].name == name
    ensures |Named(users, name)| >= 2
    decreases |users|
  {
    if i == 0 {
      NamedSome(users[1..], name, j - 1);
    } else {
      NamedTwice(users[1..], name, i - 1, j - 1);
    }
  }

  /** An account under a name leaves at least one in the filter. */
  lemma {:induction false} NamedSome(users: seq<User>, name: string, j: nat)
    requires j < |users| && users[j].name == name
    ensures |Named(users, name)| >= 1
    decreases |users|
  {
    if j > 0 {
      NamedSome(users[1..], name, j - 1);
    }
  }

  /**
    The lookup of `search_username` on a parsed directory: exactly one
    account under the name (otherwise `NotFound`), then that account's read.
  */
  function Lookup(name: string, users: seq<User>, read: Reader): (r: Result<Login>)
    ensures r.Ok? ==> exists i :: 0 <= i < |users| && users[i].name == name && r == read(users[i].uid)
  {
    var matching := Named(users, name);
    if |matching| != 1 then Err(NotFound) else read(matching[0].uid)
  }

  /** `search_username`: parses the directory (a malformed line aborts), then looks the name up. */
  function SearchUsername(name: string, lines: seq<string>, file: seq<byte>): (r: Result<Login>)
    ensures !AllParse(lines) ==> r == Err(Panicked)
    ensures r.Ok? ==> exists u :: u in Users(lines) && u.name == name && r == SearchUid(u.uid, file)
  {
    if !AllParse(lines) then Err(Panicked) else Lookup(name, Users(lines), SlotReader(file))
  }

  /** A name listed exactly once is read by its account's uid. */
  lemma LookupUnique(name: string, users: seq<User>, read: Reader, i: nat)
    requires i < |users| && users[i].name == name
    requires forall j :: 0 <= j < |users| && j != i ==> users[j].name != name
    ensures Lookup(name, users, read) == read(users[i].uid)
  {
    NamedUnique(users, name, i);
  }

  /** A name not listed is `NotFound`. */
  lemma LookupAbsent(name: string, users: seq<User>, read: Reader)
    requires forall j :: 0 <= j < |users| ==> users[j].name != name
    ensures Lookup(name, users, read) == Err(NotFound)
  {
    NamedNone(users, name);
  }

  /** A name listed twice is `NotFound`, even though both accounts exist. */
  lemma LookupAmbiguous(name: string, users: seq<User>, read: Reader, i: nat, j: nat)
    requires i < j < |users| && users[i].name == name && users[j].name == name
    ensures Lookup(name, users, read) == Err(NotFound)
  {
    NamedTwice(users, name, i, j);
  }
}
