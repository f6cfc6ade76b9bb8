/**
  The Windows account reader of src/winapi.rs, after the operating-system
  enumeration: every account arrives as a NUL-terminated UTF-16 name, a user
  id and a last-logon time in seconds (zero for never). Lookups correct a
  known misattribution: when only `defaultuser*` accounts carry login times,
  the newest of those times is reported for the account asked about.
*/
module WinApi {
  import opened Wrappers
  import opened Bytes
  import opened Unicode
  import opened Common

  /** One enumerated account (`USER_INFO_3`, reduced to the fields the reader uses). */
  datatype Account = Account(name: seq<u16>, userId: u32, lastLogon: u32)

  // ---------------------------------------------------------------- wstr_string

  /** The position of the first NUL unit of a terminated wide string. */
  function NulIndex(buf: seq<u16>): (n: nat)
    requires 0 in buf
    ensures n < |buf| && buf[n] == 0
    ensures forall j :: 0 <= j < n ==> buf[j] != 0
  {
    if buf[0] == 0 then 0
    else
      assert 0 in buf[1..];
      1 + NulIndex(buf[1..])
  }

  /** The text a NUL-terminated wide string holds: the strict UTF-16 decoding of the units before the first NUL. */
  function WideText(buf: seq<u16>): (r: Result<string>)
    requires 0 in buf
    ensures r.Ok? <==> Utf16Decode(buf[..NulIndex(buf)]).Some?
    ensures r.Ok? ==> Utf16Encode(r.value) == buf[..NulIndex(buf)]
    ensures r.Err? ==> r.error == InvalidData
  {
    var units := buf[..NulIndex(buf)];
    match Utf16Decode(units)
    case None => Err(InvalidData)
    case Some(s) =>
      Utf16DecodeCanonical(units);
      Ok(s)
  }

  /** `wstr_string`: copies the units up to the terminating NUL, then decodes them. */
  method WstrString(buf: seq<u16>) returns (r: Result<string>)
    requires 0 in buf
    ensures r == WideText(buf)
  {
    var units: seq<u16> := [];
    var i := 0;
    while buf[i] != 0
      invariant 0 <= i <= NulIndex(buf)
      invariant units == buf[..i]
      decreases NulIndex(buf) - i
    {
      units := units + [buf[i]];
      i := i + 1;
    }
    assert i == NulIndex(buf);
    match Utf16Decode(units)
    case None => r := Err(InvalidData);
    case Some(s) => r := Ok(s);
  }

  /** A character other than NUL encodes to units none of which is NUL. */
  lemma {:induction false} EncodeNoNul(s: string)
    requires '\0' !in s
    ensures 0 !in Utf16Encode(s)
  {
    if s != [] {
      assert s[0] != '\0';
      assert '\0' !in s[1..];
      EncodeNoNul(s[1..]);
      if s[0] as int >= 0x1_0000 {
        Encode16Pair(s[0]);
      }
    }
  }

  /** A text without NUL, encoded and terminated, reads back whatever follows the terminator. */
  lemma WideTextRoundTrip(s: string, rest: seq<u16>)
    requires '\0' !in s
    ensures 0 in Utf16Encode(s) + [0] + rest
    ensures WideText(Utf16Encode(s) + [0] + rest) == Ok(s)
  {
    var u := Utf16Encode(s);
    var buf := u + [0] + rest;
    assert buf[|u|] == 0;
    EncodeNoNul(s);
    assert forall j :: 0 <= j < |u| ==> buf[j] == u[j];
    assert NulIndex(buf) == |u|;
    assert buf[..|u|] == u;
    Utf16RoundTrip(s);
  }

  // ---------------------------------------------------------------- get_latest_default

  /** `name.starts_with("defaultuser")`. */
  predicate IsDefaultUser(name: string) {
    |name| >= 11 && name[..11] == "defaultuser"
  }

  /** A record the correction tolerates: it never logged in, or it is a default user. */
  predicate Tolerated(r: Record) {
    r.lastLogin.Never? || IsDefaultUser(r.name)
  }

  /** A default user with a concrete login: a candidate for the corrected time. */
  predicate Candidate(r: Record) {
    IsDefaultUser(r.name) && r.lastLogin.Last?
  }

  /**
    `max_by` on the login time over the candidates, folded from the front;
    an equal later time replaces the earlier one (equal times are the same value).
  */
  function MaxDefault(records: seq<Record>): (m: Option<LoginTime>)
    ensures m.Some? <==> exists i :: 0 <= i < |records| && Candidate(records[i])
    ensures m.Some? ==> exists i :: 0 <= i < |records| && Candidate(records[i]) && records[i].lastLogin == m.value
    ensures m.Some? ==> forall i :: 0 <= i < |records| && Candidate(records[i]) ==> Secs(records[i].lastLogin) <= Secs(m.value)
    decreases |records|
  {
    if records == [] then None
    else
      var init := records[..|records| - 1];
      var x := records[|records| - 1];
      var m := MaxDefault(init);
      assert forall i :: 0 <= i < |init| ==> init[i] == records[i];
      if !Candidate(x) then m
      else if m.Some? && Secs(m.value) > Secs(x.lastLogin) then m
      else Some(x.lastLogin)
  }

  /**
    `get_latest_default`: no correction (`None`) unless every record that has
    a login belongs to a default user; then the newest default-user login.
    With no such login at all, the `expect` aborts (`Panicked`).
  */
  function GetLatestDefault(records: seq<Record>): (r: Result<Option<LoginTime>>)
    ensures r.Err? ==> r.error == Panicked
    ensures r.Ok? && r.value.Some? ==> r.value.value.Last?
  {
    if exists i :: 0 <= i < |records| && !Tolerated(records[i]) then Ok(None)
    else match MaxDefault(records)
      case None => Err(Panicked)
      case Some(t) => Ok(Some(t))
  }

  /**
    The correction is absent exactly when some record with a login is not a
    default user; it aborts exactly when, besides, no default user has a
    login; otherwise it is one of the default users' logins and no login of
    any record is later.
  */
  lemma LatestDefaultMeaning(records: seq<Record>)
    ensures var r := GetLatestDefault(records);
            && (r == Ok(None) <==> exists i :: 0 <= i < |records| && !Tolerated(records[i]))
            && (r.Err? <==> (forall i :: 0 <= i < |records| ==> Tolerated(records[i]) && !Candidate(records[i])))
            && (r.Err? ==> r.error == Panicked)
            && (r.Ok? && r.value.Some? ==>
                  && r.value.value.Last?
                  && (exists i :: 0 <= i < |records| && Candidate(records[i]) && records[i].lastLogin == r.value.value)
                  && (forall i :: 0 <= i < |records| && records[i].lastLogin.Last? ==> records[i].lastLogin.secs <= r.value.value.secs))
  {
  }

  /** With every login on the default users, and some login, the correction is the latest of all logins. */
  lemma LatestDefaultIsNewest(records: seq<Record>, i: nat)
    requires i < |records| && records[i].lastLogin.Last?
    requires forall j :: 0 <= j < |records| && records[j].lastLogin.Last? ==> IsDefaultUser(records[j].name)
    ensures GetLatestDefault(records).Ok? && GetLatestDefault(records).value.Some?
    ensures records[i].lastLogin.secs <= GetLatestDefault(records).value.value.secs
  {
    assert Candidate(records[i]);
    LatestDefaultMeaning(records);
  }

  // ---------------------------------------------------------------- iter_accounts

  /** Every enumerated name is NUL-terminated, as the enumeration guarantees. */
  predicate Terminated(accounts: seq<Account>) {
    forall i :: 0 <= i < |accounts| ==> 0 in accounts[i].name
  }

  /** The record `iter_accounts` makes of an account whose name reads as `name`. */
  function AccountRecord(a: Account, name: string): Record
  {
    Record(UserProcess, Some(a.userId), name, "N/A", UnixTimestamp(a.lastLogon))
  }

  /**
    The records `iter_accounts` builds from the enumerated accounts, one per
    account in order; an account name that is not valid UTF-16 aborts the
    whole listing (`expect`).
  */
  function Listing(accounts: seq<Account>): Result<seq<Record>>
    requires Terminated(accounts)
    decreases |accounts|
  {
    if accounts == [] then Ok([])
    else
      var init := accounts[..|accounts| - 1];
      var a := accounts[|accounts| - 1];
      assert forall i :: 0 <= i < |init| ==> init[i] == accounts[i];
      match Listing(init)
      case Err(e) => Err(e)
      case Ok(rs) =>
        match WideText(a.name)
        case Err(_) => Err(Panicked)
        case Ok(name) => Ok(rs + [AccountRecord(a, name)])
  }

  /** The listing succeeds exactly when every name decodes, and otherwise aborts. */
  lemma {:induction false} ListingOutcome(accounts: seq<Account>)
    requires Terminated(accounts)
    ensures var r := Listing(accounts);
            && (r.Ok? <==> forall i :: 0 <= i < |accounts| ==> WideText(accounts[i].name).Ok?)
            && (r.Err? ==> r.error == Panicked)
    decreases |accounts|
  {
    if accounts != [] {
      var init := accounts[..|accounts| - 1];
      assert forall i :: 0 <= i < |init| ==> init[i] == accounts[i];
      ListingOutcome(init);
    }
  }

  /**
    A successful listing holds, at position `i`, a login record of kind
    `User` for the `i`-th account with its uid, its decoded name, the tty
    "N/A" and `Never` for a zero logon time.
  */
  lemma {:induction false} ListingMeaning(accounts: seq<Account>)
    requires Terminated(accounts)
    ensures var r := Listing(accounts);
            r.Ok? ==> && |r.value| == |accounts|
                      && forall i :: 0 <= i < |accounts| ==>
                           && WideText(accounts[i].name).Ok?
                           && r.value[i].rtype == UserProcess
                           && r.value[i].uid == Some(accounts[i].userId)
                           && r.value[i].name == WideText(accounts[i].name).value
                           && r.value[i].tty == "N/A"
                           && r.value[i].lastLogin == (if accounts[i].lastLogon == 0 then Never else Last(accounts[i].lastLogon))
    decreases |accounts|
  {
    if accounts != [] {
      var init := accounts[..|accounts| - 1];
      assert forall i :: 0 <= i < |init| ==> init[i] == accounts[i];
      ListingMeaning(init);
    }
  }

  /** One more account extends a successful listing by its record, or fails it. */
  lemma ListingStep(accounts: seq<Account>, i: nat)
    requires Terminated(accounts) && i < |accounts|
    ensures Terminated(accounts[..i]) && Terminated(accounts[..i + 1])
    ensures Listing(accounts[..i + 1]) ==
              match Listing(accounts[..i])
              case Err(e) => Err(e)
              case Ok(rs) =>
                match WideText(accounts[i].name)
                case Err(_) => Err(Panicked)
                case Ok(name) => Ok(rs + [AccountRecord(accounts[i], name)])
  {
    assert accounts[..i + 1][..i] == accounts[..i];
  }

  /** An account whose name does not decode fails the listing. */
  lemma ListingFails(accounts: seq<Account>, i: nat)
    requires Terminated(accounts) && i < |accounts| && WideText(accounts[i].name).Err?
    ensures Listing(accounts) == Err(Panicked)
  {
    ListingOutcome(accounts);
  }

  /** `iter_accounts` after the enumeration: maps every account in turn. */
  method IterAccounts(accounts: seq<Account>) returns (r: Result<seq<Record>>)
    requires Terminated(accounts)
    ensures r == Listing(accounts)
  {
    var records: seq<Record> := [];
    for i := 0 to |accounts|
      invariant Terminated(accounts[..i])
      invariant Listing(accounts[..i]) == Ok(records)
    {
      ListingStep(accounts, i);
      var name := WstrString(accounts[i].name);
      if name.Err? {
        ListingFails(accounts, i);
        return Err(Panicked);
      }
      var lastLogin := if accounts[i].lastLogon == 0 then Never else Last(accounts[i].lastLogon);
      records := records + [Record(UserProcess, Some(accounts[i].userId), name.value, "N/A", lastLogin)];
    }
    assert accounts[..|accounts|] == accounts;
    r := Ok(records);
  }

  // ---------------------------------------------------------------- search

  /** The position of the first record `p` accepts, if any. */
  function First(records: seq<Record>, p: Record -> bool): (i: Option<nat>)
    ensures i.Some? ==> i.value < |records| && p(records[i.value])
                        && forall j :: 0 <= j < i.value ==> !p(records[j])
    ensures i.None? ==> forall j :: 0 <= j < |records| ==> !p(records[j])
    decreases |records|
  {
    if records == [] then None
    else if p(records[0]) then Some(0)
    else match First(records[1..], p)
      case None => None
      case Some(k) => Some(k + 1)
  }

  /** A record with the correction applied, when there is one. */
  function Corrected(rec: Record, latest: Option<LoginTime>): (r: Record)
    ensures r.rtype == rec.rtype && r.uid == rec.uid && r.name == rec.name && r.tty == rec.tty
    ensures r.lastLogin == if latest.Some? then latest.value else rec.lastLogin
  {
    match latest
    case None => rec
    case Some(t) => rec.(lastLogin := t)
  }

  /**
    The lookup both searches perform on a listing: the listing's or the
    correction's failure first, then the first record `p` accepts, corrected,
    or `InvalidInput` when there is none.
  */
  function Lookup(listing: Result<seq<Record>>, p: Record -> bool): Result<Record>
  {
    match listing
    case Err(e) => Err(e)
    case Ok(records) =>
      match GetLatestDefault(records)
      case Err(e) => Err(e)
      case Ok(latest) =>
        match First(records, p)
        case None => Err(InvalidInput)
        case Some(i) => Ok(Corrected(records[i], latest))
  }

  /**
    A lookup on a good listing succeeds exactly when some record matches, and
    then returns the first match with the correction applied; with no match it
    is `InvalidInput`.
  */
  lemma LookupMeaning(records: seq<Record>, p: Record -> bool)
    requires GetLatestDefault(records).Ok?
    ensures var r, latest := Lookup(Ok(records), p), GetLatestDefault(records).value;
            && (r.Ok? <==> exists i :: 0 <= i < |records| && p(records[i]))
            && (r.Ok? ==> exists i :: && 0 <= i < |records| && p(records[i])
                                      && (forall j :: 0 <= j < i ==> !p(records[j]))
                                      && r.value == Corrected(records[i], latest))
            && (r.Err? ==> r.error == InvalidInput)
  {
    var f := First(records, p);
    if f.Some? {
      assert p(records[f.value]);
    }
  }

  /** Matching on the name searched for. */
  function NameIs(username: string): Record -> bool
  {
    (rec: Record) => rec.name == username
  }

  /** Matching on the uid searched for; a record without a uid never matches. */
  function UidIs(uid: u32): Record -> bool
  {
    (rec: Record) => rec.uid == Some(uid)
  }

  /**
    The loop of both searches: the first record `p` accepts, corrected, or
    `InvalidInput` when the loop runs out.
  */
  method Find(records: seq<Record>, latest: Option<LoginTime>, p: Record -> bool) returns (r: Result<Record>)
    ensures r == match First(records, p)
                 case None => Err(InvalidInput)
                 case Some(i) => Ok(Corrected(records[i], latest))
  {
    for i := 0 to |records|
      invariant forall j :: 0 <= j < i ==> !p(records[j])
    {
      if p(records[i]) {
        assert First(records, p) == Some(i);
        return Ok(Corrected(records[i], latest));
      }
    }
    r := Err(InvalidInput);
  }

  /** `search_username`: the first listed record with that name, corrected. */
  method SearchUsername(username: string, accounts: seq<Account>) returns (r: Result<Record>)
    requires Terminated(accounts)
    ensures r == Lookup(Listing(accounts), NameIs(username))
  {
    var listing := IterAccounts(accounts);
    if listing.Err? {
      return Err(listing.error);
    }
    var latest := GetLatestDefault(listing.value);
    if latest.Err? {
      return Err(latest.error);
    }
    r := Find(listing.value, latest.value, NameIs(username));
  }

  /**
    `search_uid`: the first listed record with that uid, corrected; a record
    without a uid is passed over, since `UidIs` never accepts it.
  */
  method SearchUid(uid: u32, accounts: seq<Account>) returns (r: Result<Record>)
    requires Terminated(accounts)
    ensures r == Lookup(Listing(accounts), UidIs(uid))
  {
    var listing := IterAccounts(accounts);
    if listing.Err? {
      return Err(listing.error);
    }
    var latest := GetLatestDefault(listing.value);
    if latest.Err? {
      return Err(latest.error);
    }
    r := Find(listing.value, latest.value, UidIs(uid));
  }

  /** The record a uid search returns belongs to the enumerated account with that uid. */
  lemma SearchUidFindsAccount(accounts: seq<Account>, uid: u32)
    requires Terminated(accounts)
    ensures var r := Lookup(Listing(accounts), UidIs(uid));
            r.Ok? ==> exists i :: 0 <= i < |accounts| && accounts[i].userId == uid
                                  && r.value.uid == Some(uid) && WideText(accounts[i].name) == Ok(r.value.name)
  {
    ListingMeaning(accounts);
    var listing := Listing(accounts);
    if listing.Ok? && GetLatestDefault(listing.value).Ok? {
      LookupMeaning(listing.value, UidIs(uid));
    }
  }

  // ---------------------------------------------------------------- LoginDB

  /** `is_valid`: the enumeration needs no file, so every file is accepted. */
  function IsValid(file: seq<byte>): (valid: bool)
    ensures valid
  {
    true
  }

  /** `primary_file`: the empty path, since no file is read. */
  function PrimaryFile(): (r: Result<string>)
    ensures r == Ok("")
  {
    Ok("")
  }
}
