/**
  The record model shared by every reader, and the helpers of src/common.rs:
  the zero-means-never timestamp rule, the length-checked struct read, the
  synthesised "never logged in" record, the parser of the account directory
  (`/etc/passwd`) with the id and name maps built from it, the current-user
  guess and the first-existing-file probe of `primary_file`.
*/
module Common {
  import opened Wrappers
  import opened Bytes
  import opened Unicode

  /** The `std::io::ErrorKind`s the readers report; `Panicked` stands for an `expect` that aborts. */
  datatype ErrorKind = NotFound | InvalidData | InvalidInput | UnexpectedEof | Panicked

  datatype Result<+T> = Ok(value: T) | Err(error: ErrorKind)

  datatype LoginTime = Never | Last(secs: nat)

  /** The seconds of a login, with `Never` counted as the epoch (as `get_latest_default` compares them). */
  function Secs(t: LoginTime): nat
  {
    if t.Last? then t.secs else 0
  }

  /** `HashMap::get`: the value under `k`, if any. */
  function Get<K, V>(m: map<K, V>, k: K): (r: Option<V>)
    ensures r.Some? <==> k in m
    ensures r.Some? ==> r.value == m[k]
  {
    if k in m then Some(m[k]) else None
  }

  /** The closed set of utmp entry kinds, with the tags of `<utmp.h>`. */
  datatype RecordType =
    | Empty | RunLvl | BootTime | NewTime | OldTime
    | InitProcess | LoginProcess | UserProcess | DeadProcess | Accounting

  /** One login record, the shape every reader produces. */
  datatype Record = Record(rtype: RecordType, uid: Option<u32>, name: string, tty: string, lastLogin: LoginTime)

  function TagOf(t: RecordType): (tag: int)
    ensures 0 <= tag <= 9
  {
    match t
    case Empty => 0
    case RunLvl => 1
    case BootTime => 2
    case NewTime => 3
    case OldTime => 4
    case InitProcess => 5
    case LoginProcess => 6
    case UserProcess => 7
    case DeadProcess => 8
    case Accounting => 9
  }

  /** `RecordType::try_from(i32)`: the kind with that tag, or `InvalidData` outside the closed set. */
  function RecordTypeFrom(tag: int): (r: Result<RecordType>)
    ensures r.Ok? <==> 0 <= tag <= 9
    ensures r.Ok? ==> TagOf(r.value) == tag
    ensures r.Err? ==> r.error == InvalidData
  {
    if tag == 0 then Ok(Empty)
    else if tag == 1 then Ok(RunLvl)
    else if tag == 2 then Ok(BootTime)
    else if tag == 3 then Ok(NewTime)
    else if tag == 4 then Ok(OldTime)
    else if tag == 5 then Ok(InitProcess)
    else if tag == 6 then Ok(LoginProcess)
    else if tag == 7 then Ok(UserProcess)
    else if tag == 8 then Ok(DeadProcess)
    else if tag == 9 then Ok(Accounting)
    else Err(InvalidData)
  }

  /** Every kind is recovered from its tag. */
  lemma TagRoundTrip(t: RecordType)
    ensures RecordTypeFrom(TagOf(t)) == Ok(t)
  {
  }

  /** `unix_timestamp`: a raw time of zero means "never logged in", never the epoch itself. */
  function UnixTimestamp(ts: u32): (t: LoginTime)
    ensures t == Never <==> ts == 0
    ensures t.Last? ==> t.secs == ts
  {
    if ts > 0 then Last(ts) else Never
  }

  /** `read_struct`: the first `size` bytes of the source, or the `read_exact` error when fewer remain. */
  function ReadStruct(src: seq<byte>, size: nat): (r: Result<seq<byte>>)
    ensures r.Ok? <==> size <= |src|
    ensures r.Ok? ==> |r.value| == size && src == r.value + src[size..]
    ensures r.Err? ==> r.error == UnexpectedEof
  {
    if |src| < size then Err(UnexpectedEof) else Ok(src[..size])
  }

  /** `new_record`: the record synthesised for an account with no login entry. */
  function NewRecord(uid: u32, name: string): (r: Record)
    ensures r.rtype == UserProcess && r.uid == Some(uid) && r.name == name
    ensures r.tty == "" && r.lastLogin == Never
  {
    Record(UserProcess, Some(uid), name, "", Never)
  }

  // ---------------------------------------------------------------- the account directory

  /** One account of the directory. */
  datatype User = User(uid: u32, name: string)

  /** Rust's `char::is_whitespace`: the Unicode White_Space property. */
  predicate IsWhitespace(c: char) {
    || ('\U{0009}' <= c <= '\U{000D}') || c == ' ' || c == '\U{0085}' || c == '\U{00A0}'
    || c == '\U{1680}' || ('\U{2000}' <= c <= '\U{200A}') || c == '\U{2028}' || c == '\U{2029}'
    || c == '\U{202F}' || c == '\U{205F}' || c == '\U{3000}'
  }

  /** `line.trim().len() == 0`. */
  predicate IsBlank(line: string) {
    forall k :: 0 <= k < |line| ==> IsWhitespace(line[k])
  }

  /** The position of the first `c` in `s`, or `|s|` when there is none. */
  function IndexOf(s: string, c: char): (i: nat)
    ensures i <= |s|
    ensures c !in s[..i]
    ensures i < |s| ==> s[i] == c
  {
    if s == [] || s[0] == c then 0 else 1 + IndexOf(s[1..], c)
  }

  /** The fields joined back with the separator between them. */
  function Join(parts: seq<string>, sep: char): string
  {
    if parts == [] then ""
    else if |parts| == 1 then parts[0]
    else parts[0] + [sep] + Join(parts[1..], sep)
  }

  /**
    Rust's `s.splitn(n, sep)`: at most `n` fields, every field but the last free
    of `sep`, the last one holding the unsplit rest, and joining them gives `s`.
  */
  function SplitN(s: string, n: nat, sep: char): (r: seq<string>)
    requires n >= 1
    ensures 1 <= |r| <= n
    ensures Join(r, sep) == s
    ensures forall k :: 0 <= k < |r| - 1 ==> sep !in r[k]
    ensures |r| < n ==> sep !in r[|r| - 1]
    decreases n
  {
    var i := IndexOf(s, sep);
    if n == 1 || i == |s| then [s]
    else
      var rest := SplitN(s[i + 1..], n - 1, sep);
      assert s == s[..i] + [sep] + s[i + 1..];
      [s[..i]] + rest
  }

  predicate IsDigit(c: char) { '0' <= c <= '9' }

  /** The value of a string of decimal digits, most significant first. */
  function DigitsValue(ds: string): nat
    requires forall k :: 0 <= k < |ds| ==> IsDigit(ds[k])
  {
    if ds == [] then 0
    else
      assert IsDigit(ds[|ds| - 1]);
      DigitsValue(ds[..|ds| - 1]) * 10 + (ds[|ds| - 1] as int - '0' as int)
  }

  /**
    `str::parse::<u32>`: an optional `+`, then one or more ASCII digits whose
    value fits in 32 bits; anything else (empty, a sign alone, `-`, another
    character, overflow) is rejected.
  */
  function ParseU32(s: string): (r: Option<u32>)
    ensures r.Some? ==> exists ds :: UnsignedForm(s, ds) && DigitsValue(ds) == r.value
  {
    if s == [] then None
    else
      var ds := if s[0] == '+' then s[1..] else s;
      if ds == [] || exists k :: 0 <= k < |ds| && !IsDigit(ds[k]) then None
      else if DigitsValue(ds) < 0x1_0000_0000 then Some(DigitsValue(ds))
      else None
  }

  /** `s` is the digit string `ds`, possibly after one `+`. */
  predicate UnsignedForm(s: string, ds: string) {
    && (s == ds || s == ['+'] + ds)
    && ds != []
    && forall k :: 0 <= k < |ds| ==> IsDigit(ds[k])
  }

  /** Every unsigned spelling of a value below 2^32 is accepted, with that value. */
  lemma ParseU32Accepts(s: string, ds: string)
    requires UnsignedForm(s, ds) && DigitsValue(ds) < 0x1_0000_0000
    ensures ParseU32(s) == Some(DigitsValue(ds))
  {
    if s != ds {
      assert s[1..] == ds;
    } else {
      assert IsDigit(ds[0]);
    }
  }

  /** The digits of an unsigned spelling are determined by it: a digit is never `+`. */
  lemma UnsignedFormUnique(s: string, ds: string, ds': string)
    requires UnsignedForm(s, ds) && UnsignedForm(s, ds')
    ensures ds == ds'
  {
    assert IsDigit(ds[0]) && IsDigit(ds'[0]);
    if s == ['+'] + ds {
      assert s[0] == '+' && s[1..] == ds;
    }
  }

  /** A leading `-`, a string without digits and a value of 2^32 or more are all rejected. */
  lemma ParseU32Rejects(s: string)
    ensures s == [] || s == ['+'] ==> ParseU32(s) == None
    ensures |s| > 0 && s[0] == '-' ==> ParseU32(s) == None
    ensures forall ds :: UnsignedForm(s, ds) && DigitsValue(ds) >= 0x1_0000_0000 ==> ParseU32(s) == None
  {
    if ParseU32(s).Some? {
      var ds :| UnsignedForm(s, ds) && DigitsValue(ds) == ParseU32(s).value;
      assert IsDigit(ds[0]);
      forall ds' | UnsignedForm(s, ds') ensures ds' == ds {
        UnsignedFormUnique(s, ds, ds');
      }
    }
  }

  /** The decimal spelling of `n`, without sign or leading zeros. */
  function Decimal(n: nat): (s: string)
    ensures s != [] && forall k :: 0 <= k < |s| ==> IsDigit(s[k])
  {
    var d := ['0' + ((n % 10) as char)];
    if n < 10 then d else Decimal(n / 10) + d
  }

  lemma {:induction false} DecimalValue(n: nat)
    ensures DigitsValue(Decimal(n)) == n
  {
    if n >= 10 {
      DecimalValue(n / 10);
      var s := Decimal(n);
      assert s[..|s| - 1] == Decimal(n / 10);
    }
  }

  /** Parsing reads back every 32-bit value written in decimal, with or without a `+`. */
  lemma ParseU32Decimal(n: u32)
    ensures ParseU32(Decimal(n)) == Some(n)
    ensures ParseU32(['+'] + Decimal(n)) == Some(n)
  {
    DecimalValue(n);
    assert (['+'] + Decimal(n))[1..] == Decimal(n);
  }

  /**
    One line of `read_passwd`: a blank line is skipped (`None`); otherwise the
    account's name is the first `:`-separated field and its uid the third.
    A line with fewer than three fields, or a uid that does not parse, makes the
    source's `expect` panic.
  */
  function ParseLine(line: string): (r: Result<Option<User>>)
    ensures r == Ok(None) <==> IsBlank(line)
    ensures r.Err? ==> r.error == Panicked
    ensures !IsBlank(line) ==>
      var fields := SplitN(line, 4, ':');
      && (r.Ok? <==> |fields| >= 3 && ParseU32(fields[2]).Some?)
      && (r.Ok? ==> r.value == Some(User(ParseU32(fields[2]).value, fields[0])))
    ensures r.Ok? && r.value.Some? ==>
      var name := r.value.value.name;
      && ':' !in name
      && |name| <= |line|
      && name == line[..|name|]
      && (|name| == |line| || line[|name|] == ':')
  {
    if IsBlank(line) then Ok(None)
    else
      var fields := SplitN(line, 4, ':');
      if |fields| < 3 then Err(Panicked)
      else match ParseU32(fields[2])
        case None => Err(Panicked)
        case Some(uid) =>
          assert line == fields[0] + [':'] + Join(fields[1..], ':');
          Ok(Some(User(uid, fields[0])))
  }

  /** Splitting at a first separator after a separator-free field. */
  lemma SplitAt(a: string, b: string, n: nat, sep: char)
    requires n >= 2 && sep !in a
    ensures SplitN(a + [sep] + b, n, sep) == [a] + SplitN(b, n - 1, sep)
  {
    var s := a + [sep] + b;
    assert s[|a|] == sep;
    assert s[..IndexOf(s, sep)] == a && s[IndexOf(s, sep) + 1..] == b;
  }

  /** A field without the separator is the whole split. */
  lemma SplitNone(a: string, n: nat, sep: char)
    requires n >= 1 && sep !in a
    ensures SplitN(a, n, sep) == [a]
  {
  }

  /** The first field of a split is everything before the first separator. */
  lemma SplitFirst(a: string, rest: string, n: nat, sep: char)
    requires n >= 2 && sep !in a
    requires rest == [] || rest[0] == sep
    ensures SplitN(a + rest, n, sep)[0] == a
  {
    if rest == [] {
      assert a + rest == a;
      SplitNone(a, n, sep);
    } else {
      assert a + rest == a + [sep] + rest[1..];
      SplitAt(a, rest[1..], n, sep);
    }
  }

  /** The fields of `name:password:uid` followed by nothing or by `:` and the other fields. */
  lemma SplitLine(name: string, password: string, d: string, rest: string)
    requires ':' !in name && ':' !in password && ':' !in d
    requires rest == [] || rest[0] == ':'
    ensures var fields := SplitN(name + [':'] + password + [':'] + d + rest, 4, ':');
            |fields| >= 3 && fields[0] == name && fields[2] == d
  {
    var tail2 := d + rest;
    var tail := password + [':'] + tail2;
    assert name + [':'] + password + [':'] + d + rest == name + [':'] + tail;
    SplitAt(name, tail, 4, ':');
    SplitAt(password, tail2, 3, ':');
    SplitFirst(d, rest, 2, ':');
  }

  /**
    A line written as `name:password:uid` followed by nothing or by `:` and the
    other fields reads back as the account `uid`/`name`.
  */
  lemma ParseLineRoundTrip(name: string, password: string, uid: u32, rest: string)
    requires ':' !in name && ':' !in password
    requires rest == [] || rest[0] == ':'
    ensures ParseLine(name + [':'] + password + [':'] + Decimal(uid) + rest) == Ok(Some(User(uid, name)))
  {
    var d := Decimal(uid);
    var line := name + [':'] + password + [':'] + d + rest;
    assert !IsBlank(line) by {
      assert line[|name|] == ':';
      assert !IsWhitespace(line[|name|]);
    }
    SplitLine(name, password, d, rest);
    ParseU32Decimal(uid);
  }

  /** Every line of the directory is blank or well formed. */
  predicate AllParse(lines: seq<string>) {
    forall i :: 0 <= i < |lines| ==> ParseLine(lines[i]).Ok?
  }

  /** The accounts of the directory, in line order; blank lines contribute nothing. */
  function Users(lines: seq<string>): seq<User>
  {
    if lines == [] then []
    else
      var last := ParseLine(lines[|lines| - 1]);
      Users(lines[..|lines| - 1]) + (if last.Ok? && last.value.Some? then [last.value.value] else [])
  }

  /** The line at index `i` of the directory, if it holds an account. */
  predicate LineHolds(lines: seq<string>, i: int, u: User) {
    0 <= i < |lines| && ParseLine(lines[i]) == Ok(Some(u))
  }

  /** Every account of the directory comes from one of its lines. */
  lemma {:induction false} UsersSound(lines: seq<string>, u: User)
    requires u in Users(lines)
    ensures exists i :: LineHolds(lines, i, u)
  {
    var pre := lines[..|lines| - 1];
    var last := ParseLine(lines[|lines| - 1]);
    assert Users(lines) == Users(pre) + (if last.Ok? && last.value.Some? then [last.value.value] else []);
    if u in Users(pre) {
      UsersSound(pre, u);
      var i :| LineHolds(pre, i, u);
      assert pre[i] == lines[i];
      assert LineHolds(lines, i, u);
    } else {
      assert LineHolds(lines, |lines| - 1, u);
    }
  }

  /** Every line holding an account contributes it to the directory. */
  lemma {:induction false} UsersComplete(lines: seq<string>, i: int, u: User)
    requires LineHolds(lines, i, u)
    ensures u in Users(lines)
  {
    var pre := lines[..|lines| - 1];
    var last := ParseLine(lines[|lines| - 1]);
    assert Users(lines) == Users(pre) + (if last.Ok? && last.value.Some? then [last.value.value] else []);
    if i < |lines| - 1 {
      assert pre[i] == lines[i];
      UsersComplete(pre, i, u);
    }
  }

  /** The directory holds exactly the accounts of its non-blank lines. */
  lemma UsersFromLines(lines: seq<string>)
    ensures forall u :: u in Users(lines) <==> exists i :: LineHolds(lines, i, u)
  {
    forall u | u in Users(lines) ensures exists i :: LineHolds(lines, i, u) {
      UsersSound(lines, u);
    }
    forall u, i | LineHolds(lines, i, u) ensures u in Users(lines) {
      UsersComplete(lines, i, u);
    }
  }

  lemma UsersStep(lines: seq<string>, i: nat)
    requires i < |lines| && ParseLine(lines[i]).Ok?
    ensures var u := ParseLine(lines[i]).value;
            Users(lines[..i + 1]) == Users(lines[..i]) + (if u.Some? then [u.value] else [])
  {
    assert lines[..i + 1][..i] == lines[..i];
  }

  lemma AllParseStep(lines: seq<string>, i: nat)
    requires i < |lines| && AllParse(lines[..i]) && ParseLine(lines[i]).Ok?
    ensures AllParse(lines[..i + 1])
  {
    var prefix, next := lines[..i], lines[..i + 1];
    forall k | 0 <= k < i + 1 ensures ParseLine(next[k]).Ok? {
      if k < i {
        assert next[k] == prefix[k];
      }
    }
  }

  /** `read_passwd`: parses every line; the first malformed line aborts. */
  method ReadPasswd(lines: seq<string>) returns (r: Result<seq<User>>)
    ensures r.Ok? <==> AllParse(lines)
    ensures r.Ok? ==> r.value == Users(lines)
    ensures r.Err? ==> r.error == Panicked
  {
    var users: seq<User> := [];
    var i := 0;
    while i < |lines|
      invariant 0 <= i <= |lines|
      invariant AllParse(lines[..i])
      invariant users == Users(lines[..i])
    {
      var parsed := ParseLine(lines[i]);
      if parsed.Err? {
        assert !AllParse(lines) by { assert !ParseLine(lines[i]).Ok?; }
        return Err(parsed.error);
      }
      UsersStep(lines, i);
      AllParseStep(lines, i);
      if parsed.value.Some? {
        users := users + [parsed.value.value];
      }
      i := i + 1;
    }
    assert lines[..i] == lines;
    r := Ok(users);
  }

  /**
    `read_passwd_idmap`: uid to name. Its keys are exactly the uids of the
    directory, and for a uid listed twice the later line wins.
  */
  function IdMap(users: seq<User>): (m: map<u32, string>)
    ensures m.Keys == set i | 0 <= i < |users| :: users[i].uid
  {
    if users == [] then map[]
    else
      var pre := users[..|users| - 1];
      var last := users[|users| - 1];
      var m := IdMap(pre);
      assert forall i :: 0 <= i < |pre| ==> pre[i] == users[i];
      m[last.uid := last.name]
  }

  /** For a uid listed more than once, the later line wins. */
  lemma {:induction false} IdMapLatest(users: seq<User>, i: nat)
    requires i < |users|
    requires forall j :: i < j < |users| ==> users[j].uid != users[i].uid
    ensures IdMap(users)[users[i].uid] == users[i].name
  {
    if i < |users| - 1 {
      var pre := users[..|users| - 1];
      IdMapLatest(pre, i);
    }
  }

  /**
    `read_passwd_nmap`: name to uid. Its keys are exactly the names of the
    directory, and for a name listed twice the later line wins.
  */
  function NameMap(users: seq<User>): (m: map<string, u32>)
    ensures m.Keys == set i | 0 <= i < |users| :: users[i].name
  {
    if users == [] then map[]
    else
      var pre := users[..|users| - 1];
      var last := users[|users| - 1];
      var m := NameMap(pre);
      assert forall i :: 0 <= i < |pre| ==> pre[i] == users[i];
      m[last.name := last.uid]
  }

  /** For a name listed more than once, the later line wins. */
  lemma {:induction false} NameMapLatest(users: seq<User>, i: nat)
    requires i < |users|
    requires forall j :: i < j < |users| ==> users[j].name != users[i].name
    ensures NameMap(users)[users[i].name] == users[i].uid
  {
    if i < |users| - 1 {
      var pre := users[..|users| - 1];
      NameMapLatest(pre, i);
    }
  }

  /**
    `guess_uid`: the uid of the account named by the `USER` environment
    variable, and 0 when the variable is unset or names no account.
  */
  function GuessUid(user: Option<string>, nmap: map<string, u32>): (uid: u32)
    ensures user.Some? && user.value in nmap ==> uid == nmap[user.value]
    ensures !(user.Some? && user.value in nmap) ==> uid == 0
  {
    match user
    case None => 0
    case Some(name) => if name in nmap then nmap[name] else 0
  }

  /**
    The loop of `primary_file`: the first candidate path that exists as a
    regular file, or `NotFound` when none does.
  */
  method FirstRegularFile(paths: seq<string>, isFile: string -> bool) returns (r: Result<string>)
    ensures r.Ok? <==> exists i :: 0 <= i < |paths| && isFile(paths[i])
    ensures r.Ok? ==> exists i ::
                        && 0 <= i < |paths| && paths[i] == r.value && isFile(paths[i])
                        && forall j :: 0 <= j < i ==> !isFile(paths[j])
    ensures r.Err? ==> r.error == NotFound
  {
    for i := 0 to |paths|
      invariant forall j :: 0 <= j < i ==> !isFile(paths[j])
    {
      if isFile(paths[i]) {
        return Ok(paths[i]);
      }
    }
    return Err(NotFound);
  }
}
