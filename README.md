# lastlog — a verified model of the login-record readers

`lastlog` answers one question: when did account X last log in? It answers it
from three sources of login records:

- the **utmp/wtmp** session log, a file of packed 384-byte entries that is read
  backwards from its newest entry;
- the **lastlog** database, a file of 292-byte slots indexed by uid. This is
  read through the `Module` implementation and also through the older
  standalone API in `src/lib.rs`;
- the **Windows account list**, with its correction for `defaultuser*`
  accounts.

The account directory comes from `/etc/passwd`.

This project models those readers in Dafny:

- A file is a `seq<byte>`.
- The account directory is a list of lines, or the maps built from those lines.
- The Windows account enumeration is a list of `Account` tuples whose names are
  NUL-terminated UTF-16 buffers.
- Every reader produces the same `Record(rtype, uid, name, tty, lastLogin)`,
  where `lastLogin` is `Never` or `Last(secs)`. The standalone `src/lib.rs` API
  produces its own `Login(uid, tty, lastLogin)`, because its record has no name
  and no kind.

Modules:

| file | module | models |
|---|---|---|
| wrappers.dfy | Wrappers | `Option` |
| bytes.dfy | Bytes | bytes, `u16`/`u32`/`i32`, the little-endian field layout, the `i32`→`u32` reinterpretation |
| unicode.dfy | Unicode | UTF-8 and UTF-16 decoding with their encoders (`from_utf8`, `from_utf16`), `trim_matches('\0')` |
| common.dfy | Common | `src/common.rs`: error kinds, `LoginTime`, `RecordType`, `Record`, `unix_timestamp`, `read_struct`, `new_record`, `read_passwd`, the id/name maps, `guess_uid`, the `primary_file` search |
| utmp.dfy | Utmp | `src/utmp.rs`: the entry codec, `stringify`, `read_utmp`, `map_record`, `set_latest`, the backward scan of `read_until`, `read_all`, and `is_valid`, `primary_file`, `iter_accounts`, `search_uid`, `search_username` |
| lastlog.dfy | LastLog | `src/lastlog.rs`: the slot codec, `map_record`, `read_lastlog`, and `is_valid`, `primary_file`, `iter_accounts` (the ascending-uid sweep), `search_uid`, `search_username` |
| winapi.dfy | WinApi | `src/winapi.rs`: `wstr_string`, `get_latest_default`, the account mapping of `iter_accounts`, `search_username`, `search_uid`, `is_valid`, `primary_file` |
| legacy.dfy | Legacy | `src/lib.rs`: `map_record`, `read_lastlog`, `iter_accounts`, `search_uid`, `search_username` |

### How the code is followed

- **One record type, four renderings.** `src/common.rs` still has the older
  record shape that `src/utmp.rs` and `src/winapi.rs` no longer compile against:
  - `src/common.rs` has `uid: u32`, `NeverLoggedIn`/`LoggedIn` and no record kind;
  - `src/utmp.rs` and `src/winapi.rs` use `uid: Option<u32>`, `Never`/`Last` and a `RecordType`.

  The model uses the newer shape for all three `Module`/`LoginDB` readers. The
  lastlog reader's records are user-process records with a known uid.
- **`RecordType::try_from`** is defined in none of the core files.
  `Common.RecordTypeFrom` models it on the assumption that it accepts the
  closed range of utmp.h kinds 0–9 and fails with `InvalidData` otherwise.
  Tag 10 therefore passes `read_utmp`'s range check (which rejects only tags
  below 0 or above 10), but `map_record` then rejects it.
- **Panics become `Err(Panicked)`.** This covers the `expect`s in
  `read_passwd`, the one on the result of `wstr_string` in the Windows
  `iter_accounts` (`src/winapi.rs:146`), and the one at the end of
  `get_latest_default`. A malformed `/etc/passwd` line aborts the read; it is
  not skipped.
- **Misaligned utmp files.** In `read_until`, `seek -= ST_SIZE` underflows on a
  file whose length is not a multiple of 384. The following seek to that
  offset fails, which is modelled as `Err(InvalidInput)`.
- **`set_latest` replaces on ties and whenever either side is `Never`.** It
  keeps the stored record only when both times are set and the stored one is
  strictly newer.
- **The early stop of `read_until` keeps the newest matching entry.** The scan
  goes from the newest entry backwards and stops at the first one that
  satisfies the predicate. So `search_username` returns the newest entry for
  that name, not the one with the largest timestamp.
- **A utmp `search_username` of a name missing from `/etc/passwd`** succeeds
  when the scan merged a record under that name. It fails with `InvalidInput`
  only when the name is in neither place.
- **`Utmp::is_valid`** reads 384 bytes into a zeroed buffer from the
  handle's current position; it does not seek. The model assumes a freshly
  opened handle, so the bytes examined are the first 384 of the file.
- **The loops of the two Windows searches** are one `Find` method with the
  match predicate as a parameter. `search_uid`'s skipping of records without a
  uid is part of its predicate.

## Model

| member | source | states |
|---|---|---|
| Bytes.U32RoundTrip | src/utmp.rs:18-33 | decoding the four little-endian bytes of a `u32` field gives back the value |
| Bytes.U32Canonical | src/utmp.rs:18-33 | any four bytes are the little-endian encoding of the value they decode to |
| Bytes.ToI32 | src/utmp.rs:29 | the `sec: i32` field read from its bits: negative exactly when the top bit is set, congruent to the unsigned value mod 2^32 |
| Bytes.AsU32 | src/utmp.rs:55 | `sec as u32` inverts the reinterpretation and is zero exactly when `sec` is zero |
| Unicode.Utf8Decode | src/utmp.rs:39 | strict `from_utf8`: a decoded text has at most one character per byte and at least one per four bytes; `Utf8RoundTrip` and `Utf8DecodeCanonical` make it the exact inverse of the encoder |
| Unicode.DecodeFirst8Encode | src/utmp.rs:39 | decoding the UTF-8 form of a character, followed by anything, yields that character and its length |
| Unicode.DecodeFirst8Canonical | src/utmp.rs:39 | a decoded UTF-8 sequence is the shortest encoding of its character: no overlong forms are accepted |
| Unicode.Utf8RoundTrip | src/utmp.rs:39 | `from_utf8` of the UTF-8 encoding of any string succeeds with that string |
| Unicode.Utf8DecodeCanonical | src/utmp.rs:39 | every byte string `from_utf8` accepts is the encoding of the text it returns |
| Unicode.Utf8EncodeAppend | src/utmp.rs:39 | encoding distributes over concatenation |
| Unicode.Utf16Decode | src/winapi.rs:25 | strict `from_utf16`: a decoded text has at most one character per unit and at least one per two units; `Utf16RoundTrip` and `Utf16DecodeCanonical` make it the exact inverse of the encoder |
| Unicode.Encode16Pair | src/winapi.rs:25 | a supplementary character becomes a high/low surrogate pair carrying its code point |
| Unicode.Decode16Encode | src/winapi.rs:25 | decoding an encoded character, followed by the rest, is that character followed by the decoding of the rest |
| Unicode.Utf16RoundTrip | src/winapi.rs:25 | `from_utf16` of the UTF-16 encoding of any string succeeds with that string |
| Unicode.Utf16DecodeCanonical | src/winapi.rs:25 | every unit sequence `from_utf16` accepts is the encoding of the text it returns |
| Unicode.LeadingNuls | src/utmp.rs:41 | the length of the longest all-NUL prefix |
| Unicode.TrailingNuls | src/utmp.rs:41 | the length of the longest all-NUL suffix |
| Unicode.TrimNul | src/utmp.rs:41 | `trim_matches('\0')`: a contiguous slice after the leading NULs, followed only by NULs, neither starting nor ending with NUL |
| Unicode.TrimNulSplit | src/utmp.rs:41 | the string is its NUL prefix, the trimmed text and its NUL suffix |
| Unicode.TrimNulIdempotent | src/utmp.rs:54 | trimming twice is trimming once, so the second trim in `map_record` changes nothing |
| Unicode.EncodeNuls | src/utmp.rs:41 | a run of NUL characters is encoded as that many zero bytes |
| Common.Get | src/utmp.rs:52 | `HashMap::get`: `Some` exactly for keys of the map, with the mapped value |
| Common.TagOf | src/utmp.rs:48-49 | every record kind has a tag in 0..9 |
| Common.RecordTypeFrom | src/utmp.rs:48-49 | the conversion succeeds exactly for tags 0..9, with the kind of that tag, and fails with `InvalidData` otherwise |
| Common.TagRoundTrip | src/utmp.rs:48-49 | converting a kind's tag gives that kind back |
| Common.UnixTimestamp | src/common.rs:58-63 | `Never` exactly when the timestamp is 0, otherwise a login at that many seconds |
| Common.ReadStruct | src/common.rs:66-79 | succeeds exactly when `size` bytes are available, returning exactly those bytes as a prefix of the source; otherwise `UnexpectedEof` |
| Common.NewRecord | src/common.rs:82-89 | a user-process record with the given uid and name, an empty tty and `Never` |
| Common.IndexOf | src/common.rs:101 | the position of the first occurrence of the separator, or the length when there is none |
| Common.SplitN | src/common.rs:101 | `splitn(n, sep)`: between 1 and n pieces that join back to the line; no piece but the last holds the separator, and the last holds none when fewer than n pieces were produced |
| Common.DecimalValue | src/common.rs:106 | the digits of a number denote that number |
| Common.ParseU32 | src/common.rs:106 | `parse::<u32>`: an accepted string is an optional `+` followed by one or more digits, and the result is their value |
| Common.ParseU32Accepts | src/common.rs:106 | every optional-`+` digit string whose value is below 2^32 is accepted with that value |
| Common.ParseU32Rejects | src/common.rs:106 | the empty string, a lone `+`, a leading `-` and a value of 2^32 or more are rejected |
| Common.ParseU32Decimal | src/common.rs:106 | `parse::<u32>` accepts the decimal form of every `u32`, with or without a leading `+`, and returns its value |
| Common.ParseLine | src/common.rs:95-107 | a blank line yields no user; any other line succeeds exactly when `splitn(4, ':')` gives at least three fields and the third parses as a `u32`, and otherwise panics; the user is that uid with the first field, the text before the first colon, as its name |
| Common.SplitAt | src/common.rs:101 | splitting after a first field without the separator gives that field, then the split of the rest |
| Common.SplitFirst | src/common.rs:101 | the first field of a split is everything before the first separator |
| Common.SplitLine | src/common.rs:101-105 | the fields of `name:password:uid…` are the name, the password and the uid text |
| Common.ParseLineRoundTrip | src/common.rs:95-107 | a line `name:password:uid`, followed by nothing or by `:` and more fields, reads back as the account with that name and uid |
| Common.UsersSound | src/common.rs:92-110 | every parsed user is the parse of some line, so it carries that line's first field as name and its parsed third field as uid |
| Common.UsersComplete | src/common.rs:92-110 | every non-blank well-formed line contributes its user |
| Common.UsersFromLines | src/common.rs:92-110 | the users are exactly those the non-blank lines denote |
| Common.ReadPasswd | src/common.rs:92-110 | the line loop succeeds exactly when every line is blank or well-formed, and then returns the users of the lines in order; otherwise it panics |
| Common.IdMap | src/common.rs:112-115 | the keys of `read_passwd_idmap` are exactly the parsed uids |
| Common.IdMapLatest | src/common.rs:112-115 | a uid maps to the name of its last line |
| Common.NameMap | src/common.rs:117-120 | the keys of `read_passwd_nmap` are exactly the parsed names |
| Common.NameMapLatest | src/common.rs:117-120 | a name maps to the uid of its last line |
| Common.GuessUid | src/common.rs:123-130 | the uid of `$USER` when the directory knows that name, 0 when it is unset or unknown |
| Common.FirstRegularFile | src/utmp.rs:162-171 | the first candidate path that is a regular file; `NotFound` exactly when there is none |
| Utmp.DecodeEntry | src/utmp.rs:18-33 | decoding 384 bytes gives fields of their declared widths |
| Utmp.EncodeEntry | src/utmp.rs:18-33 | an entry encodes to 384 bytes |
| Utmp.EntryRoundTrip | src/utmp.rs:18-33 | decoding an encoded entry gives the entry back |
| Utmp.Stringify | src/utmp.rs:38-42 | succeeds exactly on valid UTF-8, otherwise `InvalidData`; the text neither starts nor ends with NUL |
| Utmp.StringifyFraming | src/utmp.rs:38-42 | the bytes are zero bytes, then the UTF-8 encoding of the returned text, then zero bytes |
| Utmp.ReadUtmp | src/utmp.rs:75-82 | accepts a full entry exactly when its kind is in 0..10 and its time is nonzero, returning it unchanged; a short buffer gives `UnexpectedEof`, a rejected entry `InvalidData` |
| Utmp.MapRecord | src/utmp.rs:45-57 | fails with `InvalidData` exactly on a non-UTF-8 tty or user or an unknown kind; the name and tty are the trimmed texts; the uid is the directory's for that name or none; `Never` exactly when `sec` is 0, else `sec as u32` |
| Utmp.ReadEntry | src/utmp.rs:97-99 | one scan step succeeds exactly on a full, plausible, decodable entry of kind 0..9; its record has a login time and the directory's uid for its name |
| Utmp.SetLatest | src/utmp.rs:60-71 | the new name becomes a key; its record is kept only when both times are set and the stored one is strictly newer, otherwise replaced; every other key is unchanged |
| Utmp.TraceVisits | src/utmp.rs:89-105 | the scan decodes the entries at len−384, len−768, … in that order; every merged record but the last fails `until`; it stops at offset 0 or at a record `until` accepts |
| Utmp.TraceStopsAt | src/utmp.rs:100-103 | when the j newest entries pass and the next satisfies `until`, exactly j+1 records are merged and no older entry is read |
| Utmp.TraceAbortsAt | src/utmp.rs:96-99 | a decode error at any entry the scan reaches fails the whole call with that error |
| Utmp.TraceMisaligned | src/utmp.rs:93-96 | a length that is not a multiple of 384 fails with `InvalidInput` once the scan passes the last whole entry |
| Utmp.TraceWhole | src/utmp.rs:93-105 | a scan that reaches offset 0 merges one record per entry |
| Utmp.MergeAllKeys | src/utmp.rs:60-71 | the merged map's keys are exactly the names of the merged records |
| Utmp.MergeAllMax | src/utmp.rs:60-71 | latest wins: every merged record's name maps to a record at least as recent |
| Utmp.MergeAllChosen | src/utmp.rs:60-71 | every merged value is a scanned record with that name, and every record with that name scanned after it is strictly older |
| Utmp.MergeConsistent | src/utmp.rs:52 | every merged record sits under its own name and carries the directory's uid for it |
| Utmp.ResolveCovers | src/utmp.rs:107-112 | the result's keys are the directory's names plus the scanned names; each record sits under its own name with the directory's uid; a directory account never seen has a `Never` record |
| Utmp.ResolveLatest | src/utmp.rs:85-112 | every scanned record's name maps to a record at least as recent |
| Utmp.ReadAllSucceeds | src/utmp.rs:149-152 | `read_all` succeeds exactly when the file is whole entries and every one of them decodes |
| Utmp.SearchUsernameStopsAtNewest | src/utmp.rs:201-210 | when the newest entry carries the name, the lookup reads only that entry and returns its record |
| Utmp.StopsAtNewest | src/utmp.rs:100-103 | when the newest entry satisfies `until`, the scan merges just that one |
| Utmp.Scan | src/utmp.rs:89-105 | the backward-scan loop returns the merged map of the scan's records or its first error |
| Utmp.ReadUntil | src/utmp.rs:85-113 | equals the scan followed by the `Never` fill; every directory name is a key, and every record sits under its own name |
| Utmp.FillMissing | src/utmp.rs:107-111 | keeps every scanned record and adds `new_record` for exactly the directory names without one |
| Utmp.ReadAll | src/utmp.rs:149-152 | the scan that never stops early; `Ok` exactly for whole, decodable files |
| Utmp.FirstRead | src/utmp.rs:157-158 | the 384 bytes the first read leaves in the zeroed buffer |
| Utmp.IsValid | src/utmp.rs:156-159 | true exactly when the first entry of the file is plausible |
| Utmp.IsValidEncoded | src/utmp.rs:156-159 | a file starting with an encoded entry is valid exactly when that entry's kind is in 0..10 and its time is nonzero |
| Utmp.PrimaryFile | src/utmp.rs:161-172 | `/var/run/utmp`, then `/var/log/utmp`, then `/var/log/wtmp`, the first that is a regular file; otherwise `NotFound` |
| Utmp.Sessions | src/utmp.rs:176-185 | the keys are exactly the uids of the user-process records with a uid; each value is such a record with that uid |
| Utmp.IterAccounts | src/utmp.rs:175-186 | the errors of `read_all`; otherwise the user-process records with a uid, one per uid |
| Utmp.ResolveHasUid | src/utmp.rs:189-198 | the resolved map holds a record with a given uid exactly when the directory has an account with it |
| Utmp.SearchUid | src/utmp.rs:189-198 | the scan's errors; otherwise succeeds exactly when the directory has the uid, with a resolved record of that uid, else `InvalidInput` |
| Utmp.SearchUsername | src/utmp.rs:201-210 | the scan's errors; otherwise the resolved record under the name, or `InvalidInput` when there is none |
| LastLog.DecodeSlot | src/lastlog.rs:17 | decoding 292 bytes gives fields of their declared widths |
| LastLog.EncodeSlot | src/lastlog.rs:17 | a slot encodes to 292 bytes |
| LastLog.SlotRoundTrip | src/lastlog.rs:17 | decoding an encoded slot gives the slot back |
| LastLog.SlotCanonical | src/lastlog.rs:17 | encoding a decoded slot gives its bytes back |
| LastLog.MapRecord | src/lastlog.rs:22-30 | fails with `InvalidData` exactly on a non-UTF-8 tty; otherwise the record has the given name and uid, the trimmed tty, and `Never` exactly when the time is 0 |
| LastLog.SlotBytes | src/lastlog.rs:35-37 | the 292 bytes starting at offset `uid * 292` |
| LastLog.ReadLastlog | src/lastlog.rs:33-41 | succeeds exactly when slot `uid` is in the file and its tty decodes; a short file gives `UnexpectedEof`, a bad tty `InvalidData`; the record is that slot's |
| LastLog.SlotWriteRead | src/lastlog.rs:33-41 | a slot written at offset `uid * 292` reads back with `Last(t)` for t > 0, `Never` for t = 0, and its trimmed tty |
| LastLog.IsValid | src/lastlog.rs:60-63 | true exactly when the slot of the guessed uid reads |
| LastLog.PrimaryFile | src/lastlog.rs:65-76 | `/var/log/lastlog` when it is a regular file, otherwise `NotFound` |
| LastLog.SearchUid | src/lastlog.rs:91-98 | an unknown uid fails with `InvalidInput` before any read; otherwise the slot's record, carrying the uid and the directory's name, or its read error |
| LastLog.SearchUsername | src/lastlog.rs:100-107 | an unknown name fails with `InvalidInput`; otherwise the record of the name's slot, carrying the name |
| LastLog.SearchAgree | src/lastlog.rs:91-107 | for a user whose name and uid are both unique, the search by name and the search by uid give the same result |
| LastLog.Least | src/lastlog.rs:82-83 | the smallest uid of a nonempty set |
| LastLog.AscendingLength | src/lastlog.rs:82-83 | sorting the directory's uids lists each once |
| LastLog.AscendingMembers | src/lastlog.rs:82-83 | the sorted list holds exactly the directory's uids |
| LastLog.AscendingIncreasing | src/lastlog.rs:82-83 | the sorted list is strictly increasing |
| LastLog.CollectMeaning | src/lastlog.rs:84-88 | the read loop succeeds exactly when every read does, returning their records in order; otherwise the first failing read's error |
| LastLog.ReadAscending | src/lastlog.rs:82-88 | the loop reads the uids in ascending order and collects the results |
| LastLog.IterAccounts | src/lastlog.rs:78-89 | the slot reads of the directory's uids in ascending order |
| LastLog.CollectAllOk | src/lastlog.rs:84-88 | the sweep succeeds exactly when every uid's read succeeds |
| LastLog.CollectFirstError | src/lastlog.rs:84-88 | a failing sweep returns the error of the smallest failing uid |
| LastLog.CollectAscending | src/lastlog.rs:78-89 | one read per uid, in ascending order; `Ok` exactly when all succeed; otherwise the smallest failing uid's error |
| LastLog.ReadUidTagged | src/lastlog.rs:85 | a record read for a uid carries that uid and the directory's name for it |
| LastLog.CollectTagged | src/lastlog.rs:78-89 | a successful sweep with tagged reads has one record per account, each with its own name, in strictly ascending uid |
| LastLog.IterAccountsMeaning | src/lastlog.rs:78-89 | a successful `iter_accounts` has one record per directory uid, each with that uid's name, in strictly ascending uid |
| WinApi.NulIndex | src/winapi.rs:19-22 | the position of the first 0 unit |
| WinApi.WideText | src/winapi.rs:16-26 | succeeds exactly when the units before the first 0 are valid UTF-16, and then is the text they encode; otherwise an error |
| WinApi.WstrString | src/winapi.rs:16-26 | the copy loop up to the terminator followed by `from_utf16` |
| WinApi.EncodeNoNul | src/winapi.rs:19 | a string without NUL encodes to units without 0 |
| WinApi.WideTextRoundTrip | src/winapi.rs:16-26 | a NUL-terminated encoding of a NUL-free string reads back as that string, whatever follows the terminator |
| WinApi.MaxDefault | src/winapi.rs:41-57 | some exactly when a `defaultuser*` record has a login, with the time of one such record and no smaller than any of them |
| WinApi.GetLatestDefault | src/winapi.rs:32-60 | a failure is the `expect` panic, and a correction is always a concrete login; `LatestDefaultMeaning` gives its full meaning |
| WinApi.LatestDefaultMeaning | src/winapi.rs:32-60 | `None` exactly when some login belongs to a non-default account; it panics exactly when no account has a login at all; otherwise it is the time of a `defaultuser*` login, and no login is later |
| WinApi.LatestDefaultIsNewest | src/winapi.rs:32-60 | when only `defaultuser*` accounts have logins, the correction is defined and no earlier than any of them |
| WinApi.ListingOutcome | src/winapi.rs:144-162 | the mapping succeeds exactly when every name decodes, and otherwise panics |
| WinApi.ListingMeaning | src/winapi.rs:144-162 | one record per account in order: user kind, `Some(user_id)`, the decoded name, tty `N/A`, `Never` exactly when `last_logon` is 0 |
| WinApi.ListingFails | src/winapi.rs:145 | one undecodable name makes the whole mapping panic |
| WinApi.IterAccounts | src/winapi.rs:144-162 | the mapping loop equals the listing of the accounts |
| WinApi.First | src/winapi.rs:167-173 | the index of the first record satisfying the predicate, or none when none does |
| WinApi.Corrected | src/winapi.rs:169-171 | the record with its login replaced by the correction when there is one, all other fields kept |
| WinApi.LookupMeaning | src/winapi.rs:165-194 | succeeds exactly when some record matches, with the first match corrected; otherwise `InvalidInput` |
| WinApi.Find | src/winapi.rs:165-194 | the search loop returns the corrected first match or `InvalidInput` |
| WinApi.SearchUsername | src/winapi.rs:165-177 | the listing's errors; otherwise the corrected first record with that name, or `InvalidInput` |
| WinApi.SearchUid | src/winapi.rs:179-194 | the listing's errors; otherwise the corrected first record with that uid, or `InvalidInput` |
| WinApi.SearchUidFindsAccount | src/winapi.rs:179-194 | a found record comes from an account with that user id, whose name decodes to the record's name |
| WinApi.IsValid | src/winapi.rs:102-104 | every file is valid |
| WinApi.PrimaryFile | src/winapi.rs:106-108 | the empty path |
| Legacy.ReadSlot | src/lib.rs:98-105 | succeeds exactly when slot `uid` is in the file, returning the slot whose encoding is those bytes; otherwise `UnexpectedEof` |
| Legacy.MapRecord | src/lib.rs:72-79 | fails with `InvalidData` exactly on a non-UTF-8 tty; otherwise the uid, the trimmed tty and `Never` exactly when the time is 0 |
| Legacy.SearchUid | src/lib.rs:169-173 | succeeds exactly when slot `uid` is in the file and its tty decodes; a short file gives `UnexpectedEof`, a bad tty `InvalidData`; the login has the uid, the trimmed tty and the slot's time |
| Legacy.SearchUidAgrees | src/lib.rs:169-173 | the standalone `search_uid` is the lastlog reader's slot read, stripped of name and kind |
| Legacy.Manifest | src/lib.rs:145-154 | every name in a successful manifest holds the read of an account with that name |
| Legacy.NamesSnoc | src/lib.rs:147 | the names of a directory are those of all but its last account plus the last one's |
| Legacy.ManifestOutcome | src/lib.rs:145-154 | `iter_accounts` succeeds exactly when every user's slot reads; otherwise the first failure's error |
| Legacy.ManifestKeys | src/lib.rs:145-154 | the keys are exactly the directory's names |
| Legacy.ManifestLatest | src/lib.rs:145-154 | a name holds the record read for the uid of its last line |
| Legacy.ManifestFails | src/lib.rs:149-150 | the first failing read fails the whole call with its error |
| Legacy.IterAccounts | src/lib.rs:145-154 | a malformed directory panics; otherwise the loop inserts one record per user, keyed by name |
| Legacy.Named | src/lib.rs:190 | the `filter`: every kept account has that name and is in the directory |
| Legacy.Lookup | src/lib.rs:190-195 | a successful lookup is the read of an account with that name |
| Legacy.SearchUsername | src/lib.rs:188-196 | a malformed directory panics; a success is the `search_uid` of a parsed account with that name |
| Legacy.LookupUnique | src/lib.rs:188-196 | a name on exactly one line is answered by the read of its uid |
| Legacy.LookupAbsent | src/lib.rs:188-196 | a name on no line fails with `NotFound` |
| Legacy.LookupAmbiguous | src/lib.rs:188-196 | a name on two or more lines fails with `NotFound` |

## Left out

- File access: `File::open`, `seek`, `read`, `read_exact` and `metadata().is_file()`. A file is a byte sequence. Whether a path is a regular file is a predicate parameter. The errors of opening a file are not modelled.
- The Windows `NetUserEnum` call, its error-code path, and the raw-pointer slicing of its result. The model starts from the enumerated accounts as a list. `get_username` and `GetUserNameW` call into the operating system and are not part of this model.
- `#[cached]` memoisation of the passwd maps. The maps are plain functions of the passwd lines.
- The `USER` environment variable. It is passed to `guess_uid` as an `Option<string>`.
- Reading `/etc/passwd` and splitting it into lines. The model starts from the lines. Lines whose read fails are not represented.
- Iteration order of `HashMap`. The utmp and `src/lib.rs` results are maps. Which of two records with the same uid `Utmp.IterAccounts` keeps is left open, as the source does.
- `SystemTime` and `Duration`. A login time is a natural number of seconds.
- `src/compat.rs`: the platform `cfg` wiring and `search_self`. It is configuration glue and not part of this model.
- `test.py` is a debugging dump script that only does I/O, and is not part of this model.
- The debug-build panic of the `seek` underflow in `read_until`. The model follows the release build, where the seek to the wrapped offset fails.
- Utmp.IsValid: assumes the handle is freshly opened, at offset 0. The source reads from the handle's current position, which the model does not track.
- `src/lib.rs`'s own `unix_timestamp`, `read_struct` and `read_passwd`. They are the same as those of `src/common.rs`, and `Common.UnixTimestamp`, `Common.ReadStruct` and `Common.ReadPasswd` model them.
- Utmp.Sessions: says which records may be kept, not which one `HashMap` insertion order keeps.
